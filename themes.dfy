/** The colour themes and the choice of the theme a page starts with. */
module Themes {

  /** What a key-value store returns for a key: its string, or nothing
      (a missing key, an unavailable store, or a store that throws). */
  datatype Option<T> = None | Some(value: T)

  /** `Themes`: the two themes and the strings that name them. */
  datatype Theme = Dark | Light {
    function Name(): (s: string)
      ensures s == "dark" || s == "light"
    {
      match this
      case Dark => "dark"
      case Light => "light"
    }
  }

  /** The key under which the theme is stored. */
  const THEME_STORAGE_KEY: string := "branch-name-generator-theme"

  /** The theme a stored string names, if it is exactly one of the two names. */
  function ParseTheme(s: string): (t: Option<Theme>)
    ensures t.Some? <==> s == Dark.Name() || s == Light.Name()
    ensures t.Some? ==> t.value.Name() == s
  {
    if s == Dark.Name() then Some(Dark)
    else if s == Light.Name() then Some(Light)
    else None
  }

  /** The theme the operating system's colour-scheme preference asks for. */
  function PreferredTheme(prefersLight: bool): (t: Theme)
    ensures t == Light <==> prefersLight
    ensures t == Dark <==> !prefersLight
  {
    if prefersLight then Light else Dark
  }

  /** `detectInitialTheme`, as a function of the stored value and of whether
      the operating system prefers a light colour scheme: a stored value that
      names a theme wins; anything else falls back to the preference. */
  function DetectInitialTheme(stored: Option<string>, prefersLight: bool): (t: Theme)
    ensures stored.Some? && (stored.value == "dark" || stored.value == "light") ==>
              t.Name() == stored.value
    ensures !(stored.Some? && (stored.value == "dark" || stored.value == "light")) ==>
              t == (if prefersLight then Light else Dark)
  {
    if stored.Some? && ParseTheme(stored.value).Some? then ParseTheme(stored.value).value
    else PreferredTheme(prefersLight)
  }

  /** The theme `toggleTheme` switches to: light becomes dark, and every
      other theme becomes light. */
  function Toggled(t: Theme): (u: Theme)
    ensures u != t
    ensures u == Dark <==> t == Light
  {
    if t == Light then Dark else Light
  }

  /** Parsing a theme's name gives the theme back. */
  lemma ParseName(t: Theme)
    ensures ParseTheme(t.Name()) == Some(t)
  {
  }

  /** A stored theme name is restored whatever the operating system prefers. */
  lemma StoredThemeWins(t: Theme, prefersLight: bool)
    ensures DetectInitialTheme(Some(t.Name()), prefersLight) == t
  {
  }

  /** Toggling twice restores the theme. */
  lemma ToggleTwice(t: Theme)
    ensures Toggled(Toggled(t)) == t
  {
  }
}
