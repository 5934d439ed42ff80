/** The page session of the branch name generator: the selected prefix, the
    slug of the typed title and the theme, the text shown as the result, and
    the key-value store the theme is mirrored to. */
module Generator {
  import opened Slug
  import opened SlugProperties
  import opened Themes

  /** `Selectors`: the branch prefixes the selector buttons offer. */
  datatype Selector = Feature | Bugfix | Hotfix {
    function Name(): (s: string)
      ensures '/' !in s
    {
      match this
      case Feature => "feature"
      case Bugfix => "bugfix"
      case Hotfix => "hotfix"
    }
  }

  /** `localStorage.getItem(key)` on a store held as a map. */
  function Lookup(storage: map<string, string>, key: string): (v: Option<string>)
    ensures v.Some? <==> key in storage
    ensures v.Some? ==> v.value == storage[key]
  {
    if key in storage then Some(storage[key]) else None
  }

  /** Splits a displayed branch name at its first '/' into the prefix and
      what follows; None when there is no '/'. */
  function ParseBranchName(name: string): Option<(string, string)> {
    if name == [] then None
    else if name[0] == '/' then Some(("", name[1..]))
    else match ParseBranchName(name[1..])
      case None => None
      case Some(parts) => Some(([name[0]] + parts.0, parts.1))
  }

  /** The displayed `${selector}/${slug}` splits back into the selector and
      the slug when the selector has no '/' of its own. */
  lemma {:induction false} ParseBranchNameOfResult(selector: string, slug: string)
    requires '/' !in selector
    ensures ParseBranchName(selector + "/" + slug) == Some((selector, slug))
  {
    if selector == [] {
      assert selector + "/" + slug == ['/'] + slug;
    } else {
      var name := selector + "/" + slug;
      assert name[0] == selector[0] && name[0] != '/';
      assert name[1..] == selector[1..] + "/" + slug;
      ParseBranchNameOfResult(selector[1..], slug);
      assert [selector[0]] + selector[1..] == selector;
    }
  }

  /** The `state` object of `initBranchNameGenerator`, with the text of the
      result element and the theme's key-value store beside it. */
  class Session {
    var activeSelector: string
    var slug: string
    var theme: Theme
    var resultText: string
    var storage: map<string, string>

    /** The result element shows `${activeSelector}/${slug}`. */
    ghost predicate ResultShown()
      reads this
    {
      resultText == activeSelector + "/" + slug
    }

    /** The slug is always the output of slugifyTitle (or the initial empty
      slug), so it is a well-formed slug. */
    ghost predicate SlugWellFormed()
      reads this
    {
      IsSlug(slug)
    }

    /** The store holds the current theme's name under the theme key. */
    ghost predicate ThemeStored()
      reads this
    {
      Lookup(storage, THEME_STORAGE_KEY) == Some(theme.Name())
    }

    ghost predicate Valid()
      reads this
    {
      ResultShown() && SlugWellFormed() && ThemeStored()
    }

    /** Initialisation once the page's elements are found: prefix `feature`,
        an empty slug, the detected theme, then `updateResult()` and
        `setTheme(state.theme)`. */
    constructor (initialStorage: map<string, string>, prefersLight: bool)
      ensures Valid()
      ensures activeSelector == Feature.Name() && slug == ""
      ensures resultText == "feature/"
      ensures theme == DetectInitialTheme(Lookup(initialStorage, THEME_STORAGE_KEY), prefersLight)
      ensures storage == initialStorage[THEME_STORAGE_KEY := theme.Name()]
    {
      activeSelector := Feature.Name();
      slug := "";
      theme := DetectInitialTheme(Lookup(initialStorage, THEME_STORAGE_KEY), prefersLight);
      resultText := "";
      storage := initialStorage;
      new;
      UpdateResult();
      SetTheme(theme);
    }

    /** `updateResult`: shows `${activeSelector}/${slug}`. */
    method UpdateResult()
      modifies this`resultText
      ensures ResultShown()
    {
      resultText := activeSelector + "/" + slug;
    }

    /** `setSelector`: switches the prefix and re-renders the result; the
        slug, the theme and the store are untouched. */
    method SetSelector(selector: string)
      requires Valid()
      modifies this`activeSelector, this`resultText
      ensures Valid()
      ensures activeSelector == selector
      ensures resultText == selector + "/" + slug
      ensures slug == old(slug) && theme == old(theme) && storage == old(storage)
    {
      activeSelector := selector;
      UpdateResult();
    }

    /** `handleTitleInput`: the slug becomes the slugified title and the
        result is re-rendered; the prefix, the theme and the store are
        untouched. */
    method HandleTitleInput(value: string)
      requires Valid()
      modifies this`slug, this`resultText
      ensures Valid()
      ensures slug == SlugifyTitle(value)
      ensures resultText == activeSelector + "/" + SlugifyTitle(value)
      ensures activeSelector == old(activeSelector) && theme == old(theme) && storage == old(storage)
    {
      slug := SlugifyTitle(value);
      SlugifyTitleIsSlug(value);
      UpdateResult();
    }

    /** `setTheme`: records the theme and writes its name under the theme
        key; the rest of the store, the prefix, the slug and the result are
        untouched. */
    method SetTheme(t: Theme)
      requires ResultShown() && SlugWellFormed()
      modifies this`theme, this`storage
      ensures Valid()
      ensures theme == t
      ensures storage == old(storage)[THEME_STORAGE_KEY := t.Name()]
      ensures activeSelector == old(activeSelector) && slug == old(slug) && resultText == old(resultText)
    {
      theme := t;
      storage := storage[THEME_STORAGE_KEY := t.Name()];
    }

    /** `toggleTheme`: light becomes dark, anything else light, and the new
        theme is stored. */
    method ToggleTheme()
      requires Valid()
      modifies this`theme, this`storage
      ensures Valid()
      ensures theme == Toggled(old(theme))
      ensures storage == old(storage)[THEME_STORAGE_KEY := theme.Name()]
      ensures activeSelector == old(activeSelector) && slug == old(slug) && resultText == old(resultText)
    {
      SetTheme(Toggled(theme));
    }

    /** The text `copyToClipboard` hands to the clipboard: the result
        element's text, which is the displayed branch name. */
    method CopyText() returns (text: string)
      requires Valid()
      ensures text == activeSelector + "/" + slug
      ensures IsSlug(text[|activeSelector| + 1..])
    {
      text := resultText;
      assert text[|activeSelector| + 1..] == slug;
    }
  }

  /** The theme a session stores is the one detected on the next page load,
      whatever the operating system then prefers. */
  lemma ThemeSurvivesReload(s: Session, prefersLight: bool)
    requires s.Valid()
    ensures DetectInitialTheme(Lookup(s.storage, THEME_STORAGE_KEY), prefersLight) == s.theme
  {
    StoredThemeWins(s.theme, prefersLight);
  }

  /** For the built-in prefixes, the displayed result splits back into the
      active prefix and the slug. */
  lemma ResultSplitsBack(s: Session)
    requires s.Valid()
    requires s.activeSelector in {Feature.Name(), Bugfix.Name(), Hotfix.Name()}
    ensures ParseBranchName(s.resultText) == Some((s.activeSelector, s.slug))
  {
    ParseBranchNameOfResult(s.activeSelector, s.slug);
  }
}
