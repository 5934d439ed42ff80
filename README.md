# Branch name generator: slug pipeline, initial theme and page session

This project models the core of a browser page that turns a task title into a
git branch name of the form `prefix/slug`. It has four files:

- `slug.dfy` (module `Slug`): `slugifyTitle`, which runs five stages in a fixed
  order. It trims, lower-cases, drops every character outside `[\w\s-]`, turns
  each white-space run into `-`, and collapses each hyphen run into one `-`. Each
  stage is its own function. Four generic helpers do the work: `DropWhile` and
  `DropLastWhile` for `trim`, `Filter` for the character strip, and
  `ReplaceRuns` for the two `replace(/X+/g, '-')` calls. Each helper takes a
  `CharClass` (`\s`, `-`, `\w`, `[\w\s-]`).
- `slug_properties.dfy` (module `SlugProperties`): what each stage and the whole
  pipeline promise. The output alphabet is `[a-z0-9_-]`, so it has no white
  space. It never has two hyphens in a row. The title's word characters are kept
  in order, lower-cased. Applying the pipeline twice gives the same slug as once.
  Every white-space or hyphen run between two words becomes exactly one `-`,
  and white space around the title is dropped: `ReplaceRunsSplit` states this
  for one run, and `SlugifyJoin`, `SlugifyJoinTrimmed`, `SlugifyTwoWords` and
  `SlugifyThreeWords` state it for the whole pipeline.
- `themes.dfy` (module `Themes`): the `Themes` enum, `detectInitialTheme` as a
  pure function of the stored value and the operating system's light-scheme
  preference, and the theme `toggleTheme` switches to.
- `generator.dfy` (module `Generator`): the `Selectors` enum and the session of
  `initBranchNameGenerator` as a class `Session`. Its fields are the three state
  values (`activeSelector`, `slug`, `theme`), the result element's text, and the
  key-value store as a `map<string, string>`. Each handler is a method with a
  field-level `modifies` clause. The invariant `Valid()` holds after
  construction and after every handler. It says three things: the result shows
  `activeSelector + "/" + slug`, the slug is a well-formed slug, and the store
  holds the current theme's name under `branch-name-generator-theme`.

Characters are ASCII-classified, as JavaScript regular expressions without the
`u` flag do it. `\w` is `[A-Za-z0-9_]`. `\s` and `trim` use space, tab, line
feed, vertical tab, form feed and carriage return. Lower-casing maps only
`A`–`Z`.

The environment is passed in as parameters: the store's contents
(`localStorage`) and the `prefers-color-scheme: light` match
(`window.matchMedia`). A missing key, a store that is not there and a store that
throws on reading all reach `DetectInitialTheme` as `None`.

## Model

| member | source | states |
|---|---|---|
| Slug.LowerChar | main.js:17 | ASCII lower-casing: no upper-case letter remains; 'A'..'Z' move to 'a'..'z' and every other character is unchanged, so the `\w`, `\s` and `-` classes are preserved |
| Slug.SlugifyTitle | main.js:14-20 | the five stages in the source's order; its contract is stated by `SlugifyTitleIsSlug`, `SlugifyKeepsWordChars`, `SlugifyIdempotent`, `SlugifyIgnoresSurroundingWhitespace`, `SlugifyJoin` and `SlugifyTwoWords` below |
| Slug.Trim | main.js:16 | `trim`; its contract is stated by `TrimSpec` below |
| Slug.ToLowerCase | main.js:17 | `toLowerCase`; its contract is stated by `ToLowerCaseSpec` and `ToLowerCaseConcat` below |
| Slug.StripDisallowed | main.js:18 | `replace(/[^\w\s-]/g, '')`; its contract is stated by `FilterSpec` and `StripDisallowedOfLowered` below |
| Slug.HyphenateWhitespace | main.js:19 | `replace(/\s+/g, '-')`; its contract is stated by `ReplaceRunsSpec`, `ReplaceRunsSplit` and `HyphenateWhitespaceSlugChars` below |
| Slug.CollapseHyphens | main.js:20 | `replace(/-+/g, '-')`; its contract is stated by `ReplaceRunsSpec`, `ReplaceRunsSplit` and `CollapseHyphensIsSlug` below |
| Slug.ReplaceRuns | main.js:19-20 | `replace(/P+/g, rep)` for a class `P`; its contract is stated by `ReplaceRunsSpec`, `ReplaceRunsOfRun`, `ReplaceRunsConcat` and `ReplaceRunsSplit` below |
| SlugProperties.DropWhileSpec | main.js:16 | the leading cut of `trim` removes only characters of the class and leaves a suffix that does not start with one |
| SlugProperties.DropLastWhileSpec | main.js:16 | the trailing cut of `trim` removes only characters of the class and leaves a prefix that does not end with one |
| SlugProperties.DropWhileConcat | main.js:16 | the leading cut of a concatenation reaches into the second part exactly when the first part consists of class characters only |
| SlugProperties.DropLastWhileConcat | main.js:16 | a trailing part made of class characters is cut off whole, and the cut then continues into what precedes it |
| SlugProperties.TrimSpec | main.js:16 | `trim` yields the slice of the input left after cutting white space, and only white space, off both ends; the slice neither starts nor ends with white space |
| SlugProperties.ToLowerCaseSpec | main.js:17 | `toLowerCase` keeps the length and lower-cases each character in place |
| SlugProperties.ToLowerCaseConcat | main.js:17 | `toLowerCase` works character by character, so it distributes over concatenation |
| SlugProperties.FilterSpec | main.js:18 | the strip keeps only characters of the class, each taken from the input, and keeps the input whole when every character is in the class |
| SlugProperties.FilterEnds | main.js:18 | the strip keeps a first and a last character that are in the class |
| SlugProperties.ReplaceRunsHead | main.js:19-20 | the replacement starts with the replacement character when the input starts with a run, and with the input's first character otherwise |
| SlugProperties.ReplaceRunsSpec | main.js:19-20 | after a run replacement every character is the replacement or an input character outside the class, and no two characters of the class are adjacent |
| SlugProperties.ReplaceRunsOfRun | main.js:19-20 | a non-empty run of class characters becomes exactly one replacement character |
| SlugProperties.ReplaceRunsConcat | main.js:19-20 | the replacement of `x + y` is the replacement of `x` followed by that of `y` whenever no run crosses the border between them |
| SlugProperties.ReplaceRunsSplit | main.js:19-20 | a maximal run `w` between `a` and `b` becomes exactly one replacement character: `a + w + b` gives the replacement of `a`, then `rep`, then the replacement of `b` |
| SlugProperties.ReplaceRunsLast | main.js:19-20 | an input ending outside the class keeps its last character in last place |
| SlugProperties.StripDisallowedOfLowered | main.js:17-18 | after lower-casing and `replace(/[^\w\s-]/g, '')` only lower-case letters, digits, `_`, `-` and white space remain |
| SlugProperties.HyphenateWhitespaceSlugChars | main.js:19 | `replace(/\s+/g, '-')` leaves no white space: only slug characters remain |
| SlugProperties.HyphenateSeparators | main.js:19 | a non-empty mix of white space and hyphens becomes a non-empty string of hyphens only |
| SlugProperties.HyphenateCollapseJoin | main.js:19-20 | a run of white space and hyphens between two parts becomes exactly one `-` after both replacements, and each part is replaced on its own |
| SlugProperties.CollapseHyphensIsSlug | main.js:20 | `replace(/-+/g, '-')` on slug characters gives a string with no two hyphens in a row |
| SlugProperties.SlugifyTitleIsSlug | main.js:14-20 | the slug contains only `a-z`, `0-9`, `_` and `-` (so no white space, leading, trailing or inner) and never two consecutive hyphens |
| SlugProperties.FilterReplaceRuns | main.js:19-20 | replacing runs of white space or hyphens by `-` keeps all word characters in order |
| SlugProperties.SlugifyKeepsWordChars | main.js:14-20 | the word characters of the slug are exactly the title's word characters, lower-cased, in their original order |
| SlugProperties.ReplaceRunsFixed | main.js:19-20 | a string whose class characters are already single replacement characters is left unchanged by the run replacement |
| SlugProperties.TrimOfSlug | main.js:16 | a slug has no white space to trim |
| SlugProperties.SlugifySlug | main.js:14-20 | a well-formed slug is its own slug |
| SlugProperties.SlugifyIdempotent | main.js:14-20 | `slugifyTitle(slugifyTitle(s)) == slugifyTitle(s)` for every string |
| SlugProperties.SlugifyIgnoresSurroundingWhitespace | main.js:14-16 | white space before and after a title does not change its slug |
| SlugProperties.SlugifyWord | main.js:14-20 | a title of word characters only is slugified to itself, lower-cased |
| SlugProperties.SlugifyJoin | main.js:14-20 | two parts that start and end with word characters, separated by any non-empty run of white space and hyphens, slugify to the first part's slug, one `-`, and the second part's slug |
| SlugProperties.SlugifyJoinTrimmed | main.js:14-20 | the same, with white space also around the whole title |
| SlugProperties.SlugifyTwoWords | main.js:14-20 | two words separated by a run of white space or hyphens, with white space around them, become `word1-word2` lower-cased |
| SlugProperties.SlugifyThreeWords | main.js:14-20 | three words separated by two runs of white space or hyphens become `word1-word2-word3` lower-cased |
| Themes.Theme.Name | main.js:7-10 | the two themes are named `dark` and `light` |
| Themes.ParseTheme | main.js:36 | a stored string names a theme exactly when it is `dark` or `light`, and then it is that theme's name |
| Themes.PreferredTheme | main.js:43-48 | the fallback theme is light exactly when the operating system prefers a light scheme, and dark otherwise |
| Themes.DetectInitialTheme | main.js:33-49 | the stored value is returned exactly when it is `dark` or `light`; otherwise the result is `light` when the OS prefers light and `dark` when it does not |
| Themes.StoredThemeWins | main.js:35-38 | a stored theme name is restored whatever the OS preference |
| Themes.Toggled | main.js:104 | the next theme differs from the current one, and it is dark exactly when the current one is light |
| Themes.ToggleTwice | main.js:103-106 | toggling twice restores the theme |
| Generator.Selector.Name | main.js:1-5 | the prefixes are `feature`, `bugfix`, `hotfix`, none containing `/` |
| Generator.Lookup | main.js:35 | reading a key gives a value exactly when the key is stored, and then the stored value |
| Generator.ParseBranchNameOfResult | main.js:75 | the displayed `${selector}/${slug}` splits at its first `/` back into the selector and the slug when the selector has no `/` |
| Generator.Session.constructor | main.js:68-72 | the session starts on `feature` with an empty slug, showing `feature/`, with the detected theme written to the store and `Valid()` established |
| Generator.Session.UpdateResult | main.js:74-76 | the result shows `activeSelector + "/" + slug`, nothing else changes |
| Generator.Session.SetSelector | main.js:78-85 | only the prefix and the shown result change; the result is `selector/slug`; slug, theme and store are unchanged |
| Generator.Session.HandleTitleInput | main.js:87-90 | the slug becomes `slugifyTitle(value)` and the result `activeSelector/slug`; prefix, theme and store are unchanged |
| Generator.Session.SetTheme | main.js:92-101 | the theme becomes `t` and the store maps the theme key `branch-name-generator-theme` (`THEME_STORAGE_KEY`, main.js:12) to its name, every other key unchanged; prefix, slug and result are unchanged |
| Generator.Session.ToggleTheme | main.js:103-106 | the theme becomes the toggled one and is written to the store; prefix, slug and result are unchanged |
| Generator.Session.CopyText | main.js:118-119 | the copied text is `activeSelector + "/" + slug`, and what follows the prefix and `/` is a well-formed slug |
| Generator.ThemeSurvivesReload | main.js:95 | the theme a session stored is the theme detected on the next load, whatever the OS then prefers |
| Generator.ResultSplitsBack | main.js:75 | for the built-in prefixes, the shown result splits back into the active prefix and the slug |

## Left out

- The DOM is left out: element lookup, the required-elements check and its `console.error`, event listeners, the active-button class toggling, the `data-theme` attribute, the theme icon and label and `aria-pressed` (main.js:22-31, 54-66, 80-83, 94, 97-100, 129-142). Of the DOM only the result element's text is kept, as `resultText`.
- Clipboard copy and `setCopyState` are left out, because the clipboard is asynchronous and the reset is a timer (main.js:108-127). Only the text that would be copied is modelled (`CopyText`).
- `window.matchMedia` and `localStorage` are not modelled as APIs. They are a boolean input and a map.
- Session: a store that throws on `setItem` is not modelled; `SetTheme` always succeeds. In the source such an exception would escape `setTheme`.
- Unicode is not modelled. The Unicode case mapping of `toLowerCase` and the Unicode white space of `trim` and `\s` are absent. Non-ASCII characters are never upper-case or white space here, so the strip drops them. The source differs on those inputs: it turns U+00A0 into a hyphen, and it lower-cases 'İ' or the Kelvin sign into an ASCII letter that survives.
- Themes.Toggled: the session's theme is always one of the two themes, so "anything else becomes light" is modelled as "dark becomes light". The theme starts from `detectInitialTheme`'s result, and only that result and `toggleTheme`'s result are ever passed to `setTheme`.
- Generator.Session.SetSelector: the value comes from a button's `data-selector` attribute in markup that is not part of this model. It is therefore taken as an arbitrary string, and `ResultSplitsBack` is stated for the three built-in prefixes.
- `sanitizeTaskId`, `formatTaskIdForResult`, `buildBranchName` and the recent-history list are not in this model. Tests and end-to-end scenarios use them, but `main.js` defines none of them. It exports only `slugifyTitle`, `detectInitialTheme` and `Themes` (main.js:144-150).
- The unit tests' literal examples are not stated as lemmas on the literal strings: the verifier evaluates the pipeline on literals at a cost near its resource limit. The general lemmas cover them. `'   task title   '` → `'task-title'` is `SlugifyTwoWords` with the pieces `"   "`, `"task"`, `" "`, `"title"`, `"   "`. A title of three words around white-space or hyphen runs, like `'Fix THIS Bug'`, `'many    spaced    words'` or `'feature--with---dashes'`, is `SlugifyThreeWords` with the words and the runs between them as pieces. An example with characters outside `[\w\s-]` next to a separator, such as `'feat: add @api(#123)!'`, is covered only by `SlugifyTitleIsSlug` and `SlugifyKeepsWordChars`, which state the alphabet and the word characters but not where the hyphens go.
