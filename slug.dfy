/** The title-to-slug pipeline of the branch name generator: trim, lower-case,
    drop every character outside [\w\s-], turn each whitespace run into one
    hyphen, collapse each hyphen run into one hyphen. Characters are classified
    as in a JavaScript regular expression without the `u` flag, restricted to
    ASCII: `\w` is [A-Za-z0-9_], `\s` and `trim` use the six ASCII white-space
    characters, and lower-casing maps only 'A'..'Z'. */
module Slug {

  // ---------------------------------------------------------------------
  // Character classes

  predicate IsWhitespace(c: char) {
    c == ' ' || c == '\t' || c == '\n' || c == '\U{000B}' || c == '\U{000C}' || c == '\r'
  }

  predicate IsUpper(c: char) { 'A' <= c <= 'Z' }

  predicate IsLower(c: char) { 'a' <= c <= 'z' }

  predicate IsDigit(c: char) { '0' <= c <= '9' }

  /** `\w` without the `u` flag. */
  predicate IsWordChar(c: char) { IsUpper(c) || IsLower(c) || IsDigit(c) || c == '_' }

  predicate IsHyphen(c: char) { c == '-' }

  /** The characters `[\w\s-]` keeps. */
  predicate IsAllowed(c: char) { IsWordChar(c) || IsWhitespace(c) || IsHyphen(c) }

  /** The characters a slug is made of. */
  predicate IsSlugChar(c: char) { IsLower(c) || IsDigit(c) || c == '_' || c == '-' }

  /** A well-formed slug: lower-case letters, digits, '_' and '-' only, and
      never two hyphens in a row. */
  predicate IsSlug(s: seq<char>) {
    (forall i :: 0 <= i < |s| ==> IsSlugChar(s[i])) &&
    (forall i :: 0 <= i < |s| - 1 ==> !(IsHyphen(s[i]) && IsHyphen(s[i + 1])))
  }

  /** The character classes the pipeline's regular expressions and `trim`
      test: `\s`, `-`, `\w` and `[\w\s-]`. */
  datatype CharClass = Whitespace | Hyphen | Word | Allowed

  predicate In(c: char, cls: CharClass) {
    match cls
    case Whitespace => IsWhitespace(c)
    case Hyphen => IsHyphen(c)
    case Word => IsWordChar(c)
    case Allowed => IsAllowed(c)
  }

  /** ASCII lower-casing of one character. */
  function LowerChar(c: char): (d: char)
    ensures !IsUpper(d)
    ensures IsWordChar(d) <==> IsWordChar(c)
    ensures IsWhitespace(d) <==> IsWhitespace(c)
    ensures IsHyphen(d) <==> IsHyphen(c)
    ensures !IsUpper(c) ==> d == c
    ensures IsUpper(c) ==> IsLower(d) && d as int - c as int == 'a' as int - 'A' as int
  {
    if IsUpper(c) then (c as int - 'A' as int + 'a' as int) as char else c
  }

  // ---------------------------------------------------------------------
  // Sequence helpers shared by the stages; what they compute is proved in
  // module SlugProperties.

  /** `s` without its longest prefix of characters in class `p`. */
  function DropWhile(s: seq<char>, p: CharClass): (r: seq<char>)
    ensures |r| <= |s|
  {
    if s != [] && In(s[0], p) then DropWhile(s[1..], p) else s
  }

  /** `s` without its longest suffix of characters in class `p`. */
  function DropLastWhile(s: seq<char>, p: CharClass): (r: seq<char>)
    ensures |r| <= |s|
  {
    if s != [] && In(s[|s| - 1], p) then DropLastWhile(s[..|s| - 1], p) else s
  }

  /** The characters of `s` in class `keep`, in order. */
  function Filter(s: seq<char>, keep: CharClass): (r: seq<char>)
    ensures |r| <= |s|
  {
    if s == [] then []
    else if In(s[0], keep) then [s[0]] + Filter(s[1..], keep)
    else Filter(s[1..], keep)
  }

  /** `s.replace(/P+/g, rep)` for the character class `p`: every maximal run
      of characters in `p` becomes the single character `rep`. Read left to
      right, a character of a run is dropped while the next one is in the
      run too, and the run's last character becomes `rep`. */
  function ReplaceRuns(s: seq<char>, p: CharClass, rep: char): seq<char> {
    if s == [] then []
    else if !In(s[0], p) then [s[0]] + ReplaceRuns(s[1..], p, rep)
    else if |s| > 1 && In(s[1], p) then ReplaceRuns(s[1..], p, rep)
    else [rep] + ReplaceRuns(s[1..], p, rep)
  }

  // ---------------------------------------------------------------------
  // The five stages, in the order the source applies them

  /** `String.prototype.trim` on ASCII white space. */
  function Trim(s: seq<char>): seq<char> {
    DropLastWhile(DropWhile(s, Whitespace), Whitespace)
  }

  /** `String.prototype.toLowerCase` on ASCII. */
  function ToLowerCase(s: seq<char>): seq<char> {
    if s == [] then [] else [LowerChar(s[0])] + ToLowerCase(s[1..])
  }

  /** `replace(/[^\w\s-]/g, '')` */
  function StripDisallowed(s: seq<char>): seq<char> {
    Filter(s, Allowed)
  }

  /** `replace(/\s+/g, '-')` */
  function HyphenateWhitespace(s: seq<char>): seq<char> {
    ReplaceRuns(s, Whitespace, '-')
  }

  /** `replace(/-+/g, '-')` */
  function CollapseHyphens(s: seq<char>): seq<char> {
    ReplaceRuns(s, Hyphen, '-')
  }

  /** `slugifyTitle`: the five stages in the source's order. */
  function SlugifyTitle(value: seq<char>): seq<char> {
    CollapseHyphens(HyphenateWhitespace(StripDisallowed(ToLowerCase(Trim(value)))))
  }
}
