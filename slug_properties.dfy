/** What `slugifyTitle` and its stages promise: each stage's effect on its
    input, the slug alphabet, no doubled hyphens, the word characters of the
    title kept in order, and idempotence. */
module SlugProperties {
  import opened Slug

  // ---------------------------------------------------------------------
  // Shapes of concatenations, proved apart from the functions below so that
  // the solver need not search for them

  lemma ConcatAssoc(a: seq<char>, b: seq<char>, c: seq<char>)
    ensures a + b + c == a + (b + c)
  {
  }

  lemma ConcatTail(x: seq<char>, y: seq<char>)
    requires x != []
    ensures (x + y)[0] == x[0] && (x + y)[1..] == x[1..] + y
  {
  }

  // ---------------------------------------------------------------------
  // The helpers

  /** DropWhile cuts a prefix made only of `p` characters, and what is left
      does not start with one. */
  lemma {:induction false} DropWhileSpec(s: seq<char>, p: CharClass, r: seq<char>)
    requires r == DropWhile(s, p)
    ensures r == s[|s| - |r|..]
    ensures forall i :: 0 <= i < |s| - |r| ==> In(s[i], p)
    ensures r != [] ==> !In(r[0], p)
  {
    if s != [] && In(s[0], p) {
      DropWhileSpec(s[1..], p, r);
    }
  }

  /** DropLastWhile cuts a suffix made only of `p` characters, and what is
      left does not end with one. */
  lemma {:induction false} DropLastWhileSpec(s: seq<char>, p: CharClass, r: seq<char>)
    requires r == DropLastWhile(s, p)
    ensures r == s[..|r|]
    ensures forall i :: |r| <= i < |s| ==> In(s[i], p)
    ensures r != [] ==> !In(r[|r| - 1], p)
  {
    if s != [] && In(s[|s| - 1], p) {
      DropLastWhileSpec(s[..|s| - 1], p, r);
    }
  }

  /** Filter keeps only `keep` characters of `s`, and all of them when every
      character of `s` is one. */
  lemma {:induction false} FilterSpec(s: seq<char>, keep: CharClass, r: seq<char>)
    requires r == Filter(s, keep)
    ensures forall i :: 0 <= i < |r| ==> In(r[i], keep) && r[i] in s
    ensures (forall i :: 0 <= i < |s| ==> In(s[i], keep)) ==> r == s
  {
    if s != [] {
      FilterSpec(s[1..], keep, Filter(s[1..], keep));
    }
  }

  /** The first character of a run replacement: `rep` where a run starts,
      the input's first character otherwise. */
  lemma {:induction false} ReplaceRunsHead(s: seq<char>, p: CharClass, rep: char, r: seq<char>)
    requires s != [] && r == ReplaceRuns(s, p, rep)
    ensures r != [] && r[0] == (if In(s[0], p) then rep else s[0])
    decreases |s|
  {
    if In(s[0], p) && |s| > 1 && In(s[1], p) {
      ReplaceRunsHead(s[1..], p, rep, r);
    }
  }

  /** After replacing runs, every character is `rep` or a character of `s`
      outside `p`, and no two characters of `p` are adjacent. */
  lemma {:induction false} ReplaceRunsSpec(s: seq<char>, p: CharClass, rep: char, r: seq<char>)
    requires r == ReplaceRuns(s, p, rep)
    ensures forall i :: 0 <= i < |r| ==> r[i] == rep || (!In(r[i], p) && r[i] in s)
    ensures forall i :: 0 <= i < |r| - 1 ==> !(In(r[i], p) && In(r[i + 1], p))
    decreases |s|
  {
    if s != [] {
      var tail := ReplaceRuns(s[1..], p, rep);
      ReplaceRunsSpec(s[1..], p, rep, tail);
      forall c | c in s[1..] ensures c in s {
        var j :| 0 <= j < |s[1..]| && s[1..][j] == c;
        assert s[j + 1] == c;
      }
      if !In(s[0], p) {
        assert r == [s[0]] + tail;
      } else if |s| > 1 && In(s[1], p) {
        assert r == tail;
      } else {
        if |s| > 1 {
          ReplaceRunsHead(s[1..], p, rep, tail);
        }
        assert r == [rep] + tail;
      }
    }
  }

  /** Cutting the leading run of `p` characters off `x + y`: the cut goes
      on into `y` exactly when all of `x` is cut. */
  lemma {:induction false} DropWhileConcat(x: seq<char>, y: seq<char>, p: CharClass)
    ensures DropWhile(x + y, p) == if DropWhile(x, p) == [] then DropWhile(y, p) else DropWhile(x, p) + y
  {
    if x == [] {
      assert x + y == y;
    } else {
      assert (x + y)[1..] == x[1..] + y;
      if In(x[0], p) {
        DropWhileConcat(x[1..], y, p);
      }
    }
  }

  /** A string made only of `p` characters is cut away entirely. */
  lemma {:induction false} DropWhileOfRun(s: seq<char>, p: CharClass)
    requires forall i :: 0 <= i < |s| ==> In(s[i], p)
    ensures DropWhile(s, p) == []
  {
    if s != [] {
      DropWhileOfRun(s[1..], p);
    }
  }

  /** Cutting trailing `p` characters goes through a suffix made only of
      them. */
  lemma {:induction false} DropLastWhileConcat(x: seq<char>, y: seq<char>, p: CharClass)
    requires forall i :: 0 <= i < |y| ==> In(y[i], p)
    ensures DropLastWhile(x + y, p) == DropLastWhile(x, p)
    decreases |y|
  {
    if y == [] {
      assert x + y == x;
    } else {
      var init := y[..|y| - 1];
      assert (x + y)[..|x + y| - 1] == x + init;
      DropLastWhileConcat(x, init, p);
    }
  }

  /** Replacing runs distributes over a concatenation whose seam does not
      fall inside a run. */
  lemma {:induction false} ReplaceRunsConcat(x: seq<char>, y: seq<char>, p: CharClass, rep: char)
    requires x == [] || y == [] || !In(x[|x| - 1], p) || !In(y[0], p)
    ensures ReplaceRuns(x + y, p, rep) == ReplaceRuns(x, p, rep) + ReplaceRuns(y, p, rep)
    decreases |x|
  {
    if x == [] {
      assert x + y == y;
    } else if |x| == 1 {
      ReplaceRunsConcatOne(x[0], y, p, rep);
      assert x == [x[0]];
    } else {
      ReplaceRunsConcat(x[1..], y, p, rep);
      ReplaceRunsConcatStep(x, y, p, rep);
    }
  }

  /** `ReplaceRunsConcat` for a single character in front. */
  lemma ReplaceRunsConcatOne(c: char, y: seq<char>, p: CharClass, rep: char)
    requires y == [] || !In(c, p) || !In(y[0], p)
    ensures ReplaceRuns([c] + y, p, rep) == ReplaceRuns([c], p, rep) + ReplaceRuns(y, p, rep)
  {
    ConcatTail([c], y);
    assert ([c] + y)[1..] == y;
  }

  /** The inductive step of `ReplaceRunsConcat`: with two characters or
      more in `x`, the first one is treated alike in `x` and in `x + y`. */
  lemma ReplaceRunsConcatStep(x: seq<char>, y: seq<char>, p: CharClass, rep: char)
    requires |x| > 1
    requires ReplaceRuns(x[1..] + y, p, rep) == ReplaceRuns(x[1..], p, rep) + ReplaceRuns(y, p, rep)
    ensures ReplaceRuns(x + y, p, rep) == ReplaceRuns(x, p, rep) + ReplaceRuns(y, p, rep)
  {
    var t := x[1..];
    ConcatTail(x, y);
    assert x[1] == t[0] && (x + y)[1] == t[0] && |x + y| > 1;
    if !In(x[0], p) {
      assert ReplaceRuns(x, p, rep) == [x[0]] + ReplaceRuns(t, p, rep);
      assert ReplaceRuns(x + y, p, rep) == [x[0]] + ReplaceRuns(t + y, p, rep);
    } else if In(t[0], p) {
      assert ReplaceRuns(x, p, rep) == ReplaceRuns(t, p, rep);
      assert ReplaceRuns(x + y, p, rep) == ReplaceRuns(t + y, p, rep);
    } else {
      assert ReplaceRuns(x, p, rep) == [rep] + ReplaceRuns(t, p, rep);
      assert ReplaceRuns(x + y, p, rep) == [rep] + ReplaceRuns(t + y, p, rep);
    }
  }

  /** A non-empty run of `p` characters becomes the single character `rep`. */
  lemma {:induction false} ReplaceRunsOfRun(w: seq<char>, p: CharClass, rep: char)
    requires w != [] && forall i :: 0 <= i < |w| ==> In(w[i], p)
    ensures ReplaceRuns(w, p, rep) == [rep]
  {
    if |w| > 1 {
      ReplaceRunsOfRun(w[1..], p, rep);
    }
  }

  /** Each maximal run becomes exactly one `rep` in its place: a non-empty
      run of `p` characters between a part that does not end with one and a
      part that does not start with one. */
  lemma ReplaceRunsSplit(a: seq<char>, w: seq<char>, b: seq<char>, p: CharClass, rep: char)
    requires w != [] && forall i :: 0 <= i < |w| ==> In(w[i], p)
    requires a == [] || !In(a[|a| - 1], p)
    requires b == [] || !In(b[0], p)
    ensures ReplaceRuns(a + w + b, p, rep) == ReplaceRuns(a, p, rep) + [rep] + ReplaceRuns(b, p, rep)
  {
    ReplaceRunsOfRun(w, p, rep);
    ConcatAssoc(a, w, b);
    ReplaceRunsConcat(a, w + b, p, rep);
    ReplaceRunsConcat(w, b, p, rep);
  }

  /** A run replacement that ends outside `p` ends with the same character. */
  lemma ReplaceRunsLast(s: seq<char>, p: CharClass, rep: char, r: seq<char>)
    requires s != [] && !In(s[|s| - 1], p) && r == ReplaceRuns(s, p, rep)
    ensures r != [] && r[|r| - 1] == s[|s| - 1]
  {
    var init := s[..|s| - 1];
    assert s == init + [s[|s| - 1]];
    ReplaceRunsConcat(init, [s[|s| - 1]], p, rep);
  }

  // ---------------------------------------------------------------------
  // The stages

  /** How many white-space characters `s` starts with. */
  function LeadingWhitespace(s: seq<char>): nat {
    |s| - |DropWhile(s, Whitespace)|
  }

  /** Trim leaves the slice of `s` obtained by cutting white space, and only
      white space, off both ends; the slice neither starts nor ends with
      white space. */
  lemma TrimSpec(s: seq<char>, r: seq<char>)
    requires r == Trim(s)
    ensures LeadingWhitespace(s) + |r| <= |s|
    ensures r == s[LeadingWhitespace(s)..LeadingWhitespace(s) + |r|]
    ensures forall k :: 0 <= k < LeadingWhitespace(s) ==> IsWhitespace(s[k])
    ensures forall k :: LeadingWhitespace(s) + |r| <= k < |s| ==> IsWhitespace(s[k])
    ensures r != [] ==> !IsWhitespace(r[0]) && !IsWhitespace(r[|r| - 1])
  {
    var front := DropWhile(s, Whitespace);
    var i := LeadingWhitespace(s);
    DropWhileSpec(s, Whitespace, front);
    DropLastWhileSpec(front, Whitespace, r);
    assert r == s[i..i + |r|];
    assert r != [] ==> r[0] == front[0];
    forall k | i + |r| <= k < |s| ensures IsWhitespace(s[k]) {
      assert s[k] == front[k - i];
    }
  }

  /** ToLowerCase lower-cases each character in place. */
  lemma {:induction false} ToLowerCaseSpec(s: seq<char>, r: seq<char>)
    requires r == ToLowerCase(s)
    ensures |r| == |s| && forall i :: 0 <= i < |s| ==> r[i] == LowerChar(s[i])
  {
    if s != [] {
      ToLowerCaseSpec(s[1..], ToLowerCase(s[1..]));
    }
  }

  /** After lower-casing and stripping, every character is a slug character
      or white space. */
  lemma StripDisallowedOfLowered(s: seq<char>)
    ensures forall c :: c in StripDisallowed(ToLowerCase(s)) ==> IsSlugChar(c) || IsWhitespace(c)
  {
    var lowered := ToLowerCase(s);
    ToLowerCaseSpec(s, lowered);
    var r := StripDisallowed(lowered);
    FilterSpec(lowered, Allowed, r);
    forall c | c in r ensures IsSlugChar(c) || IsWhitespace(c) {
      var j :| 0 <= j < |r| && r[j] == c;
      var k :| 0 <= k < |lowered| && lowered[k] == c;
    }
  }

  /** Hyphenating white space leaves only slug characters when the input
      has only slug characters and white space. */
  lemma HyphenateWhitespaceSlugChars(s: seq<char>)
    requires forall c :: c in s ==> IsSlugChar(c) || IsWhitespace(c)
    ensures forall c :: c in HyphenateWhitespace(s) ==> IsSlugChar(c)
  {
    var r := ReplaceRuns(s, Whitespace, '-');
    ReplaceRunsSpec(s, Whitespace, '-', r);
    forall c | c in r ensures IsSlugChar(c) {
      var j :| 0 <= j < |r| && r[j] == c;
    }
  }

  /** Collapsing hyphens in a string of slug characters gives a slug. */
  lemma CollapseHyphensIsSlug(s: seq<char>)
    requires forall c :: c in s ==> IsSlugChar(c)
    ensures IsSlug(CollapseHyphens(s))
  {
    var r := ReplaceRuns(s, Hyphen, '-');
    ReplaceRunsSpec(s, Hyphen, '-', r);
    assert forall i :: 0 <= i < |r| ==> r[i] == '-' || r[i] in s;
    assert forall i :: 0 <= i < |r| - 1 ==> !(In(r[i], Hyphen) && In(r[i + 1], Hyphen));
  }

  /** The output of slugifyTitle is a slug: only lower-case letters, digits,
      '_' and '-' (so no white space anywhere, at the ends included), and
      never two hyphens in a row. */
  lemma SlugifyTitleIsSlug(value: seq<char>)
    ensures IsSlug(SlugifyTitle(value))
  {
    var kept := StripDisallowed(ToLowerCase(Trim(value)));
    StripDisallowedOfLowered(Trim(value));
    HyphenateWhitespaceSlugChars(kept);
    CollapseHyphensIsSlug(HyphenateWhitespace(kept));
  }

  // ---------------------------------------------------------------------
  // Filtering by a class commutes with the stages

  lemma {:induction false} FilterConcat(a: seq<char>, b: seq<char>, q: CharClass)
    ensures Filter(a + b, q) == Filter(a, q) + Filter(b, q)
  {
    if a == [] {
      assert a + b == b;
    } else {
      assert (a + b)[1..] == a[1..] + b;
      FilterConcat(a[1..], b, q);
    }
  }

  /** Dropping a prefix of `p` characters does not change which `q`
      characters remain, when no character is in both classes. */
  lemma {:induction false} FilterDropWhile(s: seq<char>, p: CharClass, q: CharClass)
    requires forall c :: In(c, p) ==> !In(c, q)
    ensures Filter(DropWhile(s, p), q) == Filter(s, q)
  {
    if s != [] && In(s[0], p) {
      FilterDropWhile(s[1..], p, q);
    }
  }

  lemma {:induction false} FilterDropLastWhile(s: seq<char>, p: CharClass, q: CharClass)
    requires forall c :: In(c, p) ==> !In(c, q)
    ensures Filter(DropLastWhile(s, p), q) == Filter(s, q)
  {
    if s != [] && In(s[|s| - 1], p) {
      var init := s[..|s| - 1];
      FilterDropLastWhile(init, p, q);
      assert s == init + [s[|s| - 1]];
      FilterConcat(init, [s[|s| - 1]], q);
    }
  }

  lemma {:induction false} FilterToLowerCase(s: seq<char>)
    ensures Filter(ToLowerCase(s), Word) == ToLowerCase(Filter(s, Word))
  {
    if s != [] {
      FilterToLowerCase(s[1..]);
    }
  }

  /** Filtering by a narrower class after a wider one is filtering by the
      narrower one. */
  lemma {:induction false} FilterFilter(s: seq<char>, k: CharClass, q: CharClass)
    requires forall c :: In(c, q) ==> In(c, k)
    ensures Filter(Filter(s, k), q) == Filter(s, q)
  {
    if s != [] {
      FilterFilter(s[1..], k, q);
    }
  }

  /** Replacing runs of `p` characters by `rep` keeps the `q` characters,
      when neither `rep` nor any `p` character is one. */
  lemma {:induction false} FilterReplaceRuns(s: seq<char>, p: CharClass, rep: char, q: CharClass)
    requires forall c :: In(c, p) ==> !In(c, q)
    requires !In(rep, q)
    ensures Filter(ReplaceRuns(s, p, rep), q) == Filter(s, q)
  {
    if s != [] {
      FilterReplaceRuns(s[1..], p, rep, q);
    }
  }

  /** The word characters of the slug are exactly the word characters of
      the title, lower-cased, in their original order: only white space,
      hyphens and characters outside `[\w\s-]` are lost. */
  lemma SlugifyKeepsWordChars(value: seq<char>)
    ensures Filter(SlugifyTitle(value), Word) == ToLowerCase(Filter(value, Word))
  {
    FilterDropWhile(value, Whitespace, Word);
    FilterDropLastWhile(DropWhile(value, Whitespace), Whitespace, Word);
    var trimmed := Trim(value);
    var lowered := ToLowerCase(trimmed);
    FilterToLowerCase(trimmed);
    var kept := StripDisallowed(lowered);
    FilterFilter(lowered, Allowed, Word);
    var hyphenated := HyphenateWhitespace(kept);
    FilterReplaceRuns(kept, Whitespace, '-', Word);
    FilterReplaceRuns(hyphenated, Hyphen, '-', Word);
  }

  // ---------------------------------------------------------------------
  // A slug passes through every stage unchanged

  lemma {:induction false} ToLowerCaseOfLower(s: seq<char>)
    requires forall i :: 0 <= i < |s| ==> !IsUpper(s[i])
    ensures ToLowerCase(s) == s
  {
    if s != [] {
      ToLowerCaseOfLower(s[1..]);
    }
  }

  /** Where every `p` character is already `rep` and none is followed by
      another, replacing runs changes nothing. */
  lemma {:induction false} ReplaceRunsFixed(s: seq<char>, p: CharClass, rep: char)
    requires forall i :: 0 <= i < |s| ==> In(s[i], p) ==> s[i] == rep
    requires forall i :: 0 <= i < |s| - 1 ==> !(In(s[i], p) && In(s[i + 1], p))
    ensures ReplaceRuns(s, p, rep) == s
  {
    if s != [] {
      if In(s[0], p) && |s| > 1 {
        assert !In(s[1], p);
      }
      ReplaceRunsFixed(s[1..], p, rep);
    }
  }

  lemma TrimOfSlug(t: seq<char>)
    requires IsSlug(t)
    ensures Trim(t) == t
  {
  }

  /** A slug is its own slug: every stage leaves it unchanged. */
  lemma SlugifySlug(t: seq<char>)
    requires IsSlug(t)
    ensures SlugifyTitle(t) == t
  {
    TrimOfSlug(t);
    assert ToLowerCase(t) == t by {
      ToLowerCaseOfLower(t);
    }
    assert StripDisallowed(t) == t by {
      FilterSpec(t, Allowed, Filter(t, Allowed));
    }
    assert HyphenateWhitespace(t) == t by {
      ReplaceRunsFixed(t, Whitespace, '-');
    }
    assert CollapseHyphens(t) == t by {
      ReplaceRunsFixed(t, Hyphen, '-');
    }
  }

  /** `slugifyTitle(slugifyTitle(s)) == slugifyTitle(s)` */
  lemma SlugifyIdempotent(value: seq<char>)
    ensures SlugifyTitle(SlugifyTitle(value)) == SlugifyTitle(value)
  {
    SlugifyTitleIsSlug(value);
    SlugifySlug(SlugifyTitle(value));
  }

  // ---------------------------------------------------------------------
  // Where the hyphens go

  lemma {:induction false} ToLowerCaseConcat(x: seq<char>, y: seq<char>)
    ensures ToLowerCase(x + y) == ToLowerCase(x) + ToLowerCase(y)
  {
    if x == [] {
      assert x + y == y;
    } else {
      assert (x + y)[1..] == x[1..] + y;
      ToLowerCaseConcat(x[1..], y);
    }
  }

  /** Stripping keeps the first and the last character when both are kept. */
  lemma FilterEnds(s: seq<char>, keep: CharClass, r: seq<char>)
    requires s != [] && In(s[0], keep) && In(s[|s| - 1], keep) && r == Filter(s, keep)
    ensures r != [] && r[0] == s[0] && r[|r| - 1] == s[|s| - 1]
  {
    var init := s[..|s| - 1];
    assert s == init + [s[|s| - 1]];
    FilterConcat(init, [s[|s| - 1]], keep);
  }

  /** White space around a title does not change its slug. */
  lemma SlugifyIgnoresSurroundingWhitespace(w1: seq<char>, t: seq<char>, w2: seq<char>)
    requires forall i :: 0 <= i < |w1| ==> IsWhitespace(w1[i])
    requires forall i :: 0 <= i < |w2| ==> IsWhitespace(w2[i])
    ensures SlugifyTitle(w1 + t + w2) == SlugifyTitle(t)
  {
    assert w1 + t + w2 == w1 + (t + w2);
    DropWhileOfRun(w1, Whitespace);
    DropWhileConcat(w1, t + w2, Whitespace);
    DropWhileConcat(t, w2, Whitespace);
    var front := DropWhile(t, Whitespace);
    if front == [] {
      DropWhileOfRun(w2, Whitespace);
    } else {
      DropLastWhileConcat(front, w2, Whitespace);
    }
    assert Trim(w1 + t + w2) == Trim(t);
  }

  /** Trim leaves a string that starts and ends with a word character
      unchanged. */
  lemma TrimOfWord(u: seq<char>)
    requires u == [] || (IsWordChar(u[0]) && IsWordChar(u[|u| - 1]))
    ensures Trim(u) == u
  {
  }

  /** Word characters pass through the strip and both run replacements. */
  lemma LastStagesOfWord(t: seq<char>)
    requires forall i :: 0 <= i < |t| ==> IsWordChar(t[i])
    ensures CollapseHyphens(HyphenateWhitespace(StripDisallowed(t))) == t
  {
    FilterSpec(t, Allowed, Filter(t, Allowed));
    ReplaceRunsFixed(t, Whitespace, '-');
    ReplaceRunsFixed(t, Hyphen, '-');
  }

  /** A title of word characters only becomes its lower-case form. */
  lemma SlugifyWord(u: seq<char>)
    requires forall i :: 0 <= i < |u| ==> IsWordChar(u[i])
    ensures SlugifyTitle(u) == ToLowerCase(u)
  {
    var lowered := ToLowerCase(u);
    TrimOfWord(u);
    ToLowerCaseSpec(u, lowered);
    LastStagesOfWord(lowered);
  }

  /** A string of white space and hyphens is hyphenated into a non-empty
      string of hyphens. */
  lemma HyphenateSeparators(w: seq<char>, h: seq<char>)
    requires w != [] && forall i :: 0 <= i < |w| ==> IsWhitespace(w[i]) || IsHyphen(w[i])
    requires h == HyphenateWhitespace(w)
    ensures h != [] && forall i :: 0 <= i < |h| ==> IsHyphen(h[i])
  {
    ReplaceRunsHead(w, Whitespace, '-', h);
    ReplaceRunsSpec(w, Whitespace, '-', h);
  }

  /** The last two stages turn a separator of white space and hyphens into
      exactly one hyphen, in place. */
  lemma HyphenateCollapseJoin(a: seq<char>, w: seq<char>, b: seq<char>)
    requires a == [] || (!IsWhitespace(a[|a| - 1]) && !IsHyphen(a[|a| - 1]))
    requires b == [] || (!IsWhitespace(b[0]) && !IsHyphen(b[0]))
    requires w != [] && forall i :: 0 <= i < |w| ==> IsWhitespace(w[i]) || IsHyphen(w[i])
    ensures CollapseHyphens(HyphenateWhitespace(a + w + b)) ==
            CollapseHyphens(HyphenateWhitespace(a)) + "-" + CollapseHyphens(HyphenateWhitespace(b))
  {
    var ha := HyphenateWhitespace(a);
    var h := HyphenateWhitespace(w);
    var hb := HyphenateWhitespace(b);
    ReplaceRunsConcat(a, w, Whitespace, '-');
    ReplaceRunsConcat(a + w, b, Whitespace, '-');
    assert HyphenateWhitespace(a + w + b) == ha + h + hb;
    HyphenateSeparators(w, h);
    if a != [] {
      ReplaceRunsLast(a, Whitespace, '-', ha);
    }
    if b != [] {
      ReplaceRunsHead(b, Whitespace, '-', hb);
    }
    ReplaceRunsSplit(ha, h, hb, Hyphen, '-');
  }

  /** Lower-casing and stripping keep word characters at both ends. */
  lemma FirstStagesKeepEnds(u: seq<char>, k: seq<char>)
    requires u != [] && IsWordChar(u[0]) && IsWordChar(u[|u| - 1])
    requires k == StripDisallowed(ToLowerCase(u))
    ensures k != [] && IsWordChar(k[0]) && IsWordChar(k[|k| - 1])
  {
    var lowered := ToLowerCase(u);
    ToLowerCaseSpec(u, lowered);
    FilterEnds(lowered, Allowed, k);
  }

  /** The first three stages act on each part of a join separately, and
      leave the separator of white space and hyphens as it is. */
  lemma FirstStagesJoin(u: seq<char>, w: seq<char>, v: seq<char>)
    requires u != [] && IsWordChar(u[0]) && IsWordChar(u[|u| - 1])
    requires v != [] && IsWordChar(v[0]) && IsWordChar(v[|v| - 1])
    requires forall i :: 0 <= i < |w| ==> IsWhitespace(w[i]) || IsHyphen(w[i])
    ensures Trim(u) == u && Trim(v) == v
    ensures StripDisallowed(ToLowerCase(Trim(u + w + v))) ==
            StripDisallowed(ToLowerCase(u)) + w + StripDisallowed(ToLowerCase(v))
  {
    TrimOfWord(u);
    TrimOfWord(v);
    TrimOfWord(u + w + v);
    var lu := ToLowerCase(u);
    var lv := ToLowerCase(v);
    assert ToLowerCase(u + w + v) == lu + w + lv by {
      ToLowerCaseOfLower(w);
      ToLowerCaseConcat(u, w);
      ToLowerCaseConcat(u + w, v);
    }
    FilterSpec(w, Allowed, Filter(w, Allowed));
    FilterConcat(lu, w, Allowed);
    FilterConcat(lu + w, lv, Allowed);
  }

  /** Two titles that start and end with word characters, joined by any
      non-empty run of white space and hyphens, slugify to the two slugs
      joined by one hyphen. */
  lemma SlugifyJoin(u: seq<char>, w: seq<char>, v: seq<char>)
    requires u != [] && IsWordChar(u[0]) && IsWordChar(u[|u| - 1])
    requires v != [] && IsWordChar(v[0]) && IsWordChar(v[|v| - 1])
    requires w != [] && forall i :: 0 <= i < |w| ==> IsWhitespace(w[i]) || IsHyphen(w[i])
    ensures SlugifyTitle(u + w + v) == SlugifyTitle(u) + "-" + SlugifyTitle(v)
  {
    var ku := StripDisallowed(ToLowerCase(u));
    var kv := StripDisallowed(ToLowerCase(v));
    FirstStagesJoin(u, w, v);
    FirstStagesKeepEnds(u, ku);
    FirstStagesKeepEnds(v, kv);
    HyphenateCollapseJoin(ku, w, kv);
  }

  /** White space around two joined titles is trimmed, and the join becomes
      one hyphen. */
  lemma SlugifyJoinTrimmed(w1: seq<char>, u: seq<char>, w: seq<char>, v: seq<char>, w2: seq<char>)
    requires forall i :: 0 <= i < |w1| ==> IsWhitespace(w1[i])
    requires forall i :: 0 <= i < |w2| ==> IsWhitespace(w2[i])
    requires u != [] && IsWordChar(u[0]) && IsWordChar(u[|u| - 1])
    requires v != [] && IsWordChar(v[0]) && IsWordChar(v[|v| - 1])
    requires w != [] && forall i :: 0 <= i < |w| ==> IsWhitespace(w[i]) || IsHyphen(w[i])
    ensures SlugifyTitle(w1 + u + w + v + w2) == SlugifyTitle(u) + "-" + SlugifyTitle(v)
  {
    assert w1 + u + w + v + w2 == w1 + (u + w + v) + w2;
    SlugifyIgnoresSurroundingWhitespace(w1, u + w + v, w2);
    SlugifyJoin(u, w, v);
  }

  /** Two words between any white space, joined by a run of white space or
      hyphens, slugify to the two words lower-cased and joined by one
      hyphen. */
  lemma SlugifyTwoWords(w1: seq<char>, u: seq<char>, w: seq<char>, v: seq<char>, w2: seq<char>)
    requires forall i :: 0 <= i < |w1| ==> IsWhitespace(w1[i])
    requires forall i :: 0 <= i < |w2| ==> IsWhitespace(w2[i])
    requires u != [] && forall i :: 0 <= i < |u| ==> IsWordChar(u[i])
    requires v != [] && forall i :: 0 <= i < |v| ==> IsWordChar(v[i])
    requires w != [] && forall i :: 0 <= i < |w| ==> IsWhitespace(w[i]) || IsHyphen(w[i])
    ensures SlugifyTitle(w1 + u + w + v + w2) == ToLowerCase(u) + "-" + ToLowerCase(v)
  {
    SlugifyJoinTrimmed(w1, u, w, v, w2);
    SlugifyWord(u);
    SlugifyWord(v);
  }

  /** Three words joined by two runs of white space or hyphens slugify to
      the three words lower-cased and joined by single hyphens. */
  lemma SlugifyThreeWords(u: seq<char>, w: seq<char>, v: seq<char>, w': seq<char>, x: seq<char>)
    requires u != [] && forall i :: 0 <= i < |u| ==> IsWordChar(u[i])
    requires v != [] && forall i :: 0 <= i < |v| ==> IsWordChar(v[i])
    requires x != [] && forall i :: 0 <= i < |x| ==> IsWordChar(x[i])
    requires w != [] && forall i :: 0 <= i < |w| ==> IsWhitespace(w[i]) || IsHyphen(w[i])
    requires w' != [] && forall i :: 0 <= i < |w'| ==> IsWhitespace(w'[i]) || IsHyphen(w'[i])
    ensures SlugifyTitle(u + w + v + w' + x) ==
            ToLowerCase(u) + "-" + ToLowerCase(v) + "-" + ToLowerCase(x)
  {
    var uv := u + w + v;
    assert uv[0] == u[0] && uv[|uv| - 1] == v[|v| - 1];
    SlugifyJoin(u, w, v);
    SlugifyJoin(uv, w', x);
    SlugifyWord(u);
    SlugifyWord(v);
    SlugifyWord(x);
  }
}
