/**
 * `_indicator_to_file_name`: lower-case the indicator, turn every
 * character that is not a word character, whitespace or `-` into `_`,
 * collapse each run of whitespace and underscores into one `_`, and strip
 * underscores from both ends. ASCII input only.
 */
module IndicatorFileName {
  import opened Text

  /** Kept by the first substitution (`[^\w\s-]` does not match it). */
  predicate Allowed(c: char) { IsWord(c) || IsSpace(c) || c == '-' }

  /** Part of a run the second substitution (`[\s_]+`) collapses. */
  predicate InRun(c: char) { IsSpace(c) || c == '_' }


  /** The characters a file name is made of: lower-case letters, digits,
      `_` and `-`. */
  predicate FileNameChar(c: char) { IsLower(c) || IsDigit(c) || c == '_' || c == '-' }

  /** Letters, digits and hyphens: what the conversion never drops. */
  predicate Significant(c: char) { IsAlpha(c) || IsDigit(c) || c == '-' }

  ghost predicate NoDoubleUnderscore(s: string)
  {
    forall i :: 0 <= i < |s| - 1 ==> !(s[i] == '_' && s[i + 1] == '_')
  }

  /** The shape of every result: file-name characters only, no `__`, no
      `_` at either end. */
  ghost predicate IsFileName(s: string)
  {
    && (forall i :: 0 <= i < |s| ==> FileNameChar(s[i]))
    && NoDoubleUnderscore(s)
    && (s != [] ==> s[0] != '_' && s[|s| - 1] != '_')
  }

  /** Every character that is not a word character, whitespace or `-`
      replaced by `_` (the pattern `[^\w\s-]`). */
  function ReplaceSpecial(s: string): (r: string)
    ensures |r| == |s|
    ensures forall i :: 0 <= i < |s| ==> r[i] == if Allowed(s[i]) then s[i] else '_'
  {
    seq(|s|, i requires 0 <= i < |s| => if Allowed(s[i]) then s[i] else '_')
  }

  /** The rest of `s` after a leading run of whitespace and underscores. */
  function SkipRun(s: string): (r: string)
    ensures |r| <= |s|
    ensures r != [] ==> !InRun(r[0])
  {
    if s != [] && InRun(s[0]) then SkipRun(s[1..]) else s
  }

  /** What is left after a run is a suffix of the text. */
  lemma {:induction false} SkipRunSuffix(s: string)
    ensures SkipRun(s) == s[|s| - |SkipRun(s)|..]
    decreases |s|
  {
    if s != [] && InRun(s[0]) {
      SkipRunSuffix(s[1..]);
    }
  }

  /** Each maximal run of whitespace and underscores (the pattern
      `[\s_]+`) replaced by a single `_`. */
  function Collapse(s: string): (r: string)
    ensures |r| <= |s|
    ensures r == [] <==> s == []
    decreases |s|
  {
    if s == [] then []
    else if InRun(s[0]) then "_" + Collapse(SkipRun(s[1..]))
    else [s[0]] + Collapse(s[1..])
  }

  /** The file name of an indicator: no longer than the indicator, and
      neither starting nor ending with `_`. */
  function ToFileName(indicator: string): (r: string)
    requires AllAscii(indicator)
    ensures |r| <= |indicator|
    ensures r != [] ==> r[0] != '_' && r[|r| - 1] != '_'
  {
    Strip(Collapse(ReplaceSpecial(Lower(indicator))), Underscores)
  }

  /** Letters, digits and hyphens of `s`, in order. */
  function SignificantOf(s: string): string
  {
    if s == [] then [] else (if Significant(s[0]) then [s[0]] else []) + SignificantOf(s[1..])
  }

  lemma {:induction false} SignificantOfNone(s: string)
    requires forall i :: 0 <= i < |s| ==> !Significant(s[i])
    ensures SignificantOf(s) == []
  {
    if s != [] {
      assert forall i :: 0 <= i < |s| - 1 ==> s[1..][i] == s[i + 1];
      SignificantOfNone(s[1..]);
    }
  }

  /** Skipping a run of whitespace and underscores loses nothing
      significant. */
  lemma {:induction false} SkipRunSignificant(s: string)
    ensures SignificantOf(SkipRun(s)) == SignificantOf(s)
    decreases |s|
  {
    if s != [] && InRun(s[0]) {
      SkipRunSignificant(s[1..]);
    }
  }

  /** The first character of a collapsed string: kept when it is not in a
      run, `_` when it is. */
  lemma CollapseHead(s: string)
    ensures s == [] <==> Collapse(s) == []
    ensures s != [] && !InRun(s[0]) ==> Collapse(s)[0] == s[0]
    ensures s != [] && InRun(s[0]) ==> Collapse(s)[0] == '_'
  {
  }

  /** Collapsing produces `_` or characters of the input outside runs. */
  lemma {:induction false} CollapseChars(s: string)
    ensures forall c :: c in Collapse(s) ==> c == '_' || (c in s && !InRun(c))
    decreases |s|
  {
    if s != [] {
      var rest := if InRun(s[0]) then SkipRun(s[1..]) else s[1..];
      CollapseChars(rest);
      SkipRunSuffix(s[1..]);
      assert forall c :: c in rest ==> c in s;
      assert Collapse(s) == (if InRun(s[0]) then "_" else [s[0]]) + Collapse(rest);
    }
  }

  lemma NoDoubleCons(x: char, t: string)
    requires NoDoubleUnderscore(t)
    requires x == '_' && t != [] ==> t[0] != '_'
    ensures NoDoubleUnderscore([x] + t)
  {
    var r := [x] + t;
    forall i | 0 <= i < |r| - 1 ensures !(r[i] == '_' && r[i + 1] == '_') {
      assert r[i + 1] == t[i];
      if i > 0 {
        assert r[i] == t[i - 1];
      }
    }
  }

  /** Collapsing never leaves two underscores side by side. */
  lemma {:induction false} CollapseNoDouble(s: string)
    ensures NoDoubleUnderscore(Collapse(s))
    decreases |s|
  {
    if s != [] {
      if InRun(s[0]) {
        var rest := SkipRun(s[1..]);
        CollapseNoDouble(rest);
        CollapseHead(rest);
        NoDoubleCons('_', Collapse(rest));
      } else {
        CollapseNoDouble(s[1..]);
        NoDoubleCons(s[0], Collapse(s[1..]));
      }
    }
  }

  /** Collapsing keeps every letter, digit and hyphen, in order. */
  lemma {:induction false} CollapseSignificant(s: string)
    ensures SignificantOf(Collapse(s)) == SignificantOf(s)
    decreases |s|
  {
    if s != [] {
      if InRun(s[0]) {
        var rest := SkipRun(s[1..]);
        CollapseSignificant(rest);
        SkipRunSignificant(s[1..]);
        var r := Collapse(s);
        assert r == "_" + Collapse(rest);
        assert r[0] == '_' && r[1..] == Collapse(rest);
      } else {
        CollapseSignificant(s[1..]);
        var r := Collapse(s);
        assert r == [s[0]] + Collapse(s[1..]);
        assert r[0] == s[0] && r[1..] == Collapse(s[1..]);
      }
    }
  }

  /** On a string with no whitespace and no `__`, collapsing changes
      nothing. */
  lemma {:induction false} CollapseFixed(s: string)
    requires forall i :: 0 <= i < |s| ==> !IsSpace(s[i])
    requires NoDoubleUnderscore(s)
    ensures Collapse(s) == s
    decreases |s|
  {
    if s != [] {
      CollapseFixed(s[1..]);
      if InRun(s[0]) {
        assert SkipRun(s[1..]) == s[1..];
      }
    }
  }

  /** A run that ends inside `a` is skipped the same whatever follows `a`. */
  lemma {:induction false} SkipRunAppend(a: string, x: string)
    requires a != [] && !InRun(a[|a| - 1])
    ensures SkipRun(a) != []
    ensures SkipRun(a + x) == SkipRun(a) + x
    decreases |a|
  {
    if InRun(a[0]) {
      assert (a + x)[1..] == a[1..] + x;
      SkipRunAppend(a[1..], x);
    }
  }

  /** A whole run of whitespace and underscores is skipped up to the
      first character outside runs. */
  lemma {:induction false} SkipRunWhole(r: string, q: string)
    requires forall i :: 0 <= i < |r| ==> InRun(r[i])
    requires q == [] || !InRun(q[0])
    ensures SkipRun(r + q) == q
    decreases |r|
  {
    if r == [] {
      assert r + q == q;
    } else {
      assert (r + q)[1..] == r[1..] + q;
      SkipRunWhole(r[1..], q);
    }
  }

  /** Collapsing splits after a character outside runs: no run crosses
      that point. */
  lemma {:induction false} CollapseAppend(p: string, x: string)
    requires p == [] || !InRun(p[|p| - 1])
    ensures Collapse(p + x) == Collapse(p) + Collapse(x)
    decreases |p|
  {
    if p == [] {
      assert p + x == x;
    } else if InRun(p[0]) {
      var a := p[1..];
      SkipRunAppend(a, x);
      var b := SkipRun(a);
      SkipRunSuffix(a);
      assert b[|b| - 1] == a[|a| - 1];
      CollapseAppend(b, x);
      CollapseAppendRunHead(p, x, b);
    } else {
      CollapseAppend(p[1..], x);
      CollapseAppendKeptHead(p, x);
    }
  }

  /** The step of `CollapseAppend` when `p` starts with a run. */
  lemma CollapseAppendRunHead(p: string, x: string, b: string)
    requires p != [] && InRun(p[0])
    requires b == SkipRun(p[1..]) && SkipRun(p[1..] + x) == b + x
    requires Collapse(b + x) == Collapse(b) + Collapse(x)
    ensures Collapse(p + x) == Collapse(p) + Collapse(x)
  {
    CollapseAfterRunHead(p, x, b);
    CollapseRunStep(p);
    AppendAssociates("_", Collapse(b), Collapse(x));
  }

  /** With a leading run, `p + x` collapses to `_` before what follows
      the run. */
  lemma CollapseAfterRunHead(p: string, x: string, b: string)
    requires p != [] && InRun(p[0])
    requires SkipRun(p[1..] + x) == b + x
    ensures Collapse(p + x) == "_" + Collapse(b + x)
  {
    var px := p + x;
    assert px[0] == p[0] && px[1..] == p[1..] + x;
    CollapseRunStep(px);
  }

  lemma AppendAssociates(a: string, b: string, c: string)
    ensures a + (b + c) == (a + b) + c
  {
  }

  /** A leading run collapses to one `_` before the rest. */
  lemma CollapseRunStep(s: string)
    requires s != [] && InRun(s[0])
    ensures Collapse(s) == "_" + Collapse(SkipRun(s[1..]))
  {
  }

  /** The step of `CollapseAppend` when `p` starts outside runs. */
  lemma CollapseAppendKeptHead(p: string, x: string)
    requires p != [] && !InRun(p[0])
    requires Collapse(p[1..] + x) == Collapse(p[1..]) + Collapse(x)
    ensures Collapse(p + x) == Collapse(p) + Collapse(x)
  {
    CollapseAfterKeptHead(p, x);
    CollapseKeptStep(p);
    AppendAssociates([p[0]], Collapse(p[1..]), Collapse(x));
  }

  /** With a first character outside runs, `p + x` keeps it before the
      collapse of the rest. */
  lemma CollapseAfterKeptHead(p: string, x: string)
    requires p != [] && !InRun(p[0])
    ensures Collapse(p + x) == [p[0]] + Collapse(p[1..] + x)
  {
    var px := p + x;
    assert px[0] == p[0] && px[1..] == p[1..] + x;
    CollapseKeptStep(px);
  }

  /** A first character outside runs is kept. */
  lemma CollapseKeptStep(s: string)
    requires s != [] && !InRun(s[0])
    ensures Collapse(s) == [s[0]] + Collapse(s[1..])
  {
  }

  /** A non-empty run of whitespace and underscores, followed by nothing or
      by a character outside runs, becomes exactly one `_`. */
  lemma {:induction false} CollapseRun(r: string, q: string)
    requires r != [] && forall i :: 0 <= i < |r| ==> InRun(r[i])
    requires q == [] || !InRun(q[0])
    ensures Collapse(r + q) == "_" + Collapse(q)
  {
    assert (r + q)[1..] == r[1..] + q;
    SkipRunWhole(r[1..], q);
  }

  /** Each maximal run becomes one `_` and the text around it collapses on
      its own. */
  lemma {:induction false} CollapseRunBetween(p: string, r: string, q: string)
    requires p == [] || !InRun(p[|p| - 1])
    requires r != [] && forall i :: 0 <= i < |r| ==> InRun(r[i])
    requires q == [] || !InRun(q[0])
    ensures Collapse(p + r + q) == Collapse(p) + "_" + Collapse(q)
  {
    assert p + r + q == p + (r + q);
    CollapseAppend(p, r + q);
    CollapseRun(r, q);
  }

  /** Cutting underscores off the ends loses nothing significant. */
  lemma {:induction false} StripSlice(s: string, lo: int, hi: int)
    requires 0 <= lo <= hi <= |s|
    requires forall i :: 0 <= i < lo ==> s[i] == '_'
    requires forall i :: hi <= i < |s| ==> s[i] == '_'
    ensures SignificantOf(s[lo..hi]) == SignificantOf(s)
  {
    DropBack(s, hi);
    var front := s[..hi];
    assert forall i :: 0 <= i < lo ==> front[i] == s[i];
    DropFront(front, lo);
    assert front[lo..] == s[lo..hi];
  }

  /** Underscores in front are insignificant. */
  lemma {:induction false} DropFront(s: string, lo: nat)
    requires lo <= |s|
    requires forall i :: 0 <= i < lo ==> s[i] == '_'
    ensures SignificantOf(s[lo..]) == SignificantOf(s)
    decreases lo
  {
    if lo == 0 {
      assert s[lo..] == s;
    } else {
      var tail := s[1..];
      assert forall i :: 0 <= i < lo - 1 ==> tail[i] == s[i + 1];
      DropFront(tail, lo - 1);
      assert tail[lo - 1..] == s[lo..];
    }
  }

  /** Underscores at the back are insignificant. */
  lemma {:induction false} DropBack(s: string, hi: nat)
    requires hi <= |s|
    requires forall i :: hi <= i < |s| ==> s[i] == '_'
    ensures SignificantOf(s[..hi]) == SignificantOf(s)
    decreases |s|
  {
    if hi == |s| {
      assert s[..hi] == s;
    } else if hi == 0 {
      SignificantOfNone(s);
    } else {
      var tail := s[1..];
      assert forall i :: hi - 1 <= i < |tail| ==> tail[i] == s[i + 1];
      DropBack(tail, hi - 1);
      var front := s[..hi];
      assert front[0] == s[0] && front[1..] == tail[..hi - 1];
    }
  }

  lemma {:induction false} SignificantOfReplace(s: string)
    ensures SignificantOf(ReplaceSpecial(s)) == SignificantOf(s)
  {
    if s != [] {
      SignificantOfReplace(s[1..]);
      assert ReplaceSpecial(s)[1..] == ReplaceSpecial(s[1..]);
    }
  }

  /** Every character of the collapsed, substituted, lower-cased text is
      a file-name character, and there is no `__` in it. */
  lemma CollapsedIsClean(indicator: string)
    requires AllAscii(indicator)
    ensures var c := Collapse(ReplaceSpecial(Lower(indicator)));
            (forall i :: 0 <= i < |c| ==> FileNameChar(c[i])) && NoDoubleUnderscore(c)
  {
    var replaced := ReplaceSpecial(Lower(indicator));
    var collapsed := Collapse(replaced);
    CollapseChars(replaced);
    CollapseNoDouble(replaced);
    assert forall c :: c in replaced ==> !IsUpper(c) && Allowed(c);
    forall i | 0 <= i < |collapsed| ensures FileNameChar(collapsed[i]) {
      assert collapsed[i] in collapsed;
    }
  }

  /** Stripping underscores from a clean text leaves a file name with
      the same letters, digits and hyphens. */
  lemma {:induction false} StripUnderscores(c: string)
    requires forall i :: 0 <= i < |c| ==> FileNameChar(c[i])
    requires NoDoubleUnderscore(c)
    ensures IsFileName(Strip(c, Underscores))
    ensures SignificantOf(Strip(c, Underscores)) == SignificantOf(c)
  {
    var lo, hi := StripIsSlice(c, Underscores);
    SliceIsClean(c, lo, hi);
    StripSlice(c, lo, hi);
  }

  /** A slice of a clean text is clean. */
  lemma SliceIsClean(c: string, lo: int, hi: int)
    requires 0 <= lo <= hi <= |c|
    requires forall i :: 0 <= i < |c| ==> FileNameChar(c[i])
    requires NoDoubleUnderscore(c)
    ensures var r := c[lo..hi];
            (forall i :: 0 <= i < |r| ==> FileNameChar(r[i])) && NoDoubleUnderscore(r)
  {
    var r := c[lo..hi];
    forall i | 0 <= i < |r| ensures FileNameChar(r[i]) {
      assert r[i] == c[lo + i];
    }
    forall i | 0 <= i < |r| - 1 ensures !(r[i] == '_' && r[i + 1] == '_') {
      assert r[i] == c[lo + i] && r[i + 1] == c[lo + i + 1];
    }
  }

  /** Every result is a file name: only lower-case letters, digits, `_`
      and `-`, hence no upper case and no whitespace; never `__`; no `_`
      at either end. And nothing significant is lost: the letters, digits
      and hyphens of the result are those of the lower-cased input, in
      order — in particular hyphens survive as hyphens. */
  lemma {:induction false} ToFileNameShape(indicator: string)
    requires AllAscii(indicator)
    ensures IsFileName(ToFileName(indicator))
    ensures SignificantOf(ToFileName(indicator)) == SignificantOf(Lower(indicator))
  {
    var replaced := ReplaceSpecial(Lower(indicator));
    CollapsedIsClean(indicator);
    StripUnderscores(Collapse(replaced));
    CollapseSignificant(replaced);
    SignificantOfReplace(Lower(indicator));
  }

  /** A file name converts to itself, so the conversion is idempotent. */
  lemma FileNameIsFixed(s: string)
    requires IsFileName(s)
    ensures AllAscii(s) && ToFileName(s) == s
  {
    assert Lower(s) == s;
    assert ReplaceSpecial(s) == s;
    CollapseFixed(s);
    StripKeepsUnstripped(s, Underscores);
  }

  lemma ToFileNameIdempotent(indicator: string)
    requires AllAscii(indicator)
    ensures AllAscii(ToFileName(indicator))
    ensures ToFileName(ToFileName(indicator)) == ToFileName(indicator)
  {
    ToFileNameShape(indicator);
    FileNameIsFixed(ToFileName(indicator));
  }

  /** The result is empty exactly when the input has no letter, digit or
      hyphen. */
  lemma ToFileNameEmpty(indicator: string)
    requires AllAscii(indicator)
    ensures ToFileName(indicator) == [] <==> SignificantOf(indicator) == []
  {
    ToFileNameShape(indicator);
    LowerKeepsSignificance(indicator);
    FileNameSignificance(ToFileName(indicator));
  }

  /** A file name is empty exactly when nothing in it is significant: its
      first character is not `_`, so it is a letter, digit or hyphen. */
  lemma FileNameSignificance(r: string)
    requires IsFileName(r)
    ensures r == [] <==> SignificantOf(r) == []
  {
    if r != [] {
      assert FileNameChar(r[0]) && r[0] != '_';
      assert Significant(r[0]);
    }
  }

  lemma {:induction false} LowerKeepsSignificance(s: string)
    ensures SignificantOf(Lower(s)) == [] <==> SignificantOf(s) == []
  {
    if s != [] {
      LowerKeepsSignificance(s[1..]);
      assert Lower(s)[1..] == Lower(s[1..]);
    }
  }

  /** A character of a word of a file name: a lower-case letter, a digit
      or a hyphen. */
  predicate WordChar(c: char) { IsLower(c) || IsDigit(c) || c == '-' }

  /** A character that separates words: ASCII and neither a letter, a
      digit nor a hyphen (whitespace, `_` and every special character). */
  predicate Separator(c: char) { IsAscii(c) && !IsAlpha(c) && !IsDigit(c) && c != '-' }

  /** Two words with separators between them become the two words joined
      by exactly one `_`: the separators turn into one run, which collapses
      to a single underscore. */
  lemma ToFileNameJoinsWords(w1: string, r: string, w2: string)
    requires w1 != [] && forall i :: 0 <= i < |w1| ==> WordChar(w1[i])
    requires r != [] && forall i :: 0 <= i < |r| ==> Separator(r[i])
    requires w2 != [] && forall i :: 0 <= i < |w2| ==> WordChar(w2[i])
    ensures AllAscii(w1 + r + w2)
    ensures ToFileName(w1 + r + w2) == w1 + "_" + w2
  {
    var s := w1 + r + w2;
    JoinedIsPlain(w1, r, w2);
    LowerKeepsPlain(s);
    CollapseJoined(w1, r, w2);
    JoinedKeepsEnds(w1, w2);
  }

  /** After the substitution, the separators collapse to one `_`. */
  lemma CollapseJoined(w1: string, r: string, w2: string)
    requires w1 != [] && forall i :: 0 <= i < |w1| ==> WordChar(w1[i])
    requires r != [] && forall i :: 0 <= i < |r| ==> Separator(r[i])
    requires w2 != [] && forall i :: 0 <= i < |w2| ==> WordChar(w2[i])
    ensures Collapse(ReplaceSpecial(w1 + r + w2)) == w1 + "_" + w2
  {
    ReplaceSpecialJoined(w1, r, w2);
    CollapseRunBetween(w1, ReplaceSpecial(r), w2);
    WordCollapses(w1);
    WordCollapses(w2);
  }

  /** Stripping underscores keeps two words joined by `_`. */
  lemma JoinedKeepsEnds(w1: string, w2: string)
    requires w1 != [] && forall i :: 0 <= i < |w1| ==> WordChar(w1[i])
    requires w2 != [] && forall i :: 0 <= i < |w2| ==> WordChar(w2[i])
    ensures Strip(w1 + "_" + w2, Underscores) == w1 + "_" + w2
  {
    var j := w1 + "_" + w2;
    assert j[0] == w1[0] && j[|j| - 1] == w2[|w2| - 1];
    StripKeepsUnstripped(j, Underscores);
  }

  /** Words and separators are ASCII without upper case. */
  lemma JoinedIsPlain(w1: string, r: string, w2: string)
    requires forall i :: 0 <= i < |w1| ==> WordChar(w1[i])
    requires forall i :: 0 <= i < |r| ==> Separator(r[i])
    requires forall i :: 0 <= i < |w2| ==> WordChar(w2[i])
    ensures forall i :: 0 <= i < |w1 + r + w2| ==> IsAscii((w1 + r + w2)[i]) && !IsUpper((w1 + r + w2)[i])
  {
    var s := w1 + r + w2;
    forall i | 0 <= i < |s| ensures IsAscii(s[i]) && !IsUpper(s[i]) {
      if i < |w1| {
        assert s[i] == w1[i];
      } else if i < |w1| + |r| {
        assert s[i] == r[i - |w1|];
      } else {
        assert s[i] == w2[i - |w1| - |r|];
      }
    }
  }

  /** Lower-casing leaves text without upper case as it is. */
  lemma LowerKeepsPlain(s: string)
    requires forall i :: 0 <= i < |s| ==> !IsUpper(s[i])
    ensures Lower(s) == s
  {
  }

  /** The substitution keeps the words and turns the separators into a
      run of whitespace and underscores. */
  lemma ReplaceSpecialJoined(w1: string, r: string, w2: string)
    requires forall i :: 0 <= i < |w1| ==> WordChar(w1[i])
    requires forall i :: 0 <= i < |r| ==> Separator(r[i])
    requires forall i :: 0 <= i < |w2| ==> WordChar(w2[i])
    ensures ReplaceSpecial(w1 + r + w2) == w1 + ReplaceSpecial(r) + w2
    ensures forall i :: 0 <= i < |r| ==> InRun(ReplaceSpecial(r)[i])
  {
    var s, rr := w1 + r + w2, ReplaceSpecial(r);
    var t := ReplaceSpecial(s);
    forall i | 0 <= i < |s| ensures t[i] == (w1 + rr + w2)[i] {
      if i < |w1| {
        assert s[i] == w1[i];
      } else if i < |w1| + |r| {
        assert s[i] == r[i - |w1|];
      } else {
        assert s[i] == w2[i - |w1| - |r|];
      }
    }
  }

  /** A word has no run, so collapsing keeps it. */
  lemma WordCollapses(w: string)
    requires forall i :: 0 <= i < |w| ==> WordChar(w[i])
    ensures Collapse(w) == w
  {
    CollapseFixed(w);
  }
}
