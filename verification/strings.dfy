/** The parts of Go's `strings` package the interface-statistics parser uses:
    `TrimSpace`, `HasPrefix` (Dafny's prefix test `<=`) and `Fields`. A Go
    string is taken as a sequence of runes. */
module Strings {

  /** `unicode.IsSpace`: the ASCII white space, NEL, NO-BREAK SPACE and the
      Unicode space separators. */
  predicate IsSpace(c: char) {
    || c == ' ' || c == '\t' || c == '\n' || c == '\r' || c == '\U{0B}' || c == '\U{0C}'
    || c == '\U{85}' || c == '\U{A0}' || c == '\U{1680}'
    || ('\U{2000}' <= c <= '\U{200A}')
    || c == '\U{2028}' || c == '\U{2029}' || c == '\U{202F}' || c == '\U{205F}' || c == '\U{3000}'
  }

  /** The Unicode White_Space property as inclusive ranges of code points,
      in the order of Go's `unicode.White_Space` table. */
  const WhiteSpaceRanges: seq<(int, int)> := [
    (0x09, 0x0D), (0x20, 0x20), (0x85, 0x85), (0xA0, 0xA0), (0x1680, 0x1680),
    (0x2000, 0x200A), (0x2028, 0x2029), (0x202F, 0x202F), (0x205F, 0x205F), (0x3000, 0x3000)]

  predicate InRange(c: char, rg: (int, int)) {
    rg.0 <= c as int <= rg.1
  }

  /** `IsSpace` holds for exactly the code points of the White_Space table. */
  lemma IsSpaceIsWhiteSpace(c: char)
    ensures IsSpace(c) <==> exists k :: 0 <= k < |WhiteSpaceRanges| && InRange(c, WhiteSpaceRanges[k])
  {
    var t := WhiteSpaceRanges;
    if IsSpace(c) {
      var k :=
        if c as int <= 0x0D then 0 else if c == ' ' then 1 else if c == '\U{85}' then 2
        else if c == '\U{A0}' then 3 else if c == '\U{1680}' then 4 else if c as int <= 0x200A then 5
        else if c as int <= 0x2029 then 6 else if c == '\U{202F}' then 7 else if c == '\U{205F}' then 8
        else 9;
      assert InRange(c, t[k]);
    }
  }

  predicate NoSpace(s: string) {
    forall i :: 0 <= i < |s| ==> !IsSpace(s[i])
  }

  predicate AllSpace(s: string) {
    forall i :: 0 <= i < |s| ==> IsSpace(s[i])
  }

  /** Go's `strings.TrimLeftFunc(s, unicode.IsSpace)` (not `TrimLeft`, which
      takes a cutset). Drops leading white space: what remains is a suffix of `s`, and every
      character dropped was white space. */
  function TrimLeftSpace(s: string): (r: string)
    ensures |r| <= |s| && r == s[|s| - |r|..]
    ensures forall i :: 0 <= i < |s| - |r| ==> IsSpace(s[i])
    ensures |r| > 0 ==> !IsSpace(r[0])
    decreases |s|
  {
    if |s| > 0 && IsSpace(s[0]) then TrimLeftSpace(s[1..]) else s
  }

  /** Go's `strings.TrimRightFunc(s, unicode.IsSpace)` (not `TrimRight`,
      which takes a cutset). Drops trailing white space: what remains is a prefix of `s`, and every
      character dropped was white space. */
  function TrimRightSpace(s: string): (r: string)
    ensures |r| <= |s| && r == s[..|r|]
    ensures forall i :: |r| <= i < |s| ==> IsSpace(s[i])
    ensures |r| > 0 ==> !IsSpace(r[|r| - 1]) && r[0] == s[0]
    decreases |s|
  {
    if |s| > 0 && IsSpace(s[|s| - 1]) then TrimRightSpace(s[..|s| - 1]) else s
  }

  /** `r` is what is left of `s` after cutting `i` characters of white
      space from its start and only white space from its end. */
  predicate CutsTo(s: string, i: nat, r: string) {
    i + |r| <= |s| && r == s[i..i + |r|] && AllSpace(s[..i]) && AllSpace(s[i + |r|..])
  }

  /** `strings.TrimSpace`: the slice of `s` left after cutting white space
      from both ends. Only white space is cut, and what remains neither
      starts nor ends with it; so it is empty exactly when `s` is all white
      space. */
  function TrimSpace(s: string): (r: string)
    ensures |r| > 0 ==> !IsSpace(r[0]) && !IsSpace(r[|r| - 1])
    ensures exists i :: CutsTo(s, i, r)
  {
    var t := TrimLeftSpace(s);
    var r := TrimRightSpace(t);
    TrimBothEnds(s, t, r);
    r
  }

  /** The slice facts behind `TrimSpace`, from the contracts of the two
      one-sided trims. */
  lemma TrimBothEnds(s: string, t: string, r: string)
    requires |t| <= |s| && t == s[|s| - |t|..] && forall k :: 0 <= k < |s| - |t| ==> IsSpace(s[k])
    requires |r| <= |t| && r == t[..|r|] && forall k :: |r| <= k < |t| ==> IsSpace(t[k])
    ensures exists i :: CutsTo(s, i, r)
  {
    var i := |s| - |t|;
    AllSpaceBefore(s, i);
    AllSpaceAfter(t, |r|);
    SliceOfSuffix(s, i, |r|);
    assert CutsTo(s, i, r);
  }

  lemma SliceOfSuffix(s: string, i: nat, j: nat)
    requires i + j <= |s|
    ensures s[i..][..j] == s[i..i + j] && s[i..][j..] == s[i + j..]
  {
  }

  lemma AllSpaceBefore(s: string, i: nat)
    requires i <= |s| && forall k :: 0 <= k < i ==> IsSpace(s[k])
    ensures AllSpace(s[..i])
  {
    forall k | 0 <= k < i
      ensures IsSpace(s[..i][k])
    {
      assert s[..i][k] == s[k];
    }
  }

  lemma AllSpaceAfter(s: string, i: nat)
    requires i <= |s| && forall k :: i <= k < |s| ==> IsSpace(s[k])
    ensures AllSpace(s[i..])
  {
    forall k | 0 <= k < |s| - i
      ensures IsSpace(s[i..][k])
    {
      assert s[i..][k] == s[i + k];
    }
  }

  /** Length of the longest prefix of `s` free of white space. */
  function SpanNonSpace(s: string): (k: nat)
    ensures k <= |s|
    ensures NoSpace(s[..k])
    ensures k < |s| ==> IsSpace(s[k])
    decreases |s|
  {
    if |s| == 0 || IsSpace(s[0]) then 0
    else
      var k := 1 + SpanNonSpace(s[1..]);
      assert s[..k] == [s[0]] + s[1..][..k - 1];
      k
  }

  /** `strings.Fields`: the maximal runs of non-white-space characters, in
      order. */
  function Fields(s: string): (r: seq<string>)
    ensures forall i :: 0 <= i < |r| ==> |r[i]| > 0 && NoSpace(r[i])
    decreases |s|
  {
    if |s| == 0 then []
    else if IsSpace(s[0]) then Fields(s[1..])
    else
      var k := SpanNonSpace(s);
      [s[..k]] + Fields(s[k..])
  }

  /** The words joined by single spaces; the inverse of `Fields` on words
      that are non-empty and free of white space. */
  function JoinSpace(ws: seq<string>): string
    decreases |ws|
  {
    if |ws| == 0 then ""
    else if |ws| == 1 then ws[0]
    else ws[0] + " " + JoinSpace(ws[1..])
  }

  predicate Words(ws: seq<string>) {
    forall i :: 0 <= i < |ws| ==> |ws[i]| > 0 && NoSpace(ws[i])
  }

  /** The words with the separators around and between them:
      `seps[0] + ws[0] + seps[1] + ... + ws[n - 1] + seps[n]`. */
  function Spaced(seps: seq<string>, ws: seq<string>): string
    requires |seps| == |ws| + 1
    decreases |ws|
  {
    if |ws| == 0 then seps[0] else seps[0] + ws[0] + Spaced(seps[1..], ws[1..])
  }

  /** Separators for `n` words: runs of white space, empty allowed only
      before the first word and after the last. */
  predicate Separators(seps: seq<string>, n: nat) {
    && |seps| == n + 1
    && (forall j :: 0 <= j < |seps| ==> AllSpace(seps[j]))
    && (forall j :: 0 < j < n ==> |seps[j]| > 0)
  }

  lemma WordsConcat(a: seq<string>, b: seq<string>)
    requires Words(a) && Words(b)
    ensures Words(a + b)
  {
    forall i | 0 <= i < |a + b|
      ensures |(a + b)[i]| > 0 && NoSpace((a + b)[i])
    {
      if i < |a| {
        assert (a + b)[i] == a[i];
      } else {
        assert (a + b)[i] == b[i - |a|];
      }
    }
  }

  lemma {:induction false} SpanOfWord(w: string, rest: string)
    requires NoSpace(w)
    requires |rest| == 0 || IsSpace(rest[0])
    ensures SpanNonSpace(w + rest) == |w|
    decreases |w|
  {
    if |w| == 0 {
      assert w + rest == rest;
    } else {
      assert !IsSpace(w[0]);
      assert (w + rest)[0] == w[0];
      assert (w + rest)[1..] == w[1..] + rest;
      SpanOfWord(w[1..], rest);
    }
  }

  lemma {:induction false} FieldsOfJoin(ws: seq<string>)
    requires Words(ws)
    ensures Fields(JoinSpace(ws)) == ws
    decreases |ws|
  {
    if |ws| == 1 {
      SpanOfWord(ws[0], "");
      assert ws[0] + "" == ws[0];
      assert ws[0][|ws[0]|..] == "";
    } else if |ws| > 1 {
      var tail := JoinSpace(ws[1..]);
      var s := ws[0] + " " + tail;
      assert s == ws[0] + (" " + tail);
      SpanOfWord(ws[0], " " + tail);
      assert s[..|ws[0]|] == ws[0];
      assert s[|ws[0]|..] == " " + tail;
      assert (" " + tail)[1..] == tail;
      FieldsOfJoin(ws[1..]);
      assert [ws[0]] + ws[1..] == ws;
    }
  }

  lemma {:induction false} JoinSpaceEnds(ws: seq<string>)
    requires |ws| > 0 && Words(ws)
    ensures var s := JoinSpace(ws); |s| > 0 && s[0] == ws[0][0] && !IsSpace(s[0])
    ensures var s := JoinSpace(ws); |s| > 0 && !IsSpace(s[|s| - 1])
    decreases |ws|
  {
    if |ws| > 1 {
      JoinSpaceEnds(ws[1..]);
      assert ws[1..][0] == ws[1];
    }
  }

  /** Text with no white space at either end is left as it is by `TrimSpace`. */
  lemma TrimSpaceOfTrimmed(s: string)
    requires |s| > 0 && !IsSpace(s[0]) && !IsSpace(s[|s| - 1])
    ensures TrimSpace(s) == s
  {
  }

  /** Joined words survive `TrimSpace`, and `Fields` recovers them. */
  lemma FieldsOfJoinTrimmed(ws: seq<string>)
    requires |ws| > 0 && Words(ws)
    ensures TrimSpace(JoinSpace(ws)) == JoinSpace(ws)
    ensures Fields(TrimSpace(JoinSpace(ws))) == ws
  {
    JoinSpaceEnds(ws);
    TrimSpaceOfTrimmed(JoinSpace(ws));
    FieldsOfJoin(ws);
  }

  /** White space in front of a string changes none of its fields. */
  lemma {:induction false} FieldsSkipSpace(p: string, t: string)
    requires AllSpace(p)
    ensures Fields(p + t) == Fields(t)
    decreases |p|
  {
    if |p| == 0 {
      assert p + t == t;
    } else {
      assert (p + t)[0] == p[0];
      assert (p + t)[1..] == p[1..] + t;
      FieldsSkipSpace(p[1..], t);
    }
  }

  /** A word followed by white space or nothing is the first field. */
  lemma FieldsOfWordFirst(w: string, rest: string)
    requires |w| > 0 && NoSpace(w)
    requires |rest| == 0 || IsSpace(rest[0])
    ensures Fields(w + rest) == [w] + Fields(rest)
  {
    SpanOfWord(w, rest);
    var s := w + rest;
    assert s[0] == w[0];
    assert s[..|w|] == w;
    assert s[|w|..] == rest;
  }

  lemma SpacedStartsWithSpace(seps: seq<string>, ws: seq<string>)
    requires |seps| == |ws| + 1 && AllSpace(seps[0])
    requires |ws| > 0 ==> |seps[0]| > 0
    ensures var s := Spaced(seps, ws); |s| == 0 || IsSpace(s[0])
  {
    if |ws| > 0 {
      assert Spaced(seps, ws)[0] == seps[0][0];
    }
  }

  lemma SeparatorsTail(seps: seq<string>, ws: seq<string>)
    requires |ws| > 0 && Words(ws) && Separators(seps, |ws|)
    ensures Words(ws[1..]) && Separators(seps[1..], |ws| - 1)
  {
    assert forall i :: 0 <= i < |ws| - 1 ==> ws[1..][i] == ws[i + 1];
    assert forall j :: 0 <= j < |seps| - 1 ==> seps[1..][j] == seps[j + 1];
  }

  /** `Fields` splits words apart at every run of white space, and ignores
      white space at both ends. */
  lemma {:induction false} FieldsOfSpaced(seps: seq<string>, ws: seq<string>)
    requires Words(ws) && Separators(seps, |ws|)
    ensures Fields(Spaced(seps, ws)) == ws
    decreases |ws|
  {
    if |ws| == 0 {
      FieldsSkipSpace(seps[0], "");
      assert seps[0] + "" == seps[0];
    } else {
      var rest := Spaced(seps[1..], ws[1..]);
      SeparatorsTail(seps, ws);
      SpacedStartsWithSpace(seps[1..], ws[1..]);
      FieldsOfSpaced(seps[1..], ws[1..]);
      FieldsOfWordFirst(ws[0], rest);
      FieldsSkipSpace(seps[0], ws[0] + rest);
      assert Spaced(seps, ws) == seps[0] + (ws[0] + rest);
      assert [ws[0]] + ws[1..] == ws;
    }
  }

  lemma SpacedWiderFirst(p: string, seps: seq<string>, ws: seq<string>)
    requires |seps| == |ws| + 1
    ensures Spaced([p + seps[0]] + seps[1..], ws) == p + Spaced(seps, ws)
  {
    var wide := [p + seps[0]] + seps[1..];
    assert wide[0] == p + seps[0];
    if |ws| > 0 {
      assert wide[1..] == seps[1..];
    }
  }

  lemma SpacedFirstWord(seps: seq<string>, ws: seq<string>)
    requires |seps| == |ws| + 1 && |ws| > 0 && |ws[0]| > 0
    ensures |seps[0]| == 0 ==> |Spaced(seps, ws)| > 0 && Spaced(seps, ws)[0] == ws[0][0]
  {
    assert Spaced(seps, ws) == seps[0] + ws[0] + Spaced(seps[1..], ws[1..]);
  }

  /** Every string is its fields with separators around and between them:
      together with `FieldsOfSpaced`, `Fields` is exactly the maximal runs of
      non-white-space characters. */
  lemma {:induction false} SplitAround(s: string) returns (seps: seq<string>)
    ensures Separators(seps, |Fields(s)|) && Spaced(seps, Fields(s)) == s
    decreases |s|
  {
    if |s| == 0 {
      seps := [""];
    } else if IsSpace(s[0]) {
      var tail := SplitAround(s[1..]);
      seps := LeadingSpaceSplit(s, tail);
    } else {
      var k := SpanNonSpace(s);
      var tail := SplitAround(s[k..]);
      seps := LeadingWordSplit(s, k, tail);
    }
  }

  lemma LeadingSpaceSplit(s: string, tail: seq<string>) returns (seps: seq<string>)
    requires |s| > 0 && IsSpace(s[0])
    requires Separators(tail, |Fields(s[1..])|) && Spaced(tail, Fields(s[1..])) == s[1..]
    ensures Separators(seps, |Fields(s)|) && Spaced(seps, Fields(s)) == s
  {
    seps := [[s[0]] + tail[0]] + tail[1..];
    SpacedWiderFirst([s[0]], tail, Fields(s[1..]));
    assert [s[0]] + s[1..] == s;
    assert AllSpace(seps[0]) by {
      assert AllSpace(tail[0]);
    }
    assert forall j :: 0 < j < |seps| ==> seps[j] == tail[j];
  }

  lemma LeadingWordSplit(s: string, k: nat, tail: seq<string>) returns (seps: seq<string>)
    requires |s| > 0 && !IsSpace(s[0]) && k == SpanNonSpace(s)
    requires Separators(tail, |Fields(s[k..])|) && Spaced(tail, Fields(s[k..])) == s[k..]
    ensures Separators(seps, |Fields(s)|) && Spaced(seps, Fields(s)) == s
  {
    var fs := Fields(s[k..]);
    var w := s[..k];
    FieldsOfLeadingWord(s);
    FirstSeparatorNonEmpty(s, k, tail);
    seps := [""] + tail;
    SpacedAfterWord(w, tail, fs);
    assert w + s[k..] == s;
    assert forall j :: 0 < j < |seps| ==> seps[j] == tail[j - 1];
  }

  lemma FieldsOfLeadingWord(s: string)
    requires |s| > 0 && !IsSpace(s[0])
    ensures var k := SpanNonSpace(s); Fields(s) == [s[..k]] + Fields(s[k..])
  {
  }

  lemma FirstSeparatorNonEmpty(s: string, k: nat, tail: seq<string>)
    requires k == SpanNonSpace(s)
    requires |tail| == |Fields(s[k..])| + 1 && Spaced(tail, Fields(s[k..])) == s[k..]
    ensures |Fields(s[k..])| > 0 ==> |tail[0]| > 0
  {
    var fs := Fields(s[k..]);
    if |fs| > 0 {
      SpacedFirstWord(tail, fs);
      assert IsSpace(s[k..][0]);
    }
  }

  lemma SpacedAfterWord(w: string, tail: seq<string>, fs: seq<string>)
    requires |tail| == |fs| + 1
    ensures Spaced([""] + tail, [w] + fs) == w + Spaced(tail, fs)
  {
    var seps := [""] + tail;
    assert ([w] + fs)[1..] == fs;
    assert seps[1..] == tail;
    assert "" + w == w;
  }

  lemma {:induction false} SpacedAppendLast(seps: seq<string>, ws: seq<string>, p: string)
    requires |seps| == |ws| + 1
    ensures Spaced(seps[..|ws|] + [seps[|ws|] + p], ws) == Spaced(seps, ws) + p
    decreases |ws|
  {
    var n := |ws|;
    var wide := seps[..n] + [seps[n] + p];
    if n == 0 {
      assert wide == [seps[0] + p];
    } else {
      var rest := seps[1..];
      SpacedAppendLast(rest, ws[1..], p);
      assert wide[0] == seps[0];
      assert wide[1..] == rest[..n - 1] + [rest[n - 1] + p];
      var tail := Spaced(rest, ws[1..]);
      assert Spaced(wide, ws) == seps[0] + ws[0] + (tail + p);
      assert seps[0] + ws[0] + (tail + p) == (seps[0] + ws[0] + tail) + p;
    }
  }

  /** White space after a string changes none of its fields. */
  lemma FieldsTrailingSpace(t: string, p: string)
    requires AllSpace(p)
    ensures Fields(t + p) == Fields(t)
  {
    var fs := Fields(t);
    var seps := SplitAround(t);
    var n := |fs|;
    var wide := seps[..n] + [seps[n] + p];
    SpacedAppendLast(seps, fs, p);
    assert AllSpace(seps[n] + p) by {
      assert AllSpace(seps[n]);
    }
    assert forall j :: 0 <= j < n ==> wide[j] == seps[j];
    FieldsOfSpaced(wide, fs);
  }

  /** Trimming never changes the fields. */
  lemma FieldsOfTrimSpace(s: string)
    ensures Fields(TrimSpace(s)) == Fields(s)
  {
    var r := TrimSpace(s);
    var i: nat :| CutsTo(s, i, r);
    FieldsOfCut(s, i, r);
  }

  lemma FieldsOfCut(s: string, i: nat, r: string)
    requires CutsTo(s, i, r)
    ensures Fields(r) == Fields(s)
  {
    var after := s[i + |r|..];
    assert s == s[..i] + (r + after) by {
      assert s[..i] + s[i..i + |r|] + s[i + |r|..] == s;
    }
    FieldsSkipSpace(s[..i], r + after);
    FieldsTrailingSpace(r, after);
  }

  lemma {:induction false} TrimLeftSkip(p: string, u: string)
    requires AllSpace(p) && |u| > 0 && !IsSpace(u[0])
    ensures TrimLeftSpace(p + u) == u
    decreases |p|
  {
    if |p| == 0 {
      assert p + u == u;
    } else {
      assert (p + u)[0] == p[0];
      assert (p + u)[1..] == p[1..] + u;
      TrimLeftSkip(p[1..], u);
    }
  }

  /** The first word of a line survives `TrimSpace` whatever white space
      precedes it: `strings.HasPrefix` on the trimmed line sees it. */
  lemma FirstWordSurvivesTrim(p: string, w: string, t: string)
    requires AllSpace(p) && |w| > 0 && NoSpace(w)
    ensures w <= TrimSpace(p + w + t)
  {
    var u := w + t;
    assert p + w + t == p + u;
    assert u[0] == w[0];
    TrimLeftSkip(p, u);
    TrimRightKeepsWord(w, t);
  }

  lemma TrimRightKeepsWord(w: string, t: string)
    requires |w| > 0 && NoSpace(w)
    ensures w <= TrimRightSpace(w + t)
  {
    var u := w + t;
    var r := TrimRightSpace(u);
    assert !IsSpace(u[|w| - 1]) by {
      assert u[|w| - 1] == w[|w| - 1];
    }
    assert |r| >= |w|;
    assert r[..|w|] == u[..|w|] == w;
  }
}
