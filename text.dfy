/**
 * The string operations of Swift and Foundation that the calculator uses,
 * on strings of Unicode scalars: `replacingOccurrences(of:with:)` with a
 * one-character pattern, `trimmingCharacters(in: .whitespaces)` and
 * `split(whereSeparator:)`.
 */
module Text {

  /** `Character.isWholeNumber` on the characters a calculator buffer can hold. */
  predicate IsDigit(c: char) {
    '0' <= c <= '9'
  }

  /** `CharacterSet.whitespaces`: the tab and the Unicode space separators
      (U+0020, U+00A0, U+1680, U+2000 to U+200A, U+202F, U+205F, U+3000). */
  predicate IsWhitespace(c: char) {
    c == '\t' || c == ' ' || c == '\U{A0}' || c == '\U{1680}' || '\U{2000}' <= c <= '\U{200A}'
    || c == '\U{202F}' || c == '\U{205F}' || c == '\U{3000}'
  }

  // ---------------------------------------------------------------------
  // replacingOccurrences(of:with:)

  /** Every occurrence of `c` in `s` replaced by `rep`. */
  function ReplaceAll(s: string, c: char, rep: string): string
  {
    if s == [] then [] else (if s[0] == c then rep else [s[0]]) + ReplaceAll(s[1..], c, rep)
  }

  /** Replacement works piece by piece: it commutes with concatenation. */
  lemma {:induction false} ReplaceAllAppend(a: string, b: string, c: char, rep: string)
    ensures ReplaceAll(a + b, c, rep) == ReplaceAll(a, c, rep) + ReplaceAll(b, c, rep)
  {
    if a == [] {
      assert a + b == b;
    } else {
      assert (a + b)[1..] == a[1..] + b;
      ReplaceAllAppend(a[1..], b, c, rep);
    }
  }

  /** The characters of the result: those of `s` other than `c`, and those of
      `rep` when there was something to replace. */
  lemma {:induction false} ReplaceAllChars(s: string, c: char, rep: string, x: char)
    ensures x in ReplaceAll(s, c, rep) <==> (x in s && x != c) || (c in s && x in rep)
  {
    if s != [] {
      ReplaceAllChars(s[1..], c, rep, x);
      assert s == [s[0]] + s[1..];
    }
  }

  /** Nothing to replace leaves the string as it was. */
  lemma {:induction false} ReplaceAllAbsent(s: string, c: char, rep: string)
    requires c !in s
    ensures ReplaceAll(s, c, rep) == s
  {
    if s != [] {
      ReplaceAllAbsent(s[1..], c, rep);
      assert s == [s[0]] + s[1..];
    }
  }

  /** The first and last characters of the result: those of `s`, or the
      first and last of `rep` where `c` stood. */
  lemma ReplaceAllEnds(s: string, c: char, rep: string)
    requires s != []
    ensures s[0] != c || rep != [] ==>
      var r := ReplaceAll(s, c, rep); r != [] && r[0] == if s[0] == c then rep[0] else s[0]
    ensures s[|s| - 1] != c || rep != [] ==>
      var r := ReplaceAll(s, c, rep); r != [] && r[|r| - 1] == if s[|s| - 1] == c then rep[|rep| - 1] else s[|s| - 1]
  {
    var n := |s|;
    assert s == s[..n - 1] + [s[n - 1]];
    ReplaceAllAppend(s[..n - 1], [s[n - 1]], c, rep);
    assert ReplaceAll([s[n - 1]], c, rep) == if s[n - 1] == c then rep else [s[n - 1]];
  }

  // ---------------------------------------------------------------------
  // trimmingCharacters(in: .whitespaces)

  /** `s` without its leading whitespace. */
  function TrimLeading(s: string): (r: string)
    ensures |r| <= |s| && r == s[|s| - |r|..]
    ensures forall k :: 0 <= k < |s| - |r| ==> IsWhitespace(s[k])
    ensures r != [] ==> !IsWhitespace(r[0])
  {
    if s != [] && IsWhitespace(s[0]) then
      var r := TrimLeading(s[1..]);
      assert s[1..][|s| - 1 - |r|..] == s[|s| - |r|..];
      assert forall k :: 1 <= k < |s| ==> s[k] == s[1..][k - 1];
      r
    else s
  }

  /** `s` without its trailing whitespace. */
  function TrimTrailing(s: string): (r: string)
    ensures |r| <= |s| && r == s[..|r|]
    ensures forall k :: |r| <= k < |s| ==> IsWhitespace(s[k])
    ensures r != [] ==> !IsWhitespace(r[|r| - 1])
  {
    if s != [] && IsWhitespace(s[|s| - 1]) then
      var r := TrimTrailing(s[..|s| - 1]);
      assert s[..|s| - 1][..|r|] == s[..|r|];
      r
    else s
  }

  /** `s` without whitespace at either end: the result is a slice of `s`
      from which only whitespace was cut, it neither starts nor ends with
      whitespace, and a string without whitespace at its ends is kept whole. */
  function Trim(s: string): (r: string)
    ensures exists i, j :: 0 <= i <= j <= |s| && r == s[i..j] && CutOnlyWhitespace(s, i, j)
    ensures r != [] ==> !IsWhitespace(r[0]) && !IsWhitespace(r[|r| - 1])
    ensures (s != [] ==> !IsWhitespace(s[0]) && !IsWhitespace(s[|s| - 1])) ==> r == s
  {
    var l := TrimLeading(s);
    var r := TrimTrailing(l);
    TrimSlice(s, l, r);
    var i := |s| - |l|;
    assert 0 <= i <= i + |r| <= |s| && r == s[i..i + |r|] && CutOnlyWhitespace(s, i, i + |r|);
    assert l != [] ==> r != [] ==> r[0] == l[0];
    r
  }

  /** The ends of the trimmed string: a string that is all whitespace trims
      to nothing, and an end that is no whitespace is kept. */
  lemma TrimEnds(s: string)
    ensures Trim(s) != [] ==> s != []
    ensures (forall k :: 0 <= k < |s| ==> IsWhitespace(s[k])) ==> Trim(s) == []
    ensures s != [] && !IsWhitespace(s[0]) ==> Trim(s) != [] && Trim(s)[0] == s[0]
    ensures s != [] && !IsWhitespace(s[|s| - 1]) ==>
      Trim(s) != [] && Trim(s)[|Trim(s)| - 1] == s[|s| - 1]
  {
    var r := Trim(s);
    var i, j :| 0 <= i <= j <= |s| && r == s[i..j] && CutOnlyWhitespace(s, i, j);
    SliceEnds(s, i, r);
  }

  /** The ends of a slice that is no whitespace at its ends and has only
      whitespace around it. */
  lemma SliceEnds(s: string, i: nat, r: string)
    requires i + |r| <= |s| && r == s[i..i + |r|] && CutOnlyWhitespace(s, i, i + |r|)
    requires r != [] ==> !IsWhitespace(r[0]) && !IsWhitespace(r[|r| - 1])
    ensures (forall k :: 0 <= k < |s| ==> IsWhitespace(s[k])) ==> r == []
    ensures s != [] && !IsWhitespace(s[0]) ==> r != [] && r[0] == s[0]
    ensures s != [] && !IsWhitespace(s[|s| - 1]) ==> r != [] && r[|r| - 1] == s[|s| - 1]
  {
    if r != [] {
      assert r[0] == s[i] && r[|r| - 1] == s[i + |r| - 1];
    }
  }

  /** Everything of `s` outside `s[i..j]` is whitespace. */
  ghost predicate CutOnlyWhitespace(s: string, i: nat, j: nat)
    requires i <= j <= |s|
  {
    forall k :: 0 <= k < i || j <= k < |s| ==> IsWhitespace(s[k])
  }

  /** Cutting only whitespace from the front of `s` and then only whitespace
      from the back leaves a slice of `s` with only whitespace around it. */
  lemma TrimSlice(s: string, l: string, r: string)
    requires |l| <= |s| && l == s[|s| - |l|..]
    requires forall k :: 0 <= k < |s| - |l| ==> IsWhitespace(s[k])
    requires |r| <= |l| && r == l[..|r|]
    requires forall k :: |r| <= k < |l| ==> IsWhitespace(l[k])
    ensures var i := |s| - |l|; r == s[i..i + |r|] && CutOnlyWhitespace(s, i, i + |r|)
  {
    var i := |s| - |l|;
    forall k | i + |r| <= k < |s| ensures IsWhitespace(s[k]) {
      assert s[k] == l[k - i];
    }
  }

  // ---------------------------------------------------------------------
  // split(whereSeparator:), omitting empty pieces

  /** The start of the run of non-separators that ends `s`. */
  function RunStart(s: string, seps: set<char>): (k: nat)
    requires s != [] && s[|s| - 1] !in seps
    ensures k < |s|
    ensures forall i :: k <= i < |s| ==> s[i] !in seps
    ensures k > 0 ==> s[k - 1] in seps
  {
    if |s| == 1 then 0
    else if s[|s| - 2] in seps then |s| - 1
    else RunStart(s[..|s| - 1], seps)
  }

  /** The maximal non-empty pieces of `s` between separators, in order, as
      Swift's `split` returns them with `omittingEmptySubsequences: true`. */
  function Split(s: string, seps: set<char>): (pieces: seq<string>)
    decreases |s|
  {
    if s == [] then []
    else if s[|s| - 1] in seps then Split(s[..|s| - 1], seps)
    else
      var k := RunStart(s, seps);
      Split(s[..k], seps) + [s[k..]]
  }

  /** No piece is empty, no piece holds a separator, and every character of
      a piece is a character of `s`. */
  lemma {:induction false} SplitPieces(s: string, seps: set<char>)
    ensures forall j :: 0 <= j < |Split(s, seps)| ==> Split(s, seps)[j] != []
    ensures forall j, c :: 0 <= j < |Split(s, seps)| && c in Split(s, seps)[j] ==> c !in seps
    ensures forall j, c :: 0 <= j < |Split(s, seps)| && c in Split(s, seps)[j] ==> c in s
    decreases |s|
  {
    if s == [] {
    } else if s[|s| - 1] in seps {
      SplitPieces(s[..|s| - 1], seps);
      assert s == s[..|s| - 1] + [s[|s| - 1]];
    } else {
      var k := RunStart(s, seps);
      SplitPieces(s[..k], seps);
      assert s == s[..k] + s[k..];
    }
  }

  /** All pieces joined together. */
  function Concat(pieces: seq<string>): string
  {
    if pieces == [] then [] else Concat(pieces[..|pieces| - 1]) + pieces[|pieces| - 1]
  }

  /** `s` with its separators removed. */
  function RemoveSeparators(s: string, seps: set<char>): string
  {
    if s == [] then []
    else RemoveSeparators(s[..|s| - 1], seps) + (if s[|s| - 1] in seps then [] else [s[|s| - 1]])
  }

  lemma {:induction false} RemoveSeparatorsAppend(a: string, b: string, seps: set<char>)
    ensures RemoveSeparators(a + b, seps) == RemoveSeparators(a, seps) + RemoveSeparators(b, seps)
    decreases |b|
  {
    if b == [] {
      assert a + b == a;
    } else {
      var n := |b|;
      assert (a + b)[..|a + b| - 1] == a + b[..n - 1];
      RemoveSeparatorsAppend(a, b[..n - 1], seps);
    }
  }

  lemma {:induction false} RemoveSeparatorsNone(s: string, seps: set<char>)
    requires forall i :: 0 <= i < |s| ==> s[i] !in seps
    ensures RemoveSeparators(s, seps) == s
  {
    if s != [] {
      RemoveSeparatorsNone(s[..|s| - 1], seps);
      assert s == s[..|s| - 1] + [s[|s| - 1]];
    }
  }

  /** Joining the pieces gives back `s` without its separators: split loses
      nothing but the separators. */
  lemma {:induction false} SplitConcat(s: string, seps: set<char>)
    ensures Concat(Split(s, seps)) == RemoveSeparators(s, seps)
    decreases |s|
  {
    if s == [] {
    } else if s[|s| - 1] in seps {
      SplitConcat(s[..|s| - 1], seps);
    } else {
      var k := RunStart(s, seps);
      var pieces := Split(s[..k], seps) + [s[k..]];
      assert pieces[..|pieces| - 1] == Split(s[..k], seps);
      SplitConcat(s[..k], seps);
      assert s == s[..k] + s[k..];
      RemoveSeparatorsAppend(s[..k], s[k..], seps);
      RemoveSeparatorsNone(s[k..], seps);
    }
  }

  /** Separators at the end of a string add no piece. */
  lemma {:induction false} SplitTrailingSeparators(s: string, t: string, seps: set<char>)
    requires forall i :: 0 <= i < |t| ==> t[i] in seps
    ensures Split(s + t, seps) == Split(s, seps)
    decreases |t|
  {
    if t == [] {
      assert s + t == s;
    } else {
      assert (s + t)[..|s + t| - 1] == s + t[..|t| - 1];
      SplitTrailingSeparators(s, t[..|t| - 1], seps);
    }
  }

  /** The last piece of a string that ends in a non-separator is the run of
      non-separators at its end. */
  lemma SplitLast(s: string, seps: set<char>)
    requires s != [] && s[|s| - 1] !in seps
    ensures Split(s, seps) != []
    ensures Split(s, seps)[|Split(s, seps)| - 1] == s[RunStart(s, seps)..]
  {
  }
}
