/**
 * `String.formatExpression()` and its helper `formatNumber(_:trailingDot:)`
 * (ClearCalc/ContentView.swift): the preview of a buffer in which every run
 * of digits and decimal points is re-rendered by the number formatter and
 * every other character is kept as it is.
 */
module Formatter {
  import opened Wrappers
  import opened Text
  import opened Services

  /** The characters the scanner collects into a number run. */
  predicate IsNumberChar(c: char) {
    IsDigit(c) || c == '.'
  }

  predicate AllNumberChars(s: string) {
    forall i :: 0 <= i < |s| ==> IsNumberChar(s[i])
  }

  /** `formatNumber(_:trailingDot:)`: a run that does not parse is kept
      verbatim; otherwise the formatter's rendering (the run itself if the
      formatter yields nothing), with a `.` added when `trailingDot` is set
      and the rendering has none. */
  function FormatNumber(p: Services, part: string, trailingDot: bool): (r: string)
    ensures !p.parsesAsDouble(part) ==> r == part
    ensures p.parsesAsDouble(part) ==>
      var rendered := p.numberFormat(part).GetOr(part);
      |rendered| <= |r| <= |rendered| + 1 && r[..|rendered|] == rendered
      && (|r| > |rendered| <==> trailingDot && '.' !in rendered)
    ensures p.parsesAsDouble(part) && trailingDot ==> '.' in r
  {
    if !p.parsesAsDouble(part) then part
    else
      var result := p.numberFormat(part).GetOr(part);
      if trailingDot && '.' !in result then result + "." else result
  }

  /** Length of the maximal number run at the front of `s`. */
  function RunLength(s: string): (n: nat)
    ensures n <= |s|
    ensures n < |s| ==> !IsNumberChar(s[n])
  {
    if s != [] && IsNumberChar(s[0]) then 1 + RunLength(s[1..]) else 0
  }

  /** The front `RunLength(s)` characters are all digits and points. */
  lemma {:induction false} RunLengthIsRun(s: string)
    ensures AllNumberChars(s[..RunLength(s)])
    decreases |s|
  {
    if s != [] && IsNumberChar(s[0]) {
      RunLengthIsRun(s[1..]);
      var n := RunLength(s);
      assert s[..n] == [s[0]] + s[1..][..n - 1];
    }
  }

  /** The preview of `s`, defined run by run: a maximal run of digits and
      points is rendered by `FormatNumber`, with `trailingDot` set exactly
      when the run holds a point; any other character is copied. */
  function Formatted(p: Services, s: string): string
    decreases |s|
  {
    if s == [] then []
    else if IsNumberChar(s[0]) then
      var n := RunLength(s);
      FormatNumber(p, s[..n], '.' in s[..n]) + Formatted(p, s[n..])
    else [s[0]] + Formatted(p, s[1..])
  }

  /** A run followed by the end or by a non-number character is maximal. */
  lemma {:induction false} RunLengthOfRun(run: string, t: string)
    requires AllNumberChars(run)
    requires t == [] || !IsNumberChar(t[0])
    ensures RunLength(run + t) == |run|
  {
    if run != [] {
      assert (run + t)[1..] == run[1..] + t;
      RunLengthOfRun(run[1..], t);
    }
  }

  /** A run that ends inside `a` is not extended by what follows `a`. */
  lemma {:induction false} RunLengthAppend(a: string, t: string)
    requires RunLength(a) < |a| || t == [] || !IsNumberChar(t[0])
    ensures RunLength(a + t) == RunLength(a)
  {
    if a != [] && IsNumberChar(a[0]) {
      assert (a + t)[1..] == a[1..] + t;
      RunLengthAppend(a[1..], t);
    } else if a == [] {
      assert a + t == t;
    }
  }

  /** The loop of `formatExpression`: it collects the current run in
      `currentNumber` and flushes it at each other character and at the end. */
  method FormatExpression(p: Services, s: string) returns (formatted: string)
    ensures formatted == Formatted(p, s)
  {
    formatted := "";
    var currentNumber := "";
    var trailingDot := false;
    assert currentNumber + s[0..] == s;
    for i := 0 to |s|
      invariant AllNumberChars(currentNumber)
      invariant trailingDot == ('.' in currentNumber)
      invariant formatted + Formatted(p, currentNumber + s[i..]) == Formatted(p, s)
    {
      var ch := s[i];
      ScanStep(p, formatted, currentNumber, s[i..], Formatted(p, s));
      if IsDigit(ch) || ch == '.' {
        if ch == '.' && '.' !in currentNumber {
          trailingDot := true;
        }
        currentNumber := currentNumber + [ch];
      } else {
        if currentNumber != [] {
          formatted := formatted + FormatNumber(p, currentNumber, trailingDot);
          currentNumber := "";
          trailingDot := false;
        }
        formatted := formatted + [ch];
      }
    }
    FlushAtEnd(p, formatted, currentNumber, s[|s|..], Formatted(p, s));
    if currentNumber != [] {
      formatted := formatted + FormatNumber(p, currentNumber, trailingDot);
    }
  }

  /** One step of the scanner: the next character either extends the current
      run or flushes it and is copied. */
  lemma ScanStep(p: Services, formatted: string, run: string, t: string, total: string)
    requires AllNumberChars(run) && t != []
    requires formatted + Formatted(p, run + t) == total
    ensures IsNumberChar(t[0]) ==> formatted + Formatted(p, (run + [t[0]]) + t[1..]) == total
    ensures !IsNumberChar(t[0]) ==>
      (if run == [] then formatted else formatted + FormatNumber(p, run, '.' in run))
      + [t[0]] + Formatted(p, [] + t[1..]) == total
  {
    assert t == [t[0]] + t[1..];
    if IsNumberChar(t[0]) {
      assert run + t == (run + [t[0]]) + t[1..];
    } else {
      assert [] + t[1..] == t[1..];
      assert run + t == run + [t[0]] + t[1..];
      FormattedSeparator(p, run, t[0], t[1..]);
      ConcatAround(formatted, Formatted(p, run), t[0], Formatted(p, t[1..]));
      if run != [] {
        FormattedRun(p, run);
      } else {
        assert formatted + Formatted(p, run) == formatted;
      }
    }
  }

  /** The scanner's final flush. */
  lemma FlushAtEnd(p: Services, formatted: string, run: string, t: string, total: string)
    requires AllNumberChars(run) && t == []
    requires formatted + Formatted(p, run + t) == total
    ensures (if run == [] then formatted else formatted + FormatNumber(p, run, '.' in run)) == total
  {
    assert run + t == run;
    if run != [] {
      FormattedRun(p, run);
    }
  }

  /** A character that is neither a digit nor a point passes through
      unchanged and splits the preview in two. */
  lemma {:induction false} FormattedSeparator(p: Services, a: string, c: char, b: string)
    requires !IsNumberChar(c)
    ensures Formatted(p, a + [c] + b) == Formatted(p, a) + [c] + Formatted(p, b)
    decreases |a|
  {
    var s := a + [c] + b;
    if a == [] {
      assert s == [c] + b;
      assert s[1..] == b;
    } else if !IsNumberChar(a[0]) {
      assert s[0] == a[0];
      assert s[1..] == a[1..] + [c] + b;
      FormattedSeparator(p, a[1..], c, b);
    } else {
      var n := RunLength(a);
      FormattedSeparator(p, a[n..], c, b);
      SeparatorAfterRun(p, a, c, b);
    }
  }

  /** The step of `FormattedSeparator` for a leading run: the run is
      rendered alike on both sides, and the rest is the recursive case. */
  lemma SeparatorAfterRun(p: Services, a: string, c: char, b: string)
    requires a != [] && IsNumberChar(a[0]) && !IsNumberChar(c)
    requires var n := RunLength(a);
      Formatted(p, a[n..] + [c] + b) == Formatted(p, a[n..]) + [c] + Formatted(p, b)
    ensures Formatted(p, a + [c] + b) == Formatted(p, a) + [c] + Formatted(p, b)
  {
    var s := a + [c] + b;
    var n := RunLength(a);
    RunSharedAcrossSeparator(a, c, b);
    var head := FormatNumber(p, a[..n], '.' in a[..n]);
    var rest, tail := Formatted(p, a[n..]), Formatted(p, b);
    UnfoldRun(p, s);
    UnfoldRun(p, a);
    ConcatAround(head, rest, c, tail);
  }

  // ConcatAround, SliceAppend and UnfoldRun state one step of sequence
  // algebra or one unfolding each, over plain variables: calling them keeps
  // the proofs above cheap for the solver, which otherwise works out these
  // facts in the context of the whole formatter.

  /** Regrouping the pieces of a preview around a copied character. */
  lemma ConcatAround(head: string, rest: string, c: char, tail: string)
    ensures head + (rest + [c] + tail) == (head + rest) + [c] + tail
  {
  }

  /** The leading run of `a` is the leading run of `a + [c] + b`. */
  lemma RunSharedAcrossSeparator(a: string, c: char, b: string)
    requires a != [] && IsNumberChar(a[0]) && !IsNumberChar(c)
    ensures var s, n := a + [c] + b, RunLength(a);
      RunLength(s) == n && s[..n] == a[..n] && s[n..] == a[n..] + [c] + b
  {
    var rest := [c] + b;
    RunLengthAppend(a, rest);
    SliceAppend(a, rest, RunLength(a));
    assert a + [c] + b == a + rest;
    assert a[RunLength(a)..] + rest == a[RunLength(a)..] + [c] + b;
  }

  /** Slicing a concatenation inside its first part. */
  lemma SliceAppend(x: string, y: string, n: nat)
    requires n <= |x|
    ensures (x + y)[..n] == x[..n] && (x + y)[n..] == x[n..] + y
  {
  }

  /** The first equation of `Formatted` for a string that opens with a run. */
  lemma UnfoldRun(p: Services, x: string)
    requires x != [] && IsNumberChar(x[0])
    ensures var n := RunLength(x);
      Formatted(p, x) == FormatNumber(p, x[..n], '.' in x[..n]) + Formatted(p, x[n..])
  {
  }

  /** A whole run is rendered by `FormatNumber`, with `trailingDot` set
      whenever the run holds a point, wherever the point is. */
  lemma FormattedRun(p: Services, run: string)
    requires run != [] && AllNumberChars(run)
    ensures Formatted(p, run) == FormatNumber(p, run, '.' in run)
  {
    RunLengthOfRun(run, []);
    assert run + [] == run;
    assert run[..|run|] == run;
  }

  /** A point of the buffer survives in the preview of its run; the run gets
      a point appended exactly when its rendering has none. */
  lemma FormattedRunKeepsPoint(p: Services, run: string)
    requires run != [] && AllNumberChars(run) && p.parsesAsDouble(run)
    ensures '.' in run ==> '.' in Formatted(p, run)
    ensures var rendered := p.numberFormat(run).GetOr(run);
      Formatted(p, run) == (if '.' in run && '.' !in rendered then rendered + "." else rendered)
  {
    FormattedRun(p, run);
  }

  /** A run that does not parse is shown verbatim. */
  lemma FormattedRunUnparsed(p: Services, run: string)
    requires run != [] && AllNumberChars(run) && !p.parsesAsDouble(run)
    ensures Formatted(p, run) == run
  {
    FormattedRun(p, run);
  }

  /** Formatters that render each run as it is written. */
  ghost predicate IsIdentityFormatter(p: Services) {
    forall t :: p.numberFormat(t).GetOr(t) == t
  }

  /** With a formatter that renders each run as written, the preview is the
      buffer itself. */
  lemma {:induction false} FormattedIdentity(p: Services, s: string)
    requires IsIdentityFormatter(p)
    ensures Formatted(p, s) == s
    decreases |s|
  {
    if s == [] {
    } else if IsNumberChar(s[0]) {
      var n := RunLength(s);
      assert p.numberFormat(s[..n]).GetOr(s[..n]) == s[..n];
      FormattedIdentity(p, s[n..]);
      assert s == s[..n] + s[n..];
    } else {
      FormattedIdentity(p, s[1..]);
      assert s == [s[0]] + s[1..];
    }
  }

  /** Characters that are neither digits nor points keep their order: the
      preview of a buffer without runs is the buffer. */
  lemma {:induction false} FormattedNoRuns(p: Services, s: string)
    requires forall i :: 0 <= i < |s| ==> !IsNumberChar(s[i])
    ensures Formatted(p, s) == s
    decreases |s|
  {
    if s != [] {
      FormattedNoRuns(p, s[1..]);
      assert s == [s[0]] + s[1..];
    }
  }
}
