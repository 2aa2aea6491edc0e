/**
 * The edit rules of `ContentView.handleTap` (ClearCalc/ContentView.swift)
 * as functions on the raw buffer, the substitution and syntactic check that
 * gate `=`, and the properties of these rules.
 */
module Keys {
  import opened Wrappers
  import opened Text
  import opened Services
  import opened Formatter

  /** `characterLimit`: keys other than `=` are refused at this length. */
  const CharacterLimit: nat := 40

  /** The operator keys, which `handleTap` also strips from the end of the
      buffer before appending another one: "+-×÷". */
  const KeyOperators: set<char> := {'+', '-', '×', '÷'}

  // The separators of the decimal-point test: the characters of "+-×÷*/".
  const OperandSeparators: set<char> := {'+', '-', '×', '÷', '*', '/'}

  // The binary operators of the evaluator's syntax: the characters of "+-*/".
  const ArithmeticOperators: set<char> := {'+', '-', '*', '/'}

  /** The labels of the keypad besides the clear button. */
  const ButtonLabels: set<string> := {
    "+/-", "%", "÷", "7", "8", "9", "×", "4", "5", "6", "-", "1", "2", "3", "+", "0", ".", "="
  }

  /** The branches of the `switch` in `handleTap`. */
  datatype KeyClass = Equals | Operator | SignToggle | DecimalPoint | Entry

  function Classify(key: string): (k: KeyClass)
    ensures k == Equals <==> key == "="
    ensures k == Operator <==> |key| == 1 && key[0] in KeyOperators
  {
    if key == "=" then Equals
    else if key == "+" || key == "-" || key == "×" || key == "÷" then Operator
    else if key == "+/-" then SignToggle
    else if key == "." then DecimalPoint
    else Entry
  }

  /** The keypad's entry keys are the digits and `%`, one character each. */
  lemma EntryButtons(key: string)
    requires key in ButtonLabels && Classify(key) == Entry
    ensures |key| == 1 && (IsDigit(key[0]) || key == "%")
  {
  }

  /** The guard at the top of `handleTap`. */
  predicate Refused(raw: string, key: string) {
    |raw| >= CharacterLimit && key != "="
  }

  // ---------------------------------------------------------------------
  // Operator keys

  /** A trailing point is removed before an operator is appended. */
  function DropTrailingPoint(s: string): (r: string)
    ensures |s| - 1 <= |r| <= |s| && r == s[..|r|]
    ensures |r| < |s| <==> s != [] && s[|s| - 1] == '.'
  {
    if s != [] && s[|s| - 1] == '.' then s[..|s| - 1] else s
  }

  /** Then a trailing operator key character is removed, so that the new
      operator replaces it. */
  function DropTrailingOperator(s: string): (r: string)
    ensures |s| - 1 <= |r| <= |s| && r == s[..|r|]
    ensures |r| < |s| <==> s != [] && s[|s| - 1] in KeyOperators
  {
    if s != [] && s[|s| - 1] in KeyOperators then s[..|s| - 1] else s
  }

  /** The buffer after an operator key, starting from `base`: it ends with
      the pressed operator. */
  function AppendOperator(base: string, op: string): (r: string)
    ensures |r| >= |op| && r[|r| - |op|..] == op
  {
    DropTrailingOperator(DropTrailingPoint(base)) + op
  }

  /** Before the operator stands `base` with at most two characters cut from
      its end, and those were a point or an operator. */
  lemma AppendOperatorShape(base: string, op: string)
    ensures var r := AppendOperator(base, op);
      var kept := r[..|r| - |op|];
      |base| - 2 <= |kept| <= |base| && base[..|kept|] == kept
      && forall k :: |kept| <= k < |base| ==> base[k] == '.' || base[k] in KeyOperators
  {
  }

  /** Two operator keys in a row leave only the second one. */
  lemma OperatorReplacesOperator(base: string, a: string, b: string)
    requires Classify(a) == Operator && Classify(b) == Operator
    ensures AppendOperator(AppendOperator(base, a), b) == AppendOperator(base, b)
  {
    var kept := DropTrailingOperator(DropTrailingPoint(base));
    var r := kept + a;
    assert r[..|r| - 1] == kept;
  }

  // ---------------------------------------------------------------------
  // Decimal point, sign toggle

  /** The buffer after the `.` key, or `None` when the key is rejected: the
      last non-empty piece between separators already holds a point. */
  function AppendPoint(s: string): (r: Option<string>)
    ensures r.Some? ==> var t := r.value;
      t != [] && t[|t| - 1] == '.' && t[..|t| - 1] == (if s == [] then "0" else s)
    ensures r.None? ==> '.' in s
  {
    if s == [] then Some("0.")
    else
      var pieces := Split(s, OperandSeparators);
      SplitPieces(s, OperandSeparators);
      if pieces != [] && '.' in pieces[|pieces| - 1] then None else Some(s + ".")
  }

  /** Separators typed after an operand with a point do not open a new
      operand for the point test: after `1.5+` the `.` key is still rejected. */
  lemma {:induction false} PointRejectedAfterSeparators(s: string, t: string)
    requires AppendPoint(s) == None
    requires forall i :: 0 <= i < |t| ==> t[i] in OperandSeparators
    ensures AppendPoint(s + t) == None
  {
    SplitTrailingSeparators(s, t, OperandSeparators);
  }

  lemma PointRejectedAfterOperatorExample()
    ensures AppendPoint("1.5+") == None
  {
    assert Split("1.5", OperandSeparators) == ["1.5"];
    PointRejectedAfterSeparators("1.5", "+");
    assert "1.5" + "+" == "1.5+";
  }

  /** The sign toggle wraps the whole buffer in `(-` and `)`; the result is
      the old buffer with three characters around it. */
  function ToggleSign(s: string): (r: string)
    ensures |r| == |s| + 3 && r[2..|r| - 1] == s
    ensures r[..2] == "(-" && r[|r| - 1] == ')'
  {
    "(-" + s + ")"
  }

  // ---------------------------------------------------------------------
  // At most one point per operand

  ghost predicate AtMostOnePoint(t: string) {
    forall i, j :: 0 <= i < j < |t| ==> !(t[i] == '.' && t[j] == '.')
  }

  /** Every piece of the buffer between separators holds at most one point. */
  ghost predicate OnePointPerOperand(s: string) {
    var pieces := Split(s, OperandSeparators);
    forall j :: 0 <= j < |pieces| ==> AtMostOnePoint(pieces[j])
  }

  /** A character that is not a separator extends the last piece, or starts a
      new one right after a separator. */
  lemma SplitAppendChar(s: string, c: char, seps: set<char>)
    requires c !in seps
    ensures var pieces := Split(s, seps);
      Split(s + [c], seps) ==
        if s == [] || s[|s| - 1] in seps then pieces + [[c]]
        else pieces[..|pieces| - 1] + [pieces[|pieces| - 1] + [c]]
  {
    var t := s + [c];
    assert t[..|t| - 1] == s;
    if s == [] {
      assert t[..0] == [];
    } else if s[|s| - 1] in seps {
      assert t[..|s|] == s;
    } else {
      var k := RunStart(s, seps);
      assert RunStart(t, seps) == k;
      assert t[..k] == s[..k];
      assert t[k..] == s[k..] + [c];
      var front := Split(s[..k], seps);
      assert Split(t, seps) == front + [s[k..] + [c]];
      var pieces := front + [s[k..]];
      assert Split(s, seps) == pieces;
      assert pieces[..|pieces| - 1] == front && pieces[|pieces| - 1] == s[k..];
    }
  }

  /** A prefix of a piece with at most one point has at most one point. */
  lemma AtMostOnePointPrefix(t: string, c: char)
    requires AtMostOnePoint(t + [c])
    ensures AtMostOnePoint(t)
  {
    forall i, j | 0 <= i < j < |t| ensures !(t[i] == '.' && t[j] == '.') {
      assert (t + [c])[i] == t[i] && (t + [c])[j] == t[j];
    }
  }

  /** Piece lists after a character is appended, as `SplitAppendChar` gives
      them: if the longer list keeps the invariant, so does the shorter. */
  lemma PiecesBeforeAppend(pieces: seq<string>, whole: seq<string>, c: char)
    requires whole == pieces + [[c]]
      || (pieces != [] && whole == pieces[..|pieces| - 1] + [pieces[|pieces| - 1] + [c]])
    requires forall j :: 0 <= j < |whole| ==> AtMostOnePoint(whole[j])
    ensures forall j :: 0 <= j < |pieces| ==> AtMostOnePoint(pieces[j])
  {
    var m := |pieces|;
    if whole == pieces + [[c]] {
      assert forall j :: 0 <= j < m ==> whole[j] == pieces[j];
    } else {
      assert forall j :: 0 <= j < m - 1 ==> whole[j] == pieces[j];
      assert whole[m - 1] == pieces[m - 1] + [c];
      AtMostOnePointPrefix(pieces[m - 1], c);
    }
  }

  /** Dropping the last character only shortens or removes the last piece. */
  lemma DropLastKeepsOnePoint(s: string)
    requires s != [] && OnePointPerOperand(s)
    ensures OnePointPerOperand(s[..|s| - 1])
  {
    var init, c := s[..|s| - 1], s[|s| - 1];
    assert s == init + [c];
    if c !in OperandSeparators {
      SplitAppendChar(init, c, OperandSeparators);
      PiecesBeforeAppend(Split(init, OperandSeparators), Split(s, OperandSeparators), c);
    } else {
      SplitTrailingSeparators(init, [c], OperandSeparators);
    }
  }

  /** The piece a character appended to `s` lands in, if it is no separator:
      the last piece, unless `s` is empty or ends with a separator. */
  predicate EndsInPiece(s: string) {
    s != [] && s[|s| - 1] !in OperandSeparators
  }

  /** Appending a non-separator keeps the invariant when it is no point, or
      when it is a point and the piece it lands in has none. */
  lemma ExtendKeepsOnePoint(s: string, c: char)
    requires OnePointPerOperand(s) && c !in OperandSeparators
    requires c == '.' && EndsInPiece(s) ==>
      var pieces := Split(s, OperandSeparators); pieces != [] && '.' !in pieces[|pieces| - 1]
    ensures OnePointPerOperand(s + [c])
  {
    SplitAppendChar(s, c, OperandSeparators);
    var pieces := Split(s, OperandSeparators);
    var after := Split(s + [c], OperandSeparators);
    if EndsInPiece(s) {
      SplitLast(s, OperandSeparators);
      var m := |pieces|;
      var last := pieces[m - 1];
      assert after == pieces[..m - 1] + [last + [c]];
      assert AtMostOnePoint(last);
      assert AtMostOnePoint(last + [c]) by {
        forall i, j | 0 <= i < j < |last| + 1
          ensures !((last + [c])[i] == '.' && (last + [c])[j] == '.')
        {
          if j == |last| && c == '.' {
            assert '.' !in last;
            assert (last + [c])[i] == last[i];
          }
        }
      }
      assert forall j :: 0 <= j < m - 1 ==> after[j] == pieces[j];
    } else {
      assert after == pieces + [[c]];
      assert forall j :: 0 <= j < |pieces| ==> after[j] == pieces[j];
      assert AtMostOnePoint([c]);
    }
  }

  /** Appending a character other than a point keeps the invariant. */
  lemma AppendCharKeepsOnePoint(s: string, c: char)
    requires c != '.' && OnePointPerOperand(s)
    ensures OnePointPerOperand(s + [c])
  {
    if c in OperandSeparators {
      SplitTrailingSeparators(s, [c], OperandSeparators);
    } else {
      ExtendKeepsOnePoint(s, c);
    }
  }

  /** An accepted `.` keeps the invariant: it lands in a piece without one. */
  lemma AppendPointKeepsOnePoint(s: string)
    requires OnePointPerOperand(s) && AppendPoint(s).Some?
    ensures OnePointPerOperand(AppendPoint(s).value)
  {
    if s == [] {
      AppendCharKeepsOnePoint([], '0');
      assert [] + ['0'] == "0";
      SplitLast("0", OperandSeparators);
      ExtendKeepsOnePoint("0", '.');
      assert "0" + ['.'] == "0.";
    } else {
      if EndsInPiece(s) {
        SplitLast(s, OperandSeparators);
      }
      ExtendKeepsOnePoint(s, '.');
      assert s + ['.'] == s + ".";
    }
  }

  /** An operator key keeps the invariant of the buffer it starts from. */
  lemma AppendOperatorKeepsOnePoint(base: string, op: string)
    requires OnePointPerOperand(base) && Classify(op) == Operator
    ensures OnePointPerOperand(AppendOperator(base, op))
  {
    var b1 := DropTrailingPoint(base);
    if b1 != base {
      DropLastKeepsOnePoint(base);
    }
    var b2 := DropTrailingOperator(b1);
    if b2 != b1 {
      DropLastKeepsOnePoint(b1);
    }
    AppendCharKeepsOnePoint(b2, op[0]);
    assert op == [op[0]];
  }

  /** The run of non-separators at the end of `a + b` lies inside `b` when
      `a` ends with a separator. */
  lemma {:induction false} RunStartAfterSeparator(a: string, b: string, seps: set<char>)
    requires a != [] && a[|a| - 1] in seps
    requires b != [] && b[|b| - 1] !in seps
    ensures RunStart(a + b, seps) == |a| + RunStart(b, seps)
    decreases |b|
  {
    var t := a + b;
    if |b| == 1 {
      assert t[|t| - 2] == a[|a| - 1];
    } else if b[|b| - 2] in seps {
    } else {
      assert t[..|t| - 1] == a + b[..|b| - 1];
      RunStartAfterSeparator(a, b[..|b| - 1], seps);
    }
  }

  /** Split cuts at separators: after one, the pieces start afresh. */
  lemma {:induction false} SplitAfterSeparator(a: string, b: string, seps: set<char>)
    requires a != [] && a[|a| - 1] in seps
    ensures Split(a + b, seps) == Split(a, seps) + Split(b, seps)
    decreases |b|
  {
    var t := a + b;
    if b == [] {
      assert t == a;
    } else if b[|b| - 1] in seps {
      assert t[..|t| - 1] == a + b[..|b| - 1];
      assert Split(t, seps) == Split(a + b[..|b| - 1], seps);
      SplitAfterSeparator(a, b[..|b| - 1], seps);
      assert Split(b, seps) == Split(b[..|b| - 1], seps);
    } else {
      var k := RunStart(b, seps);
      assert t[|t| - 1] == b[|b| - 1];
      RunStartAfterSeparator(a, b, seps);
      assert Split(t, seps) == Split(t[..|a| + k], seps) + [t[|a| + k..]];
      assert t[..|a| + k] == a + b[..k];
      assert t[|a| + k..] == b[k..];
      SplitAfterSeparator(a, b[..k], seps);
      assert Split(b, seps) == Split(b[..k], seps) + [b[k..]];
      var pa, pb := Split(a, seps), Split(b[..k], seps);
      assert (pa + pb) + [b[k..]] == pa + (pb + [b[k..]]);
    }
  }

  /** The opening `(-` of a toggled buffer is the single piece `(`. */
  lemma SplitOpenMinus()
    ensures Split("(-", OperandSeparators) == ["("]
  {
    assert "(-"[..1] == "(" && "("[..0] == [] && "("[0..] == "(";
    assert RunStart("(", OperandSeparators) == 0;
    assert Split("(", OperandSeparators) == ["("];
  }

  /** The sign toggle keeps the invariant: `(` and `)` hold no point. */
  lemma ToggleSignKeepsOnePoint(s: string)
    requires OnePointPerOperand(s)
    ensures OnePointPerOperand(ToggleSign(s))
  {
    AppendCharKeepsOnePoint(s, ')');
    var t := s + ")";
    SplitAfterSeparator("(-", t, OperandSeparators);
    SplitOpenMinus();
    assert ToggleSign(s) == "(-" + t;
    PiecesAfterOpen(Split(t, OperandSeparators));
  }

  /** The piece `(` in front of piece lists that keep the invariant. */
  lemma PiecesAfterOpen(pieces: seq<string>)
    requires forall j :: 0 <= j < |pieces| ==> AtMostOnePoint(pieces[j])
    ensures var all := ["("] + pieces; forall j :: 0 <= j < |all| ==> AtMostOnePoint(all[j])
  {
    var all := ["("] + pieces;
    assert AtMostOnePoint(all[0]);
    assert forall j :: 1 <= j < |all| ==> all[j] == pieces[j - 1];
  }

  /** An entry key (a digit or `%`) appended to the buffer keeps the invariant. */
  lemma EntryKeepsOnePoint(s: string, key: string)
    requires OnePointPerOperand(s) && key in ButtonLabels && Classify(key) == Entry
    ensures OnePointPerOperand(s + key)
  {
    EntryButtons(key);
    AppendCharKeepsOnePoint(s, key[0]);
    assert key == [key[0]];
  }

  /** An entry key after `=` starts a buffer that keeps the invariant. */
  lemma EntryAloneOnePoint(key: string)
    requires key in ButtonLabels && Classify(key) == Entry
    ensures OnePointPerOperand(key)
  {
    EntryButtons(key);
    AppendCharKeepsOnePoint([], key[0]);
    assert [] + [key[0]] == key;
  }

  // ---------------------------------------------------------------------
  // The `=` key

  /** The buffer in the evaluator's syntax: `×` to `*`, `÷` to `/`, `%` to
      `*0.01`, grouping commas removed, in that order. */
  function Substitute(raw: string): (e: string)
    ensures '×' !in e && '÷' !in e && '%' !in e && ',' !in e
  {
    var e1 := ReplaceAll(raw, '×', "*");
    ReplaceAllChars(raw, '×', "*", '×');
    var e2 := ReplaceAll(e1, '÷', "/");
    ReplaceAllChars(e1, '÷', "/", '×');
    ReplaceAllChars(e1, '÷', "/", '÷');
    var e3 := ReplaceAll(e2, '%', "*0.01");
    ReplaceAllChars(e2, '%', "*0.01", '×');
    ReplaceAllChars(e2, '%', "*0.01", '÷');
    ReplaceAllChars(e2, '%', "*0.01", '%');
    var e4 := ReplaceAll(e3, ',', "");
    ReplaceAllChars(e3, ',', "", '×');
    ReplaceAllChars(e3, ',', "", '÷');
    ReplaceAllChars(e3, ',', "", '%');
    ReplaceAllChars(e3, ',', "", ',');
    e4
  }

  /** `isValidExpression`: after trimming whitespace the expression is not
      empty and neither starts nor ends with a binary operator. */
  predicate IsValidExpression(e: string) {
    var t := Trim(e);
    !(t == [] || t[0] in ArithmeticOperators || t[|t| - 1] in ArithmeticOperators)
  }

  /** The check in terms of the untrimmed expression: a valid expression is
      neither empty nor all whitespace; one that starts or ends with an
      operator is invalid; and one with neither whitespace nor an operator
      at either end is valid. */
  lemma ValidExpressionEnds(e: string)
    ensures IsValidExpression(e) ==> e != []
    ensures (forall k :: 0 <= k < |e| ==> IsWhitespace(e[k])) ==> !IsValidExpression(e)
    ensures e != [] && (e[0] in ArithmeticOperators || e[|e| - 1] in ArithmeticOperators) ==> !IsValidExpression(e)
    ensures (e != [] && !IsWhitespace(e[0]) && !IsWhitespace(e[|e| - 1])
             && e[0] !in ArithmeticOperators && e[|e| - 1] !in ArithmeticOperators) ==> IsValidExpression(e)
  {
    TrimEnds(e);
    OperatorsNotWhitespace();
  }

  /** No operator of the evaluator's syntax is whitespace. */
  lemma OperatorsNotWhitespace()
    ensures forall c :: c in ArithmeticOperators ==> !IsWhitespace(c)
  {
  }

  // The expression holds at least one of the binary operators.
  predicate HasArithmeticOperator(e: string) {
    '+' in e || '-' in e || '*' in e || '/' in e
  }

  /** `evaluateExpression`: the evaluator's result, or `"Error"` when it throws. */
  function EvaluateExpression(p: Services, e: string): string {
    match p.evaluate(e)
    case Some(r) => r
    case None => "Error"
  }

  /** `ContentView.formatNumber`: the formatter's rendering of a number,
      and the string itself when it does not parse or the formatter fails. */
  function FormatResult(p: Services, s: string): (r: string)
    ensures r == FormatNumber(p, s, false)
  {
    if !p.parsesAsDouble(s) then s else p.numberFormat(s).GetOr(s)
  }

  /** The conditions under which `=` changes anything: the substituted
      buffer passes the syntactic check, the evaluator does not fail, and
      its result parses as a number. */
  predicate Evaluates(p: Services, raw: string) {
    var e := Substitute(raw);
    var result := EvaluateExpression(p, e);
    IsValidExpression(e) && result != "Error" && p.parsesAsDouble(result)
  }

  /** The characters after substitution: the buffer's own, except the
      display glyphs, percent signs and commas, and the characters that
      stand in for those. */
  lemma SubstituteChars(raw: string, x: char)
    ensures x in Substitute(raw) <==>
      (x in raw && x != '×' && x != '÷' && x != '%' && x != ',')
      || (x == '*' && ('×' in raw || '%' in raw))
      || (x == '/' && '÷' in raw)
      || (x in "0.1" && '%' in raw)
  {
    var e1 := ReplaceAll(raw, '×', "*");
    ReplaceAllChars(raw, '×', "*", '×');
    var e2 := ReplaceAll(e1, '÷', "/");
    var e3 := ReplaceAll(e2, '%', "*0.01");
    ReplaceAllChars(raw, '×', "*", x);
    ReplaceAllChars(raw, '×', "*", '÷');
    ReplaceAllChars(raw, '×', "*", '%');
    assert x in e1 <==> (x in raw && x != '×') || ('×' in raw && x == '*');
    ReplaceAllChars(e1, '÷', "/", x);
    ReplaceAllChars(e1, '÷', "/", '%');
    assert x in e2 <==> (x in e1 && x != '÷') || ('÷' in raw && x == '/');
    ReplaceAllChars(e2, '%', "*0.01", x);
    assert x in e3 <==> (x in e2 && x != '%') || ('%' in raw && x in "*0.01");
    ReplaceAllChars(e3, ',', "", x);
  }

  /** The keys whose characters end up as a binary operator of the evaluator. */
  const OperatorGlyphs: set<char> := {'+', '-', '*', '/', '×', '÷', '%'}

  /** A calculation goes to the history exactly when the buffer holds an
      operator glyph; `%` counts, since it becomes `*0.01`. */
  lemma HistoryRecordedIff(raw: string)
    ensures HasArithmeticOperator(Substitute(raw)) <==> exists c :: c in raw && c in OperatorGlyphs
  {
    var e := Substitute(raw);
    SubstituteChars(raw, '+');
    SubstituteChars(raw, '-');
    SubstituteChars(raw, '*');
    SubstituteChars(raw, '/');
    if HasArithmeticOperator(e) {
      var c :| c in e && c in ArithmeticOperators;
      assert c in raw || '×' in raw || '%' in raw || '÷' in raw;
    }
    if exists c :: c in raw && c in OperatorGlyphs {
      var c :| c in raw && c in OperatorGlyphs;
      if c in ArithmeticOperators {
        assert c in e;
      } else if c == '÷' {
        assert '/' in e;
      } else {
        assert '*' in e;
      }
    }
  }

  /** The empty buffer never evaluates. */
  lemma EmptyNeverEvaluates(p: Services)
    ensures !Evaluates(p, "")
  {
  }

  /** A buffer that starts with `-`, as a negative result does, never
      evaluates: `-` is one of the operators the check rejects in front. */
  lemma NegativeBufferNeverEvaluates(p: Services, raw: string)
    requires raw != [] && raw[0] == '-'
    ensures !Evaluates(p, raw)
  {
    var e1 := ReplaceAll(raw, '×', "*");
    ReplaceAllEnds(raw, '×', "*");
    var e2 := ReplaceAll(e1, '÷', "/");
    ReplaceAllEnds(e1, '÷', "/");
    var e3 := ReplaceAll(e2, '%', "*0.01");
    ReplaceAllEnds(e2, '%', "*0.01");
    var e := ReplaceAll(e3, ',', "");
    ReplaceAllEnds(e3, ',', "");
    assert e[0] == '-';
    var l := TrimLeading(e);
    assert l == e;
    var t := TrimTrailing(l);
    assert t != [] && t[0] == '-';
  }

  /** The characters the syntactic check rejects at the front and at the
      end of a buffer, before substitution. */
  const LeadingRejects: set<char> := {'+', '-', '*', '/', '×', '÷', '%'}
  const TrailingRejects: set<char> := {'+', '-', '*', '/', '×', '÷'}

  /** The first character after substitution of a buffer starting with `c`. */
  function LeadingAfter(c: char): char {
    if c == '×' || c == '%' then '*' else if c == '÷' then '/' else c
  }

  /** The last character after substitution of a buffer ending with `c`. */
  function TrailingAfter(c: char): char {
    if c == '×' then '*' else if c == '÷' then '/' else if c == '%' then '1' else c
  }

  lemma SubstituteEnds(raw: string)
    requires raw != [] && raw[0] != ',' && raw[|raw| - 1] != ','
    ensures var e := Substitute(raw);
      e != [] && e[0] == LeadingAfter(raw[0]) && e[|e| - 1] == TrailingAfter(raw[|raw| - 1])
  {
    var e3 := ReplaceAll(ReplaceAll(ReplaceAll(raw, '×', "*"), '÷', "/"), '%', "*0.01");
    GlyphEnds(raw);
    ReplaceAllEnds(e3, ',', "");
    assert Substitute(raw) == ReplaceAll(e3, ',', "");
  }

  /** The ends after the three glyph replacements, before commas go. */
  lemma GlyphEnds(raw: string)
    requires raw != []
    ensures var e3 := ReplaceAll(ReplaceAll(ReplaceAll(raw, '×', "*"), '÷', "/"), '%', "*0.01");
      e3 != [] && e3[0] == LeadingAfter(raw[0]) && e3[|e3| - 1] == TrailingAfter(raw[|raw| - 1])
  {
    GlyphFirst(raw);
    GlyphLast(raw);
  }

  /** The first character after the glyph replacements. */
  lemma GlyphFirst(raw: string)
    requires raw != []
    ensures var e3 := ReplaceAll(ReplaceAll(ReplaceAll(raw, '×', "*"), '÷', "/"), '%', "*0.01");
      e3 != [] && e3[0] == LeadingAfter(raw[0])
  {
    var e1 := ReplaceAll(raw, '×', "*");
    var a1 := if raw[0] == '×' then '*' else raw[0];
    ReplaceStepFirst(raw, '×', "*", raw[0]);
    var e2 := ReplaceAll(e1, '÷', "/");
    var a2 := if a1 == '÷' then '/' else a1;
    ReplaceStepFirst(e1, '÷', "/", a1);
    ReplaceStepFirst(e2, '%', "*0.01", a2);
  }

  /** One replacement step seen from the first character `a` of a buffer. */
  lemma ReplaceStepFirst(s: string, c: char, rep: string, a: char)
    requires s != [] && s[0] == a && rep != []
    ensures var r := ReplaceAll(s, c, rep); r != [] && r[0] == (if a == c then rep[0] else a)
  {
  }

  /** The last character after the glyph replacements. */
  lemma GlyphLast(raw: string)
    requires raw != []
    ensures var e3 := ReplaceAll(ReplaceAll(ReplaceAll(raw, '×', "*"), '÷', "/"), '%', "*0.01");
      e3 != [] && e3[|e3| - 1] == TrailingAfter(raw[|raw| - 1])
  {
    var e1 := ReplaceAll(raw, '×', "*");
    var b1 := if raw[|raw| - 1] == '×' then '*' else raw[|raw| - 1];
    ReplaceStepLast(raw, '×', "*", raw[|raw| - 1]);
    var e2 := ReplaceAll(e1, '÷', "/");
    var b2 := if b1 == '÷' then '/' else b1;
    ReplaceStepLast(e1, '÷', "/", b1);
    ReplaceStepLast(e2, '%', "*0.01", b2);
  }

  /** One replacement step seen from the last character `b` of a buffer. */
  lemma ReplaceStepLast(s: string, c: char, rep: string, b: char)
    requires s != [] && s[|s| - 1] == b && rep != []
    ensures var r := ReplaceAll(s, c, rep); r != [] && r[|r| - 1] == (if b == c then rep[|rep| - 1] else b)
  {
    ReplaceAllEnds(s, c, rep);
  }

  /** The syntactic check in terms of the buffer: for a buffer that neither
      starts nor ends with whitespace or a comma, `=` proceeds exactly when
      the buffer is not empty, does not start with an operator or `%`, and
      does not end with an operator (a trailing `%` is fine). */
  lemma BufferValidIff(raw: string)
    requires raw != [] ==> !IsWhitespace(raw[0]) && raw[0] != ',' && !IsWhitespace(raw[|raw| - 1]) && raw[|raw| - 1] != ','
    ensures IsValidExpression(Substitute(raw)) <==>
      raw != [] && raw[0] !in LeadingRejects && raw[|raw| - 1] !in TrailingRejects
  {
    if raw != [] {
      SubstituteEnds(raw);
      var e := Substitute(raw);
      var first, last := raw[0], raw[|raw| - 1];
      EndCharacters(first, last);
      assert e[0] == LeadingAfter(first) && e[|e| - 1] == TrailingAfter(last);
      assert Trim(e) == e;
    }
  }

  /** What substitution does to the end characters, as the check sees them. */
  lemma EndCharacters(first: char, last: char)
    requires !IsWhitespace(first) && !IsWhitespace(last)
    ensures !IsWhitespace(LeadingAfter(first)) && !IsWhitespace(TrailingAfter(last))
    ensures LeadingAfter(first) in ArithmeticOperators <==> first in LeadingRejects
    ensures TrailingAfter(last) in ArithmeticOperators <==> last in TrailingRejects
  {
  }
}
