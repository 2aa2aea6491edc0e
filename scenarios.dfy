/**
 * Key sequences and what a user sees after typing them, proved from the
 * calculator's contracts for any services that behave as each scenario
 * states.
 * Each scenario's facts about particular strings are proved in a lemma
 * beside it.
 */
module Scenarios {
  import opened Wrappers
  import opened Text
  import opened Services
  import opened Formatter
  import opened Keys
  import opened Engine

  /** Forty-one digits: the last one is refused, the buffer stays at the
      limit and the alert is raised. */
  method FortyOneDigits(services: Services) returns (raw: string, alert: bool)
    ensures raw == seq(CharacterLimit, _ => '1') && alert
  {
    var c := new Calculator(services);
    var i := 0;
    while i < CharacterLimit
      invariant 0 <= i <= CharacterLimit
      invariant c.rawInput == seq(i, _ => '1') && !c.justEvaluated && !c.showCharLimitAlert
    {
      c.HandleTap("1");
      i := i + 1;
    }
    c.HandleTap("1");
    raw, alert := c.rawInput, c.showCharLimitAlert;
  }

  /** What `=` sees for the buffer `7`. */
  lemma SevenFacts(p: Services)
    requires p.evaluate("7") == Some("7.0")
    requires p.parsesAsDouble("7.0") && p.numberFormat("7.0") == Some("7")
    ensures Substitute("7") == "7" && Evaluates(p, "7")
    ensures EvaluateExpression(p, "7") == "7.0" && FormatResult(p, "7.0") == "7"
    ensures !HasArithmeticOperator("7")
  {
    ReplaceAllAbsent("7", '×', "*");
    ReplaceAllAbsent("7", '÷', "/");
    ReplaceAllAbsent("7", '%', "*0.01");
    ReplaceAllAbsent("7", ',', "");
    assert !IsWhitespace('7');
    assert !HasArithmeticOperator("7") by {
      forall c | c in "7" ensures c !in ArithmeticOperators {
        assert c == '7';
      }
    }
  }

  /** `7=`: a bare number is shown formatted, with no receipt line and no
      history entry. */
  method BareNumber(services: Services) returns (display: string, shown: string, history: seq<string>)
    requires services.evaluate("7") == Some("7.0")
    requires services.parsesAsDouble("7.0") && services.numberFormat("7.0") == Some("7")
    ensures display == "7" && shown == "" && history == []
  {
    var c := new Calculator(services);
    c.HandleTap("7");
    assert c.rawInput == "7";
    SevenFacts(services);
    c.HandleTap("=");
    display, shown, history := c.display, c.expressionShown, c.history;
  }

  /** What the `.` key sees for the buffers of `..`. */
  lemma PointFacts()
    ensures Classify(".") == DecimalPoint && !Refused("", ".") && !Refused("0.", ".")
    ensures AppendPoint("") == Some("0.") && AppendPoint("0.") == None
  {
    assert "0."[..0] == [];
    assert RunStart("0.", OperandSeparators) == 0;
    assert Split("0.", OperandSeparators) == ["0."];
  }

  /** `..` on an empty buffer: the first point starts `0.`, the second is
      ignored. */
  method PointTwice(services: Services) returns (raw: string)
    ensures raw == "0."
  {
    PointFacts();
    var c := new Calculator(services);
    c.HandleTap(".");
    c.HandleTap(".");
    raw := c.rawInput;
  }
}
