/**
 * The state of `ContentView` that the keys change (ClearCalc/ContentView.swift)
 * and the handlers that change it: `handleTap`, `backspace`, and the two
 * actions of the clear button (a tap and a long press).
 */
module Engine {
  import opened Wrappers
  import opened Text
  import opened Services
  import opened Formatter
  import opened Keys

  class Calculator {
    /** Number parsing, formatting and evaluation, fixed for the session. */
    const services: Services

    /** The big line: the formatted buffer while editing, the formatted result after `=`. */
    var display: string
    /** The expression as typed, in display glyphs. */
    var rawInput: string
    /** The receipt line above the display: the formatted expression of the last calculation. */
    var expressionShown: string
    /** Set by a successful `=`; governs how the next key treats the buffer. */
    var justEvaluated: bool
    /** Completed calculations, newest first, as `"<expression> = <result>"`. */
    var history: seq<string>
    /** Raised when a key is refused because the buffer is full. */
    var showCharLimitAlert: bool

    constructor (services: Services)
      ensures this.services == services
      ensures display == "0" && rawInput == "" && expressionShown == ""
      ensures !justEvaluated && history == [] && !showCharLimitAlert
      ensures ShowsBuffer() && OnePointPerOperand(rawInput)
    {
      this.services := services;
      display := "0";
      rawInput := "";
      expressionShown := "";
      justEvaluated := false;
      history := [];
      showCharLimitAlert := false;
    }

    /** `currentInput`: the preview of the buffer. */
    function CurrentInput(): string
      reads this
    {
      Formatted(services, rawInput)
    }

    /** Unless a result is on screen, the display shows the buffer: its
        preview, or `0` for an empty buffer. */
    ghost predicate ShowsBuffer()
      reads this
    {
      !justEvaluated ==> display == CurrentInput() || (rawInput == [] && display == "0")
    }

    /** `handleTap(_:)`: one key of the keypad. */
    method HandleTap(key: string)
      modifies this
      // The limit guard: only the alert changes.
      ensures Refused(old(rawInput), key) ==>
        rawInput == old(rawInput) && display == old(display) && expressionShown == old(expressionShown)
        && history == old(history) && justEvaluated == old(justEvaluated) && showCharLimitAlert
      ensures !Refused(old(rawInput), key) ==> showCharLimitAlert == old(showCharLimitAlert)
      // `=`
      ensures !Refused(old(rawInput), key) && Classify(key) == Equals ==>
        if Evaluates(services, old(rawInput)) then
          var e := Substitute(old(rawInput));
          var result := EvaluateExpression(services, e);
          var formatted := FormatResult(services, result);
          var expression := Formatted(services, old(rawInput));
          rawInput == result && display == formatted && justEvaluated
          && (if HasArithmeticOperator(e) then
                expressionShown == expression && history == [expression + " = " + formatted] + old(history)
              else
                expressionShown == "" && history == old(history))
        else
          unchanged(this)
      // An operator: continue from the result after `=`, tidy the end, append.
      ensures !Refused(old(rawInput), key) && Classify(key) == Operator ==>
        var base := if old(justEvaluated) then ReplaceAll(old(display), ',', "") else old(rawInput);
        rawInput == AppendOperator(base, key) && display == CurrentInput() && !justEvaluated
        && expressionShown == old(expressionShown) && history == old(history)
      // The sign toggle wraps the whole buffer.
      ensures !Refused(old(rawInput), key) && Classify(key) == SignToggle ==>
        if old(rawInput) == [] then unchanged(this)
        else
          rawInput == ToggleSign(old(rawInput)) && display == CurrentInput() && justEvaluated == old(justEvaluated)
          && expressionShown == old(expressionShown) && history == old(history)
      // The decimal point: rejected when the last operand already holds one.
      ensures !Refused(old(rawInput), key) && Classify(key) == DecimalPoint ==>
        match AppendPoint(old(rawInput))
        case None => unchanged(this)
        case Some(edited) =>
          rawInput == edited && display == CurrentInput() && justEvaluated == old(justEvaluated)
          && expressionShown == old(expressionShown) && history == old(history)
      // Digits and `%`: start afresh after `=`, else append.
      ensures !Refused(old(rawInput), key) && Classify(key) == Entry ==>
        rawInput == (if old(justEvaluated) then key else old(rawInput) + key)
        && display == CurrentInput() && !justEvaluated
        && expressionShown == old(expressionShown) && history == old(history)
      ensures old(ShowsBuffer()) ==> ShowsBuffer()
      ensures old(OnePointPerOperand(rawInput)) && key in ButtonLabels && key != "="
                && !(old(justEvaluated) && Classify(key) == Operator)
              ==> OnePointPerOperand(rawInput)
    {
      if |rawInput| >= CharacterLimit && key != "=" {
        showCharLimitAlert := true;
        return;
      }
      match Classify(key)
      case Equals => TapEquals();
      case Operator => TapOperator(key);
      case SignToggle => TapSignToggle();
      case DecimalPoint => TapDecimalPoint();
      case Entry => TapEntry(key);
    }

    /** The `=` branch of `handleTap`. */
    method TapEquals()
      modifies this
      ensures
        if Evaluates(services, old(rawInput)) then
          var e := Substitute(old(rawInput));
          var result := EvaluateExpression(services, e);
          var formatted := FormatResult(services, result);
          var expression := Formatted(services, old(rawInput));
          rawInput == result && display == formatted && justEvaluated
          && showCharLimitAlert == old(showCharLimitAlert)
          && (if HasArithmeticOperator(e) then
                expressionShown == expression && history == [expression + " = " + formatted] + old(history)
              else
                expressionShown == "" && history == old(history))
        else
          unchanged(this)
    {
      var raw := rawInput;
      var expression := Substitute(raw);
      if IsValidExpression(expression) {
        var result := EvaluateExpression(services, expression);
        if result != "Error" && services.parsesAsDouble(result) {
          var formatted := FormatResult(services, result);
          var shown, entries := "", history;
          if HasArithmeticOperator(expression) {
            var current := FormatExpression(services, raw);
            shown, entries := current, [current + " = " + formatted] + history;
          }
          display, expressionShown, history := formatted, shown, entries;
          rawInput, justEvaluated := result, true;
        }
      }
    }

    /** The operator branch of `handleTap`. */
    method TapOperator(key: string)
      requires Classify(key) == Operator
      modifies this
      ensures
        var base := if old(justEvaluated) then ReplaceAll(old(display), ',', "") else old(rawInput);
        rawInput == AppendOperator(base, key) && display == CurrentInput() && !justEvaluated
      ensures expressionShown == old(expressionShown) && history == old(history)
      ensures showCharLimitAlert == old(showCharLimitAlert)
      ensures old(OnePointPerOperand(rawInput)) && !old(justEvaluated) ==> OnePointPerOperand(rawInput)
    {
      // The buffer is edited in a local copy and stored once at the end.
      var buffer := rawInput;
      if justEvaluated {
        buffer := ReplaceAll(display, ',', "");
        justEvaluated := false;
      } else if OnePointPerOperand(buffer) {
        AppendOperatorKeepsOnePoint(buffer, key);
      }
      ghost var base := buffer;
      if buffer != [] && buffer[|buffer| - 1] == '.' {
        buffer := buffer[..|buffer| - 1];
      }
      assert buffer == DropTrailingPoint(base);
      if buffer != [] && buffer[|buffer| - 1] in KeyOperators {
        buffer := buffer[..|buffer| - 1];
      }
      assert buffer == DropTrailingOperator(DropTrailingPoint(base));
      rawInput := buffer + key;
      display := FormatExpression(services, rawInput);
    }

    /** The `+/-` branch of `handleTap`. */
    method TapSignToggle()
      modifies this
      ensures old(rawInput) == [] ==> unchanged(this)
      ensures old(rawInput) != [] ==>
        rawInput == ToggleSign(old(rawInput)) && display == CurrentInput()
        && justEvaluated == old(justEvaluated) && showCharLimitAlert == old(showCharLimitAlert)
        && expressionShown == old(expressionShown) && history == old(history)
      ensures old(OnePointPerOperand(rawInput)) ==> OnePointPerOperand(rawInput)
    {
      if rawInput == [] {
        return;
      }
      if OnePointPerOperand(rawInput) {
        ToggleSignKeepsOnePoint(rawInput);
      }
      rawInput := "(-" + rawInput + ")";
      display := FormatExpression(services, rawInput);
    }

    /** The `.` branch of `handleTap`. */
    method TapDecimalPoint()
      modifies this
      ensures
        match AppendPoint(old(rawInput))
        case None => unchanged(this)
        case Some(edited) =>
          rawInput == edited && display == CurrentInput()
          && justEvaluated == old(justEvaluated) && showCharLimitAlert == old(showCharLimitAlert)
          && expressionShown == old(expressionShown) && history == old(history)
      ensures old(OnePointPerOperand(rawInput)) ==> OnePointPerOperand(rawInput)
    {
      if OnePointPerOperand(rawInput) && AppendPoint(rawInput).Some? {
        AppendPointKeepsOnePoint(rawInput);
      }
      if rawInput == [] {
        rawInput := "0.";
      } else {
        var pieces := Split(rawInput, OperandSeparators);
        if pieces != [] && '.' in pieces[|pieces| - 1] {
          return;
        }
        rawInput := rawInput + ".";
      }
      display := FormatExpression(services, rawInput);
    }

    /** The `default` branch of `handleTap`: digits and `%`. */
    method TapEntry(key: string)
      modifies this
      ensures rawInput == (if old(justEvaluated) then key else old(rawInput) + key)
      ensures display == CurrentInput() && !justEvaluated && showCharLimitAlert == old(showCharLimitAlert)
      ensures expressionShown == old(expressionShown) && history == old(history)
      ensures old(OnePointPerOperand(rawInput)) && key in ButtonLabels && Classify(key) == Entry ==>
        OnePointPerOperand(rawInput)
    {
      if justEvaluated {
        if key in ButtonLabels && Classify(key) == Entry {
          EntryAloneOnePoint(key);
        }
        rawInput := key;
        justEvaluated := false;
      } else {
        if OnePointPerOperand(rawInput) && key in ButtonLabels && Classify(key) == Entry {
          EntryKeepsOnePoint(rawInput, key);
        }
        rawInput := rawInput + key;
      }
      display := FormatExpression(services, rawInput);
    }

    /** `backspace()`: drop the last character of the buffer. */
    method Backspace()
      modifies this
      ensures old(rawInput) == [] ==> unchanged(this)
      ensures old(rawInput) != [] ==>
        rawInput == old(rawInput)[..|old(rawInput)| - 1]
        && display == (if rawInput == [] then "0" else CurrentInput())
        && expressionShown == old(expressionShown) && history == old(history)
        && justEvaluated == old(justEvaluated) && showCharLimitAlert == old(showCharLimitAlert)
      ensures old(ShowsBuffer()) ==> ShowsBuffer()
      ensures old(OnePointPerOperand(rawInput)) ==> OnePointPerOperand(rawInput)
    {
      if rawInput == [] {
        return;
      }
      if OnePointPerOperand(rawInput) {
        DropLastKeepsOnePoint(rawInput);
      }
      rawInput := rawInput[..|rawInput| - 1];
      if rawInput == [] {
        display := "0";
      } else {
        display := FormatExpression(services, rawInput);
      }
    }

    /** A tap on the clear button: backspace while the buffer holds
        something; on an empty buffer, clear the screen and the history. */
    method ClearTap()
      modifies this
      ensures old(rawInput) == [] ==>
        rawInput == [] && display == "0" && expressionShown == "" && history == []
        && justEvaluated == old(justEvaluated) && showCharLimitAlert == old(showCharLimitAlert)
      ensures old(rawInput) != [] ==>
        rawInput == old(rawInput)[..|old(rawInput)| - 1]
        && display == (if rawInput == [] then "0" else CurrentInput())
        && expressionShown == old(expressionShown) && history == old(history)
        && justEvaluated == old(justEvaluated) && showCharLimitAlert == old(showCharLimitAlert)
      ensures old(ShowsBuffer()) ==> ShowsBuffer()
      ensures old(OnePointPerOperand(rawInput)) ==> OnePointPerOperand(rawInput)
    {
      if rawInput == [] {
        display := "0";
        expressionShown := "";
        history := [];
      } else {
        Backspace();
      }
    }

    /** A long press on the clear button: back to the initial screen, except
        that the `=` flag is left as it was. */
    method ClearLongPress()
      modifies this
      ensures rawInput == [] && display == "0" && expressionShown == "" && history == []
      ensures justEvaluated == old(justEvaluated) && showCharLimitAlert == old(showCharLimitAlert)
      ensures ShowsBuffer() && OnePointPerOperand(rawInput)
    {
      rawInput := "";
      display := "0";
      expressionShown := "";
      history := [];
    }
  }
}
