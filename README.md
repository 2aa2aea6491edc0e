# ClearCalc input engine in Dafny

ClearCalc is a SwiftUI calculator. This project models its input engine, found in
`ClearCalc/ContentView.swift`. The engine is the state a key press changes and the
rules it follows:

- the single `handleTap` handler for every keypad key;
- the backspace handler and the two actions of the clear button (a tap and a long press);
- the work `=` does before it evaluates: the glyph substitution and the syntactic
  check `isValidExpression`;
- the scanner `String.formatExpression`. It builds the display preview run by run,
  sending each run of digits and points through `formatNumber(_:trailingDot:)`.

The modules follow the structure of the program:

- `Wrappers`: `Option`.
- `Services`: the three things the engine takes from outside.
  - `parsesAsDouble` stands for Swift's `Double(_:)` initialiser.
  - `numberFormat` stands for the decimal `NumberFormatter`. `None` means the
    formatter returned nil.
  - `evaluate` stands for the `Expression` library followed by `String(_:)`. `None`
    means it threw.

  Every operation takes them as a parameter, so every property holds for any
  parser, formatter and evaluator.
- `Text`: the Foundation string operations the engine uses, over strings of Unicode
  scalars:
  - replacing one character everywhere;
  - trimming `CharacterSet.whitespaces`;
  - `split(whereSeparator:)`, which drops empty pieces.
- `Formatter`: `formatNumber(_:trailingDot:)`, and `formatExpression` as a loop
  method. The loop is proved equal to `Formatted`, a run-by-run definition of the
  preview. The properties of the preview are lemmas about `Formatted`.
- `Keys`: each branch of `handleTap` as a function on the raw buffer, together with:
  - the `=` substitution and syntactic check;
  - the lemmas about these rules, including the invariant that every operand holds
    at most one decimal point.
- `Engine`: the class `Calculator`.
  - Its fields are the view's `@State` variables: `display`, `rawInput`,
    `expressionShown`, `justEvaluated`, `history` (newest first) and
    `showCharLimitAlert`.
  - It has one method per handler. `HandleTap` dispatches to one method per key
    class.
  - Every method states its whole new state in terms of the `Keys` functions.
  - Two invariants are stated. The first is that the display shows the buffer
    unless a result is on screen (`ShowsBuffer`). The second is that each operand
    has at most one point (`OnePointPerOperand`). Which methods keep them:
    - The constructor and `ClearLongPress` establish both.
    - `Backspace` and `ClearTap` preserve both.
    - `HandleTap` preserves `ShowsBuffer` for every key.
    - `HandleTap` preserves `OnePointPerOperand` for keypad keys other than `=`,
      except an operator right after `=`.
    - `TapSignToggle` and `TapDecimalPoint` preserve `OnePointPerOperand`.
    - `TapOperator` preserves `OnePointPerOperand` when no result is on screen.
    - `TapEntry` preserves `OnePointPerOperand` for the keypad's digit and `%` keys.
    - `TapEquals` states neither: its new buffer is the evaluator's output.
- `Scenarios`: key sequences and what they leave on screen, for example forty-one
  digits in a row, `7=` and `..`.

Behaviours of the code that the model keeps, though a user might not expect them:

- **`trailingDot`:** a run gets a point appended whenever it holds a point and its
  rendering has none. The point does not have to be its last character.
- **Long press:** after a long press on clear, `justEvaluated` and
  `showCharLimitAlert` keep their values.
- **History:** `=` records a calculation whenever the substituted expression holds
  any of `+-*/`. This includes a lone `%`, which becomes `*0.01`.
- **Negative results:** a buffer that starts with `-` never passes the syntactic
  check. So while the buffer starts with `-` (a negative result, or a calculation
  continued from one), `=` does nothing.

## Model

| member | source | states |
|---|---|---|
| Engine.Calculator.constructor | ClearCalc/ContentView.swift:18-26 | The initial screen: display `0`, and the buffer, receipt line and history all empty. No flag is set. Both invariants hold. |
| Engine.Calculator.CurrentInput | ClearCalc/ContentView.swift:38-40 | `currentInput`: the preview `Formatter.Formatted` of the buffer. |
| Engine.Calculator.HandleTap | ClearCalc/ContentView.swift:232-298 | When the buffer has 40 characters or more, every key but `=` only raises the alert. Otherwise each key class changes the state exactly as its `Keys` rule says, and the alert is left alone. The display-shows-buffer invariant is preserved. The one-point invariant is preserved for keypad keys other than `=` and other than an operator right after `=`. |
| Engine.Calculator.TapEquals | ClearCalc/ContentView.swift:239-260 | If the substituted buffer fails the check, or the evaluator fails, or the result does not parse, nothing changes. Otherwise the buffer becomes the evaluator's own result string and the display shows its formatted form. With an operator present, the receipt line becomes the old preview and exactly one entry `preview = result` goes in front of the history. Without one, the receipt line is cleared and the history is kept. |
| Engine.Calculator.TapOperator | ClearCalc/ContentView.swift:262-272 | After `=`, the buffer restarts from the display without commas and the flag is cleared. Then the buffer becomes `AppendOperator` of that start and the display shows its preview. |
| Engine.Calculator.TapSignToggle | ClearCalc/ContentView.swift:274-277 | On an empty buffer nothing changes. Otherwise the buffer is wrapped as `(-…)` and the display shows its preview. |
| Engine.Calculator.TapDecimalPoint | ClearCalc/ContentView.swift:279-287 | If `AppendPoint` rejects the key, nothing changes, not even the display. Otherwise the buffer becomes the edited buffer and the display shows its preview. |
| Engine.Calculator.TapEntry | ClearCalc/ContentView.swift:289-296 | After `=`, the buffer becomes exactly the key. Otherwise the key is appended. The flag is cleared and the display shows the preview. |
| Engine.Calculator.Backspace | ClearCalc/ContentView.swift:323-327 | An empty buffer is left alone. Otherwise exactly the last character goes, and the display shows `0` for an empty buffer, else the preview. Both invariants are kept. |
| Engine.Calculator.ClearTap | ClearCalc/ContentView.swift:84-91 | On an empty buffer the display becomes `0` and the receipt line and history are cleared. Otherwise it acts exactly as backspace. |
| Engine.Calculator.ClearLongPress | ClearCalc/ContentView.swift:105-111 | The buffer, display, receipt line and history go back to their initial values. `justEvaluated` and the alert keep their values. |
| Keys.EntryButtons | ClearCalc/ContentView.swift:30-36 | The keypad keys of the default branch are single characters: a digit or `%`. |
| Keys.Classify | ClearCalc/ContentView.swift:238-289 | The branch of the `switch` a key takes. It is `=` exactly for the key `=`, and the operator branch exactly for the single characters `+ - × ÷`. |
| Keys.Refused | ClearCalc/ContentView.swift:233 | The limit guard: the buffer holds 40 characters or more and the key is not `=`. Its effect is stated by `Engine.Calculator.HandleTap`. |
| Keys.DropTrailingPoint | ClearCalc/ContentView.swift:267 | The result is the buffer, or the buffer without its last character. It is shorter exactly when the buffer ends with `.`. |
| Keys.DropTrailingOperator | ClearCalc/ContentView.swift:268-270 | The result is the buffer, or the buffer without its last character. It is shorter exactly when the buffer ends with one of `+ - × ÷`. |
| Keys.AppendOperator | ClearCalc/ContentView.swift:267-271 | The new buffer ends with the pressed operator. |
| Keys.AppendOperatorShape | ClearCalc/ContentView.swift:267-271 | In front of the pressed operator stands the old buffer with at most two characters cut from its end, and every character cut was a point or an operator key. |
| Keys.AppendPoint | ClearCalc/ContentView.swift:279-286 | An accepted `.` gives the buffer followed by `.`, or `0.` for an empty buffer. The key is rejected only when the buffer already holds a point. |
| Keys.OperatorReplacesOperator | ClearCalc/ContentView.swift:267-271 | Two operator keys in a row leave the buffer as the second key alone would. |
| Keys.PointRejectedAfterSeparators | ClearCalc/ContentView.swift:282-283 | Once the point is rejected, typing separators does not make it acceptable again, because `split` drops the empty operand after them. |
| Keys.PointRejectedAfterOperatorExample | ClearCalc/ContentView.swift:282-283 | After `1.5+` the `.` key is rejected. |
| Keys.ToggleSign | ClearCalc/ContentView.swift:276 | The toggled buffer is `(-`, then the old buffer, then `)`: three characters longer. |
| Keys.SplitAppendChar | ClearCalc/ContentView.swift:282 | A character that is not a separator either extends the last piece or, after a separator or at the start, begins a new piece. |
| Keys.DropLastKeepsOnePoint | ClearCalc/ContentView.swift:325 | Deleting the last character keeps every operand at one point at most. |
| Keys.ExtendKeepsOnePoint | ClearCalc/ContentView.swift:285-294 | Appending a non-separator keeps the invariant, if it is a point only when the operand it joins has none. |
| Keys.AppendCharKeepsOnePoint | ClearCalc/ContentView.swift:294 | Appending any character other than a point keeps the invariant. |
| Keys.AppendPointKeepsOnePoint | ClearCalc/ContentView.swift:279-286 | An accepted `.` keeps the invariant. |
| Keys.AppendOperatorKeepsOnePoint | ClearCalc/ContentView.swift:267-271 | An operator key keeps the invariant for the buffer it edits. |
| Keys.RunStartAfterSeparator | ClearCalc/ContentView.swift:282 | The operand that ends `a + b` starts inside `b` when `a` ends with a separator. |
| Keys.SplitAfterSeparator | ClearCalc/ContentView.swift:282 | After a separator, the pieces of the rest are simply added to the pieces so far. |
| Keys.SplitOpenMinus | ClearCalc/ContentView.swift:276 | The `(-` of a toggled buffer is the single piece `(`. |
| Keys.ToggleSignKeepsOnePoint | ClearCalc/ContentView.swift:276 | The sign toggle keeps the invariant. |
| Keys.EntryKeepsOnePoint | ClearCalc/ContentView.swift:294 | Appending a digit or `%` key keeps the invariant. |
| Keys.EntryAloneOnePoint | ClearCalc/ContentView.swift:291 | A buffer made of one digit or `%` satisfies the invariant. |
| Keys.FormatResult | ClearCalc/ContentView.swift:315-321 | The result is formatted like a run without the trailing-dot rule. It is shown verbatim when it does not parse or when the formatter gives nil. |
| Keys.SubstituteChars | ClearCalc/ContentView.swift:240-244 | A character is in the substituted expression exactly when one of these holds: it is in the buffer and is not `×`, `÷`, `%` or `,`; or it is `*` and the buffer has `×` or `%`; or it is `/` and the buffer has `÷`; or it is one of `0.1` and the buffer has `%`. |
| Keys.Substitute | ClearCalc/ContentView.swift:240-244 | The four replacements in order. No `×`, `÷`, `%` or `,` is left after them. |
| Keys.IsValidExpression | ClearCalc/ContentView.swift:300-304 | `isValidExpression`: after trimming whitespace, the expression must be non-empty and must neither start nor end with one of `+ - * /`. Its properties are `Keys.ValidExpressionEnds`. |
| Keys.ValidExpressionEnds | ClearCalc/ContentView.swift:300-304 | The check in terms of the untrimmed expression. A valid expression is not empty and not all whitespace. One that starts or ends with one of `+ - * /` is invalid. One that is not empty, has no whitespace at either end and has no operator at either end is valid. |
| Keys.Evaluates | ClearCalc/ContentView.swift:246-248 | The gate of `=`: the substituted buffer passes `isValidExpression`, the evaluator's result is not `Error`, and it parses as a number. What `=` does under it is stated by `Engine.Calculator.TapEquals`, and when it holds by `Keys.BufferValidIff`, `Keys.EmptyNeverEvaluates` and `Keys.NegativeBufferNeverEvaluates`. |
| Keys.HasArithmeticOperator | ClearCalc/ContentView.swift:251 | The test for any of `+ - * /` in the substituted expression. In terms of the buffer it is `Keys.HistoryRecordedIff`. |
| Keys.EvaluateExpression | ClearCalc/ContentView.swift:306-313 | The evaluator's result, or `Error` when it throws. Its use is stated by `Keys.Evaluates` and `Engine.Calculator.TapEquals`. |
| Keys.HistoryRecordedIff | ClearCalc/ContentView.swift:251-256 | A successful `=` records a calculation exactly when the buffer holds one of `+ - * / × ÷ %`. |
| Keys.EmptyNeverEvaluates | ClearCalc/ContentView.swift:303 | `=` on an empty buffer does nothing. |
| Keys.NegativeBufferNeverEvaluates | ClearCalc/ContentView.swift:301-303 | `=` on a buffer that starts with `-` does nothing, whatever the evaluator. |
| Keys.SubstituteEnds | ClearCalc/ContentView.swift:240-244 | The first and last characters after substitution, given the buffer's own first and last characters. |
| Keys.GlyphEnds | ClearCalc/ContentView.swift:240-243 | The first and last characters after the `×`, `÷` and `%` replacements: `×` and `%` in front become `*`, `÷` becomes `/`; at the end `×` becomes `*`, `÷` becomes `/` and `%` becomes `1`. |
| Keys.EndCharacters | ClearCalc/ContentView.swift:300-304 | Substitution keeps the buffer's first and last characters away from whitespace. Its first character is a binary operator exactly when the buffer's is one of `+ - * / × ÷ %`. Its last is one exactly when the buffer's is one of `+ - * / × ÷`. |
| Keys.BufferValidIff | ClearCalc/ContentView.swift:240-246 | For a buffer that neither starts nor ends with whitespace or a comma, `=` passes the check exactly when three things hold: the buffer is not empty, its first character is not an operator or `%`, and its last character is not an operator. |
| Text.ReplaceAll | ClearCalc/ContentView.swift:240-244 | `replacingOccurrences(of:with:)` with a one-character pattern, character by character. Its properties are `Text.ReplaceAllAppend`, `Text.ReplaceAllChars`, `Text.ReplaceAllAbsent` and `Text.ReplaceAllEnds`. |
| Text.ReplaceAllAppend | ClearCalc/ContentView.swift:240-244 | Replacing a character commutes with concatenation. |
| Text.ReplaceAllChars | ClearCalc/ContentView.swift:240-244 | The characters of the result are those of the input other than the replaced one, plus those of the replacement when the replaced character was present. |
| Text.ReplaceAllAbsent | ClearCalc/ContentView.swift:240-244 | Replacing a character that is absent changes nothing. |
| Text.ReplaceAllEnds | ClearCalc/ContentView.swift:240-244 | The result's first and last characters are those of the input, or the ends of the replacement where the replaced character stood. |
| Text.IsWhitespace | ClearCalc/ContentView.swift:301 | `CharacterSet.whitespaces`: the tab and the Unicode space separators (category Zs: U+0020, U+00A0, U+1680, U+2000 to U+200A, U+202F, U+205F, U+3000). None of `+ - * /` is one of them (`Keys.OperatorsNotWhitespace`). |
| Text.TrimLeading | ClearCalc/ContentView.swift:301 | The result is a suffix of the input. Everything cut was whitespace, and the remainder does not start with whitespace. |
| Text.TrimTrailing | ClearCalc/ContentView.swift:301 | The result is a prefix of the input. Everything cut was whitespace, and the remainder does not end with whitespace. |
| Text.TrimEnds | ClearCalc/ContentView.swift:301 | A string that is all whitespace trims to nothing. An end of the string that is no whitespace is an end of the trimmed string. |
| Text.Trim | ClearCalc/ContentView.swift:301 | The trimmed string is a slice of the input, and everything cut from either end is whitespace. It neither starts nor ends with whitespace. A string without whitespace at its ends is kept whole. |
| Text.RunStart | ClearCalc/ContentView.swift:282 | The start of the last operand: no separator from there on, and a separator just before it. |
| Text.Split | ClearCalc/ContentView.swift:282 | `split(whereSeparator:)` with empty pieces dropped: the maximal runs of non-separators in order. Its properties are `Text.SplitPieces`, `Text.SplitConcat` and `Text.SplitLast`. |
| Text.SplitPieces | ClearCalc/ContentView.swift:282 | No piece is empty, no piece holds a separator, and every character of a piece is a character of the input. |
| Text.RemoveSeparatorsAppend | ClearCalc/ContentView.swift:282 | Removing separators commutes with concatenation. |
| Text.RemoveSeparatorsNone | ClearCalc/ContentView.swift:282 | A string without separators is its own separator-free form. |
| Text.SplitConcat | ClearCalc/ContentView.swift:282 | Joining the pieces gives back the string without its separators, so splitting loses nothing else. |
| Text.SplitTrailingSeparators | ClearCalc/ContentView.swift:282 | Separators at the end add no piece. |
| Text.SplitLast | ClearCalc/ContentView.swift:282 | The last piece of a string ending in a non-separator is the operand at its end. |
| Formatter.FormatNumber | ClearCalc/ContentView.swift:369-379 | An unparsable run is returned as is. A parsed run is the formatter's rendering, or the run if the formatter gives nil, followed by one point exactly when `trailingDot` is set and the rendering has no point. With `trailingDot` set, a parsed run's output always holds a point. |
| Formatter.IsNumberChar | ClearCalc/ContentView.swift:347 | The scanner's test `isWholeNumber` or `.`, with `Text.IsDigit` the ASCII digits. Its use is stated by `Formatter.RunLengthIsRun` and `Formatter.FormattedSeparator`. |
| Formatter.RunLength | ClearCalc/ContentView.swift:346-351 | The run at the front ends at the first character that is neither a digit nor a point. |
| Formatter.RunLengthIsRun | ClearCalc/ContentView.swift:346-351 | Every character of the front run is a digit or a point. |
| Formatter.RunLengthOfRun | ClearCalc/ContentView.swift:346-359 | A run followed by the end or by another character is taken whole. |
| Formatter.RunLengthAppend | ClearCalc/ContentView.swift:346-359 | A run that ends inside a string is not extended by what follows the string. |
| Formatter.Formatted | ClearCalc/ContentView.swift:341-379 | The preview run by run: each maximal run of digits and points goes through `formatNumber`, and any other character is copied. The scanner loop `Formatter.FormatExpression` is proved equal to it. |
| Formatter.FormatExpression | ClearCalc/ContentView.swift:341-367 | The scanner loop computes exactly the run-by-run preview `Formatted`. |
| Formatter.ScanStep | ClearCalc/ContentView.swift:346-360 | One loop step keeps the loop's invariant: output so far plus the preview of the pending run and the unread rest equals the whole preview. |
| Formatter.FlushAtEnd | ClearCalc/ContentView.swift:362-364 | The final flush completes the preview. |
| Formatter.FormattedSeparator | ClearCalc/ContentView.swift:352-359 | A character that is neither a digit nor a point is copied, and it splits the preview into the previews of its two sides. |
| Formatter.FormattedRun | ClearCalc/ContentView.swift:347-354 | A whole run goes through `formatNumber` with `trailingDot` set whenever it holds a point, wherever the point is. |
| Formatter.FormattedRunKeepsPoint | ClearCalc/ContentView.swift:369-379 | The preview of a parsed run is its rendering, with a point appended exactly when the run has one and the rendering does not. A point in the run is never lost. |
| Formatter.FormattedRunUnparsed | ClearCalc/ContentView.swift:370 | A run that does not parse is shown verbatim. |
| Formatter.FormattedIdentity | ClearCalc/ContentView.swift:341-379 | With a formatter that renders every run as written, the preview is the buffer itself. |
| Formatter.FormattedNoRuns | ClearCalc/ContentView.swift:352-359 | A buffer without digits or points is its own preview. |
| Scenarios.FortyOneDigits | ClearCalc/ContentView.swift:233-236 | After forty-one `1` keys the buffer holds forty of them and the alert is raised. |
| Scenarios.SevenFacts | ClearCalc/ContentView.swift:239-256 | For the buffer `7`: substitution leaves it as is, it evaluates, and it holds no operator. |
| Scenarios.BareNumber | ClearCalc/ContentView.swift:239-258 | After `7=` the display shows the formatted result, and there is no receipt line and no history entry. |
| Scenarios.PointFacts | ClearCalc/ContentView.swift:279-287 | The `.` key takes the point branch and is under the limit. On an empty buffer it gives `0.`, and on `0.` it is rejected. |
| Scenarios.PointTwice | ClearCalc/ContentView.swift:279-287 | After `..` on an empty buffer the buffer is `0.`. |

## Left out

- The `Expression` evaluator, `Double(_:)`, `String(Double)` and `NumberFormatter` are not modelled. They depend on floating point and the locale, so they are the abstract parameters in `Services`. The model proves no arithmetic.
- `numberFormat` takes the run's text rather than the parsed `Double`. The two act alike for any formatter that depends only on the parsed value.
- `Formatter.FormatNumber`: the model does not state that `formatExpression` applied to its own output gives that output again. Whether it does depends on what the abstract formatter outputs.
- Only the clear and keypad handlers are modelled. The rest of the SwiftUI view is not: layout, `buttonWidth`/`buttonHeight`, the dark-mode setting, the side menu and drag gestures (`showMenu`, `dragOffset`), the history sheet, and dismissing the alert.
- The 0.6 second duration of the long press is not modelled. The long press is a single discrete action, `ClearLongPress`.
- `AboutView.swift`, `SettingsView.swift`, `FeedbackView.swift`, `SideMenuView.swift` and `ClearCalcApp.swift` are not part of this model. They are presentation only.
- Swift's `Character` is an extended grapheme cluster; the model's characters are Unicode scalars. All keypad labels are single scalars, so `count`, `last` and `removeLast` agree on every buffer the keypad can produce.
- `Character.isWholeNumber` is modelled as the ASCII digits `0`–`9`, the only digits the keypad produces. Other Unicode digits, which Swift would also accept, are not modelled.
- `Engine.Calculator.HandleTap`: the one-point invariant is not claimed after `=`, or for an operator right after `=`. In both cases the buffer comes from the evaluator's or the formatter's output, which the model does not constrain.
- `Engine.Calculator.HandleTap`: no length bound is claimed. The sign toggle adds three characters and is accepted below the limit, so a 39-character buffer toggles to 42, past the limit of 40; a result from `=` can be of any length. The model keeps this behaviour of the source.
- `HandleTap` dispatches to one method per branch of the `switch` (`TapEquals`, `TapOperator`, …). The source has a single function; the split only keeps each proof small.
