# Calculator state machine, in Dafny

This project models the operand/operator state machine of the calculator page
script `ApexCify/Calculator/script.js`. The script keeps four module-level
variables:

- `currentInput`: the operand being typed or the last result;
- `previousInput`: the operand captured when an operator was chosen;
- `operator`: the pending operator;
- `shouldResetDisplay`: set after an operator or a result, so that the next digit
  starts a new operand.

The script changes these variables through `appendNumber`, `appendOperator`,
`calculate`, `scientificFunction`, `clearAll`, `clearEntry`, `deleteLast` and
`reset`.

The project has four modules:

- `Numbers` (numbers.dfy) holds JavaScript numbers as the script's guards see
  them, as `Double = NaN | Infinity | NegativeInfinity | Finite(real)`. It also
  holds the `%` operator, the factorial, and a `Host` record. `%` is ECMAScript's
  Number::remainder, which is exact, so it is defined here in full. `Host` stands
  for what the model leaves uninterpreted: `parseFloat`, the rounded results of
  `+ - * / ^`, the `Math` functions, `Math.PI` and `Math.E`, and the finite branch
  of `formatResult`. `WellFormed(host)` assumes only that `formatResult` never
  returns an empty string and never returns one with two decimal points.
- `Engine` (engine.dfy) holds the four variables as a `State` value. Each
  operation is a function from the old state to the new one. The lemmas say what
  the operations promise. The main one is the invariant that every operation
  keeps: the operand is never empty, it has at most one decimal point, and an
  operator is pending exactly when a previous operand is.
- `Keyboard` (keyboard.dfy) is the keydown listener, as a map from a `key` string
  to an action. It uses JavaScript's string comparison for the digit test.
- `Widget` (calculator.dfy) is the script as it runs. The class `Calculator` has
  the four fields and one method per operation. Each method reassigns the fields
  step by step, as the script does. Each method is proved to change the fields
  the way the matching `Engine` function changes a `State`, and to keep the
  invariant. `Factorial` is the script's accumulator loop, proved equal to n!.

What the model shows about the script's behaviour:

- Every error path ends in the state `reset` sets: '0', '', '', false.
- `%` with a zero divisor is not an error path. Its result is NaN, which
  `formatResult` shows as the operand `'Error'`, with `shouldResetDisplay` set.
- A division by zero inside the operator fold resets. The new operator then
  takes `'0'` as its previous operand.
- A scientific function sets `shouldResetDisplay`. So the next operator does not
  fold a pending operation (`3 + 4 sqrt +` drops `3 +`).

## Model

| member | source | states |
|---|---|---|
| `Numbers.Remainder` | ApexCify/Calculator/script.js:98-100 | `%` gives NaN for a zero divisor or a NaN operand, and a finite result for finite operands with a non-zero divisor |
| `Numbers.RemainderFollowsDividend` | ApexCify/Calculator/script.js:99 | the remainder has the dividend's sign, is smaller than the divisor in magnitude, and differs from the dividend by a whole multiple of the divisor |
| `Numbers.RemainderByOneIsZero` | ApexCify/Calculator/script.js:184 | `value % 1 === 0` holds exactly when the value is a finite whole number |
| `Numbers.Factorial` | ApexCify/Calculator/script.js:218-225 | n! is at least 1 and at least n |
| `Numbers.AtMostZero` | ApexCify/Calculator/script.js:154 | JavaScript's `value <= 0`: false for NaN and +Infinity, true for -Infinity, the real comparison for a finite value |
| `Numbers.BelowZero` | ApexCify/Calculator/script.js:170 | JavaScript's `value < 0`: false for NaN and +Infinity, true for -Infinity, the real comparison for a finite value |
| `Numbers.AtMostZeroIsBelowOrZero` | ApexCify/Calculator/script.js:154-184 | the `<= 0` guard of log and ln admits exactly what the `< 0` guard of sqrt and factorial admits, plus zero |
| `Numbers.AbsoluteValue` | ApexCify/Calculator/script.js:197-199 | `Math.abs` keeps NaN, is never negative, and keeps the magnitude of a finite value |
| `Numbers.FormatResult` | ApexCify/Calculator/script.js:113-116 | NaN and the infinities become 'Error'; for a well-formed host the result is never empty and has at most one decimal point |
| `Engine.AppendNumber` | ApexCify/Calculator/script.js:30-42 | entry leaves `previousInput` and `operator` alone and clears `shouldResetDisplay` |
| `Engine.EntryRules` | ApexCify/Calculator/script.js:31-42 | a fresh operand starts from '0'; on '0' a digit replaces it and '.' gives '0.'; otherwise the token is appended, except a second '.' |
| `Engine.DuplicateDotIgnored` | ApexCify/Calculator/script.js:38-39 | '.' on an operand that already has one changes nothing |
| `Engine.AppendNumberKeepsInvariant` | ApexCify/Calculator/script.js:30-42 | entry keeps the operand non-empty with at most one decimal point |
| `Engine.TypingANumeral` | ApexCify/Calculator/script.js:30-42 | typing the characters of a numeral onto a fresh operand yields exactly that numeral |
| `Engine.ClearEntry` | ApexCify/Calculator/script.js:236-240 | the operand becomes '0' and the flag is cleared; the previous operand and the operator are kept |
| `Engine.DeleteLast` | ApexCify/Calculator/script.js:242-249 | the operand loses exactly its last character when longer than one, becomes '0' otherwise, is never empty; the other fields do not change |
| `Engine.DeleteUndoesAppend` | ApexCify/Calculator/script.js:242-247 | deleting right after typing a character restores the state exactly |
| `Engine.DeleteLastKeepsInvariant` | ApexCify/Calculator/script.js:242-249 | deleting keeps the invariant |
| `Engine.ParseOperator` | ApexCify/Calculator/script.js:77-103 | only one-character strings name an operator |
| `Engine.OperatorLabels` | ApexCify/Calculator/script.js:78-99 | '+', '-', '*', '/', '^' and '%' select addition, subtraction, multiplication, division, power and remainder |
| `Engine.OperatorSymbol` | ApexCify/Calculator/script.js:58-68 | exactly '-', '*' and '/' are shown as other glyphs; a known operator's glyph is one character; an unknown one is shown as itself |
| `Engine.OperatorSymbolsDistinct` | ApexCify/Calculator/script.js:59-66 | the glyph table tells the six operators apart |
| `Engine.Evaluation` | ApexCify/Calculator/script.js:71-103 | the switch is skipped exactly without a previous operand, an operator, or with an unknown operator, and takes the error path exactly for '/' with a zero divisor |
| `Engine.OperatorOutcome` | ApexCify/Calculator/script.js:77-103 | a known operator never returns early, and fails exactly for '/' with a zero divisor |
| `Engine.Calculate` | ApexCify/Calculator/script.js:70-111 | without a previous operand, an operator, or with an unknown operator nothing changes; '/' with a zero divisor ends in the reset state; otherwise the operand is the formatted result of the operator on the parsed operands, nothing is pending and the flag is set |
| `Engine.CalculateFailsOnlyOnDivisionByZero` | ApexCify/Calculator/script.js:87-92 | the error path is taken exactly for '/' with a zero divisor, and ends in the reset state |
| `Engine.ModuloByZeroShowsError` | ApexCify/Calculator/script.js:98-115 | '%' with a zero divisor leaves 'Error' as the operand with the flag set, which is not the reset state |
| `Engine.CalculateIsIdempotent` | ApexCify/Calculator/script.js:70-111 | a second `calculate` changes nothing |
| `Engine.CalculateKeepsInvariant` | ApexCify/Calculator/script.js:70-111 | `calculate` keeps the invariant |
| `Engine.AppendOperator` | ApexCify/Calculator/script.js:47-56 | afterwards `previousInput` equals the (possibly folded) operand, `operator` is `op`, the flag is set |
| `Engine.AppendOperatorFoldsWhenPending` | ApexCify/Calculator/script.js:48-52 | `calculate` runs first exactly when a previous operand is pending and the flag is clear |
| `Engine.SecondOperatorReplacesFirst` | ApexCify/Calculator/script.js:47-56 | two operators in a row act as the second alone |
| `Engine.FoldedDivisionByZero` | ApexCify/Calculator/script.js:48-54 | a division by zero in the fold leaves '0' as previous operand of the new operator |
| `Engine.AppendOperatorKeepsInvariant` | ApexCify/Calculator/script.js:47-54 | a non-empty operator keeps the invariant |
| `Engine.ClearEntryKeepsPendingOperation` | ApexCify/Calculator/script.js:236-240 | `clearEntry` after an operator resets only the operand and the flag |
| `Engine.ParseFunction` | ApexCify/Calculator/script.js:134-210 | a name is known only as the case label of the function it selects |
| `Engine.EveryFunctionIsNamed` | ApexCify/Calculator/script.js:134-210 | each function's case label selects that function, so no case is unreachable |
| `Engine.FunctionOutcome` | ApexCify/Calculator/script.js:134-210 | a known function always either fails or yields a value |
| `Engine.Scientific` | ApexCify/Calculator/script.js:130-216 | an unknown name changes nothing; a known one ends in the reset state or changes only the operand, with the flag set |
| `Engine.ScientificFailsOutsideDomain` | ApexCify/Calculator/script.js:153-206 | the error path is taken exactly outside the function's domain (log, ln: at most 0; sqrt: below 0; factorial: not a finite whole number at least 0; 1/x: 0), and ends in the reset state |
| `Engine.ScientificAbs` | ApexCify/Calculator/script.js:197-199 | `abs` always succeeds; the operand becomes formatResult of Math.abs of the operand, and the flag is set |
| `Engine.ScientificPi` | ApexCify/Calculator/script.js:191-193 | `pi` always succeeds; the operand becomes formatResult of Math.PI, and the flag is set |
| `Engine.ScientificE` | ApexCify/Calculator/script.js:194-196 | `e` always succeeds; the operand becomes formatResult of Math.E, and the flag is set |
| `Engine.ScientificMathFunction` | ApexCify/Calculator/script.js:135-178 | a trigonometric, logarithmic, sqrt or exp function inside its domain makes the operand formatResult of the `Math` result, and sets the flag |
| `Engine.ScientificArithmetic` | ApexCify/Calculator/script.js:180-206 | `1/x` of a non-zero operand shows 1 divided by it; `pow10` shows 10 to the power of the operand |
| `Engine.FactorialOfWholeNumber` | ApexCify/Calculator/script.js:183-190 | factorial of a whole number n shows the double nearest n! |
| `Engine.ScientificKeepsPendingOperation` | ApexCify/Calculator/script.js:208-214 | an unknown name changes nothing; a successful function changes only the operand and the flag |
| `Engine.OperatorAfterFunctionDropsPendingOperation` | ApexCify/Calculator/script.js:212-214 | after a function result the next operator takes the result as its previous operand without folding |
| `Engine.ScientificKeepsInvariant` | ApexCify/Calculator/script.js:130-216 | scientific functions keep the invariant |
| `Engine.StepKeepsInvariant` | ApexCify/Calculator/script.js:30-255 | every admissible input keeps the invariant |
| `Engine.RunKeepsInvariant` | ApexCify/Calculator/script.js:3-6 | every session of admissible inputs keeps the invariant |
| `Engine.ChainedOperatorsFoldLeftToRight` | ApexCify/Calculator/script.js:47-56 | `x o1 y o2 z =` shows `(x o1 y) o2 z`, folded left to right, for any two operators unless a divisor under '/' is zero |
| `Keyboard.StringLess` | ApexCify/Calculator/script.js:265 | JavaScript's `<` on strings: never holds between equal strings, and a proper prefix comes first |
| `Keyboard.StringLessIsStrictTotalOrder` | ApexCify/Calculator/script.js:265 | of `a < b`, `a == b` and `b < a` exactly one holds |
| `Keyboard.InDigitRange` | ApexCify/Calculator/script.js:265 | a key passing `key >= '0' && key <= '9'` is non-empty and begins with a digit |
| `Keyboard.DigitRangeByFirstCharacter` | ApexCify/Calculator/script.js:265 | the string test admits exactly the keys beginning with '0' to '8' and the key "9" |
| `Keyboard.KeyAction` | ApexCify/Calculator/script.js:265-283 | a key that enters a number hands over the key string itself, and an operator key is the one-character operator itself |
| `Keyboard.SingleCharacterKeys` | ApexCify/Calculator/script.js:265-283 | a one-character key enters a number exactly when it is a digit or '.'; operator, '=' and 'c' keys map as listed |
| `Keyboard.OtherSingleCharacterKeys` | ApexCify/Calculator/script.js:265-283 | every one-character key other than the digits, '.', the operators, '=', 'c' and 'C' does nothing |
| `Keyboard.NamedKeys` | ApexCify/Calculator/script.js:274-280 | Enter, Escape and Backspace trigger equals, clear-all and delete; Shift does nothing |
| `Keyboard.OtherNamedKeys` | ApexCify/Calculator/script.js:265-283 | every other key of several characters that does not begin with '0' to '8' does nothing |
| `Keyboard.KeyActionsAreAdmissible` | ApexCify/Calculator/script.js:265-283 | every action a key without a stray '.' triggers is admissible |
| `Keyboard.Press` | ApexCify/Calculator/script.js:262-284 | a sequence of keys none of which the listener handles leaves the state unchanged |
| `Keyboard.PressKeepsInvariant` | ApexCify/Calculator/script.js:262-284 | typing on the keyboard keeps the invariant |
| `Widget.Calculator.constructor` | ApexCify/Calculator/script.js:3-6 | the four fields start as '0', '', '', false |
| `Widget.Calculator.AppendNumber` | ApexCify/Calculator/script.js:30-45 | the fields change as `Engine.AppendNumber`; the invariant holds |
| `Widget.Calculator.AppendOperator` | ApexCify/Calculator/script.js:47-56 | the fields change as `Engine.AppendOperator`; the invariant holds |
| `Widget.Calculator.Calculate` | ApexCify/Calculator/script.js:70-111 | the fields change as `Engine.Calculate`; the invariant holds |
| `Widget.Calculator.Evaluate` | ApexCify/Calculator/script.js:71-103 | the early-return checks, the parsing of both operands and the switch decide as `Engine.Evaluation` |
| `Widget.Calculator.Combine` | ApexCify/Calculator/script.js:77-103 | the switch on a known operator, with the zero-divisor check of '/', decides as `Engine.OperatorOutcome` |
| `Widget.Calculator.Show` | ApexCify/Calculator/script.js:106-109 | the fields become the formatted result, '', '' and true; the invariant holds |
| `Widget.Calculator.ScientificFunction` | ApexCify/Calculator/script.js:130-216 | the fields change as `Engine.Scientific`; the invariant holds |
| `Widget.Calculator.Compute` | ApexCify/Calculator/script.js:134-210 | the switch with its guards decides as `Engine.FunctionOutcome` |
| `Widget.Calculator.Factorial` | ApexCify/Calculator/script.js:218-225 | the accumulator loop returns n! |
| `Widget.Calculator.ClearAll` | ApexCify/Calculator/script.js:227-234 | the fields return to their initial values |
| `Widget.Calculator.ClearEntry` | ApexCify/Calculator/script.js:236-240 | only the operand ('0') and the flag (false) change |
| `Widget.Calculator.DeleteLast` | ApexCify/Calculator/script.js:242-249 | the fields change as `Engine.DeleteLast`; the invariant holds |
| `Widget.Calculator.Reset` | ApexCify/Calculator/script.js:251-255 | the fields take the same values as `clearAll` |

## Left out

- All DOM output is left out, because it is an output sink with no invariant.
  This covers `updateDisplay` and its animation timer, and every write to
  `display.textContent` and `history.textContent`. It includes the 'Error'
  shown on the display on an error path and the timer in `reset` that clears the
  history. The history strings that `getOperatorSymbol` feeds are also left out.
- The basic/scientific mode toggles (lines 9-22) and `isScientificMode` (line 7)
  are left out. They touch only the page.
- Floating point is left uninterpreted, as fields of `Host`:
  - the results of `+ - * / ^`;
  - the `Math` functions, with their degree conversions;
  - `Math.PI` and `Math.E`;
  - `parseFloat`;
  - `formatResult`'s rounding, `toFixed` and trailing-zero trimming.
  So properties that need float values are not modelled. One example is that
  `formatResult` is idempotent through `parseFloat`.
- `Double` treats +0 and -0 as one value. No comparison in the script tells them
  apart.
- `Numbers.Factorial`: the model hands the exact n! to the host's rounding once.
  The script rounds after each multiplication of its loop, and reaches Infinity
  above 170!.
- `Widget.Calculator.Factorial`, `Engine.FactorialOfWholeNumber`: the script's loop
  counter `i` is a double. For a whole operand of 2^53 or more, `i++` stops
  growing at 2^53, so `factorial` never returns and the page hangs (large operands
  below that already take very long). The model counts in `nat`, so its loop
  always ends and `scientificFunction` shows a result. Non-termination is not
  modelled.
- `Engine.OperatorSymbol`: a JavaScript object lookup also finds inherited
  properties, such as `symbols['toString']`. The model treats such names as
  unknown operators and shows them as themselves.
- `Widget.Calculator.AppendNumber` requires a non-empty token that is '.' or has
  no '.'. Without that, the invariant does not hold. The script's buttons and
  one-character keys pass only such tokens. A multi-character key beginning with a
  digit would also reach `appendNumber`, but no keyboard produces one.
- `Widget.Calculator.AppendOperator` requires a non-empty operator. Every
  caller in the script passes one of the six operators.
- The keydown listener is the pure `Keyboard.KeyAction` and `Keyboard.Press`.
  The class has no keydown method, and `e.preventDefault()` is left out.
- String comparison in `Keyboard` is by code point. JavaScript compares UTF-16
  code units. The two agree on every comparison the listener makes.
- Two behaviours of the script that are easy to miss:
  - A NaN or infinite result from `calculate` or from a scientific function
    (for example `%` by zero, or `asin` of 2) is not reset. It becomes the operand
    'Error'.
  - `appendOperator` checks only `previousInput` before folding. `calculate`
    then checks `operator`.
