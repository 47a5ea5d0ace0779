/** The calculator's operand/operator state machine as values: the four module-level
    variables as a `State`, and every operation of the calculator as a function from
    the old state to the new one. The `Calculator` class runs the same operations in
    place; the lemmas here state what the operations promise. */
module Engine {
  import opened Numbers

  datatype Option<T> = None | Some(value: T)

  /** `currentInput`, `previousInput`, `operator` and `shouldResetDisplay`. */
  datatype State = State(
    currentInput: string,
    previousInput: string,
    operator: string,
    shouldResetDisplay: bool)

  /** The values at load time, which `clearAll` and `reset` restore. */
  const Initial: State := State("0", "", "", false)

  function DotCount(s: string): nat {
    multiset(s)['.']
  }

  /** What every operation keeps: the operand is never empty and holds at most one
      decimal point, and an operator is pending exactly when a previous operand is. */
  predicate Invariant(s: State) {
    && s.currentInput != ""
    && DotCount(s.currentInput) <= 1
    && (s.operator == "" <==> s.previousInput == "")
  }

  /** What a digit button or key hands to `appendNumber`: a decimal point, or a
      non-empty string without one. */
  predicate IsEntryToken(num: string) {
    num != "" && (num == "." || '.' !in num)
  }

  // ---------------------------------------------------------------------------
  // Operand entry

  /** The operand that entry extends: '0' when the display is due to be replaced. */
  function EntryBase(s: State): string {
    if s.shouldResetDisplay then "0" else s.currentInput
  }

  /** `appendNumber(num)`. */
  function AppendNumber(s: State, num: string): (t: State)
    ensures t.previousInput == s.previousInput && t.operator == s.operator
    ensures !t.shouldResetDisplay
  {
    var base := EntryBase(s);
    var current :=
      if base == "0" && num != "." then num
      else if num == "." && '.' in base then base
      else base + num;
    s.(currentInput := current, shouldResetDisplay := false)
  }

  /** The entry rules, case by case. */
  lemma EntryRules(s: State, num: string)
    ensures s.shouldResetDisplay ==>
      AppendNumber(s, num).currentInput == if num == "." then "0." else num
    ensures !s.shouldResetDisplay && s.currentInput == "0" ==>
      AppendNumber(s, num).currentInput == if num == "." then "0." else num
    ensures !s.shouldResetDisplay && s.currentInput != "0" && num != "." ==>
      AppendNumber(s, num).currentInput == s.currentInput + num
    ensures !s.shouldResetDisplay && s.currentInput != "0" && num == "." ==>
      AppendNumber(s, num).currentInput ==
        if '.' in s.currentInput then s.currentInput else s.currentInput + "."
  {
  }

  /** A second decimal point is rejected: the state does not change at all. */
  lemma DuplicateDotIgnored(s: State)
    requires !s.shouldResetDisplay && '.' in s.currentInput
    ensures AppendNumber(s, ".") == s
  {
  }

  /** Entry never empties the operand and never lets a second decimal point in. */
  lemma AppendNumberKeepsInvariant(s: State, num: string)
    requires Invariant(s) && IsEntryToken(num)
    ensures Invariant(AppendNumber(s, num))
  {
    var base := EntryBase(s);
    assert DotCount(base) <= 1;
    if !(base == "0" && num != ".") && !(num == "." && '.' in base) {
      assert multiset(base + num) == multiset(base) + multiset(num);
      if num == "." {
        assert DotCount(base) == 0;
      } else {
        assert DotCount(num) == 0;
      }
    }
  }

  /** Typing the characters of `text` one by one, as the digit buttons do. */
  function Type(s: State, text: string): State
    decreases |text|
  {
    if text == [] then s else Type(AppendNumber(s, [text[0]]), text[1..])
  }

  /** A decimal numeral as the calculator shows it: digits with at most one decimal
      point, not starting with the point, and no leading zero before a digit. */
  predicate IsNumeral(text: string) {
    && text != ""
    && (forall i :: 0 <= i < |text| ==> text[i] == '.' || '0' <= text[i] <= '9')
    && DotCount(text) <= 1
    && text[0] != '.'
    && (text[0] == '0' && |text| > 1 ==> text[1] == '.')
  }

  /** Typing a numeral on a fresh operand yields exactly that numeral. */
  lemma {:induction false} TypingANumeral(s: State, text: string)
    requires s.shouldResetDisplay || s.currentInput == "0"
    requires IsNumeral(text)
    ensures Type(s, text).currentInput == text
    ensures Type(s, text).previousInput == s.previousInput
    ensures Type(s, text).operator == s.operator
    ensures !Type(s, text).shouldResetDisplay
  {
    var first := AppendNumber(s, [text[0]]);
    assert first.currentInput == [text[0]];
    assert text == [text[0]] + text[1..];
    assert multiset(text) == multiset([text[0]]) + multiset(text[1..]);
    TypingTheRest(first, [text[0]], text[1..]);
  }

  lemma {:induction false} TypingTheRest(s: State, done: string, rest: string)
    requires !s.shouldResetDisplay && s.currentInput == done && done != ""
    requires DotCount(done) + DotCount(rest) <= 1
    requires done == "0" ==> rest == "" || rest[0] == '.'
    ensures Type(s, rest).currentInput == done + rest
    ensures Type(s, rest).previousInput == s.previousInput
    ensures Type(s, rest).operator == s.operator
    ensures !Type(s, rest).shouldResetDisplay
    decreases |rest|
  {
    if rest == [] {
      assert done + rest == done;
    } else {
      var c, tail := rest[0], rest[1..];
      var next := TypingOneCharacter(s, done, rest);
      TypingTheRest(next, done + [c], tail);
    }
  }

  /** The first step of TypingTheRest: the first character of `rest` extends the
      operand, and the remaining characters still meet the requirements. */
  lemma TypingOneCharacter(s: State, done: string, rest: string) returns (next: State)
    requires !s.shouldResetDisplay && s.currentInput == done && done != ""
    requires DotCount(done) + DotCount(rest) <= 1
    requires done == "0" ==> rest == "" || rest[0] == '.'
    requires rest != ""
    ensures Type(s, rest) == Type(next, rest[1..])
    ensures next == s.(currentInput := done + [rest[0]])
    ensures DotCount(done + [rest[0]]) + DotCount(rest[1..]) <= 1
    ensures done + [rest[0]] != "0"
    ensures (done + [rest[0]]) + rest[1..] == done + rest
  {
    var c, tail := rest[0], rest[1..];
    assert rest == [c] + tail;
    DotsOfConcatenation([c], tail);
    DotsOfConcatenation(done, [c]);
    next := s.(currentInput := done + [c]);
    AppendOneCharacter(s, c);
    Reassociate(done, [c], tail);
  }

  /** A character that entry appends as it stands: not a point on an operand that
      has one, and nothing but a point on the operand "0". */
  lemma AppendOneCharacter(s: State, c: char)
    requires !s.shouldResetDisplay && s.currentInput != ""
    requires s.currentInput != "0" || c == '.'
    requires c == '.' ==> DotCount(s.currentInput) == 0
    ensures AppendNumber(s, [c]) == s.(currentInput := s.currentInput + [c])
  {
    assert c == '.' ==> '.' !in s.currentInput;
  }

  lemma Reassociate(a: string, b: string, c: string)
    ensures (a + b) + c == a + (b + c)
  {
  }

  lemma DotsOfConcatenation(a: string, b: string)
    ensures DotCount(a + b) == DotCount(a) + DotCount(b)
  {
    assert multiset(a + b) == multiset(a) + multiset(b);
  }

  /** `deleteLast()`. */
  function DeleteLast(s: State): (t: State)
    ensures t.currentInput != ""
    ensures |s.currentInput| > 1 ==>
      t.currentInput + [s.currentInput[|s.currentInput| - 1]] == s.currentInput
    ensures |s.currentInput| <= 1 ==> t.currentInput == "0"
    ensures t.previousInput == s.previousInput && t.operator == s.operator
    ensures t.shouldResetDisplay == s.shouldResetDisplay
  {
    var c := s.currentInput;
    s.(currentInput := if |c| > 1 then c[..|c| - 1] else "0")
  }

  /** Deleting right after typing a character takes it back. */
  lemma DeleteUndoesAppend(s: State, c: char)
    requires !s.shouldResetDisplay && s.currentInput != "" && s.currentInput != "0"
    requires c != '.' || '.' !in s.currentInput
    ensures DeleteLast(AppendNumber(s, [c])) == s
  {
    assert (s.currentInput + [c])[..|s.currentInput|] == s.currentInput;
  }

  lemma DeleteLastKeepsInvariant(s: State)
    requires Invariant(s)
    ensures Invariant(DeleteLast(s))
  {
    var c := s.currentInput;
    if |c| > 1 {
      assert c == c[..|c| - 1] + [c[|c| - 1]];
      assert multiset(c) == multiset(c[..|c| - 1]) + multiset([c[|c| - 1]]);
    }
  }

  /** `clearEntry()`. */
  function ClearEntry(s: State): (t: State)
    ensures t.currentInput == "0" && !t.shouldResetDisplay
    ensures t.previousInput == s.previousInput && t.operator == s.operator
  {
    s.(currentInput := "0", shouldResetDisplay := false)
  }

  // ---------------------------------------------------------------------------
  // Operators

  /** The operator strings that `calculate` switches on. */
  function ParseOperator(op: string): (o: Option<Operator>)
    ensures o.Some? ==> |op| == 1
  {
    if |op| != 1 then None
    else match op[0]
      case '+' => Some(Add)
      case '-' => Some(Subtract)
      case '*' => Some(Multiply)
      case '/' => Some(Divide)
      case '^' => Some(Power)
      case '%' => Some(Modulo)
      case _ => None
  }

  /** Each case label of the switch selects its own operator. */
  lemma OperatorLabels()
    ensures ParseOperator("+") == Some(Add) && ParseOperator("-") == Some(Subtract)
    ensures ParseOperator("*") == Some(Multiply) && ParseOperator("/") == Some(Divide)
    ensures ParseOperator("^") == Some(Power) && ParseOperator("%") == Some(Modulo)
  {
  }

  /** `getOperatorSymbol(op)`: the display glyph of a known operator, the operator
      itself otherwise. */
  function OperatorSymbol(op: string): (glyph: string)
    ensures glyph != op <==> op == "-" || op == "*" || op == "/"
    ensures ParseOperator(op).Some? ==> |glyph| == 1
  {
    if op == "+" then "+"
    else if op == "-" then "\U{2212}"
    else if op == "*" then "\U{00D7}"
    else if op == "/" then "\U{00F7}"
    else if op == "^" then "^"
    else if op == "%" then "%"
    else op
  }

  /** The glyph table tells the six operators apart. */
  lemma OperatorSymbolsDistinct(a: string, b: string)
    requires ParseOperator(a).Some? && ParseOperator(b).Some?
    ensures OperatorSymbol(a) == OperatorSymbol(b) ==> a == b
  {
  }

  /** What the switch of `calculate` decides: nothing to do, the error path, or a
      result. */
  datatype Outcome = Ignored | Failed | Computed(value: Double)

  function Evaluation(h: Host, s: State): (o: Outcome)
    ensures o.Ignored? <==> s.previousInput == "" || s.operator == "" || ParseOperator(s.operator).None?
    ensures o.Failed? <==>
      s.previousInput != "" && s.operator == "/" && h.parseFloat(s.currentInput) == Finite(0.0)
  {
    if s.previousInput == "" || s.operator == "" then Ignored
    else match ParseOperator(s.operator)
      case None => Ignored
      case Some(op) => OperatorOutcome(h, op, h.parseFloat(s.previousInput), h.parseFloat(s.currentInput))
  }

  /** The case of the switch for a known operator. */
  function OperatorOutcome(h: Host, op: Operator, prev: Double, curr: Double): (o: Outcome)
    ensures o.Failed? <==> op == Divide && curr == Finite(0.0)
    ensures !o.Ignored?
  {
    if op == Divide && curr == Finite(0.0) then Failed
    else Computed(Apply(h, op, prev, curr))
  }

  /** `calculate()`: without a previous operand, an operator, or with an operator
      it does not know, nothing changes; '/' with a zero divisor resets; otherwise
      the formatted result becomes the operand and nothing is pending. */
  function Calculate(h: Host, s: State): (t: State)
    ensures s.previousInput == "" || s.operator == "" || ParseOperator(s.operator).None? ==> t == s
    ensures s.previousInput != "" && s.operator == "/" && h.parseFloat(s.currentInput) == Finite(0.0) ==>
      t == Initial
    ensures (s.previousInput != "" && ParseOperator(s.operator).Some? &&
             !(s.operator == "/" && h.parseFloat(s.currentInput) == Finite(0.0))) ==>
      t == State(FormatResult(h, Apply(h, ParseOperator(s.operator).value,
        h.parseFloat(s.previousInput), h.parseFloat(s.currentInput))), "", "", true)
  {
    match Evaluation(h, s)
    case Ignored => s
    case Failed => Initial
    case Computed(x) => State(FormatResult(h, x), "", "", true)
  }

  /** What `calculate` does with each outcome of its switch. */
  lemma CalculateByOutcome(h: Host, s: State)
    ensures Evaluation(h, s).Ignored? ==> Calculate(h, s) == s
    ensures Evaluation(h, s).Failed? ==> Calculate(h, s) == Initial
    ensures Evaluation(h, s).Computed? ==>
      Calculate(h, s) == State(FormatResult(h, Evaluation(h, s).value), "", "", true)
  {
  }

  /** `calculate` takes its error path exactly on a division by a zero divisor,
      and the error path ends in the state `reset` sets. */
  lemma CalculateFailsOnlyOnDivisionByZero(h: Host, s: State)
    ensures Evaluation(h, s).Failed? <==>
      s.previousInput != "" && s.operator == "/" && h.parseFloat(s.currentInput) == Finite(0.0)
    ensures Evaluation(h, s).Failed? ==> Calculate(h, s) == Initial
  {
  }

  /** A zero divisor under `%` is not an error path: the remainder is NaN, which
      is shown as the operand 'Error', and the state is not the reset state. */
  lemma ModuloByZeroShowsError(h: Host, s: State)
    requires s.previousInput != "" && s.operator == "%"
    requires h.parseFloat(s.currentInput) == Finite(0.0)
    ensures Calculate(h, s) == State("Error", "", "", true)
    ensures Calculate(h, s) != Initial
  {
  }

  /** Pressing '=' a second time does nothing. */
  lemma CalculateIsIdempotent(h: Host, s: State)
    ensures Calculate(h, Calculate(h, s)) == Calculate(h, s)
  {
  }

  lemma CalculateKeepsInvariant(h: Host, s: State)
    requires WellFormed(h) && Invariant(s)
    ensures Invariant(Calculate(h, s))
  {
  }

  /** `appendOperator(op)`: fold the pending operation when a second operand has
      been entered since, then make the operand the previous one. */
  function AppendOperator(h: Host, s: State, op: string): (t: State)
    ensures t.previousInput == t.currentInput && t.operator == op && t.shouldResetDisplay
  {
    var folded := if s.previousInput != "" && !s.shouldResetDisplay then Calculate(h, s) else s;
    State(folded.currentInput, folded.currentInput, op, true)
  }

  /** The fold happens exactly when a previous operand is pending and the operand
      was entered after it; otherwise the operand is taken as it is. */
  lemma AppendOperatorFoldsWhenPending(h: Host, s: State, op: string)
    ensures s.previousInput != "" && !s.shouldResetDisplay ==>
      AppendOperator(h, s, op).previousInput == Calculate(h, s).currentInput
    ensures s.previousInput == "" || s.shouldResetDisplay ==>
      AppendOperator(h, s, op).previousInput == s.currentInput
  {
  }

  /** Two operators in a row: the second replaces the first. */
  lemma SecondOperatorReplacesFirst(h: Host, s: State, a: string, b: string)
    ensures AppendOperator(h, AppendOperator(h, s, a), b) == AppendOperator(h, s, b)
  {
  }

  /** A division by zero inside the fold resets, and then '0' becomes the previous
      operand of the new operator. */
  lemma FoldedDivisionByZero(h: Host, s: State, op: string)
    requires s.previousInput != "" && !s.shouldResetDisplay && s.operator == "/"
    requires h.parseFloat(s.currentInput) == Finite(0.0)
    ensures AppendOperator(h, s, op) == State("0", "0", op, true)
  {
    CalculateFailsOnlyOnDivisionByZero(h, s);
  }

  lemma AppendOperatorKeepsInvariant(h: Host, s: State, op: string)
    requires WellFormed(h) && Invariant(s) && op != ""
    ensures Invariant(AppendOperator(h, s, op))
  {
    CalculateKeepsInvariant(h, s);
  }

  /** `clearEntry` after an operator keeps the pending operation. */
  lemma ClearEntryKeepsPendingOperation(h: Host, s: State, op: string)
    ensures ClearEntry(AppendOperator(h, s, op)) ==
      State("0", AppendOperator(h, s, op).previousInput, op, false)
  {
  }

  // ---------------------------------------------------------------------------
  // Scientific functions

  /** The label of each case of the switch in `scientificFunction`. */
  function FunctionName(f: MathFunction): string {
    match f
    case Sin => "sin"
    case Cos => "cos"
    case Tan => "tan"
    case Asin => "asin"
    case Acos => "acos"
    case Atan => "atan"
    case Log => "log"
    case Ln => "ln"
    case Sqrt => "sqrt"
    case Exp => "exp"
    case Pow10 => "pow10"
    case Fact => "factorial"
    case Pi => "pi"
    case E => "e"
    case Abs => "abs"
    case Reciprocal => "1/x"
  }

  /** The names that `scientificFunction` switches on: a name is known only as
      the label of the function it selects. */
  function ParseFunction(name: string): (f: Option<MathFunction>)
    ensures f.Some? ==> FunctionName(f.value) == name
  {
    if name == "sin" then Some(Sin)
    else if name == "cos" then Some(Cos)
    else if name == "tan" then Some(Tan)
    else if name == "asin" then Some(Asin)
    else if name == "acos" then Some(Acos)
    else if name == "atan" then Some(Atan)
    else if name == "log" then Some(Log)
    else if name == "ln" then Some(Ln)
    else if name == "sqrt" then Some(Sqrt)
    else if name == "exp" then Some(Exp)
    else if name == "pow10" then Some(Pow10)
    else if name == "factorial" then Some(Fact)
    else if name == "pi" then Some(Pi)
    else if name == "e" then Some(E)
    else if name == "abs" then Some(Abs)
    else if name == "1/x" then Some(Reciprocal)
    else None
  }

  /** What the switch of `scientificFunction` decides for the operand's value `v`. */
  function FunctionOutcome(h: Host, f: MathFunction, v: Double): (o: Outcome)
    ensures !o.Ignored?
  {
    match f
    case Log | Ln => if AtMostZero(v) then Failed else Computed(h.math(f, v))
    case Sqrt => if BelowZero(v) then Failed else Computed(h.math(f, v))
    case Fact =>
      if BelowZero(v) || Remainder(v, Finite(1.0)) != Finite(0.0) then Failed
      else Computed(h.fromInteger(Factorial(v.r.Floor)))
    case Reciprocal =>
      if v == Finite(0.0) then Failed else Computed(h.arithmetic(Divide, Finite(1.0), v))
    case Pow10 => Computed(h.arithmetic(Power, Finite(10.0), v))
    case Pi => Computed(h.pi)
    case E => Computed(h.e)
    case Abs => Computed(AbsoluteValue(v))
    case _ => Computed(h.math(f, v))
  }

  /** Every case of the switch is reached by its own label. */
  lemma EveryFunctionIsNamed(f: MathFunction)
    ensures ParseFunction(FunctionName(f)) == Some(f)
  {
  }

  function ScientificOutcome(h: Host, s: State, name: string): Outcome {
    match ParseFunction(name)
    case None => Ignored
    case Some(f) => FunctionOutcome(h, f, h.parseFloat(s.currentInput))
  }

  /** `scientificFunction(name)`: an unknown name changes nothing; otherwise the
      state is either the reset state or differs only in the operand, with the
      flag set. */
  function Scientific(h: Host, s: State, name: string): (t: State)
    ensures ParseFunction(name).None? ==> t == s
    ensures ParseFunction(name).Some? ==>
      t == Initial || (t.previousInput == s.previousInput && t.operator == s.operator && t.shouldResetDisplay)
  {
    match ScientificOutcome(h, s, name)
    case Ignored => s
    case Failed => Initial
    case Computed(x) => s.(currentInput := FormatResult(h, x), shouldResetDisplay := true)
  }

  /** The values each function accepts, stated positively: log and ln take a
      positive number, +Infinity or NaN; sqrt a non-negative number, +Infinity or
      NaN (NaN passes both guards, as it fails every comparison); factorial a
      finite non-negative whole number; 1/x anything but zero; the others
      everything. */
  predicate InDomain(f: MathFunction, v: Double) {
    match f
    case Log | Ln => v.NaN? || v == Infinity || (v.Finite? && 0.0 < v.r)
    case Sqrt => v.NaN? || v == Infinity || (v.Finite? && 0.0 <= v.r)
    case Fact => v.Finite? && 0.0 <= v.r && IsInteger(v.r)
    case Reciprocal => v != Finite(0.0)
    case _ => true
  }

  /** A scientific function takes its error path exactly outside its domain, and
      that path ends in the state `reset` sets. */
  lemma ScientificFailsOutsideDomain(h: Host, s: State, name: string)
    ensures ScientificOutcome(h, s, name).Failed? <==>
      ParseFunction(name).Some? && !InDomain(ParseFunction(name).value, h.parseFloat(s.currentInput))
    ensures ScientificOutcome(h, s, name).Failed? ==> Scientific(h, s, name) == Initial
  {
    if ParseFunction(name) == Some(Fact) {
      RemainderByOneIsZero(h.parseFloat(s.currentInput));
    }
  }

  /** `scientificFunction` on a function's own label: the switch case decides. */
  lemma LabelledFunction(h: Host, s: State, f: MathFunction)
    ensures ScientificOutcome(h, s, FunctionName(f)) == FunctionOutcome(h, f, h.parseFloat(s.currentInput))
  {
    EveryFunctionIsNamed(f);
  }

  /** `abs` always succeeds and shows Math.abs of the operand. */
  lemma ScientificAbs(h: Host, s: State)
    ensures Scientific(h, s, "abs") == s.(
      currentInput := FormatResult(h, AbsoluteValue(h.parseFloat(s.currentInput))),
      shouldResetDisplay := true)
  {
    LabelledFunction(h, s, Abs);
    assert FunctionName(Abs) == "abs";
  }

  /** `pi` always succeeds and shows Math.PI. */
  lemma ScientificPi(h: Host, s: State)
    ensures Scientific(h, s, "pi") == s.(currentInput := FormatResult(h, h.pi), shouldResetDisplay := true)
  {
    LabelledFunction(h, s, Pi);
    assert FunctionName(Pi) == "pi";
  }

  /** `e` always succeeds and shows Math.E. */
  lemma ScientificE(h: Host, s: State)
    ensures Scientific(h, s, "e") == s.(currentInput := FormatResult(h, h.e), shouldResetDisplay := true)
  {
    LabelledFunction(h, s, E);
    assert FunctionName(E) == "e";
  }

  /** A `Math` function inside its domain shows the formatted `Math` result. */
  lemma ScientificMathFunction(h: Host, s: State, f: MathFunction)
    requires f in {Sin, Cos, Tan, Asin, Acos, Atan, Log, Ln, Sqrt, Exp}
    requires InDomain(f, h.parseFloat(s.currentInput))
    ensures Scientific(h, s, FunctionName(f)) == s.(
      currentInput := FormatResult(h, h.math(f, h.parseFloat(s.currentInput))),
      shouldResetDisplay := true)
  {
    LabelledFunction(h, s, f);
  }

  /** `1/x` of a non-zero operand shows 1 divided by it, and `pow10` shows 10 to
      the power of the operand. */
  lemma ScientificArithmetic(h: Host, s: State)
    ensures h.parseFloat(s.currentInput) != Finite(0.0) ==>
      Scientific(h, s, "1/x") == s.(
        currentInput := FormatResult(h, h.arithmetic(Divide, Finite(1.0), h.parseFloat(s.currentInput))),
        shouldResetDisplay := true)
    ensures Scientific(h, s, "pow10") == s.(
      currentInput := FormatResult(h, h.arithmetic(Power, Finite(10.0), h.parseFloat(s.currentInput))),
      shouldResetDisplay := true)
  {
    LabelledFunction(h, s, Reciprocal);
    assert FunctionName(Reciprocal) == "1/x";
    LabelledFunction(h, s, Pow10);
    assert FunctionName(Pow10) == "pow10";
  }

  /** Factorial of a whole number n >= 0 shows the double nearest to n!. */
  lemma FactorialOfWholeNumber(h: Host, s: State, n: nat)
    requires h.parseFloat(s.currentInput) == Finite(n as real)
    ensures Scientific(h, s, "factorial") ==
      s.(currentInput := FormatResult(h, h.fromInteger(Factorial(n))), shouldResetDisplay := true)
  {
    var v := Finite(n as real);
    RemainderByOneIsZero(v);
    assert (n as real).Floor == n;
    assert ParseFunction("factorial") == Some(Fact);
    assert ScientificOutcome(h, s, "factorial") == FunctionOutcome(h, Fact, v);
    assert FunctionOutcome(h, Fact, v) == Computed(h.fromInteger(Factorial(n)));
  }

  /** An unknown name changes nothing; any other successful function changes only
      the operand and the flag, so a pending operation survives it. */
  lemma ScientificKeepsPendingOperation(h: Host, s: State, name: string)
    ensures ParseFunction(name).None? ==> Scientific(h, s, name) == s
    ensures ScientificOutcome(h, s, name).Computed? ==>
      Scientific(h, s, name).previousInput == s.previousInput &&
      Scientific(h, s, name).operator == s.operator &&
      Scientific(h, s, name).shouldResetDisplay
  {
  }

  /** Because a function result sets `shouldResetDisplay`, the next operator does
      not fold a pending operation: `3 + 4 sqrt +` drops the pending `3 +`. */
  lemma OperatorAfterFunctionDropsPendingOperation(h: Host, s: State, name: string, op: string)
    requires ScientificOutcome(h, s, name).Computed?
    ensures AppendOperator(h, Scientific(h, s, name), op) == State(
      Scientific(h, s, name).currentInput, Scientific(h, s, name).currentInput, op, true)
  {
  }

  lemma ScientificKeepsInvariant(h: Host, s: State, name: string)
    requires WellFormed(h) && Invariant(s)
    ensures Invariant(Scientific(h, s, name))
  {
  }

  // ---------------------------------------------------------------------------
  // Sessions

  /** One user input: a button or a key. */
  datatype Action =
    | PressNumber(num: string)
    | PressOperator(op: string)
    | PressEquals
    | PressFunction(name: string)
    | PressClearAll
    | PressClearEntry
    | PressDelete

  /** The inputs the calculator's buttons and keys produce. */
  predicate Admissible(a: Action) {
    match a
    case PressNumber(num) => IsEntryToken(num)
    case PressOperator(op) => op != ""
    case _ => true
  }

  function Step(h: Host, s: State, a: Action): State {
    match a
    case PressNumber(num) => AppendNumber(s, num)
    case PressOperator(op) => AppendOperator(h, s, op)
    case PressEquals => Calculate(h, s)
    case PressFunction(name) => Scientific(h, s, name)
    case PressClearAll => Initial
    case PressClearEntry => ClearEntry(s)
    case PressDelete => DeleteLast(s)
  }

  function Run(h: Host, s: State, actions: seq<Action>): State
    decreases |actions|
  {
    if actions == [] then s else Run(h, Step(h, s, actions[0]), actions[1..])
  }

  lemma StepKeepsInvariant(h: Host, s: State, a: Action)
    requires WellFormed(h) && Invariant(s) && Admissible(a)
    ensures Invariant(Step(h, s, a))
  {
    match a
    case PressNumber(num) => AppendNumberKeepsInvariant(s, num);
    case PressOperator(op) => AppendOperatorKeepsInvariant(h, s, op);
    case PressEquals => CalculateKeepsInvariant(h, s);
    case PressFunction(name) => ScientificKeepsInvariant(h, s, name);
    case PressClearAll =>
    case PressClearEntry =>
    case PressDelete => DeleteLastKeepsInvariant(s);
  }

  /** Every session of admissible inputs from a state satisfying the invariant
      (the initial state does) keeps it. */
  lemma {:induction false} RunKeepsInvariant(h: Host, s: State, actions: seq<Action>)
    requires WellFormed(h) && Invariant(s)
    requires forall i :: 0 <= i < |actions| ==> Admissible(actions[i])
    ensures Invariant(Run(h, s, actions))
    decreases |actions|
  {
    if actions != [] {
      StepKeepsInvariant(h, s, actions[0]);
      RunKeepsInvariant(h, Step(h, s, actions[0]), actions[1..]);
    }
  }

  /** Entering a token other than '.' on a fresh operand makes it the operand. */
  lemma FreshEntry(s: State, x: string)
    requires s.shouldResetDisplay || s.currentInput == "0"
    requires x != "."
    ensures AppendNumber(s, x) == s.(currentInput := x, shouldResetDisplay := false)
  {
  }

  /** An operator after a second operand folds the pending operation. */
  lemma FoldOnOperator(h: Host, s: State, o: string, op: Operator)
    requires s.previousInput != "" && !s.shouldResetDisplay
    requires ParseOperator(s.operator) == Some(op)
    requires !(op == Divide && h.parseFloat(s.currentInput) == Finite(0.0))
    ensures AppendOperator(h, s, o) == State(
      FormatResult(h, Apply(h, op, h.parseFloat(s.previousInput), h.parseFloat(s.currentInput))),
      FormatResult(h, Apply(h, op, h.parseFloat(s.previousInput), h.parseFloat(s.currentInput))),
      o, true)
  {
    DivisionLabel(s.operator, op);
  }

  /** Only the label '/' selects division. */
  lemma DivisionLabel(o: string, op: Operator)
    requires ParseOperator(o) == Some(op)
    ensures o == "/" <==> op == Divide
  {
  }

  /** Chained operators fold left to right without '=': `x o1 y o2 z =` shows
      (x o1 y) o2 z, the intermediate result passing through `formatResult` and
      `parseFloat` as the operand string does. Any operators may be chained; only a
      zero divisor under '/' leaves this path. */
  lemma ChainedOperatorsFoldLeftToRight(
    h: Host, x: string, o1: string, y: string, o2: string, z: string, op1: Operator, op2: Operator)
    requires WellFormed(h)
    requires x != "" && x != "." && y != "." && z != "."
    requires ParseOperator(o1) == Some(op1) && ParseOperator(o2) == Some(op2)
    requires !(op1 == Divide && h.parseFloat(y) == Finite(0.0))
    requires !(op2 == Divide && h.parseFloat(z) == Finite(0.0))
    ensures Run(h, Initial, [PressNumber(x), PressOperator(o1), PressNumber(y),
                             PressOperator(o2), PressNumber(z), PressEquals]).currentInput
      == FormatResult(h, Apply(h, op2,
           h.parseFloat(FormatResult(h, Apply(h, op1, h.parseFloat(x), h.parseFloat(y)))),
           h.parseFloat(z)))
  {
    var first := FormatResult(h, Apply(h, op1, h.parseFloat(x), h.parseFloat(y)));
    assert first != "";
    FreshEntry(Initial, x);
    var s1 := State(x, "", "", false);
    var s2 := State(x, x, o1, true);
    assert AppendOperator(h, s1, o1) == s2;
    FreshEntry(s2, y);
    var s3 := State(y, x, o1, false);
    FoldOnOperator(h, s3, o2, op1);
    var s4 := State(first, first, o2, true);
    FreshEntry(s4, z);
    var s5 := State(z, first, o2, false);
    DivisionLabel(o2, op2);
    RunOfSix(h, Initial, PressNumber(x), s1, PressOperator(o1), s2, PressNumber(y), s3,
             PressOperator(o2), s4, PressNumber(z), s5, PressEquals, Calculate(h, s5));
  }

  /** A session of six actions, one step at a time. */
  lemma RunOfSix(h: Host, s0: State, a1: Action, s1: State, a2: Action, s2: State,
                 a3: Action, s3: State, a4: Action, s4: State, a5: Action, s5: State,
                 a6: Action, s6: State)
    requires Step(h, s0, a1) == s1 && Step(h, s1, a2) == s2 && Step(h, s2, a3) == s3
    requires Step(h, s3, a4) == s4 && Step(h, s4, a5) == s5 && Step(h, s5, a6) == s6
    ensures Run(h, s0, [a1, a2, a3, a4, a5, a6]) == s6
  {
    SixActions(a1, a2, a3, a4, a5, a6);
    RunFirst(h, s0, a1, [a2] + ([a3] + ([a4] + ([a5] + [a6]))), s1);
    RunFirst(h, s1, a2, [a3] + ([a4] + ([a5] + [a6])), s2);
    RunFirst(h, s2, a3, [a4] + ([a5] + [a6]), s3);
    RunFirst(h, s3, a4, [a5] + [a6], s4);
    RunFirst(h, s4, a5, [a6], s5);
    RunSingle(h, s5, a6);
  }

  lemma SixActions(a: Action, b: Action, c: Action, d: Action, e: Action, f: Action)
    ensures [a, b, c, d, e, f] == [a] + ([b] + ([c] + ([d] + ([e] + [f]))))
  {
  }

  /** A one-action session is that action's step. */
  lemma RunSingle(h: Host, s: State, a: Action)
    ensures Run(h, s, [a]) == Step(h, s, a)
  {
    assert [a][1..] == [];
  }

  /** `Run` takes the first action, then the rest. */
  lemma RunFirst(h: Host, s: State, a: Action, rest: seq<Action>, next: State)
    requires Step(h, s, a) == next
    ensures Run(h, s, [a] + rest) == Run(h, next, rest)
  {
    assert ([a] + rest)[1..] == rest;
  }
}
