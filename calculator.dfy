/** The calculator page script as it runs: the four module-level variables are the
    fields of a `Calculator`, and each operation reassigns them step by step. Every
    method is proved to move the fields as the matching function of `Engine` moves
    a `State`, and to keep the invariant. */
module Widget {
  import opened Numbers
  import Engine

  class Calculator {
    /** The numeric primitives the script calls (parseFloat, Math, formatting). */
    const host: Host

    var currentInput: string
    var previousInput: string
    var operator: string
    var shouldResetDisplay: bool

    function Snapshot(): Engine.State
      reads this
    {
      Engine.State(currentInput, previousInput, operator, shouldResetDisplay)
    }

    ghost predicate Valid()
      reads this
    {
      WellFormed(host) && Engine.Invariant(Snapshot())
    }

    /** The load-time values of the four variables. */
    constructor (host: Host)
      requires WellFormed(host)
      ensures Valid() && this.host == host
      ensures Snapshot() == Engine.Initial
    {
      this.host := host;
      currentInput := "0";
      previousInput := "";
      operator := "";
      shouldResetDisplay := false;
    }

    method AppendNumber(num: string)
      requires Valid() && Engine.IsEntryToken(num)
      modifies this
      ensures Valid()
      ensures Snapshot() == Engine.AppendNumber(old(Snapshot()), num)
    {
      Engine.AppendNumberKeepsInvariant(Snapshot(), num);
      if shouldResetDisplay {
        currentInput := "0";
        shouldResetDisplay := false;
      }
      if currentInput == "0" && num != "." {
        currentInput := num;
      } else if num == "." && '.' in currentInput {
        return;
      } else {
        currentInput := currentInput + num;
      }
    }

    method AppendOperator(op: string)
      requires Valid() && op != ""
      modifies this
      ensures Valid()
      ensures Snapshot() == Engine.AppendOperator(host, old(Snapshot()), op)
    {
      if previousInput != "" && !shouldResetDisplay {
        Calculate();
      }
      previousInput := currentInput;
      operator := op;
      shouldResetDisplay := true;
    }

    method Calculate()
      requires Valid()
      modifies this
      ensures Valid()
      ensures Snapshot() == Engine.Calculate(host, old(Snapshot()))
    {
      ghost var before := Snapshot();
      Engine.CalculateKeepsInvariant(host, before);
      Engine.CalculateByOutcome(host, before);
      var outcome := Evaluate();
      match outcome
      case Ignored =>
      case Failed =>
        Reset();
      case Computed(result) =>
        Show(result);
    }

    /** The success path of `calculate`: the formatted result replaces the operand,
        the pending operation is dropped and the next digit starts a new entry. */
    method Show(result: Double)
      requires WellFormed(host)
      modifies this
      ensures Valid()
      ensures Snapshot() == Engine.State(FormatResult(host, result), "", "", true)
    {
      var text := FormatResult(host, result);
      assert Engine.Invariant(Engine.State(text, "", "", true));
      currentInput, previousInput, operator, shouldResetDisplay := text, "", "", true;
    }

    /** The decision `calculate` makes before it changes anything: return early
        without both operands and a known operator, fail on a zero divisor, or
        compute. */
    method Evaluate() returns (outcome: Engine.Outcome)
      ensures outcome == Engine.Evaluation(host, Snapshot())
    {
      if previousInput == "" || operator == "" {
        return Engine.Ignored;
      }
      var known := Engine.ParseOperator(operator);
      if known.None? {
        return Engine.Ignored;
      }
      outcome := Combine(known.value, host.parseFloat(previousInput), host.parseFloat(currentInput));
    }

    /** The switch of `calculate` for a known operator: the zero-divisor check of
        '/', then the result. */
    method Combine(op: Operator, prev: Double, curr: Double) returns (outcome: Engine.Outcome)
      ensures outcome == Engine.OperatorOutcome(host, op, prev, curr)
    {
      match op
      case Divide =>
        if curr == Finite(0.0) {
          return Engine.Failed;
        }
        outcome := Engine.Computed(host.arithmetic(Divide, prev, curr));
      case Modulo =>
        outcome := Engine.Computed(Remainder(prev, curr));
      case Add | Subtract | Multiply | Power =>
        outcome := Engine.Computed(host.arithmetic(op, prev, curr));
    }

    method ScientificFunction(func: string)
      requires Valid()
      modifies this
      ensures Valid()
      ensures Snapshot() == Engine.Scientific(host, old(Snapshot()), func)
    {
      Engine.ScientificKeepsInvariant(host, Snapshot(), func);
      var known := Engine.ParseFunction(func);
      if known.None? {
        return;
      }
      var outcome := Compute(known.value, host.parseFloat(currentInput));
      if outcome.Failed? {
        Reset();
        return;
      }
      currentInput := FormatResult(host, outcome.value);
      shouldResetDisplay := true;
    }

    /** The switch of `scientificFunction`: each function's domain check, then its
        value. */
    method Compute(f: MathFunction, value: Double) returns (outcome: Engine.Outcome)
      ensures outcome == Engine.FunctionOutcome(host, f, value)
    {
      match f
      case Log | Ln =>
        if AtMostZero(value) {
          return Engine.Failed;
        }
        outcome := Engine.Computed(host.math(f, value));
      case Sqrt =>
        if BelowZero(value) {
          return Engine.Failed;
        }
        outcome := Engine.Computed(host.math(f, value));
      case Fact =>
        if BelowZero(value) || Remainder(value, Finite(1.0)) != Finite(0.0) {
          return Engine.Failed;
        }
        var n := Factorial(value.r.Floor);
        outcome := Engine.Computed(host.fromInteger(n));
      case Reciprocal =>
        if value == Finite(0.0) {
          return Engine.Failed;
        }
        outcome := Engine.Computed(host.arithmetic(Divide, Finite(1.0), value));
      case Pow10 =>
        outcome := Engine.Computed(host.arithmetic(Power, Finite(10.0), value));
      case Pi =>
        outcome := Engine.Computed(host.pi);
      case E =>
        outcome := Engine.Computed(host.e);
      case Abs =>
        outcome := Engine.Computed(AbsoluteValue(value));
      case Sin | Cos | Tan | Asin | Acos | Atan | Exp =>
        outcome := Engine.Computed(host.math(f, value));
    }

    method ClearAll()
      requires Valid()
      modifies this
      ensures Valid()
      ensures Snapshot() == Engine.Initial
    {
      currentInput := "0";
      previousInput := "";
      operator := "";
      shouldResetDisplay := false;
    }

    method ClearEntry()
      requires Valid()
      modifies this
      ensures Valid()
      ensures Snapshot() == Engine.ClearEntry(old(Snapshot()))
      ensures currentInput == "0" && !shouldResetDisplay
      ensures previousInput == old(previousInput) && operator == old(operator)
    {
      currentInput := "0";
      shouldResetDisplay := false;
    }

    method DeleteLast()
      requires Valid()
      modifies this
      ensures Valid()
      ensures Snapshot() == Engine.DeleteLast(old(Snapshot()))
    {
      Engine.DeleteLastKeepsInvariant(Snapshot());
      if |currentInput| > 1 {
        currentInput := currentInput[..|currentInput| - 1];
      } else {
        currentInput := "0";
      }
    }

    /** `factorial(n)`: 1 for 0 and 1, otherwise the loop multiplying 2, 3, ..., n. */
    static method Factorial(n: nat) returns (result: nat)
      ensures result == Numbers.Factorial(n)
    {
      if n == 0 || n == 1 {
        return 1;
      }
      result := 1;
      var i := 2;
      while i <= n
        invariant 2 <= i <= n + 1
        invariant result == Numbers.Factorial(i - 1)
      {
        assert Numbers.Factorial(i) == i * Numbers.Factorial(i - 1);
        result := result * i;
        i := i + 1;
      }
    }

    /** The error path: the same values as `ClearAll`. */
    method Reset()
      requires WellFormed(host)
      modifies this
      ensures Valid()
      ensures Snapshot() == Engine.Initial
    {
      currentInput := "0";
      previousInput := "";
      operator := "";
      shouldResetDisplay := false;
    }
  }
}
