/** The keydown listener: which action each `KeyboardEvent.key` string triggers. */
module Keyboard {
  import opened Engine

  /** JavaScript's `a < b` on strings: lexicographic order of the characters, a
      proper prefix coming first. */
  function StringLess(a: string, b: string): (r: bool)
    ensures r ==> a != b
    ensures |a| < |b| && a == b[..|a|] ==> r
    decreases |a|
  {
    if a == [] then b != []
    else if b == [] then false
    else if a[0] != b[0] then a[0] < b[0]
    else StringLess(a[1..], b[1..])
  }

  /** The order is strict and total: of `a < b`, `a == b` and `b < a`, exactly one
      holds. */
  lemma {:induction false} StringLessIsStrictTotalOrder(a: string, b: string)
    ensures StringLess(a, b) != (a == b || StringLess(b, a))
    ensures !(StringLess(a, b) && StringLess(b, a))
    decreases |a|
  {
    if a != [] && b != [] && a[0] == b[0] {
      StringLessIsStrictTotalOrder(a[1..], b[1..]);
      assert a == [a[0]] + a[1..] && b == [b[0]] + b[1..];
      assert a == b <==> a[1..] == b[1..];
    }
  }

  /** The digit test `key >= '0' && key <= '9'`. */
  predicate InDigitRange(key: string): (b: bool)
    ensures b ==> key != "" && '0' <= key[0] <= '9'
  {
    !StringLess(key, "0") && !StringLess("9", key)
  }

  /** The test compares whole strings, so it admits exactly the keys that begin
      with '0' to '8', and the key "9" alone. */
  lemma DigitRangeByFirstCharacter(key: string)
    ensures InDigitRange(key) <==> key != "" && ('0' <= key[0] < '9' || key == "9")
  {
    if key != [] {
      if key[0] == '0' {
        assert !StringLess(key, "0") by { assert !StringLess(key[1..], ""); }
      } else if key[0] == '9' {
        assert StringLess("9", key) == StringLess("", key[1..]);
        assert "9" == key <==> key[1..] == [];
      }
    }
  }

  /** The branches of the keydown listener, in order. A key that enters a number
      or an operator hands over the key string itself. */
  function KeyAction(key: string): (r: Option<Action>)
    ensures r.Some? && r.value.PressNumber? ==> r.value.num == key && key != ""
    ensures r.Some? && r.value.PressOperator? ==> r.value.op == key && |key| == 1
  {
    if InDigitRange(key) || key == "." then Some(PressNumber(key))
    else if key == "+" || key == "-" then Some(PressOperator(key))
    else if key == "*" then Some(PressOperator("*"))
    else if key == "/" then Some(PressOperator("/"))
    else if key == "Enter" || key == "=" then Some(PressEquals)
    else if key == "Escape" || key == "c" || key == "C" then Some(PressClearAll)
    else if key == "Backspace" then Some(PressDelete)
    else if key == "%" then Some(PressOperator("%"))
    else None
  }

  /** A one-character key is entered exactly when it is a digit or the point; the
      operator keys, '=' and Enter, Escape and c, and Backspace map as listed. */
  lemma SingleCharacterKeys(key: string)
    requires |key| == 1
    ensures KeyAction(key) == Some(PressNumber(key)) <==> '0' <= key[0] <= '9' || key[0] == '.'
    ensures key[0] in "+-*/%" ==> KeyAction(key) == Some(PressOperator(key))
    ensures key == "=" ==> KeyAction(key) == Some(PressEquals)
    ensures key == "c" || key == "C" ==> KeyAction(key) == Some(PressClearAll)
  {
    DigitRangeByFirstCharacter(key);
    assert key == [key[0]];
  }

  /** Every other one-character key does nothing. */
  lemma OtherSingleCharacterKeys(key: string)
    requires |key| == 1 && key[0] !in "0123456789.+-*/%=cC"
    ensures KeyAction(key) == None
  {
    DigitRangeByFirstCharacter(key);
    assert key == [key[0]];
  }

  /** Named keys do what their names say, and never enter digits. */
  lemma NamedKeys()
    ensures KeyAction("Enter") == Some(PressEquals)
    ensures KeyAction("Escape") == Some(PressClearAll)
    ensures KeyAction("Backspace") == Some(PressDelete)
    ensures KeyAction("Shift") == None
  {
    DigitRangeByFirstCharacter("Enter");
    DigitRangeByFirstCharacter("Escape");
    DigitRangeByFirstCharacter("Backspace");
    DigitRangeByFirstCharacter("Shift");
  }

  /** Every other key of several characters does nothing. */
  lemma OtherNamedKeys(key: string)
    requires |key| > 1 && !('0' <= key[0] < '9')
    requires key != "Enter" && key != "Escape" && key != "Backspace"
    ensures KeyAction(key) == None
  {
    DigitRangeByFirstCharacter(key);
  }

  /** Every action a key triggers is admissible unless the key is a string of
      several characters that begins with a digit and holds a point, which no
      keyboard produces. */
  lemma KeyActionsAreAdmissible(key: string)
    requires key == "." || '.' !in key
    ensures KeyAction(key).Some? ==> Admissible(KeyAction(key).value)
  {
    DigitRangeByFirstCharacter(key);
  }

  /** The keydown listener applied to each key in turn; unmapped keys do nothing. */
  function Press(h: Numbers.Host, s: State, keys: seq<string>): (t: State)
    ensures (forall i :: 0 <= i < |keys| ==> KeyAction(keys[i]).None?) ==> t == s
    decreases |keys|
  {
    if keys == [] then s
    else
      var next := match KeyAction(keys[0]) case None => s case Some(a) => Step(h, s, a);
      Press(h, next, keys[1..])
  }

  /** Typing on the keyboard keeps the state invariant. */
  lemma {:induction false} PressKeepsInvariant(h: Numbers.Host, s: State, keys: seq<string>)
    requires Numbers.WellFormed(h) && Invariant(s)
    requires forall i :: 0 <= i < |keys| ==> keys[i] == "." || '.' !in keys[i]
    ensures Invariant(Press(h, s, keys))
    decreases |keys|
  {
    if keys != [] {
      KeyActionsAreAdmissible(keys[0]);
      if KeyAction(keys[0]).Some? {
        StepKeepsInvariant(h, s, KeyAction(keys[0]).value);
      }
      var next := match KeyAction(keys[0]) case None => s case Some(a) => Step(h, s, a);
      PressKeepsInvariant(h, next, keys[1..]);
    }
  }
}
