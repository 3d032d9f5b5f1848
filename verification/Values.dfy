/** JavaScript values as the engine stores them, and the engine's narrow SameValue. */
module Values {

  /** An IEEE 754 number. `Finite(0.0)` is positive zero; rounding is not modelled. */
  datatype Float = NaN | PosInf | NegInf | NegZero | Finite(r: real)

  /** The `==` of two floats: NaN is unordered, the two zeroes are equal. */
  predicate FloatEq(a: Float, b: Float) {
    && a != NaN && b != NaN
    && (a == b || (IsZero(a) && IsZero(b)))
  }

  predicate IsZero(a: Float) {
    a == NegZero || a == Finite(0.0)
  }

  predicate SignBit(a: Float) {
    match a
    case NegInf => true
    case NegZero => true
    case Finite(r) => r < 0.0
    case _ => false
  }

  function RealOf(a: Float): real {
    if a.Finite? then a.r else 0.0
  }

  /** Number::add of ECMA-262, section 6.1.6.1.7: only two negative zeroes add up to one. */
  function FloatAdd(a: Float, b: Float): Float {
    if a == NaN || b == NaN || (a == PosInf && b == NegInf) || (a == NegInf && b == PosInf) then NaN
    else if a == PosInf || b == PosInf then PosInf
    else if a == NegInf || b == NegInf then NegInf
    else if a == NegZero && b == NegZero then NegZero
    else Finite(RealOf(a) + RealOf(b))
  }

  /** The engine's `start + float64(i)`. */
  function FloatPlus(f: Float, k: nat): Float {
    FloatAdd(f, Finite(k as real))
  }

  /** A variable of the program that starts as `f` and has been incremented k times. */
  function Counted(f: Float, k: nat): Float {
    if k == 0 then f else FloatAdd(Counted(f, k - 1), Finite(1.0))
  }

  /** Adding the count at once is counting, except that it turns a negative zero positive. */
  lemma {:induction false} PlusIsCountingExactly(f: Float, k: nat)
    ensures FloatPlus(f, k) == Counted(f, k) <==> !(f == NegZero && k == 0)
    ensures k > 0 && (f.Finite? || f == NegZero) ==> Counted(f, k) == Finite(RealOf(f) + k as real)
    ensures f == NaN || f == PosInf || f == NegInf ==> Counted(f, k) == f
  {
    if k > 0 { PlusIsCountingExactly(f, k - 1); }
  }

  /** A value as it sits in a slot.
      Strings are flat text or a rope node, big integers sit in a heap cell; the engine
      compares both of those by address, so the address is part of the value.
      Objects and functions are known by identity only. `Accessor` is the internal
      sentinel a slot holds for a getter/setter pair; it is never a JavaScript value. */
  datatype Value =
    | Undefined
    | Null
    | Bool(b: bool)
    | Number(f: Float)
    | FlatString(text: string)
    | RopeString(text: string, node: nat)
    | BigInt(n: int, cell: nat)
    | Symbol(sym: nat)
    | Object(obj: nat)
    | Function(fn: nat)
    | Accessor(getter: Value, setter: Value)

  predicate IsCallableOrUndefined(v: Value) {
    v.Undefined? || v.Function?
  }

  /** The engine's `sameValue`: numbers by value, anything else by Go's `==`,
      which for ropes and big integers compares addresses. */
  predicate EngineSameValue(a: Value, b: Value) {
    if a.Number? || b.Number? then
      if !a.Number? || !b.Number? then false
      else if FloatEq(a.f, b.f) then
        if IsZero(a.f) then SignBit(a.f) == SignBit(b.f) else true
      else a.f == NaN && b.f == NaN
    else a == b
  }

  /** What the language sees of a value: not where it is stored. */
  function Content(v: Value): Value {
    match v
    case RopeString(text, _) => FlatString(text)
    case BigInt(n, _) => BigInt(n, 0)
    case _ => v
  }

  /** SameValue of ECMA-262, section 7.2.10: strings by content, big integers by value. */
  predicate SameValue(a: Value, b: Value) {
    Content(a) == Content(b)
  }

  /** Equal for the language, stored at two addresses: exactly where the engine errs. */
  predicate StoredApart(a: Value, b: Value) {
    || (a.RopeString? && (b.FlatString? || b.RopeString?) && a.text == b.text && a != b)
    || (a.FlatString? && b.RopeString? && a.text == b.text)
    || (a.BigInt? && b.BigInt? && a.n == b.n && a.cell != b.cell)
  }

  /** The engine's test is SameValue except on equal strings or big integers stored apart. */
  lemma EngineSameValueExact(a: Value, b: Value)
    ensures EngineSameValue(a, b) <==> SameValue(a, b) && !StoredApart(a, b)
  {
    if a.Number? && b.Number? {
      FloatSameIsEqual(a.f, b.f);
    }
  }

  /** On numbers, the engine's case split is equality of the modelled float. */
  lemma FloatSameIsEqual(a: Float, b: Float)
    ensures EngineSameValue(Number(a), Number(b)) <==> a == b
  {
  }

  lemma EngineSameValueReflexive(a: Value)
    ensures EngineSameValue(a, a)
  {
  }
}
