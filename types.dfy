/** The IR type of a C++ type (`TypeGen`, `GetType`) and the width scaling of
    integer types (`ScaleType`). */
module IrTypes {
  import opened Wrappers
  import opened Bits

  /** The IR types the translator builds. */
  datatype IrType =
    | Void
    | Int(bits: nat)
    | Float
    | Double
    | Pointer(pointee: IrType)
    | Vector(elem: IrType, count: nat)

  /** The C++ types `TypeGen` has a specialisation for; any other type is a
      compile-time error there, so it has no constructor here. `Array(e, n)`
      stands for `e[n]`. */
  datatype CType =
    | CVoid
    | S64 | U64 | S32 | U32 | S16 | U16 | S8 | U8 | Char
    | F32 | F64
    | Bool
    | U128
    | Ptr(to: CType)
    | Array(elem: CType, n: nat)

  /** Signed and unsigned C++ integers share one signless IR integer type;
      a pointer maps to a pointer to the mapped type, an array to a vector
      with one lane per element. */
  function TypeGen(t: CType): (r: IrType)
    ensures t.Ptr? <==> r.Pointer?
    ensures t.Array? <==> r.Vector?
    ensures t.CVoid? <==> r.Void?
    ensures r.Int? <==>
              t.S64? || t.U64? || t.S32? || t.U32? || t.S16? || t.U16? ||
              t.S8? || t.U8? || t.Char? || t.Bool? || t.U128?
    ensures r == Float <==> t == F32
    ensures r == Double <==> t == F64
  {
    match t
    case CVoid => Void
    case S64 | U64 => Int(64)
    case S32 | U32 => Int(32)
    case S16 | U16 => Int(16)
    case S8 | U8 | Char => Int(8)
    case F32 => Float
    case F64 => Double
    case Bool => Int(1)
    case U128 => Int(128)
    case Ptr(e) => Pointer(TypeGen(e))
    case Array(e, n) => Vector(TypeGen(e), n)
  }

  /** How many bits of information a C++ value of type t carries: its size in
      bits, except that a `bool` carries one. */
  function ValueBits(t: CType): nat {
    match t
    case CVoid => 0
    case S64 | U64 | F64 => 64
    case S32 | U32 | F32 => 32
    case S16 | U16 => 16
    case S8 | U8 | Char => 8
    case Bool => 1
    case U128 => 128
    case Ptr(_) => 64
    case Array(e, n) => n * ValueBits(e)
  }

  /** The width in bits of a first-class IR value of type t (zero for void;
      pointers have no fixed primitive width). */
  function IrBits(t: IrType): nat {
    match t
    case Void => 0
    case Int(b) => b
    case Float => 32
    case Double => 64
    case Pointer(_) => 0
    case Vector(e, n) => n * IrBits(e)
  }

  predicate HasPointer(t: CType) {
    match t
    case Ptr(_) => true
    case Array(e, _) => HasPointer(e)
    case _ => false
  }

  /** Every pointer-free C++ type maps to an IR type of exactly the width of
      the values it carries; in particular the integer types map to i64, i32,
      i16, i8, bool to i1 and u128 to i128, and `T[N]` to N lanes of T. */
  lemma {:induction false} TypeGenWidth(t: CType)
    requires !HasPointer(t)
    ensures IrBits(TypeGen(t)) == ValueBits(t)
    ensures t.Array? ==> TypeGen(t) == Vector(TypeGen(t.elem), t.n)
  {
    if t.Array? {
      TypeGenWidth(t.elem);
    }
  }

  /** Integer and integer-vector types: the only ones `ScaleType` accepts. */
  predicate IsIntegral(t: IrType) {
    t.Int? || (t.Vector? && t.elem.Int?)
  }

  function ScalarBits(t: IrType): nat
    requires IsIntegral(t)
  {
    if t.Int? then t.bits else t.elem.bits
  }

  /** An integer width multiplied by 2^pow2; a negative pow2 divides, as a
      right shift of the width does. */
  function ScaledWidth(w: nat, pow2: int): nat {
    if pow2 >= 0 then w * Pow2(pow2)
    else
      var d := Pow2(-pow2);
      DivNonNegative(w, d);
      w / d
  }

  /** A natural number divided by a positive one is a natural number. */
  lemma DivNonNegative(x: nat, d: nat)
    requires d > 0
    ensures x / d >= 0
  {
  }

  /** Changes the width of an integer type, or of each lane of an integer
      vector type, by the factor 2^pow2. There is no integer type of width
      zero and no scaling of a non-integer type: both give None. */
  function ScaleType(t: IrType, pow2: int := 0): (r: Option<IrType>)
    ensures r.Some? <==> IsIntegral(t) && ScaledWidth(ScalarBits(t), pow2) > 0
    ensures r.Some? ==> IsIntegral(r.value) && r.value.Int? == t.Int?
    ensures r.Some? && t.Vector? ==> r.value.count == t.count
    ensures r.Some? && pow2 >= 0 ==> ScalarBits(r.value) == ScalarBits(t) * Pow2(pow2)
    ensures r.Some? && pow2 < 0 ==>
      ScalarBits(r.value) * Pow2(-pow2) <= ScalarBits(t) < (ScalarBits(r.value) + 1) * Pow2(-pow2)
  {
    if !IsIntegral(t) || ScaledWidth(ScalarBits(t), pow2) == 0 then None
    else
      var w := ScaledWidth(ScalarBits(t), pow2);
      if t.Int? then Some(Int(w)) else Some(Vector(Int(w), t.count))
  }

  /** Widening by 2^p and then narrowing by 2^p gives the type back. */
  lemma ScaleTypeRoundTrip(t: IrType, p: nat)
    requires IsIntegral(t) && ScalarBits(t) > 0
    ensures ScaleType(t, p).Some?
    ensures ScaleType(ScaleType(t, p).value, -(p as int)) == Some(t)
  {
    var w := ScalarBits(t);
    var up := ScaleType(t, p).value;
    assert ScalarBits(up) == w * Pow2(p);
    DivModUnique(w * Pow2(p), Pow2(p), w, 0);
    assert ScaledWidth(ScalarBits(up), -(p as int)) == w;
  }

  /** Scaling by 2^a and then by 2^b is scaling by 2^(a+b). */
  lemma ScaleTypeCompose(t: IrType, a: nat, b: nat)
    requires IsIntegral(t) && ScalarBits(t) > 0
    ensures ScaleType(t, a).Some?
    ensures ScaleType(ScaleType(t, a).value, b) == ScaleType(t, a + b)
  {
    var w := ScalarBits(t);
    Pow2Add(a, b);
    assert w * Pow2(a) * Pow2(b) == w * Pow2(a + b);
  }
}
