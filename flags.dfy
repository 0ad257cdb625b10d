/** The condition register's fields and comparisons, sticky status bits, and
    the layout of FPSCR, as the translator keeps them. */
module Flags {
  import opened Bits

  const CR_BITS: nat := 32
  const CR_FIELDS: nat := 8

  /** The four bits of one condition register field, in bit order. */
  datatype CrField = CrField(lt: Bit, gt: Bit, eq: Bit, so: Bit)

  /** Field g of the condition register: bits 4g .. 4g+3. */
  function FieldOf(cr: seq<Bit>, g: nat): CrField
    requires |cr| == CR_BITS && g < CR_FIELDS
  {
    CrField(cr[4 * g], cr[4 * g + 1], cr[4 * g + 2], cr[4 * g + 3])
  }

  /** The condition register with field g replaced by f; the field a bit j
      belongs to is j / 4. */
  function WithField(cr: seq<Bit>, g: nat, f: CrField): (r: seq<Bit>)
    requires |cr| == CR_BITS && g < CR_FIELDS
    ensures |r| == CR_BITS
    ensures FieldOf(r, g) == f
    ensures forall j :: 0 <= j < CR_BITS && j / 4 != g ==> r[j] == cr[j]
  {
    cr[4 * g := f.lt][4 * g + 1 := f.gt][4 * g + 2 := f.eq][4 * g + 3 := f.so]
  }

  /** Writing one field leaves every other field as it was. */
  lemma FieldIndependence(cr: seq<Bit>, g: nat, f: CrField, h: nat)
    requires |cr| == CR_BITS && g < CR_FIELDS && h < CR_FIELDS && h != g
    ensures FieldOf(WithField(cr, g, f), h) == FieldOf(cr, h)
  {
    var r := WithField(cr, g, f);
    assert (4 * h) / 4 == h && (4 * h + 1) / 4 == h;
    assert (4 * h + 2) / 4 == h && (4 * h + 3) / 4 == h;
  }

  /** The less-than, greater-than and equal bits of a comparison. */
  datatype Relation = Relation(lt: Bit, gt: Bit, eq: Bit)

  /** An integer comparison of two values of one width: lt and gt compare the
      numbers the values denote, signed or unsigned, and eq compares the bits.
      A comparison with an undefined bit in either operand is undefined. */
  function Compare(a: Value, b: Value, signed: bool): (r: Relation)
    requires |a| == |b| > 0
    ensures (r.lt == Undef || r.gt == Undef || r.eq == Undef) <==> !(Defined(a) && Defined(b))
  {
    if !(Defined(a) && Defined(b)) then Relation(Undef, Undef, Undef)
    else
      var x: int := if signed then ToInt(a) else ToNat(a);
      var y: int := if signed then ToInt(b) else ToNat(b);
      Relation(FromBool(x < y), FromBool(x > y), FromBool(a == b))
  }

  /** On defined operands exactly one of lt, gt and eq is set, eq exactly when
      the operands are equal and lt exactly when the first is smaller. */
  lemma CompareTrichotomy(a: Value, b: Value, signed: bool)
    requires |a| == |b| > 0 && Defined(a) && Defined(b)
    ensures var r := Compare(a, b, signed);
      && (r.eq == One <==> a == b)
      && (r.lt == One <==> (if signed then ToInt(a) < ToInt(b) else ToNat(a) < ToNat(b)))
      && (r.gt == One <==> (if signed then ToInt(a) > ToInt(b) else ToNat(a) > ToNat(b)))
      && r.lt != Undef && r.gt != Undef && r.eq != Undef
      && BitValue(r.lt) + BitValue(r.gt) + BitValue(r.eq) == 1
  {
    if signed && ToInt(a) == ToInt(b) {
      ToIntInjective(a, b);
    } else if !signed && ToNat(a) == ToNat(b) {
      ToNatInjective(a, b);
    }
  }

  /** A sticky bit after being OR-ed with each event in turn. */
  function Accumulate(b: Bit, events: seq<Bit>): Bit
    decreases |events|
  {
    if |events| == 0 then b else Accumulate(Or(b, events[0]), events[1..])
  }

  /** A sticky bit ends set exactly when it was set or some event was set, and
      ends clear exactly when it was clear and every event was clear. */
  lemma {:induction false} AccumulateSticky(b: Bit, events: seq<Bit>)
    ensures Accumulate(b, events) == One <==>
              b == One || exists i :: 0 <= i < |events| && events[i] == One
    ensures Accumulate(b, events) == Zero <==>
              b == Zero && forall i :: 0 <= i < |events| ==> events[i] == Zero
    decreases |events|
  {
    if |events| > 0 {
      AccumulateSticky(Or(b, events[0]), events[1..]);
      assert forall i :: 1 <= i < |events| ==> events[i] == events[1..][i - 1];
      if Accumulate(b, events) == One && b != One && events[0] != One {
        var i :| 0 <= i < |events| - 1 && events[1..][i] == One;
        assert events[i + 1] == One;
      }
    }
  }

  // FPSCR bit positions, counted from bit 32 of the 64-bit register (FX is
  // bit 32, OX bit 35). FEX (1) and VX (2) are summaries the translator
  // keeps no member for.
  const FPSCR_BITS: nat := 32
  const FX: nat := 0
  const OX: nat := 3
  const UX: nat := 4
  const ZX: nat := 5
  const XX: nat := 6
  const VXSNAN: nat := 7
  const VXISI: nat := 8
  const VXIDI: nat := 9
  const VXZDZ: nat := 10
  const VXIMZ: nat := 11
  const VXVC: nat := 12
  const FR: nat := 13
  const FI: nat := 14
  const FPRF_C: nat := 15
  const FPCC_LT: nat := 16
  const FPCC_GT: nat := 17
  const FPCC_EQ: nat := 18
  const FPCC_UN: nat := 19
  const RESERVED: nat := 20
  const VXSOFT: nat := 21
  const VXSQRT: nat := 22
  const VXCVI: nat := 23
  const VE: nat := 24
  const OE: nat := 25
  const UE: nat := 26
  const ZE: nat := 27
  const XE: nat := 28
  const NI: nat := 29
  const RN_HIGH: nat := 30
  const RN_LOW: nat := 31

  /** The sticky exception bits: OX, UX, ZX, XX, the invalid-operation bits
      VXSNAN .. VXVC, and VXSOFT, VXSQRT, VXCVI. */
  predicate IsExceptionBit(n: nat) {
    OX <= n <= VXVC || VXSOFT <= n <= VXCVI
  }

  /** The bits a read of an FPSCR field resets: FX and the exception bits. */
  predicate ClearedOnRead(n: nat) {
    n == FX || IsExceptionBit(n)
  }
}
