/** Width changes of integer values: sign and zero extension, truncation
    (`SExt`, `ZExt`, `Trunc`, with their array forms), `DuplicateExt`, and the
    lane views of a 128-bit vector register (`GetVr`'s lane types, `Solid`). */
module Widths {
  import opened Wrappers
  import opened Bits
  import opened IrTypes

  /** The width an extension produces: the requested one, or double the
      argument's when no type is given. */
  function ExtWidth(w: nat, ty: Option<nat>): nat {
    if ty.Some? then ty.value else 2 * w
  }

  /** The width a truncation produces: the requested one, or half the
      argument's when no type is given. */
  function TruncWidth(w: nat, ty: Option<nat>): nat {
    if ty.Some? then ty.value else w / 2
  }

  /** An extension is well-typed when it goes from a non-empty value to a type
      at least as wide (an extension to the same type gives the value back). */
  predicate ExtAllowed(v: Value, ty: Option<nat>) {
    |v| > 0 && ExtWidth(|v|, ty) >= |v|
  }

  predicate TruncAllowed(v: Value, ty: Option<nat>) {
    0 < TruncWidth(|v|, ty) <= |v|
  }

  /** Sign extension: the new high bits copy the sign bit. */
  function SExt(v: Value, ty: Option<nat> := None): (r: Value)
    requires ExtAllowed(v, ty)
    ensures |r| == ExtWidth(|v|, ty) && r[..|v|] == v
  {
    v + Fill(ExtWidth(|v|, ty) - |v|, v[|v| - 1])
  }

  /** Zero extension: the new high bits are zero. */
  function ZExt(v: Value, ty: Option<nat> := None): (r: Value)
    requires ExtAllowed(v, ty)
    ensures |r| == ExtWidth(|v|, ty) && r[..|v|] == v
  {
    v + Fill(ExtWidth(|v|, ty) - |v|, Zero)
  }

  /** Truncation keeps the low bits. */
  function Trunc(v: Value, ty: Option<nat> := None): (r: Value)
    requires TruncAllowed(v, ty)
    ensures |r| == TruncWidth(|v|, ty) && forall i :: 0 <= i < |r| ==> r[i] == v[i]
  {
    v[..TruncWidth(|v|, ty)]
  }

  /** Extension to double width whose high half is a copy of the value. */
  function DuplicateExt(v: Value): (r: Value)
    ensures |r| == 2 * |v|
  {
    v + v
  }

  /** Sign extension keeps the signed number, and the result has the
      requested width with the argument as its low part. */
  lemma SExtValue(v: Value, ty: Option<nat>)
    requires ExtAllowed(v, ty)
    ensures |SExt(v, ty)| == ExtWidth(|v|, ty) && SExt(v, ty)[..|v|] == v
    ensures Defined(v) ==> Defined(SExt(v, ty)) && ToInt(SExt(v, ty)) == ToInt(v)
  {
    var w, k := |v|, ExtWidth(|v|, ty) - |v|;
    var r := SExt(v, ty);
    assert r[..w] == v;
    if Defined(v) && k > 0 {
      SignFillValue(v, k);
    } else if k == 0 {
      assert r == v;
    }
  }

  /** Appending k > 0 copies of the sign bit keeps the signed number. */
  lemma SignFillValue(v: Value, k: nat)
    requires Defined(v) && |v| > 0 && k > 0
    ensures Defined(v + Fill(k, v[|v| - 1]))
    ensures ToInt(v + Fill(k, v[|v| - 1])) == ToInt(v)
  {
    var w, s := |v|, v[|v| - 1];
    var f := Fill(k, s);
    var r := v + f;
    assert |r| == w + k && r[|r| - 1] == s;
    ToNatAppend(v, f);
    if s == One {
      ToNatOnes(k);
      Pow2Add(w, k);
      SignFillOne(ToNat(v), ToNat(r), Pow2(w), Pow2(k), Pow2(w + k));
    } else {
      ToNatZeros(k);
      assert ToNat(r) == ToNat(v) + Pow2(w) * 0;
    }
  }

  /** x + a(b - 1) - ab = x - a: the arithmetic of a one-filled extension. */
  lemma SignFillOne(x: int, y: int, a: int, b: int, ab: int)
    requires y == x + a * (b - 1) && ab == a * b
    ensures y - ab == x - a
  {
    MulSubOne(a, b);
  }

  /** Zero extension keeps the unsigned number. */
  lemma ZExtValue(v: Value, ty: Option<nat>)
    requires ExtAllowed(v, ty)
    ensures |ZExt(v, ty)| == ExtWidth(|v|, ty) && ZExt(v, ty)[..|v|] == v
    ensures Defined(v) ==> Defined(ZExt(v, ty)) && ToNat(ZExt(v, ty)) == ToNat(v)
  {
    var k := ExtWidth(|v|, ty) - |v|;
    assert ZExt(v, ty)[..|v|] == v;
    if Defined(v) {
      ToNatZeros(k);
      ToNatAppend(v, Fill(k, Zero));
    }
  }

  /** Truncation to w bits reduces the unsigned number modulo 2^w. */
  lemma TruncValue(v: Value, ty: Option<nat>)
    requires TruncAllowed(v, ty)
    ensures |Trunc(v, ty)| == TruncWidth(|v|, ty)
    ensures Defined(v) ==>
              Defined(Trunc(v, ty)) && ToNat(Trunc(v, ty)) == ToNat(v) % Pow2(TruncWidth(|v|, ty))
  {
    if Defined(v) {
      SplitValue(v, TruncWidth(|v|, ty));
    }
  }

  /** Without a type argument an extension doubles the width and a
      truncation halves it, i.e. both follow `ScaleType` by 2^1 and 2^-1; so
      truncating a default extension gives the value back. */
  lemma DefaultWidths(v: Value)
    requires |v| > 0
    ensures ScaleType(Int(|v|), 1) == Some(Int(|SExt(v)|))
    ensures ScaleType(Int(|v|), 1) == Some(Int(|ZExt(v)|))
    ensures |v| >= 2 ==> ScaleType(Int(|v|), -1) == Some(Int(|Trunc(v)|))
    ensures Trunc(SExt(v)) == v && Trunc(ZExt(v)) == v
  {
    assert Pow2(1) == 2;
    assert Trunc(SExt(v)) == SExt(v)[..|v|];
    assert Trunc(ZExt(v)) == ZExt(v)[..|v|];
  }

  /** Both halves of `DuplicateExt(v)` are v, so the number it denotes is
      v + 2^w * v. */
  lemma DuplicateExtValue(v: Value)
    requires |v| > 0
    ensures |DuplicateExt(v)| == 2 * |v|
    ensures Trunc(DuplicateExt(v)) == v && DuplicateExt(v)[|v|..] == v
    ensures Defined(v) ==>
              Defined(DuplicateExt(v)) && ToNat(DuplicateExt(v)) == ToNat(v) + Pow2(|v|) * ToNat(v)
  {
    var d := DuplicateExt(v);
    assert d[..|v|] == v && d[|v|..] == v;
    assert TruncWidth(|d|, None) == |v|;
    if Defined(v) {
      ToNatAppend(v, v);
    }
  }

  /** The array form of `SExt`: extends every element of a copy in place and
      returns the copy. */
  method SExtAll(values: seq<Value>, ty: Option<nat> := None) returns (r: seq<Value>)
    requires forall i :: 0 <= i < |values| ==> ExtAllowed(values[i], ty)
    ensures |r| == |values|
    ensures forall i :: 0 <= i < |r| ==> r[i] == SExt(values[i], ty)
    ensures forall i :: 0 <= i < |r| && Defined(values[i]) && ExtAllowed(values[i], ty) ==>
      |r[i]| == ExtWidth(|values[i]|, ty) && Defined(r[i]) && ToInt(r[i]) == ToInt(values[i])
  {
    var a := new Value[|values|](i requires 0 <= i < |values| => values[i]);
    for i := 0 to a.Length
      invariant forall j :: 0 <= j < i ==> a[j] == SExt(values[j], ty)
      invariant forall j :: i <= j < a.Length ==> a[j] == values[j]
    {
      a[i] := SExt(a[i], ty);
    }
    r := a[..];
    forall i | 0 <= i < |r| && Defined(values[i]) && ExtAllowed(values[i], ty)
      ensures |r[i]| == ExtWidth(|values[i]|, ty) && Defined(r[i]) && ToInt(r[i]) == ToInt(values[i])
    {
      SExtValue(values[i], ty);
    }
  }

  /** The array form of `ZExt`. */
  method ZExtAll(values: seq<Value>, ty: Option<nat> := None) returns (r: seq<Value>)
    requires forall i :: 0 <= i < |values| ==> ExtAllowed(values[i], ty)
    ensures |r| == |values|
    ensures forall i :: 0 <= i < |r| ==> r[i] == ZExt(values[i], ty)
    ensures forall i :: 0 <= i < |r| && Defined(values[i]) ==>
      |r[i]| == ExtWidth(|values[i]|, ty) && Defined(r[i]) && ToNat(r[i]) == ToNat(values[i])
  {
    var a := new Value[|values|](i requires 0 <= i < |values| => values[i]);
    for i := 0 to a.Length
      invariant forall j :: 0 <= j < i ==> a[j] == ZExt(values[j], ty)
      invariant forall j :: i <= j < a.Length ==> a[j] == values[j]
    {
      a[i] := ZExt(a[i], ty);
    }
    r := a[..];
    forall i | 0 <= i < |r| && Defined(values[i])
      ensures |r[i]| == ExtWidth(|values[i]|, ty) && Defined(r[i]) && ToNat(r[i]) == ToNat(values[i])
    {
      ZExtValue(values[i], ty);
    }
  }

  /** The lane types a vector register is read as. */
  datatype VrType = Vi8 | Vi16 | Vi32 | Vf | I128

  function LaneBits(t: VrType): nat {
    match t
    case Vi8 => 8
    case Vi16 => 16
    case Vi32 | Vf => 32
    case I128 => 128
  }

  function LaneCount(t: VrType): nat {
    128 / LaneBits(t)
  }

  /** Bit-casts a value of n * lw bits to n lanes of lw bits; lane 0 holds the
      least significant bits. */
  function Split(v: Value, lw: nat, n: nat): (lanes: seq<Value>)
    requires |v| == n * lw
    ensures |lanes| == n && forall k :: 0 <= k < n ==> |lanes[k]| == lw
  {
    if n == 0 then [] else [v[..lw]] + Split(v[lw..], lw, n - 1)
  }

  /** Bit-casts lanes back to one integer value (the source's `Solid`). */
  function Solid(lanes: seq<Value>): (v: Value)
    ensures |lanes| > 0 ==> |lanes[0]| <= |v| && v[..|lanes[0]|] == lanes[0]
  {
    if |lanes| == 0 then [] else lanes[0] + Solid(lanes[1..])
  }

  /** Lane k of a split value is bits k*lw .. (k+1)*lw of it. */
  lemma {:induction false} SplitLane(v: Value, lw: nat, n: nat, k: nat)
    requires |v| == n * lw && k < n
    ensures k * lw + lw <= |v| && Split(v, lw, n)[k] == v[k * lw .. k * lw + lw]
  {
    if k > 0 {
      SplitLane(v[lw..], lw, n - 1, k - 1);
      assert (k - 1) * lw + lw == k * lw;
    }
  }

  /** Joining the lanes of a split gives the value back. */
  lemma {:induction false} SolidSplit(v: Value, lw: nat, n: nat)
    requires |v| == n * lw
    ensures Solid(Split(v, lw, n)) == v
  {
    if n > 0 {
      var lanes := Split(v, lw, n);
      assert lanes[0] == v[..lw];
      assert lanes[1..] == Split(v[lw..], lw, n - 1);
      SolidSplit(v[lw..], lw, n - 1);
      assert Solid(lanes) == lanes[0] + Solid(lanes[1..]);
      assert v == v[..lw] + v[lw..];
    }
  }

  /** Splitting joined lanes of one width gives the lanes back. */
  lemma {:induction false} SplitSolid(lanes: seq<Value>, lw: nat)
    requires forall k :: 0 <= k < |lanes| ==> |lanes[k]| == lw
    ensures |Solid(lanes)| == |lanes| * lw
    ensures Split(Solid(lanes), lw, |lanes|) == lanes
  {
    if |lanes| > 0 {
      SplitSolid(lanes[1..], lw);
      var s := Solid(lanes);
      assert s == lanes[0] + Solid(lanes[1..]);
      assert s[..lw] == lanes[0];
      assert s[lw..] == Solid(lanes[1..]);
      assert lanes == [lanes[0]] + lanes[1..];
    }
  }
}
