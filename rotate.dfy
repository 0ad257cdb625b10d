/** `RotateLeft` by a constant amount, which must be below the width, and by
    a value, which is first masked to the width. */
module Rotate {
  import opened Bits

  predicate IsPow2(w: nat)
    decreases w
  {
    w == 1 || (w >= 2 && w % 2 == 0 && IsPow2(w / 2))
  }

  /** The number of bits a mask with w - 1 keeps. */
  function Log2(w: nat): (k: nat)
    requires IsPow2(w)
    ensures Pow2(k) == w && k < w
    decreases w
  {
    if w == 1 then 0 else 1 + Log2(w / 2)
  }

  /** Rotation left by n < w: the top n bits come round to the bottom. */
  function RotateLeft(v: Value, n: nat): (r: Value)
    requires n < |v|
    ensures |r| == |v|
    ensures forall i :: 0 <= i < |v| ==> r[i] == v[(i + |v| - n) % |v|]
  {
    var w := |v|;
    var r := v[w - n..] + v[..w - n];
    assert forall i :: 0 <= i < w ==> r[i] == v[(i + w - n) % w] by {
      forall i | 0 <= i < w
        ensures r[i] == v[(i + w - n) % w]
      {
        ModBelow(i + w - n, w);
      }
    }
    r
  }

  lemma ModBelow(x: nat, w: nat)
    requires 0 < w && x < 2 * w
    ensures x % w == if x < w then x else x - w
  {
  }

  /** Rotation left by an amount given as a value: only the low log2(w) bits
      of the amount count, which for a defined amount is rotation by the
      amount modulo the width. An undefined bit in the masked part makes the
      whole result undefined. */
  function RotateLeftBy(v: Value, n: Value): (r: Value)
    requires IsPow2(|v|) && |n| == |v|
    ensures |r| == |v|
    ensures Defined(n[..Log2(|v|)]) ==> r == RotateLeft(v, ToNat(n[..Log2(|v|)]))
    ensures !Defined(n[..Log2(|v|)]) ==> forall i :: 0 <= i < |r| ==> r[i] == Undef
  {
    var k := Log2(|v|);
    if Defined(n[..k]) then RotateLeft(v, ToNat(n[..k])) else Fill(|v|, Undef)
  }

  /** Rotating by a defined amount n is rotating by n mod w, so amounts that
      agree modulo the width rotate alike. */
  lemma RotateLeftByMasks(v: Value, n: Value)
    requires IsPow2(|v|) && |n| == |v| && Defined(n)
    ensures RotateLeftBy(v, n) == RotateLeft(v, ToNat(n) % |v|)
  {
    SplitValue(n, Log2(|v|));
  }

  /** Two rotations add their amounts modulo the width. */
  lemma RotateLeftCompose(v: Value, a: nat, b: nat)
    requires a < |v| && b < |v|
    ensures RotateLeft(RotateLeft(v, a), b) == RotateLeft(v, (a + b) % |v|)
  {
    var w := |v|;
    var lhs, rhs := RotateLeft(RotateLeft(v, a), b), RotateLeft(v, (a + b) % w);
    forall i | 0 <= i < w
      ensures lhs[i] == rhs[i]
    {
      var j := (i + w - b) % w;
      ModBelow(i + w - b, w);
      ModBelow(j + w - a, w);
      ModBelow(a + b, w);
      ModBelow(i + w - (a + b) % w, w);
    }
  }

  /** Rotating by n and then by w - n gives the value back. */
  lemma RotateLeftInverse(v: Value, n: nat)
    requires 0 < n < |v|
    ensures RotateLeft(RotateLeft(v, n), |v| - n) == v
  {
    RotateLeftCompose(v, n, |v| - n);
    ModBelow(|v|, |v|);
    assert v[|v|..] + v[..|v|] == v;
  }

  /** The number a rotation denotes: the argument shifted left by n within
      the width, plus its top n bits brought down. */
  lemma RotateLeftValue(v: Value, n: nat)
    requires Defined(v) && n < |v|
    ensures Defined(RotateLeft(v, n))
    ensures ToNat(RotateLeft(v, n)) == (ToNat(v) * Pow2(n)) % Pow2(|v|) + ToNat(v) / Pow2(|v| - n)
  {
    var w := |v|;
    var lo, hi := v[..w - n], v[w - n..];
    SplitValue(v, w - n);
    assert RotateLeft(v, n) == hi + lo;
    assert |hi| == n;
    ToNatAppend(hi, lo);
    assert (ToNat(v) * Pow2(n)) % Pow2(w) == Pow2(n) * ToNat(lo) by {
      Pow2Add(w - n, n);
      ShiftWithin(ToNat(v), ToNat(lo), ToNat(hi), Pow2(w - n), Pow2(n), Pow2(w));
    }
  }

  /** x = hi * m + lo with lo < m; then (x * p) mod (m * p) = lo * p. */
  lemma ShiftWithin(x: nat, lo: nat, hi: nat, m: nat, p: nat, mp: nat)
    requires m > 0 && p > 0 && mp == m * p
    requires lo == x % m && hi == x / m
    ensures (x * p) % mp == p * lo
  {
    assert x == hi * m + lo;
    MulDistribRight(hi * m, lo, p);
    MulAssoc(hi, m, p);
    assert x * p == hi * mp + lo * p;
    MulStrictMono(lo, m, p);
    DivModUnique(x * p, mp, hi, lo * p);
  }
}
