/** Integer IR values as the translator sees them at run time: a fixed number
    of bits, each of which is known (zero or one) or undefined, the way an
    `undef` operand of the intermediate representation is. Bit 0 is the least
    significant bit. */
module Bits {

  datatype Bit = Zero | One | Undef

  /** An integer value of width |v|, least significant bit first. */
  type Value = seq<Bit>

  function FromBool(b: bool): Bit {
    if b then One else Zero
  }

  predicate Defined(v: Value) {
    forall i :: 0 <= i < |v| ==> v[i] != Undef
  }

  /** `width` copies of one bit: the zero or sign fill of an extension, or
      (of `Undef`) the undefined value of that width. */
  function Fill(width: nat, b: Bit): (v: Value)
    ensures |v| == width && forall i :: 0 <= i < width ==> v[i] == b
  {
    seq(width, _ => b)
  }

  /** One-bit OR as the IR evaluates it: a known one wins over anything,
      otherwise an undefined operand makes the result undefined. */
  function Or(a: Bit, b: Bit): (r: Bit)
    ensures r == One <==> a == One || b == One
    ensures r == Zero <==> a == Zero && b == Zero
  {
    match (a, b)
    case (One, _) => One
    case (_, One) => One
    case (Zero, Zero) => Zero
    case _ => Undef
  }

  function Pow2(n: nat): (r: nat)
    ensures r >= 1
  {
    if n == 0 then 1 else 2 * Pow2(n - 1)
  }

  function BitValue(b: Bit): nat
    requires b != Undef
  {
    if b == One then 1 else 0
  }

  /** The unsigned number a defined value denotes. */
  function ToNat(v: Value): (n: nat)
    requires Defined(v)
    ensures n < Pow2(|v|)
  {
    if |v| == 0 then 0 else BitValue(v[0]) + 2 * ToNat(v[1..])
  }

  /** The two's-complement number a defined value denotes. */
  function ToInt(v: Value): int
    requires Defined(v) && |v| > 0
  {
    if v[|v| - 1] == One then ToNat(v) - Pow2(|v|) else ToNat(v)
  }

  lemma {:induction false} Pow2Add(a: nat, b: nat)
    ensures Pow2(a + b) == Pow2(a) * Pow2(b)
  {
    if a > 0 {
      Pow2Add(a - 1, b);
      assert Pow2(a + b) == 2 * Pow2(a - 1 + b);
    }
  }

  /** Euclidean division is determined by quotient and remainder. */
  lemma DivModUnique(x: nat, m: nat, q: nat, r: nat)
    requires 0 < m && r < m && x == q * m + r
    ensures x / m == q && x % m == r
  {
    var q', r' := x / m, x % m;
    assert x == q' * m + r';
    if q' < q {
      assert (q - q') * m >= m by { MulAtLeast(q - q', m); }
      assert false;
    } else if q' > q {
      assert (q' - q) * m >= m by { MulAtLeast(q' - q, m); }
      assert false;
    }
  }

  lemma Distribute(lo: nat, p: nat, hi: nat)
    ensures 2 * (lo + p * hi) == 2 * lo + (2 * p) * hi
  {
  }

  lemma MulDistribRight(a: int, b: int, c: int)
    ensures (a + b) * c == a * c + b * c
  {
  }

  lemma MulAssoc(a: int, b: int, c: int)
    ensures (a * b) * c == a * (b * c)
  {
  }

  lemma MulStrictMono(a: nat, b: nat, c: nat)
    requires a < b && c > 0
    ensures a * c < b * c
  {
  }

  lemma MulSubOne(a: int, b: int)
    ensures a * (b - 1) == a * b - a
  {
  }

  lemma MulAtLeast(k: nat, m: nat)
    requires k >= 1
    ensures k * m >= m
  {
  }

  /** Concatenating values places the second above the first. */
  lemma {:induction false} ToNatAppend(a: Value, b: Value)
    requires Defined(a) && Defined(b)
    ensures Defined(a + b)
    ensures ToNat(a + b) == ToNat(a) + Pow2(|a|) * ToNat(b)
  {
    if |a| > 0 {
      assert (a + b)[1..] == a[1..] + b;
      ToNatAppend(a[1..], b);
      assert ToNat(a + b) == BitValue(a[0]) + 2 * ToNat(a[1..] + b);
      Distribute(ToNat(a[1..]), Pow2(|a| - 1), ToNat(b));
    } else {
      assert a + b == b;
    }
  }

  /** The low k bits of a value denote its remainder modulo 2^k, the rest its
      quotient. */
  lemma SplitValue(v: Value, k: nat)
    requires Defined(v) && k <= |v|
    ensures Defined(v[..k]) && Defined(v[k..])
    ensures ToNat(v[..k]) == ToNat(v) % Pow2(k)
    ensures ToNat(v[k..]) == ToNat(v) / Pow2(k)
  {
    var lo, hi := v[..k], v[k..];
    assert v == lo + hi;
    ToNatAppend(lo, hi);
    assert Pow2(k) * ToNat(hi) == ToNat(hi) * Pow2(k);
    DivModUnique(ToNat(v), Pow2(k), ToNat(hi), ToNat(lo));
  }

  lemma {:induction false} ToNatZeros(n: nat)
    ensures Defined(Fill(n, Zero)) && ToNat(Fill(n, Zero)) == 0
  {
    if n > 0 {
      assert Fill(n, Zero)[1..] == Fill(n - 1, Zero);
      ToNatZeros(n - 1);
    }
  }

  lemma {:induction false} ToNatOnes(n: nat)
    ensures Defined(Fill(n, One)) && ToNat(Fill(n, One)) == Pow2(n) - 1
  {
    if n > 0 {
      assert Fill(n, One)[1..] == Fill(n - 1, One);
      ToNatOnes(n - 1);
    }
  }

  /** Two defined values of one width that denote the same number are equal. */
  lemma {:induction false} ToNatInjective(a: Value, b: Value)
    requires Defined(a) && Defined(b) && |a| == |b|
    requires ToNat(a) == ToNat(b)
    ensures a == b
  {
    if |a| > 0 {
      assert a[0] == b[0];
      ToNatInjective(a[1..], b[1..]);
      assert a == [a[0]] + a[1..];
      assert b == [b[0]] + b[1..];
    }
  }

  /** The top bit of a defined value is set exactly when it denotes at least
      2^(w-1), so ToInt ranges over [-2^(w-1), 2^(w-1)). */
  lemma ToIntRange(v: Value)
    requires Defined(v) && |v| > 0
    ensures -(Pow2(|v| - 1) as int) <= ToInt(v) < Pow2(|v| - 1)
  {
    var w := |v|;
    SplitValue(v, w - 1);
    assert v[w - 1..] == [v[w - 1]];
    assert ToNat(v[w - 1..]) == BitValue(v[w - 1]);
    assert ToNat(v) == ToNat(v[..w - 1]) + Pow2(w - 1) * BitValue(v[w - 1]) by {
      assert v == v[..w - 1] + v[w - 1..];
      ToNatAppend(v[..w - 1], v[w - 1..]);
    }
  }

  /** Two defined values of one width that denote the same signed number are
      equal. */
  lemma ToIntInjective(a: Value, b: Value)
    requires Defined(a) && Defined(b) && |a| == |b| > 0
    requires ToInt(a) == ToInt(b)
    ensures a == b
  {
    assert ToNat(a) == ToNat(b) by {
      ToIntRange(a);
      ToIntRange(b);
      ToNatRangeByTopBit(a);
      ToNatRangeByTopBit(b);
    }
    ToNatInjective(a, b);
  }

  lemma ToNatRangeByTopBit(v: Value)
    requires Defined(v) && |v| > 0
    ensures v[|v| - 1] == One <==> ToNat(v) >= Pow2(|v| - 1)
  {
    var w := |v|;
    assert v == v[..w - 1] + v[w - 1..];
    assert v[w - 1..] == [v[w - 1]];
    ToNatAppend(v[..w - 1], v[w - 1..]);
  }
}
