/** Bytes, powers of two, division facts and the two bit orders used by the coders.
    Machine words are natural numbers.  Shifts, masks and `or` are defined one bit at a
    time; ShlIsProduct, ShrIsQuotient and LowIsRemainder tie them to arithmetic. */
module Bits {

  type byte = x: nat | x < 256

  datatype Option<+T> = None | Some(value: T)

  function Pow2(n: nat): (r: nat)
    ensures r > 0
  {
    if n == 0 then 1 else 2 * Pow2(n - 1)
  }

  lemma {:induction false} Pow2Add(a: nat, b: nat)
    ensures Pow2(a + b) == Pow2(a) * Pow2(b)
    ensures Pow2(a) <= Pow2(a + b)
  {
    if a == 0 {
      assert Pow2(0) == 1;
    } else {
      Pow2Add(a - 1, b);
      assert Pow2(a) * Pow2(b) == 2 * (Pow2(a - 1) * Pow2(b));
    }
  }

  lemma {:induction false} Pow2Mono(a: nat, b: nat)
    requires a <= b
    ensures Pow2(a) <= Pow2(b)
    decreases b
  {
    if a < b {
      Pow2Mono(a, b - 1);
    }
  }

  lemma Pow2Of32()
    ensures Pow2(8) == 256 && Pow2(24) == 0x100_0000 && Pow2(32) == 0x1_0000_0000
  {
    assert Pow2(8) == 256;
    Pow2Add(8, 8);
    Pow2Add(16, 8);
    Pow2Add(24, 8);
  }

  // ---- division ---------------------------------------------------------------------

  lemma MulMono(a: int, b: int, k: int)
    requires a <= b && 0 <= k
    ensures a * k <= b * k
  {
  }

  /** Quotient and remainder are determined by one decomposition. */
  lemma DivModUnique(x: int, k: int, q: int, r: int)
    requires k > 0 && 0 <= r < k && x == q * k + r
    ensures x / k == q && x % k == r
  {
    var d := x / k - q;
    assert (x / k) * k - q * k == d * k;
    if d > 0 {
      MulMono(1, d, k);
    } else if d < 0 {
      MulMono(d, -1, k);
    }
  }

  lemma DivBounds(x: nat, k: nat, lo: nat, hi: nat)
    requires k > 0 && lo * k <= x < hi * k
    ensures lo <= x / k < hi
  {
    var q := x / k;
    assert x == q * k + x % k;
    if q < lo {
      MulMono(q + 1, lo, k);
    }
    if q >= hi {
      MulMono(hi, q, k);
    }
  }

  lemma DivNonneg(x: nat, k: nat)
    requires k > 0
    ensures x / k >= 0
  {
  }

  /** x / (a * b) taken in two steps. */
  lemma DivDiv(x: nat, a: nat, b: nat)
    requires a > 0 && b > 0
    ensures a * b > 0 && x / a / b == x / (a * b)
    ensures x % (a * b) == x / a % b * a + x % a
  {
    var q, r := x / a, x % a;
    DivNonneg(x, a);
    var qq, rr := q / b, q % b;
    assert x == q * a + r && q == qq * b + rr;
    TwoDigits(a, b, qq, rr, r);
    DivModUnique(x, a * b, qq, rr * a + r);
  }

  lemma TwoDigits(a: nat, b: nat, high: int, middle: nat, low: nat)
    requires middle < b && low < a
    ensures (high * b + middle) * a + low == high * (a * b) + (middle * a + low)
    ensures 0 <= middle * a + low < a * b
  {
    assert (high * b + middle) * a == high * b * a + middle * a;
    assert high * b * a == high * (a * b);
    MulMono(middle, b - 1, a);
    MulMono(0, middle, a);
    assert (b - 1) * a == a * b - a;
  }

  // ---- shifts and masks ---------------------------------------------------------------

  function Shl(v: nat, k: nat): nat
  {
    if k == 0 then v else 2 * Shl(v, k - 1)
  }

  function Shr(v: nat, k: nat): nat
  {
    if k == 0 then v else Shr(v / 2, k - 1)
  }

  /** The low k bits of v as a number. */
  function Low(v: nat, k: nat): nat
  {
    if k == 0 then 0 else v % 2 + 2 * Low(v / 2, k - 1)
  }

  /** Left shift of a uint32: high bits are lost. */
  function Shl32(v: nat, k: nat): nat
  {
    Low(Shl(v, k), 32)
  }

  /** The bit-by-bit operations are the usual product, quotient and remainder. */
  lemma {:induction false} ShlIsProduct(v: nat, k: nat)
    ensures Shl(v, k) == v * Pow2(k)
  {
    if k > 0 {
      ShlIsProduct(v, k - 1);
      assert v * Pow2(k) == 2 * (v * Pow2(k - 1));
    }
  }

  lemma {:induction false} ShrIsQuotient(v: nat, k: nat)
    ensures Shr(v, k) == v / Pow2(k)
    decreases k
  {
    if k > 0 {
      ShrIsQuotient(v / 2, k - 1);
      DivDiv(v, 2, Pow2(k - 1));
    }
  }

  lemma {:induction false} LowIsRemainder(v: nat, k: nat)
    ensures Low(v, k) == v % Pow2(k)
    decreases k
  {
    if k > 0 {
      LowIsRemainder(v / 2, k - 1);
      DivDiv(v, 2, Pow2(k - 1));
    }
  }

  lemma {:induction false} ShlZero(k: nat)
    ensures Shl(0, k) == 0
  {
    if k > 0 {
      ShlZero(k - 1);
    }
  }

  lemma {:induction false} LowBound(v: nat, k: nat)
    ensures Low(v, k) < Pow2(k)
    ensures v < Pow2(k) ==> Low(v, k) == v
    decreases k
  {
    if k > 0 {
      LowBound(v / 2, k - 1);
    }
  }

  lemma {:induction false} ShlBound(v: nat, k: nat, m: nat)
    requires v < Pow2(m)
    ensures Shl(v, k) + Pow2(k) <= Pow2(m + k)
    decreases k
  {
    if k > 0 {
      ShlBound(v, k - 1, m);
    }
  }

  lemma {:induction false} ShlHalf(v: nat, k: nat)
    ensures Shl(v, k + 1) / 2 == Shl(v, k) && Shl(v, k + 1) % 2 == 0
    ensures Shl(2 * v, k) == Shl(v, k + 1)
    decreases k
  {
    if k > 0 {
      ShlHalf(v, k - 1);
    }
  }

  /** Shifting a word to its top drops the bits above. */
  lemma {:induction false} LowOfShl(v: nat, k: nat, n: nat)
    ensures Low(Shl(v, k), k + n) == Shl(Low(v, n), k)
    decreases k
  {
    if k > 0 {
      ShlHalf(v, k - 1);
      LowOfShl(v, k - 1, n);
    }
  }

  lemma Shl32Fits(v: nat, k: nat, m: nat)
    requires v < Pow2(m) && m + k <= 32
    ensures Shl32(v, k) == Shl(v, k) < Pow2(m + k)
  {
    ShlBound(v, k, m);
    Pow2Mono(m + k, 32);
    LowBound(Shl(v, k), 32);
  }

  // ---- most significant bit first ------------------------------------------------

  /** The low n bits of v, most significant first. */
  function Msb(v: nat, n: nat): (r: seq<bool>)
    ensures |r| == n
  {
    if n == 0 then [] else Msb(v / 2, n - 1) + [v % 2 == 1]
  }

  function MsbValue(b: seq<bool>): nat
  {
    if b == [] then 0 else 2 * MsbValue(b[..|b| - 1]) + (if b[|b| - 1] then 1 else 0)
  }

  lemma MsbValuePush(b: seq<bool>, bit: bool)
    ensures MsbValue(b + [bit]) == 2 * MsbValue(b) + if bit then 1 else 0
  {
    assert (b + [bit])[..|b|] == b;
  }

  lemma {:induction false} MsbValueOf(v: nat, n: nat)
    ensures MsbValue(Msb(v, n)) == Low(v, n)
  {
    if n > 0 {
      MsbValueOf(v / 2, n - 1);
      MsbValuePush(Msb(v / 2, n - 1), v % 2 == 1);
    }
  }

  lemma {:induction false} MsbValueBound(b: seq<bool>)
    ensures MsbValue(b) < Pow2(|b|)
    ensures Msb(MsbValue(b), |b|) == b
  {
    if b != [] {
      var p := b[..|b| - 1];
      MsbValueBound(p);
      assert b == p + [b[|b| - 1]];
    }
  }

  lemma {:induction false} MsbSplit(v: nat, w: nat, m: nat, n: nat)
    requires w < Pow2(n)
    ensures Msb(Shl(v, n) + w, m + n) == Msb(v, m) + Msb(w, n)
    decreases n
  {
    if n == 0 {
      assert Msb(v, m) + Msb(w, 0) == Msb(v, m);
    } else {
      MsbSplit(v, w / 2, m, n - 1);
      assert Msb(v, m) + Msb(w, n) == (Msb(v, m) + Msb(w / 2, n - 1)) + [w % 2 == 1];
    }
  }

  /** The high part of v is v shifted down. */
  lemma {:induction false} MsbTop(v: nat, m: nat, n: nat)
    ensures Msb(v, m + n) == Msb(Shr(v, n), m) + Msb(v, n)
    decreases n
  {
    if n == 0 {
      assert Msb(v, m) + [] == Msb(v, m);
    } else {
      MsbTop(v / 2, m, n - 1);
      assert Msb(v, m + n) == (Msb(Shr(v / 2, n - 1), m) + Msb(v / 2, n - 1)) + [v % 2 == 1];
    }
  }

  /** Only the low n bits of v matter. */
  lemma {:induction false} MsbLow(v: nat, n: nat)
    ensures Msb(Low(v, n), n) == Msb(v, n)
  {
    if n > 0 {
      MsbLow(v / 2, n - 1);
    }
  }

  // ---- least significant bit first -----------------------------------------------

  /** The low n bits of v, least significant first. */
  function Lsb(v: nat, n: nat): (r: seq<bool>)
    ensures |r| == n
  {
    if n == 0 then [] else [v % 2 == 1] + Lsb(v / 2, n - 1)
  }

  function LsbValue(b: seq<bool>): nat
  {
    if b == [] then 0 else (if b[0] then 1 else 0) + 2 * LsbValue(b[1..])
  }

  lemma {:induction false} LsbValueOf(v: nat, n: nat)
    ensures LsbValue(Lsb(v, n)) == Low(v, n)
  {
    if n > 0 {
      LsbValueOf(v / 2, n - 1);
      assert Lsb(v, n)[1..] == Lsb(v / 2, n - 1);
    }
  }

  lemma {:induction false} LsbValueBound(b: seq<bool>)
    ensures LsbValue(b) < Pow2(|b|)
    ensures Lsb(LsbValue(b), |b|) == b
  {
    if b != [] {
      LsbValueBound(b[1..]);
    }
  }

  /** Low part first: w occupies the first m positions, v the next n. */
  lemma {:induction false} LsbSplit(w: nat, v: nat, m: nat, n: nat)
    requires w < Pow2(m)
    ensures Lsb(w + Shl(v, m), m + n) == Lsb(w, m) + Lsb(v, n)
    decreases m
  {
    if m == 0 {
      assert Lsb(w, 0) + Lsb(v, n) == Lsb(v, n);
    } else {
      ShlHalf(v, m - 1);
      LsbSplit(w / 2, v, m - 1, n);
      assert Lsb(w, m) + Lsb(v, n) == [w % 2 == 1] + (Lsb(w / 2, m - 1) + Lsb(v, n));
    }
  }

  lemma {:induction false} LsbAt(v: nat, n: nat, j: nat)
    requires j < n
    ensures Lsb(v, n)[j] <==> Shr(v, j) % 2 == 1
    decreases j
  {
    if j > 0 {
      LsbAt(v / 2, n - 1, j - 1);
    }
  }

  lemma {:induction false} LsbDrop(v: nat, off: nat, n: nat)
    ensures Lsb(v, off + n)[off..] == Lsb(Shr(v, off), n)
    ensures Lsb(v, off + n)[..off] == Lsb(v, off)
    decreases off
  {
    if off > 0 {
      LsbDrop(v / 2, off - 1, n);
      assert Lsb(v, off + n) == [v % 2 == 1] + Lsb(v / 2, off - 1 + n);
    }
  }

  lemma LsbLow(v: nat, n: nat)
    ensures Lsb(Low(v, n), n) == Lsb(v, n)
  {
    LsbValueBound(Lsb(v, n));
    LsbValueOf(v, n);
  }

  /** Shifting right drops the first positions. */
  lemma {:induction false} LsbValueDrop(a: seq<bool>, b: seq<bool>)
    ensures Shr(LsbValue(a + b), |a|) == LsbValue(b)
  {
    if a == [] {
      assert a + b == b;
    } else {
      LsbValueDrop(a[1..], b);
      assert (a + b)[1..] == a[1..] + b;
    }
  }

  // ---- or -----------------------------------------------------------------------------

  /** Bitwise or on natural numbers. */
  function Or(a: nat, b: nat): nat
    decreases a + b
  {
    if a == 0 then b
    else if b == 0 then a
    else 2 * Or(a / 2, b / 2) + (if a % 2 == 1 || b % 2 == 1 then 1 else 0)
  }

  /** With disjoint bit ranges, or is addition. */
  lemma {:induction false} OrDisjoint(a: nat, b: nat, k: nat)
    requires b < Pow2(k)
    ensures Or(Shl(a, k), b) == Shl(a, k) + b
    ensures Or(b, Shl(a, k)) == Shl(a, k) + b
    decreases k
  {
    if k > 0 {
      ShlHalf(a, k - 1);
      OrDisjoint(a, b / 2, k - 1);
    }
  }

  // ---- 32-bit words as bit sequences -----------------------------------------------------

  const WORD: nat := 0x1_0000_0000

  function Zeros(n: nat): (r: seq<bool>)
    ensures |r| == n
  {
    seq(n, _ => false)
  }

  lemma {:induction false} MsbZero(n: nat)
    ensures Msb(0, n) == Zeros(n)
  {
    if n > 0 {
      MsbZero(n - 1);
    }
  }

  lemma {:induction false} ShrBound(v: nat, k: nat, m: nat)
    requires v < Pow2(m + k)
    ensures Shr(v, k) < Pow2(m)
    decreases k
  {
    if k > 0 {
      ShrBound(v / 2, k - 1, m);
    }
  }

  lemma MsbShl32(v: nat, k: nat)
    requires k <= 32
    ensures Msb(Shl32(v, k), 32) == Msb(v, 32)[k..] + Zeros(k)
    ensures Shl32(v, k) < WORD
  {
    Pow2Of32();
    LowBound(Shl(v, k), 32);
    MsbLow(Shl(v, k), 32);
    MsbSplit(v, 0, 32 - k, k);
    MsbTop(v, k, 32 - k);
    MsbZero(k);
  }

  lemma MsbShr(v: nat, k: nat)
    requires k <= 32 && v < WORD
    ensures Msb(Shr(v, k), 32) == Zeros(k) + Msb(v, 32)[..32 - k]
    ensures Shr(v, k) < WORD
  {
    ShrLe(v, k);
    Pow2Of32();
    MsbTop(v, 32, k);
    MsbTop(v, k, 32);
    assert Pow2(0) == 1;
    ShrBound(v, 32, 0);
    MsbZero(k);
    assert Msb(Shr(v, k), 32) == Msb(v, 32 + k)[..32];
  }

  lemma {:induction false} ShrLe(v: nat, k: nat)
    ensures Shr(v, k) <= v
    decreases k
  {
    if k > 0 {
      ShrLe(v / 2, k - 1);
    }
  }

  lemma MsbOr32(a: nat, b: nat)
    requires a < WORD && b < WORD
    ensures forall i :: 0 <= i < 32 ==> (Msb(Or(a, b), 32)[i] <==> Msb(a, 32)[i] || Msb(b, 32)[i])
    ensures Or(a, b) < WORD
  {
    Pow2Of32();
    MsbOr(a, b, 32);
  }

  lemma {:induction false} MsbOr(a: nat, b: nat, n: nat)
    ensures forall i :: 0 <= i < n ==> (Msb(Or(a, b), n)[i] <==> Msb(a, n)[i] || Msb(b, n)[i])
    ensures a < Pow2(n) && b < Pow2(n) ==> Or(a, b) < Pow2(n)
  {
    if n > 0 {
      OrHalf(a, b);
      MsbOr(a / 2, b / 2, n - 1);
    } else {
      assert Pow2(0) == 1;
    }
  }

  lemma OrHalf(a: nat, b: nat)
    ensures Or(a, b) / 2 == Or(a / 2, b / 2)
    ensures Or(a, b) % 2 == 1 <==> a % 2 == 1 || b % 2 == 1
  {
  }

  /** Bits needed for a number, at least one. */
  function BitLength(v: nat): (n: nat)
    ensures n >= 1
  {
    if v < 2 then 1 else 1 + BitLength(v / 2)
  }

  lemma {:induction false} BitLengthFits(v: nat)
    ensures v < Pow2(BitLength(v))
    decreases v
  {
    if v < 2 {
      assert Pow2(1) == 2;
    } else {
      BitLengthFits(v / 2);
    }
  }

  lemma {:induction false} BitLengthBound(v: nat, n: nat)
    requires v < Pow2(n) && n >= 1
    ensures BitLength(v) <= n
    decreases n
  {
    if v >= 2 {
      assert n > 1 by { assert Pow2(1) == 2; }
      BitLengthBound(v / 2, n - 1);
    }
  }

  /** Division as Go has it, rounding toward zero. */
  function TruncDiv(a: int, b: int): int
    requires b != 0
  {
    if a >= 0 then a / b else -((-a) / b)
  }

  lemma TruncMultiple(k: nat, x: int)
    requires 0 < k
    ensures TruncDiv(k * x, k) == x
  {
    if x >= 0 {
      DivModUnique(k * x, k, x, 0);
    } else {
      DivModUnique(k * -x, k, -x, 0);
    }
  }
}
