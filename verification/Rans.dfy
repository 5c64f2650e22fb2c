/** Multi-symbol rANS coder (internal/entropy/rans_encoder.go, internal/entropy/rans.go).
    The encoder consumes symbols last to first and the decoder produces them first to
    last.  Both are classes proved against step functions on `State`. */
module Rans {
  import opened Bits

  function U32(x: int): nat
  {
    x % 0x1_0000_0000
  }

  /** ransSym: width of a symbol's interval and its start. */
  datatype Sym = Sym(prob: nat, cum: nat)

  /** The coder state and the bytes written so far (equivalently: not read yet). */
  datatype State = State(x: nat, buf: seq<byte>)

  // ---- probability tables ---------------------------------------------------------

  function Sum(p: seq<nat>): nat
  {
    if p == [] then 0 else Sum(p[..|p| - 1]) + p[|p| - 1]
  }

  /** Start of symbol i's interval. */
  function Cum(p: seq<nat>, i: nat): nat
    requires i <= |p|
  {
    Sum(p[..i])
  }

  lemma CumNext(p: seq<nat>, i: nat)
    requires i < |p|
    ensures Cum(p, i + 1) == Cum(p, i) + p[i]
  {
    assert p[..i + 1][..i] == p[..i];
  }

  lemma {:induction false} CumMono(p: seq<nat>, i: nat, j: nat)
    requires i <= j <= |p|
    ensures Cum(p, i) <= Cum(p, j)
    ensures i < j ==> Cum(p, i) + p[i] <= Cum(p, j)
    decreases j - i
  {
    if i < j {
      CumNext(p, i);
      CumMono(p, i + 1, j);
    }
  }

  function Entry(p: seq<nat>, i: nat): Sym
    requires i < |p|
  {
    Sym(p[i], Cum(p, i))
  }

  function Table(p: seq<nat>): (t: seq<Sym>)
    ensures |t| == |p| && forall i :: 0 <= i < |p| ==> t[i] == Entry(p, i)
  {
    seq(|p|, i requires 0 <= i < |p| => Entry(p, i))
  }

  /** The interval of symbol s contains slot j. */
  predicate Covers(p: seq<nat>, s: nat, j: nat)
  {
    s < |p| && Cum(p, s) <= j < Cum(p, s) + p[s]
  }

  lemma CoverUnique(p: seq<nat>, s: nat, t: nat, j: nat)
    requires Covers(p, s, j) && Covers(p, t, j)
    ensures s == t
  {
    if s < t {
      CumMono(p, s, t);
    } else if t < s {
      CumMono(p, t, s);
    }
  }

  /** lut maps every slot to the symbol whose interval contains it. */
  ghost predicate IsLut(lut: seq<nat>, p: seq<nat>, precision: nat)
  {
    |lut| == precision && forall j :: 0 <= j < precision ==> Covers(p, lut[j], j)
  }

  lemma LutUnique(a: seq<nat>, b: seq<nat>, p: seq<nat>, precision: nat)
    requires IsLut(a, p, precision) && IsLut(b, p, precision)
    ensures a == b
  {
    forall j | 0 <= j < precision
      ensures a[j] == b[j]
    {
      CoverUnique(p, a[j], b[j], j);
    }
  }

  /** A precision the codec uses: 2^12 to 2^20. */
  predicate Precision(k: nat)
  {
    12 <= k <= 20
  }

  lemma PrecisionRange(k: nat)
    requires Precision(k)
    ensures 4096 <= Pow2(k) <= 0x10_0000
  {
    assert Pow2(12) == 4096 && Pow2(8) == 256;
    Pow2Add(12, 8);
    Pow2Mono(12, k);
    Pow2Mono(k, 20);
  }

  // ---- step functions -------------------------------------------------------------

  /** Move low bytes out until the state is below limit. */
  function Emit(s: State, limit: nat): (r: State)
    requires limit > 0
    decreases s.x
  {
    if s.x >= limit then Emit(State(s.x / 256, s.buf + [s.x % 256]), limit) else s
  }

  /** Pull bytes in until the state reaches base or no byte is left. */
  function Fill(s: State, base: nat): State
    decreases |s.buf|
  {
    if s.x < base && s.buf != []
    then Fill(State(s.x * 256 + s.buf[|s.buf| - 1], s.buf[..|s.buf| - 1]), base)
    else s
  }

  function EncodeStep(s: State, sym: Sym, precision: nat): State
    requires sym.prob > 0
  {
    var e := Emit(s, 1024 * sym.prob);
    State(Mix(e.x, sym, precision), e.buf)
  }

  /** All symbols, last one first. */
  function EncodeAll(p: seq<nat>, symbols: seq<nat>, precision: nat): State
    requires forall i :: 0 <= i < |symbols| ==> symbols[i] < |p| && p[symbols[i]] > 0
  {
    if symbols == [] then State(4 * precision, [])
    else EncodeStep(EncodeAll(p, symbols[1..], precision), Entry(p, symbols[0]), precision)
  }

  /** One ReadSymbol on a state. */
  function DecodeStep(s: State, lut: seq<nat>, p: seq<nat>, precision: nat): (nat, State)
    requires precision > 0 && IsLut(lut, p, precision)
  {
    var f := Fill(s, 4 * precision);
    var symbol := lut[f.x % precision];
    assert Covers(p, symbol, f.x % precision);
    (symbol, State(Shrink(f.x, Entry(p, symbol), precision), f.buf))
  }

  /** The state left after symbol sym has been taken out of x. */
  function Shrink(x: nat, sym: Sym, precision: nat): nat
    requires precision > 0 && sym.cum <= x % precision
  {
    x / precision * sym.prob + x % precision - sym.cum
  }

  function DecodeMany(s: State, lut: seq<nat>, p: seq<nat>, precision: nat, n: nat): (seq<nat>, State)
    requires precision > 0 && IsLut(lut, p, precision)
    decreases n
  {
    if n == 0 then ([], s)
    else
      var (symbol, s1) := DecodeStep(s, lut, p, precision);
      var (rest, s2) := DecodeMany(s1, lut, p, precision, n - 1);
      ([symbol] + rest, s2)
  }

  /** The state interval kept between symbols. */
  predicate InRange(x: nat, precision: nat)
  {
    4 * precision <= x < 1024 * precision
  }

  /** The state after a step is back in its interval, for a whole symbol stream. */
  lemma {:induction false} EncodeStepRange(s: State, p: seq<nat>, i: nat, precision: nat)
    requires InRange(s.x, precision) && Sum(p) == precision
    requires i < |p| && p[i] > 0
    ensures p[i] <= precision && Cum(p, i) + p[i] <= precision
    ensures InRange(EncodeStep(s, Entry(p, i), precision).x, precision)
    ensures var e := Emit(s, 1024 * p[i]); 4 * p[i] <= e.x < 1024 * p[i]
  {
    CumMono(p, i, |p|);
    assert p[..|p|] == p;
    var e := Emit(s, 1024 * p[i]);
    EmitRange(s, p[i]);
    MixRange(e.x, Entry(p, i), precision);
  }

  lemma MixRange(x: nat, sym: Sym, precision: nat)
    requires 4 * sym.prob <= x < 1024 * sym.prob && sym.cum + sym.prob <= precision
    ensures InRange(Mix(x, sym, precision), precision)
  {
    var q := x / sym.prob;
    DivBounds(x, sym.prob, 4, 1024);
    MulMono(4, q, precision);
    MulMono(q, 1023, precision);
  }

  lemma {:induction false} EmitRange(s: State, prob: nat)
    requires prob > 0 && s.x >= 4 * prob
    ensures var e := Emit(s, 1024 * prob); 4 * prob <= e.x < 1024 * prob
    decreases s.x
  {
    if s.x >= 1024 * prob {
      assert s.x / 256 >= 4 * prob;
      EmitRange(State(s.x / 256, s.buf + [s.x % 256]), prob);
    }
  }

  lemma {:induction false} EncodeAllRange(p: seq<nat>, symbols: seq<nat>, precision: nat)
    requires precision > 0 && Sum(p) == precision
    requires forall i :: 0 <= i < |symbols| ==> symbols[i] < |p| && p[symbols[i]] > 0
    ensures InRange(EncodeAll(p, symbols, precision).x, precision)
  {
    if symbols != [] {
      EncodeAllRange(p, symbols[1..], precision);
      EncodeStepRange(EncodeAll(p, symbols[1..], precision), p, symbols[0], precision);
    }
  }

  /** Filling reads back exactly the bytes that an emission wrote. */
  lemma {:induction false} FillAfterEmit(s: State, limit: nat, base: nat)
    requires limit > 0 && s.x < 256 * base
    ensures Fill(Emit(s, limit), base) == Fill(s, base)
    decreases s.x
  {
    if s.x >= limit {
      var t := State(s.x / 256, s.buf + [s.x % 256]);
      FillAfterEmit(t, limit, base);
      assert t.buf[..|t.buf| - 1] == s.buf;
      assert State(t.x * 256 + s.x % 256, s.buf) == s;
    }
  }

  /** One decoder step undoes one encoder step, up to bytes still to be pulled in. */
  lemma StepInverse(s: State, lut: seq<nat>, p: seq<nat>, i: nat, precision: nat)
    requires InRange(s.x, precision) && Sum(p) == precision
    requires IsLut(lut, p, precision) && i < |p| && p[i] > 0
    ensures var (symbol, d) := DecodeStep(EncodeStep(s, Entry(p, i), precision), lut, p, precision);
            symbol == i && d == Emit(s, 1024 * p[i]) && Fill(d, 4 * precision) == s
  {
    EncodeStepRange(s, p, i, precision);
    var e := Emit(s, 1024 * p[i]);
    var f := EncodeStep(s, Entry(p, i), precision);
    MixShrink(e.x, Entry(p, i), precision);
    CoverUnique(p, i, lut[f.x % precision], f.x % precision);
    FillAfterEmit(s, 1024 * p[i], 4 * precision);
    assert Fill(f, 4 * precision) == f;
  }

  function Mix(x: nat, sym: Sym, precision: nat): nat
    requires sym.prob > 0
  {
    x / sym.prob * precision + x % sym.prob + sym.cum
  }

  lemma MixShrink(x: nat, sym: Sym, precision: nat)
    requires sym.prob > 0 && sym.cum + sym.prob <= precision
    ensures var m := Mix(x, sym, precision);
            sym.cum <= m % precision < sym.cum + sym.prob && Shrink(m, sym, precision) == x
  {
    DivModUnique(Mix(x, sym, precision), precision, x / sym.prob, x % sym.prob + sym.cum);
  }

  /** Reading symbols off any state that fills to the encoder's state returns the stream,
      and after each symbol the decoder fills to the encoder's state for the rest. */
  lemma {:induction false} DecodeEncoded(s: State, lut: seq<nat>, p: seq<nat>, symbols: seq<nat>, precision: nat)
    requires precision > 0 && Sum(p) == precision && IsLut(lut, p, precision)
    requires forall i :: 0 <= i < |symbols| ==> symbols[i] < |p| && p[symbols[i]] > 0
    requires Fill(s, 4 * precision) == EncodeAll(p, symbols, precision)
    ensures DecodeMany(s, lut, p, precision, |symbols|).0 == symbols
    ensures Fill(DecodeMany(s, lut, p, precision, |symbols|).1, 4 * precision) == State(4 * precision, [])
    decreases |symbols|
  {
    if symbols != [] {
      var before := EncodeAll(p, symbols[1..], precision);
      EncodeAllRange(p, symbols[1..], precision);
      EncodeAllRange(p, symbols, precision);
      StepInverse(before, lut, p, symbols[0], precision);
      var f := EncodeAll(p, symbols, precision);
      assert Fill(f, 4 * precision) == f;
      var d := DecodeStep(s, lut, p, precision).1;
      DecodeEncoded(d, lut, p, symbols[1..], precision);
      assert symbols == [symbols[0]] + symbols[1..];
    }
  }

  // ---- the tail that carries the final state ----------------------------------------

  /** 1 to 4 little-endian bytes whose top two bits hold the length. */
  function Tail(d: nat): seq<byte>
  {
    if d < 0x40 then [d]
    else if d < 0x4000 then [d % 256, 64 + d / 256 % 64]
    else if d < 0x40_0000 then [d % 256, d / 256 % 256, 128 + d / 0x1_0000 % 64]
    else if d < 0x4000_0000 then [d % 256, d / 256 % 256, d / 0x1_0000 % 256, 192 + d / 0x100_0000 % 64]
    else []
  }

  function Finish(s: State, precision: nat): seq<byte>
    requires s.x >= 4 * precision
  {
    s.buf + Tail(s.x - 4 * precision)
  }

  /** Decoder start: None for the buffers that Init rejects. */
  function Start(b: seq<byte>, precision: nat): Option<State>
  {
    if |b| < 1 then None
    else
      var tag := b[|b| - 1] / 64;
      if |b| < tag + 1 then None
      else
        var d := TailNumber(b[|b| - 1 - tag..]);
        if d + 4 * precision >= 1024 * precision then None
        else Some(State(d + 4 * precision, b[..|b| - 1 - tag]))
  }

  /** The number in a tail of one to four bytes. */
  function TailNumber(t: seq<byte>): (d: nat)
    requires 1 <= |t| <= 4
    ensures d < 0x4000_0000
  {
    var top := t[|t| - 1] as int % 64;
    if |t| == 1 then top
    else if |t| == 2 then t[0] as int + 256 * top
    else if |t| == 3 then t[0] as int + 256 * t[1] as int + 0x1_0000 * top
    else t[0] as int + 256 * t[1] as int + 0x1_0000 * t[2] as int + 0x100_0000 * top
  }

  /** A final state always gets a tail, and Start reads the state and its bytes back. */
  lemma StartOfFinish(s: State, k: nat)
    requires Precision(k) && InRange(s.x, Pow2(k))
    ensures 1 <= |Tail(s.x - 4 * Pow2(k))| <= 4
    ensures Start(Finish(s, Pow2(k)), Pow2(k)) == Some(s)
  {
    PrecisionRange(k);
    StartOfTail(s.buf, s.x - 4 * Pow2(k), Pow2(k));
  }

  lemma StartOfTail(buf: seq<byte>, d: nat, precision: nat)
    requires d < 0x4000_0000 && d < 1020 * precision
    ensures Start(buf + Tail(d), precision) == Some(State(d + 4 * precision, buf))
  {
    TailValue(d);
    var t := Tail(d);
    var b := buf + t;
    assert b[..|buf|] == buf && b[|buf|..] == t;
    assert b[|b| - 1] == t[|t| - 1];
    if d < 0x40 {
      assert |t| == 1;
    } else if d < 0x4000 {
      assert |t| == 2;
      TopByte(1, d / 256);
    } else if d < 0x40_0000 {
      assert |t| == 3;
      TopByte(2, d / 0x1_0000);
    } else {
      assert |t| == 4;
      TopByte(3, d / 0x100_0000);
    }
  }

  lemma TopByte(tag: nat, v: nat)
    requires tag < 4 && v < 64
    ensures (64 * tag + v % 64) / 64 == tag && (64 * tag + v % 64) % 64 == v
  {
  }

  lemma TailValue(d: nat)
    requires d < 0x4000_0000
    ensures d / 256 / 256 == d / 0x1_0000 && d / 0x1_0000 / 256 == d / 0x100_0000
    ensures d / 0x100_0000 < 64
  {
    DivDiv(d, 256, 256);
    DivDiv(d, 0x1_0000, 256);
  }

  /** rANS round trip: for every table summing to 2^k and every stream of symbols of
      positive probability, start and repeated reads return the stream. */
  lemma RoundTrip(lut: seq<nat>, p: seq<nat>, symbols: seq<nat>, k: nat)
    requires Precision(k) && Sum(p) == Pow2(k) && IsLut(lut, p, Pow2(k))
    requires forall i :: 0 <= i < |symbols| ==> symbols[i] < |p| && p[symbols[i]] > 0
    ensures var e := EncodeAll(p, symbols, Pow2(k));
            InRange(e.x, Pow2(k)) && Start(Finish(e, Pow2(k)), Pow2(k)) == Some(e) &&
            DecodeMany(e, lut, p, Pow2(k), |symbols|).0 == symbols
  {
    var e := EncodeAll(p, symbols, Pow2(k));
    EncodeAllRange(p, symbols, Pow2(k));
    StartOfFinish(e, k);
    DecodeEncoded(e, lut, p, symbols, Pow2(k));
  }

  // ---- the encoder class --------------------------------------------------------------

  class RansEncoder {
    const precisionBits: nat
    const precision: nat
    const lBase: nat
    var state: nat
    var buf: seq<byte>

    ghost predicate Valid()
      reads this
    {
      Precision(precisionBits) && precision == Pow2(precisionBits) && lBase == 4 * precision &&
      InRange(state, precision)
    }

    function Value(): State
      reads this
    {
      State(state, buf)
    }

    constructor (precisionBits: nat)
      requires Precision(precisionBits)
      ensures Valid() && this.precisionBits == precisionBits
      ensures Value() == State(4 * Pow2(precisionBits), [])
    {
      this.precisionBits := precisionBits;
      precision := Pow2(precisionBits);
      lBase := 4 * Pow2(precisionBits);
      state := 4 * Pow2(precisionBits);
      buf := [];
    }

    /** Drops everything written; the state goes back to its start. */
    method Reset()
      requires Valid()
      modifies this
      ensures Valid() && Value() == State(4 * precision, [])
    {
      state := lBase;
      buf := [];
    }

    /** The uint32 arithmetic never wraps, so the result is the mathematical step. */
    method WriteSymbol(sym: Sym, ghost p: seq<nat>, ghost i: nat)
      requires Valid() && Sum(p) == precision && i < |p| && sym == Entry(p, i) && sym.prob > 0
      modifies this
      ensures Valid() && Value() == EncodeStep(old(Value()), sym, precision)
    {
      PrecisionRange(precisionBits);
      EncodeStepRange(Value(), p, i, precision);
      ghost var e := Emit(Value(), 1024 * sym.prob);
      var limit := U32(lBase / precision * 256 * sym.prob);
      LimitFits(lBase, precision, sym.prob);
      while state >= limit
        invariant Emit(Value(), limit) == e && state < 1024 * precision
        decreases state
      {
        buf := buf + [state % 256];
        state := state / 256;
      }
      StepFits(state, sym, precision);
      state := U32(U32(state / sym.prob * precision) + state % sym.prob + sym.cum);
    }

    method Bytes() returns (out: seq<byte>)
      requires Valid()
      ensures out == Finish(Value(), precision) && |out| > |buf|
    {
      PrecisionRange(precisionBits);
      StartOfFinish(Value(), precisionBits);
      out := buf;
      var d := state - lBase;
      if d < 0x40 {
        out := out + [d];
      } else if d < 0x4000 {
        out := out + [d % 256, 64 + d / 256 % 64];
      } else if d < 0x40_0000 {
        out := out + [d % 256, d / 256 % 256, 128 + d / 0x1_0000 % 64];
      } else if d < 0x4000_0000 {
        out := out + [d % 256, d / 256 % 256, d / 0x1_0000 % 256, 192 + d / 0x100_0000 % 64];
      }
    }
  }

  lemma StepFits(x: nat, sym: Sym, precision: nat)
    requires 0 < sym.prob && sym.cum + sym.prob <= precision <= 0x10_0000 && x < 1024 * sym.prob
    ensures U32(U32(x / sym.prob * precision) + x % sym.prob + sym.cum) == Mix(x, sym, precision)
  {
    var q := x / sym.prob;
    DivBounds(x, sym.prob, 0, 1024);
    MulMono(q, 1023, precision);
    MulMono(0, q, precision);
    var y := q * precision;
    assert 0 <= y <= 1023 * 0x10_0000;
    U32Small(y);
    U32Small(y + x % sym.prob + sym.cum);
  }

  lemma LimitFits(lBase: nat, precision: nat, prob: nat)
    requires lBase == 4 * precision && 0 < prob <= precision <= 0x10_0000
    ensures U32(lBase / precision * 256 * prob) == 1024 * prob
  {
    DivModUnique(lBase, precision, 4, 0);
    U32Small(1024 * prob);
  }

  lemma U32Small(x: int)
    requires 0 <= x < 0x1_0000_0000
    ensures U32(x) == x
  {
  }
}
