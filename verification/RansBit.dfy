/** Binary rANS (internal/entropy/rans_bit.go).  Bits are collected in 32-bit words, then
    coded last to first with one probability byte; the decoder reads first to last. */
module RansBit {
  import opened Bits
  import opened Rans
  import opened Stream

  /** A usable probability byte; the encoder clamps its estimate into this range. */
  predicate ZeroProb(p0: nat)
  {
    1 <= p0 <= 255
  }

  /** Width of a bit's interval out of 256. */
  function Width(p0: nat, bit: bool): (w: nat)
    requires p0 <= 255
    ensures ZeroProb(p0) ==> 1 <= w <= 255
  {
    if bit then 256 - p0 else p0
  }

  /** Ones take the low slots, zeros the rest. */
  function Interval(p0: nat, bit: bool): Sym
    requires p0 <= 255
  {
    Sym(Width(p0, bit), if bit then 0 else 256 - p0)
  }

  function BitEmit(s: State, w: nat): State
  {
    if s.x >= 4096 * w then State(s.x / 256, s.buf + [s.x % 256]) else s
  }

  function BitFill(s: State): State
  {
    if s.x < 4096 && s.buf != [] then State(s.x * 256 + s.buf[|s.buf| - 1], s.buf[..|s.buf| - 1]) else s
  }

  function EncodeBitStep(s: State, p0: nat, bit: bool): State
    requires ZeroProb(p0)
  {
    var e := BitEmit(s, Width(p0, bit));
    State(Mix(e.x, Interval(p0, bit), 256), e.buf)
  }

  /** Reads one bit; p0 may be any byte, including 0. */
  function DecodeBitStep(s: State, p0: nat): (bool, State)
    requires p0 <= 255
  {
    var f := BitFill(s);
    var bit := f.x % 256 < 256 - p0;
    (bit, State(Shrink(f.x, Interval(p0, bit), 256), f.buf))
  }

  predicate BitRange(x: nat)
  {
    4096 <= x < 0x10_0000
  }

  /** A step keeps the state in its interval, and reading undoes it. */
  lemma BitStepInverse(s: State, p0: nat, bit: bool)
    requires ZeroProb(p0) && BitRange(s.x)
    ensures BitRange(EncodeBitStep(s, p0, bit).x)
    ensures DecodeBitStep(EncodeBitStep(s, p0, bit), p0) == (bit, BitEmit(s, Width(p0, bit)))
    ensures BitFill(BitEmit(s, Width(p0, bit))) == s
  {
    var w := Width(p0, bit);
    var e := BitEmit(s, w);
    EmitOnce(s, w);
    DivBounds(e.x, w, 16, 4096);
    MixShrink(e.x, Interval(p0, bit), 256);
  }

  /** One emitted byte is always enough, and filling reads it back. */
  lemma EmitOnce(s: State, w: nat)
    requires BitRange(s.x) && 1 <= w <= 255
    ensures 16 * w <= BitEmit(s, w).x < 4096 * w
    ensures BitFill(BitEmit(s, w)) == s
  {
    if s.x >= 4096 * w {
      var e := BitEmit(s, w);
      assert e.buf[..|e.buf| - 1] == s.buf;
    }
  }

  /** All bits, last one first. */
  function EncodeBits(p0: nat, bits: seq<bool>): State
    requires ZeroProb(p0)
  {
    if bits == [] then State(4096, []) else EncodeBitStep(EncodeBits(p0, bits[1..]), p0, bits[0])
  }

  function DecodeBits(s: State, p0: nat, n: nat): (r: (seq<bool>, State))
    requires p0 <= 255
    ensures |r.0| == n
    decreases n
  {
    if n == 0 then ([], s)
    else
      var (bit, s1) := DecodeBitStep(s, p0);
      var (rest, s2) := DecodeBits(s1, p0, n - 1);
      ([bit] + rest, s2)
  }

  lemma {:induction false} EncodeBitsRange(p0: nat, bits: seq<bool>)
    requires ZeroProb(p0)
    ensures BitRange(EncodeBits(p0, bits).x)
  {
    if bits != [] {
      EncodeBitsRange(p0, bits[1..]);
      BitStepInverse(EncodeBits(p0, bits[1..]), p0, bits[0]);
    }
  }

  /** The decoder at the end of a stream: its state is back at 4096 exactly when there was
      no bit or the last bit's interval is wider than one. */
  function EndState(p0: nat, bits: seq<bool>): State
    requires ZeroProb(p0)
  {
    if bits != [] && Width(p0, bits[|bits| - 1]) == 1 then State(16, [0]) else State(4096, [])
  }

  lemma DecodeOne(s: State, p0: nat)
    requires p0 <= 255
    ensures DecodeBits(s, p0, 1) == ([DecodeBitStep(s, p0).0], DecodeBitStep(s, p0).1)
  {
    var (bit, d) := DecodeBitStep(s, p0);
    assert DecodeBits(d, p0, 0) == ([], d);
    assert [bit] + [] == [bit];
  }

  /** A state above the lower bound is not filled again. */
  lemma FillFirst(s: State, p0: nat)
    requires p0 <= 255 && BitFill(s).x >= 4096
    ensures DecodeBitStep(s, p0) == DecodeBitStep(BitFill(s), p0)
  {
  }

  lemma DecodeUnfold(s: State, p0: nat, n: nat)
    requires p0 <= 255 && n > 0
    ensures var (bit, d) := DecodeBitStep(s, p0);
            DecodeBits(s, p0, n) == ([bit] + DecodeBits(d, p0, n - 1).0, DecodeBits(d, p0, n - 1).1)
  {
  }

  lemma DecodeLastBit(s: State, p0: nat, bit: bool)
    requires ZeroProb(p0) && BitFill(s) == EncodeBits(p0, [bit])
    ensures DecodeBits(s, p0, 1) == ([bit], EndState(p0, [bit]))
  {
    var start := State(4096, []);
    assert EncodeBits(p0, [bit]) == EncodeBitStep(start, p0, bit);
    BitStepInverse(start, p0, bit);
    DecodeOne(s, p0);
    assert BitEmit(start, Width(p0, bit)) == EndState(p0, [bit]);
  }

  lemma {:induction false} DecodeEncodedBits(s: State, p0: nat, bits: seq<bool>)
    requires ZeroProb(p0)
    requires BitFill(s) == EncodeBits(p0, bits) && (bits == [] ==> s == EncodeBits(p0, bits))
    ensures DecodeBits(s, p0, |bits|) == (bits, EndState(p0, bits))
    decreases |bits|
  {
    hide DecodeBitStep, EncodeBitStep, BitEmit;
    if |bits| == 1 {
      assert bits == [bits[0]];
      DecodeLastBit(s, p0, bits[0]);
    } else if bits != [] {
      EncodeBitsRange(p0, bits[1..]);
      EncodeBitsRange(p0, bits);
      BitStepInverse(EncodeBits(p0, bits[1..]), p0, bits[0]);
      FillFirst(s, p0);
      DecodeEncodedBits(DecodeBitStep(s, p0).1, p0, bits[1..]);
      assert bits == [bits[0]] + bits[1..];
    }
  }

  /** Reading any number of leading bits leaves a state that fills to the encoder's state
      for the remaining bits. */
  lemma {:induction false} DecodePrefix(s: State, p0: nat, a: seq<bool>, b: seq<bool>)
    requires ZeroProb(p0) && BitFill(s) == EncodeBits(p0, a + b)
    ensures DecodeBits(s, p0, |a|).0 == a
    ensures BitFill(DecodeBits(s, p0, |a|).1) == EncodeBits(p0, b)
    ensures a == [] ==> DecodeBits(s, p0, |a|).1 == s
    decreases |a|
  {
    if a == [] {
      assert a + b == b;
    } else {
      var rest := a[1..] + b;
      assert (a + b)[1..] == rest && (a + b)[0] == a[0];
      EncodeBitsRange(p0, rest);
      EncodeBitsRange(p0, a + b);
      BitStepInverse(EncodeBits(p0, rest), p0, a[0]);
      DecodePrefix(DecodeBitStep(s, p0).1, p0, a[1..], b);
      assert a == [a[0]] + a[1..];
    }
  }

  // ---- framing ----------------------------------------------------------------------

  /** The whole stream: probability byte, payload size, payload. */
  function BitStream(p0: nat, bits: seq<bool>): seq<byte>
    requires ZeroProb(p0)
  {
    EncodeBitsRange(p0, bits);
    var payload := Finish(EncodeBits(p0, bits), 1024);
    [p0] + VarBytes(U32(|payload|)) + payload
  }

  /** Decoder state from a payload; a three-byte tail is the longest one accepted. */
  function StartBits(b: seq<byte>): Option<State>
  {
    if |b| >= 1 && b[|b| - 1] / 64 == 3 then None else Start(b, 1024)
  }

  /** Probability byte, initial state and the bytes after the stream. */
  function OpenBits(r: seq<byte>): Option<(nat, State, seq<byte>)>
  {
    if r == [] then None
    else
      match ReadVarUint32(r[1..])
      case None => None
      case Some((size, rest)) =>
        match Take(rest, size)
        case None => None
        case Some((payload, after)) =>
          match StartBits(payload)
          case None => None
          case Some(s) => Some((r[0], s, after))
  }

  /** The state never outgrows the three-byte tail, and opening reads it back. */
  lemma StartBitsOfFinish(s: State)
    requires BitRange(s.x)
    ensures 1 <= |Tail(s.x - 4096)| <= 3
    ensures StartBits(Finish(s, 1024)) == Some(s)
  {
    var t := Tail(s.x - 4096);
    var b := Finish(s, 1024);
    StartOfTail(s.buf, s.x - 4096, 1024);
    assert b[|b| - 1] == t[|t| - 1];
  }

  /** The payload's size fits its 32-bit field. */
  predicate StreamFits(p0: nat, bits: seq<bool>)
    requires ZeroProb(p0)
  {
    EncodeBitsRange(p0, bits);
    |Finish(EncodeBits(p0, bits), 1024)| < WORD
  }

  /** A payload takes at most a byte per bit and three more. */
  lemma ShortStreamFits(p0: nat, bits: seq<bool>)
    requires ZeroProb(p0) && |bits| + 3 < WORD
    ensures StreamFits(p0, bits)
  {
    EncodedSize(p0, bits);
    EncodeBitsRange(p0, bits);
    StartBitsOfFinish(EncodeBits(p0, bits));
  }

  lemma {:induction false} EncodedSize(p0: nat, bits: seq<bool>)
    requires ZeroProb(p0)
    ensures |EncodeBits(p0, bits).buf| <= |bits|
  {
    if bits != [] {
      EncodedSize(p0, bits[1..]);
    }
  }

  lemma OpenOfStream(p0: nat, bits: seq<bool>, suffix: seq<byte>)
    requires ZeroProb(p0) && StreamFits(p0, bits)
    ensures OpenBits(BitStream(p0, bits) + suffix) == Some((p0, EncodeBits(p0, bits), suffix))
  {
    EncodeBitsRange(p0, bits);
    var s := EncodeBits(p0, bits);
    var payload := Finish(s, 1024);
    StartBitsOfFinish(s);
    OpenOfParts(p0, payload, suffix);
    Regroup([p0], VarBytes(U32(|payload|)), payload, suffix);
  }

  lemma OpenOfParts(p0: byte, payload: seq<byte>, suffix: seq<byte>)
    requires |payload| < 0x1_0000_0000
    ensures var r := [p0] + (VarBytes(U32(|payload|)) + (payload + suffix));
            OpenBits(r) == match StartBits(payload)
                           case None => None
                           case Some(s) => Some((p0, s, suffix))
  {
    U32Small(|payload|);
    VarUint32RoundTrip(|payload|, payload + suffix);
    TakeConcat(payload, suffix);
    var tail := VarBytes(|payload|) + (payload + suffix);
    assert ([p0] + tail)[1..] == tail;
  }

  /** Binary round trip: every bit comes back, for every probability byte and every bit
      sequence, and the end check passes exactly when there is no bit or the last bit's
      interval is at least two wide. */
  lemma BitRoundTrip(p0: nat, bits: seq<bool>, suffix: seq<byte>)
    requires ZeroProb(p0) && StreamFits(p0, bits)
    ensures OpenBits(BitStream(p0, bits) + suffix).Some?
    ensures var (q, s, rest) := OpenBits(BitStream(p0, bits) + suffix).value;
            q == p0 && rest == suffix && DecodeBits(s, q, |bits|).0 == bits &&
            (DecodeBits(s, q, |bits|).1.x == 4096 <==> bits == [] || Width(p0, bits[|bits| - 1]) >= 2)
  {
    OpenOfStream(p0, bits, suffix);
    EncodeBitsRange(p0, bits);
    DecodeEncodedBits(EncodeBits(p0, bits), p0, bits);
  }

  // ---- the probability that the encoder estimates -----------------------------------------------

  function ZeroCount(bits: seq<bool>): (z: nat)
    ensures z <= |bits|
  {
    if bits == [] then 0 else (if bits[0] then 0 else 1) + ZeroCount(bits[1..])
  }

  /** The share of zeros in 256ths, rounded, kept between 1 and 255. */
  function ZeroEstimate(zeros: nat, total: nat): (p0: nat)
    requires zeros <= total
    ensures ZeroProb(p0)
  {
    var t := if total == 0 then 1 else total;
    DivNonneg(512 * zeros + t, 2 * t);
    var raw := (512 * zeros + t) / (2 * t);
    if raw >= 255 then 255 else if raw == 0 then 1 else raw
  }

  function Estimate(bits: seq<bool>): (p0: nat)
    ensures ZeroProb(p0)
  {
    ZeroEstimate(ZeroCount(bits), |bits|)
  }

  /** A stream that ends in a rare bit: a one after almost only zeros, or a zero after almost only
      ones. */
  predicate EndsRarely(bits: seq<bool>)
  {
    bits != [] &&
    if bits[|bits| - 1] then 512 * ZeroCount(bits) >= 509 * |bits| else 512 * ZeroCount(bits) < 3 * |bits|
  }

  lemma EstimateBounds(zeros: nat, total: nat)
    requires 0 < total && zeros <= total
    ensures ZeroEstimate(zeros, total) == 255 <==> 512 * zeros >= 509 * total
    ensures ZeroEstimate(zeros, total) == 1 <==> 512 * zeros < 3 * total
  {
    var x, k := 512 * zeros + total, 2 * total;
    DivBounds(x, k, if x >= 255 * k then 255 else 0, if x >= 255 * k then 257 else 255);
    DivBounds(x, k, if x < 2 * k then 0 else 2, if x < 2 * k then 2 else 257);
  }

  /** With the estimated probability, the last bit's interval is one slot wide exactly when the
      stream ends in a rare bit. */
  lemma EstimatedEnd(bits: seq<bool>)
    requires bits != []
    ensures Width(Estimate(bits), bits[|bits| - 1]) == 1 <==> EndsRarely(bits)
  {
    hide ZeroEstimate, ZeroCount;
    EstimateBounds(ZeroCount(bits), |bits|);
  }

  lemma {:induction false} ZeroCountConcat(a: seq<bool>, b: seq<bool>)
    ensures ZeroCount(a + b) == ZeroCount(a) + ZeroCount(b)
    decreases |a|
  {
    if a == [] {
      assert a + b == b;
    } else {
      assert (a + b)[1..] == a[1..] + b;
      ZeroCountConcat(a[1..], b);
    }
  }
}
