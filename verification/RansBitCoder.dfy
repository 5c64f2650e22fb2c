/** The binary rANS objects (internal/entropy/rans_bit.go), proved against RansBit. */
module RansBitCoding {
  import opened Bits
  import opened Rans
  import opened Stream
  import opened RansBit

  /** Reverse32: the bits of a uint32 in the opposite order. */
  function Reverse32(v: nat): nat
  {
    LsbValue(Msb(v, 32))
  }

  /** dst with numBits bits of src, from srcOffset, or-ed in at dstOffset. */
  function CopyBits32(dst: nat, dstOffset: nat, src: nat, srcOffset: nat, numBits: nat): nat
  {
    if numBits == 0 then dst else Or(dst, Shl32(Low(Shr(src, srcOffset), numBits), dstOffset))
  }

  /** Full words, low bits first. */
  function Words(w: seq<nat>): (r: seq<bool>)
    ensures |r| == 32 * |w|
  {
    if w == [] then [] else Words(w[..|w| - 1]) + Lsb(w[|w| - 1], 32)
  }

  lemma WordsAppend(w: seq<nat>, x: nat)
    ensures Words(w + [x]) == Words(w) + Lsb(x, 32)
  {
    assert (w + [x])[..|w|] == w;
  }

  lemma {:induction false} WordsAt(w: seq<nat>, i: nat, j: nat)
    requires i < |w| && j < 32
    ensures Words(w)[32 * i + j] <==> Shr(w[i], j) % 2 == 1
  {
    if i == |w| - 1 {
      LsbAt(w[i], 32, j);
    } else {
      WordsAt(w[..|w| - 1], i, j);
    }
  }

  /** Moving the reversed value down leaves its n first bits: v's low n bits, high first. */
  lemma ReversedBits(v: nat, n: nat)
    requires n <= 32
    ensures Shr(Reverse32(v), 32 - n) == LsbValue(Msb(v, n)) < Pow2(n)
    ensures Lsb(Shr(Reverse32(v), 32 - n), n) == Msb(v, n)
  {
    var m := 32 - n;
    var high := Msb(Shr(v, n), m);
    MsbTop(v, m, n);
    LsbValueDrop(high, Msb(v, n));
    LsbValueBound(Msb(v, n));
  }

  /** Copying n bits just above the m bits already there appends them. */
  lemma CopyAppends(dst: nat, m: nat, src: nat, off: nat, n: nat, rest: nat)
    requires dst < Pow2(m) && src < Pow2(off + n + rest) && m + n <= 32
    ensures CopyBits32(dst, m, src, off, n) < Pow2(m + n)
    ensures Lsb(CopyBits32(dst, m, src, off, n), m + n) == Lsb(dst, m) + Lsb(src, off + n)[off..]
  {
    LsbDrop(src, off, n);
    if n == 0 {
      assert Lsb(dst, m) + [] == Lsb(dst, m);
    } else {
      var w := Shr(src, off);
      LsbLow(w, n);
      LowBound(w, n);
      OrAppends(dst, m, Low(w, n), n);
    }
  }

  lemma OrAppends(dst: nat, m: nat, v: nat, n: nat)
    requires dst < Pow2(m) && v < Pow2(n) && m + n <= 32
    ensures Or(dst, Shl32(v, m)) < Pow2(m + n)
    ensures Lsb(Or(dst, Shl32(v, m)), m + n) == Lsb(dst, m) + Lsb(v, n)
  {
    Shl32Fits(v, m, n);
    OrDisjoint(v, dst, m);
    LsbSplit(dst, v, m, n);
    ShlBound(v, m, n);
  }

  lemma SplitConcat(a: seq<bool>, b: seq<bool>, k: nat)
    requires k <= |b|
    ensures a + b[..k] + b[k..] == a + b
  {
    assert b == b[..k] + b[k..];
  }

  class RansBitEncoder {
    var bits: seq<nat>
    var localBits: nat
    var numLocalBits: nat
    var failed: bool

    ghost predicate Valid()
      reads this
    {
      numLocalBits < 32 && localBits < Pow2(numLocalBits)
    }

    /** Every bit written so far, in order. */
    ghost function Contents(): seq<bool>
      requires Valid()
      reads this
    {
      Words(bits) + Lsb(localBits, numLocalBits)
    }

    constructor ()
      ensures Valid() && Contents() == [] && !failed
    {
      bits, localBits, numLocalBits, failed := [], 0, 0, false;
    }

    method StartEncoding()
      modifies this
      ensures Valid() && Contents() == [] && !failed
    {
      bits, localBits, numLocalBits, failed := [], 0, 0, false;
    }

    method EncodeBit(bit: bool)
      requires Valid()
      modifies this
      ensures Valid() && failed == old(failed)
      ensures Contents() == if failed then old(Contents()) else old(Contents()) + [bit]
    {
      if failed {
        return;
      }
      ghost var v := if bit then 1 else 0;
      LsbSplit(localBits, v, numLocalBits, 1);
      assert Lsb(v, 1) == [bit];
      assert Pow2(1) == 2;
      ShlBound(v, numLocalBits, 1);
      hide Words, Or, Shl32;
      if bit {
        Shl32Fits(1, numLocalBits, 1);
        OrDisjoint(1, localBits, numLocalBits);
        localBits := Or(localBits, Shl32(1, numLocalBits));
      } else {
        ShlZero(numLocalBits);
      }
      numLocalBits := numLocalBits + 1;
      assert Words(bits) + Lsb(localBits, numLocalBits) == old(Contents()) + [bit];
      FlushFullWord();
    }

    /** Or-s n bits of src in above the pending bits; a full word moves to the list. */
    method Place(src: nat, off: nat, n: nat, ghost rest: nat)
      requires Valid() && numLocalBits + n <= 32 && src < Pow2(off + n + rest)
      modifies this
      ensures Valid() && failed == old(failed) && numLocalBits == (old(numLocalBits) + n) % 32
      ensures Contents() == old(Contents()) + Lsb(src, off + n)[off..]
    {
      ghost var pending := Lsb(localBits, numLocalBits);
      ghost var added := Lsb(src, off + n)[off..];
      CopyAppends(localBits, numLocalBits, src, off, n, rest);
      localBits := CopyBits32(localBits, numLocalBits, src, off, n);
      numLocalBits := numLocalBits + n;
      assert Words(bits) + Lsb(localBits, numLocalBits) == (Words(bits) + pending) + added;
      FlushFullWord();
    }

    method FlushFullWord()
      requires numLocalBits <= 32 && localBits < Pow2(numLocalBits)
      modifies this
      ensures Valid() && failed == old(failed) && numLocalBits == old(numLocalBits) % 32
      ensures Contents() == old(Words(bits) + Lsb(localBits, numLocalBits))
    {
      if numLocalBits == 32 {
        WordsAppend(bits, localBits);
        bits := bits + [localBits];
        localBits := 0;
        numLocalBits := 0;
        assert Pow2(0) == 1;
      }
    }

    /** Appends the low nbits bits, high first; a bad count only sets the error. */
    method EncodeLeastSignificantBits32(nbits: int, value: nat)
      requires Valid()
      modifies this
      ensures Valid() && failed == (old(failed) || !(1 <= nbits <= 32))
      ensures Contents() == if failed then old(Contents()) else old(Contents()) + Msb(value, nbits)
    {
      if failed {
        return;
      }
      if nbits <= 0 || nbits > 32 {
        failed := true;
        return;
      }
      var reversed := Shr(Reverse32(value), 32 - nbits);
      ReversedBits(value, nbits);
      var remaining := 32 - numLocalBits;
      if nbits <= remaining {
        Place(reversed, 0, nbits, 0);
        return;
      }
      LsbDrop(reversed, remaining, nbits - remaining);
      Place(reversed, 0, remaining, nbits - remaining);
      Place(reversed, remaining, nbits - remaining, 0);
      SplitConcat(old(Contents()), Msb(value, nbits), remaining);
    }

    /** The estimated probability is a parameter; every admissible value is covered. */
    method EndEncoding(zeroProb: nat) returns (ok: bool, out: seq<byte>)
      requires Valid() && ZeroProb(zeroProb)
      modifies this
      ensures Valid() && Contents() == [] && !failed
      ensures ok == !old(failed)
      ensures out == if ok then BitStream(zeroProb, old(Contents())) else []
    {
      if failed {
        StartEncoding();
        return false, [];
      }
      ghost var all := Contents();
      var ans := new RansBitWriter();
      WriteLocal(ans, zeroProb, all);
      WriteWords(ans, zeroProb, all);
      assert all[0..] == all;
      var payload := ans.End();
      out := [zeroProb] + VarBytes(U32(|payload|)) + payload;
      ok := true;
      StartEncoding();
    }

    /** The pending bits, last one first. */
    method WriteLocal(ans: RansBitWriter, zeroProb: nat, ghost all: seq<bool>)
      requires Valid() && ZeroProb(zeroProb) && all == Contents()
      requires ans.InRange() && ans.Value() == State(4096, [])
      modifies ans
      ensures ans.InRange() && ans.Value() == EncodeBits(zeroProb, all[32 * |bits|..])
    {
      hide EncodeBitStep, Words, Shr;
      ghost var done := 32 * |bits|;
      var i := numLocalBits;
      assert all[done + i..] == [];
      while i > 0
        invariant 0 <= i <= numLocalBits && ans.InRange()
        invariant ans.Value() == EncodeBits(zeroProb, all[done + i..])
      {
        i := i - 1;
        LsbAt(localBits, numLocalBits, i);
        var bit := Shr(localBits, i) % 2;
        ans.Write(bit == 1, zeroProb);
        EncodeHead(zeroProb, all, done + i, bit == 1);
      }
    }

    /** The full words, last one first, each from its high bit down. */
    method WriteWords(ans: RansBitWriter, zeroProb: nat, ghost all: seq<bool>)
      requires Valid() && ZeroProb(zeroProb) && all == Contents()
      requires ans.InRange() && ans.Value() == EncodeBits(zeroProb, all[32 * |bits|..])
      modifies ans
      ensures ans.InRange() && ans.Value() == EncodeBits(zeroProb, all[0..])
    {
      hide EncodeBits, EncodeBitStep, Words, Shr;
      var idx := |bits|;
      while idx > 0
        invariant 0 <= idx <= |bits| && ans.InRange()
        invariant ans.Value() == EncodeBits(zeroProb, all[32 * idx..])
      {
        idx := idx - 1;
        var word := bits[idx];
        var j := 32;
        while j > 0
          invariant 0 <= j <= 32 && ans.InRange()
          invariant ans.Value() == EncodeBits(zeroProb, all[32 * idx + j..])
        {
          j := j - 1;
          WordsAt(bits, idx, j);
          var bit := Shr(word, j) % 2;
          ans.Write(bit == 1, zeroProb);
          EncodeHead(zeroProb, all, 32 * idx + j, bit == 1);
        }
      }
    }
  }

  lemma EncodeHead(p0: nat, s: seq<bool>, i: nat, bit: bool)
    requires ZeroProb(p0) && i < |s| && s[i] == bit
    ensures EncodeBits(p0, s[i..]) == EncodeBitStep(EncodeBits(p0, s[i + 1..]), p0, bit)
  {
    assert s[i..] == [bit] + s[i + 1..];
  }

  lemma BitMixFits(x: nat, p0: nat, bit: bool)
    requires ZeroProb(p0) && x < 4096 * Width(p0, bit)
    ensures var w := Width(p0, bit);
            U32(x / w * 256 + x % w + if bit then 0 else 256 - p0) == Mix(x, Interval(p0, bit), 256)
  {
    var w := Width(p0, bit);
    DivBounds(x, w, 0, 4096);
    U32Small(x / w * 256 + x % w + if bit then 0 else 256 - p0);
  }

  lemma BitShrinkFits(x: nat, p0: nat)
    requires x < 0x10_0000 && p0 <= 255
    ensures var p, r := 256 - p0, x % 256;
            var xn := x / 256 * p;
            var bit := r < p;
            Shrink(x, Interval(p0, bit), 256) < 0x10_0000 &&
            Shrink(x, Interval(p0, bit), 256) == if bit then U32(xn + r) else U32(x - xn - p)
  {
    var q, r := x / 256, x % 256;
    assert q * (256 - p0) == q * 256 - q * p0;
    MulMono(0, q, p0);
    MulMono(p0, 256, q);
    U32Small(q * (256 - p0) + r);
    if r >= 256 - p0 {
      U32Small(q * p0 + r - (256 - p0));
    }
  }

  class RansBitWriter {
    var buf: seq<byte>
    var state: nat

    ghost function Value(): State
      reads this
    {
      State(state, buf)
    }

    ghost predicate InRange()
      reads this
    {
      BitRange(state)
    }

    constructor ()
      ensures Value() == State(4096, []) && InRange()
    {
      buf, state := [], 4096;
    }

    method Write(val: bool, p0: nat)
      requires ZeroProb(p0) && InRange()
      modifies this
      ensures InRange() && Value() == EncodeBitStep(old(Value()), p0, val)
    {
      BitStepInverse(Value(), p0, val);
      EmitOnce(Value(), Width(p0, val));
      BitMixFits(BitEmit(Value(), Width(p0, val)).x, p0, val);
      var p := 256 - p0;
      var l := p0;
      if val {
        l := p;
      }
      var threshold := U32(4096 / 256 * 256 * l);
      U32Small(4096 * l);
      if state >= threshold {
        buf := buf + [state % 256];
        state := state / 256;
      }
      var quot, rem := state / l, state % l;
      if val {
        state := U32(quot * 256 + rem);
        return;
      }
      state := U32(quot * 256 + rem + p);
    }

    /** The three-byte tail always suffices, so this never reports an error. */
    method End() returns (out: seq<byte>)
      requires InRange()
      ensures out == Finish(Value(), 1024)
    {
      var d := state - 4096;
      if d < 0x40 {
        out := buf + [d];
      } else if d < 0x4000 {
        var v := 0x4000 + d;
        TwoByteTail(d);
        out := buf + [v % 256, v / 256 % 256];
      } else {
        var v := 0x80_0000 + d;
        ThreeByteTail(d);
        out := buf + [v % 256, v / 256 % 256, v / 0x1_0000 % 256];
      }
    }
  }

  lemma TwoByteTail(d: nat)
    requires d < 0x4000
    ensures var v := 0x4000 + d; v % 256 == d % 256 && v / 256 % 256 == 64 + d / 256 % 64
  {
  }

  lemma ThreeByteTail(d: nat)
    requires d < 0x40_0000
    ensures var v := 0x80_0000 + d;
            v % 256 == d % 256 && v / 256 % 256 == d / 256 % 256 && v / 0x1_0000 % 256 == 128 + d / 0x1_0000 % 64
  {
    var v := 0x80_0000 + d;
    assert v / 256 == 0x8000 + d / 256;
    assert v / 0x1_0000 == 128 + d / 0x1_0000;
  }

  class RansBitDecoder {
    var probZero: nat
    var buf: seq<byte>
    var bufOffset: nat
    var state: nat
    var failed: bool

    ghost predicate Valid()
      reads this
    {
      probZero <= 255 && bufOffset <= |buf| && state < 0x10_0000
    }

    ghost function Value(): State
      requires Valid()
      reads this
    {
      State(state, buf[..bufOffset])
    }

    constructor ()
      ensures Valid() && !failed
    {
      probZero, buf, bufOffset, state, failed := 0, [], 0, 0, false;
    }

    /** Opens a stream at the head of r. */
    method StartDecoding(r: seq<byte>) returns (ok: bool, rest: seq<byte>)
      modifies this
      ensures Valid() && !failed
      ensures ok <==> OpenBits(r).Some?
      ensures ok ==> OpenBits(r).value == (probZero, Value(), rest)
    {
      probZero, buf, bufOffset, state, failed := 0, [], 0, 0, false;
      ok, rest := false, [];
      if |r| == 0 {
        return;
      }
      probZero := r[0];
      match ReadVarUint32(r[1..])
      case None => return;
      case Some((size, after)) =>
        if size > |after| {
          return;
        }
        var data := after[..size];
        var start := StartBits(data);
        if start.Some? {
          StartBitsRange(data);
          buf, bufOffset, state := start.value.buf, |start.value.buf|, start.value.x;
          ok, rest := true, after[size..];
          assert buf[..bufOffset] == buf;
        }
    }

    method DecodeNextBit() returns (bit: bool)
      requires Valid()
      modifies this`bufOffset, this`state
      ensures Valid()
      ensures failed ==> !bit && Value() == old(Value())
      ensures !failed ==> (bit, Value()) == DecodeBitStep(old(Value()), probZero)
    {
      if failed {
        return false;
      }
      var p := 256 - probZero;
      if state < 4096 && bufOffset > 0 {
        assert buf[..bufOffset][..bufOffset - 1] == buf[..bufOffset - 1];
        state := state * 256 + buf[bufOffset - 1];
        bufOffset := bufOffset - 1;
      }
      var x := state;
      var quot, rem := x / 256, x % 256;
      var xn := quot * p;
      BitShrinkFits(x, probZero);
      if rem < p {
        state := U32(xn + rem);
        return true;
      }
      state := U32(x - xn - p);
      return false;
    }

    /** Reads nbits bits, high first; a bad count sets the error. */
    method DecodeLeastSignificantBits32(nbits: int) returns (ok: bool, value: nat)
      requires Valid()
      modifies this
      ensures Valid() && ok == (!old(failed) && 1 <= nbits <= 32) && failed == !ok
      ensures !ok ==> Value() == old(Value())
      ensures probZero == old(probZero)
      ensures ok ==> (Msb(value, nbits), Value()) == DecodeBits(old(Value()), probZero, nbits) && value < Pow2(nbits)
    {
      ok, value := false, 0;
      if failed {
        return;
      }
      if nbits <= 0 || nbits > 32 {
        failed := true;
        return;
      }
      hide DecodeBits, U32, Pow2, MsbValue, Progress;
      ghost var start := Value();
      ghost var read: seq<bool> := [];
      ProgressStart(start, probZero, nbits);
      var n := nbits;
      while n > 0
        invariant 0 <= n <= nbits && Valid() && !failed && probZero == old(probZero)
        invariant |read| == nbits - n && Progress(start, probZero, nbits, read, value, Value())
      {
        ProgressStep(start, probZero, nbits, read, value, Value());
        var bit := DecodeNextBit();
        value := U32(U32(value * 2) + if bit then 1 else 0);
        read := read + [bit];
        n := n - 1;
      }
      ProgressEnd(start, probZero, nbits, read, value, Value());
      ok := true;
    }

    method EndDecoding() returns (ok: bool)
      requires Valid()
      ensures ok <==> !failed && Value().x == 4096
    {
      ok := !failed && state == 4096;
    }
  }

  /** After the bits in read, value holds them and the rest of the decoding is at s. */
  ghost predicate Progress(start: State, p0: nat, total: nat, read: seq<bool>, value: nat, s: State)
    requires p0 <= 255
  {
    |read| <= total && value == MsbValue(read) &&
    DecodeBits(start, p0, total) ==
      (read + DecodeBits(s, p0, total - |read|).0, DecodeBits(s, p0, total - |read|).1)
  }

  lemma ProgressStart(start: State, p0: nat, total: nat)
    requires p0 <= 255
    ensures Progress(start, p0, total, [], 0, start)
  {
    assert [] + DecodeBits(start, p0, total).0 == DecodeBits(start, p0, total).0;
  }

  lemma ProgressStep(start: State, p0: nat, total: nat, read: seq<bool>, value: nat, s: State)
    requires p0 <= 255 && |read| < total <= 32 && Progress(start, p0, total, read, value, s)
    ensures var (bit, d) := DecodeBitStep(s, p0);
            Progress(start, p0, total, read + [bit], U32(U32(value * 2) + if bit then 1 else 0), d)
  {
    hide DecodeBitStep, DecodeBits, U32, MsbValue;
    var (bit, d) := DecodeBitStep(s, p0);
    DecodeUnfold(s, p0, total - |read|);
    PushBit(read, bit);
    var rest := DecodeBits(d, p0, total - |read| - 1).0;
    assert read + ([bit] + rest) == read + [bit] + rest;
  }

  lemma ProgressEnd(start: State, p0: nat, total: nat, read: seq<bool>, value: nat, s: State)
    requires p0 <= 255 && |read| == total && Progress(start, p0, total, read, value, s)
    ensures DecodeBits(start, p0, total) == (Msb(value, total), s) && value < Pow2(total)
  {
    MsbValueBound(read);
    assert DecodeBits(s, p0, 0) == ([], s);
    assert read + [] == read;
  }

  lemma PushBit(read: seq<bool>, bit: bool)
    requires |read| < 32
    ensures U32(U32(MsbValue(read) * 2) + if bit then 1 else 0) == MsbValue(read + [bit])
  {
    MsbValuePush(read, bit);
    WordBound(read + [bit]);
    U32Small(MsbValue(read) * 2);
    U32Small(MsbValue(read + [bit]));
  }

  lemma WordBound(b: seq<bool>)
    requires |b| <= 32
    ensures MsbValue(b) < 0x1_0000_0000
  {
    MsbValueBound(b);
    Pow2Mono(|b|, 32);
    Pow2Of32();
  }

  lemma StartBitsRange(b: seq<byte>)
    ensures StartBits(b).Some? ==> StartBits(b).value.x < 0x10_0000
  {
  }
}
