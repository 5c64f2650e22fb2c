/** Direct bit packing (internal/entropy/direct_bit.go): bits go into 32-bit words, high
    bit first, and one last word is always written. */
module DirectBit {
  import opened Bits
  import opened Stream

  // ---- specification ----------------------------------------------------------------

  function Words(w: seq<nat>): (r: seq<bool>)
    ensures |r| == 32 * |w|
  {
    if w == [] then [] else Words(w[..|w| - 1]) + Msb(w[|w| - 1], 32)
  }

  lemma WordsAppend(w: seq<nat>, x: nat)
    ensures Words(w + [x]) == Words(w) + Msb(x, 32)
  {
    assert (w + [x])[..|w|] == w;
  }

  function WordBytes(w: seq<nat>): (r: seq<byte>)
    ensures |r| == 4 * |w|
  {
    if w == [] then [] else WordBytes(w[..|w| - 1]) + LeBytes(w[|w| - 1], 4)
  }

  /** The word stored at byte position pos. */
  function WordAt(data: seq<byte>, pos: nat): nat
    requires pos + 4 <= |data|
  {
    LeValue(data[pos..pos + 4])
  }

  /** All bits of a payload, in reading order. */
  function DataBits(data: seq<byte>): (r: seq<bool>)
    ensures |data| % 4 == 0 ==> |r| == 8 * |data|
  {
    if |data| < 4 then [] else Msb(WordAt(data, 0), 32) + DataBits(data[4..])
  }

  lemma {:induction false} DataBitsAt(data: seq<byte>, i: nat)
    requires 4 * i + 4 <= |data|
    ensures 32 * i + 32 <= |DataBits(data)|
    ensures DataBits(data)[32 * i..32 * i + 32] == Msb(WordAt(data, 4 * i), 32)
    ensures WordAt(data, 4 * i) < WORD
  {
    LeBound(data[4 * i..4 * i + 4]);
    if i > 0 {
      DataBitsAt(data[4..], i - 1);
      assert data[4..][4 * i - 4..4 * i] == data[4 * i..4 * i + 4];
      assert DataBits(data)[32 * i..32 * i + 32] == DataBits(data[4..])[32 * i - 32..32 * i];
    }
  }

  lemma LeBound(b: seq<byte>)
    requires |b| == 4
    ensures LeValue(b) < WORD
  {
    var b1, b2, b3 := b[1..], b[2..], b[3..];
    assert b1[1..] == b2 && b2[1..] == b3 && b3[1..] == [];
    assert LeValue(b3) == b[3] as int;
    assert LeValue(b2) == b[2] as int + 256 * LeValue(b3);
    assert LeValue(b1) == b[1] as int + 256 * LeValue(b2);
  }

  lemma {:induction false} DataBitsConcat(a: seq<byte>, b: seq<byte>)
    requires |a| % 4 == 0
    ensures DataBits(a + b) == DataBits(a) + DataBits(b)
  {
    if a == [] {
      assert a + b == b;
    } else {
      DataBitsConcat(a[4..], b);
      assert (a + b)[4..] == a[4..] + b;
      assert (a + b)[0..4] == a[0..4];
    }
  }

  /** Writing words and reading the bytes back gives the words' bits. */
  lemma {:induction false} DataBitsOfWords(w: seq<nat>)
    requires forall i :: 0 <= i < |w| ==> w[i] < WORD
    ensures DataBits(WordBytes(w)) == Words(w)
  {
    if w != [] {
      var init, last := w[..|w| - 1], w[|w| - 1];
      DataBitsOfWords(init);
      DataBitsConcat(WordBytes(init), LeBytes(last, 4));
      assert Pow256(4) == 0x1_0000_0000;
      LeRoundTrip(last, 4);
      var b := LeBytes(last, 4);
      assert b[0..4] == b;
      assert DataBits(b) == Msb(last, 32) + DataBits(b[4..]) == Msb(last, 32);
    }
  }

  /** The payload of a stream: all bits, zero-padded to the end of the last word. */
  ghost predicate IsDirectPayload(data: seq<byte>, bits: seq<bool>)
  {
    |data| == 4 * (|bits| / 32 + 1) && DataBits(data) == bits + Zeros(32 - |bits| % 32)
  }

  ghost predicate IsDirectStream(out: seq<byte>, bits: seq<bool>)
  {
    |out| >= 4 && IsDirectPayload(out[4..], bits) && out[..4] == LeBytes(|out| - 4, 4)
  }

  /** Payload bits and the bytes after the stream; None when the size is rejected. */
  function OpenDirect(r: seq<byte>): Option<(seq<bool>, seq<byte>)>
  {
    match ReadUint32(r)
    case None => None
    case Some((size, rest)) =>
      if size == 0 || size % 4 != 0 then None
      else
        match Take(rest, size)
        case None => None
        case Some((data, after)) => Some((DataBits(data), after))
  }

  /** Reading a count of bits off the front; None past the end. */
  function ReadBits(bits: seq<bool>, n: nat): Option<(nat, seq<bool>)>
  {
    if n > |bits| then None else Some((MsbValue(bits[..n]), bits[n..]))
  }

  lemma OpenOfDirect(out: seq<byte>, bits: seq<bool>, suffix: seq<byte>)
    requires IsDirectStream(out, bits) && |out| < 0x1_0000_0000
    ensures OpenDirect(out + suffix) == Some((bits + Zeros(32 - |bits| % 32), suffix))
  {
    hide DataBits, LeBytes, LeValue;
    var data := out[4..];
    Uint32RoundTrip(|data|, data + suffix);
    TakeConcat(data, suffix);
    assert out + suffix == LeBytes(|data|, 4) + (data + suffix);
  }

  /** A word that starts with b and is zero after it. */
  ghost predicate Fills(word: nat, b: seq<bool>)
  {
    |b| <= 32 && word < WORD && Msb(word, 32) == b + Zeros(32 - |b|)
  }

  lemma SetBit(local: nat, m: nat)
    requires m < 32 && local < WORD && Msb(local, 32)[m..] == Zeros(32 - m)
    ensures Fills(Or(local, Shl32(1, 31 - m)), Msb(local, 32)[..m] + [true])
  {
    MsbOne();
    MsbShl32(1, 31 - m);
    var y := [true] + Zeros(31 - m);
    assert Msb(Shl32(1, 31 - m), 32) == Zeros(m) + y;
    OrOfParts(local, m, Shl32(1, 31 - m), y);
    Assoc(Msb(local, 32)[..m], [true], Zeros(31 - m));
  }

  lemma MsbOne()
    ensures Msb(1, 32) == Zeros(31) + [true]
  {
    MsbZero(31);
  }

  /** The low n bits of a value, moved to the top of a word. */
  lemma TopBits(value: nat, n: nat)
    requires n <= 32
    ensures Fills(Shl32(value, 32 - n), Msb(value, n))
  {
    MsbShl32(value, 32 - n);
    MsbTop(value, 32 - n, n);
  }

  lemma ZeroSlices(z: nat, b: seq<bool>, k: nat)
    requires k <= |b|
    ensures (Zeros(z) + b)[..z + k] == Zeros(z) + b[..k]
    ensures (Zeros(z) + b)[z + k..] == b[k..]
  {
  }

  lemma ZerosAdd(a: nat, b: nat)
    ensures Zeros(a) + Zeros(b) == Zeros(a + b)
  {
  }

  /** Or-ing a head and a tail that do not overlap. */
  lemma OrOfParts(local: nat, m: nat, right: nat, y: seq<bool>)
    requires m <= 32 && local < WORD && Msb(local, 32)[m..] == Zeros(32 - m)
    requires right < WORD && |y| == 32 - m && Msb(right, 32) == Zeros(m) + y
    ensures Or(local, right) < WORD && Msb(Or(local, right), 32) == Msb(local, 32)[..m] + y
  {
    MsbOr32(local, right);
    forall i | 0 <= i < 32
      ensures Msb(Or(local, right), 32)[i] == (Msb(local, 32)[..m] + y)[i]
    {
      if i < m {
        assert !Msb(right, 32)[i];
      } else {
        assert !Msb(local, 32)[m..][i - m];
      }
    }
  }

  lemma PutWithin(local: nat, m: nat, value: nat, n: nat)
    requires m + n <= 32 && local < WORD && Msb(local, 32)[m..] == Zeros(32 - m)
    ensures Fills(Or(local, Shr(Shl32(value, 32 - n), m)), Msb(local, 32)[..m] + Msb(value, n))
  {
    TopBits(value, n);
    var v := Shl32(value, 32 - n);
    MsbShr(v, m);
    var y := Msb(value, n) + Zeros(32 - m - n);
    assert (Msb(value, n) + Zeros(32 - n))[..32 - m] == y;
    OrOfParts(local, m, Shr(v, m), y);
    Assoc(Msb(local, 32)[..m], Msb(value, n), Zeros(32 - m - n));
  }

  lemma PutAcross(local: nat, m: nat, value: nat, n: nat)
    requires m < 32 && 32 - m < n <= 32 && local < WORD && Msb(local, 32)[m..] == Zeros(32 - m)
    ensures var v := Shr(Shl32(value, 32 - n), 32 - n);
            var used := n - (32 - m);
            Fills(Or(local, Shr(v, used)), Msb(local, 32)[..m] + Msb(value, n)[..32 - m]) &&
            Fills(Shl32(v, 32 - used), Msb(value, n)[32 - m..])
  {
    hide Shl32, Shr, Or, Msb, Zeros, Fills;
    var b := Msb(value, n);
    LowWord(value, n);
    var v := Shr(Shl32(value, 32 - n), 32 - n);
    PutHead(local, m, v, b, n - (32 - m));
    PutTail(v, b, n - (32 - m));
  }

  lemma PutHead(local: nat, m: nat, v: nat, b: seq<bool>, used: nat)
    requires m <= 32 && local < WORD && Msb(local, 32)[m..] == Zeros(32 - m)
    requires v < WORD && |b| == used + 32 - m <= 32 && Msb(v, 32) == Zeros(32 - |b|) + b
    ensures Fills(Or(local, Shr(v, used)), Msb(local, 32)[..m] + b[..32 - m])
  {
    ZeroSlices(32 - |b|, b, 32 - m);
    MsbShr(v, used);
    Assoc(Zeros(used), Zeros(32 - |b|), b[..32 - m]);
    ZerosAdd(used, 32 - |b|);
    OrOfParts(local, m, Shr(v, used), b[..32 - m]);
  }

  lemma PutTail(v: nat, b: seq<bool>, used: nat)
    requires v < WORD && used <= |b| <= 32 && Msb(v, 32) == Zeros(32 - |b|) + b
    ensures Fills(Shl32(v, 32 - used), b[|b| - used..])
  {
    ZeroSlices(32 - |b|, b, |b| - used);
    MsbShl32(v, 32 - used);
  }

  /** Up and down again: only the low n bits are left. */
  lemma LowWord(value: nat, n: nat)
    requires n <= 32
    ensures var v := Shr(Shl32(value, 32 - n), 32 - n);
            v < WORD && Msb(v, 32) == Zeros(32 - n) + Msb(value, n)
  {
    TopBits(value, n);
    MsbShr(Shl32(value, 32 - n), 32 - n);
    assert (Msb(value, n) + Zeros(32 - n))[..n] == Msb(value, n);
  }

  lemma Assoc(a: seq<bool>, b: seq<bool>, c: seq<bool>)
    ensures a + (b + c) == a + b + c
  {
  }

  // ---- the encoder object -------------------------------------------------------------

  class DirectBitEncoder {
    var bits: seq<nat>
    var localBits: nat
    var numLocalBits: nat
    var failed: bool

    /** The bits below the pending ones are zero. */
    ghost predicate Valid()
      reads this
    {
      numLocalBits < 32 && localBits < WORD &&
      Msb(localBits, 32)[numLocalBits..] == Zeros(32 - numLocalBits) &&
      forall i :: 0 <= i < |bits| ==> bits[i] < WORD
    }

    ghost function Contents(): seq<bool>
      requires Valid()
      reads this
    {
      Words(bits) + Msb(localBits, 32)[..numLocalBits]
    }

    constructor ()
      ensures Valid() && Contents() == [] && !failed
    {
      bits, localBits, numLocalBits, failed := [], 0, 0, false;
      MsbZero(32);
    }

    method Clear()
      modifies this
      ensures Valid() && Contents() == [] && !failed
    {
      bits, localBits, numLocalBits, failed := [], 0, 0, false;
      MsbZero(32);
    }

    method EncodeBit(bit: bool)
      requires Valid()
      modifies this
      ensures Valid() && failed == old(failed)
      ensures Contents() == if failed then old(Contents()) else old(Contents()) + [bit]
    {
      if failed {
        return;
      }
      ghost var pending := Msb(localBits, 32)[..numLocalBits];
      if bit {
        SetBit(localBits, numLocalBits);
        localBits := Or(localBits, Shl32(1, 31 - numLocalBits));
      }
      numLocalBits := numLocalBits + 1;
      assert Msb(localBits, 32)[..numLocalBits] == pending + [bit];
      assert Words(bits) + (pending + [bit]) == (Words(bits) + pending) + [bit];
      FlushFullWord();
    }

    method FlushFullWord()
      requires numLocalBits <= 32 && localBits < WORD
      requires Msb(localBits, 32)[numLocalBits..] == Zeros(32 - numLocalBits)
      requires forall i :: 0 <= i < |bits| ==> bits[i] < WORD
      modifies this
      ensures Valid() && failed == old(failed) && numLocalBits == old(numLocalBits) % 32
      ensures Contents() == old(Words(bits) + Msb(localBits, 32)[..numLocalBits])
    {
      if numLocalBits == 32 {
        WordsAppend(bits, localBits);
        bits := bits + [localBits];
        localBits := 0;
        numLocalBits := 0;
        MsbZero(32);
      }
    }

    /** Appends the low nbits bits, high first; a bad count only sets the error. */
    method EncodeLeastSignificantBits32(nbits: int, value: nat)
      requires Valid()
      modifies this
      ensures Valid() && failed == (old(failed) || !(1 <= nbits <= 32))
      ensures Contents() == if failed then old(Contents()) else old(Contents()) + Msb(value, nbits)
    {
      if failed {
        return;
      }
      if nbits <= 0 || nbits > 32 {
        failed := true;
        return;
      }
      var remaining := 32 - numLocalBits;
      var v := Shl32(value, 32 - nbits);
      if nbits <= remaining {
        PutWithin(localBits, numLocalBits, value, nbits);
        ghost var pending := Msb(localBits, 32)[..numLocalBits];
        localBits := Or(localBits, Shr(v, numLocalBits));
        numLocalBits := numLocalBits + nbits;
        Assoc(Words(bits), pending, Msb(value, nbits));
        FlushFullWord();
        return;
      }
      PutAcross(localBits, numLocalBits, value, nbits);
      v := Shr(v, 32 - nbits);
      NextWord(v, nbits, remaining, Msb(value, nbits));
    }

    /** The split over two words. */
    method NextWord(v: nat, nbits: nat, remaining: nat, ghost added: seq<bool>)
      requires Valid() && remaining == 32 - numLocalBits < nbits <= 32 && |added| == nbits
      requires Fills(Or(localBits, Shr(v, nbits - remaining)), Msb(localBits, 32)[..numLocalBits] + added[..remaining])
      requires Fills(Shl32(v, 32 - (nbits - remaining)), added[remaining..])
      modifies this
      ensures Valid() && failed == old(failed)
      ensures Contents() == old(Contents()) + added
    {
      ghost var pending := Msb(localBits, 32)[..numLocalBits];
      numLocalBits := nbits - remaining;
      var left := Shr(v, numLocalBits);
      localBits := Or(localBits, left);
      WordsAppend(bits, localBits);
      bits := bits + [localBits];
      localBits := Shl32(v, 32 - numLocalBits);
      assert added == added[..remaining] + added[remaining..];
      assert Contents() == old(Words(bits)) + (pending + added[..remaining]) + added[remaining..];
    }

    method EndEncoding() returns (ok: bool, out: seq<byte>)
      requires Valid()
      modifies this
      ensures Valid() && Contents() == [] && !failed
      ensures ok == !old(failed)
      ensures ok ==> IsDirectStream(out, old(Contents()))
    {
      out := [];
      if failed {
        Clear();
        return false, [];
      }
      ghost var all := Contents();
      WordsAppend(bits, localBits);
      bits := bits + [localBits];
      PaddedWords(all, Words(bits), localBits, numLocalBits);
      out := WriteWords(bits);
      DirectStreamOf(bits, out, all);
      ok := true;
      Clear();
    }
  }

  lemma PaddedWords(all: seq<bool>, words: seq<bool>, local: nat, m: nat)
    requires m < 32 && Msb(local, 32)[m..] == Zeros(32 - m) && |words| >= 32 && |words| % 32 == 0
    requires all == words[..|words| - 32] + Msb(local, 32)[..m] && words[|words| - 32..] == Msb(local, 32)
    ensures words == all + Zeros(32 - |all| % 32)
  {
  }

  lemma DirectStreamOf(w: seq<nat>, out: seq<byte>, all: seq<bool>)
    requires out == LeBytes(4 * |w|, 4) + WordBytes(w)
    requires forall i :: 0 <= i < |w| ==> w[i] < WORD
    requires Words(w) == all + Zeros(32 - |all| % 32)
    ensures IsDirectStream(out, all)
  {
    DataBitsOfWords(w);
    assert out[4..] == WordBytes(w) && out[..4] == LeBytes(4 * |w|, 4);
  }

  /** Size in bytes, then every word. */
  method WriteWords(w: seq<nat>) returns (out: seq<byte>)
    ensures out == LeBytes(4 * |w|, 4) + WordBytes(w)
  {
    out := LeBytes(4 * |w|, 4);
    for i := 0 to |w|
      invariant out == LeBytes(4 * |w|, 4) + WordBytes(w[..i])
    {
      assert w[..i + 1][..i] == w[..i];
      out := out + LeBytes(w[i], 4);
    }
    assert w[..|w|] == w;
  }

  // ---- the decoder object -------------------------------------------------------------

  class DirectBitDecoder {
    var data: seq<byte>
    var pos: nat
    var numUsedBits: nat
    var failed: bool

    ghost predicate Valid()
      reads this
    {
      |data| % 4 == 0 && pos % 4 == 0 && pos <= |data| && numUsedBits < 32 && (pos == |data| ==> numUsedBits == 0)
    }

    /** The bits not read yet. */
    ghost function Remaining(): seq<bool>
      requires Valid()
      reads this
    {
      DataBits(data)[8 * pos + numUsedBits..]
    }

    constructor ()
      ensures Valid() && !failed
    {
      data, pos, numUsedBits, failed := [], 0, 0, false;
    }

    method StartDecoding(r: seq<byte>) returns (ok: bool, rest: seq<byte>)
      modifies this
      ensures Valid() && !failed
      ensures ok <==> OpenDirect(r).Some?
      ensures ok ==> OpenDirect(r).value == (Remaining(), rest)
    {
      data, pos, numUsedBits, failed := [], 0, 0, false;
      ok, rest := false, [];
      match ReadUint32(r)
      case None => return;
      case Some((size, after)) =>
        if size == 0 || size % 4 != 0 || size > |after| {
          return;
        }
        data := after[..size];
        ok, rest := true, after[size..];
    }

    /** A read past the end returns false without an error. */
    method DecodeNextBit() returns (bit: bool)
      requires Valid()
      modifies this`pos, this`numUsedBits
      ensures Valid()
      ensures var before := old(Remaining());
              if failed || before == [] then !bit && Remaining() == before
              else bit == before[0] && Remaining() == before[1..]
    {
      if failed || pos >= |data| {
        return false;
      }
      var word := WordAt(data, pos);
      PeekBitAtPos(data, pos, numUsedBits);
      bit := Shr(word, 31 - numUsedBits) % 2 == 1;
      numUsedBits := numUsedBits + 1;
      if numUsedBits == 32 {
        pos := pos + 4;
        numUsedBits := 0;
      }
    }

    method DecodeLeastSignificantBits32(nbits: int) returns (ok: bool, value: nat)
      requires Valid()
      modifies this
      ensures Valid()
      ensures failed == (old(failed) || !(1 <= nbits <= 32))
      ensures ok <==> !failed && ReadBits(old(Remaining()), nbits).Some?
      ensures if ok then ReadBits(old(Remaining()), nbits).value == (value, Remaining())
              else Remaining() == old(Remaining())
    {
      ok, value := false, 0;
      if failed {
        return;
      }
      if nbits <= 0 || nbits > 32 {
        failed := true;
        return;
      }
      var remaining := 32 - numUsedBits;
      if nbits <= remaining {
        ok, value := ReadWithin(nbits);
        return;
      }
      ok, value := ReadAcross(nbits);
    }

    method ReadWithin(nbits: nat) returns (ok: bool, value: nat)
      requires Valid() && 1 <= nbits <= 32 - numUsedBits
      modifies this`pos, this`numUsedBits
      ensures Valid()
      ensures ok <==> ReadBits(old(Remaining()), nbits).Some?
      ensures if ok then ReadBits(old(Remaining()), nbits).value == (value, Remaining())
              else Remaining() == old(Remaining())
    {
      hide DataBits, WithinValue;
      if pos >= |data| {
        return false, 0;
      }
      var word := WordAt(data, pos);
      ReadAtPos(data, pos, numUsedBits, nbits);
      value := WithinValue(word, numUsedBits, nbits);
      numUsedBits := numUsedBits + nbits;
      if numUsedBits == 32 {
        pos := pos + 4;
        numUsedBits := 0;
      }
      ok := true;
    }

    method ReadAcross(nbits: nat) returns (ok: bool, value: nat)
      requires Valid() && 32 - numUsedBits < nbits <= 32
      modifies this`pos, this`numUsedBits
      ensures Valid()
      ensures ok <==> ReadBits(old(Remaining()), nbits).Some?
      ensures if ok then ReadBits(old(Remaining()), nbits).value == (value, Remaining())
              else Remaining() == old(Remaining())
    {
      hide DataBits, AcrossValue;
      ShortOf(data, pos, numUsedBits, nbits);
      if pos + 4 >= |data| {
        return false, 0;
      }
      var remaining := 32 - numUsedBits;
      var current, next := WordAt(data, pos), WordAt(data, pos + 4);
      ReadAtPos(data, pos, numUsedBits, nbits);
      value := AcrossValue(current, next, numUsedBits, nbits);
      numUsedBits := nbits - remaining;
      pos := pos + 4;
      ok := true;
    }

    method EndDecoding() returns (ok: bool)
      ensures ok == !failed
    {
      ok := !failed;
    }
  }

  lemma WordBit(word: nat, k: nat)
    requires k < 32
    ensures Shr(word, 31 - k) % 2 == 1 <==> Msb(word, 32)[k]
  {
    MsbTop(word, k + 1, 31 - k);
  }

  lemma PeekBit(data: seq<byte>, i: nat, k: nat)
    requires 4 * i + 4 <= |data| && k < 32
    ensures 32 * i + k < |DataBits(data)|
    ensures Shr(WordAt(data, 4 * i), 31 - k) % 2 == 1 <==> DataBits(data)[32 * i + k]
  {
    DataBitsAt(data, i);
    WordBit(WordAt(data, 4 * i), k);
    assert DataBits(data)[32 * i + k] == DataBits(data)[32 * i..32 * i + 32][k];
  }

  lemma PeekBitAtPos(data: seq<byte>, pos: nat, k: nat)
    requires |data| % 4 == 0 && pos % 4 == 0 && pos + 4 <= |data| && k < 32
    ensures 8 * pos + k < |DataBits(data)|
    ensures Shr(WordAt(data, pos), 31 - k) % 2 == 1 <==> DataBits(data)[8 * pos + k]
  {
    var i := pos / 4;
    assert pos == 4 * i;
    PeekBit(data, i, k);
  }

  lemma PeekOne(data: seq<byte>, i: nat, k: nat, n: nat)
    requires 4 * i + 4 <= |data| && k + n <= 32
    ensures 32 * i + k + n <= |DataBits(data)|
    ensures Shr(Shl32(WordAt(data, 4 * i), k), 32 - n) == MsbValue(DataBits(data)[32 * i + k..][..n])
  {
    DataBitsAt(data, i);
    OneWord(WordAt(data, 4 * i), k, n);
    InnerSlice(DataBits(data), 32 * i, k, n);
  }

  /** Reading n bits at position o splits the rest of the stream. */
  lemma ReadAt(d: seq<bool>, o: nat, n: nat)
    requires o + n <= |d|
    ensures ReadBits(d[o..], n) == Some((MsbValue(d[o..][..n]), d[o + n..]))
  {
    assert d[o..][n..] == d[o + n..];
  }

  /** The bits read at byte position pos, bit k, as the decoder computes them. */
  lemma ReadAtPos(data: seq<byte>, pos: nat, k: nat, n: nat)
    requires |data| % 4 == 0 && pos % 4 == 0 && k < 32 && 1 <= n <= 32
    requires if n <= 32 - k then pos + 4 <= |data| else pos + 8 <= |data|
    ensures 8 * pos + k + n <= |DataBits(data)|
    ensures var value := if n <= 32 - k then WithinValue(WordAt(data, pos), k, n)
                         else AcrossValue(WordAt(data, pos), WordAt(data, pos + 4), k, n);
            ReadBits(DataBits(data)[8 * pos + k..], n) == Some((value, DataBits(data)[8 * pos + k + n..]))
  {
    hide DataBits, Shl32, Shr, Or;
    var i := pos / 4;
    assert pos == 4 * i;
    if n <= 32 - k {
      PeekOne(data, i, k, n);
    } else {
      PeekTwo(data, i, k, n);
    }
    ReadAt(DataBits(data), 32 * i + k, n);
  }

  /** n bits of one word, starting at bit k from the top. */
  function WithinValue(word: nat, k: nat, n: nat): nat
    requires k + n <= 32
  {
    Shr(Shl32(word, k), 32 - n)
  }

  /** The end of one word followed by the start of the next. */
  function AcrossValue(current: nat, next: nat, k: nat, n: nat): nat
    requires k < 32 && 32 - k < n <= 32
  {
    var valueLeft := Shl32(current, k);
    var used := n - (32 - k);
    var valueRight := Shr(next, 32 - used);
    Or(Shr(valueLeft, 32 - used - (32 - k)), valueRight)
  }

  /** A read over a word boundary fails exactly when there is no next word. */
  lemma ShortOf(data: seq<byte>, pos: nat, k: nat, n: nat)
    requires |data| % 4 == 0 && pos % 4 == 0 && pos <= |data| && (pos == |data| ==> k == 0)
    requires k < 32 && 32 - k < n <= 32
    ensures 8 * pos + k <= |DataBits(data)|
    ensures pos + 4 >= |data| <==> ReadBits(DataBits(data)[8 * pos + k..], n) == None
  {
  }

  lemma InnerSlice(d: seq<bool>, o: nat, k: nat, n: nat)
    requires o + 32 <= |d| && k + n <= 32
    ensures d[o + k..][..n] == d[o..o + 32][k..k + n]
  {
    var l, r := d[o + k..][..n], d[o..o + 32][k..k + n];
    forall i | 0 <= i < n
      ensures l[i] == r[i]
    {
      assert l[i] == d[o + k + i];
    }
  }

  lemma PeekTwo(data: seq<byte>, i: nat, k: nat, n: nat)
    requires 4 * i + 8 <= |data| && k < 32 && 32 - k < n <= 32
    ensures 32 * i + k + n <= |DataBits(data)|
    ensures var used := n - (32 - k);
            Or(Shr(Shl32(WordAt(data, 4 * i), k), 32 - n), Shr(WordAt(data, 4 * i + 4), 32 - used)) ==
            MsbValue(DataBits(data)[32 * i + k..][..n])
  {
    hide DataBits, Shl32, Shr, Or, Msb;
    DataBitsAt(data, i);
    DataBitsAt(data, i + 1);
    TwoWords(WordAt(data, 4 * i), WordAt(data, 4 * i + 4), k, n);
    OuterSlice(DataBits(data), 32 * i, k, n);
  }

  lemma OuterSlice(d: seq<bool>, o: nat, k: nat, n: nat)
    requires o + 64 <= |d| && k < 32 && 32 - k < n <= 32
    ensures d[o + k..][..n] == d[o..o + 32][k..] + d[o + 32..o + 64][..n - (32 - k)]
  {
  }

  /** n bits inside one word, starting at bit k from the top. */
  lemma OneWord(word: nat, k: nat, n: nat)
    requires k + n <= 32
    ensures Shr(Shl32(word, k), 32 - n) == MsbValue(Msb(word, 32)[k..k + n])
  {
    MsbShl32(word, k);
    MsbShr(Shl32(word, k), 32 - n);
    ValueOfPadded(Shr(Shl32(word, k), 32 - n), Msb(word, 32)[k..k + n]);
  }

  /** A word whose top bits are zero has the value of its low part. */
  lemma ValueOfPadded(v: nat, b: seq<bool>)
    requires |b| <= 32 && v < WORD && Msb(v, 32) == Zeros(32 - |b|) + b
    ensures v == MsbValue(b)
  {
    MsbValueOf(v, 32);
    Pow2Of32();
    LowBound(v, 32);
    LeadingZeros(32 - |b|, b);
  }

  lemma {:induction false} LeadingZeros(n: nat, b: seq<bool>)
    ensures MsbValue(Zeros(n) + b) == MsbValue(b)
    decreases |b|, n
  {
    if b != [] {
      LeadingZeros(n, b[..|b| - 1]);
      assert (Zeros(n) + b)[..n + |b| - 1] == Zeros(n) + b[..|b| - 1];
    } else if n > 0 {
      LeadingZeros(n - 1, b);
      assert (Zeros(n) + b)[..n - 1] == Zeros(n - 1) + b;
    }
  }

  /** n bits over a word boundary. */
  lemma TwoWords(current: nat, next: nat, k: nat, n: nat)
    requires k < 32 && 32 - k < n <= 32 && next < WORD
    ensures var used := n - (32 - k);
            Or(Shr(Shl32(current, k), 32 - n), Shr(next, 32 - used)) ==
            MsbValue(Msb(current, 32)[k..] + Msb(next, 32)[..used])
  {
    var used := n - (32 - k);
    var c, d := Msb(current, 32)[k..], Msb(next, 32)[..used];
    MsbShl32(current, k);
    MsbShr(Shl32(current, k), 32 - n);
    MsbShr(next, 32 - used);
    var left, right := Shr(Shl32(current, k), 32 - n), Shr(next, 32 - used);
    assert (c + Zeros(k))[..n] == c + Zeros(used);
    Assoc(Zeros(32 - n), c, Zeros(used));
    OrOfParts(left, 32 - used, right, d);
    Assoc(Zeros(32 - n), c, d);
    ValueOfPadded(Or(left, right), c + d);
  }
}
