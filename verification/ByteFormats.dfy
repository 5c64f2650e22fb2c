/** The formats byte by byte, as the readers see them (internal/core, internal/entropy, integer_codec.go):
    where bits, bytes and numbers stand, which numbers name which method, and how far a number reaches. */
module ByteFormats {
  import opened Bits
  import opened Stream
  import opened Rans
  import opened RansBit
  import opened LsbStream
  import opened Probabilities
  import opened SymbolStreams
  import DirectBit

  // ---- numbers -----------------------------------------------------------------------------------------

  /** Four bytes, the lowest first. */
  lemma FourBytes(a: byte, b: byte, c: byte, d: byte, rest: seq<byte>)
    ensures ReadUint32([a, b, c, d] + rest) == Some((a as int + 256 * b as int + 0x1_0000 * c as int + 0x100_0000 * d as int, rest))
  {
    var r := [a, b, c, d] + rest;
    assert r[..4] == [a, b, c, d] && r[4..] == rest;
    LeFirst(a, [b, c, d]);
    LeFirst(b, [c, d]);
    LeFirst(c, [d]);
    LeFirst(d, []);
    assert [a] + [b, c, d] == [a, b, c, d] && [b] + [c, d] == [b, c, d] && [c] + [d] == [c, d] && [d] + [] == [d];
  }

  lemma LeFirst(a: byte, b: seq<byte>)
    ensures LeValue([a] + b) == a as int + 256 * LeValue(b)
  {
    assert ([a] + b)[1..] == b;
  }

  /** Seven bits a byte, the lowest first; all bytes but the last are 128 or more. */
  lemma SevenBits(a: nat, b: nat, c: nat, rest: seq<byte>)
    requires a < 128 && b < 128 && c < 128
    ensures ReadVarUint32([a] + rest) == Some((a, rest)) && ReadVarUint64([a] + rest) == Some((a, rest))
    ensures ReadVarUint32([128 + a, b] + rest) == Some((a + 128 * b, rest)) && ReadVarUint64([128 + a, b] + rest) == Some((a + 128 * b, rest))
    ensures ReadVarUint32([128 + a, 128 + b, c] + rest) == Some((a + 128 * b + 0x4000 * c, rest))
  {
    One(a, rest, 5);
    One(a, rest, 10);
    Two(a, b, rest, 5);
    Two(a, b, rest, 10);
    Two(b, c, rest, 4);
    var r := [128 + a, 128 + b, c] + rest;
    assert r[1..] == [128 + b, c] + rest;
    assert ReadVar(r, 5) == Some((a + 128 * (b + 128 * c), rest));
  }

  lemma One(a: nat, rest: seq<byte>, k: nat)
    requires a < 128 && k > 0
    ensures ReadVar([a] + rest, k) == Some((a, rest))
  {
    assert ([a] + rest)[1..] == rest;
  }

  lemma Two(a: nat, b: nat, rest: seq<byte>, k: nat)
    requires a < 128 && b < 128 && k > 1
    ensures ReadVar([128 + a, b] + rest, k) == Some((a + 128 * b, rest))
  {
    One(b, rest, k - 1);
    assert ([128 + a, b] + rest)[1..] == [b] + rest;
  }

  // ---- probability tables --------------------------------------------------------------------------------

  function Prepended(p: seq<nat>, t: Option<(seq<nat>, seq<byte>)>): Option<(seq<nat>, seq<byte>)>
  {
    match t
    case None => None
    case Some((more, rest)) => Some((p + more, rest))
  }

  /** The two low bits of an entry's first byte tell how many bytes follow, which hold the bits above the
      first six. */
  lemma EntriesRead(a: nat, b: byte, c: byte, n: nat, rest: seq<byte>)
    requires a < 64 && n > 0
    ensures ReadEntries([4 * a] + rest, n) == Prepended([a], ReadEntries(rest, n - 1))
    ensures ReadEntries([4 * a + 1, b] + rest, n) == Prepended([a + 64 * b as int], ReadEntries(rest, n - 1))
    ensures ReadEntries([4 * a + 2, b, c] + rest, n) == Prepended([a + 64 * b as int + 0x4000 * c as int], ReadEntries(rest, n - 1))
  {
    hide ReadEntries;
    EntryRead([4 * a], a, 0, n, rest);
    EntryRead([4 * a + 1, b], a, 1, n, rest);
    EntryRead([4 * a + 2, b, c], a, 2, n, rest);
  }

  /** Three stands for a run of zeros, one more than the upper six bits say. */
  lemma ZerosRead(a: nat, n: nat, rest: seq<byte>)
    requires a < 64 && n > 0
    ensures ReadEntries([4 * a + 3] + rest, n) == if a < n then Prepended(seq(a + 1, _ => 0), ReadEntries(rest, n - a - 1)) else None
  {
    var run := [4 * a + 3] + rest;
    assert run[1..] == rest && run[0] as int % 4 == 3 && run[0] / 4 == a;
  }

  lemma EntryRead(entry: seq<byte>, a: nat, token: nat, n: nat, rest: seq<byte>)
    requires token < 3 && |entry| == token + 1 && a < 64 && entry[0] as int == 4 * a + token && n > 0
    ensures ReadEntries(entry + rest, n) ==
            Prepended([a + (if token > 0 then 64 * entry[1] as int else 0) + if token > 1 then 0x4000 * entry[2] as int else 0],
                      ReadEntries(rest, n - 1))
  {
    var r := entry + rest;
    assert r[0] as int % 4 == token && r[0] / 4 == a && r[1..] == entry[1..] + rest;
    assert token > 0 ==> r[1..][0] == entry[1];
    assert token > 1 ==> r[1..][1] == entry[2];
    assert r[1..][token..] == rest;
  }

  // ---- range coding ----------------------------------------------------------------------------------------

  /** The two high bits of a payload's last byte tell how many bytes before it belong to the first state,
      the lowest first; the state is counted from four times the precision. */
  lemma TailsRead(buf: seq<byte>, t: nat, a: byte, b: byte, c: byte, precision: nat)
    requires t < 64
    ensures Start(buf + [t], precision) == Opened(buf, t, precision)
    ensures Start(buf + [a, 64 + t], precision) == Opened(buf, a as int + 256 * t, precision)
    ensures Start(buf + [a, b, 128 + t], precision) == Opened(buf, a as int + 256 * b as int + 0x1_0000 * t, precision)
    ensures Start(buf + [a, b, c, 192 + t], precision) ==
            Opened(buf, a as int + 256 * b as int + 0x1_0000 * c as int + 0x100_0000 * t, precision)
  {
    TailRead(buf, [t], precision);
    TailRead(buf, [a, 64 + t], precision);
    TailRead(buf, [a, b, 128 + t], precision);
    TailRead(buf, [a, b, c, 192 + t], precision);
  }

  function Opened(buf: seq<byte>, d: nat, precision: nat): Option<State>
  {
    if d >= 1020 * precision then None else Some(State(d + 4 * precision, buf))
  }

  lemma TailRead(buf: seq<byte>, t: seq<byte>, precision: nat)
    requires 1 <= |t| <= 4 && t[|t| - 1] / 64 == |t| - 1
    ensures Start(buf + t, precision) == Opened(buf, TailNumber(t), precision)
  {
    var b := buf + t;
    assert b[|b| - 1] == t[|t| - 1] && b[|buf|..] == t && b[..|buf|] == buf;
  }

  /** A state below its interval takes the bytes from the end of the buffer as its new low bytes. */
  lemma BytesPulled(x: nat, buf: seq<byte>, b: byte, base: nat)
    ensures x < base ==> Fill(State(x, buf + [b]), base) == Fill(State(256 * x + b as int, buf), base)
    ensures x >= base ==> Fill(State(x, buf), base) == State(x, buf)
  {
    assert (buf + [b])[..|buf|] == buf;
  }

  /** The symbols stand in the order of their numbers in every round of slots: slot j of symbol s in round q
      stands for that symbol, and for slot j of the q-th of its own rounds before. */
  lemma SlotsRead(p: seq<nat>, k: nat, n: nat, s: nat, q: nat, j: nat, buf: seq<byte>)
    requires Precision(k) && n == Pow2(k) == Sum(p) && s < |p| && j < p[s] && q >= 4
    ensures n > 0 && DecodeStep(State(q * n + Sum(p[..s]) + j, buf), Lut(p, n), p, n) == (s, State(q * p[s] + j, buf))
  {
    PrecisionRange(k);
    hide Sum, Lut, Pow2;
    var slot := Sum(p[..s]) + j;
    CumMono(p, s, |p|);
    assert p[..|p|] == p;
    MulMono(4, q, n);
    DivModUnique(q * n + slot, n, q, slot);
    CoverUnique(p, Lut(p, n)[slot], s, slot);
  }

  /** Of 256 slots the low ones, one less for each unit of the probability byte, stand for ones. */
  lemma BitSlotsRead(p0: byte, q: nat, j: nat, buf: seq<byte>)
    requires q >= 16 && j < 256
    ensures DecodeBitStep(State(256 * q + j, buf), p0) ==
            if j < 256 - p0 as int then (true, State(q * (256 - p0 as int) + j, buf))
            else (false, State(q * p0 as int + j - (256 - p0 as int), buf))
  {
    DivModUnique(256 * q + j, 256, q, j);
  }

  // ---- bits ------------------------------------------------------------------------------------------------------

  /** Direct bits: the size, then words of four bytes, the lowest first, whose bits are read from the top. */
  lemma DirectRead(a: byte, b: byte, c: byte, d: byte, rest: seq<byte>)
    ensures DirectBit.OpenDirect([4, 0, 0, 0] + ([a, b, c, d] + rest)) == Some((Msb(d, 8) + Msb(c, 8) + Msb(b, 8) + Msb(a, 8), rest))
  {
    hide Msb, LeValue;
    var data := [a, b, c, d];
    FourBytes(4, 0, 0, 0, data + rest);
    TakeConcat(data, rest);
    OneWord(data);
    FourBytes(a, b, c, d, []);
    assert data + [] == data && data[..4] == data;
    WordBits(a, b, c, d);
  }

  lemma OneWord(data: seq<byte>)
    requires |data| == 4
    ensures DirectBit.DataBits(data) == Msb(LeValue(data), 32)
  {
    assert data[0..4] == data && data[4..] == [];
    assert DirectBit.DataBits([]) == [] && Msb(LeValue(data), 32) + [] == Msb(LeValue(data), 32);
  }

  lemma WordBits(a: byte, b: byte, c: byte, d: byte)
    ensures Msb(a as int + 256 * b as int + 0x1_0000 * c as int + 0x100_0000 * d as int, 32) == Msb(d, 8) + Msb(c, 8) + Msb(b, 8) + Msb(a, 8)
  {
    hide Msb;
    MsbBytes(b as int + 256 * c as int + 0x1_0000 * d as int, a, 24);
    MsbBytes(c as int + 256 * d as int, b, 16);
    MsbBytes(d as int, c, 8);
  }

  /** A low byte adds its bits at the end. */
  lemma MsbBytes(high: nat, low: byte, n: nat)
    ensures Msb(256 * high + low as int, n + 8) == Msb(high, n) + Msb(low, 8)
  {
    hide Msb;
    ShlIsProduct(high, 8);
    assert Pow2(8) == 256;
    MsbSplit(high, low, n, 8);
  }

  /** Packed bits: each byte is read from its lowest bit. */
  lemma {:induction false} PackedRead(data: seq<byte>, i: nat)
    requires i < 8 * |data|
    ensures Unpack(data)[i] <==> Shr(data[i / 8], i % 8) % 2 == 1
    decreases |data|
  {
    hide Lsb, Shr;
    if i < 8 {
      LsbAt(data[0], 8, i);
    } else {
      PackedRead(data[1..], i - 8);
    }
  }

  // ---- symbols -----------------------------------------------------------------------------------------------------

  /** The precision of the raw scheme: half as much again as the bits named, rounded down, from 12 to 20. */
  predicate RawPrecision(bits: nat, k: nat)
  {
    if bits <= 8 then k == 12 else if bits >= 14 then k == 20 else 3 * bits - 1 <= 2 * k <= 3 * bits
  }

  /** Raw symbols, with the number 1 and the bits in front, are read with a table of that precision. */
  lemma RawRead(p: seq<nat>, bits: byte, k: nat, symbols: seq<nat>, c: nat, suffix: seq<byte>)
    requires RawPrecision(bits as int, k) && TableOk(p, k) && Coded(p, symbols) && PayloadFits(p, k, symbols) && c > 0 && symbols != []
    ensures ReadSymbols([1, bits] + CoderBytes(p, k, symbols) + suffix, |symbols|, c) == Some((symbols, suffix))
  {
    hide ReadRaw, RawBytes, TableOk, PayloadFits, CoderBytes;
    RawRoundTrip(p, bits, symbols, suffix);
    RawIs(p, bits, symbols);
    var r := [1, bits] + CoderBytes(p, k, symbols) + suffix;
    assert r[1..] == [bits] + CoderBytes(p, k, symbols) + suffix;
  }

  lemma RawIs(p: seq<nat>, bits: byte, symbols: seq<nat>)
    requires TableOk(p, PrecisionBits(bits)) && Coded(p, symbols)
    ensures RawBytes(p, bits, symbols) == [bits] + CoderBytes(p, PrecisionBits(bits), symbols)
  {
  }

  /** Tagged symbols have the number 0 in front, and a table of 12 bits for the tags. */
  lemma TaggedRead(p: seq<nat>, symbols: seq<nat>, c: nat, packed: seq<byte>, suffix: seq<byte>)
    requires c > 0 && symbols != [] && |symbols| % c == 0 && SymbolStreams.Words(symbols)
    requires TableOk(p, 12) && Coded(p, Tags(symbols, c)) && PayloadFits(p, 12, Tags(symbols, c)) && IsPacked(packed, ValueBits(symbols, c))
    ensures ReadSymbols([0] + (CoderBytes(p, 12, Tags(symbols, c)) + packed) + suffix, |symbols|, c) == Some((symbols, suffix))
  {
    hide ReadTagged, TableOk, PayloadFits, CoderBytes, Tags, ValueBits, IsPacked, Coded, SymbolStreams.Words;
    var body := CoderBytes(p, 12, Tags(symbols, c)) + packed;
    TaggedRoundTrip(p, symbols, c, body, suffix);
    assert ([0] + body + suffix)[1..] == body + suffix;
  }
}
