/** The symbol formats (internal/entropy/symbol_encoding.go, internal/entropy/symbols.go) as
    functions on bytes: a probability table and a rANS payload, alone or with tagged bits. */
module SymbolStreams {
  import opened Bits
  import opened Rans
  import opened Stream
  import opened Probabilities
  import opened LsbStream

  /** ComputeRansPrecisionBits. */
  function PrecisionBits(n: nat): (k: nat)
    ensures Precision(k)
  {
    if 3 * n / 2 < 12 then 12 else if 3 * n / 2 > 20 then 20 else 3 * n / 2
  }

  // ---- lookup tables as functions -----------------------------------------------------------------

  /** The symbol whose interval contains slot j. */
  function SlotSymbol(p: seq<nat>, j: nat): (s: nat)
    requires j < Sum(p)
    ensures Covers(p, s, j)
    decreases |p|
  {
    var n := |p| - 1;
    if j >= Sum(p[..n]) then n
    else
      var s := SlotSymbol(p[..n], j);
      assert p[..n][..s] == p[..s];
      s
  }

  function Lut(p: seq<nat>, precision: nat): (lut: seq<nat>)
    requires Sum(p) == precision
    ensures IsLut(lut, p, precision)
  {
    seq(precision, j requires 0 <= j < precision => SlotSymbol(p, j))
  }

  // ---- a table with its payload -------------------------------------------------------------------

  ghost predicate TableOk(p: seq<nat>, k: nat)
  {
    Precision(k) && Sum(p) == Pow2(k) && |p| < WORD && (p != [] ==> p[|p| - 1] > 0)
  }

  /** Entries of a table that sums to a precision are far below the format's limit. */
  lemma TableFits(p: seq<nat>, k: nat)
    requires TableOk(p, k)
    ensures p != [] && forall i :: 0 <= i < |p| ==> p[i] < 0x40_0000
  {
    PrecisionRange(k);
    forall i | 0 <= i < |p|
      ensures p[i] < 0x40_0000
    {
      SumAtLeast(p, i);
    }
  }

  ghost predicate Coded(p: seq<nat>, symbols: seq<nat>)
  {
    forall i :: 0 <= i < |symbols| ==> symbols[i] < |p| && p[symbols[i]] > 0
  }

  function Payload(p: seq<nat>, k: nat, symbols: seq<nat>): seq<byte>
    requires TableOk(p, k) && Coded(p, symbols)
  {
    EncodeAllRange(p, symbols, Pow2(k));
    Finish(EncodeAll(p, symbols, Pow2(k)), Pow2(k))
  }

  /** Table, payload size, payload. */
  function CoderBytes(p: seq<nat>, k: nat, symbols: seq<nat>): seq<byte>
    requires TableOk(p, k) && Coded(p, symbols)
  {
    TableFits(p, k);
    TableBytes(p) + (VarBytes(|Payload(p, k, symbols)|) + Payload(p, k, symbols))
  }

  ghost predicate PayloadFits(p: seq<nat>, k: nat, symbols: seq<nat>)
    requires TableOk(p, k) && Coded(p, symbols)
  {
    |Payload(p, k, symbols)| < 0x1_0000_0000_0000_0000
  }

  /** createSymbolDecoder: table, first state and the bytes after the payload. */
  function OpenCoder(r: seq<byte>, k: nat): (o: Option<(seq<nat>, State, seq<byte>)>)
    ensures o.Some? ==> Sum(o.value.0) == Pow2(k) && o.value.1.x < 1024 * Pow2(k)
  {
    match ReadTable(r)
    case None => None
    case Some((p, r1)) =>
      match ReadVarUint64(r1)
      case None => None
      case Some((size, r2)) =>
        match Take(r2, size)
        case None => None
        case Some((data, rest)) =>
          if Sum(p) != Pow2(k) then None
          else
            match Start(data, Pow2(k))
            case None => None
            case Some(s) => Some((p, s, rest))
  }

  lemma CoderRoundTrip(p: seq<nat>, k: nat, symbols: seq<nat>, suffix: seq<byte>)
    requires TableOk(p, k) && Coded(p, symbols) && PayloadFits(p, k, symbols)
    ensures OpenCoder(CoderBytes(p, k, symbols) + suffix, k) == Some((p, EncodeAll(p, symbols, Pow2(k)), suffix))
  {
    hide TableBytes, ReadTable, VarBytes, Payload, Start, EncodeAll, Sum;
    TableFits(p, k);
    var payload := Payload(p, k, symbols);
    var r2 := payload + suffix;
    var r1 := VarBytes(|payload|) + r2;
    assert CoderBytes(p, k, symbols) + suffix == TableBytes(p) + r1;
    TableRoundTrip(p, r1);
    VarUint64RoundTrip(|payload|, r2);
    TakeConcat(payload, suffix);
    PayloadStarts(p, k, symbols);
  }

  lemma PayloadStarts(p: seq<nat>, k: nat, symbols: seq<nat>)
    requires TableOk(p, k) && Coded(p, symbols)
    ensures Start(Payload(p, k, symbols), Pow2(k)) == Some(EncodeAll(p, symbols, Pow2(k)))
  {
    hide Start, Finish;
    EncodeAllRange(p, symbols, Pow2(k));
    StartOfFinish(EncodeAll(p, symbols, Pow2(k)), k);
  }

  // ---- the raw scheme -----------------------------------------------------------------------------

  const TAGGED: nat := 0
  const RAW: nat := 1

  function RawBytes(p: seq<nat>, bits: byte, symbols: seq<nat>): seq<byte>
    requires TableOk(p, PrecisionBits(bits)) && Coded(p, symbols)
  {
    [bits] + CoderBytes(p, PrecisionBits(bits), symbols)
  }

  function ReadRaw(r: seq<byte>, n: nat): Option<(seq<nat>, seq<byte>)>
  {
    if r == [] then None
    else
      var k := PrecisionBits(r[0]);
      match OpenCoder(r[1..], k)
      case None => None
      case Some((p, s, rest)) => Some((DecodeMany(s, Lut(p, Pow2(k)), p, Pow2(k), n).0, rest))
  }

  lemma RawRoundTrip(p: seq<nat>, bits: byte, symbols: seq<nat>, suffix: seq<byte>)
    requires TableOk(p, PrecisionBits(bits)) && Coded(p, symbols) && PayloadFits(p, PrecisionBits(bits), symbols)
    ensures ReadRaw(RawBytes(p, bits, symbols) + suffix, |symbols|) == Some((symbols, suffix))
  {
    hide CoderBytes, OpenCoder, Lut;
    var k := PrecisionBits(bits);
    assert (RawBytes(p, bits, symbols) + suffix)[1..] == CoderBytes(p, k, symbols) + suffix;
    CoderRoundTrip(p, k, symbols, suffix);
    RoundTrip(Lut(p, Pow2(k)), p, symbols, k);
  }

  // ---- the tagged scheme --------------------------------------------------------------------------

  function MaxOf(s: seq<nat>): (m: nat)
    requires s != []
    ensures forall i :: 0 <= i < |s| ==> s[i] <= m
    ensures m in s
  {
    if |s| == 1 then s[0]
    else
      var m := MaxOf(s[..|s| - 1]);
      assert s == s[..|s| - 1] + [s[|s| - 1]];
      if s[|s| - 1] > m then s[|s| - 1] else m
  }

  /** One tag for each group of c symbols. */
  function Tags(symbols: seq<nat>, c: nat): (r: seq<nat>)
    requires c > 0
    decreases |symbols|
  {
    if |symbols| < c then [] else [BitLength(MaxOf(symbols[..c]))] + Tags(symbols[c..], c)
  }

  function GroupBits(symbols: seq<nat>, n: nat): seq<bool>
  {
    if symbols == [] then [] else Lsb(symbols[0], n) + GroupBits(symbols[1..], n)
  }

  /** All value bits, each symbol with its group's length. */
  function ValueBits(symbols: seq<nat>, c: nat): seq<bool>
    requires c > 0
    decreases |symbols|
  {
    if |symbols| < c then []
    else GroupBits(symbols[..c], BitLength(MaxOf(symbols[..c]))) + ValueBits(symbols[c..], c)
  }

  /** c values of n bits from the front. */
  function ReadGroup(bits: seq<bool>, n: nat, c: nat): (r: Option<(seq<nat>, seq<bool>)>)
    ensures r.Some? ==> |r.value.0| == c && |r.value.1| <= |bits|
    decreases c
  {
    if c == 0 then Some(([], bits))
    else if n > |bits| then None
    else
      match ReadGroup(bits[n..], n, c - 1)
      case None => None
      case Some((values, rest)) => Some(([LsbValue(bits[..n])] + values, rest))
  }

  /** Tag, then values, group after group. */
  function ReadGroups(s: State, p: seq<nat>, k: nat, bits: seq<bool>, c: nat, groups: nat): (r: Option<(seq<nat>, seq<bool>)>)
    requires Sum(p) == Pow2(k)
    ensures r.Some? ==> |r.value.1| <= |bits|
    decreases groups
  {
    if groups == 0 then Some(([], bits))
    else
      var (tag, s1) := DecodeStep(s, Lut(p, Pow2(k)), p, Pow2(k));
      if tag > 32 then None
      else
        match ReadGroup(bits, tag, c)
        case None => None
        case Some((values, rest)) =>
          match ReadGroups(s1, p, k, rest, c, groups - 1)
          case None => None
          case Some((more, last)) => Some((values + more, last))
  }

  ghost predicate TaggedBytes(p: seq<nat>, symbols: seq<nat>, c: nat, out: seq<byte>)
    requires c > 0
  {
    TableOk(p, 12) && Coded(p, Tags(symbols, c)) &&
    exists packed :: IsPacked(packed, ValueBits(symbols, c)) && out == CoderBytes(p, 12, Tags(symbols, c)) + packed
  }

  /** Bytes begun by the bits read so far. */
  function BytesUsed(bytes: nat, left: nat): (n: nat)
    requires left <= 8 * bytes
    ensures n <= bytes
  {
    (8 * bytes - left + 7) / 8
  }

  /** The value bits end inside a byte, whose remaining bits are skipped. */
  function ReadTagged(r: seq<byte>, n: nat, c: nat): Option<(seq<nat>, seq<byte>)>
    requires c > 0
  {
    match OpenCoder(r, 12)
    case None => None
    case Some((p, s, rest)) =>
      match ReadGroups(s, p, 12, Unpack(rest), c, n / c)
      case None => None
      case Some((symbols, left)) =>
        Some((symbols, rest[BytesUsed(|rest|, |left|)..]))
  }

  lemma {:induction false} GroupRoundTrip(symbols: seq<nat>, n: nat, rest: seq<bool>)
    requires forall i :: 0 <= i < |symbols| ==> symbols[i] < Pow2(n)
    ensures ReadGroup(GroupBits(symbols, n) + rest, n, |symbols|) == Some((symbols, rest))
    decreases |symbols|
  {
    hide Lsb, LsbValue, Low;
    if symbols == [] {
      assert GroupBits(symbols, n) + rest == rest;
    } else {
      GroupRoundTrip(symbols[1..], n, rest);
      var more := GroupBits(symbols[1..], n) + rest;
      assert GroupBits(symbols, n) + rest == Lsb(symbols[0], n) + more;
      FirstValue(symbols[0], n, more);
      assert symbols == [symbols[0]] + symbols[1..];
    }
  }

  lemma FirstValue(v: nat, n: nat, more: seq<bool>)
    requires v < Pow2(n)
    ensures |Lsb(v, n) + more| >= n && (Lsb(v, n) + more)[n..] == more && LsbValue((Lsb(v, n) + more)[..n]) == v
  {
    assert (Lsb(v, n) + more)[..n] == Lsb(v, n);
    LsbValueOf(v, n);
    LowBound(v, n);
  }

  ghost predicate Words(symbols: seq<nat>)
  {
    forall i :: 0 <= i < |symbols| ==> symbols[i] < WORD
  }

  /** A group's tag is at most 32 and wide enough for all its symbols. */
  lemma TagFits(symbols: seq<nat>)
    requires symbols != [] && Words(symbols)
    ensures BitLength(MaxOf(symbols)) <= 32 && forall i :: 0 <= i < |symbols| ==> symbols[i] < Pow2(BitLength(MaxOf(symbols)))
  {
    Pow2Of32();
    BitLengthFits(MaxOf(symbols));
    BitLengthBound(MaxOf(symbols), 32);
  }

  /** n symbols make up so many groups of c. */
  ghost predicate InGroups(n: nat, c: nat, groups: nat)
    decreases groups
  {
    if groups == 0 then n == 0 else n >= c && InGroups(n - c, c, groups - 1)
  }

  lemma {:induction false} InGroupsOf(n: nat, c: nat)
    requires c > 0 && n % c == 0
    ensures InGroups(n, c, n / c)
    decreases n
  {
    if n >= c {
      DivModUnique(n - c, c, n / c - 1, 0);
      InGroupsOf(n - c, c);
    } else {
      assert n == 0 && n / c == 0;
    }
  }

  /** Reading tags and values in turn returns the symbols and leaves the bits after them. */
  lemma {:induction false} GroupsRoundTrip(s: State, p: seq<nat>, k: nat, symbols: seq<nat>, c: nat, groups: nat, rest: seq<bool>)
    requires c > 0 && InGroups(|symbols|, c, groups) && Words(symbols) && TableOk(p, k) && Coded(p, Tags(symbols, c))
    requires Fill(s, 4 * Pow2(k)) == EncodeAll(p, Tags(symbols, c), Pow2(k))
    ensures ReadGroups(s, p, k, ValueBits(symbols, c) + rest, c, groups) == Some((symbols, rest))
    decreases groups
  {
    hide Lut, DecodeStep, EncodeAll, Fill, ReadGroups, ValueBits, BitLength, MaxOf, Sum;
    if groups == 0 {
      EmptyGroups(s, p, k, symbols, c, rest);
    } else {
      var more := symbols[c..];
      TagStep(s, p, k, Tags(more, c), BitLength(MaxOf(symbols[..c])));
      GroupsRoundTrip(DecodeStep(s, Lut(p, Pow2(k)), p, Pow2(k)).1, p, k, more, c, groups - 1, rest);
      GroupsStep(s, p, k, symbols, c, groups, rest);
    }
  }

  lemma EmptyGroups(s: State, p: seq<nat>, k: nat, symbols: seq<nat>, c: nat, rest: seq<bool>)
    requires c > 0 && symbols == [] && Sum(p) == Pow2(k)
    ensures ReadGroups(s, p, k, ValueBits(symbols, c) + rest, c, 0) == Some((symbols, rest))
  {
    assert ValueBits(symbols, c) == [] && [] + rest == rest;
  }

  lemma GroupsStep(s: State, p: seq<nat>, k: nat, symbols: seq<nat>, c: nat, groups: nat, rest: seq<bool>)
    requires 0 < c <= |symbols| && groups > 0 && Words(symbols) && Sum(p) == Pow2(k)
    requires var (t, s1) := DecodeStep(s, Lut(p, Pow2(k)), p, Pow2(k));
             t == BitLength(MaxOf(symbols[..c])) &&
             ReadGroups(s1, p, k, ValueBits(symbols[c..], c) + rest, c, groups - 1) == Some((symbols[c..], rest))
    ensures ReadGroups(s, p, k, ValueBits(symbols, c) + rest, c, groups) == Some((symbols, rest))
  {
    hide Lut, DecodeStep, GroupBits, ReadGroup, BitLength, MaxOf, Sum;
    var group, more := symbols[..c], symbols[c..];
    TagFits(group);
    var tag := BitLength(MaxOf(group));
    GroupRoundTrip(group, tag, ValueBits(more, c) + rest);
    assert ValueBits(symbols, c) + rest == GroupBits(group, tag) + (ValueBits(more, c) + rest);
    assert symbols == group + more;
  }

  /** One tag off a state that fills to the encoder's. */
  lemma TagStep(s: State, p: seq<nat>, k: nat, more: seq<nat>, tag: nat)
    requires TableOk(p, k) && Coded(p, [tag] + more) && Fill(s, 4 * Pow2(k)) == EncodeAll(p, [tag] + more, Pow2(k))
    ensures var (t, s1) := DecodeStep(s, Lut(p, Pow2(k)), p, Pow2(k));
            t == tag && Coded(p, more) && Fill(s1, 4 * Pow2(k)) == EncodeAll(p, more, Pow2(k))
  {
    hide Lut, Emit, Pow2, Sum;
    var tags := [tag] + more;
    assert tags[1..] == more && tags[0] == tag;
    assert forall i :: 0 <= i < |more| ==> more[i] == tags[i + 1];
    EncodeAllRange(p, more, Pow2(k));
    EncodeAllRange(p, tags, Pow2(k));
    StepInverse(EncodeAll(p, more, Pow2(k)), Lut(p, Pow2(k)), p, tag, Pow2(k));
    assert Fill(EncodeAll(p, tags, Pow2(k)), 4 * Pow2(k)) == EncodeAll(p, tags, Pow2(k));
  }

  lemma TaggedRoundTrip(p: seq<nat>, symbols: seq<nat>, c: nat, out: seq<byte>, suffix: seq<byte>)
    requires c > 0 && |symbols| % c == 0 && Words(symbols) && TaggedBytes(p, symbols, c, out)
    requires TableOk(p, 12) && Coded(p, Tags(symbols, c)) && PayloadFits(p, 12, Tags(symbols, c))
    ensures ReadTagged(out + suffix, |symbols|, c) == Some((symbols, suffix))
  {
    hide CoderBytes, OpenCoder, ReadGroups, ValueBits, Unpack, EncodeAll, PayloadFits, Pow2, Sum;
    var packed :| IsPacked(packed, ValueBits(symbols, c)) && out == CoderBytes(p, 12, Tags(symbols, c)) + packed;
    assert out + suffix == CoderBytes(p, 12, Tags(symbols, c)) + (packed + suffix);
    CoderRoundTrip(p, 12, Tags(symbols, c), packed + suffix);
    PackedThenSuffix(p, 12, symbols, c, packed, suffix);
    assert (packed + suffix)[|packed|..] == suffix;
  }

  lemma PackedThenSuffix(p: seq<nat>, k: nat, symbols: seq<nat>, c: nat, packed: seq<byte>, suffix: seq<byte>)
    requires c > 0 && |symbols| % c == 0 && Words(symbols) && TableOk(p, k) && Coded(p, Tags(symbols, c))
    requires IsPacked(packed, ValueBits(symbols, c))
    ensures var r := ReadGroups(EncodeAll(p, Tags(symbols, c), Pow2(k)), p, k, Unpack(packed + suffix), c, |symbols| / c);
            r.Some? && r.value.0 == symbols && BytesUsed(|packed + suffix|, |r.value.1|) == |packed|
  {
    hide ReadGroups, ValueBits, Unpack, EncodeAll, Sum, TableOk, Words, InGroups, BytesUsed, Tags;
    var bits := ValueBits(symbols, c);
    UnpackConcat(packed, suffix);
    var left := Bits.Zeros(8 * |packed| - |bits|) + Unpack(suffix);
    assert Unpack(packed + suffix) == bits + left;
    CoderFilled(p, k, Tags(symbols, c));
    InGroupsOf(|symbols|, c);
    GroupsRoundTrip(EncodeAll(p, Tags(symbols, c), Pow2(k)), p, k, symbols, c, |symbols| / c, left);
    BytesUsedUp(|packed|, |suffix|, |bits|);
  }

  lemma BytesUsedUp(packed: nat, suffix: nat, bits: nat)
    requires packed == (bits + 7) / 8
    ensures bits <= 8 * packed && BytesUsed(packed + suffix, 8 * packed - bits + 8 * suffix) == packed
  {
  }

  lemma CoderFilled(p: seq<nat>, k: nat, symbols: seq<nat>)
    requires TableOk(p, k) && Coded(p, symbols)
    ensures var e := EncodeAll(p, symbols, Pow2(k)); Fill(e, 4 * Pow2(k)) == e
  {
    EncodeAllRange(p, symbols, Pow2(k));
  }

  // ---- whole symbol streams -----------------------------------------------------------------------

  /** What EncodeSymbols may write: nothing for no symbols, otherwise a scheme byte and its data. */
  ghost predicate IsEncoding(symbols: seq<nat>, c: nat, p: seq<nat>, bits: byte, out: seq<byte>)
    requires c > 0
  {
    if symbols == [] then out == []
    else
      out != [] &&
      ((out[0] == TAGGED && TaggedBytes(p, symbols, c, out[1..]) && PayloadFits(p, 12, Tags(symbols, c))) ||
       (out[0] == RAW && TableOk(p, PrecisionBits(bits)) && Coded(p, symbols) && out[1..] == RawBytes(p, bits, symbols) &&
        PayloadFits(p, PrecisionBits(bits), symbols)))
  }

  /** DecodeSymbols: None is a reported error. */
  function ReadSymbols(r: seq<byte>, n: nat, c: nat): Option<(seq<nat>, seq<byte>)>
    requires c > 0
  {
    if n == 0 then Some(([], r))
    else if r == [] then None
    else if r[0] == TAGGED then ReadTagged(r[1..], n, c)
    else if r[0] == RAW then ReadRaw(r[1..], n)
    else None
  }

  /** The symbol codec's law: whatever scheme and table the encoder chose, decoding its bytes,
      followed by anything, returns the symbols and stops exactly at what follows. */
  lemma SymbolsRoundTrip(symbols: seq<nat>, c: nat, p: seq<nat>, bits: byte, out: seq<byte>, suffix: seq<byte>)
    requires c > 0 && |symbols| % c == 0 && Words(symbols) && IsEncoding(symbols, c, p, bits, out)
    ensures ReadSymbols(out + suffix, |symbols|, c) == Some((symbols, suffix))
  {
    hide TaggedBytes, RawBytes, ReadTagged, ReadRaw, PayloadFits;
    if symbols == [] {
      assert out + suffix == suffix;
    } else {
      assert (out + suffix)[1..] == out[1..] + suffix && (out + suffix)[0] == out[0];
      if out[0] == TAGGED {
        TaggedTable(p, symbols, c, out[1..]);
        TaggedRoundTrip(p, symbols, c, out[1..], suffix);
      } else {
        RawRoundTrip(p, bits, symbols, suffix);
      }
    }
  }

  lemma {:induction false} GroupsCounted(s: State, p: seq<nat>, k: nat, bits: seq<bool>, c: nat, groups: nat)
    requires Sum(p) == Pow2(k)
    ensures ReadGroups(s, p, k, bits, c, groups).Some? ==> |ReadGroups(s, p, k, bits, c, groups).value.0| == groups * c
    decreases groups
  {
    hide Lut, DecodeStep, ReadGroup, Sum, Pow2;
    if groups > 0 {
      var (tag, s1) := DecodeStep(s, Lut(p, Pow2(k)), p, Pow2(k));
      assert groups * c == (groups - 1) * c + c;
      if tag <= 32 {
        match ReadGroup(bits, tag, c)
        case None =>
        case Some((values, rest)) => GroupsCounted(s1, p, k, rest, c, groups - 1);
      }
    }
  }

  lemma QuotientTimes(n: nat, c: nat)
    requires c > 0 && n % c == 0
    ensures n / c * c == n
  {
  }

  lemma {:induction false} ManyCounted(s: State, lut: seq<nat>, p: seq<nat>, precision: nat, n: nat)
    requires precision > 0 && IsLut(lut, p, precision)
    ensures |DecodeMany(s, lut, p, precision, n).0| == n
    decreases n
  {
    hide DecodeStep, IsLut;
    if n > 0 {
      ManyCounted(DecodeStep(s, lut, p, precision).1, lut, p, precision, n - 1);
    }
  }

  lemma RawCounted(r: seq<byte>, n: nat)
    ensures ReadRaw(r, n).Some? ==> |ReadRaw(r, n).value.0| == n
  {
    hide OpenCoder, DecodeMany, Pow2, Sum, Lut;
    if r != [] {
      var k := PrecisionBits(r[0]);
      match OpenCoder(r[1..], k)
      case None =>
      case Some((p, s, rest)) => ManyCounted(s, Lut(p, Pow2(k)), p, Pow2(k), n);
    }
  }

  /** A successful read returns as many symbols as were asked for. */
  lemma SymbolsCounted(r: seq<byte>, n: nat, c: nat)
    requires c > 0 && n % c == 0
    ensures ReadSymbols(r, n, c).Some? ==> |ReadSymbols(r, n, c).value.0| == n
  {
    hide ReadGroups, OpenCoder, Lut, DecodeMany, Unpack, Pow2, Sum;
    if n > 0 && r != [] && r[0] == TAGGED {
      match OpenCoder(r[1..], 12)
      case None =>
      case Some((p, s, rest)) =>
        QuotientTimes(n, c);
        GroupsCounted(s, p, 12, Unpack(rest), c, n / c);
    } else if n > 0 && r != [] {
      RawCounted(r[1..], n);
    }
  }

  lemma TaggedTable(p: seq<nat>, symbols: seq<nat>, c: nat, out: seq<byte>)
    requires c > 0 && TaggedBytes(p, symbols, c, out)
    ensures TableOk(p, 12) && Coded(p, Tags(symbols, c))
  {
  }
}
