/** The symbol coder's loops (internal/entropy/symbol_encoding.go, internal/entropy/symbols.go)
    over the coder objects, proved against the formats. */
module SymbolCoding {
  import opened Bits
  import opened Rans
  import opened Stream
  import opened Probabilities
  import opened LsbStream
  import opened SymbolStreams
  import RansDecoding

  // ---- what the encoder gathers -----------------------------------------------------------------

  /** How often each value below n occurs. */
  ghost predicate Counts(symbols: seq<nat>, frequencies: seq<nat>)
  {
    (forall i :: 0 <= i < |symbols| ==> symbols[i] < |frequencies|) &&
    forall v :: 0 <= v < |frequencies| ==> frequencies[v] == multiset(symbols)[v]
  }

  /** How often each value below n occurs, as a table. */
  ghost function Frequencies(symbols: seq<nat>, n: nat): (f: seq<nat>)
    ensures |f| == n
  {
    seq(n, v requires 0 <= v < n => multiset(symbols)[v])
  }

  lemma CountsAreFrequencies(symbols: seq<nat>, frequencies: seq<nat>)
    requires Counts(symbols, frequencies)
    ensures frequencies == Frequencies(symbols, |frequencies|)
  {
  }

  method CountSymbols(symbols: seq<nat>, n: nat) returns (frequencies: seq<nat>)
    requires forall i :: 0 <= i < |symbols| ==> symbols[i] < n
    ensures |frequencies| == n && Counts(symbols, frequencies)
  {
    var counts := new nat[n](_ => 0);
    assert symbols[..0] == [];
    for i := 0 to |symbols|
      invariant forall v :: 0 <= v < n ==> counts[v] == multiset(symbols[..i])[v]
    {
      assert symbols[..i + 1] == symbols[..i] + [symbols[i]];
      counts[symbols[i]] := counts[symbols[i]] + 1;
    }
    assert symbols[..|symbols|] == symbols;
    frequencies := counts[..];
  }

  /** A table with slots for exactly the counted symbols codes them all. */
  lemma CountsCoded(symbols: seq<nat>, frequencies: seq<nat>, p: seq<nat>)
    requires Counts(symbols, frequencies) && Present(frequencies, p)
    ensures Coded(p, symbols)
  {
    forall i | 0 <= i < |symbols|
      ensures symbols[i] < |p| && p[symbols[i]] > 0
    {
      assert symbols[i] in multiset(symbols);
    }
  }

  /** computeBitLengths. */
  method GroupLengths(symbols: seq<nat>, c: nat) returns (lengths: seq<nat>, maxValue: nat)
    requires c > 0 && |symbols| % c == 0
    ensures lengths == Tags(symbols, c)
    ensures forall i :: 0 <= i < |symbols| ==> symbols[i] <= maxValue
    ensures symbols != [] ==> maxValue in symbols
    ensures symbols == [] ==> maxValue == 0
  {
    hide MaxOf, BitLength, Tags, InGroups, ValueBits, GroupBits;
    lengths, maxValue := [], 0;
    var i := 0;
    NoGroupAt(symbols, c);
    InGroupsOf(|symbols|, c);
    ghost var groups: nat := |symbols| / c;
    while i < |symbols|
      invariant 0 <= i <= |symbols| && InGroups(|symbols| - i, c, groups)
      invariant lengths + Tags(symbols[i..], c) == Tags(symbols, c)
      invariant forall k :: 0 <= k < i ==> symbols[k] <= maxValue
      invariant if i == 0 then maxValue == 0 else maxValue in symbols
      decreases |symbols| - i
    {
      NextGroup(|symbols| - i, c, groups);
      GroupAt(symbols, i, c);
      ghost var before := lengths;
      var largest := MaxGroup(symbols, i, c);
      if largest > maxValue || i == 0 {
        maxValue := largest;
      }
      lengths := lengths + [BitLength(largest)];
      assert before + ([BitLength(largest)] + Tags(symbols[i + c..], c)) == lengths + Tags(symbols[i + c..], c);
      groups := groups - 1;
      i := i + c;
    }
    NoGroupAt(symbols, c);
    assert lengths + [] == lengths;
  }

  lemma NextGroup(n: nat, c: nat, groups: nat)
    requires n > 0 && InGroups(n, c, groups)
    ensures n >= c && groups > 0 && InGroups(n - c, c, groups - 1)
  {
  }

  /** The next group, as the recursive definitions see it. */
  lemma GroupAt(symbols: seq<nat>, i: nat, c: nat)
    requires c > 0 && i + c <= |symbols|
    ensures var tag := BitLength(MaxOf(symbols[i..i + c]));
            Tags(symbols[i..], c) == [tag] + Tags(symbols[i + c..], c) &&
            ValueBits(symbols[i..], c) == GroupBits(symbols[i..i + c], tag) + ValueBits(symbols[i + c..], c)
  {
    hide MaxOf, BitLength, GroupBits;
    assert symbols[i..][..c] == symbols[i..i + c] && symbols[i..][c..] == symbols[i + c..];
  }

  lemma NoGroupAt(symbols: seq<nat>, c: nat)
    requires c > 0
    ensures symbols[|symbols|..] == [] && Tags(symbols[|symbols|..], c) == [] && ValueBits(symbols[|symbols|..], c) == []
    ensures symbols[0..] == symbols
  {
  }

  lemma MaxPush(s: seq<nat>, x: nat)
    requires s != []
    ensures MaxOf(s + [x]) == if x > MaxOf(s) then x else MaxOf(s)
    ensures MaxOf([x]) == x
  {
    assert (s + [x])[..|s|] == s;
  }

  method MaxGroup(symbols: seq<nat>, i: nat, c: nat) returns (largest: nat)
    requires c > 0 && i + c <= |symbols|
    ensures largest == MaxOf(symbols[i..i + c]) && largest in symbols
    ensures forall k :: i <= k < i + c ==> symbols[k] <= largest
  {
    hide MaxOf;
    largest := symbols[i];
    assert symbols[i..i + 1] == [symbols[i]];
    MaxPush([symbols[i]], symbols[i]);
    for j := 1 to c
      invariant largest == MaxOf(symbols[i..i + j]) && largest in symbols
      invariant forall k :: i <= k < i + j ==> symbols[k] <= largest
    {
      assert symbols[i..i + j + 1] == symbols[i..i + j] + [symbols[i + j]];
      MaxPush(symbols[i..i + j], symbols[i + j]);
      if symbols[i + j] > largest {
        largest := symbols[i + j];
      }
    }
  }

  // ---- tables and payloads -----------------------------------------------------------------------

  /** The choices floating point makes for one table: rounded shares, a sort order, a scaling. */
  datatype Rounding = Rounding(shares: seq<nat>, order: seq<nat>, scale: (nat, nat) -> nat)

  ghost predicate RoundingOk(frequencies: seq<nat>, k: nat, r: Rounding)
  {
    Shares(frequencies, r.shares, Pow2(k)) && Scales(r.scale) && EndsAt(frequencies, |r.order|) &&
    Ascending(r.order, ForcedTable(frequencies, r.shares, |r.order|))
  }

  /** All symbols, last one first, through the coder object. */
  method EncodePayload(p: seq<nat>, k: nat, symbols: seq<nat>) returns (out: seq<byte>)
    requires TableOk(p, k) && Coded(p, symbols)
    ensures out == Payload(p, k, symbols)
  {
    hide Sum, Finish, Emit;
    var coder := new RansEncoder(k);
    coder.Reset();
    var i := |symbols|;
    assert symbols[|symbols|..] == [];
    while i > 0
      invariant 0 <= i <= |symbols| && coder.Valid() && fresh(coder) && coder.precision == Pow2(k)
      invariant coder.Value() == EncodeAll(p, symbols[i..], Pow2(k))
    {
      i := i - 1;
      assert symbols[i..][1..] == symbols[i + 1..] && symbols[i..][0] == symbols[i];
      coder.WriteSymbol(Entry(p, symbols[i]), p, symbols[i]);
    }
    assert symbols[0..] == symbols;
    out := coder.Bytes();
  }

  /** Builds the table, writes it, and codes the symbols with it. */
  method EncodeCoder(symbols: seq<nat>, n: nat, k: nat, frequencies: seq<nat>, r: Rounding) returns (ok: bool, out: seq<byte>, ghost p: seq<nat>)
    requires Precision(k) && symbols != [] && |frequencies| <= 0x4_0000 && Counts(symbols, frequencies) && RoundingOk(frequencies, k, r)
    ensures ok ==> TableOk(p, k) && Coded(p, symbols) && out == CoderBytes(p, k, symbols)
    ensures ok <==> PresentCount(frequencies) <= Pow2(k)
  {
    CountedSum(symbols, frequencies);
    hide Sum, Shares, Scales, Ascending, ForcedTable, Payload, PresentCount;
    PrecisionRange(k);
    out, p := [], [];
    var table;
    ok, table := BuildTable(frequencies, Pow2(k), r.shares, r.order, r.scale);
    if !ok {
      return;
    }
    p := table;
    CountsCoded(symbols, frequencies, p);
    assert symbols[0] < |p| && p[symbols[0]] > 0;
    LastPositive(frequencies, p);
    TableFits(p, k);
    ok, out := WriteTable(table);
    var payload := EncodePayload(table, k, symbols);
    out := out + (VarBytes(|payload|) + payload);
  }

  lemma CountedSum(symbols: seq<nat>, frequencies: seq<nat>)
    requires Counts(symbols, frequencies) && symbols != []
    ensures Sum(frequencies) > 0
  {
    hide Sum;
    var v := symbols[0];
    assert v in multiset(symbols);
    assert frequencies[v] == multiset(symbols)[v] > 0;
    SumAtLeast(frequencies, v);
  }

  lemma LastPositive(frequencies: seq<nat>, p: seq<nat>)
    requires Present(frequencies, p) && EndsAt(frequencies, |p|) && p != []
    ensures p[|p| - 1] > 0
  {
  }

  // ---- the two schemes ----------------------------------------------------------------------------

  function Between(low: int, v: int, high: int): int
  {
    if v < low then low else if v > high then high else v
  }

  /** Low levels shorten the table, high ones lengthen it. */
  function LevelShift(level: int): int
  {
    if level < 4 then -2 else if level < 6 then -1 else if level > 9 then 2 else if level > 7 then 1 else 0
  }

  /** bits.Len32 of the unique-symbol count, moved by the compression level, clamped to 1..18. */
  method UniqueBits(numUnique: nat, level: int) returns (bits: nat)
    ensures bits == RawBits(numUnique, level)
  {
    var length: int := 1;
    if numUnique > 0 {
      length := BitLength(numUnique);
    }
    if level < 4 {
      length := length - 2;
    } else if level < 6 {
      length := length - 1;
    } else if level > 9 {
      length := length + 2;
    } else if level > 7 {
      length := length + 1;
    }
    if length < 1 {
      length := 1;
    }
    if length > 18 {
      length := 18;
    }
    bits := length;
  }

  method EncodeRaw(symbols: seq<nat>, maxValue: nat, bits: byte, frequencies: seq<nat>, r: Rounding)
    returns (ok: bool, out: seq<byte>, ghost p: seq<nat>)
    requires symbols != [] && 1 <= bits <= 18 && RoundingOk(frequencies, PrecisionBits(bits), r)
    requires Counts(symbols, frequencies) && |frequencies| == maxValue + 1
    ensures maxValue >= Pow2(18) ==> !ok
    ensures ok ==> TableOk(p, PrecisionBits(bits)) && Coded(p, symbols) && out == RawBytes(p, bits, symbols)
    ensures ok <==> maxValue < Pow2(18) && PresentCount(frequencies) <= Pow2(PrecisionBits(bits))
  {
    hide CoderBytes, Counts, RoundingOk, Pow2, PresentCount;
    out, p := [], [];
    RawLimit();
    if maxValue >= 0x4_0000 {
      return false, out, p;
    }
    var coded;
    ok, coded, p := EncodeCoder(symbols, maxValue + 1, PrecisionBits(bits), frequencies, r);
    out := [bits] + coded;
  }

  lemma RawLimit()
    ensures Pow2(18) == 0x4_0000
  {
    assert Pow2(9) == 512;
    Pow2Add(9, 9);
  }

  /** Tags through the coder, then the value bits, group by group. */
  method EncodeTagged(symbols: seq<nat>, c: nat, lengths: seq<nat>, frequencies: seq<nat>, r: Rounding)
    returns (ok: bool, out: seq<byte>, ghost p: seq<nat>)
    requires c > 0 && |symbols| % c == 0 && symbols != [] && Words(symbols) && lengths == Tags(symbols, c) && lengths != []
    requires |frequencies| == 33 && Counts(lengths, frequencies) && RoundingOk(frequencies, 12, r)
    ensures ok ==> TaggedBytes(p, symbols, c, out)
    ensures ok
  {
    FewTags(frequencies);
    hide CoderBytes, Counts, RoundingOk, PresentCount, Pow2, Tags, ValueBits, TableOk, Coded, IsPacked;
    ok, out, p := EncodeCoder(lengths, 33, 12, frequencies, r);
    var packed := PackValues(symbols, c, lengths);
    out := out + packed;
  }

  /** There is room for all 33 tags. */
  lemma FewTags(frequencies: seq<nat>)
    requires |frequencies| == 33
    ensures PresentCount(frequencies) <= Pow2(12)
  {
    hide PresentCount;
    Pow2Mono(6, 12);
    assert Pow2(6) == 64;
  }

  method PackValues(symbols: seq<nat>, c: nat, lengths: seq<nat>) returns (packed: seq<byte>)
    requires c > 0 && |symbols| % c == 0 && Words(symbols) && lengths == Tags(symbols, c)
    ensures IsPacked(packed, ValueBits(symbols, c))
  {
    hide MaxOf, BitLength, GroupBits, IsPacked, Tags, ValueBits, InGroups;
    NoGroupAt(symbols, c);
    var writer := new BitWriter();
    InGroupsOf(|symbols|, c);
    ghost var groups: nat, done := |symbols| / c, [];
    var i, g := 0, 0;
    while i < |symbols|
      invariant 0 <= i <= |symbols| && InGroups(|symbols| - i, c, groups) && g <= |lengths|
      invariant lengths[g..] == Tags(symbols[i..], c) && done + ValueBits(symbols[i..], c) == ValueBits(symbols, c)
      invariant writer.Holds(done) && fresh(writer)
      decreases |symbols| - i
    {
      NextGroup(|symbols| - i, c, groups);
      GroupAt(symbols, i, c);
      var length := lengths[g];
      assert lengths[g..][0] == length && lengths[g..][1..] == lengths[g + 1..];
      TagFits(symbols[i..i + c]);
      WriteGroup(writer, symbols, i, c, length, done);
      assert done + (GroupBits(symbols[i..i + c], length) + ValueBits(symbols[i + c..], c)) == (done + GroupBits(symbols[i..i + c], length)) + ValueBits(symbols[i + c..], c);
      done := done + GroupBits(symbols[i..i + c], length);
      groups := groups - 1;
      i, g := i + c, g + 1;
    }
    assert done + [] == done;
    packed := writer.data;
  }

  method WriteGroup(writer: BitWriter, symbols: seq<nat>, i: nat, c: nat, length: nat, ghost before: seq<bool>)
    requires c > 0 && i + c <= |symbols| && length <= 32 && writer.Holds(before)
    modifies writer
    ensures writer.Holds(before + GroupBits(symbols[i..i + c], length))
  {
    hide IsPacked, Lsb;
    assert symbols[i..i + 0] == [] && before + [] == before;
    for j := 0 to c
      invariant writer.Holds(before + GroupBits(symbols[i..i + j], length))
    {
      GroupPush(symbols[i..i + j], symbols[i + j], length);
      assert symbols[i..i + j + 1] == symbols[i..i + j] + [symbols[i + j]];
      ghost var sofar := before + GroupBits(symbols[i..i + j], length);
      var ok := writer.WriteBitsLSB(symbols[i + j], length, sofar);
      assert sofar + Lsb(symbols[i + j], length) == before + (GroupBits(symbols[i..i + j], length) + Lsb(symbols[i + j], length));
    }
  }

  lemma {:induction false} GroupPush(symbols: seq<nat>, v: nat, n: nat)
    ensures GroupBits(symbols + [v], n) == GroupBits(symbols, n) + Lsb(v, n)
    decreases |symbols|
  {
    hide Lsb;
    if symbols == [] {
      assert [v][1..] == [];
      assert Lsb(v, n) + [] == [] + Lsb(v, n);
      assert [] + [v] == [v];
    } else {
      GroupPush(symbols[1..], v, n);
      assert (symbols + [v])[1..] == symbols[1..] + [v];
    }
  }

  // ---- sizes --------------------------------------------------------------------------------------

  /** An emission writes at most n bytes when the state is below 256^n times the limit. */
  lemma {:induction false} EmitLength(s: State, limit: nat, n: nat)
    requires limit > 0 && s.x < Pow256(n) * limit
    ensures |Emit(s, limit).buf| <= |s.buf| + n
    decreases n
  {
    assert Pow256(0) == 1;
    if s.x >= limit {
      var t := State(s.x / 256, s.buf + [s.x % 256]);
      assert Pow256(n) * limit == 256 * (Pow256(n - 1) * limit);
      EmitLength(t, limit, n - 1);
    }
  }

  lemma {:induction false} EncodedLength(p: seq<nat>, symbols: seq<nat>, k: nat)
    requires TableOk(p, k) && Coded(p, symbols)
    ensures |EncodeAll(p, symbols, Pow2(k)).buf| <= 3 * |symbols|
    decreases |symbols|
  {
    hide Emit, Sum;
    if symbols != [] {
      EncodedLength(p, symbols[1..], k);
      var s := EncodeAll(p, symbols[1..], Pow2(k));
      EncodeAllRange(p, symbols[1..], Pow2(k));
      PrecisionRange(k);
      assert Pow256(3) == 0x100_0000;
      EmitLength(s, 1024 * p[symbols[0]], 3);
    }
  }

  /** At most three bytes for each symbol and four for the final state. */
  lemma PayloadBound(p: seq<nat>, symbols: seq<nat>, k: nat)
    requires TableOk(p, k) && Coded(p, symbols) && |symbols| < WORD
    ensures |Payload(p, k, symbols)| <= 3 * |symbols| + 4 && PayloadFits(p, k, symbols)
  {
    hide EncodeAll;
    EncodedLength(p, symbols, k);
    EncodeAllRange(p, symbols, Pow2(k));
  }

  // ---- EncodeSymbols ------------------------------------------------------------------------------

  /** What floating point decides, as a function of the counted frequencies and the precision. */
  ghost predicate Rounds(rounding: (seq<nat>, nat) -> Rounding)
  {
    forall f: seq<nat>, k: nat :: Precision(k) ==> RoundingOk(f, k, rounding(f, k))
  }

  /** Different symbols. */
  ghost function Different(symbols: seq<nat>): nat
    requires symbols != []
  {
    PresentCount(Frequencies(symbols, MaxOf(symbols) + 1))
  }

  /** Bits of precision asked for in the raw scheme, from how many different symbols there are. */
  function RawBits(numUnique: nat, level: int): (bits: nat)
    ensures 1 <= bits <= 18
  {
    Between(1, BitLength(numUnique) + LevelShift(level), 18)
  }

  /** The width named for a table of so many bits' worth of symbols: two less on the levels up to 3, one less
      on 4 and 5, one more on 8 and 9 and two more above, between 1 and 18. */
  lemma LevelWidths(numUnique: nat, length: nat, level: int)
    requires length >= 1 && Pow2(length - 1) <= numUnique < Pow2(length)
    ensures var wanted := if level <= 3 then length - 2 else if level <= 5 then length - 1 else if level <= 7 then length
                          else if level <= 9 then length + 1 else length + 2;
            RawBits(numUnique, level) == if wanted < 1 then 1 else if wanted > 18 then 18 else wanted
  {
    hide Pow2, BitLength;
    BitLengthFits(numUnique);
    BitLengthBound(numUnique, length);
    if BitLength(numUnique) < length {
      Pow2Mono(BitLength(numUnique), length - 1);
    }
  }

  /** Every compression level leaves slots for all symbols of at most 18 bits. */
  lemma LevelsFit(numUnique: nat, level: int)
    requires numUnique <= 0x4_0000
    ensures numUnique <= Pow2(PrecisionBits(RawBits(numUnique, level)))
  {
    hide Pow2, BitLength;
    var length, k := BitLength(numUnique), PrecisionBits(RawBits(numUnique, level));
    BitLengthFits(numUnique);
    RawLimit();
    NineteenBits(numUnique);
    assert length <= k;
    Pow2Mono(length, k);
  }

  lemma NineteenBits(v: nat)
    requires v <= 0x4_0000
    ensures BitLength(v) <= 19
  {
    RawLimit();
    BitLengthBound(v, 19);
  }

  /** The scheme that EncodeSymbols chooses. */
  predicate UsesTags(symbols: seq<nat>, scheme: int, preferTagged: bool)
    requires symbols != []
  {
    scheme == 0 || (scheme == -1 && (BitLength(MaxOf(symbols)) > 18 || preferTagged))
  }

  /** Symbols are refused for a bad group size or scheme, or for more than 18 bits in the raw scheme. */
  predicate Refused(symbols: seq<nat>, c: nat, scheme: int, preferTagged: bool)
    requires c > 0
  {
    symbols != [] &&
    (|symbols| % c != 0 || scheme !in {-1, 0, 1} || (!UsesTags(symbols, scheme, preferTagged) && MaxOf(symbols) >= 0x4_0000))
  }

  /** A method of -1 leaves the choice to size estimates, here preferTagged. */
  method EncodeSymbols(symbols: seq<nat>, numComponents: int, scheme: int, preferTagged: bool, level: int,
      rounding: (seq<nat>, nat) -> Rounding)
    returns (ok: bool, out: seq<byte>, ghost p: seq<nat>, ghost bits: byte)
    requires Words(symbols) && |symbols| < WORD && Rounds(rounding)
    ensures var c := if numComponents <= 0 then 1 else numComponents;
            (ok <==> !Refused(symbols, c, scheme, preferTagged)) && (ok ==> |symbols| % c == 0 && IsEncoding(symbols, c, p, bits, out))
  {
    hide TaggedBytes, RawBytes, PayloadFits, Payload, Words, Tags, Counts, Rounds, BitLength, MaxOf, Different;
    out, p, bits := [], [], 0;
    if symbols == [] {
      return true, out, p, bits;
    }
    var c := if numComponents <= 0 then 1 else numComponents;
    if |symbols| % c != 0 {
      return false, out, p, bits;
    }
    var lengths, maxValue := GroupLengths(symbols, c);
    var tagged := scheme == 0;
    if scheme == -1 {
      tagged := BitLength(maxValue) > 18 || preferTagged;
    } else if scheme != 0 && scheme != 1 {
      return false, out, p, bits;
    }
    LargestIs(symbols, maxValue);
    if tagged {
      ok, out, p := EncodeTaggedStream(symbols, c, lengths, rounding);
    } else {
      ok, out, p, bits := EncodeRawStream(symbols, maxValue, level, rounding);
    }
  }

  lemma LargestIs(symbols: seq<nat>, v: nat)
    requires v in symbols && forall i :: 0 <= i < |symbols| ==> symbols[i] <= v
    ensures symbols != [] && MaxOf(symbols) == v
  {
  }

  method EncodeTaggedStream(symbols: seq<nat>, c: nat, lengths: seq<nat>, rounding: (seq<nat>, nat) -> Rounding)
    returns (ok: bool, out: seq<byte>, ghost p: seq<nat>)
    requires c > 0 && |symbols| % c == 0 && symbols != [] && Words(symbols) && |symbols| < WORD && lengths == Tags(symbols, c) && Rounds(rounding)
    ensures ok ==> out != [] && out[0] == TAGGED && TaggedBytes(p, symbols, c, out[1..]) && PayloadFits(p, 12, Tags(symbols, c))
    ensures ok
  {
    hide TaggedBytes, PayloadFits, Payload, Tags, Counts, RoundingOk;
    TagsInRange(symbols, c);
    var frequencies := CountSymbols(lengths, 33);
    var data;
    ok, data, p := EncodeTagged(symbols, c, lengths, frequencies, rounding(frequencies, 12));
    out := [TAGGED] + data;
    TaggedTable(p, symbols, c, data);
    PayloadBound(p, Tags(symbols, c), 12);
  }

  /** Tags fit a table of 33 entries, one for each group. */
  lemma {:induction false} TagsInRange(symbols: seq<nat>, c: nat)
    requires c > 0 && Words(symbols)
    ensures |Tags(symbols, c)| <= |symbols| && (|symbols| >= c ==> Tags(symbols, c) != [])
    ensures forall i :: 0 <= i < |Tags(symbols, c)| ==> Tags(symbols, c)[i] < 33
    decreases |symbols|
  {
    hide BitLength, MaxOf;
    if |symbols| >= c {
      TagFits(symbols[..c]);
      TagsInRange(symbols[c..], c);
    }
  }

  method EncodeRawStream(symbols: seq<nat>, maxValue: nat, level: int, rounding: (seq<nat>, nat) -> Rounding)
    returns (ok: bool, out: seq<byte>, ghost p: seq<nat>, ghost bits: byte)
    requires symbols != [] && |symbols| < WORD && Rounds(rounding) && maxValue == MaxOf(symbols)
    ensures ok ==> out != [] && out[0] == RAW && TableOk(p, PrecisionBits(bits)) && Coded(p, symbols) &&
                   out[1..] == RawBytes(p, bits, symbols) && PayloadFits(p, PrecisionBits(bits), symbols)
    ensures ok <==> maxValue < 0x4_0000
    ensures ok ==> bits == RawBits(Different(symbols), level)
  {
    RawLimit();
    hide RawBytes, PayloadFits, Payload, Counts, RoundingOk, Pow2, BitLength, Frequencies, PresentCount;
    out, p, bits := [RAW], [], 0;
    var frequencies := CountSymbols(symbols, maxValue + 1);
    CountsAreFrequencies(symbols, frequencies);
    var numUnique := if maxValue < 0x4_0000 then PresentCount(frequencies) else 0;
    var length := UniqueBits(numUnique, level);
    LevelsFit(numUnique, level);
    var data;
    ok, data, p := EncodeRaw(symbols, maxValue, length, frequencies, rounding(frequencies, PrecisionBits(length)));
    bits := length;
    out := out + data;
    if ok {
      PayloadBound(p, symbols, PrecisionBits(length));
    }
  }

  // ---- DecodeSymbols ------------------------------------------------------------------------------

  /** The decoder object stands at state s of table p. */
  ghost predicate At(d: RansDecoding.RansDecoder, p: seq<nat>, k: nat, s: State)
    reads d, d.lutTable, d.probTable
  {
    Precision(k) && d.precisionBits == k && d.precision == Pow2(k) && Sum(p) == Pow2(k) && d.Current(p) &&
    d.bufOffset <= |d.buf| && d.state < 1024 * Pow2(k) && d.Value() == s
  }

  method CreateDecoder(r: seq<byte>, k: nat) returns (ok: bool, d: RansDecoding.RansDecoder, ghost p: seq<nat>, rest: seq<byte>)
    requires Precision(k)
    ensures fresh(d) && ok == OpenCoder(r, k).Some?
    ensures ok ==> p == OpenCoder(r, k).value.0 && rest == OpenCoder(r, k).value.2 && At(d, p, k, OpenCoder(r, k).value.1)
  {
    hide ReadTable, Start, Sum;
    d := new RansDecoding.RansDecoder(k);
    p, rest := [], [];
    var table := ReadTable(r);
    if table.None? {
      return false, d, p, rest;
    }
    var size := ReadVarUint64(table.value.1);
    if size.None? {
      return false, d, p, rest;
    }
    var data := Take(size.value.1, size.value.0);
    if data.None? {
      return false, d, p, rest;
    }
    p, rest := table.value.0, data.value.1;
    ok := d.BuildLookup(table.value.0);
    if ok {
      ok := d.Init(data.value.0);
    }
  }

  /** One symbol off the object, as the step function has it. */
  method NextSymbol(d: RansDecoding.RansDecoder, ghost p: seq<nat>, ghost k: nat, ghost s: State) returns (symbol: nat)
    requires At(d, p, k, s)
    modifies d`bufOffset, d`state
    ensures At(d, p, k, DecodeStep(s, Lut(p, Pow2(k)), p, Pow2(k)).1)
    ensures symbol == DecodeStep(s, Lut(p, Pow2(k)), p, Pow2(k)).0
  {
    hide Lut, DecodeStep, Sum;
    LutUnique(d.lutTable[..d.precision], Lut(p, Pow2(k)), p, Pow2(k));
    symbol := d.ReadSymbol(p);
  }

  /** c values of n bits each, appended to what has been read. */
  method ReadValues(data: seq<byte>, offset: nat, n: nat, c: nat) returns (ok: bool, values: seq<nat>, next: nat)
    requires offset <= 8 * |data|
    ensures ok == ReadGroup(Unpack(data)[offset..], n, c).Some?
    ensures ok ==> next <= 8 * |data| && ReadGroup(Unpack(data)[offset..], n, c).value == (values, Unpack(data)[next..])
  {
    hide Unpack, LsbValue;
    var bits := Unpack(data);
    values, next := [], offset;
    PrependNothing(ReadGroup(bits[offset..], n, c));
    var j := 0;
    while j < c
      invariant 0 <= j <= c && next <= 8 * |data|
      invariant ReadGroup(bits[offset..], n, c) == Prepend(values, ReadGroup(bits[next..], n, c - j))
    {
      var value, after;
      ok, value, after := ReadBitsLSB(data, next, n);
      if ok {
        assert bits[next..][..n] == bits[next..next + n] && bits[next..][n..] == bits[next + n..];
      }
      if !ok {
        return;
      }
      ReadGroupStep(bits[next..], n, c - j, values);
      values := values + [value];
      next := after;
      j := j + 1;
    }
    ok := true;
    assert values + [] == values;
  }

  ghost function Prepend(values: seq<nat>, r: Option<(seq<nat>, seq<bool>)>): Option<(seq<nat>, seq<bool>)>
  {
    match r
    case None => None
    case Some((more, rest)) => Some((values + more, rest))
  }

  lemma ReadGroupStep(bits: seq<bool>, n: nat, c: nat, values: seq<nat>)
    requires c > 0 && n <= |bits|
    ensures Prepend(values, ReadGroup(bits, n, c)) == Prepend(values + [LsbValue(bits[..n])], ReadGroup(bits[n..], n, c - 1))
  {
    var r := ReadGroup(bits[n..], n, c - 1);
    if r.Some? {
      assert values + ([LsbValue(bits[..n])] + r.value.0) == values + [LsbValue(bits[..n])] + r.value.0;
    }
  }

  /** Tags and values in turn, until all groups are read. */
  method DecodeTagged(r: seq<byte>, n: nat, c: nat) returns (result: Option<(seq<nat>, seq<byte>)>)
    requires c > 0 && n % c == 0
    ensures result == ReadTagged(r, n, c)
  {
    hide OpenCoder, DecodeStep, Lut, ReadGroup, ReadGroups, Prepend, Unpack, At, BytesUsed, InGroups;
    var ok, d, p, data := CreateDecoder(r, 12);
    if !ok {
      return None;
    }
    InGroupsOf(n, c);
    ghost var k: nat, s0 := 12, OpenCoder(r, 12).value.1;
    OpenSum(r, 12);
    ghost var s, bits, groups: nat := s0, Unpack(data), n / c;
    ghost var goal := ReadGroups(s0, p, k, bits, c, n / c);
    var symbols, offset, left := [], 0, n;
    assert bits[0..] == bits && |bits| == 8 * |data|;
    PrependNothing(goal);
    while left > 0
      invariant 0 <= left && InGroups(left, c, groups) && 0 <= offset <= 8 * |data| == |bits| && Sum(p) == Pow2(k)
      invariant At(d, p, k, s) && fresh(d)
      invariant goal == Prepend(symbols, ReadGroups(s, p, k, bits[offset..], c, groups))
      decreases left
    {
      NextGroup(left, c, groups);
      OneGroup(symbols, s, p, k, bits[offset..], c, groups);
      ghost var s1 := DecodeStep(s, Lut(p, Pow2(k)), p, Pow2(k)).1;
      var tag := NextSymbol(d, p, k, s);
      if tag > 32 {
        return None;
      }
      var values, next;
      ok, values, next := ReadValues(data, offset, tag, c);
      if !ok {
        return None;
      }
      symbols := symbols + values;
      offset := next;
      left := left - c;
      groups := groups - 1;
      s := s1;
    }
    NoGroupsLeft(c, groups);
    AllGroupsRead(symbols, s, p, k, bits[offset..], c);
    OffsetUsed(|data|, offset);
    result := Some((symbols, data[(offset + 7) / 8..]));
  }

  lemma OpenSum(r: seq<byte>, k: nat)
    requires OpenCoder(r, k).Some?
    ensures Sum(OpenCoder(r, k).value.0) == Pow2(k)
  {
  }

  lemma PrependNothing(r: Option<(seq<nat>, seq<bool>)>)
    ensures Prepend([], r) == r
  {
    if r.Some? {
      assert [] + r.value.0 == r.value.0;
    }
  }

  lemma GroupsOn(symbols: seq<nat>, values: seq<nat>, r: Option<(seq<nat>, seq<bool>)>)
    ensures Prepend(symbols, Prepend(values, r)) == Prepend(symbols + values, r)
  {
    if r.Some? {
      assert symbols + (values + r.value.0) == symbols + values + r.value.0;
    }
  }

  /** One more group, as the recursive reader has it. */
  lemma OneGroup(symbols: seq<nat>, s: State, p: seq<nat>, k: nat, bits: seq<bool>, c: nat, groups: nat)
    requires Sum(p) == Pow2(k) && groups > 0
    ensures var (tag, s1) := DecodeStep(s, Lut(p, Pow2(k)), p, Pow2(k));
            Prepend(symbols, ReadGroups(s, p, k, bits, c, groups)) ==
            if tag > 32 then None
            else match ReadGroup(bits, tag, c)
                 case None => None
                 case Some((values, rest)) => Prepend(symbols + values, ReadGroups(s1, p, k, rest, c, groups - 1))
  {
    hide DecodeStep, Lut, ReadGroup, Sum, Pow2;
    var (tag, s1) := DecodeStep(s, Lut(p, Pow2(k)), p, Pow2(k));
    if tag <= 32 {
      match ReadGroup(bits, tag, c)
      case None =>
      case Some((values, rest)) => GroupsOn(symbols, values, ReadGroups(s1, p, k, rest, c, groups - 1));
    }
  }

  lemma AllGroupsRead(symbols: seq<nat>, s: State, p: seq<nat>, k: nat, bits: seq<bool>, c: nat)
    requires Sum(p) == Pow2(k)
    ensures Prepend(symbols, ReadGroups(s, p, k, bits, c, 0)) == Some((symbols, bits))
  {
    assert symbols + [] == symbols;
  }

  lemma NoGroupsLeft(c: nat, groups: nat)
    requires c > 0 && InGroups(0, c, groups)
    ensures groups == 0
  {
  }

  lemma OffsetUsed(bytes: nat, offset: nat)
    requires offset <= 8 * bytes
    ensures (offset + 7) / 8 == BytesUsed(bytes, 8 * bytes - offset) <= bytes
  {
  }

  method DecodeRaw(r: seq<byte>, n: nat) returns (result: Option<(seq<nat>, seq<byte>)>)
    ensures result == ReadRaw(r, n)
  {
    hide OpenCoder, DecodeStep, Lut, At;
    if r == [] {
      return None;
    }
    var k := PrecisionBits(r[0]);
    var ok, d, p, rest := CreateDecoder(r[1..], k);
    if !ok {
      return None;
    }
    OpenSum(r[1..], k);
    ghost var s0 := OpenCoder(r[1..], k).value.1;
    ghost var s, goal := s0, DecodeMany(s0, Lut(p, Pow2(k)), p, Pow2(k), n).0;
    var symbols := [];
    assert [] + goal == goal;
    for i := 0 to n
      invariant At(d, p, k, s) && fresh(d)
      invariant goal == symbols + DecodeMany(s, Lut(p, Pow2(k)), p, Pow2(k), n - i).0
    {
      ghost var step := DecodeStep(s, Lut(p, Pow2(k)), p, Pow2(k));
      ghost var more := DecodeMany(step.1, Lut(p, Pow2(k)), p, Pow2(k), n - i - 1).0;
      var symbol := NextSymbol(d, p, k, s);
      assert symbols + ([symbol] + more) == (symbols + [symbol]) + more;
      symbols := symbols + [symbol];
      s := step.1;
    }
    assert symbols + [] == symbols;
    result := Some((symbols, rest));
  }

  /** DecodeSymbols: every outcome, errors included, is the format's. */
  method DecodeSymbols(r: seq<byte>, n: nat, c: nat) returns (result: Option<(seq<nat>, seq<byte>)>)
    requires c > 0 && n % c == 0
    ensures result == ReadSymbols(r, n, c)
  {
    hide ReadTagged, ReadRaw;
    if n == 0 {
      return Some(([], r));
    }
    if r == [] {
      return None;
    }
    if r[0] == TAGGED {
      result := DecodeTagged(r[1..], n, c);
    } else if r[0] == RAW {
      result := DecodeRaw(r[1..], n);
    } else {
      result := None;
    }
  }
}
