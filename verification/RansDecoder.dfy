/** The rANS decoder object (internal/entropy/rans.go): lookup tables built per
    probability table, a cache of eight reused table buffers, and symbol reads. */
module RansDecoding {
  import opened Bits
  import opened Rans

  function Xor(a: nat, b: nat): nat
    decreases a + b
  {
    if a == 0 then b
    else if b == 0 then a
    else 2 * Xor(a / 2, b / 2) + (a + b) % 2
  }

  function HashFrom(h: nat, p: seq<nat>): nat
    decreases |p|
  {
    if p == [] then h else HashFrom(Xor(h, p[0]) * 1099511628211 % 0x1_0000_0000_0000_0000, p[1..])
  }

  /** Hash of a probability table, in 64-bit arithmetic. */
  function Hash(p: seq<nat>): nat
  {
    Xor(HashFrom(1469598103934665603, p), |p|)
  }

  /** Every value fits the 22 bits of the longest table record. The table reader, the only source of
      tables, cannot pass on others; above that a uint32 sum of values could wrap around and hit the
      precision by accident. */
  ghost predicate Records(p: seq<nat>)
  {
    forall i :: 0 <= i < |p| ==> p[i] < 0x40_0000
  }

  /** The storage starts with the lookup tables of p. */
  ghost predicate Holds(lut: array<nat>, probs: array<Sym>, p: seq<nat>, precision: nat)
    reads lut, probs
  {
    Sum(p) == precision &&
    lut.Length >= precision && IsLut(lut[..precision], p, precision) &&
    probs.Length >= |p| && probs[..|p|] == Table(p)
  }

  /** A cache entry is unused (hash 0, no key) or holds the tables of its key. */
  ghost predicate EntryOk(hash: nat, key: seq<nat>, lut: array<nat>, probs: array<Sym>, precision: nat)
    reads lut, probs
  {
    if key == [] then hash == 0 else hash == Hash(key) && Holds(lut, probs, key, precision)
  }

  /** append(dst[:0], src...): in place when the storage is large enough. */
  method Overwrite<T(0)>(dst: array<T>, src: seq<T>) returns (r: array<T>)
    modifies dst
    ensures r == dst || fresh(r)
    ensures r.Length >= |src| && r[..|src|] == src
  {
    r := dst;
    if dst.Length < |src| {
      r := new T[|src|];
    }
    for i := 0 to |src|
      modifies r
      invariant r[..i] == src[..i]
    {
      r[i] := src[i];
    }
  }

  method EmptyArrays<T(0)>(n: nat) returns (arrays: seq<array<T>>)
    ensures |arrays| == n && Distinct(arrays)
    ensures forall i :: 0 <= i < n ==> fresh(arrays[i])
  {
    arrays := [];
    for i := 0 to n
      invariant |arrays| == i && Distinct(arrays)
      invariant forall j :: 0 <= j < i ==> fresh(arrays[j])
    {
      var a := new T[0];
      arrays := arrays + [a];
    }
  }

  ghost predicate Distinct<T>(arrays: seq<array<T>>)
  {
    forall i, j :: 0 <= i < j < |arrays| ==> arrays[i] != arrays[j]
  }

  /** The eight cache entries are embedded in the decoder, one field per column. */
  class RansDecoder {
    const precision: nat
    const precisionBits: nat
    var buf: seq<byte>
    var bufOffset: nat
    var state: nat
    var lutTable: array<nat>
    var probTable: array<Sym>
    var lutWork: array<nat>
    var probWork: array<Sym>
    var cacheHash: seq<nat>
    var cacheKey: seq<seq<nat>>
    var cacheLut: seq<array<nat>>
    var cacheProb: seq<array<Sym>>
    var nextCache: nat

    /** Storage that is new or was one of the decoder's buffers before. */
    twostate predicate OwnStorage()
      reads this
    {
      (lutWork == old(lutWork) || fresh(lutWork)) && (probWork == old(probWork) || fresh(probWork)) &&
      |cacheLut| == |old(cacheLut)| && |cacheProb| == |old(cacheProb)| &&
      (forall i :: 0 <= i < |cacheLut| ==> cacheLut[i] == old(cacheLut)[i] || fresh(cacheLut[i])) &&
      (forall i :: 0 <= i < |cacheProb| ==> cacheProb[i] == old(cacheProb)[i] || fresh(cacheProb[i]))
    }

    /** Buffers are never shared between the work area and the cache. */
    ghost predicate Shape()
      reads this
    {
      Precision(precisionBits) && precision == Pow2(precisionBits) &&
      |cacheHash| == |cacheKey| == |cacheLut| == |cacheProb| == 8 &&
      Distinct(cacheLut) && Distinct(cacheProb) && lutWork !in cacheLut && probWork !in cacheProb
    }

    ghost predicate Valid()
      reads this, cacheLut, cacheProb
    {
      Shape() && forall i :: 0 <= i < 8 ==> EntryOk(cacheHash[i], cacheKey[i], cacheLut[i], cacheProb[i], precision)
    }

    /** The installed tables are those of p. */
    ghost predicate Current(p: seq<nat>)
      reads this, lutTable, probTable
    {
      Holds(lutTable, probTable, p, precision)
    }

    /** The state with the bytes not read yet. */
    ghost function Value(): State
      requires bufOffset <= |buf|
      reads this
    {
      State(state, buf[..bufOffset])
    }

    constructor (precisionBits: nat)
      requires Precision(precisionBits)
      ensures Valid() && fresh(lutWork) && fresh(probWork) && this.precisionBits == precisionBits
      ensures (forall i :: 0 <= i < |cacheLut| ==> fresh(cacheLut[i])) && forall i :: 0 <= i < |cacheProb| ==> fresh(cacheProb[i])
    {
      this.precisionBits := precisionBits;
      precision := Pow2(precisionBits);
      buf, bufOffset, state, nextCache := [], 0, 0, 0;
      lutTable, probTable := new nat[0], new Sym[0];
      lutWork, probWork := new nat[0], new Sym[0];
      var luts := EmptyArrays<nat>(8);
      var probs := EmptyArrays<Sym>(8);
      cacheLut, cacheProb := luts, probs;
      cacheHash, cacheKey := seq(8, _ => 0), seq(8, _ => []);
    }

    /** Whatever was built before, success means exactly that p sums to the precision, and
        then the installed tables are those of a fresh build. */
    method BuildLookup(p: seq<nat>) returns (ok: bool)
      requires Valid() && Records(p)
      modifies this`lutTable, this`probTable, this`lutWork, this`probWork, this`nextCache
      modifies this`cacheHash, this`cacheKey, this`cacheLut, this`cacheProb, lutWork, probWork, cacheLut, cacheProb
      ensures Valid() && OwnStorage()
      ensures ok <==> Sum(p) == precision
      ensures ok ==> Current(p)
    {
      hide IsLut, Table;
      var hash := Hash(p);
      if precision <= 4096 {
        var i := 0;
        while i < 8 && !(cacheHash[i] == hash && cacheKey[i] == p) {
          i := i + 1;
        }
        if i < 8 {
          lutTable, probTable := cacheLut[i], cacheProb[i];
          return true;
        }
      }
      ok := Fill(p);
      if !ok {
        return;
      }
      lutTable, probTable := lutWork, probWork;
      if precision <= 4096 {
        assert cacheLut[nextCache % 8] in cacheLut && cacheProb[nextCache % 8] in cacheProb;
        Store(p, hash);
      }
    }

    /** Loads the state from the tail; false exactly for the buffers Start rejects. */
    method Init(b: seq<byte>) returns (ok: bool)
      requires precision == Pow2(precisionBits) && Precision(precisionBits)
      modifies this`buf, this`bufOffset, this`state
      ensures bufOffset <= |buf| || !ok
      ensures ok <==> Start(b, precision).Some?
      ensures ok ==> bufOffset <= |buf| && Value() == Start(b, precision).value && state < 1024 * precision
    {
      PrecisionRange(precisionBits);
      var offset := |b|;
      if offset < 1 {
        return false;
      }
      var x := b[offset - 1] / 64;
      buf := b;
      if offset < x + 1 {
        return false;
      }
      bufOffset := offset - 1 - x;
      var d := LoadTail(b, x);
      U32Small(d + 4 * precision);
      state := U32(d + 4 * precision);
      ok := state < 4 * precision * 256;
    }

    /** One symbol; the uint32 state cannot wrap, whatever the bytes are. */
    method ReadSymbol(ghost p: seq<nat>) returns (symbol: nat)
      requires precision == Pow2(precisionBits) && Precision(precisionBits)
      requires Current(p) && bufOffset <= |buf| && state < 1024 * precision
      modifies this`bufOffset, this`state
      ensures bufOffset <= |buf| && state < 1024 * precision
      ensures symbol < |p| && p[symbol] > 0
      ensures (symbol, Value()) == DecodeStep(old(Value()), lutTable[..precision], p, precision)
    {
      PrecisionRange(precisionBits);
      ghost var filled := Rans.Fill(Value(), 4 * precision);
      while state < 4 * precision && bufOffset > 0
        invariant bufOffset <= |buf| && state < 1024 * precision
        invariant Rans.Fill(Value(), 4 * precision) == filled
        decreases bufOffset
      {
        assert buf[..bufOffset][..bufOffset - 1] == buf[..bufOffset - 1];
        U32Small(state * 256 + buf[bufOffset - 1]);
        state := U32(state * 256 + buf[bufOffset - 1]);
        bufOffset := bufOffset - 1;
      }
      var quo, rem := state / precision, state % precision;
      assert lutTable[..precision][rem] == lutTable[rem];
      symbol := lutTable[rem];
      assert Covers(p, symbol, rem);
      CumMono(p, symbol, |p|);
      assert p[..|p|] == p;
      var sym := probTable[symbol];
      assert sym == Table(p)[symbol];
      ShrinkFits(state, sym, precision);
      state := U32(U32(quo * sym.prob) + rem - sym.cum);
    }

    /** The plain build into the work buffers. */
    method Fill(p: seq<nat>) returns (ok: bool)
      requires Valid()
      modifies this`lutWork, this`probWork, lutWork, probWork
      ensures Valid()
      ensures OwnStorage()
      ensures ok <==> Sum(p) == precision
      ensures ok ==> Holds(lutWork, probWork, p, precision)
    {
      if lutWork.Length < precision {
        lutWork := new nat[precision];
      }
      if probWork.Length < |p| {
        probWork := new Sym[|p|];
      }
      ok := FillTables(lutWork, probWork, p, precision);
    }

    /** Copies the work buffers into the next entry, reusing its storage. */
    method Store(p: seq<nat>, hash: nat)
      requires Valid() && hash == Hash(p) && p != []
      requires Holds(lutWork, probWork, p, precision) && Shape()
      modifies this`nextCache, this`cacheHash, this`cacheKey, this`cacheLut, this`cacheProb, cacheLut[nextCache % |cacheLut|], cacheProb[nextCache % |cacheProb|]
      ensures Valid() && OwnStorage()
    {
      hide Hash, Sum, Table, IsLut, Holds;
      var k := nextCache % 8;
      var lut, probs := CopyTables(k, |p|, p);
      cacheHash, cacheKey := cacheHash[k := hash], cacheKey[k := p];
      cacheLut, cacheProb := cacheLut[k := lut], cacheProb[k := probs];
      nextCache := nextCache + 1;
    }

    /** The two copies of Store; no other entry's buffer is touched. */
    method CopyTables(k: nat, n: nat, ghost p: seq<nat>) returns (lut: array<nat>, probs: array<Sym>)
      requires Valid() && k < 8 && n == |p| && Holds(lutWork, probWork, p, precision)
      modifies cacheLut[k], cacheProb[k]
      ensures lut == cacheLut[k] || fresh(lut)
      ensures probs == cacheProb[k] || fresh(probs)
      ensures Holds(lut, probs, p, precision)
      ensures forall i :: 0 <= i < 8 && i != k ==> EntryOk(cacheHash[i], cacheKey[i], cacheLut[i], cacheProb[i], precision)
    {
      lut := Overwrite(cacheLut[k], lutWork[..precision]);
      probs := Overwrite(cacheProb[k], probWork[..n]);
    }
  }

  /** The switch of Init over the tail length. */
  method LoadTail(b: seq<byte>, x: nat) returns (d: nat)
    requires x < 4 && |b| > x
    ensures d == TailNumber(b[|b| - 1 - x..])
  {
    var offset := |b|;
    var top := b[offset - 1] as int % 64;
    if x == 0 {
      d := top;
    } else if x == 1 {
      d := b[offset - 2] as int + 256 * top;
    } else if x == 2 {
      d := b[offset - 3] as int + 256 * b[offset - 2] as int + 0x1_0000 * top;
    } else {
      d := b[offset - 4] as int + 256 * b[offset - 3] as int + 0x1_0000 * b[offset - 2] as int + 0x100_0000 * top;
    }
  }

  lemma ShrinkFits(x: nat, sym: Sym, precision: nat)
    requires 0 < precision <= 0x10_0000 && x < 1024 * precision && sym.prob <= precision
    requires sym.cum <= x % precision
    ensures U32(U32(x / precision * sym.prob) + x % precision - sym.cum) == Shrink(x, sym, precision)
    ensures 0 <= Shrink(x, sym, precision) <= x
  {
    hide U32;
    var q := x / precision;
    assert x == q * precision + x % precision;
    MulMono(sym.prob, precision, q);
    MulMono(0, sym.prob, q);
    var y := q * sym.prob;
    assert 0 <= y <= x;
    U32Small(y);
    U32Small(y + x % precision - sym.cum);
  }

  /** Runs over the table once; stops early when the sum exceeds the precision. */
  method FillTables(lut: array<nat>, probs: array<Sym>, p: seq<nat>, precision: nat) returns (ok: bool)
    requires lut.Length >= precision && probs.Length >= |p|
    modifies lut, probs
    ensures ok <==> Sum(p) == precision
    ensures ok ==> Holds(lut, probs, p, precision)
  {
    var cumProb, actProb := 0, 0;
    for i := 0 to |p|
      invariant cumProb == actProb == Cum(p, i) <= precision
      invariant forall s :: 0 <= s < i ==> probs[s] == Entry(p, s)
      invariant forall j :: 0 <= j < cumProb ==> Covers(p, lut[j], j)
    {
      probs[i] := Sym(p[i], cumProb);
      CumNext(p, i);
      cumProb := cumProb + p[i];
      if cumProb > precision {
        CumMono(p, i + 1, |p|);
        assert p[..|p|] == p;
        return false;
      }
      for j := actProb to cumProb
        modifies lut
        invariant forall t :: 0 <= t < j ==> Covers(p, lut[t], t)
      {
        lut[j] := i;
      }
      actProb := cumProb;
    }
    assert p[..|p|] == p;
    ok := cumProb == precision;
  }
}
