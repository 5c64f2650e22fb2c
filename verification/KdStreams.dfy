/** The bit streams of the kd-tree coder: what one read returns from each kind of decoder,
    and from the plain list of write operations that the coders stand for. */
module KdStreams {
  import opened Bits
  import opened Rans
  import RansBit
  import DirectBit

  /** One EncodeLeastSignificantBits32 call: the low n bits of v. */
  datatype Op = Op(n: nat, v: nat)

  /** A decoder's state.  Ops is the ideal stream that hands writes back unchanged. */
  datatype Source =
    | Ops(ops: seq<Op>)
    | Direct(bits: seq<bool>)
    | Coded(p0: nat, s: State)
    | Folded(columns: seq<Column>)

  /** One binary rANS decoder. */
  datatype Column = Column(p0: nat, s: State)

  predicate ValidSource(src: Source)
  {
    match src
    case Ops(_) => true
    case Direct(_) => true
    case Coded(p0, _) => p0 <= 255
    case Folded(columns) => |columns| == 32 && forall i :: 0 <= i < 32 ==> columns[i].p0 <= 255
  }

  /** The next bit of each of the first n columns; bit i comes from column i. */
  function FoldRead(columns: seq<Column>, n: nat): (r: (seq<bool>, seq<Column>))
    requires n <= |columns| && forall i :: 0 <= i < |columns| ==> columns[i].p0 <= 255
    ensures |r.0| == n && |r.1| == |columns|
    ensures forall i :: 0 <= i < |columns| ==> r.1[i].p0 == columns[i].p0
  {
    if n == 0 then ([], columns)
    else
      var (bits, rest) := FoldRead(columns, n - 1);
      var (bit, s) := RansBit.DecodeBitStep(columns[n - 1].s, columns[n - 1].p0);
      (bits + [bit], rest[n - 1 := Column(columns[n - 1].p0, s)])
  }

  /** DecodeLeastSignificantBits32: None is a reported error. */
  function Read(src: Source, n: nat): (r: Option<(nat, Source)>)
    requires ValidSource(src)
    ensures r.Some? ==> ValidSource(r.value.1) && 1 <= n <= 32
  {
    if !(1 <= n <= 32) then None
    else
      match src
      case Ops(ops) => if ops != [] && ops[0].n == n then Some((Low(ops[0].v, n), Ops(ops[1..]))) else None
      case Direct(bits) =>
        (match DirectBit.ReadBits(bits, n)
         case None => None
         case Some((v, rest)) => Some((v, Direct(rest))))
      case Coded(p0, s) =>
        var (bits, t) := RansBit.DecodeBits(s, p0, n);
        Some((MsbValue(bits), Coded(p0, t)))
      case Folded(columns) =>
        var (bits, rest) := FoldRead(columns, n);
        Some((MsbValue(bits), Folded(rest)))
  }

  /** DecodeNextBit of the direct decoder: past the end it returns false without an error. */
  function ReadHalf(src: Source): (bool, Source)
  {
    match src
    case Ops(ops) => if ops != [] && ops[0].n == 1 then (Low(ops[0].v, 1) == 1, Ops(ops[1..])) else (false, src)
    case Direct(bits) => if bits == [] then (false, src) else (bits[0], Direct(bits[1..]))
    case _ => (false, src)
  }

  lemma ReadBound(src: Source, n: nat)
    requires ValidSource(src) && Read(src, n).Some?
    ensures Read(src, n).value.0 < Pow2(n)
  {
    match src
    case Ops(ops) => LowBound(ops[0].v, n);
    case Direct(bits) => MsbValueBound(bits[..n]);
    case Coded(p0, s) => MsbValueBound(RansBit.DecodeBits(s, p0, n).0);
    case Folded(columns) => MsbValueBound(FoldRead(columns, n).0);
  }

  lemma ReadOp(n: nat, v: nat, rest: seq<Op>)
    requires 1 <= n <= 32
    ensures Read(Ops([Op(n, v)] + rest), n) == Some((Low(v, n), Ops(rest)))
  {
    assert ([Op(n, v)] + rest)[1..] == rest;
  }

  /** The four streams in the order the codec stores them. */
  datatype Sources = Sources(numbers: Source, remaining: Source, axis: Source, half: Source)

  predicate ValidSources(s: Sources)
  {
    ValidSource(s.numbers) && ValidSource(s.remaining) && ValidSource(s.axis) && ValidSource(s.half)
  }

  /** What has been written to (or is still to be read from) the four streams. */
  datatype Log = Log(numbers: seq<Op>, remaining: seq<Op>, axis: seq<Op>, half: seq<Op>)

  const EMPTY: Log := Log([], [], [], [])

  function Cat(a: Log, b: Log): Log
  {
    Log(a.numbers + b.numbers, a.remaining + b.remaining, a.axis + b.axis, a.half + b.half)
  }

  function OpsOf(l: Log): Sources
  {
    Sources(Ops(l.numbers), Ops(l.remaining), Ops(l.axis), Ops(l.half))
  }

  lemma CatAssoc(a: Log, b: Log, c: Log)
    ensures Cat(Cat(a, b), c) == Cat(a, Cat(b, c))
  {
  }

  lemma CatEmpty(a: Log)
    ensures Cat(EMPTY, a) == a && Cat(a, EMPTY) == a
  {
  }
}
