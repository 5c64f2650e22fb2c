/** The kd-tree codec on bytes (internal/codec/kdtree/dynamic.go): header, four streams, the
    final stream check, and the lossless round trip with its exact exception. */
module KdCodec {
  import opened Bits
  import opened Rans
  import opened Stream
  import opened RansBit
  import opened RansBitCoding
  import opened DirectBit
  import opened FoldedBit
  import opened KdStreams
  import opened KdTree
  import opened KdRoundTrip
  import KdEncode
  import KdDecode

  // ---- number streams by compression level -------------------------------------------------

  /** The bits that a list of writes sends to one coder. */
  function OpsBits(ops: seq<Op>): seq<bool>
  {
    if ops == [] then [] else OpsBits(ops[..|ops| - 1]) + Msb(ops[|ops| - 1].v, ops[|ops| - 1].n)
  }

  lemma OpsBitsPush(ops: seq<Op>, op: Op)
    ensures OpsBits(ops + [op]) == OpsBits(ops) + Msb(op.v, op.n)
  {
    assert (ops + [op])[..|ops|] == ops;
  }

  lemma {:induction false} OpsBitsHead(op: Op, rest: seq<Op>)
    ensures OpsBits([op] + rest) == Msb(op.v, op.n) + OpsBits(rest)
    decreases |rest|
  {
    if rest == [] {
      assert [op] + rest == [] + [op];
      OpsBitsPush([], op);
      assert Msb(op.v, op.n) + [] == Msb(op.v, op.n);
    } else {
      var m := |rest| - 1;
      OpsBitsHead(op, rest[..m]);
      assert [op] + rest == ([op] + rest[..m]) + [rest[m]];
      OpsBitsPush([op] + rest[..m], rest[m]);
    }
  }

  /** Probability estimates of the coders in use, any admissible values. */
  ghost predicate Probs(probs: seq<nat>)
  {
    |probs| == 33 && forall i :: 0 <= i < 33 ==> ZeroProb(probs[i])
  }

  /** Where a number decoder's bits come from. */
  datatype Origin =
    | FromDirect
    | FromCoded(p0: nat, whole: seq<bool>)
    | FromFolded(probs: seq<nat>, wholes: seq<seq<bool>>)

  ghost predicate ValidOrigin(o: Origin)
  {
    match o
    case FromDirect => true
    case FromCoded(p0, _) => ZeroProb(p0)
    case FromFolded(probs, wholes) => |probs| == |wholes| == 32 && forall i :: 0 <= i < 32 ==> ZeroProb(probs[i])
  }

  /** A binary decoder that has read all of whole but the bits in left. */
  ghost predicate ColumnAt(p0: nat, s: State, whole: seq<bool>, left: seq<bool>)
    requires ZeroProb(p0)
  {
    |left| <= |whole| && whole[|whole| - |left|..] == left &&
    s == DecodeBits(EncodeBits(p0, whole), p0, |whole| - |left|).1
  }

  /** The decoder is where reading back the writes ops, and no more, is still to come. */
  ghost predicate Follows(src: Source, ops: seq<Op>, o: Origin)
    requires ValidOrigin(o)
  {
    match o
    case FromDirect => src.Direct? && OpsBits(ops) <= src.bits
    case FromCoded(p0, whole) => src.Coded? && src.p0 == p0 && ColumnAt(p0, src.s, whole, OpsBits(ops))
    case FromFolded(probs, wholes) =>
      src.Folded? && |src.columns| == 32 &&
      forall i :: 0 <= i < 32 ==>
        src.columns[i].p0 == probs[i] && ColumnAt(probs[i], src.columns[i].s, wholes[i], ColumnBits(ops, i))
  }

  lemma FollowsValid(src: Source, ops: seq<Op>, o: Origin)
    requires ValidOrigin(o) && Follows(src, ops, o)
    ensures ValidSource(src)
  {
  }

  lemma {:induction false} DecodeTwice(s: State, p0: nat, a: nat, b: nat)
    requires p0 <= 255
    ensures DecodeBits(DecodeBits(s, p0, a).1, p0, b).1 == DecodeBits(s, p0, a + b).1
    decreases a
  {
    hide DecodeBitStep;
    if a > 0 {
      DecodeTwice(DecodeBitStep(s, p0).1, p0, a - 1, b);
    }
  }

  /** Reading the next bits of a column. */
  lemma ColumnAdvance(p0: nat, s: State, whole: seq<bool>, next: seq<bool>, left: seq<bool>)
    requires ZeroProb(p0) && ColumnAt(p0, s, whole, next + left)
    ensures DecodeBits(s, p0, |next|).0 == next && ColumnAt(p0, DecodeBits(s, p0, |next|).1, whole, left)
  {
    hide DecodeBits, EncodeBits, BitFill;
    var k := |whole| - |next + left|;
    var start := EncodeBits(p0, whole);
    EncodeBitsRange(p0, whole);
    FilledStart(start);
    assert whole == whole[..k] + (next + left);
    DecodePrefix(start, p0, whole[..k], next + left);
    DecodePrefix(s, p0, next, left);
    DecodeTwice(start, p0, k, |next|);
    assert whole[|whole| - |left|..] == left;
  }

  lemma FilledStart(s: State)
    requires BitRange(s.x)
    ensures BitFill(s) == s
  {
  }

  /** At the end of a column the state is the one EndState names. */
  lemma ColumnEnd(p0: nat, s: State, whole: seq<bool>)
    requires ZeroProb(p0) && ColumnAt(p0, s, whole, [])
    ensures s == EndState(p0, whole)
    ensures s.x == 4096 <==> whole == [] || Width(p0, whole[|whole| - 1]) >= 2
  {
    EncodeBitsRange(p0, whole);
    FilledStart(EncodeBits(p0, whole));
    DecodeEncodedBits(EncodeBits(p0, whole), p0, whole);
  }

  /** The first n columns are past op, the others are still before it. */
  ghost predicate Midway(columns: seq<Column>, n: nat, op: Op, rest: seq<Op>, probs: seq<nat>, wholes: seq<seq<bool>>)
  {
    |columns| == |probs| == |wholes| == 32 &&
    (forall i :: 0 <= i < 32 ==> ZeroProb(probs[i]) && columns[i].p0 == probs[i]) &&
    (forall i :: 0 <= i < n && i < 32 ==> ColumnAt(probs[i], columns[i].s, wholes[i], ColumnBits(rest, i))) &&
    (forall i :: n <= i < 32 ==> ColumnAt(probs[i], columns[i].s, wholes[i], ColumnBits([op] + rest, i)))
  }

  lemma {:induction false} FoldAdvance(columns: seq<Column>, n: nat, op: Op, rest: seq<Op>, probs: seq<nat>, wholes: seq<seq<bool>>)
    requires n <= op.n <= 32 && Midway(columns, 0, op, rest, probs, wholes)
    requires forall i :: 0 <= i < |columns| ==> columns[i].p0 <= 255
    ensures FoldRead(columns, n).0 == Msb(op.v, op.n)[..n]
    ensures Midway(FoldRead(columns, n).1, n, op, rest, probs, wholes)
    decreases n
  {
    hide ColumnAt, ColumnBits, DecodeBitStep, Msb;
    if n > 0 {
      FoldAdvance(columns, n - 1, op, rest, probs, wholes);
      var i := n - 1;
      FoldUnread(columns, i);
      ColumnHead(op, rest, i);
      var bit := Msb(op.v, op.n)[i];
      ColumnAdvance(probs[i], columns[i].s, wholes[i], [bit], ColumnBits(rest, i));
      DecodeOne(columns[i].s, probs[i]);
      assert Msb(op.v, op.n)[..n] == Msb(op.v, op.n)[..i] + [bit];
    }
  }

  /** A real decoder gives back the next write, as the ideal stream does. */
  lemma ReadFollows(src: Source, op: Op, rest: seq<Op>, o: Origin)
    requires ValidOrigin(o) && Follows(src, [op] + rest, o) && 1 <= op.n <= 32 && ValidSource(src)
    ensures Read(src, op.n).Some?
    ensures var (v, after) := Read(src, op.n).value;
            v == Low(op.v, op.n) && Follows(after, rest, o)
  {
    hide ColumnAt, DecodeBits, OpsBits, Low;
    MsbValueOf(op.v, op.n);
    match o {
      case FromDirect =>
        OpsBitsHead(op, rest);
        DirectRead(src.bits, Msb(op.v, op.n), OpsBits(rest));
      case FromCoded(p0, whole) =>
        OpsBitsHead(op, rest);
        ColumnAdvance(p0, src.s, whole, Msb(op.v, op.n), OpsBits(rest));
      case FromFolded(probs, wholes) =>
        FoldAdvance(src.columns, op.n, op, rest, probs, wholes);
        FoldedTail(op, rest);
        assert Msb(op.v, op.n)[..op.n] == Msb(op.v, op.n);
    }
  }

  lemma FoldedTail(op: Op, rest: seq<Op>)
    ensures forall i :: op.n <= i < 32 ==> ColumnBits([op] + rest, i) == ColumnBits(rest, i)
  {
    forall i | op.n <= i < 32
      ensures ColumnBits([op] + rest, i) == ColumnBits(rest, i)
    {
      ColumnHead(op, rest, i);
      assert [] + ColumnBits(rest, i) == ColumnBits(rest, i);
    }
  }

  lemma PrefixSplit(bits: seq<bool>, next: seq<bool>, left: seq<bool>)
    requires next + left <= bits
    ensures |next| <= |bits| && bits[..|next|] == next && left <= bits[|next|..]
  {
    var rest := bits[|next| + |left|..];
    assert bits == (next + left) + rest;
    assert bits == next + (left + rest);
    assert bits[|next|..] == left + rest;
  }

  lemma DirectRead(bits: seq<bool>, next: seq<bool>, left: seq<bool>)
    requires next + left <= bits
    ensures ReadBits(bits, |next|) == Some((MsbValue(next), bits[|next|..])) && left <= bits[|next|..]
  {
    hide MsbValue;
    PrefixSplit(bits, next, left);
  }

  // ---- the tree on real streams ---------------------------------------------------------

  /** Half bits are single-bit writes followed by padding zeros only. */
  ghost predicate HalfFollows(src: Source, ops: seq<Op>)
  {
    src.Direct? && (forall i :: 0 <= i < |ops| ==> ops[i].n == 1) &&
    OpsBits(ops) <= src.bits && forall i :: |OpsBits(ops)| <= i < |src.bits| ==> !src.bits[i]
  }

  ghost predicate AllFollow(src: Sources, log: Log, o: Origin)
    requires ValidOrigin(o)
  {
    Follows(src.numbers, log.numbers, o) && Follows(src.remaining, log.remaining, FromDirect) &&
    Follows(src.axis, log.axis, FromDirect) && HalfFollows(src.half, log.half)
  }

  lemma ReadHalfFollows(src: Source, ops: seq<Op>)
    requires HalfFollows(src, ops)
    ensures var (bit, rest) := ReadHalf(Ops(ops));
            rest.Ops? && ReadHalf(src).0 == bit && HalfFollows(ReadHalf(src).1, rest.ops)
  {
    hide Low;
    if ops != [] {
      var rest := ops[1..];
      assert ops == [ops[0]] + rest;
      OpsBitsHead(ops[0], rest);
      var b := Msb(ops[0].v, 1);
      MsbOneBit(ops[0].v);
      assert OpsBits(rest) == OpsBits(ops)[1..];
      assert src.bits[0] == OpsBits(ops)[0];
      DirectRead(src.bits, b, OpsBits(rest));
    }
  }

  lemma MsbOneBit(v: nat)
    ensures Msb(v, 1) == [Low(v, 1) == 1]
  {
    assert Msb(v / 2, 0) == [];
  }

  /** Reading from an ideal stream that succeeds is matched by the real one. */
  lemma ReadMatches(src: Source, ops: seq<Op>, n: nat, o: Origin)
    requires ValidOrigin(o) && Follows(src, ops, o) && ValidSource(src) && Read(Ops(ops), n).Some?
    ensures Read(src, n).Some? && Read(Ops(ops), n).value.1.Ops?
    ensures Read(src, n).value.0 == Read(Ops(ops), n).value.0
    ensures Follows(Read(src, n).value.1, Read(Ops(ops), n).value.1.ops, o)
  {
    hide Follows;
    assert ops == [ops[0]] + ops[1..];
    ReadFollows(src, ops[0], ops[1..], o);
  }

  lemma {:induction false} PointMatches(c: Config, base: Row, levels: Row, axis: nat, row: Row, j: nat, src: Source, ops: seq<Op>)
    requires Shape(c, base, levels) && |row| == c.dim && axis < c.dim && j <= c.dim
    requires Follows(src, ops, FromDirect) && ValidSource(src)
    requires DecPoint(c, base, levels, axis, row, j, Ops(ops)).Some?
    ensures var (r, after) := DecPoint(c, base, levels, axis, row, j, Ops(ops)).value;
            var got := DecPoint(c, base, levels, axis, row, j, src);
            after.Ops? && got.Some? && got.value.0 == r && Follows(got.value.1, after.ops, FromDirect)
    decreases c.dim - j
  {
    hide Follows, Read, Or;
    if j < c.dim {
      var a := AxisOrder(axis, c.dim, j);
      if c.bl > levels[a] {
        ReadMatches(src, ops, c.bl - levels[a], FromDirect);
        var (v, rest) := Read(Ops(ops), c.bl - levels[a]).value;
        PointMatches(c, base, levels, axis, row[a := Or(base[a], v)], j + 1, Read(src, c.bl - levels[a]).value.1, rest.ops);
      } else {
        PointMatches(c, base, levels, axis, row[a := Or(base[a], 0)], j + 1, src, ops);
      }
    }
  }

  lemma {:induction false} LeafMatches(c: Config, n: nat, base: Row, levels: Row, axis: nat, src: Source, ops: seq<Op>)
    requires Shape(c, base, levels) && axis < c.dim && Follows(src, ops, FromDirect) && ValidSource(src)
    requires DecLeaf(c, n, base, levels, axis, Ops(ops)).Some?
    ensures var (r, after) := DecLeaf(c, n, base, levels, axis, Ops(ops)).value;
            var got := DecLeaf(c, n, base, levels, axis, src);
            after.Ops? && got.Some? && got.value.0 == r && Follows(got.value.1, after.ops, FromDirect)
    decreases n
  {
    hide Follows, DecPoint;
    if n > 0 {
      PointMatches(c, base, levels, axis, base, 0, src, ops);
      var rest := DecPoint(c, base, levels, axis, base, 0, Ops(ops)).value.1;
      LeafMatches(c, n - 1, base, levels, axis, DecPoint(c, base, levels, axis, base, 0, src).value.1, rest.ops);
    }
  }

  /** The ideal streams as a log again. */
  ghost predicate IsIdeal(s: Sources)
  {
    s.numbers.Ops? && s.remaining.Ops? && s.axis.Ops? && s.half.Ops?
  }

  ghost function LogOf(s: Sources): Log
    requires IsIdeal(s)
  {
    Log(s.numbers.ops, s.remaining.ops, s.axis.ops, s.half.ops)
  }

  lemma SplitMatches(n: nat, src: Sources, log: Log, o: Origin)
    requires ValidOrigin(o) && AllFollow(src, log, o) && ValidSources(src) && DecSplit(n, OpsOf(log)).Some?
    ensures var (f, s, after) := DecSplit(n, OpsOf(log)).value;
            var got := DecSplit(n, src);
            IsIdeal(after) && got.Some? && got.value.0 == f && got.value.1 == s && AllFollow(got.value.2, LogOf(after), o)
  {
    hide Follows, HalfFollows, Read, ReadHalf;
    ReadMatches(src.numbers, log.numbers, MostSignificantBit(n), o);
    ReadHalfFollows(src.half, log.half);
  }

  lemma AxisMatches(c: Config, n: nat, levels: Row, last: nat, src: Source, ops: seq<Op>)
    requires |levels| == c.dim >= 1 && Follows(src, ops, FromDirect) && ValidSource(src)
    requires DecAxis(c, n, levels, last, Ops(ops)).Some?
    ensures var (a, after) := DecAxis(c, n, levels, last, Ops(ops)).value;
            var got := DecAxis(c, n, levels, last, src);
            after.Ops? && got.Some? && got.value.0 == a && Follows(got.value.1, after.ops, FromDirect)
  {
    hide Follows, Read;
    if c.select && n >= 64 {
      ReadMatches(src, ops, AxisBitCount(c.dim), FromDirect);
    }
  }

  /** The real decoders run exactly as the ideal streams do. */
  ghost predicate Matches(ideal: Option<(seq<Row>, Sources)>, got: Option<(seq<Row>, Sources)>, o: Origin)
    requires ValidOrigin(o)
  {
    ideal.Some? ==> IsIdeal(ideal.value.1) && got.Some? && got.value.0 == ideal.value.0 &&
                    AllFollow(got.value.1, LogOf(ideal.value.1), o)
  }

  lemma {:induction false} TreeMatches(c: Config, n: nat, base: Row, levels: Row, last: nat, src: Sources, log: Log, o: Origin)
    requires Shape(c, base, levels) && ValidOrigin(o) && AllFollow(src, log, o) && ValidSources(src)
    ensures Matches(DecTree(c, n, base, levels, last, OpsOf(log)), DecTree(c, n, base, levels, last, src), o)
    decreases Room(c, levels), 0
  {
    hide Follows, HalfFollows, DecAxis, DecLeaf, DecSplit, DecChild, UpperBase, Deeper, Room;
    var ideal := DecAxis(c, n, levels, last, Ops(log.axis));
    if ideal.Some? {
      AxisMatches(c, n, levels, last, src.axis, log.axis);
      var (axis, axisRest) := ideal.value;
      var s0 := src.(axis := DecAxis(c, n, levels, last, src.axis).value.1);
      var l0 := log.(axis := axisRest.ops);
      assert OpsOf(l0) == OpsOf(log).(axis := axisRest);
      if levels[axis] == c.bl {
      } else if n <= 2 {
        if DecLeaf(c, n, base, levels, axis, Ops(log.remaining)).Some? {
          LeafMatches(c, n, base, levels, axis, src.remaining, log.remaining);
        }
      } else if DecSplit(n, OpsOf(l0)).Some? {
        SplitMatches(n, s0, l0, o);
        var (first, second, l1) := DecSplit(n, OpsOf(l0)).value;
        var s1 := DecSplit(n, s0).value.2;
        RoomStep(c, levels, axis);
        DeeperShape(c, base, levels, axis);
        assert OpsOf(LogOf(l1)) == l1;
        ChildMatches(c, second, UpperBase(c, base, levels, axis), Deeper(levels, axis), axis, s1, LogOf(l1), o);
        var upper := DecChild(c, second, UpperBase(c, base, levels, axis), Deeper(levels, axis), axis, l1);
        if upper.Some? {
          var s2 := DecChild(c, second, UpperBase(c, base, levels, axis), Deeper(levels, axis), axis, s1).value.1;
          var l2 := upper.value.1;
          assert OpsOf(LogOf(l2)) == l2;
          ChildMatches(c, first, base, Deeper(levels, axis), axis, s2, LogOf(l2), o);
        }
      }
    }
  }

  lemma DeeperShape(c: Config, base: Row, levels: Row, axis: nat)
    requires Shape(c, base, levels) && axis < c.dim && levels[axis] < c.bl
    ensures Shape(c, base, Deeper(levels, axis)) && Shape(c, UpperBase(c, base, levels, axis), Deeper(levels, axis))
  {
  }

  lemma {:induction false} ChildMatches(c: Config, n: nat, base: Row, levels: Row, last: nat, src: Sources, log: Log, o: Origin)
    requires Shape(c, base, levels) && ValidOrigin(o) && AllFollow(src, log, o) && ValidSources(src)
    ensures Matches(DecChild(c, n, base, levels, last, OpsOf(log)), DecChild(c, n, base, levels, last, src), o)
    decreases Room(c, levels), 1
  {
    hide Follows, HalfFollows, DecTree;
    if n > 0 {
      TreeMatches(c, n, base, levels, last, src, log, o);
    }
  }

  // ---- the root -----------------------------------------------------------------------

  function Zero(c: Config): (r: Row)
    ensures ValidConfig(c) ==> Shape(c, r, r)
  {
    seq(c.dim, _ => 0)
  }

  ghost predicate ValidPoints(c: Config, pts: seq<Row>)
  {
    forall k :: 0 <= k < |pts| ==> KdDecode.RowInRange(c, pts[k])
  }

  lemma {:induction false} LowZero(k: nat)
    ensures Low(0, k) == 0
  {
    if k > 0 {
      LowZero(k - 1);
    }
  }

  lemma RootOk(c: Config, pts: seq<Row>)
    requires ValidConfig(c) && ValidPoints(c, pts)
    ensures NodeOk(c, Zero(c), Zero(c)) && Shape(c, Zero(c), Zero(c)) && AllInCell(c, pts, Zero(c), Zero(c))
    ensures PolicyOk(c, Zero(c), 0) && forall k :: 0 <= k < |pts| ==> |pts[k]| == c.dim
  {
    LowZero(c.bl);
    forall k | 0 <= k < |pts|
      ensures InCell(c, pts[k], Zero(c), Zero(c)) && |pts[k]| == c.dim
    {
      assert KdDecode.RowInRange(c, pts[k]);
    }
  }

  // ---- every write has an admissible width ------------------------------------------------

  ghost predicate OpsOk(ops: seq<Op>)
  {
    forall i :: 0 <= i < |ops| ==> 1 <= ops[i].n <= 32
  }

  ghost predicate LogOk(log: Log)
  {
    OpsOk(log.numbers) && OpsOk(log.remaining) && OpsOk(log.axis) &&
    forall i :: 0 <= i < |log.half| ==> log.half[i].n == 1
  }

  lemma CatOk(a: Log, b: Log)
    requires LogOk(a) && LogOk(b)
    ensures LogOk(Cat(a, b))
  {
  }

  lemma {:induction false} PointOpsOk(c: Config, p: Row, levels: Row, axis: nat, j: nat)
    requires |p| == |levels| == c.dim && axis < c.dim && j <= c.dim && c.bl <= 32
    requires forall i :: 0 <= i < |levels| ==> levels[i] <= c.bl
    ensures OpsOk(PointOps(c, p, levels, axis, j))
    decreases c.dim - j
  {
    if j < c.dim {
      PointOpsOk(c, p, levels, axis, j + 1);
    }
  }

  lemma {:induction false} LeafOpsOk(c: Config, pts: seq<Row>, levels: Row, axis: nat)
    requires |levels| == c.dim && axis < c.dim && c.bl <= 32
    requires forall k :: 0 <= k < |pts| ==> |pts[k]| == c.dim
    requires forall i :: 0 <= i < |levels| ==> levels[i] <= c.bl
    ensures OpsOk(LeafOps(c, pts, levels, axis))
  {
    if pts != [] {
      PointOpsOk(c, pts[0], levels, axis, 0);
      LeafOpsOk(c, pts[1..], levels, axis);
    }
  }

  lemma AxisLogOk(c: Config, n: nat, axis: nat)
    requires ValidConfig(c)
    ensures LogOk(AxisLog(c, n, axis))
  {
    if c.dim > 16 {
      MsbitBelow32(c.dim - 1);
    }
  }

  lemma SplitLogOk(n: nat, first: nat)
    requires 3 <= n < WORD && first <= n
    ensures LogOk(SplitLog(n, first))
  {
    MsbitBounds(n);
    MsbitBelow32(n);
  }

  lemma {:induction false} TreeOk(c: Config, pts: seq<Row>, base: Row, levels: Row, last: nat)
    requires Shape(c, base, levels) && |pts| < WORD && forall k :: 0 <= k < |pts| ==> |pts[k]| == c.dim
    ensures LogOk(EncTree(c, pts, base, levels, last))
    decreases Room(c, levels), 0
  {
    hide LogOk, AxisLog, SplitLog, LeafOps, Cat, EncAxis, EncChild, UpperBase, Deeper, SplitNode;
    var axis := EncAxis(c, pts, base, levels, last);
    AxisLogOk(c, |pts|, axis);
    if levels[axis] < c.bl {
      if |pts| <= 2 {
        LeafOpsOk(c, pts, levels, axis);
        RemainingOk(LeafOps(c, pts, levels, axis));
        CatOk(AxisLog(c, |pts|, axis), Log([], LeafOps(c, pts, levels, axis), [], []));
      } else {
        var h := SplitNode(c, pts, base, levels, last);
        RoomStep(c, levels, h.axis);
        DeeperShape(c, base, levels, h.axis);
        var deeper, upperBase := Deeper(levels, h.axis), UpperBase(c, base, levels, h.axis);
        SplitLogOk(|pts|, |h.lower|);
        ChildOk(c, h.upper, upperBase, deeper, h.axis);
        ChildOk(c, h.lower, base, deeper, h.axis);
        CatOk(AxisLog(c, |pts|, axis), SplitLog(|pts|, |h.lower|));
        CatOk(EncChild(c, h.upper, upperBase, deeper, h.axis), EncChild(c, h.lower, base, deeper, h.axis));
        CatOk(Cat(AxisLog(c, |pts|, axis), SplitLog(|pts|, |h.lower|)),
              Cat(EncChild(c, h.upper, upperBase, deeper, h.axis), EncChild(c, h.lower, base, deeper, h.axis)));
      }
    }
  }

  lemma RemainingOk(ops: seq<Op>)
    requires OpsOk(ops)
    ensures LogOk(Log([], ops, [], []))
  {
  }

  lemma {:induction false} ChildOk(c: Config, pts: seq<Row>, base: Row, levels: Row, last: nat)
    requires Shape(c, base, levels) && |pts| < WORD && forall k :: 0 <= k < |pts| ==> |pts[k]| == c.dim
    ensures LogOk(EncChild(c, pts, base, levels, last))
    decreases Room(c, levels), 1
  {
    if pts != [] {
      TreeOk(c, pts, base, levels, last);
    }
  }

  // ---- byte format --------------------------------------------------------------------

  /** The four streams as bytes. */
  datatype Parts = Parts(numbers: seq<byte>, remaining: seq<byte>, axis: seq<byte>, half: seq<byte>)

  /** Direct bits below level 2, one binary coder below level 4, folded above. */
  ghost predicate NumbersStream(level: nat, probs: seq<nat>, ops: seq<Op>, out: seq<byte>)
    requires Probs(probs)
  {
    if level < 2 then IsDirectStream(out, OpsBits(ops))
    else if level < 4 then out == BitStream(probs[0], OpsBits(ops))
    else out == FoldedStream(probs, ops)
  }

  ghost predicate IsParts(level: nat, probs: seq<nat>, log: Log, parts: Parts)
    requires Probs(probs)
  {
    NumbersStream(level, probs, log.numbers, parts.numbers) &&
    IsDirectStream(parts.remaining, OpsBits(log.remaining)) &&
    IsDirectStream(parts.axis, OpsBits(log.axis)) &&
    IsDirectStream(parts.half, OpsBits(log.half))
  }

  /** The sizes that the stream headers store as 32-bit numbers fit. */
  ghost predicate LogFits(level: nat, probs: seq<nat>, log: Log)
    requires Probs(probs)
  {
    NumbersFit(level, probs, log.numbers) && 4 * (|OpsBits(log.remaining)| / 32 + 1) + 4 < WORD &&
    4 * (|OpsBits(log.axis)| / 32 + 1) + 4 < WORD && 4 * (|OpsBits(log.half)| / 32 + 1) + 4 < WORD
  }

  ghost predicate NumbersFit(level: nat, probs: seq<nat>, ops: seq<Op>)
    requires Probs(probs)
  {
    if level < 2 then 4 * (|OpsBits(ops)| / 32 + 1) + 4 < WORD
    else if level < 4 then StreamFits(probs[0], OpsBits(ops))
    else StreamFits(probs[32], []) && forall i :: 0 <= i < 32 ==> StreamFits(probs[i], ColumnBits(ops, i))
  }

  lemma DirectSize(out: seq<byte>, bits: seq<bool>)
    requires IsDirectStream(out, bits)
    ensures |out| == 4 * (|bits| / 32 + 1) + 4
  {
    DataBitsSize(out[4..]);
  }

  lemma {:induction false} DataBitsSize(data: seq<byte>)
    requires |data| % 4 == 0
    ensures |DataBits(data)| == 8 * |data|
  {
  }

  function Header(c: Config, n: nat): seq<byte>
  {
    LeBytes(c.bl, 4) + LeBytes(n, 4)
  }

  /** The encoder's whole output for the points in their original order. */
  ghost predicate IsEncoding(c: Config, level: nat, probs: seq<nat>, pts: seq<Row>, parts: Parts, out: seq<byte>)
    requires Probs(probs) && ValidConfig(c) && forall k :: 0 <= k < |pts| ==> |pts[k]| == c.dim
  {
    if pts == [] then out == Header(c, 0)
    else
      out == Header(c, |pts|) + (parts.numbers + (parts.remaining + (parts.axis + parts.half))) &&
      IsParts(level, probs, EncTree(c, pts, Zero(c), Zero(c), 0), parts)
  }

  /** Number decoder, whether its unused single-bit coder ends cleanly, and the rest. */
  function OpenNumbers(level: nat, r: seq<byte>): (o: Option<(Source, bool, seq<byte>)>)
    ensures o.Some? ==> ValidSource(o.value.0)
  {
    if level < 2 then
      match OpenDirect(r)
      case None => None
      case Some((bits, rest)) => Some((Direct(bits), true, rest))
    else if level < 4 then
      match OpenBits(r)
      case None => None
      case Some((p0, s, rest)) => Some((Coded(p0, s), true, rest))
    else
      match OpenColumns(r, 32)
      case None => None
      case Some((columns, r1)) =>
        match OpenBits(r1)
        case None => None
        case Some((p0, s, rest)) => Some((Folded(columns), s.x == 4096, rest))
  }

  function OpenPlain(r: seq<byte>): (o: Option<(Source, seq<byte>)>)
    ensures o.Some? ==> o.value.0.Direct?
  {
    match OpenDirect(r)
    case None => None
    case Some((bits, rest)) => Some((Direct(bits), rest))
  }

  function OpenAll(level: nat, r: seq<byte>): (o: Option<(Sources, bool, seq<byte>)>)
    ensures o.Some? ==> ValidSources(o.value.0)
  {
    match OpenNumbers(level, r)
    case None => None
    case Some((numbers, single, r1)) =>
      match OpenPlain(r1)
      case None => None
      case Some((remaining, r2)) =>
        match OpenPlain(r2)
        case None => None
        case Some((axis, r3)) =>
          match OpenPlain(r3)
          case None => None
          case Some((half, r4)) => Some((Sources(numbers, remaining, axis, half), single, r4))
  }

  /** endDecoding: direct streams never object, binary coders must be back at their start. */
  predicate EndsCleanly(src: Source, single: bool)
  {
    match src
    case Coded(_, s) => s.x == 4096
    case Folded(columns) => single && forall i :: 0 <= i < |columns| ==> columns[i].s.x == 4096
    case _ => true
  }

  /** Rows and the bytes after the encoding; None is a reported error. */
  ghost function DecodeAll(dim: nat, level: nat, r: seq<byte>): Option<(seq<Row>, seq<byte>)>
    requires 1 <= dim < WORD && level <= 6
  {
    match ReadUint32(r)
    case None => None
    case Some((bl, r1)) =>
      if bl > 32 then None
      else
        match ReadUint32(r1)
        case None => None
        case Some((n, r2)) =>
          if n == 0 then Some(([], r2))
          else
            match OpenAll(level, r2)
            case None => None
            case Some((src, single, rest)) => DecodeBody(Config(dim, bl, level >= 6), n, src, single, rest)
  }

  ghost function DecodeBody(c: Config, n: nat, src: Sources, single: bool, rest: seq<byte>): Option<(seq<Row>, seq<byte>)>
    requires ValidConfig(c) && ValidSources(src)
  {
    match DecTree(c, n, Zero(c), Zero(c), 0, src)
    case None => None
    case Some((rows, after)) => if EndsCleanly(after.numbers, single) then Some((rows, rest)) else None
  }

  // ---- opening what was written -------------------------------------------------------

  ghost function OriginOf(level: nat, probs: seq<nat>, ops: seq<Op>): (o: Origin)
    requires Probs(probs)
    ensures ValidOrigin(o)
  {
    if level < 2 then FromDirect
    else if level < 4 then FromCoded(probs[0], OpsBits(ops))
    else FromFolded(probs[..32], seq(32, (i: nat) => ColumnBits(ops, i)))
  }

  lemma ColumnStart(p0: nat, whole: seq<bool>)
    requires ZeroProb(p0)
    ensures ColumnAt(p0, EncodeBits(p0, whole), whole, whole)
  {
    assert whole[0..] == whole;
  }

  lemma {:induction false} OpenColumnStreams(probs: seq<nat>, ops: seq<Op>, n: nat, suffix: seq<byte>)
    requires Probs(probs) && n <= 32 && forall i :: 0 <= i < n ==> StreamFits(probs[i], ColumnBits(ops, i))
    ensures OpenColumns(ColumnStreams(probs, ops, n) + suffix, n).Some?
    ensures var (columns, rest) := OpenColumns(ColumnStreams(probs, ops, n) + suffix, n).value;
            rest == suffix &&
            forall i :: 0 <= i < n ==> columns[i] == Column(probs[i], EncodeBits(probs[i], ColumnBits(ops, i)))
  {
    hide EncodeBits, BitStream, OpenBits, ColumnBits;
    if n == 0 {
      assert [] + suffix == suffix;
    } else {
      var last := BitStream(probs[n - 1], ColumnBits(ops, n - 1));
      OpenColumnStreams(probs, ops, n - 1, last + suffix);
      OpenOfStream(probs[n - 1], ColumnBits(ops, n - 1), suffix);
      assert ColumnStreams(probs, ops, n) + suffix == ColumnStreams(probs, ops, n - 1) + (last + suffix);
    }
  }

  lemma OpenNumbersStream(level: nat, probs: seq<nat>, ops: seq<Op>, out: seq<byte>, suffix: seq<byte>)
    requires Probs(probs) && NumbersStream(level, probs, ops, out) && NumbersFit(level, probs, ops)
    ensures OpenNumbers(level, out + suffix).Some?
    ensures var (src, single, rest) := OpenNumbers(level, out + suffix).value;
            single && rest == suffix && Follows(src, ops, OriginOf(level, probs, ops))
  {
    hide EncodeBits, BitStream, OpenBits, ColumnAt, OpenDirect, IsDirectStream;
    if level < 2 {
      DirectSize(out, OpsBits(ops));
      OpenOfDirect(out, OpsBits(ops), suffix);
    } else if level < 4 {
      OpenOfStream(probs[0], OpsBits(ops), suffix);
      ColumnStart(probs[0], OpsBits(ops));
    } else {
      var last := BitStream(probs[32], []);
      OpenColumnStreams(probs, ops, 32, last + suffix);
      assert out + suffix == ColumnStreams(probs, ops, 32) + (last + suffix);
      OpenOfStream(probs[32], [], suffix);
      NoBits(probs[32]);
      forall i | 0 <= i < 32
        ensures ColumnAt(probs[i], EncodeBits(probs[i], ColumnBits(ops, i)), ColumnBits(ops, i), ColumnBits(ops, i))
      {
        ColumnStart(probs[i], ColumnBits(ops, i));
      }
    }
  }

  lemma NoBits(p0: nat)
    requires ZeroProb(p0)
    ensures EncodeBits(p0, []).x == 4096
  {
  }

  lemma OpenPlainStream(ops: seq<Op>, out: seq<byte>, suffix: seq<byte>)
    requires IsDirectStream(out, OpsBits(ops)) && 4 * (|OpsBits(ops)| / 32 + 1) + 4 < WORD
    ensures OpenPlain(out + suffix).Some?
    ensures var (src, rest) := OpenPlain(out + suffix).value;
            rest == suffix && Follows(src, ops, FromDirect) &&
            ((forall i :: 0 <= i < |ops| ==> ops[i].n == 1) ==> HalfFollows(src, ops))
  {
    hide IsDirectStream, OpenDirect;
    DirectSize(out, OpsBits(ops));
    OpenOfDirect(out, OpsBits(ops), suffix);
  }

  lemma OpenAllStreams(level: nat, probs: seq<nat>, log: Log, parts: Parts, suffix: seq<byte>)
    requires Probs(probs) && IsParts(level, probs, log, parts) && LogOk(log) && LogFits(level, probs, log)
    ensures var out := parts.numbers + (parts.remaining + (parts.axis + parts.half)) + suffix;
            OpenAll(level, out).Some? && OpenAll(level, out).value.1 && OpenAll(level, out).value.2 == suffix &&
            AllFollow(OpenAll(level, out).value.0, log, OriginOf(level, probs, log.numbers))
  {
    hide IsDirectStream, NumbersStream, NumbersFit, OpsBits, OpenPlain, OpenNumbers, Follows, HalfFollows;
    var r3 := parts.half + suffix;
    var r2 := parts.axis + r3;
    var r1 := parts.remaining + r2;
    assert parts.numbers + (parts.remaining + (parts.axis + parts.half)) + suffix == parts.numbers + r1;
    OpenNumbersStream(level, probs, log.numbers, parts.numbers, r1);
    OpenPlainStream(log.remaining, parts.remaining, r2);
    OpenPlainStream(log.axis, parts.axis, r3);
    OpenPlainStream(log.half, parts.half, suffix);
  }

  // ---- the codec's round trip -----------------------------------------------------------

  /** The last bit of every binary coder in use has an interval wider than one slot. */
  ghost predicate CleanEnd(level: nat, probs: seq<nat>, ops: seq<Op>)
    requires Probs(probs)
  {
    if level < 2 then true
    else if level < 4 then LastBitWide(probs[0], OpsBits(ops))
    else forall i :: 0 <= i < 32 ==> LastBitWide(probs[i], ColumnBits(ops, i))
  }

  ghost predicate LastBitWide(p0: nat, bits: seq<bool>)
    requires ZeroProb(p0)
  {
    bits == [] || Width(p0, bits[|bits| - 1]) >= 2
  }

  lemma EndsExactly(level: nat, probs: seq<nat>, ops: seq<Op>, src: Source)
    requires Probs(probs) && Follows(src, [], OriginOf(level, probs, ops))
    ensures EndsCleanly(src, true) <==> CleanEnd(level, probs, ops)
  {
    hide EncodeBits, ColumnAt, Width;
    if 2 <= level < 4 {
      ColumnEnd(probs[0], src.s, OpsBits(ops));
    } else if level >= 4 {
      forall i | 0 <= i < 32
        ensures src.columns[i].s.x == 4096 <==> LastBitWide(probs[i], ColumnBits(ops, i))
      {
        ColumnEnd(probs[i], src.columns[i].s, ColumnBits(ops, i));
      }
    }
  }

  /** kd-tree codec round trip on bytes, at every compression level and for any admissible
      probability estimates: decoding returns the points (in some order) and stops at the
      suffix exactly when every binary coder's last bit is at least two slots wide; otherwise
      the decoder's final stream check rejects the encoder's own output. */
  lemma CodecRoundTrip(c: Config, level: nat, probs: seq<nat>, pts: seq<Row>, parts: Parts, out: seq<byte>, suffix: seq<byte>)
    requires ValidConfig(c) && level <= 6 && c.select == (level >= 6) && Probs(probs)
    requires ValidPoints(c, pts) && |pts| < WORD && forall k :: 0 <= k < |pts| ==> |pts[k]| == c.dim
    requires IsEncoding(c, level, probs, pts, parts, out)
    requires pts == [] || LogFits(level, probs, EncTree(c, pts, Zero(c), Zero(c), 0))
    ensures var r := DecodeAll(c.dim, level, out + suffix);
            if pts == [] || CleanEnd(level, probs, EncTree(c, pts, Zero(c), Zero(c), 0).numbers)
            then r.Some? && multiset(r.value.0) == multiset(pts) && r.value.1 == suffix
            else r == None
  {
    hide EncTree, DecTree, NodeOk, AllInCell, PolicyOk, IsParts, LogFits, OpenAll, EndsCleanly, CleanEnd, LeBytes, Zero, Follows, HalfFollows;
    if pts == [] {
      assert out + suffix == LeBytes(c.bl, 4) + (LeBytes(0, 4) + suffix);
      Uint32RoundTrip(c.bl, LeBytes(0, 4) + suffix);
      Uint32RoundTrip(0, suffix);
      return;
    }
    RootOk(c, pts);
    var log := EncTree(c, pts, Zero(c), Zero(c), 0);
    TreeOk(c, pts, Zero(c), Zero(c), 0);
    TreeRoundTrip(c, pts, Zero(c), Zero(c), 0, EMPTY);
    CatEmpty(log);
    var o := OriginOf(level, probs, log.numbers);
    var body := parts.numbers + (parts.remaining + (parts.axis + parts.half)) + suffix;
    OpenAllStreams(level, probs, log, parts, suffix);
    var (src, single, rest) := OpenAll(level, body).value;
    TreeMatches(c, |pts|, Zero(c), Zero(c), 0, src, log, o);
    var got := DecTree(c, |pts|, Zero(c), Zero(c), 0, src);
    EndsExactly(level, probs, log.numbers, got.value.1.numbers);
    assert out + suffix == LeBytes(c.bl, 4) + (LeBytes(|pts|, 4) + body);
    Uint32RoundTrip(c.bl, LeBytes(|pts|, 4) + body);
    Uint32RoundTrip(|pts|, body);
  }

  // ---- the exception with the probabilities that the encoder estimates ------------------------------

  /** Every binary coder in use has the probability that its own bits give. */
  ghost predicate Estimated(level: nat, probs: seq<nat>, ops: seq<Op>)
    requires Probs(probs)
  {
    if level < 2 then true
    else if level < 4 then probs[0] == Estimate(OpsBits(ops))
    else forall i :: 0 <= i < 32 ==> probs[i] == Estimate(ColumnBits(ops, i))
  }

  /** No binary coder's bits end in a rare one. */
  ghost predicate NoRareEnd(level: nat, ops: seq<Op>)
  {
    if level < 2 then true
    else if level < 4 then !EndsRarely(OpsBits(ops))
    else forall i :: 0 <= i < 32 ==> !EndsRarely(ColumnBits(ops, i))
  }

  lemma EstimatedWide(p0: nat, bits: seq<bool>)
    requires p0 == Estimate(bits)
    ensures LastBitWide(p0, bits) <==> !EndsRarely(bits)
  {
    hide Estimate, EndsRarely;
    if bits != [] {
      EstimatedEnd(bits);
    } else {
      NoRareBit(bits);
    }
  }

  lemma NoRareBit(bits: seq<bool>)
    requires bits == []
    ensures !EndsRarely(bits)
  {
  }

  /** With the probabilities that the encoder estimates, its output is decoded exactly when no binary
      coder's bits end in a one after almost only zeros or in a zero after almost only ones. */
  lemma EstimatedRoundTrip(c: Config, level: nat, probs: seq<nat>, pts: seq<Row>, parts: Parts, out: seq<byte>, suffix: seq<byte>)
    requires ValidConfig(c) && level <= 6 && c.select == (level >= 6) && Probs(probs)
    requires pts != [] && ValidPoints(c, pts) && |pts| < WORD && forall k :: 0 <= k < |pts| ==> |pts[k]| == c.dim
    requires IsEncoding(c, level, probs, pts, parts, out) && LogFits(level, probs, EncTree(c, pts, Zero(c), Zero(c), 0))
    requires Estimated(level, probs, EncTree(c, pts, Zero(c), Zero(c), 0).numbers)
    ensures var r := DecodeAll(c.dim, level, out + suffix);
            if NoRareEnd(level, EncTree(c, pts, Zero(c), Zero(c), 0).numbers)
            then r.Some? && multiset(r.value.0) == multiset(pts) && r.value.1 == suffix
            else r == None
  {
    hide EncTree, IsEncoding, DecodeAll, Zero, LogFits, Estimate, EndsRarely, LastBitWide, OpsBits, ColumnBits, ValidPoints;
    CodecRoundTrip(c, level, probs, pts, parts, out, suffix);
    var ops := EncTree(c, pts, Zero(c), Zero(c), 0).numbers;
    if 2 <= level < 4 {
      EstimatedWide(probs[0], OpsBits(ops));
    } else if level >= 4 {
      forall i | 0 <= i < 32
        ensures LastBitWide(probs[i], ColumnBits(ops, i)) <==> !EndsRarely(ColumnBits(ops, i))
      {
        EstimatedWide(probs[i], ColumnBits(ops, i));
      }
    }
  }

  // ---- an input that is rejected -----------------------------------------------------------------------

  const EXAMPLE := Config(1, 32, false)

  /** One component of 32 bits: 126 points at 0 and one at 1. */
  function ExamplePoints(): (pts: seq<Row>)
    ensures |pts| == 127 && forall k :: 0 <= k < 127 ==> pts[k] == if k < 126 then [0] else [1]
  {
    seq(126, _ => [0]) + [[1]]
  }

  lemma {:induction false} PartitionAllLow(pts: seq<Row>, axis: nat, split: nat)
    requires forall k :: 0 <= k < |pts| ==> axis < |pts[k]| && pts[k][axis] < split
    ensures Partition(pts, axis, split) == (pts, |pts|)
  {
    if pts != [] {
      PartitionAllLow(pts[1..], axis, split);
      assert pts == [pts[0]] + pts[1..];
    }
  }

  lemma {:induction false} PartitionOneHigh(pts: seq<Row>, axis: nat, split: nat)
    requires pts != [] && forall k :: 0 <= k < |pts| ==> axis < |pts[k]| && (pts[k][axis] < split <==> k < |pts| - 1)
    ensures Partition(pts, axis, split) == (pts, |pts| - 1)
  {
    if |pts| == 1 {
      assert pts[..0] == [] && [] + [pts[0]] == pts;
    } else {
      PartitionOneHigh(pts[1..], axis, split);
      assert pts == [pts[0]] + pts[1..];
    }
  }

  /** Number writes from a level on: all 127 points in one half until the last level. */
  function ExampleOps(level: nat): seq<Op>
    requires level <= 31
    decreases 31 - level
  {
    if level == 31 then [Op(6, 62)] else [Op(6, 63)] + ExampleOps(level + 1)
  }

  /** The half bits beside them, one for each level. */
  function ExampleHalves(level: nat): seq<Op>
    requires level <= 32
    decreases 32 - level
  {
    if level == 32 then [] else [Op(1, 0)] + ExampleHalves(level + 1)
  }

  lemma MiddleOfExample(level: nat)
    requires level <= 31
    ensures Shape(EXAMPLE, [0], [level]) && EncAxis(EXAMPLE, ExamplePoints(), [0], [level], 0) == 0
    ensures Middle(EXAMPLE, [0], [level], 0) == Pow2(31 - level)
    ensures level == 31 ==> Pow2(31 - level) == 1
    ensures level < 31 ==> Pow2(31 - level) > 1
  {
    Pow2Mono(0, 31 - level);
    assert Pow2(0) == 1;
    if level < 31 {
      Pow2Mono(1, 31 - level);
      assert Pow2(1) == 2;
    }
  }

  lemma ExampleSplit(level: nat)
    requires level <= 31
    ensures Shape(EXAMPLE, [0], [level]) && EncAxis(EXAMPLE, ExamplePoints(), [0], [level], 0) == 0
    ensures var pts := ExamplePoints();
            SplitNode(EXAMPLE, pts, [0], [level], 0) == if level < 31 then Halves(0, pts, []) else Halves(0, pts[..126], pts[126..])
  {
    hide Pow2, EncAxis, Middle, Partition;
    MiddleOfExample(level);
    var pts := ExamplePoints();
    if level < 31 {
      PartitionAllLow(pts, 0, Pow2(31 - level));
    } else {
      PartitionOneHigh(pts, 0, Pow2(31 - level));
    }
  }

  /** The fully decided cells below the last split write nothing. */
  lemma DecidedWrites(pts: seq<Row>, base: Row)
    requires |base| == 1 && pts != [] && forall k :: 0 <= k < |pts| ==> |pts[k]| == 1
    requires Shape(EXAMPLE, base, [32])
    ensures EncChild(EXAMPLE, pts, base, [32], 0) == EMPTY
  {
    assert EncAxis(EXAMPLE, pts, base, [32], 0) == 0;
  }

  lemma InnerWrites(level: nat, h: Halves)
    requires level <= 31 && Shape(EXAMPLE, [0], [level]) && Shape(EXAMPLE, [0], [level + 1])
    requires EncAxis(EXAMPLE, ExamplePoints(), [0], [level], 0) == 0
    requires SplitNode(EXAMPLE, ExamplePoints(), [0], [level], 0) == h && h.axis == 0 && |h.lower| + |h.upper| == 127
    requires Shape(EXAMPLE, UpperBase(EXAMPLE, [0], [level], 0), [level + 1])
    ensures EncTree(EXAMPLE, ExamplePoints(), [0], [level], 0) ==
            Cat(SplitLog(127, |h.lower|), Cat(EncChild(EXAMPLE, h.upper, UpperBase(EXAMPLE, [0], [level], 0), [level + 1], 0),
                                              EncChild(EXAMPLE, h.lower, [0], [level + 1], 0)))
  {
    hide SplitNode, Partition, EncAxis, Middle, LeafOps, Pow2, ExamplePoints, EncChild, UpperBase, SplitLog;
    assert Deeper([level], 0) == [level + 1];
    assert AxisLog(EXAMPLE, 127, 0) == EMPTY;
    CatEmpty(SplitLog(127, |h.lower|));
  }

  lemma ExampleWrites(lower: nat, rest: Log)
    requires lower == 126 || lower == 127
    ensures Cat(SplitLog(127, lower), rest) ==
            Log([Op(6, if lower == 127 then 63 else 62)] + rest.numbers, rest.remaining, rest.axis, [Op(1, 0)] + rest.half)
  {
    assert MostSignificantBit(127) == 6;
    assert [] + rest.remaining == rest.remaining && [] + rest.axis == rest.axis;
  }

  lemma {:induction false} ExampleTree(level: nat)
    requires level <= 31
    ensures Shape(EXAMPLE, [0], [level])
    ensures EncTree(EXAMPLE, ExamplePoints(), [0], [level], 0) == Log(ExampleOps(level), [], [], ExampleHalves(level))
    decreases 31 - level
  {
    hide SplitNode, Partition, EncAxis, Middle, LeafOps, Pow2, ExamplePoints, UpperBase, SplitLog, Cat, EncTree;
    var pts := ExamplePoints();
    ExampleSplit(level);
    UpperOfExample(level);
    if level < 31 {
      InnerWrites(level, Halves(0, pts, []));
      ExampleTree(level + 1);
      ExampleWrites(127, Cat(EMPTY, EncTree(EXAMPLE, pts, [0], [level + 1], 0)));
      CatEmpty(EncTree(EXAMPLE, pts, [0], [level + 1], 0));
    } else {
      InnerWrites(level, Halves(0, pts[..126], pts[126..]));
      DecidedWrites(pts[..126], [0]);
      DecidedWrites(pts[126..], [1]);
      ExampleWrites(126, Cat(EMPTY, EMPTY));
      CatEmpty(EMPTY);
    }
  }

  lemma UpperOfExample(level: nat)
    requires level <= 31
    ensures Shape(EXAMPLE, [0], [level + 1]) && Shape(EXAMPLE, UpperBase(EXAMPLE, [0], [level], 0), [level + 1])
    ensures level == 31 ==> UpperBase(EXAMPLE, [0], [level], 0) == [1]
  {
    assert Pow2(0) == 1;
  }

  lemma {:induction false} ExampleBits(level: nat)
    requires level <= 31
    ensures var bits := OpsBits(ExampleOps(level));
            |bits| == 6 * (32 - level) && ZeroCount(bits) == 1 && !bits[|bits| - 1]
    decreases 31 - level
  {
    hide OpsBits;
    LastWrites();
    if level < 31 {
      ExampleBits(level + 1);
      OpsBitsHead(Op(6, 63), ExampleOps(level + 1));
      ZeroCountConcat(Msb(63, 6), OpsBits(ExampleOps(level + 1)));
    } else {
      OpsBitsPush([], Op(6, 62));
      assert [] + [Op(6, 62)] == [Op(6, 62)];
      NoOps();
    }
  }

  lemma NoOps()
    ensures OpsBits([]) == [] && [] + Msb(62, 6) == Msb(62, 6)
  {
  }

  lemma LastWrites()
    ensures Msb(63, 6) == [true, true, true, true, true, true] && Msb(62, 6) == [true, true, true, true, true, false]
    ensures ZeroCount(Msb(63, 6)) == 0 && ZeroCount(Msb(62, 6)) == 1
  {
  }

  lemma {:induction false} HalfBits(level: nat)
    requires level <= 32
    ensures |OpsBits(ExampleHalves(level))| == 32 - level
    decreases 32 - level
  {
    if level < 32 {
      HalfBits(level + 1);
      OpsBitsHead(Op(1, 0), ExampleHalves(level + 1));
    }
  }

  /** The sizes of the rejected example's streams fit their headers. */
  lemma ExampleFits(probs: seq<nat>)
    requires Probs(probs)
    ensures LogFits(2, probs, EncTree(EXAMPLE, ExamplePoints(), Zero(EXAMPLE), Zero(EXAMPLE), 0))
  {
    hide EncTree, OpsBits, StreamFits, ExamplePoints, ExampleOps, ExampleHalves, ZeroCount, Zero;
    ExampleTree(0);
    ExampleBits(0);
    HalfBits(0);
    ShortStreamFits(probs[0], OpsBits(ExampleOps(0)));
    ZeroOfExample();
    NoOps();
  }

  lemma ZeroOfExample()
    ensures Zero(EXAMPLE) == [0]
  {
  }

  /** The exception happens with the encoder's own estimates: 126 points at 0 and one at 1 write 191
      ones and then a zero, and the decoder rejects what the encoder wrote for them. */
  lemma RejectedExample(probs: seq<nat>, parts: Parts, out: seq<byte>, suffix: seq<byte>)
    requires Probs(probs) && Estimated(2, probs, ExampleOps(0)) && IsEncoding(EXAMPLE, 2, probs, ExamplePoints(), parts, out)
    ensures ValidPoints(EXAMPLE, ExamplePoints())
    ensures DecodeAll(1, 2, out + suffix) == None
  {
    hide IsEncoding, DecodeAll, EncTree, ExamplePoints, Estimate, OpsBits, LogFits;
    ExampleTree(0);
    ExampleBits(0);
    ExampleValid();
    ZeroOfExample();
    ExampleFits(probs);
    EstimatedRoundTrip(EXAMPLE, 2, probs, ExamplePoints(), parts, out, suffix);
  }

  lemma ExampleValid()
    ensures ValidPoints(EXAMPLE, ExamplePoints())
  {
    Pow2Of32();
  }
}
