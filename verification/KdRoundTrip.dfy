/** Lossless round trip of the kd-tree coder on the ideal streams: reading back what a
    (sub)tree wrote returns its points, in some order, and consumes exactly those writes. */
module KdRoundTrip {
  import opened Bits
  import opened KdStreams
  import opened KdTree

  // ---- leaves -------------------------------------------------------------------------

  /** The positions before j hold p's components. */
  ghost predicate Filled(c: Config, row: Row, p: Row, axis: nat, j: nat)
    requires |row| == |p| == c.dim && axis < c.dim && j <= c.dim
  {
    forall t :: 0 <= t < j ==> row[AxisOrder(axis, c.dim, t)] == p[AxisOrder(axis, c.dim, t)]
  }

  lemma FilledAll(c: Config, row: Row, p: Row, axis: nat)
    requires |row| == |p| == c.dim && axis < c.dim && Filled(c, row, p, axis, c.dim)
    ensures row == p
  {
    forall i | 0 <= i < c.dim
      ensures row[i] == p[i]
    {
      var t := if i >= axis then i - axis else i + c.dim - axis;
      assert AxisOrder(axis, c.dim, t) == i;
    }
  }

  lemma FilledNext(c: Config, row: Row, p: Row, axis: nat, j: nat)
    requires |row| == |p| == c.dim && axis < c.dim && j < c.dim && Filled(c, row, p, axis, j)
    ensures var a := AxisOrder(axis, c.dim, j); Filled(c, row[a := p[a]], p, axis, j + 1)
  {
  }

  /** A component is its cell's base with its low bits. */
  lemma Component(c: Config, p: Row, base: Row, levels: Row, a: nat)
    requires NodeOk(c, base, levels) && InCell(c, p, base, levels) && a < c.dim
    ensures levels[a] <= c.bl
    ensures Or(base[a], Low(p[a], c.bl - levels[a])) == p[a]
  {
    assert CellOk(base[a], levels[a], c.bl);
    CellLow(base[a], levels[a], c.bl, p[a]);
  }

  lemma {:induction false} PointRoundTrip(c: Config, p: Row, base: Row, levels: Row, axis: nat, row: Row, j: nat, rest: seq<Op>)
    requires NodeOk(c, base, levels) && InCell(c, p, base, levels) && |p| == c.dim
    requires forall i :: 0 <= i < |levels| ==> levels[i] <= c.bl
    requires |row| == c.dim && axis < c.dim && j <= c.dim && Filled(c, row, p, axis, j)
    ensures DecPoint(c, base, levels, axis, row, j, Ops(PointOps(c, p, levels, axis, j) + rest)) == Some((p, Ops(rest)))
    decreases c.dim - j
  {
    hide Filled, InCell, Or, Low, Read;
    if j == c.dim {
      FilledAll(c, row, p, axis);
      assert [] + rest == rest;
    } else {
      var a := AxisOrder(axis, c.dim, j);
      var r := c.bl - levels[a];
      var tail := PointOps(c, p, levels, axis, j + 1) + rest;
      Component(c, p, base, levels, a);
      FilledNext(c, row, p, axis, j);
      PointRoundTrip(c, p, base, levels, axis, row[a := p[a]], j + 1, rest);
      if r > 0 {
        ReadOp(r, p[a], tail);
        assert PointOps(c, p, levels, axis, j) + rest == [Op(r, p[a])] + tail;
      } else {
        assert Low(p[a], 0) == 0 by { LowNone(p[a]); }
        assert PointOps(c, p, levels, axis, j) + rest == tail;
      }
    }
  }

  lemma LowNone(v: nat)
    ensures Low(v, 0) == 0
  {
  }

  lemma {:induction false} LeafRoundTrip(c: Config, pts: seq<Row>, base: Row, levels: Row, axis: nat, rest: seq<Op>)
    requires NodeOk(c, base, levels) && AllInCell(c, pts, base, levels) && axis < c.dim
    requires forall i :: 0 <= i < |levels| ==> levels[i] <= c.bl
    requires forall k :: 0 <= k < |pts| ==> |pts[k]| == c.dim
    ensures DecLeaf(c, |pts|, base, levels, axis, Ops(LeafOps(c, pts, levels, axis) + rest)) == Some((pts, Ops(rest)))
    decreases |pts|
  {
    hide Filled, InCell, PointOps, DecPoint;
    if pts == [] {
      assert [] + rest == rest;
    } else {
      var tail := LeafOps(c, pts[1..], levels, axis) + rest;
      FilledNone(c, base, pts[0], axis);
      PointRoundTrip(c, pts[0], base, levels, axis, base, 0, tail);
      LeafRoundTrip(c, pts[1..], base, levels, axis, rest);
      assert LeafOps(c, pts, levels, axis) + rest == PointOps(c, pts[0], levels, axis, 0) + tail;
      assert pts == [pts[0]] + pts[1..];
    }
  }

  lemma FilledNone(c: Config, row: Row, p: Row, axis: nat)
    requires |row| == |p| == c.dim && axis < c.dim
    ensures Filled(c, row, p, axis, 0)
  {
  }

  // ---- inner nodes ----------------------------------------------------------------------

  lemma AxisRoundTrip(c: Config, pts: seq<Row>, base: Row, levels: Row, last: nat, rest: seq<Op>)
    requires Shape(c, base, levels) && forall k :: 0 <= k < |pts| ==> |pts[k]| == c.dim
    ensures var axis := EncAxis(c, pts, base, levels, last);
            DecAxis(c, |pts|, levels, last, Ops(AxisOps(c, |pts|, axis) + rest)) == Some((axis, Ops(rest)))
  {
    hide BestAxis, MinAxis;
    var axis := EncAxis(c, pts, base, levels, last);
    if c.select && |pts| >= 64 {
      AxisFits(axis, c.dim);
      LowBound(axis, AxisBitCount(c.dim));
      Pow2Of32();
      if c.dim > 16 {
        MsbitBelow32(c.dim - 1);
      }
      ReadOp(AxisBitCount(c.dim), axis, rest);
    } else {
      assert [] + rest == rest;
    }
  }

  lemma MsbitBelow32(v: nat)
    requires v < WORD
    ensures MostSignificantBit(v) < 32
  {
    Pow2Of32();
    if v >= 1 {
      MsbitBounds(v);
      if MostSignificantBit(v) >= 32 {
        Pow2Mono(32, MostSignificantBit(v));
      }
    }
  }

  /** The two part sizes come back from the difference to the middle and the half bit. */
  lemma SplitRoundTrip(n: nat, first: nat, rest: Log)
    requires 3 <= n < WORD && first <= n
    ensures DecSplit(n, OpsOf(Cat(SplitLog(n, first), rest))) == Some((first, n - first, OpsOf(rest)))
  {
    var second := n - first;
    var number := n / 2 - if first < second then first else second;
    MsbitBounds(n);
    MsbitBelow32(n);
    LowBound(number, MostSignificantBit(n));
    ReadOp(MostSignificantBit(n), number, rest.numbers);
    if first == second {
      assert [] + rest.half == rest.half;
    } else {
      var b := if first < second then 1 else 0;
      assert ([Op(1, b)] + rest.half)[1..] == rest.half;
      assert Low(b, 1) == b;
    }
    assert [] + rest.remaining == rest.remaining && [] + rest.axis == rest.axis;
  }

  /** Splitting a cell: both children are well-formed cells one level deeper. */
  lemma ChildCells(c: Config, base: Row, levels: Row, axis: nat)
    requires NodeOk(c, base, levels) && axis < c.dim && levels[axis] < c.bl
    ensures NodeOk(c, base, Deeper(levels, axis)) && NodeOk(c, UpperBase(c, base, levels, axis), Deeper(levels, axis))
  {
    assert CellOk(base[axis], levels[axis], c.bl);
    CellSplit(base[axis], levels[axis], c.bl);
  }

  lemma NodeShape(c: Config, base: Row, levels: Row)
    requires NodeOk(c, base, levels)
    ensures Shape(c, base, levels)
  {
    forall i | 0 <= i < c.dim
      ensures levels[i] <= c.bl
    {
      assert CellOk(base[i], levels[i], c.bl);
    }
  }

  /** A point of the cell is in the half that its component at the axis selects. */
  lemma PointInHalf(c: Config, p: Row, base: Row, levels: Row, axis: nat)
    requires NodeOk(c, base, levels) && axis < c.dim && levels[axis] < c.bl && InCell(c, p, base, levels)
    ensures var deeper, upperBase := Deeper(levels, axis), UpperBase(c, base, levels, axis);
            NodeOk(c, base, deeper) && NodeOk(c, upperBase, deeper) &&
            if p[axis] < Middle(c, base, levels, axis) then InCell(c, p, base, deeper) else InCell(c, p, upperBase, deeper)
  {
    ChildCells(c, base, levels, axis);
  }

  lemma HalvesInCells(c: Config, pts: seq<Row>, base: Row, levels: Row, last: nat)
    requires NodeOk(c, base, levels) && AllInCell(c, pts, base, levels)
    requires Shape(c, base, levels) && forall k :: 0 <= k < |pts| ==> |pts[k]| == c.dim
    requires levels[EncAxis(c, pts, base, levels, last)] < c.bl
    ensures var h := SplitNode(c, pts, base, levels, last);
            var deeper, upperBase := Deeper(levels, h.axis), UpperBase(c, base, levels, h.axis);
            NodeOk(c, base, deeper) && NodeOk(c, upperBase, deeper) &&
            AllInCell(c, h.lower, base, deeper) && AllInCell(c, h.upper, upperBase, deeper)
  {
    hide InCell, Partition, EncAxis, UpperBase, Deeper, Middle;
    var axis := EncAxis(c, pts, base, levels, last);
    var split := Middle(c, base, levels, axis);
    var deeper, upperBase := Deeper(levels, axis), UpperBase(c, base, levels, axis);
    var (s, k) := Partition(pts, axis, split);
    PartitionSorts(pts, axis, split);
    SameRows(s, pts);
    ChildCells(c, base, levels, axis);
    forall i | 0 <= i < |s|
      ensures if i < k then InCell(c, s[i], base, deeper) else InCell(c, s[i], upperBase, deeper)
    {
      assert s[i] in pts;
      PointInHalf(c, s[i], base, levels, axis);
    }
  }

  /** In a fully decided cell every point is the base. */
  lemma DecidedCell(c: Config, pts: seq<Row>, base: Row, levels: Row)
    requires NodeOk(c, base, levels) && AllInCell(c, pts, base, levels)
    requires forall i :: 0 <= i < c.dim ==> levels[i] == c.bl
    ensures pts == seq(|pts|, _ => base)
  {
    assert Pow2(0) == 1;
    forall k | 0 <= k < |pts|
      ensures pts[k] == base
    {
      assert InCell(c, pts[k], base, levels);
    }
  }

  lemma CatFour(a: Log, s: Log, u: Log, l: Log, rest: Log)
    ensures Cat(Cat(Cat(a, s), Cat(u, l)), rest) == Cat(a, Cat(s, Cat(u, Cat(l, rest))))
  {
    CatAssoc(a, s, Cat(u, l));
    CatAssoc(a, Cat(s, Cat(u, l)), rest);
    CatAssoc(s, Cat(u, l), rest);
    CatAssoc(u, l, rest);
  }

  /** What the decoder returns for a node's writes followed by rest. */
  ghost predicate ReadsBack(c: Config, pts: seq<Row>, base: Row, levels: Row, last: nat, log: Log, rest: Log)
    requires Shape(c, base, levels)
  {
    var r := DecTree(c, |pts|, base, levels, last, OpsOf(Cat(log, rest)));
    r.Some? && multiset(r.value.0) == multiset(pts) && r.value.1 == OpsOf(rest)
  }

  /** kd-tree round trip: for every cell, every list of points in it, both axis policies
      and whatever was written afterwards. */
  lemma {:induction false} TreeRoundTrip(c: Config, pts: seq<Row>, base: Row, levels: Row, last: nat, rest: Log)
    requires NodeOk(c, base, levels) && AllInCell(c, pts, base, levels) && PolicyOk(c, levels, last)
    requires 0 < |pts| < WORD
    requires Shape(c, base, levels) && forall k :: 0 <= k < |pts| ==> |pts[k]| == c.dim
    ensures ReadsBack(c, pts, base, levels, last, EncTree(c, pts, base, levels, last), rest)
    decreases Room(c, levels), 0
  {
    var axis := EncAxis(c, pts, base, levels, last);
    if levels[axis] == c.bl {
      DecidedNode(c, pts, base, levels, last, rest);
    } else if |pts| <= 2 {
      LeafNode(c, pts, base, levels, last, rest);
    } else {
      hide EncTree, DecTree, NodeOk, AllInCell, PolicyOk, ReadsBack, EncAxis, SplitNode, UpperBase, Deeper, EncChild;
      NodeLevels(c, base, levels, axis);
      var h := SplitNode(c, pts, base, levels, last);
      var deeper, upperBase := Deeper(levels, axis), UpperBase(c, base, levels, axis);
      Children(c, pts, base, levels, last);
      ChildRoundTrip(c, h.lower, base, deeper, axis, rest);
      var lowerLog := EncChild(c, h.lower, base, deeper, axis);
      ChildRoundTrip(c, h.upper, upperBase, deeper, axis, Cat(lowerLog, rest));
      JoinNode(c, pts, base, levels, last, rest);
    }
  }

  lemma {:induction false} ChildRoundTrip(c: Config, pts: seq<Row>, base: Row, levels: Row, last: nat, rest: Log)
    requires NodeOk(c, base, levels) && AllInCell(c, pts, base, levels) && PolicyOk(c, levels, last)
    requires |pts| < WORD
    requires Shape(c, base, levels) && forall k :: 0 <= k < |pts| ==> |pts[k]| == c.dim
    ensures ChildReadsBack(c, pts, base, levels, last, EncChild(c, pts, base, levels, last), rest)
    decreases Room(c, levels), 1
  {
    if pts == [] {
      CatEmpty(rest);
    } else {
      TreeRoundTrip(c, pts, base, levels, last, rest);
    }
  }

  ghost predicate ChildReadsBack(c: Config, pts: seq<Row>, base: Row, levels: Row, last: nat, log: Log, rest: Log)
    requires Shape(c, base, levels)
  {
    var r := DecChild(c, |pts|, base, levels, last, OpsOf(Cat(log, rest)));
    r.Some? && multiset(r.value.0) == multiset(pts) && r.value.1 == OpsOf(rest)
  }

  lemma NodeLevels(c: Config, base: Row, levels: Row, i: nat)
    requires NodeOk(c, base, levels) && i < c.dim
    ensures levels[i] <= c.bl
  {
    assert CellOk(base[i], levels[i], c.bl);
  }

  lemma DecidedNode(c: Config, pts: seq<Row>, base: Row, levels: Row, last: nat, rest: Log)
    requires NodeOk(c, base, levels) && AllInCell(c, pts, base, levels) && PolicyOk(c, levels, last)
    requires 0 < |pts| < WORD
    requires Shape(c, base, levels) && forall k :: 0 <= k < |pts| ==> |pts[k]| == c.dim
    requires levels[EncAxis(c, pts, base, levels, last)] == c.bl
    ensures ReadsBack(c, pts, base, levels, last, EncTree(c, pts, base, levels, last), rest)
  {
    hide NodeOk, AllInCell, PolicyOk, EncAxis, DecAxis;
    var axis := EncAxis(c, pts, base, levels, last);
    ExhaustedAxis(c, pts, base, levels, last);
    DecidedCell(c, pts, base, levels);
    AxisRoundTrip(c, pts, base, levels, last, rest.axis);
    var log := Cat(AxisLog(c, |pts|, axis), rest);
    assert log == rest.(axis := AxisOps(c, |pts|, axis) + rest.axis);
  }

  lemma LeafNode(c: Config, pts: seq<Row>, base: Row, levels: Row, last: nat, rest: Log)
    requires NodeOk(c, base, levels) && AllInCell(c, pts, base, levels)
    requires 0 < |pts| <= 2
    requires Shape(c, base, levels) && forall k :: 0 <= k < |pts| ==> |pts[k]| == c.dim
    requires levels[EncAxis(c, pts, base, levels, last)] != c.bl
    ensures ReadsBack(c, pts, base, levels, last, EncTree(c, pts, base, levels, last), rest)
  {
    hide NodeOk, AllInCell, EncAxis, DecAxis, LeafOps, DecLeaf;
    var axis := EncAxis(c, pts, base, levels, last);
    AxisRoundTrip(c, pts, base, levels, last, rest.axis);
    LeafRoundTrip(c, pts, base, levels, axis, rest.remaining);
    var leaf := Log([], LeafOps(c, pts, levels, axis), [], []);
    var log := Cat(Cat(AxisLog(c, |pts|, axis), leaf), rest);
    assert log == rest.(axis := AxisOps(c, |pts|, axis) + rest.axis,
                        remaining := LeafOps(c, pts, levels, axis) + rest.remaining);
  }

  /** The children of an inner node meet the round trip's preconditions. */
  lemma Children(c: Config, pts: seq<Row>, base: Row, levels: Row, last: nat)
    requires NodeOk(c, base, levels) && AllInCell(c, pts, base, levels) && PolicyOk(c, levels, last)
    requires Shape(c, base, levels) && forall k :: 0 <= k < |pts| ==> |pts[k]| == c.dim
    requires levels[EncAxis(c, pts, base, levels, last)] < c.bl
    ensures var h := SplitNode(c, pts, base, levels, last);
            var deeper, upperBase := Deeper(levels, h.axis), UpperBase(c, base, levels, h.axis);
            Shape(c, base, deeper) && Shape(c, upperBase, deeper) && Room(c, deeper) < Room(c, levels) &&
            NodeOk(c, base, deeper) && NodeOk(c, upperBase, deeper) && PolicyOk(c, deeper, h.axis) &&
            AllInCell(c, h.lower, base, deeper) && AllInCell(c, h.upper, upperBase, deeper)
  {
    hide SplitNode, AllInCell, NodeOk, UpperBase;
    HalvesInCells(c, pts, base, levels, last);
    var axis := EncAxis(c, pts, base, levels, last);
    RoomStep(c, levels, axis);
    CyclicStep(c, levels, last);
  }

  /** An inner node reads back when its children do. */
  lemma JoinNode(c: Config, pts: seq<Row>, base: Row, levels: Row, last: nat, rest: Log)
    requires Shape(c, base, levels) && forall k :: 0 <= k < |pts| ==> |pts[k]| == c.dim
    requires 3 <= |pts| < WORD && levels[EncAxis(c, pts, base, levels, last)] < c.bl
    requires var h := SplitNode(c, pts, base, levels, last);
             var deeper, upperBase := Deeper(levels, h.axis), UpperBase(c, base, levels, h.axis);
             Shape(c, base, deeper) && Shape(c, upperBase, deeper) &&
             var lowerLog := EncChild(c, h.lower, base, deeper, h.axis);
             ChildReadsBack(c, h.lower, base, deeper, h.axis, lowerLog, rest) &&
             ChildReadsBack(c, h.upper, upperBase, deeper, h.axis,
               EncChild(c, h.upper, upperBase, deeper, h.axis), Cat(lowerLog, rest))
    ensures ReadsBack(c, pts, base, levels, last, EncTree(c, pts, base, levels, last), rest)
  {
    hide EncAxis, DecAxis, DecSplit, SplitNode, Cat, UpperBase, Deeper, EncChild, DecChild, AxisLog, SplitLog;
    var h := SplitNode(c, pts, base, levels, last);
    var axis := h.axis;
    var lowerLog := EncChild(c, h.lower, base, Deeper(levels, axis), axis);
    var upperLog := EncChild(c, h.upper, UpperBase(c, base, levels, axis), Deeper(levels, axis), axis);
    var tail := Cat(upperLog, Cat(lowerLog, rest));
    var body := Cat(SplitLog(|pts|, |h.lower|), tail);
    CatFour(AxisLog(c, |pts|, axis), SplitLog(|pts|, |h.lower|), upperLog, lowerLog, rest);
    AxisRoundTrip(c, pts, base, levels, last, body.axis);
    AxisFront(c, |pts|, axis, body);
    SplitRoundTrip(|pts|, |h.lower|, tail);
  }

  lemma AxisFront(c: Config, n: nat, axis: nat, body: Log)
    ensures Cat(AxisLog(c, n, axis), body) == body.(axis := AxisOps(c, n, axis) + body.axis)
  {
  }
}
