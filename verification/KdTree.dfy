/** Dynamic kd-tree point coder (internal/codec/kdtree/dynamic.go): what the two loops
    compute, as recursions over the tree, and the lossless round trip. */
module KdTree {
  import opened Bits
  import opened KdStreams

  type Row = seq<nat>

  /** dim components of bl bits each; select is the axis policy of level 6. */
  datatype Config = Config(dim: nat, bl: nat, select: bool)

  predicate ValidConfig(c: Config)
  {
    1 <= c.dim < WORD && c.bl <= 32
  }

  // ---- small arithmetic of the source -------------------------------------------------

  function IncrementMod(value: nat, mod: nat): nat
  {
    if value + 1 >= mod then 0 else value + 1
  }

  /** Position of the highest one bit. */
  function MostSignificantBit(v: nat): nat
  {
    if v < 2 then 0 else 1 + MostSignificantBit(v / 2)
  }

  lemma {:induction false} MsbitBounds(v: nat)
    requires v >= 1
    ensures Pow2(MostSignificantBit(v)) <= v < 2 * Pow2(MostSignificantBit(v))
    ensures v >= 2 ==> MostSignificantBit(v) >= 1
  {
    if v >= 2 {
      MsbitBounds(v / 2);
    }
  }

  lemma {:induction false} MsbitBelow(v: nat, k: nat)
    requires v < Pow2(k)
    ensures MostSignificantBit(v) <= k
    decreases v
  {
    if v >= 2 {
      assert k > 0;
      MsbitBelow(v / 2, k - 1);
    }
  }

  function AxisBitCount(dim: nat): nat
  {
    if dim <= 16 then 4 else MostSignificantBit(dim - 1) + 1
  }

  lemma AxisFits(axis: nat, dim: nat)
    requires axis < dim
    ensures axis < Pow2(AxisBitCount(dim))
  {
    if dim > 16 {
      MsbitBounds(dim - 1);
    } else {
      assert Pow2(4) == 16;
    }
  }

  // ---- cells ------------------------------------------------------------------------

  function LevelSum(levels: Row): nat
  {
    if levels == [] then 0 else LevelSum(levels[..|levels| - 1]) + levels[|levels| - 1]
  }

  lemma {:induction false} LevelSumUpdate(levels: Row, i: nat, v: nat)
    requires i < |levels|
    ensures LevelSum(levels[i := v]) == LevelSum(levels) - levels[i] + v
    ensures LevelSum(levels) >= levels[i]
  {
    var m := |levels| - 1;
    var u := levels[i := v];
    if i == m {
      assert u[..m] == levels[..m];
    } else {
      LevelSumUpdate(levels[..m], i, v);
      assert u[..m] == levels[..m][i := v];
    }
  }

  lemma {:induction false} LevelSumBound(levels: Row, bl: nat)
    requires forall i :: 0 <= i < |levels| ==> levels[i] <= bl
    ensures LevelSum(levels) <= |levels| * bl
    ensures (exists i :: 0 <= i < |levels| && levels[i] < bl) ==> LevelSum(levels) < |levels| * bl
  {
    if levels != [] {
      var m := |levels| - 1;
      LevelSumBound(levels[..m], bl);
      assert |levels| * bl == m * bl + bl;
      if i :| 0 <= i < |levels| && levels[i] < bl && levels[m] == bl {
        assert levels[..m][i] < bl;
      }
    }
  }

  /** A node's cell: base has only the decided high bits of each component. */
  ghost predicate NodeOk(c: Config, base: Row, levels: Row)
  {
    ValidConfig(c) && |base| == |levels| == c.dim &&
    forall i :: 0 <= i < c.dim ==> CellOk(base[i], levels[i], c.bl)
  }

  ghost predicate CellOk(b: nat, level: nat, bl: nat)
  {
    level <= bl && b < Pow2(bl) && Low(b, bl - level) == 0
  }

  ghost predicate InCell(c: Config, p: Row, base: Row, levels: Row)
    requires NodeOk(c, base, levels)
  {
    |p| == c.dim && forall i :: 0 <= i < c.dim ==> base[i] <= p[i] < base[i] + Pow2(c.bl - levels[i])
  }

  ghost predicate AllInCell(c: Config, pts: seq<Row>, base: Row, levels: Row)
    requires NodeOk(c, base, levels)
  {
    forall k :: 0 <= k < |pts| ==> InCell(c, pts[k], base, levels)
  }

  lemma {:induction false} LowHighSplit(b: nat, r: nat)
    ensures b == Shl(Shr(b, r), r) + Low(b, r)
    decreases r
  {
    if r > 0 {
      LowHighSplit(b / 2, r - 1);
    }
  }

  /** The upper half of a cell is a cell, and nothing overflows. */
  lemma CellSplit(b: nat, level: nat, bl: nat)
    requires CellOk(b, level, bl) && level < bl
    ensures CellOk(b, level + 1, bl)
    ensures CellOk(b + Pow2(bl - level - 1), level + 1, bl)
    ensures b + Pow2(bl - level) <= Pow2(bl)
  {
    var r := bl - level;
    LowHighSplit(b, r);
    ShrBound(b, r, level);
    ShlBound(Shr(b, r), r, level);
    LowDown(b, r);
    LowOfAdd(b, r - 1);
  }

  lemma {:induction false} LowDown(b: nat, r: nat)
    requires r > 0 && Low(b, r) == 0
    ensures Low(b, r - 1) == 0
    decreases r
  {
    if r > 1 {
      LowDown(b / 2, r - 1);
    }
  }

  lemma {:induction false} LowOfAdd(b: nat, r: nat)
    requires Low(b, r) == 0
    ensures Low(b + Pow2(r), r) == 0
    decreases r
  {
    if r > 0 {
      LowOfAdd(b / 2, r - 1);
    }
  }

  /** Or-ing a cell's base with in-cell low bits adds them and stays in range. */
  lemma CellOr(b: nat, level: nat, bl: nat, v: nat)
    requires CellOk(b, level, bl) && v < Pow2(bl - level)
    ensures Or(b, v) == b + v < Pow2(bl)
  {
    var r := bl - level;
    LowHighSplit(b, r);
    OrDisjoint(Shr(b, r), v, r);
    ShrBound(b, r, level);
    ShlBound(Shr(b, r), r, level);
  }

  /** The low bits of an in-cell value are its offset. */
  lemma CellLow(b: nat, level: nat, bl: nat, p: nat)
    requires CellOk(b, level, bl) && b <= p < b + Pow2(bl - level)
    ensures Or(b, Low(p, bl - level)) == p
  {
    var r := bl - level;
    LowOfSum(b, p - b, r);
    CellOr(b, level, bl, p - b);
  }

  lemma {:induction false} LowOfSum(b: nat, d: nat, r: nat)
    requires Low(b, r) == 0 && d < Pow2(r)
    ensures Low(b + d, r) == d
    decreases r
  {
    if r > 0 {
      assert b % 2 == 0 && Low(b / 2, r - 1) == 0;
      assert (b + d) / 2 == b / 2 + d / 2 && (b + d) % 2 == d % 2;
      LowOfSum(b / 2, d / 2, r - 1);
    }
  }

  // ---- axis selection -----------------------------------------------------------------

  /** The first least-split axis among the first k. */
  function MinAxis(levels: Row, k: nat): (a: nat)
    requires 1 <= k <= |levels|
    ensures a < k
  {
    if k == 1 then 0
    else
      var best := MinAxis(levels, k - 1);
      if levels[best] > levels[k - 1] then k - 1 else best
  }

  lemma {:induction false} MinAxisLeast(levels: Row, k: nat)
    requires 1 <= k <= |levels|
    ensures forall i :: 0 <= i < k ==> levels[MinAxis(levels, k)] <= levels[i]
  {
    if k > 1 {
      MinAxisLeast(levels, k - 1);
    }
  }

  function Below(pts: seq<Row>, axis: nat, split: nat, n: nat): (r: nat)
    requires n <= |pts| && forall k :: 0 <= k < |pts| ==> axis < |pts[k]|
    ensures r <= n
  {
    if n == 0 then 0 else Below(pts, axis, split, n - 1) + if pts[n - 1][axis] < split then 1 else 0
  }

  /** The larger side when the cell is halved at this axis. */
  function Deviation(c: Config, pts: seq<Row>, base: Row, levels: Row, axis: nat): nat
    requires axis < |base| == |levels| && levels[axis] < c.bl
    requires forall k :: 0 <= k < |pts| ==> axis < |pts[k]|
  {
    var below := Below(pts, axis, base[axis] + Pow2(c.bl - levels[axis] - 1), |pts|);
    if |pts| - below > below then |pts| - below else below
  }

  /** Best axis and its deviation among the first k; (0, 0) when all are exhausted. */
  function BestAxis(c: Config, pts: seq<Row>, base: Row, levels: Row, k: nat): (r: (nat, nat))
    requires k <= c.dim == |base| == |levels| && c.dim >= 1
    requires forall i :: 0 <= i < |levels| ==> levels[i] <= c.bl
    requires forall k :: 0 <= k < |pts| ==> |pts[k]| == c.dim
    ensures r.0 < c.dim
    decreases k
  {
    if k == 0 then (0, 0)
    else
      var (best, max) := BestAxis(c, pts, base, levels, k - 1);
      if levels[k - 1] == c.bl then (best, max)
      else
        var d := Deviation(c, pts, base, levels, k - 1);
        if d > max then (k - 1, d) else (best, max)
  }

  lemma {:induction false} BestAxisOpen(c: Config, pts: seq<Row>, base: Row, levels: Row, k: nat)
    requires k <= c.dim == |base| == |levels| && c.dim >= 1 && pts != []
    requires forall i :: 0 <= i < |levels| ==> levels[i] <= c.bl
    requires forall k :: 0 <= k < |pts| ==> |pts[k]| == c.dim
    ensures var (best, max) := BestAxis(c, pts, base, levels, k);
            (max > 0 ==> levels[best] < c.bl) &&
            (max == 0 ==> forall i :: 0 <= i < k ==> levels[i] == c.bl)
    decreases k
  {
    if k > 0 {
      BestAxisOpen(c, pts, base, levels, k - 1);
    }
  }

  function EncAxis(c: Config, pts: seq<Row>, base: Row, levels: Row, last: nat): (axis: nat)
    requires c.dim == |base| == |levels| && c.dim >= 1
    requires forall i :: 0 <= i < |levels| ==> levels[i] <= c.bl
    requires forall k :: 0 <= k < |pts| ==> |pts[k]| == c.dim
    ensures axis < c.dim
  {
    if !c.select then IncrementMod(last, c.dim)
    else if |pts| < 64 then MinAxis(levels, c.dim)
    else BestAxis(c, pts, base, levels, c.dim).0
  }

  function AxisOps(c: Config, n: nat, axis: nat): seq<Op>
  {
    if c.select && n >= 64 then [Op(AxisBitCount(c.dim), axis)] else []
  }

  /** Order in which the cyclic policy visits axes: 1, 2, ..., dim - 1, 0. */
  function Key(i: nat, dim: nat): nat
  {
    if i == 0 then dim else i
  }

  /** Cyclic policy: axes before the next one in the cycle are one level deeper. */
  ghost predicate Cyclic(c: Config, levels: Row, last: nat)
  {
    |levels| == c.dim && c.dim >= 1 &&
    var next := IncrementMod(last, c.dim);
    forall i :: 0 <= i < c.dim ==>
      levels[i] == levels[next] + if Key(i, c.dim) < Key(next, c.dim) then 1 else 0
  }

  ghost predicate PolicyOk(c: Config, levels: Row, last: nat)
  {
    c.select || Cyclic(c, levels, last)
  }

  lemma CyclicStep(c: Config, levels: Row, last: nat)
    requires c.dim >= 1 && PolicyOk(c, levels, last)
    ensures !c.select ==>
      var axis := IncrementMod(last, c.dim);
      Cyclic(c, levels[axis := levels[axis] + 1], axis)
  {
  }

  /** When the chosen axis is exhausted, every axis is. */
  lemma ExhaustedAxis(c: Config, pts: seq<Row>, base: Row, levels: Row, last: nat)
    requires NodeOk(c, base, levels) && PolicyOk(c, levels, last) && pts != []
    requires forall k :: 0 <= k < |pts| ==> |pts[k]| == c.dim
    requires levels[EncAxis(c, pts, base, levels, last)] == c.bl
    ensures forall i :: 0 <= i < c.dim ==> levels[i] == c.bl
  {
    forall i | 0 <= i < c.dim
      ensures levels[i] == c.bl
    {
      assert CellOk(base[i], levels[i], c.bl);
      MinAxisLeast(levels, c.dim);
      BestAxisOpen(c, pts, base, levels, c.dim);
    }
  }

  // ---- partition ------------------------------------------------------------------------

  /** The two-pointer partition: the new order and the number of points below split. */
  function Partition(pts: seq<Row>, axis: nat, split: nat): (r: (seq<Row>, nat))
    requires forall k :: 0 <= k < |pts| ==> axis < |pts[k]|
    ensures |r.0| == |pts| && r.1 <= |pts|
    decreases |pts|
  {
    if pts == [] then ([], 0)
    else if pts[0][axis] < split then
      var (rest, k) := Partition(pts[1..], axis, split);
      ([pts[0]] + rest, k + 1)
    else
      var m := |pts| - 1;
      if pts[m][axis] >= split then
        var (rest, k) := Partition(pts[..m], axis, split);
        (rest + [pts[m]], k)
      else
        var (mid, k) := Partition(pts[1..m], axis, split);
        ([pts[m]] + mid + [pts[0]], k + 1)
  }

  /** The first k rows are below split at this axis, the others are not. */
  ghost predicate SplitAt(s: seq<Row>, k: nat, axis: nat, split: nat)
  {
    k <= |s| && forall i :: 0 <= i < |s| ==> axis < |s[i]| && (s[i][axis] < split <==> i < k)
  }

  ghost predicate Arranged(s: seq<Row>, k: nat, pts: seq<Row>, axis: nat, split: nat)
  {
    multiset(s) == multiset(pts) && SplitAt(s, k, axis, split)
  }

  /** A permutation with the small points in front. */
  lemma {:induction false} PartitionSorts(pts: seq<Row>, axis: nat, split: nat)
    requires forall k :: 0 <= k < |pts| ==> axis < |pts[k]|
    ensures var (s, k) := Partition(pts, axis, split);
            Arranged(s, k, pts, axis, split)
    decreases |pts|
  {
    hide Arranged;
    var m := |pts| - 1;
    if pts == [] {
      SplitNothing(axis, split);
    } else if pts[0][axis] < split {
      PartitionSorts(pts[1..], axis, split);
      var (rest, k) := Partition(pts[1..], axis, split);
      ConsSmall(pts, rest, k, axis, split);
    } else {
      if pts[m][axis] >= split {
        PartitionSorts(pts[..m], axis, split);
        var (rest, k) := Partition(pts[..m], axis, split);
        SnocLarge(pts, rest, k, axis, split);
      } else {
        PartitionSorts(pts[1..m], axis, split);
        var (mid, k) := Partition(pts[1..m], axis, split);
        SwapEnds(pts, mid, k, axis, split);
      }
    }
  }

  lemma SplitNothing(axis: nat, split: nat)
    ensures Arranged([], 0, [], axis, split)
  {
  }

  lemma ConsSmall(pts: seq<Row>, rest: seq<Row>, k: nat, axis: nat, split: nat)
    requires pts != [] && Arranged(rest, k, pts[1..], axis, split)
    requires axis < |pts[0]| && pts[0][axis] < split
    ensures Arranged([pts[0]] + rest, k + 1, pts, axis, split)
  {
    assert pts == [pts[0]] + pts[1..];
  }

  lemma SnocLarge(pts: seq<Row>, rest: seq<Row>, k: nat, axis: nat, split: nat)
    requires pts != [] && Arranged(rest, k, pts[..|pts| - 1], axis, split)
    requires var m := |pts| - 1; axis < |pts[m]| && pts[m][axis] >= split
    ensures Arranged(rest + [pts[|pts| - 1]], k, pts, axis, split)
  {
    var m := |pts| - 1;
    assert pts == pts[..m] + [pts[m]];
  }

  lemma SwapEnds(pts: seq<Row>, mid: seq<Row>, k: nat, axis: nat, split: nat)
    requires |pts| >= 2 && Arranged(mid, k, pts[1..|pts| - 1], axis, split)
    requires axis < |pts[0]| && axis < |pts[|pts| - 1]|
    requires pts[|pts| - 1][axis] < split <= pts[0][axis]
    ensures Arranged([pts[|pts| - 1]] + mid + [pts[0]], k + 1, pts, axis, split)
  {
    var m := |pts| - 1;
    assert pts == [pts[0]] + pts[1..m] + [pts[m]];
  }

  /** Rows of a permutation are rows of the original. */
  lemma SameRows(s: seq<Row>, pts: seq<Row>)
    requires multiset(s) == multiset(pts)
    ensures |s| == |pts| && forall i :: 0 <= i < |s| ==> s[i] in pts
  {
    assert |multiset(s)| == |s|;
    forall i | 0 <= i < |s|
      ensures s[i] in pts
    {
      assert s[i] in multiset(s);
    }
  }

  // ---- leaves -------------------------------------------------------------------------

  /** The j-th axis of a leaf, starting at the chosen one and wrapping around. */
  function AxisOrder(axis: nat, dim: nat, j: nat): (a: nat)
    requires axis < dim && j < dim
    ensures a < dim
  {
    if axis + j < dim then axis + j else axis + j - dim
  }

  /** Writes for one point of a leaf, from position j on. */
  function PointOps(c: Config, p: Row, levels: Row, axis: nat, j: nat): seq<Op>
    requires |p| == |levels| == c.dim && axis < c.dim && j <= c.dim
    requires forall i :: 0 <= i < |levels| ==> levels[i] <= c.bl
    decreases c.dim - j
  {
    if j == c.dim then []
    else
      var a := AxisOrder(axis, c.dim, j);
      (if c.bl > levels[a] then [Op(c.bl - levels[a], p[a])] else []) + PointOps(c, p, levels, axis, j + 1)
  }

  function LeafOps(c: Config, pts: seq<Row>, levels: Row, axis: nat): seq<Op>
    requires |levels| == c.dim && axis < c.dim
    requires forall k :: 0 <= k < |pts| ==> |pts[k]| == c.dim
    requires forall i :: 0 <= i < |levels| ==> levels[i] <= c.bl
  {
    if pts == [] then [] else PointOps(c, pts[0], levels, axis, 0) + LeafOps(c, pts[1..], levels, axis)
  }

  /** Reads one point of a leaf into row, from position j on. */
  function DecPoint(c: Config, base: Row, levels: Row, axis: nat, row: Row, j: nat, src: Source): (r: Option<(Row, Source)>)
    requires |row| == |base| == |levels| == c.dim && axis < c.dim && j <= c.dim && ValidSource(src)
    requires forall i :: 0 <= i < |levels| ==> levels[i] <= c.bl
    ensures r.Some? ==> |r.value.0| == c.dim && ValidSource(r.value.1)
    decreases c.dim - j
  {
    if j == c.dim then Some((row, src))
    else
      var a := AxisOrder(axis, c.dim, j);
      if c.bl > levels[a] then
        match Read(src, c.bl - levels[a])
        case None => None
        case Some((v, rest)) => DecPoint(c, base, levels, axis, row[a := Or(base[a], v)], j + 1, rest)
      else DecPoint(c, base, levels, axis, row[a := Or(base[a], 0)], j + 1, src)
  }

  /** n points of a leaf; every component of a row is written before it is used. */
  function DecLeaf(c: Config, n: nat, base: Row, levels: Row, axis: nat, src: Source): (r: Option<(seq<Row>, Source)>)
    requires |base| == |levels| == c.dim && axis < c.dim && ValidSource(src)
    requires forall i :: 0 <= i < |levels| ==> levels[i] <= c.bl
    ensures r.Some? ==> |r.value.0| == n && ValidSource(r.value.1)
  {
    if n == 0 then Some(([], src))
    else
      match DecPoint(c, base, levels, axis, base, 0, src)
      case None => None
      case Some((row, s1)) =>
        match DecLeaf(c, n - 1, base, levels, axis, s1)
        case None => None
        case Some((rows, s2)) => Some(([row] + rows, s2))
  }

  // ---- the tree -----------------------------------------------------------------------

  ghost predicate Shape(c: Config, base: Row, levels: Row)
  {
    ValidConfig(c) && |base| == |levels| == c.dim && forall i :: 0 <= i < c.dim ==> levels[i] <= c.bl
  }

  /** Halvings still possible below a node. */
  ghost function Room(c: Config, levels: Row): nat
    requires |levels| == c.dim && forall i :: 0 <= i < c.dim ==> levels[i] <= c.bl
  {
    LevelSumBound(levels, c.bl);
    c.dim * c.bl - LevelSum(levels)
  }

  lemma RoomStep(c: Config, levels: Row, axis: nat)
    requires |levels| == c.dim && forall i :: 0 <= i < c.dim ==> levels[i] <= c.bl
    requires axis < c.dim && levels[axis] < c.bl
    ensures Room(c, Deeper(levels, axis)) == Room(c, levels) - 1
  {
    LevelSumUpdate(levels, axis, levels[axis] + 1);
  }

  /** Value that separates the halves of a cell along axis. */
  function Middle(c: Config, base: Row, levels: Row, axis: nat): nat
    requires axis < |base| == |levels| && levels[axis] < c.bl
  {
    base[axis] + Pow2(c.bl - levels[axis] - 1)
  }

  function UpperBase(c: Config, base: Row, levels: Row, axis: nat): (r: Row)
    requires axis < |base| == |levels| && levels[axis] < c.bl
    ensures |r| == |base|
  {
    base[axis := Middle(c, base, levels, axis)]
  }

  function Deeper(levels: Row, axis: nat): (r: Row)
    requires axis < |levels|
    ensures |r| == |levels|
  {
    levels[axis := levels[axis] + 1]
  }

  /** An inner node's points, split at the chosen axis. */
  datatype Halves = Halves(axis: nat, lower: seq<Row>, upper: seq<Row>)

  function SplitNode(c: Config, pts: seq<Row>, base: Row, levels: Row, last: nat): (h: Halves)
    requires c.dim == |base| == |levels| && c.dim >= 1
    requires forall i :: 0 <= i < |levels| ==> levels[i] <= c.bl
    requires forall k :: 0 <= k < |pts| ==> |pts[k]| == c.dim
    requires levels[EncAxis(c, pts, base, levels, last)] < c.bl
    ensures h.axis < c.dim && |h.lower| + |h.upper| == |pts|
    ensures h.axis == EncAxis(c, pts, base, levels, last)
    ensures forall k :: 0 <= k < |h.lower| ==> |h.lower[k]| == c.dim
    ensures forall k :: 0 <= k < |h.upper| ==> |h.upper[k]| == c.dim
    ensures multiset(h.lower) + multiset(h.upper) == multiset(pts)
  {
    var axis := EncAxis(c, pts, base, levels, last);
    var (s, k) := Partition(pts, axis, Middle(c, base, levels, axis));
    PartitionRows(pts, axis, Middle(c, base, levels, axis), c.dim);
    PartitionSorts(pts, axis, Middle(c, base, levels, axis));
    assert s == s[..k] + s[k..];
    Halves(axis, s[..k], s[k..])
  }

  function HalfOps(first: nat, second: nat): seq<Op>
  {
    if first != second then [Op(1, if first < second then 1 else 0)] else []
  }

  /** Writes of an inner node before its children's. */
  function SplitLog(n: nat, first: nat): Log
    requires first <= n
  {
    var second := n - first;
    var smaller := if first < second then first else second;
    Log([Op(MostSignificantBit(n), n / 2 - smaller)], [], [], HalfOps(first, second))
  }

  function AxisLog(c: Config, n: nat, axis: nat): Log
  {
    Log([], [], AxisOps(c, n, axis), [])
  }

  /** Everything written for a node and its subtree; the upper half comes first. */
  ghost function EncTree(c: Config, pts: seq<Row>, base: Row, levels: Row, last: nat): Log
    requires Shape(c, base, levels) && forall k :: 0 <= k < |pts| ==> |pts[k]| == c.dim
    decreases Room(c, levels), 0
  {
    var axis := EncAxis(c, pts, base, levels, last);
    if levels[axis] == c.bl then AxisLog(c, |pts|, axis)
    else if |pts| <= 2 then Cat(AxisLog(c, |pts|, axis), Log([], LeafOps(c, pts, levels, axis), [], []))
    else
      var h := SplitNode(c, pts, base, levels, last);
      RoomStep(c, levels, axis);
      Cat(Cat(AxisLog(c, |pts|, axis), SplitLog(|pts|, |h.lower|)),
          Cat(EncChild(c, h.upper, UpperBase(c, base, levels, axis), Deeper(levels, axis), axis),
              EncChild(c, h.lower, base, Deeper(levels, axis), axis)))
  }

  /** An empty half is not visited. */
  ghost function EncChild(c: Config, pts: seq<Row>, base: Row, levels: Row, last: nat): Log
    requires Shape(c, base, levels) && forall k :: 0 <= k < |pts| ==> |pts[k]| == c.dim
    decreases Room(c, levels), 1
  {
    if pts == [] then EMPTY else EncTree(c, pts, base, levels, last)
  }

  lemma PartitionRows(pts: seq<Row>, axis: nat, split: nat, dim: nat)
    requires axis < dim && forall k :: 0 <= k < |pts| ==> |pts[k]| == dim
    ensures forall i :: 0 <= i < |pts| ==> |Partition(pts, axis, split).0[i]| == dim
  {
    PartitionSorts(pts, axis, split);
    SameRows(Partition(pts, axis, split).0, pts);
  }

  function DecAxis(c: Config, n: nat, levels: Row, last: nat, src: Source): (r: Option<(nat, Source)>)
    requires |levels| == c.dim >= 1 && ValidSource(src)
    ensures r.Some? ==> r.value.0 < c.dim && ValidSource(r.value.1)
  {
    if !c.select then Some((IncrementMod(last, c.dim), src))
    else if n < 64 then Some((MinAxis(levels, c.dim), src))
    else
      match Read(src, AxisBitCount(c.dim))
      case None => None
      case Some((axis, rest)) => if axis >= c.dim then None else Some((axis, rest))
  }

  /** Sizes of the lower and upper half; None for an impossible count. */
  function DecSplit(n: nat, src: Sources): (r: Option<(nat, nat, Sources)>)
    requires ValidSources(src)
    ensures r.Some? ==> r.value.0 + r.value.1 == n && ValidSources(r.value.2)
  {
    match Read(src.numbers, MostSignificantBit(n))
    case None => None
    case Some((number, rest)) =>
      if n / 2 < number then None
      else
        var first := n / 2 - number;
        var second := n - first;
        if first == second then Some((first, second, src.(numbers := rest)))
        else
          var (bit, half) := ReadHalf(src.half);
          var after := src.(numbers := rest, half := half);
          if bit then Some((first, second, after)) else Some((second, first, after))
  }

  /** Rows of a node of n points, read from any streams; None is a reported error. */
  ghost function DecTree(c: Config, n: nat, base: Row, levels: Row, last: nat, src: Sources): (r: Option<(seq<Row>, Sources)>)
    requires Shape(c, base, levels) && ValidSources(src)
    ensures r.Some? ==> ValidSources(r.value.1)
    decreases Room(c, levels), 0
  {
    match DecAxis(c, n, levels, last, src.axis)
    case None => None
    case Some((axis, axisRest)) =>
      var s0 := src.(axis := axisRest);
      if levels[axis] == c.bl then Some((seq(n, _ => base), s0))
      else if n <= 2 then
        match DecLeaf(c, n, base, levels, axis, s0.remaining)
        case None => None
        case Some((rows, rest)) => Some((rows, s0.(remaining := rest)))
      else
        match DecSplit(n, s0)
        case None => None
        case Some((first, second, s1)) =>
          RoomStep(c, levels, axis);
          match DecChild(c, second, UpperBase(c, base, levels, axis), Deeper(levels, axis), axis, s1)
          case None => None
          case Some((upper, s2)) =>
            match DecChild(c, first, base, Deeper(levels, axis), axis, s2)
            case None => None
            case Some((lower, s3)) => Some((upper + lower, s3))
  }

  ghost function DecChild(c: Config, n: nat, base: Row, levels: Row, last: nat, src: Sources): (r: Option<(seq<Row>, Sources)>)
    requires Shape(c, base, levels) && ValidSources(src)
    ensures r.Some? ==> ValidSources(r.value.1)
    decreases Room(c, levels), 1
  {
    if n == 0 then Some(([], src)) else DecTree(c, n, base, levels, last, src)
  }
}
