/** The kd-tree encoder loop (internal/codec/kdtree/dynamic.go): explicit stack, base and
    level buffers indexed by stack position, and points partitioned in place. */
module KdEncode {
  import opened Bits
  import opened KdStreams
  import opened KdTree

  /** kdTreeEncodingStatus: a pending range of points and the buffer slot of its cell. */
  datatype Status = Status(begin: nat, end: nat, last: nat, pos: nat)

  // ---- partition in place -----------------------------------------------------------------

  /** The scanned parts of a range and what is still to be partitioned between them. */
  ghost predicate Scanned(points: array<Row>, begin: nat, i: nat, j: nat, end: nat, axis: nat, split: nat)
    reads points
  {
    begin <= i <= j <= end <= points.Length &&
    (forall t :: 0 <= t < points.Length ==> axis < |points[t]|) &&
    (forall t :: begin <= t < i ==> points[t][axis] < split) &&
    (forall t :: j <= t < end ==> points[t][axis] >= split)
  }

  ghost function Goal(points: array<Row>, begin: nat, i: nat, j: nat, end: nat, axis: nat, split: nat): (seq<Row>, nat)
    requires Scanned(points, begin, i, j, end, axis, split)
    reads points
  {
    Within(points[begin..i], points[i..j], points[j..end], axis, split)
  }

  lemma PartitionStart(points: array<Row>, begin: nat, end: nat, axis: nat, split: nat)
    requires Scanned(points, begin, begin, end, end, axis, split)
    ensures Goal(points, begin, begin, end, end, axis, split) == Partition(points[begin..end], axis, split)
  {
    hide Within, Partition;
    WithinAll(points[begin..end], axis, split);
    assert points[begin..begin] == [] && points[end..end] == [];
  }

  lemma PartitionDone(points: array<Row>, begin: nat, i: nat, end: nat, axis: nat, split: nat)
    requires Scanned(points, begin, i, i, end, axis, split)
    ensures Goal(points, begin, i, i, end, axis, split) == (points[begin..end], i - begin)
  {
    hide Within;
    WithinNone(points[begin..i], points[i..end], axis, split);
    assert points[i..i] == [] && points[begin..i] + points[i..end] == points[begin..end];
  }

  /** Two pointers swap points over; everything outside [begin, end) stays. */
  method PartitionPoints(points: array<Row>, begin: nat, end: nat, axis: nat, split: nat) returns (k: nat)
    requires begin <= end <= points.Length
    requires forall i :: 0 <= i < points.Length ==> axis < |points[i]|
    modifies points
    ensures begin <= k <= end
    ensures (points[begin..end], k - begin) == Partition(old(points[begin..end]), axis, split)
    ensures points[..begin] == old(points[..begin]) && points[end..] == old(points[end..])
  {
    hide Within, Partition, Goal;
    var i, j := begin, end;
    ghost var goal := Partition(points[begin..end], axis, split);
    PartitionStart(points, begin, end, axis, split);
    while true
      invariant Scanned(points, begin, i, j, end, axis, split)
      invariant points[..begin] == old(points[..begin]) && points[end..] == old(points[end..])
      invariant Goal(points, begin, i, j, end, axis, split) == goal
      decreases j - i
    {
      i := ScanFront(points, begin, i, j, end, axis, split);
      j := ScanBack(points, begin, i, j, end, axis, split);
      if i >= j {
        PartitionDone(points, begin, i, end, axis, split);
        return i;
      }
      i, j := Exchange(points, begin, i, j, end, axis, split);
    }
  }

  method ScanFront(points: array<Row>, begin: nat, i0: nat, j: nat, end: nat, axis: nat, split: nat) returns (i: nat)
    requires Scanned(points, begin, i0, j, end, axis, split)
    ensures i0 <= i && Scanned(points, begin, i, j, end, axis, split)
    ensures i < j ==> points[i][axis] >= split
    ensures Goal(points, begin, i, j, end, axis, split) == Goal(points, begin, i0, j, end, axis, split)
  {
    hide Within;
    i := i0;
    while i < end && points[i][axis] < split
      invariant i0 <= i && Scanned(points, begin, i, j, end, axis, split)
      invariant Goal(points, begin, i, j, end, axis, split) == Goal(points, begin, i0, j, end, axis, split)
    {
      TakeFront(points[begin..i], points[i..j], points[j..end], axis, split);
      assert points[begin..i] + [points[i]] == points[begin..i + 1];
      assert points[i..j][1..] == points[i + 1..j];
      i := i + 1;
    }
  }

  method ScanBack(points: array<Row>, begin: nat, i: nat, j0: nat, end: nat, axis: nat, split: nat) returns (j: nat)
    requires Scanned(points, begin, i, j0, end, axis, split) && (i < j0 ==> points[i][axis] >= split)
    ensures j <= j0 && Scanned(points, begin, i, j, end, axis, split)
    ensures i < j ==> points[i][axis] >= split && points[j - 1][axis] < split
    ensures Goal(points, begin, i, j, end, axis, split) == Goal(points, begin, i, j0, end, axis, split)
  {
    hide Within;
    j := j0;
    while j > begin && points[j - 1][axis] >= split
      invariant j <= j0 && Scanned(points, begin, i, j, end, axis, split)
      invariant Goal(points, begin, i, j, end, axis, split) == Goal(points, begin, i, j0, end, axis, split)
      decreases j
    {
      TakeBack(points[begin..i], points[i..j], points[j..end], axis, split);
      assert [points[j - 1]] + points[j..end] == points[j - 1..end];
      assert points[i..j][..j - i - 1] == points[i..j - 1];
      j := j - 1;
    }
  }

  method Exchange(points: array<Row>, begin: nat, i0: nat, j0: nat, end: nat, axis: nat, split: nat) returns (i: nat, j: nat)
    requires Scanned(points, begin, i0, j0, end, axis, split) && i0 < j0
    requires points[i0][axis] >= split && points[j0 - 1][axis] < split
    modifies points
    ensures i == i0 + 1 && j == j0 - 1 && Scanned(points, begin, i, j, end, axis, split)
    ensures points[..begin] == old(points[..begin]) && points[end..] == old(points[end..])
    ensures Goal(points, begin, i, j, end, axis, split) == old(Goal(points, begin, i0, j0, end, axis, split))
  {
    hide Within;
    ghost var a, mid, b := points[begin..i0], points[i0..j0], points[j0..end];
    SwapOver(a, mid, b, axis, split);
    points[i0], points[j0 - 1] := points[j0 - 1], points[i0];
    i := i0 + 1;
    j := j0 - 1;
    assert points[begin..i] == a + [mid[|mid| - 1]];
    assert points[i..j] == mid[1..|mid| - 1];
    assert points[j..end] == [mid[0]] + b;
  }

  lemma WithinAll(mid: seq<Row>, axis: nat, split: nat)
    requires forall t :: 0 <= t < |mid| ==> axis < |mid[t]|
    ensures Within([], mid, [], axis, split) == Partition(mid, axis, split)
  {
    var (s, k) := Partition(mid, axis, split);
    assert [] + s + [] == s;
  }

  lemma WithinNone(a: seq<Row>, b: seq<Row>, axis: nat, split: nat)
    ensures Within(a, [], b, axis, split) == (a + b, |a|)
  {
    assert a + [] + b == a + b;
  }

  /** Partition with a finished front and back. */
  ghost function Within(a: seq<Row>, mid: seq<Row>, b: seq<Row>, axis: nat, split: nat): (seq<Row>, nat)
    requires forall t :: 0 <= t < |mid| ==> axis < |mid[t]|
  {
    var (s, k) := Partition(mid, axis, split);
    (a + s + b, |a| + k)
  }

  lemma TakeFront(a: seq<Row>, mid: seq<Row>, b: seq<Row>, axis: nat, split: nat)
    requires mid != [] && (forall t :: 0 <= t < |mid| ==> axis < |mid[t]|) && mid[0][axis] < split
    ensures Within(a + [mid[0]], mid[1..], b, axis, split) == Within(a, mid, b, axis, split)
  {
    var (s, k) := Partition(mid[1..], axis, split);
    assert a + ([mid[0]] + s) + b == (a + [mid[0]]) + s + b;
  }

  lemma TakeBack(a: seq<Row>, mid: seq<Row>, b: seq<Row>, axis: nat, split: nat)
    requires mid != [] && (forall t :: 0 <= t < |mid| ==> axis < |mid[t]|)
    requires mid[0][axis] >= split && mid[|mid| - 1][axis] >= split
    ensures Within(a, mid[..|mid| - 1], [mid[|mid| - 1]] + b, axis, split) == Within(a, mid, b, axis, split)
  {
    var m := |mid| - 1;
    var (s, k) := Partition(mid[..m], axis, split);
    assert a + (s + [mid[m]]) + b == a + s + ([mid[m]] + b);
  }

  lemma SwapOver(a: seq<Row>, mid: seq<Row>, b: seq<Row>, axis: nat, split: nat)
    requires mid != [] && (forall t :: 0 <= t < |mid| ==> axis < |mid[t]|)
    requires mid[0][axis] >= split && mid[|mid| - 1][axis] < split
    ensures |mid| >= 2
    ensures Within(a + [mid[|mid| - 1]], mid[1..|mid| - 1], [mid[0]] + b, axis, split) == Within(a, mid, b, axis, split)
  {
    var m := |mid| - 1;
    var (s, k) := Partition(mid[1..m], axis, split);
    assert a + ([mid[m]] + s + [mid[0]]) + b == (a + [mid[m]]) + s + ([mid[0]] + b);
  }

  // ---- axis selection -----------------------------------------------------------------

  method CountBelow(pts: seq<Row>, axis: nat, split: nat) returns (below: nat)
    requires forall k :: 0 <= k < |pts| ==> axis < |pts[k]|
    ensures below == Below(pts, axis, split, |pts|)
  {
    below := 0;
    for k := 0 to |pts|
      invariant below == Below(pts, axis, split, k)
    {
      if pts[k][axis] < split {
        below := below + 1;
      }
    }
  }

  method LeastSplitAxis(levels: Row) returns (bestAxis: nat)
    requires levels != []
    ensures bestAxis == MinAxis(levels, |levels|)
  {
    bestAxis := 0;
    for axis := 1 to |levels|
      invariant bestAxis < axis && bestAxis == MinAxis(levels, axis)
    {
      if levels[bestAxis] > levels[axis] {
        bestAxis := axis;
      }
    }
  }

  /** The axis of a node and what is written to announce it. */
  method GetAndEncodeAxis(c: Config, pts: seq<Row>, base: Row, levels: Row, last: nat) returns (axis: nat, ops: seq<Op>)
    requires Shape(c, base, levels) && forall k :: 0 <= k < |pts| ==> |pts[k]| == c.dim
    ensures axis == EncAxis(c, pts, base, levels, last) && ops == AxisOps(c, |pts|, axis)
  {
    ops := [];
    if !c.select {
      axis := IncrementMod(last, c.dim);
      return;
    }
    if |pts| < 64 {
      axis := LeastSplitAxis(levels);
      return;
    }
    hide Below;
    var bestAxis, maxValue := 0, 0;
    for a := 0 to c.dim
      invariant (bestAxis, maxValue) == BestAxis(c, pts, base, levels, a)
    {
      var numRemainingBits := c.bl - levels[a];
      if numRemainingBits == 0 {
        continue;
      }
      var split := base[a] + Pow2(numRemainingBits - 1);
      var below := CountBelow(pts, a, split);
      var deviation := below;
      if |pts| - below > deviation {
        deviation := |pts| - below;
      }
      if deviation > maxValue {
        maxValue := deviation;
        bestAxis := a;
      }
    }
    axis := bestAxis;
    ops := [Op(AxisBitCount(c.dim), bestAxis)];
  }

  // ---- leaves ---------------------------------------------------------------------------

  /** The axes of a leaf, each one after the other. */
  method LeafAxes(dim: nat, axis: nat) returns (axes: seq<nat>)
    requires axis < dim
    ensures |axes| == dim && forall j :: 0 <= j < dim ==> axes[j] == AxisOrder(axis, dim, j)
  {
    axes := [axis];
    for i := 1 to dim
      invariant |axes| == i && forall j :: 0 <= j < i ==> axes[j] == AxisOrder(axis, dim, j)
    {
      axes := axes + [IncrementMod(axes[i - 1], dim)];
    }
  }

  method EncodeLeaf(c: Config, pts: seq<Row>, base: Row, levels: Row, axis: nat) returns (ops: seq<Op>)
    requires Shape(c, base, levels) && axis < c.dim && forall k :: 0 <= k < |pts| ==> |pts[k]| == c.dim
    ensures ops == LeafOps(c, pts, levels, axis)
  {
    var axes := LeafAxes(c.dim, axis);
    ops := [];
    for i := 0 to |pts|
      invariant ops + LeafOps(c, pts[i..], levels, axis) == LeafOps(c, pts, levels, axis)
    {
      var point := pts[i];
      ghost var before, tail := ops, LeafOps(c, pts[i + 1..], levels, axis);
      assert pts[i..][0] == point && pts[i..][1..] == pts[i + 1..];
      assert before + (PointOps(c, point, levels, axis, 0) + tail) == before + PointOps(c, point, levels, axis, 0) + tail;
      for j := 0 to c.dim
        invariant ops + PointOps(c, point, levels, axis, j) == before + PointOps(c, point, levels, axis, 0)
      {
        var numRemainingBits := c.bl - levels[axes[j]];
        if numRemainingBits > 0 {
          ghost var next := PointOps(c, point, levels, axis, j + 1);
          var op := Op(numRemainingBits, point[axes[j]]);
          assert ops + ([op] + next) == ops + [op] + next;
          ops := ops + [op];
        } else {
          assert PointOps(c, point, levels, axis, j) == PointOps(c, point, levels, axis, j + 1);
        }
      }
      assert ops == before + PointOps(c, point, levels, axis, 0);
    }
  }

  // ---- the stack ------------------------------------------------------------------------

  /** The pending ranges lie side by side in stack order, each owns its buffer slot, and a
      slot's position never exceeds the number of halvings above it. */
  ghost predicate StackOk(c: Config, stack: seq<Status>, pts: seq<Row>, bases: seq<Row>, lvls: seq<Row>)
  {
    |bases| == |lvls| == 32 * c.dim + 1 &&
    (forall k :: 0 <= k < |pts| ==> |pts[k]| == c.dim) &&
    (forall i :: 0 <= i < |stack| ==> EntryOk(c, stack[i], |pts|, bases, lvls)) &&
    (forall i, j :: 0 <= i < j < |stack| ==> stack[i].end <= stack[j].begin && stack[i].pos < stack[j].pos)
  }

  ghost predicate EntryOk(c: Config, s: Status, n: nat, bases: seq<Row>, lvls: seq<Row>)
  {
    s.begin < s.end <= n && s.pos < |bases| == |lvls| && Shape(c, bases[s.pos], lvls[s.pos]) &&
    s.pos <= LevelSum(lvls[s.pos])
  }

  ghost function StackLog(c: Config, stack: seq<Status>, pts: seq<Row>, bases: seq<Row>, lvls: seq<Row>): Log
    requires StackOk(c, stack, pts, bases, lvls)
    decreases |stack|
  {
    if stack == [] then EMPTY
    else
      var m := |stack| - 1;
      Cat(EntryLog(c, stack[m], pts, bases, lvls), StackLog(c, stack[..m], pts, bases, lvls))
  }

  ghost function EntryLog(c: Config, s: Status, pts: seq<Row>, bases: seq<Row>, lvls: seq<Row>): Log
    requires EntryOk(c, s, |pts|, bases, lvls) && forall k :: 0 <= k < |pts| ==> |pts[k]| == c.dim
  {
    EncTree(c, pts[s.begin..s.end], bases[s.pos], lvls[s.pos], s.last)
  }

  /** Bounds the number of loop iterations left. */
  ghost function StackWeight(c: Config, stack: seq<Status>, lvls: seq<Row>): nat
    decreases |stack|
  {
    if stack == [] then 0
    else
      var m := |stack| - 1;
      (if stack[m].pos < |lvls| then Weight(c, lvls[stack[m].pos]) else 0) + StackWeight(c, stack[..m], lvls)
  }

  /** Nodes of a full tree below a cell. */
  ghost function Weight(c: Config, levels: Row): nat
  {
    if |levels| == c.dim && forall i :: 0 <= i < c.dim ==> levels[i] <= c.bl
    then Pow2(Room(c, levels) + 1) - 1 else 0
  }

  lemma WeightStep(c: Config, levels: Row, axis: nat)
    requires |levels| == c.dim && forall i :: 0 <= i < c.dim ==> levels[i] <= c.bl
    requires axis < c.dim && levels[axis] < c.bl
    ensures 2 * Weight(c, Deeper(levels, axis)) < Weight(c, levels)
  {
    RoomStep(c, levels, axis);
  }

  lemma WeightPositive(c: Config, levels: Row)
    requires |levels| == c.dim && forall i :: 0 <= i < c.dim ==> levels[i] <= c.bl
    ensures Weight(c, levels) >= 1
  {
  }

  /** Pending entries do not see changes at later ranges or higher slots. */
  lemma {:induction false} StackFrame(c: Config, stack: seq<Status>, b: nat, p: nat,
      pts: seq<Row>, bases: seq<Row>, lvls: seq<Row>, pts1: seq<Row>, bases1: seq<Row>, lvls1: seq<Row>)
    requires StackOk(c, stack, pts, bases, lvls)
    requires forall i :: 0 <= i < |stack| ==> stack[i].end <= b && stack[i].pos < p
    requires |pts1| == |pts| && b <= |pts| && pts1[..b] == pts[..b]
    requires forall k :: 0 <= k < |pts1| ==> |pts1[k]| == c.dim
    requires |bases1| == |lvls1| == |bases| && p <= |bases| && bases1[..p] == bases[..p] && lvls1[..p] == lvls[..p]
    ensures StackOk(c, stack, pts1, bases1, lvls1)
    ensures StackLog(c, stack, pts1, bases1, lvls1) == StackLog(c, stack, pts, bases, lvls)
    ensures StackWeight(c, stack, lvls1) == StackWeight(c, stack, lvls)
    decreases |stack|
  {
    hide Shape, LevelSum, EncTree, Weight;
    forall i | 0 <= i < |stack|
      ensures bases1[stack[i].pos] == bases[stack[i].pos] && lvls1[stack[i].pos] == lvls[stack[i].pos]
    {
      assert bases1[..p][stack[i].pos] == bases[..p][stack[i].pos];
      assert lvls1[..p][stack[i].pos] == lvls[..p][stack[i].pos];
    }
    if stack != [] {
      var m := |stack| - 1;
      StackFrame(c, stack[..m], b, p, pts, bases, lvls, pts1, bases1, lvls1);
      SliceOfPrefix(pts, b, stack[m].begin, stack[m].end);
      SliceOfPrefix(pts1, b, stack[m].begin, stack[m].end);
    }
  }

  lemma SliceOfPrefix(s: seq<Row>, b: nat, x: nat, y: nat)
    requires x <= y <= b <= |s|
    ensures s[..b][x..y] == s[x..y]
  {
  }

  lemma EntrySlot(c: Config, s: Status, n: nat, bases: seq<Row>, lvls: seq<Row>)
    requires EntryOk(c, s, n, bases, lvls)
    ensures s.pos < |lvls|
  {
  }

  /** One more entry on the stack. */
  lemma StackPush(c: Config, stack: seq<Status>, s: Status, pts: seq<Row>, bases: seq<Row>, lvls: seq<Row>)
    requires StackOk(c, stack, pts, bases, lvls) && EntryOk(c, s, |pts|, bases, lvls)
    requires forall i :: 0 <= i < |stack| ==> stack[i].end <= s.begin && stack[i].pos < s.pos
    ensures StackOk(c, stack + [s], pts, bases, lvls)
    ensures StackLog(c, stack + [s], pts, bases, lvls) ==
            Cat(EntryLog(c, s, pts, bases, lvls), StackLog(c, stack, pts, bases, lvls))
    ensures StackWeight(c, stack + [s], lvls) == Weight(c, lvls[s.pos]) + StackWeight(c, stack, lvls)
  {
    hide EntryOk, EntryLog, Weight;
    EntrySlot(c, s, |pts|, bases, lvls);
    var pushed := stack + [s];
    assert pushed != [] && pushed[|pushed| - 1] == s && pushed[..|pushed| - 1] == stack;
  }

  // ---- the loop -----------------------------------------------------------------------------

  /** Writes of all points, in stack order; the points end up reordered. */
  method EncodePoints(c: Config, points: array<Row>) returns (log: Log)
    requires ValidConfig(c) && points.Length > 0
    requires forall k :: 0 <= k < points.Length ==> |points[k]| == c.dim
    modifies points
    ensures Shape(c, seq(c.dim, _ => 0), seq(c.dim, _ => 0))
    ensures log == EncTree(c, old(points[..]), seq(c.dim, _ => 0), seq(c.dim, _ => 0), 0)
  {
    hide EncTree, Weight, LevelSum, StackLog, StackWeight;
    var zero: Row := seq(c.dim, _ => 0);
    var baseStack := new Row[32 * c.dim + 1](_ => zero);
    var levelsStack := new Row[32 * c.dim + 1](_ => zero);
    var stack := [Status(0, points.Length, 0, 0)];
    log := EMPTY;
    ghost var goal := EncTree(c, points[..], zero, zero, 0);
    StackStart(c, points[..], baseStack[..], levelsStack[..], zero);
    while stack != []
      invariant StackOk(c, stack, points[..], baseStack[..], levelsStack[..])
      invariant Cat(log, StackLog(c, stack, points[..], baseStack[..], levelsStack[..])) == goal
      decreases StackWeight(c, stack, levelsStack[..])
    {
      log, stack := EncodeNode(c, points, baseStack, levelsStack, stack, log);
    }
    StackDone(c, points[..], baseStack[..], levelsStack[..], log);
  }

  lemma StackStart(c: Config, pts: seq<Row>, bases: seq<Row>, lvls: seq<Row>, zero: Row)
    requires ValidConfig(c) && pts != [] && forall k :: 0 <= k < |pts| ==> |pts[k]| == c.dim
    requires |bases| == |lvls| == 32 * c.dim + 1 && bases[0] == lvls[0] == zero == seq(c.dim, _ => 0)
    ensures Shape(c, zero, zero)
    ensures var stack := [Status(0, |pts|, 0, 0)];
            StackOk(c, stack, pts, bases, lvls) &&
            Cat(EMPTY, StackLog(c, stack, pts, bases, lvls)) == EncTree(c, pts, zero, zero, 0)
  {
    hide EncTree;
    var s := Status(0, |pts|, 0, 0);
    StackPush(c, [], s, pts, bases, lvls);
    assert [] + [s] == [s] && pts[0..|pts|] == pts;
    CatEmpty(EncTree(c, pts, zero, zero, 0));
  }

  lemma StackDone(c: Config, pts: seq<Row>, bases: seq<Row>, lvls: seq<Row>, log: Log)
    requires StackOk(c, [], pts, bases, lvls)
    ensures Cat(log, StackLog(c, [], pts, bases, lvls)) == log
  {
    CatEmpty(log);
  }

  /** One iteration: the top entry is replaced by its children, and its own writes are made. */
  method EncodeNode(c: Config, points: array<Row>, baseStack: array<Row>, levelsStack: array<Row>, stack0: seq<Status>, log0: Log)
    returns (log: Log, stack: seq<Status>)
    requires ValidConfig(c) && stack0 != [] && points != baseStack && points != levelsStack && baseStack != levelsStack
    requires StackOk(c, stack0, points[..], baseStack[..], levelsStack[..])
    modifies points, baseStack, levelsStack
    ensures StackOk(c, stack, points[..], baseStack[..], levelsStack[..])
    ensures Cat(log, StackLog(c, stack, points[..], baseStack[..], levelsStack[..])) ==
            Cat(log0, old(StackLog(c, stack0, points[..], baseStack[..], levelsStack[..])))
    ensures StackWeight(c, stack, levelsStack[..]) < old(StackWeight(c, stack0, levelsStack[..]))
  {
    hide EncTree, Weight, LevelSum, EncAxis, StackLog, StackWeight, LeafOps, Cat;
    var status := stack0[|stack0| - 1];
    stack := stack0[..|stack0| - 1];
    ghost var rest := StackLog(c, stack, points[..], baseStack[..], levelsStack[..]);
    StackTop(c, stack0, points[..], baseStack[..], levelsStack[..]);
    var oldBase, levels := baseStack[status.pos], levelsStack[status.pos];
    var range := points[status.begin..status.end];
    assert points[..][status.begin..status.end] == range;
    var axis, ops := GetAndEncodeAxis(c, range, oldBase, levels, status.last);
    log := Cat(log0, Log([], [], ops, []));
    WeightPositive(c, levels);
    if c.bl - levels[axis] == 0 {
      DecidedLog(c, range, oldBase, levels, status.last);
      CatAssoc(log0, AxisLog(c, |range|, axis), rest);
      return;
    }
    if |range| <= 2 {
      var leaf := EncodeLeaf(c, range, oldBase, levels, axis);
      LeafLog(c, range, oldBase, levels, status.last);
      CatThree(log0, AxisLog(c, |range|, axis), Log([], leaf, [], []), rest);
      log := Cat(log, Log([], leaf, [], []));
      return;
    }
    log, stack := EncodeSplit(c, points, baseStack, levelsStack, stack, status, axis, log);
    CatAssoc(log0, AxisLog(c, |range|, axis), Cat(SplitRest(c, range, oldBase, levels, status.last), rest));
    SplitLogs(c, range, oldBase, levels, status.last, rest);
  }

  lemma StackTop(c: Config, stack: seq<Status>, pts: seq<Row>, bases: seq<Row>, lvls: seq<Row>)
    requires stack != [] && StackOk(c, stack, pts, bases, lvls)
    ensures var m := |stack| - 1;
            StackOk(c, stack[..m], pts, bases, lvls) && EntryOk(c, stack[m], |pts|, bases, lvls) &&
            StackLog(c, stack, pts, bases, lvls) ==
              Cat(EncTree(c, pts[stack[m].begin..stack[m].end], bases[stack[m].pos], lvls[stack[m].pos], stack[m].last),
                  StackLog(c, stack[..m], pts, bases, lvls)) &&
            StackWeight(c, stack, lvls) == Weight(c, lvls[stack[m].pos]) + StackWeight(c, stack[..m], lvls)
  {
    hide EncTree, Weight, Shape, LevelSum, Cat;
  }

  lemma DecidedLog(c: Config, pts: seq<Row>, base: Row, levels: Row, last: nat)
    requires Shape(c, base, levels) && forall k :: 0 <= k < |pts| ==> |pts[k]| == c.dim
    requires levels[EncAxis(c, pts, base, levels, last)] == c.bl
    ensures EncTree(c, pts, base, levels, last) == AxisLog(c, |pts|, EncAxis(c, pts, base, levels, last))
  {
  }

  lemma LeafLog(c: Config, pts: seq<Row>, base: Row, levels: Row, last: nat)
    requires Shape(c, base, levels) && forall k :: 0 <= k < |pts| ==> |pts[k]| == c.dim
    requires levels[EncAxis(c, pts, base, levels, last)] < c.bl && |pts| <= 2
    ensures var axis := EncAxis(c, pts, base, levels, last);
            EncTree(c, pts, base, levels, last) == Cat(AxisLog(c, |pts|, axis), Log([], LeafOps(c, pts, levels, axis), [], []))
  {
    hide EncAxis;
  }

  lemma CatThree(a: Log, b: Log, c: Log, d: Log)
    ensures Cat(Cat(Cat(a, b), c), d) == Cat(a, Cat(Cat(b, c), d))
  {
    CatAssoc(Cat(a, b), c, d);
    CatAssoc(a, b, Cat(c, d));
    CatAssoc(b, c, d);
  }

  /** Writes of an inner node after its axis. */
  ghost function SplitRest(c: Config, pts: seq<Row>, base: Row, levels: Row, last: nat): Log
    requires Shape(c, base, levels) && forall k :: 0 <= k < |pts| ==> |pts[k]| == c.dim
    requires levels[EncAxis(c, pts, base, levels, last)] < c.bl
  {
    var h := SplitNode(c, pts, base, levels, last);
    RoomStep(c, levels, h.axis);
    Cat(SplitLog(|pts|, |h.lower|),
        Cat(EncChild(c, h.upper, UpperBase(c, base, levels, h.axis), Deeper(levels, h.axis), h.axis),
            EncChild(c, h.lower, base, Deeper(levels, h.axis), h.axis)))
  }

  lemma SplitLogs(c: Config, pts: seq<Row>, base: Row, levels: Row, last: nat, rest: Log)
    requires Shape(c, base, levels) && forall k :: 0 <= k < |pts| ==> |pts[k]| == c.dim
    requires levels[EncAxis(c, pts, base, levels, last)] < c.bl && |pts| > 2
    ensures Cat(EncTree(c, pts, base, levels, last), rest) ==
            Cat(AxisLog(c, |pts|, EncAxis(c, pts, base, levels, last)), Cat(SplitRest(c, pts, base, levels, last), rest))
  {
    hide EncAxis, SplitNode, Cat, AxisLog, SplitLog, EncChild;
    var axis := EncAxis(c, pts, base, levels, last);
    var h := SplitNode(c, pts, base, levels, last);
    RoomStep(c, levels, h.axis);
    CatAssoc(AxisLog(c, |pts|, axis), SplitRest(c, pts, base, levels, last), rest);
    CatAssoc(AxisLog(c, |pts|, axis), SplitLog(|pts|, |h.lower|),
      Cat(EncChild(c, h.upper, UpperBase(c, base, levels, h.axis), Deeper(levels, h.axis), h.axis),
          EncChild(c, h.lower, base, Deeper(levels, h.axis), h.axis)));
  }

  /** There is a slot above an inner node's. */
  lemma SlotFits(c: Config, levels: Row, axis: nat)
    requires ValidConfig(c) && |levels| == c.dim && forall i :: 0 <= i < c.dim ==> levels[i] <= c.bl
    requires axis < c.dim && levels[axis] < c.bl
    ensures LevelSum(levels) < 32 * c.dim
    ensures LevelSum(Deeper(levels, axis)) == LevelSum(levels) + 1
  {
    hide LevelSum;
    LevelSumUpdate(levels, axis, levels[axis] + 1);
    LevelSumBound(levels, c.bl);
    assert levels[axis] < c.bl;
    MulMono(c.bl, 32, c.dim);
  }

  lemma SplitNodeIs(c: Config, pts: seq<Row>, base: Row, levels: Row, last: nat, axis: nat, lower: seq<Row>, upper: seq<Row>)
    requires Shape(c, base, levels) && forall k :: 0 <= k < |pts| ==> |pts[k]| == c.dim
    requires levels[EncAxis(c, pts, base, levels, last)] < c.bl
    requires axis == EncAxis(c, pts, base, levels, last)
    requires HalvesOf(pts, axis, Middle(c, base, levels, axis), lower, upper)
    ensures SplitNode(c, pts, base, levels, last) == Halves(axis, lower, upper)
  {
    hide EncAxis, Partition;
  }

  /** A possibly empty child as a stack entry. */
  ghost function ChildEntry(begin: nat, end: nat, axis: nat, pos: nat): seq<Status>
  {
    if begin != end then [Status(begin, end, axis, pos)] else []
  }

  lemma PushChild(c: Config, stack: seq<Status>, begin: nat, end: nat, axis: nat, pos: nat, pts: seq<Row>, bases: seq<Row>, lvls: seq<Row>)
    requires StackOk(c, stack, pts, bases, lvls) && begin <= end <= |pts| && pos < |bases| == |lvls|
    requires Shape(c, bases[pos], lvls[pos]) && pos <= LevelSum(lvls[pos])
    requires forall k :: 0 <= k < |pts| ==> |pts[k]| == c.dim
    requires forall i :: 0 <= i < |stack| ==> stack[i].end <= begin && stack[i].pos < pos
    ensures var stack1 := stack + ChildEntry(begin, end, axis, pos);
            StackOk(c, stack1, pts, bases, lvls) &&
            (forall i :: 0 <= i < |stack1| ==> stack1[i].end <= end && stack1[i].pos <= pos) &&
            StackLog(c, stack1, pts, bases, lvls) ==
              Cat(EncChild(c, pts[begin..end], bases[pos], lvls[pos], axis), StackLog(c, stack, pts, bases, lvls)) &&
            StackWeight(c, stack1, lvls) <= Weight(c, lvls[pos]) + StackWeight(c, stack, lvls)
  {
    hide EncTree, Weight, Shape, LevelSum, StackLog, StackWeight, Cat;
    if begin == end {
      assert stack + [] == stack && pts[begin..end] == [];
      CatEmpty(StackLog(c, stack, pts, bases, lvls));
    } else {
      StackPush(c, stack, Status(begin, end, axis, pos), pts, bases, lvls);
    }
  }

  lemma PushChildren(c: Config, stack: seq<Status>, status: Status, axis: nat, split: nat, range: seq<Row>, base: Row, levels: Row,
                     pts: seq<Row>, bases: seq<Row>, lvls: seq<Row>, log0: Log)
    requires ValidConfig(c) && StackOk(c, stack, pts, bases, lvls)
    requires status.begin <= split <= status.end <= |pts| && status.end - status.begin == |range| && status.pos + 1 < |bases|
    requires forall i :: 0 <= i < |stack| ==> stack[i].end <= status.begin && stack[i].pos < status.pos
    requires Shape(c, base, levels) && forall k :: 0 <= k < |range| ==> |range[k]| == c.dim
    requires axis < c.dim && levels[axis] < c.bl && status.pos <= LevelSum(levels)
    requires axis == EncAxis(c, range, base, levels, status.last)
    requires SplitNode(c, range, base, levels, status.last) == Halves(axis, pts[status.begin..split], pts[split..status.end])
    requires bases[status.pos] == base && bases[status.pos + 1] == UpperBase(c, base, levels, axis)
    requires lvls[status.pos] == lvls[status.pos + 1] == Deeper(levels, axis)
    ensures var stack1 := stack + ChildEntry(status.begin, split, axis, status.pos)
                                + ChildEntry(split, status.end, axis, status.pos + 1);
            StackOk(c, stack1, pts, bases, lvls) &&
            Cat(Cat(log0, SplitLog(|range|, split - status.begin)), StackLog(c, stack1, pts, bases, lvls)) ==
              Cat(log0, Cat(SplitRest(c, range, base, levels, status.last), StackLog(c, stack, pts, bases, lvls))) &&
            StackWeight(c, stack1, lvls) < Weight(c, levels) + StackWeight(c, stack, lvls)
  {
    hide EncTree, Weight, LevelSum, StackLog, StackWeight, Cat, EncAxis, SplitNode, EncChild, SplitLog, ChildEntry;
    RoomStep(c, levels, axis);
    SlotFits(c, levels, axis);
    WeightStep(c, levels, axis);
    var stack1 := stack + ChildEntry(status.begin, split, axis, status.pos);
    PushChild(c, stack, status.begin, split, axis, status.pos, pts, bases, lvls);
    PushChild(c, stack1, split, status.end, axis, status.pos + 1, pts, bases, lvls);
    var lower := EncChild(c, pts[status.begin..split], base, Deeper(levels, axis), axis);
    var upper := EncChild(c, pts[split..status.end], UpperBase(c, base, levels, axis), Deeper(levels, axis), axis);
    var counts := SplitLog(|range|, split - status.begin);
    var rest := StackLog(c, stack, pts, bases, lvls);
    CatAssoc(upper, lower, rest);
    CatAssoc(log0, counts, Cat(Cat(upper, lower), rest));
    CatAssoc(counts, Cat(upper, lower), rest);
  }

  /** The inner-node part: new slot, partition, counts, and the two children. */
  method EncodeSplit(c: Config, points: array<Row>, baseStack: array<Row>, levelsStack: array<Row>,
                     stack0: seq<Status>, status: Status, axis: nat, log0: Log)
    returns (log: Log, stack: seq<Status>)
    requires ValidConfig(c) && points != baseStack && points != levelsStack && baseStack != levelsStack
    requires StackOk(c, stack0, points[..], baseStack[..], levelsStack[..])
    requires EntryOk(c, status, points.Length, baseStack[..], levelsStack[..])
    requires forall i :: 0 <= i < |stack0| ==> stack0[i].end <= status.begin && stack0[i].pos < status.pos
    requires status.end - status.begin > 2
    requires axis == EncAxis(c, points[status.begin..status.end], baseStack[status.pos], levelsStack[status.pos], status.last)
    requires levelsStack[status.pos][axis] < c.bl
    modifies points, baseStack, levelsStack
    ensures StackOk(c, stack, points[..], baseStack[..], levelsStack[..])
    ensures Cat(log, StackLog(c, stack, points[..], baseStack[..], levelsStack[..])) ==
            Cat(log0, Cat(old(SplitRest(c, points[status.begin..status.end], baseStack[status.pos], levelsStack[status.pos], status.last)),
                          old(StackLog(c, stack0, points[..], baseStack[..], levelsStack[..]))))
    ensures StackWeight(c, stack, levelsStack[..]) <
            old(Weight(c, levelsStack[status.pos]) + StackWeight(c, stack0, levelsStack[..]))
  {
    hide EncTree, Weight, LevelSum, EncAxis, StackLog, StackWeight, Cat, SplitNode, EncChild, SplitRest, StackOk, Deeper, UpperBase, SplitLog, Middle, HalvesOf;
    ghost var base, levels := baseStack[status.pos], levelsStack[status.pos];
    ghost var range := points[status.begin..status.end];
    ghost var pts0, bases0, lvls0 := points[..], baseStack[..], levelsStack[..];
    assert pts0[status.begin..status.end] == range;
    StackSizes(c, stack0, pts0, bases0, lvls0);
    SlotFits(c, levels, axis);
    var split := SplitRange(c, points, baseStack, levelsStack, status, axis);
    var counts := EncodeCounts(status, split);
    log := Cat(log0, counts);
    stack := stack0;
    if split != status.begin {
      stack := stack + [Status(status.begin, split, axis, status.pos)];
    }
    if split != status.end {
      stack := stack + [Status(split, status.end, axis, status.pos + 1)];
    }
    ghost var pts, bases, lvls := points[..], baseStack[..], levelsStack[..];
    assert bases[..status.pos] == bases0[..status.pos + 1][..status.pos];
    assert lvls[..status.pos] == lvls0[..status.pos];
    StackFrame(c, stack0, status.begin, status.pos, pts0, bases0, lvls0, pts, bases, lvls);
    assert pts[status.begin..split] == points[status.begin..split] && pts[split..status.end] == points[split..status.end];
    SplitNodeIs(c, range, base, levels, status.last, axis, pts[status.begin..split], pts[split..status.end]);
    PushChildren(c, stack0, status, axis, split, range, base, levels, pts, bases, lvls, log0);
    assert stack == stack0 + ChildEntry(status.begin, split, axis, status.pos)
                           + ChildEntry(split, status.end, axis, status.pos + 1);
  }

  lemma StackSizes(c: Config, stack: seq<Status>, pts: seq<Row>, bases: seq<Row>, lvls: seq<Row>)
    requires StackOk(c, stack, pts, bases, lvls)
    ensures |bases| == |lvls| == 32 * c.dim + 1
    ensures forall k :: 0 <= k < |pts| ==> |pts[k]| == c.dim
  {
  }

  /** Partitions the entry's points and prepares the slots of both children. */
  method SplitRange(c: Config, points: array<Row>, baseStack: array<Row>, levelsStack: array<Row>, status: Status, axis: nat)
    returns (split: nat)
    requires points != baseStack && points != levelsStack && baseStack != levelsStack
    requires status.begin <= status.end <= points.Length && status.pos + 1 < baseStack.Length == levelsStack.Length
    requires forall k :: 0 <= k < points.Length ==> |points[k]| == c.dim
    requires Shape(c, baseStack[status.pos], levelsStack[status.pos]) && axis < c.dim && levelsStack[status.pos][axis] < c.bl
    modifies points, baseStack, levelsStack
    ensures status.begin <= split <= status.end
    ensures HalvesOf(old(points[status.begin..status.end]), axis, old(Middle(c, baseStack[status.pos], levelsStack[status.pos], axis)),
                     points[status.begin..split], points[split..status.end])
    ensures points[..status.begin] == old(points[..status.begin])
    ensures forall k :: 0 <= k < points.Length ==> |points[k]| == c.dim
    ensures baseStack[..status.pos + 1] == old(baseStack[..status.pos + 1])
    ensures baseStack[status.pos + 1] == old(UpperBase(c, baseStack[status.pos], levelsStack[status.pos], axis))
    ensures levelsStack[..status.pos] == old(levelsStack[..status.pos])
    ensures levelsStack[status.pos] == levelsStack[status.pos + 1] == old(Deeper(levelsStack[status.pos], axis))
  {
    hide HalvesOf;
    var oldBase, levels := baseStack[status.pos], levelsStack[status.pos];
    var modifier := Pow2(c.bl - levels[axis] - 1);
    baseStack[status.pos + 1] := oldBase;
    var newBase := oldBase[axis := oldBase[axis] + modifier];
    baseStack[status.pos + 1] := newBase;
    split := PartitionRange(c, points, status.begin, status.end, axis, newBase[axis]);
    levelsStack[status.pos] := levels[axis := levels[axis] + 1];
    levelsStack[status.pos + 1] := levelsStack[status.pos];
  }

  /** The partition, seen as the two halves of the range. */
  method PartitionRange(c: Config, points: array<Row>, begin: nat, end: nat, axis: nat, middle: nat) returns (split: nat)
    requires begin <= end <= points.Length && axis < c.dim
    requires forall k :: 0 <= k < points.Length ==> |points[k]| == c.dim
    modifies points
    ensures begin <= split <= end
    ensures HalvesOf(old(points[begin..end]), axis, middle, points[begin..split], points[split..end])
    ensures points[..begin] == old(points[..begin])
    ensures forall k :: 0 <= k < points.Length ==> |points[k]| == c.dim
  {
    hide Partition, HalvesOf;
    ghost var range, before, after := points[begin..end], points[..begin], points[end..];
    split := PartitionPoints(points, begin, end, axis, middle);
    SliceUp(points[..], begin, split, end, range, axis, middle);
    RowsAfter(points[..], before, range, after, axis, middle, c.dim);
    assert forall k :: 0 <= k < points.Length ==> points[k] == points[..][k];
  }

  /** The two parts of a partition. */
  ghost predicate HalvesOf(range: seq<Row>, axis: nat, middle: nat, lower: seq<Row>, upper: seq<Row>)
  {
    (forall k :: 0 <= k < |range| ==> axis < |range[k]|) &&
    var (s, k) := Partition(range, axis, middle);
    lower == s[..k] && upper == s[k..]
  }

  lemma SliceUp(pts: seq<Row>, begin: nat, split: nat, end: nat, range: seq<Row>, axis: nat, middle: nat)
    requires begin <= split <= end <= |pts| && forall k :: 0 <= k < |range| ==> axis < |range[k]|
    requires (pts[begin..end], split - begin) == Partition(range, axis, middle)
    ensures HalvesOf(range, axis, middle, pts[begin..split], pts[split..end])
  {
    hide Partition;
    assert pts[begin..split] == pts[begin..end][..split - begin];
    assert pts[split..end] == pts[begin..end][split - begin..];
  }

  lemma RowsAfter(pts: seq<Row>, before: seq<Row>, range: seq<Row>, after: seq<Row>, axis: nat, middle: nat, dim: nat)
    requires axis < dim && |pts| == |before| + |range| + |after|
    requires forall k :: 0 <= k < |before| ==> |before[k]| == dim
    requires forall k :: 0 <= k < |range| ==> |range[k]| == dim
    requires forall k :: 0 <= k < |after| ==> |after[k]| == dim
    requires pts[..|before|] == before && pts[|before| + |range|..] == after
    requires pts[|before|..|before| + |range|] == Partition(range, axis, middle).0
    ensures forall k :: 0 <= k < |pts| ==> |pts[k]| == dim
  {
    hide Partition;
    PartitionRows(range, axis, middle, dim);
    AllRows(before, Partition(range, axis, middle).0, after, pts, dim);
  }

  lemma AllRows(before: seq<Row>, s: seq<Row>, after: seq<Row>, all: seq<Row>, dim: nat)
    requires |all| == |before| + |s| + |after|
    requires all[..|before|] == before && all[|before|..|before| + |s|] == s && all[|before| + |s|..] == after
    requires forall k :: 0 <= k < |before| ==> |before[k]| == dim
    requires forall k :: 0 <= k < |s| ==> |s[k]| == dim
    requires forall k :: 0 <= k < |after| ==> |after[k]| == dim
    ensures forall k :: 0 <= k < |all| ==> |all[k]| == dim
  {
    assert all == before + s + after;
  }

  /** The half bit and the distance of the smaller part from the middle. */
  method EncodeCounts(status: Status, split: nat) returns (counts: Log)
    requires status.begin <= split <= status.end
    ensures counts == SplitLog(status.end - status.begin, split - status.begin)
  {
    var numRemainingPoints := status.end - status.begin;
    var requiredBits := MostSignificantBit(numRemainingPoints);
    var firstHalf, secondHalf := split - status.begin, status.end - split;
    var left := firstHalf < secondHalf;
    var half: seq<Op> := [];
    if firstHalf != secondHalf {
      half := half + [Op(1, if left then 1 else 0)];
    }
    var number := numRemainingPoints / 2 - if left then firstHalf else secondHalf;
    counts := Log([Op(requiredBits, number)], [], [], half);
  }
}
