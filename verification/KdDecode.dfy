/** The kd-tree decoder loop (internal/codec/kdtree/dynamic.go): a replay from counts alone
    that reuses one base and one level buffer per stack position. */
module KdDecode {
  import opened Bits
  import opened KdStreams
  import opened KdTree
  import opened KdRoundTrip
  import KdEncode

  // ---- what decoding yields on any streams ------------------------------------------------

  ghost predicate RowsInRange(c: Config, rows: seq<Row>, n: nat)
  {
    |rows| == n && forall k :: 0 <= k < n ==> RowInRange(c, rows[k])
  }

  ghost predicate RowInRange(c: Config, row: Row)
  {
    |row| == c.dim && forall i :: 0 <= i < c.dim ==> row[i] < Pow2(c.bl)
  }

  lemma {:induction false} PointInRange(c: Config, base: Row, levels: Row, axis: nat, row: Row, j: nat, src: Source)
    requires NodeOk(c, base, levels) && Shape(c, base, levels) && RowInRange(c, row)
    requires axis < c.dim && j <= c.dim && ValidSource(src)
    ensures var r := DecPoint(c, base, levels, axis, row, j, src); r.Some? ==> RowInRange(c, r.value.0)
    decreases c.dim - j
  {
    hide Read, Or, AxisOrder, Pow2;
    if j < c.dim {
      var a := AxisOrder(axis, c.dim, j);
      assert CellOk(base[a], levels[a], c.bl);
      if c.bl > levels[a] {
        var r := Read(src, c.bl - levels[a]);
        if r.Some? {
          ReadBound(src, c.bl - levels[a]);
          CellOr(base[a], levels[a], c.bl, r.value.0);
          PointInRange(c, base, levels, axis, row[a := Or(base[a], r.value.0)], j + 1, r.value.1);
        }
      } else {
        CellOr(base[a], levels[a], c.bl, 0);
        PointInRange(c, base, levels, axis, row[a := Or(base[a], 0)], j + 1, src);
      }
    }
  }

  lemma BaseInRange(c: Config, base: Row, levels: Row)
    requires NodeOk(c, base, levels)
    ensures RowInRange(c, base)
  {
    forall i | 0 <= i < c.dim
      ensures base[i] < Pow2(c.bl)
    {
      assert CellOk(base[i], levels[i], c.bl);
    }
  }

  lemma {:induction false} LeafInRange(c: Config, n: nat, base: Row, levels: Row, axis: nat, src: Source)
    requires NodeOk(c, base, levels) && Shape(c, base, levels) && axis < c.dim && ValidSource(src)
    ensures var r := DecLeaf(c, n, base, levels, axis, src); r.Some? ==> RowsInRange(c, r.value.0, n)
  {
    hide DecPoint, NodeOk, RowInRange;
    if n > 0 {
      BaseInRange(c, base, levels);
      PointInRange(c, base, levels, axis, base, 0, src);
      var r := DecPoint(c, base, levels, axis, base, 0, src);
      if r.Some? {
        LeafInRange(c, n - 1, base, levels, axis, r.value.1);
      }
    }
  }

  /** Conservation and range: on any streams, a node of n points yields exactly n rows, each
      with every component below 2^bl, or an error. */
  lemma {:induction false} TreeInRange(c: Config, n: nat, base: Row, levels: Row, last: nat, src: Sources)
    requires NodeOk(c, base, levels) && Shape(c, base, levels) && ValidSources(src)
    ensures var r := DecTree(c, n, base, levels, last, src); r.Some? ==> RowsInRange(c, r.value.0, n)
    decreases Room(c, levels), 0
  {
    hide DecLeaf, NodeOk, RowInRange, DecSplit, DecChild, UpperBase, Deeper, DecAxis;
    var a := DecAxis(c, n, levels, last, src.axis);
    if a.Some? {
      var (axis, rest) := a.value;
      var s0 := src.(axis := rest);
      if levels[axis] == c.bl {
        BaseInRange(c, base, levels);
      } else if n <= 2 {
        LeafInRange(c, n, base, levels, axis, s0.remaining);
      } else {
        var parts := DecSplit(n, s0);
        if parts.Some? {
          var (first, second, s1) := parts.value;
          RoomStep(c, levels, axis);
          ChildCells(c, base, levels, axis);
          NodeShape(c, base, Deeper(levels, axis));
          NodeShape(c, UpperBase(c, base, levels, axis), Deeper(levels, axis));
          ChildInRange(c, second, UpperBase(c, base, levels, axis), Deeper(levels, axis), axis, s1);
          var upper := DecChild(c, second, UpperBase(c, base, levels, axis), Deeper(levels, axis), axis, s1);
          if upper.Some? {
            ChildInRange(c, first, base, Deeper(levels, axis), axis, upper.value.1);
          }
        }
      }
    }
  }

  lemma {:induction false} ChildInRange(c: Config, n: nat, base: Row, levels: Row, last: nat, src: Sources)
    requires NodeOk(c, base, levels) && Shape(c, base, levels) && ValidSources(src)
    ensures var r := DecChild(c, n, base, levels, last, src); r.Some? ==> RowsInRange(c, r.value.0, n)
    decreases Room(c, levels), 1
  {
    if n > 0 {
      TreeInRange(c, n, base, levels, last, src);
    }
  }

  // ---- leaves -------------------------------------------------------------------------------

  /** A row's result does not depend on components that are still to be written. */
  lemma {:induction false} StaleRow(c: Config, base: Row, levels: Row, axis: nat, row: Row, other: Row, j: nat, src: Source)
    requires Shape(c, base, levels) && |row| == |other| == c.dim && axis < c.dim && j <= c.dim && ValidSource(src)
    requires Filled(c, row, other, axis, j)
    ensures DecPoint(c, base, levels, axis, row, j, src) == DecPoint(c, base, levels, axis, other, j, src)
    decreases c.dim - j
  {
    hide Read, Filled, Or;
    if j == c.dim {
      FilledAll(c, row, other, axis);
    } else {
      var a := AxisOrder(axis, c.dim, j);
      if c.bl > levels[a] {
        var r := Read(src, c.bl - levels[a]);
        if r.Some? {
          var v := Or(base[a], r.value.0);
          FilledBoth(c, row, other, axis, j, v);
          StaleRow(c, base, levels, axis, row[a := v], other[a := v], j + 1, r.value.1);
        }
      } else {
        var v := Or(base[a], 0);
        FilledBoth(c, row, other, axis, j, v);
        StaleRow(c, base, levels, axis, row[a := v], other[a := v], j + 1, src);
      }
    }
  }

  lemma FilledBoth(c: Config, row: Row, other: Row, axis: nat, j: nat, v: nat)
    requires |row| == |other| == c.dim && axis < c.dim && j < c.dim && Filled(c, row, other, axis, j)
    ensures var a := AxisOrder(axis, c.dim, j); Filled(c, row[a := v], other[a := v], axis, j + 1)
  {
  }

  /** Points of a leaf; the row buffer may hold anything on entry. */
  method DecodeLeaf(c: Config, n: nat, base: Row, levels: Row, axis: nat, buffer: Row, src: Source)
    returns (ok: bool, rows: seq<Row>, row: Row, rest: Source)
    requires Shape(c, base, levels) && axis < c.dim && |buffer| == c.dim && ValidSource(src)
    ensures |row| == c.dim && ValidSource(rest)
    ensures DecLeaf(c, n, base, levels, axis, src) == if ok then Some((rows, rest)) else None
  {
    hide DecPoint, Filled, Read;
    var axes := KdEncode.LeafAxes(c.dim, axis);
    row, rows, rest := buffer, [], src;
    ghost var goal := DecLeaf(c, n, base, levels, axis, src);
    LeafResume(c, n, base, levels, axis, [], src);
    for i := 0 to n
      invariant |row| == c.dim && ValidSource(rest)
      invariant goal == Resume(rows, DecLeaf(c, n - i, base, levels, axis, rest))
    {
      FilledNone(c, row, base, axis);
      StaleRow(c, base, levels, axis, row, base, 0, rest);
      LeafStep(c, n - i, base, levels, axis, rows, rest);
      ok, row, rest := DecodePoint(c, base, levels, axis, axes, row, rest);
      if !ok {
        return;
      }
      rows := rows + [row];
    }
    LeafEnd(c, base, levels, axis, rows, rest);
    ok := true;
  }

  /** Rows already decoded, then the rest. */
  ghost function Resume<S>(rows: seq<Row>, r: Option<(seq<Row>, S)>): Option<(seq<Row>, S)>
  {
    match r
    case None => None
    case Some((more, s)) => Some((rows + more, s))
  }

  lemma LeafResume(c: Config, n: nat, base: Row, levels: Row, axis: nat, rows: seq<Row>, src: Source)
    requires Shape(c, base, levels) && axis < c.dim && ValidSource(src)
    ensures Resume([], DecLeaf(c, n, base, levels, axis, src)) == DecLeaf(c, n, base, levels, axis, src)
  {
    hide DecLeaf;
    var r := DecLeaf(c, n, base, levels, axis, src);
    if r.Some? {
      assert [] + r.value.0 == r.value.0;
    }
  }

  lemma LeafStep(c: Config, n: nat, base: Row, levels: Row, axis: nat, rows: seq<Row>, src: Source)
    requires Shape(c, base, levels) && axis < c.dim && ValidSource(src) && n > 0
    ensures Resume(rows, DecLeaf(c, n, base, levels, axis, src)) ==
            match DecPoint(c, base, levels, axis, base, 0, src)
            case None => None
            case Some((row, s)) => Resume(rows + [row], DecLeaf(c, n - 1, base, levels, axis, s))
  {
    hide DecPoint;
    var p := DecPoint(c, base, levels, axis, base, 0, src);
    if p.Some? {
      var r := DecLeaf(c, n - 1, base, levels, axis, p.value.1);
      if r.Some? {
        assert rows + ([p.value.0] + r.value.0) == rows + [p.value.0] + r.value.0;
      }
    }
  }

  lemma LeafEnd(c: Config, base: Row, levels: Row, axis: nat, rows: seq<Row>, src: Source)
    requires Shape(c, base, levels) && axis < c.dim && ValidSource(src)
    ensures Resume(rows, DecLeaf(c, 0, base, levels, axis, src)) == Some((rows, src))
  {
    assert rows + [] == rows;
  }

  method DecodePoint(c: Config, base: Row, levels: Row, axis: nat, axes: seq<nat>, buffer: Row, src: Source)
    returns (ok: bool, row: Row, rest: Source)
    requires Shape(c, base, levels) && axis < c.dim && |buffer| == c.dim && ValidSource(src)
    requires |axes| == c.dim && forall j :: 0 <= j < c.dim ==> axes[j] == AxisOrder(axis, c.dim, j)
    ensures |row| == c.dim && ValidSource(rest)
    ensures DecPoint(c, base, levels, axis, buffer, 0, src) == if ok then Some((row, rest)) else None
  {
    hide Read, Or;
    row, rest := buffer, src;
    ghost var goal := DecPoint(c, base, levels, axis, buffer, 0, src);
    for j := 0 to c.dim
      invariant |row| == c.dim && ValidSource(rest)
      invariant goal == DecPoint(c, base, levels, axis, row, j, rest)
    {
      ghost var row0 := row;
      var a := axes[j];
      row := row[a := 0];
      var numRemainingBits := c.bl - levels[a];
      if numRemainingBits > 0 {
        var r := Read(rest, numRemainingBits);
        if r == None {
          return false, row, rest;
        }
        row, rest := row[a := r.value.0], r.value.1;
      } else {
        row := row[a := 0];
      }
      row := row[a := Or(base[a], row[a])];
      assert row == row0[a := row[a]];
    }
    ok := true;
  }

  // ---- the stack ------------------------------------------------------------------------

  /** kdTreeDecodingStatus: a pending count and the buffer slot of its cell. */
  datatype Pending = Pending(count: nat, last: nat, pos: nat)

  /** Slots grow along the stack, and a slot's position never exceeds the halvings above it. */
  ghost predicate StackOk(c: Config, stack: seq<Pending>, bases: seq<Row>, lvls: seq<Row>)
  {
    |bases| == |lvls| == 32 * c.dim + 1 &&
    (forall i :: 0 <= i < |stack| ==> EntryOk(c, stack[i], bases, lvls)) &&
    (forall i, j :: 0 <= i < j < |stack| ==> stack[i].pos < stack[j].pos)
  }

  ghost predicate EntryOk(c: Config, s: Pending, bases: seq<Row>, lvls: seq<Row>)
  {
    s.count > 0 && s.pos < |bases| == |lvls| &&
    Shape(c, bases[s.pos], lvls[s.pos]) && s.pos <= LevelSum(lvls[s.pos])
  }

  ghost function StackCount(stack: seq<Pending>): nat
  {
    if stack == [] then 0 else stack[|stack| - 1].count + StackCount(stack[..|stack| - 1])
  }

  ghost function EntryRows(c: Config, s: Pending, bases: seq<Row>, lvls: seq<Row>, src: Sources): (r: Option<(seq<Row>, Sources)>)
    requires EntryOk(c, s, bases, lvls) && ValidSources(src)
    ensures r.Some? ==> ValidSources(r.value.1)
  {
    DecTree(c, s.count, bases[s.pos], lvls[s.pos], s.last, src)
  }

  ghost function StackRows(c: Config, stack: seq<Pending>, bases: seq<Row>, lvls: seq<Row>, src: Sources): Option<(seq<Row>, Sources)>
    requires StackOk(c, stack, bases, lvls) && ValidSources(src)
    decreases |stack|
  {
    if stack == [] then Some(([], src))
    else
      var m := |stack| - 1;
      match EntryRows(c, stack[m], bases, lvls, src)
      case None => None
      case Some((rows, s1)) => Resume(rows, StackRows(c, stack[..m], bases, lvls, s1))
  }

  ghost function StackWeight(c: Config, stack: seq<Pending>, lvls: seq<Row>): nat
    decreases |stack|
  {
    if stack == [] then 0
    else
      var m := |stack| - 1;
      (if stack[m].pos < |lvls| then KdEncode.Weight(c, lvls[stack[m].pos]) else 0) + StackWeight(c, stack[..m], lvls)
  }

  /** Pending entries do not see changes at higher slots. */
  lemma {:induction false} StackFrame(c: Config, stack: seq<Pending>, p: nat,
      bases: seq<Row>, lvls: seq<Row>, bases1: seq<Row>, lvls1: seq<Row>, src: Sources)
    requires StackOk(c, stack, bases, lvls) && ValidSources(src)
    requires forall i :: 0 <= i < |stack| ==> stack[i].pos < p
    requires |bases1| == |lvls1| == |bases| && p <= |bases| && bases1[..p] == bases[..p] && lvls1[..p] == lvls[..p]
    ensures StackOk(c, stack, bases1, lvls1)
    ensures StackRows(c, stack, bases1, lvls1, src) == StackRows(c, stack, bases, lvls, src)
    ensures StackWeight(c, stack, lvls1) == StackWeight(c, stack, lvls)
    decreases |stack|
  {
    hide Shape, LevelSum, DecTree, KdEncode.Weight, Resume;
    forall i | 0 <= i < |stack|
      ensures bases1[stack[i].pos] == bases[stack[i].pos] && lvls1[stack[i].pos] == lvls[stack[i].pos]
    {
      assert bases1[..p][stack[i].pos] == bases[..p][stack[i].pos];
      assert lvls1[..p][stack[i].pos] == lvls[..p][stack[i].pos];
    }
    if stack != [] {
      var m := |stack| - 1;
      var r := EntryRows(c, stack[m], bases, lvls, src);
      StackFrame(c, stack[..m], p, bases, lvls, bases1, lvls1, if r.Some? then r.value.1 else src);
    }
  }

  /** One node's rows, then those of the stack. */
  ghost function Then(c: Config, r: Option<(seq<Row>, Sources)>, stack: seq<Pending>, bases: seq<Row>, lvls: seq<Row>): Option<(seq<Row>, Sources)>
    requires StackOk(c, stack, bases, lvls) && (r.Some? ==> ValidSources(r.value.1))
  {
    if r.Some? then Resume(r.value.0, StackRows(c, stack, bases, lvls, r.value.1)) else None
  }

  /** A possibly empty half as a stack entry. */
  ghost function ChildEntry(count: nat, axis: nat, pos: nat): seq<Pending>
  {
    if count > 0 then [Pending(count, axis, pos)] else []
  }

  lemma PushChild(c: Config, stack: seq<Pending>, count: nat, axis: nat, pos: nat, bases: seq<Row>, lvls: seq<Row>, src: Sources)
    requires StackOk(c, stack, bases, lvls) && ValidSources(src) && pos < |bases| == |lvls|
    requires Shape(c, bases[pos], lvls[pos]) && pos <= LevelSum(lvls[pos])
    requires forall i :: 0 <= i < |stack| ==> stack[i].pos < pos
    ensures var stack1 := stack + ChildEntry(count, axis, pos);
            StackOk(c, stack1, bases, lvls) &&
            (forall i :: 0 <= i < |stack1| ==> stack1[i].pos <= pos) &&
            StackCount(stack1) == count + StackCount(stack) &&
            StackWeight(c, stack1, lvls) <= KdEncode.Weight(c, lvls[pos]) + StackWeight(c, stack, lvls) &&
            StackRows(c, stack1, bases, lvls, src) ==
              Then(c, DecChild(c, count, bases[pos], lvls[pos], axis, src), stack, bases, lvls)
  {
    hide DecTree, KdEncode.Weight, Shape, LevelSum;
    var stack1 := stack + ChildEntry(count, axis, pos);
    if count == 0 {
      assert stack1 == stack;
      ResumeNothing(StackRows(c, stack, bases, lvls, src));
    } else {
      assert stack1[..|stack|] == stack;
    }
  }

  lemma ResumeNothing(r: Option<(seq<Row>, Sources)>)
    ensures Resume([], r) == r
  {
    if r.Some? {
      assert [] + r.value.0 == r.value.0;
    }
  }

  lemma ResumeTwice(a: seq<Row>, b: seq<Row>, r: Option<(seq<Row>, Sources)>)
    ensures Resume(a, Resume(b, r)) == Resume(a + b, r)
  {
    if r.Some? {
      assert a + (b + r.value.0) == a + b + r.value.0;
    }
  }

  // ---- the loop -------------------------------------------------------------------------

  method GetAxis(c: Config, n: nat, levels: Row, last: nat, src: Source) returns (r: Option<(nat, Source)>)
    requires |levels| == c.dim >= 1 && ValidSource(src)
    ensures r == DecAxis(c, n, levels, last, src)
  {
    if !c.select {
      return Some((IncrementMod(last, c.dim), src));
    }
    if n < 64 {
      var bestAxis := KdEncode.LeastSplitAxis(levels);
      return Some((bestAxis, src));
    }
    var value := Read(src, AxisBitCount(c.dim));
    match value
    case None => r := None;
    case Some((bestAxis, rest)) =>
      r := if bestAxis >= c.dim then None else Some((bestAxis, rest));
  }

  /** Everything that changes while the decoder runs: rows already emitted, pending counts and
      streams; the buffers are passed beside it. */
  datatype Progress = Progress(out: seq<Row>, stack: seq<Pending>, row: Row, src: Sources)

  /** What the run will return from this point on. */
  ghost function Outcome(c: Config, p: Progress, bases: seq<Row>, lvls: seq<Row>): Option<(seq<Row>, Sources)>
    requires StackOk(c, p.stack, bases, lvls) && ValidSources(p.src)
  {
    Resume(p.out, StackRows(c, p.stack, bases, lvls, p.src))
  }

  /** Replays the streams.  The rows are those of the tree; while it runs, pending counts and
      emitted rows add up to the total, and no slot beyond the buffers is touched. */
  method DecodePoints(c: Config, numPoints: nat, src0: Sources) returns (r: Option<(seq<Row>, Sources)>)
    requires ValidConfig(c) && numPoints > 0 && ValidSources(src0)
    ensures Shape(c, seq(c.dim, _ => 0), seq(c.dim, _ => 0))
    ensures r == DecTree(c, numPoints, seq(c.dim, _ => 0), seq(c.dim, _ => 0), 0, src0)
  {
    hide DecTree, KdEncode.Weight, LevelSum, StackRows, StackWeight, Resume;
    var zero: Row := seq(c.dim, _ => 0);
    var baseStack := new Row[32 * c.dim + 1](_ => zero);
    var levelsStack := new Row[32 * c.dim + 1](_ => zero);
    var p := Progress([], [Pending(numPoints, 0, 0)], zero, src0);
    ghost var goal := DecTree(c, numPoints, zero, zero, 0, src0);
    Start(c, numPoints, baseStack[..], levelsStack[..], zero, src0);
    var ok := true;
    while p.stack != []
      invariant |p.row| == c.dim && ValidSources(p.src)
      invariant StackOk(c, p.stack, baseStack[..], levelsStack[..])
      invariant Outcome(c, p, baseStack[..], levelsStack[..]) == goal
      invariant StackCount(p.stack) + |p.out| == numPoints
      decreases StackWeight(c, p.stack, levelsStack[..])
    {
      ok, p := DecodeNode(c, numPoints, baseStack, levelsStack, p);
      if !ok {
        return None;
      }
    }
    Finished(c, p, baseStack[..], levelsStack[..]);
    r := Some((p.out, p.src));
  }

  lemma Start(c: Config, n: nat, bases: seq<Row>, lvls: seq<Row>, zero: Row, src: Sources)
    requires ValidConfig(c) && n > 0 && ValidSources(src)
    requires |bases| == |lvls| == 32 * c.dim + 1 && bases[0] == lvls[0] == zero == seq(c.dim, _ => 0)
    ensures Shape(c, zero, zero)
    ensures var p := Progress([], [Pending(n, 0, 0)], zero, src);
            StackOk(c, p.stack, bases, lvls) && StackCount(p.stack) == n &&
            Outcome(c, p, bases, lvls) == DecTree(c, n, zero, zero, 0, src)
  {
    hide DecTree;
    PushChild(c, [], n, 0, 0, bases, lvls, src);
    assert [] + ChildEntry(n, 0, 0) == [Pending(n, 0, 0)];
    var r := DecTree(c, n, zero, zero, 0, src);
    if r.Some? {
      assert r.value.0 + [] == r.value.0;
      assert [] + r.value.0 == r.value.0;
    }
  }

  lemma Finished(c: Config, p: Progress, bases: seq<Row>, lvls: seq<Row>)
    requires p.stack == [] && StackOk(c, p.stack, bases, lvls) && ValidSources(p.src)
    ensures Outcome(c, p, bases, lvls) == Some((p.out, p.src))
  {
    assert p.out + [] == p.out;
  }

  /** The outcome when the popped node yields r. */
  ghost function After(c: Config, p: Progress, r: Option<(seq<Row>, Sources)>, bases: seq<Row>, lvls: seq<Row>): Option<(seq<Row>, Sources)>
    requires StackOk(c, p.stack, bases, lvls) && (r.Some? ==> ValidSources(r.value.1))
  {
    Resume(p.out, Then(c, r, p.stack, bases, lvls))
  }

  lemma Top(c: Config, p0: Progress, bases: seq<Row>, lvls: seq<Row>)
    requires p0.stack != [] && StackOk(c, p0.stack, bases, lvls) && ValidSources(p0.src)
    ensures var m := |p0.stack| - 1;
            var p, s := p0.(stack := p0.stack[..m]), p0.stack[m];
            StackOk(c, p.stack, bases, lvls) && EntryOk(c, s, bases, lvls) &&
            (forall i :: 0 <= i < m ==> p.stack[i].pos < s.pos) &&
            StackCount(p0.stack) == s.count + StackCount(p.stack) &&
            StackWeight(c, p0.stack, lvls) == KdEncode.Weight(c, lvls[s.pos]) + StackWeight(c, p.stack, lvls) &&
            Outcome(c, p0, bases, lvls) ==
              After(c, p, DecTree(c, s.count, bases[s.pos], lvls[s.pos], s.last, p0.src), bases, lvls)
  {
    hide DecTree, KdEncode.Weight, Shape, LevelSum;
  }

  lemma EmitRows(c: Config, p: Progress, rows: seq<Row>, bases: seq<Row>, lvls: seq<Row>)
    requires StackOk(c, p.stack, bases, lvls) && ValidSources(p.src)
    ensures After(c, p, Some((rows, p.src)), bases, lvls) == Outcome(c, p.(out := p.out + rows), bases, lvls)
  {
    ResumeTwice(p.out, rows, StackRows(c, p.stack, bases, lvls, p.src));
  }

  /** The part of a node below its axis, when it is neither decided nor a leaf. */
  ghost function InnerRows(c: Config, n: nat, base: Row, levels: Row, axis: nat, src: Sources): (r: Option<(seq<Row>, Sources)>)
    requires Shape(c, base, levels) && axis < c.dim && levels[axis] < c.bl && ValidSources(src)
    ensures r.Some? ==> ValidSources(r.value.1)
  {
    match DecSplit(n, src)
    case None => None
    case Some((first, second, s1)) =>
      match DecChild(c, second, UpperBase(c, base, levels, axis), Deeper(levels, axis), axis, s1)
      case None => None
      case Some((upper, s2)) =>
        match DecChild(c, first, base, Deeper(levels, axis), axis, s2)
        case None => None
        case Some((lower, s3)) => Some((upper + lower, s3))
  }

  lemma TreeCases(c: Config, n: nat, base: Row, levels: Row, last: nat, src: Sources)
    requires Shape(c, base, levels) && ValidSources(src)
    ensures DecTree(c, n, base, levels, last, src) ==
            match DecAxis(c, n, levels, last, src.axis)
            case None => None
            case Some((axis, rest)) =>
              var s0 := src.(axis := rest);
              if levels[axis] == c.bl then Some((seq(n, _ => base), s0))
              else if n <= 2 then
                (match DecLeaf(c, n, base, levels, axis, s0.remaining)
                 case None => None
                 case Some((rows, rest)) => Some((rows, s0.(remaining := rest))))
              else InnerRows(c, n, base, levels, axis, s0)
  {
    hide DecAxis, DecLeaf, DecSplit, DecChild, UpperBase, Deeper;
  }

  /** One iteration: the top entry is emitted or replaced by its halves. */
  method DecodeNode(c: Config, numPoints: nat, baseStack: array<Row>, levelsStack: array<Row>, p0: Progress)
    returns (ok: bool, p: Progress)
    requires ValidConfig(c) && p0.stack != [] && baseStack != levelsStack && |p0.row| == c.dim && ValidSources(p0.src)
    requires StackOk(c, p0.stack, baseStack[..], levelsStack[..])
    requires StackCount(p0.stack) + |p0.out| == numPoints
    modifies baseStack, levelsStack
    ensures !ok ==> old(Outcome(c, p0, baseStack[..], levelsStack[..])) == None
    ensures ok ==> |p.row| == c.dim && ValidSources(p.src) && StackOk(c, p.stack, baseStack[..], levelsStack[..]) &&
                   Outcome(c, p, baseStack[..], levelsStack[..]) == old(Outcome(c, p0, baseStack[..], levelsStack[..])) &&
                   StackCount(p.stack) + |p.out| == numPoints &&
                   StackWeight(c, p.stack, levelsStack[..]) < old(StackWeight(c, p0.stack, levelsStack[..]))
  {
    hide DecTree, KdEncode.Weight, LevelSum, StackRows, StackWeight, Resume, DecLeaf, Outcome, DecAxis, StackCount, InnerRows;
    var m := |p0.stack| - 1;
    var status := p0.stack[m];
    p := p0.(stack := p0.stack[..m]);
    Top(c, p0, baseStack[..], levelsStack[..]);
    var oldBase, levels := baseStack[status.pos], levelsStack[status.pos];
    KdEncode.WeightPositive(c, levels);
    NoneStays(p.out);
    assert status.count <= numPoints;
    TreeCases(c, status.count, oldBase, levels, status.last, p.src);
    var chosen := GetAxis(c, status.count, levels, status.last, p.src.axis);
    if chosen == None {
      return false, p;
    }
    var axis := chosen.value.0;
    p := p.(src := p.src.(axis := chosen.value.1));
    if c.bl - levels[axis] == 0 {
      var rows := seq(status.count, _ => oldBase);
      EmitRows(c, p, rows, baseStack[..], levelsStack[..]);
      return true, p.(out := p.out + rows);
    }
    if status.count <= 2 {
      var rows, row, rest;
      ok, rows, row, rest := DecodeLeaf(c, status.count, oldBase, levels, axis, p.row, p.src.remaining);
      if ok {
        p := p.(row := row, src := p.src.(remaining := rest));
        EmitRows(c, p, rows, baseStack[..], levelsStack[..]);
        p := p.(out := p.out + rows);
      }
      return;
    }
    ok, p := DecodeInner(c, baseStack, levelsStack, p, status, axis);
  }

  /** Sizes of both halves from the numbers and half streams. */
  method ReadCounts(n: nat, src: Sources) returns (r: Option<(nat, nat, Sources)>)
    requires ValidSources(src)
    ensures r == DecSplit(n, src)
  {
    hide Read, ReadHalf;
    var incomingBits := MostSignificantBit(n);
    var number := Read(src.numbers, incomingBits);
    if number == None {
      return None;
    }
    var after := src.(numbers := number.value.1);
    var firstHalf := n / 2;
    if firstHalf < number.value.0 {
      return None;
    }
    firstHalf := firstHalf - number.value.0;
    var secondHalf := n - firstHalf;
    if firstHalf != secondHalf {
      var (bit, rest) := ReadHalf(after.half);
      after := after.(half := rest);
      if !bit {
        firstHalf, secondHalf := secondHalf, firstHalf;
      }
    }
    r := Some((firstHalf, secondHalf, after));
  }

  method DecodeInner(c: Config, baseStack: array<Row>, levelsStack: array<Row>, p0: Progress, status: Pending, axis: nat)
    returns (ok: bool, p: Progress)
    requires ValidConfig(c) && baseStack != levelsStack && |p0.row| == c.dim && ValidSources(p0.src)
    requires StackOk(c, p0.stack, baseStack[..], levelsStack[..]) && EntryOk(c, status, baseStack[..], levelsStack[..])
    requires forall i :: 0 <= i < |p0.stack| ==> p0.stack[i].pos < status.pos
    requires axis < c.dim && levelsStack[status.pos][axis] < c.bl
    modifies baseStack, levelsStack
    ensures var r := old(After(c, p0, InnerRows(c, status.count, baseStack[status.pos], levelsStack[status.pos], axis, p0.src),
                               baseStack[..], levelsStack[..]));
            if !ok then r == None
            else StackOk(c, p.stack, baseStack[..], levelsStack[..]) && ValidSources(p.src) &&
                 Outcome(c, p, baseStack[..], levelsStack[..]) == r
    ensures ok ==> p.row == p0.row && p.out == p0.out && StackCount(p.stack) == status.count + StackCount(p0.stack) &&
                   StackWeight(c, p.stack, levelsStack[..]) <
                     old(KdEncode.Weight(c, levelsStack[status.pos]) + StackWeight(c, p0.stack, levelsStack[..]))
  {
    hide DecTree, KdEncode.Weight, LevelSum, StackRows, StackWeight, Resume, Outcome, StackCount, InnerRows, After, Deeper, UpperBase, StackOk, DecSplit, Middle, ChildEntry;
    ghost var base, levels := baseStack[status.pos], levelsStack[status.pos];
    ghost var bases0, lvls0 := baseStack[..], levelsStack[..];
    p := p0;
    StackSizes(c, p0.stack, bases0, lvls0);
    KdEncode.SlotFits(c, levels, axis);
    PrepareUpper(c, baseStack, levelsStack, status, axis);
    InnerFails(c, p0, status.count, base, levels, axis, bases0, lvls0);
    var counts := ReadCounts(status.count, p0.src);
    if counts == None {
      return false, p;
    }
    var (firstHalf, secondHalf, src) := counts.value;
    DeepenBoth(levelsStack, status, axis);
    var stack := p0.stack;
    if firstHalf > 0 {
      stack := stack + [Pending(firstHalf, axis, status.pos)];
    }
    if secondHalf > 0 {
      stack := stack + [Pending(secondHalf, axis, status.pos + 1)];
    }
    p := p0.(stack := stack, src := src);
    ok := true;
    ghost var bases, lvls := baseStack[..], levelsStack[..];
    assert bases[..status.pos] == bases0[..status.pos + 1][..status.pos];
    assert lvls[..status.pos] == lvls0[..status.pos];
    PushChildren(c, p0, status, axis, firstHalf, secondHalf, src, base, levels, bases0, lvls0, bases, lvls);
    ChildEntries(p0.stack, stack, firstHalf, secondHalf, axis, status.pos);
  }

  lemma ChildEntries(stack0: seq<Pending>, stack: seq<Pending>, first: nat, second: nat, axis: nat, pos: nat)
    requires stack == (if first > 0 then stack0 + [Pending(first, axis, pos)] else stack0) +
                      (if second > 0 then [Pending(second, axis, pos + 1)] else [])
    ensures stack == stack0 + ChildEntry(first, axis, pos) + ChildEntry(second, axis, pos + 1)
  {
    assert stack0 + [] == stack0;
  }

  lemma StackSizes(c: Config, stack: seq<Pending>, bases: seq<Row>, lvls: seq<Row>)
    requires StackOk(c, stack, bases, lvls)
    ensures |bases| == |lvls| == 32 * c.dim + 1
  {
  }

  /** Copies the base into the next slot and moves it to the upper half. */
  method PrepareUpper(c: Config, baseStack: array<Row>, levelsStack: array<Row>, status: Pending, axis: nat)
    requires baseStack != levelsStack && status.pos + 1 < baseStack.Length == levelsStack.Length
    requires Shape(c, baseStack[status.pos], levelsStack[status.pos]) && axis < c.dim && levelsStack[status.pos][axis] < c.bl
    modifies baseStack
    ensures baseStack[..status.pos + 1] == old(baseStack[..status.pos + 1])
    ensures baseStack[status.pos + 1] == old(UpperBase(c, baseStack[status.pos], levelsStack[status.pos], axis))
  {
    var oldBase, level := baseStack[status.pos], levelsStack[status.pos][axis];
    var modifier := Pow2(c.bl - level - 1);
    baseStack[status.pos + 1] := oldBase;
    baseStack[status.pos + 1] := baseStack[status.pos + 1][axis := baseStack[status.pos + 1][axis] + modifier];
  }

  method DeepenBoth(levelsStack: array<Row>, status: Pending, axis: nat)
    requires status.pos + 1 < levelsStack.Length && axis < |levelsStack[status.pos]|
    modifies levelsStack
    ensures levelsStack[..status.pos] == old(levelsStack[..status.pos])
    ensures levelsStack[status.pos] == levelsStack[status.pos + 1] == old(Deeper(levelsStack[status.pos], axis))
  {
    levelsStack[status.pos] := levelsStack[status.pos][axis := levelsStack[status.pos][axis] + 1];
    levelsStack[status.pos + 1] := levelsStack[status.pos];
  }

  lemma InnerFails(c: Config, p: Progress, n: nat, base: Row, levels: Row, axis: nat, bases: seq<Row>, lvls: seq<Row>)
    requires Shape(c, base, levels) && axis < c.dim && levels[axis] < c.bl && ValidSources(p.src)
    requires StackOk(c, p.stack, bases, lvls)
    ensures DecSplit(n, p.src) == None ==> After(c, p, InnerRows(c, n, base, levels, axis, p.src), bases, lvls) == None
  {
    hide DecSplit, DecChild, UpperBase, Deeper;
  }

  lemma PushChildren(c: Config, p0: Progress, status: Pending, axis: nat, first: nat, second: nat, src: Sources, base: Row, levels: Row,
                     bases0: seq<Row>, lvls0: seq<Row>, bases: seq<Row>, lvls: seq<Row>)
    requires ValidConfig(c) && StackOk(c, p0.stack, bases0, lvls0) && ValidSources(p0.src) && ValidSources(src)
    requires forall i :: 0 <= i < |p0.stack| ==> p0.stack[i].pos < status.pos
    requires Shape(c, base, levels) && axis < c.dim && levels[axis] < c.bl && status.pos <= LevelSum(levels)
    requires DecSplit(status.count, p0.src) == Some((first, second, src))
    requires |bases| == |lvls| == |bases0| && status.pos + 1 < |bases|
    requires bases[..status.pos] == bases0[..status.pos] && lvls[..status.pos] == lvls0[..status.pos]
    requires bases[status.pos] == base && bases[status.pos + 1] == UpperBase(c, base, levels, axis)
    requires lvls[status.pos] == lvls[status.pos + 1] == Deeper(levels, axis)
    ensures var stack := p0.stack + ChildEntry(first, axis, status.pos) + ChildEntry(second, axis, status.pos + 1);
            StackOk(c, stack, bases, lvls) &&
            Outcome(c, p0.(stack := stack, src := src), bases, lvls) ==
              After(c, p0, InnerRows(c, status.count, base, levels, axis, p0.src), bases0, lvls0) &&
            StackCount(stack) == status.count + StackCount(p0.stack) &&
            StackWeight(c, stack, lvls) < KdEncode.Weight(c, levels) + StackWeight(c, p0.stack, lvls0)
  {
    hide DecTree, KdEncode.Weight, LevelSum, StackRows, StackWeight, Resume, StackCount, UpperBase, DecSplit, ChildEntry, DecChild, StackOk;
    RoomStep(c, levels, axis);
    KdEncode.SlotFits(c, levels, axis);
    KdEncode.WeightStep(c, levels, axis);
    Sizes(src, status.count, p0.src, first, second);
    var stack1 := p0.stack + ChildEntry(first, axis, status.pos);
    var upper := DecChild(c, second, UpperBase(c, base, levels, axis), Deeper(levels, axis), axis, src);
    var s2 := if upper.Some? then upper.value.1 else src;
    StackFrame(c, p0.stack, status.pos, bases0, lvls0, bases, lvls, src);
    PushChild(c, p0.stack, first, axis, status.pos, bases, lvls, s2);
    PushChild(c, stack1, second, axis, status.pos + 1, bases, lvls, src);
    if upper.Some? {
      var lower := DecChild(c, first, base, Deeper(levels, axis), axis, s2);
      if lower.Some? {
        StackFrame(c, p0.stack, status.pos, bases0, lvls0, bases, lvls, lower.value.1);
        ResumeTwice(upper.value.0, lower.value.0, StackRows(c, p0.stack, bases, lvls, lower.value.1));
      } else {
        NoneStays(upper.value.0);
      }
    }
  }

  lemma Sizes(src: Sources, n: nat, src0: Sources, first: nat, second: nat)
    requires ValidSources(src0) && DecSplit(n, src0) == Some((first, second, src))
    ensures first + second == n
  {
    hide Read, ReadHalf;
  }

  lemma NoneStays(out: seq<Row>)
    ensures Resume<Sources>(out, None) == None
  {
  }
}
