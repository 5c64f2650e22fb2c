/** Corner lists are only an index (edgebreaker_topology.go, edgebreaker_encode.go): the machine
    takes the same steps on a table without them, so symbols recorded on a plain table can be
    replayed on a tracked one. */
module Tracking {
  import opened Bits
  import opened Corners
  import opened CornerTables
  import opened Connectivity
  import opened StartFaces
  import opened Valence

  /** The same table without its corner lists. */
  function Untrack(t: Table): (r: Table)
    ensures Shape(t) ==> Shape(r)
  {
    t.(tracked := false, lists := [])
  }

  function UntrackState(s: State): (r: State)
    ensures Ready(s) ==> Ready(r)
  {
    s.(t := Untrack(s.t))
  }

  function UntrackOption(s: Option<State>): Option<State>
  {
    match s case None => None case Some(s1) => Some(UntrackState(s1))
  }

  lemma UntrackOps(t: Table, a: int, b: int)
    requires Shape(t)
    ensures SetOpposite(Untrack(t), a, b) == Untrack(SetOpposite(t, a, b))
    ensures Map(Untrack(t), a, b) == Untrack(Map(t, a, b))
    ensures SetLeftMost(Untrack(t), a, b) == Untrack(SetLeftMost(t, a, b))
    ensures Isolate(Untrack(t), a) == Untrack(Isolate(t, a))
    ensures AddVertex(Untrack(t)) == (Untrack(AddVertex(t).0), AddVertex(t).1)
    ensures VertexOf(Untrack(t), a) == VertexOf(t, a) && OppositeOf(Untrack(t), a) == OppositeOf(t, a)
    ensures LeftMostOf(Untrack(t), a) == LeftMostOf(t, a)
  {
  }

  lemma UntrackFaceC(t: Table, a: int, b: int, c: nat, x: int)
    requires Shape(t)
    ensures FaceC(Untrack(t), a, b, c, x) == match FaceC(t, a, b, c, x) case None => None case Some(r) => Some(Untrack(r))
  {
    hide SetOpposite, Map, SetLeftMost, Shape, Untrack;
    UntrackOps(t, a, c + 1);
    var t1 := SetOpposite(t, a, c + 1);
    UntrackOps(t1, b, c + 2);
    var t2 := SetOpposite(t1, b, c + 2);
    UntrackOps(t2, PreviousOf(a), 0);
    UntrackOps(t2, NextOf(b), 0);
    var p, q := VertexOf(t2, PreviousOf(a)), VertexOf(t2, NextOf(b));
    UntrackOps(t2, c, x);
    UntrackOps(Map(t2, c, x), c + 1, q);
    UntrackOps(Map(Map(t2, c, x), c + 1, q), c + 2, p);
    UntrackOps(Map(Map(Map(t2, c, x), c + 1, q), c + 2, p), p, c + 2);
  }

  lemma UntrackApex(t: Table, a: int, opp: nat)
    requires Shape(t)
    ensures SideApex(Untrack(t), a, opp) == match SideApex(t, a, opp) case None => None case Some(r) => Some(Untrack(r))
  {
    hide SetOpposite, Map, SetLeftMost;
    UntrackOps(t, opp, a);
    var t0 := SetOpposite(t, opp, a);
    UntrackOps(t0, 0, 0);
    var (t1, v) := AddVertex(t0);
    UntrackOps(t1, opp, v);
    UntrackOps(Map(t1, opp, v), v, opp);
  }

  lemma UntrackBase(t: Table, a: int, cornerL: nat, cornerR: nat)
    requires Shape(t)
    ensures SideBase(Untrack(t), a, cornerL, cornerR) == Untrack(SideBase(t, a, cornerL, cornerR))
  {
    hide Map, SetLeftMost;
    UntrackOps(t, PreviousOf(a), 0);
    var v := VertexOf(t, PreviousOf(a));
    UntrackOps(t, cornerR, v);
    UntrackOps(Map(t, cornerR, v), v, cornerR);
    var t1 := SetLeftMost(Map(t, cornerR, v), v, cornerR);
    UntrackOps(t1, NextOf(a), 0);
    UntrackOps(t1, cornerL, VertexOf(t1, NextOf(a)));
  }

  lemma UntrackFaceSide(t: Table, a: int, c: nat, right: bool)
    requires Shape(t)
    ensures FaceSide(Untrack(t), a, c, right) == match FaceSide(t, a, c, right) case None => None case Some(r) => Some(Untrack(r))
  {
    hide SideApex, SideBase, Untrack;
    UntrackApex(t, a, if right then c + 2 else c + 1);
    var apex := SideApex(t, a, if right then c + 2 else c + 1);
    if apex.Some? {
      UntrackBase(apex.value, a, c + 1, c);
      UntrackBase(apex.value, a, c, c + 2);
    }
  }

  lemma UntrackFaceS(t: Table, a: int, b: int, c: nat)
    requires Shape(t)
    ensures FaceS(Untrack(t), a, b, c) == Untrack(FaceS(t, a, b, c))
  {
    hide SetOpposite, Map, SetLeftMost, Shape, Untrack;
    UntrackOps(t, a, c + 2);
    UntrackOps(SetOpposite(t, a, c + 2), b, c + 1);
    var t1 := SetOpposite(SetOpposite(t, a, c + 2), b, c + 1);
    UntrackOps(t1, PreviousOf(a), 0);
    UntrackOps(t1, c, VertexOf(t1, PreviousOf(a)));
    var t2 := Map(t1, c, VertexOf(t1, PreviousOf(a)));
    UntrackOps(t2, NextOf(a), 0);
    UntrackOps(t2, c + 1, VertexOf(t2, NextOf(a)));
    var t3 := Map(t2, c + 1, VertexOf(t2, NextOf(a)));
    UntrackOps(t3, PreviousOf(b), 0);
    var q := VertexOf(t3, PreviousOf(b));
    UntrackOps(t3, c + 2, q);
    UntrackOps(Map(t3, c + 2, q), q, c + 2);
  }

  /** With an exact index the spliced merge and the scanning merge agree. */
  lemma UntrackMergeS(t: Table, n: nat, p: nat, seed: int)
    requires Shape(t) && Indexed(t) && n < |t.leftMost| && p < |t.leftMost|
    ensures MergeS(Untrack(t), n, p, seed) == match MergeS(t, n, p, seed) case None => None case Some(r) => Some(Untrack(r))
  {
    hide Isolate, SetLeftMost, Indexed;
    var merged := MergeFan(t, n, p, seed);
    if merged.Some? {
      if n != p {
        MergeIsFullScan(t, n, p, seed);
      }
      assert MergeFan(Untrack(t), n, p, seed) == Some(Untrack(merged.value));
      UntrackOps(merged.value, n, 0);
      UntrackOps(merged.value, p, LeftMostOf(merged.value, n));
      UntrackOps(SetLeftMost(merged.value, p, LeftMostOf(merged.value, n)), n, 0);
    }
  }

  lemma UntrackFaceE(t: Table, c: nat)
    requires Shape(t)
    ensures FaceE(Untrack(t), c) == match FaceE(t, c) case None => None case Some(r) => Some(Untrack(r))
  {
    hide Map, SetLeftMost;
    UntrackOps(t, 0, 0);
    var (t1, v0) := AddVertex(t);
    UntrackOps(t1, 0, 0);
    var (t2, v1) := AddVertex(t1);
    UntrackOps(t2, 0, 0);
    var (t3, v2) := AddVertex(t2);
    UntrackOps(t3, c, v0);
    UntrackOps(Map(t3, c, v0), c + 1, v1);
    UntrackOps(Map(Map(t3, c, v0), c + 1, v1), c + 2, v2);
    var t4 := Map(Map(Map(t3, c, v0), c + 1, v1), c + 2, v2);
    UntrackOps(t4, v0, c);
    UntrackOps(SetLeftMost(t4, v0, c), v1, c + 1);
    UntrackOps(SetLeftMost(SetLeftMost(t4, v0, c), v1, c + 1), v2, c + 2);
  }

  lemma UntrackZip(s: State, a: int, b: int, c: nat)
    requires Ready(s)
    ensures FaceS(Untrack(s.t), a, b, c) == Untrack(FaceS(s.t, a, b, c))
    ensures var t := FaceS(s.t, a, b, c);
            VertexOf(Untrack(t), PreviousOf(a)) == VertexOf(t, PreviousOf(a)) && VertexOf(Untrack(t), NextOf(b)) == VertexOf(t, NextOf(b))
    ensures OppositeOf(Untrack(s.t), a) == OppositeOf(s.t, a) && OppositeOf(Untrack(s.t), b) == OppositeOf(s.t, b)
  {
    hide FaceS, Shape;
    UntrackFaceS(s.t, a, b, c);
    UntrackOps(s.t, a, 0);
    UntrackOps(s.t, b, 0);
    UntrackOps(FaceS(s.t, a, b, c), NextOf(b), 0);
    UntrackOps(FaceS(s.t, a, b, c), PreviousOf(a), 0);
  }

  lemma UntrackPair(s: State, id: nat)
    requires Ready(s) && id < |s.splits|
    ensures MergePair(UntrackState(s), id) == MergePair(s, id)
  {
    hide FaceS, Shape, Untrack;
    if s.active != [] && Resume(s, id) != [] {
      var active := Resume(s, id);
      UntrackZip(s, active[|active| - 1], Top(s), 3 * s.faces);
    }
  }

  lemma UntrackStepS(s: State, id: nat, remove: bool)
    requires Full(s) && 3 * s.faces + 3 <= |s.t.vertex| && id < |s.splits|
    ensures StepS(UntrackState(s), id, remove) == UntrackOption(StepS(s, id, remove))
  {
    hide FaceS, MergeS, TableFull, Shape, TableBase, Untrack;
    if s.active != [] && Resume(s, id) != [] {
      var b, active, c := Top(s), Resume(s, id), 3 * s.faces;
      var a := active[|active| - 1];
      UntrackZip(s, a, b, c);
      if a != b && OppositeOf(s.t, a) < 0 && OppositeOf(s.t, b) < 0 {
        MergeReady(s, a, b);
        var t := FaceS(s.t, a, b, c);
        UntrackMergeS(t, VertexOf(t, NextOf(b)), VertexOf(t, PreviousOf(a)), NextOf(b));
      }
    }
  }

  lemma MergeReady(s: State, a: int, b: int)
    requires Full(s) && 3 * s.faces + 3 <= |s.t.vertex| && 0 <= a < 3 * s.faces && 0 <= b < 3 * s.faces && a != b
    requires OppositeOf(s.t, a) < 0 && OppositeOf(s.t, b) < 0
    ensures var t := FaceS(s.t, a, b, 3 * s.faces);
            Indexed(t) && 0 <= VertexOf(t, NextOf(b)) < |t.leftMost| && 0 <= VertexOf(t, PreviousOf(a)) < |t.leftMost|
  {
    hide FaceS, Matching, Indexed, EdgesAgree, Homes;
    FaceSForm(s.t, a, b, 3 * s.faces);
    FaceSKeepsBase(s.t, a, b, 3 * s.faces);
    FaceSizes(s.t, a, b, 3 * s.faces);
    FaceSizes(s.t, b, a, 3 * s.faces);
  }

  lemma {:induction false} UntrackSplits(s: State, id: nat, n: nat, events: seq<Event>)
    requires s.active != [] && |s.splits| == n && -1 <= s.splitIndex < |events| && id < n
    ensures TakeSplits(UntrackState(s), id, n, events) == UntrackOption(TakeSplits(s, id, n, events))
    decreases s.splitIndex + 1
  {
    hide Untrack;
    if s.splitIndex >= 0 && events[s.splitIndex].source == n - id - 1 {
      var event := events[s.splitIndex];
      var corner := if event.right then NextOf(Top(s)) else PreviousOf(Top(s));
      var k := n - event.split - 1;
      if 0 <= k < |s.splits| {
        UntrackSplits(s.(splits := s.splits[k := Some(corner)], splitIndex := s.splitIndex - 1), id, n, events);
      }
    }
  }

  lemma UntrackStepC(s: State)
    requires Ready(s)
    ensures StepC(UntrackState(s)) == UntrackOption(StepC(s))
  {
    hide FaceC, Shape, Untrack;
    if s.active != [] {
      var a := Top(s);
      UntrackOps(s.t, NextOf(a), 0);
      UntrackOps(s.t, a, 0);
      var x := VertexOf(s.t, NextOf(a));
      UntrackOps(s.t, x, 0);
      var b := NextOf(LeftMostOf(s.t, x));
      UntrackOps(s.t, b, 0);
      UntrackFaceC(s.t, a, b, 3 * s.faces, x);
    }
  }

  /** A step on a table without lists is the same step. */
  lemma UntrackStep(s: State, symbol: nat, id: nat, n: nat, events: seq<Event>, remove: bool)
    requires Full(s) && 3 * s.faces + 3 <= |s.t.vertex| && CanStep(s, id, n, events)
    ensures Step(UntrackState(s), symbol, id, n, events, remove) == UntrackOption(Step(s, symbol, id, n, events, remove))
  {
    hide StepC, StepS, FaceSide, FaceE, TakeSplits, TableBase, TableFull, Untrack, Shape;
    if symbol == TOPOLOGY_C {
      UntrackStepC(s);
    } else if symbol == TOPOLOGY_S {
      UntrackStepS(s, id, remove);
    } else if symbol == TOPOLOGY_E {
      UntrackFaceE(s.t, 3 * s.faces);
      if StepE(s).Some? {
        UntrackSplits(StepE(s).value, id, n, events);
      }
    } else if s.active != [] {
      UntrackOps(s.t, Top(s), 0);
      UntrackFaceSide(s.t, Top(s), 3 * s.faces, symbol == TOPOLOGY_R);
      if (symbol == TOPOLOGY_R || symbol == TOPOLOGY_L) && StepSide(s, symbol == TOPOLOGY_R).Some? {
        UntrackSplits(StepSide(s, symbol == TOPOLOGY_R).value, id, n, events);
      }
    }
  }

  // ---- recording without lists, replaying with them ---------------------------------------------

  function UntrackWalk(w: Walk): (r: Walk)
    ensures Ready(w.s) ==> Ready(r.s)
  {
    w.(s := UntrackState(w.s))
  }

  lemma UntrackWalkStep(w: Walk, symbol: nat, id: nat, n: nat, events: seq<Event>, remove: bool)
    requires Full(w.s) && 3 * w.s.faces + 3 <= |w.s.t.vertex| && CanStep(w.s, id, n, events)
    ensures var r := WalkStep(w, symbol, id, n, events, remove);
            WalkStep(UntrackWalk(w), symbol, id, n, events, remove) == (if r.None? then None else Some(UntrackWalk(r.value))) &&
            (r.Some? ==> NextContext(UntrackWalk(r.value)) == NextContext(r.value))
  {
    hide Step, MergePair, TableBase, TableFull, Shape;
    UntrackStep(w.s, symbol, id, n, events, remove);
    UntrackPair(w.s, id);
  }

  /** The recorder, whose table has no lists, walks and files exactly as the decoder's tracked
      table does, as long as no vertex is merged with itself. */
  lemma {:induction false} UntrackRecord(w: Walk, symbols: seq<nat>, events: seq<Event>, remove: bool, i: nat)
    requires Full(w.s) && w.s.faces == 0 && 3 * |symbols| <= |w.s.t.vertex|
    requires |w.s.splits| == |symbols| && -1 <= w.s.splitIndex < |events| && i <= |symbols|
    requires NoSelfMerge(w.s, symbols, events, remove, i)
    ensures var (a, b) := (RecordTo(UntrackWalk(w), symbols, events, remove, i), RecordTo(w, symbols, events, remove, i));
            (a.Some? <==> b.Some?) && (b.Some? ==> a.value == (UntrackWalk(b.value.0), b.value.1))
    ensures RecordTo(w, symbols, events, remove, i).Some? ==>
              RunTo(w.s, symbols, events, remove, i) == Some(RecordTo(w, symbols, events, remove, i).value.0.s)
    decreases i
  {
    hide WalkStep, TableBase, TableFull, Step, NoSelfMerge, Shape, NextContext, File, UntrackState;
    if i > 0 {
      NoSelfMergeBefore(w.s, symbols, events, remove, i);
      UntrackRecord(w, symbols, events, remove, i - 1);
      var before := RecordTo(w, symbols, events, remove, i - 1);
      if before.Some? {
        RunKeeps(w.s, symbols, events, remove, i - 1);
        UntrackWalkStep(before.value.0, symbols[i - 1], i - 1, |symbols|, events, remove);
        WalkStepState(before.value.0, symbols[i - 1], i - 1, |symbols|, events, remove);
      }
    }
  }

  lemma NoSelfMergeBefore(s: State, symbols: seq<nat>, events: seq<Event>, remove: bool, i: nat)
    requires Ready(s) && |s.splits| == |symbols| && -1 <= s.splitIndex < |events| && 1 <= i <= |symbols|
    requires NoSelfMerge(s, symbols, events, remove, i)
    ensures NoSelfMerge(s, symbols, events, remove, i - 1)
  {
    hide SelfMerge, RunTo;
  }

  lemma WalkStepState(w: Walk, symbol: nat, id: nat, n: nat, events: seq<Event>, remove: bool)
    requires CanStep(w.s, id, n, events)
    ensures WalkStep(w, symbol, id, n, events, remove).Some? ==>
              Step(w.s, symbol, id, n, events, remove) == Some(WalkStep(w, symbol, id, n, events, remove).value.s)
  {
  }

  /** The whole valence scheme: symbols recorded on a plain table and replayed on a tracked one
      come back unchanged, with all context lists used up. */
  lemma RecordThenReplay(numFaces: nat, maxVertices: nat, symbols: seq<nat>, events: seq<Event>, remove: bool, valences: seq<int>)
    requires 0 < |symbols| <= numFaces && symbols[0] == TOPOLOGY_E && forall j :: 0 <= j < |symbols| ==> SymbolId(symbols[j]).Some?
    requires NoSelfMerge(Start(numFaces, maxVertices, true, |symbols|, |events|), symbols, events, remove, |symbols|)
    requires RecordTo(Walk(Start(numFaces, maxVertices, false, |symbols|, |events|), valences), symbols, events, remove, |symbols|).Some?
    ensures var lists := RecordTo(Walk(Start(numFaces, maxVertices, false, |symbols|, |events|), valences), symbols, events, remove, |symbols|).value.1;
            var r := ReplayTo(Walk(Start(numFaces, maxVertices, true, |symbols|, |events|), valences), Stored(lists), |symbols|, events, remove, |symbols|);
            r.Some? && r.value.read == symbols && forall k :: 0 <= k < CONTEXTS ==> r.value.counters[k] == 0
  {
    hide RecordTo, ReplayTo, NoSelfMerge, Stored, TableFull, TableBase;
    var s := Start(numFaces, maxVertices, true, |symbols|, |events|);
    StartFull(numFaces, maxVertices, true, |symbols|, |events|);
    assert UntrackWalk(Walk(s, valences)) == Walk(Start(numFaces, maxVertices, false, |symbols|, |events|), valences);
    UntrackRecord(Walk(s, valences), symbols, events, remove, |symbols|);
    ValenceRoundTrip(Walk(s, valences), symbols, events, remove);
  }
}
