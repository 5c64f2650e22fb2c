/** decodeEdgebreakerConnectivity (edgebreaker_decode.go) as a loop over arrays, proved equal to
    the state machine, with vertex renumbering and the left-most corner repair at its end. */
module ConnectivityDecoding {
  import opened Bits
  import opened Corners
  import opened CornerTables
  import opened Connectivity
  import opened StartFaces

  lemma RepeatedMap(t: Table, c: nat, v: int, d: nat)
    requires Shape(t)
    ensures Map(t, c, v).opposite == t.opposite && Map(t, c, v).tracked == t.tracked && Map(t, c, v).leftMost == t.leftMost
    ensures d != c ==> VertexOf(Map(t, c, v), d) == VertexOf(t, d)
    ensures Map(t, c, v).numVertices == t.numVertices
  {
  }

  lemma OppositeOnly(t: Table, a: int, b: int)
    ensures var r := SetOpposite(t, a, b);
            r.vertex == t.vertex && r.leftMost == t.leftMost && r.numVertices == t.numVertices && r.lists == t.lists && r.tracked == t.tracked
  {
  }

  lemma LeftMostOnly(t: Table, v: int, c: int)
    ensures var r := SetLeftMost(t, v, c);
            r.vertex == t.vertex && r.opposite == t.opposite && r.numVertices == t.numVertices && r.lists == t.lists && r.tracked == t.tracked
  {
  }

  /** The three corners of the next face are still unmapped. */
  ghost predicate Unmapped(t: Table, c: nat)
  {
    VertexOf(t, c) < 0 && VertexOf(t, c + 1) < 0 && VertexOf(t, c + 2) < 0
  }

  /** Builds the face of a C on the arrays. */
  method BuildC(table: CornerTable, a: int, b: int, c: nat, x: int) returns (ok: bool)
    requires table.Valid() && Unmapped(table.Value(), c)
    modifies table.Repr()
    ensures table.Valid()
    ensures ok == FaceC(old(table.Value()), a, b, c, x).Some?
    ensures ok ==> table.Value() == FaceC(old(table.Value()), a, b, c, x).value
  {
    hide Map, SetOpposite, SetLeftMost;
    OppositeOnly(table.Value(), a, c + 1);
    table.SetOppositeCorners(a, c + 1);
    OppositeOnly(table.Value(), b, c + 2);
    table.SetOppositeCorners(b, c + 2);
    var p, q := table.Vertex(PreviousOf(a)), table.Vertex(NextOf(b));
    if x == p || x == q {
      return false;
    }
    LabelThree(table, c, x, q, p);
    table.SetLeftMostCorner(p, c + 2);
    ok := true;
  }

  method BuildApex(table: CornerTable, a: int, opp: nat) returns (ok: bool)
    requires table.Valid() && VertexOf(table.Value(), opp) < 0
    modifies table.Repr()
    ensures table.Valid()
    ensures ok == SideApex(old(table.Value()), a, opp).Some?
    ensures ok ==> table.Value() == SideApex(old(table.Value()), a, opp).value
    ensures forall d :: d != opp ==> table.Vertex(d) == old(table.Vertex(d))
  {
    hide SetOpposite, SetLeftMost;
    OppositeOnly(table.Value(), opp, a);
    table.SetOppositeCorners(opp, a);
    var v := table.AddNewVertex();
    if v < 0 || table.numVertices > table.vertexCorners.Length {
      return false;
    }
    table.MapCornerToVertex(opp, v);
    LeftMostOnly(table.Value(), v, opp);
    table.SetLeftMostCorner(v, opp);
    ok := true;
  }

  method BuildBase(table: CornerTable, a: int, cornerL: nat, cornerR: nat)
    requires table.Valid() && VertexOf(table.Value(), cornerL) < 0 && VertexOf(table.Value(), cornerR) < 0 && cornerL != cornerR
    modifies table.Repr()
    ensures table.Valid() && table.Value() == SideBase(old(table.Value()), a, cornerL, cornerR)
  {
    hide Map, SetLeftMost;
    var vertexR := table.Vertex(PreviousOf(a));
    RepeatedMap(table.Value(), cornerR, vertexR, cornerL);
    table.MapCornerToVertex(cornerR, vertexR);
    LeftMostOnly(table.Value(), vertexR, cornerR);
    table.SetLeftMostCorner(vertexR, cornerR);
    table.MapCornerToVertex(cornerL, table.Vertex(NextOf(a)));
  }

  /** Builds the face of an R or L; the new vertex must fit. */
  method BuildSide(table: CornerTable, a: int, c: nat, right: bool) returns (ok: bool)
    requires table.Valid() && Unmapped(table.Value(), c)
    modifies table.Repr()
    ensures table.Valid()
    ensures ok == FaceSide(old(table.Value()), a, c, right).Some?
    ensures ok ==> table.Value() == FaceSide(old(table.Value()), a, c, right).value
  {
    hide SideApex, SideBase;
    var (opp, cornerL, cornerR) := if right then (c + 2, c + 1, c) else (c + 1, c, c + 2);
    ok := BuildApex(table, a, opp);
    if ok {
      assert table.Vertex(cornerL) < 0 && table.Vertex(cornerR) < 0;
      BuildBase(table, a, cornerL, cornerR);
    }
  }

  /** Builds the face of an S, still with both vertices. */
  method BuildS(table: CornerTable, a: int, b: int, c: nat)
    requires table.Valid() && Unmapped(table.Value(), c)
    modifies table.Repr()
    ensures table.Valid() && table.Value() == FaceS(old(table.Value()), a, b, c)
  {
    hide Map, SetOpposite, SetLeftMost;
    OppositeOnly(table.Value(), a, c + 2);
    table.SetOppositeCorners(a, c + 2);
    OppositeOnly(table.Value(), b, c + 1);
    table.SetOppositeCorners(b, c + 1);
    ghost var t1 := table.Value();
    var p := table.Vertex(PreviousOf(a));
    RepeatedMap(t1, c, p, c + 1);
    RepeatedMap(t1, c, p, c + 2);
    table.MapCornerToVertex(c, p);
    ghost var t2 := table.Value();
    var l := table.Vertex(NextOf(a));
    RepeatedMap(t2, c + 1, l, c + 2);
    table.MapCornerToVertex(c + 1, l);
    var q := table.Vertex(PreviousOf(b));
    table.MapCornerToVertex(c + 2, q);
    table.SetLeftMostCorner(q, c + 2);
  }

  method MergeBoth(table: CornerTable, n: int, p: int, seed: int) returns (ok: bool)
    requires table.Valid()
    modifies table.Repr()
    ensures table.Valid()
    ensures ok == MergeS(old(table.Value()), n, p, seed).Some?
    ensures ok ==> table.Value() == MergeS(old(table.Value()), n, p, seed).value
  {
    hide MergeFan, Isolate, SetLeftMost;
    ok := table.MergeVertexFan(n, p, seed);
    if ok {
      table.SetLeftMostCorner(p, table.LeftMostCorner(n));
      table.MakeVertexIsolated(n);
    }
  }

  method BuildE(table: CornerTable, c: nat) returns (ok: bool)
    requires table.Valid() && Unmapped(table.Value(), c)
    modifies table.Repr()
    ensures table.Valid()
    ensures ok == FaceE(old(table.Value()), c).Some?
    ensures ok ==> table.Value() == FaceE(old(table.Value()), c).value
  {
    hide Map, SetLeftMost;
    var v0 := table.AddNewVertex();
    var v1 := table.AddNewVertex();
    var v2 := table.AddNewVertex();
    if v0 < 0 || v1 < 0 || v2 < 0 || table.numVertices > table.vertexCorners.Length {
      return false;
    }
    LabelThree(table, c, v0, v1, v2);
    table.SetLeftMostCorner(v0, c);
    table.SetLeftMostCorner(v1, c + 1);
    table.SetLeftMostCorner(v2, c + 2);
    ok := true;
  }

  method LabelThree(table: CornerTable, c: nat, v0: int, v1: int, v2: int)
    requires table.Valid() && Unmapped(table.Value(), c)
    modifies table.Repr()
    ensures table.Valid() && table.Value() == Map(Map(Map(old(table.Value()), c, v0), c + 1, v1), c + 2, v2)
  {
    hide Map, ListsOk, AreChains, IsChain;
    ghost var t := table.Value();
    RepeatedMap(t, c, v0, c + 1);
    RepeatedMap(t, c, v0, c + 2);
    RepeatedMap(Map(t, c, v0), c + 1, v1, c + 2);
    table.MapCornerToVertex(c, v0);
    table.MapCornerToVertex(c + 1, v1);
    table.MapCornerToVertex(c + 2, v2);
  }

  // ---- the symbol loop ------------------------------------------------------------------------

  /** The loop's variables beside the table and the hole flags. */
  datatype Locals = Locals(active: seq<int>, splits: seq<Option<int>>, splitIndex: int, faces: nat, dropped: seq<int>)

  ghost function StateOf(table: CornerTable, holes: array<bool>, l: Locals): State
    reads table.Repr(), holes
  {
    State(table.Value(), l.active, l.splits, l.splitIndex, holes[..], l.faces, l.dropped)
  }

  /** Arrays do not overlap, and what the machine keeps holds, in the table or past its end. */
  ghost predicate Running(table: CornerTable, holes: array<bool>, l: Locals)
    reads table.Repr(), holes
  {
    table.Valid() && Going(StateOf(table, holes, l))
  }

  lemma NextFaceUnmapped(s: State)
    requires Going(s)
    ensures Unmapped(s.t, 3 * s.faces)
  {
    hide Matching;
  }

  method DecodeC(table: CornerTable, holes: array<bool>, l: Locals) returns (ok: bool, r: Locals)
    requires Running(table, holes, l)
    modifies table.Repr(), holes
    ensures table.Valid()
    ensures ok == StepC(old(StateOf(table, holes, l))).Some?
    ensures ok ==> StateOf(table, holes, r) == StepC(old(StateOf(table, holes, l))).value
  {
    hide FaceC, TableBase, Unmapped;
    r := l;
    if l.active == [] {
      return false, l;
    }
    NextFaceUnmapped(StateOf(table, holes, l));
    var a := l.active[|l.active| - 1];
    var x := table.Vertex(NextOf(a));
    var b := NextOf(table.LeftMostCorner(x));
    if a == b || a < 0 || b < 0 || table.Opposite(a) >= 0 || table.Opposite(b) >= 0 {
      return false, l;
    }
    ok := BuildC(table, a, b, 3 * l.faces, x);
    if ok {
      holes[x] := false;
      r := l.(active := l.active[..|l.active| - 1] + [3 * l.faces], faces := l.faces + 1);
    }
  }

  method DecodeSide(table: CornerTable, holes: array<bool>, l: Locals, right: bool) returns (ok: bool, r: Locals)
    requires Running(table, holes, l)
    modifies table.Repr()
    ensures table.Valid()
    ensures ok == StepSide(old(StateOf(table, holes, l)), right).Some?
    ensures ok ==> StateOf(table, holes, r) == StepSide(old(StateOf(table, holes, l)), right).value
  {
    hide FaceSide, TableBase, Unmapped;
    r := l;
    if l.active == [] || table.Opposite(l.active[|l.active| - 1]) >= 0 {
      return false, l;
    }
    NextFaceUnmapped(StateOf(table, holes, l));
    ok := BuildSide(table, l.active[|l.active| - 1], 3 * l.faces, right);
    r := l.(active := l.active[..|l.active| - 1] + [3 * l.faces], faces := l.faces + 1);
  }

  method DecodeE(table: CornerTable, holes: array<bool>, l: Locals) returns (ok: bool, r: Locals)
    requires Running(table, holes, l)
    modifies table.Repr()
    ensures table.Valid()
    ensures ok == StepE(old(StateOf(table, holes, l))).Some?
    ensures ok ==> StateOf(table, holes, r) == StepE(old(StateOf(table, holes, l))).value
  {
    hide FaceE, TableBase, Unmapped;
    NextFaceUnmapped(StateOf(table, holes, l));
    ok := BuildE(table, 3 * l.faces);
    r := l.(active := l.active + [3 * l.faces], faces := l.faces + 1);
  }

  /** Face and merge of an S. */
  method ZipS(table: CornerTable, a: int, b: int, c: nat) returns (ok: bool, n: int)
    requires table.Valid() && Unmapped(table.Value(), c)
    modifies table.Repr()
    ensures table.Valid()
    ensures var t := FaceS(old(table.Value()), a, b, c);
            n == VertexOf(t, NextOf(b)) && ok == MergeS(t, n, VertexOf(t, PreviousOf(a)), NextOf(b)).Some? &&
            (ok ==> table.Value() == MergeS(t, n, VertexOf(t, PreviousOf(a)), NextOf(b)).value)
  {
    hide FaceS, MergeS, Unmapped;
    BuildS(table, a, b, c);
    n := table.Vertex(NextOf(b));
    ok := MergeBoth(table, n, table.Vertex(PreviousOf(a)), NextOf(b));
  }

  /** The second boundary of an S: the next one on the stack, or a split's. */
  method ResumeBoundary(l: Locals, id: nat, ghost s: State) returns (active: seq<int>)
    requires l.active != [] && id < |l.splits| && s.active == l.active && s.splits == l.splits
    ensures active == Resume(s, id)
  {
    active := l.active[..|l.active| - 1];
    if l.splits[id].Some? {
      active := active + [l.splits[id].value];
    }
  }

  /** An S, once both boundaries are known. */
  lemma StepSJoins(s: State, id: nat, remove: bool)
    requires Ready(s) && id < |s.splits| && s.active != [] && Resume(s, id) != []
    ensures var b, active := Top(s), Resume(s, id);
            var a, c := active[|active| - 1], 3 * s.faces;
            var t := FaceS(s.t, a, b, c);
            var n := VertexOf(t, NextOf(b));
            var merged := MergeS(t, n, VertexOf(t, PreviousOf(a)), NextOf(b));
            StepS(s, id, remove) ==
            if a == b || OppositeOf(s.t, a) >= 0 || OppositeOf(s.t, b) >= 0 || merged.None? then None
            else
              Some(s.(t := merged.value, active := active[..|active| - 1] + [c], faces := s.faces + 1,
                      dropped := if remove then s.dropped + [n] else s.dropped))
  {
    hide FaceS, MergeS;
  }

  lemma StepSStops(s: State, id: nat, remove: bool)
    requires Ready(s) && id < |s.splits| && (s.active == [] || Resume(s, id) == [])
    ensures StepS(s, id, remove) == None
  {
  }

  /** Boundaries of a running machine are decoded corners. */
  lemma ResumedInRange(s: State, id: nat)
    requires Base(s) && id < |s.splits| && s.active != [] && Resume(s, id) != []
    ensures 0 <= Top(s) < 3 * s.faces && 0 <= Resume(s, id)[|Resume(s, id)| - 1] < 3 * s.faces
  {
    hide TableBase;
  }

  method DecodeS(table: CornerTable, holes: array<bool>, l: Locals, id: nat, remove: bool) returns (ok: bool, r: Locals)
    requires Running(table, holes, l) && id < |l.splits|
    modifies table.Repr()
    ensures table.Valid()
    ensures ok == StepS(old(StateOf(table, holes, l)), id, remove).Some?
    ensures ok ==> StateOf(table, holes, r) == StepS(old(StateOf(table, holes, l)), id, remove).value
  {
    hide StepS, FaceS, MergeS, TableBase, Unmapped, Resume;
    ghost var s := StateOf(table, holes, l);
    r := l;
    if l.active == [] {
      StepSStops(s, id, remove);
      return false, l;
    }
    var active := ResumeBoundary(l, id, s);
    if active == [] {
      StepSStops(s, id, remove);
      return false, l;
    }
    StepSJoins(s, id, remove);
    var a, b, c := active[|active| - 1], l.active[|l.active| - 1], 3 * l.faces;
    if a == b || table.Opposite(a) >= 0 || table.Opposite(b) >= 0 {
      return false, l;
    }
    NextFaceUnmapped(s);
    var n;
    ok, n := ZipS(table, a, b, c);
    r := l.(active := active[..|active| - 1] + [c], faces := l.faces + 1, dropped := if remove then l.dropped + [n] else l.dropped);
  }

  method ReadSplits(events: seq<Event>, id: nat, n: nat, l: Locals, ghost s: State) returns (ok: bool, r: Locals)
    requires l.active != [] && |l.splits| == n && -1 <= l.splitIndex < |events| && id < n
    requires s.active == l.active && s.splits == l.splits && s.splitIndex == l.splitIndex
    ensures ok == TakeSplits(s, id, n, events).Some?
    ensures ok ==> TakeSplits(s, id, n, events).value == s.(splits := r.splits, splitIndex := r.splitIndex)
    ensures r == l.(splits := r.splits, splitIndex := r.splitIndex)
  {
    r := l;
    while r.splitIndex >= 0 && events[r.splitIndex].source == n - id - 1
      invariant r == l.(splits := r.splits, splitIndex := r.splitIndex) && |r.splits| == n && -1 <= r.splitIndex < |events|
      invariant TakeSplits(s, id, n, events) == TakeSplits(s.(splits := r.splits, splitIndex := r.splitIndex), id, n, events)
      decreases r.splitIndex + 1
    {
      var event := events[r.splitIndex];
      var act := r.active[|r.active| - 1];
      var corner := if event.right then NextOf(act) else PreviousOf(act);
      var k := n - event.split - 1;
      if k < 0 || k >= |r.splits| {
        return false, r;
      }
      r := r.(splits := r.splits[k := Some(corner)], splitIndex := r.splitIndex - 1);
    }
    ok := true;
  }

  /** One symbol on the arrays. */
  method DecodeSymbol(table: CornerTable, holes: array<bool>, l: Locals, symbol: nat, id: nat, n: nat,
      events: seq<Event>, remove: bool) returns (ok: bool, r: Locals)
    requires Running(table, holes, l)
    requires |l.splits| == n && -1 <= l.splitIndex < |events| && id < n
    modifies table.Repr(), holes
    ensures ok == Step(old(StateOf(table, holes, l)), symbol, id, n, events, remove).Some?
    ensures ok ==> StateOf(table, holes, r) == Step(old(StateOf(table, holes, l)), symbol, id, n, events, remove).value
    ensures ok ==> Running(table, holes, r)
  {
    hide StepC, StepS, StepSide, StepE, TakeSplits, Base, TableBase, TableFull, SelfMerge;
    ghost var s := StateOf(table, holes, l);
    r := l;
    if symbol == TOPOLOGY_C {
      ok, r := DecodeC(table, holes, l);
    } else if symbol == TOPOLOGY_R || symbol == TOPOLOGY_L {
      ok, r := DecodeSide(table, holes, l, symbol == TOPOLOGY_R);
      if ok {
        ok, r := ReadSplits(events, id, n, r, StateOf(table, holes, r));
      }
    } else if symbol == TOPOLOGY_S {
      ok, r := DecodeS(table, holes, l, id, remove);
    } else if symbol == TOPOLOGY_E {
      ok, r := DecodeE(table, holes, l);
      if ok {
        ok, r := ReadSplits(events, id, n, r, StateOf(table, holes, r));
      }
    } else {
      return false, l;
    }
    if ok {
      StepGoes(s, symbol, id, n, events, remove);
    }
  }

  /** The symbol loop: the arrays end up exactly where the machine's run ends, and an error is
      reported exactly when the run reports one. */
  method DecodeSymbols(table: CornerTable, holes: array<bool>, symbols: seq<nat>, events: seq<Event>, remove: bool,
      numFaces: nat, maxVertices: nat) returns (ok: bool, l: Locals)
    requires table.Valid() && table.Value() == EmptyTable(numFaces, maxVertices, table.trackVertexCorners)
    requires holes.Length == maxVertices && holes !in table.Repr()
    requires holes[..] == seq(maxVertices, _ => true)
    modifies table.Repr(), holes
    ensures var run := RunTo(Start(numFaces, maxVertices, table.trackVertexCorners, |symbols|, |events|), symbols, events, remove, |symbols|);
            ok == run.Some? && (ok ==> StateOf(table, holes, l) == run.value && Running(table, holes, l) && l.faces == |symbols|)
  {
    hide Step, Base, TableBase, TableFull, EmptyTable, Full, RunTo;
    ghost var s0 := Start(numFaces, maxVertices, table.trackVertexCorners, |symbols|, |events|);
    StartFull(numFaces, maxVertices, table.trackVertexCorners, |symbols|, |events|);
    FullIsBase(s0);
    l := Locals([], seq(|symbols|, _ => None), |events| - 1, 0, []);
    assert StateOf(table, holes, l) == s0;
    RunBegins(s0, symbols, events, remove);
    for i := 0 to |symbols|
      invariant table.Valid() && RunTo(s0, symbols, events, remove, i) == Some(StateOf(table, holes, l))
      invariant Running(table, holes, l) && l.faces == i
    {
      ghost var s := StateOf(table, holes, l);
      ok, l := DecodeSymbol(table, holes, l, symbols[i], i, |symbols|, events, remove);
      RunGoesOn(s0, symbols, events, remove, i, s);
      if !ok {
        RunStops(s0, symbols, events, remove, i + 1, |symbols|);
        return;
      }
      StepFaces(s, symbols[i], i, |symbols|, events, remove);
    }
    ok := true;
  }

  lemma RunBegins(s0: State, symbols: seq<nat>, events: seq<Event>, remove: bool)
    requires Ready(s0) && |s0.splits| == |symbols| && -1 <= s0.splitIndex < |events|
    ensures RunTo(s0, symbols, events, remove, 0) == Some(s0)
  {
  }

  lemma RunGoesOn(s0: State, symbols: seq<nat>, events: seq<Event>, remove: bool, i: nat, s: State)
    requires Ready(s0) && |s0.splits| == |symbols| && -1 <= s0.splitIndex < |events| && i < |symbols|
    requires Ready(s) && |s.splits| == |symbols| && -1 <= s.splitIndex < |events|
    requires RunTo(s0, symbols, events, remove, i) == Some(s)
    ensures RunTo(s0, symbols, events, remove, i + 1) == Step(s, symbols[i], i, |symbols|, events, remove)
  {
  }

  lemma FullIsBase(s: State)
    requires Full(s)
    ensures Base(s)
  {
  }

  lemma EmptySizes(numFaces: nat, maxVertices: nat, track: bool)
    ensures |EmptyTable(numFaces, maxVertices, track).vertex| == 3 * numFaces
  {
  }

  /** An error ends the run. */
  lemma {:induction false} RunStops(s: State, symbols: seq<nat>, events: seq<Event>, remove: bool, i: nat, j: nat)
    requires Ready(s) && |s.splits| == |symbols| && -1 <= s.splitIndex < |events| && i <= j <= |symbols|
    requires RunTo(s, symbols, events, remove, i) == None
    ensures RunTo(s, symbols, events, remove, j) == None
    decreases j
  {
    hide Step;
    if i < j {
      RunStops(s, symbols, events, remove, i, j - 1);
    }
  }

  // ---- start faces ----------------------------------------------------------------------------

  /** Builds a start face on the arrays. */
  method BuildStart(table: CornerTable, a: int, c: nat) returns (ok: bool)
    requires table.Valid() && Unmapped(table.Value(), c)
    modifies table.Repr()
    ensures table.Valid()
    ensures ok == FaceStart(old(table.Value()), a, c).Some?
    ensures ok ==> table.Value() == FaceStart(old(table.Value()), a, c).value
  {
    hide Map, SetOpposite;
    var n := table.Vertex(NextOf(a));
    var b := NextOf(table.LeftMostCorner(n));
    var x := table.Vertex(NextOf(b));
    var d := NextOf(table.LeftMostCorner(x));
    if a == b || a == d || b == d {
      return false;
    }
    if table.Opposite(a) >= 0 || table.Opposite(b) >= 0 || table.Opposite(d) >= 0 {
      return false;
    }
    var p := table.Vertex(NextOf(d));
    OppositeOnly(table.Value(), c, a);
    table.SetOppositeCorners(c, a);
    OppositeOnly(table.Value(), c + 1, b);
    table.SetOppositeCorners(c + 1, b);
    OppositeOnly(table.Value(), c + 2, d);
    table.SetOppositeCorners(c + 2, d);
    LabelThree(table, c, x, p, n);
    ok := true;
  }

  ghost predicate Starting(table: CornerTable, holes: array<bool>, l: Locals)
    reads table.Repr(), holes
  {
    table.Valid() && holes !in table.Repr() && Ready(StateOf(table, holes, l)) &&
    (LooseState(StateOf(table, holes, l)) || 3 * l.faces > table.cornerVertex.Length)
  }

  ghost predicate LooseState(s: State)
  {
    Loose(s.t, 3 * s.faces) && ActiveOk(s)
  }

  method DecodeStart(table: CornerTable, holes: array<bool>, l: Locals, interior: bool) returns (ok: bool, r: Locals)
    requires Starting(table, holes, l) && l.active != []
    modifies table.Repr(), holes
    ensures ok == StepStart(old(StateOf(table, holes, l)), interior).Some?
    ensures ok ==> StateOf(table, holes, r) == StepStart(old(StateOf(table, holes, l)), interior).value && Starting(table, holes, r)
  {
    hide FaceStart, Loose, Unmapped;
    ghost var s := StateOf(table, holes, l);
    r := l.(active := l.active[..|l.active| - 1]);
    if !interior {
      return true, r;
    }
    if l.faces >= table.cornerVertex.Length / 3 {
      return false, l;
    }
    LooseFacts(table.Value(), l.faces);
    var c := 3 * l.faces;
    ok := BuildStart(table, l.active[|l.active| - 1], c);
    if !ok {
      return;
    }
    FaceStartKeepsLoose(s.t, Top(s), c);
    FillHoles(table, holes, c);
    r := r.(faces := l.faces + 1);
  }

  /** The start face's three vertices are not on a hole any more. */
  method FillHoles(table: CornerTable, holes: array<bool>, c: nat)
    requires table.Valid()
    modifies holes
    ensures var t := table.Value();
            holes[..] == Unhole(Unhole(Unhole(old(holes[..]), VertexOf(t, c)), VertexOf(t, c + 1)), VertexOf(t, c + 2))
  {
    ghost var t, h0 := table.Value(), holes[..];
    for i := 0 to 3
      invariant holes[..] == UnholeFirst(h0, t, c, i)
    {
      var vertex := table.Vertex(c + i);
      if 0 <= vertex < holes.Length {
        holes[vertex] := false;
      }
    }
    assert UnholeFirst(h0, t, c, 1) == Unhole(h0, VertexOf(t, c));
  }

  ghost function UnholeFirst(h: seq<bool>, t: Table, c: nat, i: nat): seq<bool>
  {
    if i == 0 then h else Unhole(UnholeFirst(h, t, c, i - 1), VertexOf(t, c + i - 1))
  }

  lemma LooseFacts(t: Table, faces: nat)
    requires Loose(t, 3 * faces)
    ensures Unmapped(t, 3 * faces) && |t.vertex| % 3 == 0
  {
    hide Matching;
    var c := 3 * faces;
    assert forall d :: c <= d < |t.vertex| ==> t.vertex[d] == -1;
    assert c < |t.vertex| ==> t.vertex[c] == -1;
    assert c + 1 < |t.vertex| ==> t.vertex[c + 1] == -1;
    assert c + 2 < |t.vertex| ==> t.vertex[c + 2] == -1;
  }

  /** The start-face loop. */
  method DecodeStarts(table: CornerTable, holes: array<bool>, l0: Locals, bits: seq<bool>) returns (ok: bool, l: Locals)
    requires Starting(table, holes, l0)
    modifies table.Repr(), holes
    ensures ok == RunStart(old(StateOf(table, holes, l0)), bits).Some?
    ensures ok ==> StateOf(table, holes, l) == RunStart(old(StateOf(table, holes, l0)), bits).value && Starting(table, holes, l)
  {
    hide StepStart, Loose;
    ghost var s0 := StateOf(table, holes, l0);
    l := l0;
    var read := 0;
    while l.active != []
      invariant Starting(table, holes, l) && read <= |bits|
      invariant RunStart(s0, bits) == RunStart(StateOf(table, holes, l), bits[read..])
      decreases |l.active|
    {
      if read == |bits| {
        return false, l;
      }
      assert bits[read..][0] == bits[read] && bits[read..][1..] == bits[read + 1..];
      ghost var s := StateOf(table, holes, l);
      ok, l := DecodeStart(table, holes, l, bits[read]);
      if !ok {
        return;
      }
      StartShorter(s, bits[read]);
      read := read + 1;
    }
    ok := true;
  }

  lemma StartShorter(s: State, interior: bool)
    requires Ready(s) && s.active != [] && StepStart(s, interior).Some?
    ensures |StepStart(s, interior).value.active| < |s.active|
  {
  }
}
