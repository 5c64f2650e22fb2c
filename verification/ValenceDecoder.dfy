/** The symbol loop with a valence traversal: the connectivity decoder on arrays, driven by the
    recorder (edgebreaker_encode.go) or by the traversal decoder (edgebreaker_decode.go). */
module ValenceDecoding {
  import opened Bits
  import opened Corners
  import opened CornerTables
  import opened Connectivity
  import opened ConnectivityDecoding
  import opened Valence
  import opened ValenceCoding
  import Tracking

  /** A table without faces and all vertices on holes, as both sides start. */
  ghost predicate Fresh(table: CornerTable, holes: array<bool>, numFaces: nat, maxVertices: nat)
    reads table, table.Repr(), holes
  {
    table.Valid() && table.Value() == EmptyTable(numFaces, maxVertices, table.trackVertexCorners) &&
    holes.Length == maxVertices && holes[..] == seq(maxVertices, _ => true) && holes !in table.Repr()
  }

  ghost function StartWalk(numFaces: nat, maxVertices: nat, track: bool, n: nat, numEvents: nat): (w: Walk)
    ensures Ready(w.s) && |w.s.splits| == n && w.s.splitIndex == numEvents - 1 && |w.valences| == maxVertices
  {
    Walk(Start(numFaces, maxVertices, track, n, numEvents), seq(maxVertices, _ => 0))
  }

  /** The next face is in the table. */
  ghost predicate InTable(table: CornerTable, l: Locals)
    reads table
  {
    3 * l.faces + 3 <= table.cornerVertex.Length
  }

  lemma InTableIsBase(s: State)
    requires Going(s) && 3 * s.faces <= |s.t.vertex|
    ensures Base(s)
  {
  }

  // ---- the valence index ---------------------------------------------------------------------------

  /** The active corner after an accepted symbol is the new face's first. */
  lemma TopIsNew(s: State, symbol: nat, id: nat, n: nat, events: seq<Event>, remove: bool)
    requires CanStep(s, id, n, events) && Step(s, symbol, id, n, events, remove).Some?
    ensures Top(Step(s, symbol, id, n, events, remove).value) == 3 * s.faces
  {
    hide FaceC, FaceS, FaceSide, FaceE, MergeS;
  }

  /** After an accepted symbol the active corner's vertices index the valences exactly when its face
      is in the table; otherwise they are all -1. */
  lemma CoveredExactly(s: State, symbol: nat, id: nat, n: nat, events: seq<Event>, remove: bool)
    requires Base(s) && CanStep(s, id, n, events) && Step(s, symbol, id, n, events, remove).Some?
    ensures var r := Step(s, symbol, id, n, events, remove).value;
            (Covered(r.t, Top(r), |r.t.leftMost|) <==> 3 * s.faces + 3 <= |s.t.vertex|) &&
            (3 * s.faces + 3 > |s.t.vertex| ==> VertexOf(r.t, NextOf(Top(r))) == -1)
  {
    hide Step, TableBase, TableFull, SelfMerge;
    TopIsNew(s, symbol, id, n, events, remove);
    if 3 * s.faces + 3 <= |s.t.vertex| {
      StepKeeps(s, symbol, id, n, events, remove);
      ActiveCovered(Step(s, symbol, id, n, events, remove).value);
    } else {
      SizesOf(s);
    }
  }

  lemma StepCovered(s: State, symbol: nat, id: nat, n: nat, events: seq<Event>, remove: bool)
    requires Going(s) && 3 * s.faces + 3 <= |s.t.vertex| && CanStep(s, id, n, events) && Step(s, symbol, id, n, events, remove).Some?
    ensures var r := Step(s, symbol, id, n, events, remove).value; Covered(r.t, Top(r), |r.t.leftMost|)
  {
    hide Step, TableBase, Covered;
    InTableIsBase(s);
    CoveredExactly(s, symbol, id, n, events, remove);
  }

  lemma GoingReady(s: State)
    requires Going(s)
    ensures Ready(s)
  {
  }

  lemma SizesOf(s: State)
    requires Base(s)
    ensures |s.t.vertex| % 3 == 0 && 3 * s.faces <= |s.t.vertex|
  {
  }

  /** Over whole runs: the index stays in range as long as there are no more symbols than faces, and
      leaves it at the first accepted symbol beyond. */
  lemma IndexInRange(numFaces: nat, maxVertices: nat, track: bool, symbols: seq<nat>, events: seq<Event>, remove: bool, i: nat)
    requires i < |symbols| && i <= numFaces
    requires RunTo(Start(numFaces, maxVertices, track, |symbols|, |events|), symbols, events, remove, i + 1).Some?
    ensures var r := RunTo(Start(numFaces, maxVertices, track, |symbols|, |events|), symbols, events, remove, i + 1).value;
            r.active != [] && (Covered(r.t, Top(r), maxVertices) <==> i < numFaces)
  {
    hide Step, Base, TableBase, TableFull, Full, EmptyTable, Covered;
    var s0 := Start(numFaces, maxVertices, track, |symbols|, |events|);
    StartFull(numFaces, maxVertices, track, |symbols|, |events|);
    FullIsBase(s0);
    EmptySizes(numFaces, maxVertices, track);
    EmptyVertices(numFaces, maxVertices, track);
    RunKeeps(s0, symbols, events, remove, i);
    CoveredExactly(RunTo(s0, symbols, events, remove, i).value, symbols[i], i, |symbols|, events, remove);
  }

  /** One E and no face: the symbol is accepted, and the active corner has no vertex. */
  lemma OverrunExample(track: bool)
    ensures var r := RunTo(Start(0, 3, track, 1, 0), [TOPOLOGY_E], [], false, 1);
            r.Some? && r.value.active != [] && VertexOf(r.value.t, NextOf(Top(r.value))) == -1
  {
    var s0 := Start(0, 3, track, 1, 0);
    assert RunTo(s0, [TOPOLOGY_E], [], false, 0) == Some(s0);
    assert Step(s0, TOPOLOGY_E, 0, 1, [], false) == StepE(s0);
  }

  lemma EmptyVertices(numFaces: nat, maxVertices: nat, track: bool)
    ensures |EmptyTable(numFaces, maxVertices, track).leftMost| == maxVertices
    ensures EmptyTable(numFaces, maxVertices, track).tracked == track
  {
  }

  // ---- the vertices an S merges --------------------------------------------------------------------

  lemma MergePairIs(s: State, id: nat, remove: bool)
    requires Base(s) && id < |s.splits| && 3 * s.faces + 3 <= |s.t.vertex| && StepS(s, id, remove).Some?
    ensures s.active != [] && Resume(s, id) != []
    ensures var a, b := Resume(s, id)[|Resume(s, id)| - 1], Top(s);
            MergePair(s, id) == (VertexOf(s.t, PreviousOf(a)), VertexOf(s.t, NextOf(b)))
  {
    hide FaceS, MergeS, Matching;
    ResumedInRange(s, id);
    var a, b := Resume(s, id)[|Resume(s, id)| - 1], Top(s);
    FaceSForm(s.t, a, b, 3 * s.faces);
    RotateBelow(a, s.faces);
    RotateBelow(b, s.faces);
  }

  /** Destination and source of the merge, read off the table before the step. */
  method MergedVertices(table: CornerTable, holes: array<bool>, l: Locals, id: nat, ghost remove: bool) returns (p: int, q: int)
    requires Running(table, holes, l) && InTable(table, l) && id < |l.splits|
    ensures var s := StateOf(table, holes, l); StepS(s, id, remove).Some? ==> MergePair(s, id) == (p, q)
  {
    hide StepS, MergePair, Resume, TableBase, FaceS;
    ghost var s := StateOf(table, holes, l);
    InTableIsBase(s);
    p, q := -1, -1;
    if StepS(s, id, remove).Some? {
      MergePairIs(s, id, remove);
    }
    if l.active == [] {
      return;
    }
    var active := ResumeBoundary(l, id, s);
    if active == [] {
      return;
    }
    ResumedInRange(s, id);
    p := table.Vertex(PreviousOf(active[|active| - 1]));
    q := table.Vertex(NextOf(l.active[|l.active| - 1]));
  }

  // ---- one step with valences ------------------------------------------------------------------------

  lemma WalkStepIs(w: Walk, symbol: nat, id: nat, n: nat, events: seq<Event>, remove: bool)
    requires CanStep(w.s, id, n, events)
    ensures WalkStep(w, symbol, id, n, events, remove) ==
            match Step(w.s, symbol, id, n, events, remove)
            case None => None
            case Some(s) =>
              var merged := if symbol == TOPOLOGY_S then Merged(w.valences, MergePair(w.s, id).0, MergePair(w.s, id).1) else w.valences;
              Some(Walk(s, Reached(merged, s.t, symbol, Top(s))))
  {
    hide Step, MergePair, Merged, Reached;
  }

  lemma CoveredByMore(t: Table, corner: int, n: nat, m: nat)
    requires Covered(t, corner, n) && n <= m
    ensures Covered(t, corner, m)
  {
  }

  lemma StepIsS(s: State, id: nat, n: nat, events: seq<Event>, remove: bool)
    requires CanStep(s, id, n, events)
    ensures Step(s, TOPOLOGY_S, id, n, events, remove) == StepS(s, id, remove)
  {
    hide StepS;
  }

  lemma TopIs(s: State)
    requires s.active != []
    ensures Top(s) == s.active[|s.active| - 1]
  {
  }

  // ---- replaying ---------------------------------------------------------------------------------------

  ghost predicate Replaying(table: CornerTable, holes: array<bool>, d: ValenceTraversalDecoder)
    reads table, table.Repr(), holes, d
  {
    d.Valid() && d !in table.Repr() && d.vertexValences !in table.Repr() && d.vertexValences.Length == table.vertexCorners.Length
  }

  ghost predicate ReplayedTo(r: Option<Replay>, s: State, valences: seq<int>, counters: seq<int>, context: int, read: seq<nat>)
  {
    r == Some(Replay(Walk(s, valences), read, counters, context))
  }

  lemma ReplayGoesOn(w: Walk, stored: seq<seq<nat>>, n: nat, events: seq<Event>, remove: bool, i: nat, r: Replay)
    requires Ready(w.s) && |w.s.splits| == n && -1 <= w.s.splitIndex < |events| && |stored| == CONTEXTS && i < n
    requires ReplayTo(w, stored, n, events, remove, i) == Some(r)
    ensures ReplayOk(r, stored, n, events)
    ensures ReplayTo(w, stored, n, events, remove, i + 1) ==
            match TakeSymbol(stored, r.counters, r.context)
            case None => None
            case Some((symbol, counters)) =>
              match WalkStep(r.w, symbol, i, n, events, remove)
              case None => None
              case Some(w1) => Some(Replay(w1, r.read + [symbol], counters, NextContext(w1)))
  {
    hide WalkStep, TakeSymbol, NextContext;
  }

  lemma {:induction false} ReplayStops(w: Walk, stored: seq<seq<nat>>, n: nat, events: seq<Event>, remove: bool, i: nat, j: nat)
    requires Ready(w.s) && |w.s.splits| == n && -1 <= w.s.splitIndex < |events| && |stored| == CONTEXTS && i <= j <= n
    requires ReplayTo(w, stored, n, events, remove, i) == None
    ensures ReplayTo(w, stored, n, events, remove, j) == None
    decreases j
  {
    hide WalkStep, TakeSymbol, NextContext;
    if i < j {
      ReplayStops(w, stored, n, events, remove, i, j - 1);
    }
  }

  lemma ReplayBegins(w: Walk, stored: seq<seq<nat>>, n: nat, events: seq<Event>, remove: bool)
    requires Ready(w.s) && |w.s.splits| == n && -1 <= w.s.splitIndex < |events| && |stored| == CONTEXTS
    ensures ReplayTo(w, stored, n, events, remove, 0) == Some(ReplayStart(w, stored))
  {
  }

  /** One symbol: taken from the lists, decoded on the arrays, counted. */
  method ReplaySymbol(table: CornerTable, holes: array<bool>, d: ValenceTraversalDecoder, l: Locals, id: nat, n: nat,
      events: seq<Event>, remove: bool, ghost r0: Replay) returns (ok: bool, r: Locals, symbol: nat)
    requires Running(table, holes, l) && Replaying(table, holes, d) && InTable(table, l)
    requires |l.splits| == n && -1 <= l.splitIndex < |events| && id < n && holes !in table.Repr()
    requires r0.w == Walk(StateOf(table, holes, l), d.vertexValences[..]) && r0.counters == d.contextCounters && r0.context == d.activeContext
    requires ReplayOk(r0, d.contextSymbols, n, events) && (d.vertexValences as object) != holes
    modifies table.Repr(), holes, d, d.vertexValences
    ensures var taken := TakeSymbol(d.contextSymbols, r0.counters, r0.context);
            ok == (taken.Some? && WalkStep(r0.w, taken.value.0, id, n, events, remove).Some?) &&
            (ok ==> symbol == taken.value.0 && d.contextCounters == taken.value.1 &&
                    Some(Walk(StateOf(table, holes, r), d.vertexValences[..])) == WalkStep(r0.w, symbol, id, n, events, remove))
    ensures ok ==> Running(table, holes, r) && d.Valid() && r.active != [] &&
                   d.activeContext == NextContext(Walk(StateOf(table, holes, r), d.vertexValences[..]))
  {
    hide Step, StepS, MergePair, Reached, Merged, WalkStep, TakeSymbol, ContextOf, Base, TableBase, VertexOf, Covered;
    ghost var s := StateOf(table, holes, l);
    r := l;
    ok, symbol := d.DecodeSymbol();
    if !ok {
      return;
    }
    WalkStepIs(r0.w, symbol, id, n, events, remove);
    var p, q := -1, -1;
    if symbol == TOPOLOGY_S {
      StepIsS(s, id, n, events, remove);
      p, q := MergedVertices(table, holes, l, id, remove);
    }
    ok, r := DecodeSymbol(table, holes, l, symbol, id, n, events, remove);
    if !ok {
      return;
    }
    if symbol == TOPOLOGY_S {
      d.MergeVertices(p, q);
    }
    ghost var s1 := StateOf(table, holes, r);
    StepCovered(s, symbol, id, n, events, remove);
    TopIs(s1);
    d.NewActiveCornerReached(table, r.active[|r.active| - 1]);
  }

  /** One symbol when the table is full: if it is accepted, the valence update indexes out of range. */
  method OverrunSymbol(table: CornerTable, holes: array<bool>, d: ValenceTraversalDecoder, l: Locals, id: nat, n: nat,
      events: seq<Event>, remove: bool, ghost r0: Replay) returns (crashed: bool)
    requires Running(table, holes, l) && Replaying(table, holes, d) && 3 * l.faces == table.cornerVertex.Length
    requires |l.splits| == n && -1 <= l.splitIndex < |events| && id < n && holes !in table.Repr()
    requires r0.w == Walk(StateOf(table, holes, l), d.vertexValences[..]) && r0.counters == d.contextCounters && r0.context == d.activeContext
    requires ReplayOk(r0, d.contextSymbols, n, events) && (d.vertexValences as object) != holes
    modifies table.Repr(), holes, d, d.vertexValences
    ensures var taken := TakeSymbol(d.contextSymbols, r0.counters, r0.context);
            crashed == (taken.Some? && WalkStep(r0.w, taken.value.0, id, n, events, remove).Some?)
    ensures crashed ==> table.Vertex(NextOf(3 * l.faces)) == -1
  {
    hide Step, MergePair, Reached, Merged, WalkStep, TakeSymbol, ContextOf, TableBase, VertexOf;
    var symbol;
    crashed, symbol := d.DecodeSymbol();
    if crashed {
      WalkStepIs(r0.w, symbol, id, n, events, remove);
      var r;
      crashed, r := DecodeSymbol(table, holes, l, symbol, id, n, events, remove);
      PastEnd(table.Value(), NextOf(3 * l.faces));
    }
  }

  lemma PastEnd(t: Table, c: int)
    requires c >= |t.vertex|
    ensures VertexOf(t, c) == -1
  {
  }

  /** The symbol loop of the decoder.  With no more symbols than faces it fails exactly when the replay
      does, and otherwise the arrays, the counts and what is left of the lists are the replay's.  With
      more it never succeeds, and it leaves the range of the valences exactly when the replay accepts
      one symbol more than there are faces. */
  method ReplaySymbols(table: CornerTable, holes: array<bool>, d: ValenceTraversalDecoder, n: nat,
      events: seq<Event>, remove: bool, numFaces: nat, maxVertices: nat) returns (ok: bool, crashed: bool, l: Locals, read: seq<nat>)
    requires Fresh(table, holes, numFaces, maxVertices) && Replaying(table, holes, d)
    requires (d.vertexValences as object) != holes && d.vertexValences[..] == seq(maxVertices, _ => 0) && d.activeContext == -1
    requires d.contextCounters == seq(CONTEXTS, k requires 0 <= k < CONTEXTS => |d.contextSymbols[k]|)
    modifies table.Repr(), holes, d, d.vertexValences
    ensures var w0 := StartWalk(numFaces, maxVertices, table.trackVertexCorners, n, |events|);
            var run := ReplayTo(w0, d.contextSymbols, n, events, remove, n);
            ok == (n <= numFaces && run.Some?) &&
            (ok ==> ReplayedTo(run, StateOf(table, holes, l), d.vertexValences[..], d.contextCounters, d.activeContext, read) &&
                    Running(table, holes, l))
    ensures var w0 := StartWalk(numFaces, maxVertices, table.trackVertexCorners, n, |events|);
            crashed <==> n > numFaces && ReplayTo(w0, d.contextSymbols, n, events, remove, numFaces + 1).Some?
  {
    hide WalkStep, TakeSymbol, NextContext, Base, TableBase, TableFull, EmptyTable, Full, ReplayTo;
    ghost var w0 := StartWalk(numFaces, maxVertices, table.trackVertexCorners, n, |events|);
    StartFull(numFaces, maxVertices, table.trackVertexCorners, n, |events|);
    FullIsBase(w0.s);
    EmptySizes(numFaces, maxVertices, table.trackVertexCorners);
    l := Locals([], seq(n, _ => None), |events| - 1, 0, []);
    read, crashed := [], false;
    assert StateOf(table, holes, l) == w0.s;
    ReplayBegins(w0, d.contextSymbols, n, events, remove);
    for i := 0 to n
      invariant Running(table, holes, l) && Replaying(table, holes, d) && l.faces == i <= numFaces
      invariant 3 * numFaces == table.cornerVertex.Length && |l.splits| == n && -1 <= l.splitIndex < |events|
      invariant ReplayedTo(ReplayTo(w0, d.contextSymbols, n, events, remove, i),
                  StateOf(table, holes, l), d.vertexValences[..], d.contextCounters, d.activeContext, read)
    {
      ghost var r0 := Replay(Walk(StateOf(table, holes, l), d.vertexValences[..]), read, d.contextCounters, d.activeContext);
      ReplayGoesOn(w0, d.contextSymbols, n, events, remove, i, r0);
      if i == numFaces {
        crashed := OverrunSymbol(table, holes, d, l, i, n, events, remove, r0);
        return false, crashed, l, read;
      }
      var symbol;
      ok, l, symbol := ReplaySymbol(table, holes, d, l, i, n, events, remove, r0);
      if !ok {
        ReplayStops(w0, d.contextSymbols, n, events, remove, i + 1, n);
        if n > numFaces {
          ReplayStops(w0, d.contextSymbols, n, events, remove, i + 1, numFaces + 1);
        }
        return;
      }
      read := read + [symbol];
      InTableIsBase(r0.w.s);
      StepCounts(r0.w, symbol, i, n, events, remove);
    }
    ok := true;
  }

  lemma StepCounts(w: Walk, symbol: nat, id: nat, n: nat, events: seq<Event>, remove: bool)
    requires CanStep(w.s, id, n, events) && Base(w.s) && 3 * w.s.faces + 3 <= |w.s.t.vertex| && WalkStep(w, symbol, id, n, events, remove).Some?
    ensures var r := WalkStep(w, symbol, id, n, events, remove).value;
            r.s.faces == w.s.faces + 1 && |r.s.splits| == n && -1 <= r.s.splitIndex < |events|
  {
    hide Step, MergePair, Reached, Merged;
    StepKeeps(w.s, symbol, id, n, events, remove);
  }

  // ---- recording -----------------------------------------------------------------------------------------

  ghost predicate Recording(table: CornerTable, holes: array<bool>, d: ValenceContextRecorder)
    reads table, table.Repr(), holes, d
  {
    d.Valid() && d !in table.Repr() && d.vertexValences !in table.Repr() && d.vertexValences.Length == table.vertexCorners.Length
  }

  lemma RecordGoesOn(w: Walk, symbols: seq<nat>, events: seq<Event>, remove: bool, i: nat, w1: Walk, lists: seq<seq<nat>>)
    requires Ready(w.s) && |w.s.splits| == |symbols| && -1 <= w.s.splitIndex < |events| && i < |symbols|
    requires RecordTo(w, symbols, events, remove, i) == Some((w1, lists))
    ensures CanStep(w1.s, i, |symbols|, events) && |lists| == CONTEXTS
    ensures RecordTo(w, symbols, events, remove, i + 1) ==
            match WalkStep(w1, symbols[i], i, |symbols|, events, remove)
            case None => None
            case Some(w2) => Some((w2, if i + 1 < |symbols| then File(lists, NextContext(w2), symbols[i + 1]) else lists))
  {
    hide WalkStep, File, NextContext;
  }

  lemma {:induction false} RecordStops(w: Walk, symbols: seq<nat>, events: seq<Event>, remove: bool, i: nat, j: nat)
    requires Ready(w.s) && |w.s.splits| == |symbols| && -1 <= w.s.splitIndex < |events| && i <= j <= |symbols|
    requires RecordTo(w, symbols, events, remove, i) == None
    ensures RecordTo(w, symbols, events, remove, j) == None
    decreases j
  {
    hide WalkStep, File, NextContext;
    if i < j {
      RecordStops(w, symbols, events, remove, i, j - 1);
    }
  }

  lemma RecordBegins(w: Walk, symbols: seq<nat>, events: seq<Event>, remove: bool)
    requires Ready(w.s) && |w.s.splits| == |symbols| && -1 <= w.s.splitIndex < |events|
    ensures RecordTo(w, symbols, events, remove, 0).Some? && RecordTo(w, symbols, events, remove, 0).value.0 == w
    ensures NoneFiled(RecordTo(w, symbols, events, remove, 0).value.1)
  {
  }

  ghost predicate NoneFiled(lists: seq<seq<nat>>)
  {
    |lists| == CONTEXTS && forall k :: 0 <= k < CONTEXTS ==> lists[k] == []
  }

  /** The next symbol, if there is one, has been filed under the context reached. */
  ghost predicate Filed(before: seq<seq<nat>>, after: seq<seq<nat>>, w: Walk, symbols: seq<nat>, i: nat)
  {
    |before| == CONTEXTS && w.s.active != [] &&
    after == if i < |symbols| then File(before, NextContext(w), symbols[i]) else before
  }

  method RecordSymbol(table: CornerTable, holes: array<bool>, d: ValenceContextRecorder, l: Locals, id: nat, n: nat,
      events: seq<Event>, remove: bool, ghost w0: Walk) returns (ok: bool, r: Locals)
    requires Running(table, holes, l) && Recording(table, holes, d) && InTable(table, l)
    requires |l.splits| == n && -1 <= l.splitIndex < |events| && id < n && holes !in table.Repr()
    requires w0 == Walk(StateOf(table, holes, l), d.vertexValences[..]) && d.symbolPos == id && |d.decodedSymbols| == n
    requires (d.vertexValences as object) != holes
    modifies table.Repr(), holes, d, d.vertexValences
    ensures var step := WalkStep(w0, d.decodedSymbols[id], id, n, events, remove);
            ok == step.Some? && (ok ==> Some(Walk(StateOf(table, holes, r), d.vertexValences[..])) == step)
    ensures ok ==> Running(table, holes, r) && d.Valid() && r.active != [] && d.symbolPos == id + 1
    ensures ok ==> Filed(old(d.contextSymbols), d.contextSymbols, Walk(StateOf(table, holes, r), d.vertexValences[..]), d.decodedSymbols, id + 1)
  {
    hide Step, StepS, MergePair, Reached, Merged, WalkStep, ContextOf, Base, TableBase, File, VertexOf, Covered;
    ghost var s := StateOf(table, holes, l);
    GoingReady(s);
    r := l;
    var symbol;
    ok, symbol := d.DecodeSymbol();
    WalkStepIs(w0, symbol, id, n, events, remove);
    var p, q := -1, -1;
    if symbol == TOPOLOGY_S {
      StepIsS(s, id, n, events, remove);
      p, q := MergedVertices(table, holes, l, id, remove);
    }
    ok, r := DecodeSymbol(table, holes, l, symbol, id, n, events, remove);
    if !ok {
      return;
    }
    if symbol == TOPOLOGY_S {
      d.MergeVertices(p, q);
    }
    ghost var s1 := StateOf(table, holes, r);
    StepCovered(s, symbol, id, n, events, remove);
    TopIs(s1);
    d.NewActiveCornerReached(table, r.active[|r.active| - 1]);
  }

  /** The symbol loop of the recorder: the lists it files are those of the recording walk. */
  method RecordSymbols(table: CornerTable, holes: array<bool>, d: ValenceContextRecorder,
      events: seq<Event>, remove: bool, numFaces: nat, maxVertices: nat) returns (ok: bool, l: Locals)
    requires Fresh(table, holes, numFaces, maxVertices) && Recording(table, holes, d) && |d.decodedSymbols| <= numFaces
    requires (d.vertexValences as object) != holes && d.vertexValences[..] == seq(maxVertices, _ => 0) && d.symbolPos == 0
    requires NoneFiled(d.contextSymbols)
    modifies table.Repr(), holes, d, d.vertexValences
    ensures var w0 := StartWalk(numFaces, maxVertices, table.trackVertexCorners, |d.decodedSymbols|, |events|);
            var run := RecordTo(w0, d.decodedSymbols, events, remove, |d.decodedSymbols|);
            ok == run.Some? &&
            (ok ==> run.value == (Walk(StateOf(table, holes, l), d.vertexValences[..]), d.contextSymbols) && d.Valid())
  {
    hide WalkStep, NextContext, TableBase, TableFull, EmptyTable, Full, RecordTo, File;
    var n := |d.decodedSymbols|;
    ghost var w0 := StartWalk(numFaces, maxVertices, table.trackVertexCorners, n, |events|);
    StartFull(numFaces, maxVertices, table.trackVertexCorners, n, |events|);
    FullIsBase(w0.s);
    EmptySizes(numFaces, maxVertices, table.trackVertexCorners);
    l := Locals([], seq(n, _ => None), |events| - 1, 0, []);
    assert StateOf(table, holes, l) == w0.s;
    RecordBegins(w0, d.decodedSymbols, events, remove);
    assert d.contextSymbols == RecordTo(w0, d.decodedSymbols, events, remove, 0).value.1;
    for i := 0 to n
      invariant Running(table, holes, l) && Recording(table, holes, d) && l.faces == i && d.symbolPos == i
      invariant 3 * numFaces == table.cornerVertex.Length && |l.splits| == n && -1 <= l.splitIndex < |events|
      invariant RecordTo(w0, d.decodedSymbols, events, remove, i) ==
                Some((Walk(StateOf(table, holes, l), d.vertexValences[..]), d.contextSymbols))
    {
      ghost var w := Walk(StateOf(table, holes, l), d.vertexValences[..]);
      RecordGoesOn(w0, d.decodedSymbols, events, remove, i, w, d.contextSymbols);
      ok, l := RecordSymbol(table, holes, d, l, i, n, events, remove, w);
      if !ok {
        RecordStops(w0, d.decodedSymbols, events, remove, i + 1, n);
        return;
      }
      InTableIsBase(w.s);
      StepCounts(w, d.decodedSymbols[i], i, n, events, remove);
    }
    ok := true;
  }

  /** buildValenceContextSymbols: the lists that a plain table's recording leaves, reversed. */
  method Record(symbols: seq<nat>, events: seq<Event>, remove: bool, numFaces: nat, maxVertices: nat) returns (ok: bool, stored: seq<seq<nat>>)
    requires |symbols| <= numFaces
    ensures var run := RecordTo(StartWalk(numFaces, maxVertices, false, |symbols|, |events|), symbols, events, remove, |symbols|);
            ok == run.Some? && (ok ==> stored == Stored(run.value.1))
  {
    hide RecordTo, EmptyTable, TableBase, TableFull, Stored, StartWalk;
    EmptyVertices(numFaces, maxVertices, false);
    var plain := new CornerTable(numFaces, maxVertices, false);
    var holes := new bool[maxVertices](_ => true);
    var recorder := new ValenceContextRecorder(symbols, maxVertices);
    var l;
    ok, l := RecordSymbols(plain, holes, recorder, events, remove, numFaces, maxVertices);
    stored := [];
    if ok {
      stored := recorder.Finish();
    }
  }

  method ReplayStored(stored: seq<seq<nat>>, n: nat, events: seq<Event>, remove: bool, numFaces: nat, maxVertices: nat)
    returns (ok: bool, read: seq<nat>)
    requires n <= numFaces && |stored| == CONTEXTS
    ensures var run := ReplayTo(StartWalk(numFaces, maxVertices, true, n, |events|), stored, n, events, remove, n);
            ok == run.Some? && (ok ==> read == run.value.read)
  {
    hide ReplayTo, EmptyTable, TableBase, TableFull, StartWalk;
    EmptyVertices(numFaces, maxVertices, true);
    var tracked := new CornerTable(numFaces, maxVertices, true);
    var holes := new bool[maxVertices](_ => true);
    var decoder := new ValenceTraversalDecoder(stored, maxVertices);
    var l;
    var crashed;
    ok, crashed, l, read := ReplaySymbols(tracked, holes, decoder, n, events, remove, numFaces, maxVertices);
  }

  /** Recording on a plain table and replaying what was recorded on a tracked one: the symbols come
      back. */
  method RecordAndReplay(symbols: seq<nat>, events: seq<Event>, remove: bool, numFaces: nat, maxVertices: nat) returns (ok: bool, read: seq<nat>)
    requires 0 < |symbols| <= numFaces && symbols[0] == TOPOLOGY_E && forall j :: 0 <= j < |symbols| ==> SymbolId(symbols[j]).Some?
    requires NoSelfMerge(Start(numFaces, maxVertices, true, |symbols|, |events|), symbols, events, remove, |symbols|)
    ensures ok == RecordTo(StartWalk(numFaces, maxVertices, false, |symbols|, |events|), symbols, events, remove, |symbols|).Some?
    ensures ok ==> read == symbols
  {
    hide RecordTo, ReplayTo, NoSelfMerge, Stored, Start;
    var stored;
    ok, stored := Record(symbols, events, remove, numFaces, maxVertices);
    read := [];
    if ok {
      Tracking.RecordThenReplay(numFaces, maxVertices, symbols, events, remove, seq(maxVertices, _ => 0));
      var done;
      done, read := ReplayStored(stored, |symbols|, events, remove, numFaces, maxVertices);
    }
  }
}
