/** What the valences of the valence scheme count (edgebreaker_decode.go, edgebreaker_encode.go): the
    edges at a vertex, which are one for each of its corners and one more for each open fan. */
module ValenceCounts {
  import opened Bits
  import opened Corners
  import opened CornerTables
  import opened Connectivity
  import opened SymbolEffects
  import opened Boundaries
  import opened Valence

  /** Edges at a vertex: every corner has an edge on its right, and an open fan one more on its left. */
  function Degree(t: Table, v: int): nat
    requires Shape(t)
  {
    TallyOf(t, v).corners + TallyOf(t, v).left
  }

  /** The valence of every vertex that owns a corner is its number of edges; new ones start at zero. */
  ghost predicate Counted(w: Walk)
  {
    Shape(w.s.t) && |w.valences| == |w.s.t.leftMost| &&
    (forall v: nat :: v < w.s.t.numVertices && v in w.s.t.vertex ==> w.valences[v] == Degree(w.s.t, v)) &&
    forall v :: w.s.t.numVertices <= v < |w.valences| ==> w.valences[v] == 0
  }

  lemma BumpAt(valences: seq<int>, u: int, k: int, v: nat)
    requires 0 <= u < |valences| && v < |valences|
    ensures Bump(valences, u, k)[v] == valences[v] + if u == v then k else 0
  {
  }

  /** Three bumps around a face. */
  lemma Bumps(valences: seq<int>, x: int, i: int, y: int, j: int, z: int, k: int, v: nat)
    requires 0 <= x < |valences| && 0 <= y < |valences| && 0 <= z < |valences| && v < |valences|
    ensures Bump(Bump(Bump(valences, x, i), y, j), z, k)[v] ==
            valences[v] + (if x == v then i else 0) + (if y == v then j else 0) + if z == v then k else 0
  {
  }

  /** Bumps by nothing are left out. */
  lemma TwoBumps(valences: seq<int>, y: int, j: int, z: int, k: int, v: nat)
    requires 0 <= y < |valences| && 0 <= z < |valences| && v < |valences|
    ensures Bump(Bump(valences, y, j), z, k)[v] == valences[v] + (if y == v then j else 0) + if z == v then k else 0
  {
  }

  /** A new vertex has nothing yet. */
  lemma Uncounted(w: Walk, k: nat, v: nat)
    requires Counted(w) && TableBase(w.s.t, k) && v < |w.valences| && (v in w.s.t.vertex || v >= w.s.t.numVertices)
    ensures w.valences[v] == Degree(w.s.t, v)
  {
    hide TallyOf;
    if v !in w.s.t.vertex {
      NoTally(w.s.t, v);
    } else {
      BaseLabels(w.s.t, k);
    }
  }

  lemma SideCounted(w: Walk, right: bool)
    requires Base(w.s) && Counted(w) && 3 * w.s.faces + 3 <= |w.s.t.vertex| && StepSide(w.s, right).Some?
    ensures var r := StepSide(w.s, right).value;
            Counted(Walk(r, Reached(w.valences, r.t, if right then TOPOLOGY_R else TOPOLOGY_L, Top(r))))
  {
    hide FaceSide, Matching, TallyOf, Bump;
    var s := w.s;
    var a, c, symbol := Top(s), 3 * s.faces, if right then TOPOLOGY_R else TOPOLOGY_L;
    FaceSizes(s.t, a, a, c);
    FaceSideForm(s.t, a, c, right);
    FaceTurns(c);
    var r := StepSide(s, right).value;
    var (x, y, z) := SideLabels(s.t, a, c, right);
    assert Top(r) == c && r.t.vertex[c] == x && r.t.vertex[c + 1] == y && r.t.vertex[c + 2] == z;
    forall v: nat | v < |w.valences|
      ensures Reached(w.valences, r.t, symbol, c)[v] ==
              w.valences[v] + One(s.t.vertex[Next(a)], v) + One(s.t.vertex[Previous(a)], v) + 2 * One(s.t.numVertices, v)
    {
      Bumps(w.valences, x, 1, y, if right then 1 else 2, z, if right then 2 else 1, v);
    }
    forall v: nat | v < r.t.numVertices && v in r.t.vertex
      ensures Reached(w.valences, r.t, symbol, c)[v] == Degree(r.t, v)
    {
      SideTally(s.t, a, c, right, v);
      Uncounted(w, c, v);
    }
  }

  lemma TriangleCounted(w: Walk)
    requires Base(w.s) && Counted(w) && 3 * w.s.faces + 3 <= |w.s.t.vertex| && StepE(w.s).Some?
    ensures var r := StepE(w.s).value; Counted(Walk(r, Reached(w.valences, r.t, TOPOLOGY_E, Top(r))))
  {
    hide FaceE, Matching, TallyOf, Bump;
    var s, c := w.s, 3 * w.s.faces;
    FaceEForm(s.t, c);
    FaceTurns(c);
    var r, n := StepE(s).value, s.t.numVertices;
    assert Top(r) == c && r.t.vertex[c] == n && r.t.vertex[c + 1] == n + 1 && r.t.vertex[c + 2] == n + 2;
    forall v: nat | v < |w.valences|
      ensures Reached(w.valences, r.t, TOPOLOGY_E, c)[v] == w.valences[v] + 2 * (One(n, v) + One(n + 1, v) + One(n + 2, v))
    {
      Bumps(w.valences, n, 2, n + 1, 2, n + 2, 2, v);
    }
    forall v: nat | v < r.t.numVertices && v in r.t.vertex
      ensures Reached(w.valences, r.t, TOPOLOGY_E, c)[v] == Degree(r.t, v)
    {
      TriangleTally(s.t, c, v);
      Uncounted(w, c, v);
    }
  }

  lemma CloseCounted(w: Walk)
    requires Full(w.s) && Counted(w) && 3 * w.s.faces + 3 <= |w.s.t.vertex| && StepC(w.s).Some?
    ensures var r := StepC(w.s).value; Counted(Walk(r, Reached(w.valences, r.t, TOPOLOGY_C, Top(r))))
  {
    hide FaceC, Matching, TallyOf, Bump, EdgesAgree, Indexed;
    var s, c, a := w.s, 3 * w.s.faces, Top(w.s);
    FaceSizes(s.t, a, a, c);
    var x := s.t.vertex[Next(a)];
    assert Home(s.t, x);
    var b := Next(s.t.leftMost[x]);
    FaceSizes(s.t, s.t.leftMost[x], s.t.leftMost[x], c);
    Rotate(s.t.leftMost[x]);
    FaceSizes(s.t, b, b, c);
    FaceCForm(s.t, a, b, c, x);
    FaceTurns(c);
    var r, q, p := StepC(s).value, s.t.vertex[Next(b)], s.t.vertex[Previous(a)];
    assert Top(r) == c && r.t.vertex[c + 1] == q && r.t.vertex[c + 2] == p;
    forall v: nat | v < |w.valences|
      ensures Reached(w.valences, r.t, TOPOLOGY_C, c)[v] == w.valences[v] + One(q, v) + One(p, v)
    {
      TwoBumps(w.valences, q, 1, p, 1, v);
    }
    forall v: nat | v < r.t.numVertices && v in r.t.vertex
      ensures Reached(w.valences, r.t, TOPOLOGY_C, c)[v] == Degree(r.t, v)
    {
      CloseTally(s.t, a, b, c, x, v);
      Uncounted(w, c, v);
    }
  }

  lemma JoinCounted(w: Walk, id: nat, remove: bool)
    requires Full(w.s) && Counted(w) && 3 * w.s.faces + 3 <= |w.s.t.vertex| && id < |w.s.splits| && StepS(w.s, id, remove).Some?
    requires !SelfMerge(w.s, TOPOLOGY_S, id)
    ensures var r, (p, q) := StepS(w.s, id, remove).value, MergePair(w.s, id);
            Counted(Walk(r, Reached(Merged(w.valences, p, q), r.t, TOPOLOGY_S, Top(r))))
  {
    hide FaceS, MergeS, Matching, TallyOf, Bump, EdgesAgree, Indexed, Homes;
    var s, c, b, joined := w.s, 3 * w.s.faces, Top(w.s), Resume(w.s, id);
    var a := joined[|joined| - 1];
    FaceSizes(s.t, a, b, c);
    FaceSizes(s.t, b, a, c);
    JoinedFace(s.t, a, b, c);
    FaceSForm(s.t, a, b, c);
    FaceTurns(c);
    var r, kept, gone := StepS(s, id, remove).value, s.t.vertex[Previous(a)], s.t.vertex[Next(b)];
    var l, q, u := s.t.vertex[Next(a)], s.t.vertex[Previous(b)], FaceS(s.t, a, b, c);
    var merged := Merged(w.valences, kept, gone);
    assert Top(r) == c && r.t.vertex[c + 1] == Merge(l, gone, kept) && r.t.vertex[c + 2] == Merge(q, gone, kept);
    forall v: nat | v < |w.valences|
      ensures Reached(merged, r.t, TOPOLOGY_S, c)[v] == merged[v] + One(Merge(l, gone, kept), v) + One(Merge(q, gone, kept), v)
    {
      TwoBumps(merged, Merge(l, gone, kept), 1, Merge(q, gone, kept), 1, v);
    }
    forall v: nat | v < r.t.numVertices && v in r.t.vertex
      ensures Reached(merged, r.t, TOPOLOGY_S, c)[v] == Degree(r.t, v)
    {
      JoinTally(s.t, a, b, c, v);
      JoinTally(s.t, a, b, c, gone);
      MergeTally(u, r.t, gone, kept, v);
      Uncounted(w, c, kept);
      Uncounted(w, c, gone);
      Uncounted(w, c, v);
    }
  }

  /** Every symbol keeps the count, unless it merges a vertex with itself. */
  lemma StepCounted(w: Walk, symbol: nat, id: nat, n: nat, events: seq<Event>, remove: bool)
    requires InTable(w.s, id, n, events) && Full(w.s) && Counted(w) && !SelfMerge(w.s, symbol, id)
    requires WalkStep(w, symbol, id, n, events, remove).Some?
    ensures Counted(WalkStep(w, symbol, id, n, events, remove).value)
  {
    hide StepC, StepS, StepSide, StepE, TakeSplits, TableBase, TableFull, Counted, Reached, Merged, MergePair, SelfMerge;
    if symbol == TOPOLOGY_C {
      CloseCounted(w);
    } else if symbol == TOPOLOGY_S {
      JoinCounted(w, id, remove);
    } else if symbol == TOPOLOGY_E {
      TriangleCounted(w);
      SameTable(Walk(StepE(w.s).value, Reached(w.valences, StepE(w.s).value.t, symbol, Top(StepE(w.s).value))),
                WalkStep(w, symbol, id, n, events, remove).value);
    } else {
      var r := StepSide(w.s, symbol == TOPOLOGY_R).value;
      SideCounted(w, symbol == TOPOLOGY_R);
      SameTable(Walk(r, Reached(w.valences, r.t, symbol, Top(r))), WalkStep(w, symbol, id, n, events, remove).value);
    }
  }

  lemma SameTable(w: Walk, w1: Walk)
    requires Counted(w) && w1.s.t == w.s.t && w1.valences == w.valences
    ensures Counted(w1)
  {
  }

  // ---- contexts and runs -------------------------------------------------------------------------------

  /** A context: the number of edges kept within 2 and 7, less 2. */
  function ContextFor(degree: nat): nat
  {
    (if degree < 2 then 2 else if degree > 7 then 7 else degree) - 2
  }

  /** The next symbol is filed under the edges at the vertex that the gate's edge comes from. */
  lemma ContextCounts(w: Walk)
    requires Base(w.s) && w.s.active != [] && Counted(w)
    ensures 0 <= From(w.s.t, Top(w.s)) && NextContext(w) == ContextFor(Degree(w.s.t, From(w.s.t, Top(w.s))))
  {
    hide Matching, TallyOf;
    RotateBelow(Top(w.s), w.s.faces);
    var v := w.s.t.vertex[Next(Top(w.s))];
    assert v in w.s.t.vertex;
  }

  lemma StartCounted(numFaces: nat, maxVertices: nat, track: bool, n: nat, numEvents: nat)
    ensures Counted(Walk(Start(numFaces, maxVertices, track, n, numEvents), seq(maxVertices, _ => 0)))
  {
    EmptyTableOk(numFaces, maxVertices, track);
  }

  /** One symbol of a recording or a replay. */
  lemma WalkCounted(w: Walk, symbol: nat, id: nat, n: nat, events: seq<Event>, remove: bool)
    requires InTable(w.s, id, n, events) && Full(w.s) && Counted(w) && !SelfMerge(w.s, symbol, id)
    requires WalkStep(w, symbol, id, n, events, remove).Some?
    ensures Step(w.s, symbol, id, n, events, remove).Some?
    ensures var r := WalkStep(w, symbol, id, n, events, remove).value;
            Full(r.s) && r.s.faces == w.s.faces + 1 && |r.s.t.vertex| == |w.s.t.vertex| && Counted(r) &&
            NextContext(r) == ContextFor(Degree(r.s.t, From(r.s.t, Top(r.s))))
  {
    hide Step, TableBase, TableFull, SelfMerge, Counted, Reached, Merged, MergePair, NextContext, Degree;
    StepKeeps(w.s, symbol, id, n, events, remove);
    StepCounted(w, symbol, id, n, events, remove);
    ContextCounts(WalkStep(w, symbol, id, n, events, remove).value);
  }

  /** All through a recording the valences count edges, as long as no vertex is merged with itself. */
  lemma {:induction false} RecordCounted(w: Walk, symbols: seq<nat>, events: seq<Event>, remove: bool, i: nat)
    requires |w.s.splits| == |symbols| && -1 <= w.s.splitIndex < |events| && i <= |symbols|
    requires Full(w.s) && Counted(w) && w.s.faces == 0 && 3 * i <= |w.s.t.vertex| && NoSelfMerge(w.s, symbols, events, remove, i)
    requires RecordTo(w, symbols, events, remove, i).Some?
    ensures var r := RecordTo(w, symbols, events, remove, i).value.0;
            RunTo(w.s, symbols, events, remove, i) == Some(r.s) && Full(r.s) && r.s.faces == i && |r.s.t.vertex| == |w.s.t.vertex| && Counted(r)
    ensures i > 0 ==>
              var r := RecordTo(w, symbols, events, remove, i).value.0;
              NextContext(r) == ContextFor(Degree(r.s.t, From(r.s.t, Top(r.s))))
    decreases i
  {
    hide TableBase, TableFull, SelfMerge, Counted, WalkStep, Step, NextContext, Degree, File, RecordTo, RunTo, NoSelfMerge;
    if i > 0 {
      RecordNext(w, symbols, events, remove, i);
      ApartBefore(w.s, symbols, events, remove, i);
      RecordCounted(w, symbols, events, remove, i - 1);
      var before := RecordTo(w, symbols, events, remove, i - 1).value.0;
      WalkCounted(before, symbols[i - 1], i - 1, |symbols|, events, remove);
      WalksAStep(before, symbols[i - 1], i - 1, |symbols|, events, remove);
      RunNext(w.s, symbols, events, remove, i);
    } else {
      RecordNone(w, symbols, events, remove);
    }
  }

  lemma RecordNone(w: Walk, symbols: seq<nat>, events: seq<Event>, remove: bool)
    requires Ready(w.s) && |w.s.splits| == |symbols| && -1 <= w.s.splitIndex < |events|
    ensures RecordTo(w, symbols, events, remove, 0).value.0 == w && RunTo(w.s, symbols, events, remove, 0) == Some(w.s)
  {
  }

  lemma RecordNext(w: Walk, symbols: seq<nat>, events: seq<Event>, remove: bool, i: nat)
    requires Ready(w.s) && |w.s.splits| == |symbols| && -1 <= w.s.splitIndex < |events| && 1 <= i <= |symbols|
    requires RecordTo(w, symbols, events, remove, i).Some?
    ensures RecordTo(w, symbols, events, remove, i - 1).Some?
    ensures WalkStep(RecordTo(w, symbols, events, remove, i - 1).value.0, symbols[i - 1], i - 1, |symbols|, events, remove)
            == Some(RecordTo(w, symbols, events, remove, i).value.0)
  {
    hide WalkStep, File, NextContext;
  }

  lemma RunNext(s: State, symbols: seq<nat>, events: seq<Event>, remove: bool, i: nat)
    requires Ready(s) && |s.splits| == |symbols| && -1 <= s.splitIndex < |events| && 1 <= i <= |symbols|
    requires RunTo(s, symbols, events, remove, i - 1).Some?
    ensures RunTo(s, symbols, events, remove, i) ==
            Step(RunTo(s, symbols, events, remove, i - 1).value, symbols[i - 1], i - 1, |symbols|, events, remove)
  {
    hide Step;
  }

  lemma ApartBefore(s: State, symbols: seq<nat>, events: seq<Event>, remove: bool, i: nat)
    requires Ready(s) && |s.splits| == |symbols| && -1 <= s.splitIndex < |events| && 1 <= i <= |symbols|
    requires NoSelfMerge(s, symbols, events, remove, i)
    ensures NoSelfMerge(s, symbols, events, remove, i - 1)
    ensures RunTo(s, symbols, events, remove, i - 1).Some? ==> !SelfMerge(RunTo(s, symbols, events, remove, i - 1).value, symbols[i - 1], i - 1)
  {
    hide RunTo, SelfMerge;
  }

  lemma WalksAStep(w: Walk, symbol: nat, id: nat, n: nat, events: seq<Event>, remove: bool)
    requires CanStep(w.s, id, n, events) && WalkStep(w, symbol, id, n, events, remove).Some?
    ensures Step(w.s, symbol, id, n, events, remove) == Some(WalkStep(w, symbol, id, n, events, remove).value.s)
  {
  }

  /** No symbol that a replay reads merges a vertex with itself. */
  ghost predicate ReplaysApart(w: Walk, stored: seq<seq<nat>>, n: nat, events: seq<Event>, remove: bool, i: nat)
    requires Ready(w.s) && |w.s.splits| == n && -1 <= w.s.splitIndex < |events| && |stored| == CONTEXTS && i <= n
    decreases i
  {
    i == 0 ||
    (ReplaysApart(w, stored, n, events, remove, i - 1) &&
     match ReplayTo(w, stored, n, events, remove, i - 1)
     case None => true
     case Some(r) =>
       match TakeSymbol(stored, r.counters, r.context)
       case None => true
       case Some((symbol, counters)) => !SelfMerge(r.w.s, symbol, i - 1))
  }

  /** And all through a replay: every symbol is taken from the list of the edges at the gate. */
  lemma {:induction false} ReplayCounted(w: Walk, stored: seq<seq<nat>>, n: nat, events: seq<Event>, remove: bool, i: nat)
    requires |w.s.splits| == n && -1 <= w.s.splitIndex < |events| && |stored| == CONTEXTS && i <= n
    requires Full(w.s) && Counted(w) && w.s.faces == 0 && 3 * i <= |w.s.t.vertex| && ReplaysApart(w, stored, n, events, remove, i)
    requires ReplayTo(w, stored, n, events, remove, i).Some?
    ensures var r := ReplayTo(w, stored, n, events, remove, i).value;
            Full(r.w.s) && r.w.s.faces == i && |r.w.s.t.vertex| == |w.s.t.vertex| && Counted(r.w) &&
            (i > 0 ==> r.w.s.active != [] && r.context == ContextFor(Degree(r.w.s.t, From(r.w.s.t, Top(r.w.s)))))
    decreases i
  {
    hide TableBase, TableFull, SelfMerge, Counted, WalkStep, Step, NextContext, Degree, TakeSymbol;
    if i > 0 {
      ReplayCounted(w, stored, n, events, remove, i - 1);
      var before := ReplayTo(w, stored, n, events, remove, i - 1).value;
      WalkCounted(before.w, TakeSymbol(stored, before.counters, before.context).value.0, i - 1, n, events, remove);
    }
  }

  // ---- lists ---------------------------------------------------------------------------------------------

  /** The lists are used up from their ends, and their numbers stand for C, S, L, R and E in this order; the
      first symbol is in no list. */
  lemma LastTaken(stored: seq<seq<nat>>, counters: seq<int>, context: nat)
    requires |stored| == |counters| == 6 && context < 6 && forall k :: 0 <= k < 6 ==> counters[k] <= |stored[k]|
    ensures TakeSymbol(stored, counters, -1) == Some((TOPOLOGY_E, counters))
    ensures counters[context] <= 0 ==> TakeSymbol(stored, counters, context) == None
    ensures counters[context] > 0 ==>
              var id, left := stored[context][counters[context] - 1], counters[context := counters[context] - 1];
              TakeSymbol(stored, counters, context) ==
                if id == 0 then Some((TOPOLOGY_C, left)) else if id == 1 then Some((TOPOLOGY_S, left)) else if id == 2 then Some((TOPOLOGY_L, left))
                else if id == 3 then Some((TOPOLOGY_R, left)) else if id == 4 then Some((TOPOLOGY_E, left)) else None
  {
  }
}
