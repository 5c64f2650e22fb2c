/** The end of connectivity decoding (edgebreaker_decode.go): one start face for each boundary
    left over, and what a successful run of the whole machine has built. */
module StartFaces {
  import opened Bits
  import opened Corners
  import opened CornerTables
  import opened Connectivity

  /** The three boundary corners around a start face: one is given, each next one is found from
      the left-most corner of the vertex that the previous edge ends in. */
  function SecondCorner(t: Table, a: int): int
  {
    NextOf(LeftMostOf(t, VertexOf(t, NextOf(a))))
  }

  function FaceStart(t: Table, a: int, c: nat): (r: Option<Table>)
    requires Shape(t)
    ensures r.Some? ==> Shape(r.value) && |r.value.leftMost| == |t.leftMost| && |r.value.vertex| == |t.vertex|
  {
    var b := SecondCorner(t, a);
    var d := SecondCorner(t, b);
    if a == b || a == d || b == d then None
    else if OppositeOf(t, a) >= 0 || OppositeOf(t, b) >= 0 || OppositeOf(t, d) >= 0 then None
    else
      var t1 := SetOpposite(SetOpposite(SetOpposite(t, c, a), c + 1, b), c + 2, d);
      Some(Map(Map(Map(t1, c, VertexOf(t, NextOf(b))), c + 1, VertexOf(t, NextOf(d))), c + 2, VertexOf(t, NextOf(a))))
  }

  function Unhole(holes: seq<bool>, v: int): (r: seq<bool>)
    ensures |r| == |holes|
  {
    if 0 <= v < |holes| then holes[v := false] else holes
  }

  /** One boundary: an interior start face closes it, otherwise it stays a hole. */
  function StepStart(s: State, interior: bool): (r: Option<State>)
    requires Ready(s) && s.active != []
    ensures r.Some? ==> Ready(r.value) && SameSize(s, r.value) && |r.value.active| == |s.active| - 1
  {
    var rest := s.active[..|s.active| - 1];
    if !interior then Some(s.(active := rest))
    else if s.faces >= |s.t.vertex| / 3 then None
    else
      var c := 3 * s.faces;
      match FaceStart(s.t, Top(s), c)
      case None => None
      case Some(t) =>
        var holes := Unhole(Unhole(Unhole(s.holes, VertexOf(t, c)), VertexOf(t, c + 1)), VertexOf(t, c + 2));
        Some(s.(t := t, active := rest, faces := s.faces + 1, holes := holes))
  }

  /** One bit for each boundary; None when a bit is missing or a face does not fit. */
  function RunStart(s: State, bits: seq<bool>): (r: Option<State>)
    requires Ready(s)
    ensures r.Some? ==> Ready(r.value) && SameSize(s, r.value)
    decreases |s.active|
  {
    if s.active == [] then Some(s)
    else if bits == [] then None
    else
      match StepStart(s, bits[0])
      case None => None
      case Some(s1) => RunStart(s1, bits[1..])
  }

  // ---- what start faces keep ------------------------------------------------------------------

  /** Base without the promise that every decoded corner has a vertex. */
  ghost predicate Loose(t: Table, k: nat)
  {
    Shape(t) && k % 3 == 0 && k <= |t.vertex| && Matching(t.opposite) &&
    (forall c :: 0 <= c < k ==> -1 <= t.vertex[c] < t.numVertices) &&
    (forall c :: k <= c < |t.vertex| ==> t.vertex[c] == -1 && t.opposite[c] == -1) &&
    forall v :: 0 <= v < |t.leftMost| ==> -1 <= t.leftMost[v] < k
  }

  lemma SecondInRange(t: Table, k: nat, a: int)
    requires Loose(t, k) && a < k
    ensures -1 <= SecondCorner(t, a) < k
    ensures SecondCorner(t, -1) == -1
  {
    var v := VertexOf(t, NextOf(a));
    if 0 <= v < |t.leftMost| && t.leftMost[v] >= 0 {
      RotateBelow(t.leftMost[v], k / 3);
    }
  }

  lemma GlueThree(opp: seq<int>, c: nat, a: nat, b: nat, d: nat)
    requires Matching(opp) && c + 3 <= |opp| && a < c && b < c && d < c && a != b && a != d && b != d
    requires opp[a] < 0 && opp[b] < 0 && opp[d] < 0 && opp[c] < 0 && opp[c + 1] < 0 && opp[c + 2] < 0
    ensures Matching(opp[c := a][a := c][c + 1 := b][b := c + 1])
    ensures Matching(opp[c := a][a := c][c + 1 := b][b := c + 1][c + 2 := d][d := c + 2])
  {
    hide Matching;
    GlueMatching(opp, c, a);
    GlueMatching(opp[c := a][a := c], c + 1, b);
    GlueMatching(opp[c := a][a := c][c + 1 := b][b := c + 1], c + 2, d);
  }

  /** A start face keeps the matching, whatever the table's labels are. */
  lemma FaceStartKeepsLoose(t: Table, a: nat, c: nat)
    requires Loose(t, c) && a < c && c + 3 <= |t.vertex| && FaceStart(t, a, c).Some?
    ensures Loose(FaceStart(t, a, c).value, c + 3)
  {
    hide Matching, SecondCorner, Map;
    SecondInRange(t, c, a);
    var b := SecondCorner(t, a);
    SecondInRange(t, c, b);
    var d := SecondCorner(t, b);
    assert b >= 0;
    if d >= 0 {
      GlueThree(t.opposite, c, a, b, d);
    } else {
      GlueMatching(t.opposite, c, a);
      GlueMatching(t.opposite[c := a][a := c], c + 1, b);
    }
    var t1 := SetOpposite(SetOpposite(SetOpposite(t, c, a), c + 1, b), c + 2, d);
    var x, p, n := VertexOf(t, NextOf(b)), VertexOf(t, NextOf(d)), VertexOf(t, NextOf(a));
    LabelOk(t, c, b);
    LabelOk(t, c, d);
    LabelOk(t, c, a);
    MapAny(t1, c, x);
    MapAny(Map(t1, c, x), c + 1, p);
    MapAny(Map(Map(t1, c, x), c + 1, p), c + 2, n);
  }

  lemma LabelOk(t: Table, k: nat, a: int)
    requires Loose(t, k) && a < k
    ensures -1 <= VertexOf(t, NextOf(a)) < t.numVertices
  {
    if a >= 0 {
      RotateBelow(a, k / 3);
    }
  }

  /** Mapping an unmapped corner, or leaving it when there is no vertex. */
  lemma MapAny(t: Table, c: nat, v: int)
    requires Shape(t) && c < |t.vertex| && t.vertex[c] == -1 && -1 <= v < t.numVertices
    ensures var r := Map(t, c, v);
            r.vertex == t.vertex[c := v] && r.opposite == t.opposite && r.leftMost == t.leftMost && r.numVertices == t.numVertices
  {
    assert t.vertex[c := -1] == t.vertex;
  }

  /** The three boundary edges close a triangle: the third ends where the first one starts. */
  ghost predicate Closes(t: Table, a: int)
  {
    var d := SecondCorner(t, SecondCorner(t, a));
    VertexOf(t, NextOf(d)) == VertexOf(t, PreviousOf(a))
  }

  /** Base, homes and index; edges may disagree. */
  ghost predicate Housed(t: Table, k: nat)
  {
    TableBase(t, k) && Homes(t, k) && Indexed(t)
  }

  lemma SecondHome(t: Table, k: nat, a: nat)
    requires TableBase(t, k) && Homes(t, k) && a < k
    ensures var b := SecondCorner(t, a);
            0 <= b < k && Next(a) < k && Previous(b) < k && t.vertex[Previous(b)] == t.vertex[Next(a)] && Previous(a) < k
  {
    RotateBelow(a, k / 3);
    assert Home(t, t.vertex[Next(a)]);
    RotateBelow(t.leftMost[t.vertex[Next(a)]], k / 3);
    Rotate(t.leftMost[t.vertex[Next(a)]]);
  }

  lemma FaceStartForm(t: Table, a: nat, c: nat)
    requires Housed(t, c) && a < c && c + 3 <= |t.vertex| && FaceStart(t, a, c).Some?
    ensures var (b, r) := (SecondCorner(t, a), FaceStart(t, a, c).value);
            0 <= b < c && 0 <= SecondCorner(t, b) < c &&
            var d := SecondCorner(t, b);
            Next(a) < c && Next(b) < c && Next(d) < c && a != b && a != d && b != d &&
            Free(t, c, a) && Free(t, c, b) && Free(t, c, d) &&
            r.vertex == NewFace(t.vertex, c, t.vertex[Next(b)], t.vertex[Next(d)], t.vertex[Next(a)]) &&
            r.opposite == t.opposite[c := a][a := c][c + 1 := b][b := c + 1][c + 2 := d][d := c + 2] &&
            r.leftMost == t.leftMost && r.numVertices == t.numVertices && Indexed(r)
  {
    hide Matching, Map, Indexed, SecondCorner, Homes;
    SecondHome(t, c, a);
    var b := SecondCorner(t, a);
    SecondHome(t, c, b);
    var d := SecondCorner(t, b);
    SecondHome(t, c, d);
    var t1 := SetOpposite(SetOpposite(SetOpposite(t, c, a), c + 1, b), c + 2, d);
    IndexedFrame(t, t1);
    MapThree(t1, c, t.vertex[Next(b)], c + 1, t.vertex[Next(d)], c + 2, t.vertex[Next(a)]);
  }

  /** A start face keeps homes and index, and keeps edges agreeing exactly when the three
      boundary edges close a triangle, which the code does not check. */
  lemma FaceStartKeeps(t: Table, a: nat, c: nat)
    requires Housed(t, c) && a < c && c + 3 <= |t.vertex| && FaceStart(t, a, c).Some?
    ensures Housed(FaceStart(t, a, c).value, c + 3)
    ensures EdgesAgree(t.opposite, t.vertex) ==>
              (EdgesAgree(FaceStart(t, a, c).value.opposite, FaceStart(t, a, c).value.vertex) <==> Closes(t, a))
  {
    hide Matching, Indexed, FaceStart, SecondCorner, EdgesAgree;
    FaceStartForm(t, a, c);
    var b := SecondCorner(t, a);
    var d := SecondCorner(t, b);
    GlueThree(t.opposite, c, a, b, d);
    var r := FaceStart(t, a, c).value;
    assert Home(t, t.vertex[Next(a)]) && Home(t, t.vertex[Next(b)]) && Home(t, t.vertex[Next(d)]);
    forall k | 0 <= k < c + 3
      ensures Home(r, r.vertex[k])
    {
      if k < c {
        assert Home(t, t.vertex[k]);
      }
    }
    if EdgesAgree(t.opposite, t.vertex) {
      StartAgrees(t, a, c);
    }
  }

  lemma StartAgrees(t: Table, a: nat, c: nat)
    requires TableFull(t, c) && a < c && c + 3 <= |t.vertex| && FaceStart(t, a, c).Some?
    ensures var r := FaceStart(t, a, c).value;
            Matching(r.opposite) && |r.vertex| == |r.opposite| && (EdgesAgree(r.opposite, r.vertex) <==> Closes(t, a))
  {
    hide Matching, Indexed, FaceStart, SecondCorner, EdgesAgree, Homes, Closes;
    FaceStartForm(t, a, c);
    var b := SecondCorner(t, a);
    GlueThree(t.opposite, c, a, b, SecondCorner(t, b));
    if Closes(t, a) {
      ClosedAgrees(t, a, c);
    } else {
      OpenDisagrees(t, a, c);
    }
  }

  lemma ClosedAgrees(t: Table, a: nat, c: nat)
    requires TableFull(t, c) && a < c && c + 3 <= |t.vertex| && FaceStart(t, a, c).Some? && Closes(t, a)
    ensures var r := FaceStart(t, a, c).value;
            Matching(r.opposite) && |r.vertex| == |r.opposite| && EdgesAgree(r.opposite, r.vertex)
  {
    hide Matching, Indexed, FaceStart, SecondCorner, EdgesAgree, Homes;
    FaceStartForm(t, a, c);
    SecondHome(t, c, a);
    var b := SecondCorner(t, a);
    SecondHome(t, c, b);
    var d := SecondCorner(t, b);
    SecondHome(t, c, d);
    var v := FaceStart(t, a, c).value.vertex;
    LabelAgrees(t.opposite, t.vertex, v, c / 3);
    GlueThreeAgree(t.opposite, v, c, a, b, d);
  }

  lemma GlueThreeAgree(opp: seq<int>, v: seq<int>, c: nat, a: nat, b: nat, d: nat)
    requires Matching(opp) && |v| == |opp| && EdgesAgree(opp, v)
    requires c % 3 == 0 && c + 3 <= |opp| && a < c && b < c && d < c && a != b && a != d && b != d
    requires opp[a] < 0 && opp[b] < 0 && opp[d] < 0 && opp[c] < 0 && opp[c + 1] < 0 && opp[c + 2] < 0
    requires v[c + 1] == v[Previous(a)] && v[c + 2] == v[Next(a)]
    requires v[c + 2] == v[Previous(b)] && v[c] == v[Next(b)]
    requires v[c] == v[Previous(d)] && v[c + 1] == v[Next(d)]
    ensures var glued := opp[c := a][a := c][c + 1 := b][b := c + 1][c + 2 := d][d := c + 2];
            Matching(glued) && EdgesAgree(glued, v)
  {
    hide Matching, EdgesAgree;
    GlueAgrees(opp, v, c, a);
    GlueAgrees(opp[c := a][a := c], v, c + 1, b);
    GlueAgrees(opp[c := a][a := c][c + 1 := b][b := c + 1], v, c + 2, d);
  }

  lemma OpenDisagrees(t: Table, a: nat, c: nat)
    requires TableFull(t, c) && a < c && c + 3 <= |t.vertex| && FaceStart(t, a, c).Some? && !Closes(t, a)
    ensures var r := FaceStart(t, a, c).value;
            Matching(r.opposite) && |r.vertex| == |r.opposite| ==> !EdgesAgree(r.opposite, r.vertex)
  {
    hide Matching, Indexed, FaceStart, SecondCorner, EdgesAgree, Homes;
    FaceStartForm(t, a, c);
    SecondHome(t, c, a);
    var r := FaceStart(t, a, c).value;
    if Matching(r.opposite) && |r.vertex| == |r.opposite| && EdgesAgree(r.opposite, r.vertex) {
      EdgeAt(r.opposite, r.vertex, c);
    }
  }

  lemma EdgeAt(opp: seq<int>, vertex: seq<int>, c: nat)
    requires Matching(opp) && |vertex| == |opp| && EdgesAgree(opp, vertex) && c < |opp| && opp[c] >= 0
    ensures Next(c) < |opp| && Previous(c) < |opp| && Next(opp[c]) < |opp| && Previous(opp[c]) < |opp|
    ensures vertex[Next(c)] == vertex[Previous(opp[c])] && vertex[Previous(c)] == vertex[Next(opp[c])]
  {
    RotateBelow(c, |opp| / 3);
    RotateBelow(opp[c], |opp| / 3);
    assert EdgeAgrees(opp, vertex, c);
  }

  // ---- whole runs -----------------------------------------------------------------------------

  /** Every interior start face closes a triangle. */
  ghost predicate AllClose(s: State, bits: seq<bool>)
    requires Ready(s)
    decreases |s.active|
  {
    s.active != [] && bits != [] ==>
      (bits[0] ==> Closes(s.t, Top(s))) && (StepStart(s, bits[0]).Some? ==> AllClose(StepStart(s, bits[0]).value, bits[1..]))
  }

  ghost predicate ActiveOk(s: State)
  {
    forall i :: 0 <= i < |s.active| ==> 0 <= s.active[i] < 3 * s.faces
  }

  lemma {:induction false} RunStartLoose(s: State, bits: seq<bool>)
    requires Ready(s) && Loose(s.t, 3 * s.faces) && ActiveOk(s) && RunStart(s, bits).Some?
    ensures var r := RunStart(s, bits).value; Loose(r.t, 3 * r.faces)
    decreases |s.active|
  {
    hide Loose, FaceStart;
    if s.active != [] {
      var s1 := StepStart(s, bits[0]).value;
      if bits[0] {
        LooseSize(s.t, 3 * s.faces);
        FaceStartKeepsLoose(s.t, Top(s), 3 * s.faces);
      }
      RunStartLoose(s1, bits[1..]);
    }
  }

  lemma LooseSize(t: Table, k: nat)
    requires Loose(t, k)
    ensures |t.vertex| % 3 == 0 && k <= |t.vertex|
  {
  }

  lemma {:induction false} RunStartHoused(s: State, bits: seq<bool>)
    requires Ready(s) && Housed(s.t, 3 * s.faces) && ActiveOk(s) && RunStart(s, bits).Some?
    ensures var r := RunStart(s, bits).value;
            Housed(r.t, 3 * r.faces) &&
            (EdgesAgree(s.t.opposite, s.t.vertex) && AllClose(s, bits) ==> EdgesAgree(r.t.opposite, r.t.vertex))
    decreases |s.active|
  {
    hide Matching, Indexed, EdgesAgree, Homes, FaceStart, Closes;
    if s.active != [] {
      var s1 := StepStart(s, bits[0]).value;
      if bits[0] {
        FaceStartKeeps(s.t, Top(s), 3 * s.faces);
      }
      RunStartHoused(s1, bits[1..]);
    }
  }

  /** Symbols, then start faces, then the face count check. */
  function Decode(numFaces: nat, maxVertices: nat, track: bool, symbols: seq<nat>, bits: seq<bool>,
      events: seq<Event>, remove: bool): (r: Option<State>)
    ensures r.Some? ==> Ready(r.value)
  {
    match RunTo(Start(numFaces, maxVertices, track, |symbols|, |events|), symbols, events, remove, |symbols|)
    case None => None
    case Some(s) =>
      match RunStart(s, bits)
      case None => None
      case Some(r) => if r.faces == numFaces then Some(r) else None
  }

  lemma {:induction false} StartsAddFaces(s: State, bits: seq<bool>)
    requires Ready(s) && RunStart(s, bits).Some?
    ensures RunStart(s, bits).value.faces >= s.faces
    decreases |s.active|
  {
    hide FaceStart;
    if s.active != [] {
      StartsAddFaces(StepStart(s, bits[0]).value, bits[1..]);
    }
  }

  /** More symbols than faces are never decoded. */
  lemma TooManySymbols(numFaces: nat, maxVertices: nat, track: bool, symbols: seq<nat>, bits: seq<bool>, events: seq<Event>, remove: bool)
    requires |symbols| > numFaces
    ensures Decode(numFaces, maxVertices, track, symbols, bits, events, remove) == None
  {
    hide RunTo, RunStart;
    var s0 := Start(numFaces, maxVertices, track, |symbols|, |events|);
    var run := RunTo(s0, symbols, events, remove, |symbols|);
    if run.Some? {
      RunFaces(s0, symbols, events, remove, |symbols|);
      if RunStart(run.value, bits).Some? {
        StartsAddFaces(run.value, bits);
      }
    }
  }

  /** For any symbols, events and start-face bits: a decoded table is a symmetric matching
      without fixed points over all its corners. */
  lemma DecodedMatching(numFaces: nat, maxVertices: nat, track: bool, symbols: seq<nat>, bits: seq<bool>, events: seq<Event>, remove: bool)
    requires Decode(numFaces, maxVertices, track, symbols, bits, events, remove).Some?
    ensures var t := Decode(numFaces, maxVertices, track, symbols, bits, events, remove).value.t;
            |t.opposite| == 3 * numFaces && Matching(t.opposite)
  {
    if |symbols| > numFaces {
      TooManySymbols(numFaces, maxVertices, track, symbols, bits, events, remove);
    }
    hide RunTo, RunStart, Full, Matching;
    var s0 := Start(numFaces, maxVertices, track, |symbols|, |events|);
    StartFull(numFaces, maxVertices, track, |symbols|, |events|);
    RunKeeps(s0, symbols, events, remove, |symbols|);
    RunStartLoose(RunTo(s0, symbols, events, remove, |symbols|).value, bits);
  }

  /** If no vertex was merged with itself and every start face closed a triangle, then glued
      edges also join the same two vertices, each vertex that owns a corner has a left-most
      corner of its own, and the corner lists hold exactly the corners of their vertex. */
  lemma DecodedTable(numFaces: nat, maxVertices: nat, track: bool, symbols: seq<nat>, bits: seq<bool>, events: seq<Event>, remove: bool)
    requires Decode(numFaces, maxVertices, track, symbols, bits, events, remove).Some?
    requires var s0 := Start(numFaces, maxVertices, track, |symbols|, |events|);
             NoSelfMerge(s0, symbols, events, remove, |symbols|) &&
             AllClose(RunTo(s0, symbols, events, remove, |symbols|).value, bits)
    ensures TableFull(Decode(numFaces, maxVertices, track, symbols, bits, events, remove).value.t, 3 * numFaces)
  {
    if |symbols| > numFaces {
      TooManySymbols(numFaces, maxVertices, track, symbols, bits, events, remove);
    }
    hide RunTo, RunStart, NoSelfMerge, AllClose, Matching, EdgesAgree, Homes, Indexed;
    var s0 := Start(numFaces, maxVertices, track, |symbols|, |events|);
    StartFull(numFaces, maxVertices, track, |symbols|, |events|);
    RunKeeps(s0, symbols, events, remove, |symbols|);
    RunStartHoused(RunTo(s0, symbols, events, remove, |symbols|).value, bits);
  }

  /** Self-merges happen: after E, a left split event lets the S take up the previous corner of
      the same triangle, and the vertex between the two loses its left-most corner. */
  lemma SelfMergeExample(track: bool)
    ensures var s := RunTo(Start(2, 3, track, 2, 1), [TOPOLOGY_E, TOPOLOGY_S], [Event(1, 0, false)], false, 2);
            s.Some? && Base(s.value) && s.value.t.vertex[1] == 1 && s.value.t.leftMost[1] == -1
  {
    hide TableBase, TableFull, Step, IsTriangle;
    var symbols, events := [TOPOLOGY_E, TOPOLOGY_S], [Event(1, 0, false)];
    ExampleTriangle(track);
    var s1 := RunTo(Start(2, 3, track, 2, 1), symbols, events, false, 1).value;
    ExampleMerge(s1, events);
    StepKeeps(s1, TOPOLOGY_S, 1, 2, events, false);
  }

  lemma ExampleTriangle(track: bool)
    ensures var s := RunTo(Start(2, 3, track, 2, 1), [TOPOLOGY_E, TOPOLOGY_S], [Event(1, 0, false)], false, 1);
            s.Some? && Base(s.value) && IsTriangle(s.value)
  {
    var events, s0 := [Event(1, 0, false)], Start(2, 3, track, 2, 1);
    StartFull(2, 3, track, 2, 1);
    assert RunTo(s0, [TOPOLOGY_E, TOPOLOGY_S], events, false, 0) == Some(s0);
    var s1 := StepE(s0).value;
    assert TakeSplits(s1, 0, 2, events) == Some(s1.(splits := s1.splits[1 := Some(2)], splitIndex := -1));
    StepKeeps(s0, TOPOLOGY_E, 0, 2, events, false);
  }

  ghost predicate IsTriangle(s: State)
  {
    s.active == [0] && s.splits == [None, Some(2)] && s.splitIndex == -1 && s.faces == 1 && |s.holes| == 3 &&
    |s.t.vertex| == |s.t.opposite| == 6 && |s.t.leftMost| == 3 && s.t.numVertices == 3 &&
    s.t.vertex[0] == 0 && s.t.vertex[1] == 1 && s.t.vertex[2] == 2 && s.t.opposite[0] == -1 && s.t.opposite[2] == -1
  }

  lemma ExampleMerge(s: State, events: seq<Event>)
    requires Base(s) && IsTriangle(s)
    ensures |s.splits| == 2 && -1 <= s.splitIndex < |events| && 3 * s.faces + 3 <= |s.t.vertex|
    ensures var r := Step(s, TOPOLOGY_S, 1, 2, events, false);
            r.Some? && r.value.t.vertex[1] == 1 && r.value.t.leftMost[1] == -1
  {
    hide Matching, FaceS, MergeS, TableBase;
    SelfMergeForm(s.t);
    assert Resume(s, 1) == [2];
  }

  lemma SelfMergeForm(t: Table)
    requires TableBase(t, 3) && |t.vertex| == 6 && t.opposite[0] == -1 && t.opposite[2] == -1
    requires t.vertex[0] == 0 && t.vertex[1] == 1 && t.vertex[2] == 2 && |t.leftMost| == 3
    ensures var u := FaceS(t, 2, 0, 3);
            VertexOf(u, 1) == 1 && MergeS(u, 1, 1, 1).Some? &&
            MergeS(u, 1, 1, 1).value.vertex[1] == 1 && MergeS(u, 1, 1, 1).value.leftMost[1] == -1
  {
    hide Matching, FaceS;
    FaceSForm(t, 2, 0, 3);
  }

  // ---- a start face that does not close ------------------------------------------------------------

  ghost predicate FirstFace(s: State)
  {
    Full(s) && s.active == [0] && |s.splits| == 2 && s.splitIndex == -1 && s.faces == 1 && s.dropped == [] &&
    |s.t.vertex| == |s.t.opposite| == 9 && |s.t.leftMost| == 4 && s.t.numVertices == 3 &&
    s.t.vertex[0] == 0 && s.t.vertex[1] == 1 && s.t.vertex[2] == 2 &&
    s.t.leftMost[0] == 0 && s.t.leftMost[1] == 1 && s.t.leftMost[2] == 2 &&
    s.t.opposite[0] == -1 && s.t.opposite[1] == -1 && s.t.opposite[2] == -1
  }

  ghost predicate TwoFaces(s: State)
  {
    Full(s) && s.active == [3] && s.faces == 2 && |s.t.vertex| == |s.t.opposite| == 9 && |s.t.leftMost| == 4 &&
    s.t.vertex[0] == 0 && s.t.vertex[2] == 2 && s.t.vertex[4] == 1 && s.t.vertex[5] == 3 &&
    s.t.leftMost[0] == 0 && s.t.leftMost[1] == 1 &&
    s.t.opposite[1] == -1 && s.t.opposite[2] == -1 && s.t.opposite[3] == -1
  }

  lemma FirstFaceOf(track: bool)
    ensures var r := Step(Start(3, 4, track, 2, 0), TOPOLOGY_E, 0, 2, [], false); r.Some? && FirstFace(r.value)
  {
    hide Full;
    var s0 := Start(3, 4, track, 2, 0);
    StartFull(3, 4, track, 2, 0);
    FullBase(s0);
    assert Step(s0, TOPOLOGY_E, 0, 2, [], false) == StepE(s0);
    FaceEForm(s0.t, 0);
    StepKeeps(s0, TOPOLOGY_E, 0, 2, [], false);
  }

  lemma FullBase(s: State)
    requires Full(s)
    ensures Base(s)
  {
  }

  lemma SecondFaceOf(s: State)
    requires FirstFace(s)
    ensures var r := Step(s, TOPOLOGY_R, 1, 2, [], false); r.Some? && TwoFaces(r.value)
  {
    hide Full, Matching, Indexed, Homes, EdgesAgree;
    FullBase(s);
    assert Step(s, TOPOLOGY_R, 1, 2, [], false) == StepSide(s, true);
    FaceSideForm(s.t, 0, 3, true);
    StepKeeps(s, TOPOLOGY_R, 1, 2, [], false);
  }

  lemma OpenStart(s: State)
    requires TwoFaces(s)
    ensures var r := RunStart(s, [true]);
            r.Some? && r.value.faces == 3 && |r.value.t.opposite| == 9 && Matching(r.value.t.opposite) &&
            !EdgesAgree(r.value.t.opposite, r.value.t.vertex)
  {
    hide Matching, Indexed, Homes, EdgesAgree;
    assert SecondCorner(s.t, 3) == 2 && SecondCorner(s.t, 2) == 1;
    assert !Closes(s.t, 3);
    FaceStartKeeps(s.t, 3, 6);
    assert [true][1..] == [];
  }

  /** Start faces that do not close a triangle are accepted: after E and R the three boundary corners
      are 3, 2 and 1, and the decoded table has glued edges that join different vertices. */
  lemma OpenStartExample(track: bool)
    ensures var r := Decode(3, 4, track, [TOPOLOGY_E, TOPOLOGY_R], [true], [], false);
            r.Some? && |r.value.t.opposite| == 9 && Matching(r.value.t.opposite) && !EdgesAgree(r.value.t.opposite, r.value.t.vertex)
  {
    hide Step, FirstFace, TwoFaces, RunStart, Matching, EdgesAgree;
    var symbols, events := [TOPOLOGY_E, TOPOLOGY_R], [];
    var s0 := Start(3, 4, track, 2, 0);
    FirstFaceOf(track);
    var s1 := Step(s0, TOPOLOGY_E, 0, 2, events, false).value;
    assert RunTo(s0, symbols, events, false, 0) == Some(s0);
    assert RunTo(s0, symbols, events, false, 1) == Some(s1);
    SecondFaceOf(s1);
    OpenStart(Step(s1, TOPOLOGY_R, 1, 2, events, false).value);
  }
}
