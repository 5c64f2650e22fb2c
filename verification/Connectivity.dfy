/** Edgebreaker connectivity (edgebreaker_decode.go): the five-symbol machine that grows a
    corner table face by face, with split events and start faces, and what every step keeps. */
module Connectivity {
  import opened Bits
  import opened Corners
  import opened CornerTables

  const TOPOLOGY_C: nat := 0
  const TOPOLOGY_S: nat := 1
  const TOPOLOGY_L: nat := 3
  const TOPOLOGY_R: nat := 5
  const TOPOLOGY_E: nat := 7

  /** A topology split: symbol ids count from the encoder's end of the stream. */
  datatype Event = Event(source: nat, split: nat, right: bool)

  /** faces counts decoded faces; splits[k] is the corner a later S at step k takes up. */
  datatype State = State(t: Table, active: seq<int>, splits: seq<Option<int>>, splitIndex: int,
                         holes: seq<bool>, faces: nat, dropped: seq<int>)

  ghost predicate Ready(s: State)
  {
    Shape(s.t) && |s.holes| == |s.t.leftMost|
  }

  ghost predicate SameSize(s: State, r: State)
  {
    |r.t.vertex| == |s.t.vertex| && |r.t.leftMost| == |s.t.leftMost|
  }

  function Top(s: State): int
    requires s.active != []
  {
    s.active[|s.active| - 1]
  }

  function ReplaceTop(s: State, c: int): seq<int>
    requires s.active != []
  {
    s.active[..|s.active| - 1] + [c]
  }

  /** The face of a C: corner c at vertex x, between boundary edges a and b. */
  function FaceC(t: Table, a: int, b: int, c: nat, x: int): (r: Option<Table>)
    requires Shape(t)
    ensures r.Some? ==> Shape(r.value) && |r.value.leftMost| == |t.leftMost| && |r.value.vertex| == |t.vertex|
  {
    var t1 := SetOpposite(SetOpposite(t, a, c + 1), b, c + 2);
    var p, q := VertexOf(t1, PreviousOf(a)), VertexOf(t1, NextOf(b));
    if x == p || x == q then None
    else Some(SetLeftMost(Map(Map(Map(t1, c, x), c + 1, q), c + 2, p), p, c + 2))
  }

  /** C: the new face closes the fan of the vertex between two boundary edges. */
  function StepC(s: State): (r: Option<State>)
    requires Ready(s)
    ensures r.Some? ==> r.value.splits == s.splits && r.value.splitIndex == s.splitIndex && r.value.active != []
    ensures r.Some? ==> Ready(r.value) && SameSize(s, r.value)
  {
    if s.active == [] then None
    else
      var a := Top(s);
      var x := VertexOf(s.t, NextOf(a));
      var b := NextOf(LeftMostOf(s.t, x));
      if a == b || a < 0 || b < 0 || OppositeOf(s.t, a) >= 0 || OppositeOf(s.t, b) >= 0 then None
      else
        match FaceC(s.t, a, b, 3 * s.faces, x)
        case None => None
        case Some(t) =>
          Some(s.(t := t, holes := s.holes[x := false], active := ReplaceTop(s, 3 * s.faces), faces := s.faces + 1))
  }

  /** The apex of an R or L face: a new vertex at corner opp, which is glued to a. */
  function SideApex(t: Table, a: int, opp: nat): (r: Option<Table>)
    requires Shape(t)
    ensures r.Some? ==> Shape(r.value) && |r.value.leftMost| == |t.leftMost| && |r.value.vertex| == |t.vertex|
  {
    var (t1, v) := AddVertex(SetOpposite(t, opp, a));
    if v < 0 || t1.numVertices > |t.leftMost| then None else Some(SetLeftMost(Map(t1, opp, v), v, opp))
  }

  /** The two corners of an R or L face on the glued edge. */
  function SideBase(t: Table, a: int, cornerL: nat, cornerR: nat): (r: Table)
    requires Shape(t)
    ensures Shape(r) && |r.leftMost| == |t.leftMost| && |r.vertex| == |t.vertex|
  {
    var vertexR := VertexOf(t, PreviousOf(a));
    var t1 := SetLeftMost(Map(t, cornerR, vertexR), vertexR, cornerR);
    Map(t1, cornerL, VertexOf(t1, NextOf(a)))
  }

  /** The face of an R or L: one new vertex, glued along edge a. */
  function FaceSide(t: Table, a: int, c: nat, right: bool): (r: Option<Table>)
    requires Shape(t)
    ensures r.Some? ==> Shape(r.value) && |r.value.leftMost| == |t.leftMost| && |r.value.vertex| == |t.vertex|
  {
    match SideApex(t, a, if right then c + 2 else c + 1)
    case None => None
    case Some(t1) => Some(if right then SideBase(t1, a, c + 1, c) else SideBase(t1, a, c, c + 2))
  }

  function StepSide(s: State, right: bool): (r: Option<State>)
    requires Ready(s)
    ensures r.Some? ==> r.value.splits == s.splits && r.value.splitIndex == s.splitIndex && r.value.active != []
    ensures r.Some? ==> Ready(r.value) && SameSize(s, r.value)
  {
    if s.active == [] || OppositeOf(s.t, Top(s)) >= 0 then None
    else
      match FaceSide(s.t, Top(s), 3 * s.faces, right)
      case None => None
      case Some(t) => Some(s.(t := t, active := ReplaceTop(s, 3 * s.faces), faces := s.faces + 1))
  }

  /** The face of an S, before its vertices are merged. */
  function FaceS(t: Table, a: int, b: int, c: nat): (r: Table)
    requires Shape(t)
    ensures Shape(r) && |r.leftMost| == |t.leftMost| && |r.vertex| == |t.vertex|
  {
    var t1 := SetOpposite(SetOpposite(t, a, c + 2), b, c + 1);
    var t2 := Map(t1, c, VertexOf(t1, PreviousOf(a)));
    var t3 := Map(t2, c + 1, VertexOf(t2, NextOf(a)));
    var q := VertexOf(t3, PreviousOf(b));
    SetLeftMost(Map(t3, c + 2, q), q, c + 2)
  }

  /** The merge of an S: vertex n disappears into vertex p. */
  function MergeS(t: Table, n: int, p: int, seed: int): (r: Option<Table>)
    requires Shape(t)
    ensures r.Some? ==> Shape(r.value) && |r.value.leftMost| == |t.leftMost| && |r.value.vertex| == |t.vertex|
  {
    match MergeFan(t, n, p, seed)
    case None => None
    case Some(t1) => Some(Isolate(SetLeftMost(t1, p, LeftMostOf(t1, n)), n))
  }

  /** The boundary that an S joins: the one below on the stack, or a split's. */
  function Resume(s: State, id: nat): seq<int>
    requires s.active != [] && id < |s.splits|
  {
    s.active[..|s.active| - 1] + match s.splits[id] case Some(corner) => [corner] case None => []
  }

  /** S: a face joins two boundaries and merges two vertices. */
  function StepS(s: State, id: nat, remove: bool): (r: Option<State>)
    requires Ready(s) && id < |s.splits|
    ensures r.Some? ==> r.value.splits == s.splits && r.value.splitIndex == s.splitIndex && r.value.active != []
    ensures r.Some? ==> Ready(r.value) && SameSize(s, r.value)
  {
    if s.active == [] || Resume(s, id) == [] then None
    else
      var b, active := Top(s), Resume(s, id);
      var a := active[|active| - 1];
      if a == b || OppositeOf(s.t, a) >= 0 || OppositeOf(s.t, b) >= 0 then None
      else
        var c := 3 * s.faces;
        var t := FaceS(s.t, a, b, c);
        var n := VertexOf(t, NextOf(b));
        match MergeS(t, n, VertexOf(t, PreviousOf(a)), NextOf(b))
        case None => None
        case Some(merged) =>
          Some(s.(t := merged, active := active[..|active| - 1] + [c], faces := s.faces + 1,
                  dropped := if remove then s.dropped + [n] else s.dropped))
  }

  /** The face of an E: three new vertices. */
  function FaceE(t: Table, c: nat): (r: Option<Table>)
    requires Shape(t)
    ensures r.Some? ==> Shape(r.value) && |r.value.leftMost| == |t.leftMost| && |r.value.vertex| == |t.vertex|
  {
    var (t1, v0) := AddVertex(t);
    var (t2, v1) := AddVertex(t1);
    var (t3, v2) := AddVertex(t2);
    if v0 < 0 || v1 < 0 || v2 < 0 || t3.numVertices > |t.leftMost| then None
    else
      var t4 := Map(Map(Map(t3, c, v0), c + 1, v1), c + 2, v2);
      Some(SetLeftMost(SetLeftMost(SetLeftMost(t4, v0, c), v1, c + 1), v2, c + 2))
  }

  /** E: a triangle of its own. */
  function StepE(s: State): (r: Option<State>)
    requires Ready(s)
    ensures r.Some? ==> r.value.splits == s.splits && r.value.splitIndex == s.splitIndex && r.value.active != []
    ensures r.Some? ==> Ready(r.value) && SameSize(s, r.value)
  {
    match FaceE(s.t, 3 * s.faces)
    case None => None
    case Some(t) => Some(s.(t := t, active := s.active + [3 * s.faces], faces := s.faces + 1))
  }

  /** Split events that start at this symbol give later S symbols their second boundary. */
  function TakeSplits(s: State, id: nat, n: nat, events: seq<Event>): (r: Option<State>)
    requires s.active != [] && |s.splits| == n && -1 <= s.splitIndex < |events| && id < n
    ensures r.Some? ==> r.value.t == s.t && r.value.active == s.active && r.value.faces == s.faces &&
                        r.value.holes == s.holes && |r.value.splits| == n && -1 <= r.value.splitIndex < |events|
    decreases s.splitIndex + 1
  {
    if s.splitIndex < 0 || events[s.splitIndex].source != n - id - 1 then Some(s)
    else
      var event := events[s.splitIndex];
      var corner := if event.right then NextOf(Top(s)) else PreviousOf(Top(s));
      var k := n - event.split - 1;
      if k < 0 || k >= |s.splits| then None
      else TakeSplits(s.(splits := s.splits[k := Some(corner)], splitIndex := s.splitIndex - 1), id, n, events)
  }

  /** One symbol; None is a reported error. */
  function Step(s: State, symbol: nat, id: nat, n: nat, events: seq<Event>, remove: bool): (r: Option<State>)
    requires Ready(s) && |s.splits| == n && -1 <= s.splitIndex < |events| && id < n
    ensures r.Some? ==> Ready(r.value) && SameSize(s, r.value) && |r.value.splits| == n && -1 <= r.value.splitIndex < |events| &&
                        r.value.active != []
  {
    if symbol == TOPOLOGY_C then StepC(s)
    else if symbol == TOPOLOGY_S then StepS(s, id, remove)
    else if symbol == TOPOLOGY_R || symbol == TOPOLOGY_L then
      match StepSide(s, symbol == TOPOLOGY_R)
      case None => None
      case Some(s1) => TakeSplits(s1, id, n, events)
    else if symbol == TOPOLOGY_E then
      match StepE(s)
      case None => None
      case Some(s1) => TakeSplits(s1, id, n, events)
    else None
  }

  /** An S whose two boundaries already meet in one vertex: the vertex is merged with itself. */
  ghost predicate SelfMerge(s: State, symbol: nat, id: nat)
    requires id < |s.splits|
  {
    symbol == TOPOLOGY_S && s.active != [] && Resume(s, id) != [] &&
    var active := Resume(s, id);
    VertexOf(s.t, PreviousOf(active[|active| - 1])) == VertexOf(s.t, NextOf(Top(s)))
  }

  // ---- the invariant -------------------------------------------------------------------------

  /** Holds in every run, k corners being decoded: these have vertices, the others are
      untouched, and the opposite table is a matching without fixed points. */
  ghost predicate TableBase(t: Table, k: nat)
  {
    Shape(t) && k % 3 == 0 && k <= |t.vertex| && Matching(t.opposite) &&
    (forall c :: 0 <= c < k ==> 0 <= t.vertex[c] < t.numVertices) &&
    (forall c :: k <= c < |t.vertex| ==> t.vertex[c] == -1 && t.opposite[c] == -1) &&
    forall v :: 0 <= v < |t.leftMost| ==> -1 <= t.leftMost[v] < k
  }

  /** The vertex v has a left-most corner of its own. */
  ghost predicate Home(t: Table, v: int)
  {
    0 <= v < |t.leftMost| && 0 <= t.leftMost[v] < |t.vertex| && t.vertex[t.leftMost[v]] == v
  }

  ghost predicate Homes(t: Table, k: nat)
    requires k <= |t.vertex|
  {
    forall c :: 0 <= c < k ==> Home(t, t.vertex[c])
  }

  /** Holds as long as no vertex is merged with itself. */
  ghost predicate TableFull(t: Table, k: nat)
  {
    TableBase(t, k) && EdgesAgree(t.opposite, t.vertex) && Homes(t, k) && Indexed(t)
  }

  ghost predicate Base(s: State)
  {
    Ready(s) && TableBase(s.t, 3 * s.faces) &&
    (forall i :: 0 <= i < |s.active| ==> 0 <= s.active[i] < 3 * s.faces) &&
    (forall k :: 0 <= k < |s.splits| && s.splits[k].Some? ==> 0 <= s.splits[k].value < 3 * s.faces)
  }

  ghost predicate Full(s: State)
  {
    Base(s) && TableFull(s.t, 3 * s.faces)
  }

  // ---- gluing and labelling ------------------------------------------------------------------

  lemma GlueMatching(opp: seq<int>, a: nat, b: nat)
    requires Matching(opp) && a < |opp| && b < |opp| && a != b && opp[a] < 0 && opp[b] < 0
    ensures Matching(opp[a := b][b := a])
  {
  }

  lemma GlueAgrees(opp: seq<int>, vertex: seq<int>, a: nat, b: nat)
    requires Matching(opp) && |vertex| == |opp| && EdgesAgree(opp, vertex)
    requires a < |opp| && b < |opp| && a != b && opp[a] < 0 && opp[b] < 0
    requires vertex[Next(a)] == vertex[Previous(b)] && vertex[Previous(a)] == vertex[Next(b)]
    ensures Matching(opp[a := b][b := a]) && EdgesAgree(opp[a := b][b := a], vertex)
  {
    GlueMatching(opp, a, b);
    var glued := opp[a := b][b := a];
    forall c | 0 <= c < |glued| && glued[c] >= 0
      ensures EdgeAgrees(glued, vertex, c)
    {
      if c != a && c != b {
        assert EdgeAgrees(opp, vertex, c);
      }
    }
  }

  /** Labels of a face without neighbours do not matter to other edges. */
  lemma LabelAgrees(opp: seq<int>, vertex: seq<int>, vertex1: seq<int>, face: nat)
    requires Matching(opp) && |vertex| == |opp| == |vertex1| && 3 * face < |opp| && EdgesAgree(opp, vertex)
    requires opp[3 * face] < 0 && opp[3 * face + 1] < 0 && opp[3 * face + 2] < 0
    requires forall c :: 0 <= c < |opp| && c / 3 != face ==> vertex1[c] == vertex[c]
    ensures EdgesAgree(opp, vertex1)
  {
    forall c | 0 <= c < |opp| && opp[c] >= 0
      ensures EdgeAgrees(opp, vertex1, c)
    {
      assert EdgeAgrees(opp, vertex, c);
      assert opp[opp[c]] == c;
      FaceCorners(c, face);
      FaceCorners(opp[c], face);
      Rotate(c);
      Rotate(opp[c]);
      RotateBelow(c, |opp| / 3);
      RotateBelow(opp[c], |opp| / 3);
    }
  }

  lemma FaceCorners(c: nat, face: nat)
    ensures c / 3 == face <==> c == 3 * face || c == 3 * face + 1 || c == 3 * face + 2
  {
  }

  lemma RelabelAgrees(opp: seq<int>, vertex: seq<int>, from: int, to: int)
    requires Matching(opp) && |vertex| == |opp| && EdgesAgree(opp, vertex)
    ensures EdgesAgree(opp, Relabel(vertex, from, to))
  {
    forall c | 0 <= c < |opp| && opp[c] >= 0
      ensures EdgeAgrees(opp, Relabel(vertex, from, to), c)
    {
      assert EdgeAgrees(opp, vertex, c);
      RotateBelow(c, |opp| / 3);
      RotateBelow(opp[c], |opp| / 3);
    }
  }

  /** Gluing after a relabelling that makes the two sides meet. */
  lemma GlueRelabelled(opp: seq<int>, vertex: seq<int>, a: nat, b: nat, from: int, to: int)
    requires Matching(opp) && |vertex| == |opp| && EdgesAgree(opp, vertex)
    requires a < |opp| && b < |opp| && a != b && opp[a] < 0 && opp[b] < 0
    requires vertex[Next(a)] == vertex[Previous(b)] || (vertex[Next(a)] == from && vertex[Previous(b)] == to)
             || (vertex[Next(a)] == to && vertex[Previous(b)] == from)
    requires vertex[Previous(a)] == vertex[Next(b)]
    ensures Matching(opp[a := b][b := a]) && EdgesAgree(opp[a := b][b := a], Relabel(vertex, from, to))
  {
    RelabelAgrees(opp, vertex, from, to);
    RotateBelow(a, |opp| / 3);
    RotateBelow(b, |opp| / 3);
    GlueAgrees(opp, Relabel(vertex, from, to), a, b);
  }

  /** Three first-time mappings of the corners of one face. */
  lemma MapThree(t: Table, c0: nat, v0: nat, c1: nat, v1: nat, c2: nat, v2: nat)
    requires Shape(t) && c0 < |t.vertex| && c1 < |t.vertex| && c2 < |t.vertex| && c0 != c1 && c1 != c2 && c0 != c2
    requires v0 < |t.leftMost| && v1 < |t.leftMost| && v2 < |t.leftMost|
    requires t.vertex[c0] < 0 && t.vertex[c1] < 0 && t.vertex[c2] < 0
    ensures var r := Map(Map(Map(t, c0, v0), c1, v1), c2, v2);
            r.vertex == t.vertex[c0 := v0][c1 := v1][c2 := v2] && r.opposite == t.opposite &&
            r.leftMost == t.leftMost && r.numVertices == t.numVertices && r.tracked == t.tracked &&
            (Indexed(t) ==> Indexed(r))
  {
    if Indexed(t) {
      IndexedMap(t, c0, v0);
      IndexedMap(Map(t, c0, v0), c1, v1);
      IndexedMap(Map(Map(t, c0, v0), c1, v1), c2, v2);
    }
  }

  lemma MapStep(t: Table, c: nat, v: nat)
    requires Shape(t) && c < |t.vertex| && v < |t.leftMost| && t.vertex[c] < 0
    ensures var r := Map(t, c, v);
            r.vertex == t.vertex[c := v] && r.opposite == t.opposite && r.leftMost == t.leftMost &&
            r.numVertices == t.numVertices && (Indexed(t) ==> Indexed(r))
  {
    if Indexed(t) {
      IndexedMap(t, c, v);
    }
  }

  // ---- the faces -----------------------------------------------------------------------------

  /** A free corner of a decoded face. */
  ghost predicate Free(t: Table, k: nat, c: int)
  {
    0 <= c < k <= |t.opposite| && t.opposite[c] < 0
  }

  function NewFace(vertex: seq<int>, c: nat, x: int, y: int, z: int): seq<int>
    requires c + 3 <= |vertex|
  {
    vertex[c := x][c + 1 := y][c + 2 := z]
  }

  lemma TwoGlued(opp: seq<int>, a: nat, b: nat, c: nat, d: nat)
    requires Matching(opp) && a < |opp| && b < |opp| && c < |opp| && d < |opp|
    requires a != b && a != c && a != d && b != c && b != d && c != d
    requires opp[a] < 0 && opp[b] < 0 && opp[c] < 0 && opp[d] < 0
    ensures Matching(opp[a := c][c := a][b := d][d := b])
  {
    GlueMatching(opp, a, c);
    GlueMatching(opp[a := c][c := a], b, d);
  }

  lemma FaceCForm(t: Table, a: nat, b: nat, c: nat, x: nat)
    requires TableBase(t, c) && c + 3 <= |t.vertex| && Free(t, c, a) && Free(t, c, b) && a != b && x < |t.leftMost|
    requires FaceC(t, a, b, c, x).Some?
    ensures var r := FaceC(t, a, b, c, x).value;
            var p, q := t.vertex[Previous(a)], t.vertex[Next(b)];
            Previous(a) < c && Next(b) < c && p != x && q != x &&
            r.vertex == NewFace(t.vertex, c, x, q, p) && r.leftMost == t.leftMost[p := c + 2] &&
            r.opposite == t.opposite[a := c + 1][c + 1 := a][b := c + 2][c + 2 := b] &&
            r.numVertices == t.numVertices && (Indexed(t) ==> Indexed(r))
  {
    hide Matching, Indexed, Map;
    RotateBelow(a, c / 3);
    RotateBelow(b, c / 3);
    var t1 := SetOpposite(SetOpposite(t, a, c + 1), b, c + 2);
    IndexedFrame(t, t1);
    var p, q := t.vertex[Previous(a)], t.vertex[Next(b)];
    MapThree(t1, c, x, c + 1, q, c + 2, p);
    var t2 := Map(Map(Map(t1, c, x), c + 1, q), c + 2, p);
    IndexedFrame(t2, SetLeftMost(t2, p, c + 2));
  }

  /** The index only looks at vertices and lists. */
  lemma IndexedFrame(t: Table, u: Table)
    requires Shape(t) && Shape(u) && u.vertex == t.vertex && u.lists == t.lists && u.tracked == t.tracked
    ensures Indexed(t) ==> Indexed(u)
  {
  }

  lemma FaceCKeepsBase(t: Table, a: nat, b: nat, c: nat, x: nat)
    requires TableBase(t, c) && c + 3 <= |t.vertex| && Free(t, c, a) && Free(t, c, b) && a != b
    requires x < t.numVertices && FaceC(t, a, b, c, x).Some?
    ensures TableBase(FaceC(t, a, b, c, x).value, c + 3)
  {
    hide FaceC, Matching;
    FaceCForm(t, a, b, c, x);
    TwoGlued(t.opposite, a, b, c + 1, c + 2);
  }

  lemma FaceCKeepsFull(t: Table, a: nat, b: nat, c: nat, x: nat)
    requires TableFull(t, c) && c + 3 <= |t.vertex| && Free(t, c, a) && Free(t, c, b) && a != b
    requires x == t.vertex[Next(a)] && Home(t, x) && b == Next(t.leftMost[x]) && FaceC(t, a, b, c, x).Some?
    ensures TableFull(FaceC(t, a, b, c, x).value, c + 3)
  {
    hide FaceC, Matching, Indexed, EdgesAgree, TableBase;
    FaceSizes(t, a, b, c);
    FaceCKeepsBase(t, a, b, c, x);
    FaceCForm(t, a, b, c, x);
    FaceCAgrees(t, a, b, c, x);
    FaceCHomes(t, a, b, c, x);
  }

  lemma FaceSizes(t: Table, a: nat, b: nat, c: nat)
    requires TableBase(t, c) && a < c && b < c
    ensures Shape(t) && Next(a) < c && Previous(a) < c && Next(b) < c && Previous(b) < c && c % 3 == 0
    ensures c <= |t.vertex| && 0 <= t.vertex[Next(a)] < t.numVertices && 0 <= t.vertex[Previous(a)] < t.numVertices
  {
    RotateBelow(a, c / 3);
    RotateBelow(b, c / 3);
  }

  lemma FaceCAgrees(t: Table, a: nat, b: nat, c: nat, x: nat)
    requires TableFull(t, c) && c + 3 <= |t.vertex| && Free(t, c, a) && Free(t, c, b) && a != b
    requires Next(a) < c && x == t.vertex[Next(a)] && Home(t, x) && b == Next(t.leftMost[x])
    ensures Previous(a) < c && Next(b) < c
    ensures var v := NewFace(t.vertex, c, x, t.vertex[Next(b)], t.vertex[Previous(a)]);
            var opp := t.opposite[a := c + 1][c + 1 := a][b := c + 2][c + 2 := b];
            Matching(opp) && EdgesAgree(opp, v)
  {
    hide Matching, EdgesAgree, Indexed, Homes;
    FaceSizes(t, a, b, c);
    Rotate(t.leftMost[x]);
    Rotate(b);
    var v := NewFace(t.vertex, c, x, t.vertex[Next(b)], t.vertex[Previous(a)]);
    LabelAgrees(t.opposite, t.vertex, v, c / 3);
    GlueAgrees(t.opposite, v, a, c + 1);
    GlueAgrees(t.opposite[a := c + 1][c + 1 := a], v, b, c + 2);
  }

  lemma FaceCHomes(t: Table, a: nat, b: nat, c: nat, x: nat)
    requires TableBase(t, c) && Homes(t, c) && c + 3 <= |t.vertex| && a < c && b < c && Home(t, x)
    ensures Previous(a) < c && Next(b) < c
    ensures var p, q := t.vertex[Previous(a)], t.vertex[Next(b)];
            Homes(t.(vertex := NewFace(t.vertex, c, x, q, p), leftMost := t.leftMost[p := c + 2]), c + 3)
  {
    hide Matching;
    FaceSizes(t, a, b, c);
    var p, q := t.vertex[Previous(a)], t.vertex[Next(b)];
    var r := t.(vertex := NewFace(t.vertex, c, x, q, p), leftMost := t.leftMost[p := c + 2]);
    assert Home(t, p) && Home(t, q);
    forall d | 0 <= d < c + 3
      ensures Home(r, r.vertex[d])
    {
      if d < c {
        assert Home(t, t.vertex[d]);
      }
    }
  }

  /** Labels of the corners c, c + 1, c + 2 of an R or L face. */
  function SideLabels(t: Table, a: nat, c: nat, right: bool): (int, int, int)
    requires c % 3 == 0 && a < c <= |t.vertex|
  {
    RotateBelow(a, c / 3);
    var v, l, r := t.numVertices, t.vertex[Next(a)], t.vertex[Previous(a)];
    if right then (r, l, v) else (l, v, r)
  }

  lemma FaceSideForm(t: Table, a: nat, c: nat, right: bool)
    requires TableBase(t, c) && c + 3 <= |t.vertex| && Free(t, c, a) && FaceSide(t, a, c, right).Some?
    ensures var r := FaceSide(t, a, c, right).value;
            var (x, y, z) := SideLabels(t, a, c, right);
            var o, vr := if right then c + 2 else c + 1, t.vertex[Previous(a)];
            Previous(a) < c && t.numVertices < |t.leftMost| &&
            r.vertex == NewFace(t.vertex, c, x, y, z) && r.opposite == t.opposite[o := a][a := o] &&
            r.leftMost == t.leftMost[t.numVertices := o][vr := if right then c else c + 2] &&
            r.numVertices == t.numVertices + 1
  {
    hide Matching, Indexed;
    RotateBelow(a, c / 3);
  }

  lemma FaceSideIndexed(t: Table, a: nat, c: nat, right: bool)
    requires TableBase(t, c) && c + 3 <= |t.vertex| && Free(t, c, a) && FaceSide(t, a, c, right).Some? && Indexed(t)
    ensures Indexed(FaceSide(t, a, c, right).value)
  {
    hide Matching, Indexed, Map;
    FaceSizes(t, a, a, c);
    var (opp, cornerL, cornerR) := if right then (c + 2, c + 1, c) else (c + 1, c, c + 2);
    var t1, v := AddVertex(SetOpposite(t, opp, a)).0, t.numVertices;
    IndexedFrame(t, t1);
    MapStep(t1, opp, v);
    var t2 := SetLeftMost(Map(t1, opp, v), v, opp);
    IndexedFrame(Map(t1, opp, v), t2);
    var vr, vl := t.vertex[Previous(a)], t.vertex[Next(a)];
    MapStep(t2, cornerR, vr);
    var t3 := SetLeftMost(Map(t2, cornerR, vr), vr, cornerR);
    IndexedFrame(Map(t2, cornerR, vr), t3);
    MapStep(t3, cornerL, vl);
  }

  lemma FaceSideKeepsBase(t: Table, a: nat, c: nat, right: bool)
    requires TableBase(t, c) && c + 3 <= |t.vertex| && Free(t, c, a) && FaceSide(t, a, c, right).Some?
    ensures TableBase(FaceSide(t, a, c, right).value, c + 3)
  {
    hide FaceSide, Matching;
    FaceSizes(t, a, a, c);
    FaceSideForm(t, a, c, right);
    GlueMatching(t.opposite, if right then c + 2 else c + 1, a);
  }

  lemma FaceSideKeepsFull(t: Table, a: nat, c: nat, right: bool)
    requires TableFull(t, c) && c + 3 <= |t.vertex| && Free(t, c, a) && FaceSide(t, a, c, right).Some?
    ensures TableFull(FaceSide(t, a, c, right).value, c + 3)
  {
    hide FaceSide, Matching, EdgesAgree, Indexed, TableBase, Homes;
    FaceSizes(t, a, a, c);
    FaceSideForm(t, a, c, right);
    FaceSideKeepsBase(t, a, c, right);
    FaceSideIndexed(t, a, c, right);
    Gluable(t, a, c);
    FaceSideAgrees(t, a, c, right);
    FaceSideHomes(t, a, c, right);
    var r := FaceSide(t, a, c, right).value;
    var (x, y, z) := SideLabels(t, a, c, right);
    var o, vr := if right then c + 2 else c + 1, t.vertex[Previous(a)];
    HomesFrame(t.(vertex := NewFace(t.vertex, c, x, y, z),
                  leftMost := t.leftMost[t.numVertices := o][vr := if right then c else c + 2]), r, c + 3);
  }

  lemma HomesFrame(t: Table, u: Table, k: nat)
    requires k <= |t.vertex| && u.vertex == t.vertex && u.leftMost == t.leftMost && Homes(t, k)
    ensures Homes(u, k)
  {
    forall c | 0 <= c < k
      ensures Home(u, u.vertex[c])
    {
      assert Home(t, t.vertex[c]);
    }
  }

  lemma Gluable(t: Table, a: nat, c: nat)
    requires TableFull(t, c) && c + 3 <= |t.vertex| && Free(t, c, a)
    ensures Matching(t.opposite) && |t.vertex| == |t.opposite| && EdgesAgree(t.opposite, t.vertex)
    ensures c % 3 == 0 && t.opposite[a] < 0 && t.opposite[c] < 0 && t.opposite[c + 1] < 0 && t.opposite[c + 2] < 0
  {
    hide Matching, EdgesAgree, Indexed, Homes;
  }

  lemma FaceSideAgrees(t: Table, a: nat, c: nat, right: bool)
    requires Matching(t.opposite) && |t.vertex| == |t.opposite| && EdgesAgree(t.opposite, t.vertex)
    requires c % 3 == 0 && c + 3 <= |t.vertex| && a < c
    requires t.opposite[a] < 0 && t.opposite[c] < 0 && t.opposite[c + 1] < 0 && t.opposite[c + 2] < 0
    ensures var (x, y, z) := SideLabels(t, a, c, right);
            var o := if right then c + 2 else c + 1;
            Matching(t.opposite[o := a][a := o]) &&
            EdgesAgree(t.opposite[o := a][a := o], NewFace(t.vertex, c, x, y, z))
  {
    hide Matching, EdgesAgree;
    RotateBelow(a, c / 3);
    var (x, y, z) := SideLabels(t, a, c, right);
    var v, o := NewFace(t.vertex, c, x, y, z), if right then c + 2 else c + 1;
    LabelAgrees(t.opposite, t.vertex, v, c / 3);
    GlueAgrees(t.opposite, v, o, a);
  }

  lemma FaceSideHomes(t: Table, a: nat, c: nat, right: bool)
    requires TableBase(t, c) && Homes(t, c) && c + 3 <= |t.vertex| && a < c && Previous(a) < c
    requires t.numVertices < |t.leftMost|
    ensures var (x, y, z) := SideLabels(t, a, c, right);
            var o, vr := if right then c + 2 else c + 1, t.vertex[Previous(a)];
            Homes(t.(vertex := NewFace(t.vertex, c, x, y, z),
                     leftMost := t.leftMost[t.numVertices := o][vr := if right then c else c + 2]), c + 3)
  {
    hide Matching;
    FaceSizes(t, a, a, c);
    var (x, y, z) := SideLabels(t, a, c, right);
    var o, vr := if right then c + 2 else c + 1, t.vertex[Previous(a)];
    var r := t.(vertex := NewFace(t.vertex, c, x, y, z),
                leftMost := t.leftMost[t.numVertices := o][vr := if right then c else c + 2]);
    assert Home(t, t.vertex[Next(a)]) && Home(t, vr);
    forall d | 0 <= d < c + 3
      ensures Home(r, r.vertex[d])
    {
      if d < c {
        assert Home(t, t.vertex[d]);
      }
    }
  }

  lemma FaceEForm(t: Table, c: nat)
    requires TableBase(t, c) && c + 3 <= |t.vertex| && FaceE(t, c).Some?
    ensures var r := FaceE(t, c).value;
            var n := t.numVertices;
            n + 3 <= |t.leftMost| && r.vertex == NewFace(t.vertex, c, n, n + 1, n + 2) && r.opposite == t.opposite &&
            r.leftMost == t.leftMost[n := c][n + 1 := c + 1][n + 2 := c + 2] && r.numVertices == n + 3 &&
            (Indexed(t) ==> Indexed(r))
  {
    hide Matching, Indexed, Map;
    var n, t3 := t.numVertices, t.(numVertices := t.numVertices + 3);
    IndexedFrame(t, t3);
    MapThree(t3, c, n, c + 1, n + 1, c + 2, n + 2);
    var t4 := Map(Map(Map(t3, c, n), c + 1, n + 1), c + 2, n + 2);
    IndexedFrame(t4, SetLeftMost(SetLeftMost(SetLeftMost(t4, n, c), n + 1, c + 1), n + 2, c + 2));
  }

  lemma FaceEKeeps(t: Table, c: nat)
    requires TableBase(t, c) && c + 3 <= |t.vertex| && FaceE(t, c).Some?
    ensures TableBase(FaceE(t, c).value, c + 3)
    ensures TableFull(t, c) ==> TableFull(FaceE(t, c).value, c + 3)
  {
    hide Matching, Indexed, EdgesAgree, FaceE;
    FaceEForm(t, c);
    var r := FaceE(t, c).value;
    if TableFull(t, c) {
      LabelAgrees(t.opposite, t.vertex, r.vertex, c / 3);
      forall d | 0 <= d < c + 3
        ensures Home(r, r.vertex[d])
      {
        if d < c {
          assert Home(t, t.vertex[d]);
        }
      }
    }
  }

  // ---- the S face and its merge ---------------------------------------------------------------

  lemma FaceSForm(t: Table, a: nat, b: nat, c: nat)
    requires TableBase(t, c) && c + 3 <= |t.vertex| && Free(t, c, a) && Free(t, c, b) && a != b
    ensures var r := FaceS(t, a, b, c);
            Previous(a) < c && Next(a) < c && Previous(b) < c &&
            var p, q := t.vertex[Previous(a)], t.vertex[Previous(b)];
            r.vertex == NewFace(t.vertex, c, p, t.vertex[Next(a)], q) && r.leftMost == t.leftMost[q := c + 2] &&
            r.opposite == t.opposite[a := c + 2][c + 2 := a][b := c + 1][c + 1 := b] &&
            r.numVertices == t.numVertices && (Indexed(t) ==> Indexed(r))
  {
    hide Matching, Indexed, Map;
    FaceSizes(t, a, b, c);
    FaceSizes(t, b, a, c);
    var t1 := SetOpposite(SetOpposite(t, a, c + 2), b, c + 1);
    IndexedFrame(t, t1);
    var p, l, q := t.vertex[Previous(a)], t.vertex[Next(a)], t.vertex[Previous(b)];
    MapStep(t1, c, p);
    var t2 := Map(t1, c, p);
    MapStep(t2, c + 1, l);
    var t3 := Map(t2, c + 1, l);
    MapStep(t3, c + 2, q);
    IndexedFrame(Map(t3, c + 2, q), SetLeftMost(Map(t3, c + 2, q), q, c + 2));
  }

  lemma FaceSKeepsBase(t: Table, a: nat, b: nat, c: nat)
    requires TableBase(t, c) && c + 3 <= |t.vertex| && Free(t, c, a) && Free(t, c, b) && a != b
    ensures TableBase(FaceS(t, a, b, c), c + 3)
    ensures var r := FaceS(t, a, b, c);
            Previous(a) < c && Next(b) < c &&
            r.vertex[Previous(a)] == t.vertex[Previous(a)] && r.vertex[Next(b)] == t.vertex[Next(b)]
  {
    hide FaceS, Matching;
    FaceSizes(t, a, b, c);
    FaceSizes(t, b, a, c);
    FaceSForm(t, a, b, c);
    TwoGlued(t.opposite, a, b, c + 2, c + 1);
  }

  /** What the merge of two vertices makes of a table. */
  lemma MergeSForm(t: Table, k: nat, n: nat, p: nat, seed: nat)
    requires TableBase(t, k) && n < t.numVertices && p < t.numVertices && seed < k && t.vertex[seed] == n
    ensures MergeS(t, n, p, seed).Some?
    ensures TableBase(MergeS(t, n, p, seed).value, k)
    ensures MergeS(t, n, p, seed).value.opposite == t.opposite
  {
    hide Matching;
  }

  lemma MergeSIndexed(t: Table, k: nat, n: nat, p: nat, seed: nat)
    requires TableBase(t, k) && Indexed(t) && n < t.numVertices && p < t.numVertices && seed < k && t.vertex[seed] == n
    requires n != p
    ensures MergeS(t, n, p, seed).Some?
    ensures var r := MergeS(t, n, p, seed).value;
            Indexed(r) && r.vertex == Relabel(t.vertex, n, p) &&
            r.leftMost == t.leftMost[p := t.leftMost[n]][n := -1]
  {
    hide Matching, Indexed, MergeFan, Isolate;
    SeedAgrees(t, n, p, seed);
    MergeIsFullScan(t, n, p, seed);
    var t1 := MergeFan(t, n, p, seed).value;
    var t2 := SetLeftMost(t1, p, LeftMostOf(t1, n));
    IndexedFrame(t1, t2);
    IndexedIsolate(t2, n);
    IsolateForm(t2, n);
  }

  lemma SeedAgrees(t: Table, n: nat, p: nat, seed: nat)
    requires Shape(t) && seed < |t.vertex| && t.vertex[seed] == n
    ensures MergeFan(t, n, p, seed).Some?
  {
  }

  lemma IsolateForm(t: Table, n: nat)
    requires Shape(t) && n < |t.leftMost|
    ensures Isolate(t, n).vertex == t.vertex && Isolate(t, n).leftMost == t.leftMost[n := -1] && Isolate(t, n).opposite == t.opposite
  {
  }

  /** An S that merges two different vertices keeps everything. */
  lemma FaceSKeepsFull(t: Table, a: nat, b: nat, c: nat)
    requires TableFull(t, c) && c + 3 <= |t.vertex| && Free(t, c, a) && Free(t, c, b) && a != b
    requires Previous(a) < c && Next(b) < c && t.vertex[Previous(a)] != t.vertex[Next(b)]
    ensures var n, p := t.vertex[Next(b)], t.vertex[Previous(a)];
            MergeS(FaceS(t, a, b, c), n, p, Next(b)).Some? &&
            TableFull(MergeS(FaceS(t, a, b, c), n, p, Next(b)).value, c + 3)
  {
    hide FaceS, MergeS, Matching, EdgesAgree, Indexed, Homes;
    FaceSizes(t, a, b, c);
    FaceSizes(t, b, a, c);
    FaceSForm(t, a, b, c);
    FaceSKeepsBase(t, a, b, c);
    var n, p, u := t.vertex[Next(b)], t.vertex[Previous(a)], FaceS(t, a, b, c);
    MergeSForm(u, c + 3, n, p, Next(b));
    MergeSIndexed(u, c + 3, n, p, Next(b));
    FaceSAgrees(t, a, b, c);
    FaceSHomes(t, a, b, c);
    var q := t.vertex[Previous(b)];
    HomesFrame(t.(vertex := Relabel(NewFace(t.vertex, c, p, t.vertex[Next(a)], q), n, p),
                  leftMost := t.leftMost[q := c + 2][p := t.leftMost[q := c + 2][n]][n := -1]),
               MergeS(u, n, p, Next(b)).value, c + 3);
  }

  lemma FaceSAgrees(t: Table, a: nat, b: nat, c: nat)
    requires TableFull(t, c) && c + 3 <= |t.vertex| && Free(t, c, a) && Free(t, c, b) && a != b
    requires Previous(a) < c && Next(a) < c && Previous(b) < c && Next(b) < c
    ensures var n, p := t.vertex[Next(b)], t.vertex[Previous(a)];
            var v := Relabel(NewFace(t.vertex, c, p, t.vertex[Next(a)], t.vertex[Previous(b)]), n, p);
            var opp := t.opposite[a := c + 2][c + 2 := a][b := c + 1][c + 1 := b];
            Matching(opp) && EdgesAgree(opp, v)
  {
    hide Matching, EdgesAgree, Indexed, Homes;
    var n, p := t.vertex[Next(b)], t.vertex[Previous(a)];
    var v := NewFace(t.vertex, c, p, t.vertex[Next(a)], t.vertex[Previous(b)]);
    LabelAgrees(t.opposite, t.vertex, v, c / 3);
    GlueAgrees(t.opposite, v, a, c + 2);
    GlueRelabelled(t.opposite[a := c + 2][c + 2 := a], v, b, c + 1, n, p);
  }

  lemma FaceSHomes(t: Table, a: nat, b: nat, c: nat)
    requires TableBase(t, c) && Homes(t, c) && c + 3 <= |t.vertex|
    requires a < c && b < c && Previous(a) < c && Next(a) < c && Previous(b) < c && Next(b) < c
    requires t.vertex[Previous(a)] != t.vertex[Next(b)]
    ensures var n, p, q := t.vertex[Next(b)], t.vertex[Previous(a)], t.vertex[Previous(b)];
            Homes(t.(vertex := Relabel(NewFace(t.vertex, c, p, t.vertex[Next(a)], q), n, p),
                     leftMost := t.leftMost[q := c + 2][p := t.leftMost[q := c + 2][n]][n := -1]), c + 3)
  {
    hide Matching;
    var n, p, q := t.vertex[Next(b)], t.vertex[Previous(a)], t.vertex[Previous(b)];
    var v := NewFace(t.vertex, c, p, t.vertex[Next(a)], q);
    var r := t.(vertex := Relabel(v, n, p), leftMost := t.leftMost[q := c + 2][p := t.leftMost[q := c + 2][n]][n := -1]);
    assert Home(t, n) && Home(t, p) && Home(t, q) && Home(t, t.vertex[Next(a)]);
    forall d | 0 <= d < c + 3
      ensures Home(r, r.vertex[d])
    {
      if d < c {
        assert Home(t, t.vertex[d]);
      }
    }
  }

  /** Merging a vertex with itself takes away the home of a vertex that owns a corner. */
  lemma SelfMergeBreaks(t: Table, a: nat, b: nat, c: nat)
    requires TableBase(t, c) && c + 3 <= |t.vertex| && Free(t, c, a) && Free(t, c, b) && a != b
    requires Previous(a) < c && Next(b) < c && t.vertex[Previous(a)] == t.vertex[Next(b)]
    ensures var v := t.vertex[Next(b)];
            MergeS(FaceS(t, a, b, c), v, v, Next(b)).Some? &&
            !TableFull(MergeS(FaceS(t, a, b, c), v, v, Next(b)).value, c + 3)
  {
    hide FaceS, Matching, Indexed, EdgesAgree;
    FaceSizes(t, a, b, c);
    FaceSForm(t, a, b, c);
    var v, u := t.vertex[Next(b)], FaceS(t, a, b, c);
    var r := MergeS(u, v, v, Next(b)).value;
    assert r.vertex[c] == v && !Home(r, r.vertex[c]);
  }

  // ---- steps ----------------------------------------------------------------------------------

  lemma StepCKeeps(s: State)
    requires Base(s) && 3 * s.faces + 3 <= |s.t.vertex| && StepC(s).Some?
    ensures Base(StepC(s).value) && StepC(s).value.faces == s.faces + 1
    ensures Full(s) ==> Full(StepC(s).value)
  {
    hide FaceC, Matching, EdgesAgree, Indexed;
    var a := Top(s);
    RotateBelow(a, s.faces);
    var x := s.t.vertex[Next(a)];
    RotateBelow(s.t.leftMost[x], s.faces);
    var b := Next(s.t.leftMost[x]);
    FaceCKeepsBase(s.t, a, b, 3 * s.faces, x);
    if Full(s) {
      FaceCKeepsFull(s.t, a, b, 3 * s.faces, x);
    }
  }

  lemma StepSideKeeps(s: State, right: bool)
    requires Base(s) && 3 * s.faces + 3 <= |s.t.vertex| && StepSide(s, right).Some?
    ensures Base(StepSide(s, right).value) && StepSide(s, right).value.faces == s.faces + 1
    ensures Full(s) ==> Full(StepSide(s, right).value)
  {
    hide FaceSide, Matching, EdgesAgree, Indexed;
    FaceSideKeepsBase(s.t, Top(s), 3 * s.faces, right);
    if Full(s) {
      FaceSideKeepsFull(s.t, Top(s), 3 * s.faces, right);
    }
  }

  lemma StepEKeeps(s: State)
    requires Base(s) && 3 * s.faces + 3 <= |s.t.vertex| && StepE(s).Some?
    ensures Base(StepE(s).value) && StepE(s).value.faces == s.faces + 1
    ensures Full(s) ==> Full(StepE(s).value)
  {
    hide FaceE, Matching, EdgesAgree, Indexed;
    FaceEKeeps(s.t, 3 * s.faces);
  }

  lemma StepSKeeps(s: State, id: nat, remove: bool)
    requires Base(s) && 3 * s.faces + 3 <= |s.t.vertex| && id < |s.splits| && StepS(s, id, remove).Some?
    ensures Base(StepS(s, id, remove).value) && StepS(s, id, remove).value.faces == s.faces + 1
    ensures Full(s) ==> (Full(StepS(s, id, remove).value) <==> !SelfMerge(s, TOPOLOGY_S, id))
  {
    hide FaceS, MergeS, Matching, EdgesAgree, Indexed;
    var b, active, c := Top(s), Resume(s, id), 3 * s.faces;
    var a := active[|active| - 1];
    RotateBelow(a, s.faces);
    RotateBelow(b, s.faces);
    FaceSKeepsBase(s.t, a, b, c);
    var n, p := s.t.vertex[Next(b)], s.t.vertex[Previous(a)];
    MergeSForm(FaceS(s.t, a, b, c), c + 3, n, p, Next(b));
    if Full(s) {
      if n != p {
        FaceSKeepsFull(s.t, a, b, c);
      } else {
        SelfMergeBreaks(s.t, a, b, c);
      }
    }
  }

  lemma {:induction false} TakeSplitsKeeps(s: State, id: nat, n: nat, events: seq<Event>)
    requires s.active != [] && |s.splits| == n && -1 <= s.splitIndex < |events| && id < n
    requires Base(s) && TakeSplits(s, id, n, events).Some?
    ensures Base(TakeSplits(s, id, n, events).value)
    ensures Full(s) ==> Full(TakeSplits(s, id, n, events).value)
    decreases s.splitIndex + 1
  {
    hide TableBase, EdgesAgree, Indexed, Homes;
    if s.splitIndex >= 0 && events[s.splitIndex].source == n - id - 1 {
      var event := events[s.splitIndex];
      RotateBelow(Top(s), s.faces);
      var corner := if event.right then NextOf(Top(s)) else PreviousOf(Top(s));
      TakeSplitsKeeps(s.(splits := s.splits[n - event.split - 1 := Some(corner)], splitIndex := s.splitIndex - 1), id, n, events);
    }
  }

  /** Every symbol step, for any symbol and any split events: the table stays a partial matching
      with labelled decoded corners; edges keep agreeing, every vertex that owns a corner keeps a
      left-most corner of its own and the corner index stays exact, unless (and only unless) the
      step merges a vertex with itself. */
  lemma StepKeeps(s: State, symbol: nat, id: nat, n: nat, events: seq<Event>, remove: bool)
    requires Base(s) && 3 * s.faces + 3 <= |s.t.vertex|
    requires |s.splits| == n && -1 <= s.splitIndex < |events| && id < n && Step(s, symbol, id, n, events, remove).Some?
    ensures var r := Step(s, symbol, id, n, events, remove).value;
            Base(r) && r.faces == s.faces + 1 && (Full(s) ==> (Full(r) <==> !SelfMerge(s, symbol, id)))
  {
    hide StepC, StepS, StepSide, StepE, TakeSplits, TableBase, TableFull;
    if symbol == TOPOLOGY_C {
      StepCKeeps(s);
    } else if symbol == TOPOLOGY_S {
      StepSKeeps(s, id, remove);
    } else if symbol == TOPOLOGY_E {
      StepEKeeps(s);
      TakeSplitsKeeps(StepE(s).value, id, n, events);
    } else {
      StepSideKeeps(s, symbol == TOPOLOGY_R);
      TakeSplitsKeeps(StepSide(s, symbol == TOPOLOGY_R).value, id, n, events);
    }
  }

  // ---- runs -----------------------------------------------------------------------------------

  function Start(numFaces: nat, maxVertices: nat, track: bool, n: nat, numEvents: nat): (s: State)
    ensures Ready(s) && |s.splits| == n && s.splitIndex == numEvents - 1
  {
    State(EmptyTable(numFaces, maxVertices, track), [], seq(n, _ => None), numEvents - 1, seq(maxVertices, _ => true), 0, [])
  }

  /** The state after the first i symbols. */
  function RunTo(s: State, symbols: seq<nat>, events: seq<Event>, remove: bool, i: nat): (r: Option<State>)
    requires Ready(s) && |s.splits| == |symbols| && -1 <= s.splitIndex < |events| && i <= |symbols|
    ensures r.Some? ==> Ready(r.value) && SameSize(s, r.value) && |r.value.splits| == |symbols| && -1 <= r.value.splitIndex < |events|
    decreases i
  {
    if i == 0 then Some(s)
    else
      match RunTo(s, symbols, events, remove, i - 1)
      case None => None
      case Some(s1) => Step(s1, symbols[i - 1], i - 1, |symbols|, events, remove)
  }

  /** No S up to step i merges a vertex with itself. */
  ghost predicate NoSelfMerge(s: State, symbols: seq<nat>, events: seq<Event>, remove: bool, i: nat)
    requires Ready(s) && |s.splits| == |symbols| && -1 <= s.splitIndex < |events| && i <= |symbols|
  {
    forall j :: 0 <= j < i && RunTo(s, symbols, events, remove, j).Some? ==>
      !SelfMerge(RunTo(s, symbols, events, remove, j).value, symbols[j], j)
  }

  lemma StartFull(numFaces: nat, maxVertices: nat, track: bool, n: nat, numEvents: nat)
    ensures Full(Start(numFaces, maxVertices, track, n, numEvents))
  {
    EmptyTableOk(numFaces, maxVertices, track);
  }

  /** The invariant over whole runs. */
  lemma {:induction false} RunKeeps(s: State, symbols: seq<nat>, events: seq<Event>, remove: bool, i: nat)
    requires |s.splits| == |symbols| && -1 <= s.splitIndex < |events| && i <= |symbols|
    requires Base(s) && s.faces == 0 && 3 * i <= |s.t.vertex|
    requires RunTo(s, symbols, events, remove, i).Some?
    ensures var r := RunTo(s, symbols, events, remove, i).value;
            Base(r) && r.faces == i && (Full(s) && NoSelfMerge(s, symbols, events, remove, i) ==> Full(r))
    decreases i
  {
    hide Step, TableBase, TableFull, SelfMerge;
    if i > 0 {
      RunKeeps(s, symbols, events, remove, i - 1);
      var r := RunTo(s, symbols, events, remove, i - 1).value;
      StepKeeps(r, symbols[i - 1], i - 1, |symbols|, events, remove);
    }
  }

  // ---- more symbols than faces ------------------------------------------------------------------

  /** Every accepted symbol counts one face, in the table or past its end. */
  lemma StepFaces(s: State, symbol: nat, id: nat, n: nat, events: seq<Event>, remove: bool)
    requires Ready(s) && |s.splits| == n && -1 <= s.splitIndex < |events| && id < n && Step(s, symbol, id, n, events, remove).Some?
    ensures Step(s, symbol, id, n, events, remove).value.faces == s.faces + 1
  {
    hide FaceC, FaceS, FaceSide, FaceE, MergeS;
  }

  lemma {:induction false} RunFaces(s: State, symbols: seq<nat>, events: seq<Event>, remove: bool, i: nat)
    requires Ready(s) && |s.splits| == |symbols| && -1 <= s.splitIndex < |events| && i <= |symbols|
    requires RunTo(s, symbols, events, remove, i).Some?
    ensures RunTo(s, symbols, events, remove, i).value.faces == s.faces + i
    decreases i
  {
    hide Step;
    if i > 0 {
      RunFaces(s, symbols, events, remove, i - 1);
      StepFaces(RunTo(s, symbols, events, remove, i - 1).value, symbols[i - 1], i - 1, |symbols|, events, remove);
    }
  }

  /** The invariant in the table; past its end only the sizes are kept. */
  ghost predicate Going(s: State)
  {
    Base(s) || (Ready(s) && 3 * s.faces > |s.t.vertex|)
  }

  lemma StepGoes(s: State, symbol: nat, id: nat, n: nat, events: seq<Event>, remove: bool)
    requires Going(s) && |s.splits| == n && -1 <= s.splitIndex < |events| && id < n && Step(s, symbol, id, n, events, remove).Some?
    ensures var r := Step(s, symbol, id, n, events, remove).value; Going(r) && r.faces == s.faces + 1
  {
    hide Step, TableBase, TableFull, SelfMerge;
    StepFaces(s, symbol, id, n, events, remove);
    if Base(s) && 3 * s.faces + 3 <= |s.t.vertex| {
      StepKeeps(s, symbol, id, n, events, remove);
    }
  }
}
