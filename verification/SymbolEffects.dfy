/** What each symbol does to the boundary it works on (edgebreaker_decode.go), told by the gate
    before it and the gate after it.  A gate is an active corner; its edge runs from the vertex of
    its next corner to the vertex of its previous one. */
module SymbolEffects {
  import opened Bits
  import opened Corners
  import opened CornerTables
  import opened Connectivity
  import StartFaces

  ghost predicate InTable(s: State, id: nat, n: nat, events: seq<Event>)
  {
    Base(s) && 3 * s.faces + 3 <= |s.t.vertex| && |s.splits| == n && -1 <= s.splitIndex < |events| && id < n
  }

  /** The corners of a gate's edge. */
  function From(t: Table, gate: int): int
  {
    VertexOf(t, NextOf(gate))
  }

  function To(t: Table, gate: int): int
  {
    VertexOf(t, PreviousOf(gate))
  }

  /** Corners decoded before keep their vertices, and their neighbours unless they were just glued. */
  ghost predicate OthersKept(s: State, r: State, glued: set<int>)
  {
    |r.t.vertex| == |s.t.vertex| == |s.t.opposite| == |r.t.opposite| && 3 * s.faces <= |s.t.vertex| &&
    (forall c :: 0 <= c < 3 * s.faces ==> r.t.vertex[c] == s.t.vertex[c]) &&
    forall c :: 0 <= c < 3 * s.faces && c !in glued ==> r.t.opposite[c] == s.t.opposite[c]
  }

  /** R and L glue one face to the gate and add one vertex. */
  ghost predicate GrowsBy(s: State, r: State, glued: int)
    requires s.active != [] && r.active != []
  {
    Top(r) == 3 * s.faces && r.active == s.active[..|s.active| - 1] + [Top(r)] && r.t.numVertices == s.t.numVertices + 1 &&
    OppositeOf(r.t, Top(s)) == glued && OppositeOf(r.t, glued) == Top(s) && OthersKept(s, r, {Top(s)}) &&
    (forall c :: 3 * s.faces <= c < 3 * s.faces + 3 && c != glued ==> OppositeOf(r.t, c) == -1)
  }

  /** R: the gate's edge keeps where it comes from and now leads to a new vertex; the old gate is
      opposite the corner at that vertex. */
  lemma RightBuilds(s: State, id: nat, n: nat, events: seq<Event>, remove: bool)
    requires InTable(s, id, n, events) && Step(s, TOPOLOGY_R, id, n, events, remove).Some?
    ensures var r := Step(s, TOPOLOGY_R, id, n, events, remove).value;
            s.active != [] && GrowsBy(s, r, PreviousOf(Top(r))) &&
            From(r.t, Top(r)) == From(s.t, Top(s)) && To(r.t, Top(r)) == s.t.numVertices && VertexOf(r.t, Top(r)) == To(s.t, Top(s))
  {
    hide Matching, FaceSide;
    FaceSideForm(s.t, Top(s), 3 * s.faces, true);
    FaceSizes(s.t, Top(s), Top(s), 3 * s.faces);
  }

  /** L: the mirror image; the gate's edge comes from a new vertex and keeps where it leads to. */
  lemma LeftBuilds(s: State, id: nat, n: nat, events: seq<Event>, remove: bool)
    requires InTable(s, id, n, events) && Step(s, TOPOLOGY_L, id, n, events, remove).Some?
    ensures var r := Step(s, TOPOLOGY_L, id, n, events, remove).value;
            s.active != [] && GrowsBy(s, r, NextOf(Top(r))) &&
            To(r.t, Top(r)) == To(s.t, Top(s)) && From(r.t, Top(r)) == s.t.numVertices && VertexOf(r.t, Top(r)) == From(s.t, Top(s))
  {
    hide Matching, FaceSide;
    FaceSideForm(s.t, Top(s), 3 * s.faces, false);
    FaceSizes(s.t, Top(s), Top(s), 3 * s.faces);
  }

  /** C: the gate's edge and the boundary edge before it, which leads to where the gate comes from,
      are replaced by one edge; the vertex between them becomes the third corner of the face. */
  lemma CloseBuilds(s: State, id: nat, n: nat, events: seq<Event>, remove: bool)
    requires InTable(s, id, n, events) && Full(s) && Step(s, TOPOLOGY_C, id, n, events, remove).Some?
    ensures var r := Step(s, TOPOLOGY_C, id, n, events, remove).value;
            s.active != [] &&
            var a, h := Top(s), Top(r);
            var b := OppositeOf(r.t, PreviousOf(h));
            h == 3 * s.faces && r.active == s.active[..|s.active| - 1] + [h] && r.t.numVertices == s.t.numVertices &&
            0 <= b < h && a != b && OppositeOf(s.t, a) == OppositeOf(s.t, b) == -1 && To(s.t, b) == From(s.t, a) &&
            OppositeOf(r.t, a) == NextOf(h) && OppositeOf(r.t, NextOf(h)) == a && OppositeOf(r.t, b) == PreviousOf(h) &&
            OppositeOf(r.t, h) == -1 && OthersKept(s, r, {a, b}) &&
            From(r.t, h) == From(s.t, b) && To(r.t, h) == To(s.t, a) && VertexOf(r.t, h) == From(s.t, a) &&
            VertexOf(r.t, h) !in {From(r.t, h), To(r.t, h)}
  {
    hide Matching, FaceC, Indexed, EdgesAgree;
    var a, c := Top(s), 3 * s.faces;
    FaceSizes(s.t, a, a, c);
    var x := s.t.vertex[Next(a)];
    assert Home(s.t, x);
    FaceSizes(s.t, s.t.leftMost[x], s.t.leftMost[x], c);
    var b := Next(s.t.leftMost[x]);
    Rotate(s.t.leftMost[x]);
    FaceSizes(s.t, b, b, c);
    FreeIsNone(s.t, a);
    FreeIsNone(s.t, b);
    FaceCForm(s.t, a, b, c, x);
  }

  lemma FreeIsNone(t: Table, c: nat)
    requires Matching(t.opposite) && c < |t.opposite| && t.opposite[c] < 0
    ensures t.opposite[c] == -1
  {
  }

  /** E: a triangle with three new vertices and no neighbour; its boundary comes on top. */
  lemma TriangleBuilds(s: State, id: nat, n: nat, events: seq<Event>, remove: bool)
    requires InTable(s, id, n, events) && Step(s, TOPOLOGY_E, id, n, events, remove).Some?
    ensures var r := Step(s, TOPOLOGY_E, id, n, events, remove).value;
            var h, v := 3 * s.faces, s.t.numVertices;
            r.active == s.active + [h] && r.t.numVertices == v + 3 && OthersKept(s, r, {}) && r.t.opposite == s.t.opposite &&
            VertexOf(r.t, h) == v && From(r.t, h) == v + 1 && To(r.t, h) == v + 2
  {
    hide Matching, FaceE;
    FaceEForm(s.t, 3 * s.faces);
  }

  /** The vertex that the edges of both boundaries share after an S. */
  function Merge(v: int, from: int, to: int): int
  {
    if v == from then to else v
  }

  /** The face of an S whose two vertices have been merged. */
  lemma JoinedFace(t: Table, a: nat, b: nat, c: nat)
    requires TableFull(t, c) && c + 3 <= |t.vertex| && Free(t, c, a) && Free(t, c, b) && a != b
    ensures Previous(a) < c && Next(a) < c && Previous(b) < c && Next(b) < c
    ensures var u, gone, kept := FaceS(t, a, b, c), t.vertex[Next(b)], t.vertex[Previous(a)];
            VertexOf(u, Next(b)) == gone && VertexOf(u, Previous(a)) == kept && MergeS(u, gone, kept, Next(b)).Some? &&
            var r := MergeS(u, gone, kept, Next(b)).value;
            r.vertex == Relabel(NewFace(t.vertex, c, kept, t.vertex[Next(a)], t.vertex[Previous(b)]), gone, kept) &&
            r.opposite == t.opposite[a := c + 2][c + 2 := a][b := c + 1][c + 1 := b] && r.numVertices == t.numVertices
  {
    hide Matching, FaceS, MergeS, Indexed, EdgesAgree, Homes;
    FaceSizes(t, a, b, c);
    FaceSizes(t, b, a, c);
    FaceSForm(t, a, b, c);
    FaceSKeepsBase(t, a, b, c);
    var u, gone, kept := FaceS(t, a, b, c), t.vertex[Next(b)], t.vertex[Previous(a)];
    MergeSForm(u, c + 3, gone, kept, Next(b));
    MergeCount(u, gone, kept, Next(b));
    if gone != kept {
      MergeSIndexed(u, c + 3, gone, kept, Next(b));
    } else {
      SelfMergeLabels(u, gone, Next(b));
      assert Relabel(u.vertex, gone, gone) == u.vertex;
    }
  }

  /** S: the gate's edge and that of the boundary it joins become one edge, from where the joined one
      comes from to where the gate's leads; the vertices between them become one. */
  lemma JoinBuilds(s: State, id: nat, n: nat, events: seq<Event>, remove: bool)
    requires InTable(s, id, n, events) && Full(s) && Step(s, TOPOLOGY_S, id, n, events, remove).Some?
    ensures var r := Step(s, TOPOLOGY_S, id, n, events, remove).value;
            s.active != [] && Resume(s, id) != [] &&
            var b, joined, h := Top(s), Resume(s, id), Top(r);
            var a := joined[|joined| - 1];
            var gone, kept := From(s.t, b), To(s.t, a);
            h == 3 * s.faces && r.active == joined[..|joined| - 1] + [h] && r.t.numVertices == s.t.numVertices &&
            a != b && OppositeOf(s.t, a) == OppositeOf(s.t, b) == -1 &&
            OppositeOf(r.t, a) == PreviousOf(h) && OppositeOf(r.t, PreviousOf(h)) == a &&
            OppositeOf(r.t, b) == NextOf(h) && OppositeOf(r.t, NextOf(h)) == b && OppositeOf(r.t, h) == -1 &&
            VertexOf(r.t, h) == kept && From(r.t, h) == Merge(From(s.t, a), gone, kept) && To(r.t, h) == Merge(To(s.t, b), gone, kept) &&
            forall c :: 0 <= c < h ==> VertexOf(r.t, c) == Merge(VertexOf(s.t, c), gone, kept) &&
                                        (c != a && c != b ==> OppositeOf(r.t, c) == OppositeOf(s.t, c))
  {
    hide Matching, FaceS, MergeS, Indexed, EdgesAgree, Homes;
    var b, joined, c := Top(s), Resume(s, id), 3 * s.faces;
    var a := joined[|joined| - 1];
    FreeIsNone(s.t, a);
    FreeIsNone(s.t, b);
    JoinedFace(s.t, a, b, c);
  }

  lemma SelfMergeLabels(t: Table, v: nat, seed: int)
    requires Shape(t) && v < |t.leftMost|
    ensures MergeS(t, v, v, seed).Some? && MergeS(t, v, v, seed).value.vertex == t.vertex
  {
  }

  lemma MergeCount(t: Table, from: int, to: int, seed: int)
    requires Shape(t) && MergeS(t, from, to, seed).Some?
    ensures MergeS(t, from, to, seed).value.numVertices == t.numVertices
  {
  }

  // ---- split events -------------------------------------------------------------------------------

  /** The event that decides which boundary a later symbol k takes up: the last one taken for it. */
  ghost predicate Decides(events: seq<Event>, first: int, last: int, n: nat, k: nat, j: int)
  {
    -1 <= first < j <= last < |events| && n - events[j].split - 1 == k &&
    forall i :: first < i < j ==> n - events[i].split - 1 != k
  }

  /** After R, L and E exactly the events of this symbol are taken, from the end of the list.  A right
      event leaves the edge after the gate to the later symbol, a left one the edge before it. */
  lemma {:induction false} SplitsTaken(s: State, id: nat, n: nat, events: seq<Event>)
    requires s.active != [] && |s.splits| == n && -1 <= s.splitIndex < |events| && id < n && TakeSplits(s, id, n, events).Some?
    ensures var r := TakeSplits(s, id, n, events).value;
            -1 <= r.splitIndex <= s.splitIndex && |r.splits| == n &&
            (forall j :: r.splitIndex < j <= s.splitIndex ==> events[j].source == n - id - 1 && 0 <= n - events[j].split - 1) &&
            (r.splitIndex >= 0 ==> events[r.splitIndex].source != n - id - 1) &&
            (forall k, j :: 0 <= k < n && Decides(events, r.splitIndex, s.splitIndex, n, k, j) ==>
               r.splits[k] == Some(if events[j].right then NextOf(Top(s)) else PreviousOf(Top(s)))) &&
            (forall k :: 0 <= k < n && (forall j :: r.splitIndex < j <= s.splitIndex ==> n - events[j].split - 1 != k) ==>
               r.splits[k] == s.splits[k])
    decreases s.splitIndex + 1
  {
    if s.splitIndex >= 0 && events[s.splitIndex].source == n - id - 1 {
      var last := s.splitIndex;
      var slot := n - events[last].split - 1;
      var corner := if events[last].right then NextOf(Top(s)) else PreviousOf(Top(s));
      var s1 := s.(splits := s.splits[slot := Some(corner)], splitIndex := last - 1);
      SplitsTaken(s1, id, n, events);
      var r := TakeSplits(s1, id, n, events).value;
      forall k, j | 0 <= k < n && Decides(events, r.splitIndex, last, n, k, j)
        ensures r.splits[k] == Some(if events[j].right then NextOf(Top(s)) else PreviousOf(Top(s)))
      {
        if j < last {
          assert Decides(events, r.splitIndex, last - 1, n, k, j);
        } else {
          assert forall i :: r.splitIndex < i <= last - 1 ==> n - events[i].split - 1 != k;
        }
      }
    }
  }

  // ---- start faces and numbers ---------------------------------------------------------------------

  /** The first bit is for the boundary on top.  A hole only leaves the stack; an interior start face is
      glued to the gate with its first corner. */
  lemma StartTaken(s: State, bit: bool, more: seq<bool>)
    requires Base(s) && s.active != [] && 3 * s.faces + 3 <= |s.t.vertex| && StartFaces.RunStart(s, [bit] + more).Some?
    ensures StartFaces.StepStart(s, bit).Some?
    ensures var r := StartFaces.StepStart(s, bit).value;
            StartFaces.RunStart(s, [bit] + more) == StartFaces.RunStart(r, more) && r.active == s.active[..|s.active| - 1] &&
            if bit then r.faces == s.faces + 1 && OppositeOf(r.t, 3 * s.faces) == Top(s) && OppositeOf(r.t, Top(s)) == 3 * s.faces
            else r == s.(active := r.active)
  {
    assert ([bit] + more)[1..] == more;
    if bit {
      StartGlued(s.t, Top(s), 3 * s.faces);
    }
  }

  lemma StartGlued(t: Table, a: nat, c: nat)
    requires TableBase(t, c) && a < c && c + 3 <= |t.vertex| && StartFaces.FaceStart(t, a, c).Some?
    ensures var r := StartFaces.FaceStart(t, a, c).value; OppositeOf(r, c) == a && OppositeOf(r, a) == c
  {
    hide StartFaces.SecondCorner;
    StartFaces.SecondInRange(t, c, a);
    StartFaces.SecondInRange(t, c, StartFaces.SecondCorner(t, a));
  }

  /** The numbers that stand for the symbols in a stream. */
  lemma SymbolNumbers(s: State, id: nat, n: nat, events: seq<Event>, remove: bool)
    requires Ready(s) && |s.splits| == n && -1 <= s.splitIndex < |events| && id < n
    ensures TOPOLOGY_C == 0 && TOPOLOGY_S == 1 && TOPOLOGY_L == 3 && TOPOLOGY_R == 5 && TOPOLOGY_E == 7
    ensures forall symbol: nat :: symbol !in {0, 1, 3, 5, 7} ==> Step(s, symbol, id, n, events, remove) == None
  {
  }
}
