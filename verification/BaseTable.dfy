/** The encoder's base table (edgebreaker_encode.go): faces become a corner table by half-edge
    matching and splitting into fans. */
module BaseTables {
  import opened Corners
  import opened CornerTables
  import opened HalfEdges
  import opened VertexFans
  import opened Seams

  /** The vertex of each corner, face by face. */
  ghost function FaceVertices(faces: seq<seq<int>>): (r: seq<int>)
    requires forall f :: 0 <= f < |faces| ==> |faces[f]| == 3
    ensures |r| == 3 * |faces|
    ensures forall c :: 0 <= c < |r| ==> r[c] == faces[c / 3][c % 3]
  {
    seq(3 * |faces|, c requires 0 <= c < 3 * |faces| => faces[c / 3][c % 3])
  }

  ghost predicate FaceOk(face: seq<int>, numVertices: nat)
  {
    |face| == 3 && face[0] != face[1] && face[1] != face[2] && face[0] != face[2] &&
    forall i :: 0 <= i < 3 ==> 0 <= face[i] < numVertices
  }

  /** Copies the faces; false for a degenerate face or a vertex out of range. */
  method CopyFaces(table: CornerTable, numVertices: nat, faces: seq<seq<int>>) returns (ok: bool)
    requires table.Separate() && table.cornerVertex.Length == 3 * |faces| && forall f :: 0 <= f < |faces| ==> |faces[f]| == 3
    modifies table.cornerVertex
    ensures ok <==> forall f :: 0 <= f < |faces| ==> FaceOk(faces[f], numVertices)
    ensures ok ==> table.cornerVertex[..] == FaceVertices(faces)
  {
    for f := 0 to |faces|
      invariant forall g :: 0 <= g < f ==> FaceOk(faces[g], numVertices)
      invariant forall c :: 0 <= c < 3 * f ==> table.cornerVertex[c] == faces[c / 3][c % 3]
    {
      var face := faces[f];
      if face[0] == face[1] || face[1] == face[2] || face[0] == face[2] {
        return false;
      }
      for local := 0 to 3
        invariant forall i :: 0 <= i < local ==> 0 <= face[i] < numVertices
        invariant forall c :: 0 <= c < 3 * f + local ==> table.cornerVertex[c] == faces[c / 3][c % 3]
      {
        if face[local] < 0 || face[local] >= numVertices {
          return false;
        }
        CornerOf(f, local);
        table.cornerVertex[3 * f + local] := face[local];
      }
    }
    ok := true;
  }

  lemma CornerOf(f: nat, local: nat)
    requires local < 3
    ensures (3 * f + local) / 3 == f && (3 * f + local) % 3 == local
  {
  }

  lemma FaceVerticesRange(faces: seq<seq<int>>, numVertices: nat)
    requires forall f :: 0 <= f < |faces| ==> |faces[f]| == 3
    requires forall f :: 0 <= f < |faces| ==> FaceOk(faces[f], numVertices)
    ensures Labelled(FaceVertices(faces), numVertices)
  {
    var vertex := FaceVertices(faces);
    forall c | 0 <= c < |vertex|
      ensures 0 <= vertex[c] < numVertices
    {
      assert FaceOk(faces[c / 3], numVertices);
    }
  }

  /** The edges are matched maximally before splitting, and the result is a base table. */
  ghost predicate IsBaseTable(t: Table, vertex0: seq<int>, numVertices: nat)
  {
    Matching(t.opposite) && |vertex0| == |t.opposite| && Maximal(vertex0, t.opposite, |vertex0|) &&
    FansSplit(t.opposite, vertex0, numVertices, t.vertex, t.leftMost, t.numVertices) &&
    BaseOk(t.opposite, t.vertex, t.leftMost, t.numVertices)
  }

  function MaxVertices(numVertices: nat, numFaces: nat): nat
  {
    if numVertices > 3 * numFaces then numVertices else 3 * numFaces
  }

  /** The edges of the faces are matched maximally, each corner with the lowest free one before it. */
  ghost predicate Matched(opp: seq<int>, vertex: seq<int>)
  {
    Matching(opp) && |vertex| == |opp| && Maximal(vertex, opp, |vertex|) && Greedy(vertex, opp, |vertex|)
  }

  /** buildNonManifoldEdgebreakerBaseTable: for faces without repeated or unknown vertices it
      succeeds exactly when there are ids for all fans beyond the first of each used vertex, as
      there are whenever every vertex is used; a success is a maximal edge matching whose vertices
      have been split into single fans. */
  method Build(numVertices: nat, faces: seq<seq<int>>) returns (ok: bool, table: CornerTable)
    requires forall f :: 0 <= f < |faces| ==> |faces[f]| == 3
    ensures fresh(table.Repr()) && table.Separate()
    ensures ok ==> (forall f :: 0 <= f < |faces| ==> FaceOk(faces[f], numVertices)) &&
                   IsBaseTable(table.Value(), FaceVertices(faces), numVertices)
    ensures (forall f :: 0 <= f < |faces| ==> FaceOk(faces[f], numVertices)) && AllUsed(FaceVertices(faces), numVertices) ==> ok
    ensures (forall f :: 0 <= f < |faces| ==> FaceOk(faces[f], numVertices)) ==>
              Matched(table.opposite[..], FaceVertices(faces)) &&
              (ok <==> IdsFit(table.opposite[..], FaceVertices(faces), numVertices, MaxVertices(numVertices, |faces|))) &&
              (ok ==> LabelsTo(table.opposite[..], FaceVertices(faces), numVertices, table.cornerVertex[..], |FaceVertices(faces)|))
  {
    hide FaceVertices, Maximal, FansSplit, BaseOk, Matching, EdgesAgree, IdsFit, LabelsTo, Greedy;
    var maxVertices := MaxVertices(numVertices, |faces|);
    table := new CornerTable(|faces|, maxVertices, false);
    EmptyOpposites(table, |faces|, maxVertices);
    ok := CopyFaces(table, numVertices, faces);
    if !ok {
      return;
    }
    FaceVerticesRange(faces, numVertices);
    ok := ComputeOpposites(table, numVertices);
    ghost var opp := table.opposite[..];
    LabelRange(table.cornerVertex[..], numVertices);
    ok := ComputeVertexCorners(table, numVertices);
    if ok {
      SplitIsBase(opp, FaceVertices(faces), numVertices, table.cornerVertex[..], table.vertexCorners[..], table.numVertices);
    }
  }

  lemma EmptyOpposites(table: CornerTable, numFaces: nat, maxVertices: nat)
    requires table.Value() == EmptyTable(numFaces, maxVertices, false)
    ensures table.cornerVertex.Length == table.opposite.Length == 3 * numFaces && table.vertexCorners.Length == maxVertices
    ensures forall c :: 0 <= c < table.opposite.Length ==> table.opposite[c] == -1
  {
    assert |table.Value().vertex| == 3 * numFaces && |table.Value().opposite| == 3 * numFaces && |table.Value().leftMost| == maxVertices;
    forall c | 0 <= c < table.opposite.Length
      ensures table.opposite[c] == -1
    {
      assert table.Value().opposite[c] == -1;
    }
  }

  lemma LabelRange(vertex: seq<int>, n: nat)
    requires Labelled(vertex, n)
    ensures forall c :: 0 <= c < |vertex| ==> 0 <= vertex[c] < n
  {
  }

  // ---- faces that are refused ------------------------------------------------------------------------

  /** Two faces that meet in one vertex, and one vertex of six that no face uses. */
  function TwoFaces(): seq<seq<int>>
  {
    [[0, 1, 2], [0, 3, 4]]
  }

  lemma TwoFacesVertices()
    ensures forall f :: 0 <= f < 2 ==> |TwoFaces()[f]| == 3 && FaceOk(TwoFaces()[f], 6)
    ensures FaceVertices(TwoFaces()) == [0, 1, 2, 0, 3, 4]
  {
  }

  /** They share no edge. */
  lemma NothingMatched(opp: seq<int>)
    requires Matched(opp, [0, 1, 2, 0, 3, 4])
    ensures |opp| == 6 && forall c :: 0 <= c < 6 ==> opp[c] < 0
  {
    hide Matching;
    var vertex := [0, 1, 2, 0, 3, 4];
    forall c | 0 <= c < 6
      ensures opp[c] < 0
    {
      if opp[c] >= 0 {
        MatchedRange(opp, c);
        NoPair(c, opp[c]);
      }
    }
  }

  lemma MatchedRange(opp: seq<int>, c: nat)
    requires Matching(opp) && c < |opp|
    ensures opp[c] < |opp|
  {
  }

  lemma NoPair(c: nat, d: nat)
    requires c < 6 && d < 6
    ensures !Pairable([0, 1, 2, 0, 3, 4], c, d)
  {
  }

  /** Without glued edges every corner is a fan. */
  lemma {:induction false} LoneFans(opp: seq<int>, k: nat)
    requires Matching(opp) && k <= |opp| && forall c :: 0 <= c < |opp| ==> opp[c] < 0
    ensures Fans(opp, k) == k
  {
    hide Linked, Matching;
    if k > 0 {
      LoneFans(opp, k - 1);
      MatchingSize(opp);
      var mark := seq(|opp|, c => c);
      forall c | 0 <= c < |opp|
        ensures SwingRight(opp, c) < 0
      {
        RotateBelow(c, |opp| / 3);
      }
      var c := k - 1;
      forall d | 0 <= d < c
        ensures !Linked(opp, d, c)
      {
        if Linked(opp, d, c) {
          ConstantOnFans(opp, mark, d, c);
        }
      }
    }
  }

  lemma FiveUsed()
    ensures Used([0, 1, 2, 0, 3, 4], 6) == 5
  {
    var vertex := [0, 1, 2, 0, 3, 4];
    assert Used(vertex, 0) == 0;
    assert FirstOfVertex(vertex, 0) && Used(vertex, 1) == 1;
    assert FirstOfVertex(vertex, 1) && Used(vertex, 2) == 2;
    assert FirstOfVertex(vertex, 2) && Used(vertex, 3) == 3;
    assert vertex[..3][0] == 0;
    assert !FirstOfVertex(vertex, 3) && Used(vertex, 4) == 3;
    assert FirstOfVertex(vertex, 4) && Used(vertex, 5) == 4;
    assert FirstOfVertex(vertex, 5) && Used(vertex, 6) == 5;
  }

  /** Valid faces can be refused: the unused vertex keeps an id that the second fan would need. */
  method BuildRefused() returns (ok: bool, table: CornerTable)
    ensures !ok
  {
    hide Matching, IdsFit, FaceVertices, Maximal;
    TwoFacesVertices();
    ok, table := Build(6, TwoFaces());
    NothingMatched(table.opposite[..]);
    SixDoNotFit(table.opposite[..]);
  }

  lemma SixDoNotFit(opp: seq<int>)
    requires Matching(opp) && |opp| == 6 && forall c :: 0 <= c < 6 ==> opp[c] < 0
    ensures !IdsFit(opp, [0, 1, 2, 0, 3, 4], 6, 6)
  {
    hide Matching;
    LoneFans(opp, 6);
    FiveUsed();
  }
}
