/** Attribute seams (edgebreaker_topology.go, edgebreaker_encode.go): marking seam edges on a
    base table and cutting its vertices into attribute vertices along them. */
module Seams {
  import opened Corners
  import opened CornerTables
  import opened VertexFans

  /** The opposite table with seams cut open. */
  function Cut(opp: seq<int>, seam: seq<bool>): (r: seq<int>)
    requires |seam| == |opp|
    ensures |r| == |opp| && forall c :: 0 <= c < |opp| ==> r[c] == if seam[c] then -1 else opp[c]
  {
    seq(|opp|, c requires 0 <= c < |opp| => if seam[c] then -1 else opp[c])
  }

  /** An edge is a seam from both sides or from none. */
  ghost predicate Symmetric(opp: seq<int>, seam: seq<bool>)
    requires Matching(opp)
  {
    |seam| == |opp| && forall c :: 0 <= c < |opp| && opp[c] >= 0 ==> seam[opp[c]] == seam[c]
  }

  /** Exactly the end points of seam edges are flagged. */
  ghost predicate Flagged(vertex: seq<int>, seam: seq<bool>, onSeam: seq<bool>)
    requires |vertex| % 3 == 0 && |seam| == |vertex|
  {
    forall v :: 0 <= v < |onSeam| ==> (onSeam[v] <==> exists c :: Touches(vertex, seam, v, c))
  }

  /** c is a seam corner whose edge ends at v. */
  ghost predicate Touches(vertex: seq<int>, seam: seq<bool>, v: int, c: int)
    requires |vertex| % 3 == 0 && |seam| == |vertex|
  {
    0 <= c < |seam| && seam[c] && (vertex[Next(c)] == v || vertex[Previous(c)] == v)
  }

  lemma CutMatches(opp: seq<int>, seam: seq<bool>)
    requires Matching(opp) && Symmetric(opp, seam)
    ensures Matching(Cut(opp, seam))
  {
  }

  /** Cut swings are base swings that cross no seam. */
  lemma CutSwings(opp: seq<int>, seam: seq<bool>, c: nat)
    requires Matching(opp) && Symmetric(opp, seam) && c < |opp|
    ensures |opp| % 3 == 0 && Matching(Cut(opp, seam))
    ensures SwingRight(Cut(opp, seam), c) == if seam[Previous(c)] then -1 else SwingRight(opp, c)
    ensures SwingLeft(Cut(opp, seam), c) == if seam[Next(c)] then -1 else SwingLeft(opp, c)
    ensures SwingRight(opp, c) < |opp|
    ensures SwingRight(opp, c) >= 0 ==> Next(SwingRight(opp, c)) == opp[Previous(c)]
    ensures SwingRight(opp, c) >= 0 ==> seam[Next(SwingRight(opp, c))] == seam[Previous(c)]
  {
    CutMatches(opp, seam);
    SwingInverse(opp, c);
    if opp[Previous(c)] >= 0 {
      Rotate(opp[Previous(c)]);
    }
  }

  // ---- marking --------------------------------------------------------------------------------

  class AttributeConnectivity {
    const seamEdges: array<bool>
    const vertexOnSeam: array<bool>
    const cornerToVertex: array<int>
    var leftMostCorners: seq<int>
    var numVertices: nat
    var noInteriorSeams: bool

    constructor (numCorners: nat, numVertices: nat)
      ensures fresh(seamEdges) && fresh(vertexOnSeam) && fresh(cornerToVertex) && Separate()
      ensures seamEdges.Length == cornerToVertex.Length == numCorners && vertexOnSeam.Length == numVertices
      ensures forall c :: 0 <= c < numCorners ==> !seamEdges[c]
      ensures forall v :: 0 <= v < numVertices ==> !vertexOnSeam[v]
      ensures noInteriorSeams
    {
      seamEdges := new bool[numCorners](_ => false);
      vertexOnSeam := new bool[numVertices](_ => false);
      cornerToVertex := new int[numCorners](_ => 0);
      leftMostCorners, this.numVertices, noInteriorSeams := [], 0, true;
    }

    ghost predicate Separate()
    {
      seamEdges != vertexOnSeam
    }

    /** Seam marks that are symmetric, with exactly their end points flagged, and interior
        seams remembered. */
    ghost predicate Marked(base: CornerTable)
      reads base.Repr(), seamEdges, vertexOnSeam, `noInteriorSeams
    {
      Separate() && Matching(base.opposite[..]) && base.cornerVertex.Length == base.opposite.Length &&
      Symmetric(base.opposite[..], seamEdges[..]) && Flagged(base.cornerVertex[..], seamEdges[..], vertexOnSeam[..]) &&
      (noInteriorSeams <==> forall c :: 0 <= c < seamEdges.Length && seamEdges[c] ==> base.opposite[c] < 0)
    }

    /** Marks one corner and flags its edge's end points. */
    method MarkCorner(base: CornerTable, corner: nat)
      requires Separate() && seamEdges.Length == base.cornerVertex.Length && corner < seamEdges.Length && seamEdges.Length % 3 == 0
      requires Flagged(base.cornerVertex[..], seamEdges[..], vertexOnSeam[..])
      modifies seamEdges, vertexOnSeam
      ensures seamEdges[..] == old(seamEdges[..])[corner := true]
      ensures Flagged(base.cornerVertex[..], seamEdges[..], vertexOnSeam[..])
    {
      hide Touches;
      ghost var seam0, on0 := seamEdges[..], vertexOnSeam[..];
      seamEdges[corner] := true;
      RotateBelow(corner, seamEdges.Length / 3);
      var next, prev := base.Vertex(Next(corner)), base.Vertex(Previous(corner));
      if 0 <= next < vertexOnSeam.Length {
        vertexOnSeam[next] := true;
      }
      if 0 <= prev < vertexOnSeam.Length {
        vertexOnSeam[prev] := true;
      }
      forall v | 0 <= v < vertexOnSeam.Length
        ensures vertexOnSeam[v] <==> exists c :: Touches(base.cornerVertex[..], seamEdges[..], v, c)
      {
        FlagOne(base.cornerVertex[..], seam0, seamEdges[..], corner, v);
        assert on0[v] <==> exists c :: Touches(base.cornerVertex[..], seam0, v, c);
      }
    }

    method MarkSeam(base: CornerTable, corner: nat)
      requires Marked(base) && corner < seamEdges.Length && this !in base.Repr()
      modifies this`noInteriorSeams, seamEdges, vertexOnSeam
      ensures Marked(base)
      ensures seamEdges[..] == if base.opposite[corner] < 0 then old(seamEdges[..])[corner := true]
                               else old(seamEdges[..])[corner := true][base.opposite[corner] := true]
    {
      hide Flagged, Symmetric, Matching;
      ghost var seam0 := seamEdges[..];
      MarkedSizes(base);
      SymmetricMark(base.opposite[..], seam0, corner);
      MarkCorner(base, corner);
      var opp := base.opposite[corner];
      if opp >= 0 {
        MarkCorner(base, opp);
        noInteriorSeams := false;
        assert seamEdges[corner];
      }
    }

    lemma MarkedSizes(base: CornerTable)
      requires Marked(base)
      ensures seamEdges.Length == base.opposite.Length == base.cornerVertex.Length && seamEdges.Length % 3 == 0
      ensures InRange(base.opposite[..])
    {
    }
  }

  lemma TouchesMarked(vertex: seq<int>, seam: seq<bool>, marked: seq<bool>, corner: nat, v: int, c: int)
    requires |vertex| % 3 == 0 && |seam| == |vertex| && corner < |seam| && marked == seam[corner := true]
    ensures Touches(vertex, marked, v, c) <==>
              Touches(vertex, seam, v, c) || (c == corner && (vertex[Next(corner)] == v || vertex[Previous(corner)] == v))
  {
  }

  lemma FlagOne(vertex: seq<int>, seam: seq<bool>, marked: seq<bool>, corner: nat, v: int)
    requires |vertex| % 3 == 0 && |seam| == |vertex| && corner < |seam| && marked == seam[corner := true]
    ensures (exists c :: Touches(vertex, marked, v, c)) <==>
              ((exists c :: Touches(vertex, seam, v, c)) || vertex[Next(corner)] == v || vertex[Previous(corner)] == v)
  {
    hide Touches;
    TouchesMarked(vertex, seam, marked, corner, v, corner);
    if c :| Touches(vertex, marked, v, c) {
      TouchesMarked(vertex, seam, marked, corner, v, c);
    }
    if c :| Touches(vertex, seam, v, c) {
      TouchesMarked(vertex, seam, marked, corner, v, c);
    }
  }

  lemma SymmetricMark(opp: seq<int>, seam: seq<bool>, corner: nat)
    requires Matching(opp) && Symmetric(opp, seam) && corner < |opp|
    ensures Symmetric(opp, if opp[corner] < 0 then seam[corner := true] else seam[corner := true][opp[corner] := true])
  {
    var marked := if opp[corner] < 0 then seam[corner := true] else seam[corner := true][opp[corner] := true];
    forall c | 0 <= c < |opp| && opp[c] >= 0
      ensures marked[opp[c]] == marked[c]
    {
      assert opp[opp[c]] == c;
    }
  }

  // ---- the base table -------------------------------------------------------------------------

  /** Vertices are exactly fans, and stored corners lie at left ends. */
  ghost predicate BaseOk(opp: seq<int>, vertex: seq<int>, leftMost: seq<int>, n: nat)
    requires Matching(opp)
  {
    |vertex| == |opp| && n <= |leftMost| && (forall c :: 0 <= c < |opp| ==> 0 <= vertex[c] < n) &&
    (forall c, d :: 0 <= c < |opp| && 0 <= d < |opp| ==> (vertex[c] == vertex[d] <==> Linked(opp, c, d))) &&
    (forall c :: 0 <= c < |opp| ==> StoredAtLeftEnd(opp, vertex, leftMost, c)) &&
    forall v :: 0 <= v < n ==> leftMost[v] == -1 || (0 <= leftMost[v] < |opp| && vertex[leftMost[v]] == v)
  }

  /** What splitting into fans leaves behind is such a table. */
  lemma SplitIsBase(opp: seq<int>, vertex0: seq<int>, n: nat, vertex: seq<int>, leftMost: seq<int>, count: nat)
    requires Matching(opp) && FansSplit(opp, vertex0, n, vertex, leftMost, count)
    ensures BaseOk(opp, vertex, leftMost, count)
  {
    hide Linked, StoredAtLeftEnd, Matching;
  }

  /** A fan with a right end has a left end. */
  lemma {:induction false} OpenFan(opp: seq<int>, walk: seq<int>)
    requires Matching(opp) && LeftWalk(opp, walk) && SwingRight(opp, walk[0]) < 0
    ensures exists e :: 0 <= e < |opp| && Linked(opp, walk[0], e) && SwingLeft(opp, e) < 0
    decreases |opp| - |walk|
  {
    hide Matching, Linked, SwingLeft, SwingRight;
    MatchingSize(opp);
    var last := walk[|walk| - 1];
    SwingInverse(opp, last);
    LeftWalkLinked(opp, walk, |walk| - 1);
    var next := SwingLeft(opp, last);
    if next >= 0 {
      LeftWalkOn(opp, walk, next);
      assert (walk + [next])[0] == walk[0];
      OpenFan(opp, walk + [next]);
    }
  }

  /** A right walk that ended started at the left end of its vertex: it is the whole fan. */
  lemma EndedWalk(opp: seq<int>, vertex: seq<int>, leftMost: seq<int>, n: nat, walk: seq<int>)
    requires Matching(opp) && BaseOk(opp, vertex, leftMost, n) && RightWalk(opp, walk)
    requires SwingRight(opp, walk[|walk| - 1]) < 0
    requires SwingLeft(opp, leftMost[vertex[walk[0]]]) < 0 ==> walk[0] == leftMost[vertex[walk[0]]]
    ensures SwingLeft(opp, walk[0]) < 0 && SwingClosed(opp, Elements(walk))
  {
    hide Matching, Linked, SwingLeft, SwingRight;
    MatchingSize(opp);
    var last := walk[|walk| - 1];
    RightWalkLinked(opp, walk, |walk| - 1);
    WalkStart(opp, [], [], last, 0);
    OpenFan(opp, [last]);
    var e :| 0 <= e < |opp| && Linked(opp, last, e) && SwingLeft(opp, e) < 0;
    LinkedTrans(opp, walk[0], last, e);
    assert StoredAtLeftEnd(opp, vertex, leftMost, e);
    WalkStart(opp, [], [], walk[0], 0);
    WalksClosed(opp, [walk[0]], walk);
    assert Elements([walk[0]]) + Elements(walk) == Elements(walk);
  }

  /** A closed set that meets a fan contains it. */
  lemma ClosedHasFan(opp: seq<int>, fan: set<int>, a: int, b: int)
    requires Matching(opp) && SwingClosed(opp, fan) && a in fan && Linked(opp, a, b)
    ensures b in fan
  {
    hide Matching, Linked, SwingLeft, SwingRight;
    MatchingSize(opp);
    var mark := seq(|opp|, x requires 0 <= x < |opp| => if x in fan then 1 else 0);
    forall c | 0 <= c < |opp| && SwingRight(opp, c) >= 0
      ensures SwingRight(opp, c) < |opp| && mark[SwingRight(opp, c)] == mark[c]
    {
      SwingInverse(opp, c);
      assert c in fan ==> StaysIn(opp, fan, c);
      assert SwingRight(opp, c) in fan ==> StaysIn(opp, fan, SwingRight(opp, c));
    }
    assert StaysIn(opp, fan, a);
    ConstantOnFans(opp, mark, a, b);
  }

  /** The corners of one vertex are exactly the elements of a whole walk on it. */
  lemma WalkIsVertex(opp: seq<int>, vertex: seq<int>, leftMost: seq<int>, n: nat, walk: seq<int>)
    requires Matching(opp) && BaseOk(opp, vertex, leftMost, n) && RightWalk(opp, walk) && SwingClosed(opp, Elements(walk))
    ensures forall c :: 0 <= c < |opp| ==> (c in walk <==> vertex[c] == vertex[walk[0]])
  {
    hide Matching, Linked, SwingLeft, SwingRight, SwingClosed;
    MatchingSize(opp);
    forall c | 0 <= c < |opp|
      ensures c in walk <==> vertex[c] == vertex[walk[0]]
    {
      if c in walk {
        var i :| 0 <= i < |walk| && walk[i] == c;
        RightWalkLinked(opp, walk, i);
      } else if vertex[c] == vertex[walk[0]] {
        ClosedHasFan(opp, Elements(walk), walk[0], c);
      }
    }
  }

  // ---- the first corner -----------------------------------------------------------------------

  /** A cut left walk that comes back goes round the whole base fan without meeting a seam. */
  lemma CutCycle(opp: seq<int>, seam: seq<bool>, walk: seq<int>, c: int)
    requires Matching(opp) && Symmetric(opp, seam) && Matching(Cut(opp, seam)) && LeftWalk(Cut(opp, seam), walk)
    requires SwingLeft(Cut(opp, seam), walk[|walk| - 1]) == walk[0] && Linked(opp, walk[0], c)
    ensures Inside(seam, c)
  {
    hide Inside, Matching, Linked, SwingLeft, SwingRight, Cut, StaysIn, Symmetric, Distinct;
    MatchingSize(opp);
    CycleCorner(opp, seam, walk, walk[0]);
    forall x | x in Elements(walk)
      ensures StaysIn(opp, Elements(walk), x) && Inside(seam, x)
    {
      CycleCorner(opp, seam, walk, x);
    }
    ClosedHasFan(opp, Elements(walk), walk[0], c);
    CycleCorner(opp, seam, walk, c);
  }

  /** No seam at corner x's two swings. */
  ghost predicate Inside(seam: seq<bool>, x: int)
  {
    |seam| % 3 == 0 && 0 <= x < |seam| && !seam[Next(x)] && !seam[Previous(x)]
  }

  lemma CycleCorner(opp: seq<int>, seam: seq<bool>, walk: seq<int>, x: int)
    requires Matching(opp) && Symmetric(opp, seam) && Matching(Cut(opp, seam)) && LeftWalk(Cut(opp, seam), walk)
    requires SwingLeft(Cut(opp, seam), walk[|walk| - 1]) == walk[0] && x in walk
    ensures |opp| % 3 == 0 && StaysIn(opp, Elements(walk), x) && Inside(seam, x)
  {
    hide Matching, SwingLeft, SwingRight, Cut;
    MatchingSize(opp);
    var cut := Cut(opp, seam);
    MatchingSize(cut);
    CycleClosed(cut, walk);
    assert StaysIn(cut, Elements(walk), x);
    CutSwings(opp, seam, x);
    var i :| 0 <= i < |walk| && walk[i] == x;
    var j := if i == 0 then |walk| - 1 else i - 1;
    SwingInverse(cut, walk[j]);
    assert SwingLeft(cut, walk[j]) == x by {
      if i > 0 {
        assert SwingLeft(cut, walk[i - 1]) == walk[i - 1 + 1];
      }
    }
  }

  /** The flag of a vertex says whether some of its corners has a seam beside it. */
  lemma FlagMeaning(vertex: seq<int>, seam: seq<bool>, onSeam: seq<bool>, v: nat)
    requires |vertex| % 3 == 0 && |seam| == |vertex| && Flagged(vertex, seam, onSeam) && v < |onSeam|
    ensures onSeam[v] <==> exists k :: 0 <= k < |vertex| && vertex[k] == v && !Inside(seam, k)
  {
    if onSeam[v] {
      var c :| Touches(vertex, seam, v, c);
      Rotate(c);
      RotateBelow(c, |vertex| / 3);
      if vertex[Next(c)] == v {
        assert !Inside(seam, Next(c));
      } else {
        assert !Inside(seam, Previous(c));
      }
    }
    if k :| 0 <= k < |vertex| && vertex[k] == v && !Inside(seam, k) {
      Rotate(k);
      RotateBelow(k, |vertex| / 3);
      assert Touches(vertex, seam, v, if seam[Next(k)] then Next(k) else Previous(k));
    }
  }

  /** SwingLeft over the cut table. */
  function CutLeft(opp: seq<int>, seam: seq<bool>, c: int): (r: int)
    requires Matching(opp) && |seam| == |opp| && 0 <= c < |opp|
    ensures Symmetric(opp, seam) ==> r == SwingLeft(Cut(opp, seam), c)
  {
    CutNext(opp, c);
    if seam[Next(c)] || opp[Next(c)] < 0 then -1 else Next(opp[Next(c)])
  }

  lemma CutNext(opp: seq<int>, c: nat)
    requires Matching(opp) && c < |opp|
    ensures Next(c) < |opp| && |opp| % 3 == 0
  {
    RotateBelow(c, |opp| / 3);
  }

  /** Where an attribute vertex's fan starts: at a seam if the vertex is on one. */
  method FindFirst(c: AttributeConnectivity, base: CornerTable, vertex: nat, corner: nat) returns (ok: bool, first: int)
    requires c.Marked(base) && corner < base.opposite.Length && vertex < c.vertexOnSeam.Length && base.cornerVertex[corner] == vertex
    requires BaseOk(base.opposite[..], base.cornerVertex[..], base.vertexCorners[..], base.numVertices)
    ensures ok && 0 <= first < base.opposite.Length && base.cornerVertex[first] == vertex
    ensures Matching(Cut(base.opposite[..], c.seamEdges[..]))
    ensures c.vertexOnSeam[vertex] ==> SwingLeft(Cut(base.opposite[..], c.seamEdges[..]), first) < 0
    ensures SwingLeft(base.opposite[..], corner) < 0 ==> first == corner
  {
    hide Matching, Symmetric, Flagged, Linked, BaseOk, SwingLeft, SwingRight, CutLeft, Inside, Cut;
    ghost var opp, seam, labels := base.opposite[..], c.seamEdges[..], base.cornerVertex[..];
    c.MarkedSizes(base);
    CutMatches(opp, seam);
    ghost var cut := Cut(opp, seam);
    MatchingSize(cut);
    first := corner;
    ok := true;
    if !c.vertexOnSeam[vertex] {
      return;
    }
    CutSwings(opp, seam, corner);
    ghost var walk := [corner as int];
    WalkStart(cut, [], [], corner, 0);
    assert c.vertexOnSeam[..][vertex];
    NoCycle(opp, seam, labels, base.vertexCorners[..], base.numVertices, c.vertexOnSeam[..], walk);
    var act := CutLeft(base.opposite[..], c.seamEdges[..], first);
    while act >= 0
      invariant LeftWalk(cut, walk) && walk[0] == corner && walk[|walk| - 1] == first && 0 <= first < |opp|
      invariant act == SwingLeft(cut, first) && act != corner && labels[first] == vertex
      invariant SwingLeft(opp, corner) < 0 ==> first == corner && act < 0
      decreases |opp| - |walk|
    {
      SwingInverse(cut, first);
      LeftWalkOn(cut, walk, act);
      walk := walk + [act];
      CutSameVertex(opp, seam, labels, base.vertexCorners[..], base.numVertices, first);
      NoCycle(opp, seam, labels, base.vertexCorners[..], base.numVertices, c.vertexOnSeam[..], walk);
      first := act;
      act := CutLeft(base.opposite[..], c.seamEdges[..], act);
      if act == corner {
        return false, first;
      }
    }
  }

  /** Swinging over the cut table stays at the base vertex. */
  lemma CutSameVertex(opp: seq<int>, seam: seq<bool>, vertex: seq<int>, leftMost: seq<int>, n: nat, c: nat)
    requires Matching(opp) && Symmetric(opp, seam) && BaseOk(opp, vertex, leftMost, n) && c < |opp| && Matching(Cut(opp, seam))
    ensures |opp| % 3 == 0 && SwingLeft(Cut(opp, seam), c) < |opp|
    ensures SwingLeft(Cut(opp, seam), c) >= 0 ==> vertex[SwingLeft(Cut(opp, seam), c)] == vertex[c]
    ensures SwingRight(opp, c) >= 0 ==> SwingRight(opp, c) < |opp| && vertex[SwingRight(opp, c)] == vertex[c]
  {
    hide Matching, Linked, SwingLeft, SwingRight, Cut;
    MatchingSize(opp);
    CutSwings(opp, seam, c);
    SwingInverse(opp, c);
    var l, r := SwingLeft(opp, c), SwingRight(opp, c);
    if l >= 0 {
      assert Adjacent(opp, c, l);
      LinkedStep(opp, c, l);
    }
    if r >= 0 {
      assert Adjacent(opp, c, r);
      LinkedStep(opp, c, r);
    }
  }

  /** At a vertex on a seam, a cut left walk never comes back. */
  lemma NoCycle(opp: seq<int>, seam: seq<bool>, vertex: seq<int>, leftMost: seq<int>, n: nat, onSeam: seq<bool>, walk: seq<int>)
    requires Matching(opp) && Symmetric(opp, seam) && BaseOk(opp, vertex, leftMost, n) && Matching(Cut(opp, seam))
    requires Flagged(vertex, seam, onSeam) && LeftWalk(Cut(opp, seam), walk) && 0 <= vertex[walk[0]] < |onSeam| && onSeam[vertex[walk[0]]]
    ensures SwingLeft(Cut(opp, seam), walk[|walk| - 1]) != walk[0]
  {
    hide Matching, Linked, SwingLeft, SwingRight, Cut, Flagged, Inside, Symmetric;
    MatchingSize(opp);
    CutSizes(opp, seam);
    MatchingSize(Cut(opp, seam));
    if SwingLeft(Cut(opp, seam), walk[|walk| - 1]) == walk[0] {
      FlagMeaning(vertex, seam, onSeam, vertex[walk[0]]);
      var k :| 0 <= k < |vertex| && vertex[k] == vertex[walk[0]] && !Inside(seam, k);
      CutCycle(opp, seam, walk, k);
    }
  }

  lemma CutSizes(opp: seq<int>, seam: seq<bool>)
    requires Matching(opp) && Symmetric(opp, seam)
    ensures |seam| == |opp|
  {
  }

  // ---- cutting one vertex -----------------------------------------------------------------------

  /** Seams crossed by the first i swings of a right walk. */
  function Crossings(seam: seq<bool>, walk: seq<int>, i: nat): nat
    requires i < |walk| && |seam| % 3 == 0 && forall j :: 0 <= j < |walk| ==> 0 <= walk[j] < |seam|
  {
    if i == 0 then 0 else Crossings(seam, walk, i - 1) + if seam[Next(walk[i])] then 1 else 0
  }

  lemma {:induction false} CrossingsMono(seam: seq<bool>, walk: seq<int>, i: nat, j: nat)
    requires i <= j < |walk| && |seam| % 3 == 0 && forall k :: 0 <= k < |walk| ==> 0 <= walk[k] < |seam|
    ensures Crossings(seam, walk, i) <= Crossings(seam, walk, j)
    decreases j
  {
    if i < j {
      CrossingsMono(seam, walk, i, j - 1);
    }
  }

  lemma {:induction false} CrossingsPrefix(seam: seq<bool>, walk: seq<int>, next: int, i: nat)
    requires i < |walk| && |seam| % 3 == 0 && forall k :: 0 <= k < |walk| ==> 0 <= walk[k] < |seam|
    requires 0 <= next < |seam|
    ensures Crossings(seam, walk + [next], i) == Crossings(seam, walk, i)
    decreases i
  {
    if i > 0 {
      CrossingsPrefix(seam, walk, next, i - 1);
    }
  }

  /** The walk's corners carry base plus the seams crossed on the way; other corners are as before. */
  ghost predicate Segmented(seam: seq<bool>, before: seq<int>, after: seq<int>, walk: seq<int>, base: nat)
  {
    |seam| % 3 == 0 && |after| == |before| == |seam| && (forall j :: 0 <= j < |walk| ==> 0 <= walk[j] < |seam|) &&
    (forall c :: 0 <= c < |after| && c !in walk ==> after[c] == before[c]) &&
    forall j :: 0 <= j < |walk| ==> after[walk[j]] == base + Crossings(seam, walk, j)
  }

  /** One stored corner for each number from base on, carrying that number. */
  ghost predicate Starts(lefts: seq<int>, after: seq<int>, walk: seq<int>, base: nat)
  {
    base <= |lefts| && forall k :: base <= k < |lefts| ==> lefts[k] in walk && 0 <= lefts[k] < |after| && after[lefts[k]] == k
  }

  /** Each number's stored corner starts the walk or lies behind a seam. */
  ghost predicate Behind(seam: seq<bool>, lefts: seq<int>, walk: seq<int>, base: nat)
  {
    walk != [] && |seam| % 3 == 0 &&
    forall k :: base <= k < |lefts| ==> lefts[k] == walk[0] || (0 <= lefts[k] < |seam| && seam[Next(lefts[k])])
  }

  lemma SegmentOn(seam: seq<bool>, before: seq<int>, after: seq<int>, walk: seq<int>, base: nat, next: int, number: int)
    requires Segmented(seam, before, after, walk, base) && walk != [] && 0 <= next < |seam| && next !in walk
    requires number == after[walk[|walk| - 1]] + if seam[Next(next)] then 1 else 0
    ensures Segmented(seam, before, after[next := number], walk + [next], base)
  {
    hide Crossings;
    var walk1 := walk + [next];
    forall j | 0 <= j < |walk1|
      ensures 0 <= walk1[j] < |seam|
    {
      if j < |walk| {
        assert walk1[j] == walk[j];
      }
    }
    forall j | 0 <= j < |walk1|
      ensures after[next := number][walk1[j]] == base + Crossings(seam, walk1, j)
    {
      if j < |walk| {
        CrossingsPrefix(seam, walk, next, j);
        assert walk1[j] == walk[j] && walk[j] in walk;
      } else {
        CrossingsPrefix(seam, walk, next, j - 1);
        CrossingsLast(seam, walk1, j);
      }
    }
  }

  lemma CrossingsLast(seam: seq<bool>, walk: seq<int>, i: nat)
    requires 0 < i < |walk| && |seam| % 3 == 0 && forall j :: 0 <= j < |walk| ==> 0 <= walk[j] < |seam|
    ensures Crossings(seam, walk, i) == Crossings(seam, walk, i - 1) + if seam[Next(walk[i])] then 1 else 0
  {
  }

  /** Walks right from the first corner, starting a new attribute vertex at every seam. */
  method CutFan(c: AttributeConnectivity, base: CornerTable, first: nat) returns (ghost walk: seq<int>)
    requires c.Marked(base) && first < base.opposite.Length && c.cornerToVertex.Length == base.opposite.Length
    requires c.numVertices == |c.leftMostCorners| && c.cornerToVertex !in base.Repr() && c !in base.Repr()
    modifies c`leftMostCorners, c`numVertices, c.cornerToVertex
    ensures c.Marked(base) && base.opposite[..] == old(base.opposite[..])
    ensures RightWalk(base.opposite[..], walk) && walk[0] == first
    ensures SwingRight(base.opposite[..], walk[|walk| - 1]) == first || SwingRight(base.opposite[..], walk[|walk| - 1]) < 0
    ensures Segmented(c.seamEdges[..], old(c.cornerToVertex[..]), c.cornerToVertex[..], walk, old(c.numVertices))
    ensures c.numVertices == |c.leftMostCorners| && Starts(c.leftMostCorners, c.cornerToVertex[..], walk, old(c.numVertices))
    ensures old(c.leftMostCorners) <= c.leftMostCorners && Behind(c.seamEdges[..], c.leftMostCorners, walk, old(c.numVertices))
    ensures c.numVertices == c.cornerToVertex[..][walk[|walk| - 1]] + 1
  {
    hide Matching, Symmetric, Flagged, SwingLeft, SwingRight, Segmented, Starts;
    ghost var opp, seam, before, number := base.opposite[..], c.seamEdges[..], c.cornerToVertex[..], c.numVertices;
    c.MarkedSizes(base);
    var current := c.numVertices;
    c.numVertices := c.numVertices + 1;
    c.cornerToVertex[first] := current;
    c.leftMostCorners := c.leftMostCorners + [first as int];
    walk := [first];
    WalkStart(opp, [], [], first, 0);
    SegmentStart(seam, before, first, number, c.leftMostCorners);
    SwingInverse(opp, first);
    var act := SwingRight(base.opposite[..], first);
    while act >= 0 && act != first
      invariant RightWalk(opp, walk) && walk[0] == first && act == SwingRight(opp, walk[|walk| - 1]) < |opp|
      invariant Segmented(seam, before, c.cornerToVertex[..], walk, number)
      invariant Behind(seam, c.leftMostCorners, walk, number)
      invariant current == c.cornerToVertex[walk[|walk| - 1]] && c.numVertices == |c.leftMostCorners| == current + 1
      invariant Starts(c.leftMostCorners, c.cornerToVertex[..], walk, number) && old(c.leftMostCorners) <= c.leftMostCorners
      decreases |opp| - |walk|
    {
      RightWalkOn(opp, walk, act);
      NotIn(opp, walk, act);
      RotateBelow(act, |opp| / 3);
      SegmentOn(seam, before, c.cornerToVertex[..], walk, number, act, if seam[Next(act)] then current + 1 else current);
      StartsOn(c.leftMostCorners, c.cornerToVertex[..], walk, number, act, if seam[Next(act)] then current + 1 else current, seam[Next(act)]);
      if c.seamEdges[Next(act)] {
        current := c.numVertices;
        c.numVertices := c.numVertices + 1;
        c.leftMostCorners := c.leftMostCorners + [act];
      }
      c.cornerToVertex[act] := current;
      walk := walk + [act];
      SwingInverse(opp, act);
      act := SwingRight(base.opposite[..], act);
    }
  }

  lemma NotIn(opp: seq<int>, walk: seq<int>, next: int)
    requires Matching(opp) && RightWalk(opp, walk + [next])
    ensures next !in walk
  {
    var all := walk + [next];
    forall i | 0 <= i < |walk|
      ensures walk[i] != next
    {
      assert all[i] != all[|walk|];
    }
  }

  lemma SegmentStart(seam: seq<bool>, before: seq<int>, first: nat, base: nat, lefts: seq<int>)
    requires |seam| % 3 == 0 && |before| == |seam| && first < |seam| && base + 1 == |lefts| && lefts[base] == first
    ensures Segmented(seam, before, before[first := base], [first], base)
    ensures Starts(lefts, before[first := base], [first], base)
  {
  }

  lemma StartsOn(lefts: seq<int>, after: seq<int>, walk: seq<int>, base: nat, next: int, number: nat, anew: bool)
    requires Starts(lefts, after, walk, base) && 0 <= next < |after| && next !in walk
    requires anew ==> number == |lefts|
    ensures Starts(if anew then lefts + [next] else lefts, after[next := number], walk + [next], base)
  {
  }

  // ---- the whole cut --------------------------------------------------------------------------

  /** Base vertices below v are cut, the corners of the others are unassigned. */
  ghost predicate CutInv(opp: seq<int>, vertex: seq<int>, seam: seq<bool>, attr: seq<int>, lefts: seq<int>, v: nat)
    requires Matching(opp) && Symmetric(opp, seam) && Matching(Cut(opp, seam))
  {
    |attr| == |vertex| == |opp| && (forall c :: 0 <= c < |opp| ==> CutCorner(opp, vertex, seam, attr, lefts, v, c)) &&
    (forall c, d :: 0 <= c < |opp| && 0 <= d < |opp| && vertex[c] < v && vertex[d] < v && attr[c] == attr[d] ==>
      Linked(Cut(opp, seam), c, d)) &&
    forall k :: 0 <= k < |lefts| ==> 0 <= lefts[k] < |opp| && vertex[lefts[k]] < v && attr[lefts[k]] == k
  }

  /** A corner is unassigned, or has an attribute vertex that cut swings keep and that has a
      stored corner at its left end. */
  ghost predicate CutCorner(opp: seq<int>, vertex: seq<int>, seam: seq<bool>, attr: seq<int>, lefts: seq<int>, v: nat, c: nat)
    requires Matching(opp) && Symmetric(opp, seam) && Matching(Cut(opp, seam)) && |attr| == |vertex| == |opp| && c < |opp|
  {
    var cut := Cut(opp, seam);
    if vertex[c] >= v then attr[c] == -1
    else
      0 <= attr[c] < |lefts| && 0 <= lefts[attr[c]] < |opp| &&
      (SwingRight(cut, c) >= 0 ==> SwingRight(cut, c) < |opp| && attr[SwingRight(cut, c)] == attr[c]) &&
      (SwingLeft(cut, c) < 0 ==> SwingLeft(cut, lefts[attr[c]]) < 0)
  }

  /** Attribute vertices are numbered in the order of their base vertices. */
  ghost predicate InOrder(vertex: seq<int>, attr: seq<int>, v: nat)
  {
    |attr| == |vertex| && forall c, d :: 0 <= c < |vertex| && 0 <= d < |vertex| && vertex[c] < vertex[d] < v ==> attr[c] < attr[d]
  }

  /** The corners of the next base vertex get numbers above all before. */
  lemma OrderStep(opp: seq<int>, vertex: seq<int>, seam: seq<bool>, attr: seq<int>, lefts: seq<int>, attr1: seq<int>, v: nat, walk: seq<int>)
    requires Matching(opp) && Symmetric(opp, seam) && Matching(Cut(opp, seam)) && CutInv(opp, vertex, seam, attr, lefts, v)
    requires InOrder(vertex, attr, v) && Segmented(seam, attr, attr1, walk, |lefts|) && |seam| == |opp| == |vertex|
    requires forall c :: 0 <= c < |opp| ==> (c in walk <==> vertex[c] == v)
    ensures InOrder(vertex, attr1, v + 1)
  {
    hide Matching, Symmetric, Cut, Linked, SwingLeft, SwingRight;
    SegmentFacts(seam, attr, attr1, walk, |lefts|);
    forall c | 0 <= c < |opp| && vertex[c] < v
      ensures attr1[c] == attr[c] < |lefts|
    {
      assert CutCorner(opp, vertex, seam, attr, lefts, v, c);
    }
  }

  lemma WalkOfVertex(opp: seq<int>, vertex: seq<int>, seam: seq<bool>, walk: seq<int>, v: nat)
    requires Matching(opp) && |seam| == |opp| == |vertex| && WholeWalk(opp, vertex, seam, walk, v)
    ensures forall c :: 0 <= c < |opp| ==> (c in walk <==> vertex[c] == v)
  {
    hide Matching;
  }

  /** A base vertex without corners has none to number. */
  lemma OrderSkip(opp: seq<int>, vertex: seq<int>, leftMost: seq<int>, n: nat, attr: seq<int>, v: nat)
    requires Matching(opp) && BaseOk(opp, vertex, leftMost, n) && InOrder(vertex, attr, v) && v < n && leftMost[v] < 0
    ensures InOrder(vertex, attr, v + 1)
  {
    hide Linked, Matching, SwingLeft, SwingRight;
    forall c | 0 <= c < |opp|
      ensures vertex[c] != v
    {
      assert StoredAtLeftEnd(opp, vertex, leftMost, c);
    }
  }

  /** A whole right walk of one base vertex, closed only where a seam or no seam at all is met. */
  ghost predicate WholeWalk(opp: seq<int>, vertex: seq<int>, seam: seq<bool>, walk: seq<int>, v: nat)
    requires Matching(opp) && |seam| == |opp| == |vertex|
  {
    RightWalk(opp, walk) && (forall c :: 0 <= c < |opp| ==> (c in walk <==> vertex[c] == v)) &&
    (SwingRight(opp, walk[|walk| - 1]) < 0 || SwingRight(opp, walk[|walk| - 1]) == walk[0]) &&
    (seam[Next(walk[0])] || forall c :: 0 <= c < |opp| && vertex[c] == v ==> Inside(seam, c))
  }

  /** With no seam about, nothing is crossed. */
  lemma {:induction false} NoCrossings(seam: seq<bool>, walk: seq<int>, i: nat)
    requires i < |walk| && |seam| % 3 == 0 && forall j :: 0 <= j < |walk| ==> 0 <= walk[j] < |seam| && Inside(seam, walk[j])
    ensures Crossings(seam, walk, i) == 0
  {
    if i > 0 {
      NoCrossings(seam, walk, i - 1);
    }
  }

  /** Corners with no seam crossed between them are joined over the cut table. */
  lemma {:induction false} SegmentLinked(opp: seq<int>, seam: seq<bool>, walk: seq<int>, i: nat, j: nat)
    requires Matching(opp) && Symmetric(opp, seam) && Matching(Cut(opp, seam)) && RightWalk(opp, walk) && i <= j < |walk| && |seam| % 3 == 0
    requires forall k :: 0 <= k < |walk| ==> 0 <= walk[k] < |seam|
    requires Crossings(seam, walk, i) == Crossings(seam, walk, j)
    ensures InRange(Cut(opp, seam)) && Linked(Cut(opp, seam), walk[i], walk[j])
    decreases j
  {
    hide Matching, Linked, SwingLeft, SwingRight, Cut, Symmetric;
    CutSizes(opp, seam);
    var cut := Cut(opp, seam);
    MatchingSize(cut);
    if i == j {
      LinkedSelf(cut, walk[i]);
    } else {
      CrossingsMono(seam, walk, i, j - 1);
      CrossingsMono(seam, walk, j - 1, j);
      SegmentLinked(opp, seam, walk, i, j - 1);
      SwingOver(opp, seam, walk, j - 1);
      LinkedStep(cut, walk[j - 1], walk[j]);
      LinkedTrans(cut, walk[i], walk[j - 1], walk[j]);
    }
  }

  /** One swing of the walk, over the cut table. */
  lemma SwingOver(opp: seq<int>, seam: seq<bool>, walk: seq<int>, j: nat)
    requires Matching(opp) && Symmetric(opp, seam) && Matching(Cut(opp, seam)) && RightWalk(opp, walk) && j + 1 < |walk| && |seam| % 3 == 0
    requires forall k :: 0 <= k < |walk| ==> 0 <= walk[k] < |seam|
    ensures InRange(Cut(opp, seam))
    ensures SwingRight(Cut(opp, seam), walk[j]) == if seam[Next(walk[j + 1])] then -1 else walk[j + 1]
    ensures !seam[Next(walk[j + 1])] ==> Adjacent(Cut(opp, seam), walk[j], walk[j + 1])
    ensures Crossings(seam, walk, j + 1) == Crossings(seam, walk, j) + if seam[Next(walk[j + 1])] then 1 else 0
  {
    hide Matching, SwingLeft, SwingRight, Cut, Symmetric;
    CutSizes(opp, seam);
    MatchingSize(Cut(opp, seam));
    CutSwings(opp, seam, walk[j]);
    CrossingsLast(seam, walk, j + 1);
  }

  lemma CutStep(opp: seq<int>, vertex: seq<int>, leftMost: seq<int>, n: nat, seam: seq<bool>, attr: seq<int>, lefts: seq<int>,
      attr1: seq<int>, lefts1: seq<int>, v: nat, walk: seq<int>)
    requires Matching(opp) && Symmetric(opp, seam) && Matching(Cut(opp, seam)) && BaseOk(opp, vertex, leftMost, n)
    requires forall c :: 0 <= c < |opp| && opp[c] < 0 ==> seam[c]
    requires CutInv(opp, vertex, seam, attr, lefts, v) && |seam| == |opp| && WholeWalk(opp, vertex, seam, walk, v)
    requires Segmented(seam, attr, attr1, walk, |lefts|) && Starts(lefts1, attr1, walk, |lefts|) && Behind(seam, lefts1, walk, |lefts|)
    requires lefts <= lefts1 && |lefts1| == attr1[walk[|walk| - 1]] + 1
    ensures CutInv(opp, vertex, seam, attr1, lefts1, v + 1)
  {
    hide Matching, Linked, SwingLeft, SwingRight, Cut, Symmetric, Inside, BaseOk, Crossings, Behind, Segmented, Starts, CutCorner;
    var cut := Cut(opp, seam);
    MatchingSize(cut);
    SegmentSizes(seam, attr, attr1, walk, |lefts|);
    var v1 := v + 1;
    forall c | 0 <= c < |opp|
      ensures CutCorner(opp, vertex, seam, attr1, lefts1, v1, c)
    {
      if c in walk {
        var j :| 0 <= j < |walk| && walk[j] == c;
        NewCorner(opp, vertex, seam, attr, attr1, lefts, lefts1, v, walk, j);
      } else {
        OldCorner(opp, vertex, leftMost, n, seam, attr, attr1, lefts, lefts1, v, walk, c);
      }
    }
    SegmentFacts(seam, attr, attr1, walk, |lefts|);
    forall c, d | 0 <= c < |opp| && 0 <= d < |opp| && vertex[c] < v + 1 && vertex[d] < v + 1 && attr1[c] == attr1[d]
      ensures Linked(cut, c, d)
    {
      OldBound(opp, vertex, seam, attr, lefts, v, c);
      OldBound(opp, vertex, seam, attr, lefts, v, d);
      if c in walk && d in walk {
        SameSegment(opp, seam, attr, attr1, walk, |lefts|, c, d);
      }
    }
    StartFacts(lefts1, attr1, walk, |lefts|);
  }

  lemma OldBound(opp: seq<int>, vertex: seq<int>, seam: seq<bool>, attr: seq<int>, lefts: seq<int>, v: nat, c: nat)
    requires Matching(opp) && Symmetric(opp, seam) && Matching(Cut(opp, seam)) && CutInv(opp, vertex, seam, attr, lefts, v) && c < |opp|
    ensures vertex[c] < v ==> attr[c] < |lefts|
  {
    assert CutCorner(opp, vertex, seam, attr, lefts, v, c);
  }

  lemma SegmentSizes(seam: seq<bool>, before: seq<int>, after: seq<int>, walk: seq<int>, base: nat)
    requires Segmented(seam, before, after, walk, base)
    ensures |seam| % 3 == 0 && |after| == |before| == |seam|
  {
  }

  lemma SegmentFacts(seam: seq<bool>, before: seq<int>, after: seq<int>, walk: seq<int>, base: nat)
    requires Segmented(seam, before, after, walk, base)
    ensures |seam| % 3 == 0 && |after| == |before| == |seam| && forall j :: 0 <= j < |walk| ==> 0 <= walk[j] < |seam|
    ensures forall c :: 0 <= c < |after| && c !in walk ==> after[c] == before[c]
    ensures forall c :: c in walk ==> after[c] >= base
  {
    forall c | c in walk
      ensures after[c] >= base
    {
      var j :| 0 <= j < |walk| && walk[j] == c;
    }
  }

  lemma StartFacts(lefts: seq<int>, after: seq<int>, walk: seq<int>, base: nat)
    requires Starts(lefts, after, walk, base)
    ensures base <= |lefts| && forall k :: base <= k < |lefts| ==> lefts[k] in walk && 0 <= lefts[k] < |after| && after[lefts[k]] == k
  {
  }

  lemma SameSegment(opp: seq<int>, seam: seq<bool>, before: seq<int>, after: seq<int>, walk: seq<int>, base: nat, c: int, d: int)
    requires Matching(opp) && Symmetric(opp, seam) && Matching(Cut(opp, seam)) && RightWalk(opp, walk)
    requires Segmented(seam, before, after, walk, base) && c in walk && d in walk && after[c] == after[d]
    ensures InRange(Cut(opp, seam)) && Linked(Cut(opp, seam), c, d)
  {
    hide Matching, Linked, SwingLeft, SwingRight, Cut, Symmetric, Crossings;
    CutSizes(opp, seam);
    MatchingSize(Cut(opp, seam));
    var i :| 0 <= i < |walk| && walk[i] == c;
    var j :| 0 <= j < |walk| && walk[j] == d;
    if i <= j {
      SegmentLinked(opp, seam, walk, i, j);
    } else {
      SegmentLinked(opp, seam, walk, j, i);
      LinkedSymm(Cut(opp, seam), d, c);
    }
  }

  /** A corner of the vertex just cut. */
  lemma NewCorner(opp: seq<int>, vertex: seq<int>, seam: seq<bool>, attr: seq<int>, attr1: seq<int>, lefts: seq<int>, lefts1: seq<int>,
      v: nat, walk: seq<int>, j: nat)
    requires Matching(opp) && Symmetric(opp, seam) && Matching(Cut(opp, seam))
    requires forall c :: 0 <= c < |opp| && opp[c] < 0 ==> 0 <= c < |seam| && seam[c]
    requires |seam| == |opp| == |vertex| && WholeWalk(opp, vertex, seam, walk, v) && j < |walk|
    requires Segmented(seam, attr, attr1, walk, |lefts|) && Starts(lefts1, attr1, walk, |lefts|) && Behind(seam, lefts1, walk, |lefts|)
    requires |lefts1| == attr1[walk[|walk| - 1]] + 1
    ensures 0 <= walk[j] < |opp| == |attr1| && CutCorner(opp, vertex, seam, attr1, lefts1, v + 1, walk[j])
  {
    hide Matching, SwingLeft, SwingRight, Cut, Symmetric, Crossings, Inside;
    var c, cut, last := walk[j], Cut(opp, seam), |walk| - 1;
    MatchingSize(cut);
    MatchingSize(opp);
    CrossingsMono(seam, walk, j, last);
    CutSwings(opp, seam, c);
    if j < last {
      SwingOver(opp, seam, walk, j);
    } else if SwingRight(cut, c) >= 0 {
      InsideNow(seam, walk[0]);
      NoCrossings(seam, walk, last);
      NoCrossings(seam, walk, 0);
    }
    LeftOfNew(opp, vertex, seam, walk, v, c, lefts1[attr1[c]]);
  }

  lemma InsideNow(seam: seq<bool>, c: int)
    requires Inside(seam, c)
    ensures !seam[Next(c)] && !seam[Previous(c)]
  {
  }

  lemma LeftOfNew(opp: seq<int>, vertex: seq<int>, seam: seq<bool>, walk: seq<int>, v: nat, c: nat, l: int)
    requires Matching(opp) && Symmetric(opp, seam) && Matching(Cut(opp, seam)) && |seam| == |opp| == |vertex|
    requires forall c :: 0 <= c < |opp| && opp[c] < 0 ==> seam[c]
    requires WholeWalk(opp, vertex, seam, walk, v) && c < |opp| && vertex[c] == v
    requires l == walk[0] || (0 <= l < |opp| && seam[Next(l)])
    ensures 0 <= l < |opp| && InRange(Cut(opp, seam))
    ensures SwingLeft(Cut(opp, seam), c) < 0 ==> SwingLeft(Cut(opp, seam), l) < 0
  {
    hide Matching, SwingRight, Cut, Symmetric;
    MatchingSize(opp);
    MatchingSize(Cut(opp, seam));
    CutSwings(opp, seam, c);
    CutSwings(opp, seam, l);
    RotateBelow(c, |opp| / 3);
    if !seam[Next(walk[0])] {
      assert Inside(seam, c);
      assert opp[Next(c)] >= 0;
    }
  }

  /** A corner of a vertex cut before, or not yet. */
  lemma OldCorner(opp: seq<int>, vertex: seq<int>, leftMost: seq<int>, n: nat, seam: seq<bool>, attr: seq<int>, attr1: seq<int>,
      lefts: seq<int>, lefts1: seq<int>, v: nat, walk: seq<int>, c: nat)
    requires Matching(opp) && Symmetric(opp, seam) && Matching(Cut(opp, seam)) && BaseOk(opp, vertex, leftMost, n)
    requires CutInv(opp, vertex, seam, attr, lefts, v) && |seam| == |opp| && WholeWalk(opp, vertex, seam, walk, v)
    requires Segmented(seam, attr, attr1, walk, |lefts|) && lefts <= lefts1 && c < |opp| && c !in walk
    ensures |attr1| == |opp| && CutCorner(opp, vertex, seam, attr1, lefts1, v + 1, c)
  {
    hide Matching, Linked, SwingLeft, SwingRight, Cut, Symmetric, Inside, BaseOk;
    var cut := Cut(opp, seam);
    MatchingSize(cut);
    MatchingSize(opp);
    SegmentFacts(seam, attr, attr1, walk, |lefts|);
    CutSwings(opp, seam, c);
    CutSameVertex(opp, seam, vertex, leftMost, n, c);
    assert CutCorner(opp, vertex, seam, attr, lefts, v, c);
    if vertex[c] < v {
      assert lefts1[attr[c]] == lefts[attr[c]];
    }
  }

  lemma CutStart(opp: seq<int>, vertex: seq<int>, seam: seq<bool>, attr: seq<int>)
    requires Matching(opp) && Symmetric(opp, seam) && Matching(Cut(opp, seam)) && |attr| == |vertex| == |opp|
    requires forall c :: 0 <= c < |opp| ==> vertex[c] >= 0 && attr[c] == -1
    ensures CutInv(opp, vertex, seam, attr, [], 0)
  {
    hide Linked;
  }

  /** A vertex without corners changes nothing. */
  lemma CutSkip(opp: seq<int>, vertex: seq<int>, leftMost: seq<int>, n: nat, seam: seq<bool>, attr: seq<int>, lefts: seq<int>, v: nat)
    requires Matching(opp) && Symmetric(opp, seam) && Matching(Cut(opp, seam)) && BaseOk(opp, vertex, leftMost, n)
    requires CutInv(opp, vertex, seam, attr, lefts, v) && v < n && leftMost[v] < 0
    ensures CutInv(opp, vertex, seam, attr, lefts, v + 1)
  {
    hide Linked, Matching, Symmetric, Cut, SwingLeft, SwingRight;
    forall c | 0 <= c < |opp|
      ensures vertex[c] != v
    {
      assert StoredAtLeftEnd(opp, vertex, leftMost, c);
    }
    var v1 := v + 1;
    forall c | 0 <= c < |opp|
      ensures CutCorner(opp, vertex, seam, attr, lefts, v1, c)
    {
      assert CutCorner(opp, vertex, seam, attr, lefts, v, c);
    }
  }

  /** When all vertices are cut, the attribute vertices are exactly the fans of the cut table,
      and their stored corners lie at left ends. */
  lemma CutDone(opp: seq<int>, vertex: seq<int>, leftMost: seq<int>, n: nat, seam: seq<bool>, attr: seq<int>, lefts: seq<int>)
    requires Matching(opp) && Symmetric(opp, seam) && Matching(Cut(opp, seam)) && BaseOk(opp, vertex, leftMost, n)
    requires CutInv(opp, vertex, seam, attr, lefts, n)
    ensures BaseOk(Cut(opp, seam), attr, lefts, |lefts|)
  {
    hide Linked, Matching, Symmetric, SwingLeft, SwingRight, Cut;
    CutSizes(opp, seam);
    var cut := Cut(opp, seam);
    MatchingSize(cut);
    forall c | 0 <= c < |opp|
      ensures CutCorner(opp, vertex, seam, attr, lefts, n, c)
    {
    }
    forall c | 0 <= c < |cut|
      ensures 0 <= attr[c] < |lefts| && StoredAtLeftEnd(cut, attr, lefts, c)
      ensures SwingRight(cut, c) >= 0 ==> SwingRight(cut, c) < |cut| && attr[SwingRight(cut, c)] == attr[c]
    {
      assert CutCorner(opp, vertex, seam, attr, lefts, n, c);
    }
    forall c, d | 0 <= c < |cut| && 0 <= d < |cut|
      ensures attr[c] == attr[d] <==> Linked(cut, c, d)
    {
      if Linked(cut, c, d) {
        ConstantOnFans(cut, attr, c, d);
      }
    }
  }

  /** What FindFirst and CutFan have walked is a whole vertex. */
  lemma WholeWalkOf(opp: seq<int>, vertex: seq<int>, leftMost: seq<int>, n: nat, seam: seq<bool>, onSeam: seq<bool>, walk: seq<int>, v: nat)
    requires Matching(opp) && Symmetric(opp, seam) && BaseOk(opp, vertex, leftMost, n) && Matching(Cut(opp, seam))
    requires Flagged(vertex, seam, onSeam) && v < |onSeam| && RightWalk(opp, walk) && vertex[walk[0]] == v
    requires SwingRight(opp, walk[|walk| - 1]) == walk[0] || SwingRight(opp, walk[|walk| - 1]) < 0
    requires onSeam[v] ==> SwingLeft(Cut(opp, seam), walk[0]) < 0
    requires forall c :: 0 <= c < |opp| && opp[c] < 0 ==> 0 <= c < |seam| && seam[c]
    requires SwingLeft(opp, leftMost[v]) < 0 ==> walk[0] == leftMost[v]
    ensures |seam| == |opp| && WholeWalk(opp, vertex, seam, walk, v)
  {
    hide Linked, Matching, Symmetric, SwingRight, Cut, Flagged, Inside, SwingClosed;
    CutSizes(opp, seam);
    MatchingSize(opp);
    if SwingRight(opp, walk[|walk| - 1]) < 0 {
      EndedWalk(opp, vertex, leftMost, n, walk);
    } else {
      RightCycleClosed(opp, walk);
    }
    WalkIsVertex(opp, vertex, leftMost, n, walk);
    FlagMeaning(vertex, seam, onSeam, v);
    CutSwings(opp, seam, walk[0]);
    RotateBelow(walk[0], |opp| / 3);
    if onSeam[v] && opp[Next(walk[0])] >= 0 {
      assert seam[Next(walk[0])];
    }
  }

  /** Loose fragments get vertices of their own; with none left over nothing changes. */
  method AssignLeftovers(c: AttributeConnectivity, base: CornerTable)
    requires Matching(base.opposite[..]) && c.cornerToVertex.Length == base.opposite.Length == c.seamEdges.Length
    requires c.cornerToVertex !in base.Repr() && c !in base.Repr()
    modifies c`leftMostCorners, c`numVertices, c.cornerToVertex
    ensures forall k :: 0 <= k < c.cornerToVertex.Length ==> c.cornerToVertex[k] >= 0
    ensures (forall k :: 0 <= k < c.cornerToVertex.Length ==> old(c.cornerToVertex[k]) >= 0) ==>
              c.cornerToVertex[..] == old(c.cornerToVertex[..]) && c.leftMostCorners == old(c.leftMostCorners) && c.numVertices == old(c.numVertices)
  {
    hide Matching, SwingRight;
    ghost var opp := base.opposite[..];
    MatchingSize(opp);
    for corner := 0 to base.opposite.Length
      invariant base.opposite[..] == opp
      invariant forall k :: 0 <= k < corner ==> c.cornerToVertex[k] >= 0
      invariant forall k :: 0 <= k < c.cornerToVertex.Length && old(c.cornerToVertex[k]) >= 0 ==> c.cornerToVertex[k] == old(c.cornerToVertex[k])
      invariant (forall k :: 0 <= k < c.cornerToVertex.Length ==> old(c.cornerToVertex[k]) >= 0) ==>
        c.leftMostCorners == old(c.leftMostCorners) && c.numVertices == old(c.numVertices)
    {
      if c.cornerToVertex[corner] < 0 {
        AssignFragment(c, base, corner);
      }
    }
  }

  ghost function Unassigned(attr: seq<int>): set<int>
  {
    set k | 0 <= k < |attr| && attr[k] < 0
  }

  method AssignFragment(c: AttributeConnectivity, base: CornerTable, corner: nat)
    requires Matching(base.opposite[..]) && c.cornerToVertex.Length == base.opposite.Length == c.seamEdges.Length
    requires c.cornerToVertex !in base.Repr() && c !in base.Repr() && corner < base.opposite.Length && c.cornerToVertex[corner] < 0
    modifies c`leftMostCorners, c`numVertices, c.cornerToVertex
    ensures c.cornerToVertex[corner] >= 0
    ensures forall k :: 0 <= k < c.cornerToVertex.Length && old(c.cornerToVertex[k]) >= 0 ==> c.cornerToVertex[k] == old(c.cornerToVertex[k])
  {
    hide Matching, SwingRight;
    ghost var opp := base.opposite[..];
    MatchingSize(opp);
    var current := c.numVertices;
    c.numVertices := c.numVertices + 1;
    c.cornerToVertex[corner] := current;
    c.leftMostCorners := c.leftMostCorners + [corner as int];
    SwingInverse(opp, corner);
    var act := SwingRight(base.opposite[..], corner);
    while act >= 0 && act != corner && c.cornerToVertex[act] < 0
      invariant base.opposite[..] == opp && act < |opp| && current >= 0
      invariant c.cornerToVertex[corner] >= 0
      invariant forall k :: 0 <= k < c.cornerToVertex.Length && old(c.cornerToVertex[k]) >= 0 ==> c.cornerToVertex[k] == old(c.cornerToVertex[k])
      decreases Unassigned(c.cornerToVertex[..])
    {
      ghost var left := Unassigned(c.cornerToVertex[..]);
      assert act in left;
      RotateBelow(act, |opp| / 3);
      if c.seamEdges[Next(act)] {
        current := c.numVertices;
        c.numVertices := c.numVertices + 1;
        c.leftMostCorners := c.leftMostCorners + [act];
      }
      c.cornerToVertex[act] := current;
      assert act !in Unassigned(c.cornerToVertex[..]) && Unassigned(c.cornerToVertex[..]) <= left;
      SwingInverse(opp, act);
      act := SwingRight(base.opposite[..], act);
    }
  }

  /** recomputeVertices: on a base table whose vertices are fans stored at their left ends, with
      all boundary edges marked, it never fails, and two corners share an attribute vertex
      exactly when swings that cross no seam join them. */
  method RecomputeVertices(c: AttributeConnectivity, base: CornerTable) returns (ok: bool)
    requires c.Marked(base) && c.cornerToVertex.Length == base.opposite.Length && base.numVertices <= c.vertexOnSeam.Length
    requires c.cornerToVertex !in base.Repr() && c !in base.Repr()
    requires BaseOk(base.opposite[..], base.cornerVertex[..], base.vertexCorners[..], base.numVertices)
    requires forall k :: 0 <= k < base.opposite.Length && base.opposite[k] < 0 ==> c.seamEdges[..][k]
    modifies c`leftMostCorners, c`numVertices, c.cornerToVertex
    ensures ok && c.Marked(base) && base.opposite[..] == old(base.opposite[..])
    ensures Matching(Cut(base.opposite[..], c.seamEdges[..]))
    ensures BaseOk(Cut(base.opposite[..], c.seamEdges[..]), c.cornerToVertex[..], c.leftMostCorners, c.numVertices)
    ensures c.numVertices == |c.leftMostCorners|
    ensures InOrder(base.cornerVertex[..], c.cornerToVertex[..], base.numVertices)
  {
    hide Matching, Symmetric, Flagged, Linked, BaseOk, CutInv, Cut, InOrder;
    c.MarkedSizes(base);
    ghost var opp, seam, labels := base.opposite[..], c.seamEdges[..], base.cornerVertex[..];
    CutMatches(opp, seam);
    for k := 0 to c.cornerToVertex.Length
      invariant forall j :: 0 <= j < k ==> c.cornerToVertex[j] == -1
    {
      c.cornerToVertex[k] := -1;
    }
    c.leftMostCorners := [];
    c.numVertices := 0;
    BaseLabels(opp, labels, base.vertexCorners[..], base.numVertices);
    CutStart(opp, labels, seam, c.cornerToVertex[..]);
    NothingOrdered(labels, c.cornerToVertex[..]);
    for vertex := 0 to base.numVertices
      invariant CutInv(opp, labels, seam, c.cornerToVertex[..], c.leftMostCorners, vertex)
      invariant c.numVertices == |c.leftMostCorners| && InOrder(labels, c.cornerToVertex[..], vertex)
    {
      if base.vertexCorners[vertex] < 0 {
        OrderSkip(opp, labels, base.vertexCorners[..], base.numVertices, c.cornerToVertex[..], vertex);
        CutSkip(opp, labels, base.vertexCorners[..], base.numVertices, seam, c.cornerToVertex[..], c.leftMostCorners, vertex);
      } else {
        ok := CutVertex(c, base, vertex);
        if !ok {
          return;
        }
      }
    }
    CutDone(opp, labels, base.vertexCorners[..], base.numVertices, seam, c.cornerToVertex[..], c.leftMostCorners);
    BaseLabels(Cut(opp, seam), c.cornerToVertex[..], c.leftMostCorners, c.numVertices);
    AssignLeftovers(c, base);
    ok := true;
  }

  lemma NothingOrdered(vertex: seq<int>, attr: seq<int>)
    requires |attr| == |vertex| && forall c :: 0 <= c < |vertex| ==> vertex[c] >= 0
    ensures InOrder(vertex, attr, 0)
  {
  }

  lemma BaseLabels(opp: seq<int>, vertex: seq<int>, leftMost: seq<int>, n: nat)
    requires Matching(opp) && BaseOk(opp, vertex, leftMost, n)
    ensures |vertex| == |opp| && n <= |leftMost| && forall c :: 0 <= c < |opp| ==> 0 <= vertex[c] < n
    ensures forall v :: 0 <= v < n ==> leftMost[v] == -1 || (0 <= leftMost[v] < |opp| && vertex[leftMost[v]] == v)
  {
  }

  /** One base vertex. */
  method CutVertex(c: AttributeConnectivity, base: CornerTable, vertex: nat) returns (ok: bool)
    requires c.Marked(base) && c.cornerToVertex.Length == base.opposite.Length && vertex < base.numVertices <= c.vertexOnSeam.Length
    requires c.cornerToVertex !in base.Repr() && c !in base.Repr() && c.numVertices == |c.leftMostCorners|
    requires BaseOk(base.opposite[..], base.cornerVertex[..], base.vertexCorners[..], base.numVertices)
    requires forall k :: 0 <= k < base.opposite.Length && base.opposite[k] < 0 ==> c.seamEdges[..][k]
    requires base.vertexCorners[..][vertex] >= 0 && Matching(Cut(base.opposite[..], c.seamEdges[..]))
    requires CutInv(base.opposite[..], base.cornerVertex[..], c.seamEdges[..], c.cornerToVertex[..], c.leftMostCorners, vertex)
    requires InOrder(base.cornerVertex[..], c.cornerToVertex[..], vertex)
    modifies c`leftMostCorners, c`numVertices, c.cornerToVertex
    ensures InOrder(base.cornerVertex[..], c.cornerToVertex[..], vertex + 1)
    ensures ok && c.Marked(base) && base.opposite[..] == old(base.opposite[..]) && c.numVertices == |c.leftMostCorners|
    ensures Matching(Cut(base.opposite[..], c.seamEdges[..]))
    ensures CutInv(base.opposite[..], base.cornerVertex[..], c.seamEdges[..], c.cornerToVertex[..], c.leftMostCorners, vertex + 1)
  {
    hide Matching, Symmetric, Flagged, Linked, BaseOk, CutInv, Cut, Segmented, Starts, Behind, WholeWalk, Distinct, SwingLeft, SwingRight, InOrder;
    c.MarkedSizes(base);
    ghost var opp, seam, labels := base.opposite[..], c.seamEdges[..], base.cornerVertex[..];
    ghost var attr, lefts := c.cornerToVertex[..], c.leftMostCorners;
    BaseLabels(opp, labels, base.vertexCorners[..], base.numVertices);
    var first;
    ok, first := FindFirst(c, base, vertex, base.vertexCorners[vertex]);
    if !ok {
      return;
    }
    ghost var walk := CutFan(c, base, first);
    WholeWalkOf(opp, labels, base.vertexCorners[..], base.numVertices, seam, c.vertexOnSeam[..], walk, vertex);
    WalkOfVertex(opp, labels, seam, walk, vertex);
    OrderStep(opp, labels, seam, attr, lefts, c.cornerToVertex[..], vertex, walk);
    CutStep(opp, labels, base.vertexCorners[..], base.numVertices, seam, attr, lefts, c.cornerToVertex[..], c.leftMostCorners, vertex, walk);
  }

  // ---- seams from attribute entries -------------------------------------------------------------

  /** Every unmarked edge joins corners with equal entries at both ends. */
  ghost predicate EntriesMeet(opp: seq<int>, seam: seq<bool>, entry: seq<int>, c: nat)
    requires Matching(opp) && |seam| == |opp| == |entry| && c < |opp|
  {
    opp[c] >= 0 && !seam[c] ==> EdgeAgrees(opp, entry, c)
  }

  /** Corners of one attribute vertex have the same attribute entry. */
  lemma SameEntry(opp: seq<int>, seam: seq<bool>, entry: seq<int>, attr: seq<int>, lefts: seq<int>, n: nat)
    requires Matching(opp) && Symmetric(opp, seam) && Matching(Cut(opp, seam)) && |entry| == |opp|
    requires forall c :: 0 <= c < |opp| ==> EntriesMeet(opp, seam, entry, c)
    requires BaseOk(Cut(opp, seam), attr, lefts, n)
    ensures forall c, d :: 0 <= c < |opp| && 0 <= d < |opp| && attr[c] == attr[d] ==> entry[c] == entry[d]
  {
    hide Linked;
    var cut := Cut(opp, seam);
    forall c | 0 <= c < |cut| && cut[c] >= 0
      ensures EdgeAgrees(cut, entry, c)
    {
      assert EntriesMeet(opp, seam, entry, c);
    }
    AgreeingSwings(cut, entry);
    forall c, d | 0 <= c < |opp| && 0 <= d < |opp| && attr[c] == attr[d]
      ensures entry[c] == entry[d]
    {
      ConstantOnFans(cut, entry, c, d);
    }
  }

  /** Boundary edges, and edges across which some entry changes, become seams. */
  method MarkSeams(c: AttributeConnectivity, base: CornerTable, entry: seq<int>)
    requires c.Marked(base) && c !in base.Repr() && |entry| == base.opposite.Length
    requires forall k :: 0 <= k < c.seamEdges.Length ==> !c.seamEdges[k]
    modifies c`noInteriorSeams, c.seamEdges, c.vertexOnSeam
    ensures c.Marked(base) && base.opposite[..] == old(base.opposite[..])
    ensures forall k :: 0 <= k < base.opposite.Length ==> EntriesMeet(base.opposite[..], c.seamEdges[..], entry, k)
    ensures forall k :: 0 <= k < base.opposite.Length && c.seamEdges[k] ==>
              base.opposite[k] < 0 || !EdgeAgrees(base.opposite[..], entry, k)
    ensures forall k :: 0 <= k < base.opposite.Length && base.opposite[k] < 0 ==> c.seamEdges[k]
  {
    hide Matching, Symmetric, Flagged;
    c.MarkedSizes(base);
    ghost var opp := base.opposite[..];
    for corner := 0 to base.opposite.Length
      invariant c.Marked(base) && base.opposite[..] == opp
      invariant forall k :: 0 <= k < |opp| ==> (c.seamEdges[k] <==> SeamBy(opp, entry, k, corner))
    {
      EdgeSides(opp, corner);
      ghost var before := c.seamEdges[..];
      var other := base.opposite[corner];
      if other < 0 {
        c.MarkSeam(base, corner);
      } else if other >= corner {
        var act, sibling := Next(corner), Previous(other);
        if entry[act] != entry[sibling] {
          c.MarkSeam(base, corner);
        } else {
          act, sibling := Next(act), Previous(sibling);
          if entry[act] != entry[sibling] {
            c.MarkSeam(base, corner);
          }
        }
      }
      SeamStep(opp, entry, before, c.seamEdges[..], corner);
    }
    SeamsEnd(opp, entry, c.seamEdges[..]);
  }

  /** Corner k's edge is a boundary or changes entries, and has been looked at. */
  ghost predicate SeamBy(opp: seq<int>, entry: seq<int>, k: nat, done: nat)
    requires Matching(opp) && |entry| == |opp| && k < |opp|
  {
    if opp[k] < 0 then k < done
    else (k < done || opp[k] < done) && !EdgeAgrees(opp, entry, k)
  }

  lemma EdgeSides(opp: seq<int>, c: nat)
    requires Matching(opp) && c < |opp|
    ensures Next(c) < |opp| && Previous(c) < |opp| && Next(Next(c)) == Previous(c)
    ensures opp[c] >= 0 ==> opp[c] < |opp| && opp[c] != c && Previous(opp[c]) < |opp| && Next(opp[c]) < |opp|
    ensures opp[c] >= 0 ==> Previous(Previous(opp[c])) == Next(opp[c])
  {
    Rotate(c);
    RotateBelow(c, |opp| / 3);
    if opp[c] >= 0 {
      Rotate(opp[c]);
      RotateBelow(opp[c], |opp| / 3);
    }
  }

  lemma SeamStep(opp: seq<int>, entry: seq<int>, before: seq<bool>, after: seq<bool>, corner: nat)
    requires Matching(opp) && |entry| == |before| == |after| == |opp| && corner < |opp|
    requires forall k :: 0 <= k < |opp| ==> (before[k] <==> SeamBy(opp, entry, k, corner))
    requires after == if opp[corner] < 0 then before[corner := true]
                      else if opp[corner] >= corner && !EdgeAgrees(opp, entry, corner) then before[corner := true][opp[corner] := true]
                      else before
    ensures forall k :: 0 <= k < |opp| ==> (after[k] <==> SeamBy(opp, entry, k, corner + 1))
  {
    forall k | 0 <= k < |opp|
      ensures after[k] <==> SeamBy(opp, entry, k, corner + 1)
    {
      EdgeSides(opp, k);
      EdgeSides(opp, corner);
    }
  }

  lemma SeamsEnd(opp: seq<int>, entry: seq<int>, seam: seq<bool>)
    requires Matching(opp) && |entry| == |seam| == |opp|
    requires forall k :: 0 <= k < |opp| ==> (seam[k] <==> SeamBy(opp, entry, k, |opp|))
    ensures forall k :: 0 <= k < |opp| ==> EntriesMeet(opp, seam, entry, k)
    ensures forall k :: 0 <= k < |opp| && seam[k] ==> opp[k] < 0 || !EdgeAgrees(opp, entry, k)
    ensures forall k :: 0 <= k < |opp| && opp[k] < 0 ==> seam[k]
  {
    forall k | 0 <= k < |opp|
      ensures EntriesMeet(opp, seam, entry, k)
      ensures seam[k] ==> opp[k] < 0 || !EdgeAgrees(opp, entry, k)
      ensures opp[k] < 0 ==> seam[k]
    {
      assert seam[k] <==> SeamBy(opp, entry, k, |opp|);
    }
  }
}
