/** After the faces (edgebreaker_decode.go, edgebreaker_topology.go): vertices renumbered by
    first use when merged ones are dropped, left-most corners moved to the left end of their
    fan, and the whole connectivity decoder. */
module Compaction {
  import opened Bits
  import opened Corners
  import opened CornerTables
  import opened Connectivity
  import opened StartFaces
  import opened ConnectivityDecoding

  // ---- left ends ------------------------------------------------------------------------------

  /** Swinging left from c comes back to c. */
  ghost predicate Closed(opp: seq<int>, c: int)
    requires Matching(opp)
  {
    exists walk :: LeftWalk(opp, walk) && walk[0] == c && SwingLeft(opp, walk[|walk| - 1]) == c
  }

  /** r is on first's fan: its left end, or first itself when the fan is closed. */
  ghost predicate IsLeftEnd(opp: seq<int>, first: int, r: int)
    requires Matching(opp)
  {
    0 <= r < |opp| && Linked(opp, first, r) && (SwingLeft(opp, r) < 0 || (r == first && Closed(opp, first)))
  }

  lemma MatchingRange(opp: seq<int>)
    requires Matching(opp)
    ensures InRange(opp)
  {
  }

  /** The leftward search; it ends because a swing chain can only return to its start. */
  method FindLeftEnd(opposite: array<int>, first: nat) returns (r: int)
    requires Matching(opposite[..]) && first < opposite.Length
    ensures IsLeftEnd(opposite[..], first, r)
  {
    hide Matching, Linked;
    MatchingRange(opposite[..]);
    ghost var opp := opposite[..];
    ghost var walk := [first as int];
    SwingInverse(opp, first);
    LinkedSelf(opp, first);
    var best, act := first as int, SwingLeft(opposite[..], first);
    while act >= 0 && act != first
      invariant LeftWalk(opp, walk) && walk[0] == first && walk[|walk| - 1] == best
      invariant act == SwingLeft(opp, best) && Linked(opp, first, best) && 0 <= best < |opp|
      decreases |opp| - |walk|
    {
      LeftWalkOn(opp, walk, act);
      walk := walk + [act];
      LeftWalkLinked(opp, walk, |walk| - 1);
      best := act;
      SwingInverse(opp, act);
      act := SwingLeft(opposite[..], act);
    }
    r := if act != first then best else first;
  }

  // ---- renumbering ----------------------------------------------------------------------------

  /** The labels of the first k corners, in order of first use. */
  function FirstUses(vertex: seq<int>, k: nat): seq<int>
    requires k <= |vertex|
    decreases k
  {
    if k == 0 then []
    else
      var order := FirstUses(vertex, k - 1);
      if vertex[k - 1] in order then order else order + [vertex[k - 1]]
  }

  lemma {:induction false} FirstUsesDistinct(vertex: seq<int>, k: nat, n: nat)
    requires k <= |vertex| && forall c :: 0 <= c < k ==> 0 <= vertex[c] < n
    ensures Distinct(FirstUses(vertex, k), n) && |FirstUses(vertex, k)| <= n
    ensures forall c :: 0 <= c < k ==> vertex[c] in FirstUses(vertex, k)
    decreases k
  {
    if k > 0 {
      FirstUsesDistinct(vertex, k - 1, n);
    }
    DistinctBound(FirstUses(vertex, k), n);
  }

  lemma {:induction false} FirstUsesUsed(vertex: seq<int>, k: nat, v: int)
    requires k <= |vertex| && v in FirstUses(vertex, k)
    ensures exists c :: 0 <= c < k && vertex[c] == v
    decreases k
  {
    if v in FirstUses(vertex, k - 1) {
      FirstUsesUsed(vertex, k - 1, v);
    }
  }

  /** Later corners only append new labels. */
  lemma {:induction false} FirstUsesGrow(vertex: seq<int>, j: nat, k: nat)
    requires j <= k <= |vertex|
    ensures FirstUses(vertex, j) <= FirstUses(vertex, k)
    decreases k
  {
    if j < k {
      FirstUsesGrow(vertex, j, k - 1);
    }
  }

  /** after renames the labels of before to their place in the order of first use. */
  ghost predicate Renumbered(before: seq<int>, after: seq<int>)
  {
    var order := FirstUses(before, |before|);
    |after| == |before| && forall c :: 0 <= c < |after| ==> 0 <= after[c] < |order| && order[after[c]] == before[c]
  }

  /** Renumbering keeps the partition of corners into vertices and uses every number; a smaller
      number is used first; glued edges that agreed still agree. */
  lemma RenumberedMeaning(opp: seq<int>, before: seq<int>, after: seq<int>, n: nat)
    requires Renumbered(before, after) && forall c :: 0 <= c < |before| ==> 0 <= before[c] < n
    ensures forall c, d :: 0 <= c < |before| && 0 <= d < |before| ==> (after[c] == after[d] <==> before[c] == before[d])
    ensures forall v :: 0 <= v < |FirstUses(before, |before|)| ==> v in after
    ensures Matching(opp) && |opp| == |before| && EdgesAgree(opp, before) ==> EdgesAgree(opp, after)
  {
    var order := FirstUses(before, |before|);
    FirstUsesDistinct(before, |before|, n);
    forall v | 0 <= v < |order|
      ensures v in after
    {
      FirstUsesUsed(before, |before|, order[v]);
      var c :| 0 <= c < |before| && before[c] == order[v];
      assert after[c] == v;
    }
    if Matching(opp) && |opp| == |before| && EdgesAgree(opp, before) {
      RenumberedAgrees(opp, before, after, n);
    }
  }

  lemma RenumberedAgrees(opp: seq<int>, before: seq<int>, after: seq<int>, n: nat)
    requires Renumbered(before, after) && forall c :: 0 <= c < |before| ==> 0 <= before[c] < n
    requires Matching(opp) && |opp| == |before| && EdgesAgree(opp, before)
    ensures EdgesAgree(opp, after)
  {
    FirstUsesDistinct(before, |before|, n);
    forall c | 0 <= c < |opp| && opp[c] >= 0
      ensures EdgeAgrees(opp, after, c)
    {
      EdgeAt(opp, before, c);
    }
  }

  lemma DistinctAt(s: seq<int>, n: nat, i: nat, j: nat)
    requires Distinct(s, n) && i < |s| && j < |s| && s[i] == s[j]
    ensures i == j
  {
  }

  lemma FirstUsesNext(vertex: seq<int>, k: nat)
    requires k < |vertex|
    ensures |FirstUses(vertex, k + 1)| <= |FirstUses(vertex, k)| + 1
  {
  }

  /** A label's first corner comes before the first corner of any larger label. */
  lemma RenumberedOrder(before: seq<int>, after: seq<int>, n: nat, c: nat)
    requires Renumbered(before, after) && c < |before| && forall d :: 0 <= d < |before| ==> 0 <= before[d] < n
    ensures forall v :: 0 <= v < after[c] ==> v in after[..c]
  {
    hide FirstUses, Distinct;
    var all, order := FirstUses(before, |before|), FirstUses(before, c);
    FirstUsesGrow(before, c, |before|);
    FirstUsesGrow(before, c + 1, |before|);
    FirstUsesDistinct(before, |before|, n);
    FirstUsesDistinct(before, c + 1, n);
    var upTo := FirstUses(before, c + 1);
    assert before[c] in upTo;
    var i :| 0 <= i < |upTo| && upTo[i] == before[c];
    DistinctAt(all, n, i, after[c]);
    FirstUsesNext(before, c);
    forall v | 0 <= v < after[c]
      ensures v in after[..c]
    {
      assert order[v] == all[v];
      FirstUsesUsed(before, c, order[v]);
      var d :| 0 <= d < c && before[d] == order[v];
      DistinctAt(all, n, after[d], v);
      assert after[..c][d] == v;
    }
  }

  /** What remap holds for label v: its place in the order, or -1. */
  ghost predicate Places(remap: seq<int>, order: seq<int>)
  {
    forall v :: 0 <= v < |remap| ==>
      if remap[v] < 0 then v !in order else remap[v] < |order| && order[remap[v]] == v
  }

  lemma PlacesPush(remap: seq<int>, order: seq<int>, v: nat)
    requires Places(remap, order) && v < |remap| && remap[v] < 0
    ensures Places(remap[v := |order|], order + [v])
  {
  }

  lemma PlacesAt(remap: seq<int>, order: seq<int>, v: nat)
    requires Places(remap, order) && v < |remap|
    ensures remap[v] < 0 <==> v !in order
    ensures remap[v] >= 0 ==> remap[v] < |order| && order[remap[v]] == v
  {
  }

  /** Renumbers in place; false when some corner has no vertex. */
  method Renumber(vertex: array<int>, holes: array<bool>, maxVertices: nat) returns (ok: bool, numVertices: nat, newHoles: array<bool>)
    requires forall c :: 0 <= c < vertex.Length ==> -1 <= vertex[c] < maxVertices
    requires holes.Length == maxVertices
    modifies vertex
    ensures ok <==> forall c :: 0 <= c < vertex.Length ==> old(vertex[c]) >= 0
    ensures ok ==> Renumbered(old(vertex[..]), vertex[..]) && newHoles.Length == maxVertices &&
                   numVertices == |FirstUses(old(vertex[..]), vertex.Length)| <= maxVertices
    ensures ok ==> HolesMoved(holes[..], newHoles[..], FirstUses(old(vertex[..]), vertex.Length))
    ensures fresh(newHoles)
  {
    hide Places, FirstUses, HolesMoved, Distinct;
    ghost var before := vertex[..];
    newHoles := new bool[holes.Length](_ => false);
    var remap := new int[maxVertices](_ => -1);
    numVertices := 0;
    ghost var order: seq<int> := [];
    NoPlaces(remap[..]);
    RenumberStart(before, holes[..], newHoles[..]);
    for c := 0 to vertex.Length
      invariant forall d :: 0 <= d < c ==> before[d] >= 0
      invariant order == FirstUses(before, c) && numVertices == |order| <= maxVertices && Places(remap[..], order)
      invariant Renamed(before, vertex[..], order, c)
      invariant HolesMoved(holes[..], newHoles[..], order)
    {
      var v := vertex[c];
      if v < 0 {
        return false, 0, newHoles;
      }
      assert v == before[c];
      OrderStep(before, c, maxVertices);
      ghost var order0 := order;
      numVertices, order := PlaceLabel(remap, newHoles, holes, v, numVertices, order);
      assert order == FirstUses(before, c + 1);
      RenamedPush(before, vertex[..], order0, order, c, remap[v]);
      vertex[c] := remap[v];
    }
    ok := true;
  }

  /** The first c labels are renamed, the others are untouched. */
  ghost predicate Renamed(before: seq<int>, vertex: seq<int>, order: seq<int>, c: nat)
  {
    |vertex| == |before| && c <= |before| &&
    (forall d :: 0 <= d < c ==> 0 <= vertex[d] < |order| && order[vertex[d]] == before[d]) &&
    forall d :: c <= d < |vertex| ==> vertex[d] == before[d]
  }

  lemma RenamedPush(before: seq<int>, vertex: seq<int>, order: seq<int>, order1: seq<int>, c: nat, place: int)
    requires Renamed(before, vertex, order, c) && c < |before| && order <= order1
    requires 0 <= place < |order1| && order1[place] == before[c]
    ensures Renamed(before, vertex[c := place], order1, c + 1)
  {
  }

  /** Hole flags follow their vertices. */
  ghost predicate HolesMoved(holes: seq<bool>, newHoles: seq<bool>, order: seq<int>)
  {
    |newHoles| == |holes| && |order| <= |newHoles| &&
    forall i :: 0 <= i < |order| ==> 0 <= order[i] < |holes| && newHoles[i] == holes[order[i]]
  }

  method PlaceLabel(remap: array<int>, newHoles: array<bool>, holes: array<bool>, v: nat, count: nat, ghost order: seq<int>)
    returns (numVertices: nat, ghost order1: seq<int>)
    requires v < remap.Length == holes.Length && count == |order| && Places(remap[..], order) && newHoles != holes
    requires HolesMoved(holes[..], newHoles[..], order) && (v in order || |order| < newHoles.Length)
    modifies remap, newHoles
    ensures order1 == (if v in order then order else order + [v]) && numVertices == |order1|
    ensures Places(remap[..], order1) && HolesMoved(holes[..], newHoles[..], order1)
    ensures 0 <= remap[v] < |order1| && order1[remap[v]] == v
  {
    hide Places;
    PlacesAt(remap[..], order, v);
    numVertices, order1 := count, order;
    if remap[v] < 0 {
      PlacesPush(remap[..], order, v);
      remap[v] := numVertices;
      newHoles[numVertices] := holes[v];
      numVertices := numVertices + 1;
      order1 := order + [v];
    }
  }

  lemma RenumberStart(before: seq<int>, holes: seq<bool>, newHoles: seq<bool>)
    requires |holes| == |newHoles|
    ensures FirstUses(before, 0) == [] && HolesMoved(holes, newHoles, [])
  {
  }

  lemma OrderStep(before: seq<int>, c: nat, n: nat)
    requires c < |before| && forall d :: 0 <= d <= c ==> 0 <= before[d] < n
    ensures FirstUses(before, c + 1) == if before[c] in FirstUses(before, c) then FirstUses(before, c) else FirstUses(before, c) + [before[c]]
    ensures |FirstUses(before, c + 1)| <= n
  {
    FirstUsesDistinct(before, c + 1, n);
  }

  lemma NoPlaces(remap: seq<int>)
    requires forall v :: 0 <= v < |remap| ==> remap[v] == -1
    ensures Places(remap, [])
  {
  }

  // ---- the table after compaction -------------------------------------------------------------

  /** c is the first corner with label v. */
  ghost predicate FirstCorner(vertex: seq<int>, v: int, c: int)
  {
    0 <= c < |vertex| && vertex[c] == v && forall d :: 0 <= d < c ==> vertex[d] != v
  }

  /** Each vertex's stored corner, looking at the first k corners only. */
  ghost predicate FirstCorners(vertex: seq<int>, leftMost: seq<int>, k: nat)
  {
    k <= |vertex| && forall v :: 0 <= v < |leftMost| ==>
      if leftMost[v] < 0 then v !in vertex[..k] else FirstCorner(vertex, v, leftMost[v])
  }

  lemma FirstCornersPush(vertex: seq<int>, leftMost: seq<int>, k: nat)
    requires FirstCorners(vertex, leftMost, k) && k < |vertex| && 0 <= vertex[k] < |leftMost|
    ensures FirstCorners(vertex, if leftMost[vertex[k]] < 0 then leftMost[vertex[k] := k] else leftMost, k + 1)
  {
    var v, after := vertex[k], if leftMost[vertex[k]] < 0 then leftMost[vertex[k] := k] else leftMost;
    assert vertex[..k + 1] == vertex[..k] + [v];
    forall d | 0 <= d < k && leftMost[v] < 0
      ensures vertex[d] != v
    {
      assert vertex[..k][d] == vertex[d];
    }
  }

  lemma FirstCornersAt(vertex: seq<int>, leftMost: seq<int>, v: nat)
    requires FirstCorners(vertex, leftMost, |vertex|) && v < |leftMost| && v in vertex
    ensures FirstCorner(vertex, v, leftMost[v])
  {
    assert vertex[..|vertex|] == vertex;
  }

  method StoreFirstCorners(table: CornerTable)
    requires table.Separate()
    requires forall c :: 0 <= c < table.cornerVertex.Length ==> 0 <= table.cornerVertex[c] < table.vertexCorners.Length
    modifies table.vertexCorners
    ensures FirstCorners(table.cornerVertex[..], table.vertexCorners[..], table.cornerVertex.Length)
  {
    hide FirstCorners;
    for i := 0 to table.vertexCorners.Length
      invariant forall v :: 0 <= v < i ==> table.vertexCorners[v] == -1
    {
      table.vertexCorners[i] := -1;
    }
    NoFirstCorners(table.cornerVertex[..], table.vertexCorners[..]);
    for corner := 0 to table.cornerVertex.Length
      invariant FirstCorners(table.cornerVertex[..], table.vertexCorners[..], corner)
    {
      FirstCornersPush(table.cornerVertex[..], table.vertexCorners[..], corner);
      var vertex := table.cornerVertex[corner];
      if table.vertexCorners[vertex] < 0 {
        table.vertexCorners[vertex] := corner;
      }
    }
  }

  lemma NoFirstCorners(vertex: seq<int>, leftMost: seq<int>)
    requires forall v :: 0 <= v < |leftMost| ==> leftMost[v] == -1
    ensures FirstCorners(vertex, leftMost, 0)
  {
  }

  /** Each vertex below n has the left end of the fan of its first corner. */
  ghost predicate LeftEnds(t: Table, n: nat)
    requires Matching(t.opposite)
  {
    n <= |t.leftMost| && forall v :: 0 <= v < n ==> HasLeftEnd(t, v)
  }

  ghost predicate HasLeftEnd(t: Table, v: nat)
    requires Matching(t.opposite) && v < |t.leftMost|
  {
    exists c :: FirstCorner(t.vertex, v, c) && IsLeftEnd(t.opposite, c, t.leftMost[v])
  }

  /** With agreeing edges, the stored corner belongs to its vertex. */
  lemma LeftEndsAreHomes(t: Table)
    requires Shape(t) && Matching(t.opposite) && EdgesAgree(t.opposite, t.vertex) && LeftEnds(t, t.numVertices)
    requires forall c :: 0 <= c < |t.vertex| ==> 0 <= t.vertex[c] < t.numVertices
    ensures Homes(t, |t.vertex|)
  {
    AgreeingSwings(t.opposite, t.vertex);
    forall c | 0 <= c < |t.vertex|
      ensures Home(t, t.vertex[c])
    {
      assert HasLeftEnd(t, t.vertex[c]);
      var first :| FirstCorner(t.vertex, t.vertex[c], first) && IsLeftEnd(t.opposite, first, t.leftMost[t.vertex[c]]);
      ConstantOnFans(t.opposite, t.vertex, first, t.leftMost[t.vertex[c]]);
    }
  }

  /** Renumbering, first corners, hole flags and left ends. */
  method CompactVertices(table: CornerTable, holes: array<bool>) returns (ok: bool)
    requires table.Separate() && Loose(table.Value(), table.cornerVertex.Length)
    requires holes.Length == table.vertexCorners.Length
    modifies table, table.cornerVertex, table.vertexCorners, holes
    ensures ok <==> forall c :: 0 <= c < table.cornerVertex.Length ==> old(table.cornerVertex[c]) >= 0
    ensures Matching(table.opposite[..])
    ensures ok ==> Renumbered(old(table.cornerVertex[..]), table.cornerVertex[..])
    ensures ok ==> table.numVertices == |FirstUses(old(table.cornerVertex[..]), table.cornerVertex.Length)|
    ensures ok ==> LeftEnds(table.Value(), table.numVertices)
    ensures ok ==> HolesMoved(old(holes[..]), holes[..], FirstUses(old(table.cornerVertex[..]), table.cornerVertex.Length))
  {
    hide FirstUses, Matching, FirstCorners, Loose, LeftEnds;
    LooseLabels(table.Value(), table.cornerVertex.Length);
    var numVertices, newHoles;
    ghost var before, opp := table.cornerVertex[..], table.opposite[..];
    ok, numVertices, newHoles := Renumber(table.cornerVertex, holes, table.vertexCorners.Length);
    if !ok {
      return;
    }
    RenumberedMeaning(opp, before, table.cornerVertex[..], table.vertexCorners.Length);
    StoreFirstCorners(table);
    table.numVertices := numVertices;
    MoveToLeftEnds(table, numVertices);
    ghost var t := table.Value();
    for v := 0 to numVertices
      invariant forall u :: 0 <= u < v ==> holes[u] == newHoles[u]
      invariant table.Value() == t
      modifies holes
    {
      holes[v] := newHoles[v];
    }
  }

  /** UpdateVertexToCornerMap for every vertex. */
  method MoveToLeftEnds(table: CornerTable, numVertices: nat)
    requires table.Separate() && Matching(table.opposite[..]) && table.opposite.Length == table.cornerVertex.Length
    requires FirstCorners(table.cornerVertex[..], table.vertexCorners[..], table.cornerVertex.Length)
    requires numVertices <= table.vertexCorners.Length && forall v :: 0 <= v < numVertices ==> v in table.cornerVertex[..]
    modifies table.vertexCorners
    ensures LeftEnds(table.Value(), numVertices)
  {
    hide Matching, FirstCorners, IsLeftEnd, FirstCorner, HasLeftEnd;
    ghost var vertex, opp, first := table.cornerVertex[..], table.opposite[..], table.vertexCorners[..];
    for v := 0 to numVertices
      invariant forall u :: v <= u < |first| ==> table.vertexCorners[u] == first[u]
      invariant forall u :: 0 <= u < v ==> IsLeftEnd(opp, first[u], table.vertexCorners[u])
    {
      FirstCornersAt(vertex, first, v);
      FirstCornerSize(vertex, v, first[v]);
      table.vertexCorners[v] := FindLeftEnd(table.opposite, table.vertexCorners[v]);
    }
    forall v | 0 <= v < numVertices
      ensures HasLeftEnd(table.Value(), v)
    {
      FirstCornersAt(vertex, first, v);
      assert IsLeftEnd(opp, first[v], table.vertexCorners[v]);
      StoredLeftEnd(table.Value(), v, first[v]);
    }
  }

  lemma StoredLeftEnd(t: Table, v: nat, c: int)
    requires Matching(t.opposite) && v < |t.leftMost| && FirstCorner(t.vertex, v, c) && IsLeftEnd(t.opposite, c, t.leftMost[v])
    ensures HasLeftEnd(t, v)
  {
  }

  lemma FirstCornerSize(vertex: seq<int>, v: int, c: int)
    requires FirstCorner(vertex, v, c)
    ensures 0 <= c < |vertex|
  {
  }

  /** The decoder.  It succeeds exactly when the machine does and every corner got a vertex.
      Without dropped vertices the arrays are the machine's table; with them, vertices are
      renumbered by first use and stored corners moved to left ends. */
  method DecodeConnectivity(table: CornerTable, holes: array<bool>, symbols: seq<nat>, bits: seq<bool>, events: seq<Event>,
      remove: bool, numFaces: nat, maxVertices: nat) returns (ok: bool)
    requires table.Valid() && table.Value() == EmptyTable(numFaces, maxVertices, table.trackVertexCorners)
    requires holes.Length == maxVertices && holes[..] == seq(maxVertices, _ => true)
    modifies table.Repr(), holes
    ensures var run := Decode(numFaces, maxVertices, table.trackVertexCorners, symbols, bits, events, remove);
            (ok <==> run.Some? && forall c :: 0 <= c < |run.value.t.vertex| ==> run.value.t.vertex[c] >= 0) &&
            (ok ==> table.opposite[..] == run.value.t.opposite && Matching(table.opposite[..])) &&
            (ok && !(remove && run.value.dropped != []) ==> table.Value() == run.value.t) &&
            (ok && remove && run.value.dropped != [] ==>
               Renumbered(run.value.t.vertex, table.cornerVertex[..]) && LeftEnds(table.Value(), table.numVertices))
    ensures var run := Decode(numFaces, maxVertices, table.trackVertexCorners, symbols, bits, events, remove);
            ok ==>
              if remove && run.value.dropped != [] then HolesMoved(run.value.holes, holes[..], FirstUses(run.value.t.vertex, 3 * numFaces))
              else holes[..] == run.value.holes
    ensures ok ==> forall c :: 0 <= c < table.cornerVertex.Length ==> 0 <= table.cornerVertex[c] < table.numVertices
  {
    hide RunTo, RunStart, Loose, EmptyTable, Base, TableBase, Matching, LeftEnds, HolesMoved;
    var l;
    ok, l := DecodeSymbols(table, holes, symbols, events, remove, numFaces, maxVertices);
    if !ok {
      return;
    }
    RunningIsStarting(StateOf(table, holes, l));
    EmptySizes(numFaces, maxVertices, table.trackVertexCorners);
    ok, l := DecodeStarts(table, holes, l, bits);
    if !ok || l.faces != numFaces {
      return false;
    }
    LooseLabels(table.Value(), 3 * l.faces);
    if remove && l.dropped != [] {
      ok := CompactVertices(table, holes);
      return;
    }
    for corner := 0 to table.cornerVertex.Length
      invariant forall c :: 0 <= c < corner ==> 0 <= table.cornerVertex[c] < table.numVertices
    {
      var vertex := table.cornerVertex[corner];
      if vertex < 0 || vertex >= table.numVertices {
        return false;
      }
    }
    ok := true;
  }

  lemma RunningIsStarting(s: State)
    requires Going(s)
    ensures Ready(s) && (LooseState(s) || 3 * s.faces > |s.t.vertex|)
  {
    hide Matching;
  }

  lemma LooseLabels(t: Table, k: nat)
    requires Loose(t, k)
    ensures forall c :: 0 <= c < k && c < |t.vertex| ==> -1 <= t.vertex[c] < t.numVertices
    ensures Matching(t.opposite) && t.numVertices <= |t.leftMost| && |t.opposite| == |t.vertex|
  {
  }
}
