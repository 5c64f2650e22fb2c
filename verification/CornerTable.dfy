/** The mutable corner table (edgebreaker_topology.go) and the vertex-fan merge
    (edgebreaker_decode.go), whose linked lists of corners are shown to replace a full scan. */
module CornerTables {
  import opened Bits
  import opened Corners

  // ---- the table as a value -------------------------------------------------------------

  /** lists[v] is the linked list of corners that starts at head v; kept only when tracked. */
  datatype Table = Table(vertex: seq<int>, opposite: seq<int>, leftMost: seq<int>, numVertices: nat,
                         tracked: bool, lists: seq<seq<int>>)

  ghost predicate Shape(t: Table)
  {
    |t.vertex| == |t.opposite| && |t.vertex| % 3 == 0 && t.numVertices <= |t.leftMost| &&
    (t.tracked ==> |t.lists| == |t.leftMost|)
  }

  function VertexOf(t: Table, c: int): int
  {
    if 0 <= c < |t.vertex| then t.vertex[c] else -1
  }

  function OppositeOf(t: Table, c: int): int
  {
    if 0 <= c < |t.opposite| then t.opposite[c] else -1
  }

  function LeftMostOf(t: Table, v: int): int
  {
    if 0 <= v < |t.leftMost| then t.leftMost[v] else -1
  }

  function NextOf(c: int): int
  {
    if c < 0 then -1 else Next(c)
  }

  function PreviousOf(c: int): int
  {
    if c < 0 then -1 else Previous(c)
  }

  function SetOpposite(t: Table, a: int, b: int): (r: Table)
    ensures Shape(t) ==> Shape(r) && |r.leftMost| == |t.leftMost| && |r.vertex| == |t.vertex|
  {
    if a < 0 || b < 0 || a >= |t.opposite| || b >= |t.opposite| then t
    else t.(opposite := t.opposite[a := b][b := a])
  }

  /** A corner enters its vertex's list when it is mapped for the first time. */
  function Map(t: Table, c: int, v: int): (r: Table)
    requires Shape(t)
    ensures Shape(r) && |r.leftMost| == |t.leftMost| && |r.vertex| == |t.vertex|
  {
    if c < 0 || c >= |t.vertex| || v < 0 || v >= |t.leftMost| then t
    else
      t.(vertex := t.vertex[c := v],
         lists := if t.tracked && t.vertex[c] < 0 then t.lists[v := [c] + t.lists[v]] else t.lists)
  }

  function SetLeftMost(t: Table, v: int, c: int): (r: Table)
    ensures Shape(t) ==> Shape(r) && |r.leftMost| == |t.leftMost| && |r.vertex| == |t.vertex|
  {
    if 0 <= v < |t.leftMost| then t.(leftMost := t.leftMost[v := c]) else t
  }

  function Isolate(t: Table, v: int): (r: Table)
    requires Shape(t)
    ensures Shape(r) && |r.leftMost| == |t.leftMost| && |r.vertex| == |t.vertex|
  {
    if 0 <= v < |t.leftMost|
    then t.(leftMost := t.leftMost[v := -1], lists := if t.tracked then t.lists[v := []] else t.lists)
    else t
  }

  /** The new vertex, or -1 when the table is full. */
  function AddVertex(t: Table): (r: (Table, int))
    requires Shape(t)
    ensures Shape(r.0) && |r.0.leftMost| == |t.leftMost| && |r.0.vertex| == |t.vertex|
  {
    if t.numVertices >= |t.leftMost| then (t, -1)
    else (t.(numVertices := t.numVertices + 1), t.numVertices as int)
  }

  /** Every corner of from becomes a corner of to. */
  function Relabel(vertex: seq<int>, from: int, to: int): (r: seq<int>)
    ensures |r| == |vertex|
    ensures forall c :: 0 <= c < |vertex| ==> r[c] == if vertex[c] == from then to else vertex[c]
  {
    seq(|vertex|, c requires 0 <= c < |vertex| => if vertex[c] == from then to else vertex[c])
  }

  /** Relabels only the corners of one list. */
  function RelabelListed(vertex: seq<int>, listed: seq<int>, from: int, to: int): (r: seq<int>)
    ensures |r| == |vertex|
    ensures forall c :: 0 <= c < |vertex| ==> r[c] == if c in listed && vertex[c] == from then to else vertex[c]
  {
    seq(|vertex|, c requires 0 <= c < |vertex| => if c in listed && vertex[c] == from then to else vertex[c])
  }

  /** mergeEdgebreakerVertexFan: splice the list, or scan when there is none; None is the
      reported error. */
  function MergeFan(t: Table, from: int, to: int, seed: int): (r: Option<Table>)
    requires Shape(t)
    ensures r.Some? ==> Shape(r.value) && |r.value.leftMost| == |t.leftMost| && |r.value.vertex| == |t.vertex|
  {
    if from == to then Some(t)
    else if seed >= 0 && VertexOf(t, seed) != from then None
    else if t.tracked && 0 <= from < |t.lists| && 0 <= to < |t.lists| && t.lists[from] != [] then
      Some(t.(vertex := RelabelListed(t.vertex, t.lists[from], from, to),
              lists := t.lists[to := t.lists[from] + t.lists[to]][from := []]))
    else Some(t.(vertex := Relabel(t.vertex, from, to)))
  }

  // ---- the corner index -------------------------------------------------------------------

  /** Listed corners are corners, each in one place only. */
  ghost predicate ListsOk(t: Table)
    requires Shape(t)
  {
    t.tracked ==>
      (forall v, i :: 0 <= v < |t.lists| && 0 <= i < |t.lists[v]| ==> 0 <= t.lists[v][i] < |t.vertex|) &&
      (forall v, i :: 0 <= v < |t.lists| && 0 <= i < |t.lists[v]| ==> t.vertex[t.lists[v][i]] == v) &&
      (forall v, i, j :: 0 <= v < |t.lists| && 0 <= i < j < |t.lists[v]| ==> t.lists[v][i] != t.lists[v][j])
  }

  /** Each list holds exactly the corners labelled with its vertex. */
  ghost predicate Indexed(t: Table)
    requires Shape(t)
  {
    ListsOk(t) &&
    (t.tracked ==> forall c :: 0 <= c < |t.vertex| && 0 <= t.vertex[c] < |t.lists| ==> c in t.lists[t.vertex[c]])
  }

  lemma IndexedMap(t: Table, c: int, v: int)
    requires Shape(t) && Indexed(t) && (0 <= c < |t.vertex| ==> t.vertex[c] < 0)
    ensures Indexed(Map(t, c, v))
  {
    if 0 <= c < |t.vertex| && 0 <= v < |t.leftMost| && t.tracked {
      var r := Map(t, c, v);
      forall x | 0 <= x < |r.vertex| && 0 <= r.vertex[x] < |r.lists|
        ensures x in r.lists[r.vertex[x]]
      {
        if x != c {
          assert x in t.lists[t.vertex[x]];
        } else {
          assert r.lists[v][0] == c;
        }
      }
    }
  }

  /** Splicing lists is the same as scanning all corners, and keeps the index exact. */
  lemma MergeIsFullScan(t: Table, from: int, to: int, seed: int)
    requires Shape(t) && Indexed(t) && from != to && MergeFan(t, from, to, seed).Some?
    requires 0 <= from < |t.leftMost| && 0 <= to < |t.leftMost|
    ensures var r := MergeFan(t, from, to, seed).value;
            Indexed(r) && r.vertex == Relabel(t.vertex, from, to) &&
            r.opposite == t.opposite && r.leftMost == t.leftMost && r.numVertices == t.numVertices && r.tracked == t.tracked
  {
    var r := MergeFan(t, from, to, seed).value;
    if t.tracked {
      assert r.vertex == Relabel(t.vertex, from, to);
      MergedLists(t, r, from, to);
    }
  }

  lemma MergedLists(t: Table, r: Table, from: int, to: int)
    requires Shape(t) && Shape(r) && t.tracked && Indexed(t) && from != to
    requires 0 <= from < |t.lists| && 0 <= to < |t.lists|
    requires r.tracked && |r.leftMost| == |t.leftMost| && r.vertex == Relabel(t.vertex, from, to)
    requires r.lists == t.lists[to := t.lists[from] + t.lists[to]][from := []]
             || (t.lists[from] == [] && r.lists == t.lists)
    ensures Indexed(r)
  {
    forall c | 0 <= c < |r.vertex| && 0 <= r.vertex[c] < |r.lists|
      ensures c in r.lists[r.vertex[c]]
    {
      assert 0 <= t.vertex[c] < |t.lists|;
      assert c in t.lists[t.vertex[c]];
    }
    forall v, i | 0 <= v < |r.lists| && 0 <= i < |r.lists[v]|
      ensures 0 <= r.lists[v][i] < |r.vertex| && r.vertex[r.lists[v][i]] == v
    {
      if v == to && i >= |t.lists[from]| && r.lists != t.lists {
        assert r.lists[v][i] == t.lists[to][i - |t.lists[from]|];
      }
    }
  }

  lemma IndexedIsolate(t: Table, v: int)
    requires Shape(t) && Indexed(t) && forall c :: 0 <= c < |t.vertex| ==> t.vertex[c] != v
    ensures Indexed(Isolate(t, v))
  {
  }

  // ---- the table as arrays ------------------------------------------------------------------

  /** The element after position i, or -1 at the end. */
  function Follower(list: seq<int>, i: nat): int
    requires i < |list|
  {
    if i + 1 < |list| then list[i + 1] else -1
  }

  /** Following next from head visits the list and stops. */
  ghost predicate IsChain(list: seq<int>, head: int, next: seq<int>)
  {
    head == (if list == [] then -1 else list[0]) &&
    (forall i :: 0 <= i < |list| ==> 0 <= list[i] < |next|) &&
    forall i :: 0 <= i < |list| ==> next[list[i]] == Follower(list, i)
  }

  lemma ChainFrame(list: seq<int>, head: int, next: seq<int>, x: nat, y: int)
    requires IsChain(list, head, next) && x < |next| && forall i :: 0 <= i < |list| ==> list[i] != x
    ensures IsChain(list, head, next[x := y])
  {
  }

  lemma ChainCons(list: seq<int>, head: int, next: seq<int>, c: nat)
    requires IsChain(list, head, next) && c < |next| && forall i :: 0 <= i < |list| ==> list[i] != c
    ensures IsChain([c] + list, c, next[c := head])
  {
    var l, next1 := [c] + list, next[c := head];
    forall i | 0 <= i < |l|
      ensures 0 <= l[i] < |next1| && next1[l[i]] == Follower(l, i)
    {
      if i > 0 {
        assert l[i] == list[i - 1] && next[list[i - 1]] == Follower(list, i - 1);
      }
    }
  }

  ghost predicate AreChains(t: Table, heads: seq<int>, next: seq<int>)
  {
    |t.lists| == |heads| == |t.leftMost| && |next| == |t.vertex| &&
    forall v :: 0 <= v < |heads| ==> IsChain(t.lists[v], heads[v], next)
  }

  /** The table with one list emptied. */
  function Without(t: Table, v: int): Table
  {
    if t.tracked && 0 <= v < |t.lists| then t.(lists := t.lists[v := []]) else t
  }

  class CornerTable {
    const cornerVertex: array<int>
    const opposite: array<int>
    const vertexCorners: array<int>
    var numVertices: nat
    const trackVertexCorners: bool
    const vertexCornerNext: array<int>
    const vertexCornerHead: array<int>
    ghost var lists: seq<seq<int>>

    ghost function Repr(): set<object>
    {
      {this, cornerVertex, opposite, vertexCorners, vertexCornerNext, vertexCornerHead}
    }

    ghost function Value(): Table
      reads Repr()
    {
      Table(cornerVertex[..], opposite[..], vertexCorners[..], numVertices, trackVertexCorners, lists)
    }

    /** The arrays are different objects. */
    ghost predicate Separate()
    {
      cornerVertex != opposite && cornerVertex != vertexCorners && opposite != vertexCorners &&
      vertexCornerNext !in {cornerVertex, opposite, vertexCorners, vertexCornerHead} &&
      vertexCornerHead !in {cornerVertex, opposite, vertexCorners}
    }

    ghost predicate Valid()
      reads Repr()
    {
      Separate() && Shape(Value()) && ListsOk(Value()) && Linked()
    }

    /** The linked lists in the arrays are the lists. */
    ghost predicate Linked()
      reads Repr()
    {
      trackVertexCorners ==> AreChains(Value(), vertexCornerHead[..], vertexCornerNext[..])
    }

    /** Valid, but for the list of one vertex, whose corners may have any label. */
    ghost predicate ValidBut(v: int)
      reads Repr()
    {
      Separate() && Shape(Value()) && ListsOk(Without(Value(), v)) && Linked()
    }

    constructor (numFaces: nat, maxVertices: nat, track: bool)
      ensures Valid() && fresh(Repr())
      ensures Value() == EmptyTable(numFaces, maxVertices, track)
    {
      cornerVertex := new int[3 * numFaces](_ => -1);
      opposite := new int[3 * numFaces](_ => -1);
      vertexCorners := new int[maxVertices](_ => -1);
      numVertices := 0;
      trackVertexCorners := track;
      vertexCornerNext := new int[if track then 3 * numFaces else 0](_ => -1);
      vertexCornerHead := new int[if track then maxVertices else 0](_ => -1);
      lists := if track then seq(maxVertices, _ => []) else [];
      new;
      hide IsChain, AreChains, ListsOk;
      assert Value() == EmptyTable(numFaces, maxVertices, track);
      EmptyTableOk(numFaces, maxVertices, track);
      assert trackVertexCorners ==> vertexCornerHead[..] == seq(maxVertices, _ => -1) && vertexCornerNext[..] == seq(3 * numFaces, _ => -1);
    }

    function Vertex(corner: int): (v: int)
      reads Repr()
      ensures v == VertexOf(Value(), corner)
    {
      if corner < 0 || corner >= cornerVertex.Length then -1 else cornerVertex[corner]
    }

    function Opposite(corner: int): (c: int)
      reads Repr()
      ensures c == OppositeOf(Value(), corner)
    {
      if corner < 0 || corner >= opposite.Length then -1 else opposite[corner]
    }

    function LeftMostCorner(vertex: int): (c: int)
      reads Repr()
      ensures c == LeftMostOf(Value(), vertex)
    {
      if vertex < 0 || vertex >= vertexCorners.Length then -1 else vertexCorners[vertex]
    }

    /** While lists are kept, a corner is entered only once: mapping it again leaves it in its list. */
    method MapCornerToVertex(corner: int, vertex: int)
      requires Valid()
      modifies Repr()
      ensures Value() == Map(old(Value()), corner, vertex) && Separate() && Linked()
      ensures (trackVertexCorners && 0 <= corner < cornerVertex.Length ==> old(cornerVertex[corner]) < 0) ==> Valid()
    {
      if corner < 0 || corner >= cornerVertex.Length || vertex < 0 || vertex >= vertexCorners.Length {
        return;
      }
      hide IsChain, AreChains, ListsOk;
      ghost var before, heads, next := Value(), vertexCornerHead[..], vertexCornerNext[..];
      ChainSizes(before, heads, next);
      if trackVertexCorners && cornerVertex[corner] < 0 {
        vertexCornerNext[corner] := vertexCornerHead[vertex];
        vertexCornerHead[vertex] := corner;
        lists := lists[vertex := [corner] + lists[vertex]];
        ChainsPush(before, heads, next, corner, vertex);
      }
      cornerVertex[corner] := vertex;
      assert Value() == Map(before, corner, vertex);
    }

    method SetOppositeCorners(a: int, b: int)
      requires Valid()
      modifies opposite
      ensures Valid() && Value() == SetOpposite(old(Value()), a, b)
    {
      if a < 0 || b < 0 || a >= opposite.Length || b >= opposite.Length {
        return;
      }
      opposite[a] := b;
      opposite[b] := a;
    }

    method SetLeftMostCorner(vertex: int, corner: int)
      requires Separate() && Shape(Value())
      modifies vertexCorners
      ensures Value() == SetLeftMost(old(Value()), vertex, corner)
      ensures old(Valid()) ==> Valid()
      ensures forall v :: old(ValidBut(v)) ==> ValidBut(v)
    {
      if 0 <= vertex < vertexCorners.Length {
        vertexCorners[vertex] := corner;
      }
    }

    method AddNewVertex() returns (vertex: int)
      requires Valid()
      modifies this
      ensures Valid() && (Value(), vertex) == AddVertex(old(Value()))
    {
      if numVertices >= vertexCorners.Length {
        return -1;
      }
      vertex := numVertices;
      numVertices := numVertices + 1;
    }

    method MakeVertexIsolated(vertex: int)
      requires ValidBut(vertex)
      modifies Repr()
      ensures Valid() && Value() == Isolate(old(Value()), vertex)
    {
      if 0 <= vertex < vertexCorners.Length {
        vertexCorners[vertex] := -1;
        if trackVertexCorners {
          vertexCornerHead[vertex] := -1;
          lists := lists[vertex := []];
        }
      }
    }

    /** Walks a vertex's list, relabelling it; returns the last corner. */
    method RelabelList(fromVertex: nat, toVertex: nat) returns (tail: int)
      requires Valid() && trackVertexCorners && fromVertex < |lists| && lists[fromVertex] != []
      modifies cornerVertex
      ensures tail == lists[fromVertex][|lists[fromVertex]| - 1]
      ensures cornerVertex[..] == RelabelListed(old(cornerVertex[..]), lists[fromVertex], fromVertex, toVertex)
    {
      hide AreChains, IsChain, ListsOk;
      ghost var list, before, next := lists[fromVertex], cornerVertex[..], vertexCornerNext[..];
      ChainSizes(Value(), vertexCornerHead[..], next);
      assert vertexCornerHead[..][fromVertex] == vertexCornerHead[fromVertex];
      ChainHead(list, vertexCornerHead[fromVertex], next);
      var corner := vertexCornerHead[fromVertex];
      tail := -1;
      ghost var k := 0;
      while corner >= 0
        invariant 0 <= k <= |list| && corner == (if k < |list| then list[k] else -1)
        invariant k > 0 ==> tail == list[k - 1]
        invariant cornerVertex[..] == RelabelListed(before, list[..k], fromVertex, toVertex)
        decreases |list| - k
      {
        ChainAt(list, list[0], next, k);
        RelabelOne(before, list, k, fromVertex, toVertex);
        if cornerVertex[corner] == fromVertex {
          cornerVertex[corner] := toVertex;
        }
        tail := corner;
        corner := vertexCornerNext[corner];
        k := k + 1;
      }
      assert list[..k] == list;
    }

    /** Walks the source list, then splices it in front of the target list. */
    method SpliceList(fromVertex: nat, toVertex: nat)
      requires Valid() && trackVertexCorners && fromVertex != toVertex
      requires fromVertex < |lists| && toVertex < |lists| && lists[fromVertex] != []
      modifies Repr()
      ensures Valid() && Some(Value()) == MergeFan(old(Value()), fromVertex, toVertex, -1)
    {
      hide AreChains, IsChain, ListsOk, RelabelListed;
      ghost var before, heads, next := Value(), vertexCornerHead[..], vertexCornerNext[..];
      ghost var list := lists[fromVertex];
      ChainSizes(before, heads, next);
      ChainHead(list, heads[fromVertex], next);
      ChainsSplice(before, heads, next, fromVertex, toVertex);
      var head := vertexCornerHead[fromVertex];
      var tail := RelabelList(fromVertex, toVertex);
      vertexCornerNext[tail] := vertexCornerHead[toVertex];
      vertexCornerHead[toVertex] := head;
      vertexCornerHead[fromVertex] := -1;
      lists := lists[toVertex := list + lists[toVertex]][fromVertex := []];
      assert Value() == MergeFan(before, fromVertex, toVertex, -1).value;
    }

    /** The full scan. */
    method RelabelAll(fromVertex: int, toVertex: int)
      requires Valid() && fromVertex != toVertex
      modifies cornerVertex
      ensures Value() == old(Value()).(vertex := Relabel(old(Value()).vertex, fromVertex, toVertex))
      ensures ValidBut(fromVertex)
      ensures !trackVertexCorners || !(0 <= fromVertex < |lists|) || lists[fromVertex] == [] ==> Valid()
    {
      ghost var before := cornerVertex[..];
      for corner := 0 to cornerVertex.Length
        invariant forall c :: 0 <= c < corner ==> cornerVertex[c] == if before[c] == fromVertex then toVertex else before[c]
        invariant forall c :: corner <= c < cornerVertex.Length ==> cornerVertex[c] == before[c]
      {
        if cornerVertex[corner] == fromVertex {
          cornerVertex[corner] := toVertex;
        }
      }
      assert cornerVertex[..] == Relabel(before, fromVertex, toVertex);
    }

    /** Relabelling to a vertex outside the table leaves the source's list as it was. */
    method MergeVertexFan(fromVertex: int, toVertex: int, seedCorner: int) returns (ok: bool)
      requires Valid()
      modifies Repr()
      ensures ok == MergeFan(old(Value()), fromVertex, toVertex, seedCorner).Some? && ValidBut(fromVertex)
      ensures (trackVertexCorners && 0 <= fromVertex < |lists| ==> 0 <= toVertex < |lists|) ==> Valid()
      ensures ok ==> Value() == MergeFan(old(Value()), fromVertex, toVertex, seedCorner).value
      ensures !ok ==> Value() == old(Value())
    {
      if fromVertex == toVertex {
        return true;
      }
      if seedCorner >= 0 && Vertex(seedCorner) != fromVertex {
        return false;
      }
      ok := true;
      if trackVertexCorners && 0 <= fromVertex < vertexCornerHead.Length && 0 <= toVertex < vertexCornerHead.Length {
        assert IsChain(lists[fromVertex], vertexCornerHead[..][fromVertex], vertexCornerNext[..]);
        if vertexCornerHead[fromVertex] >= 0 {
          SpliceList(fromVertex, toVertex);
          return;
        }
      }
      RelabelAll(fromVertex, toVertex);
    }
  }

  function EmptyTable(numFaces: nat, maxVertices: nat, track: bool): Table
  {
    Table(seq(3 * numFaces, _ => -1), seq(3 * numFaces, _ => -1), seq(maxVertices, _ => -1), 0, track,
          if track then seq(maxVertices, _ => []) else [])
  }

  lemma EmptyTableOk(numFaces: nat, maxVertices: nat, track: bool)
    ensures var t := EmptyTable(numFaces, maxVertices, track);
            Shape(t) && ListsOk(t) && Indexed(t) &&
            (track ==> AreChains(t, seq(maxVertices, _ => -1), seq(3 * numFaces, _ => -1)))
  {
  }

  /** A new first element leaves every other chain alone. */
  lemma ChainsPush(t: Table, heads: seq<int>, next: seq<int>, c: nat, v: nat)
    requires Shape(t) && t.tracked && ListsOk(t) && AreChains(t, heads, next)
    requires c < |t.vertex| && v < |t.lists| && t.vertex[c] < 0
    ensures AreChains(Map(t, c, v), heads[v := c], next[c := heads[v]])
    ensures ListsOk(Map(t, c, v))
  {
    hide IsChain;
    var r := Map(t, c, v);
    forall u | 0 <= u < |heads|
      ensures IsChain(r.lists[u], heads[v := c][u], next[c := heads[v]])
    {
      assert forall i :: 0 <= i < |t.lists[u]| ==> t.vertex[t.lists[u][i]] == u;
      if u == v {
        ChainCons(t.lists[u], heads[u], next, c);
      } else {
        ChainFrame(t.lists[u], heads[u], next, c, heads[v]);
      }
    }
    PushedLists(t, c, v);
  }

  lemma PushedLists(t: Table, c: nat, v: nat)
    requires Shape(t) && t.tracked && ListsOk(t) && c < |t.vertex| && v < |t.lists| && t.vertex[c] < 0
    ensures ListsOk(Map(t, c, v))
  {
    var r := Map(t, c, v);
    forall u, i | 0 <= u < |r.lists| && 0 <= i < |r.lists[u]|
      ensures 0 <= r.lists[u][i] < |r.vertex| && r.vertex[r.lists[u][i]] == u
      ensures u != v || i > 0 ==> r.lists[u][i] != c
    {
      if u == v && i > 0 {
        assert r.lists[u][i] == t.lists[u][i - 1];
      }
    }
    forall u, i, j | 0 <= u < |r.lists| && 0 <= i < j < |r.lists[u]|
      ensures r.lists[u][i] != r.lists[u][j]
    {
      if u == v && i > 0 {
        assert r.lists[u][i] == t.lists[u][i - 1] && r.lists[u][j] == t.lists[u][j - 1];
      }
    }
  }

  lemma ChainsSplice(t: Table, heads: seq<int>, next: seq<int>, from: nat, to: nat)
    requires Shape(t) && t.tracked && ListsOk(t) && AreChains(t, heads, next)
    requires from < |t.lists| && to < |t.lists| && from != to && t.lists[from] != []
    ensures var list := t.lists[from];
            var r := MergeFan(t, from, to, -1).value;
            ListsOk(r) && 0 <= list[|list| - 1] < |next| &&
            AreChains(r, heads[to := list[0]][from := -1], next[list[|list| - 1] := heads[to]])
  {
    hide IsChain;
    var list := t.lists[from];
    ChainHead(list, heads[from], next);
    var last := list[|list| - 1];
    assert t.vertex[last] == from;
    var r := MergeFan(t, from, to, -1).value;
    var heads1, next1 := heads[to := list[0]][from := -1], next[last := heads[to]];
    forall u | 0 <= u < |heads|
      ensures IsChain(r.lists[u], heads1[u], next1)
    {
      assert forall i :: 0 <= i < |t.lists[u]| ==> t.vertex[t.lists[u][i]] == u;
      if u == to {
        SplicedChain(list, t.lists[to], heads[to], next);
      } else if u == from {
        NoChain(next1);
      } else {
        ChainFrame(t.lists[u], heads[u], next, last, heads[to]);
      }
    }
    SplicedLists(t, from, to);
  }

  /** Sizes, and each vertex's own chain. */
  lemma ChainSizes(t: Table, heads: seq<int>, next: seq<int>)
    requires t.tracked ==> AreChains(t, heads, next)
    ensures t.tracked ==> |t.lists| == |heads| == |t.leftMost| && |next| == |t.vertex|
    ensures t.tracked ==> forall v :: 0 <= v < |heads| ==> IsChain(t.lists[v], heads[v], next)
  {
  }

  lemma ChainAt(list: seq<int>, head: int, next: seq<int>, k: nat)
    requires IsChain(list, head, next) && k < |list|
    ensures 0 <= list[k] < |next| && next[list[k]] == (if k + 1 < |list| then list[k + 1] else -1)
    ensures forall j :: 0 <= j < k ==> 0 <= list[j] < |next|
  {
    assert next[list[k]] == Follower(list, k);
  }

  /** Relabelling one more listed corner. */
  lemma RelabelOne(vertex: seq<int>, list: seq<int>, k: nat, from: int, to: int)
    requires k < |list| && 0 <= list[k] < |vertex|
    ensures var v := RelabelListed(vertex, list[..k], from, to);
            RelabelListed(vertex, list[..k + 1], from, to) == if v[list[k]] == from then v[list[k] := to] else v
  {
    var v := RelabelListed(vertex, list[..k], from, to);
    var w := if v[list[k]] == from then v[list[k] := to] else v;
    assert list[..k + 1] == list[..k] + [list[k]];
    assert list[k] in list[..k + 1];
    forall c | 0 <= c < |vertex|
      ensures RelabelListed(vertex, list[..k + 1], from, to)[c] == w[c]
    {
      assert c in list[..k + 1] <==> c in list[..k] || c == list[k];
    }
  }

  lemma NoChain(next: seq<int>)
    ensures IsChain([], -1, next)
  {
  }

  lemma ChainHead(list: seq<int>, head: int, next: seq<int>)
    requires IsChain(list, head, next)
    ensures head == (if list == [] then -1 else list[0])
    ensures forall i :: 0 <= i < |list| ==> 0 <= list[i] < |next|
  {
  }

  lemma SplicedLists(t: Table, from: nat, to: nat)
    requires Shape(t) && t.tracked && ListsOk(t) && from < |t.lists| && to < |t.lists| && from != to && t.lists[from] != []
    ensures ListsOk(MergeFan(t, from, to, -1).value)
  {
    var list, r := t.lists[from], MergeFan(t, from, to, -1).value;
    forall v, i | 0 <= v < |r.lists| && 0 <= i < |r.lists[v]|
      ensures 0 <= r.lists[v][i] < |r.vertex| && r.vertex[r.lists[v][i]] == v
    {
      if v == to && i >= |list| {
        assert r.lists[v][i] == t.lists[to][i - |list|];
      } else if v == to {
        assert r.lists[v][i] == list[i];
      }
    }
    SplicedDistinct(t, from, to);
  }

  lemma SplicedDistinct(t: Table, from: nat, to: nat)
    requires Shape(t) && t.tracked && ListsOk(t) && from < |t.lists| && to < |t.lists| && from != to
    ensures forall i, j :: 0 <= i < j < |t.lists[from] + t.lists[to]| ==>
              (t.lists[from] + t.lists[to])[i] != (t.lists[from] + t.lists[to])[j]
  {
  }

  /** Linking the end of chain a to the front of chain b, which does not contain it. */
  lemma SplicedChain(a: seq<int>, b: seq<int>, join: int, next: seq<int>)
    requires a != [] && IsChain(a, a[0], next) && IsChain(b, join, next)
    requires forall i :: 0 <= i < |a| - 1 ==> a[i] != a[|a| - 1]
    requires forall i :: 0 <= i < |b| ==> b[i] != a[|a| - 1]
    ensures IsChain(a + b, a[0], next[a[|a| - 1] := join])
  {
    var next1 := next[a[|a| - 1] := join];
    assert forall i :: 0 <= i < |a| - 1 ==> next1[a[i]] == a[i + 1];
    assert next1[a[|a| - 1]] == join;
    assert forall i :: 0 <= i < |b| ==> next1[b[i]] == next[b[i]];
    ChainParts(a, b, join, next1);
  }

  lemma ChainParts(a: seq<int>, b: seq<int>, join: int, next: seq<int>)
    requires a != [] && (forall i :: 0 <= i < |a| ==> 0 <= a[i] < |next|)
    requires forall i :: 0 <= i < |a| - 1 ==> next[a[i]] == a[i + 1]
    requires next[a[|a| - 1]] == join && IsChain(b, join, next)
    ensures IsChain(a + b, a[0], next)
  {
    var l := a + b;
    forall i | 0 <= i < |l|
      ensures 0 <= l[i] < |next| && next[l[i]] == Follower(l, i)
    {
      if i < |a| - 1 {
        assert l[i] == a[i] && l[i + 1] == a[i + 1];
      } else if i == |a| - 1 {
        assert l[i] == a[i] && (b != [] ==> l[i + 1] == b[0]);
      } else {
        assert l[i] == b[i - |a|] && (i + 1 < |l| ==> l[i + 1] == b[i - |a| + 1]);
      }
    }
  }
}
