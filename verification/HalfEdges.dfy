/** Half-edge matching (edgebreaker_encode.go): corners are glued across oppositely directed
    edges by searching buckets of still unmatched half-edges, one bucket per source vertex. */
module HalfEdges {
  import opened Corners
  import opened CornerTables

  datatype HalfEdge = HalfEdge(sinkVertex: int, edgeCorner: int)

  const EMPTY: HalfEdge := HalfEdge(-1, -1)

  /** The edge opposite corner c runs from Source to Sink. */
  function Source(vertex: seq<int>, c: int): int
    requires 0 <= c < |vertex| && |vertex| % 3 == 0
  {
    vertex[Next(c)]
  }

  function Sink(vertex: seq<int>, c: int): int
    requires 0 <= c < |vertex| && |vertex| % 3 == 0
  {
    vertex[Previous(c)]
  }

  /** Oppositely directed edges of faces with different tips. */
  ghost predicate Pairable(vertex: seq<int>, c: int, d: int)
    requires 0 <= c < |vertex| && 0 <= d < |vertex| && |vertex| % 3 == 0
  {
    Source(vertex, c) == Sink(vertex, d) && Sink(vertex, c) == Source(vertex, d) && vertex[c] != vertex[d]
  }

  // ---- counting corners of a vertex ---------------------------------------------------------

  function Count(vertex: seq<int>, k: nat, v: int): nat
    requires k <= |vertex|
    decreases k
  {
    if k == 0 then 0 else Count(vertex, k - 1, v) + if vertex[k - 1] == v then 1 else 0
  }

  /** Distinct corners of one vertex are at most its count. */
  lemma {:induction false} DistinctCount(vertex: seq<int>, k: nat, v: int, s: seq<int>)
    requires k <= |vertex| && Distinct(s, k) && forall i :: 0 <= i < |s| ==> vertex[s[i]] == v
    ensures |s| <= Count(vertex, k, v)
    decreases k
  {
    if s != [] {
      assert 0 <= s[0] < k;
      if k - 1 in s {
        var i :| 0 <= i < |s| && s[i] == k - 1;
        DistinctCount(vertex, k - 1, v, s[..i] + s[i + 1..]);
      } else {
        DistinctCount(vertex, k - 1, v, s);
      }
    }
  }

  /** Corners of the vertices below n. */
  function CountBelow(vertex: seq<int>, n: nat): nat
  {
    if n == 0 then 0 else CountBelow(vertex, n - 1) + Count(vertex, |vertex|, n - 1)
  }

  function Below(vertex: seq<int>, k: nat, n: nat): nat
    requires k <= |vertex|
    decreases k
  {
    if k == 0 then 0 else Below(vertex, k - 1, n) + if 0 <= vertex[k - 1] < n then 1 else 0
  }

  lemma {:induction false} BelowStep(vertex: seq<int>, k: nat, n: nat)
    requires k <= |vertex|
    ensures Below(vertex, k, n + 1) == Below(vertex, k, n) + Count(vertex, k, n)
    ensures Below(vertex, k, n) <= k && Below(vertex, k, 0) == 0
    decreases k
  {
    if k > 0 {
      BelowStep(vertex, k - 1, n);
    }
  }

  lemma {:induction false} CountBelowIs(vertex: seq<int>, n: nat)
    ensures CountBelow(vertex, n) == Below(vertex, |vertex|, n) <= |vertex|
  {
    BelowStep(vertex, |vertex|, n);
    if n > 0 {
      CountBelowIs(vertex, n - 1);
      BelowStep(vertex, |vertex|, n - 1);
    }
  }

  lemma CountBelowNext(vertex: seq<int>, v: nat)
    ensures CountBelow(vertex, v + 1) == CountBelow(vertex, v) + Count(vertex, |vertex|, v)
  {
    hide Count;
  }

  lemma CountNext(vertex: seq<int>, k: nat, v: int)
    requires k < |vertex|
    ensures Count(vertex, k + 1, v) == Count(vertex, k, v) + if vertex[k] == v then 1 else 0
  {
  }

  lemma {:induction false} CountBelowMono(vertex: seq<int>, m: nat, n: nat)
    requires m <= n
    ensures CountBelow(vertex, m) <= CountBelow(vertex, n)
    decreases n
  {
    hide Count;
    if m < n {
      CountBelowMono(vertex, m, n - 1);
    }
  }

  // ---- one bucket -----------------------------------------------------------------------------

  /** edges[off .. off + cap) holds the half-edges of the listed corners, then empty slots. */
  ghost predicate Bucket(edges: seq<HalfEdge>, off: nat, cap: nat, vertex: seq<int>, list: seq<int>)
    requires |vertex| % 3 == 0
  {
    off + cap <= |edges| && |list| <= cap && (forall i :: 0 <= i < |list| ==> 0 <= list[i] < |vertex|) &&
    (forall i :: 0 <= i < |list| ==> edges[off + i] == HalfEdge(Sink(vertex, list[i]), list[i])) &&
    forall i :: off + |list| <= i < off + cap ==> edges[i] == EMPTY
  }

  /** The slots of other buckets are untouched. */
  ghost predicate OthersKept(before: seq<HalfEdge>, after: seq<HalfEdge>, off: nat, cap: nat)
  {
    |after| == |before| && forall i :: 0 <= i < |before| && !(off <= i < off + cap) ==> after[i] == before[i]
  }

  ghost predicate Fits(vertex: seq<int>, list: seq<int>, i: int, source: int, tip: int)
    requires |vertex| % 3 == 0 && 0 <= i < |list| && 0 <= list[i] < |vertex|
  {
    Sink(vertex, list[i]) == source && vertex[list[i]] != tip
  }

  lemma BucketAt(edges: seq<HalfEdge>, off: nat, cap: nat, vertex: seq<int>, list: seq<int>, i: nat)
    requires |vertex| % 3 == 0 && Bucket(edges, off, cap, vertex, list) && i < cap
    requires forall c :: 0 <= c < |vertex| ==> vertex[c] >= 0
    ensures if i < |list| then 0 <= list[i] < |vertex| && edges[off + i] == HalfEdge(Sink(vertex, list[i]), list[i]) && edges[off + i].sinkVertex >= 0
            else edges[off + i] == EMPTY
  {
  }

  /** The slots after a removal, as the bucket of the shorter list. */
  lemma RemovedBucket(before: seq<HalfEdge>, after: seq<HalfEdge>, off: nat, cap: nat, vertex: seq<int>, list: seq<int>, i: nat)
    requires |vertex| % 3 == 0 && Bucket(before, off, cap, vertex, list) && i < |list| && |after| == |before|
    requires forall k :: off <= k < off + i ==> after[k] == before[k]
    requires forall k :: off + i <= k < off + |list| - 1 ==> after[k] == before[k + 1]
    requires after[off + |list| - 1] == EMPTY && forall k :: off + |list| <= k < off + cap ==> after[k] == before[k]
    ensures Bucket(after, off, cap, vertex, list[..i] + list[i + 1..])
  {
    var rest := list[..i] + list[i + 1..];
    forall k | 0 <= k < |rest|
      ensures 0 <= rest[k] < |vertex| && after[off + k] == HalfEdge(Sink(vertex, rest[k]), rest[k])
    {
      if k < i {
        assert rest[k] == list[k] && before[off + k] == HalfEdge(Sink(vertex, list[k]), list[k]);
      } else {
        assert rest[k] == list[k + 1] && before[off + (k + 1)] == HalfEdge(Sink(vertex, list[k + 1]), list[k + 1]);
        assert after[off + k] == before[off + k + 1];
      }
    }
  }

  /** The first stored half-edge that runs back to source from a face with another tip. */
  method FindMatch(edges: array<HalfEdge>, off: nat, cap: nat, vertex: seq<int>, source: int, tip: int, ghost list: seq<int>)
    returns (i: int)
    requires |vertex| % 3 == 0 && Bucket(edges[..], off, cap, vertex, list)
    requires forall c :: 0 <= c < |vertex| ==> vertex[c] >= 0
    ensures i == -1 || 0 <= i < |list|
    ensures i >= 0 ==> Fits(vertex, list, i, source, tip) && forall j :: 0 <= j < i ==> !Fits(vertex, list, j, source, tip)
    ensures i == -1 ==> forall j :: 0 <= j < |list| ==> !Fits(vertex, list, j, source, tip)
  {
    i := 0;
    while i < cap
      invariant 0 <= i <= cap && i <= |list|
      invariant forall j :: 0 <= j < i && j < |list| ==> !Fits(vertex, list, j, source, tip)
    {
      BucketAt(edges[..], off, cap, vertex, list, i);
      var other := edges[off + i].sinkVertex;
      if other == -1 {
        break;
      }
      if other == source && tip != vertex[edges[off + i].edgeCorner] {
        return;
      }
      i := i + 1;
    }
    i := -1;
  }

  /** Removes slot i by shifting the later ones down. */
  method RemoveAt(edges: array<HalfEdge>, off: nat, cap: nat, i: nat, vertex: seq<int>, ghost list: seq<int>)
    requires |vertex| % 3 == 0 && Bucket(edges[..], off, cap, vertex, list) && i < |list|
    requires forall c :: 0 <= c < |vertex| ==> vertex[c] >= 0
    modifies edges
    ensures Bucket(edges[..], off, cap, vertex, list[..i] + list[i + 1..])
    ensures OthersKept(old(edges[..]), edges[..], off, cap)
  {
    hide Bucket;
    ghost var before := edges[..];
    BucketSize(before, off, cap, vertex, list);
    var j := i + 1;
    while j < cap
      invariant i + 1 <= j <= cap && j <= |list|
      invariant forall k :: 0 <= k < |before| && !(off + i <= k < off + j - 1) ==> edges[k] == before[k]
      invariant forall k :: off + i <= k < off + j - 1 ==> edges[k] == before[k + 1]
    {
      BucketAt(before, off, cap, vertex, list, j);
      edges[off + j - 1] := edges[off + j];
      if edges[off + j - 1].sinkVertex == -1 {
        break;
      }
      j := j + 1;
    }
    edges[off + j - 1] := EMPTY;
    RemovedBucket(before, edges[..], off, cap, vertex, list, i);
  }

  lemma BucketSize(edges: seq<HalfEdge>, off: nat, cap: nat, vertex: seq<int>, list: seq<int>)
    requires |vertex| % 3 == 0 && Bucket(edges, off, cap, vertex, list)
    ensures off + cap <= |edges| && |list| <= cap && forall i :: 0 <= i < |list| ==> 0 <= list[i] < |vertex|
  {
  }

  lemma InsertedBucket(edges: seq<HalfEdge>, off: nat, cap: nat, vertex: seq<int>, list: seq<int>, corner: nat)
    requires |vertex| % 3 == 0 && Bucket(edges, off, cap, vertex, list) && |list| < cap && corner < |vertex|
    ensures Bucket(edges[off + |list| := HalfEdge(Sink(vertex, corner), corner)], off, cap, vertex, list + [corner])
  {
  }

  /** Fills the first empty slot; the bucket has one. */
  method Insert(edges: array<HalfEdge>, off: nat, cap: nat, sink: int, corner: nat, vertex: seq<int>, ghost list: seq<int>)
    returns (inserted: bool)
    requires |vertex| % 3 == 0 && Bucket(edges[..], off, cap, vertex, list) && |list| < cap
    requires corner < |vertex| && sink == Sink(vertex, corner) && forall c :: 0 <= c < |vertex| ==> vertex[c] >= 0
    modifies edges
    ensures inserted && Bucket(edges[..], off, cap, vertex, list + [corner])
    ensures OthersKept(old(edges[..]), edges[..], off, cap)
  {
    hide Bucket;
    BucketSize(edges[..], off, cap, vertex, list);
    InsertedBucket(edges[..], off, cap, vertex, list, corner);
    var i := 0;
    inserted := false;
    while i < cap
      invariant 0 <= i <= |list|
      invariant edges[..] == old(edges[..])
    {
      BucketAt(edges[..], off, cap, vertex, list, i);
      if edges[off + i].sinkVertex == -1 {
        edges[off + i] := HalfEdge(sink, corner);
        return true;
      }
      i := i + 1;
    }
  }

  // ---- all buckets ----------------------------------------------------------------------------

  ghost predicate Labelled(vertex: seq<int>, n: nat)
  {
    |vertex| % 3 == 0 && forall c :: 0 <= c < |vertex| ==> 0 <= vertex[c] < n
  }

  ghost predicate Buckets(edges: seq<HalfEdge>, vertex: seq<int>, lists: seq<seq<int>>)
    requires |vertex| % 3 == 0
  {
    forall v :: 0 <= v < |lists| ==> BucketOf(edges, vertex, lists, v)
  }

  ghost predicate BucketOf(edges: seq<HalfEdge>, vertex: seq<int>, lists: seq<seq<int>>, v: nat)
    requires |vertex| % 3 == 0 && v < |lists|
  {
    Bucket(edges, CountBelow(vertex, v), Count(vertex, |vertex|, v), vertex, lists[v])
  }

  /** Changing one bucket leaves the others as they were. */
  lemma BucketsKept(before: seq<HalfEdge>, after: seq<HalfEdge>, vertex: seq<int>, lists: seq<seq<int>>, u: nat, list: seq<int>)
    requires |vertex| % 3 == 0 && Buckets(before, vertex, lists) && u < |lists|
    requires Bucket(after, CountBelow(vertex, u), Count(vertex, |vertex|, u), vertex, list)
    requires OthersKept(before, after, CountBelow(vertex, u), Count(vertex, |vertex|, u))
    ensures Buckets(after, vertex, lists[u := list])
  {
    hide Count, CountBelow, Bucket;
    var lists1 := lists[u := list];
    forall v | 0 <= v < |lists1|
      ensures BucketOf(after, vertex, lists1, v)
    {
      if v != u {
        assert BucketOf(before, vertex, lists, v);
        Apart(vertex, u, v);
        BucketMoves(before, after, vertex, lists[v], CountBelow(vertex, v), Count(vertex, |vertex|, v),
                    CountBelow(vertex, u), Count(vertex, |vertex|, u));
      }
    }
  }

  lemma Apart(vertex: seq<int>, u: nat, v: nat)
    requires u != v
    ensures CountBelow(vertex, u) + Count(vertex, |vertex|, u) <= CountBelow(vertex, v) ||
            CountBelow(vertex, v) + Count(vertex, |vertex|, v) <= CountBelow(vertex, u)
  {
    hide Count, CountBelow;
    CountBelowNext(vertex, u);
    CountBelowNext(vertex, v);
    if u < v {
      CountBelowMono(vertex, u + 1, v);
    } else {
      CountBelowMono(vertex, v + 1, u);
    }
  }

  lemma BucketMoves(before: seq<HalfEdge>, after: seq<HalfEdge>, vertex: seq<int>, list: seq<int>, off: nat, cap: nat, off1: nat, cap1: nat)
    requires |vertex| % 3 == 0 && Bucket(before, off, cap, vertex, list) && OthersKept(before, after, off1, cap1)
    requires off1 + cap1 <= off || off + cap <= off1
    ensures Bucket(after, off, cap, vertex, list)
  {
  }

  // ---- the matching ---------------------------------------------------------------------------

  /** Corners below k are processed; the unmatched ones are stored under their source vertex. */
  ghost predicate Stored(vertex: seq<int>, opp: seq<int>, lists: seq<seq<int>>, k: nat)
    requires |vertex| % 3 == 0 && |opp| == |vertex|
  {
    k <= |vertex| &&
    (forall v, i :: 0 <= v < |lists| && 0 <= i < |lists[v]| ==>
      0 <= lists[v][i] < k && opp[lists[v][i]] == -1 && Source(vertex, lists[v][i]) == v) &&
    (forall v, i, j :: 0 <= v < |lists| && 0 <= i < j < |lists[v]| ==> lists[v][i] < lists[v][j]) &&
    forall c :: 0 <= c < k && opp[c] < 0 && 0 <= Source(vertex, c) < |lists| ==> c in lists[Source(vertex, c)]
  }

  /** A matching of oppositely directed edges among the first k corners, with no pair left. */
  ghost predicate Maximal(vertex: seq<int>, opp: seq<int>, k: nat)
    requires |vertex| % 3 == 0
  {
    |opp| == |vertex| && k <= |vertex| && Matching(opp) &&
    (forall c :: k <= c < |vertex| ==> opp[c] == -1) &&
    (forall c :: 0 <= c < k && opp[c] >= 0 ==> Pairable(vertex, c, opp[c])) &&
    forall c, d :: 0 <= c < k && 0 <= d < k && opp[c] < 0 && opp[d] < 0 ==> !Pairable(vertex, c, d)
  }

  /** Of the pairs that it could form each corner takes the lowest corner before it that is still free. */
  ghost predicate Greedy(vertex: seq<int>, opp: seq<int>, k: nat)
    requires |vertex| % 3 == 0 && |opp| == |vertex| && k <= |vertex|
  {
    forall c, e :: 0 <= e < c < k && Pairable(vertex, e, c) ==> 0 <= opp[c] <= e || 0 <= opp[e] < c
  }

  lemma GreedyFound(vertex: seq<int>, opp: seq<int>, lists: seq<seq<int>>, k: nat, u: nat, i: nat)
    requires |vertex| % 3 == 0 && Maximal(vertex, opp, k) && Stored(vertex, opp, lists, k) && k < |vertex| && Greedy(vertex, opp, k)
    requires u < |lists| && u == Sink(vertex, k) && i < |lists[u]| && forall j :: 0 <= j < |lists[u]| ==> 0 <= lists[u][j] < |vertex|
    requires forall j :: 0 <= j < i ==> !Fits(vertex, lists[u], j, Source(vertex, k), vertex[k])
    ensures var e := lists[u][i]; 0 <= e < k && Greedy(vertex, opp[k := e][e := k], k + 1)
  {
    hide Source, Sink;
    var e := lists[u][i];
    assert opp[lists[u][i]] == -1 && Source(vertex, lists[u][i]) == u;
    var opp1 := opp[k := e][e := k];
    FreeIsStored(vertex, opp, lists, k, u);
    forall c, f | 0 <= f < c < k + 1 && Pairable(vertex, f, c)
      ensures 0 <= opp1[c] <= f || 0 <= opp1[f] < c
    {
      if c == k && f < e {
        MatchedBelow(vertex, opp, k, f);
      }
    }
  }

  /** A free corner that could be paired with corner k is in the bucket that k searches, and fits. */
  lemma FreeIsStored(vertex: seq<int>, opp: seq<int>, lists: seq<seq<int>>, k: nat, u: nat)
    requires |vertex| % 3 == 0 && |opp| == |vertex| && Stored(vertex, opp, lists, k) && k < |vertex|
    requires u < |lists| && u == Sink(vertex, k) && forall j :: 0 <= j < |lists[u]| ==> 0 <= lists[u][j] < |vertex|
    ensures forall f :: 0 <= f < k && Pairable(vertex, f, k) && opp[f] < 0 ==>
              exists j :: 0 <= j < |lists[u]| && lists[u][j] == f && Fits(vertex, lists[u], j, Source(vertex, k), vertex[k])
  {
    hide Source, Sink;
    forall f | 0 <= f < k && Pairable(vertex, f, k) && opp[f] < 0
      ensures exists j :: 0 <= j < |lists[u]| && lists[u][j] == f && Fits(vertex, lists[u], j, Source(vertex, k), vertex[k])
    {
      assert f in lists[Source(vertex, f)];
      var j :| 0 <= j < |lists[u]| && lists[u][j] == f;
      assert Fits(vertex, lists[u], j, Source(vertex, k), vertex[k]);
    }
  }

  /** A matched corner's partner has been processed too. */
  lemma MatchedBelow(vertex: seq<int>, opp: seq<int>, k: nat, f: nat)
    requires |vertex| % 3 == 0 && Maximal(vertex, opp, k) && f < k
    ensures opp[f] < k
  {
    assert opp[f] >= 0 ==> opp[opp[f]] == f;
  }

  lemma GreedyStored(vertex: seq<int>, opp: seq<int>, lists: seq<seq<int>>, k: nat, u: nat)
    requires |vertex| % 3 == 0 && Maximal(vertex, opp, k) && Stored(vertex, opp, lists, k) && k < |vertex| && Greedy(vertex, opp, k)
    requires u < |lists| && u == Sink(vertex, k)
    requires forall j :: 0 <= j < |lists[u]| ==> 0 <= lists[u][j] < |vertex| && !Fits(vertex, lists[u], j, Source(vertex, k), vertex[k])
    ensures Greedy(vertex, opp, k + 1)
  {
    hide Source, Sink;
    FreeIsStored(vertex, opp, lists, k, u);
    forall f | 0 <= f < k && Pairable(vertex, f, k)
      ensures 0 <= opp[f] < k
    {
      MatchedBelow(vertex, opp, k, f);
    }
  }

  lemma GlueFound(vertex: seq<int>, opp: seq<int>, lists: seq<seq<int>>, k: nat, u: nat, i: nat)
    requires |vertex| % 3 == 0 && Maximal(vertex, opp, k) && Stored(vertex, opp, lists, k) && k < |vertex|
    requires u < |lists| && u == Sink(vertex, k) && i < |lists[u]| && 0 <= lists[u][i] < |vertex|
    requires Fits(vertex, lists[u], i, Source(vertex, k), vertex[k])
    ensures var e := lists[u][i];
            Maximal(vertex, opp[k := e][e := k], k + 1) &&
            Stored(vertex, opp[k := e][e := k], lists[u := lists[u][..i] + lists[u][i + 1..]], k + 1)
  {
    hide Matching, Source, Sink;
    var e := lists[u][i];
    assert opp[e] == -1 && Source(vertex, e) == u;
    MatchMore(opp, k, e);
    StoredLess(vertex, opp, lists, k, u, i);
  }

  lemma MatchMore(opp: seq<int>, a: nat, b: nat)
    requires Matching(opp) && a < |opp| && b < |opp| && a != b && opp[a] < 0 && opp[b] < 0
    ensures Matching(opp[a := b][b := a])
  {
  }

  lemma StoredLess(vertex: seq<int>, opp: seq<int>, lists: seq<seq<int>>, k: nat, u: nat, i: nat)
    requires |vertex| % 3 == 0 && |opp| == |vertex| && Stored(vertex, opp, lists, k) && k < |vertex|
    requires u < |lists| && i < |lists[u]| && opp[k] == -1
    ensures var e := lists[u][i];
            0 <= e < k && Stored(vertex, opp[k := e][e := k], lists[u := lists[u][..i] + lists[u][i + 1..]], k + 1)
  {
    hide Source;
    var e, rest := lists[u][i], lists[u][..i] + lists[u][i + 1..];
    assert opp[lists[u][i]] == -1 && Source(vertex, lists[u][i]) == u;
    RemoveFacts(lists[u], i);
    var opp1, lists1 := opp[k := e][e := k], lists[u := rest];
    forall v, j | 0 <= v < |lists1| && 0 <= j < |lists1[v]|
      ensures 0 <= lists1[v][j] < k + 1 && opp1[lists1[v][j]] == -1 && Source(vertex, lists1[v][j]) == v
    {
      if v == u {
        assert rest[j] == lists[u][if j < i then j else j + 1];
      } else {
        assert Source(vertex, lists[v][j]) == v;
      }
    }
    forall c | 0 <= c < k + 1 && opp1[c] < 0 && 0 <= Source(vertex, c) < |lists1|
      ensures c in lists1[Source(vertex, c)]
    {
      assert c in lists[Source(vertex, c)];
    }
  }

  lemma RemoveFacts(l: seq<int>, i: nat)
    requires i < |l| && forall a, b :: 0 <= a < b < |l| ==> l[a] < l[b]
    ensures var rest := l[..i] + l[i + 1..];
            (forall j :: 0 <= j < |rest| ==> rest[j] == l[if j < i then j else j + 1]) &&
            (forall a, b :: 0 <= a < b < |rest| ==> rest[a] < rest[b]) &&
            forall c :: c in l && c != l[i] ==> c in rest
  {
    var rest := l[..i] + l[i + 1..];
    forall c | c in l && c != l[i]
      ensures c in rest
    {
      var j :| 0 <= j < |l| && l[j] == c;
      assert rest[if j < i then j else j - 1] == c;
    }
  }

  lemma StoreUnmatched(vertex: seq<int>, opp: seq<int>, lists: seq<seq<int>>, k: nat, u: nat, v: nat)
    requires |vertex| % 3 == 0 && Maximal(vertex, opp, k) && Stored(vertex, opp, lists, k) && k < |vertex|
    requires u < |lists| && u == Sink(vertex, k) && v < |lists| && v == Source(vertex, k)
    requires forall j :: 0 <= j < |lists[u]| ==> 0 <= lists[u][j] < |vertex| && !Fits(vertex, lists[u], j, Source(vertex, k), vertex[k])
    ensures Maximal(vertex, opp, k + 1) && Stored(vertex, opp, lists[v := lists[v] + [k as int]], k + 1)
  {
    hide Matching, Source, Sink;
    forall c | 0 <= c < k && opp[c] < 0
      ensures !Pairable(vertex, c, k) && !Pairable(vertex, k, c)
    {
      if Source(vertex, c) == u {
        assert c in lists[u];
        var j :| 0 <= j < |lists[u]| && lists[u][j] == c;
        assert !Fits(vertex, lists[u], j, Source(vertex, k), vertex[k]);
      }
    }
    var lists1 := lists[v := lists[v] + [k as int]];
    assert lists1[v][|lists[v]|] == k;
    forall c | 0 <= c < k + 1 && opp[c] < 0 && 0 <= Source(vertex, c) < |lists1|
      ensures c in lists1[Source(vertex, c)]
    {
      if c < k {
        assert c in lists[Source(vertex, c)];
      }
    }
  }

  /** A bucket never overfills: stored corners and the new one have distinct successors, all
      corners of the source vertex. */
  lemma RoomLeft(vertex: seq<int>, opp: seq<int>, lists: seq<seq<int>>, k: nat, v: nat)
    requires |vertex| % 3 == 0 && |opp| == |vertex| && Stored(vertex, opp, lists, k) && k < |vertex|
    requires v < |lists| && Source(vertex, k) == v
    ensures |lists[v]| < Count(vertex, |vertex|, v)
  {
    var all := lists[v] + [k as int];
    var nexts := seq(|all|, i requires 0 <= i < |all| => if all[i] >= 0 then Next(all[i]) else 0);
    forall i | 0 <= i < |all|
      ensures 0 <= all[i] <= k && nexts[i] == Next(all[i]) && 0 <= nexts[i] < |vertex| && vertex[nexts[i]] == v
    {
      if i < |lists[v]| {
        assert all[i] == lists[v][i];
      }
      RotateBelow(all[i], |vertex| / 3);
      assert Source(vertex, all[i]) == v;
    }
    forall i, j | 0 <= i < j < |all|
      ensures nexts[i] != nexts[j]
    {
      Rotate(all[i]);
      Rotate(all[j]);
      assert all[i] == lists[v][i];
    }
    DistinctCount(vertex, |vertex|, v, nexts);
  }

  /** Non-degenerate agreeing edges: what a maximal matching of all corners means. */
  lemma MaximalAgrees(vertex: seq<int>, opp: seq<int>)
    requires |vertex| % 3 == 0 && Maximal(vertex, opp, |vertex|)
    ensures EdgesAgree(opp, vertex)
  {
    forall c | 0 <= c < |opp| && opp[c] >= 0
      ensures EdgeAgrees(opp, vertex, c)
    {
      assert Pairable(vertex, c, opp[c]);
    }
  }

  // ---- the algorithm --------------------------------------------------------------------------

  method CountCorners(vertex: seq<int>, n: nat) returns (counts: array<nat>, offsets: array<nat>)
    requires Labelled(vertex, n)
    ensures counts.Length == offsets.Length == n && fresh(counts) && fresh(offsets) && counts != offsets
    ensures Counted(vertex, counts[..], offsets[..])
  {
    hide Count, CountBelow;
    NoCounts(vertex, n);
    counts := new nat[n](_ => 0);
    for corner := 0 to |vertex|
      invariant forall v :: 0 <= v < n ==> counts[v] == Count(vertex, corner, v)
    {
      forall v | 0 <= v < n
        ensures Count(vertex, corner + 1, v) == Count(vertex, corner, v) + if vertex[corner] == v then 1 else 0
      {
        CountNext(vertex, corner, v);
      }
      counts[vertex[corner]] := counts[vertex[corner]] + 1;
    }
    offsets := new nat[n](_ => 0);
    var offset := 0;
    for v := 0 to n
      invariant offset == CountBelow(vertex, v)
      invariant forall u :: 0 <= u < n ==> counts[u] == Count(vertex, |vertex|, u)
      invariant forall u :: 0 <= u < v ==> offsets[u] == CountBelow(vertex, u)
    {
      CountBelowNext(vertex, v);
      offsets[v] := offset;
      offset := offset + counts[v];
    }
  }

  lemma NoCounts(vertex: seq<int>, n: nat)
    ensures CountBelow(vertex, 0) == 0 && forall v :: 0 <= v < n ==> Count(vertex, 0, v) == 0
  {
  }

  ghost predicate Counted(vertex: seq<int>, counts: seq<nat>, offsets: seq<nat>)
  {
    |counts| == |offsets| && forall v :: 0 <= v < |counts| ==>
      counts[v] == Count(vertex, |vertex|, v) && offsets[v] == CountBelow(vertex, v)
  }

  /** One corner: glued to the first fitting half-edge, or stored. */
  method MatchCorner(edges: array<HalfEdge>, vertex: seq<int>, counts: array<nat>, offsets: array<nat>, corner: nat, n: nat,
      ghost opp: seq<int>, ghost lists: seq<seq<int>>)
    returns (ok: bool, other: int, ghost lists1: seq<seq<int>>)
    requires Labelled(vertex, n) && |lists| == n && corner < |vertex|
    requires counts.Length == n && Counted(vertex, counts[..], offsets[..])
    requires Buckets(edges[..], vertex, lists) && Maximal(vertex, opp, corner) && Stored(vertex, opp, lists, corner)
    requires Greedy(vertex, opp, corner)
    modifies edges
    ensures ok && -1 <= other < corner && |lists1| == n
    ensures Buckets(edges[..], vertex, lists1)
    ensures var opp1 := if other == -1 then opp else opp[corner := other][other := corner];
            Maximal(vertex, opp1, corner + 1) && Stored(vertex, opp1, lists1, corner + 1) && Greedy(vertex, opp1, corner + 1)
  {
    hide Bucket, Buckets, Maximal, Stored, OthersKept, Counted, Greedy;
    RotateBelow(corner, |vertex| / 3);
    StoredSize(vertex, opp, lists, corner);
    var tip, source, sink := vertex[corner], vertex[Next(corner)], vertex[Previous(corner)];
    ghost var before := edges[..];
    Slots(before, vertex, counts[..], offsets[..], lists, sink);
    var i := FindMatch(edges, offsets[sink], counts[sink], vertex, source, tip, lists[sink]);
    BucketSize(before, offsets[sink], counts[sink], vertex, lists[sink]);
    if i >= 0 {
      other := edges[offsets[sink] + i].edgeCorner;
      BucketAt(before, offsets[sink], counts[sink], vertex, lists[sink], i);
      GlueFound(vertex, opp, lists, corner, sink, i);
      GreedyFound(vertex, opp, lists, corner, sink, i);
      StoredBelow(vertex, opp, lists, corner, sink, i);
      RemoveAt(edges, offsets[sink], counts[sink], i, vertex, lists[sink]);
      lists1 := lists[sink := lists[sink][..i] + lists[sink][i + 1..]];
      SlotsKept(before, edges[..], vertex, counts[..], offsets[..], lists, sink, lists1[sink]);
      return true, other, lists1;
    }
    other := -1;
    StoreUnmatched(vertex, opp, lists, corner, sink, source);
    GreedyStored(vertex, opp, lists, corner, sink);
    Slots(before, vertex, counts[..], offsets[..], lists, source);
    RoomLeft(vertex, opp, lists, corner, source);
    ok := Insert(edges, offsets[source], counts[source], sink, corner, vertex, lists[source]);
    lists1 := lists[source := lists[source] + [corner as int]];
    SlotsKept(before, edges[..], vertex, counts[..], offsets[..], lists, source, lists1[source]);
  }

  lemma Slots(edges: seq<HalfEdge>, vertex: seq<int>, counts: seq<nat>, offsets: seq<nat>, lists: seq<seq<int>>, v: nat)
    requires |vertex| % 3 == 0 && Buckets(edges, vertex, lists) && Counted(vertex, counts, offsets) && v < |lists| == |counts|
    ensures |offsets| == |counts| && Bucket(edges, offsets[v], counts[v], vertex, lists[v]) && counts[v] == Count(vertex, |vertex|, v)
  {
    hide Bucket, Count, CountBelow;
    assert BucketOf(edges, vertex, lists, v);
  }

  lemma SlotsKept(before: seq<HalfEdge>, after: seq<HalfEdge>, vertex: seq<int>, counts: seq<nat>, offsets: seq<nat>,
      lists: seq<seq<int>>, u: nat, list: seq<int>)
    requires |vertex| % 3 == 0 && Buckets(before, vertex, lists) && Counted(vertex, counts, offsets) && u < |lists| == |counts|
    requires Bucket(after, offsets[u], counts[u], vertex, list) && OthersKept(before, after, offsets[u], counts[u])
    ensures Buckets(after, vertex, lists[u := list])
  {
    hide Bucket, Buckets, Count, CountBelow, OthersKept;
    BucketsKept(before, after, vertex, lists, u, list);
  }

  lemma StoredBelow(vertex: seq<int>, opp: seq<int>, lists: seq<seq<int>>, k: nat, u: nat, i: nat)
    requires |vertex| % 3 == 0 && |opp| == |vertex| && Stored(vertex, opp, lists, k) && u < |lists| && i < |lists[u]|
    ensures 0 <= lists[u][i] < k
  {
  }

  lemma StoredSize(vertex: seq<int>, opp: seq<int>, lists: seq<seq<int>>, k: nat)
    requires |vertex| % 3 == 0 && Maximal(vertex, opp, k)
    ensures |opp| == |vertex|
  {
  }

  /** computeEdgebreakerBaseOpposites: never fails, and leaves a symmetric, fixed-point-free and
      maximal matching of oppositely directed edges of faces with different tips. */
  method ComputeOpposites(table: CornerTable, numVertices: nat) returns (ok: bool)
    requires table.Separate() && table.opposite.Length == table.cornerVertex.Length && Labelled(table.cornerVertex[..], numVertices)
    requires forall c :: 0 <= c < table.opposite.Length ==> table.opposite[c] == -1
    modifies table.opposite
    ensures ok && Maximal(table.cornerVertex[..], table.opposite[..], table.cornerVertex.Length)
    ensures Matching(table.opposite[..]) && EdgesAgree(table.opposite[..], table.cornerVertex[..])
    ensures Greedy(table.cornerVertex[..], table.opposite[..], table.cornerVertex.Length)
  {
    hide Bucket, Maximal, Stored, Buckets, Counted, Greedy;
    var vertex := table.cornerVertex[..];
    var counts, offsets := CountCorners(vertex, numVertices);
    var edges := new HalfEdge[|vertex|](_ => EMPTY);
    ghost var lists: seq<seq<int>> := seq(numVertices, _ => []);
    MatchStart(edges[..], vertex, table.opposite[..], lists);
    ok := true;
    for corner := 0 to |vertex|
      invariant counts.Length == |lists| == numVertices && Counted(vertex, counts[..], offsets[..]) && Buckets(edges[..], vertex, lists) && table.cornerVertex[..] == vertex
      invariant |table.opposite[..]| == |vertex| && Maximal(vertex, table.opposite[..], corner) && Stored(vertex, table.opposite[..], lists, corner)
      invariant Greedy(vertex, table.opposite[..], corner)
      invariant ok
    {
      var other;
      ok, other, lists := MatchCorner(edges, vertex, counts, offsets, corner, numVertices, table.opposite[..], lists);
      if !ok {
        return;
      }
      if other != -1 {
        table.opposite[corner] := other;
        table.opposite[other] := corner;
      }
    }
    MaximalMatches(vertex, table.opposite[..]);
    MaximalAgrees(vertex, table.opposite[..]);
  }

  lemma MatchStart(edges: seq<HalfEdge>, vertex: seq<int>, opp: seq<int>, lists: seq<seq<int>>)
    requires |vertex| % 3 == 0 && |edges| == |vertex| == |opp| && forall i :: 0 <= i < |edges| ==> edges[i] == EMPTY && opp[i] == -1
    requires forall v :: 0 <= v < |lists| ==> lists[v] == []
    ensures Buckets(edges, vertex, lists) && Maximal(vertex, opp, 0) && Stored(vertex, opp, lists, 0) && Greedy(vertex, opp, 0)
  {
    forall v | 0 <= v < |lists|
      ensures BucketOf(edges, vertex, lists, v)
    {
      CountBelowIs(vertex, v + 1);
    }
  }

  lemma MaximalMatches(vertex: seq<int>, opp: seq<int>)
    requires |vertex| % 3 == 0 && Maximal(vertex, opp, |vertex|)
    ensures |opp| == |vertex| && Matching(opp)
  {
  }
}
