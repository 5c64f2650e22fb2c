/** Which faces share an edge (edgebreaker_encode.go): the dense and the sorting builder of the
    neighbour table used to orient faces. */
module FaceEdges {
  import Bits

  /** A triangle of vertex numbers. */
  datatype Face = Face(a: nat, b: nat, c: nat)

  function From(face: Face, e: nat): nat
    requires e < 3
  {
    if e == 0 then face.a else if e == 1 then face.b else face.c
  }

  function To(face: Face, e: nat): nat
    requires e < 3
  {
    if e == 0 then face.b else if e == 1 then face.c else face.a
  }

  /** Slot 3f + e is edge e of face f. */
  predicate Slot(faces: seq<Face>, s: int)
  {
    0 <= s < 3 * |faces|
  }

  /** An edge without its direction: the smaller vertex first. */
  function Key(faces: seq<Face>, s: int): (nat, nat)
    requires Slot(faces, s)
  {
    var u, v := From(faces[s / 3], s % 3), To(faces[s / 3], s % 3);
    if u > v then (v, u) else (u, v)
  }

  predicate Forward(faces: seq<Face>, s: int)
    requires Slot(faces, s)
  {
    From(faces[s / 3], s % 3) <= To(faces[s / 3], s % 3)
  }

  /** Two different slots of one edge. */
  ghost predicate Twins(faces: seq<Face>, s: int, t: int)
  {
    Slot(faces, s) && Slot(faces, t) && s != t && Key(faces, s) == Key(faces, t)
  }

  ghost predicate AtMostTwo(faces: seq<Face>)
  {
    forall s, t, u :: Twins(faces, s, t) && Twins(faces, s, u) ==> t == u
  }

  /** face -1 is "no neighbour". */
  datatype Neighbor = Neighbor(faceID: int, sameForward: bool)

  const NONE: Neighbor := Neighbor(-1, false)

  function NeighborAt(faces: seq<Face>, s: int, t: int): Neighbor
    requires Slot(faces, s) && Slot(faces, t)
  {
    Neighbor(t / 3, Forward(faces, s) == Forward(faces, t))
  }

  /** An entry names a twin's face. */
  ghost predicate EntryOk(faces: seq<Face>, nb: seq<Neighbor>, s: int)
    requires |nb| == 3 * |faces| && Slot(faces, s)
  {
    nb[s] == NONE || exists t :: Twins(faces, s, t) && nb[s] == NeighborAt(faces, s, t)
  }

  ghost predicate EntriesOk(faces: seq<Face>, nb: seq<Neighbor>)
  {
    |nb| == 3 * |faces| && forall s :: 0 <= s < 3 * |faces| ==> EntryOk(faces, nb, s)
  }

  /** The table knows exactly the shared edges. */
  ghost predicate NeighborsOk(faces: seq<Face>, nb: seq<Neighbor>)
  {
    EntriesOk(faces, nb) && forall s, t :: Twins(faces, s, t) ==> nb[s] != NONE
  }

  lemma LinkTwins(faces: seq<Face>, nb: seq<Neighbor>, s: int, t: int)
    requires EntriesOk(faces, nb) && Twins(faces, s, t)
    ensures EntriesOk(faces, nb[s := NeighborAt(faces, s, t)][t := NeighborAt(faces, t, s)])
  {
    hide Key, Forward;
    var nb1 := nb[s := NeighborAt(faces, s, t)][t := NeighborAt(faces, t, s)];
    assert Twins(faces, t, s);
    forall x | 0 <= x < 3 * |faces|
      ensures EntryOk(faces, nb1, x)
    {
      assert EntryOk(faces, nb, x);
    }
  }

  // ---- the dense builder ----------------------------------------------------------------------

  /** Keys below n have a table index of their own. */
  function Index(key: (nat, nat), n: nat): nat
  {
    key.0 * n + key.1
  }

  lemma IndexUnique(k: (nat, nat), l: (nat, nat), n: nat)
    requires k.0 < n && k.1 < n && l.0 < n && l.1 < n
    ensures Index(k, n) == Index(l, n) <==> k == l
    ensures Index(k, n) < n * n
  {
    Bits.DivModUnique(Index(k, n), n, k.0, k.1);
    Bits.DivModUnique(Index(l, n), n, l.0, l.1);
    Bits.MulMono(k.0 + 1, n, n);
  }

  /** listed[i] holds the slots below k whose key has index i, at most two of them. */
  ghost predicate Listed(faces: seq<Face>, n: nat, listed: seq<seq<int>>, k: nat)
  {
    |listed| == n * n && k <= 3 * |faces| &&
    (forall s :: 0 <= s < k ==> Key(faces, s).0 < n && Key(faces, s).1 < n) &&
    (forall i, j :: 0 <= i < |listed| && 0 <= j < |listed[i]| ==>
      0 <= listed[i][j] < k && Index(Key(faces, listed[i][j]), n) == i) &&
    (forall i :: 0 <= i < |listed| && |listed[i]| >= 2 ==> |listed[i]| == 2 && listed[i][0] != listed[i][1]) &&
    forall s :: 0 <= s < k ==> 0 <= Index(Key(faces, s), n) < |listed| && s in listed[Index(Key(faces, s), n)]
  }

  /** The arrays behind the lists: a count, and the first slot. */
  ghost predicate Dense(listed: seq<seq<int>>, counts: seq<nat>, firsts: seq<int>)
  {
    |counts| == |firsts| == |listed| &&
    forall i :: 0 <= i < |listed| ==> counts[i] == |listed[i]| && (listed[i] != [] ==> firsts[i] == listed[i][0])
  }

  lemma ListedPush(faces: seq<Face>, n: nat, listed: seq<seq<int>>, k: nat)
    requires Listed(faces, n, listed, k) && k < 3 * |faces| && Key(faces, k).0 < n && Key(faces, k).1 < n
    ensures Index(Key(faces, k), n) < |listed|
    ensures |listed[Index(Key(faces, k), n)]| < 2 ==>
              Listed(faces, n, listed[Index(Key(faces, k), n) := listed[Index(Key(faces, k), n)] + [k as int]], k + 1)
  {
    hide Key, Index;
    IndexUnique(Key(faces, k), Key(faces, k), n);
    var i := Index(Key(faces, k), n);
    var listed1 := listed[i := listed[i] + [k as int]];
    assert listed1[i][|listed[i]|] == k;
    if |listed[i]| < 2 {
      forall s | 0 <= s < k + 1
        ensures 0 <= Index(Key(faces, s), n) < |listed1| && s in listed1[Index(Key(faces, s), n)]
      {
        if s < k {
          assert s in listed[Index(Key(faces, s), n)];
        }
      }
    }
  }

  /** Slots in one list are twins. */
  lemma ListedTwins(faces: seq<Face>, n: nat, listed: seq<seq<int>>, k: nat, t: int)
    requires Listed(faces, n, listed, k) && k < 3 * |faces| && Key(faces, k).0 < n && Key(faces, k).1 < n
    ensures Index(Key(faces, k), n) < |listed|
    ensures t in listed[Index(Key(faces, k), n)] ==> Twins(faces, k, t) && 0 <= t < k
    ensures 0 <= t < k && Twins(faces, k, t) ==> t in listed[Index(Key(faces, k), n)]
  {
    hide Key, Index;
    IndexUnique(Key(faces, k), Key(faces, k), n);
    var i := Index(Key(faces, k), n);
    if t in listed[i] {
      var j :| 0 <= j < |listed[i]| && listed[i][j] == t;
      assert 0 <= listed[i][j] < k && Index(Key(faces, listed[i][j]), n) == i;
      IndexUnique(Key(faces, k), Key(faces, t), n);
    }
  }

  /** Every pair of twins below k is entered. */
  ghost predicate EnteredTo(faces: seq<Face>, nb: seq<Neighbor>, k: nat)
    requires |nb| == 3 * |faces|
  {
    forall s, t :: 0 <= s < k && 0 <= t < k && Twins(faces, s, t) ==> nb[s] != NONE
  }

  /** Three slots of one edge. */
  ghost predicate Triple(faces: seq<Face>, s: int, t: int, u: int)
  {
    Twins(faces, s, t) && Twins(faces, s, u) && t != u
  }

  lemma TripleBreaks(faces: seq<Face>, s: int, t: int, u: int)
    requires Triple(faces, s, t, u)
    ensures !AtMostTwo(faces)
  {
  }

  /** Slot k is the third of its edge, or a later one. */
  ghost predicate ThirdUse(faces: seq<Face>, k: int)
  {
    exists t, u :: 0 <= t < k && 0 <= u < k && Triple(faces, k, t, u)
  }

  lemma OneElement(list: seq<int>, t: int, u: int)
    requires |list| < 2 && t in list && u in list
    ensures t == u
  {
  }

  lemma NoThirdUse(faces: seq<Face>, k: nat, list: seq<int>)
    requires |list| < 2 && k < 3 * |faces| && forall t :: 0 <= t < k ==> (Twins(faces, k, t) <==> t in list)
    ensures !ThirdUse(faces, k)
  {
    hide Twins;
    if ThirdUse(faces, k) {
      var t, u :| 0 <= t < k && 0 <= u < k && Triple(faces, k, t, u);
      OneElement(list, t, u);
    }
  }

  /** One edge: remembered the first time, entered with its twin the second, refused the third. */
  method DenseEdge(faces: seq<Face>, n: nat, k: nat, firsts: array<int>, counts: array<nat>, neighbors: array<Neighbor>,
      ghost listed: seq<seq<int>>)
    returns (ok: bool, ghost listed1: seq<seq<int>>)
    requires k < 3 * |faces| && Key(faces, k).0 < n && Key(faces, k).1 < n && neighbors.Length == 3 * |faces|
    requires Listed(faces, n, listed, k) && Dense(listed, counts[..], firsts[..])
    requires EntriesOk(faces, neighbors[..]) && EnteredTo(faces, neighbors[..], k)
    modifies firsts, counts, neighbors
    ensures EntriesOk(faces, neighbors[..])
    ensures ok ==> Listed(faces, n, listed1, k + 1) && Dense(listed1, counts[..], firsts[..]) && EnteredTo(faces, neighbors[..], k + 1)
    ensures !ok ==> !AtMostTwo(faces)
    ensures ok <==> !ThirdUse(faces, k)
  {
    hide Key, Index, Listed, Twins, EntryOk, AtMostTwo, ThirdUse;
    ListedPush(faces, n, listed, k);
    var i := Index(Key(faces, k), n);
    ghost var nb := neighbors[..];
    forall t | 0 <= t < k
      ensures Twins(faces, k, t) <==> t in listed[i]
    {
      ListedTwins(faces, n, listed, k, t);
    }
    listed1 := listed[i := listed[i] + [k as int]];
    if counts[i] < 2 {
      NoThirdUse(faces, k, listed[i]);
    }
    if counts[i] == 0 {
      firsts[i] := k;
      counts[i] := 1;
      EnteredNext(faces, nb, nb, k);
    } else if counts[i] == 1 {
      var first := firsts[i];
      ListedTwins(faces, n, listed, k, first);
      TwinSlots(faces, k, first);
      LinkTwins(faces, nb, k, first);
      var same := Forward(faces, first) == Forward(faces, k);
      neighbors[first] := Neighbor(k / 3, same);
      neighbors[k] := Neighbor(first / 3, same);
      counts[i] := 2;
      assert neighbors[..] == nb[k := NeighborAt(faces, k, first)][first := NeighborAt(faces, first, k)];
      EnteredNext(faces, nb, neighbors[..], k);
    } else {
      ListedTwins(faces, n, listed, k, listed[i][0]);
      ListedTwins(faces, n, listed, k, listed[i][1]);
      ListedTwo(faces, n, listed, k, i);
      TripleBreaks(faces, k, listed[i][0], listed[i][1]);
      ListedBefore(faces, n, listed, k, i);
      ThirdUseOf(faces, k, listed[i][0], listed[i][1]);
      return false, listed;
    }
    ok := true;
  }

  lemma ListedBefore(faces: seq<Face>, n: nat, listed: seq<seq<int>>, k: nat, i: nat)
    requires Listed(faces, n, listed, k) && i < |listed|
    ensures forall j :: 0 <= j < |listed[i]| ==> 0 <= listed[i][j] < k
  {
  }

  lemma ThirdUseOf(faces: seq<Face>, k: nat, t: int, u: int)
    requires 0 <= t < k && 0 <= u < k && Triple(faces, k, t, u)
    ensures ThirdUse(faces, k)
  {
  }

  /** Few enough vertices for a table over all pairs. */
  predicate DenseFits(n: nat, numFaces: nat)
  {
    1 <= n <= 2048 && n * n <= if numFaces * 96 < 4096 then 4096 else numFaces * 96
  }

  predicate Unknown(faces: seq<Face>, n: nat, k: int)
    requires Slot(faces, k)
  {
    Key(faces, k).0 >= n || Key(faces, k).1 >= n
  }

  /** The dense index applies: vertices are few enough, and none is unknown before the first third
      use of an edge. */
  ghost predicate DenseApplies(faces: seq<Face>, n: nat)
  {
    DenseFits(n, |faces|) && forall k :: 0 <= k < 3 * |faces| && Unknown(faces, n, k) ==> exists j :: 0 <= j < k && ThirdUse(faces, j)
  }

  lemma UnknownFirst(faces: seq<Face>, n: nat, k: nat)
    requires k < 3 * |faces| && Unknown(faces, n, k) && forall j :: 0 <= j < k ==> !ThirdUse(faces, j)
    ensures !DenseApplies(faces, n)
  {
    hide Unknown, ThirdUse;
  }

  lemma ThirdUseFirst(faces: seq<Face>, n: nat, k: nat)
    requires DenseFits(n, |faces|) && k < 3 * |faces| && ThirdUse(faces, k)
    requires forall j :: 0 <= j <= k ==> !Unknown(faces, n, j)
    ensures DenseApplies(faces, n)
  {
    hide Unknown, ThirdUse;
  }

  lemma ListedTwo(faces: seq<Face>, n: nat, listed: seq<seq<int>>, k: nat, i: nat)
    requires Listed(faces, n, listed, k) && i < |listed| && |listed[i]| >= 2
    ensures listed[i][0] != listed[i][1]
  {
  }

  lemma TwinSlots(faces: seq<Face>, s: int, t: int)
    requires Twins(faces, s, t)
    ensures Slot(faces, s) && Slot(faces, t) && s != t && Twins(faces, t, s)
  {
  }

  lemma EnteredNext(faces: seq<Face>, nb: seq<Neighbor>, nb1: seq<Neighbor>, k: nat)
    requires |nb| == |nb1| == 3 * |faces| && k < |nb| && EnteredTo(faces, nb, k)
    requires forall s :: 0 <= s < k && nb[s] != NONE ==> nb1[s] != NONE
    requires forall t :: 0 <= t < k && Twins(faces, k, t) ==> nb1[k] != NONE && nb1[t] != NONE
    ensures EnteredTo(faces, nb1, k + 1)
  {
    forall s, t | 0 <= s < k + 1 && 0 <= t < k + 1 && Twins(faces, s, t)
      ensures nb1[s] != NONE
    {
      assert Twins(faces, t, s);
    }
  }

  /** Fills the table through the dense index: unused when vertices are too many or unknown, and
      then the entries made so far are still sound. */
  method BuildDense(faces: seq<Face>, n: nat, neighbors: array<Neighbor>) returns (used: bool, ok: bool)
    requires neighbors.Length == 3 * |faces| && forall s :: 0 <= s < neighbors.Length ==> neighbors[s] == NONE
    modifies neighbors
    ensures EntriesOk(faces, neighbors[..])
    ensures used && ok ==> NeighborsOk(faces, neighbors[..]) && AtMostTwo(faces)
    ensures used && !ok ==> !AtMostTwo(faces)
    ensures used <==> DenseApplies(faces, n)
  {
    hide Key, Index, Listed, Twins, EntryOk, AtMostTwo, EntriesOk, EnteredTo, ThirdUse;
    NoEntries(faces, neighbors[..]);
    if n == 0 || n > 2048 {
      return false, true;
    }
    var limit := if |faces| * 96 < 4096 then 4096 else |faces| * 96;
    if n * n > limit {
      return false, true;
    }
    var firsts, counts := new int[n * n](_ => -1), new nat[n * n](_ => 0);
    ghost var listed: seq<seq<int>> := seq(n * n, _ => []);
    NoneListed(faces, n, listed);
    for k := 0 to 3 * |faces|
      invariant Listed(faces, n, listed, k) && Dense(listed, counts[..], firsts[..])
      invariant EntriesOk(faces, neighbors[..]) && EnteredTo(faces, neighbors[..], k)
      invariant forall j :: 0 <= j < k ==> !Unknown(faces, n, j) && !ThirdUse(faces, j)
    {
      var key := Key(faces, k);
      if key.0 >= n || key.1 >= n {
        UnknownFirst(faces, n, k);
        return false, true;
      }
      ok, listed := DenseEdge(faces, n, k, firsts, counts, neighbors, listed);
      if !ok {
        ThirdUseFirst(faces, n, k);
        return true, false;
      }
    }
    DenseDone(faces, n, listed, neighbors[..]);
    return true, true;
  }

  lemma NoEntries(faces: seq<Face>, nb: seq<Neighbor>)
    requires |nb| == 3 * |faces| && forall s :: 0 <= s < |nb| ==> nb[s] == NONE
    ensures EntriesOk(faces, nb) && EnteredTo(faces, nb, 0)
  {
  }

  lemma NoneListed(faces: seq<Face>, n: nat, listed: seq<seq<int>>)
    requires |listed| == n * n && forall i :: 0 <= i < |listed| ==> listed[i] == []
    ensures Listed(faces, n, listed, 0)
  {
  }

  lemma DenseDone(faces: seq<Face>, n: nat, listed: seq<seq<int>>, nb: seq<Neighbor>)
    requires Listed(faces, n, listed, 3 * |faces|) && EntriesOk(faces, nb) && EnteredTo(faces, nb, 3 * |faces|)
    ensures NeighborsOk(faces, nb) && AtMostTwo(faces)
  {
    hide Key, Index, EntryOk;
    forall s, t, u | Twins(faces, s, t) && Twins(faces, s, u)
      ensures t == u
    {
      var i := Index(Key(faces, s), n);
      assert s in listed[i] && t in listed[i] && u in listed[i];
      assert |listed[i]| == 2;
    }
  }

  // ---- the sorting builder --------------------------------------------------------------------

  predicate KeyLe(k: (nat, nat), l: (nat, nat))
  {
    k.0 < l.0 || (k.0 == l.0 && k.1 <= l.1)
  }

  /** Any outcome of sorting all slots by key. */
  ghost predicate SortedSlots(faces: seq<Face>, order: seq<int>)
  {
    |order| == 3 * |faces| && (forall i :: 0 <= i < |order| ==> Slot(faces, order[i])) &&
    (forall i, j :: 0 <= i < j < |order| ==> order[i] != order[j]) &&
    (forall i, j :: 0 <= i <= j < |order| ==> KeyLe(Key(faces, order[i]), Key(faces, order[j]))) &&
    forall s :: Slot(faces, s) ==> s in order
  }

  /** Slots with one key lie side by side. */
  lemma SameKeyBetween(faces: seq<Face>, order: seq<int>, i: nat, j: nat, k: nat)
    requires SortedSlots(faces, order) && i <= j <= k < |order| && Key(faces, order[i]) == Key(faces, order[k])
    ensures Key(faces, order[j]) == Key(faces, order[i])
  {
    hide Key;
    assert KeyLe(Key(faces, order[i]), Key(faces, order[j])) && KeyLe(Key(faces, order[j]), Key(faces, order[k]));
  }

  /** All twins among the first i sorted slots are entered, and no key continues after them. */
  ghost predicate SortedTo(faces: seq<Face>, order: seq<int>, nb: seq<Neighbor>, i: nat)
    requires SortedSlots(faces, order) && |nb| == 3 * |faces| && i <= |order|
  {
    (0 < i < |order| ==> Key(faces, order[i - 1]) != Key(faces, order[i])) &&
    (forall x, y :: 0 <= x < i && 0 <= y < i && Twins(faces, order[x], order[y]) ==> nb[order[x]] != NONE) &&
    forall x, y, z :: 0 <= x < y < z < i ==> !(Key(faces, order[x]) == Key(faces, order[y]) == Key(faces, order[z]))
  }

  lemma SortedOn(faces: seq<Face>, order: seq<int>, nb: seq<Neighbor>, nb1: seq<Neighbor>, i: nat, j: nat)
    requires SortedSlots(faces, order) && |nb| == |nb1| == 3 * |faces| && i < j <= |order| && j - i <= 2
    requires SortedTo(faces, order, nb, i)
    requires j < |order| ==> Key(faces, order[j - 1]) != Key(faces, order[j])
    requires forall s :: 0 <= s < |nb| && nb[s] != NONE ==> nb1[s] != NONE
    requires j - i == 2 ==> nb1[order[i]] != NONE && nb1[order[i + 1]] != NONE
    ensures SortedTo(faces, order, nb1, j)
  {
    hide Key;
    forall x, y | 0 <= x < j && 0 <= y < j && Twins(faces, order[x], order[y])
      ensures nb1[order[x]] != NONE
    {
      NoneAcross(faces, order, i, if x < y then x else y, if x < y then y else x);
    }
    NoTriples(faces, order, nb, i, j);
  }

  lemma NoTriples(faces: seq<Face>, order: seq<int>, nb: seq<Neighbor>, i: nat, j: nat)
    requires SortedSlots(faces, order) && |nb| == 3 * |faces| && i < j <= |order| && j - i <= 2
    requires SortedTo(faces, order, nb, i)
    ensures forall x, y, z :: 0 <= x < y < z < j ==> !(Key(faces, order[x]) == Key(faces, order[y]) == Key(faces, order[z]))
  {
    hide Key, Twins;
    forall x, y, z | 0 <= x < y < z < j
      ensures !(Key(faces, order[x]) == Key(faces, order[y]) == Key(faces, order[z]))
    {
      if Key(faces, order[x]) == Key(faces, order[z]) {
        NoneAcross(faces, order, i, x, z);
      }
    }
  }

  /** A key does not reach over a group boundary. */
  lemma NoneAcross(faces: seq<Face>, order: seq<int>, i: nat, x: nat, z: nat)
    requires SortedSlots(faces, order) && x <= z < |order| && i < |order|
    requires i > 0 ==> Key(faces, order[i - 1]) != Key(faces, order[i])
    requires Key(faces, order[x]) == Key(faces, order[z])
    ensures !(x < i <= z)
  {
    hide Key;
    if x < i <= z {
      SameKeyBetween(faces, order, x, i - 1, z);
      SameKeyBetween(faces, order, x, i, z);
    }
  }

  /** Fills the table from a sorted list, group by group; a group of three is refused. */
  method BuildSorted(faces: seq<Face>, order: seq<int>, neighbors: array<Neighbor>) returns (ok: bool)
    requires neighbors.Length == 3 * |faces| && EntriesOk(faces, neighbors[..]) && SortedSlots(faces, order)
    modifies neighbors
    ensures ok <==> AtMostTwo(faces)
    ensures ok ==> NeighborsOk(faces, neighbors[..])
  {
    hide Key, Twins, EntryOk, EntriesOk, SortedTo, AtMostTwo;
    var i := 0;
    SortedStart(faces, order, neighbors[..]);
    while i < |order|
      invariant 0 <= i <= |order| && EntriesOk(faces, neighbors[..]) && SortedTo(faces, order, neighbors[..], i)
    {
      var j := i + 1;
      while j < |order| && Key(faces, order[j]) == Key(faces, order[i])
        invariant i < j <= |order| && forall k :: i <= k < j ==> Key(faces, order[k]) == Key(faces, order[i])
      {
        j := j + 1;
      }
      if j - i > 2 {
        GroupOfThree(faces, order, i);
        return false;
      }
      ghost var nb := neighbors[..];
      if j - i == 2 {
        var first, second := order[i], order[i + 1];
        PairTwins(faces, order, i);
        LinkTwins(faces, nb, first, second);
        var same := Forward(faces, first) == Forward(faces, second);
        neighbors[first] := Neighbor(second / 3, same);
        neighbors[second] := Neighbor(first / 3, same);
        assert neighbors[..] == nb[first := NeighborAt(faces, first, second)][second := NeighborAt(faces, second, first)];
      }
      SortedOn(faces, order, nb, neighbors[..], i, j);
      i := j;
    }
    SortedDone(faces, order, neighbors[..]);
    ok := true;
  }

  lemma SortedStart(faces: seq<Face>, order: seq<int>, nb: seq<Neighbor>)
    requires SortedSlots(faces, order) && |nb| == 3 * |faces|
    ensures SortedTo(faces, order, nb, 0)
  {
  }

  lemma PairTwins(faces: seq<Face>, order: seq<int>, i: nat)
    requires SortedSlots(faces, order) && i + 1 < |order| && Key(faces, order[i]) == Key(faces, order[i + 1])
    ensures Twins(faces, order[i], order[i + 1]) && Slot(faces, order[i]) && Slot(faces, order[i + 1]) && order[i] != order[i + 1]
  {
  }

  lemma GroupOfThree(faces: seq<Face>, order: seq<int>, i: nat)
    requires SortedSlots(faces, order) && i + 2 < |order|
    requires Key(faces, order[i]) == Key(faces, order[i + 1]) == Key(faces, order[i + 2])
    ensures !AtMostTwo(faces)
  {
    TripleBreaks(faces, order[i], order[i + 1], order[i + 2]);
  }

  lemma SortedDone(faces: seq<Face>, order: seq<int>, nb: seq<Neighbor>)
    requires SortedSlots(faces, order) && EntriesOk(faces, nb) && SortedTo(faces, order, nb, |order|)
    ensures NeighborsOk(faces, nb) && AtMostTwo(faces)
  {
    hide Key, EntryOk;
    forall s, t | Twins(faces, s, t)
      ensures nb[s] != NONE
    {
      var x :| 0 <= x < |order| && order[x] == s;
      var y :| 0 <= y < |order| && order[y] == t;
      assert Twins(faces, order[x], order[y]);
    }
    forall s, t, u | Twins(faces, s, t) && Twins(faces, s, u)
      ensures t == u
    {
      var x :| 0 <= x < |order| && order[x] == s;
      var y :| 0 <= y < |order| && order[y] == t;
      var z :| 0 <= z < |order| && order[z] == u;
    }
  }

  /** The builders together: the dense one where it applies, the sorting one otherwise. */
  method BuildNeighbors(faces: seq<Face>, numVertices: nat, order: seq<int>) returns (ok: bool, neighbors: array<Neighbor>)
    requires SortedSlots(faces, order)
    ensures fresh(neighbors) && (ok <==> AtMostTwo(faces))
    ensures ok ==> NeighborsOk(faces, neighbors[..])
  {
    hide AtMostTwo, NeighborsOk, EntriesOk, SortedSlots;
    neighbors := new Neighbor[3 * |faces|](_ => NONE);
    var used;
    used, ok := BuildDense(faces, numVertices, neighbors);
    if !used {
      ok := BuildSorted(faces, order, neighbors);
    }
  }
}
