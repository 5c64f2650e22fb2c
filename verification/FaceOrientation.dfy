/** Orienting faces (edgebreaker_encode.go): breadth-first flipping until every shared edge runs
    in opposite directions, which fails exactly when no set of flips does it. */
module FaceOrientation {
  import opened FaceEdges
  import Corners

  function Flip(face: Face): Face
  {
    Face(face.a, face.c, face.b)
  }

  ghost predicate HasEdge(face: Face, u: nat, v: nat)
  {
    exists e: nat :: e < 3 && From(face, e) == u && To(face, e) == v
  }

  lemma FlipReverses(face: Face, u: nat, v: nat)
    ensures HasEdge(Flip(face), u, v) <==> HasEdge(face, v, u)
  {
    var flipped := Flip(face);
    assert From(flipped, 0) == To(face, 2) && To(flipped, 0) == From(face, 2);
    assert From(flipped, 1) == To(face, 1) && To(flipped, 1) == From(face, 1);
    assert From(flipped, 2) == To(face, 0) && To(flipped, 2) == From(face, 0);
  }

  // ---- orientations -----------------------------------------------------------------------------

  /** Which way slot s runs after the flips. */
  predicate Heading(faces: seq<Face>, flip: seq<bool>, s: int)
    requires Slot(faces, s) && |flip| == |faces|
  {
    Forward(faces, s) != flip[s / 3]
  }

  /** Twins run in opposite directions. */
  ghost predicate Oriented(faces: seq<Face>, flip: seq<bool>)
  {
    |flip| == |faces| && forall s, t :: Twins(faces, s, t) ==> Heading(faces, flip, s) != Heading(faces, flip, t)
  }

  function Flipped(faces: seq<Face>, flip: seq<bool>): (r: seq<Face>)
    requires |flip| == |faces|
    ensures |r| == |faces| && forall f :: 0 <= f < |faces| ==> r[f] == if flip[f] then Flip(faces[f]) else faces[f]
  {
    seq(|faces|, f requires 0 <= f < |faces| => if flip[f] then Flip(faces[f]) else faces[f])
  }

  /** A slot of a flipped face, as an edge of the original. */
  lemma EdgeSlot(faces: seq<Face>, flip: seq<bool>, f: nat, u: nat, v: nat) returns (s: int)
    requires |flip| == |faces| && f < |faces| && u != v && HasEdge(Flipped(faces, flip)[f], u, v)
    ensures Slot(faces, s) && s / 3 == f && Key(faces, s) == (if u > v then (v, u) else (u, v))
    ensures Heading(faces, flip, s) <==> u < v
  {
    FlipReverses(faces[f], u, v);
    var (x, y) := if flip[f] then (v, u) else (u, v);
    var e: nat :| e < 3 && From(faces[f], e) == x && To(faces[f], e) == y;
    s := 3 * f + e;
    assert s / 3 == f && s % 3 == e;
  }

  /** In oriented faces no directed edge belongs to two faces. */
  lemma OrientedFaces(faces: seq<Face>, flip: seq<bool>, f: nat, g: nat, u: nat, v: nat)
    requires Oriented(faces, flip) && f < |faces| && g < |faces| && f != g && u != v
    ensures !(HasEdge(Flipped(faces, flip)[f], u, v) && HasEdge(Flipped(faces, flip)[g], u, v))
  {
    hide HasEdge, Key, Heading;
    if HasEdge(Flipped(faces, flip)[f], u, v) && HasEdge(Flipped(faces, flip)[g], u, v) {
      var s := EdgeSlot(faces, flip, f, u, v);
      var t := EdgeSlot(faces, flip, g, u, v);
    }
  }

  /** The neighbour table's view of an orientation, slot by slot. */
  ghost predicate SlotAgrees(nb: seq<Neighbor>, flip: seq<bool>, s: int)
    requires 0 <= s < |nb| && |nb| == 3 * |flip|
  {
    nb[s].faceID >= 0 ==> nb[s].faceID < |flip| && flip[nb[s].faceID] == (nb[s].sameForward != flip[s / 3])
  }

  ghost predicate Consistent(nb: seq<Neighbor>, flip: seq<bool>)
  {
    |nb| == 3 * |flip| && forall s :: 0 <= s < |nb| ==> SlotAgrees(nb, flip, s)
  }

  /** Twins name each other in the table. */
  lemma TwinEntries(faces: seq<Face>, nb: seq<Neighbor>, s: int)
    requires NeighborsOk(faces, nb) && AtMostTwo(faces) && Slot(faces, s)
    ensures nb[s] == NONE || exists t :: Twins(faces, s, t) && nb[s] == NeighborAt(faces, s, t) && nb[t] == NeighborAt(faces, t, s)
  {
    hide Key, Forward;
    assert EntryOk(faces, nb, s);
    if nb[s] != NONE {
      var t :| Twins(faces, s, t) && nb[s] == NeighborAt(faces, s, t);
      assert Twins(faces, t, s);
      assert EntryOk(faces, nb, t);
      var u :| Twins(faces, t, u) && nb[t] == NeighborAt(faces, t, u);
      assert u == s;
    }
  }

  lemma ConsistentMeans(faces: seq<Face>, nb: seq<Neighbor>, flip: seq<bool>)
    requires NeighborsOk(faces, nb) && AtMostTwo(faces) && |flip| == |faces|
    ensures Consistent(nb, flip) <==> Oriented(faces, flip)
  {
    hide Key, Forward, AtMostTwo;
    if Consistent(nb, flip) {
      forall s, t | Twins(faces, s, t)
        ensures Heading(faces, flip, s) != Heading(faces, flip, t)
      {
        TwinOf(faces, nb, s, t);
        assert SlotAgrees(nb, flip, s);
      }
    }
    if Oriented(faces, flip) {
      forall s | 0 <= s < |nb|
        ensures SlotAgrees(nb, flip, s)
      {
        assert EntryOk(faces, nb, s);
        if nb[s] != NONE {
          var t :| Twins(faces, s, t) && nb[s] == NeighborAt(faces, s, t);
          assert Heading(faces, flip, s) != Heading(faces, flip, t);
        }
      }
    }
  }

  lemma TwinOf(faces: seq<Face>, nb: seq<Neighbor>, s: int, t: int)
    requires NeighborsOk(faces, nb) && AtMostTwo(faces) && Twins(faces, s, t)
    ensures nb[s] == NeighborAt(faces, s, t)
  {
    hide Key, Forward;
    assert EntryOk(faces, nb, s);
  }

  /** If a slot names face g then some slot of g names its face. */
  ghost predicate BothWays(nb: seq<Neighbor>)
  {
    |nb| % 3 == 0 && forall s :: 0 <= s < |nb| && nb[s].faceID >= 0 ==> nb[s].faceID < |nb| / 3 && NamedBy(nb, nb[s].faceID, s / 3)
  }

  ghost predicate NamedBy(nb: seq<Neighbor>, g: int, f: int)
  {
    exists t :: 0 <= t < |nb| && t / 3 == g && nb[t].faceID == f
  }

  lemma NeighborsBothWays(faces: seq<Face>, nb: seq<Neighbor>)
    requires NeighborsOk(faces, nb) && AtMostTwo(faces)
    ensures BothWays(nb)
  {
    hide Key, Forward, AtMostTwo;
    forall s | 0 <= s < |nb| && nb[s].faceID >= 0
      ensures nb[s].faceID < |nb| / 3 && NamedBy(nb, nb[s].faceID, s / 3)
    {
      TwinEntries(faces, nb, s);
      var t :| Twins(faces, s, t) && nb[s] == NeighborAt(faces, s, t) && nb[t] == NeighborAt(faces, t, s);
      assert nb[t].faceID == s / 3;
    }
  }

  // ---- the search -------------------------------------------------------------------------------

  /** visited splits into faces of finished components and the current queue. */
  ghost predicate Searching(nb: seq<Neighbor>, visited: seq<bool>, flipped: seq<bool>, before: seq<bool>, queue: seq<int>, head: nat, edge: nat)
  {
    |nb| == 3 * |visited| && |visited| == |flipped| == |before| && edge <= 3 && head <= |queue| && (head == |queue| ==> edge == 0) &&
    (forall i :: 0 <= i < |queue| ==> 0 <= queue[i] < |visited| && visited[queue[i]] && !before[queue[i]]) &&
    (forall i, j :: 0 <= i < j < |queue| ==> queue[i] != queue[j]) &&
    (forall f :: 0 <= f < |visited| && visited[f] ==> before[f] || f in queue) &&
    (forall f :: 0 <= f < |visited| && before[f] ==> visited[f]) &&
    forall s :: 0 <= s < |nb| && Scanned(queue, head, edge, s) ==> SlotDone(nb, visited, flipped, s)
  }

  /** Slots of processed faces, and the first edges of the face in turn. */
  ghost predicate Scanned(queue: seq<int>, head: nat, edge: nat, s: int)
    requires head <= |queue|
  {
    s / 3 in queue[..head] || (head < |queue| && s / 3 == queue[head] && s % 3 < edge)
  }

  ghost predicate SlotDone(nb: seq<Neighbor>, visited: seq<bool>, flipped: seq<bool>, s: int)
    requires 0 <= s < |nb| && |nb| == 3 * |flipped| && |visited| == |flipped|
  {
    SlotAgrees(nb, flipped, s) && (nb[s].faceID >= 0 ==> visited[nb[s].faceID])
  }

  /** Finished components are closed and agree. */
  ghost predicate Finished(nb: seq<Neighbor>, flipped: seq<bool>, before: seq<bool>)
  {
    |nb| == 3 * |flipped| && |before| == |flipped| &&
    forall s :: 0 <= s < |nb| && before[s / 3] ==> SlotDone(nb, before, flipped, s)
  }

  /** Every orientation decides the component's faces the same way, up to one common flip. */
  ghost predicate Forced(nb: seq<Neighbor>, flipped: seq<bool>, queue: seq<int>)
  {
    |nb| == 3 * |flipped| && (forall i :: 0 <= i < |queue| ==> 0 <= queue[i] < |flipped|) &&
    forall a: seq<bool> :: Consistent(nb, a) ==> SameUpToFlip(a, flipped, queue)
  }

  ghost predicate SameUpToFlip(a: seq<bool>, flipped: seq<bool>, queue: seq<int>)
  {
    |a| == |flipped| && forall i :: 0 <= i < |queue| ==> SameAt(a, flipped, queue[i], queue[0])
  }

  ghost predicate SameAt(a: seq<bool>, flipped: seq<bool>, f: int, g: int)
    requires |a| == |flipped|
  {
    0 <= f < |a| && 0 <= g < |a| && (a[f] != flipped[f]) == (a[g] != flipped[g])
  }

  /** Faces of other components name no face of a finished one. */
  lemma OutsideFinished(nb: seq<Neighbor>, flipped: seq<bool>, before: seq<bool>, s: int)
    requires Finished(nb, flipped, before) && BothWays(nb) && 0 <= s < |nb| && nb[s].faceID >= 0 && !before[s / 3]
    ensures nb[s].faceID < |before| && !before[nb[s].faceID]
  {
    assert NamedBy(nb, nb[s].faceID, s / 3);
    var t :| 0 <= t < |nb| && t / 3 == nb[s].faceID && nb[t].faceID == s / 3;
    assert before[t / 3] ==> SlotDone(nb, before, flipped, t);
  }

  /** A new face takes the flip its neighbour asks for. */
  lemma Discover(nb: seq<Neighbor>, visited: seq<bool>, flipped: seq<bool>, before: seq<bool>, queue: seq<int>, head: nat, edge: nat, s: int)
    requires Searching(nb, visited, flipped, before, queue, head, edge) && head < |queue| && edge < 3
    requires s == 3 * queue[head] + edge && 0 <= s < |nb| && 0 <= nb[s].faceID < |visited| && !visited[nb[s].faceID]
    ensures var (g, flip) := (nb[s].faceID, nb[s].sameForward != flipped[queue[head]]);
            Searching(nb, visited[g := true], flipped[g := flip], before, queue + [g], head, edge + 1)
  {
    hide SlotAgrees;
    var g, flip := nb[s].faceID, nb[s].sameForward != flipped[queue[head]];
    var v1, f1, q1 := visited[g := true], flipped[g := flip], queue + [g];
    assert q1[..head] == queue[..head];
    SlotOf(queue[head], edge);
    forall x | 0 <= x < |nb| && Scanned(q1, head, edge + 1, x)
      ensures SlotDone(nb, v1, f1, x)
    {
      if x == s {
        Asked(nb, flipped, f1, s, queue[head]);
      } else {
        SlotAt(x, queue[head], edge);
        assert Scanned(queue, head, edge, x);
        QueueFace(nb, visited, flipped, before, queue, head, edge, x);
        Untouched(nb, visited, flipped, x, g, flip);
      }
    }
    forall f | 0 <= f < |v1| && v1[f]
      ensures before[f] || f in q1
    {
      if f == g {
        assert q1[|queue|] == g;
      }
    }
  }

  lemma SlotOf(f: nat, e: nat)
    requires e < 3
    ensures (3 * f + e) / 3 == f && (3 * f + e) % 3 == e
  {
  }

  lemma SlotAt(x: int, f: nat, e: nat)
    requires x >= 0 && e < 3
    ensures x / 3 == f && x % 3 == e ==> x == 3 * f + e
  {
  }

  lemma QueueFace(nb: seq<Neighbor>, visited: seq<bool>, flipped: seq<bool>, before: seq<bool>, queue: seq<int>, head: nat, edge: nat, x: int)
    requires Searching(nb, visited, flipped, before, queue, head, edge) && 0 <= x < |nb| && Scanned(queue, head, edge, x)
    ensures visited[x / 3]
  {
    if x / 3 in queue[..head] {
      var i :| 0 <= i < head && queue[..head][i] == x / 3;
      assert queue[i] == x / 3;
    }
  }

  lemma Asked(nb: seq<Neighbor>, flipped: seq<bool>, f1: seq<bool>, s: int, f: int)
    requires 0 <= s < |nb| && |nb| == 3 * |flipped| && s / 3 == f && 0 <= nb[s].faceID < |flipped| && nb[s].faceID != f
    requires f1 == flipped[nb[s].faceID := nb[s].sameForward != flipped[f]]
    ensures SlotAgrees(nb, f1, s)
  {
  }

  lemma Untouched(nb: seq<Neighbor>, visited: seq<bool>, flipped: seq<bool>, x: int, g: int, flip: bool)
    requires 0 <= x < |nb| && |nb| == 3 * |flipped| && |visited| == |flipped| && SlotDone(nb, visited, flipped, x)
    requires 0 <= g < |flipped| && !visited[g] && visited[x / 3]
    ensures SlotDone(nb, visited[g := true], flipped[g := flip], x)
  {
  }

  /** The orientation stays forced. */
  lemma ForcedMore(nb: seq<Neighbor>, flipped: seq<bool>, queue: seq<int>, head: nat, s: int)
    requires Forced(nb, flipped, queue) && head < |queue| && 0 <= s < |nb| && s / 3 == queue[head]
    requires 0 <= nb[s].faceID < |flipped| && nb[s].faceID !in queue
    ensures var g := nb[s].faceID;
            Forced(nb, flipped[g := nb[s].sameForward != flipped[queue[head]]], queue + [g])
  {
    var g := nb[s].faceID;
    var f1, q1 := flipped[g := nb[s].sameForward != flipped[queue[head]]], queue + [g];
    forall a: seq<bool> | Consistent(nb, a)
      ensures SameUpToFlip(a, f1, q1)
    {
      assert SameUpToFlip(a, flipped, queue);
      assert SlotAgrees(nb, a, s);
      forall i | 0 <= i < |q1|
        ensures SameAt(a, f1, q1[i], q1[0])
      {
        if i < |queue| {
          assert q1[i] == queue[i] && q1[i] != g;
        }
        assert q1[0] == queue[0] && queue[0] != g && queue[head] != g;
      }
    }
  }

  /** Under an orientation the search never meets a disagreement in its component. */
  lemma AgreesThere(nb: seq<Neighbor>, flipped: seq<bool>, queue: seq<int>, head: nat, s: int, a: seq<bool>)
    requires Forced(nb, flipped, queue) && head < |queue| && 0 <= s < |nb| && s / 3 == queue[head]
    requires 0 <= nb[s].faceID < |flipped| && nb[s].faceID in queue && Consistent(nb, a)
    ensures flipped[nb[s].faceID] == (nb[s].sameForward != flipped[queue[head]])
  {
    assert SameUpToFlip(a, flipped, queue) && SlotAgrees(nb, a, s);
    var i :| 0 <= i < |queue| && queue[i] == nb[s].faceID;
    assert SameAt(a, flipped, queue[i], queue[0]) && SameAt(a, flipped, queue[head], queue[0]);
  }

  /** A disagreement inside a component rules out every orientation. */
  lemma Contradiction(nb: seq<Neighbor>, flipped: seq<bool>, queue: seq<int>, head: nat, s: int, a: seq<bool>)
    requires Forced(nb, flipped, queue) && head < |queue| && 0 <= s < |nb| && s / 3 == queue[head]
    requires 0 <= nb[s].faceID < |flipped| && nb[s].faceID in queue
    requires flipped[nb[s].faceID] != (nb[s].sameForward != flipped[queue[head]])
    ensures !Consistent(nb, a)
  {
    hide Consistent, Forced;
    if Consistent(nb, a) {
      AgreesThere(nb, flipped, queue, head, s, a);
    }
  }

  /** A slot whose neighbour is known and agrees. */
  lemma Agreed(nb: seq<Neighbor>, visited: seq<bool>, flipped: seq<bool>, before: seq<bool>, queue: seq<int>, head: nat, edge: nat, s: int)
    requires Searching(nb, visited, flipped, before, queue, head, edge) && head < |queue| && edge < 3
    requires s == 3 * queue[head] + edge && 0 <= s < |nb|
    requires nb[s].faceID < |visited|
    requires nb[s].faceID >= 0 ==> visited[nb[s].faceID] && flipped[nb[s].faceID] == (nb[s].sameForward != flipped[queue[head]])
    ensures Searching(nb, visited, flipped, before, queue, head, edge + 1)
  {
    SlotOf(queue[head], edge);
    forall x | 0 <= x < |nb| && Scanned(queue, head, edge + 1, x)
      ensures SlotDone(nb, visited, flipped, x)
    {
      if x != s {
        SlotAt(x, queue[head], edge);
        assert Scanned(queue, head, edge, x);
      }
    }
  }

  /** On to the next face of the queue. */
  lemma NextFace(nb: seq<Neighbor>, visited: seq<bool>, flipped: seq<bool>, before: seq<bool>, queue: seq<int>, head: nat)
    requires Searching(nb, visited, flipped, before, queue, head, 3) && head < |queue|
    ensures Searching(nb, visited, flipped, before, queue, head + 1, 0)
  {
    assert queue[..head + 1] == queue[..head] + [queue[head]];
    forall x | 0 <= x < |nb| && Scanned(queue, head + 1, 0, x)
      ensures SlotDone(nb, visited, flipped, x)
    {
      assert Scanned(queue, head, 3, x);
    }
  }

  lemma QueueBound(nb: seq<Neighbor>, visited: seq<bool>, flipped: seq<bool>, before: seq<bool>, queue: seq<int>, head: nat, edge: nat)
    requires Searching(nb, visited, flipped, before, queue, head, edge)
    ensures |queue| <= |visited|
  {
    Corners.DistinctBound(queue, |visited|);
  }

  /** Scans one face of the queue. */
  method ScanFace(nb: seq<Neighbor>, visited: array<bool>, flipped: array<bool>, queue: seq<int>, head: nat, ghost before: seq<bool>)
    returns (ok: bool, queue1: seq<int>)
    requires visited != flipped && BothWays(nb) && head < |queue|
    requires Searching(nb, visited[..], flipped[..], before, queue, head, 0) && Forced(nb, flipped[..], queue)
    requires Finished(nb, flipped[..], before)
    modifies visited, flipped
    ensures queue <= queue1
    ensures ok ==> Searching(nb, visited[..], flipped[..], before, queue1, head + 1, 0) && Forced(nb, flipped[..], queue1) && Finished(nb, flipped[..], before)
    ensures !ok ==> forall a: seq<bool> :: !Consistent(nb, a)
  {
    hide Searching, Forced, Finished, BothWays, Consistent;
    queue1 := queue;
    for edge := 0 to 3
      invariant queue <= queue1
      invariant Searching(nb, visited[..], flipped[..], before, queue1, head, edge) && Forced(nb, flipped[..], queue1)
      invariant Finished(nb, flipped[..], before)
    {
      SearchFacts(nb, visited[..], flipped[..], before, queue1, head, edge);
      var s := 3 * queue1[head] + edge;
      SlotOf(queue1[head], edge);
      var g := nb[s].faceID;
      if g < 0 {
        Agreed(nb, visited[..], flipped[..], before, queue1, head, edge, s);
      } else {
        OutsideFinished(nb, flipped[..], before, s);
        var required := nb[s].sameForward != flipped[queue1[head]];
        if !visited[g] {
          NotQueued(nb, visited[..], flipped[..], before, queue1, head, edge, g);
          Discover(nb, visited[..], flipped[..], before, queue1, head, edge, s);
          ForcedMore(nb, flipped[..], queue1, head, s);
          FinishedStays(nb, flipped[..], before, g, required);
          visited[g] := true;
          flipped[g] := required;
          queue1 := queue1 + [g];
        } else if flipped[g] != required {
          Queued(nb, visited[..], flipped[..], before, queue1, head, edge, g);
          forall a: seq<bool>
            ensures !Consistent(nb, a)
          {
            Contradiction(nb, flipped[..], queue1, head, s, a);
          }
          return false, queue1;
        } else {
          Agreed(nb, visited[..], flipped[..], before, queue1, head, edge, s);
        }
      }
    }
    NextFace(nb, visited[..], flipped[..], before, queue1, head);
    ok := true;
  }

  lemma SearchFacts(nb: seq<Neighbor>, visited: seq<bool>, flipped: seq<bool>, before: seq<bool>, queue: seq<int>, head: nat, edge: nat)
    requires Searching(nb, visited, flipped, before, queue, head, edge) && head < |queue|
    ensures |nb| == 3 * |visited| && |visited| == |flipped| == |before| && 0 <= queue[head] < |visited| && !before[queue[head]]
  {
  }

  lemma NotQueued(nb: seq<Neighbor>, visited: seq<bool>, flipped: seq<bool>, before: seq<bool>, queue: seq<int>, head: nat, edge: nat, g: int)
    requires Searching(nb, visited, flipped, before, queue, head, edge) && 0 <= g < |visited| && !visited[g]
    ensures g !in queue
  {
  }

  lemma Queued(nb: seq<Neighbor>, visited: seq<bool>, flipped: seq<bool>, before: seq<bool>, queue: seq<int>, head: nat, edge: nat, g: int)
    requires Searching(nb, visited, flipped, before, queue, head, edge) && 0 <= g < |visited| && visited[g] && !before[g]
    ensures g in queue
  {
  }

  /** Changing a face outside the finished components leaves them as they were. */
  lemma FinishedStays(nb: seq<Neighbor>, flipped: seq<bool>, before: seq<bool>, g: int, flip: bool)
    requires Finished(nb, flipped, before) && 0 <= g < |flipped| && !before[g]
    ensures Finished(nb, flipped[g := flip], before)
  {
    forall s | 0 <= s < |nb| && before[s / 3]
      ensures SlotDone(nb, before, flipped[g := flip], s)
    {
      assert SlotDone(nb, before, flipped, s);
    }
  }

  // ---- components -------------------------------------------------------------------------------

  function FlipAll(flipped: seq<bool>, queue: seq<int>): (r: seq<bool>)
    ensures |r| == |flipped| && forall f :: 0 <= f < |flipped| ==> r[f] == (if f in queue then !flipped[f] else flipped[f])
  {
    seq(|flipped|, f requires 0 <= f < |flipped| => if f in queue then !flipped[f] else flipped[f])
  }

  /** An exhausted queue is a finished component, turned over or not. */
  lemma ComponentDone(nb: seq<Neighbor>, visited: seq<bool>, flipped: seq<bool>, before: seq<bool>, queue: seq<int>, invert: bool)
    requires BothWays(nb) && Searching(nb, visited, flipped, before, queue, |queue|, 0) && Finished(nb, flipped, before)
    ensures Finished(nb, if invert then FlipAll(flipped, queue) else flipped, visited)
  {
    assert queue[..|queue|] == queue;
    var f1 := if invert then FlipAll(flipped, queue) else flipped;
    forall s | 0 <= s < |nb| && visited[s / 3]
      ensures SlotDone(nb, visited, f1, s)
    {
      if before[s / 3] {
        assert SlotDone(nb, before, flipped, s);
        if nb[s].faceID >= 0 {
          InNoQueue(nb, visited, flipped, before, queue, s / 3);
          InNoQueue(nb, visited, flipped, before, queue, nb[s].faceID);
        }
      } else {
        assert Scanned(queue, |queue|, 0, s);
        if nb[s].faceID >= 0 {
          OutsideFinished(nb, flipped, before, s);
        }
      }
    }
  }

  lemma InNoQueue(nb: seq<Neighbor>, visited: seq<bool>, flipped: seq<bool>, before: seq<bool>, queue: seq<int>, f: int)
    requires Searching(nb, visited, flipped, before, queue, |queue|, 0) && 0 <= f < |before| && before[f]
    ensures f !in queue && visited[f]
  {
  }

  lemma SearchStart(nb: seq<Neighbor>, visited: seq<bool>, flipped: seq<bool>, seed: nat)
    requires |nb| == 3 * |visited| && |flipped| == |visited| && seed < |visited| && !visited[seed] && Finished(nb, flipped, visited)
    ensures Searching(nb, visited[seed := true], flipped, visited, [seed], 0, 0) && Forced(nb, flipped, [seed])
  {
    forall a: seq<bool> | Consistent(nb, a)
      ensures SameUpToFlip(a, flipped, [seed])
    {
    }
  }

  /** One component from its seed; invert stands for the comparison of face signatures. */
  method SearchComponent(nb: seq<Neighbor>, visited: array<bool>, flipped: array<bool>, seed: nat, invert: bool) returns (ok: bool)
    requires visited != flipped && BothWays(nb) && |nb| == 3 * visited.Length && flipped.Length == visited.Length
    requires seed < visited.Length && !visited[seed] && Finished(nb, flipped[..], visited[..])
    modifies visited, flipped
    ensures ok ==> Finished(nb, flipped[..], visited[..]) && visited[seed]
    ensures ok ==> forall f :: 0 <= f < visited.Length && old(visited[f]) ==> visited[f]
    ensures !ok ==> forall a: seq<bool> :: !Consistent(nb, a)
  {
    hide Searching, Forced, Finished, BothWays, Consistent;
    ghost var before := visited[..];
    SearchStart(nb, visited[..], flipped[..], seed);
    var queue := [seed as int];
    visited[seed] := true;
    var head := 0;
    while head < |queue|
      invariant 0 <= head <= |queue| && 1 <= |queue| && queue[0] == seed
      invariant Searching(nb, visited[..], flipped[..], before, queue, head, 0) && Forced(nb, flipped[..], queue)
      invariant Finished(nb, flipped[..], before)
      decreases visited.Length - head
    {
      QueueBound(nb, visited[..], flipped[..], before, queue, head, 0);
      ok, queue := ScanFace(nb, visited, flipped, queue, head, before);
      if !ok {
        return;
      }
      head := head + 1;
    }
    ComponentDone(nb, visited[..], flipped[..], before, queue, invert);
    VisitedGrew(nb, visited[..], flipped[..], before, queue);
    if invert {
      InvertFaces(flipped, queue);
    }
    ok := true;
  }

  lemma VisitedGrew(nb: seq<Neighbor>, visited: seq<bool>, flipped: seq<bool>, before: seq<bool>, queue: seq<int>)
    requires Searching(nb, visited, flipped, before, queue, |queue|, 0) && queue != []
    ensures |visited| == |before| == |flipped| && 0 <= queue[0] < |visited| && visited[queue[0]]
    ensures forall f :: 0 <= f < |before| && before[f] ==> visited[f]
    ensures forall i :: 0 <= i < |queue| ==> 0 <= queue[i] < |flipped|
    ensures forall i, j :: 0 <= i < j < |queue| ==> queue[i] != queue[j]
  {
  }

  method InvertFaces(flipped: array<bool>, queue: seq<int>)
    requires forall i :: 0 <= i < |queue| ==> 0 <= queue[i] < flipped.Length
    requires forall i, j :: 0 <= i < j < |queue| ==> queue[i] != queue[j]
    modifies flipped
    ensures flipped[..] == FlipAll(old(flipped[..]), queue)
  {
    ghost var before := flipped[..];
    assert queue[..0] == [];
    for i := 0 to |queue|
      invariant flipped[..] == FlipAll(before, queue[..i])
    {
      assert queue[..i + 1] == queue[..i] + [queue[i]];
      assert queue[i] !in queue[..i];
      flipped[queue[i]] := !flipped[queue[i]];
    }
    assert queue[..|queue|] == queue;
  }

  /** The search over all components: it fails exactly when no orientation exists. */
  method Search(nb: seq<Neighbor>, n: nat, better: seq<bool>) returns (ok: bool, flipped: array<bool>)
    requires BothWays(nb) && |nb| == 3 * n && |better| == n
    ensures fresh(flipped) && flipped.Length == n
    ensures ok ==> Consistent(nb, flipped[..])
    ensures !ok ==> forall a: seq<bool> :: !Consistent(nb, a)
  {
    hide Finished, BothWays, Consistent;
    var visited := new bool[n](_ => false);
    flipped := new bool[n](_ => false);
    NoneFinished(nb, flipped[..], visited[..]);
    for seed := 0 to n
      invariant Finished(nb, flipped[..], visited[..]) && forall f :: 0 <= f < seed ==> visited[f]
    {
      if !visited[seed] {
        ok := SearchComponent(nb, visited, flipped, seed, better[seed]);
        if !ok {
          return;
        }
      }
    }
    AllFinished(nb, flipped[..], visited[..]);
    ok := true;
  }

  lemma NoneFinished(nb: seq<Neighbor>, flipped: seq<bool>, before: seq<bool>)
    requires |nb| == 3 * |flipped| && |before| == |flipped| && forall f :: 0 <= f < |before| ==> !before[f]
    ensures Finished(nb, flipped, before)
  {
  }

  lemma AllFinished(nb: seq<Neighbor>, flipped: seq<bool>, before: seq<bool>)
    requires Finished(nb, flipped, before) && forall f :: 0 <= f < |before| ==> before[f]
    ensures Consistent(nb, flipped)
  {
    forall s | 0 <= s < |nb|
      ensures SlotAgrees(nb, flipped, s)
    {
      assert SlotDone(nb, before, flipped, s);
    }
  }

  // ---- the result -------------------------------------------------------------------------------

  /** canonicalizeEdgebreakerFaceOrientations, with any outcome of the sort and of the
      component comparisons: it succeeds exactly when no edge has three uses and some set of
      flips makes every shared edge run in opposite directions; each face is kept or flipped. */
  method OrientFaces(faces: seq<Face>, numVertices: nat, order: seq<int>, better: seq<bool>)
    returns (ok: bool, result: seq<Face>, ghost flip: seq<bool>)
    requires SortedSlots(faces, order) && |better| == |faces|
    ensures ok <==> AtMostTwo(faces) && exists a :: Oriented(faces, a)
    ensures ok ==> Oriented(faces, flip) && result == Flipped(faces, flip)
  {
    hide AtMostTwo, NeighborsOk, Oriented, Consistent, SortedSlots, BothWays;
    result, flip := faces, [];
    var neighbors;
    ok, neighbors := BuildNeighbors(faces, numVertices, order);
    if !ok {
      return;
    }
    ghost var nb := neighbors[..];
    NeighborsBothWays(faces, nb);
    NeighborSize(faces, nb);
    var flipped;
    ok, flipped := Search(neighbors[..], |faces|, better);
    if !ok {
      forall a: seq<bool>
        ensures !Oriented(faces, a)
      {
        NotOriented(faces, nb, a);
      }
      return;
    }
    flip := flipped[..];
    ConsistentMeans(faces, nb, flip);
    for f := 0 to |faces|
      invariant |result| == |faces| && flipped[..] == flip
      invariant forall g :: 0 <= g < |faces| ==> result[g] == if g < f && flip[g] then Flip(faces[g]) else faces[g]
    {
      if flipped[f] {
        result := result[f := Flip(result[f])];
      }
    }
  }

  lemma NotOriented(faces: seq<Face>, nb: seq<Neighbor>, a: seq<bool>)
    requires NeighborsOk(faces, nb) && AtMostTwo(faces) && !Consistent(nb, a)
    ensures !Oriented(faces, a)
  {
    hide Consistent, AtMostTwo, NeighborsOk;
    if |a| == |faces| {
      ConsistentMeans(faces, nb, a);
    }
  }

  lemma NeighborSize(faces: seq<Face>, nb: seq<Neighbor>)
    requires NeighborsOk(faces, nb)
    ensures |nb| == 3 * |faces|
  {
  }
}
