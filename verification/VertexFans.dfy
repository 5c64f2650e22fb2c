/** Splitting of non-manifold vertices (edgebreaker_encode.go): every fan of corners joined by
    swings gets a vertex of its own and a stored corner at its left end. */
module VertexFans {
  import opened Corners
  import opened CornerTables

  // ---- fans as sets ---------------------------------------------------------------------------

  lemma MatchingSize(opp: seq<int>)
    requires Matching(opp)
    ensures |opp| % 3 == 0 && InRange(opp)
  {
  }

  ghost predicate StaysIn(opp: seq<int>, fan: set<int>, c: int)
    requires |opp| % 3 == 0
  {
    0 <= c < |opp| && (SwingRight(opp, c) >= 0 ==> SwingRight(opp, c) in fan) && (SwingLeft(opp, c) >= 0 ==> SwingLeft(opp, c) in fan)
  }

  ghost predicate SwingClosed(opp: seq<int>, fan: set<int>)
    requires Matching(opp)
  {
    forall c :: c in fan ==> StaysIn(opp, fan, c)
  }

  ghost function Elements(walk: seq<int>): set<int>
  {
    set x | x in walk
  }

  /** A left walk that comes back is a whole fan without a left end. */
  lemma CycleClosed(opp: seq<int>, walk: seq<int>)
    requires Matching(opp) && LeftWalk(opp, walk) && SwingLeft(opp, walk[|walk| - 1]) == walk[0]
    ensures SwingClosed(opp, Elements(walk))
    ensures forall c :: c in Elements(walk) ==> SwingLeft(opp, c) >= 0
  {
    hide Matching, SwingLeft, SwingRight;
    MatchingSize(opp);
    forall c | c in Elements(walk)
      ensures 0 <= c < |opp| && (SwingRight(opp, c) >= 0 ==> SwingRight(opp, c) in walk) && 0 <= SwingLeft(opp, c) && SwingLeft(opp, c) in walk
    {
      var i :| 0 <= i < |walk| && walk[i] == c;
      var j := if i == 0 then |walk| - 1 else i - 1;
      SwingInverse(opp, c);
      SwingInverse(opp, walk[j]);
      assert SwingLeft(opp, walk[j]) == c;
      assert i < |walk| - 1 ==> SwingLeft(opp, walk[i]) == walk[i + 1];
    }
  }

  /** An ended left walk and an ended right walk from one corner make up a whole fan. */
  lemma WalksClosed(opp: seq<int>, left: seq<int>, right: seq<int>)
    requires Matching(opp) && LeftWalk(opp, left) && RightWalk(opp, right) && left[0] == right[0]
    requires SwingLeft(opp, left[|left| - 1]) < 0 && SwingRight(opp, right[|right| - 1]) < 0
    ensures SwingClosed(opp, Elements(left) + Elements(right))
  {
    hide Matching, SwingLeft, SwingRight;
    MatchingSize(opp);
    var fan := Elements(left) + Elements(right);
    forall c | c in fan
      ensures 0 <= c < |opp| && (SwingRight(opp, c) >= 0 ==> SwingRight(opp, c) in fan) && (SwingLeft(opp, c) >= 0 ==> SwingLeft(opp, c) in fan)
    {
      if c in left {
        var i :| 0 <= i < |left| && left[i] == c;
        LeftNeighbours(opp, left, right, i);
      } else {
        var i :| 0 <= i < |right| && right[i] == c;
        RightNeighbours(opp, left, right, i);
      }
    }
  }

  lemma LeftNeighbours(opp: seq<int>, left: seq<int>, right: seq<int>, i: nat)
    requires Matching(opp) && LeftWalk(opp, left) && RightWalk(opp, right) && left[0] == right[0] && i < |left|
    requires SwingLeft(opp, left[|left| - 1]) < 0 && SwingRight(opp, right[|right| - 1]) < 0
    ensures SwingRight(opp, left[i]) < 0 || SwingRight(opp, left[i]) in left || SwingRight(opp, left[i]) in right
    ensures SwingLeft(opp, left[i]) < 0 || SwingLeft(opp, left[i]) in left
  {
    hide Matching, SwingLeft, SwingRight;
    MatchingSize(opp);
    if i > 0 {
      SwingInverse(opp, left[i - 1]);
      assert SwingLeft(opp, left[i - 1]) == left[i - 1 + 1];
    } else if |right| > 1 {
      assert SwingRight(opp, right[0]) == right[0 + 1];
    }
    if i < |left| - 1 {
      assert SwingLeft(opp, left[i]) == left[i + 1];
    }
  }

  lemma RightNeighbours(opp: seq<int>, left: seq<int>, right: seq<int>, i: nat)
    requires Matching(opp) && LeftWalk(opp, left) && RightWalk(opp, right) && left[0] == right[0] && i < |right|
    requires SwingLeft(opp, left[|left| - 1]) < 0 && SwingRight(opp, right[|right| - 1]) < 0
    ensures SwingLeft(opp, right[i]) < 0 || SwingLeft(opp, right[i]) in left || SwingLeft(opp, right[i]) in right
    ensures SwingRight(opp, right[i]) < 0 || SwingRight(opp, right[i]) in right
  {
    hide Matching, SwingLeft, SwingRight;
    MatchingSize(opp);
    if i > 0 {
      SwingInverse(opp, right[i - 1]);
      assert SwingRight(opp, right[i - 1]) == right[i - 1 + 1];
    } else if |left| > 1 {
      assert SwingLeft(opp, left[0]) == left[0 + 1];
    }
    if i < |right| - 1 {
      assert SwingRight(opp, right[i]) == right[i + 1];
    }
  }

  /** Swings never leave a closed set. */
  lemma {:induction false} WalkStays(opp: seq<int>, left: seq<int>, fan: set<int>, i: nat)
    requires Matching(opp) && LeftWalk(opp, left) && SwingClosed(opp, fan) && left[0] in fan && i < |left|
    ensures left[i] in fan
    decreases i
  {
    if i > 0 {
      WalkStays(opp, left, fan, i - 1);
      assert SwingLeft(opp, left[i - 1]) == left[i - 1 + 1];
    }
  }

  /** After a left walk that ended, the right walk cannot come back: it ends too. */
  lemma NoReturn(opp: seq<int>, left: seq<int>, right: seq<int>)
    requires Matching(opp) && LeftWalk(opp, left) && RightWalk(opp, right) && left[0] == right[0]
    requires SwingLeft(opp, left[|left| - 1]) < 0
    ensures SwingRight(opp, right[|right| - 1]) != right[0]
  {
    hide Matching;
    MatchingSize(opp);
    if SwingRight(opp, right[|right| - 1]) == right[0] {
      RightCycleClosed(opp, right);
      WalkStays(opp, left, Elements(right), |left| - 1);
    }
  }

  lemma RightCycleClosed(opp: seq<int>, walk: seq<int>)
    requires Matching(opp) && RightWalk(opp, walk) && SwingRight(opp, walk[|walk| - 1]) == walk[0]
    ensures SwingClosed(opp, Elements(walk))
    ensures forall c :: c in Elements(walk) ==> SwingLeft(opp, c) >= 0
  {
    hide Matching, SwingLeft, SwingRight;
    MatchingSize(opp);
    forall c | c in Elements(walk)
      ensures 0 <= c < |opp| && SwingRight(opp, c) in walk && 0 <= SwingLeft(opp, c) && SwingLeft(opp, c) in walk
    {
      var i :| 0 <= i < |walk| && walk[i] == c;
      var j := if i == 0 then |walk| - 1 else i - 1;
      SwingInverse(opp, c);
      SwingInverse(opp, walk[j]);
      assert SwingRight(opp, walk[j]) == c;
      assert i < |walk| - 1 ==> SwingRight(opp, walk[i]) == walk[i + 1];
    }
  }

  // ---- one fan --------------------------------------------------------------------------------

  /** A whole fan with one of its corners and a left end, if it has any. */
  ghost predicate IsFan(opp: seq<int>, fan: set<int>, corner: int, leftEnd: int)
    requires Matching(opp)
  {
    SwingClosed(opp, fan) && corner in fan && leftEnd in fan &&
    (forall c :: c in fan ==> Linked(opp, corner, c)) &&
    (SwingLeft(opp, leftEnd) < 0 || forall c :: c in fan ==> SwingLeft(opp, c) >= 0)
  }

  function Mark(seen: seq<bool>, fan: set<int>): (r: seq<bool>)
    ensures |r| == |seen| && forall c :: 0 <= c < |seen| ==> r[c] == (seen[c] || c in fan)
  {
    seq(|seen|, c requires 0 <= c < |seen| => seen[c] || c in fan)
  }

  function Rename(vertex: seq<int>, fan: set<int>, v: int): (r: seq<int>)
    ensures |r| == |vertex| && forall c :: 0 <= c < |vertex| ==> r[c] == if c in fan then v else vertex[c]
  {
    seq(|vertex|, c requires 0 <= c < |vertex| => if c in fan then v else vertex[c])
  }

  /** The leftward half: marks and renames, remembering the last corner. */
  method WalkLeft(table: CornerTable, seen: array<bool>, corner: nat, vertex: nat, rename: bool)
    returns (closed: bool, ghost walk: seq<int>)
    requires table.Separate() && Matching(table.opposite[..]) && corner < seen.Length == table.opposite.Length == table.cornerVertex.Length
    requires vertex < table.vertexCorners.Length
    modifies seen, table.cornerVertex, table.vertexCorners
    ensures Matching(old(table.opposite[..])) && table.opposite[..] == old(table.opposite[..])
    ensures LeftWalk(table.opposite[..], walk) && walk[0] == corner
    ensures SwingLeft(table.opposite[..], walk[|walk| - 1]) == if closed then corner else -1
    ensures seen[..] == Mark(old(seen[..]), Elements(walk))
    ensures table.cornerVertex[..] == if rename then Rename(old(table.cornerVertex[..]), Elements(walk), vertex) else old(table.cornerVertex[..])
    ensures table.vertexCorners[..] == old(table.vertexCorners[..])[vertex := walk[|walk| - 1]]
  {
    hide Matching, SwingLeft, SwingRight, Elements, Mark, Rename;
    ghost var opp, seen0, vertex0, left0 := table.opposite[..], seen[..], table.cornerVertex[..], table.vertexCorners[..];
    closed, walk := false, [corner];
    var active := corner as int;
    WalkStart(opp, seen0, vertex0, corner, vertex);
    MatchingSize(opp);
    while true
      invariant LeftWalk(opp, walk) && walk[0] == corner && walk[|walk| - 1] == active && 0 <= active < |opp|
      invariant seen[..] == Mark(seen0, Elements(walk[..|walk| - 1]))
      invariant table.cornerVertex[..] == if rename then Rename(vertex0, Elements(walk[..|walk| - 1]), vertex) else vertex0
      invariant table.vertexCorners[..] == left0 || table.vertexCorners[..] == left0[vertex := table.vertexCorners[vertex]]
      decreases |opp| - |walk|
    {
      LastMark(seen0, vertex0, walk, vertex);
      seen[active] := true;
      table.vertexCorners[vertex] := active;
      if rename {
        table.cornerVertex[active] := vertex;
      }
      SwingInverse(opp, active);
      var next := SwingLeft(table.opposite[..], active);
      if next < 0 {
        SwingNegative(opp, active);
        return;
      }
      if next == corner {
        closed := true;
        return;
      }
      LeftWalkOn(opp, walk, next);
      walk := walk + [next];
      assert walk[..|walk| - 1] == walk[..|walk| - 1];
      active := next;
    }
  }

  lemma WalkStart(opp: seq<int>, seen: seq<bool>, vertex: seq<int>, corner: nat, v: int)
    requires Matching(opp) && corner < |opp|
    ensures LeftWalk(opp, [corner]) && RightWalk(opp, [corner])
    ensures Mark(seen, Elements([])) == seen && Rename(vertex, Elements([]), v) == vertex
  {
  }

  lemma SwingNegative(opp: seq<int>, c: int)
    requires c < |opp| && |opp| % 3 == 0
    ensures SwingLeft(opp, c) < 0 ==> SwingLeft(opp, c) == -1
  {
  }

  /** The walk's last corner is marked last. */
  lemma LastMark(seen: seq<bool>, vertex: seq<int>, walk: seq<int>, v: int)
    requires walk != [] && 0 <= walk[|walk| - 1] < |seen| == |vertex|
    ensures var (before, c) := (walk[..|walk| - 1], walk[|walk| - 1]);
            Mark(seen, Elements(walk)) == Mark(seen, Elements(before))[c := true] &&
            Rename(vertex, Elements(walk), v) == Rename(vertex, Elements(before), v)[c := v]
  {
    var (before, c) := (walk[..|walk| - 1], walk[|walk| - 1]);
    assert walk == before + [c];
    assert Elements(walk) == Elements(before) + {c};
  }

  /** The rightward half, from the corner after the start on. */
  method WalkRight(table: CornerTable, seen: array<bool>, corner: nat, vertex: nat, rename: bool, ghost left: seq<int>)
    returns (ghost walk: seq<int>)
    requires table.Separate() && Matching(table.opposite[..]) && corner < seen.Length == table.opposite.Length == table.cornerVertex.Length
    requires LeftWalk(table.opposite[..], left) && left[0] == corner && SwingLeft(table.opposite[..], left[|left| - 1]) < 0
    modifies seen, table.cornerVertex
    ensures Matching(old(table.opposite[..])) && table.opposite[..] == old(table.opposite[..])
    ensures RightWalk(table.opposite[..], walk) && walk[0] == corner && SwingRight(table.opposite[..], walk[|walk| - 1]) < 0
    ensures seen[..] == Mark(old(seen[..]), Elements(walk[1..]))
    ensures table.cornerVertex[..] == if rename then Rename(old(table.cornerVertex[..]), Elements(walk[1..]), vertex) else old(table.cornerVertex[..])
  {
    hide Matching, SwingLeft, SwingRight, Elements, Mark, Rename;
    ghost var opp, seen0, vertex0 := table.opposite[..], seen[..], table.cornerVertex[..];
    walk := [corner];
    WalkStart(opp, seen0, vertex0, corner, vertex);
    MatchingSize(opp);
    assert walk[1..] == [];
    SwingInverse(opp, corner);
    var active := SwingRight(table.opposite[..], corner);
    while active >= 0
      invariant RightWalk(opp, walk) && walk[0] == corner && active == SwingRight(opp, walk[|walk| - 1]) < |opp|
      invariant seen[..] == Mark(seen0, Elements(walk[1..]))
      invariant table.cornerVertex[..] == if rename then Rename(vertex0, Elements(walk[1..]), vertex) else vertex0
      decreases |opp| - |walk|
    {
      NoReturn(opp, left, walk);
      RightWalkOn(opp, walk, active);
      walk := walk + [active];
      assert walk[1..][..|walk[1..]| - 1] == walk[..|walk| - 1][1..];
      LastMark(seen0, vertex0, walk[1..], vertex);
      seen[active] := true;
      if rename {
        table.cornerVertex[active] := vertex;
      }
      SwingInverse(opp, active);
      active := SwingRight(table.opposite[..], active);
    }
  }

  lemma MarkTwice(seen: seq<bool>, vertex: seq<int>, left: seq<int>, right: seq<int>, v: int)
    requires |seen| == |vertex| && left != [] && right != [] && left[0] == right[0]
    ensures Mark(Mark(seen, Elements(left)), Elements(right[1..])) == Mark(seen, Elements(left) + Elements(right))
    ensures Rename(Rename(vertex, Elements(left), v), Elements(right[1..]), v) == Rename(vertex, Elements(left) + Elements(right), v)
  {
    assert right == [right[0]] + right[1..];
    assert Elements(right) == {right[0]} + Elements(right[1..]);
  }

  lemma FanOfCycle(opp: seq<int>, walk: seq<int>)
    requires Matching(opp) && LeftWalk(opp, walk) && SwingLeft(opp, walk[|walk| - 1]) == walk[0]
    ensures IsFan(opp, Elements(walk), walk[0], walk[|walk| - 1])
  {
    CycleClosed(opp, walk);
    forall c | c in Elements(walk)
      ensures Linked(opp, walk[0], c)
    {
      var i :| 0 <= i < |walk| && walk[i] == c;
      LeftWalkLinked(opp, walk, i);
    }
  }

  lemma FanOfWalks(opp: seq<int>, left: seq<int>, right: seq<int>)
    requires Matching(opp) && LeftWalk(opp, left) && RightWalk(opp, right) && left[0] == right[0]
    requires SwingLeft(opp, left[|left| - 1]) < 0 && SwingRight(opp, right[|right| - 1]) < 0
    ensures IsFan(opp, Elements(left) + Elements(right), left[0], left[|left| - 1])
  {
    hide Matching, SwingLeft, SwingRight, Linked, SwingClosed;
    MatchingSize(opp);
    WalksClosed(opp, left, right);
    forall c | c in Elements(left) + Elements(right)
      ensures Linked(opp, left[0], c)
    {
      if c in left {
        var i :| 0 <= i < |left| && left[i] == c;
        LeftWalkLinked(opp, left, i);
      } else {
        var i :| 0 <= i < |right| && right[i] == c;
        RightWalkLinked(opp, right, i);
      }
    }
  }

  /** Visits a whole fan. */
  method SplitFan(table: CornerTable, seen: array<bool>, corner: nat, vertex: nat, rename: bool) returns (ghost fan: set<int>)
    requires table.Separate() && Matching(table.opposite[..]) && corner < seen.Length == table.opposite.Length == table.cornerVertex.Length
    requires vertex < table.vertexCorners.Length
    modifies seen, table.cornerVertex, table.vertexCorners
    ensures Matching(old(table.opposite[..])) && table.opposite[..] == old(table.opposite[..])
    ensures IsFan(table.opposite[..], fan, corner, table.vertexCorners[vertex])
    ensures seen[..] == Mark(old(seen[..]), fan)
    ensures table.cornerVertex[..] == if rename then Rename(old(table.cornerVertex[..]), fan, vertex) else old(table.cornerVertex[..])
    ensures table.vertexCorners[..] == old(table.vertexCorners[..])[vertex := table.vertexCorners[vertex]]
  {
    hide Matching, SwingLeft, SwingRight, Elements, Mark, Rename, IsFan, Distinct;
    ghost var opp, seen0, vertex0 := table.opposite[..], seen[..], table.cornerVertex[..];
    var closed;
    ghost var left;
    closed, left := WalkLeft(table, seen, corner, vertex, rename);
    if closed {
      FanOfCycle(opp, left);
      return Elements(left);
    }
    ghost var right := WalkRight(table, seen, corner, vertex, rename, left);
    FanOfWalks(opp, left, right);
    MarkTwice(seen0, vertex0, left, right, vertex);
    fan := Elements(left) + Elements(right);
  }

  // ---- all fans -------------------------------------------------------------------------------

  /** The loop's state: opp and vertex0 are fixed, fans already visited have their vertices. */
  datatype Splitting = Splitting(vertex: seq<int>, leftMost: seq<int>, seenVertex: seq<bool>, seenCorner: seq<bool>, count: nat)

  ghost predicate Sizes(opp: seq<int>, vertex0: seq<int>, n: nat, s: Splitting)
  {
    |vertex0| == |s.vertex| == |s.seenCorner| == |opp| && |s.leftMost| == |s.seenVertex| && n <= s.count <= |s.leftMost| &&
    forall c :: 0 <= c < |opp| ==> 0 <= vertex0[c] < n
  }

  /** A visited corner: labelled, its fan visited and equally labelled, its stored corner found. */
  ghost predicate Done(opp: seq<int>, vertex0: seq<int>, n: nat, s: Splitting, c: nat)
    requires Matching(opp) && Sizes(opp, vertex0, n, s) && c < |opp|
  {
    var v := s.vertex[c];
    0 <= v < s.count && s.seenVertex[v] && s.seenVertex[vertex0[c]] && (v == vertex0[c] || v >= n) &&
    (forall d :: Adjacent(opp, c, d) ==> s.seenCorner[d] && s.vertex[d] == v) &&
    0 <= s.leftMost[v] < |opp| && s.seenCorner[s.leftMost[v]] && s.vertex[s.leftMost[v]] == v &&
    (SwingLeft(opp, c) < 0 ==> SwingLeft(opp, s.leftMost[v]) < 0)
  }

  ghost predicate SplitInv(opp: seq<int>, vertex0: seq<int>, n: nat, s: Splitting)
    requires Matching(opp)
  {
    Sizes(opp, vertex0, n, s) &&
    (forall c :: 0 <= c < |opp| && !s.seenCorner[c] ==> s.vertex[c] == vertex0[c]) &&
    (forall c :: 0 <= c < |opp| && s.seenCorner[c] ==> Done(opp, vertex0, n, s, c)) &&
    (forall c, d :: 0 <= c < |opp| && 0 <= d < |opp| && s.seenCorner[c] && s.seenCorner[d] && s.vertex[c] == s.vertex[d] ==>
      Linked(opp, c, d)) &&
    (forall v :: 0 <= v < |s.seenVertex| && s.seenVertex[v] ==>
      v < s.count && 0 <= s.leftMost[v] < |opp| && s.seenCorner[s.leftMost[v]] && s.vertex[s.leftMost[v]] == v) &&
    forall v :: 0 <= v < |s.seenVertex| && !s.seenVertex[v] ==> s.leftMost[v] == -1
  }

  /** Visited corners form whole fans, so a fan of an unvisited corner is unvisited. */
  lemma FanUnseen(opp: seq<int>, vertex0: seq<int>, n: nat, s: Splitting, corner: nat, c: int)
    requires Matching(opp) && SplitInv(opp, vertex0, n, s) && corner < |opp| && !s.seenCorner[corner]
    requires Linked(opp, corner, c)
    ensures 0 <= c < |opp| && !s.seenCorner[c]
  {
    hide Linked, Matching;
    MatchingSize(opp);
    var mark := seq(|opp|, x requires 0 <= x < |opp| => if s.seenCorner[x] then 1 else 0);
    forall x | 0 <= x < |opp| && SwingRight(opp, x) >= 0
      ensures SwingRight(opp, x) < |opp| && mark[SwingRight(opp, x)] == mark[x]
    {
      SwingInverse(opp, x);
      var y := SwingRight(opp, x);
      assert Adjacent(opp, x, y) && Adjacent(opp, y, x);
      assert s.seenCorner[x] ==> Done(opp, vertex0, n, s, x);
      assert s.seenCorner[y] ==> Done(opp, vertex0, n, s, y);
    }
    ConstantOnFans(opp, mark, corner, c);
  }

  /** The state after one more fan. */
  function AddFan(s: Splitting, fan: set<int>, v: nat, leftEnd: int): Splitting
    requires v < |s.leftMost| && v < |s.seenVertex|
  {
    Splitting(Rename(s.vertex, fan, v), s.leftMost[v := leftEnd], s.seenVertex[v := true], Mark(s.seenCorner, fan),
              if v == s.count then s.count + 1 else s.count)
  }

  /** The vertex a new fan gets: its own, or a new one if its own is taken. */
  ghost predicate NewVertex(vertex0: seq<int>, s: Splitting, corner: nat, v: nat)
  {
    corner < |vertex0| && 0 <= vertex0[corner] < |s.seenVertex| &&
    (if s.seenVertex[vertex0[corner]] then v == s.count < |s.leftMost| else v == vertex0[corner])
  }

  lemma SplitStep(opp: seq<int>, vertex0: seq<int>, n: nat, s: Splitting, corner: nat, v: nat, fan: set<int>, leftEnd: int)
    requires Matching(opp) && SplitInv(opp, vertex0, n, s) && corner < |opp| && !s.seenCorner[corner]
    requires NewVertex(vertex0, s, corner, v) && IsFan(opp, fan, corner, leftEnd)
    requires EdgesAgree(opp, vertex0)
    ensures v < |s.leftMost| && SplitInv(opp, vertex0, n, AddFan(s, fan, v, leftEnd))
    ensures !s.seenVertex[vertex0[corner]] ==> Rename(s.vertex, fan, v) == s.vertex
  {
    hide Linked, Matching, SwingLeft, SwingRight, Done, StaysIn, EdgesAgree;
    MatchingSize(opp);
    AgreeingSwings(opp, vertex0);
    var r := AddFan(s, fan, v, leftEnd);
    forall c | c in fan
      ensures 0 <= c < |opp| && !s.seenCorner[c] && s.vertex[c] == vertex0[c] == vertex0[corner]
    {
      FanUnseen(opp, vertex0, n, s, corner, c);
      ConstantOnFans(opp, vertex0, corner, c);
    }
    assert !s.seenVertex[v];
    OldLabels(opp, vertex0, n, s, v);
    forall c | 0 <= c < |opp| && r.seenCorner[c]
      ensures Done(opp, vertex0, n, r, c)
    {
      if c in fan {
        FanDone(opp, vertex0, n, s, corner, v, fan, leftEnd, c);
      } else {
        OldDone(opp, vertex0, n, s, v, fan, leftEnd, c);
      }
    }
    forall c, d | 0 <= c < |opp| && 0 <= d < |opp| && r.seenCorner[c] && r.seenCorner[d] && r.vertex[c] == r.vertex[d]
      ensures Linked(opp, c, d)
    {
      if c in fan && d in fan {
        LinkedSymm(opp, corner, c);
        LinkedTrans(opp, c, corner, d);
      }
    }
  }

  lemma OldLabels(opp: seq<int>, vertex0: seq<int>, n: nat, s: Splitting, v: nat)
    requires Matching(opp) && SplitInv(opp, vertex0, n, s) && v < |s.seenVertex| && !s.seenVertex[v]
    ensures forall c :: 0 <= c < |opp| && s.seenCorner[c] ==> s.vertex[c] != v
  {
    hide Linked, Matching;
    forall c | 0 <= c < |opp| && s.seenCorner[c]
      ensures s.vertex[c] != v
    {
      assert Done(opp, vertex0, n, s, c);
    }
  }

  lemma OldDone(opp: seq<int>, vertex0: seq<int>, n: nat, s: Splitting, v: nat, fan: set<int>, leftEnd: int, c: nat)
    requires Matching(opp) && Sizes(opp, vertex0, n, s) && c < |opp| && s.seenCorner[c] && Done(opp, vertex0, n, s, c)
    requires v <= s.count && v < |s.leftMost| && s.vertex[c] != v
    requires forall d :: d in fan ==> 0 <= d < |opp| && !s.seenCorner[d]
    ensures Sizes(opp, vertex0, n, AddFan(s, fan, v, leftEnd)) && Done(opp, vertex0, n, AddFan(s, fan, v, leftEnd), c)
  {
    hide Linked, Matching, SwingLeft, SwingRight;
    MatchingSize(opp);
  }

  lemma FanDone(opp: seq<int>, vertex0: seq<int>, n: nat, s: Splitting, corner: nat, v: nat, fan: set<int>, leftEnd: int, c: int)
    requires Matching(opp) && Sizes(opp, vertex0, n, s) && IsFan(opp, fan, corner, leftEnd) && c in fan && 0 <= c < |opp|
    requires v <= s.count && v < |s.leftMost| && (v == vertex0[c] || (v >= n && s.seenVertex[vertex0[c]]))
    requires forall d :: d in fan ==> 0 <= d < |opp|
    ensures Sizes(opp, vertex0, n, AddFan(s, fan, v, leftEnd)) && Done(opp, vertex0, n, AddFan(s, fan, v, leftEnd), c)
  {
    hide Linked, Matching, SwingLeft, SwingRight;
    MatchingSize(opp);
    forall d | Adjacent(opp, c, d)
      ensures d in fan
    {
      assert StaysIn(opp, fan, c);
      SwingInverse(opp, c);
      SwingInverse(opp, d);
    }
  }

  // ---- the result -----------------------------------------------------------------------------

  /** Vertices are exactly fans; each fan's stored corner lies on it, at the left end when it
      has one; corners keep their vertex or get one above the old ones; corners that share a
      vertex shared one before; glued edges still agree. */
  ghost predicate FansSplit(opp: seq<int>, vertex0: seq<int>, n: nat, vertex: seq<int>, leftMost: seq<int>, count: nat)
    requires Matching(opp)
  {
    |vertex0| == |vertex| == |opp| && n <= count <= |leftMost| && EdgesAgree(opp, vertex) &&
    (forall c :: 0 <= c < |opp| ==> 0 <= vertex[c] < count && (vertex[c] == vertex0[c] || vertex[c] >= n)) &&
    (forall c, d :: 0 <= c < |opp| && 0 <= d < |opp| ==> (vertex[c] == vertex[d] <==> Linked(opp, c, d))) &&
    (forall c, d :: 0 <= c < |opp| && 0 <= d < |opp| && vertex[c] == vertex[d] ==> vertex0[c] == vertex0[d]) &&
    (forall c :: 0 <= c < |opp| ==> StoredAtLeftEnd(opp, vertex, leftMost, c)) &&
    forall v :: 0 <= v < |leftMost| ==> leftMost[v] == -1 || (0 <= leftMost[v] < |opp| && vertex[leftMost[v]] == v)
  }

  ghost predicate StoredAtLeftEnd(opp: seq<int>, vertex: seq<int>, leftMost: seq<int>, c: nat)
    requires Matching(opp) && |vertex| == |opp| && c < |opp| && 0 <= vertex[c] < |leftMost|
  {
    var l := leftMost[vertex[c]];
    0 <= l < |opp| && vertex[l] == vertex[c] && (SwingLeft(opp, c) < 0 ==> SwingLeft(opp, l) < 0)
  }

  lemma SplitDone(opp: seq<int>, vertex0: seq<int>, n: nat, s: Splitting)
    requires Matching(opp) && SplitInv(opp, vertex0, n, s) && EdgesAgree(opp, vertex0)
    requires forall c :: 0 <= c < |opp| ==> s.seenCorner[c]
    ensures FansSplit(opp, vertex0, n, s.vertex, s.leftMost, s.count)
  {
    hide Linked, Matching, SwingLeft, SwingRight, Done, EdgesAgree;
    MatchingSize(opp);
    AgreeingSwings(opp, vertex0);
    AllDone(opp, vertex0, n, s);
    SwingsAgree(opp, s.vertex);
    forall c, d | 0 <= c < |opp| && 0 <= d < |opp|
      ensures s.vertex[c] == s.vertex[d] <==> Linked(opp, c, d)
      ensures s.vertex[c] == s.vertex[d] ==> vertex0[c] == vertex0[d]
    {
      if Linked(opp, c, d) {
        ConstantOnFans(opp, s.vertex, c, d);
        ConstantOnFans(opp, vertex0, c, d);
      }
    }
  }

  lemma AllDone(opp: seq<int>, vertex0: seq<int>, n: nat, s: Splitting)
    requires Matching(opp) && SplitInv(opp, vertex0, n, s) && forall c :: 0 <= c < |opp| ==> s.seenCorner[c]
    ensures InRange(opp) && ConstantOnSwings(opp, s.vertex)
    ensures forall c :: 0 <= c < |opp| ==> 0 <= s.vertex[c] < s.count && (s.vertex[c] == vertex0[c] || s.vertex[c] >= n)
    ensures forall c :: 0 <= c < |opp| ==> StoredAtLeftEnd(opp, s.vertex, s.leftMost, c)
  {
    hide Linked, Matching, SwingLeft, SwingRight;
    MatchingSize(opp);
    forall c | 0 <= c < |opp|
      ensures Done(opp, vertex0, n, s, c)
    {
    }
    forall c | 0 <= c < |opp| && SwingRight(opp, c) >= 0
      ensures SwingRight(opp, c) < |opp| && s.vertex[SwingRight(opp, c)] == s.vertex[c]
    {
      SwingInverse(opp, c);
      assert Done(opp, vertex0, n, s, c) && Adjacent(opp, c, SwingRight(opp, c));
    }
  }

  ghost predicate AllUsed(vertex0: seq<int>, n: nat)
  {
    forall v :: 0 <= v < n ==> v in vertex0
  }

  /** Every vertex is used, so distinct corners stand for all vertices handed out so far, and
      for the next fan there is always an id left. */
  lemma IdsSuffice(opp: seq<int>, vertex0: seq<int>, n: nat, s: Splitting, corner: nat)
    requires Matching(opp) && SplitInv(opp, vertex0, n, s) && corner < |opp| && !s.seenCorner[corner]
    requires s.seenVertex[vertex0[corner]] && |opp| <= |s.leftMost|
    requires AllUsed(vertex0, n)
    requires forall v :: n <= v < s.count ==> s.seenVertex[v]
    ensures s.count < |s.leftMost|
  {
    hide Linked, Matching, Done;
    var reps := seq(s.count, v requires 0 <= v < s.count => Representative(vertex0, n, s, v));
    forall v | 0 <= v < s.count
      ensures 0 <= reps[v] < |opp| && reps[v] != corner && s.vertex[reps[v]] == v
    {
      RepresentativeOk(opp, vertex0, n, s, corner, v);
    }
    var all := reps + [corner as int];
    assert Distinct(all, |opp|);
    DistinctBound(all, |opp|);
  }

  ghost function Representative(vertex0: seq<int>, n: nat, s: Splitting, v: nat): int
    requires v < |s.seenVertex| == |s.leftMost|
  {
    if s.seenVertex[v] then s.leftMost[v]
    else if v in vertex0 then var c :| 0 <= c < |vertex0| && vertex0[c] == v; c
    else 0
  }

  lemma RepresentativeOk(opp: seq<int>, vertex0: seq<int>, n: nat, s: Splitting, corner: nat, v: nat)
    requires Matching(opp) && SplitInv(opp, vertex0, n, s) && corner < |opp| && !s.seenCorner[corner]
    requires s.seenVertex[vertex0[corner]] && v < s.count && (v < n ==> v in vertex0) && (v >= n ==> s.seenVertex[v])
    ensures var r := Representative(vertex0, n, s, v);
            0 <= r < |opp| && r != corner && s.vertex[r] == v
  {
    hide Linked, Matching;
    var r := Representative(vertex0, n, s, v);
    if !s.seenVertex[v] {
      assert s.seenCorner[r] ==> Done(opp, vertex0, n, s, r);
    }
  }

  // ---- how many ids are needed ----------------------------------------------------------------------

  ghost predicate FirstOfFan(opp: seq<int>, c: nat)
    requires Matching(opp)
  {
    forall d :: 0 <= d < c ==> !Linked(opp, d, c)
  }

  predicate FirstOfVertex(vertex: seq<int>, c: nat)
    requires c < |vertex|
  {
    vertex[c] !in vertex[..c]
  }

  /** Fans among the first k corners. */
  ghost function Fans(opp: seq<int>, k: nat): nat
    requires Matching(opp)
  {
    if k == 0 then 0 else Fans(opp, k - 1) + if FirstOfFan(opp, k - 1) then 1 else 0
  }

  /** Vertices used by the first k corners. */
  function Used(vertex: seq<int>, k: nat): nat
    requires k <= |vertex|
  {
    if k == 0 then 0 else Used(vertex, k - 1) + if FirstOfVertex(vertex, k - 1) then 1 else 0
  }

  /** A vertex's first corner is its fan's first, so later corners never need fewer ids. */
  lemma {:induction false} FansGrow(opp: seq<int>, vertex: seq<int>, k: nat, m: nat)
    requires Matching(opp) && |vertex| == |opp| && EdgesAgree(opp, vertex) && k <= m <= |opp|
    ensures Fans(opp, k) - Used(vertex, k) <= Fans(opp, m) - Used(vertex, m)
    decreases m
  {
    hide Linked, Matching;
    if k < m {
      FansGrow(opp, vertex, k, m - 1);
      if FirstOfVertex(vertex, m - 1) {
        FirstIsFirst(opp, vertex, m - 1);
      }
    }
  }

  lemma FirstIsFirst(opp: seq<int>, vertex: seq<int>, c: nat)
    requires Matching(opp) && |vertex| == |opp| && EdgesAgree(opp, vertex) && c < |opp| && FirstOfVertex(vertex, c)
    ensures FirstOfFan(opp, c)
  {
    hide Linked, Matching;
    MatchingSize(opp);
    AgreeingSwings(opp, vertex);
    forall d | 0 <= d < c
      ensures !Linked(opp, d, c)
    {
      assert vertex[d] in vertex[..c];
      if Linked(opp, d, c) {
        ConstantOnFans(opp, vertex, d, c);
      }
    }
  }

  /** Every fan but the first of each used vertex takes an id above the old ones. */
  ghost predicate IdsFit(opp: seq<int>, vertex: seq<int>, n: nat, maxVertices: nat)
    requires Matching(opp) && |vertex| == |opp|
  {
    n + Fans(opp, |opp|) - Used(vertex, |vertex|) <= maxVertices
  }

  /** The label of a fan, told at its first corner: the vertex's first fan keeps its number, the others get
      numbers from n on in their order. */
  ghost function FanLabel(opp: seq<int>, vertex: seq<int>, n: nat, c: nat): int
    requires Matching(opp) && |vertex| == |opp| && c < |opp|
  {
    if FirstOfVertex(vertex, c) then vertex[c] else n + Fans(opp, c) - Used(vertex, c)
  }

  ghost predicate LabelsTo(opp: seq<int>, vertex0: seq<int>, n: nat, vertex: seq<int>, k: nat)
    requires Matching(opp) && |vertex0| == |opp| && k <= |opp|
  {
    |vertex| == |opp| && forall c :: 0 <= c < k && FirstOfFan(opp, c) ==> vertex[c] == FanLabel(opp, vertex0, n, c)
  }

  /** When the first k corners have been visited: which corners and vertices have been seen, and how
      many ids have been handed out. */
  ghost predicate Visited(opp: seq<int>, vertex0: seq<int>, n: nat, s: Splitting, k: nat)
    requires Matching(opp) && k <= |opp|
  {
    Sizes(opp, vertex0, n, s) && s.count == n + Fans(opp, k) - Used(vertex0, k) && LabelsTo(opp, vertex0, n, s.vertex, k) &&
    (forall c :: 0 <= c < k ==> s.seenCorner[c]) &&
    (forall c :: 0 <= c < |opp| && s.seenCorner[c] ==> exists d :: 0 <= d < k && Linked(opp, d, c)) &&
    forall v :: 0 <= v < n ==> (s.seenVertex[v] <==> v in vertex0[..k])
  }

  /** A corner that has been seen already is first of nothing. */
  lemma VisitedSeen(opp: seq<int>, vertex0: seq<int>, n: nat, s: Splitting, k: nat)
    requires Matching(opp) && k < |opp| && |vertex0| == |opp| && EdgesAgree(opp, vertex0) && Visited(opp, vertex0, n, s, k) && s.seenCorner[k]
    ensures Visited(opp, vertex0, n, s, k + 1)
  {
    hide Linked, Matching;
    MatchingSize(opp);
    AgreeingSwings(opp, vertex0);
    var d :| 0 <= d < k && Linked(opp, d, k);
    ConstantOnFans(opp, vertex0, d, k);
    assert !FirstOfFan(opp, k);
    assert vertex0[d] in vertex0[..k] && vertex0[..k + 1] == vertex0[..k] + [vertex0[k]];
  }

  /** A corner that has not been seen starts a fan, and starts its vertex exactly when that has not
      been seen either. */
  lemma VisitedFresh(opp: seq<int>, vertex0: seq<int>, n: nat, s: Splitting, k: nat)
    requires Matching(opp) && k < |opp| && |vertex0| == |opp| && SplitInv(opp, vertex0, n, s) && Visited(opp, vertex0, n, s, k) && !s.seenCorner[k]
    ensures FirstOfFan(opp, k) && 0 <= vertex0[k] < n && (FirstOfVertex(vertex0, k) <==> !s.seenVertex[vertex0[k]])
  {
    hide Linked, Matching, Done;
    MatchingSize(opp);
    forall d | 0 <= d < k
      ensures !Linked(opp, d, k)
    {
      if Linked(opp, d, k) {
        LinkedSymm(opp, d, k);
        FanUnseen(opp, vertex0, n, s, k, d);
      }
    }
  }

  lemma VisitedNext(opp: seq<int>, vertex0: seq<int>, n: nat, s: Splitting, r: Splitting, k: nat)
    requires Matching(opp) && k < |opp| && |vertex0| == |opp| && Visited(opp, vertex0, n, s, k) && FirstOfFan(opp, k)
    requires 0 <= vertex0[k] < n && (FirstOfVertex(vertex0, k) <==> !s.seenVertex[vertex0[k]])
    requires Sizes(opp, vertex0, n, r) && r.seenCorner[k] && r.seenVertex[vertex0[k]]
    requires r.count == s.count + if s.seenVertex[vertex0[k]] then 1 else 0
    requires r.vertex[k] == if s.seenVertex[vertex0[k]] then s.count else vertex0[k]
    requires forall c :: 0 <= c < |opp| && s.seenCorner[c] ==> r.vertex[c] == s.vertex[c]
    requires forall c :: 0 <= c < |opp| ==> (s.seenCorner[c] ==> r.seenCorner[c]) && (r.seenCorner[c] ==> s.seenCorner[c] || Linked(opp, k, c))
    requires forall v :: 0 <= v < n ==> (s.seenVertex[v] ==> r.seenVertex[v]) && (r.seenVertex[v] ==> s.seenVertex[v] || v == vertex0[k])
    ensures Visited(opp, vertex0, n, r, k + 1)
  {
    hide Linked, Matching;
    MatchingSize(opp);
    assert vertex0[..k + 1] == vertex0[..k] + [vertex0[k]];
    forall c | 0 <= c < |opp| && r.seenCorner[c]
      ensures exists d :: 0 <= d < k + 1 && Linked(opp, d, c)
    {
      if s.seenCorner[c] {
        var d :| 0 <= d < k && Linked(opp, d, c);
      }
    }
  }

  /** computeEdgebreakerBaseVertexCorners.  It can only fail by running out of vertex ids, which
      cannot happen when every vertex is used and ids number at least the corners. */
  method ComputeVertexCorners(table: CornerTable, numVertices: nat) returns (ok: bool)
    requires table.Separate() && Matching(table.opposite[..]) && table.opposite.Length == table.cornerVertex.Length
    requires numVertices <= table.vertexCorners.Length
    requires forall c :: 0 <= c < table.cornerVertex.Length ==> 0 <= table.cornerVertex[c] < numVertices
    requires EdgesAgree(table.opposite[..], table.cornerVertex[..])
    modifies table, table.cornerVertex, table.vertexCorners
    ensures Matching(old(table.opposite[..])) && table.opposite[..] == old(table.opposite[..])
    ensures ok ==> FansSplit(table.opposite[..], old(table.cornerVertex[..]), numVertices, table.cornerVertex[..],
                             table.vertexCorners[..], table.numVertices)
    ensures !ok ==> table.numVertices == table.vertexCorners.Length
    ensures AllUsed(old(table.cornerVertex[..]), numVertices) && table.cornerVertex.Length <= table.vertexCorners.Length ==> ok
    ensures ok <==> IdsFit(table.opposite[..], old(table.cornerVertex[..]), numVertices, table.vertexCorners.Length)
    ensures ok ==> LabelsTo(table.opposite[..], old(table.cornerVertex[..]), numVertices, table.cornerVertex[..], table.opposite.Length)
  {
    hide Matching, EdgesAgree, SplitInv, FansSplit, IsFan, Mark, Rename, Linked, Visited, IdsFit, LabelsTo;
    ghost var opp, vertex0, n := table.opposite[..], table.cornerVertex[..], numVertices;
    for v := 0 to table.vertexCorners.Length
      invariant table.cornerVertex[..] == vertex0 && table.opposite[..] == opp
      invariant forall u :: 0 <= u < v ==> table.vertexCorners[u] == -1
    {
      table.vertexCorners[v] := -1;
    }
    table.numVertices := numVertices;
    var seenVertex := new bool[table.vertexCorners.Length](_ => false);
    var seenCorner := new bool[table.cornerVertex.Length](_ => false);
    ghost var used := AllUsed(vertex0, n) && table.cornerVertex.Length <= table.vertexCorners.Length;
    SplitStart(opp, vertex0, n, Splitting(vertex0, table.vertexCorners[..], seenVertex[..], seenCorner[..], n));
    NoneVisited(opp, vertex0, n, StateOf(table, seenVertex, seenCorner));
    for corner := 0 to table.cornerVertex.Length
      invariant table.opposite[..] == opp && Sizes(opp, vertex0, n, StateOf(table, seenVertex, seenCorner))
      invariant SplitInv(opp, vertex0, n, StateOf(table, seenVertex, seenCorner))
      invariant forall v :: n <= v < table.numVertices && v < seenVertex.Length ==> seenVertex[v]
      invariant Visited(opp, vertex0, n, StateOf(table, seenVertex, seenCorner), corner)
    {
      ok := VisitCorner(table, seenVertex, seenCorner, corner, vertex0, n);
      if !ok {
        if used {
          IdsSuffice(opp, vertex0, n, StateOf(table, seenVertex, seenCorner), corner);
        }
        return;
      }
    }
    AllVisited(opp, vertex0, n, StateOf(table, seenVertex, seenCorner));
    SplitDone(opp, vertex0, n, StateOf(table, seenVertex, seenCorner));
    IdsWereEnough(opp, vertex0, n, StateOf(table, seenVertex, seenCorner));
    ok := true;
  }

  /** One corner of the loop: its fan, unless it has been visited. */
  method VisitCorner(table: CornerTable, seenVertex: array<bool>, seenCorner: array<bool>, corner: nat, ghost vertex0: seq<int>, ghost n: nat)
    returns (ok: bool)
    requires table.Separate() && Matching(table.opposite[..]) && seenVertex != seenCorner && corner < table.cornerVertex.Length
    requires Sizes(table.opposite[..], vertex0, n, StateOf(table, seenVertex, seenCorner)) && EdgesAgree(table.opposite[..], vertex0)
    requires SplitInv(table.opposite[..], vertex0, n, StateOf(table, seenVertex, seenCorner))
    requires Visited(table.opposite[..], vertex0, n, StateOf(table, seenVertex, seenCorner), corner)
    requires forall v :: n <= v < table.numVertices && v < seenVertex.Length ==> seenVertex[v]
    modifies table, table.cornerVertex, table.vertexCorners, seenVertex, seenCorner
    ensures Matching(old(table.opposite[..])) && table.opposite[..] == old(table.opposite[..])
    ensures ok ==> SplitInv(table.opposite[..], vertex0, n, StateOf(table, seenVertex, seenCorner))
    ensures ok ==> Sizes(table.opposite[..], vertex0, n, StateOf(table, seenVertex, seenCorner))
    ensures ok ==> Visited(table.opposite[..], vertex0, n, StateOf(table, seenVertex, seenCorner), corner + 1)
    ensures ok ==> forall v :: n <= v < table.numVertices && v < seenVertex.Length ==> seenVertex[v]
    ensures !ok ==> StateOf(table, seenVertex, seenCorner) == old(StateOf(table, seenVertex, seenCorner))
    ensures !ok ==> table.numVertices == table.vertexCorners.Length && !seenCorner[corner] && seenVertex[vertex0[corner]] &&
                    !IdsFit(table.opposite[..], vertex0, n, table.vertexCorners.Length)
  {
    hide Matching, EdgesAgree, SplitInv, Linked, Visited, IdsFit, FirstOfFan, FirstOfVertex;
    ghost var opp, s := table.opposite[..], StateOf(table, seenVertex, seenCorner);
    if seenCorner[corner] {
      VisitedSeen(opp, vertex0, n, s, corner);
      return true;
    }
    VisitedFresh(opp, vertex0, n, s, corner);
    SplitFacts(opp, vertex0, n, s, corner);
    ok := NextFan(table, seenVertex, seenCorner, corner, vertex0, n);
    if !ok {
      IdsRunOut(opp, vertex0, n, s, corner);
      return;
    }
    SplitSizes(opp, vertex0, n, StateOf(table, seenVertex, seenCorner));
    VisitedNext(opp, vertex0, n, s, StateOf(table, seenVertex, seenCorner), corner);
  }

  lemma SplitSizes(opp: seq<int>, vertex0: seq<int>, n: nat, s: Splitting)
    requires Matching(opp) && SplitInv(opp, vertex0, n, s)
    ensures Sizes(opp, vertex0, n, s)
  {
  }

  lemma AllVisited(opp: seq<int>, vertex0: seq<int>, n: nat, s: Splitting)
    requires Matching(opp) && Visited(opp, vertex0, n, s, |opp|)
    ensures Sizes(opp, vertex0, n, s) && LabelsTo(opp, vertex0, n, s.vertex, |opp|) && forall c :: 0 <= c < |opp| ==> s.seenCorner[c]
  {
  }

  lemma NoneVisited(opp: seq<int>, vertex0: seq<int>, n: nat, s: Splitting)
    requires Matching(opp) && Sizes(opp, vertex0, n, s) && s.count == n
    requires (forall c :: 0 <= c < |s.seenCorner| ==> !s.seenCorner[c]) && forall v :: 0 <= v < |s.seenVertex| ==> !s.seenVertex[v]
    ensures Visited(opp, vertex0, n, s, 0)
  {
  }

  lemma IdsRunOut(opp: seq<int>, vertex0: seq<int>, n: nat, s: Splitting, k: nat)
    requires Matching(opp) && k < |opp| && |vertex0| == |opp| && EdgesAgree(opp, vertex0) && Visited(opp, vertex0, n, s, k)
    requires FirstOfFan(opp, k) && !FirstOfVertex(vertex0, k) && s.count == |s.leftMost|
    ensures !IdsFit(opp, vertex0, n, |s.leftMost|)
  {
    hide Linked, Matching, FirstOfFan, FirstOfVertex;
    FansGrow(opp, vertex0, k + 1, |opp|);
  }

  lemma IdsWereEnough(opp: seq<int>, vertex0: seq<int>, n: nat, s: Splitting)
    requires Matching(opp) && |vertex0| == |opp| && Visited(opp, vertex0, n, s, |opp|)
    ensures IdsFit(opp, vertex0, n, |s.leftMost|)
  {
  }

  ghost function StateOf(table: CornerTable, seenVertex: array<bool>, seenCorner: array<bool>): Splitting
    reads table.Repr(), seenVertex, seenCorner
  {
    Splitting(table.cornerVertex[..], table.vertexCorners[..], seenVertex[..], seenCorner[..], table.numVertices)
  }

  lemma SplitStart(opp: seq<int>, vertex0: seq<int>, n: nat, s: Splitting)
    requires Matching(opp) && Sizes(opp, vertex0, n, s) && s.vertex == vertex0 && s.count == n
    requires (forall c :: 0 <= c < |s.seenCorner| ==> !s.seenCorner[c])
    requires forall v :: 0 <= v < |s.seenVertex| ==> !s.seenVertex[v] && s.leftMost[v] == -1
    ensures SplitInv(opp, vertex0, n, s)
  {
  }

  lemma SplitFacts(opp: seq<int>, vertex0: seq<int>, n: nat, s: Splitting, corner: nat)
    requires Matching(opp) && SplitInv(opp, vertex0, n, s) && corner < |opp| && !s.seenCorner[corner]
    ensures Sizes(opp, vertex0, n, s) && s.vertex[corner] == vertex0[corner]
  {
  }

  /** The fan of an unvisited corner. */
  method NextFan(table: CornerTable, seenVertex: array<bool>, seenCorner: array<bool>, corner: nat, ghost vertex0: seq<int>, ghost n: nat)
    returns (ok: bool)
    requires table.Separate() && Matching(table.opposite[..]) && seenVertex != seenCorner
    requires Sizes(table.opposite[..], vertex0, n, StateOf(table, seenVertex, seenCorner)) && EdgesAgree(table.opposite[..], vertex0)
    requires SplitInv(table.opposite[..], vertex0, n, StateOf(table, seenVertex, seenCorner))
    requires corner < table.cornerVertex.Length && !seenCorner[corner] && table.cornerVertex[corner] == vertex0[corner]
    modifies table, table.cornerVertex, table.vertexCorners, seenVertex, seenCorner
    ensures Matching(old(table.opposite[..])) && table.opposite[..] == old(table.opposite[..])
    ensures ok ==> SplitInv(table.opposite[..], vertex0, n, StateOf(table, seenVertex, seenCorner)) && seenCorner[corner] && n <= table.numVertices
    ensures ok ==> (forall c :: 0 <= c < seenCorner.Length && old(seenCorner[c]) ==> seenCorner[c])
    ensures ok ==> forall v :: 0 <= v < seenVertex.Length && old(seenVertex[v]) ==> seenVertex[v]
    ensures ok ==> table.numVertices == old(table.numVertices) + if old(seenVertex[vertex0[corner]]) then 1 else 0
    ensures ok ==> forall c :: 0 <= c < seenCorner.Length && seenCorner[c] ==> old(seenCorner[c]) || Linked(table.opposite[..], corner, c)
    ensures ok ==> forall c :: 0 <= c < seenCorner.Length && old(seenCorner[c]) ==> table.cornerVertex[c] == old(table.cornerVertex[c])
    ensures ok ==> table.cornerVertex[corner] == if old(seenVertex[vertex0[corner]]) then old(table.numVertices) else vertex0[corner]
    ensures ok ==> seenVertex[vertex0[corner]] && forall v :: 0 <= v < n && seenVertex[v] ==> old(seenVertex[v]) || v == vertex0[corner]
    ensures ok && table.numVertices > old(table.numVertices) ==> old(table.numVertices) < seenVertex.Length && seenVertex[old(table.numVertices)]
    ensures !ok ==> StateOf(table, seenVertex, seenCorner) == old(StateOf(table, seenVertex, seenCorner))
    ensures !ok ==> table.numVertices == table.vertexCorners.Length && seenVertex[vertex0[corner]]
  {
    hide Matching, EdgesAgree, SplitInv, IsFan, Mark, Rename, Linked;
    ghost var s := StateOf(table, seenVertex, seenCorner);
    var vertex := table.cornerVertex[corner];
    var rename := false;
    if seenVertex[vertex] {
      if table.numVertices >= table.vertexCorners.Length {
        return false;
      }
      vertex := table.numVertices;
      table.numVertices := table.numVertices + 1;
      rename := true;
    }
    seenVertex[vertex] := true;
    ghost var fan := SplitFan(table, seenCorner, corner, vertex, rename);
    SplitStep(table.opposite[..], vertex0, n, s, corner, vertex, fan, table.vertexCorners[vertex]);
    MarkHas(s.seenCorner, fan, table.opposite[..], corner, table.vertexCorners[vertex]);
    RenameKeeps(table.opposite[..], vertex0, n, s, corner, vertex, fan, table.vertexCorners[vertex]);
    assert StateOf(table, seenVertex, seenCorner) == AddFan(s, fan, vertex, table.vertexCorners[vertex]);
    ok := true;
  }

  /** Corners seen before keep their labels; the fan's first corner has the new one. */
  lemma RenameKeeps(opp: seq<int>, vertex0: seq<int>, n: nat, s: Splitting, corner: nat, v: nat, fan: set<int>, leftEnd: int)
    requires Matching(opp) && SplitInv(opp, vertex0, n, s) && IsFan(opp, fan, corner, leftEnd) && corner < |opp| && !s.seenCorner[corner]
    ensures |s.vertex| == |opp| && Rename(s.vertex, fan, v)[corner] == v
    ensures |s.seenCorner| == |opp| && forall c :: 0 <= c < |opp| && s.seenCorner[c] ==> Rename(s.vertex, fan, v)[c] == s.vertex[c]
  {
    hide Linked, Matching;
    forall c | c in fan
      ensures 0 <= c < |opp| && !s.seenCorner[c]
    {
      FanUnseen(opp, vertex0, n, s, corner, c);
    }
  }

  lemma MarkHas(seen: seq<bool>, fan: set<int>, opp: seq<int>, corner: nat, leftEnd: int)
    requires Matching(opp) && IsFan(opp, fan, corner, leftEnd) && corner < |seen|
    ensures Mark(seen, fan)[corner] && forall c :: 0 <= c < |seen| && seen[c] ==> Mark(seen, fan)[c]
    ensures forall c :: 0 <= c < |seen| && Mark(seen, fan)[c] ==> seen[c] || Linked(opp, corner, c)
  {
  }
}
