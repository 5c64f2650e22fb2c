/** Corner arithmetic of a triangle table (edgebreaker_topology.go): corners 3f, 3f+1, 3f+2
    belong to face f, -1 is "no corner", and an opposite table glues faces along edges. */
module Corners {

  function Next(c: nat): nat
  {
    if c % 3 == 2 then c - 2 else c + 1
  }

  function Previous(c: nat): nat
  {
    if c % 3 == 0 then c + 2 else c - 1
  }

  /** Next and Previous are inverse rotations of one face. */
  lemma Rotate(c: nat)
    ensures Next(Previous(c)) == c && Previous(Next(c)) == c
    ensures Next(Next(c)) == Previous(c) && Previous(Previous(c)) == Next(c)
    ensures Next(c) != c && Previous(c) != c && Next(c) != Previous(c)
    ensures Next(c) / 3 == c / 3 && Previous(c) / 3 == c / 3
  {
  }

  lemma RotateBelow(c: nat, faces: nat)
    requires c < 3 * faces
    ensures Next(c) < 3 * faces && Previous(c) < 3 * faces
  {
  }

  /** Every entry is -1 or a corner. */
  ghost predicate InRange(opp: seq<int>)
  {
    |opp| % 3 == 0 && forall c :: 0 <= c < |opp| ==> -1 <= opp[c] < |opp|
  }

  /** A partial matching without fixed points. */
  ghost predicate Matching(opp: seq<int>)
  {
    InRange(opp) && forall c :: 0 <= c < |opp| && opp[c] >= 0 ==> opp[c] != c && opp[opp[c]] == c
  }

  function SwingRight(opp: seq<int>, c: int): int
    requires c < |opp| && |opp| % 3 == 0
  {
    if c < 0 then -1
    else if opp[Previous(c)] < 0 then -1 else Previous(opp[Previous(c)])
  }

  function SwingLeft(opp: seq<int>, c: int): int
    requires c < |opp| && |opp| % 3 == 0
  {
    if c < 0 then -1
    else if opp[Next(c)] < 0 then -1 else Next(opp[Next(c)])
  }

  /** The two swings are inverse partial functions. */
  lemma SwingInverse(opp: seq<int>, c: nat)
    requires Matching(opp) && c < |opp|
    ensures SwingRight(opp, c) < |opp| && SwingLeft(opp, c) < |opp|
    ensures SwingRight(opp, c) >= 0 ==> SwingLeft(opp, SwingRight(opp, c)) == c
    ensures SwingLeft(opp, c) >= 0 ==> SwingRight(opp, SwingLeft(opp, c)) == c
  {
    Rotate(c);
    RotateBelow(c, |opp| / 3);
    if opp[Previous(c)] >= 0 {
      Rotate(opp[Previous(c)]);
      RotateBelow(opp[Previous(c)], |opp| / 3);
    }
    if opp[Next(c)] >= 0 {
      Rotate(opp[Next(c)]);
      RotateBelow(opp[Next(c)], |opp| / 3);
    }
  }

  // ---- fans: corners joined by swings ---------------------------------------------------

  ghost predicate Adjacent(opp: seq<int>, a: int, b: int)
    requires InRange(opp)
  {
    0 <= a < |opp| && 0 <= b < |opp| && (SwingRight(opp, a) == b || SwingRight(opp, b) == a)
  }

  ghost predicate IsPath(opp: seq<int>, path: seq<int>)
    requires InRange(opp)
  {
    path != [] && (forall i :: 0 <= i < |path| ==> 0 <= path[i] < |opp|) &&
    forall i :: 0 <= i < |path| - 1 ==> Adjacent(opp, path[i], path[i + 1])
  }

  /** a and b lie on one fan: some chain of swings leads from a to b. */
  ghost predicate Linked(opp: seq<int>, a: int, b: int)
    requires InRange(opp)
  {
    exists path :: IsPath(opp, path) && path[0] == a && path[|path| - 1] == b
  }

  lemma LinkedSelf(opp: seq<int>, a: nat)
    requires InRange(opp) && a < |opp|
    ensures Linked(opp, a, a)
  {
    assert IsPath(opp, [a]);
  }

  lemma LinkedStep(opp: seq<int>, a: int, b: int)
    requires InRange(opp) && Adjacent(opp, a, b)
    ensures Linked(opp, a, b)
  {
    assert IsPath(opp, [a, b]);
  }

  lemma LinkedTrans(opp: seq<int>, a: int, b: int, c: int)
    requires InRange(opp) && Linked(opp, a, b) && Linked(opp, b, c)
    ensures Linked(opp, a, c)
  {
    var p :| IsPath(opp, p) && p[0] == a && p[|p| - 1] == b;
    var q :| IsPath(opp, q) && q[0] == b && q[|q| - 1] == c;
    JoinPaths(opp, p, q);
  }

  lemma JoinPaths(opp: seq<int>, p: seq<int>, q: seq<int>)
    requires InRange(opp) && IsPath(opp, p) && IsPath(opp, q) && p[|p| - 1] == q[0]
    ensures Linked(opp, p[0], q[|q| - 1])
  {
    var r := p + q[1..];
    forall i | 0 <= i < |r| - 1
      ensures Adjacent(opp, r[i], r[i + 1])
    {
      if i < |p| - 1 {
        assert r[i] == p[i] && r[i + 1] == p[i + 1];
      } else {
        assert r[i] == q[i - |p| + 1] && r[i + 1] == q[i - |p| + 2];
      }
    }
    assert IsPath(opp, r);
  }

  lemma LinkedSymm(opp: seq<int>, a: int, b: int)
    requires InRange(opp) && Linked(opp, a, b)
    ensures Linked(opp, b, a)
  {
    var p :| IsPath(opp, p) && p[0] == a && p[|p| - 1] == b;
    var r := seq(|p|, i requires 0 <= i < |p| => p[|p| - 1 - i]);
    forall i | 0 <= i < |r| - 1
      ensures Adjacent(opp, r[i], r[i + 1])
    {
      assert Adjacent(opp, p[|p| - 2 - i], p[|p| - 2 - i + 1]);
    }
    assert IsPath(opp, r);
  }

  /** A labelling that swings do not change is constant on fans. */
  ghost predicate ConstantOnSwings(opp: seq<int>, mark: seq<int>)
    requires InRange(opp)
  {
    |mark| == |opp| && forall c :: 0 <= c < |opp| && SwingRight(opp, c) >= 0 ==>
      SwingRight(opp, c) < |opp| && mark[SwingRight(opp, c)] == mark[c]
  }

  lemma ConstantOnFans(opp: seq<int>, mark: seq<int>, a: int, b: int)
    requires InRange(opp) && ConstantOnSwings(opp, mark) && Linked(opp, a, b)
    ensures 0 <= a < |opp| && 0 <= b < |opp| && mark[a] == mark[b]
  {
    var p :| IsPath(opp, p) && p[0] == a && p[|p| - 1] == b;
    ConstantOnPath(opp, mark, p);
  }

  lemma {:induction false} ConstantOnPath(opp: seq<int>, mark: seq<int>, p: seq<int>)
    requires InRange(opp) && ConstantOnSwings(opp, mark) && IsPath(opp, p)
    ensures mark[p[0]] == mark[p[|p| - 1]]
    decreases |p|
  {
    if |p| > 1 {
      var q := p[..|p| - 1];
      assert forall i :: 0 <= i < |q| ==> q[i] == p[i];
      ConstantOnPath(opp, mark, q);
      assert Adjacent(opp, p[|p| - 2], p[|p| - 2 + 1]);
    }
  }

  // ---- edges ----------------------------------------------------------------------------

  /** Glued corners face one edge: it runs between the same two vertices, in opposite
      directions seen from the two faces. */
  ghost predicate EdgesAgree(opp: seq<int>, vertex: seq<int>)
    requires Matching(opp) && |vertex| == |opp|
  {
    forall c :: 0 <= c < |opp| && opp[c] >= 0 ==> EdgeAgrees(opp, vertex, c)
  }

  ghost predicate EdgeAgrees(opp: seq<int>, vertex: seq<int>, c: nat)
    requires Matching(opp) && |vertex| == |opp| && c < |opp| && opp[c] >= 0
  {
    vertex[Next(c)] == vertex[Previous(opp[c])] && vertex[Previous(c)] == vertex[Next(opp[c])]
  }

  /** With agreeing edges, swinging stays at one vertex. */
  lemma AgreeingSwings(opp: seq<int>, vertex: seq<int>)
    requires Matching(opp) && |vertex| == |opp| && EdgesAgree(opp, vertex)
    ensures ConstantOnSwings(opp, vertex)
  {
    forall c | 0 <= c < |opp| && SwingRight(opp, c) >= 0
      ensures SwingRight(opp, c) < |opp| && vertex[SwingRight(opp, c)] == vertex[c]
    {
      Rotate(c);
      SwingInverse(opp, c);
      assert EdgeAgrees(opp, vertex, Previous(c));
    }
  }

  /** Conversely, if swings do not change the mark then edges agree. */
  lemma SwingsAgree(opp: seq<int>, vertex: seq<int>)
    requires Matching(opp) && ConstantOnSwings(opp, vertex)
    ensures EdgesAgree(opp, vertex)
  {
    forall c | 0 <= c < |opp| && opp[c] >= 0
      ensures EdgeAgrees(opp, vertex, c)
    {
      Rotate(c);
      Rotate(opp[c]);
      RotateBelow(c, |opp| / 3);
      RotateBelow(opp[c], |opp| / 3);
      assert SwingRight(opp, Next(c)) == Previous(opp[c]);
      assert SwingRight(opp, Next(opp[c])) == Previous(c);
    }
  }

  // ---- walks --------------------------------------------------------------------------------

  /** Distinct corners below n: at most n of them. */
  ghost predicate Distinct(s: seq<int>, n: nat)
  {
    (forall i :: 0 <= i < |s| ==> 0 <= s[i] < n) && forall i, j :: 0 <= i < j < |s| ==> s[i] != s[j]
  }

  lemma {:induction false} DistinctBound(s: seq<int>, n: nat)
    requires Distinct(s, n)
    ensures |s| <= n
    decreases n
  {
    if s != [] {
      assert 0 <= s[0] < n;
      if n - 1 in s {
        var i :| 0 <= i < |s| && s[i] == n - 1;
        DistinctBound(s[..i] + s[i + 1..], n - 1);
      } else {
        DistinctBound(s, n - 1);
      }
    }
  }

  /** Corners visited by swinging right (or left) from the first one. */
  ghost predicate RightWalk(opp: seq<int>, walk: seq<int>)
    requires Matching(opp)
  {
    walk != [] && Distinct(walk, |opp|) && forall i :: 0 <= i < |walk| - 1 ==> SwingRight(opp, walk[i]) == walk[i + 1]
  }

  ghost predicate LeftWalk(opp: seq<int>, walk: seq<int>)
    requires Matching(opp)
  {
    walk != [] && Distinct(walk, |opp|) && forall i :: 0 <= i < |walk| - 1 ==> SwingLeft(opp, walk[i]) == walk[i + 1]
  }

  /** A walk can only come back to where it started, so it ends after at most |opp| steps. */
  lemma RightWalkOn(opp: seq<int>, walk: seq<int>, next: int)
    requires Matching(opp) && RightWalk(opp, walk) && next == SwingRight(opp, walk[|walk| - 1]) >= 0 && next != walk[0]
    ensures RightWalk(opp, walk + [next]) && |walk| < |opp|
  {
    var last := walk[|walk| - 1];
    SwingInverse(opp, last);
    forall i | 0 <= i < |walk|
      ensures walk[i] != next
    {
      if i > 0 {
        SwingInverse(opp, walk[i - 1]);
        assert walk[i - 1 + 1] == SwingRight(opp, walk[i - 1]);
      }
    }
    DistinctBound(walk + [next], |opp|);
  }

  lemma LeftWalkOn(opp: seq<int>, walk: seq<int>, next: int)
    requires Matching(opp) && LeftWalk(opp, walk) && next == SwingLeft(opp, walk[|walk| - 1]) >= 0 && next != walk[0]
    ensures LeftWalk(opp, walk + [next]) && |walk| < |opp|
  {
    var last := walk[|walk| - 1];
    SwingInverse(opp, last);
    forall i | 0 <= i < |walk|
      ensures walk[i] != next
    {
      if i > 0 {
        SwingInverse(opp, walk[i - 1]);
        assert walk[i - 1 + 1] == SwingLeft(opp, walk[i - 1]);
      }
    }
    DistinctBound(walk + [next], |opp|);
  }

  /** All corners of a right walk are on the fan of its first corner. */
  lemma {:induction false} RightWalkLinked(opp: seq<int>, walk: seq<int>, i: nat)
    requires Matching(opp) && RightWalk(opp, walk) && i < |walk|
    ensures Linked(opp, walk[0], walk[i])
    decreases i
  {
    if i == 0 {
      LinkedSelf(opp, walk[0]);
    } else {
      RightWalkLinked(opp, walk, i - 1);
      assert SwingRight(opp, walk[i - 1]) == walk[i - 1 + 1];
      LinkedStep(opp, walk[i - 1], walk[i]);
      LinkedTrans(opp, walk[0], walk[i - 1], walk[i]);
    }
  }

  lemma {:induction false} LeftWalkLinked(opp: seq<int>, walk: seq<int>, i: nat)
    requires Matching(opp) && LeftWalk(opp, walk) && i < |walk|
    ensures Linked(opp, walk[0], walk[i])
    decreases i
  {
    if i == 0 {
      LinkedSelf(opp, walk[0]);
    } else {
      LeftWalkLinked(opp, walk, i - 1);
      assert SwingLeft(opp, walk[i - 1]) == walk[i - 1 + 1];
      SwingInverse(opp, walk[i - 1]);
      LinkedStep(opp, walk[i - 1], walk[i]);
      LinkedTrans(opp, walk[0], walk[i - 1], walk[i]);
    }
  }
}
