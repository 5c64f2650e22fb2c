/** Fans and holes of the decoded mesh (edgebreaker_decode.go): as long as no vertex is merged with
    itself, every vertex is one fan, open exactly while its hole flag is set. */
module Boundaries {
  import opened Bits
  import opened Corners
  import opened CornerTables
  import opened Connectivity
  import opened StartFaces
  import opened SymbolEffects

  // ---- counting corners ----------------------------------------------------------------------------

  function One(a: int, b: int): nat
  {
    if a == b then 1 else 0
  }

  /** Marked corners of a vertex. */
  function Count(vertex: seq<int>, mark: seq<bool>, v: int): nat
    requires |mark| == |vertex|
  {
    if vertex == [] then 0
    else
      var last := |vertex| - 1;
      Count(vertex[..last], mark[..last], v) + if vertex[last] == v && mark[last] then 1 else 0
  }

  lemma {:induction false} CountUnmark(vertex: seq<int>, mark: seq<bool>, i: nat, v: int)
    requires |mark| == |vertex| && i < |vertex| && mark[i]
    ensures Count(vertex, mark, v) == Count(vertex, mark[i := false], v) + One(vertex[i], v)
    decreases |vertex|
  {
    var last := |vertex| - 1;
    if i < last {
      CountUnmark(vertex[..last], mark[..last], i, v);
      assert mark[i := false][..last] == mark[..last][i := false];
    } else {
      assert mark[i := false][..last] == mark[..last];
    }
  }

  lemma {:induction false} CountLabel(vertex: seq<int>, mark: seq<bool>, i: nat, u: int, v: int)
    requires |mark| == |vertex| && i < |vertex| && vertex[i] != v && mark[i]
    ensures Count(vertex[i := u], mark, v) == Count(vertex, mark, v) + One(u, v)
    decreases |vertex|
  {
    var last := |vertex| - 1;
    if i < last {
      CountLabel(vertex[..last], mark[..last], i, u, v);
      assert vertex[i := u][..last] == vertex[..last][i := u];
    } else {
      assert vertex[i := u][..last] == vertex[..last];
    }
  }

  lemma {:induction false} CountRelabel(vertex: seq<int>, mark: seq<bool>, from: int, to: int, v: int)
    requires |mark| == |vertex| && from != to
    ensures Count(Relabel(vertex, from, to), mark, v) ==
            if v == from then 0 else if v == to then Count(vertex, mark, from) + Count(vertex, mark, to) else Count(vertex, mark, v)
    decreases |vertex|
  {
    if vertex != [] {
      var last := |vertex| - 1;
      CountRelabel(vertex[..last], mark[..last], from, to, v);
      assert Relabel(vertex, from, to)[..last] == Relabel(vertex[..last], from, to);
    }
  }

  lemma {:induction false} CountNone(vertex: seq<int>, mark: seq<bool>, v: int)
    requires |mark| == |vertex|
    ensures v !in vertex ==> Count(vertex, mark, v) == 0
    ensures Count(vertex, mark, v) > 0 ==> v in vertex
    decreases |vertex|
  {
    if vertex != [] {
      var last := |vertex| - 1;
      CountNone(vertex[..last], mark[..last], v);
    }
  }

  lemma {:induction false} CountOne(vertex: seq<int>, mark: seq<bool>, i: nat, v: int)
    requires |mark| == |vertex| && i < |vertex| && mark[i] && vertex[i] == v
    ensures Count(vertex, mark, v) >= 1
    decreases |vertex|
  {
    var last := |vertex| - 1;
    if i < last {
      CountOne(vertex[..last], mark[..last], i, v);
    }
  }

  // ---- ends of fans --------------------------------------------------------------------------------

  function All(n: nat): seq<bool>
  {
    seq(n, _ => true)
  }

  /** The corners without a left swing, and those without a right one. */
  function NoLeft(opp: seq<int>): (r: seq<bool>)
    requires |opp| % 3 == 0
    ensures |r| == |opp|
  {
    seq(|opp|, c requires 0 <= c < |opp| => SwingLeft(opp, c) < 0)
  }

  function NoRight(opp: seq<int>): (r: seq<bool>)
    requires |opp| % 3 == 0
    ensures |r| == |opp|
  {
    seq(|opp|, c requires 0 <= c < |opp| => SwingRight(opp, c) < 0)
  }

  function CornersOf(vertex: seq<int>, v: int): nat
  {
    Count(vertex, All(|vertex|), v)
  }

  /** Corners of a vertex at the left ends of its open fans, and at the right ends. */
  function LeftEnds(vertex: seq<int>, opp: seq<int>, v: int): nat
    requires |vertex| == |opp| && |opp| % 3 == 0
  {
    Count(vertex, NoLeft(opp), v)
  }

  function RightEnds(vertex: seq<int>, opp: seq<int>, v: int): nat
    requires |vertex| == |opp| && |opp| % 3 == 0
  {
    Count(vertex, NoRight(opp), v)
  }

  /** A free corner of a face is between a right end and a left end. */
  lemma FreeEnds(opp: seq<int>, a: nat)
    requires Matching(opp) && a < |opp| && opp[a] < 0
    ensures Previous(a) < |opp| && Next(a) < |opp| && NoLeft(opp)[Previous(a)] && NoRight(opp)[Next(a)]
  {
    Rotate(a);
    RotateBelow(a, |opp| / 3);
  }

  lemma MatchingSize(opp: seq<int>)
    requires Matching(opp)
    ensures |opp| % 3 == 0
  {
  }

  lemma GlueAt(opp: seq<int>, a: nat, b: nat, c: nat)
    requires Matching(opp) && a < |opp| && b < |opp| && a != b && opp[a] < 0 && opp[b] < 0 && c < |opp|
    ensures NoLeft(opp[a := b][b := a])[c] == (NoLeft(opp)[c] && c != Previous(a) && c != Previous(b))
    ensures NoRight(opp[a := b][b := a])[c] == (NoRight(opp)[c] && c != Next(a) && c != Next(b))
  {
    Rotate(a);
    Rotate(b);
    Rotate(c);
    RotateBelow(c, |opp| / 3);
  }

  lemma GlueEnds(opp: seq<int>, a: nat, b: nat)
    requires Matching(opp) && a < |opp| && b < |opp| && a != b && opp[a] < 0 && opp[b] < 0
    ensures Previous(a) < |opp| && Previous(b) < |opp| && Next(a) < |opp| && Next(b) < |opp|
    ensures Previous(a) != Previous(b) && Next(a) != Next(b)
    ensures NoLeft(opp[a := b][b := a]) == NoLeft(opp)[Previous(a) := false][Previous(b) := false]
    ensures NoRight(opp[a := b][b := a]) == NoRight(opp)[Next(a) := false][Next(b) := false]
  {
    Rotate(a);
    Rotate(b);
    RotateBelow(a, |opp| / 3);
    RotateBelow(b, |opp| / 3);
    hide NoLeft, NoRight, Next, Previous;
    forall c | 0 <= c < |opp|
      ensures NoLeft(opp[a := b][b := a])[c] == (NoLeft(opp)[c] && c != Previous(a) && c != Previous(b))
      ensures NoRight(opp[a := b][b := a])[c] == (NoRight(opp)[c] && c != Next(a) && c != Next(b))
    {
      GlueAt(opp, a, b, c);
    }
  }

  /** Gluing takes away one left end and one right end on each side of the edge. */
  lemma GlueCounts(vertex: seq<int>, opp: seq<int>, a: nat, b: nat, v: int)
    requires Matching(opp) && |vertex| == |opp| && a < |opp| && b < |opp| && a != b && opp[a] < 0 && opp[b] < 0
    ensures Matching(opp[a := b][b := a])
    ensures Previous(a) < |opp| && Previous(b) < |opp| && Next(a) < |opp| && Next(b) < |opp|
    ensures LeftEnds(vertex, opp, v) ==
            LeftEnds(vertex, opp[a := b][b := a], v) + One(vertex[Previous(a)], v) + One(vertex[Previous(b)], v)
    ensures RightEnds(vertex, opp, v) ==
            RightEnds(vertex, opp[a := b][b := a], v) + One(vertex[Next(a)], v) + One(vertex[Next(b)], v)
  {
    MatchingSize(opp);
    hide Matching, Count, NoLeft, NoRight;
    GlueMatching(opp, a, b);
    GlueEnds(opp, a, b);
    FreeEnds(opp, a);
    FreeEnds(opp, b);
    CountUnmark(vertex, NoLeft(opp), Previous(a), v);
    CountUnmark(vertex, NoLeft(opp)[Previous(a) := false], Previous(b), v);
    CountUnmark(vertex, NoRight(opp), Next(a), v);
    CountUnmark(vertex, NoRight(opp)[Next(a) := false], Next(b), v);
  }

  lemma FaceCount(vertex: seq<int>, mark: seq<bool>, c: nat, x: int, y: int, z: int, v: int)
    requires |mark| == |vertex| && c + 3 <= |vertex| && v >= 0 && mark[c] && mark[c + 1] && mark[c + 2]
    requires vertex[c] < 0 && vertex[c + 1] < 0 && vertex[c + 2] < 0
    ensures Count(NewFace(vertex, c, x, y, z), mark, v) == Count(vertex, mark, v) + One(x, v) + One(y, v) + One(z, v)
  {
    hide Count;
    CountLabel(vertex, mark, c, x, v);
    CountLabel(vertex[c := x], mark, c + 1, y, v);
    CountLabel(vertex[c := x][c + 1 := y], mark, c + 2, z, v);
  }

  /** A face on its own has three corners that are left and right ends. */
  lemma FaceCounts(vertex: seq<int>, opp: seq<int>, c: nat, x: int, y: int, z: int, v: int)
    requires Matching(opp) && |vertex| == |opp| && c % 3 == 0 && c + 3 <= |vertex| && v >= 0
    requires vertex[c] < 0 && vertex[c + 1] < 0 && vertex[c + 2] < 0 && opp[c] < 0 && opp[c + 1] < 0 && opp[c + 2] < 0
    ensures var r, k := NewFace(vertex, c, x, y, z), One(x, v) + One(y, v) + One(z, v);
            CornersOf(r, v) == CornersOf(vertex, v) + k && LeftEnds(r, opp, v) == LeftEnds(vertex, opp, v) + k &&
            RightEnds(r, opp, v) == RightEnds(vertex, opp, v) + k
  {
    MatchingSize(opp);
    hide Count, Matching;
    FreeEnds(opp, c);
    FreeEnds(opp, c + 1);
    FreeEnds(opp, c + 2);
    FaceCount(vertex, All(|vertex|), c, x, y, z, v);
    FaceCount(vertex, NoLeft(opp), c, x, y, z, v);
    FaceCount(vertex, NoRight(opp), c, x, y, z, v);
  }

  // ---- what the faces do to the counts ---------------------------------------------------------------

  /** Corners, left ends and right ends of a vertex of a table. */
  datatype Tally = Tally(corners: nat, left: nat, right: nat)

  function TallyOf(t: Table, v: int): Tally
    requires Shape(t)
  {
    Tally(CornersOf(t.vertex, v), LeftEnds(t.vertex, t.opposite, v), RightEnds(t.vertex, t.opposite, v))
  }

  /** R and L: three corners more, and one more open fan, the new vertex's. */
  lemma SideTally(t: Table, a: nat, c: nat, right: bool, v: nat)
    requires TableBase(t, c) && c + 3 <= |t.vertex| && Free(t, c, a) && FaceSide(t, a, c, right).Some?
    ensures Next(a) < c && Previous(a) < c
    ensures var before, after := TallyOf(t, v), TallyOf(FaceSide(t, a, c, right).value, v);
            var added := One(t.numVertices, v);
            after.corners == before.corners + One(t.vertex[Next(a)], v) + One(t.vertex[Previous(a)], v) + added &&
            after.left == before.left + added && after.right == before.right + added
  {
    hide FaceSide, Matching, CornersOf, LeftEnds, RightEnds;
    FaceSizes(t, a, a, c);
    FaceSideForm(t, a, c, right);
    var (x, y, z) := SideLabels(t, a, c, right);
    var r := NewFace(t.vertex, c, x, y, z);
    FaceCounts(t.vertex, t.opposite, c, x, y, z, v);
    GlueCounts(r, t.opposite, if right then c + 2 else c + 1, a, v);
  }

  /** E: three new open fans of one corner each. */
  lemma TriangleTally(t: Table, c: nat, v: nat)
    requires TableBase(t, c) && c + 3 <= |t.vertex| && FaceE(t, c).Some?
    ensures var before, after, n := TallyOf(t, v), TallyOf(FaceE(t, c).value, v), t.numVertices;
            var added := One(n, v) + One(n + 1, v) + One(n + 2, v);
            after == Tally(before.corners + added, before.left + added, before.right + added)
  {
    hide FaceE, Matching, CornersOf, LeftEnds, RightEnds;
    FaceEForm(t, c);
    FaceCounts(t.vertex, t.opposite, c, t.numVertices, t.numVertices + 1, t.numVertices + 2, v);
  }

  /** C: one open fan less, that of the vertex between the two edges. */
  lemma CloseTally(t: Table, a: nat, b: nat, c: nat, x: nat, v: nat)
    requires TableBase(t, c) && c + 3 <= |t.vertex| && Free(t, c, a) && Free(t, c, b) && a != b && x < |t.leftMost|
    requires Next(a) < c && Previous(b) < c && t.vertex[Next(a)] == t.vertex[Previous(b)] == x && FaceC(t, a, b, c, x).Some?
    ensures Previous(a) < c && Next(b) < c
    ensures var before, after := TallyOf(t, v), TallyOf(FaceC(t, a, b, c, x).value, v);
            after.corners == before.corners + One(x, v) + One(t.vertex[Next(b)], v) + One(t.vertex[Previous(a)], v) &&
            before.left == after.left + One(x, v) && before.right == after.right + One(x, v)
  {
    hide FaceC, Matching, CornersOf, LeftEnds, RightEnds;
    FaceSizes(t, a, b, c);
    FaceSizes(t, b, a, c);
    FaceCForm(t, a, b, c, x);
    var q, p := t.vertex[Next(b)], t.vertex[Previous(a)];
    var r := NewFace(t.vertex, c, x, q, p);
    FaceCounts(t.vertex, t.opposite, c, x, q, p, v);
    FaceTurns(c);
    GlueTwoCounts(r, t.opposite, a, c + 1, b, c + 2, v);
  }

  /** S before the merge: a left end of one vertex and a right end of the other are gone. */
  lemma JoinTally(t: Table, a: nat, b: nat, c: nat, v: nat)
    requires TableBase(t, c) && c + 3 <= |t.vertex| && Free(t, c, a) && Free(t, c, b) && a != b
    ensures Previous(a) < c && Next(a) < c && Previous(b) < c && Next(b) < c
    ensures var before, after := TallyOf(t, v), TallyOf(FaceS(t, a, b, c), v);
            var gone, kept := t.vertex[Next(b)], t.vertex[Previous(a)];
            after.corners == before.corners + One(kept, v) + One(t.vertex[Next(a)], v) + One(t.vertex[Previous(b)], v) &&
            before.left == after.left + One(kept, v) && before.right == after.right + One(gone, v)
  {
    hide FaceS, Matching, CornersOf, LeftEnds, RightEnds;
    FaceSizes(t, a, b, c);
    FaceSizes(t, b, a, c);
    FaceSForm(t, a, b, c);
    var l, q, kept := t.vertex[Next(a)], t.vertex[Previous(b)], t.vertex[Previous(a)];
    var r := NewFace(t.vertex, c, kept, l, q);
    FaceCounts(t.vertex, t.opposite, c, kept, l, q, v);
    FaceTurns(c);
    GlueTwoCounts(r, t.opposite, a, c + 2, b, c + 1, v);
  }

  /** The merge adds up the counts of both vertices. */
  lemma MergeTally(t: Table, u: Table, gone: nat, kept: nat, v: nat)
    requires Shape(t) && Shape(u) && gone != kept && u.vertex == Relabel(t.vertex, gone, kept) && u.opposite == t.opposite
    ensures TallyOf(u, gone) == Tally(0, 0, 0)
    ensures var x, y := TallyOf(t, gone), TallyOf(t, kept);
            TallyOf(u, kept) == Tally(x.corners + y.corners, x.left + y.left, x.right + y.right)
    ensures v != gone && v != kept ==> TallyOf(u, v) == TallyOf(t, v)
  {
    hide Count;
    forall w: nat
      ensures Count(u.vertex, All(|t.vertex|), w) == if w == gone then 0
              else if w == kept then Count(t.vertex, All(|t.vertex|), gone) + Count(t.vertex, All(|t.vertex|), kept) else Count(t.vertex, All(|t.vertex|), w)
    {
      CountRelabel(t.vertex, All(|t.vertex|), gone, kept, w);
    }
    forall w: nat
      ensures Count(u.vertex, NoLeft(t.opposite), w) == if w == gone then 0
              else if w == kept then Count(t.vertex, NoLeft(t.opposite), gone) + Count(t.vertex, NoLeft(t.opposite), kept) else Count(t.vertex, NoLeft(t.opposite), w)
    {
      CountRelabel(t.vertex, NoLeft(t.opposite), gone, kept, w);
    }
    forall w: nat
      ensures Count(u.vertex, NoRight(t.opposite), w) == if w == gone then 0
              else if w == kept then Count(t.vertex, NoRight(t.opposite), gone) + Count(t.vertex, NoRight(t.opposite), kept) else Count(t.vertex, NoRight(t.opposite), w)
    {
      CountRelabel(t.vertex, NoRight(t.opposite), gone, kept, w);
    }
  }

  lemma FaceTurns(c: nat)
    requires c % 3 == 0
    ensures Next(c) == c + 1 && Next(c + 1) == c + 2 && Next(c + 2) == c
    ensures Previous(c) == c + 2 && Previous(c + 1) == c && Previous(c + 2) == c + 1
  {
  }

  lemma GlueTwoCounts(vertex: seq<int>, opp: seq<int>, c: nat, a: nat, d: nat, b: nat, v: int)
    requires Matching(opp) && |vertex| == |opp| && a < |opp| && b < |opp| && c < |opp| && d < |opp|
    requires a != b && a != c && a != d && b != c && b != d && c != d && opp[a] < 0 && opp[b] < 0 && opp[c] < 0 && opp[d] < 0
    ensures Previous(a) < |opp| && Previous(b) < |opp| && Previous(c) < |opp| && Previous(d) < |opp|
    ensures Next(a) < |opp| && Next(b) < |opp| && Next(c) < |opp| && Next(d) < |opp|
    ensures var glued := opp[c := a][a := c][d := b][b := d];
            Matching(glued) &&
            LeftEnds(vertex, opp, v) == LeftEnds(vertex, glued, v) + One(vertex[Previous(c)], v) + One(vertex[Previous(a)], v)
                                        + One(vertex[Previous(d)], v) + One(vertex[Previous(b)], v) &&
            RightEnds(vertex, opp, v) == RightEnds(vertex, glued, v) + One(vertex[Next(c)], v) + One(vertex[Next(a)], v)
                                         + One(vertex[Next(d)], v) + One(vertex[Next(b)], v)
  {
    hide Matching, LeftEnds, RightEnds, One, Next, Previous;
    GlueCounts(vertex, opp, c, a, v);
    GlueCounts(vertex, opp[c := a][a := c], d, b, v);
  }

  lemma GlueThreeCounts(vertex: seq<int>, opp: seq<int>, c: nat, a: nat, b: nat, d: nat, v: int)
    requires Matching(opp) && |vertex| == |opp| && c % 3 == 0 && c + 3 <= |opp| && a < c && b < c && d < c
    requires a != b && a != d && b != d && opp[a] < 0 && opp[b] < 0 && opp[d] < 0 && opp[c] < 0 && opp[c + 1] < 0 && opp[c + 2] < 0
    ensures Previous(a) < c && Previous(b) < c && Previous(d) < c && Next(a) < c && Next(b) < c && Next(d) < c
    ensures var glued := opp[c := a][a := c][c + 1 := b][b := c + 1][c + 2 := d][d := c + 2];
            var k := One(vertex[c], v) + One(vertex[c + 1], v) + One(vertex[c + 2], v);
            LeftEnds(vertex, opp, v) == LeftEnds(vertex, glued, v) + k + One(vertex[Previous(a)], v) + One(vertex[Previous(b)], v) + One(vertex[Previous(d)], v) &&
            RightEnds(vertex, opp, v) == RightEnds(vertex, glued, v) + k + One(vertex[Next(a)], v) + One(vertex[Next(b)], v) + One(vertex[Next(d)], v)
  {
    RotateBelow(a, c / 3);
    RotateBelow(b, c / 3);
    RotateBelow(d, c / 3);
    FaceTurns(c);
    hide Matching, LeftEnds, RightEnds, One, Next, Previous;
    var c1, c2 := c + 1, c + 2;
    GlueTwoCounts(vertex, opp, c, a, c1, b, v);
    var two := opp[c := a][a := c][c1 := b][b := c1];
    assert two[c2] == opp[c2] && two[d] == opp[d];
    GlueCounts(vertex, two, c2, d, v);
  }

  /** A start face that closes its triangle closes the fans of all three vertices. */
  lemma StartTally(t: Table, a: nat, c: nat, v: nat)
    requires Housed(t, c) && a < c && c + 3 <= |t.vertex| && FaceStart(t, a, c).Some? && Closes(t, a)
    ensures var b := SecondCorner(t, a);
            0 <= b < c && 0 <= SecondCorner(t, b) < c && Next(a) < c && Next(b) < c && Next(SecondCorner(t, b)) < c &&
            var before, after := TallyOf(t, v), TallyOf(FaceStart(t, a, c).value, v);
            var k := One(t.vertex[Next(b)], v) + One(t.vertex[Next(SecondCorner(t, b))], v) + One(t.vertex[Next(a)], v);
            after.corners == before.corners + k && before.left == after.left + k && before.right == after.right + k
  {
    hide FaceStart, Matching, CornersOf, LeftEnds, RightEnds, SecondCorner, Homes, Indexed;
    FaceStartForm(t, a, c);
    SecondHome(t, c, a);
    var b := SecondCorner(t, a);
    SecondHome(t, c, b);
    var d := SecondCorner(t, b);
    SecondHome(t, c, d);
    var x, p, n := t.vertex[Next(b)], t.vertex[Next(d)], t.vertex[Next(a)];
    var r := NewFace(t.vertex, c, x, p, n);
    FaceCounts(t.vertex, t.opposite, c, x, p, n, v);
    GlueThreeCounts(r, t.opposite, c, a, b, d, v);
  }

  // ---- open fans and hole flags ------------------------------------------------------------------------

  /** A vertex has one open fan while it is marked as a hole, and none afterwards. */
  ghost predicate EndsAt(t: Table, v: nat, hole: bool)
    requires Shape(t)
  {
    var n := TallyOf(t, v);
    n.left == n.right == if hole then 1 else 0
  }

  /** So it is for every vertex that owns a corner; new vertices will be holes. */
  ghost predicate Ends(t: Table, holes: seq<bool>)
    requires Shape(t) && |holes| == |t.leftMost|
  {
    (forall v: nat :: v < t.numVertices && v in t.vertex ==> EndsAt(t, v, holes[v])) &&
    forall v :: t.numVertices <= v < |holes| ==> holes[v]
  }

  /** A vertex at a free corner has a free end. */
  lemma FreeTally(t: Table, a: nat)
    requires Shape(t) && Matching(t.opposite) && a < |t.opposite| && t.opposite[a] < 0
    requires Next(a) < |t.vertex| && Previous(a) < |t.vertex|
    ensures TallyOf(t, t.vertex[Previous(a)]).left >= 1 && TallyOf(t, t.vertex[Next(a)]).right >= 1
  {
    hide Matching, Count;
    FreeEnds(t.opposite, a);
    CountOne(t.vertex, NoLeft(t.opposite), Previous(a), t.vertex[Previous(a)]);
    CountOne(t.vertex, NoRight(t.opposite), Next(a), t.vertex[Next(a)]);
  }

  /** Nothing is counted for a vertex without corners. */
  lemma NoTally(t: Table, v: nat)
    requires Shape(t) && v !in t.vertex
    ensures TallyOf(t, v) == Tally(0, 0, 0)
  {
    CountNone(t.vertex, All(|t.vertex|), v);
    CountNone(t.vertex, NoLeft(t.opposite), v);
    CountNone(t.vertex, NoRight(t.opposite), v);
  }

  lemma BaseLabels(t: Table, c: nat)
    requires TableBase(t, c)
    ensures Shape(t) && Matching(t.opposite) && forall v: nat :: v in t.vertex ==> v < t.numVertices
  {
  }

  lemma SideEnds(t: Table, a: nat, c: nat, right: bool, holes: seq<bool>)
    requires TableBase(t, c) && c + 3 <= |t.vertex| && Free(t, c, a) && FaceSide(t, a, c, right).Some?
    requires |holes| == |t.leftMost| && Ends(t, holes)
    ensures Ends(FaceSide(t, a, c, right).value, holes)
  {
    hide FaceSide, Matching, TallyOf;
    FaceSizes(t, a, a, c);
    FaceSideForm(t, a, c, right);
    var r := FaceSide(t, a, c, right).value;
    BaseLabels(t, c);
    NoTally(t, t.numVertices);
    forall v: nat | v < r.numVertices && v in r.vertex
      ensures EndsAt(r, v, holes[v])
    {
      SideTally(t, a, c, right, v);
      if v != t.numVertices {
        assert v in t.vertex;
        assert EndsAt(t, v, holes[v]);
      }
    }
  }

  lemma TriangleEnds(t: Table, c: nat, holes: seq<bool>)
    requires TableBase(t, c) && c + 3 <= |t.vertex| && FaceE(t, c).Some? && |holes| == |t.leftMost| && Ends(t, holes)
    ensures Ends(FaceE(t, c).value, holes)
  {
    hide FaceE, Matching, TallyOf;
    FaceEForm(t, c);
    var r, n := FaceE(t, c).value, t.numVertices;
    BaseLabels(t, c);
    forall v: nat | v < r.numVertices && v in r.vertex
      ensures EndsAt(r, v, holes[v])
    {
      TriangleTally(t, c, v);
      if v < n {
        assert v in t.vertex;
        assert EndsAt(t, v, holes[v]);
      } else {
        NoTally(t, v);
      }
    }
  }

  lemma CloseEnds(t: Table, a: nat, b: nat, c: nat, x: nat, holes: seq<bool>)
    requires TableBase(t, c) && c + 3 <= |t.vertex| && Free(t, c, a) && Free(t, c, b) && a != b && x < |t.leftMost|
    requires Next(a) < c && Previous(b) < c && t.vertex[Next(a)] == t.vertex[Previous(b)] == x && FaceC(t, a, b, c, x).Some?
    requires |holes| == |t.leftMost| && Ends(t, holes)
    ensures Ends(FaceC(t, a, b, c, x).value, holes[x := false])
  {
    hide FaceC, Matching, TallyOf;
    FaceSizes(t, a, b, c);
    FaceSizes(t, b, a, c);
    FaceCForm(t, a, b, c, x);
    var r := FaceC(t, a, b, c, x).value;
    BaseLabels(t, c);
    FreeTally(t, a);
    forall v: nat | v < r.numVertices && v in r.vertex
      ensures EndsAt(r, v, holes[x := false][v])
    {
      CloseTally(t, a, b, c, x, v);
      assert v in t.vertex;
      assert EndsAt(t, v, holes[v]);
    }
  }

  lemma JoinEnds(t: Table, a: nat, b: nat, c: nat, holes: seq<bool>)
    requires TableFull(t, c) && c + 3 <= |t.vertex| && Free(t, c, a) && Free(t, c, b) && a != b
    requires Previous(a) < c && Next(b) < c && t.vertex[Previous(a)] != t.vertex[Next(b)]
    requires |holes| == |t.leftMost| && Ends(t, holes)
    ensures var n, p := t.vertex[Next(b)], t.vertex[Previous(a)];
            MergeS(FaceS(t, a, b, c), n, p, Next(b)).Some? && Ends(MergeS(FaceS(t, a, b, c), n, p, Next(b)).value, holes)
  {
    hide FaceS, MergeS, Matching, TallyOf, EdgesAgree, Homes, Indexed;
    FaceSizes(t, a, b, c);
    FaceSizes(t, b, a, c);
    JoinedFace(t, a, b, c);
    FaceSForm(t, a, b, c);
    var n, p, u := t.vertex[Next(b)], t.vertex[Previous(a)], FaceS(t, a, b, c);
    var r := MergeS(u, n, p, Next(b)).value;
    BaseLabels(t, c);
    FreeTally(t, a);
    FreeTally(t, b);
    assert EndsAt(t, p, holes[p]) && EndsAt(t, n, holes[n]);
    forall v: nat | v < r.numVertices && v in r.vertex
      ensures EndsAt(r, v, holes[v])
    {
      MergeTally(u, r, n, p, v);
      JoinTally(t, a, b, c, v);
      JoinTally(t, a, b, c, n);
      if v != p {
        assert v != n && v in t.vertex;
        assert EndsAt(t, v, holes[v]);
      }
    }
  }

  lemma StartEnds(t: Table, a: nat, c: nat, holes: seq<bool>)
    requires Housed(t, c) && a < c && c + 3 <= |t.vertex| && FaceStart(t, a, c).Some? && Closes(t, a)
    requires |holes| == |t.leftMost| && Ends(t, holes)
    ensures var r := FaceStart(t, a, c).value;
            Ends(r, Unhole(Unhole(Unhole(holes, VertexOf(r, c)), VertexOf(r, c + 1)), VertexOf(r, c + 2)))
  {
    hide FaceStart, Matching, TallyOf, SecondCorner, Homes, Indexed;
    FaceStartForm(t, a, c);
    var b, r := SecondCorner(t, a), FaceStart(t, a, c).value;
    var d := SecondCorner(t, b);
    BaseLabels(t, c);
    forall v: nat | v < r.numVertices && v in r.vertex
      ensures EndsAt(r, v, Unhole(Unhole(Unhole(holes, VertexOf(r, c)), VertexOf(r, c + 1)), VertexOf(r, c + 2))[v])
    {
      StartTally(t, a, c, v);
      assert v in t.vertex;
      assert EndsAt(t, v, holes[v]);
    }
  }

  // ---- one fan for each vertex -------------------------------------------------------------------------

  /** Swings join any two corners of one vertex. */
  ghost predicate OneFan(t: Table, k: nat)
    requires Shape(t) && InRange(t.opposite) && k <= |t.vertex|
  {
    forall c, d :: 0 <= c < k && 0 <= d < k && t.vertex[c] == t.vertex[d] ==> Linked(t.opposite, c, d)
  }

  /** The second table has all swings of the first. */
  ghost predicate Extends(opp: seq<int>, opp1: seq<int>)
    requires InRange(opp) && InRange(opp1)
  {
    |opp1| == |opp| && forall c :: 0 <= c < |opp| && opp[c] >= 0 ==> opp1[c] == opp[c]
  }

  lemma LinkedExtends(opp: seq<int>, opp1: seq<int>, c: int, d: int)
    requires InRange(opp) && InRange(opp1) && Extends(opp, opp1) && Linked(opp, c, d)
    ensures Linked(opp1, c, d)
  {
    var path :| IsPath(opp, path) && path[0] == c && path[|path| - 1] == d;
    forall i | 0 <= i < |path| - 1
      ensures Adjacent(opp1, path[i], path[i + 1])
    {
      assert Adjacent(opp, path[i], path[i + 1]);
      AdjacentExtends(opp, opp1, path[i], path[i + 1]);
    }
    assert IsPath(opp1, path);
  }

  lemma AdjacentExtends(opp: seq<int>, opp1: seq<int>, c: int, d: int)
    requires InRange(opp) && InRange(opp1) && Extends(opp, opp1) && Adjacent(opp, c, d)
    ensures Adjacent(opp1, c, d)
  {
    RotateBelow(c, |opp| / 3);
    RotateBelow(d, |opp| / 3);
  }

  /** Swings over a glued edge. */
  lemma GluedLinks(opp: seq<int>, a: nat, b: nat)
    requires Matching(opp) && a < |opp| && b < |opp| && opp[a] == b
    ensures Next(a) < |opp| && Previous(a) < |opp| && Next(b) < |opp| && Previous(b) < |opp|
    ensures Linked(opp, Next(a), Previous(b)) && Linked(opp, Previous(a), Next(b))
  {
    Rotate(a);
    Rotate(b);
    RotateBelow(a, |opp| / 3);
    RotateBelow(b, |opp| / 3);
    LinkedStep(opp, Next(a), Previous(b));
    LinkedStep(opp, Previous(a), Next(b));
  }

  /** A new corner is on the fan of a decoded one, or alone at its vertex. */
  ghost predicate Joins(vertex: seq<int>, opp: seq<int>, c: nat, d: int, at: int)
    requires InRange(opp) && |vertex| == |opp|
  {
    c <= d < c + 3 <= |vertex| &&
    if at >= 0 then at < c && vertex[at] == vertex[d] && Linked(opp, d, at)
    else forall e :: 0 <= e < c + 3 && vertex[e] == vertex[d] ==> e == d
  }

  /** A face whose corners join fans of their vertices. */
  lemma FaceFans(t: Table, r: Table, c: nat, x: int, y: int, z: int)
    requires Shape(t) && Shape(r) && |r.vertex| == |t.vertex| && c + 3 <= |t.vertex| && InRange(t.opposite) && InRange(r.opposite)
    requires Extends(t.opposite, r.opposite) && OneFan(t, c) && forall e :: 0 <= e < c ==> r.vertex[e] == t.vertex[e]
    requires Joins(r.vertex, r.opposite, c, c, x) && Joins(r.vertex, r.opposite, c, c + 1, y) && Joins(r.vertex, r.opposite, c, c + 2, z)
    ensures OneFan(r, c + 3)
  {
    hide Linked;
    forall d, e | 0 <= d < c + 3 && 0 <= e < c + 3 && r.vertex[d] == r.vertex[e]
      ensures Linked(r.opposite, d, e)
    {
      if d == e {
        LinkedSelf(r.opposite, d);
      } else {
        var at, to := Anchor(d, c, x, y, z), Anchor(e, c, x, y, z);
        AnchorLinked(r, c, x, y, z, d);
        AnchorLinked(r, c, x, y, z, e);
        assert at >= 0 && to >= 0;
        assert Linked(t.opposite, at, to);
        LinkedExtends(t.opposite, r.opposite, at, to);
        LinkedSymm(r.opposite, e, to);
        LinkedTrans(r.opposite, d, at, to);
        LinkedTrans(r.opposite, d, to, e);
      }
    }
  }

  function Anchor(d: int, c: nat, x: int, y: int, z: int): int
  {
    if d == c then x else if d == c + 1 then y else if d == c + 2 then z else d
  }

  lemma AnchorLinked(r: Table, c: nat, x: int, y: int, z: int, d: nat)
    requires Shape(r) && InRange(r.opposite) && d < c + 3 <= |r.vertex|
    requires Joins(r.vertex, r.opposite, c, c, x) && Joins(r.vertex, r.opposite, c, c + 1, y) && Joins(r.vertex, r.opposite, c, c + 2, z)
    ensures var at := Anchor(d, c, x, y, z);
            if at >= 0 then at < c && r.vertex[at] == r.vertex[d] && Linked(r.opposite, d, at)
            else forall e :: 0 <= e < c + 3 && r.vertex[e] == r.vertex[d] ==> e == d
  {
    hide Linked;
    if d < c {
      LinkedSelf(r.opposite, d);
    }
  }

  lemma GlueExtends(opp: seq<int>, a: nat, b: nat)
    requires Matching(opp) && a < |opp| && b < |opp| && a != b && opp[a] < 0 && opp[b] < 0
    ensures Matching(opp[a := b][b := a]) && Extends(opp, opp[a := b][b := a])
  {
  }

  lemma SideFans(t: Table, a: nat, c: nat, right: bool)
    requires TableBase(t, c) && c + 3 <= |t.vertex| && Free(t, c, a) && FaceSide(t, a, c, right).Some? && OneFan(t, c)
    ensures var r := FaceSide(t, a, c, right).value; Matching(r.opposite) && OneFan(r, c + 3)
  {
    hide FaceSide, Matching, Linked, OneFan, Extends;
    MatchingRange(t.opposite);
    FaceSizes(t, a, a, c);
    FaceSideForm(t, a, c, right);
    var r := FaceSide(t, a, c, right).value;
    var o := if right then c + 2 else c + 1;
    GlueExtends(t.opposite, o, a);
    MatchingRange(r.opposite);
    GluedLinks(r.opposite, o, a);
    FaceTurns(c);
    if right {
      FaceFans(t, r, c, Previous(a), Next(a), -1);
    } else {
      FaceFans(t, r, c, Next(a), -1, Previous(a));
    }
  }

  lemma MatchingRange(opp: seq<int>)
    requires Matching(opp)
    ensures InRange(opp)
  {
  }

  lemma TriangleFans(t: Table, c: nat)
    requires TableBase(t, c) && c + 3 <= |t.vertex| && FaceE(t, c).Some? && OneFan(t, c)
    ensures var r := FaceE(t, c).value; Matching(r.opposite) && OneFan(r, c + 3)
  {
    hide FaceE, Matching, Linked, OneFan;
    MatchingRange(t.opposite);
    FaceEForm(t, c);
    FaceFans(t, FaceE(t, c).value, c, -1, -1, -1);
  }

  lemma TwoGluedExtends(opp: seq<int>, a: nat, b: nat, c: nat, d: nat)
    requires Matching(opp) && a < |opp| && b < |opp| && c < |opp| && d < |opp|
    requires a != b && a != c && a != d && b != c && b != d && c != d
    requires opp[a] < 0 && opp[b] < 0 && opp[c] < 0 && opp[d] < 0
    ensures var r := opp[a := c][c := a][b := d][d := b]; Matching(r) && Extends(opp, r)
  {
    TwoGlued(opp, a, b, c, d);
  }

  lemma CloseFans(t: Table, a: nat, b: nat, c: nat, x: nat)
    requires TableBase(t, c) && c + 3 <= |t.vertex| && Free(t, c, a) && Free(t, c, b) && a != b && x < |t.leftMost| && OneFan(t, c)
    requires Next(a) < c && t.vertex[Next(a)] == x && FaceC(t, a, b, c, x).Some?
    ensures var r := FaceC(t, a, b, c, x).value; Matching(r.opposite) && OneFan(r, c + 3)
  {
    hide FaceC, Matching, Linked, OneFan, Extends;
    MatchingRange(t.opposite);
    FaceSizes(t, a, b, c);
    FaceSizes(t, b, a, c);
    FaceCForm(t, a, b, c, x);
    var r := FaceC(t, a, b, c, x).value;
    TwoGluedExtends(t.opposite, a, b, c + 1, c + 2);
    MatchingRange(r.opposite);
    FaceTurns(c);
    GluedLinks(r.opposite, c + 1, a);
    GluedLinks(r.opposite, c + 2, b);
    FaceFans(t, r, c, Next(a), Next(b), Previous(a));
  }

  /** The swings over the two glued edges of an S. */
  lemma JoinLinks(opp: seq<int>, a: nat, b: nat, c: nat)
    requires Matching(opp) && c % 3 == 0 && a < c && b < c && c + 3 <= |opp| && a != b
    requires opp[a] < 0 && opp[b] < 0 && opp[c] < 0 && opp[c + 1] < 0 && opp[c + 2] < 0
    ensures var r := opp[a := c + 2][c + 2 := a][b := c + 1][c + 1 := b];
            Matching(r) && InRange(r) && Extends(opp, r) &&
            Linked(r, c, Previous(a)) && Linked(r, c + 1, Next(a)) && Linked(r, c + 2, Previous(b)) && Linked(r, Next(b), c)
  {
    hide Linked, Extends, Matching;
    TwoGluedExtends(opp, a, b, c + 2, c + 1);
    var r := opp[a := c + 2][c + 2 := a][b := c + 1][c + 1 := b];
    MatchingRange(r);
    FaceTurns(c);
    GluedLinks(r, c + 2, a);
    GluedLinks(r, c + 1, b);
    GluedLinks(r, b, c + 1);
  }

  lemma JoinedFaceFans(t: Table, a: nat, b: nat, c: nat)
    requires TableBase(t, c) && c + 3 <= |t.vertex| && Free(t, c, a) && Free(t, c, b) && a != b && OneFan(t, c)
    ensures var u := FaceS(t, a, b, c);
            Matching(u.opposite) && OneFan(u, c + 3) && Next(b) < c && Linked(u.opposite, Next(b), c)
  {
    hide FaceS, Matching, Linked, OneFan, Extends;
    MatchingRange(t.opposite);
    FaceSizes(t, a, b, c);
    FaceSizes(t, b, a, c);
    FaceSForm(t, a, b, c);
    var u := FaceS(t, a, b, c);
    JoinLinks(t.opposite, a, b, c);
    FaceFans(t, u, c, Previous(a), Next(a), Previous(b));
  }

  lemma JoinFans(t: Table, a: nat, b: nat, c: nat)
    requires TableFull(t, c) && c + 3 <= |t.vertex| && Free(t, c, a) && Free(t, c, b) && a != b && OneFan(t, c)
    requires Previous(a) < c && Next(b) < c && t.vertex[Previous(a)] != t.vertex[Next(b)]
    ensures var n, p := t.vertex[Next(b)], t.vertex[Previous(a)];
            MergeS(FaceS(t, a, b, c), n, p, Next(b)).Some? &&
            var r := MergeS(FaceS(t, a, b, c), n, p, Next(b)).value; Matching(r.opposite) && OneFan(r, c + 3)
  {
    hide FaceS, MergeS, Matching, Linked, OneFan, EdgesAgree, Homes, Indexed;
    MatchingRange(t.opposite);
    JoinedFaceFans(t, a, b, c);
    FaceSForm(t, a, b, c);
    JoinedFace(t, a, b, c);
    var u, n, p := FaceS(t, a, b, c), t.vertex[Next(b)], t.vertex[Previous(a)];
    MatchingRange(u.opposite);
    MergedFans(u, MergeS(u, n, p, Next(b)).value, c + 3, n, p, Next(b), c);
  }

  /** Two fans joined by a swing become the fan of the merged vertex. */
  lemma MergedFans(u: Table, r: Table, k: nat, gone: int, kept: int, from: nat, to: nat)
    requires Shape(u) && Shape(r) && InRange(u.opposite) && k <= |u.vertex| && OneFan(u, k)
    requires r.vertex == Relabel(u.vertex, gone, kept) && r.opposite == u.opposite
    requires from < k && to < k && u.vertex[from] == gone && u.vertex[to] == kept && Linked(u.opposite, from, to)
    ensures OneFan(r, k)
  {
    hide Linked;
    forall c, d | 0 <= c < k && 0 <= d < k && r.vertex[c] == r.vertex[d]
      ensures Linked(r.opposite, c, d)
    {
      if u.vertex[c] != u.vertex[d] {
        if u.vertex[c] == gone {
          LinkedTrans(u.opposite, c, from, to);
          LinkedTrans(u.opposite, c, to, d);
        } else {
          LinkedSymm(u.opposite, from, to);
          LinkedTrans(u.opposite, c, to, from);
          LinkedTrans(u.opposite, c, from, d);
        }
      }
    }
  }

  lemma StartFans(t: Table, a: nat, c: nat)
    requires Housed(t, c) && a < c && c + 3 <= |t.vertex| && FaceStart(t, a, c).Some? && OneFan(t, c)
    ensures var r := FaceStart(t, a, c).value; Matching(r.opposite) && OneFan(r, c + 3)
  {
    hide FaceStart, Matching, Linked, OneFan, Extends, SecondCorner, Homes, Indexed;
    MatchingRange(t.opposite);
    FaceStartForm(t, a, c);
    var b := SecondCorner(t, a);
    var d, r := SecondCorner(t, b), FaceStart(t, a, c).value;
    GlueThree(t.opposite, c, a, b, d);
    ThreeExtends(t.opposite, r.opposite, c, a, b, d);
    MatchingRange(r.opposite);
    FaceTurns(c);
    GluedLinks(r.opposite, c, a);
    GluedLinks(r.opposite, c + 1, b);
    GluedLinks(r.opposite, c + 2, d);
    FaceFans(t, r, c, Next(b), Next(d), Next(a));
  }

  lemma ThreeExtends(opp: seq<int>, r: seq<int>, c: nat, a: nat, b: nat, d: nat)
    requires InRange(opp) && InRange(r) && c + 3 <= |opp| && a < c && b < c && d < c
    requires opp[a] < 0 && opp[b] < 0 && opp[d] < 0 && opp[c] < 0 && opp[c + 1] < 0 && opp[c + 2] < 0
    requires r == opp[c := a][a := c][c + 1 := b][b := c + 1][c + 2 := d][d := c + 2]
    ensures Extends(opp, r)
  {
  }

  // ---- left-most corners ---------------------------------------------------------------------------------

  /** The stored corner of a vertex with an open fan is the fan's left end. */
  ghost predicate LeftMostAt(t: Table, v: nat)
    requires Shape(t)
  {
    v < |t.leftMost| && 0 <= t.leftMost[v] < |t.vertex| && SwingLeft(t.opposite, t.leftMost[v]) < 0
  }

  ghost predicate LeftMosts(t: Table, holes: seq<bool>)
    requires Shape(t) && |holes| == |t.leftMost|
  {
    forall v: nat :: v < t.numVertices && v in t.vertex && holes[v] ==> LeftMostAt(t, v)
  }

  /** Gluing leaves other left ends as they are. */
  lemma StillLeft(opp: seq<int>, a: nat, b: nat, d: nat)
    requires Matching(opp) && a < |opp| && b < |opp| && a != b && opp[a] < 0 && opp[b] < 0 && d < |opp|
    requires SwingLeft(opp, d) < 0 && d != Previous(a) && d != Previous(b)
    ensures Matching(opp[a := b][b := a]) && SwingLeft(opp[a := b][b := a], d) < 0
  {
    GlueMatching(opp, a, b);
    GlueAt(opp, a, b, d);
  }

  lemma StillLeftTwice(opp: seq<int>, a: nat, c: nat, b: nat, d: nat, e: nat)
    requires Matching(opp) && a < |opp| && b < |opp| && c < |opp| && d < |opp| && e < |opp|
    requires a != b && a != c && a != d && b != c && b != d && c != d && opp[a] < 0 && opp[b] < 0 && opp[c] < 0 && opp[d] < 0
    requires SwingLeft(opp, e) < 0 && e != Previous(a) && e != Previous(b) && e != Previous(c) && e != Previous(d)
    ensures var r := opp[a := c][c := a][b := d][d := b]; Matching(r) && SwingLeft(r, e) < 0
  {
    hide Matching, SwingLeft;
    StillLeft(opp, a, c, e);
    StillLeft(opp[a := c][c := a], b, d, e);
  }

  lemma FreeLeft(opp: seq<int>, d: nat)
    requires Matching(opp) && d < |opp| && opp[d] < 0
    ensures Previous(d) < |opp| && SwingLeft(opp, Previous(d)) < 0
  {
    Rotate(d);
    RotateBelow(d, |opp| / 3);
  }

  lemma SideLeftMosts(t: Table, a: nat, c: nat, right: bool, holes: seq<bool>)
    requires TableBase(t, c) && Homes(t, c) && c + 3 <= |t.vertex| && Free(t, c, a) && FaceSide(t, a, c, right).Some?
    requires |holes| == |t.leftMost| && LeftMosts(t, holes)
    ensures LeftMosts(FaceSide(t, a, c, right).value, holes)
  {
    hide FaceSide, Matching, SwingLeft;
    FaceSizes(t, a, a, c);
    FaceSideForm(t, a, c, right);
    FaceTurns(c);
    var r, o := FaceSide(t, a, c, right).value, if right then c + 2 else c + 1;
    GlueMatching(t.opposite, o, a);
    FreeLeft(r.opposite, c);
    FreeLeft(r.opposite, if right then c + 1 else c + 2);
    forall v: nat | v < r.numVertices && v in r.vertex && holes[v]
      ensures LeftMostAt(r, v)
    {
      if v != t.numVertices && v != t.vertex[Previous(a)] {
        assert v in t.vertex;
        HomeOf(t, c, v);
        StillLeft(t.opposite, o, a, t.leftMost[v]);
      }
    }
  }

  /** The left-most corner of an owning vertex is a decoded corner of it. */
  lemma HomeOf(t: Table, c: nat, v: nat)
    requires TableBase(t, c) && Homes(t, c) && v in t.vertex
    ensures v < |t.leftMost| && 0 <= t.leftMost[v] < c && t.vertex[t.leftMost[v]] == v
  {
    var d :| 0 <= d < |t.vertex| && t.vertex[d] == v;
    assert Home(t, t.vertex[d]);
  }

  lemma TriangleLeftMosts(t: Table, c: nat, holes: seq<bool>)
    requires TableBase(t, c) && c + 3 <= |t.vertex| && FaceE(t, c).Some? && |holes| == |t.leftMost| && LeftMosts(t, holes)
    ensures LeftMosts(FaceE(t, c).value, holes)
  {
    hide FaceE, Matching, SwingLeft;
    FaceEForm(t, c);
    FaceTurns(c);
    FreeLeft(t.opposite, c);
    FreeLeft(t.opposite, c + 1);
    FreeLeft(t.opposite, c + 2);
    var r := FaceE(t, c).value;
    forall v: nat | v < r.numVertices && v in r.vertex && holes[v]
      ensures LeftMostAt(r, v)
    {
      if v < t.numVertices {
        assert v in t.vertex;
        assert LeftMostAt(t, v);
      }
    }
  }

  lemma CloseLeftMosts(t: Table, a: nat, b: nat, c: nat, x: nat, holes: seq<bool>)
    requires TableBase(t, c) && Homes(t, c) && c + 3 <= |t.vertex| && Free(t, c, a) && Free(t, c, b) && a != b && x < |t.leftMost|
    requires Next(a) < c && Previous(b) < c && t.vertex[Next(a)] == t.vertex[Previous(b)] == x && FaceC(t, a, b, c, x).Some?
    requires |holes| == |t.leftMost| && LeftMosts(t, holes)
    ensures LeftMosts(FaceC(t, a, b, c, x).value, holes[x := false])
  {
    hide FaceC, Matching, SwingLeft;
    FaceSizes(t, a, b, c);
    FaceSizes(t, b, a, c);
    FaceCForm(t, a, b, c, x);
    FaceTurns(c);
    var r := FaceC(t, a, b, c, x).value;
    TwoGlued(t.opposite, a, b, c + 1, c + 2);
    FreeLeft(r.opposite, c);
    forall v: nat | v < r.numVertices && v in r.vertex && holes[x := false][v]
      ensures LeftMostAt(r, v)
    {
      if v != t.vertex[Previous(a)] {
        assert v in t.vertex;
        assert LeftMostAt(t, v);
        HomeOf(t, c, v);
        StillLeftTwice(t.opposite, a, c + 1, b, c + 2, t.leftMost[v]);
      }
    }
  }

  lemma JoinedLeftMost(t: Table, a: nat, b: nat, c: nat)
    requires TableFull(t, c) && c + 3 <= |t.vertex| && Free(t, c, a) && Free(t, c, b) && a != b
    requires Previous(a) < c && Next(b) < c && Previous(b) < c && t.vertex[Previous(a)] != t.vertex[Next(b)]
    ensures var n, p, stored := t.vertex[Next(b)], t.vertex[Previous(a)], t.leftMost[t.vertex[Previous(b)] := c + 2];
            MergeS(FaceS(t, a, b, c), n, p, Next(b)).Some? &&
            MergeS(FaceS(t, a, b, c), n, p, Next(b)).value.leftMost == stored[p := stored[n]][n := -1]
  {
    hide FaceS, MergeS, Matching, EdgesAgree, Indexed, Homes;
    FaceSizes(t, a, b, c);
    FaceSizes(t, b, a, c);
    FaceSForm(t, a, b, c);
    FaceSKeepsBase(t, a, b, c);
    MergeSIndexed(FaceS(t, a, b, c), c + 3, t.vertex[Next(b)], t.vertex[Previous(a)], Next(b));
  }

  lemma JoinLeftMosts(t: Table, a: nat, b: nat, c: nat, holes: seq<bool>)
    requires TableFull(t, c) && c + 3 <= |t.vertex| && Free(t, c, a) && Free(t, c, b) && a != b
    requires Previous(a) < c && Next(b) < c && t.vertex[Previous(a)] != t.vertex[Next(b)]
    requires |holes| == |t.leftMost| && LeftMosts(t, holes) && holes[t.vertex[Next(b)]]
    ensures var n, p := t.vertex[Next(b)], t.vertex[Previous(a)];
            MergeS(FaceS(t, a, b, c), n, p, Next(b)).Some? && LeftMosts(MergeS(FaceS(t, a, b, c), n, p, Next(b)).value, holes)
  {
    hide FaceS, MergeS, Matching, SwingLeft, EdgesAgree, Indexed;
    FaceSizes(t, a, b, c);
    FaceSizes(t, b, a, c);
    FaceTurns(c);
    JoinedFace(t, a, b, c);
    JoinedLeftMost(t, a, b, c);
    var n, p, q := t.vertex[Next(b)], t.vertex[Previous(a)], t.vertex[Previous(b)];
    var r := MergeS(FaceS(t, a, b, c), n, p, Next(b)).value;
    TwoGlued(t.opposite, a, b, c + 2, c + 1);
    FreeLeft(r.opposite, c);
    forall v: nat | v < r.numVertices && v in r.vertex && holes[v]
      ensures LeftMostAt(r, v)
    {
      var w := if v == p then n else v;
      assert v != n;
      if w != q {
        assert w in t.vertex;
        assert LeftMostAt(t, w);
        HomeOf(t, c, w);
        StillLeftTwice(t.opposite, a, c + 2, b, c + 1, t.leftMost[w]);
      }
    }
  }

  lemma StartLeftMosts(t: Table, a: nat, c: nat, holes: seq<bool>)
    requires Housed(t, c) && a < c && c + 3 <= |t.vertex| && FaceStart(t, a, c).Some? && Closes(t, a)
    requires |holes| == |t.leftMost| && LeftMosts(t, holes)
    ensures var r := FaceStart(t, a, c).value;
            LeftMosts(r, Unhole(Unhole(Unhole(holes, VertexOf(r, c)), VertexOf(r, c + 1)), VertexOf(r, c + 2)))
  {
    hide FaceStart, Matching, SwingLeft, SecondCorner, Indexed, Homes;
    FaceStartForm(t, a, c);
    SecondHome(t, c, a);
    var b, r := SecondCorner(t, a), FaceStart(t, a, c).value;
    SecondHome(t, c, b);
    var d := SecondCorner(t, b);
    SecondHome(t, c, d);
    FaceTurns(c);
    GlueThree(t.opposite, c, a, b, d);
    var holes1 := Unhole(Unhole(Unhole(holes, VertexOf(r, c)), VertexOf(r, c + 1)), VertexOf(r, c + 2));
    forall v: nat | v < r.numVertices && v in r.vertex && holes1[v]
      ensures LeftMostAt(r, v)
    {
      assert v in t.vertex;
      assert LeftMostAt(t, v);
      HomeOf(t, c, v);
      var e := t.leftMost[v];
      StillLeft(t.opposite, c, a, e);
      StillLeft(t.opposite[c := a][a := c], c + 1, b, e);
      StillLeft(t.opposite[c := a][a := c][c + 1 := b][b := c + 1], c + 2, d, e);
    }
  }

  // ---- steps and runs --------------------------------------------------------------------------------------

  /** Every vertex is one fan, open exactly while it is marked as a hole, and then stored by its left end. */
  ghost predicate Fanned(s: State)
  {
    Full(s) && InRange(s.t.opposite) && Ends(s.t, s.holes) && OneFan(s.t, 3 * s.faces) && LeftMosts(s.t, s.holes)
  }

  lemma StartFanned(numFaces: nat, maxVertices: nat, track: bool, n: nat, numEvents: nat)
    ensures Fanned(Start(numFaces, maxVertices, track, n, numEvents))
  {
    StartFull(numFaces, maxVertices, track, n, numEvents);
  }

  lemma StepSideFanned(s: State, right: bool)
    requires Fanned(s) && 3 * s.faces + 3 <= |s.t.vertex| && StepSide(s, right).Some?
    ensures Fanned(StepSide(s, right).value)
  {
    hide FaceSide, Matching, EdgesAgree, Indexed, Ends, OneFan, LeftMosts, Homes, InRange;
    var a, c := Top(s), 3 * s.faces;
    StepSideKeeps(s, right);
    SideEnds(s.t, a, c, right, s.holes);
    SideFans(s.t, a, c, right);
    SideLeftMosts(s.t, a, c, right, s.holes);
    MatchingRange(FaceSide(s.t, a, c, right).value.opposite);
  }

  lemma StepEFanned(s: State)
    requires Fanned(s) && 3 * s.faces + 3 <= |s.t.vertex| && StepE(s).Some?
    ensures Fanned(StepE(s).value)
  {
    hide FaceE, Matching, EdgesAgree, Indexed, Ends, OneFan, LeftMosts, Homes, InRange;
    var c := 3 * s.faces;
    StepEKeeps(s);
    TriangleEnds(s.t, c, s.holes);
    TriangleFans(s.t, c);
    TriangleLeftMosts(s.t, c, s.holes);
    MatchingRange(FaceE(s.t, c).value.opposite);
  }

  lemma StepCFanned(s: State)
    requires Fanned(s) && 3 * s.faces + 3 <= |s.t.vertex| && StepC(s).Some?
    ensures Fanned(StepC(s).value)
  {
    hide FaceC, Matching, EdgesAgree, Indexed, Ends, OneFan, LeftMosts, InRange;
    var a, c := Top(s), 3 * s.faces;
    FaceSizes(s.t, a, a, c);
    var x := s.t.vertex[Next(a)];
    assert Home(s.t, x);
    var b := Next(s.t.leftMost[x]);
    FaceSizes(s.t, s.t.leftMost[x], s.t.leftMost[x], c);
    Rotate(s.t.leftMost[x]);
    StepCKeeps(s);
    CloseEnds(s.t, a, b, c, x, s.holes);
    CloseFans(s.t, a, b, c, x);
    CloseLeftMosts(s.t, a, b, c, x, s.holes);
    MatchingRange(FaceC(s.t, a, b, c, x).value.opposite);
  }

  lemma StepSFanned(s: State, id: nat, remove: bool)
    requires Fanned(s) && 3 * s.faces + 3 <= |s.t.vertex| && id < |s.splits| && StepS(s, id, remove).Some? && !SelfMerge(s, TOPOLOGY_S, id)
    ensures Fanned(StepS(s, id, remove).value)
  {
    hide FaceS, MergeS, Matching, EdgesAgree, Indexed, Ends, OneFan, LeftMosts, Homes, InRange;
    var b, joined, c := Top(s), Resume(s, id), 3 * s.faces;
    var a := joined[|joined| - 1];
    FaceSizes(s.t, a, b, c);
    FaceSizes(s.t, b, a, c);
    StepSKeeps(s, id, remove);
    JoinedFace(s.t, a, b, c);
    OpenAt(s.t, b, c, s.holes);
    JoinEnds(s.t, a, b, c, s.holes);
    JoinFans(s.t, a, b, c);
    JoinLeftMosts(s.t, a, b, c, s.holes);
    MatchingRange(MergeS(FaceS(s.t, a, b, c), s.t.vertex[Next(b)], s.t.vertex[Previous(a)], Next(b)).value.opposite);
  }

  /** A vertex at a free corner is a hole. */
  lemma OpenAt(t: Table, b: nat, c: nat, holes: seq<bool>)
    requires TableBase(t, c) && Free(t, c, b) && |holes| == |t.leftMost| && Ends(t, holes)
    ensures Next(b) < c && t.vertex[Next(b)] < |holes| && holes[t.vertex[Next(b)]]
  {
    hide TallyOf;
    FaceSizes(t, b, b, c);
    FreeTally(t, b);
    assert EndsAt(t, t.vertex[Next(b)], holes[t.vertex[Next(b)]]);
  }

  /** Every symbol keeps this unless it merges a vertex with itself. */
  lemma StepFanned(s: State, symbol: nat, id: nat, n: nat, events: seq<Event>, remove: bool)
    requires InTable(s, id, n, events) && Fanned(s) && Step(s, symbol, id, n, events, remove).Some? && !SelfMerge(s, symbol, id)
    ensures Fanned(Step(s, symbol, id, n, events, remove).value)
  {
    hide StepC, StepS, StepSide, StepE, TakeSplits, TableBase, TableFull, Ends, OneFan, LeftMosts, SelfMerge, InRange;
    StepKeeps(s, symbol, id, n, events, remove);
    if symbol == TOPOLOGY_C {
      StepCFanned(s);
    } else if symbol == TOPOLOGY_S {
      StepSFanned(s, id, remove);
    } else if symbol == TOPOLOGY_E {
      StepEFanned(s);
    } else {
      StepSideFanned(s, symbol == TOPOLOGY_R);
    }
  }

  lemma {:induction false} RunFanned(s: State, symbols: seq<nat>, events: seq<Event>, remove: bool, i: nat)
    requires |s.splits| == |symbols| && -1 <= s.splitIndex < |events| && i <= |symbols|
    requires Fanned(s) && s.faces == 0 && 3 * i <= |s.t.vertex| && NoSelfMerge(s, symbols, events, remove, i)
    requires RunTo(s, symbols, events, remove, i).Some?
    ensures Fanned(RunTo(s, symbols, events, remove, i).value) && RunTo(s, symbols, events, remove, i).value.faces == i
    decreases i
  {
    hide Step, TableBase, TableFull, SelfMerge, Ends, OneFan, LeftMosts, InRange;
    if i > 0 {
      RunFanned(s, symbols, events, remove, i - 1);
      var r := RunTo(s, symbols, events, remove, i - 1).value;
      StepKeeps(r, symbols[i - 1], i - 1, |symbols|, events, remove);
      StepFanned(r, symbols[i - 1], i - 1, |symbols|, events, remove);
    }
  }

  /** What start faces need and keep. */
  ghost predicate FannedTable(t: Table, k: nat, holes: seq<bool>)
  {
    TableFull(t, k) && InRange(t.opposite) && |holes| == |t.leftMost| && Ends(t, holes) && OneFan(t, k) && LeftMosts(t, holes)
  }

  lemma FaceStartFanned(t: Table, a: nat, c: nat, holes: seq<bool>)
    requires FannedTable(t, c, holes) && a < c && c + 3 <= |t.vertex| && FaceStart(t, a, c).Some? && Closes(t, a)
    ensures var r := FaceStart(t, a, c).value;
            FannedTable(r, c + 3, Unhole(Unhole(Unhole(holes, VertexOf(r, c)), VertexOf(r, c + 1)), VertexOf(r, c + 2)))
  {
    hide FaceStart, Matching, EdgesAgree, Indexed, Ends, OneFan, LeftMosts, Homes, Closes, TableBase, Unhole;
    FullIsHoused(t, c);
    FaceStartKeeps(t, a, c);
    StartEnds(t, a, c, holes);
    StartFans(t, a, c);
    StartLeftMosts(t, a, c, holes);
    MatchingRange(FaceStart(t, a, c).value.opposite);
  }

  lemma FullIsHoused(t: Table, c: nat)
    requires TableFull(t, c)
    ensures Shape(t) && Housed(t, c) && EdgesAgree(t.opposite, t.vertex) && c % 3 == 0 && |t.vertex| % 3 == 0
  {
    hide Indexed, EdgesAgree;
  }

  lemma {:induction false} RunStartFanned(s: State, bits: seq<bool>)
    requires Ready(s) && FannedTable(s.t, 3 * s.faces, s.holes) && ActiveOk(s) && RunStart(s, bits).Some? && AllClose(s, bits)
    ensures var r := RunStart(s, bits).value; FannedTable(r.t, 3 * r.faces, r.holes)
    decreases |s.active|
  {
    hide FaceStart, Closes, FannedTable, Unhole;
    if s.active != [] {
      var s1 := StepStart(s, bits[0]).value;
      if bits[0] {
        FannedSize(s.t, 3 * s.faces, s.holes);
        FaceStartFanned(s.t, Top(s), 3 * s.faces, s.holes);
      }
      RunStartFanned(s1, bits[1..]);
    }
  }

  lemma FannedSize(t: Table, k: nat, holes: seq<bool>)
    requires FannedTable(t, k, holes)
    ensures |t.vertex| % 3 == 0 && k <= |t.vertex|
  {
  }

  /** In a decoded table two corners share a vertex exactly when swings join them, and a vertex is marked
      as a hole exactly when its fan is open, unless a vertex was merged with itself or a start face did
      not close. */
  lemma DecodedFans(numFaces: nat, maxVertices: nat, track: bool, symbols: seq<nat>, bits: seq<bool>, events: seq<Event>, remove: bool)
    requires Decode(numFaces, maxVertices, track, symbols, bits, events, remove).Some?
    requires var s0 := Start(numFaces, maxVertices, track, |symbols|, |events|);
             NoSelfMerge(s0, symbols, events, remove, |symbols|) &&
             AllClose(RunTo(s0, symbols, events, remove, |symbols|).value, bits)
    ensures var s := Decode(numFaces, maxVertices, track, symbols, bits, events, remove).value;
            |s.t.vertex| == |s.t.opposite| == 3 * numFaces && InRange(s.t.opposite) &&
            (forall c, d :: 0 <= c < 3 * numFaces && 0 <= d < 3 * numFaces ==>
               (s.t.vertex[c] == s.t.vertex[d] <==> Linked(s.t.opposite, c, d))) &&
            forall c :: 0 <= c < 3 * numFaces ==>
              var v := s.t.vertex[c];
              0 <= v < |s.holes| && EndsAt(s.t, v, s.holes[v]) && (s.holes[v] ==> LeftMostAt(s.t, v))
  {
    if |symbols| > numFaces {
      TooManySymbols(numFaces, maxVertices, track, symbols, bits, events, remove);
    }
    hide RunTo, RunStart, NoSelfMerge, AllClose, Full, FannedTable, TableFull, EndsAt, LeftMostAt, Linked;
    var s0 := Start(numFaces, maxVertices, track, |symbols|, |events|);
    StartFanned(numFaces, maxVertices, track, |symbols|, |events|);
    RunFanned(s0, symbols, events, remove, |symbols|);
    var s1 := RunTo(s0, symbols, events, remove, |symbols|).value;
    FannedParts(s1);
    RunStartFanned(s1, bits);
    FansOf(Decode(numFaces, maxVertices, track, symbols, bits, events, remove).value.t, 3 * numFaces,
           Decode(numFaces, maxVertices, track, symbols, bits, events, remove).value.holes);
  }

  lemma FannedParts(s: State)
    requires Fanned(s)
    ensures Ready(s) && FannedTable(s.t, 3 * s.faces, s.holes) && ActiveOk(s)
  {
    hide TableFull, Ends, OneFan, LeftMosts;
  }

  lemma FansOf(t: Table, k: nat, holes: seq<bool>)
    requires FannedTable(t, k, holes) && |t.vertex| == k
    ensures |t.opposite| == k && InRange(t.opposite)
    ensures forall c, d :: 0 <= c < k && 0 <= d < k ==> (t.vertex[c] == t.vertex[d] <==> Linked(t.opposite, c, d))
    ensures forall c :: 0 <= c < k ==>
              var v := t.vertex[c]; 0 <= v < |holes| && EndsAt(t, v, holes[v]) && (holes[v] ==> LeftMostAt(t, v))
  {
    hide EndsAt, LeftMostAt, Linked, Indexed, Homes, EdgesAgree;
    AgreeingSwings(t.opposite, t.vertex);
    forall c, d | 0 <= c < k && 0 <= d < k && Linked(t.opposite, c, d)
      ensures t.vertex[c] == t.vertex[d]
    {
      ConstantOnFans(t.opposite, t.vertex, c, d);
    }
  }
}
