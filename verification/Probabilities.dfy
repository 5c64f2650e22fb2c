/** Probability tables (internal/entropy/rans_encoder.go, internal/entropy/symbols.go): the
    integer fix-up that makes a table sum to the precision, and its byte format. */
module Probabilities {
  import opened Bits
  import opened Rans
  import opened Stream

  // ---- sums -----------------------------------------------------------------------------------

  lemma SumPush(p: seq<nat>, x: nat)
    ensures Sum(p + [x]) == Sum(p) + x
  {
    assert (p + [x])[..|p|] == p;
  }

  lemma {:induction false} SumUpdate(p: seq<nat>, i: nat, v: nat)
    requires i < |p|
    ensures Sum(p[i := v]) == Sum(p) - p[i] + v
    decreases |p|
  {
    var n := |p| - 1;
    if i == n {
      assert p[i := v][..n] == p[..n];
    } else {
      SumUpdate(p[..n], i, v);
      assert p[i := v][..n] == p[..n][i := v];
    }
  }

  lemma {:induction false} SumAtLeast(p: seq<nat>, i: nat)
    requires i < |p|
    ensures p[i] <= Sum(p)
    decreases |p|
  {
    if i < |p| - 1 {
      SumAtLeast(p[..|p| - 1], i);
    }
  }

  lemma {:induction false} SumZero(p: seq<nat>)
    requires forall i :: 0 <= i < |p| ==> p[i] == 0
    ensures Sum(p) == 0
  {
    if p != [] {
      SumZero(p[..|p| - 1]);
    }
  }

  // ---- normalisation --------------------------------------------------------------------------

  /** The rounded share of one symbol: at most three quarters above freq * precision / total, which is
      half a slot and room for the rounding of doubles; zero for a missing symbol, everything for
      the only one. */
  ghost predicate ShareOk(freq: nat, total: nat, precision: nat, share: nat)
  {
    4 * (share * total) <= 4 * (freq * precision) + 3 * total && (freq == 0 ==> share == 0) && (freq == total > 0 ==> share == precision)
  }

  /** Present symbols get at least one slot. */
  function Forced(freq: nat, share: nat): nat
  {
    if share == 0 && freq > 0 then 1 else share
  }

  ghost predicate Shares(frequencies: seq<nat>, shares: seq<nat>, precision: nat)
  {
    |shares| == |frequencies| &&
    forall i :: 0 <= i < |shares| ==> ShareOk(frequencies[i], Sum(frequencies), precision, shares[i])
  }

  /** Exactly the present symbols have slots. */
  ghost predicate Present(frequencies: seq<nat>, p: seq<nat>)
  {
    |p| <= |frequencies| && (forall i :: 0 <= i < |p| ==> (p[i] > 0 <==> frequencies[i] > 0)) &&
    forall i :: |p| <= i < |frequencies| ==> frequencies[i] == 0
  }

  /** Rounding and forcing add at most one slot for each symbol. */
  lemma {:induction false} ForcedSum(frequencies: seq<nat>, shares: seq<nat>, precision: nat, p: seq<nat>, k: nat)
    requires Shares(frequencies, shares, precision) && k <= |p| <= |frequencies| && Sum(frequencies) > 0
    requires forall i :: 0 <= i < |p| ==> p[i] == Forced(frequencies[i], shares[i])
    ensures Sum(p[..k]) * Sum(frequencies) <= Sum(frequencies[..k]) * precision + k * Sum(frequencies)
    decreases k
  {
    var total := Sum(frequencies);
    if k > 0 {
      ForcedSum(frequencies, shares, precision, p, k - 1);
      assert p[..k] == p[..k - 1] + [p[k - 1]];
      assert frequencies[..k] == frequencies[..k - 1] + [frequencies[k - 1]];
      SumPush(p[..k - 1], p[k - 1]);
      SumPush(frequencies[..k - 1], frequencies[k - 1]);
      ForcedOne(frequencies[k - 1], total, precision, shares[k - 1]);
      AddScaled(Sum(p[..k - 1]), p[k - 1], Sum(frequencies[..k - 1]), frequencies[k - 1], precision, k - 1, total);
    }
  }

  lemma ForcedOne(freq: nat, total: nat, precision: nat, share: nat)
    requires ShareOk(freq, total, precision, share)
    ensures Forced(freq, share) * total <= freq * precision + total
  {
    if share == 0 && freq > 0 {
      MulMono(0, freq, precision);
    }
  }

  lemma AddScaled(s: nat, x: nat, f: nat, y: nat, precision: nat, k: nat, total: nat)
    requires s * total <= f * precision + k * total && x * total <= y * precision + total
    ensures (s + x) * total <= (f + y) * precision + (k + 1) * total
  {
    assert (s + x) * total == s * total + x * total;
    assert (f + y) * precision == f * precision + y * precision;
    assert (k + 1) * total == k * total + total;
  }

  /** Shares that nothing was added to exceed the precision by three quarters of a slot each at most. */
  lemma {:induction false} RoundedSum(frequencies: seq<nat>, shares: seq<nat>, precision: nat, k: nat)
    requires Shares(frequencies, shares, precision) && k <= |frequencies|
    ensures 4 * (Sum(shares[..k]) * Sum(frequencies)) <= 4 * (Sum(frequencies[..k]) * precision) + 3 * (k * Sum(frequencies))
    decreases k
  {
    var total := Sum(frequencies);
    if k > 0 {
      RoundedSum(frequencies, shares, precision, k - 1);
      assert shares[..k] == shares[..k - 1] + [shares[k - 1]];
      assert frequencies[..k] == frequencies[..k - 1] + [frequencies[k - 1]];
      SumPush(shares[..k - 1], shares[k - 1]);
      SumPush(frequencies[..k - 1], frequencies[k - 1]);
      assert ShareOk(frequencies[k - 1], total, precision, shares[k - 1]);
      AddRounded(Sum(shares[..k - 1]), shares[k - 1], Sum(frequencies[..k - 1]), frequencies[k - 1], precision, k - 1, total);
    }
  }

  lemma AddRounded(s: nat, x: nat, f: nat, y: nat, precision: nat, k: nat, total: nat)
    requires 4 * (s * total) <= 4 * (f * precision) + 3 * (k * total) && 4 * (x * total) <= 4 * (y * precision) + 3 * total
    ensures 4 * ((s + x) * total) <= 4 * ((f + y) * precision) + 3 * ((k + 1) * total)
  {
    assert (s + x) * total == s * total + x * total;
    assert (f + y) * precision == f * precision + y * precision;
    assert (k + 1) * total == k * total + total;
  }

  /** A table without a forced slot. */
  lemma UnforcedSum(frequencies: seq<nat>, shares: seq<nat>, precision: nat, n: nat)
    requires Shares(frequencies, shares, precision) && EndsAt(frequencies, n) && Sum(frequencies) > 0
    requires forall i :: 0 <= i < n ==> Forced(frequencies[i], shares[i]) >= 2
    ensures 4 * Sum(ForcedTable(frequencies, shares, n)) <= 4 * precision + 3 * n
  {
    hide Sum, ShareOk;
    var total := Sum(frequencies);
    assert ForcedTable(frequencies, shares, n) == shares[..n];
    RoundedSum(frequencies, shares, precision, n);
    TailSum(frequencies, n);
    CancelRounded(Sum(shares[..n]), precision, n, total);
  }

  lemma CancelRounded(s: nat, precision: nat, n: nat, total: nat)
    requires total > 0 && 4 * (s * total) <= 4 * (total * precision) + 3 * (n * total)
    ensures 4 * s <= 4 * precision + 3 * n
  {
    var a, b := 4 * s, 4 * precision + 3 * n;
    assert a * total == 4 * (s * total) && b * total == 4 * (total * precision) + 3 * (n * total);
    if a >= b + 1 {
      MulMono(b + 1, a, total);
      OneMore(b, total);
    }
  }

  lemma OneMore(b: nat, total: nat)
    ensures (b + 1) * total == b * total + total
  {
  }

  /** No 32-bit sum overflows. */
  lemma ForcedBound(frequencies: seq<nat>, shares: seq<nat>, precision: nat, p: seq<nat>)
    requires Shares(frequencies, shares, precision) && Sum(frequencies) > 0 && Present(frequencies, p)
    requires forall i :: 0 <= i < |p| ==> p[i] == Forced(frequencies[i], shares[i])
    ensures Sum(p) <= precision + |p|
  {
    var total := Sum(frequencies);
    hide Sum;
    ForcedSum(frequencies, shares, precision, p, |p|);
    assert p[..|p|] == p;
    TailSum(frequencies, |p|);
    Cancel(Sum(p), precision, |p|, total);
  }

  lemma Cancel(s: nat, a: nat, b: nat, t: nat)
    requires t > 0 && s * t <= t * a + b * t
    ensures s <= a + b
  {
    assert (a + b + 1) * t == a * t + b * t + t;
    if s > a + b {
      MulMono(a + b + 1, s, t);
    }
  }

  lemma {:induction false} TailSum(s: seq<nat>, k: nat)
    requires k <= |s| && forall i :: k <= i < |s| ==> s[i] == 0
    ensures Sum(s[..k]) == Sum(s)
    decreases |s|
  {
    if k == |s| {
      assert s[..k] == s;
    } else {
      TailSum(s[..|s| - 1], k);
      assert s[..|s| - 1][..k] == s[..k];
    }
  }

  /** Any ascending order of the symbols by probability. */
  ghost predicate Ascending(order: seq<nat>, p: seq<nat>)
  {
    |order| == |p| && (forall i :: 0 <= i < |order| ==> order[i] < |p|) && (forall s :: 0 <= s < |p| ==> s in order) &&
    (forall i, j :: 0 <= i < j < |order| ==> order[i] != order[j]) &&
    forall i, j :: 0 <= i <= j < |order| ==> p[order[i]] <= p[order[j]]
  }

  /** The scaled-down probability: not above the present one, and never falling as that rises. */
  ghost predicate Scales(scale: (nat, nat) -> nat)
  {
    (forall total, prob {:trigger scale(total, prob)} :: scale(total, prob) <= prob) &&
    forall total, a, b {:trigger scale(total, a), scale(total, b)} :: a <= b ==> scale(total, a) <= scale(total, b)
  }

  /** What one round makes of a probability. */
  function Lowered(prob: nat, scaled: nat): nat
    requires prob > 1
  {
    if scaled >= prob then prob - 1 else if scaled == 0 then 1 else scaled
  }

  lemma LoweredAscends(a: nat, b: nat, sa: nat, sb: nat)
    requires 1 < a <= b && sa <= a && sb <= b && sa <= sb
    ensures 1 <= Lowered(a, sa) <= Lowered(b, sb) < b
  {
  }

  /** Takes slots away from one symbol, leaving it at least one; all that the round asks for, unless
      the excess ends before. */
  method TakeSlots(p: array<nat>, symbol: nat, ghost total: nat, excess: nat, precision: nat, scaled: nat) returns (fix: nat)
    requires symbol < p.Length && p[symbol] > 1 && total == Sum(p[..]) == precision + excess && excess > 0 && scaled <= p[symbol]
    modifies p
    ensures 1 <= fix <= excess && fix < old(p[symbol])
    ensures p[..] == old(p[..])[symbol := old(p[symbol]) - fix] && Sum(p[..]) == total - fix
    ensures fix < excess ==> p[symbol] == Lowered(old(p[symbol]), scaled)
  {
    fix := p[symbol] - scaled;
    if fix == 0 {
      fix := 1;
    }
    if fix >= p[symbol] {
      fix := p[symbol] - 1;
    }
    if fix > excess {
      fix := excess;
    }
    SumUpdate(p[..], symbol, p[symbol] - fix);
    p[symbol] := p[symbol] - fix;
  }

  // ---- when there are slots for all --------------------------------------------------------------

  /** Symbols that occur. */
  function PresentCount(p: seq<nat>): (n: nat)
    ensures n <= |p|
  {
    if p == [] then 0 else PresentCount(p[..|p| - 1]) + if p[|p| - 1] > 0 then 1 else 0
  }

  lemma {:induction false} EveryOneASlot(p: seq<nat>)
    ensures PresentCount(p) <= Sum(p)
    decreases |p|
  {
    if p != [] {
      EveryOneASlot(p[..|p| - 1]);
    }
  }

  /** If all but one have a slot at most, the sum is that one's and one for each other present one. */
  lemma {:induction false} OneLarge(p: seq<nat>, k: nat)
    requires k < |p| && forall i :: 0 <= i < |p| && i != k ==> p[i] <= 1
    ensures Sum(p) + (if p[k] > 0 then 1 else 0) == PresentCount(p) + p[k]
    decreases |p|
  {
    var m := |p| - 1;
    if k < m {
      OneLarge(p[..m], k);
    } else {
      AllSmall(p[..m]);
    }
  }

  lemma {:induction false} AllSmall(p: seq<nat>)
    requires forall i :: 0 <= i < |p| ==> p[i] <= 1
    ensures Sum(p) == PresentCount(p)
    decreases |p|
  {
    if p != [] {
      AllSmall(p[..|p| - 1]);
    }
  }

  lemma {:induction false} AtLeastEach(p: seq<nat>, m: nat)
    requires m > 0 && forall i :: 0 <= i < |p| ==> p[i] >= m
    ensures Sum(p) >= m * |p| && PresentCount(p) == |p|
    decreases |p|
  {
    if p != [] {
      AtLeastEach(p[..|p| - 1], m);
      assert m * |p| == m * (|p| - 1) + m;
    }
  }

  lemma {:induction false} SamePresent(p: seq<nat>, q: seq<nat>)
    requires |p| == |q| && forall i :: 0 <= i < |p| ==> (p[i] > 0 <==> q[i] > 0)
    ensures PresentCount(p) == PresentCount(q)
    decreases |p|
  {
    if p != [] {
      SamePresent(p[..|p| - 1], q[..|q| - 1]);
    }
  }

  /** The smallest probability of a full table leaves no room when all others have one slot, unless
      there are more symbols than slots. */
  lemma SmallestFits(n: nat, m: nat, precision: nat, sum: nat)
    requires n > 0 && m >= 2 && n * m <= sum && 4 * sum <= 4 * precision + 3 * n && m + n - 1 > precision
    ensures n > precision
  {
    var d: int := precision + 2 - n;
    MulMono(d, m, n);
    assert d * n == n * precision + 2 * n - n * n;
    assert precision * (n - 1) == n * precision - precision && n * (n - 1) == n * n - n;
    if n <= precision {
      MulMono(n, precision, n - 1);
    }
  }

  /** A round state: the smallest symbol is untouched, the others ascend. */
  ghost predicate RoundOk(p: seq<nat>, p0: seq<nat>, order: seq<nat>)
  {
    |p| == |p0| == |order| >= 2 && Ascending(order, p0) && p[order[0]] == p0[order[0]] &&
    (forall i :: 0 <= i < |p| ==> (p[i] > 0 <==> p0[i] > 0)) &&
    forall i, j :: 1 <= i <= j < |order| ==> p[order[i]] <= p[order[j]]
  }

  /** When the largest symbol has one slot and the sum is still too large, there are too many symbols. */
  lemma Stuck(p: seq<nat>, p0: seq<nat>, order: seq<nat>, precision: nat)
    requires RoundOk(p, p0, order) && p[order[|order| - 1]] <= 1 && Sum(p) > precision
    requires (forall i :: 0 <= i < |p0| ==> p0[i] >= 2) ==> 4 * Sum(p0) <= 4 * precision + 3 * |p0|
    ensures PresentCount(p0) > precision
  {
    hide Sum;
    var k := order[0];
    forall i | 0 <= i < |p| && i != k
      ensures p[i] <= 1
    {
      assert i in order;
      var j :| 0 <= j < |order| && order[j] == i;
      assert j >= 1;
    }
    OneLarge(p, k);
    SamePresent(p, p0);
    if p0[k] >= 2 {
      forall i | 0 <= i < |p0|
        ensures p0[i] >= p0[k]
      {
        assert i in order;
        var j :| 0 <= j < |order| && order[j] == i;
      }
      AtLeastEach(p0, p0[k]);
      SmallestFits(|p0|, p0[k], precision, Sum(p0));
    }
  }

  /** In the middle of a round: symbols above place j are lowered, the others as before. */
  ghost predicate Midway(p: seq<nat>, q: seq<nat>, order: seq<nat>, scaled: seq<nat>, j: nat)
  {
    |p| == |q| == |order| == |scaled| && j < |order| && (forall i :: 0 <= i < |order| ==> order[i] < |p|) &&
    (forall i :: 0 <= i <= j ==> p[order[i]] == q[order[i]]) &&
    forall i :: j < i < |order| ==> q[order[i]] > 1 && p[order[i]] == Lowered(q[order[i]], scaled[order[i]])
  }

  /** A round that stops at place j, at the end or at a symbol with one slot, leaves them ascending. */
  lemma RoundEnds(p: seq<nat>, q: seq<nat>, p0: seq<nat>, order: seq<nat>, scaled: seq<nat>, j: nat)
    requires RoundOk(q, p0, order) && Midway(p, q, order, scaled, j) && (j == 0 || q[order[j]] <= 1)
    requires forall i :: 0 <= i < |q| ==> scaled[i] <= q[i]
    requires forall a, b :: 0 <= a < |q| && 0 <= b < |q| && q[a] <= q[b] ==> scaled[a] <= scaled[b]
    requires forall i :: 0 <= i < |p| ==> (p[i] > 0 <==> p0[i] > 0)
    ensures RoundOk(p, p0, order)
  {
    hide Lowered;
    forall i, k | 1 <= i <= k < |order|
      ensures p[order[i]] <= p[order[k]]
    {
      if i > j {
        LoweredAscends(q[order[i]], q[order[k]], scaled[order[i]], scaled[order[k]]);
      } else if k > j {
        LoweredAscends(q[order[k]], q[order[k]], scaled[order[k]], scaled[order[k]]);
      }
    }
  }

  lemma MidwayNext(p: seq<nat>, p1: seq<nat>, q: seq<nat>, p0: seq<nat>, order: seq<nat>, scaled: seq<nat>, j: nat)
    requires Midway(p, q, order, scaled, j) && RoundOk(q, p0, order) && j > 0 && p[order[j]] > 1
    requires p1 == p[order[j] := Lowered(p[order[j]], scaled[order[j]])]
    ensures Midway(p1, q, order, scaled, j - 1)
  {
    hide Lowered;
  }

  ghost function ScaledAll(q: seq<nat>, total: nat, scale: (nat, nat) -> nat): (r: seq<nat>)
    ensures |r| == |q| && forall i :: 0 <= i < |r| ==> r[i] == scale(total, q[i])
  {
    seq(|q|, i requires 0 <= i < |q| => scale(total, q[i]))
  }

  /** One round over the symbols, from the most probable one on; stuck when that has one slot left. */
  method Round(p: array<nat>, order: seq<nat>, precision: nat, excess0: nat, scale: (nat, nat) -> nat, ghost p0: seq<nat>)
    returns (stuck: bool, excess: nat)
    requires RoundOk(p[..], p0, order) && Sum(p[..]) == precision + excess0 && excess0 > 0 && Scales(scale)
    modifies p
    ensures Sum(p[..]) == precision + excess
    ensures stuck ==> p[..] == old(p[..]) && p[order[|order| - 1]] <= 1
    ensures !stuck ==> excess < excess0 && forall i :: 0 <= i < p.Length ==> (p[i] > 0 <==> p0[i] > 0)
    ensures !stuck && excess > 0 ==> RoundOk(p[..], p0, order)
  {
    hide Sum, Ascending, Lowered;
    ghost var q, total0 := p[..], precision + excess0;
    ghost var scaled := ScaledAll(q, total0, scale);
    excess := excess0;
    var j := |order| - 1;
    RoundFacts(q, p0, order);
    while j > 0
      invariant 0 <= j < |order| == p.Length && Sum(p[..]) == precision + excess && 0 < excess <= excess0
      invariant j < |order| - 1 ==> excess < excess0
      invariant j == |order| - 1 ==> p[..] == q
      invariant Midway(p[..], q, order, scaled, j)
      invariant forall i :: 0 <= i < p.Length ==> (p[i] > 0 <==> p0[i] > 0)
    {
      var symbol := order[j];
      if p[symbol] <= 1 {
        if j == |order| - 1 {
          return true, excess;
        }
        break;
      }
      ghost var before := p[..];
      var fix := TakeSlots(p, symbol, precision + excess, excess, precision, scale(precision + excess0, p[symbol]));
      excess := excess - fix;
      if excess == 0 {
        return false, 0;
      }
      MidwayNext(before, p[..], q, p0, order, scaled, j);
      j := j - 1;
    }
    RoundEnds(p[..], q, p0, order, scaled, j);
    stuck := false;
  }

  lemma RoundFacts(q: seq<nat>, p0: seq<nat>, order: seq<nat>)
    requires RoundOk(q, p0, order)
    ensures |order| == |q| >= 2 && forall i :: 0 <= i < |order| ==> order[i] < |q|
    ensures forall i :: 0 <= i < |q| ==> (q[i] > 0 <==> p0[i] > 0)
  {
  }

  /** The fix-up loops: every round takes at least one slot, so they end; with the sum right exactly
      when there are no more present symbols than slots. */
  method Reduce(p: array<nat>, order: seq<nat>, precision: nat, scale: (nat, nat) -> nat) returns (ok: bool)
    requires p.Length >= 2 && Ascending(order, p[..]) && Sum(p[..]) > precision && Scales(scale)
    requires (forall i :: 0 <= i < p.Length ==> p[i] >= 2) ==> 4 * Sum(p[..]) <= 4 * precision + 3 * p.Length
    modifies p
    ensures ok ==> Sum(p[..]) == precision
    ensures ok <==> PresentCount(old(p[..])) <= precision
    ensures forall i :: 0 <= i < p.Length ==> (p[i] > 0 <==> old(p[i]) > 0)
  {
    hide Sum, Scales, RoundOk, Ascending, PresentCount;
    ghost var p0 := p[..];
    var total := SumOf(p);
    var excess := total - precision;
    RoundStarts(p0, order);
    while excess > 0
      invariant excess >= 0 && Sum(p[..]) == precision + excess
      invariant excess > 0 ==> RoundOk(p[..], p0, order)
      invariant forall i :: 0 <= i < p.Length ==> (p[i] > 0 <==> p0[i] > 0)
      decreases excess
    {
      RoundFacts(p[..], p0, order);
      var stuck;
      stuck, excess := Round(p, order, precision, excess, scale, p0);
      if stuck {
        Stuck(p[..], p0, order, precision);
        return false;
      }
    }
    SamePresent(p[..], p0);
    EveryOneASlot(p[..]);
    ok := true;
  }

  lemma RoundStarts(p: seq<nat>, order: seq<nat>)
    requires |p| >= 2 && Ascending(order, p)
    ensures RoundOk(p, p, order)
  {
  }

  method SumOf(p: array<nat>) returns (total: nat)
    ensures total == Sum(p[..])
  {
    total := 0;
    for i := 0 to p.Length
      invariant total == Sum(p[..i])
    {
      assert p[..i + 1] == p[..i] + [p[i]];
      SumPush(p[..i], p[i]);
      total := total + p[i];
    }
    assert p[..p.Length] == p[..];
  }

  /** The last present symbol, or -1. */
  method LastPresent(frequencies: seq<nat>) returns (last: int, total: nat)
    ensures total == Sum(frequencies) && -1 <= last < |frequencies|
    ensures last >= 0 ==> frequencies[last] > 0
    ensures forall i :: last < i < |frequencies| ==> frequencies[i] == 0
  {
    last, total := -1, 0;
    for i := 0 to |frequencies|
      invariant total == Sum(frequencies[..i]) && -1 <= last < i && (last >= 0 ==> frequencies[last] > 0)
      invariant forall k :: last < k < i ==> frequencies[k] == 0
    {
      assert frequencies[..i + 1] == frequencies[..i] + [frequencies[i]];
      SumPush(frequencies[..i], frequencies[i]);
      total := total + frequencies[i];
      if frequencies[i] > 0 {
        last := i;
      }
    }
    assert frequencies[..|frequencies|] == frequencies;
  }

  /** The table before the fix-up. */
  function ForcedTable(frequencies: seq<nat>, shares: seq<nat>, n: nat): (r: seq<nat>)
    requires n <= |frequencies| == |shares|
    ensures |r| == n && forall i :: 0 <= i < n ==> r[i] == Forced(frequencies[i], shares[i])
  {
    seq(n, i requires 0 <= i < n => Forced(frequencies[i], shares[i]))
  }

  /** The alphabet ends with its last present symbol. */
  ghost predicate EndsAt(frequencies: seq<nat>, n: nat)
  {
    n <= |frequencies| && (n > 0 ==> frequencies[n - 1] > 0) && forall i :: n <= i < |frequencies| ==> frequencies[i] == 0
  }

  lemma ForcedPresent(frequencies: seq<nat>, shares: seq<nat>, precision: nat, n: nat)
    requires Shares(frequencies, shares, precision) && EndsAt(frequencies, n)
    ensures Present(frequencies, ForcedTable(frequencies, shares, n))
  {
    forall i | 0 <= i < n
      ensures Forced(frequencies[i], shares[i]) > 0 <==> frequencies[i] > 0
    {
      assert ShareOk(frequencies[i], Sum(frequencies), precision, shares[i]);
    }
  }

  /** A lone symbol has everything already. */
  lemma LoneSymbol(frequencies: seq<nat>, shares: seq<nat>, precision: nat)
    requires Shares(frequencies, shares, precision) && EndsAt(frequencies, 1) && precision > 0
    ensures Sum(ForcedTable(frequencies, shares, 1)) == precision
  {
    TailSum(frequencies, 1);
    assert frequencies[..1] == [] + [frequencies[0]];
    SumPush([], frequencies[0]);
    assert ShareOk(frequencies[0], Sum(frequencies), precision, shares[0]);
    assert ForcedTable(frequencies, shares, 1) == [] + [precision];
    SumPush([], precision);
  }

  /** The most probable symbol of a non-empty table is present. */
  lemma LargestPresent(order: seq<nat>, p: seq<nat>)
    requires Ascending(order, p) && Sum(p) > 0
    ensures order != [] && order[|order| - 1] < |p| && p[order[|order| - 1]] > 0
  {
    if order == [] || p[order[|order| - 1]] == 0 {
      forall i | 0 <= i < |p|
        ensures p[i] == 0
      {
        assert i in order;
      }
      SumZero(p);
    }
  }

  method ForceShares(frequencies: seq<nat>, shares: seq<nat>, n: nat) returns (p: array<nat>, sum: nat)
    requires n <= |frequencies| == |shares|
    ensures fresh(p) && p[..] == ForcedTable(frequencies, shares, n) && sum == Sum(p[..])
  {
    p := new nat[n](_ => 0);
    sum := 0;
    for i := 0 to n
      invariant forall k :: 0 <= k < i ==> p[k] == Forced(frequencies[k], shares[k])
      invariant sum == Sum(p[..i])
    {
      var share := shares[i];
      if share == 0 && frequencies[i] > 0 {
        share := 1;
      }
      ghost var before := p[..i];
      p[i] := share;
      assert p[..i] == before && p[..i + 1] == p[..i] + [share];
      SumPush(p[..i], share);
      sum := sum + share;
    }
    assert p[..n] == p[..];
  }

  lemma CountPresent(frequencies: seq<nat>, p: seq<nat>)
    requires Present(frequencies, p)
    ensures PresentCount(p) == PresentCount(frequencies)
  {
    SamePresent(p, frequencies[..|p|]);
    TailAbsent(frequencies, |p|);
  }

  lemma {:induction false} TailAbsent(s: seq<nat>, k: nat)
    requires k <= |s| && forall i :: k <= i < |s| ==> s[i] == 0
    ensures PresentCount(s[..k]) == PresentCount(s)
    decreases |s|
  {
    if k == |s| {
      assert s[..k] == s;
    } else {
      TailAbsent(s[..|s| - 1], k);
      assert s[..|s| - 1][..k] == s[..k];
    }
  }

  /** buildRansProbabilityTable, for any rounding of the shares, any order the sort may give and
      any ascending scaling: it succeeds exactly when some symbol is present and there are no more
      present symbols than slots; then the table sums to the precision and gives slots to exactly
      the present symbols; no 32-bit sum overflows on the way. */
  method BuildTable(frequencies: seq<nat>, precision: nat, shares: seq<nat>, order: seq<nat>, scale: (nat, nat) -> nat)
    returns (ok: bool, table: seq<nat>)
    requires Shares(frequencies, shares, precision) && Scales(scale) && 0 < precision <= 0x10_0000 && |frequencies| <= 0x4_0000
    requires EndsAt(frequencies, |order|) && Ascending(order, ForcedTable(frequencies, shares, |order|))
    ensures ok ==> Sum(table) == precision && Present(frequencies, table) && EndsAt(frequencies, |table|)
    ensures Sum(frequencies) == 0 ==> !ok
    ensures ok <==> Sum(frequencies) > 0 && PresentCount(frequencies) <= precision
  {
    hide Sum, Scales, ShareOk, PresentCount, Ascending;
    table := [];
    var last, total := LastPresent(frequencies);
    if total == 0 || last < 0 {
      if last < 0 {
        SumZero(frequencies);
      }
      return false, table;
    }
    var n := last + 1;
    assert n == |order|;
    var p, sum := ForceShares(frequencies, shares, n);
    ForcedPresent(frequencies, shares, precision, n);
    ForcedBound(frequencies, shares, precision, p[..]);
    CountPresent(frequencies, p[..]);
    EveryOneASlot(p[..]);
    if n == 1 {
      LoneSymbol(frequencies, shares, precision);
    }
    if forall i :: 0 <= i < n ==> p[i] >= 2 {
      UnforcedSum(frequencies, shares, precision, n);
    }
    ghost var p0 := p[..];
    if sum < precision {
      SomePresent(frequencies, p0, last);
      LargestPresent(order, p0);
      var largest := order[n - 1];
      SumUpdate(p0, largest, p0[largest] + (precision - sum));
      p[largest] := p[largest] + (precision - sum);
      assert p[..] == p0[largest := p0[largest] + (precision - sum)];
    } else if sum > precision {
      ok := Reduce(p, order, precision, scale);
      if !ok {
        return;
      }
    }
    table := p[..];
    assert forall i :: 0 <= i < n ==> p0[i] == ForcedTable(frequencies, shares, n)[i] && table[i] == p[i];
    var cumulated := SumOf(p);
    if cumulated != precision {
      return false, table;
    }
    ok := true;
  }

  lemma SomePresent(frequencies: seq<nat>, p: seq<nat>, i: nat)
    requires Present(frequencies, p) && i < |p| && frequencies[i] > 0
    ensures Sum(p) > 0
  {
    SumAtLeast(p, i);
  }

  // ---- the byte format ------------------------------------------------------------------------

  /** Zeros after position i, at most 63 counted; the table does not end in a zero. */
  function ZeroRun(p: seq<nat>, i: nat, offset: nat): (r: nat)
    requires i + offset < |p| && offset <= 63 && p[|p| - 1] > 0
    requires forall k :: i <= k <= i + offset ==> p[k] == 0
    ensures offset <= r <= 63 && i + r < |p| - 1 && forall k :: i <= k <= i + r ==> p[k] == 0
    decreases 63 - offset
  {
    if offset == 63 || p[i + offset + 1] > 0 then offset else ZeroRun(p, i, offset + 1)
  }

  /** One entry: two bits of length, then the value in 6, 14 or 22 bits. */
  function EntryBytes(prob: nat): seq<byte>
    requires prob < 0x40_0000
  {
    if prob < 0x40 then [4 * prob]
    else if prob < 0x4000 then [4 * (prob % 64) + 1, prob / 64]
    else [4 * (prob % 64) + 2, prob / 64 % 256, prob / 0x4000]
  }

  /** The entries from i on; a run of zeros takes one byte. */
  function Entries(p: seq<nat>, i: nat): seq<byte>
    requires i <= |p| && (p != [] ==> p[|p| - 1] > 0) && forall k :: 0 <= k < |p| ==> p[k] < 0x40_0000
    decreases |p| - i
  {
    if i == |p| then []
    else if p[i] == 0 then
      var offset := ZeroRun(p, i, 0);
      [4 * offset + 3] + Entries(p, i + offset + 1)
    else EntryBytes(p[i]) + Entries(p, i + 1)
  }

  function TableBytes(p: seq<nat>): seq<byte>
    requires (p != [] ==> p[|p| - 1] > 0) && forall k :: 0 <= k < |p| ==> p[k] < 0x40_0000
  {
    VarBytes(|p|) + Entries(p, 0)
  }

  function Zeros(n: nat): seq<nat>
  {
    seq(n, _ => 0)
  }

  /** The extra bytes of an entry, low first, above its six bits. */
  function ReadExtra(low: nat, token: nat, r: seq<byte>): Option<(nat, seq<byte>)>
    requires token < 3
  {
    if token == 0 then Some((low, r))
    else if r == [] then None
    else if token == 1 then Some((low + 64 * r[0] as int, r[1..]))
    else if |r| < 2 then None
    else Some((low + 64 * r[0] as int + 0x4000 * r[1] as int, r[2..]))
  }

  /** n entries; None when a run passes the end or bytes are missing. */
  function ReadEntries(r: seq<byte>, n: nat): (e: Option<(seq<nat>, seq<byte>)>)
    ensures e.Some? ==> |e.value.0| == n && forall i :: 0 <= i < n ==> e.value.0[i] < 0x40_0000
    decreases n
  {
    if n == 0 then Some(([], r))
    else if r == [] then None
    else
      var token, high := r[0] as int % 4, r[0] / 4;
      if token == 3 then
        if high >= n then None
        else
          match ReadEntries(r[1..], n - high - 1)
          case None => None
          case Some((p, rest)) => Some((Zeros(high + 1) + p, rest))
      else
        match ReadExtra(high, token, r[1..])
        case None => None
        case Some((prob, r1)) =>
          match ReadEntries(r1, n - 1)
          case None => None
          case Some((p, rest)) => Some(([prob] + p, rest))
  }

  function ReadTable(r: seq<byte>): (t: Option<(seq<nat>, seq<byte>)>)
    ensures t.Some? ==> forall i :: 0 <= i < |t.value.0| ==> t.value.0[i] < 0x40_0000
  {
    match ReadVarUint32(r)
    case None => None
    case Some((n, r1)) => ReadEntries(r1, n)
  }

  lemma EntryRoundTrip(prob: nat, rest: seq<byte>)
    requires prob < 0x40_0000
    ensures var b := EntryBytes(prob) + rest;
            b != [] && b[0] as int % 4 != 3 && ReadExtra(b[0] / 4, b[0] as int % 4, b[1..]) == Some((prob, rest))
  {
    var b := EntryBytes(prob) + rest;
    DivDiv(prob, 64, 256);
    if prob < 0x40 {
      assert b[1..] == rest;
    } else if prob < 0x4000 {
      assert b[1..][1..] == rest;
    } else {
      assert b[1..][2..] == rest;
    }
  }

  /** Tables come back from their bytes, zero runs of any length included. */
  lemma {:induction false} EntriesRoundTrip(p: seq<nat>, i: nat, suffix: seq<byte>)
    requires i <= |p| && (p != [] ==> p[|p| - 1] > 0) && forall k :: 0 <= k < |p| ==> p[k] < 0x40_0000
    ensures ReadEntries(Entries(p, i) + suffix, |p| - i) == Some((p[i..], suffix))
    decreases |p| - i
  {
    hide EntryBytes, ReadEntries, Entries, ZeroRun;
    if i == |p| {
      NoEntries(p, suffix);
    } else if p[i] == 0 {
      EntriesRoundTrip(p, i + ZeroRun(p, i, 0) + 1, suffix);
      RunBranch(p, i, suffix);
    } else {
      EntriesRoundTrip(p, i + 1, suffix);
      EntryBranch(p, i, suffix);
    }
  }

  lemma NoEntries(p: seq<nat>, suffix: seq<byte>)
    requires (p != [] ==> p[|p| - 1] > 0) && forall k :: 0 <= k < |p| ==> p[k] < 0x40_0000
    ensures ReadEntries(Entries(p, |p|) + suffix, 0) == Some((p[|p|..], suffix))
  {
    assert Entries(p, |p|) == [] && [] + suffix == suffix && p[|p|..] == [];
    ReadNone(suffix);
  }

  lemma RunBranch(p: seq<nat>, i: nat, suffix: seq<byte>)
    requires i < |p| && p[i] == 0 && p[|p| - 1] > 0 && forall k :: 0 <= k < |p| ==> p[k] < 0x40_0000
    requires var next := i + ZeroRun(p, i, 0) + 1;
             ReadEntries(Entries(p, next) + suffix, |p| - next) == Some((p[next..], suffix))
    ensures ReadEntries(Entries(p, i) + suffix, |p| - i) == Some((p[i..], suffix))
  {
    hide EntryBytes, ReadEntries, Entries;
    EntriesStep(p, i);
    var offset := ZeroRun(p, i, 0);
    var r := Entries(p, i + offset + 1) + suffix;
    Regrouped([4 * offset + 3], Entries(p, i + offset + 1), suffix);
    ReadRun(offset, |p| - i, r, p[i + offset + 1..], suffix);
    RunZeros(p, i, offset);
  }

  lemma RunZeros(p: seq<nat>, i: nat, offset: nat)
    requires i + offset < |p| && forall k :: i <= k <= i + offset ==> p[k] == 0
    ensures p[i..] == Zeros(offset + 1) + p[i + offset + 1..]
  {
    var zeros := Zeros(offset + 1);
    forall k | 0 <= k <= offset
      ensures p[i..][k] == zeros[k]
    {
    }
  }

  lemma EntryBranch(p: seq<nat>, i: nat, suffix: seq<byte>)
    requires i < |p| && p[i] > 0 && p[|p| - 1] > 0 && forall k :: 0 <= k < |p| ==> p[k] < 0x40_0000
    requires ReadEntries(Entries(p, i + 1) + suffix, |p| - i - 1) == Some((p[i + 1..], suffix))
    ensures ReadEntries(Entries(p, i) + suffix, |p| - i) == Some((p[i..], suffix))
  {
    hide EntryBytes, ReadEntries, Entries, ZeroRun;
    EntriesStep(p, i);
    Regrouped(EntryBytes(p[i]), Entries(p, i + 1), suffix);
    ReadOne(p[i], |p| - i, Entries(p, i + 1) + suffix, p[i + 1..], suffix);
    assert p[i..] == [p[i]] + p[i + 1..];
  }

  lemma Regrouped(a: seq<byte>, b: seq<byte>, c: seq<byte>)
    ensures a + b + c == a + (b + c)
  {
  }

  lemma EntriesStep(p: seq<nat>, i: nat)
    requires i <= |p| && (p != [] ==> p[|p| - 1] > 0) && forall k :: 0 <= k < |p| ==> p[k] < 0x40_0000
    ensures Entries(p, i) == if i == |p| then []
                             else if p[i] == 0 then [4 * ZeroRun(p, i, 0) + 3] + Entries(p, i + ZeroRun(p, i, 0) + 1)
                             else EntryBytes(p[i]) + Entries(p, i + 1)
  {
    hide EntryBytes, ZeroRun;
  }

  lemma ReadNone(r: seq<byte>)
    ensures ReadEntries(r, 0) == Some(([], r))
  {
  }

  lemma ReadRun(offset: nat, n: nat, r: seq<byte>, p: seq<nat>, rest: seq<byte>)
    requires offset <= 63 && offset < n && ReadEntries(r, n - offset - 1) == Some((p, rest))
    ensures ReadEntries([4 * offset + 3] + r, n) == Some((Zeros(offset + 1) + p, rest))
  {
    RunByte(offset);
    assert ([4 * offset + 3] + r)[1..] == r;
  }

  lemma ReadOne(prob: nat, n: nat, r: seq<byte>, p: seq<nat>, rest: seq<byte>)
    requires prob < 0x40_0000 && n > 0 && ReadEntries(r, n - 1) == Some((p, rest))
    ensures ReadEntries(EntryBytes(prob) + r, n) == Some(([prob] + p, rest))
  {
    hide EntryBytes, ReadExtra;
    EntryRoundTrip(prob, r);
  }

  lemma RunByte(offset: nat)
    requires offset <= 63
    ensures (4 * offset + 3) % 4 == 3 && (4 * offset + 3) / 4 == offset
  {
  }

  lemma TableRoundTrip(p: seq<nat>, suffix: seq<byte>)
    requires (p != [] ==> p[|p| - 1] > 0) && |p| < WORD && forall k :: 0 <= k < |p| ==> p[k] < 0x40_0000
    ensures ReadTable(TableBytes(p) + suffix) == Some((p, suffix))
  {
    hide Entries, ReadEntries, VarBytes;
    VarUint32RoundTrip(|p|, Entries(p, 0) + suffix);
    EntriesRoundTrip(p, 0, suffix);
    assert TableBytes(p) + suffix == VarBytes(|p|) + (Entries(p, 0) + suffix);
    assert p[0..] == p;
  }

  /** Counts the zeros that one byte covers. */
  method CountRun(p: seq<nat>, i: nat) returns (offset: nat)
    requires i < |p| && p[|p| - 1] > 0 && p[i] == 0
    ensures i + offset < |p| && offset <= 63 && offset == ZeroRun(p, i, 0) && forall k :: i <= k <= i + offset ==> p[k] == 0
  {
    offset := 0;
    while offset < 63
      invariant 0 <= offset <= 63 && i + offset < |p| && forall k :: i <= k <= i + offset ==> p[k] == 0
      invariant ZeroRun(p, i, 0) == ZeroRun(p, i, offset)
    {
      if p[i + offset + 1] > 0 {
        break;
      }
      offset := offset + 1;
    }
  }

  method WriteEntry(prob: nat) returns (ok: bool, out: seq<byte>)
    ensures ok <==> prob < 0x40_0000
    ensures ok ==> out == EntryBytes(prob)
  {
    if prob >= 0x40_0000 {
      return false, [];
    }
    ok := true;
    if prob < 0x40 {
      out := [4 * prob];
    } else if prob < 0x4000 {
      out := [4 * (prob % 64) + 1, prob / 64];
    } else {
      out := [4 * (prob % 64) + 2, prob / 64 % 256, prob / 0x4000];
    }
  }

  ghost predicate AllFit(p: seq<nat>)
  {
    forall k :: 0 <= k < |p| ==> p[k] < 0x40_0000
  }

  /** encodeRansProbabilityTable, as a loop that skips over zero runs. */
  method WriteTable(p: seq<nat>) returns (ok: bool, out: seq<byte>)
    requires p != [] ==> p[|p| - 1] > 0
    ensures ok <==> AllFit(p)
    ensures ok ==> out == TableBytes(p)
  {
    hide ZeroRun, EntryBytes, Entries;
    out := VarBytes(|p|);
    ghost var head := out;
    var i := 0;
    while i < |p|
      invariant 0 <= i <= |p| && forall k :: 0 <= k < i ==> p[k] < 0x40_0000
      invariant AllFit(p) ==> out + Entries(p, i) == head + Entries(p, 0)
    {
      ghost var before := out;
      if AllFit(p) {
        EntriesStep(p, i);
      }
      if p[i] == 0 {
        var offset := CountRun(p, i);
        out := out + [4 * offset + 3];
        if AllFit(p) {
          assert before + ([4 * offset + 3] + Entries(p, i + offset + 1)) == out + Entries(p, i + offset + 1);
        }
        i := i + offset + 1;
      } else {
        var bytes;
        ok, bytes := WriteEntry(p[i]);
        if !ok {
          return;
        }
        out := out + bytes;
        if AllFit(p) {
          assert before + (EntryBytes(p[i]) + Entries(p, i + 1)) == out + Entries(p, i + 1);
        }
        i := i + 1;
      }
    }
    EntriesStep(p, |p|);
    assert out + [] == out;
    ok := true;
  }
}
