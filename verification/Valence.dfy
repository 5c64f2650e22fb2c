/** Valence-coded traversal (edgebreaker_encode.go, edgebreaker_decode.go): the encoder replays
    its own symbols through the decoder's machine and files each symbol under a context; the
    decoder, making the same moves, takes every symbol back out of the right context. */
module Valence {
  import opened Bits
  import opened Corners
  import opened CornerTables
  import opened Connectivity
  import opened StartFaces

  const CONTEXTS: nat := 6

  /** edgeBreakerSymbolID and its inverse. */
  function SymbolId(topology: nat): Option<nat>
  {
    if topology == TOPOLOGY_C then Some(0)
    else if topology == TOPOLOGY_S then Some(1)
    else if topology == TOPOLOGY_L then Some(2)
    else if topology == TOPOLOGY_R then Some(3)
    else if topology == TOPOLOGY_E then Some(4)
    else None
  }

  function Topology(id: nat): Option<nat>
  {
    if id < 5 then Some([TOPOLOGY_C, TOPOLOGY_S, TOPOLOGY_L, TOPOLOGY_R, TOPOLOGY_E][id]) else None
  }

  lemma TopologyOfId(symbol: nat)
    requires SymbolId(symbol).Some?
    ensures Topology(SymbolId(symbol).value) == Some(symbol)
  {
  }

  // ---- valences -------------------------------------------------------------------------------

  function Bump(valences: seq<int>, v: int, k: int): (r: seq<int>)
    ensures |r| == |valences|
  {
    if 0 <= v < |valences| then valences[v := valences[v] + k] else valences
  }

  /** Edges added around the face that a symbol has just built; corner is its active corner. */
  function Reached(valences: seq<int>, t: Table, symbol: nat, corner: int): (r: seq<int>)
    ensures |r| == |valences|
  {
    var c, n, p := VertexOf(t, corner), VertexOf(t, NextOf(corner)), VertexOf(t, PreviousOf(corner));
    if symbol == TOPOLOGY_C || symbol == TOPOLOGY_S then Bump(Bump(valences, n, 1), p, 1)
    else if symbol == TOPOLOGY_R then Bump(Bump(Bump(valences, c, 1), n, 1), p, 2)
    else if symbol == TOPOLOGY_L then Bump(Bump(Bump(valences, c, 1), n, 2), p, 1)
    else if symbol == TOPOLOGY_E then Bump(Bump(Bump(valences, c, 2), n, 2), p, 2)
    else valences
  }

  function Clamp(valence: int): (r: nat)
    ensures r < CONTEXTS
  {
    if valence < 2 then 0 else if valence > 7 then 5 else valence - 2
  }

  /** The context of the next symbol. */
  function ContextOf(valences: seq<int>, t: Table, corner: int): (r: nat)
    ensures r < CONTEXTS
  {
    var v := VertexOf(t, NextOf(corner));
    if 0 <= v < |valences| then Clamp(valences[v]) else 0
  }

  function Merged(valences: seq<int>, dest: int, source: int): (r: seq<int>)
    ensures |r| == |valences|
  {
    if 0 <= dest < |valences| && 0 <= source < |valences|
    then valences[dest := valences[dest] + valences[source]] else valences
  }

  /** The machine together with its valences. */
  datatype Walk = Walk(s: State, valences: seq<int>)

  /** The vertices an S merges: destination and source. */
  function MergePair(s: State, id: nat): (int, int)
    requires Ready(s) && id < |s.splits|
  {
    if s.active == [] || Resume(s, id) == [] then (-1, -1)
    else
      var b, active := Top(s), Resume(s, id);
      var a := active[|active| - 1];
      var t := FaceS(s.t, a, b, 3 * s.faces);
      (VertexOf(t, PreviousOf(a)), VertexOf(t, NextOf(b)))
  }

  ghost predicate CanStep(s: State, id: nat, n: nat, events: seq<Event>)
  {
    Ready(s) && |s.splits| == n && -1 <= s.splitIndex < |events| && id < n
  }

  function WalkStep(w: Walk, symbol: nat, id: nat, n: nat, events: seq<Event>, remove: bool): (r: Option<Walk>)
    requires CanStep(w.s, id, n, events)
    ensures r.Some? ==> Ready(r.value.s) && |r.value.s.splits| == n && -1 <= r.value.s.splitIndex < |events| && r.value.s.active != []
  {
    match Step(w.s, symbol, id, n, events, remove)
    case None => None
    case Some(s) =>
      var (p, q) := MergePair(w.s, id);
      var merged := if symbol == TOPOLOGY_S then Merged(w.valences, p, q) else w.valences;
      Some(Walk(s, Reached(merged, s.t, symbol, Top(s))))
  }

  function NextContext(w: Walk): (c: nat)
    requires w.s.active != []
    ensures c < CONTEXTS
  {
    ContextOf(w.valences, w.s.t, Top(w.s))
  }

  // ---- recording ------------------------------------------------------------------------------

  /** The walk after i symbols and the lists of symbol ids filed so far, in order. */
  function RecordTo(w: Walk, symbols: seq<nat>, events: seq<Event>, remove: bool, i: nat): (r: Option<(Walk, seq<seq<nat>>)>)
    requires Ready(w.s) && |w.s.splits| == |symbols| && -1 <= w.s.splitIndex < |events| && i <= |symbols|
    ensures r.Some? ==> Ready(r.value.0.s) && |r.value.0.s.splits| == |symbols| && -1 <= r.value.0.s.splitIndex < |events| &&
                        |r.value.1| == CONTEXTS && (i > 0 ==> r.value.0.s.active != [])
    decreases i
  {
    if i == 0 then Some((w, seq(CONTEXTS, _ => [])))
    else
      match RecordTo(w, symbols, events, remove, i - 1)
      case None => None
      case Some((w1, lists)) =>
        match WalkStep(w1, symbols[i - 1], i - 1, |symbols|, events, remove)
        case None => None
        case Some(w2) => Some((w2, if i < |symbols| then File(lists, NextContext(w2), symbols[i]) else lists))
  }

  function File(lists: seq<seq<nat>>, context: nat, symbol: nat): (r: seq<seq<nat>>)
    requires context < |lists| == CONTEXTS
    ensures |r| == CONTEXTS
  {
    match SymbolId(symbol)
    case None => lists
    case Some(id) => lists[context := lists[context] + [id]]
  }

  function Reverse(s: seq<nat>): (r: seq<nat>)
    ensures |r| == |s| && forall i :: 0 <= i < |s| ==> r[i] == s[|s| - 1 - i]
  {
    seq(|s|, i requires 0 <= i < |s| => s[|s| - 1 - i])
  }

  /** The lists as written to the file. */
  function Stored(lists: seq<seq<nat>>): (r: seq<seq<nat>>)
    ensures |r| == |lists| && forall k :: 0 <= k < |lists| ==> r[k] == Reverse(lists[k])
  {
    seq(|lists|, k requires 0 <= k < |lists| => Reverse(lists[k]))
  }

  // ---- replaying ------------------------------------------------------------------------------

  /** One symbol out of the stored lists, which are used up from their ends; E comes first. */
  function TakeSymbol(stored: seq<seq<nat>>, counters: seq<int>, context: int): (r: Option<(nat, seq<int>)>)
    requires |stored| == |counters| == CONTEXTS && -1 <= context < CONTEXTS
    requires forall k :: 0 <= k < CONTEXTS ==> counters[k] <= |stored[k]|
    ensures r.Some? ==> |r.value.1| == CONTEXTS && forall k :: 0 <= k < CONTEXTS ==> r.value.1[k] <= |stored[k]|
  {
    if context == -1 then Some((TOPOLOGY_E, counters))
    else
      var left := counters[context] - 1;
      if left < 0 then None
      else
        match Topology(stored[context][left])
        case None => None
        case Some(symbol) => Some((symbol, counters[context := left]))
  }

  /** A decoder after i symbols: where the machine is, what it read, what is left. */
  datatype Replay = Replay(w: Walk, read: seq<nat>, counters: seq<int>, context: int)

  ghost predicate ReplayOk(r: Replay, stored: seq<seq<nat>>, n: nat, events: seq<Event>)
  {
    Ready(r.w.s) && |r.w.s.splits| == n && -1 <= r.w.s.splitIndex < |events| &&
    |stored| == |r.counters| == CONTEXTS && -1 <= r.context < CONTEXTS &&
    forall k :: 0 <= k < CONTEXTS ==> r.counters[k] <= |stored[k]|
  }

  function ReplayStart(w: Walk, stored: seq<seq<nat>>): Replay
  {
    Replay(w, [], seq(|stored|, k requires 0 <= k < |stored| => |stored[k]|), -1)
  }

  function ReplayTo(w: Walk, stored: seq<seq<nat>>, n: nat, events: seq<Event>, remove: bool, i: nat): (r: Option<Replay>)
    requires Ready(w.s) && |w.s.splits| == n && -1 <= w.s.splitIndex < |events| && |stored| == CONTEXTS && i <= n
    ensures r.Some? ==> ReplayOk(r.value, stored, n, events)
    decreases i
  {
    if i == 0 then Some(ReplayStart(w, stored))
    else
      match ReplayTo(w, stored, n, events, remove, i - 1)
      case None => None
      case Some(r) =>
        match TakeSymbol(stored, r.counters, r.context)
        case None => None
        case Some((symbol, counters)) =>
          match WalkStep(r.w, symbol, i - 1, n, events, remove)
          case None => None
          case Some(w1) => Some(Replay(w1, r.read + [symbol], counters, NextContext(w1)))
  }

  // ---- nothing is lost ------------------------------------------------------------------------

  /** Filing only appends. */
  lemma {:induction false} RecordedGrow(w: Walk, symbols: seq<nat>, events: seq<Event>, remove: bool, i: nat, j: nat)
    requires Ready(w.s) && |w.s.splits| == |symbols| && -1 <= w.s.splitIndex < |events| && i <= j <= |symbols|
    requires RecordTo(w, symbols, events, remove, j).Some?
    ensures RecordTo(w, symbols, events, remove, i).Some?
    ensures forall k :: 0 <= k < CONTEXTS ==>
              RecordTo(w, symbols, events, remove, i).value.1[k] <= RecordTo(w, symbols, events, remove, j).value.1[k]
    decreases j
  {
    hide WalkStep;
    if i < j {
      RecordedGrow(w, symbols, events, remove, i, j - 1);
    }
  }

  /** Before symbol i the decoder has used up exactly what was filed before symbol i. */
  ghost predicate InStep(rec: (Walk, seq<seq<nat>>), before: seq<seq<nat>>, lists: seq<seq<nat>>, r: Replay, read: seq<nat>, i: nat)
    requires |before| == |lists| == CONTEXTS
  {
    r.w == rec.0 && r.read == read && |r.counters| == CONTEXTS &&
    (forall k :: 0 <= k < CONTEXTS ==> r.counters[k] == |lists[k]| - |before[k]|) &&
    if i == 0 then r.context == -1 else rec.0.s.active != [] && r.context == NextContext(rec.0)
  }

  /** A recorded run that the decoder can replay. */
  ghost predicate Recorded(w: Walk, symbols: seq<nat>, events: seq<Event>, remove: bool)
  {
    Ready(w.s) && |w.s.splits| == |symbols| && -1 <= w.s.splitIndex < |events| &&
    symbols != [] && symbols[0] == TOPOLOGY_E && (forall j :: 0 <= j < |symbols| ==> SymbolId(symbols[j]).Some?) &&
    RecordTo(w, symbols, events, remove, |symbols|).Some?
  }

  ghost function Lists(w: Walk, symbols: seq<nat>, events: seq<Event>, remove: bool): (r: seq<seq<nat>>)
    requires Recorded(w, symbols, events, remove)
    ensures |r| == CONTEXTS
  {
    RecordTo(w, symbols, events, remove, |symbols|).value.1
  }

  /** After i symbols both sides are in step. */
  ghost predicate AtStep(w: Walk, symbols: seq<nat>, events: seq<Event>, remove: bool, i: nat)
    requires Recorded(w, symbols, events, remove) && i <= |symbols|
  {
    var lists := Lists(w, symbols, events, remove);
    var rec, prev := RecordTo(w, symbols, events, remove, i), RecordTo(w, symbols, events, remove, if i == 0 then 0 else i - 1);
    var r := ReplayTo(w, Stored(lists), |symbols|, events, remove, i);
    rec.Some? && prev.Some? && r.Some? && InStep(rec.value, prev.value.1, lists, r.value, symbols[..i], i)
  }

  /** Reading back the symbol that was just filed. */
  lemma TakeFiled(before: seq<seq<nat>>, lists: seq<seq<nat>>, counters: seq<int>, context: nat, symbol: nat)
    requires |before| == |lists| == |counters| == CONTEXTS && context < CONTEXTS && SymbolId(symbol).Some?
    requires forall k :: 0 <= k < CONTEXTS ==> counters[k] == |lists[k]| - |before[k]| && before[k] <= lists[k]
    requires File(before, context, symbol)[context] <= lists[context]
    ensures TakeSymbol(Stored(lists), counters, context) == Some((symbol, counters[context := counters[context] - 1]))
    ensures forall k :: 0 <= k < CONTEXTS ==>
              counters[context := counters[context] - 1][k] == |lists[k]| - |File(before, context, symbol)[k]|
  {
    TopologyOfId(symbol);
    var filed := before[context] + [SymbolId(symbol).value];
    assert lists[context][|before[context]|] == filed[|before[context]|];
  }

  /** Replaying the stored lists of a recorded run walks through the same states and reads the
      same symbols, one by one. */
  lemma {:induction false} ReplayInStep(w: Walk, symbols: seq<nat>, events: seq<Event>, remove: bool, i: nat)
    requires Recorded(w, symbols, events, remove) && i <= |symbols|
    ensures AtStep(w, symbols, events, remove, i)
    decreases i
  {
    hide AtStep, Recorded, RecordTo, ReplayTo, Lists;
    if i == 0 {
      ReplayStarts(w, symbols, events, remove);
    } else {
      ReplayInStep(w, symbols, events, remove, i - 1);
      ReplayOne(w, symbols, events, remove, i);
    }
  }

  lemma ReplayStarts(w: Walk, symbols: seq<nat>, events: seq<Event>, remove: bool)
    requires Recorded(w, symbols, events, remove)
    ensures AtStep(w, symbols, events, remove, 0)
  {
    hide WalkStep;
    StoredSizes(Lists(w, symbols, events, remove));
  }

  /** One symbol further. */
  lemma ReplayOne(w: Walk, symbols: seq<nat>, events: seq<Event>, remove: bool, i: nat)
    requires Recorded(w, symbols, events, remove) && 1 <= i <= |symbols| && AtStep(w, symbols, events, remove, i - 1)
    ensures AtStep(w, symbols, events, remove, i)
  {
    hide WalkStep, TakeSymbol, File, Stored, Reverse, SymbolId, NextContext;
    RecordedGrow(w, symbols, events, remove, i, |symbols|);
    assert symbols[..i] == symbols[..i - 1] + [symbols[i - 1]];
    TakeRecorded(w, symbols, events, remove, i);
  }

  /** The symbol that the decoder takes at step i - 1. */
  lemma TakeRecorded(w: Walk, symbols: seq<nat>, events: seq<Event>, remove: bool, i: nat)
    requires Recorded(w, symbols, events, remove) && 1 <= i <= |symbols| && AtStep(w, symbols, events, remove, i - 1)
    ensures var lists := Lists(w, symbols, events, remove);
            var r := ReplayTo(w, Stored(lists), |symbols|, events, remove, i - 1).value;
            var taken := TakeSymbol(Stored(lists), r.counters, r.context);
            taken.Some? && taken.value.0 == symbols[i - 1] &&
            RecordTo(w, symbols, events, remove, i - 1).Some? &&
            forall k :: 0 <= k < CONTEXTS ==>
              taken.value.1[k] == |lists[k]| - |RecordTo(w, symbols, events, remove, i - 1).value.1[k]|
  {
    hide WalkStep, TakeSymbol, File, Stored, Reverse, SymbolId, NextContext;
    var lists := Lists(w, symbols, events, remove);
    var r := ReplayTo(w, Stored(lists), |symbols|, events, remove, i - 1).value;
    if i == 1 {
      FirstIsE(Stored(lists), r.counters);
    } else {
      RecordedGrow(w, symbols, events, remove, i - 2, |symbols|);
      RecordedGrow(w, symbols, events, remove, i - 1, |symbols|);
      TakeFiled(RecordTo(w, symbols, events, remove, i - 2).value.1, lists, r.counters, r.context, symbols[i - 1]);
    }
  }

  lemma StoredSizes(lists: seq<seq<nat>>)
    ensures |Stored(lists)| == |lists| && forall k :: 0 <= k < |lists| ==> |Stored(lists)[k]| == |lists[k]|
  {
  }

  lemma FirstIsE(stored: seq<seq<nat>>, counters: seq<int>)
    requires |stored| == |counters| == CONTEXTS && forall k :: 0 <= k < CONTEXTS ==> counters[k] <= |stored[k]|
    ensures TakeSymbol(stored, counters, -1) == Some((TOPOLOGY_E, counters))
  {
  }

  /** Valence contexts lose nothing: for every symbol sequence that starts with E and that the
      recorder accepts, the decoder ends in the same state, has read the same symbols, and has
      used up every list. */
  lemma ValenceRoundTrip(w: Walk, symbols: seq<nat>, events: seq<Event>, remove: bool)
    requires Ready(w.s) && |w.s.splits| == |symbols| && -1 <= w.s.splitIndex < |events|
    requires symbols != [] && symbols[0] == TOPOLOGY_E && forall j :: 0 <= j < |symbols| ==> SymbolId(symbols[j]).Some?
    requires RecordTo(w, symbols, events, remove, |symbols|).Some?
    ensures var (end, lists) := RecordTo(w, symbols, events, remove, |symbols|).value;
            var r := ReplayTo(w, Stored(lists), |symbols|, events, remove, |symbols|);
            r.Some? && r.value.w == end && r.value.read == symbols && forall k :: 0 <= k < CONTEXTS ==> r.value.counters[k] == 0
  {
    hide WalkStep, TakeSymbol, File, Stored, Reverse, SymbolId, ReplayTo;
    ReplayInStep(w, symbols, events, remove, |symbols|);
    RecordedEnd(w, symbols, events, remove);
    assert symbols[..|symbols|] == symbols;
  }

  /** The last step files nothing. */
  lemma RecordedEnd(w: Walk, symbols: seq<nat>, events: seq<Event>, remove: bool)
    requires Recorded(w, symbols, events, remove)
    ensures RecordTo(w, symbols, events, remove, |symbols| - 1).Some?
    ensures RecordTo(w, symbols, events, remove, |symbols| - 1).value.1 == Lists(w, symbols, events, remove)
  {
    hide WalkStep;
  }
}
