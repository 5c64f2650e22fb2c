/** The two traversals of the valence scheme as objects: the recorder (edgebreaker_encode.go) and
    the decoder (edgebreaker_decode.go), each method tied to the functions of Valence. */
module ValenceCoding {
  import opened Bits
  import opened Corners
  import opened CornerTables
  import opened Connectivity
  import opened Valence

  /** The corner's face has three vertices that the counts cover. */
  ghost predicate Covered(t: Table, corner: int, n: nat)
  {
    0 <= VertexOf(t, corner) < n && 0 <= VertexOf(t, NextOf(corner)) < n && 0 <= VertexOf(t, PreviousOf(corner)) < n
  }

  /** The machine's invariant covers every decoded face, so no count is out of range. */
  lemma ActiveCovered(s: State)
    requires Base(s) && s.active != []
    ensures Covered(s.t, Top(s), |s.t.leftMost|)
  {
    hide Matching;
    RotateBelow(Top(s), s.faces);
  }

  method Add(counts: array<int>, v: nat, k: int)
    requires v < counts.Length
    modifies counts
    ensures counts[..] == Bump(old(counts[..]), v, k)
  {
    counts[v] := counts[v] + k;
  }

  /** NewActiveCornerReached, the part both traversals share. */
  method Reach(counts: array<int>, table: CornerTable, symbol: nat, corner: int) returns (context: nat)
    requires Covered(table.Value(), corner, counts.Length) && counts !in table.Repr()
    modifies counts
    ensures counts[..] == Reached(old(counts[..]), old(table.Value()), symbol, corner)
    ensures context == ContextOf(counts[..], old(table.Value()), corner)
  {
    hide Bump;
    var c, n, p := table.Vertex(corner), table.Vertex(NextOf(corner)), table.Vertex(PreviousOf(corner));
    if symbol == TOPOLOGY_C || symbol == TOPOLOGY_S {
      Add(counts, n, 1);
      Add(counts, p, 1);
    } else if symbol == TOPOLOGY_R {
      Add(counts, c, 1);
      Add(counts, n, 1);
      Add(counts, p, 2);
    } else if symbol == TOPOLOGY_L {
      Add(counts, c, 1);
      Add(counts, n, 2);
      Add(counts, p, 1);
    } else if symbol == TOPOLOGY_E {
      Add(counts, c, 2);
      Add(counts, n, 2);
      Add(counts, p, 2);
    }
    var valence := counts[n];
    if valence < 2 {
      valence := 2;
    } else if valence > 7 {
      valence := 7;
    }
    context := valence - 2;
  }

  method Merge(counts: array<int>, dest: int, source: int)
    modifies counts
    ensures counts[..] == Merged(old(counts[..]), dest, source)
  {
    if dest < 0 || source < 0 || dest >= counts.Length || source >= counts.Length {
      return;
    }
    counts[dest] := counts[dest] + counts[source];
  }

  class ValenceContextRecorder {
    const decodedSymbols: seq<nat>
    const vertexValences: array<int>
    var contextSymbols: seq<seq<nat>>
    var lastSymbol: nat
    var activeContext: int
    var symbolPos: nat

    ghost predicate Valid()
      reads this
    {
      |contextSymbols| == CONTEXTS && symbolPos <= |decodedSymbols| && -1 <= activeContext < CONTEXTS
    }

    constructor (decodedSymbols: seq<nat>, maxVertices: nat)
      ensures Valid() && this.decodedSymbols == decodedSymbols && fresh(vertexValences)
      ensures contextSymbols == seq(CONTEXTS, _ => []) && symbolPos == 0 && activeContext == -1
      ensures vertexValences[..] == seq(maxVertices, _ => 0)
    {
      this.decodedSymbols := decodedSymbols;
      vertexValences := new int[maxVertices](_ => 0);
      contextSymbols, lastSymbol, activeContext, symbolPos := seq(CONTEXTS, _ => []), 0, -1, 0;
    }

    method DecodeSymbol() returns (ok: bool, symbol: nat)
      requires Valid()
      modifies this`symbolPos, this`lastSymbol
      ensures Valid() && ok == (old(symbolPos) < |decodedSymbols|)
      ensures ok ==> symbol == lastSymbol == decodedSymbols[old(symbolPos)] && symbolPos == old(symbolPos) + 1
      ensures !ok ==> symbolPos == old(symbolPos) && lastSymbol == old(lastSymbol)
    {
      if symbolPos >= |decodedSymbols| {
        return false, 0;
      }
      symbol := decodedSymbols[symbolPos];
      symbolPos := symbolPos + 1;
      lastSymbol := symbol;
      ok := true;
    }

    /** Files the symbol that comes next under the context just reached. */
    method NewActiveCornerReached(table: CornerTable, corner: int)
      requires Valid() && Covered(table.Value(), corner, vertexValences.Length) && vertexValences !in table.Repr() && this !in table.Repr()
      modifies this`activeContext, this`contextSymbols, vertexValences
      ensures Valid()
      ensures vertexValences[..] == Reached(old(vertexValences[..]), old(table.Value()), lastSymbol, corner)
      ensures activeContext == ContextOf(vertexValences[..], old(table.Value()), corner)
      ensures contextSymbols == if symbolPos < |decodedSymbols|
                                then File(old(contextSymbols), activeContext, decodedSymbols[symbolPos]) else old(contextSymbols)
    {
      activeContext := Reach(vertexValences, table, lastSymbol, corner);
      if symbolPos >= |decodedSymbols| {
        return;
      }
      var id := SymbolId(decodedSymbols[symbolPos]);
      if id.None? {
        return;
      }
      contextSymbols := contextSymbols[activeContext := contextSymbols[activeContext] + [id.value]];
    }

    method MergeVertices(dest: int, source: int)
      modifies vertexValences
      ensures vertexValences[..] == Merged(old(vertexValences[..]), dest, source)
    {
      Merge(vertexValences, dest, source);
    }

    /** The lists as they are handed to the symbol coder. */
    method Finish() returns (stored: seq<seq<nat>>)
      requires Valid()
      ensures stored == Stored(contextSymbols)
    {
      stored := contextSymbols;
      for k := 0 to |contextSymbols|
        invariant |stored| == |contextSymbols|
        invariant forall j :: 0 <= j < |stored| ==> stored[j] == if j < k then Reverse(contextSymbols[j]) else contextSymbols[j]
      {
        stored := stored[k := Reverse(contextSymbols[k])];
      }
    }
  }

  class ValenceTraversalDecoder {
    const vertexValences: array<int>
    const contextSymbols: seq<seq<nat>>
    var contextCounters: seq<int>
    var activeContext: int
    var lastSymbol: nat

    ghost predicate Valid()
      reads this
    {
      |contextSymbols| == |contextCounters| == CONTEXTS && -1 <= activeContext < CONTEXTS &&
      forall k :: 0 <= k < CONTEXTS ==> contextCounters[k] <= |contextSymbols[k]|
    }

    constructor (stored: seq<seq<nat>>, numVertices: nat)
      requires |stored| == CONTEXTS
      ensures Valid() && contextSymbols == stored && activeContext == -1 && fresh(vertexValences)
      ensures contextCounters == seq(CONTEXTS, k requires 0 <= k < CONTEXTS => |stored[k]|)
      ensures vertexValences[..] == seq(numVertices, _ => 0)
    {
      vertexValences := new int[numVertices](_ => 0);
      contextSymbols := stored;
      contextCounters := seq(CONTEXTS, k requires 0 <= k < CONTEXTS => |stored[k]|);
      activeContext, lastSymbol := -1, 0;
    }

    /** Takes the last unused symbol of the active context; the first symbol is always E. */
    method DecodeSymbol() returns (ok: bool, symbol: nat)
      requires Valid()
      modifies this`contextCounters, this`lastSymbol
      ensures var taken := TakeSymbol(contextSymbols, old(contextCounters), activeContext);
              ok == taken.Some? && (ok ==> Valid() && (symbol, contextCounters) == taken.value && lastSymbol == symbol)
    {
      if activeContext != -1 {
        contextCounters := contextCounters[activeContext := contextCounters[activeContext] - 1];
        if contextCounters[activeContext] < 0 {
          return false, 0;
        }
        var id := contextSymbols[activeContext][contextCounters[activeContext]];
        var topology := Topology(id);
        if topology.None? {
          return false, 0;
        }
        lastSymbol := topology.value;
        return true, lastSymbol;
      }
      lastSymbol := TOPOLOGY_E;
      return true, TOPOLOGY_E;
    }

    method NewActiveCornerReached(table: CornerTable, corner: int)
      requires Valid() && Covered(table.Value(), corner, vertexValences.Length) && vertexValences !in table.Repr() && this !in table.Repr()
      modifies this`activeContext, vertexValences
      ensures Valid()
      ensures vertexValences[..] == Reached(old(vertexValences[..]), old(table.Value()), lastSymbol, corner)
      ensures activeContext == ContextOf(vertexValences[..], old(table.Value()), corner)
    {
      activeContext := Reach(vertexValences, table, lastSymbol, corner);
    }

    method MergeVertices(dest: int, source: int)
      modifies vertexValences
      ensures vertexValences[..] == Merged(old(vertexValences[..]), dest, source)
    {
      Merge(vertexValences, dest, source);
    }
  }
}
