/** Side data of constrained multi-parallelogram prediction (mesh_prediction.go): which
    parallelograms each entry leaves out. An entry with g parallelograms adds g flags to context
    g - 1; they are collected from the last entry to the second and written group by group from the
    end, so that the reader meets them from the second entry on. */
module CreaseFlags {
  import opened Bits
  import opened Wrapping
  import opened Prediction
  import opened Stream
  import opened Rans
  import opened RansBit

  type Mask = seq<bool>

  /** One mask for each entry from the second on. */
  ghost predicate Masks(ctx: Context, masks: seq<Mask>)
    requires Valid(ctx)
  {
    forall id :: 1 <= id < |masks| ==> |masks[id]| == |Flaps(ctx, id)|
  }

  function Creases(mask: Mask): (r: seq<bool>)
    ensures |r| == |mask|
  {
    seq(|mask|, i requires 0 <= i < |mask| => !mask[i])
  }

  /** What an entry adds to a context. */
  ghost function Group(ctx: Context, masks: seq<Mask>, c: nat, id: nat): (r: seq<bool>)
    requires Valid(ctx) && Masks(ctx, masks) && 1 <= id < |masks|
    ensures r == [] || |r| == c + 1
  {
    if |Flaps(ctx, id)| == c + 1 then Creases(masks[id]) else []
  }

  /** Groups of the entries from id on, last entry first: the order of collection. */
  ghost function Collected(ctx: Context, masks: seq<Mask>, c: nat, id: nat): seq<bool>
    requires Valid(ctx) && Masks(ctx, masks) && 1 <= id
    decreases |masks| - id
  {
    if id >= |masks| then [] else Collected(ctx, masks, c, id + 1) + Group(ctx, masks, c, id)
  }

  /** The same groups, first entry first. */
  ghost function Onward(ctx: Context, masks: seq<Mask>, c: nat, id: nat): seq<bool>
    requires Valid(ctx) && Masks(ctx, masks) && 1 <= id
    decreases |masks| - id
  {
    if id >= |masks| then [] else Group(ctx, masks, c, id) + Onward(ctx, masks, c, id + 1)
  }

  /** Groups of g flags from the end to the front, as they are written. */
  function GroupReversed(flags: seq<bool>, g: nat): seq<bool>
    requires g > 0
    decreases |flags|
  {
    if |flags| < g then [] else flags[|flags| - g..] + GroupReversed(flags[..|flags| - g], g)
  }

  /** Writing by groups from the end restores the order of the entries and, inside a group, keeps
      the order of the parallelograms. */
  lemma {:induction false} CollectedBackwards(ctx: Context, masks: seq<Mask>, c: nat, id: nat)
    requires Valid(ctx) && Masks(ctx, masks) && 1 <= id
    ensures GroupReversed(Collected(ctx, masks, c, id), c + 1) == Onward(ctx, masks, c, id)
    decreases |masks| - id
  {
    hide Group;
    if id < |masks| {
      CollectedBackwards(ctx, masks, c, id + 1);
      var rest, group := Collected(ctx, masks, c, id + 1), Group(ctx, masks, c, id);
      if group == [] {
        assert rest + group == rest;
      } else {
        assert (rest + group)[|rest|..] == group && (rest + group)[..|rest|] == rest;
      }
    }
  }

  // ---- reading flags back ----------------------------------------------------------------------

  /** Flags of a context taken by the entries before id; no value is needed to know it. */
  ghost function Used(ctx: Context, c: nat, id: nat): nat
    requires Valid(ctx)
  {
    if id <= 1 then 0 else Used(ctx, c, id - 1) + if |Flaps(ctx, id - 1)| == c + 1 then c + 1 else 0
  }

  lemma {:induction false} UsedGrows(ctx: Context, c: nat, id: nat, entries: nat)
    requires Valid(ctx) && id <= entries
    ensures Used(ctx, c, id) <= Used(ctx, c, entries)
    decreases entries
  {
    hide Flaps;
    if id < entries {
      UsedGrows(ctx, c, id, entries - 1);
    }
  }

  ghost predicate Enough(ctx: Context, flags: seq<seq<bool>>, entries: nat)
    requires Valid(ctx) && |flags| == MAX_FLAPS
  {
    forall c :: 0 <= c < MAX_FLAPS ==> Used(ctx, c, entries) <= |flags[c]|
  }

  /** An entry's mask: its flags are the next ones of its context. */
  ghost function MaskAt(ctx: Context, flags: seq<seq<bool>>, id: nat): (r: Mask)
    requires Valid(ctx) && |flags| == MAX_FLAPS && Enough(ctx, flags, id + 1) && id >= 1
    ensures |r| == |Flaps(ctx, id)|
  {
    var g := |Flaps(ctx, id)|;
    if g == 0 then []
    else
      var c := g - 1;
      Creases(flags[c][Used(ctx, c, id)..Used(ctx, c, id) + g])
  }

  ghost function MasksOf(ctx: Context, flags: seq<seq<bool>>, entries: nat): (r: seq<Mask>)
    requires Valid(ctx) && |flags| == MAX_FLAPS && Enough(ctx, flags, entries)
    ensures |r| == entries && Masks(ctx, r)
  {
    hide Flaps, Enough, MaskAt, Used;
    EachEnough(ctx, flags, entries);
    seq(entries, id requires 0 <= id < entries => if id == 0 then [] else MaskAt(ctx, flags, id))
  }

  lemma EachEnough(ctx: Context, flags: seq<seq<bool>>, entries: nat)
    requires Valid(ctx) && |flags| == MAX_FLAPS && Enough(ctx, flags, entries)
    ensures forall k :: 0 <= k <= entries ==> Enough(ctx, flags, k)
  {
    hide Enough, Used, Valid;
    forall k | 0 <= k <= entries
      ensures Enough(ctx, flags, k)
    {
      FewerEnough(ctx, flags, k, entries);
    }
  }

  lemma MasksOfAt(ctx: Context, flags: seq<seq<bool>>, entries: nat, id: nat)
    requires Valid(ctx) && |flags| == MAX_FLAPS && Enough(ctx, flags, entries) && 1 <= id < entries
    ensures Enough(ctx, flags, id + 1) && MasksOf(ctx, flags, entries)[id] == MaskAt(ctx, flags, id)
  {
    hide Flaps, Used, Enough, MaskAt;
    EachEnough(ctx, flags, entries);
  }

  lemma FewerEnough(ctx: Context, flags: seq<seq<bool>>, fewer: nat, entries: nat)
    requires Valid(ctx) && |flags| == MAX_FLAPS && fewer <= entries && Enough(ctx, flags, entries)
    ensures Enough(ctx, flags, fewer)
  {
    hide Used;
    forall c | 0 <= c < MAX_FLAPS
      ensures Used(ctx, c, fewer) <= |flags[c]|
    {
      UsedGrows(ctx, c, fewer, entries);
    }
  }

  /** The flags that are written for the masks. */
  ghost function FlagsOf(ctx: Context, masks: seq<Mask>): (r: seq<seq<bool>>)
    requires Valid(ctx) && Masks(ctx, masks)
    ensures |r| == MAX_FLAPS
  {
    seq(MAX_FLAPS, c requires 0 <= c < MAX_FLAPS => Onward(ctx, masks, c, 1))
  }

  /** At an entry, what is left of a context is what its entry and the later ones added. */
  lemma {:induction false} LeftOver(ctx: Context, masks: seq<Mask>, c: nat, id: nat)
    requires Valid(ctx) && Masks(ctx, masks) && 1 <= id && (id <= |masks| || id == 1)
    ensures Used(ctx, c, id) <= |Onward(ctx, masks, c, 1)|
    ensures Onward(ctx, masks, c, 1)[Used(ctx, c, id)..] == Onward(ctx, masks, c, id)
    decreases id
  {
    hide Flaps;
    if id > 1 {
      LeftOver(ctx, masks, c, id - 1);
      var all, used := Onward(ctx, masks, c, 1), Used(ctx, c, id - 1);
      var group := Group(ctx, masks, c, id - 1);
      assert all[used..] == group + Onward(ctx, masks, c, id);
      assert all[used + |group|..] == all[used..][|group|..];
    }
  }

  lemma CreasesTwice(mask: Mask)
    ensures Creases(Creases(mask)) == mask
  {
  }

  lemma GroupInPlace(ctx: Context, masks: seq<Mask>, c: nat, id: nat)
    requires Valid(ctx) && Masks(ctx, masks) && 1 <= id < |masks| && |Flaps(ctx, id)| == c + 1
    ensures Used(ctx, c, id) + c + 1 <= |Onward(ctx, masks, c, 1)|
    ensures Onward(ctx, masks, c, 1)[Used(ctx, c, id)..Used(ctx, c, id) + c + 1] == Creases(masks[id])
  {
    hide Flaps, Valid, Used;
    LeftOver(ctx, masks, c, id);
    var all, used := Onward(ctx, masks, c, 1), Used(ctx, c, id);
    assert all[used..] == Creases(masks[id]) + Onward(ctx, masks, c, id + 1);
    assert all[used..used + c + 1] == all[used..][..c + 1];
  }

  lemma MaskReadBack(ctx: Context, masks: seq<Mask>, id: nat)
    requires Valid(ctx) && Masks(ctx, masks) && 1 <= id < |masks| && Enough(ctx, FlagsOf(ctx, masks), id + 1)
    ensures MaskAt(ctx, FlagsOf(ctx, masks), id) == masks[id]
  {
    hide Flaps, Used, Onward, Creases;
    var g := |Flaps(ctx, id)|;
    if g > 0 {
      GroupInPlace(ctx, masks, g - 1, id);
      CreasesTwice(masks[id]);
    }
  }

  /** The flags as written are enough for the reader and give every mask back. */
  lemma FlagsGiveMasks(ctx: Context, masks: seq<Mask>)
    requires Valid(ctx) && Masks(ctx, masks)
    ensures Enough(ctx, FlagsOf(ctx, masks), |masks|)
    ensures forall id :: 1 <= id < |masks| ==> MasksOf(ctx, FlagsOf(ctx, masks), |masks|)[id] == masks[id]
  {
    hide Flaps, Onward, MaskAt, MasksOf;
    var flags := FlagsOf(ctx, masks);
    forall c | 0 <= c < MAX_FLAPS
      ensures Used(ctx, c, |masks|) <= |flags[c]|
    {
      if |masks| >= 1 {
        LeftOver(ctx, masks, c, |masks|);
      }
    }
    forall id | 1 <= id < |masks|
      ensures MasksOf(ctx, flags, |masks|)[id] == masks[id]
    {
      MasksOfAt(ctx, flags, |masks|, id);
      MaskReadBack(ctx, masks, id);
    }
  }

  // ---- the whole prediction --------------------------------------------------------------------

  /** What the decoder computes from corrections and flags; None when flags run out. */
  ghost function Decoded(ctx: Context, b: Bounds, corrections: seq<Row>, n: nat, flags: seq<seq<bool>>): Option<seq<Row>>
    requires Valid(ctx) && Rows(corrections, n) && |flags| == MAX_FLAPS
  {
    if Enough(ctx, flags, |corrections|) then Some(Rebuilt(ctx, Chosen(MasksOf(ctx, flags, |corrections|)), b, corrections, n))
    else None
  }

  /** Only the masks of entries after the first and up to the last correction matter. */
  lemma {:induction false} SameMasks(ctx: Context, a: seq<Mask>, a2: seq<Mask>, b: Bounds, corrections: seq<Row>, n: nat)
    requires Valid(ctx) && Rows(corrections, n) && Masks(ctx, a) && Masks(ctx, a2) && |a| >= |corrections| && |a2| >= |corrections|
    requires forall id :: 1 <= id < |corrections| ==> a[id] == a2[id]
    ensures Rebuilt(ctx, Chosen(a), b, corrections, n) == Rebuilt(ctx, Chosen(a2), b, corrections, n)
    decreases |corrections|
  {
    hide RestoreRow, Averaged, Flaps;
    if corrections != [] {
      SameMasks(ctx, a, a2, b, corrections[..|corrections| - 1], n);
    }
  }

  /** Constrained prediction is lossless for every choice of masks. */
  lemma ConstrainedRoundTrip(ctx: Context, masks: seq<Mask>, b: Bounds, values: seq<Row>, n: nat)
    requires Valid(ctx) && Rows(values, n) && |masks| == |values| && Masks(ctx, masks)
    requires ValidBounds(b) && Fits(b) && forall i :: 0 <= i < |values| ==> RowInside(b, values[i])
    ensures Decoded(ctx, b, Corrections(ctx, Chosen(masks), b, values, n), n, FlagsOf(ctx, masks)) == Some(values)
  {
    hide Rebuilt, Corrections, MasksOf, FlagsOf, RowInside, Fits, ValidBounds;
    FlagsGiveMasks(ctx, masks);
    PredictionRoundTrip(ctx, Chosen(masks), b, values, n);
    SameMasks(ctx, masks, MasksOf(ctx, FlagsOf(ctx, masks), |masks|), b, Corrections(ctx, Chosen(masks), b, values, n), n);
  }

  // ---- bytes -------------------------------------------------------------------------------------

  /** The flags of the contexts from c on: a count and, unless it is zero, a binary stream. */
  function FlagBytes(flags: seq<seq<bool>>, p0: seq<nat>): seq<byte>
    requires |p0| == |flags| && forall c :: 0 <= c < |p0| ==> ZeroProb(p0[c])
  {
    if flags == [] then []
    else ContextBytes(flags[0], p0[0]) + FlagBytes(flags[1..], p0[1..])
  }

  function ContextBytes(flags: seq<bool>, p0: nat): seq<byte>
    requires ZeroProb(p0)
  {
    VarBytes(U32(|flags|)) + if flags == [] then [] else BitStream(p0, flags)
  }

  function ReadContext(r: seq<byte>): Option<(seq<bool>, seq<byte>)>
  {
    match ReadVarUint32(r)
    case None => None
    case Some((count, rest)) =>
      if count == 0 then Some(([], rest))
      else
        match OpenBits(rest)
        case None => None
        case Some((p0, s, after)) => Some((DecodeBits(s, p0, count).0, after))
  }

  function WithContext(flags: seq<bool>, o: Option<(seq<seq<bool>>, seq<byte>)>): Option<(seq<seq<bool>>, seq<byte>)>
  {
    match o
    case None => None
    case Some((more, after)) => Some(([flags] + more, after))
  }

  function ReadFlags(r: seq<byte>, contexts: nat): (o: Option<(seq<seq<bool>>, seq<byte>)>)
    ensures o.Some? ==> |o.value.0| == contexts
    decreases contexts
  {
    hide ReadContext;
    if contexts == 0 then Some(([], r))
    else
      match ReadContext(r)
      case None => None
      case Some((flags, rest)) =>
        WithContext(flags, ReadFlags(rest, contexts - 1))
  }

  predicate CountFits(flags: seq<bool>)
  {
    |flags| + 3 < 0x1_0000_0000
  }

  lemma BitsOpen(p0: nat, bits: seq<bool>, suffix: seq<byte>)
    requires ZeroProb(p0) && CountFits(bits)
    ensures OpenBits(BitStream(p0, bits) + suffix) == Some((p0, EncodeBits(p0, bits), suffix))
    ensures DecodeBits(EncodeBits(p0, bits), p0, |bits|).0 == bits
  {
    ShortStreamFits(p0, bits);
    OpenOfStream(p0, bits, suffix);
    BitRoundTrip(p0, bits, suffix);
  }

  lemma ContextRoundTrip(flags: seq<bool>, p0: nat, suffix: seq<byte>)
    requires ZeroProb(p0) && CountFits(flags)
    ensures ReadContext(ContextBytes(flags, p0) + suffix) == Some((flags, suffix))
  {
    hide BitStream, OpenBits, VarBytes, ReadVarUint32, DecodeBits;
    var tail := if flags == [] then [] else BitStream(p0, flags);
    assert ContextBytes(flags, p0) + suffix == VarBytes(|flags|) + (tail + suffix);
    VarUint32RoundTrip(|flags|, tail + suffix);
    if flags == [] {
      assert tail + suffix == suffix;
    } else {
      BitsOpen(p0, flags, suffix);
    }
  }

  lemma {:induction false} FlagsRoundTrip(flags: seq<seq<bool>>, p0: seq<nat>, suffix: seq<byte>)
    requires |p0| == |flags| && forall c :: 0 <= c < |p0| ==> ZeroProb(p0[c])
    requires forall c :: 0 <= c < |flags| ==> CountFits(flags[c])
    ensures ReadFlags(FlagBytes(flags, p0) + suffix, |flags|) == Some((flags, suffix))
    decreases |flags|
  {
    hide ContextBytes, ReadContext;
    if flags != [] {
      assert [flags[0]] + flags[1..] == flags;
    }
    if flags == [] {
      assert FlagBytes(flags, p0) + suffix == suffix;
    } else {
      var rest := FlagBytes(flags[1..], p0[1..]) + suffix;
      assert FlagBytes(flags, p0) + suffix == ContextBytes(flags[0], p0[0]) + rest;
      ContextRoundTrip(flags[0], p0[0], rest);
      FlagsRoundTrip(flags[1..], p0[1..], suffix);
    }
  }
}
