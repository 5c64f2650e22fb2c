/** Folded bit coding (internal/entropy/folded_bit.go): bit i of every number goes to the
    i-th of 32 binary rANS coders; a 33rd takes single bits. */
module FoldedBit {
  import opened Bits
  import opened Rans
  import opened RansBit
  import opened RansBitCoding
  import opened KdStreams

  /** The bits that a list of writes sends to column i. */
  function ColumnBits(ops: seq<Op>, i: nat): seq<bool>
  {
    if ops == [] then []
    else
      var m := |ops| - 1;
      ColumnBits(ops[..m], i) + (if i < ops[m].n then [Msb(ops[m].v, ops[m].n)[i]] else [])
  }

  lemma ColumnPush(ops: seq<Op>, op: Op, i: nat)
    ensures ColumnBits(ops + [op], i) == ColumnBits(ops, i) + if i < op.n then [Msb(op.v, op.n)[i]] else []
  {
    assert (ops + [op])[..|ops|] == ops;
  }

  lemma {:induction false} ColumnHead(op: Op, rest: seq<Op>, i: nat)
    ensures ColumnBits([op] + rest, i) == (if i < op.n then [Msb(op.v, op.n)[i]] else []) + ColumnBits(rest, i)
    decreases |rest|
  {
    if rest == [] {
      assert [op] + rest == [] + [op];
      ColumnPush([], op, i);
    } else {
      var m := |rest| - 1;
      ColumnHead(op, rest[..m], i);
      assert [op] + rest == ([op] + rest[..m]) + [rest[m]];
      ColumnPush([op] + rest[..m], rest[m], i);
    }
  }

  /** The columns' streams one after the other. */
  function ColumnStreams(probs: seq<nat>, ops: seq<Op>, n: nat): seq<byte>
    requires n <= |probs| && forall i :: 0 <= i < |probs| ==> ZeroProb(probs[i])
  {
    if n == 0 then [] else ColumnStreams(probs, ops, n - 1) + BitStream(probs[n - 1], ColumnBits(ops, n - 1))
  }

  function FoldedStream(probs: seq<nat>, ops: seq<Op>): seq<byte>
    requires |probs| == 33 && forall i :: 0 <= i < 33 ==> ZeroProb(probs[i])
  {
    ColumnStreams(probs, ops, 32) + BitStream(probs[32], [])
  }

  /** n column decoders from the head of r. */
  function OpenColumns(r: seq<byte>, n: nat): (o: Option<(seq<Column>, seq<byte>)>)
    ensures o.Some? ==> |o.value.0| == n && forall i :: 0 <= i < n ==> o.value.0[i].p0 <= 255
  {
    if n == 0 then Some(([], r))
    else
      match OpenColumns(r, n - 1)
      case None => None
      case Some((columns, rest)) =>
        match OpenBits(rest)
        case None => None
        case Some((p0, s, after)) => Some((columns + [Column(p0, s)], after))
  }

  ghost predicate Distinct<T>(objects: seq<T>)
  {
    forall i, j :: 0 <= i < j < |objects| ==> objects[i] != objects[j]
  }

  class FoldedBitEncoder {
    const folded: seq<RansBitEncoder>
    const bits: RansBitEncoder
    var failed: bool

    ghost predicate Valid()
      reads this, folded, bits
    {
      |folded| == 32 && Distinct(folded) && bits !in folded &&
      (forall i :: 0 <= i < 32 ==> folded[i].Valid() && !folded[i].failed) &&
      bits.Valid() && !bits.failed
    }

    /** The coders hold exactly the given writes. */
    ghost predicate Holds(ops: seq<Op>)
      reads this, folded, bits
    {
      Valid() && bits.Contents() == [] && forall i :: 0 <= i < 32 ==> folded[i].Contents() == ColumnBits(ops, i)
    }

    constructor ()
      ensures Valid() && !failed && Holds([]) && fresh(folded) && fresh(bits)
    {
      var coders: seq<RansBitEncoder> := [];
      for k := 0 to 32
        invariant |coders| == k && Distinct(coders)
        invariant forall i :: 0 <= i < k ==> fresh(coders[i]) && coders[i].Valid() && !coders[i].failed && coders[i].Contents() == []
      {
        var coder := new RansBitEncoder();
        coders := coders + [coder];
      }
      var single := new RansBitEncoder();
      folded, bits, failed := coders, single, false;
    }

    /** Bit i of the low nbits bits, high first, goes to coder i. A bad count fails the coder,
        which then takes nothing more. */
    method EncodeLeastSignificantBits32(nbits: int, value: nat, ghost ops: seq<Op>)
      requires Holds(ops)
      modifies this, folded
      ensures failed == (old(failed) || !(1 <= nbits <= 32))
      ensures Holds(if failed then ops else ops + [Op(nbits, value)])
    {
      if failed {
        return;
      }
      if nbits <= 0 || nbits > 32 {
        failed := true;
        return;
      }
      Spread(nbits, value, ops);
    }

    method Spread(nbits: nat, value: nat, ghost ops: seq<Op>)
      requires Holds(ops) && !failed && 1 <= nbits <= 32
      modifies this, folded
      ensures !failed && Holds(ops + [Op(nbits, value)])
    {
      hide Msb, ColumnBits, Shr, Words, Lsb;
      ghost var b := Msb(value, nbits);
      for i := 0 to nbits
        invariant !failed && Valid() && bits.Contents() == []
        invariant forall k :: 0 <= k < 32 ==>
          folded[k].Contents() == if k < i then ColumnBits(ops, k) + [b[k]] else ColumnBits(ops, k)
      {
        MsbBit(value, nbits, i);
        var selected := Shr(value, nbits - 1 - i) % 2 == 1;
        assert folded[i] in folded;
        folded[i].EncodeBit(selected);
      }
      forall k | 0 <= k < 32
        ensures folded[k].Contents() == ColumnBits(ops + [Op(nbits, value)], k)
      {
        ColumnPush(ops, Op(nbits, value), k);
        assert ColumnBits(ops, k) + [] == ColumnBits(ops, k);
      }
    }

    /** All coders in order, unless a count was bad; the probability estimates are parameters. */
    method EndEncoding(probs: seq<nat>, ghost ops: seq<Op>) returns (ok: bool, out: seq<byte>)
      requires Holds(ops) && |probs| == 33 && forall i :: 0 <= i < 33 ==> ZeroProb(probs[i])
      modifies this, folded, bits
      ensures Holds([]) && !failed
      ensures ok == !old(failed)
      ensures out == if ok then FoldedStream(probs, ops) else []
    {
      if failed {
        Clear();
        return false, [];
      }
      out := Streams(probs, ops);
      ok := true;
      NothingWritten();
    }

    method Streams(probs: seq<nat>, ghost ops: seq<Op>) returns (out: seq<byte>)
      requires Holds(ops) && |probs| == 33 && forall i :: 0 <= i < 33 ==> ZeroProb(probs[i])
      modifies folded, bits
      ensures Valid() && bits.Contents() == [] && forall i :: 0 <= i < 32 ==> folded[i].Contents() == []
      ensures out == FoldedStream(probs, ops)
    {
      hide BitStream, ColumnBits, ZeroProb, Words, Lsb, ColumnStreams;
      out := [];
      StreamsStep(probs, ops, 0);
      for i := 0 to 32
        invariant Valid() && bits.Contents() == []
        invariant out == ColumnStreams(probs, ops, i)
        invariant forall k :: 0 <= k < i ==> folded[k].Contents() == []
        invariant forall k :: i <= k < 32 ==> folded[k].Contents() == ColumnBits(ops, k)
      {
        assert folded[i] in folded;
        var done, bytes := folded[i].EndEncoding(probs[i]);
        StreamsStep(probs, ops, i + 1);
        out := out + bytes;
      }
      var done, bytes := bits.EndEncoding(probs[32]);
      out := out + bytes;
    }

    method Clear()
      requires Valid()
      modifies this, folded, bits
      ensures Holds([]) && !failed
    {
      hide Words, Lsb, ColumnBits;
      failed := false;
      for i := 0 to 32
        invariant Valid() && !failed
        invariant forall k :: 0 <= k < i ==> folded[k].Contents() == []
      {
        assert folded[i] in folded;
        folded[i].StartEncoding();
      }
      bits.StartEncoding();
      NothingWritten();
    }
  }

  lemma StreamsStep(probs: seq<nat>, ops: seq<Op>, n: nat)
    requires n <= |probs| && forall i :: 0 <= i < |probs| ==> ZeroProb(probs[i])
    ensures ColumnStreams(probs, ops, n) ==
            if n == 0 then [] else ColumnStreams(probs, ops, n - 1) + BitStream(probs[n - 1], ColumnBits(ops, n - 1))
  {
  }

  lemma NothingWritten()
    ensures forall i: nat :: ColumnBits([], i) == []
  {
  }

  lemma MsbBit(v: nat, n: nat, i: nat)
    requires i < n
    ensures Shr(v, n - 1 - i) % 2 == 1 <==> Msb(v, n)[i]
  {
    MsbTop(v, i + 1, n - 1 - i);
  }

  class FoldedBitDecoder {
    const folded: seq<RansBitDecoder>
    const bits: RansBitDecoder
    var failed: bool

    ghost predicate Valid()
      reads this, folded, bits
    {
      |folded| == 32 && Distinct(folded) && bits !in folded &&
      (forall i :: 0 <= i < 32 ==> folded[i].Valid() && !folded[i].failed) && bits.Valid() && !bits.failed
    }

    ghost function Columns(): (r: seq<Column>)
      requires Valid()
      reads this, folded, bits
      ensures |r| == 32 && forall i :: 0 <= i < 32 ==> r[i].p0 <= 255
    {
      seq(32, i requires 0 <= i < 32 && |folded| == 32 && folded[i].Valid() reads this, folded => Column(folded[i].probZero, folded[i].Value()))
    }

    constructor ()
      ensures Valid() && !failed && fresh(folded) && fresh(bits)
    {
      var coders: seq<RansBitDecoder> := [];
      for k := 0 to 32
        invariant |coders| == k && Distinct(coders)
        invariant forall i :: 0 <= i < k ==> fresh(coders[i]) && coders[i].Valid() && !coders[i].failed
      {
        var coder := new RansBitDecoder();
        coders := coders + [coder];
      }
      var single := new RansBitDecoder();
      folded, bits, failed := coders, single, false;
    }

    method StartDecoding(r: seq<byte>) returns (ok: bool, rest: seq<byte>)
      requires Valid()
      modifies this, folded, bits
      ensures ok ==> Valid() && !failed && OpenColumns(r, 32).Some? &&
                     OpenBits(OpenColumns(r, 32).value.1).Some? &&
                     OpenColumns(r, 32).value.0 == Columns() && OpenBits(OpenColumns(r, 32).value.1).value.2 == rest
    {
      hide OpenBits;
      failed := false;
      rest := r;
      for i := 0 to 32
        invariant Valid() && !failed
        invariant OpenColumns(r, i).Some? && OpenColumns(r, i).value.1 == rest
        invariant forall k :: 0 <= k < i ==> OpenColumns(r, i).value.0[k] == Column(folded[k].probZero, folded[k].Value())
      {
        assert folded[i] in folded;
        ok, rest := folded[i].StartDecoding(rest);
        if !ok {
          return;
        }
      }
      ok, rest := bits.StartDecoding(rest);
    }

    /** Column by column, high bit first. A bad count fails the decoder, which then reads nothing more. */
    method DecodeLeastSignificantBits32(nbits: int) returns (ok: bool, value: nat)
      requires Valid()
      modifies this, folded
      ensures Valid() && failed == (old(failed) || !(1 <= nbits <= 32)) && ok == !failed
      ensures if ok then (Msb(value, nbits), Columns()) == FoldRead(old(Columns()), nbits) && value < Pow2(nbits)
              else Columns() == old(Columns())
    {
      hide DecodeBitStep, U32, MsbValue, Pow2;
      value := 0;
      if failed {
        return false, 0;
      }
      if nbits <= 0 || nbits > 32 {
        failed := true;
        return false, 0;
      }
      ghost var columns := Columns();
      ghost var read: seq<bool> := [];
      MsbValueOfNone();
      for i := 0 to nbits
        invariant Valid() && !failed && |read| == i && value == MsbValue(read)
        invariant (read, Columns()) == FoldRead(columns, i)
      {
        assert folded[i] in folded;
        FoldUnread(columns, i);
        assert Columns()[i] == columns[i];
        ghost var before := Columns();
        var bit := folded[i].DecodeNextBit();
        assert Columns() == before[i := Column(columns[i].p0, folded[i].Value())];
        PushBit(read, bit);
        value := U32(U32(value * 2) + if bit then 1 else 0);
        read := read + [bit];
      }
      MsbValueBound(read);
      ok := true;
    }
  }

  lemma MsbValueOfNone()
    ensures MsbValue([]) == 0
  {
  }

  /** Columns beyond the ones read are unchanged. */
  lemma {:induction false} FoldUnread(columns: seq<Column>, n: nat)
    requires n <= |columns| && forall i :: 0 <= i < |columns| ==> columns[i].p0 <= 255
    ensures forall i :: n <= i < |columns| ==> FoldRead(columns, n).1[i] == columns[i]
  {
    hide DecodeBitStep;
    if n > 0 {
      FoldUnread(columns, n - 1);
    }
  }
}
