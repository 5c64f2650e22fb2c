/** Bits packed least significant first (internal/core/writer.go, internal/entropy/symbols.go):
    the writer that sets one bit at a time and the reader that loads whole bytes. */
module LsbStream {
  import opened Bits

  /** The bits of the bytes in stream order. */
  function Unpack(data: seq<byte>): (r: seq<bool>)
    ensures |r| == 8 * |data|
  {
    if data == [] then [] else Lsb(data[0], 8) + Unpack(data[1..])
  }

  lemma {:induction false} UnpackConcat(a: seq<byte>, b: seq<byte>)
    ensures Unpack(a + b) == Unpack(a) + Unpack(b)
    decreases |a|
  {
    hide Lsb;
    if a == [] {
      assert a + b == b;
    } else {
      UnpackConcat(a[1..], b);
      assert (a + b)[1..] == a[1..] + b;
    }
  }

  /** Whole bytes that hold the bits, with zeros after them. */
  ghost predicate IsPacked(data: seq<byte>, bits: seq<bool>)
  {
    |data| == (|bits| + 7) / 8 && Unpack(data) == bits + Zeros(8 * |data| - |bits|)
  }

  // ---- writing --------------------------------------------------------------------------------

  lemma OneByte(b: byte)
    ensures Unpack([b]) == Lsb(b, 8)
  {
    assert [b][1..] == [];
  }

  lemma {:induction false} LsbZero(n: nat)
    ensures Lsb(0, n) == Zeros(n)
  {
    if n > 0 {
      LsbZero(n - 1);
    }
  }

  /** Bits above position k are clear. */
  lemma {:induction false} ClearAbove(b: nat, k: nat, n: nat)
    requires k <= n && b < Pow2(n) && Lsb(b, n)[k..] == Zeros(n - k)
    ensures b < Pow2(k)
    decreases n
  {
    if n > 0 {
      if k == 0 {
        assert Lsb(b, n)[0] == Zeros(n)[0] == false;
        assert Lsb(b / 2, n - 1)[0..] == Lsb(b, n)[1..] == Zeros(n - 1);
        ClearAbove(b / 2, 0, n - 1);
      } else {
        assert Lsb(b / 2, n - 1)[k - 1..] == Lsb(b, n)[k..];
        ClearAbove(b / 2, k - 1, n - 1);
      }
    }
  }

  /** Setting bit k of a byte that is clear from k on. */
  lemma SetBit(b: byte, k: nat)
    requires k < 8 && Lsb(b, 8)[k..] == Zeros(8 - k)
    ensures Or(b, Shl(1, k)) < 256 && Lsb(Or(b, Shl(1, k)), 8) == Lsb(b, k) + [true] + Zeros(7 - k)
    ensures Lsb(b, 8) == Lsb(b, k) + Zeros(8 - k)
  {
    Pow2Of32();
    ClearAbove(b, k, 8);
    OrDisjoint(1, b, k);
    Pow2Mono(k + 1, 8);
    ShlIsProduct(1, k);
    LsbSplit(b, 1, k, 8 - k);
    LsbZero(7 - k);
    LsbDrop(b, k, 8 - k);
  }

  class BitWriter {
    var data: seq<byte>
    var bitOffset: nat

    ghost predicate Holds(bits: seq<bool>)
      reads this
    {
      bitOffset == |bits| && IsPacked(data, bits)
    }

    constructor ()
      ensures Holds([])
    {
      data, bitOffset := [], 0;
    }

    /** The low n bits of value, lowest first. */
    method WriteBitsLSB(value: nat, n: int, ghost bits: seq<bool>) returns (ok: bool)
      requires Holds(bits)
      modifies this
      ensures ok == (0 <= n <= 32)
      ensures Holds(if ok then bits + Lsb(value, n) else bits)
    {
      hide IsPacked;
      if n < 0 || n > 32 {
        return false;
      }
      assert bits + Lsb(value, n)[..0] == bits;
      for bit := 0 to n
        invariant Holds(bits + Lsb(value, n)[..bit])
      {
        LsbAt(value, n, bit);
        ghost var sofar := bits + Lsb(value, n)[..bit];
        PushBit(data, sofar, Lsb(value, n)[bit]);
        assert bits + Lsb(value, n)[..bit + 1] == sofar + [Lsb(value, n)[bit]];
        if bitOffset / 8 >= |data| {
          data := data + [0];
        }
        if Shr(value, bit) % 2 != 0 {
          data := data[bitOffset / 8 := Or(data[bitOffset / 8], Shl(1, bitOffset % 8))];
        }
        bitOffset := bitOffset + 1;
      }
      assert Lsb(value, n)[..n] == Lsb(value, n);
      ok := true;
    }
  }

  /** The data with one more byte when all bits are used. */
  function Grown(data: seq<byte>, n: nat): seq<byte>
  {
    if n / 8 >= |data| then data + [0] else data
  }

  lemma PushBit(data: seq<byte>, bits: seq<bool>, bit: bool)
    requires IsPacked(data, bits)
    ensures var (grown, i, k) := (Grown(data, |bits|), |bits| / 8, |bits| % 8);
            i < |grown| && Or(grown[i], Shl(1, k)) < 256 &&
            IsPacked(if bit then grown[i := Or(grown[i], Shl(1, k))] else grown, bits + [bit])
  {
    var (grown, i, k) := (Grown(data, |bits|), |bits| / 8, |bits| % 8);
    GrownIs(data, bits);
    var head, last := grown[..i], grown[i];
    assert grown == head + [last];
    UnpackPush(head, last);
    assert Lsb(last, 8)[k..] == Zeros(8 - k) by {
      assert Unpack(grown)[8 * i..] == Lsb(last, 8);
    }
    SetBit(last, k);
    assert Unpack(head) + Lsb(last, k) == bits by {
      assert Unpack(grown)[..|bits|] == bits;
    }
    BytePushed(head, last, k, bits, bit);
    assert (if bit then grown[i := Or(last, Shl(1, k))] else grown) == head + [if bit then Or(last, Shl(1, k)) else last];
  }

  lemma UnpackPush(head: seq<byte>, last: byte)
    ensures Unpack(head + [last]) == Unpack(head) + Lsb(last, 8)
  {
    UnpackConcat(head, [last]);
    OneByte(last);
  }

  lemma BytePushed(head: seq<byte>, last: byte, k: nat, bits: seq<bool>, bit: bool)
    requires k < 8 && Lsb(last, 8)[k..] == Zeros(8 - k) && Unpack(head) + Lsb(last, k) == bits
    ensures Or(last, Shl(1, k)) < 256 && IsPacked(head + [if bit then Or(last, Shl(1, k)) else last], bits + [bit])
  {
    hide Unpack, Or, Shl, Lsb;
    SetBit(last, k);
    var pushed: byte := if bit then Or(last, Shl(1, k)) else last;
    UnpackPush(head, pushed);
    assert Lsb(last, k) + Zeros(8 - k) == Lsb(last, k) + [false] + Zeros(7 - k);
    assert Unpack(head) + (Lsb(last, k) + [bit] + Zeros(7 - k)) == (bits + [bit]) + Zeros(7 - k);
  }

  lemma GrownIs(data: seq<byte>, bits: seq<bool>)
    requires IsPacked(data, bits)
    ensures var grown := Grown(data, |bits|);
            |grown| == |bits| / 8 + 1 && Unpack(grown) == bits + Zeros(8 * |grown| - |bits|)
  {
    if |bits| / 8 >= |data| {
      UnpackConcat(data, [0]);
      OneByte(0);
      LsbZero(8);
      assert Unpack(data) == bits;
    }
  }

  // ---- reading --------------------------------------------------------------------------------

  lemma LsbValueHead(b: seq<bool>)
    requires b != []
    ensures LsbValue(b) / 2 == LsbValue(b[1..]) && LsbValue(b) % 2 == if b[0] then 1 else 0
  {
  }

  lemma LowHead(v: nat, n: nat)
    requires n > 0
    ensures Low(v, n) == v % 2 + 2 * Low(v / 2, n - 1)
  {
  }

  lemma {:induction false} LsbValueTake(b: seq<bool>, n: nat)
    requires n <= |b|
    ensures Low(LsbValue(b), n) == LsbValue(b[..n])
    decreases n
  {
    hide Unpack;
    if n > 0 {
      LsbValueTake(b[1..], n - 1);
      assert b[..n] != [] && b[..n][0] == b[0] && b[..n][1..] == b[1..][..n - 1];
      LsbValueHead(b);
      LsbValueHead(b[..n]);
      LowHead(LsbValue(b), n);
    }
  }

  lemma {:induction false} UnpackSlice(data: seq<byte>, i: nat, j: nat)
    requires i <= j <= |data|
    ensures Unpack(data[i..j]) == Unpack(data)[8 * i..8 * j]
  {
    assert data == data[..i] + (data[i..j] + data[j..]);
    UnpackConcat(data[..i], data[i..j] + data[j..]);
    UnpackConcat(data[i..j], data[j..]);
  }

  /** Loads bytes low first. */
  lemma LoadByte(data: seq<byte>, i: nat, j: nat)
    requires i <= j < |data|
    ensures LsbValue(Unpack(data[i..j + 1])) == Or(LsbValue(Unpack(data[i..j])), Shl(data[j], 8 * (j - i)))
  {
    var low := Unpack(data[i..j]);
    assert data[i..j + 1] == data[i..j] + [data[j]];
    UnpackConcat(data[i..j], [data[j]]);
    OneByte(data[j]);
    LsbValueBound(low);
    Pow2Of32();
    LsbValueOf(data[j], 8);
    LowBound(data[j], 8);
    LsbValueConcat(low, Lsb(data[j], 8));
    OrDisjoint(data[j], LsbValue(low), 8 * (j - i));
  }

  lemma {:induction false} LsbValueConcat(a: seq<bool>, b: seq<bool>)
    ensures LsbValue(a + b) == LsbValue(a) + Shl(LsbValue(b), |a|)
    decreases |a|
  {
    if a == [] {
      assert a + b == b;
    } else {
      LsbValueConcat(a[1..], b);
      assert (a + b)[1..] == a[1..] + b;
    }
  }

  /** The bits at an offset, as a number. */
  function BitsAt(data: seq<byte>, offset: nat, n: nat): nat
    requires offset + n <= 8 * |data|
  {
    LsbValue(Unpack(data)[offset..offset + n])
  }

  lemma ShiftAndMask(data: seq<byte>, i: nat, j: nat, shift: nat, n: nat)
    requires i <= j <= |data| && shift + n <= 8 * (j - i)
    ensures Low(Shr(LsbValue(Unpack(data[i..j])), shift), n) == BitsAt(data, 8 * i + shift, n)
  {
    var b := Unpack(data[i..j]);
    UnpackSlice(data, i, j);
    assert b == b[..shift] + b[shift..];
    LsbValueDrop(b[..shift], b[shift..]);
    LsbValueTake(b[shift..], n);
    assert b[shift..][..n] == Unpack(data)[8 * i + shift..8 * i + shift + n];
  }

  /** readTaggedBitsLSB: one byte when the bits lie within it, otherwise as many as needed. */
  method ReadBitsLSB(data: seq<byte>, offset: nat, n: nat) returns (ok: bool, value: nat, next: nat)
    requires offset <= 8 * |data|
    ensures ok <==> offset + n <= 8 * |data|
    ensures ok ==> value == BitsAt(data, offset, n) && next == offset + n
    ensures !ok ==> next == offset
  {
    hide Unpack, LsbValue, Shr, Low, Shl, Or;
    if n == 0 {
      NoBitsAt(data, offset);
      return true, 0, offset;
    }
    if offset > 8 * |data| || n > 8 * |data| - offset {
      return false, 0, offset;
    }
    var byteOffset, shift := offset / 8, offset % 8;
    if shift + n <= 8 {
      ShiftAndMask(data, byteOffset, byteOffset + 1, shift, n);
      ByteValue(data, byteOffset);
      return true, Low(Shr(data[byteOffset], shift), n), offset + n;
    }
    var bits, loaded := 0, 0;
    assert data[byteOffset..byteOffset] == [];
    NoValue();
    while loaded < n + shift
      invariant loaded % 8 == 0 && loaded < n + shift + 8 && byteOffset + loaded / 8 <= |data|
      invariant bits == LsbValue(Unpack(data[byteOffset..byteOffset + loaded / 8]))
    {
      LoadByte(data, byteOffset, byteOffset + loaded / 8);
      bits := Or(bits, Shl(data[byteOffset + loaded / 8], loaded));
      loaded := loaded + 8;
    }
    ShiftAndMask(data, byteOffset, byteOffset + loaded / 8, shift, n);
    return true, Low(Shr(bits, shift), n), offset + n;
  }

  lemma NoBitsAt(data: seq<byte>, offset: nat)
    requires offset <= 8 * |data|
    ensures BitsAt(data, offset, 0) == 0
  {
    assert Unpack(data)[offset..offset] == [];
  }

  lemma NoValue()
    ensures LsbValue(Unpack([])) == 0
  {
  }

  lemma ByteValue(data: seq<byte>, i: nat)
    requires i < |data|
    ensures LsbValue(Unpack(data[i..i + 1])) == data[i]
  {
    assert data[i..i + 1] == [data[i]];
    OneByte(data[i]);
    Pow2Of32();
    LsbValueOf(data[i], 8);
    LowBound(data[i], 8);
  }
}
