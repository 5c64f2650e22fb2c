/** Byte-level framing (internal/core): little-endian words and variable-length numbers.
    A reader is the sequence of bytes not read yet. */
module Stream {
  import opened Bits

  // ---- little-endian words ------------------------------------------------------------

  /** The n low bytes of v, least significant first. */
  function LeBytes(v: nat, n: nat): (r: seq<byte>)
    ensures |r| == n
  {
    if n == 0 then [] else [v % 256] + LeBytes(v / 256, n - 1)
  }

  function LeValue(b: seq<byte>): nat
  {
    if b == [] then 0 else b[0] as int + 256 * LeValue(b[1..])
  }

  function Pow256(n: nat): nat
  {
    if n == 0 then 1 else 256 * Pow256(n - 1)
  }

  lemma {:induction false} LeRoundTrip(v: nat, n: nat)
    requires v < Pow256(n)
    ensures LeValue(LeBytes(v, n)) == v
  {
    if n > 0 {
      LeRoundTrip(v / 256, n - 1);
      assert LeBytes(v, n)[1..] == LeBytes(v / 256, n - 1);
    }
  }

  function ReadUint32(r: seq<byte>): Option<(nat, seq<byte>)>
  {
    if |r| < 4 then None else Some((LeValue(r[..4]), r[4..]))
  }

  lemma Uint32RoundTrip(v: nat, suffix: seq<byte>)
    requires v < 0x1_0000_0000
    ensures ReadUint32(LeBytes(v, 4) + suffix) == Some((v, suffix))
  {
    assert Pow256(4) == 0x1_0000_0000;
    LeRoundTrip(v, 4);
    var r := LeBytes(v, 4) + suffix;
    assert r[..4] == LeBytes(v, 4) && r[4..] == suffix;
  }

  // ---- variable-length numbers ----------------------------------------------------------

  function VarBytes(v: nat): seq<byte>
  {
    if v < 128 then [v] else [128 + v % 128] + VarBytes(v / 128)
  }

  /** At most k bytes, seven bits each; None when the input ends or runs too long. */
  function ReadVar(r: seq<byte>, k: nat): Option<(nat, seq<byte>)>
    decreases k
  {
    if k == 0 || r == [] then None
    else if r[0] < 128 then Some((r[0], r[1..]))
    else
      match ReadVar(r[1..], k - 1)
      case None => None
      case Some((v, rest)) => Some((r[0] as int % 128 + 128 * v, rest))
  }

  function ReadVarUint32(r: seq<byte>): Option<(nat, seq<byte>)>
  {
    match ReadVar(r, 5)
    case None => None
    case Some((v, rest)) => Some((v % 0x1_0000_0000, rest))
  }

  function ReadVarUint64(r: seq<byte>): Option<(nat, seq<byte>)>
  {
    match ReadVar(r, 10)
    case None => None
    case Some((v, rest)) => Some((v % 0x1_0000_0000_0000_0000, rest))
  }

  function Pow128(n: nat): nat
  {
    if n == 0 then 1 else 128 * Pow128(n - 1)
  }

  lemma {:induction false} VarRoundTrip(v: nat, k: nat, suffix: seq<byte>)
    requires k > 0 && v < Pow128(k)
    ensures ReadVar(VarBytes(v) + suffix, k) == Some((v, suffix))
    decreases k
  {
    var r := VarBytes(v) + suffix;
    if v < 128 {
      assert r[1..] == suffix;
    } else {
      assert k > 1 by { assert Pow128(1) == 128; }
      VarRoundTrip(v / 128, k - 1, suffix);
      assert r[1..] == VarBytes(v / 128) + suffix;
    }
  }

  lemma VarUint32RoundTrip(v: nat, suffix: seq<byte>)
    requires v < 0x1_0000_0000
    ensures ReadVarUint32(VarBytes(v) + suffix) == Some((v, suffix))
  {
    assert Pow128(5) > 0x1_0000_0000;
    VarRoundTrip(v, 5, suffix);
  }

  lemma VarUint64RoundTrip(v: nat, suffix: seq<byte>)
    requires v < 0x1_0000_0000_0000_0000
    ensures ReadVarUint64(VarBytes(v) + suffix) == Some((v, suffix))
  {
    assert Pow128(10) == 128 * 128 * Pow128(8) && Pow128(8) == 128 * 128 * Pow128(6);
    assert Pow128(6) == 128 * 128 * 128 * 128 * 128 * 128;
    VarRoundTrip(v, 10, suffix);
  }

  /** The first n bytes and the rest. */
  function Take(r: seq<byte>, n: nat): Option<(seq<byte>, seq<byte>)>
  {
    if n > |r| then None else Some((r[..n], r[n..]))
  }

  lemma Regroup(a: seq<byte>, b: seq<byte>, c: seq<byte>, d: seq<byte>)
    ensures a + b + c + d == a + (b + (c + d))
  {
  }

  lemma TakeConcat(a: seq<byte>, b: seq<byte>)
    ensures Take(a + b, |a|) == Some((a, b))
  {
    assert (a + b)[..|a|] == a && (a + b)[|a|..] == b;
  }
}
