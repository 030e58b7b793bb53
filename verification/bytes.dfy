/** Unsigned bytes and the two bit tests the HxByteRLE control byte is read with. */
module Bytes {

  /** An unsigned 8-bit value: numpy's `uint8` and C's `unsigned char`. */
  newtype byte = b: int | 0 <= b < 256

  /** The high-bit test of a control byte: set for a literal run. The pure-Python
      fallback writes it as the mask `c & 0x80`, the older variant and the C++
      extension as `c > 127`; `MasksAgree` shows the two spellings coincide. */
  predicate HighBit(c: byte) {
    c > 127
  }

  /** The low seven bits `c & 0x7F`: the length of a literal run. */
  function Low7(c: byte): nat {
    if c > 127 then c as nat - 128 else c as nat
  }

  /** The run length a control byte announces: the masked count of a literal
      run, or the byte itself for a fill run (for which the mask changes nothing). */
  function RunLength(c: byte): (n: nat)
    ensures n < 128
    ensures n == Low7(c)
  {
    if HighBit(c) then Low7(c) else c as nat
  }

  /** The arithmetic readings above are the bit masks the implementations apply:
      on an 8-bit value, `& 0x80` tests for 128 or more and `& 0x7F` drops that 128. */
  lemma MasksAgree(b: bv8)
    ensures b & 0x80 != 0 <==> b >= 0x80
    ensures b & 0x7F == if b >= 0x80 then b - 0x80 else b
  {
  }

  /** `n` copies of the fill byte `v`. */
  function Repeat(v: byte, n: nat): (r: seq<byte>)
    ensures |r| == n
    ensures forall k | 0 <= k < n :: r[k] == v
  {
    seq(n, _ => v)
  }

  /** Concatenation regroups freely; stated once so proofs need not rediscover it. */
  lemma AppendAssoc(a: seq<byte>, b: seq<byte>, c: seq<byte>)
    ensures (a + b) + c == a + (b + c)
  {
  }

  /** Dropping `a` bytes and then `b` more drops `c == a + b`. */
  lemma DropDrop(s: seq<byte>, a: nat, b: nat, c: nat)
    requires a + b == c <= |s|
    ensures s[a..][b..] == s[c..]
  {
  }

  /** A slice of what is left after dropping `a` bytes is a slice of the whole. */
  lemma SliceOfDrop(s: seq<byte>, a: nat, lo: nat, hi: nat)
    requires a + lo <= a + hi <= |s|
    ensures s[a..][lo..hi] == s[a + lo..a + hi]
  {
  }

  /** A slice that lies within a prefix of `s` is the same slice of `s`. */
  lemma SliceOfPrefix(p: seq<byte>, s: seq<byte>, lo: nat, hi: nat)
    requires |p| <= |s| && p == s[..|p|] && lo <= hi <= |p|
    ensures s[lo..hi] == p[lo..hi]
  {
    assert forall k | lo <= k < hi :: s[k] == s[..|p|][k];
  }

  /** A sequence is its first `w` bytes followed by the rest. */
  lemma Rejoin(s: seq<byte>, w: nat, a: seq<byte>, b: seq<byte>)
    requires w <= |s| && s[..w] == a && s[w..] == b
    ensures a + b == s
  {
    assert s == s[..w] + s[w..];
  }
}
