/** Byte-level vocabulary shared by the byte array, the codecs and the transport. */
module Bytes {

  type byte = bv8
  type uint32 = x: int | 0 <= x < 0x1_0000_0000
  type int32 = x: int | -0x8000_0000 <= x < 0x8000_0000

  datatype Option<+T> = None | Some(value: T)

  function Min(a: int, b: int): int { if a <= b then a else b }

  function Max(a: int, b: int): int { if a >= b then a else b }

  /** C++ conversion of an unsigned size to `int`: two's complement truncation to 32 bits. */
  function ToInt32(n: nat): int32 {
    var low := n % 0x1_0000_0000;
    if low < 0x8000_0000 then low else low - 0x1_0000_0000
  }

  /** C++ conversion of an unsigned size to a signed 64-bit integer. */
  function ToInt64(n: nat): int {
    var low := n % 0x1_0000_0000_0000_0000;
    if low < 0x8000_0000_0000_0000 then low else low - 0x1_0000_0000_0000_0000
  }

  lemma ByteKeepsValue(d: int)
    requires 0 <= d < 0x100
    ensures (d as byte) as int == d
  {
    if d < 0x80 {
      if d < 0x40 {} else {}
    } else {
      if d < 0xC0 {} else {}
    }
  }

  function Sum(xs: seq<nat>): nat {
    if xs == [] then 0 else Sum(xs[..|xs| - 1]) + xs[|xs| - 1]
  }

  /** `s` with the bytes at `p ..` replaced by `d`. */
  function Splice(s: seq<byte>, p: nat, d: seq<byte>): (r: seq<byte>)
    requires p + |d| <= |s|
    ensures |r| == |s|
  {
    s[..p] + d + s[p + |d|..]
  }

  /** What writing `d` at `p` does to a byte string that may have to grow. */
  function Overwrite(s: seq<byte>, p: nat, d: seq<byte>): (r: seq<byte>)
    requires p <= |s|
    ensures |r| == Max(|s|, p + |d|)
    ensures r[p..p + |d|] == d
  {
    s[..p] + d + (if p + |d| <= |s| then s[p + |d|..] else [])
  }

  lemma SpliceNothing(s: seq<byte>, p: nat)
    requires p <= |s|
    ensures Splice(s, p, []) == s
  {
  }

  /** Splicing in a prefix of `d` and then the next `n` bytes is splicing in the longer prefix. */
  lemma SpliceMore(s: seq<byte>, p: nat, d: seq<byte>, i: nat, n: nat)
    requires i + n <= |d| && p + |d| <= |s|
    ensures Splice(Splice(s, p, d[..i]), p + i, d[i..i + n]) == Splice(s, p, d[..i + n])
  {
  }

  lemma SpliceOutside(s: seq<byte>, p: nat, d: seq<byte>, i: nat, j: nat)
    requires p + |d| <= |s| && i <= j <= |s|
    requires j <= p || p + |d| <= i
    ensures Splice(s, p, d)[i..j] == s[i..j]
  {
  }

  lemma SpliceInside(s: seq<byte>, p: nat, d: seq<byte>, n: nat)
    requires |d| <= n && p + n <= |s|
    ensures Splice(s, p, d)[p..p + n] == Splice(s[p..p + n], 0, d)
  {
    assert s[p..p + n][|d|..] == s[p + |d|..p + n];
    assert Splice(s[p..p + n], 0, d) == d + s[p + |d|..p + n];
    assert Splice(s, p, d)[p..p + n] == d + s[p + |d|..p + n];
  }

  lemma SliceOfPrefix(s: seq<byte>, n: nat, i: nat, j: nat)
    requires i <= j <= n <= |s|
    ensures s[..n][i..j] == s[i..j]
  {
  }

  lemma FrontOfSlice(s: seq<byte>, i: nat, n: nat, k: nat)
    requires k <= n && i + n <= |s|
    ensures s[i..i + n][..k] == s[i..i + k]
  {
  }

  lemma JoinSlices(s: seq<byte>, i: nat, j: nat, k: nat)
    requires i <= j <= k <= |s|
    ensures s[i..j] + s[j..k] == s[i..k]
  {
  }

  /** Growing a byte string by its own capacity and then splicing is an overwrite of the prefix in use. */
  lemma SpliceIsOverwrite(s: seq<byte>, used: nat, p: nat, d: seq<byte>)
    requires p <= used <= |s| && p + |d| <= |s|
    ensures Splice(s, p, d)[..Max(used, p + |d|)] == Overwrite(s[..used], p, d)
  {
  }

  lemma SpliceIsOverwriteCut(s: seq<byte>, used: nat, p: nat, d: seq<byte>, keep: nat)
    requires p <= used <= |s| && p + |d| <= |s| && keep <= Max(used, p + |d|)
    ensures Splice(s, p, d)[..keep] == Overwrite(s[..used], p, d)[..keep]
  {
    SpliceIsOverwrite(s, used, p, d);
    assert Splice(s, p, d)[..keep] == Splice(s, p, d)[..Max(used, p + |d|)][..keep];
  }

  lemma OverwriteTwice(s: seq<byte>, p: nat, d: seq<byte>, e: seq<byte>)
    requires p <= |s|
    ensures Overwrite(Overwrite(s, p, d), p + |d|, e) == Overwrite(s, p, d + e)
  {
    var l, r := Overwrite(Overwrite(s, p, d), p + |d|, e), Overwrite(s, p, d + e);
    assert |l| == |r|;
    assert forall k :: 0 <= k < |l| ==> l[k] == r[k];
  }
}
