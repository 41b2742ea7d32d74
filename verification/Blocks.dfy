/** The flat byte string that a chain of equally sized blocks stands for. */
module Blocks {
  import opened Bytes

  function Concat(bs: seq<seq<byte>>): seq<byte> {
    if bs == [] then [] else Concat(bs[..|bs| - 1]) + bs[|bs| - 1]
  }

  ghost predicate Uniform(bs: seq<seq<byte>>, b: nat) {
    forall i :: 0 <= i < |bs| ==> |bs[i]| == b
  }

  /** Offset of block `i`. It is `i * b`, spelled so that no multiplication reaches the solver. */
  function Start(i: nat, b: nat): nat {
    if i == 0 then 0 else Start(i - 1, b) + b
  }

  lemma {:induction false} StartIsProduct(i: nat, b: nat)
    ensures Start(i, b) == i * b
  {
    if i > 0 {
      StartIsProduct(i - 1, b);
      assert i * b == (i - 1) * b + b;
    }
  }

  lemma {:induction false} StartOrder(i: nat, j: nat, b: nat)
    ensures i < j ==> Start(i, b) + b <= Start(j, b)
    ensures i <= j ==> Start(i, b) <= Start(j, b)
    decreases j
  {
    if i < j {
      StartOrder(i, j - 1, b);
    }
  }

  lemma DivMod(p: nat, b: nat)
    requires b > 0
    ensures p % b < b && p == Start(p / b, b) + p % b
  {
    StartIsProduct(p / b, b);
    assert p == (p / b) * b + p % b;
  }

  /** The block and the offset inside it are the quotient and the remainder the code computes. */
  lemma OffsetInBlock(i: nat, b: nat, r: nat)
    requires r < b
    ensures (Start(i, b) + r) % b == r
    ensures (Start(i, b) + r) / b == i
  {
    var p := Start(i, b) + r;
    DivMod(p, b);
    StartOrder(i, p / b, b);
    StartOrder(p / b, i, b);
  }

  function Ceil(n: nat, b: nat): nat
    requires b > 0
  {
    (n + b - 1) / b
  }

  lemma CeilBounds(n: nat, b: nat)
    requires b > 0
    ensures n <= Start(Ceil(n, b), b) < n + b
  {
    StartIsProduct(Ceil(n, b), b);
  }

  /** What `addCapacity` grows to: no change when `need` fits, else the fewest extra blocks. */
  function Grown(capacity: nat, need: nat, b: nat): (r: nat)
    requires b > 0
    ensures need <= r && capacity <= r
    ensures need <= capacity ==> r == capacity
    ensures need > capacity ==> r < need + b
  {
    if need <= capacity then capacity
    else
      CeilBounds(need - capacity, b);
      capacity + Start(Ceil(need - capacity, b), b)
  }

  lemma {:induction false} StartAdd(i: nat, j: nat, b: nat)
    ensures Start(i + j, b) == Start(i, b) + Start(j, b)
  {
    if j > 0 {
      StartAdd(i, j - 1, b);
    }
  }

  lemma FewestBlocks(k: nat, n: nat, b: nat)
    requires b > 0 && n <= Start(k, b) < n + b
    ensures k == Ceil(n, b)
  {
    CeilBounds(n, b);
    StartOrder(k, Ceil(n, b), b);
    StartOrder(Ceil(n, b), k, b);
  }

  /** Growing in two steps ends where growing at once does. */
  lemma GrownTwice(c: nat, p: nat, q: nat, b: nat)
    requires b > 0 && p <= q
    ensures Grown(Grown(c, p, b), q, b) == Grown(c, q, b)
  {
    var c1 := Grown(c, p, b);
    if p > c {
      var i := Ceil(p - c, b);
      CeilBounds(p - c, b);
      if q > c1 {
        var j := Ceil(q - c1, b);
        CeilBounds(q - c1, b);
        StartAdd(i, j, b);
        FewestBlocks(i + j, q - c, b);
      } else {
        FewestBlocks(i, q - c, b);
      }
    }
  }

  lemma {:induction false} ConcatLength(bs: seq<seq<byte>>, b: nat)
    requires Uniform(bs, b)
    ensures |Concat(bs)| == Start(|bs|, b)
  {
    if bs != [] {
      ConcatLength(bs[..|bs| - 1], b);
    }
  }

  /** The first `i` blocks are a prefix of the whole, and block `i` follows them. */
  lemma {:induction false} ConcatPrefix(bs: seq<seq<byte>>, i: nat)
    requires i <= |bs|
    ensures Concat(bs[..i]) <= Concat(bs)
    ensures i < |bs| ==> Concat(bs[..i + 1]) == Concat(bs[..i]) + bs[i]
    decreases |bs| - i
  {
    if i < |bs| {
      assert bs[..i + 1][..i] == bs[..i];
      ConcatPrefix(bs, i + 1);
    } else {
      assert bs[..i] == bs;
    }
  }

  /** Taking `k` bytes of block `i` after the earlier blocks is taking a prefix of the whole. */
  lemma ConcatCut(bs: seq<seq<byte>>, i: nat, k: nat)
    requires i < |bs| && k <= |bs[i]|
    ensures |Concat(bs[..i])| + k <= |Concat(bs)|
    ensures Concat(bs)[..|Concat(bs[..i])|] + bs[i][..k] == Concat(bs)[..|Concat(bs[..i])| + k]
  {
    hide Concat;
    ConcatPrefix(bs, i);
    ConcatPrefix(bs, i + 1);
    assert Concat(bs[..i + 1])[|Concat(bs[..i])|..][..k] == bs[i][..k];
  }

  /** Reading inside one block is reading the flat string at the block's offset. */
  lemma {:induction false} ConcatSlice(bs: seq<seq<byte>>, b: nat, i: nat, off: nat, n: nat)
    requires Uniform(bs, b) && i < |bs| && off + n <= b
    ensures Start(i, b) + off + n <= |Concat(bs)| == Start(|bs|, b)
    ensures Concat(bs)[Start(i, b) + off..Start(i, b) + off + n] == bs[i][off..off + n]
  {
    var init := bs[..|bs| - 1];
    ConcatLength(bs, b);
    ConcatLength(init, b);
    StartOrder(i, |bs|, b);
    if i < |init| {
      ConcatSlice(init, b, i, off, n);
      var p := Start(i, b) + off;
      assert Concat(bs)[p..p + n] == Concat(init)[p..p + n];
    } else {
      assert Concat(bs) == Concat(init) + bs[i] && |Concat(init)| == Start(i, b);
    }
  }

  lemma SpliceLeft(s: seq<byte>, t: seq<byte>, p: nat, d: seq<byte>)
    requires p + |d| <= |s|
    ensures Splice(s, p, d) + t == Splice(s + t, p, d)
  {
  }

  lemma SpliceRight(s: seq<byte>, t: seq<byte>, p: nat, d: seq<byte>)
    requires p + |d| <= |t|
    ensures s + Splice(t, p, d) == Splice(s + t, |s| + p, d)
  {
  }

  /** Splicing one block splices the concatenation, wherever that block starts. */
  lemma {:induction false} SpliceBlock(bs: seq<seq<byte>>, i: nat, off: nat, d: seq<byte>)
    requires i < |bs| && off + |d| <= |bs[i]|
    ensures |Concat(bs[..i])| + |bs[i]| <= |Concat(bs)|
    ensures Concat(bs[i := Splice(bs[i], off, d)]) == Splice(Concat(bs), |Concat(bs[..i])| + off, d)
  {
    var last := |bs| - 1;
    var init := bs[..last];
    var bs' := bs[i := Splice(bs[i], off, d)];
    if i < last {
      assert init[..i] == bs[..i];
      SpliceBlock(init, i, off, d);
      SpliceLeft(Concat(init), bs[last], |Concat(bs[..i])| + off, d);
      assert bs'[..last] == init[i := Splice(init[i], off, d)];
    } else {
      SpliceRight(Concat(init), bs[last], off, d);
      assert bs'[..last] == init;
    }
  }

  /** Writing inside one block is splicing the flat string at the block's offset. */
  lemma ConcatSplice(bs: seq<seq<byte>>, b: nat, i: nat, off: nat, d: seq<byte>)
    requires Uniform(bs, b) && i < |bs| && off + |d| <= b
    ensures Start(i, b) + off + |d| <= |Concat(bs)|
    ensures Concat(bs[i := Splice(bs[i], off, d)]) == Splice(Concat(bs), Start(i, b) + off, d)
  {
    ConcatLength(bs[..i], b);
    SpliceBlock(bs, i, off, d);
  }

  /** Every byte of the flat string lies in the block and at the offset that division gives. */
  lemma ConcatAt(bs: seq<seq<byte>>, b: nat, k: nat)
    requires Uniform(bs, b) && b > 0 && k < Start(|bs|, b)
    ensures |Concat(bs)| == Start(|bs|, b) && k / b < |bs| && k == Start(k / b, b) + k % b
    ensures Concat(bs)[k] == bs[k / b][k % b]
  {
    var i, off := k / b, k % b;
    DivMod(k, b);
    StartOrder(|bs|, i, b);
    ConcatSlice(bs, b, i, off, 1);
    assert Concat(bs)[k] == Concat(bs)[k..k + 1][0];
    assert bs[i][off] == bs[i][off..off + 1][0];
  }
}
