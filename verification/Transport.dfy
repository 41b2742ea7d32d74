/** The layers between a byte array and the wire: TLS socket, vectored calls, stream, fixed-size loops. */
module Transport {
  import opened Bytes
  import opened Blocks
  import opened ByteArrays
  import opened Vectored

  const MAX_INT32: int := 0x7FFF_FFFF

  ghost function PiecesOf(bufs: seq<IoBuffer>): (ps: seq<seq<byte>>)
    reads Memory(bufs)
    requires WellFormed(bufs)
    ensures |ps| == |bufs| && Gather(bufs) == Concat(ps)
    ensures forall i :: 0 <= i < |bufs| ==> ps[i] == bufs[i].mem[bufs[i].off..bufs[i].off + bufs[i].len]
  {
    Pieces(bufs, Memory(bufs))
  }

  lemma {:induction false} TotalIsLength(bufs: seq<IoBuffer>, i: nat)
    requires WellFormed(bufs) && i <= |bufs|
    ensures TotalLength(bufs[..i]) == |Concat(PiecesOf(bufs)[..i])|
    ensures i < |bufs| ==> TotalLength(bufs[..i + 1]) == TotalLength(bufs[..i]) + bufs[i].len
    ensures i == |bufs| ==> TotalLength(bufs) == |Gather(bufs)|
  {
    hide PiecesOf, Gather, Concat, TotalLength;
    NoBuffers(bufs, PiecesOf(bufs));
    if i > 0 {
      TotalIsLength(bufs, i - 1);
      ConcatPrefix(PiecesOf(bufs), i - 1);
    }
    if i < |bufs| {
      TotalGrows(bufs, i);
    } else {
      assert bufs[..i] == bufs && PiecesOf(bufs)[..i] == PiecesOf(bufs);
    }
  }

  lemma {:induction false} TotalGrows(bufs: seq<IoBuffer>, i: nat)
    requires i < |bufs|
    ensures TotalLength(bufs[..i + 1]) == TotalLength(bufs[..i]) + bufs[i].len <= TotalLength(bufs)
    decreases |bufs| - i
  {
    assert bufs[..i + 1][..i] == bufs[..i];
    if i + 1 < |bufs| {
      TotalGrows(bufs, i + 1);
    } else {
      assert bufs[..i + 1] == bufs;
    }
  }

  /** What the platform decides: any 32-bit result. */
  method AnyResult() returns (n: int32) {
    var x: int := *;
    n := if -0x8000_0000 <= x < 0x8000_0000 then x else -1;
  }

  /**
   * A TLS connection, seen from one end: what it has accepted, what is still to arrive, and the calls that were made
   * on it with their answers.
   */
  class SslSocket {
    var connected: bool
    var ready: bool               // the TLS session exists (m_ssl)
    var outgoing: seq<byte>
    var incoming: seq<byte>
    ghost var log: seq<SslCall>

    /**
     * SSL_write: fails and moves nothing, or accepts some positive number of the leading bytes. Its length is an
     * `int`, so a size that truncates to zero or less makes it fail.
     */
    method SslWrite(d: seq<byte>) returns (r: int32)
      modifies this`outgoing, this`log
      ensures r <= Max(ToInt32(|d|), 0) <= |d|
      ensures outgoing == old(outgoing) + d[..Max(r, 0)]
      ensures log == old(log) + [SslCall(|d|, r)]
    {
      var n := AnyResult();
      var most := Max(ToInt32(|d|), 0);
      r := if n > most then most else n;
      log := log + [SslCall(|d|, r)];
      if r > 0 {
        outgoing := outgoing + d[..r];
      }
    }

    /** SSL_read: fails and moves nothing, or stores some positive number of the bytes to come. */
    method SslRead(v: IoBuffer) returns (r: int32)
      requires v.off + v.len <= v.mem.Length
      modifies this`incoming, this`log, v.mem
      ensures r <= Max(ToInt32(v.len), 0) <= v.len && r <= |old(incoming)|
      ensures incoming == old(incoming)[Max(r, 0)..]
      ensures v.mem[..] == Splice(old(v.mem[..]), v.off, old(incoming)[..Max(r, 0)])
      ensures log == old(log) + [SslCall(v.len, r)]
    {
      var n := AnyResult();
      var most := Min(Max(ToInt32(v.len), 0), |incoming|);
      r := if n > most then most else n;
      log := log + [SslCall(v.len, r)];
      SpliceNothing(v.mem[..], v.off);
      if r > 0 {
        CopyInto(v.mem, v.off, incoming[..r]);
        incoming := incoming[r..];
      }
    }

    /**
     * Vectored send. Its `calls` are appended to the log: one SSL call per buffer up to the first that does not send
     * its whole buffer. Result and bytes moved are what those calls report.
     */
    method SendV(bufs: seq<IoBuffer>) returns (r: int32, ghost moved: nat, ghost calls: seq<SslCall>)
      requires WellFormed(bufs) && TotalLength(bufs) <= MAX_INT32
      modifies this`outgoing, this`log
      ensures moved <= |Gather(bufs)| && outgoing == old(outgoing) + Gather(bufs)[..moved]
      ensures log == old(log) + calls
      ensures if ready then MadeCalls(Lens(bufs), calls) && Report(calls) == Outcome(r, moved)
              else r == -1 && moved == 0 && calls == []
    {
      hide Gather, TotalLength, Concat, PiecesOf, Lens, MadeCalls, Report, Taken, AllWhole;
      moved, calls := 0, [];
      if !ready {
        return -1, 0, [];
      }
      ghost var ps, lens := PiecesOf(bufs), Lens(bufs);
      var total: int32 := 0;
      var i := 0;
      TotalIsLength(bufs, |bufs|);
      NoBuffers(bufs, ps);
      NoCalls(lens);
      while i < |bufs|
        invariant 0 <= i <= |bufs| && total == TotalLength(bufs[..i]) == |Concat(ps[..i])| == moved <= |Gather(bufs)|
        invariant PiecesOf(bufs) == ps && outgoing == old(outgoing) + Gather(bufs)[..moved]
        invariant |calls| == i && AllWhole(lens, calls) && Taken(calls) == total && log == old(log) + calls
      {
        TotalIsLength(bufs, i);
        TotalIsLength(bufs, i + 1);
        ConcatCut(ps, i, bufs[i].len);
        TotalGrows(bufs, i);
        var tmp := SslWrite(bufs[i].mem[bufs[i].off..bufs[i].off + bufs[i].len]);
        assert PiecesOf(bufs) == ps;
        ConcatCut(ps, i, Max(tmp, 0));
        OneMoreCall(lens, calls, SslCall(bufs[i].len, tmp));
        calls := calls + [SslCall(bufs[i].len, tmp)];
        if tmp <= 0 {
          return tmp, moved, calls;
        }
        total := total + tmp;
        moved := moved + tmp;
        if tmp != bufs[i].len {
          return total, moved, calls;
        }
        i := i + 1;
      }
      AllCallsMade(lens, calls);
      r := total;
    }

    /** One SSL_read of the loop below: buffer `i` is filled from its front. */
    method RecvOne(bufs: seq<IoBuffer>, i: nat) returns (tmp: int32)
      requires WellFormed(bufs) && Disjoint(bufs) && i < |bufs| && bufs[i].len <= MAX_INT32
      modifies this`incoming, this`log, Memory(bufs)
      ensures tmp <= bufs[i].len && tmp <= |old(incoming)| && incoming == old(incoming)[Max(tmp, 0)..]
      ensures log == old(log) + [SslCall(bufs[i].len, tmp)]
      ensures TotalLength(bufs[..i]) + bufs[i].len <= |old(Gather(bufs))|
      ensures Gather(bufs) == Splice(old(Gather(bufs)), TotalLength(bufs[..i]), old(incoming)[..Max(tmp, 0)])
      ensures Untouched(bufs)
    {
      hide Gather, TotalLength, Concat, Splice, PiecesOf, Inside;
      var v := bufs[i];
      ghost var ps := PiecesOf(bufs);
      ghost var was := v.mem[..];
      assert forall j :: 0 <= j < |bufs| ==> bufs[j] in bufs;
      TotalIsLength(bufs, i);
      tmp := SslRead(v);
      ghost var got := old(incoming)[..Max(tmp, 0)];
      PiecesAfter(bufs, i, ps, was, got);
      SpliceBlock(ps, i, 0, got);
      forall a: array<byte>, k | a in Memory(bufs) && 0 <= k < a.Length && !Inside(bufs, a, k)
        ensures a[k] == old(a[k])
      {
        if a == v.mem {
          OutsidePiece(bufs, v, k);
          SpliceOutside(was, v.off, got, k, k + 1);
          assert v.mem[..][k..k + 1][0] == was[k..k + 1][0];
        }
      }
    }

    /** The same call, when the buffers before it are full: the bytes stored so far grow by what it stores. */
    method RecvNext(bufs: seq<IoBuffer>, i: nat, ghost before: seq<byte>, ghost stream: seq<byte>) returns (tmp: int32)
      requires WellFormed(bufs) && Disjoint(bufs) && i < |bufs| && bufs[i].len <= MAX_INT32
      requires TotalLength(bufs[..i]) <= |before| && TotalLength(bufs[..i]) <= |stream|
      requires incoming == stream[TotalLength(bufs[..i])..]
      requires Gather(bufs) == Splice(before, 0, stream[..TotalLength(bufs[..i])])
      modifies this`incoming, this`log, Memory(bufs)
      ensures tmp <= bufs[i].len && Untouched(bufs) && log == old(log) + [SslCall(bufs[i].len, tmp)]
      ensures var all := TotalLength(bufs[..i]) + Max(tmp, 0);
              && all <= |before| && all <= |stream| && incoming == stream[all..]
              && Gather(bufs) == Splice(before, 0, stream[..all])
    {
      hide Gather, TotalLength, Concat, PiecesOf, Splice, Inside;
      ghost var moved := TotalLength(bufs[..i]);
      tmp := RecvOne(bufs, i);
      SpliceNext(before, stream, moved, Max(tmp, 0));
    }

    lemma OutsidePiece(bufs: seq<IoBuffer>, v: IoBuffer, k: int)
      requires v in bufs && !Inside(bufs, v.mem, k)
      ensures !(v.off <= k < v.off + v.len)
    {
    }

    lemma PiecesAfter(bufs: seq<IoBuffer>, i: nat, ps: seq<seq<byte>>, was: seq<byte>, got: seq<byte>)
      requires WellFormed(bufs) && Disjoint(bufs) && i < |bufs| == |ps|
      requires |got| <= bufs[i].len && |was| == bufs[i].mem.Length && bufs[i].off + bufs[i].len <= |was|
      requires bufs[i].mem[..] == Splice(was, bufs[i].off, got)
      requires forall j :: 0 <= j < |bufs| ==> bufs[j].off + bufs[j].len <= bufs[j].mem.Length
      requires forall j :: 0 <= j < |bufs| ==>
        ps[j] == (if bufs[j].mem == bufs[i].mem then was else bufs[j].mem[..])[bufs[j].off..bufs[j].off + bufs[j].len]
      ensures PiecesOf(bufs) == ps[i := Splice(ps[i], 0, got)]
    {
      hide Concat, Gather, Splice, PiecesOf;
      forall j | 0 <= j < |bufs|
        ensures PiecesOf(bufs)[j] == ps[i := Splice(ps[i], 0, got)][j]
      {
        var u, v := bufs[j], bufs[i];
        if j == i {
          SpliceInside(was, v.off, got, v.len);
        } else if u.mem == v.mem {
          SpliceOutside(was, v.off, got, u.off, u.off + u.len);
        }
      }
    }

    /**
     * Vectored receive. `moved` counts the bytes stored, in order, from the front of the buffers. Its `calls` are
     * appended to the log, and result and `moved` are what they report. Memory outside the buffers is untouched.
     */
    method RecvV(bufs: seq<IoBuffer>) returns (r: int32, ghost moved: nat, ghost calls: seq<SslCall>)
      requires WellFormed(bufs) && Disjoint(bufs) && TotalLength(bufs) <= MAX_INT32
      modifies this`incoming, this`log, Memory(bufs)
      ensures moved <= |old(incoming)| && incoming == old(incoming)[moved..]
      ensures moved <= |old(Gather(bufs))| && Gather(bufs) == Splice(old(Gather(bufs)), 0, old(incoming)[..moved])
      ensures log == old(log) + calls
      ensures if ready then MadeCalls(Lens(bufs), calls) && Report(calls) == Outcome(r, moved)
              else r == -1 && moved == 0 && calls == []
      ensures Untouched(bufs)
    {
      hide Gather, TotalLength, Concat, PiecesOf, Splice, Inside, Lens, MadeCalls, Report, Taken, AllWhole;
      moved, calls := 0, [];
      SpliceNothing(Gather(bufs), 0);
      if !ready {
        return -1, 0, [];
      }
      ghost var lens := Lens(bufs);
      var total: int32 := 0;
      var i := 0;
      NoBuffers(bufs, PiecesOf(bufs));
      NoCalls(lens);
      while i < |bufs|
        invariant 0 <= i <= |bufs| && total == TotalLength(bufs[..i]) == moved <= |old(Gather(bufs))|
        invariant moved <= |old(incoming)| && incoming == old(incoming)[moved..]
        invariant Gather(bufs) == Splice(old(Gather(bufs)), 0, old(incoming)[..moved])
        invariant Untouched(bufs)
        invariant |calls| == i && AllWhole(lens, calls) && Taken(calls) == total && log == old(log) + calls
      {
        TotalGrows(bufs, i);
        var tmp := RecvNext(bufs, i, old(Gather(bufs)), old(incoming));
        OneMoreCall(lens, calls, SslCall(bufs[i].len, tmp));
        calls := calls + [SslCall(bufs[i].len, tmp)];
        if tmp <= 0 {
          return tmp, moved, calls;
        }
        total := total + tmp;
        moved := moved + tmp;
        if tmp != bufs[i].len {
          return total, moved, calls;
        }
        i := i + 1;
      }
      AllCallsMade(lens, calls);
      r := total;
    }
  }

  /** Every byte outside the buffers has its old value. */
  twostate predicate Untouched(bufs: seq<IoBuffer>)
    reads Memory(bufs)
  {
    forall a: array<byte>, k :: a in Memory(bufs) && 0 <= k < a.Length && !Inside(bufs, a, k) ==> a[k] == old(a[k])
  }

  lemma SpliceNext(s: seq<byte>, stream: seq<byte>, i: nat, n: nat)
    requires i + n <= |stream| && i + n <= |s|
    ensures Splice(Splice(s, 0, stream[..i]), i, stream[i..][..n]) == Splice(s, 0, stream[..i + n])
    ensures stream[i..][n..] == stream[i + n..]
  {
    var d := stream[..i + n];
    assert d[..i] == stream[..i] && d[i..i + n] == stream[i..][..n] && d[..i + n] == d;
    SpliceMore(s, 0, d, i, n);
  }

  lemma NoBuffers(bufs: seq<IoBuffer>, ps: seq<seq<byte>>)
    ensures TotalLength(bufs[..0]) == 0 && Concat(ps[..0]) == []
  {
  }
}
