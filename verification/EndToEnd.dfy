/**
 * One fixed-size write at one end, one fixed-size read at the other, and the FIFO between them.
 * Transport calls of the two ends interleave freely and move any positive part of what is asked.
 */
module EndToEnd {
  import opened Bytes
  import opened Blocks
  import opened Codec
  import opened Streams
  import opened Vectored

  /** Where one end's loop stands. */
  datatype End = Running(left: nat) | Finished | Failed

  datatype Link = Link(unsent: seq<byte>, fifo: seq<byte>, got: seq<byte>,
                       sender: End, receiver: End, sends: seq<nat>, receives: seq<nat>)

  /** One transport call. A failing call may still have moved `n` bytes that its result does not report. */
  datatype Action = Send(n: nat) | SendFail(n: nat) | Receive(n: nat) | ReceiveFail(n: nat)

  function LoopEnd(left: nat): End {
    if left == 0 then Finished else Running(left)
  }

  function Start(data: seq<byte>): Link {
    Link(data, [], [], LoopEnd(|data|), LoopEnd(|data|), [], [])
  }

  predicate Enabled(l: Link, a: Action, maxS: nat, maxR: nat) {
    match a
    case Send(n) => l.sender.Running? && 1 <= n <= Min(l.sender.left, maxS) && n <= |l.unsent|
    case SendFail(n) => l.sender.Running? && (n == 0 || n < Min(l.sender.left, maxS)) && n <= |l.unsent|
    case Receive(n) => l.receiver.Running? && 1 <= n <= Min(l.receiver.left, maxR) && n <= |l.fifo|
    case ReceiveFail(n) => l.receiver.Running? && (n == 0 || n < Min(l.receiver.left, maxR)) && n <= |l.fifo|
  }

  function Apply(l: Link, a: Action, maxS: nat, maxR: nat): Link
    requires Enabled(l, a, maxS, maxR)
  {
    match a
    case Send(n) =>
      l.(unsent := l.unsent[n..], fifo := l.fifo + l.unsent[..n],
         sender := LoopEnd(l.sender.left - n), sends := l.sends + [n])
    case SendFail(n) =>
      l.(unsent := l.unsent[n..], fifo := l.fifo + l.unsent[..n], sender := Failed)
    case Receive(n) =>
      l.(fifo := l.fifo[n..], got := l.got + l.fifo[..n],
         receiver := LoopEnd(l.receiver.left - n), receives := l.receives + [n])
    case ReceiveFail(n) =>
      l.(fifo := l.fifo[n..], got := l.got + l.fifo[..n], receiver := Failed)
  }

  /** `acts` is a possible interleaving from `l`. */
  predicate Possible(l: Link, acts: seq<Action>, maxS: nat, maxR: nat)
    decreases |acts|
  {
    acts == [] || (Enabled(l, acts[0], maxS, maxR) && Possible(Apply(l, acts[0], maxS, maxR), acts[1..], maxS, maxR))
  }

  function Run(l: Link, acts: seq<Action>, maxS: nat, maxR: nat): Link
    requires Possible(l, acts, maxS, maxR)
    decreases |acts|
  {
    if acts == [] then l else Run(Apply(l, acts[0], maxS, maxR), acts[1..], maxS, maxR)
  }

  ghost predicate Inv(l: Link, data: seq<byte>, maxS: nat, maxR: nat) {
    && l.got + l.fifo + l.unsent == data
    && (match l.sender
        case Running(left) => 0 < left == |l.unsent| && Chunks(l.sends, maxS, |data| - |l.unsent|)
        case Finished => l.unsent == [] && Chunks(l.sends, maxS, |data|)
        case Failed => l.unsent != [])
    && (match l.receiver
        case Running(left) => 0 < left == |data| - |l.got| && Chunks(l.receives, maxR, |l.got|)
        case Finished => l.got == data && Chunks(l.receives, maxR, |data|)
        case Failed => |l.got| < |data|)
  }

  /** Moving bytes from the front of one string to the back of the one before it leaves the whole alone. */
  lemma Regroup(a: seq<byte>, b: seq<byte>, c: seq<byte>, n: nat)
    requires n <= |c|
    ensures a + (b + c[..n]) + c[n..] == a + b + c
  {
    assert c == c[..n] + c[n..];
  }

  lemma SendKeepsInv(l: Link, a: Action, data: seq<byte>, maxS: nat, maxR: nat)
    requires Inv(l, data, maxS, maxR) && Enabled(l, a, maxS, maxR) && (a.Send? || a.SendFail?)
    ensures Inv(Apply(l, a, maxS, maxR), data, maxS, maxR)
  {
    hide Chunks;
    Regroup(l.got, l.fifo, l.unsent, a.n);
    if a.Send? {
      ChunksPush(l.sends, maxS, |data| - |l.unsent|, a.n);
    }
  }

  lemma ReceiveKeepsInv(l: Link, a: Action, data: seq<byte>, maxS: nat, maxR: nat)
    requires Inv(l, data, maxS, maxR) && Enabled(l, a, maxS, maxR) && (a.Receive? || a.ReceiveFail?)
    ensures Inv(Apply(l, a, maxS, maxR), data, maxS, maxR)
  {
    hide Chunks;
    var got := l.got + l.fifo[..a.n];
    Regroup([], l.got, l.fifo, a.n);
    assert [] + l.got == l.got && [] + got == got;
    if a.Receive? {
      ChunksPush(l.receives, maxR, |l.got|, a.n);
      if |got| == |data| {
        assert got == (got + l.fifo[a.n..] + l.unsent)[..|got|];
      }
    }
  }

  lemma StepKeepsInv(l: Link, a: Action, data: seq<byte>, maxS: nat, maxR: nat)
    requires Inv(l, data, maxS, maxR) && Enabled(l, a, maxS, maxR)
    ensures Inv(Apply(l, a, maxS, maxR), data, maxS, maxR)
  {
    hide *;
    match a
    case Send(_) => SendKeepsInv(l, a, data, maxS, maxR);
    case SendFail(_) => SendKeepsInv(l, a, data, maxS, maxR);
    case Receive(_) => ReceiveKeepsInv(l, a, data, maxS, maxR);
    case ReceiveFail(_) => ReceiveKeepsInv(l, a, data, maxS, maxR);
  }

  lemma {:induction false} RunKeepsInv(l: Link, acts: seq<Action>, data: seq<byte>, maxS: nat, maxR: nat)
    requires Inv(l, data, maxS, maxR) && Possible(l, acts, maxS, maxR)
    ensures Inv(Run(l, acts, maxS, maxR), data, maxS, maxR)
    decreases |acts|
  {
    if acts != [] {
      StepKeepsInv(l, acts[0], data, maxS, maxR);
      RunKeepsInv(Apply(l, acts[0], maxS, maxR), acts[1..], data, maxS, maxR);
    }
  }

  lemma StartIsInv(data: seq<byte>, maxS: nat, maxR: nat)
    ensures Inv(Start(data), data, maxS, maxR)
  {
    NoChunks(maxS);
    NoChunks(maxR);
  }

  /**
   * Whatever the interleaving and the chunking: what has arrived is always a prefix of what was to be sent,
   * nothing is lost, doubled or reordered in between, and a finished reader has exactly the sender's bytes.
   */
  lemma BytesArrive(data: seq<byte>, acts: seq<Action>, maxS: nat, maxR: nat)
    requires Possible(Start(data), acts, maxS, maxR)
    ensures var l := Run(Start(data), acts, maxS, maxR);
            && l.got <= data && l.got + l.fifo + l.unsent == data
            && (l.receiver == Finished ==> l.got == data && l.fifo == [] && l.sender == Finished)
            && (l.sender == Finished && maxS > 0 ==> Ceil(|data|, maxS) <= |l.sends| <= |data|)
            && (l.receiver == Finished && maxR > 0 ==> Ceil(|data|, maxR) <= |l.receives| <= |data|)
  {
    StartIsInv(data, maxS, maxR);
    RunKeepsInv(Start(data), acts, data, maxS, maxR);
    var l := Run(Start(data), acts, maxS, maxR);
    assert l.got + (l.fifo + l.unsent) == data;
    if l.sender == Finished && maxS > 0 {
      CallCount(l.sends, maxS, |data|);
    }
    if l.receiver == Finished && maxR > 0 {
      CallCount(l.receives, maxR, |data|);
    }
  }

  /** The view a reader has of a fresh byte array that has received `data` and was rewound. */
  function Received(data: seq<byte>, base: nat, swapped: bool): View
    requires base > 0
  {
    View(data, Grown(base, |data|, base), swapped)
  }

  /**
   * End to end: after any interleaving in which the reader finishes, decoding gives exactly the messages sent,
   * if and only if every text fits its length field and the last message does not end in an empty text that
   * fills the last block to the byte.
   */
  lemma MessagesArrive(ms: seq<Message>, swapped: bool, base: nat, acts: seq<Action>, maxS: nat, maxR: nat)
    requires base > 0
    requires Possible(Start(EncodeAll(ms, swapped)), acts, maxS, maxR)
    requires Run(Start(EncodeAll(ms, swapped)), acts, maxS, maxR).receiver == Finished
    ensures var got := Run(Start(EncodeAll(ms, swapped)), acts, maxS, maxR).got;
            DecodeAll(Received(got, base, swapped), 0) == Decoded(ms, true) <==>
            AllFit(ms) && !(ms != [] && EndsInEmptyText(ms[|ms| - 1]) && |got| == Grown(base, |got|, base))
  {
    var data := EncodeAll(ms, swapped);
    BytesArrive(data, acts, maxS, maxR);
    assert data[0..] == data;
    DecodeAllRoundTrip(ms, Received(data, base, swapped), 0);
  }

  /** Every run ends: a transfer of n bytes takes at most 2n + 2 transport calls in all. */
  lemma {:induction false} RunsAreShort(l: Link, acts: seq<Action>, maxS: nat, maxR: nat)
    requires Possible(l, acts, maxS, maxR)
    ensures |acts| <= Work(l)
    decreases |acts|
  {
    if acts != [] {
      RunsAreShort(Apply(l, acts[0], maxS, maxR), acts[1..], maxS, maxR);
    }
  }

  function Work(l: Link): nat {
    2 * |l.unsent| + |l.fifo| + (if l.sender.Running? then 1 else 0) + (if l.receiver.Running? then 1 else 0)
  }

  /** No deadlock: until both ends have finished or one has failed, some end can move bytes. */
  lemma CanGoOn(l: Link, data: seq<byte>, maxS: nat, maxR: nat) returns (a: Action)
    requires Inv(l, data, maxS, maxR) && maxS > 0 && maxR > 0
    requires !l.sender.Failed? && !l.receiver.Failed? && !(l.sender.Finished? && l.receiver.Finished?)
    ensures Enabled(l, a, maxS, maxR) && (a.Send? || a.Receive?)
  {
    if l.sender.Running? {
      a := Send(1);
    } else {
      a := Receive(1);
    }
  }

  lemma {:induction false} RunThenOne(l: Link, acts: seq<Action>, a: Action, maxS: nat, maxR: nat)
    requires Possible(l, acts, maxS, maxR) && Enabled(Run(l, acts, maxS, maxR), a, maxS, maxR)
    ensures Possible(l, acts + [a], maxS, maxR)
    ensures Run(l, acts + [a], maxS, maxR) == Apply(Run(l, acts, maxS, maxR), a, maxS, maxR)
    decreases |acts|
  {
    if acts != [] {
      assert (acts + [a])[1..] == acts[1..] + [a];
      RunThenOne(Apply(l, acts[0], maxS, maxR), acts[1..], a, maxS, maxR);
    } else {
      assert acts + [a] == [a] && [a][1..] == [];
    }
  }

  lemma RunNothing(l: Link, maxS: nat, maxR: nat)
    ensures Possible(l, [], maxS, maxR) && Run(l, [], maxS, maxR) == l
  {
  }

  lemma {:induction false} AnySends(data: seq<byte>, cs: seq<nat>, t: nat, maxS: nat, maxR: nat)
      returns (acts: seq<Action>)
    requires Chunks(cs, maxS, t) && t <= |data|
    ensures Possible(Start(data), acts, maxS, maxR)
    ensures Run(Start(data), acts, maxS, maxR) ==
            Link(data[t..], data[..t], [], LoopEnd(|data| - t), LoopEnd(|data|), cs, [])
    decreases |cs|
  {
    hide Possible, Run;
    if cs == [] {
      acts := [];
      RunNothing(Start(data), maxS, maxR);
      assert data[0..] == data && data[..0] == [];
    } else {
      var n, init := cs[|cs| - 1], cs[..|cs| - 1];
      acts := AnySends(data, init, t - n, maxS, maxR);
      RunThenOne(Start(data), acts, Send(n), maxS, maxR);
      acts := acts + [Send(n)];
      assert init + [n] == cs;
      assert data[t - n..][n..] == data[t..] && data[..t - n] + data[t - n..][..n] == data[..t];
    }
  }

  /** How one end's loop ended: `log` sizes of successful calls, and how much a failing last call moved, if any. */
  datatype Log = Log(log: seq<nat>, failing: Option<nat>)

  /** Logs that the fixed-size loops can report for a request of `length` bytes (`SocketStream.WriteFixArray`). */
  ghost predicate Reported(o: Log, maxLen: nat, length: nat, done: nat) {
    && Chunks(o.log, maxLen, done) && done <= length
    && (if o.failing.None? then done == length
        else done < length && (o.failing.value == 0 || o.failing.value < Min(length - done, maxLen)))
  }

  /** However a fixed-size loop over a byte array ends, its log is such a log. */
  lemma LoopsReport(p: Plan, cs: seq<nat>, rounds: seq<Round>, r: int, lost: nat)
    requires p.b > 0 && Ends(p, cs, rounds, r, lost)
    ensures Reported(LogOf(p, cs, lost), p.maxLen, Asked(p.length), Sum(cs))
  {
    hide Chunks, Asked, Verdict, LostAcrossNodes, Told, EndsWith, Sum;
  }

  function LogOf(p: Plan, cs: seq<nat>, lost: nat): Log {
    Log(cs, if Sum(cs) == Asked(p.length) then None else Some(lost))
  }

  function Lost(o: Log): nat {
    if o.failing.Some? then o.failing.value else 0
  }

  function EndOf(o: Log): End {
    if o.failing.Some? then Failed else Finished
  }

  /** Some run is exactly a sender with this log, before the receiver starts. */
  lemma AnySender(data: seq<byte>, s: Log, t: nat, maxS: nat, maxR: nat) returns (acts: seq<Action>)
    requires Reported(s, maxS, |data|, t)
    ensures t + Lost(s) <= |data| && Possible(Start(data), acts, maxS, maxR)
    ensures Run(Start(data), acts, maxS, maxR) ==
            Link(data[t + Lost(s)..], data[..t + Lost(s)], [], EndOf(s), LoopEnd(|data|), s.log, [])
  {
    hide Possible, Run;
    acts := AnySends(data, s.log, t, maxS, maxR);
    if s.failing.Some? {
      var n := s.failing.value;
      RunThenOne(Start(data), acts, SendFail(n), maxS, maxR);
      acts := acts + [SendFail(n)];
      assert data[t..][n..] == data[t + n..] && data[..t] + data[t..][..n] == data[..t + n];
    }
  }

  lemma {:induction false} AnyReceives(data: seq<byte>, acts0: seq<Action>, e: End, cs: seq<nat>, sent: nat,
                                       ds: seq<nat>, u: nat, maxS: nat, maxR: nat)
      returns (acts: seq<Action>)
    requires u <= sent <= |data| && Chunks(ds, maxR, u) && Possible(Start(data), acts0, maxS, maxR)
    requires Run(Start(data), acts0, maxS, maxR) == Link(data[sent..], data[..sent], [], e, LoopEnd(|data|), cs, [])
    ensures Possible(Start(data), acts, maxS, maxR)
    ensures Run(Start(data), acts, maxS, maxR) ==
            Link(data[sent..], data[u..sent], data[..u], e, LoopEnd(|data| - u), cs, ds)
    decreases |ds|
  {
    hide Possible, Run;
    if ds == [] {
      acts := acts0;
      assert data[0..sent] == data[..sent] && data[..0] == [];
    } else {
      var n, init := ds[|ds| - 1], ds[..|ds| - 1];
      acts := AnyReceives(data, acts0, e, cs, sent, init, u - n, maxS, maxR);
      RunThenOne(Start(data), acts, Receive(n), maxS, maxR);
      acts := acts + [Receive(n)];
      assert init + [n] == ds;
      MoveOn(data, u - n, n, sent);
    }
  }

  lemma MoveOn(data: seq<byte>, u: nat, n: nat, sent: nat)
    requires u + n <= sent <= |data|
    ensures data[u..sent][n..] == data[u + n..sent] && data[..u] + data[u..sent][..n] == data[..u + n]
  {
  }

  /**
   * The interleavings cover the loops, successful or not: any log the sending loop can report and any log the
   * receiving loop can report, for bytes that were sent, are the logs of some run.
   */
  lemma EveryOutcomeHappens(data: seq<byte>, s: Log, t: nat, r: Log, u: nat, maxS: nat, maxR: nat)
      returns (acts: seq<Action>)
    requires Reported(s, maxS, |data|, t) && Reported(r, maxR, |data|, u) && u + Lost(r) <= t + Lost(s)
    ensures Possible(Start(data), acts, maxS, maxR) && t + Lost(s) <= |data|
    ensures Run(Start(data), acts, maxS, maxR) ==
            Link(data[t + Lost(s)..], data[u + Lost(r)..t + Lost(s)], data[..u + Lost(r)],
                 EndOf(s), EndOf(r), s.log, r.log)
  {
    hide Possible, Run;
    acts := AnySender(data, s, t, maxS, maxR);
    var sent := t + Lost(s);
    acts := AnyReceives(data, acts, EndOf(s), s.log, sent, r.log, u, maxS, maxR);
    if r.failing.Some? {
      var n := r.failing.value;
      RunThenOne(Start(data), acts, ReceiveFail(n), maxS, maxR);
      acts := acts + [ReceiveFail(n)];
      MoveOn(data, u, n, sent);
    }
  }

  /** The exception is real: a response with an empty text that fills the last block arrives and is not decoded. */
  lemma EmptyTextIsLost(sn: uint32, acts: seq<Action>, maxS: nat, maxR: nat)
    requires var data := EncodeAll([Response(sn, 0, 0, [])], false);
             Possible(Start(data), acts, maxS, maxR) && Run(Start(data), acts, maxS, maxR).receiver == Finished
    ensures var ms := [Response(sn, 0, 0, [])];
            var got := Run(Start(EncodeAll(ms, false)), acts, maxS, maxR).got;
            got == EncodeAll(ms, false) && |got| == 17 && DecodeAll(Received(got, 17, false), 0) != Decoded(ms, true)
  {
    hide Possible, Run, DecodeAll;
    var ms := [Response(sn, 0, 0, [])];
    var data := EncodeAll(ms, false);
    BytesArrive(data, acts, maxS, maxR);
    assert ms[1..] == [] && |data| == 17;
    MessagesArrive(ms, false, 17, acts, maxS, maxR);
  }

  /** And such a run exists for every pair of positive chunk limits. */
  lemma EmptyTextIsSent(sn: uint32, maxS: nat, maxR: nat) returns (acts: seq<Action>)
    requires maxS > 0 && maxR > 0
    ensures Possible(Start(EncodeAll([Response(sn, 0, 0, [])], false)), acts, maxS, maxR)
    ensures Run(Start(EncodeAll([Response(sn, 0, 0, [])], false)), acts, maxS, maxR).receiver == Finished
  {
    hide Possible, Run, EncodeAll;
    var data := EncodeAll([Response(sn, 0, 0, [])], false);
    var cs := Singles(|data|);
    SinglesAreChunks(|data|, maxS);
    SinglesAreChunks(|data|, maxR);
    acts := EveryOutcomeHappens(data, Log(cs, None), |data|, Log(cs, None), |data|, maxS, maxR);
  }

  function Singles(n: nat): seq<nat> {
    if n == 0 then [] else Singles(n - 1) + [1]
  }

  lemma {:induction false} SinglesAreChunks(n: nat, maxLen: nat)
    requires maxLen > 0
    ensures Chunks(Singles(n), maxLen, n)
  {
    if n == 0 {
      NoChunks(maxLen);
    } else {
      SinglesAreChunks(n - 1, maxLen);
      ChunksPush(Singles(n - 1), maxLen, n - 1, 1);
    }
  }
}
