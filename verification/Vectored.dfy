/** Vectored calls on values: how a request is cut along node borders, and what a list of call results amounts to. */
module Vectored {
  import opened Bytes
  import opened Blocks

  /** The buffer lengths of a request for `n` bytes at position `p`: the rest of one node, whole nodes, a last part. */
  function NodePieces(b: nat, p: nat, n: nat): (lens: seq<nat>)
    requires b > 0
    ensures forall i :: 0 <= i < |lens| ==> 0 < lens[i]
    ensures n == 0 <==> lens == []
    decreases n
  {
    if n == 0 then []
    else
      var k := Min(n, b - p % b);
      [k] + NodePieces(b, p + k, n - k)
  }

  /** The request touches no more than one node. */
  predicate OneNode(b: nat, p: nat, n: nat)
    requires b > 0
  {
    p % b + n <= b
  }

  lemma OnePieceIff(b: nat, p: nat, n: nat)
    requires b > 0
    ensures |NodePieces(b, p, n)| <= 1 <==> OneNode(b, p, n)
  {
    if n != 0 {
      var k := Min(n, b - p % b);
      assert NodePieces(b, p, n)[1..] == NodePieces(b, p + k, n - k);
    }
  }

  lemma {:induction false} PiecesSum(b: nat, p: nat, n: nat)
    requires b > 0
    ensures Sum(NodePieces(b, p, n)) == n
    decreases n
  {
    if n != 0 {
      var k := Min(n, b - p % b);
      PiecesSum(b, p + k, n - k);
      SumFront(k, NodePieces(b, p + k, n - k));
    }
  }

  lemma {:induction false} SumFront(k: nat, xs: seq<nat>)
    ensures Sum([k] + xs) == k + Sum(xs)
  {
    if xs == [] {
      assert [k] + xs == [k] && [k][..0] == [];
    } else {
      var init := xs[..|xs| - 1];
      SumFront(k, init);
      assert ([k] + xs)[..|xs|] == [k] + init;
    }
  }

  /** A part of a request, wherever a transfer left off, lies in one node if the whole request does. */
  lemma OneNodePart(b: nat, p: nat, n: nat, done: nat, k: nat)
    requires b > 0 && OneNode(b, p, n) && done < n && done + k <= n
    ensures OneNode(b, p + done, k)
  {
    DivMod(p, b);
    OffsetInBlock(p / b, b, p % b + done);
  }

  // ---------------------------------------------------- what the calls' results amount to

  /** Answers the platform may give to calls on buffers of these lengths: any failure, or up to the whole buffer. */
  predicate Legal(lens: seq<nat>, answers: seq<int>) {
    |answers| == |lens| && forall i :: 0 <= i < |lens| ==> answers[i] <= lens[i]
  }

  datatype Outcome = Outcome(result: int, moved: nat)

  /** The vectored loop: its result, and the bytes moved. It stops at a failure or a short transfer. */
  function Transfer(lens: seq<nat>, answers: seq<int>, total: nat): Outcome
    requires |answers| == |lens|
    decreases |lens|
  {
    if lens == [] then Outcome(total, total)
    else if answers[0] <= 0 then Outcome(answers[0], total)
    else if answers[0] != lens[0] then Outcome(total + answers[0], total + answers[0])
    else Transfer(lens[1..], answers[1..], total + answers[0])
  }

  /** The cursor moves on by what the result reports. */
  predicate Exact(o: Outcome) {
    Max(o.result, 0) == o.moved
  }

  /** Whole buffers only add to the total. */
  lemma {:induction false} TransferSkips(lens: seq<nat>, answers: seq<int>, total: nat, i: nat)
    requires |answers| == |lens| && i <= |lens|
    requires forall j :: 0 <= j < i ==> answers[j] == lens[j] > 0
    ensures Transfer(lens, answers, total) == Transfer(lens[i..], answers[i..], total + Sum(lens[..i]))
    decreases i
  {
    if i == 0 {
      assert lens[0..] == lens && answers[0..] == answers && lens[..0] == [];
    } else {
      TransferSkips(lens[1..], answers[1..], total + answers[0], i - 1);
      assert lens[1..][i - 1..] == lens[i..] && answers[1..][i - 1..] == answers[i..];
      assert lens[..i] == [lens[0]] + lens[1..][..i - 1];
      SumFront(lens[0], lens[1..][..i - 1]);
    }
  }

  lemma TransferFirst(lens: seq<nat>, answers: seq<int>, total: nat)
    requires |answers| == |lens| > 0 && (answers[0] <= 0 || answers[0] != lens[0])
    ensures Transfer(lens, answers, total) ==
            if answers[0] <= 0 then Outcome(answers[0], total) else Outcome(total + answers[0], total + answers[0])
  {
  }

  /** A positive result is what moved; otherwise not everything moved, if there was something to move. */
  lemma {:induction false} TransferFacts(lens: seq<nat>, answers: seq<int>, total: nat)
    requires Legal(lens, answers)
    ensures var o := Transfer(lens, answers, total);
            && total <= o.moved <= total + Sum(lens)
            && (o.result > 0 ==> o.result == o.moved)
            && (o.result <= 0 && lens != [] && (forall i :: 0 <= i < |lens| ==> lens[i] > 0) ==>
                  o.moved < total + Sum(lens))
            && (o.result <= 0 && |lens| <= 1 ==> o.moved == total)
    decreases |lens|
  {
    if lens != [] {
      SumFront(lens[0], lens[1..]);
      assert lens == [lens[0]] + lens[1..];
      if answers[0] == lens[0] > 0 {
        TransferFacts(lens[1..], answers[1..], total + answers[0]);
      }
    }
  }

  // ------------------------------------------------------------ the calls made

  /** One call of SSL_write or SSL_read: the size it was given, and what it answered. */
  datatype SslCall = SslCall(asked: nat, answer: int)

  predicate Whole(c: SslCall) {
    c.answer == c.asked > 0
  }

  /**
   * The calls that a vectored call over buffers of these lengths makes: one per buffer, in order, up to and including
   * the first that does not transfer its whole buffer, or all of them if there is none.
   */
  ghost predicate MadeCalls(lens: seq<nat>, calls: seq<SslCall>) {
    && |calls| <= |lens|
    && (forall i :: 0 <= i < |calls| ==> calls[i].asked == lens[i] && calls[i].answer <= calls[i].asked)
    && (forall i :: 0 <= i < |calls| - 1 ==> Whole(calls[i]))
    && (|calls| < |lens| ==> calls != [] && !Whole(calls[|calls| - 1]))
  }

  /** The bytes that calls moved. */
  function Taken(calls: seq<SslCall>): nat {
    if calls == [] then 0 else Taken(calls[..|calls| - 1]) + Max(calls[|calls| - 1].answer, 0)
  }

  /** What a vectored call reports: the answer of a failing last call, otherwise the bytes moved. */
  function Report(calls: seq<SslCall>): Outcome {
    if calls != [] && calls[|calls| - 1].answer <= 0 then Outcome(calls[|calls| - 1].answer, Taken(calls))
    else Outcome(Taken(calls), Taken(calls))
  }

  /** What the platform answers, buffer by buffer; calls that were not made count as failures. */
  function AnswersOf(calls: seq<SslCall>, n: nat): (answers: seq<int>)
    ensures |answers| == n
    ensures forall i :: 0 <= i < n ==> answers[i] == if i < |calls| then calls[i].answer else 0
  {
    seq(n, i requires 0 <= i => if i < |calls| then calls[i].answer else 0)
  }

  /** Calls that all transferred their whole buffer. */
  ghost predicate AllWhole(lens: seq<nat>, calls: seq<SslCall>) {
    |calls| <= |lens| && forall i :: 0 <= i < |calls| ==> Whole(calls[i]) && calls[i].asked == lens[i]
  }

  lemma NoCalls(lens: seq<nat>)
    ensures AllWhole(lens, []) && Taken([]) == 0
  {
  }

  lemma OneMoreCall(lens: seq<nat>, calls: seq<SslCall>, c: SslCall)
    requires AllWhole(lens, calls) && |calls| < |lens| && c.asked == lens[|calls|] && c.answer <= c.asked
    ensures Taken(calls + [c]) == Taken(calls) + Max(c.answer, 0)
    ensures Whole(c) ==> AllWhole(lens, calls + [c])
    ensures !Whole(c) ==> MadeCalls(lens, calls + [c])
    ensures c.answer <= 0 ==> Report(calls + [c]) == Outcome(c.answer, Taken(calls))
    ensures c.answer > 0 ==> Report(calls + [c]) == Outcome(Taken(calls) + c.answer, Taken(calls) + c.answer)
  {
    hide Taken;
    TakenLast(calls + [c]);
    assert (calls + [c])[..|calls|] == calls;
    assert forall i :: 0 <= i < |calls| ==> (calls + [c])[i] == calls[i];
  }

  lemma AllCallsMade(lens: seq<nat>, calls: seq<SslCall>)
    requires AllWhole(lens, calls) && |calls| == |lens|
    ensures MadeCalls(lens, calls) && Report(calls) == Outcome(Taken(calls), Taken(calls))
  {
  }

  lemma {:induction false} TakenIsSum(lens: seq<nat>, calls: seq<SslCall>)
    requires AllWhole(lens, calls)
    ensures Taken(calls) == Sum(lens[..|calls|])
  {
    if calls == [] {
      assert lens[..0] == [];
    } else {
      var i := |calls| - 1;
      TakenIsSum(lens, calls[..i]);
      assert lens[..i + 1][..i] == lens[..i];
    }
  }

  /** The calls made and the loop over the platform's answers tell the same outcome. */
  lemma MadeIsTransfer(lens: seq<nat>, calls: seq<SslCall>)
    requires MadeCalls(lens, calls)
    ensures Legal(lens, AnswersOf(calls, |lens|))
    ensures Transfer(lens, AnswersOf(calls, |lens|), 0) == Report(calls)
  {
    if calls == [] {
      assert lens == [] && Transfer(lens, AnswersOf(calls, 0), 0) == Outcome(0, 0);
    } else {
      LastCallDecides(lens, calls);
    }
  }

  lemma LastCallDecides(lens: seq<nat>, calls: seq<SslCall>)
    requires MadeCalls(lens, calls) && calls != []
    ensures Transfer(lens, AnswersOf(calls, |lens|), 0) == Report(calls)
  {
    hide Transfer, Sum, Taken, AnswersOf;
    var answers := AnswersOf(calls, |lens|);
    var i := |calls| - 1;
    var front, last := calls[..i], calls[i];
    TakenLast(calls);
    TakenIsSum(lens, front);
    TransferSkips(lens, answers, 0, i);
    if Whole(last) {
      TransferEnd(lens[i..], answers[i..], Sum(lens[..i]));
    } else {
      TransferFirst(lens[i..], answers[i..], Sum(lens[..i]));
    }
  }

  lemma TakenLast(calls: seq<SslCall>)
    requires calls != []
    ensures Taken(calls) == Taken(calls[..|calls| - 1]) + Max(calls[|calls| - 1].answer, 0)
  {
  }

  lemma TransferEnd(lens: seq<nat>, answers: seq<int>, total: nat)
    requires |lens| == |answers| == 1 && answers[0] == lens[0] > 0
    ensures Transfer(lens, answers, total) == Outcome(total + answers[0], total + answers[0])
  {
    assert Transfer(lens[1..], answers[1..], total + answers[0]) == Outcome(total + answers[0], total + answers[0]);
  }

  /** A vectored call over something makes a call; when it reports a failure, that is its last call's answer. */
  lemma FailureIsAnswered(lens: seq<nat>, calls: seq<SslCall>)
    requires MadeCalls(lens, calls)
    ensures lens != [] ==> calls != []
    ensures lens != [] && Report(calls).result <= 0 ==> calls[|calls| - 1].answer == Report(calls).result
    ensures lens == [] ==> Report(calls) == Outcome(0, 0)
  {
  }

  // ------------------------------------------------- the calls of fixed-size loops

  /** One round of a fixed-size loop over the byte array: a request for `asked` bytes at `at`, and its calls. */
  datatype Round = Round(at: nat, asked: nat, calls: seq<SslCall>)

  function AllCalls(rounds: seq<Round>): seq<SslCall> {
    if rounds == [] then [] else AllCalls(rounds[..|rounds| - 1]) + rounds[|rounds| - 1].calls
  }

  /** A round of the loop after `done` bytes: it asks for the rest, up to the chunk limit and what is available. */
  ghost predicate RoundAfter(b: nat, p0: nat, n: nat, avail: nat, maxLen: nat, done: nat, rd: Round)
    requires b > 0
  {
    && done <= n && done <= avail
    && rd.at == p0 + done && rd.asked == Min(Min(n - done, maxLen), avail - done)
    && MadeCalls(NodePieces(b, rd.at, rd.asked), rd.calls)
  }

  /** Rounds that moved bytes, one for each size, one after another. */
  ghost predicate GoodRounds(b: nat, p0: nat, n: nat, avail: nat, maxLen: nat, cs: seq<nat>, rounds: seq<Round>)
    requires b > 0
    decreases |cs|
  {
    if cs == [] then rounds == []
    else
      var i := |cs| - 1;
      && |rounds| == |cs| && cs[i] > 0
      && GoodRounds(b, p0, n, avail, maxLen, cs[..i], rounds[..i])
      && RoundAfter(b, p0, n, avail, maxLen, Sum(cs[..i]), rounds[i])
      && Report(rounds[i].calls) == Outcome(cs[i], cs[i])
  }

  /**
   * A whole run of the loop for `n` bytes: rounds that moved bytes until `n` are done, or until one more round whose
   * report is the loop's result `r` and not positive; that round moved `lost` bytes.
   */
  ghost predicate LoopCalls(b: nat, p0: nat, n: nat, avail: nat, maxLen: nat, cs: seq<nat>, rounds: seq<Round>,
                            r: int, lost: nat)
    requires b > 0
  {
    if Sum(cs) == n then GoodRounds(b, p0, n, avail, maxLen, cs, rounds)
    else
      && |rounds| == |cs| + 1 && GoodRounds(b, p0, n, avail, maxLen, cs, rounds[..|cs|])
      && RoundAfter(b, p0, n, avail, maxLen, Sum(cs), rounds[|cs|])
      && r <= 0 && Report(rounds[|cs|].calls) == Outcome(r, lost)
  }

  lemma OneMoreRound(b: nat, p0: nat, n: nat, avail: nat, maxLen: nat, cs: seq<nat>, rounds: seq<Round>, rd: Round,
                     r: int, moved: nat)
    requires b > 0 && GoodRounds(b, p0, n, avail, maxLen, cs, rounds) && |rounds| == |cs| && Sum(cs) < n
    requires RoundAfter(b, p0, n, avail, maxLen, Sum(cs), rd) && Report(rd.calls) == Outcome(r, moved)
    ensures AllCalls(rounds + [rd]) == AllCalls(rounds) + rd.calls
    ensures r > 0 && r == moved ==>
      GoodRounds(b, p0, n, avail, maxLen, cs + [moved], rounds + [rd]) && Sum(cs + [moved]) == Sum(cs) + moved
    ensures r <= 0 ==> LoopCalls(b, p0, n, avail, maxLen, cs, rounds + [rd], r, moved)
  {
    hide RoundAfter, MadeCalls, Report;
    assert (rounds + [rd])[..|rounds|] == rounds && (cs + [moved])[..|cs|] == cs;
  }

  /**
   * A loop that stops short while the connection is up was told to: its last call was answered with its result, which
   * is not positive. The one other way is to run out of available bytes.
   */
  lemma StopsOnlyOnFailure(b: nat, p0: nat, n: nat, avail: nat, maxLen: nat, cs: seq<nat>, rounds: seq<Round>,
                           r: int, lost: nat)
    requires b > 0 && maxLen > 0 && LoopCalls(b, p0, n, avail, maxLen, cs, rounds, r, lost) && Sum(cs) != n
    ensures Sum(cs) < n && Sum(cs) <= avail
    ensures Sum(cs) < avail ==>
      AllCalls(rounds) != [] && AllCalls(rounds)[|AllCalls(rounds)| - 1].answer == r <= 0
    ensures Sum(cs) == avail ==> r == 0 && lost == 0
  {
    var rd := rounds[|cs|];
    var pieces := NodePieces(b, rd.at, rd.asked);
    FailureIsAnswered(pieces, rd.calls);
    assert rounds == rounds[..|cs|] + [rd];
    assert AllCalls(rounds) == AllCalls(rounds[..|cs|]) + rd.calls;
  }

  /** The calls of a flat loop for `n` bytes whose calls moved `cs`: each asks for the rest, up to the chunk limit. */
  function FlatCalls(n: nat, maxLen: nat, cs: seq<nat>): seq<SslCall> {
    if cs == [] then []
    else
      var front := cs[..|cs| - 1];
      FlatCalls(n, maxLen, front) + [SslCall(Min(Max(n - Sum(front), 0), maxLen), cs[|cs| - 1])]
  }

  /** And with the failing call that ended it, if it stopped short; its answer is the loop's result. */
  function FlatLoop(n: nat, maxLen: nat, cs: seq<nat>, r: int): seq<SslCall> {
    FlatCalls(n, maxLen, cs) + if Sum(cs) < n then [SslCall(Min(n - Sum(cs), maxLen), r)] else []
  }

  lemma OneMoreFlat(n: nat, maxLen: nat, cs: seq<nat>, k: nat)
    ensures FlatCalls(n, maxLen, cs + [k]) == FlatCalls(n, maxLen, cs) + [SslCall(Min(Max(n - Sum(cs), 0), maxLen), k)]
    ensures Sum(cs + [k]) == Sum(cs) + k
  {
    assert (cs + [k])[..|cs|] == cs;
  }

  // ----------------------------------------------------------- when the cursor lags

  /** One buffer leaves nothing unreported: either it moved bytes and says so, or it moved none. */
  lemma OneBufferIsExact(lens: seq<nat>, answers: seq<int>)
    requires |lens| <= 1 && Legal(lens, answers)
    ensures Exact(Transfer(lens, answers, 0))
  {
    if |lens| == 1 && answers[0] > 0 {
      assert Transfer(lens[1..], answers[1..], answers[0]) == Outcome(answers[0], answers[0]);
    }
  }

  /** A full first buffer and a failing second one: bytes moved that the result does not report. */
  function FullThenFail(lens: seq<nat>): seq<int>
    requires |lens| > 1
  {
    seq(|lens|, i requires 0 <= i < |lens| => if i == 0 then lens[0] else 0)
  }

  lemma FullThenFailLags(lens: seq<nat>)
    requires |lens| > 1 && lens[0] > 0
    ensures Legal(lens, FullThenFail(lens))
    ensures Transfer(lens, FullThenFail(lens), 0) == Outcome(0, lens[0])
  {
    var answers := FullThenFail(lens);
    assert answers[0] == lens[0] && answers[1] == 0;
    assert answers[1..][0] == 0;
  }

  /**
   * Over everything the platform may answer, the cursor ends at the bytes moved if and only if there is no second
   * buffer.
   */
  lemma CursorIsExactIff(lens: seq<nat>)
    requires forall i :: 0 <= i < |lens| ==> lens[i] > 0
    ensures (forall answers :: Legal(lens, answers) ==> Exact(Transfer(lens, answers, 0))) <==> |lens| <= 1
  {
    if |lens| <= 1 {
      forall answers | Legal(lens, answers)
        ensures Exact(Transfer(lens, answers, 0))
      {
        OneBufferIsExact(lens, answers);
      }
    } else {
      FullThenFailLags(lens);
      assert !Exact(Transfer(lens, FullThenFail(lens), 0));
    }
  }

  /** What a caller can check before the call: the cursor cannot lag if and only if the request lies in one node. */
  lemma NoLagIffOneNode(b: nat, p: nat, n: nat)
    requires b > 0
    ensures (forall answers :: Legal(NodePieces(b, p, n), answers) ==> Exact(Transfer(NodePieces(b, p, n), answers, 0)))
            <==> OneNode(b, p, n)
  {
    CursorIsExactIff(NodePieces(b, p, n));
    OnePieceIff(b, p, n);
  }
}
