/** `SocketStream` and the fixed-size loops of `Stream`, over one TLS connection. */
module Streams {
  import opened Bytes
  import opened Blocks
  import opened ByteArrays
  import opened Transport
  import opened Vectored

  /** The sizes of the successful transport calls of one fixed-size call that moved `total` bytes. */
  ghost predicate Chunks(cs: seq<nat>, maxLen: nat, total: nat) {
    Sum(cs) == total && forall i :: 0 <= i < |cs| ==> 1 <= cs[i] <= maxLen
  }

  lemma ChunksPush(cs: seq<nat>, maxLen: nat, total: nat, n: nat)
    requires Chunks(cs, maxLen, total) && 1 <= n <= maxLen
    ensures Chunks(cs + [n], maxLen, total + n)
  {
    assert (cs + [n])[..|cs|] == cs;
  }

  /** How many transport calls a complete transfer takes: never fewer than full chunks, never more than bytes. */
  lemma {:induction false} CallCount(cs: seq<nat>, maxLen: nat, total: nat)
    requires Chunks(cs, maxLen, total) && maxLen > 0
    ensures Ceil(total, maxLen) <= |cs| <= total
  {
    ChunksFillBlocks(cs, maxLen, total);
    CeilBounds(total, maxLen);
    if |cs| < Ceil(total, maxLen) {
      StartOrder(|cs|, Ceil(total, maxLen), maxLen);
    }
  }

  lemma {:induction false} ChunksFillBlocks(cs: seq<nat>, maxLen: nat, total: nat)
    requires Chunks(cs, maxLen, total)
    ensures |cs| <= total <= Start(|cs|, maxLen)
  {
    if cs != [] {
      ChunksFillBlocks(cs[..|cs| - 1], maxLen, total - cs[|cs| - 1]);
    }
  }

  /** How many bytes a fixed-size call goes for: none for a size of 2^63 or more, which becomes a negative count. */
  function Asked(length: nat): nat {
    Max(ToInt64(length), 0)
  }

  /**
   * What the `int` result says: the length, truncated, on success and nothing positive on failure. Up to 2^31-1 a
   * caller can tell the two apart.
   */
  ghost predicate Verdict(length: nat, done: nat, r: int) {
    && (if done == Asked(length) then r == ToInt32(length) else r <= 0)
    && (0 < length <= MAX_INT32 ==> (r == length <==> done == length) && (r <= 0 <==> done < length))
  }

  /** A caller can tell success from the `int` result exactly when the length truncates to a positive number. */
  lemma VerdictIsReadable(length: nat)
    ensures ToInt32(length) > 0 <==> 0 < length % 0x1_0000_0000 < 0x8000_0000
    ensures length <= MAX_INT32 ==> ToInt32(length) == length
  {
  }

  lemma SuccessVerdict(length: nat)
    ensures Verdict(length, Asked(length), ToInt32(length))
  {
    VerdictIsReadable(length);
  }

  lemma FailureVerdict(length: nat, done: nat, r: int)
    requires done < Asked(length) && r <= 0 && length < SIZES
    ensures Verdict(length, done, r) && length == Asked(length)
  {
  }

  /** Sizes of the program are below this, and signed 64-bit counts below half of it. */
  const SIZES: int := 0x1_0000_0000_0000_0000
  const COUNTS: int := 0x8000_0000_0000_0000

  /**
   * When a fixed-size call can lose bytes: the failing chunk, `k` bytes at `p`, crosses a node border. So none are
   * lost when the whole request, `n` bytes at `p0`, lies in one node, or when chunks are single bytes.
   */
  ghost predicate LostAcrossNodes(b: nat, p0: nat, n: nat, p: nat, k: nat, maxLen: nat, lost: nat)
    requires b > 0
  {
    && (OneNode(b, p, k) ==> lost == 0)
    && (OneNode(b, p0, n) || maxLen <= 1 ==> lost == 0)
  }

  lemma NothingLost(b: nat, p0: nat, n: nat, p: nat, k: nat, maxLen: nat)
    requires b > 0
    ensures LostAcrossNodes(b, p0, n, p, k, maxLen, 0)
  {
  }

  lemma LossExplained(b: nat, p0: nat, n: nat, done: nat, k: nat, maxLen: nat, lost: nat)
    requires b > 0 && k <= maxLen && done + k <= n && (OneNode(b, p0 + done, k) ==> lost == 0)
    ensures LostAcrossNodes(b, p0, n, p0 + done, k, maxLen, lost)
  {
    hide OneNode;
    if OneNode(b, p0, n) || maxLen <= 1 {
      ChunkInOneNode(b, p0, n, done, k, maxLen);
    }
  }

  lemma AskedIs(length: nat)
    ensures Asked(length) <= length && Asked(length) == Max(ToInt64(length), 0)
    ensures Asked(length) > 0 && length < SIZES ==> Asked(length) == length
    ensures length < COUNTS ==> Asked(length) == length
    ensures COUNTS <= length < SIZES ==> Asked(length) == 0
  {
  }

  /** The failing chunk of a fixed-size call lies in one node if the whole call does, or if chunks are single bytes. */
  lemma ChunkInOneNode(b: nat, p: nat, n: nat, done: nat, k: nat, maxLen: nat)
    requires b > 0 && k <= maxLen && done + k <= n
    requires OneNode(b, p, n) || maxLen <= 1
    ensures OneNode(b, p + done, k)
  {
    if k > 1 {
      OneNodePart(b, p, n, done, k);
    }
  }

  lemma OverwriteNothing(s: seq<byte>, p: nat)
    requires p <= |s|
    ensures Overwrite(s, p, []) == s
  {
  }

  /** The last of the calls failed, and its answer is the result. */
  ghost predicate EndsWith(calls: seq<SslCall>, r: int) {
    calls != [] && calls[|calls| - 1].answer == r <= 0
  }

  lemma SumPush(cs: seq<nat>, n: nat)
    ensures Sum(cs + [n]) == Sum(cs) + n
  {
    assert (cs + [n])[..|cs|] == cs;
  }

  lemma NoFlatCalls(n: nat, maxLen: nat)
    ensures FlatCalls(n, maxLen, []) == [] && Sum([]) == 0
  {
  }

  /**
   * The calls are those of a request for `n` bytes at `p`, and the result and the bytes moved are what they report;
   * without a session there are none.
   */
  ghost predicate Answered(up: bool, b: nat, p: nat, n: nat, r: int, moved: nat, calls: seq<SslCall>)
    requires b > 0
  {
    if up then MadeCalls(NodePieces(b, p, n), calls) && Report(calls) == Outcome(r, moved)
    else r == -1 && moved == 0 && calls == []
  }

  /** So far every round of a loop moved bytes, or there is no session and there was no round. */
  ghost predicate Progress(up: bool, b: nat, p0: nat, n: nat, avail: nat, maxLen: nat, cs: seq<nat>, rounds: seq<Round>)
    requires b > 0
  {
    if up then GoodRounds(b, p0, n, avail, maxLen, cs, rounds) && |rounds| == |cs| else rounds == [] && cs == []
  }

  /** The rounds are those of the loop; without a session it fails at once, and makes no call. */
  ghost predicate Told(up: bool, b: nat, p0: nat, n: nat, avail: nat, maxLen: nat, cs: seq<nat>, rounds: seq<Round>,
                       r: int, lost: nat)
    requires b > 0
  {
    if up then LoopCalls(b, p0, n, avail, maxLen, cs, rounds, r, lost)
    else rounds == [] && cs == [] && lost == 0 && (n > 0 ==> r == -1)
  }

  function Ended(up: bool, rounds: seq<Round>, rd: Round): seq<Round>
  {
    if up then rounds + [rd] else []
  }

  lemma NextRound(up: bool, b: nat, p0: nat, n: nat, avail: nat, maxLen: nat, cs: seq<nat>, rounds: seq<Round>,
                  rd: Round, r: int, moved: nat)
    requires b > 0 && Progress(up, b, p0, n, avail, maxLen, cs, rounds) && Sum(cs) < n && Sum(cs) <= avail
    requires rd.at == p0 + Sum(cs) && rd.asked == Min(Min(n - Sum(cs), maxLen), avail - Sum(cs))
    requires Answered(up, b, rd.at, rd.asked, r, moved, rd.calls) && (r > 0 ==> r == moved)
    ensures r > 0 ==> Progress(up, b, p0, n, avail, maxLen, cs + [moved], rounds + [rd])
    ensures r > 0 ==> AllCalls(rounds + [rd]) == AllCalls(rounds) + rd.calls
    ensures r <= 0 ==> Told(up, b, p0, n, avail, maxLen, cs, Ended(up, rounds, rd), r, moved)
    ensures r <= 0 ==> AllCalls(Ended(up, rounds, rd)) == AllCalls(rounds) + rd.calls
  {
    hide MadeCalls, Report, GoodRounds, LoopCalls, Sum;
    if up {
      OneMoreRound(b, p0, n, avail, maxLen, cs, rounds, rd, r, moved);
    }
  }

  lemma LastRound(up: bool, b: nat, p0: nat, n: nat, avail: nat, maxLen: nat, cs: seq<nat>, rounds: seq<Round>, r: int)
    requires b > 0 && Progress(up, b, p0, n, avail, maxLen, cs, rounds) && Sum(cs) == n
    ensures Told(up, b, p0, n, avail, maxLen, cs, rounds, r, 0)
  {
  }

  /** A loop that stops short with bytes still available and the session up ends with the call that failed. */
  lemma StoppedByACall(up: bool, b: nat, p0: nat, n: nat, avail: nat, maxLen: nat, cs: seq<nat>, rounds: seq<Round>,
                       r: int, lost: nat)
    requires b > 0 && Told(up, b, p0, n, avail, maxLen, cs, rounds, r, lost)
    ensures up && maxLen > 0 && Sum(cs) != n && Sum(cs) != avail ==> EndsWith(AllCalls(rounds), r)
  {
    hide LoopCalls, AllCalls;
    if up && maxLen > 0 && Sum(cs) != n {
      StopsOnlyOnFailure(b, p0, n, avail, maxLen, cs, rounds, r, lost);
    }
  }

  /**
   * One call of a fixed-size loop over a byte array: whether there is a session, the array's node size, the position it
   * starts at, the length asked for, the bytes the array has to offer, and the chunk limit.
   */
  datatype Plan = Plan(up: bool, b: nat, at: nat, length: nat, avail: nat, maxLen: nat)

  /** The sizes `cs` and the rounds of a loop that goes on. */
  ghost predicate Under(p: Plan, cs: seq<nat>, rounds: seq<Round>)
    requires p.b > 0
  {
    && Chunks(cs, p.maxLen, Sum(cs)) && Sum(cs) <= Asked(p.length) && Sum(cs) <= p.avail
    && Progress(p.up, p.b, p.at, Asked(p.length), p.avail, p.maxLen, cs, rounds)
  }

  /**
   * How a loop ends, when its successful rounds moved `cs`: with the result `r`; `lost` bytes were moved by a failing
   * last round. Stopping short takes a failing call whose answer is the result, unless nothing was left to offer or
   * there was no session.
   */
  ghost predicate Ends(p: Plan, cs: seq<nat>, rounds: seq<Round>, r: int, lost: nat)
    requires p.b > 0
  {
    var n, done := Asked(p.length), Sum(cs);
    && done <= n && done <= p.avail
    && Chunks(cs, p.maxLen, done)
    && Verdict(p.length, done, r)
    && (done == n ==> lost == 0) && (lost == 0 || lost < Min(n - done, p.maxLen))
    && LostAcrossNodes(p.b, p.at, Min(p.length, p.avail), p.at + done, Min(Min(n - done, p.maxLen), p.avail - done),
                       p.maxLen, lost)
    && Told(p.up, p.b, p.at, n, p.avail, p.maxLen, cs, rounds, r, lost)
    && (p.up && p.maxLen > 0 && done < n && done < p.avail ==> EndsWith(AllCalls(rounds), r))
  }

  lemma NothingYet(p: Plan)
    requires p.b > 0
    ensures Under(p, [], []) && AllCalls([]) == [] && Sum([]) == 0
  {
    NoChunks(p.maxLen);
  }

  /** The round that a loop makes after `done` bytes, and what it leads to. */
  lemma RoundLeads(p: Plan, cs: seq<nat>, rounds: seq<Round>, rd: Round, done: nat, r: int, moved: nat)
    requires p.b > 0 && p.length < SIZES && Under(p, cs, rounds) && done == Sum(cs) < Asked(p.length)
    requires rd.at == p.at + done && rd.asked == Min(Min(Asked(p.length) - done, p.maxLen), p.avail - done)
    requires Answered(p.up, p.b, rd.at, rd.asked, r, moved, rd.calls)
    requires moved <= rd.asked && (r > 0 ==> r == moved)
    requires r <= 0 ==> (OneNode(p.b, rd.at, rd.asked) ==> moved == 0) && (moved == 0 || moved < rd.asked)
    ensures r > 0 ==> Under(p, cs + [moved], rounds + [rd]) && Sum(cs + [moved]) == done + moved
    ensures r > 0 ==> AllCalls(rounds + [rd]) == AllCalls(rounds) + rd.calls
    ensures r <= 0 ==> Ends(p, cs, Ended(p.up, rounds, rd), r, moved)
    ensures r <= 0 ==> AllCalls(Ended(p.up, rounds, rd)) == AllCalls(rounds) + rd.calls
  {
    hide Chunks, Asked, Verdict, OneNode, LostAcrossNodes, Answered, AllCalls, Progress, Told, Ended, EndsWith, Sum,
         ToInt32, ToInt64;
    AskedIs(p.length);
    NextRound(p.up, p.b, p.at, Asked(p.length), p.avail, p.maxLen, cs, rounds, rd, r, moved);
    if r > 0 {
      ChunksPush(cs, p.maxLen, done, moved);
      SumPush(cs, moved);
    } else {
      FailureVerdict(p.length, done, r);
      LossExplained(p.b, p.at, Min(p.length, p.avail), done, rd.asked, p.maxLen, moved);
      StoppedByACall(p.up, p.b, p.at, Asked(p.length), p.avail, p.maxLen, cs, Ended(p.up, rounds, rd), r, moved);
    }
  }

  lemma LoopDone(p: Plan, cs: seq<nat>, rounds: seq<Round>)
    requires p.b > 0 && Under(p, cs, rounds) && Sum(cs) == Asked(p.length)
    ensures Ends(p, cs, rounds, ToInt32(p.length), 0)
  {
    hide Chunks, Asked, Verdict, OneNode, LostAcrossNodes, Progress, Told, EndsWith, Sum, ToInt32, ToInt64;
    var done := Sum(cs);
    SuccessVerdict(p.length);
    NothingLost(p.b, p.at, Min(p.length, p.avail), p.at + done, Min(Min(0, p.maxLen), p.avail - done), p.maxLen);
    LastRound(p.up, p.b, p.at, Asked(p.length), p.avail, p.maxLen, cs, rounds, ToInt32(p.length));
  }

  class SocketStream {
    const socket: SslSocket

    constructor (s: SslSocket)
      ensures socket == s
    {
      socket := s;
    }

    /**
     * `write(ByteArray, length)`: offers the next readable bytes and moves the cursor by what the result reports.
     * Its `calls` are those of the pieces the request is cut into. A failure leaves nothing uncounted when the request
     * lies in one node.
     */
    method WriteArray(ba: ByteArray, length: nat) returns (r: int32, ghost moved: nat, ghost calls: seq<SslCall>)
      requires ba.Valid() && Min(length, ba.ReadSize()) <= MAX_INT32
      modifies socket`outgoing, socket`log, ba`position, ba`cur, ba`at, ba`size
      ensures ba.Valid() && ba.size == old(ba.size) && ba.Data() == old(ba.Data())
      ensures moved <= Min(length, old(ba.ReadSize()))
      ensures socket.outgoing == old(socket.outgoing) + ba.Data()[old(ba.position)..old(ba.position) + moved]
      ensures ba.position == old(ba.position) + Max(r, 0)
      ensures r > 0 ==> r == moved
      ensures r <= 0 && length > 0 ==> moved < length
      ensures r <= 0 ==> moved == 0 || moved < Min(length, ba.ReadSize())
      ensures r <= 0 && OneNode(ba.baseSize, ba.position, Min(length, ba.ReadSize())) ==> moved == 0
      ensures socket.log == old(socket.log) + calls
      ensures Answered(Up(), ba.baseSize, old(ba.position), Min(length, old(ba.ReadSize())), r, moved, calls)
    {
      hide Gather, Memory, TotalLength, ByteArray.Data, ByteArray.Flat, ByteArray.Chain, ByteArray.Tiles,
           NodePieces, MadeCalls, Report, Lens;
      moved, calls := 0, [];
      ba.BasePositive();
      if !socket.connected {
        return -1, 0, [];
      }
      var bufs, n := ba.GetReadBuffers(length);
      ghost var next := ba.Data()[ba.position..ba.position + n];
      ba.TilesData(bufs, ba.position, ba.position + n);
      r, moved, calls := socket.SendV(bufs);
      FrontOfSlice(ba.Data(), ba.position, n, moved);
      if socket.ready {
        AnsweredFacts(ba.baseSize, ba.position, n, r, moved, calls);
      }
      if r > 0 {
        var ok := ba.SetPosition(ba.position + r);
      }
    }

    /** The session is up: calls reach it. */
    predicate Up()
      reads socket`connected, socket`ready
    {
      socket.connected && socket.ready
    }

    /** The receiving half of `read(ByteArray, length)`: stores what arrives into the buffers, cursor unmoved. */
    method Receive(ba: ByteArray, bufs: seq<IoBuffer>, n: nat)
        returns (r: int32, ghost moved: nat, ghost calls: seq<SslCall>)
      requires ba.Valid() && ba.Tiles(bufs, ba.position, ba.position + n)
      requires n <= MAX_INT32 && ba.position + n <= ba.capacity
      modifies socket`incoming, socket`log, ba.mems
      ensures ba.Valid() && |old(ba.Flat())| == |ba.Flat()| == ba.capacity
      ensures moved <= n && moved <= |old(socket.incoming)|
      ensures socket.incoming == old(socket.incoming)[moved..]
      ensures ba.Flat() == Splice(old(ba.Flat()), ba.position, old(socket.incoming)[..moved])
      ensures socket.log == old(socket.log) + calls
      ensures if socket.ready then MadeCalls(Lens(bufs), calls) && Report(calls) == Outcome(r, moved)
              else r == -1 && moved == 0 && calls == []
    {
      hide Gather, TotalLength, ByteArray.Flat, ByteArray.Tiles, Inside, Splice, Lens, MadeCalls, Report, Start, Concat,
           PiecesOf;
      var p := ba.position;
      ghost var flat := ba.Flat();
      ba.FlatLength();
      ba.TilesGather(bufs, p, p + n);
      ba.TilesDisjoint(bufs, p, p + n);
      TotalIsLength(bufs, |bufs|);
      NothingToReceive(bufs, n);
      ghost var held := Gather(bufs);
      assert bufs != [] ==> held == flat[p..p + n];
      forall i, k | 0 <= i < |ba.nodes| && 0 <= k < ba.baseSize
        ensures Start(i, ba.baseSize) + k < |flat| && ba.nodes[i].mem[k] == flat[Start(i, ba.baseSize) + k]
      {
        ba.NodeByte(i, k);
      }
      r, moved, calls := socket.RecvV(bufs);
      SpliceNothing(flat, p);
      forall i, k | 0 <= i < |ba.nodes| && 0 <= k < ba.baseSize && !Inside(bufs, ba.nodes[i].mem, k)
        ensures Start(i, ba.baseSize) + k < |flat| && ba.nodes[i].mem[k] == flat[Start(i, ba.baseSize) + k]
      {
        var mem := ba.nodes[i].mem;
        assert old(mem[k]) == flat[Start(i, ba.baseSize) + k];
        assert mem[k] == old(mem[k]);
      }
      if bufs != [] {
        assert Gather(bufs) == Splice(flat[p..p + n], 0, old(socket.incoming)[..moved]);
        assert ba.SameOutside(bufs, flat);
        ba.ScatterIsSplice(bufs, p, p + n, flat, old(socket.incoming)[..moved]);
      }
      ba.FlatLength();
    }

    /**
     * `read(ByteArray, length)`: stores what arrives behind the cursor and moves it by what the result reports. A
     * failure leaves nothing uncounted when the request lies in one node.
     */
    method ReadArray(ba: ByteArray, length: nat) returns (r: int32, ghost moved: nat, ghost calls: seq<SslCall>)
      requires ba.Valid() && length <= MAX_INT32
      modifies socket`incoming, socket`log, ba, ba.links, ba.mems
      ensures ba.Valid() && ba.Extends()
      ensures moved <= length && moved <= |old(socket.incoming)|
      ensures socket.incoming == old(socket.incoming)[moved..]
      ensures r > 0 ==> r == moved
      ensures r <= 0 && length > 0 ==> moved < length
      ensures r <= 0 && OneNode(ba.baseSize, ba.position, length) ==> moved == 0
      ensures socket.log == old(socket.log) + calls
      ensures Answered(Up(), ba.baseSize, old(ba.position), length, r, moved, calls)
      ensures ba.position == old(ba.position) + Max(r, 0) && ba.size == Max(old(ba.size), ba.position)
      ensures r > 0 ==> ba.capacity == Grown(old(ba.capacity), old(ba.position) + length, ba.baseSize)
      ensures ba.Data() == Overwrite(old(ba.Data()), old(ba.position), old(socket.incoming)[..moved])[..ba.size]
    {
      hide ByteArray.Flat, ByteArray.Tiles, ByteArray.Chain, Splice, Overwrite, Grown, NodePieces, MadeCalls,
           Report, Lens;
      moved, calls := 0, [];
      ba.BasePositive();
      OverwriteNothing(ba.Data(), ba.position);
      if !socket.connected {
        return -1, 0, [];
      }
      var bufs, n := ba.GetWriteBuffers(length);
      ghost var flat, used := ba.Flat(), ba.size;
      ghost var before := ba.Data();
      ba.FlatLength();
      r, moved, calls := Receive(ba, bufs, length);
      if socket.ready {
        AnsweredFacts(ba.baseSize, ba.position, length, r, moved, calls);
      }
      if r > 0 {
        var ok := ba.SetPosition(ba.position + r);
      }
      SpliceIsOverwriteCut(flat, used, old(ba.position), old(socket.incoming)[..moved], ba.size);
      assert before == flat[..used];
    }

    /**
     * `writeFixSize(ByteArray, length)`. Success moves exactly the next `length` bytes, in order. Failure returns
     * the failing call's result after a strictly shorter exact prefix; `lost` bytes beyond that prefix may have
     * gone out in whole buffers of the failing call, and the cursor counts none of them. There are none when that
     * call's chunk lies in one node, so none at all when the whole request does or chunks are single bytes.
     */
    method WriteFixArray(ba: ByteArray, length: nat, maxLen: nat)
        returns (r: int32, ghost cs: seq<nat>, ghost lost: nat, ghost rounds: seq<Round>)
      requires ba.Valid() && maxLen <= MAX_INT32 && length < SIZES
      modifies socket`outgoing, socket`log, ba`position, ba`cur, ba`at, ba`size
      ensures ba.Valid() && ba.size == old(ba.size) && ba.Data() == old(ba.Data())
      ensures ba.position == old(ba.position) + Sum(cs) && ba.position + lost <= ba.size
      ensures socket.outgoing == old(socket.outgoing) + ba.Data()[old(ba.position)..ba.position + lost]
      ensures socket.log == old(socket.log) + AllCalls(rounds)
      ensures Ends(Plan(Up(), ba.baseSize, old(ba.position), length, old(ba.ReadSize()), maxLen), cs, rounds, r, lost)
    {
      hide ByteArray.Data, ByteArray.Chain, ByteArray.Cursor, ToInt32, ToInt64, OneNode, Asked, Answered, AllCalls,
           Ended, Sum, Under, Ends;
      var left := ToInt64(length);
      ba.BasePositive();
      ghost var p, done := Plan(Up(), ba.baseSize, ba.position, length, ba.ReadSize(), maxLen), 0;
      cs, lost, rounds := [], 0, [];
      AskedIs(length);
      NothingYet(p);
      while left > 0
        invariant done + Max(left, 0) == Asked(length) && Sum(cs) == done && ba.position == p.at + done
        invariant ba.Valid() && ba.size == old(ba.size) && ba.Data() == old(ba.Data())
        invariant socket.outgoing == old(socket.outgoing) + ba.Data()[p.at..ba.position]
        invariant socket.log == old(socket.log) + AllCalls(rounds) && Under(p, cs, rounds)
      {
        var len, chunk := 0, Min(left, maxLen);
        ghost var moved, calls, offered := 0, [], Min(chunk, ba.ReadSize());
        len, moved, calls := WriteArray(ba, chunk);
        JoinSlices(ba.Data(), p.at, p.at + done, p.at + done + moved);
        ghost var rd := Round(p.at + done, offered, calls);
        RoundLeads(p, cs, rounds, rd, done, len, moved);
        if len <= 0 {
          return len, cs, moved, Ended(p.up, rounds, rd);
        }
        cs := cs + [len as nat];
        rounds := rounds + [rd];
        left := left - len;
        done := done + len;
      }
      LoopDone(p, cs, rounds);
      r := ToInt32(length);
    }

    /**
     * The same read, when `n` bytes of `stream` have been stored from position `p` on over data `d`, of those up to
     * position `q` to come.
     */
    method ReadNext(ba: ByteArray, length: nat, ghost p: nat, ghost n: nat, ghost q: nat, ghost d: seq<byte>,
                    ghost stream: seq<byte>)
        returns (r: int32, ghost moved: nat, ghost calls: seq<SslCall>)
      requires n <= |stream| && Stored(ba, d, p, stream[..n]) && length <= MAX_INT32
      requires socket.incoming == stream[n..] && ba.position + length <= q && ba.baseSize > 0
      modifies socket`incoming, socket`log, ba, ba.links, ba.mems
      ensures ba.Extends() && moved <= length && n + moved <= |stream|
      ensures r <= 0 && length > 0 ==> moved < length
      ensures r <= 0 && OneNode(ba.baseSize, old(ba.position), length) ==> moved == 0
      ensures r > 0 ==> r == moved
      ensures r > 0 ==> Stored(ba, d, p, stream[..n + moved])
      ensures r > 0 ==> Grown(ba.capacity, q, ba.baseSize) == Grown(old(ba.capacity), q, ba.baseSize)
      ensures r > 0 && old(ba.position) + length == q ==> ba.capacity == Grown(old(ba.capacity), q, ba.baseSize)
      ensures socket.log == old(socket.log) + calls
      ensures Answered(Up(), ba.baseSize, old(ba.position), length, r, moved, calls)
      ensures socket.incoming == stream[n + moved..]
      ensures ba.Valid() && ba.position == old(ba.position) + Max(r, 0) && ba.size == Max(|d|, ba.position)
      ensures ba.Chain() && ba.size <= ba.capacity
      ensures ba.Data() == Overwrite(d, p, stream[..n + moved])[..ba.size]
    {
      hide ByteArray.Data, ByteArray.Chain, ByteArray.Cursor, Overwrite, Grown, OneNode, Answered;
      GrownTwice(ba.capacity, ba.position + length, q, ba.baseSize);
      r, moved, calls := ReadArray(ba, length);
      ReadMore(d, p, stream, n, moved);
      assert r > 0 ==> |stream[..n + moved]| == n + moved;
    }

    /** One round of `readFixSize`: it moves on, or it ends the loop. */
    method ReadRound(ba: ByteArray, chunk: nat, ghost p: Plan, ghost cs: seq<nat>, ghost rounds: seq<Round>,
                     ghost d: seq<byte>, ghost stream: seq<byte>, ghost log: seq<SslCall>)
        returns (r: int32, ghost moved: nat, ghost next: seq<Round>)
      requires p.b == ba.baseSize > 0 && p.up == Up() && p.length < SIZES && p.avail == p.length && chunk <= MAX_INT32
      requires Under(p, cs, rounds) && Sum(cs) < Asked(p.length) && chunk == Min(Asked(p.length) - Sum(cs), p.maxLen)
      requires Sum(cs) <= |stream| && socket.incoming == stream[Sum(cs)..] && Stored(ba, d, p.at, stream[..Sum(cs)])
      requires socket.log == log + AllCalls(rounds)
      modifies socket`incoming, socket`log, ba, ba.links, ba.mems
      ensures ba.Extends() && Sum(cs) + moved <= |stream|
      ensures socket.incoming == stream[Sum(cs) + moved..] && socket.log == log + AllCalls(next)
      ensures var q := p.at + Asked(p.length); r > 0 ==>
        && r == moved && Under(p, cs + [moved], next) && Sum(cs + [moved]) == Sum(cs) + moved <= Asked(p.length)
        && Stored(ba, d, p.at, stream[..Sum(cs) + moved])
        && Grown(ba.capacity, q, p.b) == Grown(old(ba.capacity), q, p.b)
        && (Sum(cs) + moved == Asked(p.length) ==> ba.capacity == Grown(old(ba.capacity), q, p.b))
      ensures r <= 0 ==> Ends(p, cs, next, r, moved)
      ensures ba.Valid() && ba.Chain() && ba.size <= ba.capacity
      ensures ba.position == p.at + Sum(cs) + Max(r, 0) && ba.size == Max(|d|, ba.position)
      ensures p.at <= |d| && ba.Data() == Overwrite(d, p.at, stream[..Sum(cs) + moved])[..ba.size]
    {
      hide ByteArray.Data, ByteArray.Chain, ByteArray.Cursor, Overwrite, Grown, OneNode, Answered, Asked, Sum, Under,
           Ends, AllCalls, Ended;
      ghost var calls, done := [], Sum(cs);
      AskedIs(p.length);
      r, moved, calls := ReadNext(ba, chunk, p.at, done, p.at + Asked(p.length), d, stream);
      ghost var rd := Round(p.at + done, chunk, calls);
      RoundLeads(p, cs, rounds, rd, done, r, moved);
      next := if r > 0 then rounds + [rd] else Ended(p.up, rounds, rd);
    }

    /** The array holds `d` overwritten from `p` on with `bytes`, and its cursor stands behind them. */
    ghost predicate Stored(ba: ByteArray, d: seq<byte>, p: nat, bytes: seq<byte>)
      reads ba, ba.links, ba.mems
    {
      && ba.Valid() && p <= |d| && ba.position == p + |bytes| && ba.size == Max(|d|, ba.position)
      && ba.Data() == Overwrite(d, p, bytes)
    }

    lemma NothingStored(ba: ByteArray, stream: seq<byte>)
      requires ba.Valid()
      ensures Stored(ba, ba.Data(), ba.position, stream[..0]) && ba.Chain() && ba.size <= ba.capacity && ba.baseSize > 0
    {
      OverwriteNothing(ba.Data(), ba.position);
    }

    lemma AllStored(ba: ByteArray, d: seq<byte>, p: nat, stream: seq<byte>, n: nat)
      requires n <= |stream| && Stored(ba, d, p, stream[..n])
      ensures ba.Valid() && ba.position == p + n && ba.size == Max(|d|, ba.position)
      ensures ba.Chain() && ba.size <= ba.capacity
      ensures p <= |d| && ba.Data() == Overwrite(d, p, stream[..n])[..ba.size]
    {
    }

    /** `readFixSize(ByteArray, length)`, the mirror image; the chain has grown for exactly `length` more bytes. */
    method ReadFixArray(ba: ByteArray, length: nat, maxLen: nat)
        returns (r: int32, ghost cs: seq<nat>, ghost lost: nat, ghost rounds: seq<Round>)
      requires ba.Valid() && maxLen <= MAX_INT32 && length < SIZES
      modifies socket`incoming, socket`log, ba, ba.links, ba.mems
      ensures ba.Valid() && ba.Extends()
      ensures ba.position == old(ba.position) + Sum(cs) && ba.size == Max(old(ba.size), ba.position)
      ensures var all := Sum(cs) + lost;
              && all <= |old(socket.incoming)| && socket.incoming == old(socket.incoming)[all..]
              && ba.Data() == Overwrite(old(ba.Data()), old(ba.position), old(socket.incoming)[..all])[..ba.size]
      ensures ba.position == old(ba.position) + Asked(length) ==>
              ba.capacity == Grown(old(ba.capacity), ba.position, ba.baseSize)
      ensures socket.log == old(socket.log) + AllCalls(rounds)
      ensures Ends(Plan(Up(), ba.baseSize, old(ba.position), length, length, maxLen), cs, rounds, r, lost)
    {
      hide ByteArray.Data, ByteArray.Chain, ByteArray.Cursor, ToInt32, ToInt64, Overwrite, Grown, OneNode, Asked,
           Answered, AllCalls, Ended, Sum, Under, Ends, Stored, ByteArray.Valid;
      var left := ToInt64(length);
      NothingStored(ba, socket.incoming);
      ghost var p, done := Plan(Up(), ba.baseSize, ba.position, length, length, maxLen), 0;
      ghost var stream, d := socket.incoming, ba.Data();
      cs, lost, rounds := [], 0, [];
      AskedIs(length);
      NothingYet(p);
      ghost var target := Grown(ba.capacity, p.at + Asked(length), ba.baseSize);
      while left > 0
        invariant done + Max(left, 0) == Asked(length) && Sum(cs) == done && ba.position == p.at + done
        invariant done <= |stream| && socket.incoming == stream[done..]
        invariant ba.Extends() && Stored(ba, d, p.at, stream[..done])
        invariant Grown(ba.capacity, p.at + Asked(length), ba.baseSize) == target
        invariant left == 0 ==> ba.capacity == target
        invariant socket.log == old(socket.log) + AllCalls(rounds) && Under(p, cs, rounds)
      {
        var len := 0;
        ghost var moved, next := 0, [];
        len, moved, next := ReadRound(ba, Min(left, maxLen), p, cs, rounds, d, stream, old(socket.log));
        if len <= 0 {
          return len, cs, moved, next;
        }
        cs := cs + [len as nat];
        rounds := next;
        left := left - len;
        done := done + len;
      }
      AllStored(ba, d, p.at, stream, done);
      LoopDone(p, cs, rounds);
      r := ToInt32(length);
    }

    /** `write(const void*, length)`. */
    method WriteBuffer(d: seq<byte>) returns (r: int32)
      modifies socket`outgoing, socket`log
      ensures r <= |d| && socket.outgoing == old(socket.outgoing) + d[..Max(r, 0)]
      ensures if Up() then socket.log == old(socket.log) + [SslCall(|d|, r)]
              else r == -1 && socket.log == old(socket.log)
    {
      if !socket.connected || !socket.ready {
        return -1;
      }
      r := socket.SslWrite(d);
    }

    /** `read(void*, length)`. */
    method ReadBuffer(v: IoBuffer) returns (r: int32)
      requires v.off + v.len <= v.mem.Length
      modifies socket`incoming, socket`log, v.mem
      ensures r <= v.len && r <= |old(socket.incoming)|
      ensures socket.incoming == old(socket.incoming)[Max(r, 0)..]
      ensures v.mem[..] == Splice(old(v.mem[..]), v.off, old(socket.incoming)[..Max(r, 0)])
      ensures if Up() then socket.log == old(socket.log) + [SslCall(v.len, r)]
              else r == -1 && socket.log == old(socket.log)
    {
      if !socket.connected || !socket.ready {
        SpliceNothing(v.mem[..], v.off);
        return -1;
      }
      r := socket.SslRead(v);
    }

    /**
     * `writeFixSize(const void*, length)`: here a failing call moves nothing, so nothing is ever lost. A negative
     * chunk limit reaches the SSL call as a negative length, and fails there. The calls are those of the loop: each
     * asks for the rest up to the chunk limit, and a last one that failed gives the result.
     */
    method WriteFixBuffer(buf: array<byte>, length: nat, maxLen: int32)
        returns (r: int32, ghost cs: seq<nat>, ghost sent: nat)
      requires Asked(length) <= buf.Length && length < SIZES
      modifies socket`outgoing, socket`log
      ensures sent <= Asked(length) && Chunks(cs, Max(maxLen, 0), sent)
      ensures socket.outgoing == old(socket.outgoing) + buf[..sent]
      ensures Verdict(length, sent, r)
      ensures if Up() then socket.log == old(socket.log) + FlatLoop(Asked(length), Max(maxLen, 0), cs, r)
              else socket.log == old(socket.log) && (Asked(length) > 0 ==> r == -1 && cs == [])
    {
      hide Chunks, ToInt32, ToInt64, Verdict, Asked, Sum, FlatCalls;
      var offset: nat, left := 0, ToInt64(length);
      ghost var n, limit: nat := Asked(length), Max(maxLen, 0);
      cs, sent := [], 0;
      AskedIs(length);
      NoChunks(limit);
      SuccessVerdict(length);
      NoFlatCalls(n, limit);
      while left > 0
        invariant offset + Max(left, 0) == n && sent == offset
        invariant Chunks(cs, limit, offset) && Sum(cs) == offset
        invariant socket.outgoing == old(socket.outgoing) + buf[..offset]
        invariant if Up() then socket.log == old(socket.log) + FlatCalls(n, limit, cs)
                  else socket.log == old(socket.log) && cs == []
      {
        var chunk := Max(Min(left, maxLen), 0);
        ghost var all := buf[..];
        assert buf[offset..offset + chunk] == all[offset..offset + chunk];
        var len := WriteBuffer(buf[offset..offset + chunk]);
        if len <= 0 {
          FailureVerdict(length, offset, len);
          return len, cs, sent;
        }
        ChunksPush(cs, limit, offset, len);
        OneMoreFlat(n, limit, cs, len);
        FrontOfSlice(all, offset, chunk, len);
        JoinSlices(all, 0, offset, offset + len);
        assert buf[..offset] == all[0..offset] && buf[..offset + len] == all[0..offset + len];
        cs := cs + [len as nat];
        offset := offset + len;
        left := left - len;
        sent := offset;
      }
      r := ToInt32(length);
    }

    /**
     * `readFixSize(void*, length)`: fills the buffer from its front and leaves the rest of it alone; the calls are
     * those of the loop.
     */
    method ReadFixBuffer(buf: array<byte>, length: nat, maxLen: int32)
        returns (r: int32, ghost cs: seq<nat>, ghost got: nat)
      requires Asked(length) <= buf.Length && length < SIZES
      modifies socket`incoming, socket`log, buf
      ensures got <= Asked(length) && got <= |old(socket.incoming)| && Chunks(cs, Max(maxLen, 0), got)
      ensures socket.incoming == old(socket.incoming)[got..]
      ensures buf[..] == Splice(old(buf[..]), 0, old(socket.incoming)[..got])
      ensures Verdict(length, got, r)
      ensures if Up() then socket.log == old(socket.log) + FlatLoop(Asked(length), Max(maxLen, 0), cs, r)
              else socket.log == old(socket.log) && (Asked(length) > 0 ==> r == -1 && cs == [])
    {
      hide Chunks, ToInt32, ToInt64, Splice, Verdict, Asked, Sum, FlatCalls;
      var offset: nat, left := 0, ToInt64(length);
      ghost var n, limit: nat := Asked(length), Max(maxLen, 0);
      cs, got := [], 0;
      AskedIs(length);
      NoChunks(limit);
      SuccessVerdict(length);
      NoFlatCalls(n, limit);
      SpliceNothing(buf[..], 0);
      while left > 0
        invariant offset + Max(left, 0) == n && got == offset
        invariant Chunks(cs, limit, offset) && Sum(cs) == offset
        invariant offset <= |old(socket.incoming)| && socket.incoming == old(socket.incoming)[offset..]
        invariant buf[..] == Splice(old(buf[..]), 0, old(socket.incoming)[..offset])
        invariant if Up() then socket.log == old(socket.log) + FlatCalls(n, limit, cs)
                  else socket.log == old(socket.log) && cs == []
      {
        var len := ReadBuffer(IoBuffer(buf, offset, Max(Min(left, maxLen), 0)));
        SpliceNext(old(buf[..]), old(socket.incoming), offset, Max(len, 0));
        if len <= 0 {
          FailureVerdict(length, offset, len);
          return len, cs, got;
        }
        ChunksPush(cs, limit, offset, len);
        OneMoreFlat(n, limit, cs, len);
        cs := cs + [len as nat];
        offset := offset + len;
        left := left - len;
        got := offset;
      }
      r := ToInt32(length);
    }
  }

  lemma NothingToReceive(bufs: seq<IoBuffer>, n: nat)
    requires TotalLength(bufs) == n
    ensures bufs == [] ==> n == 0
  {
  }

  /** What the calls of a request tell about its result. */
  lemma AnsweredFacts(b: nat, p: nat, n: nat, r: int, moved: nat, calls: seq<SslCall>)
    requires b > 0 && MadeCalls(NodePieces(b, p, n), calls) && Report(calls) == Outcome(r, moved)
    ensures moved <= n && (r > 0 ==> r == moved)
    ensures r <= 0 && n > 0 ==> moved < n
    ensures r <= 0 && OneNode(b, p, n) ==> moved == 0
  {
    hide Transfer, NodePieces, MadeCalls, Report;
    var lens := NodePieces(b, p, n);
    MadeIsTransfer(lens, calls);
    TransferFacts(lens, AnswersOf(calls, |lens|), 0);
    PiecesSum(b, p, n);
    OnePieceIff(b, p, n);
  }

  lemma NoChunks(maxLen: nat)
    ensures Chunks([], maxLen, 0)
  {
  }

  lemma ReadMore(d: seq<byte>, p: nat, stream: seq<byte>, i: nat, n: nat)
    requires p <= |d| && i + n <= |stream|
    ensures Overwrite(Overwrite(d, p, stream[..i]), p + i, stream[i..][..n]) == Overwrite(d, p, stream[..i + n])
    ensures stream[i..][n..] == stream[i + n..]
  {
    OverwriteTwice(d, p, stream[..i], stream[i..][..n]);
    assert stream[..i] + stream[i..][..n] == stream[..i + n];
  }
}
