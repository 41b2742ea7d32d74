/** Whole deliveries in code: messages into an array, the array onto the wire, off the wire, and back to messages. */
module Deliveries {
  import opened Bytes
  import opened Blocks
  import opened ByteArrays
  import opened Codec
  import opened Messages
  import opened Streams
  import opened Vectored
  import opened EndToEnd

  /** Builds the message object and lets it write itself. */
  method SerializeOne(m: Message, ba: ByteArray)
    requires ba.Valid()
    modifies ba, ba.links, ba.mems
    ensures ba.Valid() && ba.Extends()
    ensures ba.Data() == Overwrite(old(ba.Data()), old(ba.position), Encode(m, ba.swapped))
    ensures ba.position == old(ba.position) + |Encode(m, ba.swapped)|
  {
    hide Encode, Overwrite, ByteArray.Data, ByteArray.Chain, ByteArray.Cursor, FieldAt;
    match m
    case Request(sn, cmd) =>
      var request := new RequestMessage();
      request.sn, request.cmd := sn, cmd;
      var _ := request.SerializeToByteArray(ba);
    case Response(sn, cmd, result, text) =>
      var response := new ResponseMessage();
      response.sn, response.cmd, response.result, response.resultStr := sn, cmd, result, text;
      var _ := response.SerializeToByteArray(ba);
    case Notify(n) =>
      var notify := new NotifyMessage();
      notify.notify := n;
      var _ := notify.SerializeToByteArray(ba);
  }

  /** `toByteArray`: a new array that holds the message's bytes. */
  method ToByteArray(m: Message, base: nat) returns (ba: ByteArray)
    requires base > 0
    ensures ba.Valid() && fresh(ba) && fresh(ba.links) && fresh(ba.mems)
    ensures !ba.swapped && ba.Data() == Encode(m, false) && ba.position == ba.size
  {
    hide Encode, ByteArray.Chain;
    ba := new ByteArray(base);
    SerializeOne(m, ba);
  }

  lemma EncodeOneMore(ms: seq<Message>, i: nat, swapped: bool)
    requires i < |ms|
    ensures EncodeAll(ms[..i + 1], swapped) == EncodeAll(ms[..i], swapped) + Encode(ms[i], swapped)
  {
    assert ms[..i + 1] == ms[..i] + [ms[i]];
    EncodeJoin(ms[..i], [ms[i]], swapped);
    assert [ms[i]][1..] == [];
  }

  lemma {:induction false} EncodeJoin(a: seq<Message>, b: seq<Message>, swapped: bool)
    ensures EncodeAll(a + b, swapped) == EncodeAll(a, swapped) + EncodeAll(b, swapped)
  {
    hide Encode;
    if a == [] {
      assert a + b == b;
    } else {
      assert (a + b)[1..] == a[1..] + b;
      EncodeJoin(a[1..], b, swapped);
    }
  }

  /** Writes the messages one after another at the cursor. */
  method SerializeAll(ms: seq<Message>, ba: ByteArray)
    requires ba.Valid()
    modifies ba, ba.links, ba.mems
    ensures ba.Valid() && ba.Extends()
    ensures ba.Data() == Overwrite(old(ba.Data()), old(ba.position), EncodeAll(ms, ba.swapped))
    ensures ba.position == old(ba.position) + |EncodeAll(ms, ba.swapped)|
  {
    hide Encode, EncodeAll, Overwrite, ByteArray.Data, ByteArray.Chain;
    EncodeNone(ms, ba.swapped);
    OverwriteNothing(ba.Data(), ba.position);
    for i := 0 to |ms|
      invariant ba.Valid() && ba.Extends()
      invariant ba.Data() == Overwrite(old(ba.Data()), old(ba.position), EncodeAll(ms[..i], ba.swapped))
      invariant ba.position == old(ba.position) + |EncodeAll(ms[..i], ba.swapped)|
    {
      EncodeOneMore(ms, i, ba.swapped);
      OverwriteTwice(old(ba.Data()), old(ba.position), EncodeAll(ms[..i], ba.swapped), Encode(ms[i], ba.swapped));
      SerializeOne(ms[i], ba);
    }
    assert ms[..|ms|] == ms;
  }

  lemma EncodeNone(ms: seq<Message>, swapped: bool)
    ensures EncodeAll(ms[..0], swapped) == []
  {
  }

  /** Reads the type byte, builds that kind of message and lets it parse the rest. */
  method DecodeOne(ba: ByteArray) returns (st: ReadStatus, m: Option<Message>)
    requires ba.Valid()
    modifies ba`position, ba`cur, ba`at
    ensures ba.Valid() && ViewOf(ba) == old(ViewOf(ba))
    ensures Got(m, st, ba.position) == Decode(ViewOf(ba), old(ba.position))
  {
    hide Parse, ByteArray.Data, ByteArray.Chain, ByteArray.Cursor, FieldAt, TextThere;
    m := None;
    var kind;
    st, kind := ba.Read(1);
    if !st.Done? {
      return;
    }
    if kind[0] == REQUEST {
      var request := new RequestMessage();
      st := request.ParseFromByteArray(ba);
      m := if st.Done? then Some(request.Value()) else None;
    } else if kind[0] == RESPONSE {
      var response := new ResponseMessage();
      st := response.ParseFromByteArray(ba);
      m := if st.Done? then Some(response.Value()) else None;
    } else if kind[0] == NOTIFY {
      var notify := new NotifyMessage();
      st := notify.ParseFromByteArray(ba);
      m := if st.Done? then Some(notify.Value()) else None;
    }
  }

  /** Decodes until the data is used up or a message cannot be read. */
  method DecodeRest(ba: ByteArray) returns (d: Decoded)
    requires ba.Valid()
    modifies ba`position, ba`cur, ba`at
    ensures ba.Valid() && ViewOf(ba) == old(ViewOf(ba))
    ensures d == DecodeAll(ViewOf(ba), old(ba.position))
  {
    hide Decode, ByteArray.Data, ByteArray.Chain;
    ghost var v := ViewOf(ba);
    ghost var all := DecodeAll(v, ba.position);
    var messages: seq<Message> := [];
    while ba.position != ba.size
      invariant ba.Valid() && ViewOf(ba) == v
      invariant all == Decoded(messages + DecodeAll(v, ba.position).messages, DecodeAll(v, ba.position).complete)
      decreases ba.size - ba.position
    {
      var st, m := DecodeOne(ba);
      if !st.Done? || m.None? {
        return Decoded(messages, false);
      }
      messages := messages + [m.value];
    }
    d := Decoded(messages, true);
  }

  /** A rewound array that holds the messages' bytes. */
  method SerializeFresh(ms: seq<Message>, base: nat) returns (ba: ByteArray)
    requires base > 0
    ensures fresh(ba) && fresh(ba.links) && fresh(ba.mems) && ba.Valid()
    ensures ba.Data() == EncodeAll(ms, false) && ba.position == 0 && ba.size == |EncodeAll(ms, false)|
  {
    hide EncodeAll, ByteArray.Chain, ByteArray.Cursor;
    ba := new ByteArray(base);
    SerializeAll(ms, ba);
    assert ba.Data() == EncodeAll(ms, false);
    var ok := ba.SetPosition(0);
  }

  /** Serializes the messages and writes them to the connection: all of them on success, a proper prefix on failure. */
  method SendMessages(stream: SocketStream, ms: seq<Message>, base: nat, maxLen: nat)
      returns (r: int32, ghost sent: nat)
    requires base > 0 && maxLen <= Transport.MAX_INT32
    requires |EncodeAll(ms, false)| < SIZES
    modifies stream.socket`outgoing, stream.socket`log
    ensures sent <= |EncodeAll(ms, false)|
    ensures stream.socket.outgoing == old(stream.socket.outgoing) + EncodeAll(ms, false)[..sent]
    ensures old(stream.socket.log) <= stream.socket.log
    ensures stream.Up() && maxLen > 0 && sent < |EncodeAll(ms, false)| < COUNTS ==>
      EndsWith(stream.socket.log[|old(stream.socket.log)|..], r)
    ensures |EncodeAll(ms, false)| < COUNTS ==> if sent == |EncodeAll(ms, false)| then r == ToInt32(sent) else r <= 0
  {
    hide EncodeAll, ByteArray.Chain, ByteArray.Cursor, ByteArray.Data, Chunks, Asked, ToInt64, LostAcrossNodes,
         EndsWith, AllCalls, Told;
    var ba := SerializeFresh(ms, base);
    var n := ba.size;
    ghost var cs, lost, rounds;
    AskedIs(n);
    r, cs, lost, rounds := stream.WriteFixArray(ba, n, maxLen);
    sent := ba.position + lost;
    assert ba.Data()[0..sent] == EncodeAll(ms, false)[..sent];
  }

  /** Reads `length` bytes into a fresh array and rewinds it. */
  method ReceiveArray(stream: SocketStream, length: nat, base: nat, maxLen: nat) returns (r: int32, ba: ByteArray)
    requires base > 0 && maxLen <= Transport.MAX_INT32 && length < SIZES
    modifies stream.socket`incoming, stream.socket`log
    ensures fresh(ba) && fresh(ba.links) && fresh(ba.mems) && ba.Valid()
    ensures old(stream.socket.log) <= stream.socket.log
    ensures stream.Up() && maxLen > 0 && 0 < length <= Transport.MAX_INT32 ==>
      r == length || EndsWith(stream.socket.log[|old(stream.socket.log)|..], r)
    ensures r > 0 && length < COUNTS ==>
      && length <= |old(stream.socket.incoming)| && ba.position == 0
      && ViewOf(ba) == Received(old(stream.socket.incoming)[..length], base, false)
  {
    hide ByteArray.Chain, Chunks, Grown, Asked, ToInt64, LostAcrossNodes, EndsWith, AllCalls, Told;
    ba := new ByteArray(base);
    ghost var cs, lost, rounds;
    r, cs, lost, rounds := stream.ReadFixArray(ba, length, maxLen);
    AskedIs(length);
    if r > 0 {
      if length < COUNTS {
        assert ba.position == length;
        assert ba.Data() == old(stream.socket.incoming)[..length];
      }
      var ok := ba.SetPosition(0);
    }
  }

  /**
   * Delivery: when what arrives is what the peer serialized, a successful read decodes to exactly those messages,
   * unless a text was too long for its length field or the last one is empty and fills the last block.
   */
  method ReceiveMessages(stream: SocketStream, ghost sent: seq<Message>, length: nat, base: nat, maxLen: nat)
      returns (r: int32, d: Decoded)
    requires base > 0 && maxLen <= Transport.MAX_INT32 && length < SIZES
    requires length == |EncodeAll(sent, false)| <= |stream.socket.incoming|
    requires stream.socket.incoming[..length] == EncodeAll(sent, false)
    modifies stream.socket`incoming, stream.socket`log
    ensures old(stream.socket.log) <= stream.socket.log
    ensures stream.Up() && maxLen > 0 && 0 < length <= Transport.MAX_INT32 ==>
      r == length || EndsWith(stream.socket.log[|old(stream.socket.log)|..], r)
    ensures r > 0 && length < COUNTS ==> (d == Decoded(sent, true) <==>
      AllFit(sent) && !(sent != [] && EndsInEmptyText(sent[|sent| - 1]) && length == Grown(base, length, base)))
  {
    hide EncodeAll, DecodeAll, ByteArray.Chain, ByteArray.Data, Grown, EndsWith;
    var ba;
    r, ba := ReceiveArray(stream, length, base, maxLen);
    d := Decoded([], false);
    if r > 0 {
      if length < COUNTS {
        ghost var bytes := EncodeAll(sent, false);
        assert bytes[0..] == bytes;
        DecodeAllRoundTrip(sent, Received(bytes, base, false), 0);
      }
      d := DecodeRest(ba);
    }
  }
}
