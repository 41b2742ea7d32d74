/** Message bytes: how the three message kinds are written, and what reading them back does. */
module Codec {
  import opened Bytes
  import opened ByteArrays

  datatype Message =
    | Request(sn: uint32, cmd: uint32)
    | Response(sn: uint32, cmd: uint32, result: uint32, resultStr: seq<byte>)
    | Notify(notify: uint32)

  const REQUEST: byte := 1
  const RESPONSE: byte := 2
  const NOTIFY: byte := 3

  // ---------------------------------------------------------------- encoding

  /** Byte `i` of a 32-bit value, least significant first. */
  function Digit(v: uint32, i: nat): (d: int)
    requires i < 4
    ensures 0 <= d < 0x100
  {
    (if i == 0 then v else if i == 1 then v / 0x100 else if i == 2 then v / 0x1_0000 else v / 0x100_0000) % 0x100
  }

  function ByteAt(v: uint32, i: nat): byte
    requires i < 4
  {
    Digit(v, i) as byte
  }

  /** The four bytes of `v` in memory order, reversed when the array's byte order is not the machine's. */
  function Word(v: uint32, swapped: bool): (w: seq<byte>)
    ensures |w| == 4
  {
    if swapped then [ByteAt(v, 3), ByteAt(v, 2), ByteAt(v, 1), ByteAt(v, 0)]
    else [ByteAt(v, 0), ByteAt(v, 1), ByteAt(v, 2), ByteAt(v, 3)]
  }

  function Assemble(b0: byte, b1: byte, b2: byte, b3: byte): uint32 {
    b0 as int + b1 as int * 0x100 + b2 as int * 0x1_0000 + b3 as int * 0x100_0000
  }

  function Unword(w: seq<byte>, swapped: bool): uint32
    requires |w| == 4
  {
    if swapped then Assemble(w[3], w[2], w[1], w[0]) else Assemble(w[0], w[1], w[2], w[3])
  }

  lemma DigitsMakeValue(v: uint32)
    ensures Digit(v, 0) + Digit(v, 1) * 0x100 + Digit(v, 2) * 0x1_0000 + Digit(v, 3) * 0x100_0000 == v
  {
  }

  lemma ByteIsDigit(v: uint32, i: nat)
    requires i < 4
    ensures ByteAt(v, i) as int == Digit(v, i)
  {
    hide Digit;
    ByteKeepsValue(Digit(v, i));
  }

  lemma AssembleSplit(v: uint32)
    ensures Assemble(ByteAt(v, 0), ByteAt(v, 1), ByteAt(v, 2), ByteAt(v, 3)) == v
  {
    hide Digit, ByteAt;
    DigitsMakeValue(v);
    ByteIsDigit(v, 0);
    ByteIsDigit(v, 1);
    ByteIsDigit(v, 2);
    ByteIsDigit(v, 3);
  }

  lemma WordRoundTrip(v: uint32, swapped: bool)
    ensures Unword(Word(v, swapped), swapped) == v
  {
    AssembleSplit(v);
  }

  /** `writeStringF32`: the size truncated to 32 bits, then the bytes. */
  function TextBytes(s: seq<byte>, swapped: bool): (t: seq<byte>)
    ensures |t| == 4 + |s|
  {
    Word(|s| % 0x1_0000_0000, swapped) + s
  }

  function TypeByte(m: Message): byte {
    match m
    case Request(_, _) => REQUEST
    case Response(_, _, _, _) => RESPONSE
    case Notify(_) => NOTIFY
  }

  function Body(m: Message, swapped: bool): seq<byte> {
    match m
    case Request(sn, cmd) => Word(sn, swapped) + Word(cmd, swapped)
    case Response(sn, cmd, result, text) =>
      Word(sn, swapped) + Word(cmd, swapped) + Word(result, swapped) + TextBytes(text, swapped)
    case Notify(n) => Word(n, swapped)
  }

  function Encode(m: Message, swapped: bool): (e: seq<byte>)
    ensures |e| > 0
  {
    [TypeByte(m)] + Body(m, swapped)
  }

  function EncodeAll(ms: seq<Message>, swapped: bool): seq<byte> {
    if ms == [] then [] else Encode(ms[0], swapped) + EncodeAll(ms[1..], swapped)
  }

  // ---------------------------------------------------------------- decoding

  /** What a byte array means to a reader: its data, and the capacity at which the cursor falls off. */
  datatype View = View(data: seq<byte>, cap: nat, swapped: bool)

  datatype Got<T> = Got(value: T, st: ReadStatus, next: nat)

  function Take(v: View, pos: nat, n: nat): (g: Got<seq<byte>>)
    requires pos <= |v.data|
    ensures g.st.Done? ==> pos + n <= |v.data| && g.next == pos + n && |g.value| == n
    ensures !g.st.Done? ==> g.next == pos
  {
    if n > |v.data| - pos then Got([], OutOfRange, pos)
    else if n == 0 && pos == v.cap then Got([], NullCursor, pos)
    else Got(v.data[pos..pos + n], Done, pos + n)
  }

  function TakeWord(v: View, pos: nat): (g: Got<uint32>)
    requires pos <= |v.data|
    ensures pos <= g.next <= |v.data|
  {
    var g := Take(v, pos, 4);
    Got(if g.st.Done? then Unword(g.value, v.swapped) else 0, g.st, g.next)
  }

  /** `readStringF32`: when the text is missing, its length field has been consumed all the same. */
  function TakeText(v: View, pos: nat): (g: Got<seq<byte>>)
    requires pos <= |v.data|
    ensures pos <= g.next <= |v.data|
  {
    var len := TakeWord(v, pos);
    if len.st.Done? then Take(v, len.next, len.value) else Got([], len.st, len.next)
  }

  /** `parseFromByteArray`: fields are assigned one by one, so a failed parse keeps those already read. */
  function Parse(m: Message, v: View, pos: nat): (g: Got<Message>)
    requires pos <= |v.data|
    ensures pos <= g.next <= |v.data|
  {
    match m
    case Request(_, cmd0) =>
      var a := TakeWord(v, pos);
      if !a.st.Done? then Got(m, a.st, a.next)
      else
        var b := TakeWord(v, a.next);
        if !b.st.Done? then Got(Request(a.value, cmd0), b.st, b.next)
        else Got(Request(a.value, b.value), Done, b.next)
    case Response(_, cmd0, result0, text0) =>
      var a := TakeWord(v, pos);
      if !a.st.Done? then Got(m, a.st, a.next)
      else
        var b := TakeWord(v, a.next);
        if !b.st.Done? then Got(Response(a.value, cmd0, result0, text0), b.st, b.next)
        else
          var c := TakeWord(v, b.next);
          if !c.st.Done? then Got(Response(a.value, b.value, result0, text0), c.st, c.next)
          else
            var d := TakeText(v, c.next);
            if !d.st.Done? then Got(Response(a.value, b.value, c.value, text0), d.st, d.next)
            else Got(Response(a.value, b.value, c.value, d.value), Done, d.next)
    case Notify(_) =>
      var a := TakeWord(v, pos);
      if !a.st.Done? then Got(m, a.st, a.next) else Got(Notify(a.value), Done, a.next)
  }

  /** A freshly constructed message of the kind a type byte names. */
  function Fresh(kind: byte): Option<Message> {
    if kind == REQUEST then Some(Request(0, 0))
    else if kind == RESPONSE then Some(Response(0, 0, 404, UNHANDLED))
    else if kind == NOTIFY then Some(Notify(0))
    else None
  }

  const UNHANDLED: seq<byte> := [117, 110, 104, 97, 110, 100, 108, 101]

  /** Reads the type byte and lets that kind parse the rest. */
  function Decode(v: View, pos: nat): (g: Got<Option<Message>>)
    requires pos <= |v.data|
    ensures pos <= g.next <= |v.data|
    ensures g.st.Done? && g.value.Some? ==> pos < g.next
  {
    var kind := Take(v, pos, 1);
    if !kind.st.Done? then Got(None, kind.st, kind.next)
    else
      match Fresh(kind.value[0])
      case None => Got(None, Done, kind.next)
      case Some(m) =>
        var g := Parse(m, v, kind.next);
        Got(if g.st.Done? then Some(g.value) else None, g.st, g.next)
  }

  datatype Decoded = Decoded(messages: seq<Message>, complete: bool)

  /** Decodes message after message until the data is used up or one cannot be read. */
  function DecodeAll(v: View, pos: nat): Decoded
    requires pos <= |v.data|
    decreases |v.data| - pos
  {
    if pos == |v.data| then Decoded([], true)
    else
      var g := Decode(v, pos);
      if !g.st.Done? || g.value.None? then Decoded([], false)
      else
        var rest := DecodeAll(v, g.next);
        Decoded([g.value.value] + rest.messages, rest.complete)
  }

  // ---------------------------------------------------------------- theorems

  /** The message's text length survives the 32-bit length field. */
  predicate Fits(m: Message) {
    m.Response? ==> |m.resultStr| < 0x1_0000_0000
  }

  predicate EndsInEmptyText(m: Message) {
    m.Response? && m.resultStr == []
  }

  ghost predicate HasAt(v: View, pos: nat, s: seq<byte>) {
    pos + |s| <= |v.data| && v.data[pos..pos + |s|] == s
  }

  lemma HasSplit(v: View, pos: nat, s: seq<byte>, t: seq<byte>)
    requires HasAt(v, pos, s + t)
    ensures HasAt(v, pos, s) && HasAt(v, pos + |s|, t)
  {
    var w := v.data[pos..pos + |s + t|];
    assert v.data[pos..pos + |s|] == w[..|s|];
    assert v.data[pos + |s|..pos + |s| + |t|] == w[|s|..];
  }

  lemma TakesWord(v: View, pos: nat, w: uint32)
    requires HasAt(v, pos, Word(w, v.swapped))
    ensures TakeWord(v, pos) == Got(w, Done, pos + 4)
  {
    WordRoundTrip(w, v.swapped);
  }

  /** Reading a text back: exact unless it was too long for its length field, or is empty at the capacity limit. */
  lemma TakesText(v: View, pos: nat, s: seq<byte>)
    requires HasAt(v, pos, TextBytes(s, v.swapped))
    ensures TakeText(v, pos) ==
              if s == [] && pos + 4 == v.cap then Got([], NullCursor, pos + 4)
              else if |s| < 0x1_0000_0000 then Got(s, Done, pos + 4 + |s|)
              else Take(v, pos + 4, |s| % 0x1_0000_0000)
  {
    hide Word, TakeWord;
    var len := |s| % 0x1_0000_0000;
    HasSplit(v, pos, Word(len, v.swapped), s);
    TakesWord(v, pos, len);
    if |s| < 0x1_0000_0000 {
      assert len == |s|;
    }
  }

  /** Reading a message that ends at `end` gives it back: its text fits, and is not empty at the capacity limit. */
  predicate ReadsBack(m: Message, end: nat, cap: nat) {
    Fits(m) && !(EndsInEmptyText(m) && end == cap)
  }

  /**
   * Round trip of one message wherever it stands in the data and whatever follows it: parsing gives
   * the message back if and only if `ReadsBack`, and then consumes exactly the message's own bytes.
   */
  lemma ParseRoundTrip(m0: Message, m: Message, v: View, pos: nat)
    requires TypeByte(m0) == TypeByte(m)
    requires HasAt(v, pos, Body(m, v.swapped))
    ensures var g, end := Parse(m0, v, pos), pos + |Body(m, v.swapped)|;
            && (g.st.Done? && g.value == m <==> ReadsBack(m, end, v.cap))
            && (ReadsBack(m, end, v.cap) ==> g.next == end)
            && (EndsInEmptyText(m) && end == v.cap ==> g.st == NullCursor)
  {
    hide Word, TakeWord, TakeText, HasAt;
    match m
    case Request(sn, cmd) =>
      HasSplit(v, pos, Word(sn, v.swapped), Word(cmd, v.swapped));
      TakesWord(v, pos, sn);
      TakesWord(v, pos + 4, cmd);
    case Notify(n) =>
      TakesWord(v, pos, n);
    case Response(sn, cmd, result, text) =>
      var a, b, c, d := Word(sn, v.swapped), Word(cmd, v.swapped), Word(result, v.swapped), TextBytes(text, v.swapped);
      HasSplit(v, pos, a + b + c, d);
      HasSplit(v, pos, a + b, c);
      HasSplit(v, pos, a, b);
      TakesWord(v, pos, sn);
      TakesWord(v, pos + 4, cmd);
      TakesWord(v, pos + 8, result);
      TakesText(v, pos + 12, text);
      assert |d| == 4 + |text|;
  }

  lemma DecodeRoundTrip(m: Message, v: View, pos: nat)
    requires HasAt(v, pos, Encode(m, v.swapped))
    ensures var g, end := Decode(v, pos), pos + |Encode(m, v.swapped)|;
            && (g.st.Done? && g.value == Some(m) <==> ReadsBack(m, end, v.cap))
            && (ReadsBack(m, end, v.cap) ==> g.next == end)
  {
    HasSplit(v, pos, [TypeByte(m)], Body(m, v.swapped));
    var m0 := Fresh(TypeByte(m)).value;
    ParseRoundTrip(m0, m, v, pos + 1);
    assert v.data[pos..pos + 1] == [TypeByte(m)];
  }

  /** No encoding is a prefix of another's: whatever follows, equal byte strings start with equal messages. */
  lemma EncodingIsPrefixFree(a: Message, x: seq<byte>, b: Message, y: seq<byte>, swapped: bool)
    requires Fits(a) && Fits(b)
    requires Encode(a, swapped) + x == Encode(b, swapped) + y
    ensures a == b && x == y
  {
    var data := Encode(a, swapped) + x;
    var v := View(data, |data| + 1, swapped);
    assert data[0..0 + |Encode(a, swapped)|] == Encode(a, swapped);
    assert data[0..0 + |Encode(b, swapped)|] == Encode(b, swapped) by {
      assert (Encode(b, swapped) + y)[0..0 + |Encode(b, swapped)|] == Encode(b, swapped);
    }
    DecodeRoundTrip(a, v, 0);
    DecodeRoundTrip(b, v, 0);
    assert x == data[|Encode(a, swapped)|..];
    assert y == (Encode(b, swapped) + y)[|Encode(b, swapped)|..];
  }

  ghost predicate AllFit(ms: seq<Message>) {
    forall i :: 0 <= i < |ms| ==> Fits(ms[i])
  }

  /**
   * A whole list of messages decodes to itself if and only if every text fits its length field and
   * the list does not end in an empty text exactly at the array's capacity.
   */
  lemma {:induction false} DecodeAllRoundTrip(ms: seq<Message>, v: View, pos: nat)
    requires pos <= |v.data| <= v.cap
    requires v.data[pos..] == EncodeAll(ms, v.swapped)
    ensures DecodeAll(v, pos) == Decoded(ms, true) <==>
            AllFit(ms) && !(ms != [] && EndsInEmptyText(ms[|ms| - 1]) && |v.data| == v.cap)
    decreases |ms|
  {
    hide Encode, Decode, Parse;
    if ms == [] {
      assert pos == |v.data|;
    } else {
      var e, t := Encode(ms[0], v.swapped), EncodeAll(ms[1..], v.swapped);
      assert v.data[pos..] == e + t;
      assert v.data[pos..pos + |e|] == v.data[pos..][..|e|];
      assert v.data[pos + |e|..] == v.data[pos..][|e|..] == t;
      DecodeRoundTrip(ms[0], v, pos);
      DecodeAllRoundTrip(ms[1..], v, pos + |e|);
      assert [ms[0]] + ms[1..] == ms;
      assert AllFit(ms) <==> Fits(ms[0]) && AllFit(ms[1..]);
      if |ms| > 1 {
        assert t == Encode(ms[1], v.swapped) + EncodeAll(ms[2..], v.swapped) by {
          assert ms[1..][1..] == ms[2..];
        }
        assert ms[1..][|ms| - 2] == ms[|ms| - 1];
      }
      if DecodeAll(v, pos) == Decoded(ms, true) {
        assert Decode(v, pos).value.value == DecodeAll(v, pos).messages[0];
        assert DecodeAll(v, pos).messages[1..] == DecodeAll(v, pos + |e|).messages;
      }
    }
  }

  // -------------------------------------------------------------- wire layout

  /** The 32-bit number that four bytes stand for: the first is the least significant one, or the last when swapped. */
  function FieldAt(data: seq<byte>, at: nat, swapped: bool): int
    requires at + 4 <= |data|
  {
    if swapped then
      data[at + 3] as int + 256 * data[at + 2] as int + 65536 * data[at + 1] as int + 16777216 * data[at] as int
    else
      data[at] as int + 256 * data[at + 1] as int + 65536 * data[at + 2] as int + 16777216 * data[at + 3] as int
  }

  lemma UnwordIsField(data: seq<byte>, at: nat, swapped: bool)
    requires at + 4 <= |data|
    ensures Unword(data[at..at + 4], swapped) == FieldAt(data, at, swapped)
  {
  }

  lemma WordIsField(data: seq<byte>, at: nat, v: uint32, swapped: bool)
    requires at + 4 <= |data| && data[at..at + 4] == Word(v, swapped)
    ensures FieldAt(data, at, swapped) == v
  {
    hide Unword, FieldAt, Word;
    UnwordIsField(data, at, swapped);
    WordRoundTrip(v, swapped);
  }

  lemma PartOf(data: seq<byte>, at: nat, s: seq<byte>, i: nat, n: nat)
    requires at + |s| <= |data| && data[at..at + |s|] == s && i + n <= |s|
    ensures data[at + i..at + i + n] == s[i..i + n]
  {
    var part := data[at + i..at + i + n];
    forall k | 0 <= k < n
      ensures part[k] == s[i..i + n][k]
    {
      assert part[k] == data[at..at + |s|][i + k];
    }
  }

  /** A request is the byte 1, its sequence number and its command. */
  lemma RequestLayout(data: seq<byte>, at: nat, sn: uint32, cmd: uint32, swapped: bool)
    requires var e := Encode(Request(sn, cmd), swapped); at + |e| <= |data| && data[at..at + |e|] == e
    ensures |Encode(Request(sn, cmd), swapped)| == 9 && data[at] == 1
    ensures FieldAt(data, at + 1, swapped) == sn && FieldAt(data, at + 5, swapped) == cmd
  {
    hide Word, FieldAt;
    var e := Encode(Request(sn, cmd), swapped);
    PartOf(data, at, e, 1, 4);
    PartOf(data, at, e, 5, 4);
    assert e[1..5] == Word(sn, swapped) && e[5..9] == Word(cmd, swapped);
    WordIsField(data, at + 1, sn, swapped);
    WordIsField(data, at + 5, cmd, swapped);
    assert data[at] == data[at..at + |e|][0];
  }

  /** A notification is the byte 3 and its number. */
  lemma NotifyLayout(data: seq<byte>, at: nat, n: uint32, swapped: bool)
    requires var e := Encode(Notify(n), swapped); at + |e| <= |data| && data[at..at + |e|] == e
    ensures |Encode(Notify(n), swapped)| == 5 && data[at] == 3 && FieldAt(data, at + 1, swapped) == n
  {
    hide Word, FieldAt;
    var e := Encode(Notify(n), swapped);
    PartOf(data, at, e, 1, 4);
    assert e[1..5] == Word(n, swapped);
    WordIsField(data, at + 1, n, swapped);
    assert data[at] == data[at..at + |e|][0];
  }

  /** A response is the byte 2, three numbers, the length of its text, and the text. */
  lemma ResponseLayout(data: seq<byte>, at: nat, m: Message, swapped: bool)
    requires m.Response?
    requires var e := Encode(m, swapped); at + |e| <= |data| && data[at..at + |e|] == e
    ensures |Encode(m, swapped)| == 17 + |m.resultStr| && data[at] == 2
    ensures FieldAt(data, at + 1, swapped) == m.sn && FieldAt(data, at + 5, swapped) == m.cmd
    ensures FieldAt(data, at + 9, swapped) == m.result
    ensures FieldAt(data, at + 13, swapped) == |m.resultStr| % 0x1_0000_0000
    ensures data[at + 17..at + 17 + |m.resultStr|] == m.resultStr
  {
    hide Word, FieldAt;
    var e, text := Encode(m, swapped), m.resultStr;
    var size := |text| % 0x1_0000_0000;
    PartOf(data, at, e, 1, 4);
    PartOf(data, at, e, 5, 4);
    PartOf(data, at, e, 9, 4);
    PartOf(data, at, e, 13, 4);
    PartOf(data, at, e, 17, |text|);
    ResponseParts(m, swapped);
    WordIsField(data, at + 1, m.sn, swapped);
    WordIsField(data, at + 5, m.cmd, swapped);
    WordIsField(data, at + 9, m.result, swapped);
    WordIsField(data, at + 13, size, swapped);
    assert data[at] == data[at..at + |e|][0];
  }

  lemma ResponseJoined(m: Message, swapped: bool)
    requires m.Response?
    ensures [RESPONSE] + Word(m.sn, swapped) + Word(m.cmd, swapped) + Word(m.result, swapped)
            + TextBytes(m.resultStr, swapped) == Encode(m, swapped)
  {
  }

  lemma ResponseParts(m: Message, swapped: bool)
    requires m.Response?
    ensures var e := Encode(m, swapped);
            && |e| == 17 + |m.resultStr| && e[0] == 2
            && e[1..5] == Word(m.sn, swapped) && e[5..9] == Word(m.cmd, swapped) && e[9..13] == Word(m.result, swapped)
            && e[13..17] == Word(|m.resultStr| % 0x1_0000_0000, swapped)
            && e[17..17 + |m.resultStr|] == m.resultStr
  {
    hide Word;
  }

  /** Reading a number takes the next four bytes for it, if there are four. */
  lemma TakeWordIsField(v: View, pos: nat)
    requires pos <= |v.data|
    ensures pos + 4 <= |v.data| ==> TakeWord(v, pos) == Got(FieldAt(v.data, pos, v.swapped), Done, pos + 4)
    ensures pos + 4 > |v.data| ==> TakeWord(v, pos) == Got(0, OutOfRange, pos)
  {
    hide FieldAt, Unword;
    if pos + 4 <= |v.data| {
      UnwordIsField(v.data, pos, v.swapped);
    }
  }

  /** What parsing a request assigns: each field whose bytes are there, in the order of the layout. */
  lemma RequestFields(sn0: uint32, cmd0: uint32, v: View, pos: nat)
    requires pos <= |v.data|
    ensures var g := Parse(Request(sn0, cmd0), v, pos);
            && g.value.Request?
            && g.value.sn == (if pos + 4 <= |v.data| then FieldAt(v.data, pos, v.swapped) else sn0)
            && g.value.cmd == (if pos + 8 <= |v.data| then FieldAt(v.data, pos + 4, v.swapped) else cmd0)
            && (g.st.Done? <==> pos + 8 <= |v.data|) && (g.st.Done? ==> g.next == pos + 8)
  {
    hide FieldAt, TakeWord;
    TakeWordIsField(v, pos);
    if pos + 4 <= |v.data| {
      TakeWordIsField(v, pos + 4);
    }
  }

  lemma NotifyFields(n0: uint32, v: View, pos: nat)
    requires pos <= |v.data|
    ensures var g := Parse(Notify(n0), v, pos);
            && g.value.Notify?
            && g.value.notify == (if pos + 4 <= |v.data| then FieldAt(v.data, pos, v.swapped) else n0)
            && (g.st.Done? <==> pos + 4 <= |v.data|) && (g.st.Done? ==> g.next == pos + 4)
  {
    hide FieldAt, TakeWord;
    TakeWordIsField(v, pos);
  }

  /** The text of a response is there: its length field, that many bytes, and a node for the cursor to stand in. */
  predicate TextThere(v: View, pos: nat) {
    && pos + 16 <= |v.data|
    && var len := FieldAt(v.data, pos + 12, v.swapped);
       0 <= len <= |v.data| - pos - 16 && !(len == 0 && pos + 16 == v.cap)
  }

  lemma ResponseFields(m0: Message, v: View, pos: nat)
    requires m0.Response? && pos <= |v.data|
    ensures var g := Parse(m0, v, pos);
            && g.value.Response?
            && g.value.sn == (if pos + 4 <= |v.data| then FieldAt(v.data, pos, v.swapped) else m0.sn)
            && g.value.cmd == (if pos + 8 <= |v.data| then FieldAt(v.data, pos + 4, v.swapped) else m0.cmd)
            && g.value.result == (if pos + 12 <= |v.data| then FieldAt(v.data, pos + 8, v.swapped) else m0.result)
            && (g.st.Done? <==> TextThere(v, pos))
            && (if TextThere(v, pos) then
                  var len := FieldAt(v.data, pos + 12, v.swapped);
                  g.value.resultStr == v.data[pos + 16..pos + 16 + len] && g.next == pos + 16 + len
                else g.value.resultStr == m0.resultStr)
  {
    hide FieldAt, TakeWord;
    TakeWordIsField(v, pos);
    if pos + 4 <= |v.data| {
      TakeWordIsField(v, pos + 4);
      if pos + 8 <= |v.data| {
        TakeWordIsField(v, pos + 8);
        if pos + 12 <= |v.data| {
          TakeWordIsField(v, pos + 12);
        }
      }
    }
  }
}
