/** The message objects and their byte-array reads and writes, tied to the codec. */
module Messages {
  import opened Bytes
  import opened ByteArrays
  import opened Codec

  ghost function ViewOf(ba: ByteArray): View
    reads ba, ba.links, ba.mems
    requires ba.Valid()
  {
    View(ba.Data(), ba.capacity, ba.swapped)
  }

  /** `writeFuint32`. */
  method WriteWord(ba: ByteArray, v: uint32)
    requires ba.Valid()
    modifies ba, ba.links, ba.mems
    ensures ba.Valid() && ba.Extends() && ba.position == old(ba.position) + 4
    ensures ba.Data() == Overwrite(old(ba.Data()), old(ba.position), Word(v, ba.swapped))
  {
    hide *;
    ba.Write(Word(v, ba.swapped));
  }

  /** `writeStringF32`. */
  method WriteText(ba: ByteArray, s: seq<byte>)
    requires ba.Valid()
    modifies ba, ba.links, ba.mems
    ensures ba.Valid() && ba.Extends() && ba.position == old(ba.position) + 4 + |s|
    ensures ba.Data() == Overwrite(old(ba.Data()), old(ba.position), TextBytes(s, ba.swapped))
  {
    hide Word, ByteArray.Data, ByteArray.Chain, Overwrite;
    WriteWord(ba, |s| % 0x1_0000_0000);
    ba.Write(s);
    OverwriteTwice(old(ba.Data()), old(ba.position), Word(|s| % 0x1_0000_0000, ba.swapped), s);
  }

  /** `readFuint32`. */
  method ReadWord(ba: ByteArray) returns (st: ReadStatus, v: uint32)
    requires ba.Valid()
    modifies ba`position, ba`cur, ba`at
    ensures ba.Valid() && ViewOf(ba) == old(ViewOf(ba))
    ensures Got(v, st, ba.position) == TakeWord(ViewOf(ba), old(ba.position))
  {
    hide Word, Unword, ByteArray.Data, ByteArray.Chain;
    var w;
    st, w := ba.Read(4);
    v := if st.Done? then Unword(w, ba.swapped) else 0;
  }

  /** `readStringF32`. */
  method ReadText(ba: ByteArray) returns (st: ReadStatus, s: seq<byte>)
    requires ba.Valid()
    modifies ba`position, ba`cur, ba`at
    ensures ba.Valid() && ViewOf(ba) == old(ViewOf(ba))
    ensures Got(s, st, ba.position) == TakeText(ViewOf(ba), old(ba.position))
  {
    hide TakeWord, ByteArray.Data, ByteArray.Chain;
    var len;
    st, len := ReadWord(ba);
    if !st.Done? {
      return st, [];
    }
    st, s := ba.Read(len);
  }

  class RequestMessage {
    var sn: uint32
    var cmd: uint32

    function Value(): Message
      reads this
    {
      Request(sn, cmd)
    }

    constructor ()
      ensures Value() == Request(0, 0)
    {
      sn, cmd := 0, 0;
    }

    method SerializeToByteArray(ba: ByteArray) returns (ok: bool)
      requires ba.Valid()
      modifies ba, ba.links, ba.mems
      ensures ok && ba.Valid() && ba.Extends()
      ensures ba.Data() == Overwrite(old(ba.Data()), old(ba.position), Encode(Value(), ba.swapped))
      ensures ba.position == old(ba.position) + |Encode(Value(), ba.swapped)|
      ensures ba.position == old(ba.position) + 9 <= |ba.Data()| && ba.Data()[old(ba.position)] == 1
      ensures FieldAt(ba.Data(), old(ba.position) + 1, ba.swapped) == sn
      ensures FieldAt(ba.Data(), old(ba.position) + 5, ba.swapped) == cmd
    {
      hide Word, ByteArray.Data, ByteArray.Chain, ByteArray.Cursor, Overwrite, FieldAt;
      ghost var d, p := ba.Data(), ba.position;
      ba.Write([REQUEST]);
      WriteWord(ba, sn);
      OverwriteTwice(d, p, [REQUEST], Word(sn, ba.swapped));
      WriteWord(ba, cmd);
      OverwriteTwice(d, p, [REQUEST] + Word(sn, ba.swapped), Word(cmd, ba.swapped));
      assert [REQUEST] + Word(sn, ba.swapped) + Word(cmd, ba.swapped) == Encode(Value(), ba.swapped);
      RequestLayout(ba.Data(), p, sn, cmd, ba.swapped);
      ok := true;
    }

    method ParseFromByteArray(ba: ByteArray) returns (st: ReadStatus)
      requires ba.Valid()
      modifies this, ba`position, ba`cur, ba`at
      ensures ba.Valid() && ViewOf(ba) == old(ViewOf(ba))
      ensures Got(Value(), st, ba.position) == Parse(old(Value()), ViewOf(ba), old(ba.position))
      ensures st.Done? <==> old(ba.position) + 8 <= ba.size
      ensures st.Done? ==> ba.position == old(ba.position) + 8
      ensures sn ==
              if old(ba.position) + 4 <= ba.size then FieldAt(ba.Data(), old(ba.position), ba.swapped) else old(sn)
      ensures cmd ==
              if old(ba.position) + 8 <= ba.size then FieldAt(ba.Data(), old(ba.position) + 4, ba.swapped) else old(cmd)
    {
      hide TakeWord, ByteArray.Data, ByteArray.Chain;
      RequestFields(sn, cmd, ViewOf(ba), ba.position);
      var v;
      st, v := ReadWord(ba);
      if !st.Done? {
        return;
      }
      sn := v;
      st, v := ReadWord(ba);
      if !st.Done? {
        return;
      }
      cmd := v;
    }
  }

  class NotifyMessage {
    var notify: uint32

    function Value(): Message
      reads this
    {
      Notify(notify)
    }

    constructor ()
      ensures Value() == Notify(0)
    {
      notify := 0;
    }

    method SerializeToByteArray(ba: ByteArray) returns (ok: bool)
      requires ba.Valid()
      modifies ba, ba.links, ba.mems
      ensures ok && ba.Valid() && ba.Extends()
      ensures ba.Data() == Overwrite(old(ba.Data()), old(ba.position), Encode(Value(), ba.swapped))
      ensures ba.position == old(ba.position) + |Encode(Value(), ba.swapped)|
      ensures ba.position == old(ba.position) + 5 <= |ba.Data()| && ba.Data()[old(ba.position)] == 3
      ensures FieldAt(ba.Data(), old(ba.position) + 1, ba.swapped) == notify
    {
      hide Word, ByteArray.Data, ByteArray.Chain, ByteArray.Cursor, Overwrite, FieldAt;
      ghost var d, p := ba.Data(), ba.position;
      ba.Write([NOTIFY]);
      WriteWord(ba, notify);
      OverwriteTwice(d, p, [NOTIFY], Word(notify, ba.swapped));
      NotifyLayout(ba.Data(), p, notify, ba.swapped);
      ok := true;
    }

    method ParseFromByteArray(ba: ByteArray) returns (st: ReadStatus)
      requires ba.Valid()
      modifies this, ba`position, ba`cur, ba`at
      ensures ba.Valid() && ViewOf(ba) == old(ViewOf(ba))
      ensures Got(Value(), st, ba.position) == Parse(old(Value()), ViewOf(ba), old(ba.position))
      ensures st.Done? <==> old(ba.position) + 4 <= ba.size
      ensures st.Done? ==> ba.position == old(ba.position) + 4
      ensures notify ==
              if old(ba.position) + 4 <= ba.size then FieldAt(ba.Data(), old(ba.position), ba.swapped) else old(notify)
    {
      hide TakeWord, ByteArray.Data, ByteArray.Chain;
      NotifyFields(notify, ViewOf(ba), ba.position);
      var v;
      st, v := ReadWord(ba);
      if !st.Done? {
        return;
      }
      notify := v;
    }
  }

  class ResponseMessage {
    var sn: uint32
    var cmd: uint32
    var result: uint32
    var resultStr: seq<byte>

    function Value(): Message
      reads this
    {
      Response(sn, cmd, result, resultStr)
    }

    constructor ()
      ensures Value() == Response(0, 0, 404, UNHANDLED)
    {
      sn, cmd, result, resultStr := 0, 0, 404, UNHANDLED;
    }

    /** The type byte and the three fixed-width fields. */
    method SerializeFixed(ba: ByteArray, ghost head: seq<byte>)
      requires ba.Valid()
      requires head == [RESPONSE] + Word(sn, ba.swapped) + Word(cmd, ba.swapped) + Word(result, ba.swapped)
      modifies ba, ba.links, ba.mems
      ensures ba.Valid() && ba.Extends() && ba.position == old(ba.position) + 13
      ensures ba.Data() == Overwrite(old(ba.Data()), old(ba.position), head)
    {
      hide Word, ByteArray.Data, ByteArray.Chain, Overwrite;
      ghost var d, p := ba.Data(), ba.position;
      ba.Write([RESPONSE]);
      WriteWord(ba, sn);
      OverwriteTwice(d, p, [RESPONSE], Word(sn, ba.swapped));
      WriteWord(ba, cmd);
      OverwriteTwice(d, p, [RESPONSE] + Word(sn, ba.swapped), Word(cmd, ba.swapped));
      WriteWord(ba, result);
      OverwriteTwice(d, p, [RESPONSE] + Word(sn, ba.swapped) + Word(cmd, ba.swapped), Word(result, ba.swapped));
    }

    method SerializeToByteArray(ba: ByteArray) returns (ok: bool)
      requires ba.Valid()
      modifies ba, ba.links, ba.mems
      ensures ok && ba.Valid() && ba.Extends()
      ensures ba.Data() == Overwrite(old(ba.Data()), old(ba.position), Encode(Value(), ba.swapped))
      ensures ba.position == old(ba.position) + |Encode(Value(), ba.swapped)|
      ensures ba.position == old(ba.position) + 17 + |resultStr| <= |ba.Data()| && ba.Data()[old(ba.position)] == 2
      ensures FieldAt(ba.Data(), old(ba.position) + 1, ba.swapped) == sn
      ensures FieldAt(ba.Data(), old(ba.position) + 5, ba.swapped) == cmd
      ensures FieldAt(ba.Data(), old(ba.position) + 9, ba.swapped) == result
      ensures FieldAt(ba.Data(), old(ba.position) + 13, ba.swapped) == |resultStr| % 0x1_0000_0000
      ensures ba.Data()[old(ba.position) + 17..ba.position] == resultStr
    {
      hide Word, TextBytes, ByteArray.Data, ByteArray.Chain, ByteArray.Cursor, Overwrite, Encode, FieldAt;
      ghost var d, p := ba.Data(), ba.position;
      ghost var head := [RESPONSE] + Word(sn, ba.swapped) + Word(cmd, ba.swapped) + Word(result, ba.swapped);
      SerializeFixed(ba, head);
      WriteText(ba, resultStr);
      OverwriteTwice(d, p, head, TextBytes(resultStr, ba.swapped));
      ResponseJoined(Value(), ba.swapped);
      ResponseLayout(ba.Data(), p, Value(), ba.swapped);
      ok := true;
    }

    method ParseFromByteArray(ba: ByteArray) returns (st: ReadStatus)
      requires ba.Valid()
      modifies this, ba`position, ba`cur, ba`at
      ensures ba.Valid() && ViewOf(ba) == old(ViewOf(ba))
      ensures Got(Value(), st, ba.position) == Parse(old(Value()), ViewOf(ba), old(ba.position))
      ensures sn ==
              if old(ba.position) + 4 <= ba.size then FieldAt(ba.Data(), old(ba.position), ba.swapped) else old(sn)
      ensures cmd ==
              if old(ba.position) + 8 <= ba.size then FieldAt(ba.Data(), old(ba.position) + 4, ba.swapped) else old(cmd)
      ensures result ==
              if old(ba.position) + 12 <= ba.size then FieldAt(ba.Data(), old(ba.position) + 8, ba.swapped)
              else old(result)
      ensures st.Done? <==> TextThere(ViewOf(ba), old(ba.position))
      ensures if st.Done? then
                && ba.position == old(ba.position) + 16 + FieldAt(ba.Data(), old(ba.position) + 12, ba.swapped)
                && ba.position <= ba.size && resultStr == ba.Data()[old(ba.position) + 16..ba.position]
              else resultStr == old(resultStr)
    {
      hide TakeWord, TakeText, ByteArray.Data, ByteArray.Chain, ByteArray.Cursor, FieldAt, TextThere;
      ResponseFields(Value(), ViewOf(ba), ba.position);
      var v;
      st, v := ReadWord(ba);
      if !st.Done? {
        return;
      }
      sn := v;
      st, v := ReadWord(ba);
      if !st.Done? {
        return;
      }
      cmd := v;
      st, v := ReadWord(ba);
      if !st.Done? {
        return;
      }
      result := v;
      var text;
      st, text := ReadText(ba);
      if !st.Done? {
        return;
      }
      resultStr := text;
    }
  }
}
