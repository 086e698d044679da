/** Messages on their way between a session and the transport layer. */
module GistkaMapper {
  import opened Bytes
  import opened ObjectCodec
  import opened IeStores
  import opened MessageCodec
  import opened MessageParser
  import opened NetMsgs
  import opened Messages
  import ParserTheorems

  /** create_api_msg: serialise a message into a buffer of its announced size; None stands for the failed assertion. */
  method CreatePayload(m: AnslpMsg) returns (payload: Option<seq<byte>>)
    requires m.Valid()
    ensures payload.Some? <==> m.Value().Check() && AllCheck(m.Value().Written())
    ensures payload.Some? ==> |payload.value| == m.Value().Size() && m.Value().Encode() <= payload.value
  {
    AnnouncedSize(m.Value());
    var size := m.GetSerializedSize();
    var buffer := new NetMsg(size);
    var written := m.Serialize(buffer);
    if written.None? {
      return None;
    }
    assert [] + m.Value().Encode() == m.Value().Encode() && buffer.Done() <= buffer.buffer[..];
    payload := Some(buffer.buffer[..]);
  }

  /** map_api_receive_message: parse what the transport layer delivers; null stands for a message that cannot be read. */
  method ReadPayload(data: seq<byte>, imp: Import) returns (message: AnslpMsg?)
    ensures message != null <==> Parse(data, imp, false).Accepted?
    ensures message != null ==>
      fresh(message) && fresh(message.store) && message.Valid() && message.Value() == Parse(data, imp, false).message
  {
    var buffer := new NetMsg.Of(data);
    assert buffer.Rest() == data;
    var ending, read := Deserialize(buffer, imp, false);
    message := if ending.Completed? then read else null;
  }

  /** A writable message fills its buffer, and what is read from there is equal to it exactly when it fits. */
  lemma BufferOfWritable(m: Message, imp: Import)
    requires Writable(m, imp)
    ensures m.Check() && AllCheck(m.Written()) && |m.Encode()| == m.Size()
    ensures var r := Parse(m.Encode(), imp, false); r.Accepted? && r.message == m <==> BodiesFit(m)
  {
    AnnouncedSize(m);
    ParserTheorems.RoundTripExactly(m, imp, false);
    ParseAccounts(m.Encode(), imp);
  }

  /** A message that is sent arrives as an equal one exactly when it fits; its sender keeps it as it was. */
  method Transfer(m: AnslpMsg, imp: Import) returns (received: AnslpMsg?, equal: bool)
    requires m.Valid() && Writable(m.Value(), imp)
    ensures m.Valid() && m.Value() == old(m.Value())
    ensures equal <==> BodiesFit(m.Value())
    ensures equal ==> received != null && fresh(received) && received.Valid() && received.Value() == m.Value()
  {
    BufferOfWritable(m.Value(), imp);
    var payload := CreatePayload(m);
    assert payload.value == m.Value().Encode();
    received := ReadPayload(payload.value, imp);
    equal := false;
    if received != null {
      equal := received.Equals(m);
    }
  }
}
