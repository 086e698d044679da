/** The buffer that messages are written to and read from. */
module NetMsgs {
  import opened Bytes

  class NetMsg {
    const buffer: array<byte>
    var pos: nat

    ghost predicate Valid()
      reads this
    {
      pos <= buffer.Length
    }

    constructor (size: nat)
      ensures Valid() && fresh(buffer) && buffer.Length == size && pos == 0
    {
      buffer := new byte[size](i => 0);
      pos := 0;
    }

    /** A buffer with a copy of some data. */
    constructor Of(data: seq<byte>)
      ensures Valid() && fresh(buffer) && buffer[..] == data && pos == 0
    {
      buffer := new byte[|data|](i requires 0 <= i < |data| => data[i]);
      pos := 0;
    }

    /** The bytes that are left to read. */
    function Rest(): (bs: seq<byte>)
      reads this, buffer
      requires Valid()
      ensures |bs| == BytesLeft()
    {
      buffer[pos..]
    }

    /** The bytes up to the position. */
    ghost function Done(): (bs: seq<byte>)
      reads this, buffer
      requires Valid()
      ensures |bs| == pos
    {
      buffer[..pos]
    }

    /** Nothing was written beyond the position. */
    twostate predicate Ahead()
      reads this, buffer
    {
      forall k :: pos <= k < buffer.Length ==> buffer[k] == old(buffer[k])
    }

    function BytesLeft(): nat
      reads this
      requires Valid()
    {
      buffer.Length - pos
    }

    method SetPos(p: nat)
      requires p <= buffer.Length
      modifies this
      ensures Valid() && pos == p
    {
      pos := p;
    }

    /** Read a word; None stands for the error of reading over the end. */
    method ReadWord(move: bool) returns (v: Option<uint32>)
      requires Valid()
      modifies this
      ensures Valid() && buffer[..] == old(buffer[..])
      ensures v == if old(BytesLeft()) >= 4 then Some(Decode32(old(Rest()))) else None
      ensures pos == if move && v.Some? then old(pos) + 4 else old(pos)
    {
      if BytesLeft() < 4 {
        return None;
      }
      v := Some(Decode32(buffer[pos..]));
      if move {
        pos := pos + 4;
      }
    }

    /** Write some bytes over the next ones; false stands for the error of writing over the end. */
    method Write(bs: seq<byte>) returns (ok: bool)
      requires Valid()
      modifies this, buffer
      ensures Valid() && (ok <==> |bs| <= old(BytesLeft()))
      ensures ok ==> Done() == old(Done()) + bs && Ahead()
      ensures !ok ==> pos == old(pos) && buffer[..] == old(buffer[..])
    {
      if BytesLeft() < |bs| {
        return false;
      }
      for i := 0 to |bs|
        invariant pos == old(pos)
        invariant buffer[..pos + i] == old(buffer[..pos]) + bs[..i]
        invariant forall k :: pos + i <= k < buffer.Length ==> buffer[k] == old(buffer[k])
      {
        buffer[pos + i] := bs[i];
      }
      pos := pos + |bs|;
      return true;
    }
  }
}
