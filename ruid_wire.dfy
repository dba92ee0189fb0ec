/**
  * The binary send and receive functions (src/ruid.c:200-225). A PostgreSQL
  * message buffer (`StringInfo`) is modelled as a class holding the bytes of
  * the message and a read cursor; `pq_sendbytes` appends, and
  * `pq_getmsgbytes` takes the next bytes and moves the cursor, failing when
  * too few remain.
  */
module RuidWire {
  import opened Bytes
  import opened Wrappers
  import opened RuidTypes

  class MessageBuffer {
    var data: seq<byte>
    var cursor: nat

    predicate Valid()
      reads this
    {
      cursor <= |data|
    }

    /** The bytes not read yet. */
    function Unread(): (rest: seq<byte>)
      reads this
      requires Valid()
      ensures |rest| == |data| - cursor
    {
      data[cursor..]
    }

    /** An empty buffer, as `pq_begintypsend` starts one (its length word is not modelled). */
    constructor Empty()
      ensures Valid() && data == [] && cursor == 0
    {
      data := [];
      cursor := 0;
    }

    /** A received message, read from its start. */
    constructor Received(message: seq<byte>)
      ensures Valid() && data == message && cursor == 0
    {
      data := message;
      cursor := 0;
    }

    /** `pq_sendbytes`: append the bytes; what is unread keeps its bytes in front. */
    method SendBytes(bytes: seq<byte>)
      requires Valid()
      modifies this
      ensures Valid()
      ensures data == old(data) + bytes && cursor == old(cursor)
      ensures Unread() == old(Unread()) + bytes
    {
      data := data + bytes;
    }

    /** `pq_getmsgbytes`: the next `n` bytes, or the "insufficient data" error with nothing consumed. */
    method GetMsgBytes(n: nat) returns (r: Option<seq<byte>>)
      requires Valid()
      modifies this
      ensures Valid() && data == old(data)
      ensures n <= old(|Unread()|) ==> r == Some(old(Unread())[..n]) && Unread() == old(Unread())[n..]
      ensures n > old(|Unread()|) ==> r == None && cursor == old(cursor)
    {
      if n > |data| - cursor {
        return None;
      }
      ghost var before := data[cursor..];
      r := Some(data[cursor..cursor + n]);
      assert data[cursor..cursor + n] == before[..n];
      cursor := cursor + n;
      assert data[cursor..] == before[n..];
    }
  }

  /** `ruid_send` (src/ruid.c:215-225): a new message holding the 16 bytes, in order. */
  method RuidSend(v: Ruid) returns (wire: seq<byte>)
    ensures wire == v
  {
    var buffer := new MessageBuffer.Empty();
    buffer.SendBytes(v);
    wire := buffer.data;
  }

  /** `ruid_recv` (src/ruid.c:200-211): the next 16 bytes of the message, unchanged. */
  method RuidRecv(buffer: MessageBuffer) returns (r: Option<Ruid>)
    requires buffer.Valid()
    modifies buffer
    ensures buffer.Valid() && buffer.data == old(buffer.data)
    ensures RUID_LEN <= old(|buffer.Unread()|) ==>
              r == Some(old(buffer.Unread())[..RUID_LEN]) && buffer.Unread() == old(buffer.Unread())[RUID_LEN..]
    ensures RUID_LEN > old(|buffer.Unread()|) ==> r == None && buffer.cursor == old(buffer.cursor)
  {
    var bytes := buffer.GetMsgBytes(RUID_LEN);
    if bytes.None? {
      return None;
    }
    r := Some(bytes.value);
  }

  /** What `ruid_send` writes, `ruid_recv` reads back. */
  method WireRoundTrip(v: Ruid) returns (back: Option<Ruid>)
    ensures back == Some(v)
  {
    var wire := RuidSend(v);
    var buffer := new MessageBuffer.Received(wire);
    back := RuidRecv(buffer);
    assert wire[..RUID_LEN] == v;
  }

  /** Values sent one after another in one message are received in the same order. */
  method WireSequence(v: Ruid, u: Ruid) returns (first: Option<Ruid>, second: Option<Ruid>)
    ensures first == Some(v) && second == Some(u)
  {
    var buffer := new MessageBuffer.Empty();
    buffer.SendBytes(v);
    buffer.SendBytes(u);
    first := RuidRecv(buffer);
    second := RuidRecv(buffer);
    assert (v + u)[..RUID_LEN] == v && (v + u)[RUID_LEN..] == u;
    assert u[..RUID_LEN] == u;
  }
}
