/** The length-prefixed message frame of the peer protocol
    (ActualMessageManager.java): a four-byte big-endian length, a one-byte
    type and the payload. */
module Wire {
  import opened Common
  import opened Text
  import opened Buffers

  /** The message types of the protocol. */
  const CHOKE: byte := 0
  const UNCHOKE: byte := 1
  const INTERESTED: byte := 2
  const NOT_INTERESTED: byte := 3
  const HAVE: byte := 4
  const BITFIELD: byte := 5
  const REQUEST: byte := 6
  const PIECE: byte := 7

  /** The value of a Java `byte` (two's complement), -128 to 127. */
  function SignedByte(b: byte): (v: int)
    ensures -0x80 <= v < 0x80
    ensures (if v < 0 then v + 0x100 else v) == b as int
  {
    if b < 0x80 then b as int else b as int - 0x100
  }

  /** What `generateActualMessage(messageLength, messageType, messagePayload)`
      returns: a buffer of `messageLength + 4` bytes (that sum wrapping as a
      Java `int`), the big-endian length, the type, the payload when there is
      one, and zeros after it. A negative capacity raises
      IllegalArgumentException, and contents that do not fit raise
      BufferOverflowException. */
  function Frame(messageLength: int, messageType: byte, messagePayload: Option<seq<byte>>): Result<seq<byte>>
    requires IsInt(messageLength)
  {
    var capacity := Wrap32(messageLength + 4);
    var body := if messagePayload.Some? then messagePayload.value else [];
    if capacity < 0 then Err(IllegalArgument)
    else if capacity < 5 + |body| then Err(BufferOverflow)
    else Ok(BE32(messageLength) + [messageType] + body + Zeros(capacity - 5 - |body|))
  }

  /** `generateActualMessage`: allocates the buffer, then `putInt`, `put` of
      the type and `put` of the payload, each advancing the position. */
  method GenerateActualMessage(messageLength: int, messageType: byte, messagePayload: Option<seq<byte>>)
    returns (r: Result<seq<byte>>)
    requires IsInt(messageLength)
    ensures r == Frame(messageLength, messageType, messagePayload)
  {
    var capacity := Wrap32(messageLength + 4);
    if capacity < 0 {
      return Err(IllegalArgument);
    }
    var buffer := new ByteBuffer.Allocate(capacity);
    var ok := buffer.PutInt(messageLength);
    if !ok {
      return Err(BufferOverflow);
    }
    assert buffer.hb[..] == BE32(messageLength) + Zeros(capacity - 4);
    ok := buffer.Put(messageType);
    if !ok {
      return Err(BufferOverflow);
    }
    assert buffer.hb[..] == BE32(messageLength) + [messageType] + Zeros(capacity - 5);
    if messagePayload.Some? {
      ok := buffer.PutBytes(messagePayload.value);
      if !ok {
        return Err(BufferOverflow);
      }
      assert buffer.hb[..] == BE32(messageLength) + [messageType] + messagePayload.value
        + Zeros(capacity - 5 - |messagePayload.value|);
      assert capacity >= 5 + |messagePayload.value|;
      assert Frame(messageLength, messageType, messagePayload) == Ok(buffer.hb[..]);
    } else {
      assert capacity >= 5;
      assert BE32(messageLength) + [messageType] + [] + Zeros(capacity - 5) == buffer.hb[..];
      assert Frame(messageLength, messageType, messagePayload) == Ok(buffer.hb[..]);
    }
    r := Ok(buffer.hb[..]);
  }

  /** A frame, when one is produced, is `messageLength + 4` bytes long, starts
      with the length (which `getInt` reads back) and the type, carries the
      payload from byte 5 on and is zero after it. */
  lemma FrameLayout(messageLength: int, messageType: byte, messagePayload: Option<seq<byte>>)
    requires IsInt(messageLength) && Frame(messageLength, messageType, messagePayload).Ok?
    ensures var f := Frame(messageLength, messageType, messagePayload).value;
      var body := if messagePayload.Some? then messagePayload.value else [];
      |f| == messageLength + 4 && 5 + |body| <= |f|
      && f[..4] == BE32(messageLength) && BE32Signed(f[..4]) == messageLength
      && f[4] == messageType
      && f[5..5 + |body|] == body
      && forall i :: 5 + |body| <= i < |f| ==> f[i] == 0
  {
    var f := Frame(messageLength, messageType, messagePayload).value;
    var body := if messagePayload.Some? then messagePayload.value else [];
    assert IsInt(messageLength + 4);
    BE32RoundTrip(messageLength);
    assert f == BE32(messageLength) + [messageType] + body + Zeros(messageLength - 1 - |body|);
    assert f[..4] == BE32(messageLength);
    assert f[5..5 + |body|] == body;
    forall i | 5 + |body| <= i < |f|
      ensures f[i] == 0
    {
      assert f[i] == Zeros(messageLength - 1 - |body|)[i - 5 - |body|];
    }
  }

  /** When the length is the one the protocol asks for, `1 + |payload|`, the
      frame is exactly length, type and payload, with no padding. */
  lemma FrameExact(messageType: byte, payload: seq<byte>)
    requires |payload| + 5 <= INT_MAX
    ensures Frame(1 + |payload|, messageType, Some(payload)) == Ok(BE32(1 + |payload|) + [messageType] + payload)
  {
    assert Wrap32(1 + |payload| + 4) == |payload| + 5;
    assert BE32(1 + |payload|) + [messageType] + payload + Zeros(0) == BE32(1 + |payload|) + [messageType] + payload;
  }

  /** A message without payload (choke, unchoke, interested, not interested)
      is five bytes: length 1 and the type. */
  lemma FrameNoPayload(messageType: byte)
    ensures Frame(1, messageType, None) == Ok([0, 0, 0, 1, messageType])
  {
    assert BE32(1) == [0, 0, 0, 1];
    assert BE32(1) + [messageType] + [] + Zeros(0) == [0, 0, 0, 1, messageType];
  }

  /** The encoder fails exactly when the length leaves no room for the type and
      the payload, or when `messageLength + 4` overflows; it never
      truncates. */
  lemma FrameFailure(messageLength: int, messageType: byte, messagePayload: Option<seq<byte>>)
    requires IsInt(messageLength)
    ensures var body := if messagePayload.Some? then messagePayload.value else [];
      var r := Frame(messageLength, messageType, messagePayload);
      (r.Err? <==> messageLength < 1 + |body| || messageLength > INT_MAX - 4)
      && (r.Err? ==> (r.error == IllegalArgument <==> messageLength < -4 || messageLength > INT_MAX - 4))
      && (r.Err? ==> r.error == IllegalArgument || r.error == BufferOverflow)
  {
    if messageLength > INT_MAX - 4 {
      assert Wrap32(messageLength + 4) == messageLength + 4 - TWO32;
    }
  }

  /** A decoded message: the type as a Java `int` (the sign-extended type byte)
      and the payload bytes. */
  datatype Message = Message(msgType: int, payload: seq<byte>)

  /** What `readActualMessage(message_length, message_payload)` returns, given
      the remaining bytes of its two buffers: the length from the first, the
      type from the first byte of the second, and then `length` further bytes
      of the second; the result is the type in decimal followed by the payload
      as text. */
  function ActualMessageText(lengthBytes: seq<byte>, payloadBytes: seq<byte>): Result<string>
  {
    if |lengthBytes| < 4 || |payloadBytes| < 1 then Err(BufferUnderflow)
    else
      var length := BE32Signed(lengthBytes[..4]);
      if length < 0 then Err(NegativeArraySize)
      else if |payloadBytes| - 1 < length then Err(BufferUnderflow)
      else Ok(IntToString(SignedByte(payloadBytes[0])) + DecodeText(payloadBytes[1..1 + length]))
  }

  /** `readActualMessage`, as written: `getInt`, `get`, `new byte[length]`,
      `get(payload)`. */
  method ReadActualMessage(messageLength: ByteBuffer, messagePayload: ByteBuffer) returns (r: Result<string>)
    requires messageLength.Valid() && messagePayload.Valid() && messageLength != messagePayload
    modifies messageLength, messagePayload
    ensures r == ActualMessageText(old(messageLength.Remaining()), old(messagePayload.Remaining()))
  {
    ghost var lengthBytes, payloadBytes := messageLength.Remaining(), messagePayload.Remaining();
    var length := messageLength.GetInt();
    if length.Err? {
      return Err(length.error);
    }
    var messageType := messagePayload.Get();
    if messageType.Err? {
      return Err(messageType.error);
    }
    if length.value < 0 {
      return Err(NegativeArraySize);
    }
    var payload := messagePayload.GetBytes(length.value);
    if payload.Err? {
      return Err(payload.error);
    }
    assert payloadBytes[1..][..length.value] == payloadBytes[1..1 + length.value];
    r := Ok(IntToString(SignedByte(messageType.value)) + DecodeText(payload.value));
  }

  /** The reader, given the frame the encoder produces for any payload (split
      after the length, as the frame is laid out), runs out of bytes: the
      length counts the type byte, and the reader asks for that many bytes
      after it. */
  lemma ReadActualMessageUnderflows(messageType: byte, payload: seq<byte>)
    requires |payload| + 5 <= INT_MAX
    ensures var f := Frame(1 + |payload|, messageType, Some(payload)).value;
      ActualMessageText(f[..4], f[4..]) == Err(BufferUnderflow)
  {
    var f := Frame(1 + |payload|, messageType, Some(payload)).value;
    FrameExact(messageType, payload);
    BE32RoundTrip(1 + |payload|);
    assert f[..4] == BE32(1 + |payload|);
  }

  /** The smallest instance: the interested message `[0, 0, 0, 1, 2]` does
      not read back. */
  lemma ReadActualMessageInterested()
    ensures ActualMessageText([0, 0, 0, 1], [2]) == Err(BufferUnderflow)
  {
  }

  /** The reader as the protocol intends it, and as the connection loop reads
      every frame (SenderThread.java): the length, the type, then
      `length - 1` payload bytes. */
  function DecodeFrame(lengthBytes: seq<byte>, payloadBytes: seq<byte>): Result<Message>
  {
    if |lengthBytes| < 4 || |payloadBytes| < 1 then Err(BufferUnderflow)
    else
      var size := Wrap32(BE32Signed(lengthBytes[..4]) - 1);
      if size < 0 then Err(NegativeArraySize)
      else if |payloadBytes| - 1 < size then Err(BufferUnderflow)
      else Ok(Message(SignedByte(payloadBytes[0]), payloadBytes[1..1 + size]))
  }

  /** The corrected reader: `getInt`, `get`, `new byte[length - 1]`,
      `get(payload)`. */
  method ReadFrame(messageLength: ByteBuffer, messagePayload: ByteBuffer) returns (r: Result<Message>)
    requires messageLength.Valid() && messagePayload.Valid() && messageLength != messagePayload
    modifies messageLength, messagePayload
    ensures r == DecodeFrame(old(messageLength.Remaining()), old(messagePayload.Remaining()))
  {
    ghost var lengthBytes, payloadBytes := messageLength.Remaining(), messagePayload.Remaining();
    var length := messageLength.GetInt();
    if length.Err? {
      return Err(length.error);
    }
    var messageType := messagePayload.Get();
    if messageType.Err? {
      return Err(messageType.error);
    }
    var size := Wrap32(length.value - 1);
    if size < 0 {
      return Err(NegativeArraySize);
    }
    var payload := messagePayload.GetBytes(size);
    if payload.Err? {
      return Err(payload.error);
    }
    assert payloadBytes[1..][..size] == payloadBytes[1..1 + size];
    r := Ok(Message(SignedByte(messageType.value), payload.value));
  }

  /** Decoding what the encoder produced recovers the type and the payload
      exactly. */
  lemma DecodeFrameRoundTrip(messageType: byte, payload: seq<byte>)
    requires |payload| + 5 <= INT_MAX
    ensures var f := Frame(1 + |payload|, messageType, Some(payload)).value;
      DecodeFrame(f[..4], f[4..]) == Ok(Message(SignedByte(messageType), payload))
  {
    var f := Frame(1 + |payload|, messageType, Some(payload)).value;
    FrameExact(messageType, payload);
    BE32RoundTrip(1 + |payload|);
    assert f == BE32(1 + |payload|) + [messageType] + payload;
    assert f[..4] == BE32(1 + |payload|);
    assert f[4..] == [messageType] + payload;
    assert f[4..][1..1 + |payload|] == payload;
  }

  /** Distinct type bytes decode to distinct types. */
  lemma SignedByteInjective(a: byte, b: byte)
    requires SignedByte(a) == SignedByte(b)
    ensures a == b
  {
  }
}
