/** The 32-byte handshake (HandshakeMessageManager.java): the 18-byte ASCII
    header, ten zero bytes, and the peer id as a four-byte big-endian
    `int`. */
module Handshake {
  import opened Common
  import opened Text
  import opened Buffers

  const HANDSHAKE_HEADER: string := "P2PFILESHARINGPROJ"

  /** The text `new String(zeroBits)` gives for ten zero bytes. */
  const TEN_NULS: string := "\0\0\0\0\0\0\0\0\0\0"

  /** The three fields `readHandshakeMessage` puts in its map, under the keys
      "handshakeHeader", "zeroBits" and "peerId". */
  datatype HandshakeFields = HandshakeFields(handshakeHeader: string, zeroBits: string, peerId: string)

  lemma HeaderIsAscii()
    ensures IsAscii(HANDSHAKE_HEADER) && |HANDSHAKE_HEADER| == 18
  {
  }

  /** What `generateHandshakeMessage(peerId)` returns: NumberFormatException
      when the id is not a decimal `int`, otherwise header, zeros and id. */
  function HandshakeBytes(peerId: string): Result<seq<byte>>
  {
    HeaderIsAscii();
    match ParseInt(peerId)
    case None => Err(NumberFormat)
    case Some(id) => Ok(AsciiBytes(HANDSHAKE_HEADER) + Zeros(10) + BE32(id))
  }

  /** What `readHandshakeMessage` returns for the remaining bytes of its
      buffer: BufferUnderflowException when fewer than 32 remain, otherwise
      the header and the zero block as text and the id as `Integer.toString`
      of the big-endian `int`. */
  function ParseHandshake(b: seq<byte>): Result<HandshakeFields>
  {
    if |b| < 32 then Err(BufferUnderflow)
    else Ok(HandshakeFields(DecodeText(b[..18]), DecodeText(b[18..28]), IntToString(BE32Signed(b[28..32]))))
  }

  class HandshakeMessageManager {
    var handshakeHeader: string
    var zeroBits: array<byte>

    /** The constants the constructor sets up. */
    ghost predicate Valid()
      reads this, zeroBits
    {
      handshakeHeader == HANDSHAKE_HEADER && zeroBits[..] == Zeros(10)
    }

    /** Sets the header and zeroes the ten-byte block in a loop. */
    constructor ()
      ensures Valid() && fresh(zeroBits)
    {
      handshakeHeader := HANDSHAKE_HEADER;
      var zeros := new byte[10];
      var i := 0;
      while i < 10
        invariant 0 <= i <= 10
        invariant forall k :: 0 <= k < i ==> zeros[k] == 0
      {
        zeros[i] := 0;
        i := i + 1;
      }
      zeroBits := zeros;
    }

    /** `generateHandshakeMessage`: parses the id, then puts the header bytes,
        the zero block and the id into a 32-byte buffer. */
    method GenerateHandshakeMessage(peerId: string) returns (r: Result<seq<byte>>)
      requires Valid()
      ensures r == HandshakeBytes(peerId)
    {
      var integerPeerId := ParseInt(peerId);
      if integerPeerId.None? {
        return Err(NumberFormat);
      }
      HeaderIsAscii();
      var buffer := new ByteBuffer.Allocate(32);
      var ok := buffer.PutBytes(AsciiBytes(handshakeHeader));
      assert ok;
      ok := buffer.PutBytes(zeroBits[..]);
      assert ok;
      ok := buffer.PutInt(integerPeerId.value);
      assert ok;
      assert buffer.hb[..] == AsciiBytes(HANDSHAKE_HEADER) + Zeros(10) + BE32(integerPeerId.value);
      r := Ok(buffer.hb[..]);
    }

    /** `readHandshakeMessage`: gets 18, then 10, then 4 bytes. */
    method ReadHandshakeMessage(buffer: ByteBuffer) returns (r: Result<HandshakeFields>)
      requires buffer.Valid()
      modifies buffer
      ensures r == ParseHandshake(old(buffer.Remaining()))
      ensures r.Ok? ==> buffer.position == old(buffer.position) + 32
    {
      ghost var b := buffer.Remaining();
      var headerBytes := buffer.GetBytes(18);
      if headerBytes.Err? {
        return Err(headerBytes.error);
      }
      var zeros := buffer.GetBytes(10);
      if zeros.Err? {
        return Err(zeros.error);
      }
      var peerId := buffer.GetInt();
      if peerId.Err? {
        return Err(peerId.error);
      }
      assert b[18..][..10] == b[18..28];
      assert b[28..][..4] == b[28..32];
      r := Ok(HandshakeFields(DecodeText(headerBytes.value), DecodeText(zeros.value), IntToString(peerId.value)));
    }
  }

  /** The handshake is generated exactly for decimal ids; it is 32 bytes: the
      header's ASCII, ten zero bytes and the id, big-endian. */
  lemma HandshakeLayout(peerId: string)
    ensures HandshakeBytes(peerId).Ok? <==> ParseInt(peerId).Some?
    ensures HandshakeBytes(peerId).Err? ==> HandshakeBytes(peerId).error == NumberFormat
    ensures HandshakeBytes(peerId).Ok? ==>
      var h := HandshakeBytes(peerId).value;
      |h| == 32 && h[..18] == AsciiBytes(HANDSHAKE_HEADER)
      && (forall i :: 18 <= i < 28 ==> h[i] == 0)
      && BE32Signed(h[28..]) == ParseInt(peerId).value
  {
    if ParseInt(peerId).Some? {
      var h := HandshakeBytes(peerId).value;
      BE32RoundTrip(ParseInt(peerId).value);
      assert h[28..] == BE32(ParseInt(peerId).value);
      assert h[..18] == AsciiBytes(HANDSHAKE_HEADER);
      forall i | 18 <= i < 28
        ensures h[i] == 0
      {
        assert h[i] == Zeros(10)[i - 18];
      }
    }
  }

  /** Ten zero bytes read as the text of ten NUL characters. */
  lemma ZerosText()
    ensures DecodeText(Zeros(10)) == TEN_NULS
  {
  }

  /** Reading a generated handshake gives back the header, ten NULs and the
      id as printed by `Integer.toString`; for an id in canonical decimal form
      that is the id itself. */
  lemma HandshakeRoundTrip(peerId: string)
    requires ParseInt(peerId).Some?
    ensures ParseHandshake(HandshakeBytes(peerId).value)
      == Ok(HandshakeFields(HANDSHAKE_HEADER, TEN_NULS, IntToString(ParseInt(peerId).value)))
    ensures CanonicalDecimal(peerId) ==> ParseHandshake(HandshakeBytes(peerId).value).value.peerId == peerId
  {
    var h := HandshakeBytes(peerId).value;
    HeaderIsAscii();
    HandshakeLayout(peerId);
    BE32RoundTrip(ParseInt(peerId).value);
    DecodeTextAscii(h[..18], HANDSHAKE_HEADER);
    assert h[18..28] == Zeros(10);
    ZerosText();
    assert h[28..32] == h[28..];
    if CanonicalDecimal(peerId) {
      IntToStringOfParseInt(peerId);
    }
  }

  /** A 32-byte handshake carries the header, ten NULs and a canonical id
      exactly when it is the handshake generated for that id: the three
      checks of the dial side accept precisely the peer's own handshake. */
  lemma HandshakeMatches(b: seq<byte>, peerId: string)
    requires |b| == 32 && CanonicalDecimal(peerId) && ParseInt(peerId).Some?
    ensures ParseHandshake(b) == Ok(HandshakeFields(HANDSHAKE_HEADER, TEN_NULS, peerId))
      <==> b == HandshakeBytes(peerId).value
  {
    HandshakeRoundTrip(peerId);
    if ParseHandshake(b) == Ok(HandshakeFields(HANDSHAKE_HEADER, TEN_NULS, peerId)) {
      HeaderIsAscii();
      DecodeTextAscii(b[..18], HANDSHAKE_HEADER);
      DecodeTextAscii(b[18..28], TEN_NULS);
      assert AsciiBytes(TEN_NULS) == Zeros(10);
      var v := BE32Signed(b[28..32]);
      ParseIntOfIntToString(v);
      BE32OfSigned(b[28..32]);
      assert b == b[..18] + b[18..28] + b[28..32];
    }
  }
}
