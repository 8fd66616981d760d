/**
 * The WatchGuard access-point discovery exchange of Probe.java: the 8-byte
 * probe a client broadcasts, and the decoding of the 16-byte header that
 * starts every response, followed by the system-information text.
 */
module Probe {
  import opened Wrappers
  import opened Bytes
  import opened AccessPoint

  /** The probe: message type "WGWC", operation code "DISC". */
  const PROBE_TYPE_GWC: Int32 := 0x5747_5743
  const PROBE_CODE_DISCOVERY: Int32 := 0x4449_5343

  /** A response: message type "WGAP" (access point), code "IP4@" (IPv4 address follows). */
  const RESPONSE_TYPE_AP: Int32 := 0x5747_4150
  const RESPONSE_CODE_IP4: Int32 := 0x4950_3440

  const PROBE_SIZE: nat := 8
  const HEADER_SIZE: nat := 16

  /** The probe on the wire: the ASCII text "WGWCDISC". */
  const PROBE_BYTES: seq<Byte> := [0x57, 0x47, 0x57, 0x43, 0x44, 0x49, 0x53, 0x43]

  /** The first eight bytes of every accepted response: the ASCII text "WGAPIP4@". */
  const RESPONSE_MAGIC: seq<Byte> := [0x57, 0x47, 0x41, 0x50, 0x49, 0x50, 0x34, 0x40]

  /**
   * The probe message of probeTo: an 8-byte buffer filled by two putInt
   * calls, the type word then the code word, both big-endian.
   */
  method EncodeProbe() returns (message: seq<Byte>)
    ensures |message| == PROBE_SIZE
    ensures ReadInt32(message, 0) == PROBE_TYPE_GWC && ReadInt32(message, 4) == PROBE_CODE_DISCOVERY
    ensures message == PROBE_BYTES
  {
    var buffer := new ByteBuffer.Allocate(PROBE_SIZE);
    buffer.PutInt(PROBE_TYPE_GWC);
    buffer.PutInt(PROBE_CODE_DISCOVERY);
    message := buffer.data[..];
    assert message == Int32Bytes(PROBE_TYPE_GWC) + Int32Bytes(PROBE_CODE_DISCOVERY);
    ReadInt32Matches(message, 0, PROBE_TYPE_GWC);
    ReadInt32Matches(message, 4, PROBE_CODE_DISCOVERY);
    assert Int32Bytes(PROBE_TYPE_GWC) == PROBE_BYTES[..4];
    assert Int32Bytes(PROBE_CODE_DISCOVERY) == PROBE_BYTES[4..];
  }

  /** What the header carries: the advertised address word and port, and the text bytes after it. */
  datatype Header = Header(address: Int32, port: Int16, payload: seq<Byte>)

  /**
   * The header checks and reads of parseInfo: `length` must exceed the
   * header and fit in `data`; the type and code words must be the response
   * constants; then the address word at 8, the port at 12, two reserved
   * bytes, and the bytes [16, length) as the text.
   */
  function DecodeHeader(data: seq<Byte>, length: int): (r: Option<Header>)
    ensures r.Some? ==> HEADER_SIZE < length <= |data| && |r.value.payload| == length - HEADER_SIZE
  {
    if length <= HEADER_SIZE || length > |data| then None
    else if ReadInt32(data, 0) != RESPONSE_TYPE_AP then None
    else if ReadInt32(data, 4) != RESPONSE_CODE_IP4 then None
    else Some(Header(ReadInt32(data, 8), ReadInt16(data, 12), data[HEADER_SIZE..length]))
  }

  /** A length of 16 or less, or one beyond the buffer, is refused whatever the bytes. */
  lemma DecodeRejectsBadLength(data: seq<Byte>, length: int)
    requires length <= HEADER_SIZE || length > |data|
    ensures DecodeHeader(data, length) == None
  {
  }

  /** A wrong type word is refused. */
  lemma DecodeRejectsWrongType(data: seq<Byte>, length: int)
    requires |data| >= 4 && ReadInt32(data, 0) != RESPONSE_TYPE_AP
    ensures DecodeHeader(data, length) == None
  {
  }

  /** A wrong code word is refused even after a right type word. */
  lemma DecodeRejectsWrongCode(data: seq<Byte>, length: int)
    requires |data| >= 8 && ReadInt32(data, 0) == RESPONSE_TYPE_AP && ReadInt32(data, 4) != RESPONSE_CODE_IP4
    ensures DecodeHeader(data, length) == None
  {
  }

  /**
   * A response is accepted exactly when 16 < length <= |data| and the
   * buffer starts with the eight bytes "WGAPIP4@".
   */
  lemma DecodeAcceptsExactly(data: seq<Byte>, length: int)
    ensures DecodeHeader(data, length).Some? <==>
      HEADER_SIZE < length <= |data| && data[..8] == RESPONSE_MAGIC
  {
    if HEADER_SIZE < length <= |data| {
      ReadInt32Matches(data, 0, RESPONSE_TYPE_AP);
      ReadInt32Matches(data, 4, RESPONSE_CODE_IP4);
      assert Int32Bytes(RESPONSE_TYPE_AP) == RESPONSE_MAGIC[..4];
      assert Int32Bytes(RESPONSE_CODE_IP4) == RESPONSE_MAGIC[4..];
      assert data[..8] == data[0..4] + data[4..8];
    }
  }

  /** A response laid out as the header describes, with two reserved bytes. */
  function EncodeResponse(h: Header, reserved: seq<Byte>): (r: seq<Byte>)
    requires |reserved| == 2
    ensures |r| == HEADER_SIZE + |h.payload|
  {
    Int32Bytes(RESPONSE_TYPE_AP) + Int32Bytes(RESPONSE_CODE_IP4) + Int32Bytes(h.address) +
    Int16Bytes(h.port) + reserved + h.payload
  }

  /** Decoding an encoded response gives back its header, whatever the reserved bytes. */
  lemma DecodeEncodeResponse(h: Header, reserved: seq<Byte>)
    requires |reserved| == 2 && h.payload != []
    ensures DecodeHeader(EncodeResponse(h, reserved), HEADER_SIZE + |h.payload|) == Some(h)
  {
    var r := EncodeResponse(h, reserved);
    var typeWord, codeWord, addressWord, portBytes :=
      Int32Bytes(RESPONSE_TYPE_AP), Int32Bytes(RESPONSE_CODE_IP4), Int32Bytes(h.address), Int16Bytes(h.port);
    ReadInt32Bytes(RESPONSE_TYPE_AP);
    ReadInt32Bytes(RESPONSE_CODE_IP4);
    ReadInt32Bytes(h.address);
    ReadInt16Bytes(h.port);
    assert r[0..4] == typeWord && r[4..8] == codeWord;
    assert r[8..12] == addressWord && r[12..14] == portBytes;
    ReadInt32Matches(r, 0, RESPONSE_TYPE_AP);
    ReadInt32Matches(r, 4, RESPONSE_CODE_IP4);
    ReadInt32Matches(r, 8, h.address);
    ReadInt16Matches(r, 12, h.port);
    assert r[HEADER_SIZE..|r|] == h.payload;
    assert DecodeHeader(r, |r|) == Some(Header(ReadInt32(r, 8), ReadInt16(r, 12), r[HEADER_SIZE..|r|]));
  }

  /**
   * Everything an accepted response holds up to `length` is its decoded
   * header re-encoded with the reserved bytes it carried.
   */
  lemma EncodeDecodedResponse(data: seq<Byte>, length: int)
    requires DecodeHeader(data, length).Some?
    ensures EncodeResponse(DecodeHeader(data, length).value, data[14..16]) == data[..length]
  {
    var h := DecodeHeader(data, length).value;
    Int32BytesRead(data, 0);
    Int32BytesRead(data, 4);
    Int32BytesRead(data, 8);
    Int16BytesRead(data, 12);
    assert data[..length] == data[0..4] + data[4..8] + data[8..12] + data[12..14] + data[14..16] + data[16..length];
  }

  /** The reserved bytes 14 and 15 never affect the result. */
  lemma DecodeIgnoresReserved(data: seq<Byte>, other: seq<Byte>, length: int)
    requires |data| == |other| >= HEADER_SIZE
    requires forall i :: 0 <= i < |data| && i != 14 && i != 15 ==> data[i] == other[i]
    ensures DecodeHeader(data, length) == DecodeHeader(other, length)
  {
    assert data[0..4] == other[0..4] && data[4..8] == other[4..8];
    assert data[8..12] == other[8..12] && data[12..14] == other[12..14];
    if HEADER_SIZE < length <= |data| {
      assert data[HEADER_SIZE..length] == other[HEADER_SIZE..length];
    }
  }

  /** Bytes at or beyond `length` never affect the result. */
  lemma DecodeIgnoresTail(data: seq<Byte>, other: seq<Byte>, length: int)
    requires 0 <= length <= |data| && length <= |other| && data[..length] == other[..length]
    ensures DecodeHeader(data, length) == DecodeHeader(other, length)
  {
    if HEADER_SIZE < length {
      assert data[0..4] == other[0..4] && data[4..8] == other[4..8];
      assert data[8..12] == other[8..12] && data[12..14] == other[12..14];
      assert data[HEADER_SIZE..length] == other[HEADER_SIZE..length];
    }
  }

  /**
   * parseInfo: decodes the header and, when it is accepted, builds the
   * descriptor from the address word, the port and the text. `utf8` stands
   * for the UTF-8 decoding of the text bytes, which is not modelled.
   */
  method ParseInfo(data: seq<Byte>, length: int, utf8: seq<Byte> -> string) returns (info: APInfo?)
    ensures info == null <==> DecodeHeader(data, length) == None
    ensures info != null ==> fresh(info)
    ensures info != null ==>
      (var h := DecodeHeader(data, length).value; info.Describes(h.address, h.port, utf8(h.payload)))
  {
    match DecodeHeader(data, length)
    case None =>
      info := null;
    case Some(h) =>
      var sysInfo := utf8(h.payload);
      info := new APInfo(h.address, h.port, sysInfo);
  }
}
