/** wire/s7.go: the S7 header and its split from the payload. */
module S7 {
  import opened Bytes

  const S7_HEADER_SIZE := 10
  const PROTOCOL_ID: byte := 0x32
  const ROSCTR_JOB: byte := 0x01
  const ROSCTR_ACK: byte := 0x02
  const ROSCTR_ACK_DATA: byte := 0x03
  const ROSCTR_USERDATA: byte := 0x07

  // TPKT packet length is 16 bits and counts its own 4-byte header (section 6 of RFC 1006);
  // a COTP data TPDU spends 3 more bytes before its user data.
  const MAX_USER_DATA := 0xFFFF - 4 - 3

  datatype Header = Header(
    rosctr: byte,
    redundancyId: u16,
    pduRef: u16,
    paramLength: u16,
    dataLength: u16,
    errorClass: byte,
    errorCode: byte)

  datatype HeaderError = ShortHeader | InvalidProtocolId | ShortAckHeader | PayloadLength

  function HeaderBytes(rosctr: byte, pduRef: u16, paramLen: int, dataLen: int): (b: seq<byte>)
    ensures |b| == S7_HEADER_SIZE
  {
    [PROTOCOL_ID, rosctr] + PutU16(0) + PutU16(pduRef) + PutU16(paramLen) + PutU16(dataLen)
  }

  method PutUint16(buf: array<byte>, at: nat, n: int)
    requires at + 2 <= buf.Length
    modifies buf
    ensures buf[..] == old(buf[..])[..at] + PutU16(n) + old(buf[..])[at + 2..]
  {
    buf[at] := (n / 0x100) % 0x100;
    buf[at + 1] := n % 0x100;
  }

  method EncodeS7Header(rosctr: byte, pduRef: u16, paramLen: int, dataLen: int) returns (buf: array<byte>)
    ensures fresh(buf) && buf[..] == HeaderBytes(rosctr, pduRef, paramLen, dataLen)
  {
    buf := new byte[S7_HEADER_SIZE](_ => 0);
    buf[0] := PROTOCOL_ID;
    buf[1] := rosctr;
    PutUint16(buf, 2, 0);
    PutUint16(buf, 4, pduRef);
    PutUint16(buf, 6, paramLen);
    PutUint16(buf, 8, dataLen);
  }

  predicate IsAck(rosctr: byte) {
    rosctr == ROSCTR_ACK_DATA || rosctr == ROSCTR_ACK
  }

  /** What the fixed fields of a buffer say; the error fields are read on acknowledgements only. */
  function FieldsOf(data: seq<byte>): Header
    requires |data| >= S7_HEADER_SIZE && (IsAck(data[1]) ==> |data| >= 12)
  {
    Header(data[1], GetU16(data, 2), GetU16(data, 4), GetU16(data, 6), GetU16(data, 8),
           if IsAck(data[1]) then data[10] else 0, if IsAck(data[1]) then data[11] else 0)
  }

  function Parsed(data: seq<byte>): (r: Result<(Header, seq<byte>), HeaderError>)
    ensures r.Ok? ==> r.value.0.paramLength + r.value.0.dataLength <= |r.value.1| <= |data| - S7_HEADER_SIZE
  {
    if |data| < S7_HEADER_SIZE then Err(ShortHeader)
    else if data[0] != PROTOCOL_ID then Err(InvalidProtocolId)
    else if IsAck(data[1]) && |data| < S7_HEADER_SIZE + 2 then Err(ShortAckHeader)
    else
      var h := FieldsOf(data);
      var rest := data[if IsAck(data[1]) then 12 else S7_HEADER_SIZE..];
      if |rest| < h.paramLength + h.dataLength then Err(PayloadLength) else Ok((h, rest))
  }

  method ParseS7Header(data: seq<byte>) returns (r: Result<(Header, seq<byte>), HeaderError>)
    ensures r == Parsed(data)
  {
    if |data| < S7_HEADER_SIZE {
      return Err(ShortHeader);
    }
    if data[0] != PROTOCOL_ID {
      return Err(InvalidProtocolId);
    }
    var h := Header(data[1], GetU16(data, 2), GetU16(data, 4), GetU16(data, 6), GetU16(data, 8), 0, 0);
    var offset := S7_HEADER_SIZE;
    if h.rosctr == ROSCTR_ACK_DATA || h.rosctr == ROSCTR_ACK {
      if |data| < S7_HEADER_SIZE + 2 {
        return Err(ShortAckHeader);
      }
      h := h.(errorClass := data[10], errorCode := data[11]);
      offset := 12;
    }
    if |data[offset..]| < h.paramLength + h.dataLength {
      return Err(PayloadLength);
    }
    return Ok((h, data[offset..]));
  }

  /** sendReceive's two slices of the payload; their bounds are computed in 16 bits. */
  function Split(h: Header, rest: seq<byte>): (seq<byte>, seq<byte>)
    requires h.paramLength <= (h.paramLength + h.dataLength) % 0x1_0000 <= |rest|
  {
    (rest[..h.paramLength], rest[h.paramLength..(h.paramLength + h.dataLength) % 0x1_0000])
  }

  /** The 16-bit sum used for slicing is exact and in range for every payload of one TPKT frame. */
  lemma SplitCannotWrap(data: seq<byte>)
    requires |data| <= MAX_USER_DATA && Parsed(data).Ok?
    ensures var (h, rest) := Parsed(data).value;
            && (h.paramLength + h.dataLength) % 0x1_0000 == h.paramLength + h.dataLength <= |rest|
            && |Split(h, rest).0| == h.paramLength && |Split(h, rest).1| == h.dataLength
            && Split(h, rest).0 + Split(h, rest).1 <= rest
  {
    var (h, rest) := Parsed(data).value;
    assert rest[..h.paramLength] + rest[h.paramLength..h.paramLength + h.dataLength]
        == rest[..h.paramLength + h.dataLength];
  }

  lemma SplitConcat(h: Header, param: seq<byte>, data: seq<byte>)
    requires h.paramLength == |param| && h.dataLength == |data| && |param| + |data| < 0x1_0000
    ensures Split(h, param + data) == (param, data)
  {
    assert (param + data)[..|param|] == param;
    assert (param + data)[|param|..|param| + |data|] == data;
  }

  lemma FieldsOfHeader(rosctr: byte, pduRef: u16, paramLen: u16, dataLen: u16, tail: seq<byte>)
    requires IsAck(rosctr) ==> |tail| >= 2
    ensures var f := HeaderBytes(rosctr, pduRef, paramLen, dataLen) + tail;
            && f[0] == PROTOCOL_ID && f[1] == rosctr
            && f[S7_HEADER_SIZE..] == tail
            && FieldsOf(f) == Header(rosctr, 0, pduRef, paramLen, dataLen,
                                     if IsAck(rosctr) then tail[0] else 0, if IsAck(rosctr) then tail[1] else 0)
  {
    U16RoundTrip(pduRef);
    U16RoundTrip(paramLen);
    U16RoundTrip(dataLen);
  }

  /** Parsing an encoded Job or Userdata header plus its two sections gives back reference, lengths and sections. */
  lemma RequestRoundTrip(rosctr: byte, pduRef: u16, param: seq<byte>, data: seq<byte>)
    requires !IsAck(rosctr) && |param| + |data| < 0x1_0000
    ensures var r := Parsed(HeaderBytes(rosctr, pduRef, |param|, |data|) + param + data);
            && r == Ok((Header(rosctr, 0, pduRef, |param|, |data|, 0, 0), param + data))
            && Split(r.value.0, r.value.1) == (param, data)
  {
    var f := HeaderBytes(rosctr, pduRef, |param|, |data|) + (param + data);
    assert f == HeaderBytes(rosctr, pduRef, |param|, |data|) + param + data;
    FieldsOfHeader(rosctr, pduRef, |param|, |data|, param + data);
    SplitConcat(FieldsOf(f), param, data);
  }

  /** An acknowledgement of either kind as a device sends it: the header, its two error bytes, the sections. */
  function AckFrame(rosctr: byte, pduRef: u16, errorClass: byte, errorCode: byte, param: seq<byte>, data: seq<byte>): seq<byte> {
    HeaderBytes(rosctr, pduRef, |param|, |data|) + [errorClass, errorCode] + param + data
  }

  function AckBytes(pduRef: u16, errorClass: byte, errorCode: byte, param: seq<byte>, data: seq<byte>): seq<byte> {
    AckFrame(ROSCTR_ACK_DATA, pduRef, errorClass, errorCode, param, data)
  }

  /** Parsing an acknowledgement, plain or with data, gives back reference, error, lengths and sections. */
  lemma EitherAckRoundTrip(rosctr: byte, pduRef: u16, errorClass: byte, errorCode: byte, param: seq<byte>, data: seq<byte>)
    requires IsAck(rosctr) && |param| + |data| < 0x1_0000
    ensures var r := Parsed(AckFrame(rosctr, pduRef, errorClass, errorCode, param, data));
            && r == Ok((Header(rosctr, 0, pduRef, |param|, |data|, errorClass, errorCode), param + data))
            && Split(r.value.0, r.value.1) == (param, data)
  {
    var tail := [errorClass, errorCode] + (param + data);
    var f := HeaderBytes(rosctr, pduRef, |param|, |data|) + tail;
    assert f == AckFrame(rosctr, pduRef, errorClass, errorCode, param, data);
    FieldsOfHeader(rosctr, pduRef, |param|, |data|, tail);
    assert f[12..] == f[S7_HEADER_SIZE..][2..] == param + data;
    SplitConcat(FieldsOf(f), param, data);
  }

  lemma AckRoundTrip(pduRef: u16, errorClass: byte, errorCode: byte, param: seq<byte>, data: seq<byte>)
    requires |param| + |data| < 0x1_0000
    ensures var r := Parsed(AckBytes(pduRef, errorClass, errorCode, param, data));
            && r == Ok((Header(ROSCTR_ACK_DATA, 0, pduRef, |param|, |data|, errorClass, errorCode), param + data))
            && Split(r.value.0, r.value.1) == (param, data)
  {
    EitherAckRoundTrip(ROSCTR_ACK_DATA, pduRef, errorClass, errorCode, param, data);
  }
}
