/** wire/pdu_blocks.go: the upload requests and responses. */
module PduBlocks {
  import opened Bytes
  import opened S7

  const RET_UNUSED: byte := 0x00
  const FUNC_UPLOAD_START: byte := 0x1D
  const FUNC_UPLOAD: byte := 0x1E
  const FUNC_UPLOAD_END: byte := 0x1F

  const ZEROS7: seq<byte> := [0, 0, 0, 0, 0, 0, 0]

  function TypeChar(blockType: byte): byte {
    match blockType
    case 0x38 => 0x38  // OB '8'
    case 0x41 => 0x41  // DB 'A'
    case 0x43 => 0x43  // FC 'C'
    case 0x45 => 0x45  // FB 'E'
    case 0x44 => 0x44  // SFC 'D'
    case 0x46 => 0x46  // SFB 'F'
    case _ => 0x41
  }

  function Digit(n: nat): byte {
    0x30 + n % 10
  }

  function StartUploadRequest(pduRef: u16, blockType: byte, blockNum: nat): seq<byte> {
    var name := [0x5F, TypeChar(blockType),
                 Digit(blockNum / 10000), Digit(blockNum / 1000), Digit(blockNum / 100), Digit(blockNum / 10), Digit(blockNum),
                 0x41, 0x00];
    var param := [FUNC_UPLOAD_START] + ZEROS7 + [0x09] + name;
    HeaderBytes(ROSCTR_JOB, pduRef, |param|, 0) + param
  }

  /** An upload or end-upload request; a session id is cut to the 255 bytes its length byte can count. */
  function SessionRequest(func: byte, pduRef: u16, sessionId: seq<byte>): seq<byte> {
    var id := if |sessionId| > 255 then sessionId[..255] else sessionId;
    var param := [func] + ZEROS7 + [|id|] + id;
    HeaderBytes(ROSCTR_JOB, pduRef, |param|, 0) + param
  }

  function UploadRequest(pduRef: u16, sessionId: seq<byte>): seq<byte> {
    SessionRequest(FUNC_UPLOAD, pduRef, sessionId)
  }

  function EndUploadRequest(pduRef: u16, sessionId: seq<byte>): seq<byte> {
    SessionRequest(FUNC_UPLOAD_END, pduRef, sessionId)
  }

  predicate IsSpace(b: byte) {
    b == 0x20 || 0x09 <= b <= 0x0D
  }

  function TrimSpace(s: seq<byte>): seq<byte>
    decreases |s|
  {
    if s != [] && IsSpace(s[0]) then TrimSpace(s[1..])
    else if s != [] && IsSpace(s[|s| - 1]) then TrimSpace(s[..|s| - 1])
    else s
  }

  function ParseStartUploadResponse(param: seq<byte>): Option<seq<byte>> {
    if |param| < 10 || param[0] != FUNC_UPLOAD_START then None
    else if param[8] == 0 || 9 + param[8] > |param| then None
    else Some(TrimSpace(param[9..9 + param[8]]))
  }

  datatype UploadChunk = UploadChunk(done: bool, data: seq<byte>)

  function ParseUploadResponse(param: seq<byte>, data: seq<byte>): Option<UploadChunk> {
    if |param| < 2 || param[0] != FUNC_UPLOAD || |data| < 4 then None
    else
      var lengthBytes := (GetU16(data, 2) + 7) / 8;
      if 4 + lengthBytes > |data| then None
      else Some(UploadChunk(param[1] == 0, data[4..4 + lengthBytes]))
  }

  lemma RequestsCarryTheirRef(pduRef: u16, blockType: byte, blockNum: nat, func: byte, sessionId: seq<byte>)
    ensures GetU16(StartUploadRequest(pduRef, blockType, blockNum), 4) == pduRef
    ensures GetU16(SessionRequest(func, pduRef, sessionId), 4) == pduRef
  {
    U16RoundTrip(pduRef);
  }

  /** A segment as a device sends it, and the client's reading of it. */
  lemma UploadResponseRoundTrip(segment: seq<byte>, done: bool)
    requires |segment| <= 0x1FFF
    ensures ParseUploadResponse([FUNC_UPLOAD, if done then 0 else 1], [RET_UNUSED, 0x04] + PutU16(8 * |segment|) + segment)
         == Some(UploadChunk(done, segment))
  {
    U16RoundTrip(8 * |segment|);
    var data := [RET_UNUSED, 0x04] + PutU16(8 * |segment|) + segment;
    assert data[4..4 + |segment|] == segment;
  }
}
