/** wire/pdu_rw.go: Read Var and Write Var requests, and the multi-item response parser. */
module PduReadWrite {
  import opened Bytes
  import opened S7

  const FUNC_READ_VAR: byte := 0x04
  const FUNC_WRITE_VAR: byte := 0x05
  const RET_CODE_SUCCESS: byte := 0xFF
  const READ_VAR_REQUEST_OVERHEAD := S7_HEADER_SIZE + 2 + 12
  const WRITE_VAR_REQUEST_OVERHEAD := S7_HEADER_SIZE + 2 + 12 + 4

  datatype S7AnyAddress = S7AnyAddress(area: byte, dbNumber: int, start: int, size: int)

  /** Size and DB number are cut to 16 bits, the bit address start * 8 to 24 bits. */
  function EncodeS7Any(addr: S7AnyAddress): (b: seq<byte>)
    ensures |b| == 12
  {
    [0x12, 0x0A, 0x10, 0x02] + PutU16(addr.size) + PutU16(addr.dbNumber) + [addr.area] + PutU24(addr.start * 8)
  }

  function AddressBytes(addrs: seq<S7AnyAddress>): seq<byte> {
    if addrs == [] then [] else AddressBytes(addrs[..|addrs| - 1]) + EncodeS7Any(addrs[|addrs| - 1])
  }

  function ReadRequest(pduRef: u16, addrs: seq<S7AnyAddress>): seq<byte> {
    var param := [FUNC_READ_VAR, |addrs| % 0x100] + AddressBytes(addrs);
    HeaderBytes(ROSCTR_JOB, pduRef, |param|, 0) + param
  }

  method EncodeReadVarRequest(pduRef: u16, addrs: seq<S7AnyAddress>) returns (req: seq<byte>)
    ensures req == ReadRequest(pduRef, addrs)
  {
    var param := [FUNC_READ_VAR, |addrs| % 0x100];
    for i := 0 to |addrs|
      invariant param == [FUNC_READ_VAR, |addrs| % 0x100] + AddressBytes(addrs[..i])
    {
      assert addrs[..i + 1][..i] == addrs[..i];
      param := param + EncodeS7Any(addrs[i]);
    }
    assert addrs[..|addrs|] == addrs;
    var header := EncodeS7Header(ROSCTR_JOB, pduRef, |param|, 0);
    req := header[..] + param;
  }

  function WriteParam(addr: S7AnyAddress): (b: seq<byte>)
    ensures |b| == 14
  {
    [FUNC_WRITE_VAR, 1] + EncodeS7Any(addr)
  }

  /** The value's length goes out in bits cut to 16; an odd section gets one padding byte. */
  function WriteData(value: seq<byte>): (b: seq<byte>)
    ensures |b| == 4 + |value| + |value| % 2
  {
    [RET_CODE_SUCCESS, 0x04] + PutU16(|value| * 8) + value + (if |value| % 2 != 0 then [0x00] else [])
  }

  function WriteRequest(pduRef: u16, addr: S7AnyAddress, value: seq<byte>): seq<byte> {
    HeaderBytes(ROSCTR_JOB, pduRef, |WriteParam(addr)|, |WriteData(value)|) + WriteParam(addr) + WriteData(value)
  }

  method EncodeWriteVarRequest(pduRef: u16, addr: S7AnyAddress, value: seq<byte>) returns (req: seq<byte>)
    ensures req == WriteRequest(pduRef, addr, value)
  {
    var param := [FUNC_WRITE_VAR, 1];
    param := param + EncodeS7Any(addr);
    var data: seq<byte> := [RET_CODE_SUCCESS, 0x04] + PutU16(|value| * 8);
    data := data + value;
    if |data| % 2 != 0 {
      data := data + [0x00];
    }
    assert data == WriteData(value);
    var header := EncodeS7Header(ROSCTR_JOB, pduRef, |param|, |data|);
    req := header[..] + param + data;
  }

  lemma RequestSizes(pduRef: u16, addr: S7AnyAddress, value: seq<byte>)
    ensures |ReadRequest(pduRef, [addr])| == READ_VAR_REQUEST_OVERHEAD
    ensures |WriteRequest(pduRef, addr, value)| == WRITE_VAR_REQUEST_OVERHEAD + |value| + |value| % 2
    ensures GetU16(ReadRequest(pduRef, [addr]), 4) == pduRef == GetU16(WriteRequest(pduRef, addr, value), 4)
  {
    assert AddressBytes([addr]) == EncodeS7Any(addr);
    U16RoundTrip(pduRef);
  }

  // ---------------------------------------------------------------- responses

  datatype ParamError = ParamTooShort | WrongFunction | DataTooShort
  datatype ParseError =
    | BadParam(param: ParamError)
    | UnknownTransportSize(code: byte)
    | TruncatedItemHeader(at: nat)
    | TruncatedItemPayload(at: nat)
    | ReturnCode(code: byte)

  /** Data is present on success codes only (nil otherwise). */
  datatype ReadVarItem = ReadVarItem(returnCode: byte, rawTransportSize: byte, rawLength: u16, data: Option<seq<byte>>)

  predicate CountsBits(transportSize: byte) {
    || transportSize == 0x01 || 0x03 <= transportSize <= 0x0C || transportSize == 0x0F
    || 0x1C <= transportSize <= 0x20
  }

  function NormalizeResponseDataLength(transportSize: byte, rawLength: u16): (r: Result<nat, ParseError>)
    ensures r.Ok? <==> transportSize == 0x02 || CountsBits(transportSize)
    ensures CountsBits(transportSize) ==> 8 * r.value - 8 < rawLength <= 8 * r.value
    ensures transportSize == 0x02 ==> r.value == rawLength
  {
    if CountsBits(transportSize) then Ok((rawLength + 7) / 8)
    else if transportSize == 0x02 then Ok(rawLength)
    else Err(UnknownTransportSize(transportSize))
  }

  function DecodeReadResponseItem(data: seq<byte>, offset: nat, isLastItem: bool)
    : (r: Result<(ReadVarItem, nat), ParseError>)
    ensures r.Ok? ==> offset + 4 <= r.value.1 <= |data|
  {
    if offset + 4 > |data| then Err(TruncatedItemHeader(offset)) else
    var retCode, transportSize, rawLength := data[offset], data[offset + 1], GetU16(data, offset + 2);
    match NormalizeResponseDataLength(transportSize, rawLength)
    case Err(e) => Err(e)
    case Ok(byteLen) =>
      if offset + 4 + byteLen > |data| then Err(TruncatedItemPayload(offset)) else
      var payload := if retCode == RET_CODE_SUCCESS then Some(data[offset + 4..offset + 4 + byteLen]) else None;
      var item := ReadVarItem(retCode, transportSize, rawLength, payload);
      var next := offset + 4 + byteLen;
      if byteLen % 2 != 0 && next >= |data| && !isLastItem then Err(TruncatedItemPayload(offset))
      else Ok((item, if byteLen % 2 != 0 && next < |data| then next + 1 else next))
  }

  function ParsedItems(data: seq<byte>, offset: nat, remaining: nat): (r: Result<seq<ReadVarItem>, ParseError>)
    decreases remaining
  {
    if remaining == 0 then Ok([]) else
    match DecodeReadResponseItem(data, offset, remaining == 1)
    case Err(e) => Err(e)
    case Ok((item, next)) =>
      match ParsedItems(data, next, remaining - 1)
      case Err(e) => Err(e)
      case Ok(items) => Ok([item] + items)
  }

  function ParsedReadResponse(param: seq<byte>, data: seq<byte>): Result<seq<ReadVarItem>, ParseError> {
    if |param| < 2 then Err(BadParam(ParamTooShort))
    else if param[0] != FUNC_READ_VAR then Err(BadParam(WrongFunction))
    else ParsedItems(data, 0, param[1])
  }

  function Prepend(items: seq<ReadVarItem>, r: Result<seq<ReadVarItem>, ParseError>): Result<seq<ReadVarItem>, ParseError> {
    match r
    case Err(e) => Err(e)
    case Ok(more) => Ok(items + more)
  }

  method ParseReadVarResponse(param: seq<byte>, data: seq<byte>) returns (r: Result<seq<ReadVarItem>, ParseError>)
    ensures r == ParsedReadResponse(param, data)
  {
    if |param| < 2 {
      return Err(BadParam(ParamTooShort));
    }
    if param[0] != FUNC_READ_VAR {
      return Err(BadParam(WrongFunction));
    }
    var itemCount: nat := param[1];
    var items: seq<ReadVarItem> := [];
    var offset := 0;
    ghost var all := ParsedItems(data, 0, itemCount);
    assert all.Ok? ==> items + all.value == all.value;
    for i := 0 to itemCount
      invariant ParsedItems(data, 0, itemCount) == Prepend(items, ParsedItems(data, offset, itemCount - i))
    {
      var isLast := i == itemCount - 1;
      match DecodeReadResponseItem(data, offset, isLast)
      case Err(e) =>
        return Err(e);
      case Ok((item, next)) =>
        ghost var more := ParsedItems(data, next, itemCount - (i + 1));
        assert more.Ok? ==> items + ([item] + more.value) == items + [item] + more.value;
        items := items + [item];
        offset := next;
    }
    assert items + [] == items;
    return Ok(items);
  }

  function ParseWriteVarResponse(param: seq<byte>, data: seq<byte>): Option<ParseError> {
    if |param| < 2 then Some(BadParam(ParamTooShort))
    else if param[0] != FUNC_WRITE_VAR then Some(BadParam(WrongFunction))
    else if |data| < 1 then Some(BadParam(DataTooShort))
    else if data[0] != RET_CODE_SUCCESS then Some(ReturnCode(data[0]))
    else None
  }

  // ---------------------------------------------------------------- the serializer a device runs

  datatype WireItem = WireItem(returnCode: byte, transportSize: byte, rawLength: u16, payload: seq<byte>) {
    predicate Valid() {
      NormalizeResponseDataLength(transportSize, rawLength) == Ok(|payload|)
    }

    function View(): ReadVarItem {
      ReadVarItem(returnCode, transportSize, rawLength, if returnCode == RET_CODE_SUCCESS then Some(payload) else None)
    }

    /** Fill is the pad byte placed after an odd payload, when one is placed. */
    function Bytes(fill: Option<byte>): (b: seq<byte>)
      ensures |b| == 4 + |payload| + (if |payload| % 2 != 0 && fill.Some? then 1 else 0)
    {
      [returnCode, transportSize] + PutU16(rawLength) + payload
      + (if |payload| % 2 != 0 && fill.Some? then [fill.value] else [])
    }
  }

  /** Each item, with a fill byte after every odd payload; the fill after the last one is optional. */
  function Serialize(items: seq<WireItem>, fill: byte, fillLast: bool): seq<byte> {
    if items == [] then []
    else items[0].Bytes(if |items| > 1 || fillLast then Some(fill) else None) + Serialize(items[1..], fill, fillLast)
  }

  function Views(items: seq<WireItem>): seq<ReadVarItem> {
    if items == [] then [] else [items[0].View()] + Views(items[1..])
  }

  lemma SerializeOne(item: WireItem, fill: byte, fillLast: bool)
    ensures Serialize([item], fill, fillLast) == item.Bytes(if fillLast then Some(fill) else None)
    ensures Views([item]) == [item.View()]
  {
  }

  lemma DecodeOne(before: seq<byte>, item: WireItem, fill: Option<byte>, after: seq<byte>)
    requires item.Valid() && (fill.None? ==> after == [])
    ensures DecodeReadResponseItem(before + item.Bytes(fill) + after, |before|, after == [])
         == Ok((item.View(), |before| + |item.Bytes(fill)|))
  {
    var data := before + item.Bytes(fill) + after;
    U16RoundTrip(item.rawLength);
    assert data[|before| + 4..|before| + 4 + |item.payload|] == item.payload;
    assert GetU16(data, |before| + 2) == item.rawLength;
  }

  lemma {:induction false} ParseSerialized(before: seq<byte>, items: seq<WireItem>, fill: byte, fillLast: bool)
    requires forall i :: 0 <= i < |items| ==> items[i].Valid()
    ensures ParsedItems(before + Serialize(items, fill, fillLast), |before|, |items|) == Ok(Views(items))
    decreases |items|
  {
    if items != [] {
      var f := if |items| > 1 || fillLast then Some(fill) else None;
      var first, rest := items[0].Bytes(f), Serialize(items[1..], fill, fillLast);
      assert before + Serialize(items, fill, fillLast) == before + first + rest;
      if |items| > 1 {
        assert |rest| >= 4;
      }
      DecodeOne(before, items[0], f, rest);
      ParseSerialized(before + first, items[1..], fill, fillLast);
    }
  }

  /** Parsing a serialized item list returns the list, with data exactly on the success codes. */
  lemma ReadResponseRoundTrip(items: seq<WireItem>, fill: byte, fillLast: bool)
    requires |items| < 0x100 && forall i :: 0 <= i < |items| ==> items[i].Valid()
    ensures ParsedReadResponse([FUNC_READ_VAR, |items|], Serialize(items, fill, fillLast)) == Ok(Views(items))
  {
    ParseSerialized([], items, fill, fillLast);
    assert [] + Serialize(items, fill, fillLast) == Serialize(items, fill, fillLast);
  }

  // ---------------------------------------------------------------- what an accepted response must look like

  /** An item occupies [start, next): its header, its payload, at most one fill byte after an odd payload. */
  ghost predicate Window(data: seq<byte>, item: ReadVarItem, start: nat, next: nat) {
    && start + 4 <= |data|
    && item.returnCode == data[start] && item.rawTransportSize == data[start + 1]
    && item.rawLength == GetU16(data, start + 2)
    && var len := NormalizeResponseDataLength(item.rawTransportSize, item.rawLength);
    && len.Ok? && start + 4 + len.value <= next <= |data|
    && next <= start + 4 + len.value + len.value % 2
    && item.data == if item.returnCode == RET_CODE_SUCCESS then Some(data[start + 4..start + 4 + len.value]) else None
  }

  ghost predicate Tiling(data: seq<byte>, items: seq<ReadVarItem>, at: seq<nat>) {
    && |at| == |items| + 1
    && (forall i :: 0 <= i < |items| ==> at[i] % 2 == at[0] % 2)
    && (forall i :: 0 <= i < |items| ==> Window(data, items[i], at[i], at[i + 1]))
  }

  /** The data section holds a whole item here; only the last one may end the data on an odd payload. */
  predicate HoldsItem(data: seq<byte>, offset: nat, isLastItem: bool) {
    && offset + 4 <= |data|
    && var len := NormalizeResponseDataLength(data[offset + 1], GetU16(data, offset + 2));
    && len.Ok? && offset + 4 + len.value <= |data|
    && (len.value % 2 != 0 && offset + 4 + len.value == |data| ==> isLastItem)
  }

  /** Accepted exactly then; the item is what its window says, and the next one starts at the same parity. */
  lemma ItemWindow(data: seq<byte>, offset: nat, isLastItem: bool)
    ensures DecodeReadResponseItem(data, offset, isLastItem).Ok? <==> HoldsItem(data, offset, isLastItem)
    ensures DecodeReadResponseItem(data, offset, isLastItem).Ok? ==>
              var (item, next) := DecodeReadResponseItem(data, offset, isLastItem).value;
              Window(data, item, offset, next) && (isLastItem || next % 2 == offset % 2)
  {
  }

  lemma TilingCons(data: seq<byte>, item: ReadVarItem, items: seq<ReadVarItem>, start: nat, at: seq<nat>)
    requires Tiling(data, items, at) && Window(data, item, start, at[0])
    requires items != [] ==> at[0] % 2 == start % 2
    ensures Tiling(data, [item] + items, [start] + at)
  {
    hide Window;
    var all, ats := [item] + items, [start] + at;
    forall i | 0 <= i < |all| ensures Window(data, all[i], ats[i], ats[i + 1]) && ats[i] % 2 == start % 2 {
      if i > 0 {
        assert Window(data, items[i - 1], at[i - 1], at[i]);
        assert at[i - 1] % 2 == at[0] % 2;
      }
    }
  }

  lemma {:induction false} TilingFrom(data: seq<byte>, offset: nat, remaining: nat) returns (at: seq<nat>)
    requires ParsedItems(data, offset, remaining).Ok?
    ensures |ParsedItems(data, offset, remaining).value| == remaining
    ensures at != [] && at[0] == offset && Tiling(data, ParsedItems(data, offset, remaining).value, at)
    decreases remaining
  {
    hide DecodeReadResponseItem, Window, Tiling;
    if remaining == 0 {
      at := [offset];
      NoTiles(data, at);
    } else {
      ItemWindow(data, offset, remaining == 1);
      var (item, next) := DecodeReadResponseItem(data, offset, remaining == 1).value;
      var later := TilingFrom(data, next, remaining - 1);
      TilingCons(data, item, ParsedItems(data, next, remaining - 1).value, offset, later);
      at := [offset] + later;
    }
  }

  lemma NoTiles(data: seq<byte>, at: seq<nat>)
    requires |at| == 1
    ensures Tiling(data, [], at)
  {
  }

  /** Any accepted response has exactly param[1] items in ordered, in-bounds windows, each at an even offset. */
  lemma AcceptedResponseIsTiled(param: seq<byte>, data: seq<byte>) returns (at: seq<nat>)
    requires ParsedReadResponse(param, data).Ok?
    ensures |param| >= 2 && param[0] == FUNC_READ_VAR && |ParsedReadResponse(param, data).value| == param[1]
    ensures at != [] && at[0] == 0 && Tiling(data, ParsedReadResponse(param, data).value, at)
    ensures forall i :: 0 <= i < param[1] ==> at[i] % 2 == 0
  {
    at := TilingFrom(data, 0, param[1]);
  }
}
