/**
 The peertalk frame codec: a 16-octet header of four big-endian 32-bit
 fields (version, type, tag, payloadSize) followed by the payload verbatim.
 */
module PTFrame {
  import opened Bytes
  import opened Results
  import opened Protocol

  /** The `payload` property handed to `encode`. JavaScript only looks at it
      when it is truthy, so a falsy non-Buffer (`0`, `""`, `null`) behaves
      exactly like a missing one; a truthy non-Buffer is rejected. */
  datatype PayloadArg = Absent | Buffer(data: seq<byte>) | Other(truthy: bool)

  /** The argument object of `encode`; `None` is a property left undefined,
      which picks up the destructuring default. */
  datatype FrameFields = FrameFields(version: Option<nat>, frameType: nat, tag: Option<nat>, payload: PayloadArg)

  /** The record `decode` returns. */
  datatype Frame = Frame(version: u32, frameType: u32, tag: u32, payloadSize: u32, payload: seq<byte>)

  datatype EncodeError = InvalidPayloadType
  datatype DecodeError =
    | HeaderOutOfRange  // `readUInt32BE` past the end of a buffer shorter than a header
    | TruncatedFrame    // the header declares more payload than follows it

  /** The octets the payload argument contributes to the frame. */
  function PayloadBytes(p: PayloadArg): seq<byte> {
    if p.Buffer? then p.data else []
  }

  function VersionOf(f: FrameFields): nat {
    if f.version.Some? then f.version.value else ProtocolVersion1
  }

  function TagOf(f: FrameFields): nat {
    if f.tag.Some? then f.tag.value else NoTag
  }

  /** Every value `encode` writes fits `writeUInt32BE`. */
  predicate InRange(f: FrameFields) {
    && VersionOf(f) < U32Limit
    && f.frameType < U32Limit
    && TagOf(f) < U32Limit
    && |PayloadBytes(f.payload)| < U32Limit
  }

  /** The 16 header octets for the given field values. */
  function Header(version: u32, frameType: u32, tag: u32, payloadSize: u32): (h: seq<byte>)
    ensures |h| == HeadSize
    ensures ReadU32BE(h, 0) == version && ReadU32BE(h, 4) == frameType
    ensures ReadU32BE(h, 8) == tag && ReadU32BE(h, 12) == payloadSize
  {
    var h := WriteU32BE(version) + WriteU32BE(frameType) + WriteU32BE(tag) + WriteU32BE(payloadSize);
    ReadWriteU32BE(version);
    ReadWriteU32BE(frameType);
    ReadWriteU32BE(tag);
    ReadWriteU32BE(payloadSize);
    ReadU32BEFrame(h, WriteU32BE(version), 0, 0);
    ReadU32BEFrame(h, WriteU32BE(frameType), 4, 0);
    ReadU32BEFrame(h, WriteU32BE(tag), 8, 0);
    ReadU32BEFrame(h, WriteU32BE(payloadSize), 12, 0);
    h
  }

  /** `PTFrame.encode`: the header, then the payload octets. */
  function Encode(f: FrameFields): (r: Result<seq<byte>, EncodeError>)
    requires InRange(f)
    ensures r.Failure? <==> f.payload == Other(true)
    ensures r.Success? ==>
              && |r.value| == HeadSize + |PayloadBytes(f.payload)|
              && ReadU32BE(r.value, 0) == VersionOf(f)
              && ReadU32BE(r.value, 4) == f.frameType
              && ReadU32BE(r.value, 8) == TagOf(f)
              && ReadU32BE(r.value, 12) == |PayloadBytes(f.payload)|
              && r.value[HeadSize..] == PayloadBytes(f.payload)
  {
    if f.payload == Other(true) then
      Failure(InvalidPayloadType)
    else
      var payload := PayloadBytes(f.payload);
      var h := Header(VersionOf(f), f.frameType, TagOf(f), |payload|);
      var buf := h + payload;
      ReadU32BEFrame(buf, h, 0, 0);
      ReadU32BEFrame(buf, h, 4, 4);
      ReadU32BEFrame(buf, h, 8, 8);
      ReadU32BEFrame(buf, h, 12, 12);
      Success(buf)
  }

  /** Node's `buf.slice(start)`: a negative start counts from the end, and
      the start is clamped into `0..|data|`. */
  function SliceFrom(data: seq<byte>, start: int): (r: seq<byte>)
    ensures |r| <= |data| && r == data[|data| - |r|..]
    ensures 0 <= start <= |data| ==> |r| == |data| - start
    ensures -|data| <= start < 0 ==> |r| == -start
    ensures start > |data| ==> r == []
    ensures start < -|data| ==> r == data
  {
    var len := |data|;
    var from := if start < 0 then (if start + len > 0 then start + len else 0)
                else if start > len then len
                else start;
    data[from..]
  }

  /** `PTFrame.decode` as it is written: the header fields, then the last
      `payloadSize` octets of the buffer, whatever the buffer's length. */
  function DecodeAsWritten(data: seq<byte>): (r: Result<Frame, DecodeError>)
    ensures r.Failure? <==> |data| < HeadSize
    ensures r.Failure? ==> r.error == HeaderOutOfRange
    ensures r.Success? ==>
              && r.value.version == ReadU32BE(data, 0)
              && r.value.frameType == ReadU32BE(data, 4)
              && r.value.tag == ReadU32BE(data, 8)
              && r.value.payloadSize == ReadU32BE(data, 12)
              && |r.value.payload| <= |data|
              && r.value.payload == data[|data| - |r.value.payload|..]
              && (|r.value.payload| == r.value.payloadSize <==> r.value.payloadSize <= |data|)
              && (r.value.payloadSize > |data| ==>
                    var from := 2 * |data| - r.value.payloadSize;
                    r.value.payload == data[(if from > 0 then from else 0)..])
  {
    if |data| < HeadSize then
      Failure(HeaderOutOfRange)
    else
      var payloadSize := ReadU32BE(data, 12);
      Success(Frame(ReadU32BE(data, 0), ReadU32BE(data, 4), ReadU32BE(data, 8), payloadSize,
                    SliceFrom(data, |data| - payloadSize)))
  }

  /** A decoded frame whose payload has the length its header declares. */
  predicate WellFormed(fr: Frame) {
    |fr.payload| == fr.payloadSize
  }

  /** `PTFrame.decode` with the missing bound check: a header that declares
      more payload than follows it is a `TruncatedFrame`. */
  function Decode(data: seq<byte>): (r: Result<Frame, DecodeError>)
    ensures r == Failure(HeaderOutOfRange) <==> |data| < HeadSize
    ensures r == Failure(TruncatedFrame) <==> |data| >= HeadSize && ReadU32BE(data, 12) > |data| - HeadSize
    ensures r.Success? ==>
              && WellFormed(r.value)
              && r.value.payloadSize <= |data| - HeadSize
              && r.value.payload == data[|data| - r.value.payloadSize..]
              && Success(r.value) == DecodeAsWritten(data)
  {
    if |data| < HeadSize then
      Failure(HeaderOutOfRange)
    else if ReadU32BE(data, 12) > |data| - HeadSize then
      Failure(TruncatedFrame)
    else
      DecodeAsWritten(data)
  }

  /** The argument that re-encodes a decoded frame. */
  function FieldsOf(fr: Frame): FrameFields {
    FrameFields(Some(fr.version), fr.frameType, Some(fr.tag), Buffer(fr.payload))
  }

  /** Round trip: decoding an encoded frame gives back the version, type and
      tag written (defaults filled in), the payload verbatim, and a
      `payloadSize` equal to its length. */
  lemma {:induction false} DecodeEncode(f: FrameFields)
    requires InRange(f) && f.payload != Other(true)
    ensures Encode(f).Success?
    ensures Decode(Encode(f).value)
         == Success(Frame(VersionOf(f), f.frameType, TagOf(f), |PayloadBytes(f.payload)|, PayloadBytes(f.payload)))
  {
    var buf := Encode(f).value;
    var p := PayloadBytes(f.payload);
    assert buf[|buf| - |p|..] == buf[HeadSize..];
  }

  /** The other direction: a buffer holding exactly one well-formed frame is
      reproduced by encoding what `Decode` made of it. */
  lemma {:induction false} EncodeDecode(data: seq<byte>)
    requires |data| >= HeadSize && |data| == HeadSize + ReadU32BE(data, 12)
    ensures Decode(data).Success?
    ensures Encode(FieldsOf(Decode(data).value)) == Success(data)
  {
    var fr := Decode(data).value;
    var buf := Encode(FieldsOf(fr)).value;
    assert fr.payload == data[HeadSize..];
    assert |buf| == |data|;
    WriteReadU32BE(buf, 0);
    WriteReadU32BE(data, 0);
    WriteReadU32BE(buf, 4);
    WriteReadU32BE(data, 4);
    WriteReadU32BE(buf, 8);
    WriteReadU32BE(data, 8);
    WriteReadU32BE(buf, 12);
    WriteReadU32BE(data, 12);
    assert buf[..HeadSize] == buf[0..4] + buf[4..8] + buf[8..12] + buf[12..16];
    assert data[..HeadSize] == data[0..4] + data[4..8] + data[8..12] + data[12..16];
    assert buf == buf[..HeadSize] + buf[HeadSize..];
    assert data == data[..HeadSize] + data[HeadSize..];
  }

  /** The code as written accepts a header whose `payloadSize` reaches back
      into the header: with two payload octets after a header declaring
      four, the "payload" starts with the last two header octets. */
  lemma OverlappingPayloadAsWritten()
    ensures var data := Header(ProtocolVersion1, TextMessage, NoTag, 4) + [0x41, 0x42];
            && DecodeAsWritten(data) == Success(Frame(1, 3000, 0, 4, [0, 4, 0x41, 0x42]))
            && Decode(data) == Failure(TruncatedFrame)
  {
    var data := Header(ProtocolVersion1, TextMessage, NoTag, 4) + [0x41, 0x42];
    assert data[14..] == [0, 4, 0x41, 0x42];
  }

  /** A header declaring more octets than the whole buffer holds: Node's
      `slice(-4)` on a bare 16-octet header declaring 20 returns the
      header's own size field as payload. */
  lemma OversizedPayloadAsWritten()
    ensures DecodeAsWritten(Header(ProtocolVersion1, TextMessage, NoTag, 20))
         == Success(Frame(1, 3000, 0, 20, [0, 0, 0, 20]))
  {
    var data := Header(ProtocolVersion1, TextMessage, NoTag, 20);
    assert data[12..] == [0, 0, 0, 20];
  }

  /** Whenever the declared size fits in the buffer but not after the
      header, the code as written returns header octets as payload. */
  lemma {:induction false} AsWrittenPayloadOverlapsHeader(data: seq<byte>)
    requires |data| >= HeadSize
    requires |data| - HeadSize < ReadU32BE(data, 12) <= |data|
    ensures DecodeAsWritten(data).Success?
    ensures var fr := DecodeAsWritten(data).value;
            |fr.payload| == fr.payloadSize && fr.payload[0] == data[|data| - fr.payloadSize]
            && |data| - fr.payloadSize < HeadSize
    ensures Decode(data) == Failure(TruncatedFrame)
  {
  }
}
