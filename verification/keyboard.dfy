/**
 The keystroke relay: each raw chunk read from the terminal becomes the
 fields of one outgoing frame.
 */
module Keyboard {
  import opened Bytes
  import opened Results
  import opened Protocol
  import opened PTFrame

  const Backspace: byte := 0x7F
  const CarriageReturn: byte := 0x0D
  const LineFeed: byte := 0x0A

  /** `QVKeyboardTextFrame`: the text prefixed by its length as a
      big-endian 32-bit integer. */
  function TextFrame(d: seq<byte>): (r: seq<byte>)
    requires |d| < U32Limit
    ensures |r| == 4 + |d|
    ensures ReadU32BE(r, 0) == |d|
    ensures r[4..] == d
  {
    var r := WriteU32BE(|d|) + d;
    ReadWriteU32BE(|d|);
    ReadU32BEFrame(r, WriteU32BE(|d|), 0, 0);
    r
  }

  /** What the receiving end makes of a text payload: the octets after the
      length prefix, when the prefix matches them. */
  function UnwrapText(p: seq<byte>): (r: Option<seq<byte>>)
    ensures r.Some? ==> |p| == 4 + |r.value| && p[4..] == r.value
  {
    if |p| >= 4 && ReadU32BE(p, 0) == |p| - 4 then Some(p[4..]) else None
  }

  /** Unwrapping a text payload gives back the text. */
  lemma {:induction false} UnwrapTextFrame(d: seq<byte>)
    requires |d| < U32Limit
    ensures UnwrapText(TextFrame(d)) == Some(d)
  {
  }

  /** Every payload that unwraps is the text frame of what it unwraps to. */
  lemma {:induction false} TextFrameOfUnwrap(p: seq<byte>)
    requires UnwrapText(p).Some?
    ensures TextFrame(UnwrapText(p).value) == p
  {
    var d := UnwrapText(p).value;
    WriteReadU32BE(p, 0);
    assert p == p[0..4] + p[4..];
  }

  /** The in-place `\r` to `\n` fix applied to a lone carriage return. */
  function FixLineEnd(buf: seq<byte>): (r: seq<byte>)
    ensures |r| == |buf|
    ensures buf == [CarriageReturn] ==> r == [LineFeed]
    ensures buf != [CarriageReturn] ==> r == buf
  {
    if |buf| == 1 && buf[0] == CarriageReturn then [LineFeed] else buf
  }

  /** The frame fields the stdin `data` handler sends for one chunk. */
  function ChunkToFrame(buf: seq<byte>): (r: FrameFields)
    requires |buf| < U32Limit
    ensures r.version == None && r.tag == None
    ensures r.frameType == DeleteBackward <==> buf == [Backspace]
    ensures r.frameType == DeleteBackward ==> r.payload == Absent
    ensures r.frameType != DeleteBackward ==>
              && r.frameType == TextMessage
              && r.payload.Buffer?
              && UnwrapText(r.payload.data) == Some(if buf == [CarriageReturn] then [LineFeed] else buf)
  {
    if |buf| == 1 && buf[0] == Backspace then
      FrameFields(None, DeleteBackward, None, Absent)
    else
      var text := FixLineEnd(buf);
      UnwrapTextFrame(text);
      FrameFields(None, TextMessage, None, Buffer(TextFrame(text)))
  }

  /** Two chunks map to the same frame exactly when they are equal or are
      a carriage return and a line feed: nothing else is conflated. */
  lemma {:induction false} ChunkToFrameInjective(a: seq<byte>, b: seq<byte>)
    requires |a| < U32Limit && |b| < U32Limit
    ensures ChunkToFrame(a) == ChunkToFrame(b) <==>
              || a == b
              || (a == [CarriageReturn] && b == [LineFeed])
              || (a == [LineFeed] && b == [CarriageReturn])
  {
    var fa, fb := ChunkToFrame(a), ChunkToFrame(b);
    if fa == fb && fa.frameType == TextMessage {
      assert FixLineEnd(a) == UnwrapText(fa.payload.data).value == FixLineEnd(b);
    }
  }

  /** The concrete chunks the relay is known for. */
  lemma ChunkExamples()
    ensures ChunkToFrame([0x7F]) == FrameFields(None, 2001, None, Absent)
    ensures ChunkToFrame([0x0D]) == FrameFields(None, 3000, None, Buffer([0, 0, 0, 1, 0x0A]))
    ensures ChunkToFrame([0x68, 0x69]) == FrameFields(None, 3000, None, Buffer([0, 0, 0, 2, 0x68, 0x69]))
    ensures ChunkToFrame([0x61, 0x7F]).payload == Buffer([0, 0, 0, 2, 0x61, 0x7F])
  {
  }

  /** The octets written to the tunnel for one chunk. */
  function Relay(buf: seq<byte>): (r: seq<byte>)
    requires 4 + |buf| < U32Limit
    ensures |r| == HeadSize + (if buf == [Backspace] then 0 else 4 + |buf|)
  {
    Encode(ChunkToFrame(buf)).value
  }

  /** End to end: the device decodes the relayed octets to a frame of
      version 1 and tag 0 that is either a DeleteBackward with no payload
      (for a lone backspace) or a TextMessage carrying the chunk, with a
      lone carriage return turned into a line feed. */
  lemma {:induction false} RelayDelivers(buf: seq<byte>)
    requires 4 + |buf| < U32Limit
    ensures Decode(Relay(buf)).Success?
    ensures var fr := Decode(Relay(buf)).value;
            && fr.version == ProtocolVersion1 && fr.tag == NoTag
            && (buf == [Backspace] ==> fr.frameType == DeleteBackward && fr.payload == [])
            && (buf != [Backspace] ==>
                  fr.frameType == TextMessage
                  && UnwrapText(fr.payload) == Some(FixLineEnd(buf)))
  {
    DecodeEncode(ChunkToFrame(buf));
  }
}
