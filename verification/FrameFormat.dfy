/** The message container as a byte format.

    `Serialize` lays a message out as tests/support/message_builder.c does. `Parse` says what
    src/protocol/frame_reader.c decides about any byte string, with its statuses in its order. The
    theorems tie the two together from both sides.
 */
module FrameFormat {
  import opened Bytes
  import opened Frames
  import opened Checksum

  const MAX_FRAMES: nat := 1024
  const MAX_PAYLOAD: nat := 1024 * 1024
  const HEADER_LEN: nat := 28
  const FRAME_HEADER_LEN: nat := 20

  const MAGIC: seq<byte> := ['I' as int, 'P' as int, 'M' as int, 'B' as int]

  datatype MessageValue = MessageValue(
    version: uint16,
    flags: uint16,
    sessionId: uint64,
    sequence: uint32,
    frameCount: uint32,
    frames: seq<Frame>)

  /** The message record after `memset(out, 0, ...)`. */
  const CLEARED: MessageValue := MessageValue(0, 0, 0, 0, 0, [])

  // ----- writing -----

  function FrameHead(f: Frame): (s: seq<byte>)
    ensures |s| == FRAME_HEADER_LEN
  {
    Le16(f.frameType) + (Le16(f.frameFlags) + (Le32(f.payloadLen % 0x1_0000_0000) +
      (Le32(f.sourceAddr) + (Le32(f.destAddr) + (Le16(f.priority) + Le16(f.ttl))))))
  }

  /** What the frame's CRC covers. */
  function FrameBody(f: Frame): (s: seq<byte>)
    ensures |s| == FRAME_HEADER_LEN + |f.payload|
  {
    FrameHead(f) + f.payload
  }

  function FrameBytes(f: Frame): (s: seq<byte>)
    ensures |s| == FRAME_HEADER_LEN + |f.payload| + 4
  {
    FrameBody(f) + Le32(f.crc)
  }

  predicate WellFormedFrame(f: Frame) {
    f.payloadLen == |f.payload| && f.payloadLen <= MAX_PAYLOAD && f.crc == Crc32(FrameBody(f))
  }

  predicate AllWellFormed(fs: seq<Frame>) {
    forall i :: 0 <= i < |fs| ==> WellFormedFrame(fs[i])
  }

  function FramesBytes(fs: seq<Frame>): seq<byte>
  {
    if fs == [] then [] else FrameBytes(fs[0]) + FramesBytes(fs[1..])
  }

  /** What the header's CRC covers. */
  function HeaderBody(m: MessageValue): (s: seq<byte>)
    ensures |s| == 24
  {
    MAGIC + (Le16(m.version) + (Le16(m.flags) + (Le32(m.frameCount) + (Le64(m.sessionId) + Le32(m.sequence)))))
  }

  function HeaderBytes(m: MessageValue): (s: seq<byte>)
    ensures |s| == HEADER_LEN
  {
    HeaderBody(m) + Le32(Crc32(HeaderBody(m)))
  }

  predicate WellFormed(m: MessageValue) {
    m.frameCount == |m.frames| && m.frameCount <= MAX_FRAMES && AllWellFormed(m.frames)
  }

  function Serialize(m: MessageValue): seq<byte>
  {
    HeaderBytes(m) + FramesBytes(m.frames)
  }

  // ----- reading -----

  datatype FrameResult = NoFrame(status: Status) | GotFrame(frame: Frame, next: nat)

  function ParseFrame(data: seq<byte>, pos: nat): (r: FrameResult)
    requires pos <= |data|
    ensures r.GotFrame? ==> pos < r.next <= |data|
    ensures r.NoFrame? ==> r.status != OK
  {
    if |data| - pos < FRAME_HEADER_LEN then NoFrame(ShortRead)
    else
      var len := LoadLe32(data, pos + 4);
      var end := pos + FRAME_HEADER_LEN + len;
      if len > MAX_PAYLOAD then NoFrame(Limit)
      else if end + 4 > |data| then NoFrame(ShortRead)
      else if Crc32(data[pos..end]) != LoadLe32(data, end) then NoFrame(BadCrc)
      else GotFrame(
        Frame(LoadLe16(data, pos), LoadLe16(data, pos + 2), LoadLe32(data, pos + 8), LoadLe32(data, pos + 12),
              LoadLe16(data, pos + 16), LoadLe16(data, pos + 18),
              data[pos + FRAME_HEADER_LEN..end], len, LoadLe32(data, end)),
        end + 4)
  }

  datatype FramesResult = NoFrames(status: Status) | GotFrames(frames: seq<Frame>, next: nat)

  function ParseFrames(data: seq<byte>, pos: nat, n: nat): (r: FramesResult)
    requires pos <= |data|
    ensures r.GotFrames? ==> |r.frames| == n && pos <= r.next <= |data|
    ensures r.NoFrames? ==> r.status != OK
    decreases n
  {
    if n == 0 then GotFrames([], pos)
    else
      match ParseFrame(data, pos)
      case NoFrame(s) => NoFrames(s)
      case GotFrame(f, next) =>
        match ParseFrames(data, next, n - 1)
        case NoFrames(s) => NoFrames(s)
        case GotFrames(fs, end) => GotFrames([f] + fs, end)
  }

  /** The header fields, before any frame is read. */
  function Header(data: seq<byte>): MessageValue
    requires |data| >= HEADER_LEN
  {
    MessageValue(LoadLe16(data, 4), LoadLe16(data, 6), LoadLe64(data, 12), LoadLe32(data, 20), LoadLe32(data, 8), [])
  }

  /** Every byte string is given a status, and the record `*out` is left in a known state. */
  function Parse(data: seq<byte>): (r: (Status, MessageValue)) {
    if |data| < HEADER_LEN then (ShortRead, CLEARED)
    else if data[..4] != MAGIC then (BadMagic, CLEARED)
    else if Header(data).frameCount > MAX_FRAMES then (Limit, Header(data))
    else if Crc32(data[..24]) != LoadLe32(data, 24) then (BadCrc, Header(data))
    else
      match ParseFrames(data, HEADER_LEN, Header(data).frameCount)
      case NoFrames(s) => (s, CLEARED)
      case GotFrames(fs, _) => (OK, Header(data).(frames := fs))
  }

  // ----- fields in place -----

  lemma FrameHeadAt(data: seq<byte>, pos: nat, f: Frame)
    requires f.payloadLen < 0x1_0000_0000
    requires At(data, pos, FrameHead(f))
    ensures LoadLe16(data, pos) == f.frameType && LoadLe16(data, pos + 2) == f.frameFlags
    ensures LoadLe32(data, pos + 4) == f.payloadLen && LoadLe32(data, pos + 8) == f.sourceAddr
    ensures LoadLe32(data, pos + 12) == f.destAddr && LoadLe16(data, pos + 16) == f.priority
    ensures LoadLe16(data, pos + 18) == f.ttl
  {
    hide LoadLe16, LoadLe32, Le16, Le32, At;
    var g := Le16(f.priority) + Le16(f.ttl);
    var e := Le32(f.destAddr) + g;
    var d := Le32(f.sourceAddr) + e;
    var c := Le32(f.payloadLen % 0x1_0000_0000) + d;
    var b := Le16(f.frameFlags) + c;
    AtParts(data, pos, Le16(f.frameType), b);
    AtParts(data, pos + 2, Le16(f.frameFlags), c);
    AtParts(data, pos + 4, Le32(f.payloadLen % 0x1_0000_0000), d);
    AtParts(data, pos + 8, Le32(f.sourceAddr), e);
    AtParts(data, pos + 12, Le32(f.destAddr), g);
    AtParts(data, pos + 16, Le16(f.priority), Le16(f.ttl));
    Stored16(data, pos, f.frameType);
    Stored16(data, pos + 2, f.frameFlags);
    Stored32(data, pos + 4, f.payloadLen % 0x1_0000_0000);
    Stored32(data, pos + 8, f.sourceAddr);
    Stored32(data, pos + 12, f.destAddr);
    Stored16(data, pos + 16, f.priority);
    Stored16(data, pos + 18, f.ttl);
  }

  lemma Stored16(data: seq<byte>, pos: nat, v: uint16)
    requires At(data, pos, Le16(v))
    ensures pos + 2 <= |data| && LoadLe16(data, pos) == v
  {
    hide LoadLe16, Le16;
    LoadStored16(v, data, pos);
  }

  lemma Stored32(data: seq<byte>, pos: nat, v: uint32)
    requires At(data, pos, Le32(v))
    ensures pos + 4 <= |data| && LoadLe32(data, pos) == v
  {
    hide LoadLe32, Le32;
    LoadStored32(v, data, pos);
  }

  /** The header bytes of the frame that was read are the bytes it was read from. */
  lemma FrameHeadOf(data: seq<byte>, pos: nat, f: Frame)
    requires pos + FRAME_HEADER_LEN <= |data| && f.payloadLen < 0x1_0000_0000
    requires LoadLe16(data, pos) == f.frameType && LoadLe16(data, pos + 2) == f.frameFlags
    requires LoadLe32(data, pos + 4) == f.payloadLen && LoadLe32(data, pos + 8) == f.sourceAddr
    requires LoadLe32(data, pos + 12) == f.destAddr && LoadLe16(data, pos + 16) == f.priority
    requires LoadLe16(data, pos + 18) == f.ttl
    ensures data[pos..pos + FRAME_HEADER_LEN] == FrameHead(f)
  {
    hide LoadLe16, LoadLe32, Le16, Le32;
    StoredLoad16(data, pos);
    StoredLoad16(data, pos + 2);
    StoredLoad32(data, pos + 4);
    StoredLoad32(data, pos + 8);
    StoredLoad32(data, pos + 12);
    StoredLoad16(data, pos + 16);
    StoredLoad16(data, pos + 18);
    Seven(data, pos);
  }

  lemma Seven(data: seq<byte>, pos: nat)
    requires pos + 20 <= |data|
    ensures data[pos..pos + 20] ==
      data[pos..pos + 2] + (data[pos + 2..pos + 4] + (data[pos + 4..pos + 8] + (data[pos + 8..pos + 12] +
      (data[pos + 12..pos + 16] + (data[pos + 16..pos + 18] + data[pos + 18..pos + 20])))))
  {
  }

  // ----- one frame -----

  /** A well-formed frame is read back whole, wherever it lies. */
  lemma FrameIsRead(data: seq<byte>, pos: nat, f: Frame)
    requires WellFormedFrame(f) && At(data, pos, FrameBytes(f))
    ensures ParseFrame(data, pos) == GotFrame(f, pos + |FrameBytes(f)|)
  {
    hide Crc32, LoadLe16, LoadLe32, Le32, FrameHead;
    var end := pos + FRAME_HEADER_LEN + |f.payload|;
    AtParts(data, pos, FrameBody(f), Le32(f.crc));
    AtParts(data, pos, FrameHead(f), f.payload);
    FrameHeadAt(data, pos, f);
    Stored32(data, end, f.crc);
  }

  /** A frame that is read is well-formed, and its bytes are the bytes that were consumed. */
  lemma ReadFrameIsExact(data: seq<byte>, pos: nat)
    requires pos <= |data| && ParseFrame(data, pos).GotFrame?
    ensures var r := ParseFrame(data, pos);
      WellFormedFrame(r.frame) && data[pos..r.next] == FrameBytes(r.frame)
  {
    hide Crc32, LoadLe16, LoadLe32, Le32, FrameHead;
    var r := ParseFrame(data, pos);
    var f, end := r.frame, r.next - 4;
    FrameHeadOf(data, pos, f);
    StoredLoad32(data, end);
    assert data[pos..end] == data[pos..pos + 20] + data[pos + 20..end];
    assert data[pos..r.next] == data[pos..end] + data[end..end + 4];
  }

  // ----- all frames -----

  lemma {:induction false} FramesAreRead(data: seq<byte>, pos: nat, fs: seq<Frame>)
    requires AllWellFormed(fs) && At(data, pos, FramesBytes(fs))
    ensures ParseFrames(data, pos, |fs|) == GotFrames(fs, pos + |FramesBytes(fs)|)
    decreases fs
  {
    hide ParseFrame, FrameBytes, WellFormedFrame, At;
    if fs == [] {
      AtEnd(data, pos);
    } else {
      AtParts(data, pos, FrameBytes(fs[0]), FramesBytes(fs[1..]));
      FrameIsRead(data, pos, fs[0]);
      FramesAreRead(data, pos + |FrameBytes(fs[0])|, fs[1..]);
    }
  }

  lemma AtEnd(data: seq<byte>, pos: nat)
    requires At(data, pos, [])
    ensures pos <= |data|
  {
  }

  lemma {:induction false} ReadFramesAreExact(data: seq<byte>, pos: nat, n: nat)
    requires pos <= |data| && ParseFrames(data, pos, n).GotFrames?
    ensures var r := ParseFrames(data, pos, n);
      AllWellFormed(r.frames) && data[pos..r.next] == FramesBytes(r.frames)
    decreases n
  {
    hide ParseFrame, FrameBytes, WellFormedFrame;
    if n > 0 {
      ReadFrameIsExact(data, pos);
      var r := ParseFrame(data, pos);
      ReadFramesAreExact(data, r.next, n - 1);
      var s := ParseFrames(data, r.next, n - 1);
      assert data[pos..s.next] == data[pos..r.next] + data[r.next..s.next];
    }
  }

  // ----- the header -----

  lemma HeaderAt(data: seq<byte>, m: MessageValue)
    requires |data| >= HEADER_LEN && At(data, 0, HeaderBytes(m))
    ensures data[..4] == MAGIC && data[..24] == HeaderBody(m)
    ensures Header(data) == m.(frames := []) && LoadLe32(data, 24) == Crc32(HeaderBody(m))
  {
    hide Crc32, LoadLe16, LoadLe32, LoadLe64, Le16, Le32, Le64, At;
    var d := Le64(m.sessionId) + Le32(m.sequence);
    var c := Le32(m.frameCount) + d;
    var b := Le16(m.flags) + c;
    var a := Le16(m.version) + b;
    AtParts(data, 0, HeaderBody(m), Le32(Crc32(HeaderBody(m))));
    AtParts(data, 0, MAGIC, a);
    AtParts(data, 4, Le16(m.version), b);
    AtParts(data, 6, Le16(m.flags), c);
    AtParts(data, 8, Le32(m.frameCount), d);
    AtParts(data, 12, Le64(m.sessionId), Le32(m.sequence));
    Stored16(data, 4, m.version);
    Stored16(data, 6, m.flags);
    Stored32(data, 8, m.frameCount);
    Stored64(data, 12, m.sessionId);
    Stored32(data, 20, m.sequence);
    Stored32(data, 24, Crc32(HeaderBody(m)));
    AtStart(data, HeaderBody(m));
    AtStart(data, MAGIC);
  }

  lemma AtStart(data: seq<byte>, fragment: seq<byte>)
    requires At(data, 0, fragment)
    ensures |fragment| <= |data| && data[..|fragment|] == fragment
  {
  }

  lemma Stored64(data: seq<byte>, pos: nat, v: uint64)
    requires At(data, pos, Le64(v))
    ensures pos + 8 <= |data| && LoadLe64(data, pos) == v
  {
    hide LoadLe64, Le64;
    LoadStored64(v, data, pos);
  }

  lemma HeaderOf(data: seq<byte>)
    requires |data| >= HEADER_LEN && data[..4] == MAGIC
    ensures data[..24] == HeaderBody(Header(data))
  {
    hide LoadLe16, LoadLe32, LoadLe64, Le16, Le32, Le64;
    StoredLoad16(data, 4);
    StoredLoad16(data, 6);
    StoredLoad32(data, 8);
    StoredLoad64(data, 12);
    StoredLoad32(data, 20);
    SixParts(data);
  }

  lemma SixParts(data: seq<byte>)
    requires |data| >= 24
    ensures data[..24] == data[..4] + (data[4..6] + (data[6..8] + (data[8..12] + (data[12..20] + data[20..24]))))
  {
  }

  // ----- the exact format -----

  /** Whatever follows it, a serialised message is accepted and every field is recovered. */
  lemma {:induction false} SerializedIsParsed(m: MessageValue, rest: seq<byte>)
    requires WellFormed(m)
    ensures Parse(Serialize(m) + rest) == (OK, m)
  {
    hide Crc32, LoadLe16, LoadLe32, LoadLe64, Header, HeaderBytes, HeaderBody, AllWellFormed, ParseFrames;
    var data := Serialize(m) + rest;
    assert At(data, 0, HeaderBytes(m));
    assert At(data, HEADER_LEN, FramesBytes(m.frames));
    HeaderAt(data, m);
    FramesAreRead(data, HEADER_LEN, m.frames);
  }

  /** An accepted byte string starts with the serialisation of the message it yields. */
  lemma ParsedIsSerialized(data: seq<byte>)
    requires Parse(data).0 == OK
    ensures var m := Parse(data).1; WellFormed(m) && Serialize(m) <= data
  {
    hide Crc32, LoadLe16, LoadLe32, LoadLe64, Header, HeaderBody, Le32, AllWellFormed, ParseFrames;
    var m, h := Parse(data).1, Header(data);
    HeaderOf(data);
    StoredLoad32(data, 24);
    ReadFramesAreExact(data, HEADER_LEN, h.frameCount);
    HeaderIgnoresFrames(h, m.frames);
    var end := ParseFrames(data, HEADER_LEN, h.frameCount).next;
    assert data[..end] == data[..24] + data[24..28] + data[28..end];
  }

  lemma {:induction false} HeaderIgnoresFrames(m: MessageValue, fs: seq<Frame>)
    ensures HeaderBody(m.(frames := fs)) == HeaderBody(m)
  {
  }

  /** The accepted byte strings are exactly the extensions of serialised messages. */
  lemma AcceptedExactly(data: seq<byte>)
    ensures Parse(data).0 == OK <==> exists m :: WellFormed(m) && Serialize(m) <= data
  {
    hide Serialize, WellFormed, Parse;
    if Parse(data).0 == OK {
      ParsedIsSerialized(data);
    }
    forall m | WellFormed(m) && Serialize(m) <= data
      ensures Parse(data).0 == OK
    {
      assert data == Serialize(m) + data[|Serialize(m)|..];
      SerializedIsParsed(m, data[|Serialize(m)|..]);
    }
  }

  /** A header alone, with frame count zero, is a whole message. */
  lemma NoFramesIsAccepted(version: uint16, flags: uint16, sessionId: uint64, sequence: uint32)
    ensures var m := MessageValue(version, flags, sessionId, sequence, 0, []);
      |HeaderBytes(m)| == HEADER_LEN && Parse(HeaderBytes(m)) == (OK, m)
  {
    hide Crc32, Header, HeaderBody, ParseFrames, Parse;
    var m := MessageValue(version, flags, sessionId, sequence, 0, []);
    SerializedIsParsed(m, []);
    assert Serialize(m) + [] == HeaderBytes(m);
  }

  /** And those are the only ones without frames: an accepted message has as many frames as its
      count field says. */
  lemma CountIsExact(data: seq<byte>)
    requires Parse(data).0 == OK
    ensures |data| >= HEADER_LEN && |Parse(data).1.frames| == LoadLe32(data, 8)
    ensures Parse(data).1.frames == [] <==> LoadLe32(data, 8) == 0
  {
    hide Crc32, LoadLe32, ParseFrames;
  }

  /** Whether the record that is left behind, after any status, has the frame array its count
      promises: a refused header leaves the count without the array. */
  lemma SearchableWhen(data: seq<byte>)
    ensures var (rc, m) := Parse(data);
      (|m.frames| == m.frameCount <==> rc == OK || m.frameCount == 0) &&
      (m.frames == [] || |m.frames| == m.frameCount)
  {
    hide Crc32, LoadLe16, LoadLe32, LoadLe64, ParseFrames;
  }
}
