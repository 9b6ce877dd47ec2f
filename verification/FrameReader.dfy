/** The message parser (src/protocol/frame_reader.c). */
module FrameReader {
  import opened Bytes
  import opened Frames
  import opened Checksum
  import opened ByteRead
  import opened FrameFormat

  const ZERO_FRAME: Frame := Frame(0, 0, 0, 0, 0, 0, [], 0, 0)

  /** The record the caller passes in as `*out`. */
  class Message {
    var version: uint16
    var flags: uint16
    var sessionId: uint64
    var sequence: uint32
    var frameCount: uint32
    var frames: seq<Frame>

    constructor ()
      ensures Value() == CLEARED
    {
      version, flags, sessionId, sequence, frameCount, frames := 0, 0, 0, 0, 0, [];
    }

    function Value(): MessageValue
      reads this
    {
      MessageValue(version, flags, sessionId, sequence, frameCount, frames)
    }

    method Clear()
      modifies this
      ensures Value() == CLEARED
    {
      version, flags, sessionId, sequence, frameCount, frames := 0, 0, 0, 0, 0, [];
    }
  }

  method ParseMessage(data: seq<byte>, out: Message) returns (rc: Status)
    modifies out
    ensures (rc, out.Value()) == Parse(data)
  {
    hide Crc32, LoadLe16, LoadLe32, LoadLe64, ParseFrames, Resumed, ParseFrame;
    out.Clear();
    if |data| < 28 { return ShortRead; }
    if data[..4] != [0x49, 0x50, 0x4d, 0x42] { return BadMagic; }
    var r := new Reader(data[4..]);
    var headerCrc;
    headerCrc := ReadHeader(data, r, out);
    r.data := data;
    r.pos := 28;
    if out.frameCount > 1024 { return Limit; }
    var crc := ComputeCrc32(data[..24]);
    if crc != headerCrc { return BadCrc; }
    out.frames := seq(out.frameCount, _ => ZERO_FRAME);
    assert out.frames[..0] == [];
    ResumedStart(data, 28, out.frameCount);
    for i := 0 to out.frameCount
      invariant r.data == data && r.pos <= |data|
      invariant out.Value() == Header(data).(frames := out.frames) && |out.frames| == out.frameCount
      invariant Resumed(data, out.frames[..i], r.pos, out.frameCount - i) == ParseFrames(data, 28, out.frameCount)
    {
      ghost var before := out.frames[..i];
      ResumedStep(data, before, r.pos, out.frameCount - i);
      var status, frame := ReadFrame(data, r);
      if status != OK {
        out.Clear();
        return status;
      }
      out.frames := out.frames[i := frame];
      assert out.frames[..i + 1] == before + [frame];
    }
    ResumedStep(data, out.frames, r.pos, 0);
    assert out.frames[..out.frameCount] == out.frames;
    rc := OK;
  }

  /** The six header reads; 28 bytes are there, so none of them comes up short. */
  method ReadHeader(data: seq<byte>, r: Reader, out: Message) returns (headerCrc: uint32)
    requires |data| >= HEADER_LEN && r.data == data[4..] && r.pos == 0
    requires out.Value() == CLEARED
    modifies r`pos, out
    ensures out.Value() == Header(data) && headerCrc == LoadLe32(data, 24)
  {
    hide LoadLe16, LoadLe32, LoadLe64;
    HeaderTail(data);
    var status;
    status, out.version := r.ReadLe16();
    status, out.flags := r.ReadLe16();
    status, out.frameCount := r.ReadLe32();
    status, out.sessionId := r.ReadLe64();
    status, out.sequence := r.ReadLe32();
    status, headerCrc := r.ReadLe32();
  }

  lemma HeaderTail(data: seq<byte>)
    requires |data| >= HEADER_LEN
    ensures LoadLe16(data[4..], 0) == LoadLe16(data, 4) && LoadLe16(data[4..], 2) == LoadLe16(data, 6)
    ensures LoadLe32(data[4..], 4) == LoadLe32(data, 8) && LoadLe64(data[4..], 8) == LoadLe64(data, 12)
    ensures LoadLe32(data[4..], 16) == LoadLe32(data, 20) && LoadLe32(data[4..], 20) == LoadLe32(data, 24)
  {
  }

  /** The seven reads of a frame header, when its 20 bytes are there. */
  method ReadFrameHead(r: Reader) returns (f: Frame, length: uint32)
    requires r.pos + FRAME_HEADER_LEN <= |r.data|
    modifies r`pos
    ensures r.pos == old(r.pos) + FRAME_HEADER_LEN && length == LoadLe32(r.data, old(r.pos) + 4)
    ensures var pos := old(r.pos);
      f == Frame(LoadLe16(r.data, pos), LoadLe16(r.data, pos + 2), LoadLe32(r.data, pos + 8),
                 LoadLe32(r.data, pos + 12),
                 LoadLe16(r.data, pos + 16), LoadLe16(r.data, pos + 18), [], 0, 0)
  {
    hide LoadLe16, LoadLe32;
    var status, v16, v32;
    f := ZERO_FRAME;
    status, v16 := r.ReadLe16();
    f := f.(frameType := v16);
    status, v16 := r.ReadLe16();
    f := f.(frameFlags := v16);
    status, length := r.ReadLe32();
    status, v32 := r.ReadLe32();
    f := f.(sourceAddr := v32);
    status, v32 := r.ReadLe32();
    f := f.(destAddr := v32);
    status, v16 := r.ReadLe16();
    f := f.(priority := v16);
    status, v16 := r.ReadLe16();
    f := f.(ttl := v16);
  }

  /** One iteration of the frame loop. */
  method ReadFrame(data: seq<byte>, r: Reader) returns (rc: Status, f: Frame)
    requires r.data == data && r.pos <= |data|
    modifies r`pos
    ensures match ParseFrame(data, old(r.pos))
            case NoFrame(s) => rc == s
            case GotFrame(frame, next) => rc == OK && f == frame && r.pos == next
  {
    hide LoadLe16, LoadLe32, Crc32;
    var start := r.pos;
    if r.Remaining() < 20 { return ShortRead, ZERO_FRAME; }
    var length, status, payload, crc;
    f, length := ReadFrameHead(r);
    if length > 1024 * 1024 { return Limit, f; }
    status, payload := r.ReadBytes(length);
    if status != OK { return ShortRead, f; }
    status, crc := r.ReadLe32();
    if status != OK { return ShortRead, f; }
    f := f.(crc := crc);
    var sum := ComputeCrc32(data[start..start + 20 + length]);
    if sum != f.crc { return BadCrc, f; }
    f := f.(payload := payload, payloadLen := length);
    rc := OK;
  }

  /** What the whole frame list is when `done` has been read and `n` frames are left from `pos`. */
  ghost function Resumed(data: seq<byte>, done: seq<Frame>, pos: nat, n: nat): FramesResult
    requires pos <= |data|
  {
    match ParseFrames(data, pos, n)
    case NoFrames(s) => NoFrames(s)
    case GotFrames(fs, end) => GotFrames(done + fs, end)
  }

  lemma ResumedStart(data: seq<byte>, pos: nat, n: nat)
    requires pos <= |data|
    ensures Resumed(data, [], pos, n) == ParseFrames(data, pos, n)
  {
    hide ParseFrames;
    match ParseFrames(data, pos, n)
    case NoFrames(s) =>
    case GotFrames(fs, end) => assert [] + fs == fs;
  }

  /** One frame more is done, or the status is settled. */
  lemma {:induction false} ResumedStep(data: seq<byte>, done: seq<Frame>, pos: nat, n: nat)
    requires pos <= |data|
    ensures Resumed(data, done, pos, n) ==
      if n == 0 then GotFrames(done, pos)
      else match ParseFrame(data, pos)
           case NoFrame(s) => NoFrames(s)
           case GotFrame(f, next) => Resumed(data, done + [f], next, n - 1)
  {
    hide ParseFrame;
    if n == 0 {
      assert done + [] == done;
    } else if ParseFrame(data, pos).GotFrame? {
      var f, next := ParseFrame(data, pos).frame, ParseFrame(data, pos).next;
      match ParseFrames(data, next, n - 1)
      case NoFrames(s) =>
      case GotFrames(fs, end) => assert done + ([f] + fs) == (done + [f]) + fs;
    }
  }

  /** How a search ends. `NullRead` stands for following the null pointer that a refused header
      leaves as the frame array, although the count is set. */
  datatype Search = Found(index: nat) | Missing | NullRead

  /** The first frame of a type, in any record a parse can leave behind. */
  method FirstFrame(msg: Message, frameType: uint16) returns (r: Search)
    requires msg.frames == [] || |msg.frames| == msg.frameCount
    ensures match r
            case Found(i) => i < |msg.frames| && msg.frames[i].frameType == frameType &&
                             forall k :: 0 <= k < i ==> msg.frames[k].frameType != frameType
            case Missing => |msg.frames| == msg.frameCount &&
                            forall k :: 0 <= k < |msg.frames| ==> msg.frames[k].frameType != frameType
            case NullRead => |msg.frames| != msg.frameCount
  {
    for i := 0 to msg.frameCount
      invariant i > 0 ==> |msg.frames| == msg.frameCount
      invariant |msg.frames| == msg.frameCount ==> forall k :: 0 <= k < i ==> msg.frames[k].frameType != frameType
    {
      if msg.frames == [] { return NullRead; }
      if msg.frames[i].frameType == frameType { return Found(i); }
    }
    r := Missing;
  }

  /** After a parse, the search is undefined exactly when a header was refused with its count set. */
  method FindInMessage(data: seq<byte>, frameType: uint16) returns (rc: Status, count: uint32, r: Search)
    ensures rc == Parse(data).0 && count == Parse(data).1.frameCount
    ensures r == NullRead <==> rc != OK && count != 0
  {
    hide Parse;
    var msg := new Message();
    rc := ParseMessage(data, msg);
    SearchableWhen(data);
    assert (rc, msg.Value()) == Parse(data);
    count := msg.frameCount;
    r := FirstFrame(msg, frameType);
  }
}
