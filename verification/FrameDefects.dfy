/** Which status a message that is no message gets: the first defect in it decides
    (src/protocol/frame_reader.c:38-90). */
module FrameDefects {
  import opened Bytes
  import opened Frames
  import opened Checksum
  import opened FrameFormat

  // ----- the header -----

  /** A missing header or a wrong magic, and nothing of the record is filled in. */
  lemma NoHeader(data: seq<byte>)
    ensures |data| < 28 ==> Parse(data) == (ShortRead, CLEARED)
    ensures |data| >= 28 && data[..4] != [0x49, 0x50, 0x4d, 0x42] ==> Parse(data) == (BadMagic, CLEARED)
    ensures Parse(data).0 == OK ==> |data| >= 28 && data[..4] == [0x49, 0x50, 0x4d, 0x42]
  {
    hide Crc32, ParseFrames, LoadLe32, LoadLe16, LoadLe64;
  }

  /** A whole header with a given stored CRC: too many frames are refused first, whatever the CRC is,
      and then a wrong CRC. The header's fields are left in the record. */
  lemma {:induction false} DefectiveHeader(m: MessageValue, crc: uint32, rest: seq<byte>)
    requires m.frameCount > 1024 || crc != Crc32(HeaderBody(m))
    ensures Parse(HeaderBody(m) + Le32(crc) + rest) == (if m.frameCount > 1024 then Limit else BadCrc, m.(frames := []))
  {
    var data := HeaderBody(m) + Le32(crc) + rest;
    StoredHeader(data, m, crc);
    hide Crc32, LoadLe16, LoadLe32, LoadLe64, ParseFrames, HeaderBody, Header;
  }

  lemma {:induction false} StoredHeader(data: seq<byte>, m: MessageValue, crc: uint32)
    requires |data| >= 28 && data[..24] == HeaderBody(m) && data[24..28] == Le32(crc)
    ensures data[..4] == MAGIC && Header(data) == m.(frames := []) && LoadLe32(data, 24) == crc
  {
    hide LoadLe16, LoadLe32, LoadLe64, Le16, Le32, Le64;
    LoadStored32(crc, data, 24);
    assert data[..24] == HeaderBody(m);
    var h := data[..24];
    assert h[..4] == MAGIC && h[4..6] == Le16(m.version) && h[6..8] == Le16(m.flags);
    assert h[8..12] == Le32(m.frameCount) && h[12..20] == Le64(m.sessionId) && h[20..24] == Le32(m.sequence);
    hide HeaderBody;
    Within(data, 4, 6);
    Within(data, 6, 8);
    Within(data, 8, 12);
    Within(data, 12, 20);
    Within(data, 20, 24);
    LoadStored16(m.version, data, 4);
    LoadStored16(m.flags, data, 6);
    LoadStored32(m.frameCount, data, 8);
    LoadStored64(m.sessionId, data, 12);
    LoadStored32(m.sequence, data, 20);
    assert data[..4] == h[..4];
  }

  lemma Within(data: seq<byte>, lo: nat, hi: nat)
    requires lo <= hi <= 24 <= |data|
    ensures data[..24][lo..hi] == data[lo..hi]
  {
  }

  // ----- one frame -----

  /** A frame header that announces more than 1 MiB, with anything or nothing behind it. */
  ghost predicate Oversized(tail: seq<byte>, f: Frame) {
    1048576 < f.payloadLen < 0x1_0000_0000 && FrameHead(f) <= tail
  }

  /** Less than a frame header, or a frame of allowed size that is not all there, whatever its CRC. */
  ghost predicate CutOff(tail: seq<byte>, f: Frame) {
    |tail| < 20 || (f.payloadLen == |f.payload| <= 1048576 && tail < FrameBytes(f))
  }

  /** A whole frame of allowed size with a CRC that is not its own. */
  ghost predicate BadlySealed(tail: seq<byte>, f: Frame) {
    f.payloadLen == |f.payload| <= 1048576 && f.crc != Crc32(FrameBody(f)) && FrameBytes(f) <= tail
  }

  lemma PrefixIsAt(data: seq<byte>, pos: nat, fragment: seq<byte>)
    requires pos <= |data| && fragment <= data[pos..]
    ensures At(data, pos, fragment)
  {
    assert data[pos..][..|fragment|] == fragment;
  }

  lemma OversizedFrame(data: seq<byte>, pos: nat, f: Frame)
    requires pos <= |data| && Oversized(data[pos..], f)
    ensures ParseFrame(data, pos) == NoFrame(Limit)
  {
    PrefixIsAt(data, pos, FrameHead(f));
    hide Crc32, LoadLe16, LoadLe32, FrameHead;
    FrameHeadAt(data, pos, f);
  }

  lemma CutOffFrame(data: seq<byte>, pos: nat, f: Frame)
    requires pos <= |data| && CutOff(data[pos..], f)
    ensures ParseFrame(data, pos) == NoFrame(ShortRead)
  {
    hide Crc32, LoadLe16, LoadLe32, Le32, FrameHead;
    if |data| - pos >= FRAME_HEADER_LEN {
      assert FrameBytes(f)[..20] == FrameHead(f);
      assert FrameHead(f) <= data[pos..] by {
        assert data[pos..] == FrameBytes(f)[..|data| - pos];
        assert data[pos..][..20] == FrameBytes(f)[..20];
      }
      PrefixIsAt(data, pos, FrameHead(f));
      FrameHeadAt(data, pos, f);
    }
  }

  lemma BadlySealedFrame(data: seq<byte>, pos: nat, f: Frame)
    requires pos <= |data| && BadlySealed(data[pos..], f)
    ensures ParseFrame(data, pos) == NoFrame(BadCrc)
  {
    hide Crc32, LoadLe16, LoadLe32, Le32, FrameHead, At;
    PrefixIsAt(data, pos, FrameBytes(f));
    SealIsAt(data, pos, f);
    var end := pos + FRAME_HEADER_LEN + |f.payload|;
    FrameHeadAt(data, pos, f);
    Stored32(data, end, f.crc);
  }

  lemma SealIsAt(data: seq<byte>, pos: nat, f: Frame)
    requires At(data, pos, FrameBytes(f))
    ensures var end := pos + FRAME_HEADER_LEN + |f.payload|;
      At(data, pos, FrameHead(f)) && At(data, end, Le32(f.crc)) && end + 4 <= |data| && data[pos..end] == FrameBody(f)
  {
    hide Le32, FrameHead;
    AtParts(data, pos, FrameBody(f), Le32(f.crc));
    AtParts(data, pos, FrameHead(f), f.payload);
  }

  // ----- the first bad frame -----

  lemma {:induction false} FirstRefusalDecides(data: seq<byte>, pos: nat, fs: seq<Frame>, n: nat, s: Status)
    requires AllWellFormed(fs) && At(data, pos, FramesBytes(fs)) && |fs| < n
    requires ParseFrame(data, pos + |FramesBytes(fs)|) == NoFrame(s)
    ensures pos <= |data| && ParseFrames(data, pos, n) == NoFrames(s)
    decreases fs
  {
    hide ParseFrame, FrameBytes, WellFormedFrame, At;
    InsideOf(data, pos, FramesBytes(fs));
    if fs != [] {
      AtParts(data, pos, FrameBytes(fs[0]), FramesBytes(fs[1..]));
      FrameIsRead(data, pos, fs[0]);
      FirstRefusalDecides(data, pos + |FrameBytes(fs[0])|, fs[1..], n - 1, s);
    }
  }

  lemma InsideOf(data: seq<byte>, pos: nat, fragment: seq<byte>)
    requires At(data, pos, fragment)
    ensures pos + |fragment| <= |data|
  {
  }

  /** A good header, good frames, and then a bad one before the count is reached: the bad one gives
      the status, and the record is cleared. */
  lemma {:induction false} DefectiveFrame(m: MessageValue, fs: seq<Frame>, f: Frame, tail: seq<byte>)
    requires |fs| < m.frameCount <= 1024 && AllWellFormed(fs)
    ensures var data := HeaderBytes(m) + FramesBytes(fs) + tail;
      (Oversized(tail, f) ==> Parse(data) == (Limit, CLEARED)) &&
      (CutOff(tail, f) ==> Parse(data) == (ShortRead, CLEARED)) &&
      (BadlySealed(tail, f) ==> Parse(data) == (BadCrc, CLEARED))
  {
    hide Crc32, LoadLe16, LoadLe32, LoadLe64, Header, HeaderBytes, HeaderBody, AllWellFormed, FramesBytes, ParseFrames,
      ParseFrame, Oversized, CutOff, BadlySealed;
    var data := HeaderBytes(m) + FramesBytes(fs) + tail;
    var pos := 28 + |FramesBytes(fs)|;
    assert data[pos..] == tail;
    assert At(data, 0, HeaderBytes(m)) && At(data, 28, FramesBytes(fs));
    HeaderAt(data, m);
    if Oversized(tail, f) {
      OversizedFrame(data, pos, f);
      FirstRefusalDecides(data, 28, fs, m.frameCount, Limit);
    }
    if CutOff(tail, f) {
      CutOffFrame(data, pos, f);
      FirstRefusalDecides(data, 28, fs, m.frameCount, ShortRead);
    }
    if BadlySealed(tail, f) {
      BadlySealedFrame(data, pos, f);
      FirstRefusalDecides(data, 28, fs, m.frameCount, BadCrc);
    }
  }

  /** The frame that the first `24 + len` bytes of a buffer are, by its own length field. */
  function FrameIn(b: seq<byte>, len: uint32): Frame
    requires |b| >= 24 + len
  {
    Frame(LoadLe16(b, 0), LoadLe16(b, 2), LoadLe32(b, 8), LoadLe32(b, 12), LoadLe16(b, 16), LoadLe16(b, 18),
          b[20..20 + len], len, LoadLe32(b, 20 + len))
  }

  lemma FrameInIsExact(b: seq<byte>, len: uint32)
    requires |b| >= 24 + len && LoadLe32(b, 4) == len
    ensures FrameBytes(FrameIn(b, len)) == b[..24 + len] && FrameHead(FrameIn(b, len)) == b[..20]
  {
    hide LoadLe16, LoadLe32, Le32, FrameHead;
    FrameHeadOf(b, 0, FrameIn(b, len));
    StoredLoad32(b, 20 + len);
    assert b[0..20] == b[..20];
    assert b[..24 + len] == (b[..20] + b[20..20 + len]) + b[20 + len..20 + len + 4];
  }

  lemma LoadOfLonger(tail: seq<byte>, more: seq<byte>)
    requires |tail| >= 8
    ensures LoadLe32(tail + more, 4) == LoadLe32(tail, 4)
  {
  }

  /** And every byte string behind good frames is one of the three, or starts with a good frame. */
  lemma EveryTailIsJudged(tail: seq<byte>) returns (f: Frame)
    ensures Oversized(tail, f) || CutOff(tail, f) || BadlySealed(tail, f) ||
            (WellFormedFrame(f) && FrameBytes(f) <= tail)
  {
    if |tail| < 20 {
      f := Frame(0, 0, 0, 0, 0, 0, [], 0, 0);
    } else {
      hide LoadLe16, LoadLe32, FrameHead, Crc32, Le32;
      var len := LoadLe32(tail, 4);
      if |tail| >= 24 + len {
        f := FrameIn(tail, len);
        FrameInIsExact(tail, len);
      } else {
        var more: seq<byte> := seq(24 + len - |tail|, _ => 0);
        LoadOfLonger(tail, more);
        f := FrameIn(tail + more, len);
        FrameInIsExact(tail + more, len);
        assert (tail + more)[..20] == tail[..20];
        assert (tail + more)[..24 + len] == tail + more;
      }
    }
  }
}
