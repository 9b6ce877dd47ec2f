/** What the parser does with damaged messages: cut short, or hit by a short burst of errors. */
module FrameCorruption {
  import opened Bytes
  import opened Frames
  import opened Checksum
  import opened FrameFormat

  // ----- truncation -----

  lemma AtPrefix(data: seq<byte>, k: nat, pos: nat, fragment: seq<byte>)
    requires k <= |data| && At(data, pos, fragment) && pos + |fragment| <= k
    ensures At(data[..k], pos, fragment)
  {
  }

  lemma LoadPrefix(data: seq<byte>, k: nat, pos: nat)
    requires pos + 4 <= k <= |data|
    ensures LoadLe32(data[..k], pos) == LoadLe32(data, pos)
  {
  }

  lemma FrameCutShort(data: seq<byte>, pos: nat, f: Frame, k: nat)
    requires WellFormedFrame(f) && At(data, pos, FrameBytes(f))
    requires pos <= k < pos + |FrameBytes(f)|
    ensures ParseFrame(data[..k], pos) == NoFrame(ShortRead)
  {
    hide Crc32, LoadLe16, LoadLe32, Le32, FrameHead;
    if k - pos >= FRAME_HEADER_LEN {
      AtParts(data, pos, FrameBody(f), Le32(f.crc));
      AtParts(data, pos, FrameHead(f), f.payload);
      FrameHeadAt(data, pos, f);
      LoadPrefix(data, k, pos + 4);
    }
  }

  lemma {:induction false} FramesCutShort(data: seq<byte>, pos: nat, fs: seq<Frame>, k: nat)
    requires AllWellFormed(fs) && At(data, pos, FramesBytes(fs))
    requires pos <= k < pos + |FramesBytes(fs)|
    ensures ParseFrames(data[..k], pos, |fs|) == NoFrames(ShortRead)
    decreases fs
  {
    hide ParseFrame, FrameBytes, WellFormedFrame;
    AtParts(data, pos, FrameBytes(fs[0]), FramesBytes(fs[1..]));
    hide At;
    var next := pos + |FrameBytes(fs[0])|;
    if k < next {
      FrameCutShort(data, pos, fs[0], k);
    } else {
      InRange(data, pos, FrameBytes(fs[0]));
      InRange(data, next, FramesBytes(fs[1..]));
      AtPrefix(data, k, pos, FrameBytes(fs[0]));
      FrameIsRead(data[..k], pos, fs[0]);
      FramesCutShort(data, next, fs[1..], k);
    }
  }

  lemma InRange(data: seq<byte>, pos: nat, fragment: seq<byte>)
    requires At(data, pos, fragment)
    ensures pos + |fragment| <= |data|
  {
  }

  /** No strict prefix of a serialised message is accepted: it always reads as cut short, and no
      field of it is reported. */
  lemma {:induction false} TruncationIsShort(m: MessageValue, k: nat)
    requires WellFormed(m) && k < |Serialize(m)|
    ensures Parse(Serialize(m)[..k]) == (ShortRead, CLEARED)
  {
    hide Crc32, LoadLe16, LoadLe32, LoadLe64, Header, HeaderBytes, HeaderBody, AllWellFormed, ParseFrames;
    var data := Serialize(m);
    if k >= HEADER_LEN {
      assert At(data, 0, HeaderBytes(m));
      assert At(data, HEADER_LEN, FramesBytes(m.frames));
      AtPrefix(data, k, 0, HeaderBytes(m));
      HeaderAt(data[..k], m);
      FramesCutShort(data, HEADER_LEN, m.frames, k);
    }
  }

  // ----- short bursts -----

  lemma SealedBlock(data: seq<byte>, pos: nat, end: nat)
    requires pos <= end && end + 4 <= |data|
    ensures Sealed(data[pos..end + 4]) <==> Crc32(data[pos..end]) == LoadLe32(data, end)
  {
    hide Crc32;
    var block := data[pos..end + 4];
    assert block[..|block| - 4] == data[pos..end];
  }

  lemma BurstKeepsLength(data: seq<byte>, other: seq<byte>, at: int)
    requires AgreeOutside(data, other, at)
    ensures |data| == |other|
  {
    hide SameBitsOutside, BitsOf;
  }

  /** A burst that reaches a sealed part of the buffer breaks its seal. */
  lemma PartBreaks(data: seq<byte>, other: seq<byte>, at: int, lo: nat, hi: nat)
    requires AgreeOutside(data, other, at)
    requires lo <= hi <= |data| && data[lo..hi] != other[lo..hi]
    requires Sealed(data[lo..hi])
    ensures !Sealed(other[lo..hi])
  {
    hide Sealed, AgreeOutside;
    BurstKeepsLength(data, other, at);
    BurstInPart(data, other, at, lo, hi);
    SealBreaks(data[lo..hi], other[lo..hi], at - 8 * lo);
  }

  /** The status of a message whose header was damaged: that of the first failing check. */
  function HeaderStatus(other: seq<byte>): Status
    requires |other| >= HEADER_LEN
  {
    if other[..4] != MAGIC then BadMagic
    else if Header(other).frameCount > MAX_FRAMES then Limit
    else BadCrc
  }

  /** A burst that reaches the header, its CRC included, is always rejected, whatever else it hits. */
  lemma HeaderBurstIsRejected(data: seq<byte>, other: seq<byte>, at: int)
    requires Parse(data).0 == OK && AgreeOutside(data, other, at)
    requires data[..HEADER_LEN] != other[..HEADER_LEN]
    ensures Parse(other).0 == HeaderStatus(other)
  {
    hide Crc32, LoadLe16, LoadLe32, LoadLe64, ParseFrames, AgreeOutside, Sealed;
    BurstKeepsLength(data, other, at);
    SealedBlock(data, 0, 24);
    assert data[0..HEADER_LEN] == data[..HEADER_LEN] && other[0..HEADER_LEN] == other[..HEADER_LEN];
    PartBreaks(data, other, at, 0, HEADER_LEN);
    SealedBlock(other, 0, 24);
    assert data[0..24] == data[..24] && other[0..24] == other[..24];
  }

  /** The length fields of the frames that lie from `pos` on are the same in both buffers. */
  ghost predicate SameLengths(data: seq<byte>, other: seq<byte>, pos: nat, fs: seq<Frame>)
    decreases fs
  {
    fs != [] ==>
      pos + 8 <= |data| && pos + 8 <= |other| && data[pos + 4..pos + 8] == other[pos + 4..pos + 8] &&
      SameLengths(data, other, pos + |FrameBytes(fs[0])|, fs[1..])
  }

  lemma SameWordLoaded(data: seq<byte>, other: seq<byte>, pos: nat)
    requires pos + 4 <= |data| && pos + 4 <= |other| && data[pos..pos + 4] == other[pos..pos + 4]
    ensures LoadLe32(other, pos) == LoadLe32(data, pos)
  {
    StoredLoad32(data, pos);
    LoadStored32(LoadLe32(data, pos), other, pos);
  }

  /** The damaged frame keeps its length field, so the parser checks the same block and refuses it. */
  lemma DamagedFrame(data: seq<byte>, other: seq<byte>, at: int, pos: nat)
    requires pos <= |data| && ParseFrame(data, pos).GotFrame?
    requires AgreeOutside(data, other, at)
    requires data[pos..ParseFrame(data, pos).next] != other[pos..ParseFrame(data, pos).next]
    requires data[pos + 4..pos + 8] == other[pos + 4..pos + 8]
    ensures ParseFrame(other, pos) == NoFrame(BadCrc)
  {
    hide Crc32, AgreeOutside, Sealed, LoadLe16, LoadLe32;
    BurstKeepsLength(data, other, at);
    var next := ParseFrame(data, pos).next;
    SameWordLoaded(data, other, pos + 4);
    SealedBlock(data, pos, next - 4);
    PartBreaks(data, other, at, pos, next);
    SealedBlock(other, pos, next - 4);
  }

  /** The first frame the burst reaches is refused. */
  lemma {:induction false} DamagedFrames(data: seq<byte>, other: seq<byte>, at: int, pos: nat, fs: seq<Frame>)
    requires pos <= |data|
    requires ParseFrames(data, pos, |fs|).GotFrames? && ParseFrames(data, pos, |fs|).frames == fs
    requires AgreeOutside(data, other, at) && SameLengths(data, other, pos, fs)
    requires |data| == |other|
    requires data[pos..ParseFrames(data, pos, |fs|).next] != other[pos..ParseFrames(data, pos, |fs|).next]
    ensures ParseFrames(other, pos, |fs|) == NoFrames(BadCrc)
    decreases fs
  {
    hide Crc32, AgreeOutside, Sealed, FrameBytes, ParseFrame;
    var f, next := ParseFrame(data, pos).frame, ParseFrame(data, pos).next;
    ReadFrameIsExact(data, pos);
    hide WellFormedFrame;
    assert f == fs[0] && |FrameBytes(f)| == next - pos;
    if data[pos..next] != other[pos..next] {
      DamagedFrame(data, other, at, pos);
    } else {
      var end := ParseFrames(data, pos, |fs|).next;
      assert fs[1..] == ParseFrames(data, next, |fs| - 1).frames;
      FrameIsRead(other, pos, f);
      assert data[pos..end] == data[pos..next] + data[next..end];
      assert other[pos..end] == other[pos..next] + other[next..end];
      DamagedFrames(data, other, at, next, fs[1..]);
    }
  }

  lemma SameHeader(data: seq<byte>, other: seq<byte>)
    requires HEADER_LEN <= |data| == |other| && data[..HEADER_LEN] == other[..HEADER_LEN]
    ensures Header(other) == Header(data) && LoadLe32(other, 24) == LoadLe32(data, 24)
    ensures other[..4] == data[..4] && other[..24] == data[..24]
  {
    assert forall i :: 0 <= i < HEADER_LEN ==> data[i] == data[..HEADER_LEN][i] == other[i];
  }

  lemma OnlyTheMessageCounts(data: seq<byte>, other: seq<byte>)
    requires Parse(data).0 == OK && Serialize(Parse(data).1) <= other
    ensures Parse(other) == Parse(data)
  {
    hide Parse, Serialize;
    var m := Parse(data).1;
    ParsedIsSerialized(data);
    assert other == Serialize(m) + other[|Serialize(m)|..];
    SerializedIsParsed(m, other[|Serialize(m)|..]);
  }

  /** A burst in the frames of an accepted message, across their borders or not. */
  lemma FramesBurstIsRejected(data: seq<byte>, other: seq<byte>, at: int)
    requires Parse(data).0 == OK && AgreeOutside(data, other, at)
    requires var m := Parse(data).1;
      |data| >= |Serialize(m)| && |other| >= |Serialize(m)| && data[..|Serialize(m)|] != other[..|Serialize(m)|] &&
      SameLengths(data, other, HEADER_LEN, m.frames)
    requires data[..HEADER_LEN] == other[..HEADER_LEN]
    ensures Parse(other) == (BadCrc, CLEARED)
  {
    hide Crc32, LoadLe16, LoadLe32, LoadLe64, Header, HeaderBytes, ParseFrames, AgreeOutside, SameLengths;
    BurstKeepsLength(data, other, at);
    var fs := Parse(data).1.frames;
    var end := ParseFrames(data, HEADER_LEN, |fs|).next;
    ReadFramesAreExact(data, HEADER_LEN, |fs|);
    SameHeader(data, other);
    assert end == |Serialize(Parse(data).1)|;
    assert data[..end] == data[..HEADER_LEN] + data[HEADER_LEN..end];
    assert other[..end] == other[..HEADER_LEN] + other[HEADER_LEN..end];
    DamagedFrames(data, other, at, HEADER_LEN, fs);
  }

  /** What any burst does to an accepted message, wherever it lies, as long as it changes no frame's
      length field: it is refused exactly when it reaches a byte of the message. */
  lemma BurstIsNoticed(data: seq<byte>, other: seq<byte>, at: int)
    requires Parse(data).0 == OK && AgreeOutside(data, other, at)
    requires SameLengths(data, other, HEADER_LEN, Parse(data).1.frames)
    ensures var n := |Serialize(Parse(data).1)|;
      HEADER_LEN <= n <= |data| == |other| &&
      Parse(other) == if data[..n] == other[..n] then Parse(data)
                      else if data[..HEADER_LEN] != other[..HEADER_LEN] then (HeaderStatus(other), Parse(other).1)
                      else (BadCrc, CLEARED)
    ensures HeaderStatus(other) != OK
  {
    hide Parse, AgreeOutside, SameLengths;
    BurstKeepsLength(data, other, at);
    ParsedIsSerialized(data);
    hide Serialize;
    var n := |Serialize(Parse(data).1)|;
    MessageHasHeader(Parse(data).1);
    if data[..n] == other[..n] {
      assert Serialize(Parse(data).1) == data[..n];
      OnlyTheMessageCounts(data, other);
    } else if data[..HEADER_LEN] != other[..HEADER_LEN] {
      HeaderBurstIsRejected(data, other, at);
    } else {
      FramesBurstIsRejected(data, other, at);
    }
  }

  lemma {:induction false} MessageHasHeader(m: MessageValue)
    ensures |Serialize(m)| >= HEADER_LEN
  {
  }

  // ----- why the length fields are excepted -----

  /** The frame `f` with no payload. */
  function Emptied(f: Frame): Frame {
    f.(payload := [], payloadLen := 0)
  }

  function Resealed(f: Frame): Frame {
    f.(crc := Crc32(FrameBody(f)))
  }

  /** A frame whose payload is the CRC of its own header as it would be with no payload. */
  function Disguised(f: Frame): Frame {
    Resealed(f.(payload := Le32(Crc32(FrameBody(Emptied(f)))), payloadLen := 4))
  }

  lemma DisguisedIsEmptied(f: Frame)
    ensures var g := Disguised(f);
      WellFormedFrame(g) && WellFormedFrame(Resealed(Emptied(f))) &&
      |FrameBytes(g)| == 28 && FrameBytes(g)[4] == 4 && g != Resealed(Emptied(f)) &&
      FrameBytes(Resealed(Emptied(f))) == FrameBytes(g)[4 := 0][..24]
  {
    hide Crc32;
    var g, e := Disguised(f), Resealed(Emptied(f));
    assert Le32(4) == [4, 0, 0, 0] && Le32(0) == [0, 0, 0, 0];
    hide Le32, Le16;
    LengthField(g);
    LengthField(e);
    hide FrameHead;
    assert FrameBytes(g)[..20] == FrameHead(g) && FrameBytes(g)[20..24] == g.payload;
  }

  lemma LengthField(f: Frame)
    ensures FrameHead(f)[4..8] == Le32(f.payloadLen % 0x1_0000_0000)
    ensures FrameHead(f)[..4] == Le16(f.frameType) + Le16(f.frameFlags)
    ensures FrameHead(f)[8..] == Le32(f.sourceAddr) + (Le32(f.destAddr) + (Le16(f.priority) + Le16(f.ttl)))
  {
    hide Le16, Le32;
  }

  lemma OneFrameBytes(f: Frame)
    ensures FramesBytes([f]) == FrameBytes(f)
  {
    hide FrameBytes;
    assert [f][1..] == [];
  }

  /** With a length field touched, one changed byte can pass: for every header and every frame there
      is a message that is accepted, and is accepted as another one when the length is changed. */
  lemma {:induction false} LengthBurstCanPass(header: MessageValue, f: Frame)
    requires header.frameCount == 1
    ensures
      var m, n := header.(frames := [Disguised(f)]), header.(frames := [Resealed(Emptied(f))]);
      var data := Serialize(m);
      var other := data[..32] + [0] + data[33..];
      data[32] == 4 && Parse(data) == (OK, m) && Parse(other) == (OK, n) && m != n
  {
    hide Crc32, HeaderBody, Parse, Disguised, WellFormedFrame, FrameBytes, Emptied, Resealed;
    var g, e := Disguised(f), Resealed(Emptied(f));
    var m, n := header.(frames := [g]), header.(frames := [e]);
    DisguisedIsEmptied(f);
    HeaderIgnoresFrames(header, [g]);
    HeaderIgnoresFrames(header, [e]);
    OneFrameBytes(g);
    OneFrameBytes(e);
    var h, b := HeaderBytes(m), FrameBytes(g);
    var data := Serialize(m);
    assert data == h + b && Serialize(n) == h + FrameBytes(e);
    var other := data[..32] + [0] + data[33..];
    assert other == h + b[4 := 0];
    assert other == Serialize(n) + b[4 := 0][24..];
    SerializedIsParsed(n, b[4 := 0][24..]);
    SerializedIsParsed(m, []);
    assert data + [] == data;
  }
}
