/** What a tagged delta stream means (src/codec/delta_codec.c:17-39): every byte string behind the
    header is a list of tags and a rest at which decoding stops, and the values are the running sums
    of the tags, taken over the integers and wrapped to 32 bits. */
module DeltaTags {
  import opened Bytes
  import opened Wrappers
  import opened DeltaCodec

  type int16 = x: int | -0x8000 <= x < 0x8000

  datatype Tag = Absolute(value: int32) | Difference(delta: int16) | Run(count: byte) | Reset

  function TagBytes(t: Tag): (s: seq<byte>)
    ensures s != []
  {
    match t
    case Absolute(v) => [0] + Le32(if v < 0 then v + 0x1_0000_0000 else v)
    case Difference(d) => [1] + Le16(if d < 0 then d + 0x1_0000 else d)
    case Run(n) => [2, n]
    case Reset => [3]
  }

  function TagsBytes(ts: seq<Tag>): seq<byte> {
    if ts == [] then [] else TagBytes(ts[0]) + TagsBytes(ts[1..])
  }

  /** The running sum behind a tag, an integer of any size. */
  function SumAfter(t: Tag, sum: int): int {
    match t
    case Absolute(v) => v
    case Difference(d) => sum + d
    case Run(_) => sum
    case Reset => 0
  }

  function Given(t: Tag, sum: int): seq<int> {
    match t
    case Absolute(_) => [SumAfter(t, sum)]
    case Difference(_) => [SumAfter(t, sum)]
    case Run(n) => Copies(sum, n)
    case Reset => []
  }

  /** The running sums a list of tags gives. */
  function Sums(ts: seq<Tag>, sum: int): seq<int> {
    if ts == [] then [] else Given(ts[0], sum) + Sums(ts[1..], SumAfter(ts[0], sum))
  }

  function Wrapped(xs: seq<int>): (r: seq<int32>)
    ensures |r| == |xs| && forall k :: 0 <= k < |r| ==> r[k] == Wrap32(xs[k])
  {
    if xs == [] then [] else [Wrap32(xs[0])] + Wrapped(xs[1..])
  }

  /** Nothing is left, the next tag is unknown, or its bytes are not all there. */
  predicate Stops(rest: seq<byte>) {
    rest == [] || rest[0] > 3 ||
    (rest[0] == 0 && |rest| < 5) || (rest[0] == 1 && |rest| < 3) || (rest[0] == 2 && |rest| < 2)
  }

  // ----- one tag -----

  lemma WrapAgain(a: int, d: int)
    ensures Wrap32(Wrap32(a) + d) == Wrap32(a + d)
    ensures -0x8000_0000 <= a < 0x8000_0000 ==> Wrap32(a) == a
  {
    hide Wrap32;
    var k := WrapIsCongruent(a);
    WrapShift(a + d, k);
    if -0x8000_0000 <= a < 0x8000_0000 { WrapIsUnique(a, a, 0); }
  }

  lemma Signed16(d: int16)
    ensures ToInt16(if d < 0 then d + 0x1_0000 else d) == d
  {
  }

  lemma AbsoluteStep(data: seq<byte>, pos: nat, v: int32, acc: int32, room: nat)
    requires At(data, pos, TagBytes(Absolute(v))) && room > 0
    ensures pos < |data| && StepOf(data, pos, acc, room) == Go(pos + 5, [v], v)
  {
    hide Le32, LoadLe32, LoadLe16;
    var u: uint32 := if v < 0 then v + 0x1_0000_0000 else v;
    AtParts(data, pos, [0], Le32(u));
    AtByte(data, pos, 0);
    LoadStored32(u, data, pos + 1);
  }

  lemma DifferenceStep(data: seq<byte>, pos: nat, d: int16, acc: int32, room: nat)
    requires At(data, pos, TagBytes(Difference(d))) && room > 0
    ensures pos < |data| && StepOf(data, pos, acc, room) == Go(pos + 3, [Wrap32(acc + d)], Wrap32(acc + d))
  {
    hide Le16, LoadLe32, LoadLe16, Wrap32;
    var u: uint16 := if d < 0 then d + 0x1_0000 else d;
    AtParts(data, pos, [1], Le16(u));
    AtByte(data, pos, 1);
    LoadStored16(u, data, pos + 1);
    Signed16(d);
    hide ToInt16;
  }

  lemma RunStep(data: seq<byte>, pos: nat, n: byte, acc: int32, room: nat)
    requires At(data, pos, TagBytes(Run(n))) && room > 0
    ensures pos < |data| && StepOf(data, pos, acc, room) == Go(pos + 2, Copies(acc, Lesser(n, room)), acc)
  {
    hide LoadLe32, LoadLe16;
    assert [2, n] == [2] + [n];
    AtParts(data, pos, [2], [n]);
    AtByte(data, pos, 2);
    AtByte(data, pos + 1, n);
  }

  /** What a tag does in the decoder, cut to the room. */
  lemma {:induction false} TagStep(data: seq<byte>, pos: nat, t: Tag, sum: int, room: nat)
    requires At(data, pos, TagBytes(t)) && room > 0
    ensures pos < |data|
    ensures var n := Lesser(|Given(t, sum)|, room);
      StepOf(data, pos, Wrap32(sum), room) ==
        Go(pos + |TagBytes(t)|, Wrapped(Given(t, sum)[..n]), Wrap32(SumAfter(t, sum)))
  {
    match t
    case Absolute(v) =>
      AbsoluteStep(data, pos, v, Wrap32(sum), room);
      WrapAgain(v, 0);
      hide Wrap32, StepOf, Le32;
      assert Wrapped(Given(t, sum)[..1]) == [v];
    case Difference(d) =>
      DifferenceStep(data, pos, d, Wrap32(sum), room);
      WrapAgain(sum, d);
      hide Wrap32, StepOf, Le16;
      assert Wrapped(Given(t, sum)[..1]) == [Wrap32(sum + d)];
    case Run(n) =>
      RunStep(data, pos, n, Wrap32(sum), room);
      hide Wrap32, StepOf;
      var k := Lesser(n, room);
      assert Wrapped(Given(t, sum)[..k]) == Copies(Wrap32(sum), k);
    case Reset =>
      AtByte(data, pos, 3);
      hide LoadLe32, LoadLe16;
      assert Wrapped([]) == [];
      WrapAgain(0, 0);
  }

  lemma StopStep(data: seq<byte>, pos: nat, acc: int32, room: nat)
    requires pos < |data| && room > 0 && Stops(data[pos..])
    ensures StepOf(data, pos, acc, room) == Stop
  {
    hide LoadLe32, LoadLe16;
    assert data[pos..][0] == data[pos];
  }

  // ----- all tags -----

  lemma WrappedTake(a: seq<int>, b: seq<int>, room: nat)
    ensures var n := Lesser(|a|, room);
      Wrapped((a + b)[..Lesser(|a + b|, room)]) == Wrapped(a[..n]) + Wrapped(b[..Lesser(|b|, room - n)])
  {
    hide Wrap32;
  }

  lemma {:induction false} FirstTagAt(data: seq<byte>, pos: nat, ts: seq<Tag>)
    requires ts != [] && At(data, pos, TagsBytes(ts))
    ensures var n := |TagBytes(ts[0])|;
      At(data, pos, TagBytes(ts[0])) && At(data, pos + n, TagsBytes(ts[1..])) &&
      n + |TagsBytes(ts[1..])| == |TagsBytes(ts)|
  {
    hide TagBytes;
    AtParts(data, pos, TagBytes(ts[0]), TagsBytes(ts[1..]));
  }

  lemma {:induction false} SumsStep(ts: seq<Tag>, sum: int)
    ensures Sums(ts, sum) == if ts == [] then [] else Given(ts[0], sum) + Sums(ts[1..], SumAfter(ts[0], sum))
  {
  }

  lemma {:induction false} TagsAreRead(data: seq<byte>, pos: nat, ts: seq<Tag>, sum: int, room: nat)
    requires At(data, pos, TagsBytes(ts)) && Stops(data[pos + |TagsBytes(ts)|..])
    ensures pos <= |data|
    ensures Values(data, pos, Wrap32(sum), room) == Wrapped(Sums(ts, sum)[..Lesser(|Sums(ts, sum)|, room)])
    decreases ts
  {
    hide TagBytes, TagsBytes, Stops, StepOf, Values, Wrap32, Given, SumAfter, At, Sums, Wrapped;
    InBounds(data, pos, TagsBytes(ts));
    SumsStep(ts, sum);
    if ts == [] || room == 0 {
      if ts == [] { NoTagBytes(); }
      NoValues(data, pos, sum, room);
      assert Sums(ts, sum)[..0] == [];
      NothingWrapped();
    } else {
      ValuesStep(data, pos, Wrap32(sum), room);
      var t, next := ts[0], SumAfter(ts[0], sum);
      FirstTagAt(data, pos, ts);
      TagStep(data, pos, t, sum, room);
      var n := Lesser(|Given(t, sum)|, room);
      TagsAreRead(data, pos + |TagBytes(t)|, ts[1..], next, room - n);
      WrappedTake(Given(t, sum), Sums(ts[1..], next), room);
      assert |Wrapped(Given(t, sum)[..n])| == n;
    }
  }

  lemma NothingWrapped()
    ensures Wrapped([]) == []
  {
  }

  lemma {:induction false} NoTagBytes()
    ensures TagsBytes([]) == []
  {
  }

  lemma NoValues(data: seq<byte>, pos: nat, sum: int, room: nat)
    requires pos <= |data| && (room == 0 || Stops(data[pos..]))
    ensures Values(data, pos, Wrap32(sum), room) == []
  {
    hide Stops, StepOf, Wrap32, Values;
    ValuesStep(data, pos, Wrap32(sum), room);
    if pos < |data| && room > 0 { StopStep(data, pos, Wrap32(sum), room); }
  }

  lemma InBounds(data: seq<byte>, pos: nat, fragment: seq<byte>)
    requires At(data, pos, fragment)
    ensures pos + |fragment| <= |data|
  {
  }

  /** Decoding a header, any list of tags and a rest at which decoding stops gives the running sums
      of the tags, wrapped to 32 bits and cut to the declared count. */
  lemma {:induction false} TagsDecode(version: seq<byte>, count: uint32, ts: seq<Tag>, rest: seq<byte>)
    requires |version| == 4 && Stops(rest)
    ensures Decode([0x49, 0x44, 0x4c, 0x54] + version + Le32(count) + TagsBytes(ts) + rest) ==
      if count > 100000 then (Limit, [])
      else (OK, Wrapped(Sums(ts, 0)[..Lesser(|Sums(ts, 0)|, count)]))
  {
    hide Le32, LoadLe32, TagsBytes, Values, Sums, Stops, Wrap32;
    var head := [0x49, 0x44, 0x4c, 0x54] + version;
    var data := head + Le32(count) + TagsBytes(ts) + rest;
    assert data[..4] == [0x49, 0x44, 0x4c, 0x54] && data[8..12] == Le32(count);
    LoadStored32(count, data, 8);
    assert data[12..12 + |TagsBytes(ts)|] == TagsBytes(ts) && data[12 + |TagsBytes(ts)|..] == rest;
    TagsAreRead(data, 12, ts, 0, count);
    assert Wrap32(0) == 0 by { WrapAgain(0, 0); }
  }

  /** Every byte string is such a list of tags and such a rest, so this is all the decoder does. */
  lemma {:induction false} EveryStreamIsTags(s: seq<byte>) returns (ts: seq<Tag>, rest: seq<byte>)
    ensures s == TagsBytes(ts) + rest && Stops(rest)
    decreases |s|
  {
    hide TagBytes, TagsBytes, Stops;
    if Stops(s) {
      ts, rest := [], s;
      NoTagBytes();
      assert [] + s == s;
    } else {
      var t := FirstTag(s);
      var tail := s[|TagBytes(t)|..];
      var ts', r := EveryStreamIsTags(tail);
      ts, rest := [t] + ts', r;
      TagsCons(t, ts');
      Regroup(TagBytes(t), TagsBytes(ts'), r);
    }
  }

  lemma {:induction false} TagsCons(t: Tag, ts: seq<Tag>)
    ensures TagsBytes([t] + ts) == TagBytes(t) + TagsBytes(ts)
  {
    hide TagBytes;
    assert ([t] + ts)[1..] == ts;
  }

  lemma FirstTag(s: seq<byte>) returns (t: Tag)
    requires !Stops(s)
    ensures TagBytes(t) <= s
  {
    hide LoadLe32, LoadLe16, Le32, Le16;
    if s[0] == 0 {
      var u: int := LoadLe32(s, 1);
      StoredLoad32(s, 1);
      t := Absolute(if u < 0x8000_0000 then u else u - 0x1_0000_0000);
      assert s[..5] == [0] + s[1..5];
    } else if s[0] == 1 {
      var u: int := LoadLe16(s, 1);
      StoredLoad16(s, 1);
      t := Difference(if u < 0x8000 then u else u - 0x1_0000);
      assert s[..3] == [1] + s[1..3];
    } else if s[0] == 2 {
      t := Run(s[1]);
      assert s[..2] == [2, s[1]];
    } else {
      t := Reset;
      assert s[..1] == [3];
    }
  }

  /** The header is refused without its twelve bytes or its magic, and nothing else is a bad magic. */
  lemma RefusedExactly(data: seq<byte>)
    ensures Decode(data).0 == BadMagic <==> |data| < 12 || data[..4] != [0x49, 0x44, 0x4c, 0x54]
    ensures Decode(data).0 != OK ==> Decode(data).1 == []
  {
    hide LoadLe32, Values;
  }

  // ----- what the encoder writes -----

  function AbsoluteTags(xs: seq<int32>): seq<Tag> {
    if xs == [] then [] else AbsoluteTags(xs[..|xs| - 1]) + [Absolute(xs[|xs| - 1])]
  }

  lemma {:induction false} TagsAppend(ts: seq<Tag>, t: Tag)
    ensures TagsBytes(ts + [t]) == TagsBytes(ts) + TagBytes(t)
  {
    hide TagBytes;
    if ts == [] {
      assert [] + [t] == [t] && [t][1..] == [];
    } else {
      assert (ts + [t])[1..] == ts[1..] + [t];
      TagsAppend(ts[1..], t);
    }
  }

  lemma {:induction false} EntriesAreTags(xs: seq<int32>)
    ensures Entries(xs) == TagsBytes(AbsoluteTags(xs))
  {
    hide Le32;
    if xs != [] {
      EntriesAreTags(xs[..|xs| - 1]);
      TagsAppend(AbsoluteTags(xs[..|xs| - 1]), Absolute(xs[|xs| - 1]));
    }
  }

  /** The encoder's output byte for byte: magic, a fixed word, the count, and one absolute tag for
      each value. */
  lemma {:induction false} EncoderWritesAbsolutes(xs: seq<int32>)
    ensures Encode(xs) ==
      [0x49, 0x44, 0x4c, 0x54, 16, 0, 0, 0] + Le32(|xs| % 0x1_0000_0000) + TagsBytes(AbsoluteTags(xs))
  {
    hide Le32, Entries, TagsBytes, AbsoluteTags;
    EntriesAreTags(xs);
  }
}
