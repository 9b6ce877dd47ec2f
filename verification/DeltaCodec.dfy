/** The tagged accumulator codec (src/codec/delta_codec.c). */
module DeltaCodec {
  import opened Bytes
  import opened Wrappers

  const MAGIC: seq<byte> := ['I' as int, 'D' as int, 'L' as int, 'T' as int]

  const HEADER_LEN: nat := 12
  const MAX_COUNT: nat := 100000

  /** C's conversion of an unsigned 16-bit value to int16_t. */
  function ToInt16(u: uint16): int {
    if u < 0x8000 then u else u - 0x1_0000
  }

  function Lesser(a: nat, b: nat): nat {
    if a <= b then a else b
  }

  /** The values the tags from `pos` on produce, when the accumulator is `acc` and at most `room`
      more values are wanted. The accumulator wraps at 32 bits. */
  function Values(data: seq<byte>, pos: nat, acc: int32, room: nat): (r: seq<int32>)
    requires pos <= |data|
    ensures |r| <= room
    decreases |data| - pos
  {
    if room == 0 || pos == |data| then []
    else
      var tag, p := data[pos], pos + 1;
      if tag == 0 then
        if |data| - p < 4 then []
        else var v := ToInt32(LoadLe32(data, p)); [v] + Values(data, p + 4, v, room - 1)
      else if tag == 1 then
        if |data| - p < 2 then []
        else var v := Wrap32(acc + ToInt16(LoadLe16(data, p))); [v] + Values(data, p + 2, v, room - 1)
      else if tag == 2 then
        if p == |data| then []
        else var k := Lesser(data[p], room); Copies(acc, k) + Values(data, p + 1, acc, room - k)
      else if tag == 3 then Values(data, p, 0, room)
      else []
  }

  function Decode(data: seq<byte>): (Status, seq<int32>) {
    if |data| < HEADER_LEN || data[..4] != MAGIC then (BadMagic, [])
    else
      var count := LoadLe32(data, 8);
      if count > MAX_COUNT then (Limit, []) else (OK, Values(data, HEADER_LEN, 0, count))
  }

  /** Only absolute values are ever written, each under tag 0. */
  function Entries(xs: seq<int32>): (s: seq<byte>)
    ensures |s| == 5 * |xs|
  {
    if xs == [] then [] else Entries(xs[..|xs| - 1]) + ([0] + Le32(ToUint32(xs[|xs| - 1])))
  }

  /** The header keeps the low 32 bits of the count. */
  function EncodedHeader(count: nat): (s: seq<byte>)
    ensures |s| == HEADER_LEN
  {
    MAGIC + [16, 0, 0, 0] + Le32(count % 0x1_0000_0000)
  }

  function Encode(xs: seq<int32>): (s: seq<byte>)
    ensures |s| == HEADER_LEN + 5 * |xs|
  {
    EncodedHeader(|xs|) + Entries(xs)
  }

  // ----- the loops -----

  /** What one tag does: how far it reads, the values it gives, and the accumulator after it. */
  datatype TagStep = Stop | Go(pos: nat, values: seq<int32>, acc: int32)

  function StepOf(data: seq<byte>, pos: nat, acc: int32, room: nat): (s: TagStep)
    requires pos < |data| && room > 0
    ensures s.Go? ==> pos < s.pos <= |data| && |s.values| <= room
  {
    var tag, p := data[pos], pos + 1;
    if tag == 0 && |data| - p >= 4 then
      var v := ToInt32(LoadLe32(data, p)); Go(p + 4, [v], v)
    else if tag == 1 && |data| - p >= 2 then
      var v := Wrap32(acc + ToInt16(LoadLe16(data, p))); Go(p + 2, [v], v)
    else if tag == 2 && p < |data| then Go(p + 1, Copies(acc, Lesser(data[p], room)), acc)
    else if tag == 3 then Go(p, [], 0)
    else Stop
  }

  lemma ValuesStep(data: seq<byte>, pos: nat, acc: int32, room: nat)
    requires pos <= |data|
    ensures Values(data, pos, acc, room) ==
      if room == 0 || pos == |data| then []
      else match StepOf(data, pos, acc, room)
           case Stop => []
           case Go(next, values, acc') => values + Values(data, next, acc', room - |values|)
  {
    hide LoadLe32, LoadLe16, ToInt32, ToInt16, Wrap32, Copies, Lesser;
    if room > 0 && pos < |data| && data[pos] == 3 {
      assert [] + Values(data, pos + 1, 0, room) == Values(data, pos + 1, 0, room);
    }
  }

  method DecodeBytes(data: seq<byte>) returns (rc: Status, out: array<int32>, outCount: nat)
    ensures fresh(out) && outCount <= out.Length
    ensures (rc, out[..outCount]) == Decode(data)
  {
    hide LoadLe32, Values, StepOf;
    if |data| < 12 || data[..4] != [0x49, 0x44, 0x4c, 0x54] {
      out := new int32[0];
      return BadMagic, out, 0;
    }
    var count := LoadLe32(data, 8);
    if count > 100000 {
      out := new int32[0];
      return Limit, out, 0;
    }
    var vals := new int32[count](_ => 0);
    var pos := 12;
    var acc: int32 := 0;
    var n := 0;
    var more := true;
    ghost var all := Values(data, 12, 0, count);
    assert vals[..0] + all == all;
    while more && n < count && pos < |data|
      invariant 12 <= pos <= |data| && 0 <= n <= count
      invariant if more then all == vals[..n] + Values(data, pos, acc, count - n) else all == vals[..n]
      decreases more, |data| - pos
    {
      ValuesStep(data, pos, acc, count - n);
      ghost var before, step := vals[..n], StepOf(data, pos, acc, count - n);
      more, pos, acc, n := DecodeTag(data, pos, acc, vals, n, count);
      if more {
        Regroup(before, step.values, Values(data, pos, acc, count - n));
      } else {
        assert before + [] == before;
      }
    }
    if more { ValuesStep(data, pos, acc, count - n); }
    rc, out, outCount := OK, vals, n;
    assert vals[..n] + [] == vals[..n];
  }

  /** The body of the loop: `more` is false where the C code breaks. */
  method DecodeTag(data: seq<byte>, start: nat, acc0: int32, vals: array<int32>, n0: nat, count: nat)
      returns (more: bool, pos: nat, acc: int32, n: nat)
    requires start < |data| && n0 < count <= vals.Length
    modifies vals
    ensures n0 <= n <= count && start <= pos <= |data|
    ensures match StepOf(data, start, acc0, count - n0)
            case Stop => !more && n == n0 && vals[..n] == old(vals[..n0])
            case Go(next, values, a) =>
              more && pos == next > start && acc == a && n == n0 + |values| && vals[..n] == old(vals[..n0]) + values
  {
    hide LoadLe32, LoadLe16, ToInt32, ToInt16, Wrap32, Copies, Lesser;
    more, pos, acc, n := true, start, acc0, n0;
    var tag := data[pos];
    pos := pos + 1;
    if tag == 0 {
      if |data| - pos < 4 { more := false; return; }
      acc := ToInt32(LoadLe32(data, pos));
      pos := pos + 4;
      vals[n] := acc;
      n := n + 1;
    } else if tag == 1 {
      if |data| - pos < 2 { more := false; return; }
      var d := ToInt16(LoadLe16(data, pos));
      pos := pos + 2;
      acc := Wrap32(acc + d);
      vals[n] := acc;
      n := n + 1;
    } else if tag == 2 {
      if pos >= |data| { more := false; return; }
      var run := data[pos];
      pos := pos + 1;
      n := Repeat(vals, n, count, acc, run);
    } else if tag == 3 {
      acc := 0;
    } else {
      more := false;
    }
  }

  /** The inner loop of tag 2. */
  method Repeat(vals: array<int32>, start: nat, count: nat, acc: int32, run: byte) returns (n: nat)
    requires start <= count <= vals.Length
    modifies vals
    ensures n == start + Lesser(run, count - start) <= count
    ensures vals[..n] == old(vals[..start]) + Copies(acc, n - start)
  {
    n := start;
    var i := 0;
    while i < run && n < count
      invariant 0 <= i <= run && n == start + i <= count
      invariant vals[..n] == old(vals[..start]) + Copies(acc, i)
    {
      vals[n] := acc;
      n := n + 1;
      i := i + 1;
    }
  }

  lemma EntriesStep(xs: seq<int32>, i: nat)
    requires i < |xs|
    ensures Entries(xs[..i + 1]) == Entries(xs[..i]) + ([0] + Le32(ToUint32(xs[i])))
  {
    hide Le32, ToUint32;
    assert xs[..i + 1][..i] == xs[..i];
  }

  method EncodeValues(values: seq<int32>) returns (rc: Status, out: array<byte>, outLen: nat)
    ensures rc == OK && fresh(out) && outLen == out.Length
    ensures out[..] == Encode(values)
  {
    hide Le32, ToUint32, Entries, EncodedHeader;
    var len := 12 + |values| * 5;
    var buf := new byte[len](_ => 0);
    PutHeader(buf, |values|);
    var pos := 12;
    ghost var header := EncodedHeader(|values|);
    NoEntries();
    assert values[..0] == [] && header + [] == header;
    for i := 0 to |values|
      invariant pos == 12 + 5 * i
      invariant buf[..pos] == header + Entries(values[..i])
    {
      EntriesStep(values, i);
      ghost var entry := [0] + Le32(ToUint32(values[i]));
      ghost var before := buf[..pos];
      PutEntry(buf, pos, values[i]);
      pos := pos + 5;
      assert buf[..pos] == before + entry;
      Regroup(header, Entries(values[..i]), entry);
    }
    assert values[..|values|] == values && buf[..pos] == buf[..];
    rc, out, outLen := OK, buf, pos;
  }

  lemma NoEntries()
    ensures Entries([]) == []
  {
  }

  lemma Regroup<T>(a: seq<T>, b: seq<T>, c: seq<T>)
    ensures (a + b) + c == a + (b + c)
  {
  }

  method PutHeader(buf: array<byte>, count: nat)
    requires buf.Length >= 12 && forall k :: 0 <= k < 12 ==> buf[k] == 0
    modifies buf
    ensures buf[..12] == EncodedHeader(count)
  {
    hide Le32;
    forall k | 0 <= k < 4 {
      buf[k] := MAGIC[k];
    }
    buf[4] := 16;
    assert buf[..8] == MAGIC + [16, 0, 0, 0];
    StoreLe32(buf, 8, count % 0x1_0000_0000);
    assert buf[..12] == buf[..][..12];
  }

  method PutEntry(buf: array<byte>, pos: nat, value: int32)
    requires pos + 5 <= buf.Length
    modifies buf
    ensures buf[..pos + 5] == old(buf[..pos]) + ([0] + Le32(ToUint32(value)))
  {
    hide Le32, ToUint32;
    buf[pos] := 0;
    assert buf[..pos + 1] == old(buf[..pos]) + [0];
    StoreLe32(buf, pos + 1, ToUint32(value));
    assert buf[..pos + 5] == buf[..][..pos + 5];
  }

  // ----- round trip -----

  lemma {:induction false} EntryAt(xs: seq<int32>, k: nat)
    requires k < |xs|
    ensures Entries(xs)[5 * k] == 0 && Entries(xs)[5 * k + 1..5 * k + 5] == Le32(ToUint32(xs[k]))
    decreases xs
  {
    hide Le32, ToUint32;
    var p := xs[..|xs| - 1];
    if k < |p| {
      EntryAt(p, k);
      assert Entries(xs)[5 * k + 1..5 * k + 5] == Entries(p)[5 * k + 1..5 * k + 5];
    }
  }

  lemma {:induction false} EntriesAreRead(data: seq<byte>, xs: seq<int32>, k: nat, acc: int32, room: nat)
    requires |data| == HEADER_LEN + 5 * |xs| && data[HEADER_LEN..] == Entries(xs)
    requires k <= |xs|
    ensures Values(data, HEADER_LEN + 5 * k, acc, room) == xs[k..][..Lesser(|xs| - k, room)]
    decreases room
  {
    hide Le32, Entries, LoadLe32, Copies;
    if k < |xs| && room > 0 {
      var pos := HEADER_LEN + 5 * k;
      EntryAt(xs, k);
      assert data[pos] == data[HEADER_LEN..][5 * k];
      assert data[pos + 1..pos + 5] == data[HEADER_LEN..][5 * k + 1..5 * k + 5];
      LoadStored32(ToUint32(xs[k]), data, pos + 1);
      EntriesAreRead(data, xs, k + 1, xs[k], room - 1);
      var m := Lesser(|xs| - k - 1, room - 1);
      assert [xs[k]] + xs[k + 1..][..m] == xs[k..][..m + 1];
    }
  }

  /** The decoder gives back as many values as the stored count says, or refuses the count. */
  lemma DecodeEncode(xs: seq<int32>)
    ensures var count := |xs| % 0x1_0000_0000;
      Decode(Encode(xs)) == if count > MAX_COUNT then (Limit, []) else (OK, xs[..count])
  {
    hide Le32, LoadLe32, Values, Entries;
    var data, count := Encode(xs), |xs| % 0x1_0000_0000;
    assert data[..4] == MAGIC && data[8..12] == Le32(count) && data[HEADER_LEN..] == Entries(xs);
    LoadStored32(count, data, 8);
    EntriesAreRead(data, xs, 0, 0, count);
    assert xs[0..] == xs;
  }

  /** So a list survives the codec exactly when it has at most 100000 values. */
  lemma RoundTripExactly(xs: seq<int32>)
    ensures Decode(Encode(xs)) == (OK, xs) <==> |xs| <= MAX_COUNT
  {
    hide Decode, Encode;
    DecodeEncode(xs);
    var count := |xs| % 0x1_0000_0000;
    assert |xs[..count]| == count && xs[..|xs|] == xs;
  }

  // ----- truncated streams -----

  /** A tag of a cut stream stops, or does what it does in the whole stream. */
  lemma StepOfPrefix(data: seq<byte>, k: nat, pos: nat, acc: int32, room: nat)
    requires pos < k <= |data| && room > 0
    ensures var s := StepOf(data[..k], pos, acc, room); s.Stop? || s == StepOf(data, pos, acc, room)
  {
    var tag, p := data[pos], pos + 1;
    if tag == 0 && k - p >= 4 {
      assert LoadLe32(data[..k], p) == LoadLe32(data, p);
    } else if tag == 1 && k - p >= 2 {
      assert LoadLe16(data[..k], p) == LoadLe16(data, p);
    }
    hide LoadLe32, LoadLe16, ToInt32, ToInt16, Wrap32, Copies, Lesser;
  }

  lemma {:induction false} ValuesOfPrefix(data: seq<byte>, k: nat, pos: nat, acc: int32, room: nat)
    requires pos <= k <= |data|
    ensures Values(data[..k], pos, acc, room) <= Values(data, pos, acc, room)
    decreases |data| - pos
  {
    hide Values, StepOf;
    ValuesStep(data[..k], pos, acc, room);
    if room > 0 && pos < k {
      StepOfPrefix(data, k, pos, acc, room);
      var s := StepOf(data[..k], pos, acc, room);
      if s.Go? {
        ValuesStep(data, pos, acc, room);
        ValuesOfPrefix(data, k, s.pos, s.acc, room - |s.values|);
      }
    }
  }

  /** Cutting a stream behind its header loses values from the end and changes none. */
  lemma CutStreamIsPrefix(data: seq<byte>, k: nat)
    requires HEADER_LEN <= k <= |data|
    ensures Decode(data[..k]).0 == Decode(data).0 && Decode(data[..k]).1 <= Decode(data).1
  {
    assert data[..k][..4] == data[..4] && LoadLe32(data[..k], 8) == LoadLe32(data, 8);
    hide LoadLe32, Values;
    if LoadLe32(data, 8) <= MAX_COUNT {
      ValuesOfPrefix(data, k, HEADER_LEN, 0, LoadLe32(data, 8));
    }
  }

  /** The declared count is never exceeded. */
  lemma CountIsABound(data: seq<byte>)
    requires Decode(data).0 == OK
    ensures |Decode(data).1| <= LoadLe32(data, 8) <= MAX_COUNT
  {
  }
}
