/** The run-length codec (src/codec/rle_codec.c). */
module RleCodec {
  import opened Bytes
  import opened Wrappers

  const MAGIC: seq<byte> := ['I' as int, 'R' as int, 'L' as int, 'E' as int]

  const MAX_RUN: nat := 255

  /** What a stream of (run, value) pairs stands for; a last odd byte is ignored. */
  function Expand(s: seq<byte>): seq<byte> {
    if |s| < 2 then [] else Copies(s[1], s[0]) + Expand(s[2..])
  }

  function Decode(data: seq<byte>): (Status, seq<byte>) {
    if |data| < 4 || data[..4] != MAGIC then (BadMagic, []) else (OK, Expand(data[4..]))
  }

  /** The end of the run at the start of `x`, at most 255 long, looking from position `n` on. */
  function RunEnd(x: seq<byte>, n: nat): (r: nat)
    requires 0 < n <= |x| && n <= MAX_RUN
    requires forall k :: 0 <= k < n ==> x[k] == x[0]
    ensures n <= r <= |x| && r <= MAX_RUN
    ensures forall k :: 0 <= k < r ==> x[k] == x[0]
    ensures r == |x| || r == MAX_RUN || x[r] != x[0]
    decreases |x| - n
  {
    if n < |x| && x[n] == x[0] && n < MAX_RUN then RunEnd(x, n + 1) else n
  }

  /** The pairs of the greedy encoder. */
  function Greedy(x: seq<byte>): seq<byte> {
    if x == [] then []
    else [RunEnd(x, 1), x[0]] + Greedy(x[RunEnd(x, 1)..])
  }

  function Encode(x: seq<byte>): seq<byte> {
    MAGIC + Greedy(x)
  }

  // ----- the loops -----

  lemma ExpandStep(data: seq<byte>, pos: nat)
    requires pos <= |data|
    ensures Expand(data[pos..]) ==
      if pos + 1 >= |data| then [] else Copies(data[pos + 1], data[pos]) + Expand(data[pos + 2..])
  {
    assert pos + 1 < |data| ==> data[pos..][2..] == data[pos + 2..];
  }

  method DecodeBytes(data: seq<byte>) returns (rc: Status, out: array<byte>, outLen: nat)
    ensures fresh(out) && outLen <= out.Length
    ensures (rc, out[..outLen]) == Decode(data)
  {
    hide Expand, Copies;
    if |data| < 4 || data[..4] != [0x49, 0x52, 0x4c, 0x45] {
      out := new byte[0];
      return BadMagic, out, 0;
    }
    var cap := 64;
    var used := 0;
    var buf := new byte[64](_ => 0);
    var pos := 4;
    while pos + 1 < |data|
      invariant 4 <= pos <= |data|
      invariant fresh(buf) && 0 <= used <= buf.Length == cap && cap >= 64
      invariant Expand(data[4..]) == buf[..used] + Expand(data[pos..])
    {
      ExpandStep(data, pos);
      var run, value := data[pos], data[pos + 1];
      if used + run > cap {
        while used + run > cap
          invariant cap >= 64
        {
          cap := cap * 2;
        }
        buf := Grow(buf, used, cap);
      }
      Fill(buf, used, value, run);
      used := used + run;
      pos := pos + 2;
    }
    ExpandStep(data, pos);
    rc, out, outLen := OK, buf, used;
    assert buf[..used] + [] == buf[..used];
  }

  /** `memset` behind the bytes used so far. */
  method Fill(buf: array<byte>, used: nat, value: byte, run: nat)
    requires used + run <= buf.Length
    modifies buf
    ensures buf[..used + run] == old(buf[..used]) + Copies(value, run)
  {
    forall k | 0 <= k < run {
      buf[used + k] := value;
    }
  }

  /** `realloc` to a larger size: a new block that starts with the old bytes. */
  method Grow(buf: array<byte>, used: nat, cap: nat) returns (next: array<byte>)
    requires used <= buf.Length <= cap
    ensures fresh(next) && next.Length == cap && next[..used] == buf[..used]
  {
    next := new byte[cap](_ => 0);
    forall k | 0 <= k < used {
      next[k] := buf[k];
    }
  }

  lemma GreedyStep(data: seq<byte>, i: nat, run: nat)
    requires i < i + run <= |data| && run <= MAX_RUN
    requires forall k :: i <= k < i + run ==> data[k] == data[i]
    requires i + run == |data| || run == MAX_RUN || data[i + run] != data[i]
    ensures Greedy(data[i..]) == [run, data[i]] + Greedy(data[i + run..])
  {
    var x := data[i..];
    assert forall k :: 0 <= k < run ==> x[k] == data[i + k];
    assert run < |x| ==> x[run] == data[i + run];
    RunEndIs(x, run);
    assert x[run..] == data[i + run..];
  }

  /** The buffer of 4 + 2 len + 2 bytes always suffices. */
  method EncodeBytes(data: seq<byte>) returns (rc: Status, out: array<byte>, outLen: nat)
    ensures rc == OK && fresh(out) && outLen <= out.Length
    ensures out[..outLen] == Encode(data)
  {
    hide Greedy;
    var buf := new byte[4 + |data| * 2 + 2](_ => 0);
    forall k | 0 <= k < 4 {
      buf[k] := MAGIC[k];
    }
    var pos := 4;
    var i := 0;
    assert buf[..4] == MAGIC && data[0..] == data;
    while i < |data|
      invariant 0 <= i <= |data| && 4 <= pos <= 4 + i * 2
      invariant Encode(data) == buf[..pos] + Greedy(data[i..])
    {
      ghost var before := buf[..pos];
      var value := data[i];
      var run := 1;
      while i + run < |data| && data[i + run] == value && run < 255
        invariant 1 <= run <= 255 && i + run <= |data|
        invariant forall k :: i <= k < i + run ==> data[k] == value
      {
        run := run + 1;
      }
      GreedyStep(data, i, run);
      buf[pos] := run;
      pos := pos + 1;
      buf[pos] := value;
      pos := pos + 1;
      assert buf[..pos] == before + [run, value];
      i := i + run;
    }
    NoPairs();
    assert data[i..] == [] && buf[..pos] + [] == buf[..pos];
    rc, out, outLen := OK, buf, pos;
  }

  lemma NoPairs()
    ensures Greedy([]) == []
  {
  }

  // ----- round trip -----

  lemma {:induction false} GreedyExpands(x: seq<byte>)
    ensures Expand(Greedy(x)) == x
  {
    if x != [] {
      var n := RunEnd(x, 1);
      GreedyExpands(x[n..]);
      assert Greedy(x)[2..] == Greedy(x[n..]);
      assert x == Copies(x[0], n) + x[n..];
    }
  }

  lemma DecodeEncode(x: seq<byte>)
    ensures Decode(Encode(x)) == (OK, x)
  {
    GreedyExpands(x);
    assert Encode(x)[..4] == MAGIC && Encode(x)[4..] == Greedy(x);
  }

  // ----- what any stream means -----

  datatype Run = Run(length: byte, value: byte)

  function RunsBytes(rs: seq<Run>): seq<byte> {
    if rs == [] then [] else [rs[0].length, rs[0].value] + RunsBytes(rs[1..])
  }

  /** Each value as often as its run is long, which may be not at all. */
  function Spelled(rs: seq<Run>): seq<byte> {
    if rs == [] then [] else seq(rs[0].length as nat, _ => rs[0].value) + Spelled(rs[1..])
  }

  lemma {:induction false} RunsExpand(rs: seq<Run>, tail: seq<byte>)
    requires |tail| < 2
    ensures Expand(RunsBytes(rs) + tail) == Spelled(rs)
    decreases rs
  {
    var s := RunsBytes(rs) + tail;
    if rs != [] {
      RunsExpand(rs[1..], tail);
      assert s[2..] == RunsBytes(rs[1..]) + tail;
      assert Copies(rs[0].value, rs[0].length) == seq(rs[0].length as nat, _ => rs[0].value);
    }
  }

  /** The magic, any runs, empty ones too, and at most one odd byte: the decoder gives the runs. */
  lemma {:induction false} RunsDecode(rs: seq<Run>, tail: seq<byte>)
    requires |tail| < 2
    ensures Decode([0x49, 0x52, 0x4c, 0x45] + RunsBytes(rs) + tail) == (OK, Spelled(rs))
  {
    hide Expand, RunsBytes, Spelled;
    var data := [0x49, 0x52, 0x4c, 0x45] + RunsBytes(rs) + tail;
    assert data[..4] == [0x49, 0x52, 0x4c, 0x45] && data[4..] == RunsBytes(rs) + tail;
    RunsExpand(rs, tail);
  }

  /** Every byte string is of this form behind its first four bytes, which must be the magic. */
  lemma {:induction false} EveryStreamIsRuns(data: seq<byte>) returns (rs: seq<Run>, tail: seq<byte>)
    ensures |tail| < 2 && (|data| >= 4 ==> data[4..] == RunsBytes(rs) + tail)
    ensures Decode(data) ==
      if |data| >= 4 && data[..4] == [0x49, 0x52, 0x4c, 0x45] then (OK, Spelled(rs)) else (BadMagic, [])
  {
    if |data| < 4 {
      rs, tail := [], [];
    } else {
      rs, tail := BodyIsRuns(data[4..]);
      RunsExpand(rs, tail);
    }
  }

  lemma {:induction false} BodyIsRuns(s: seq<byte>) returns (rs: seq<Run>, tail: seq<byte>)
    ensures |tail| < 2 && s == RunsBytes(rs) + tail
    decreases |s|
  {
    if |s| < 2 {
      rs, tail := [], s;
    } else {
      rs, tail := BodyIsRuns(s[2..]);
      var first := Run(s[0], s[1]);
      assert ([first] + rs)[1..] == rs;
      rs := [first] + rs;
    }
  }

  // ----- the greedy encoding is a shortest one -----

  lemma RunEndIs(x: seq<byte>, r: nat)
    requires 0 < r <= |x| && r <= MAX_RUN
    requires forall k :: 0 <= k < r ==> x[k] == x[0]
    requires r == |x| || r == MAX_RUN || x[r] != x[0]
    ensures RunEnd(x, 1) == r
  {
  }

  /** Losing the first byte never makes the encoding longer. */
  lemma {:induction false} DropOne(x: seq<byte>)
    requires x != []
    ensures |Greedy(x[1..])| <= |Greedy(x)|
    decreases |x|
  {
    var n, y := RunEnd(x, 1), x[1..];
    if n > 1 {
      if n < |x| && x[n] == x[0] {
        // a full run of 255 with more of the same behind it: the run of `y` is full as well
        RunEndIs(y, n);
        assert y[n..] == x[n..][1..];
        DropOne(x[n..]);
      } else {
        RunEndIs(y, n - 1);
        assert y[n - 1..] == x[n..];
      }
    }
  }

  lemma {:induction false} DropSome(x: seq<byte>, n: nat)
    requires n <= |x|
    ensures |Greedy(x[n..])| <= |Greedy(x)|
    decreases n
  {
    if n == 0 {
      assert x[0..] == x;
    } else {
      DropOne(x);
      DropSome(x[1..], n - 1);
      assert x[1..][n - 1..] == x[n..];
    }
  }

  lemma RunCovers(x: seq<byte>, r: nat)
    requires 0 < r <= |x| && r <= MAX_RUN && forall k :: 0 <= k < r ==> x[k] == x[0]
    ensures r <= RunEnd(x, 1)
  {
  }

  /** One more pair is never better than what the greedy encoder makes of it. */
  lemma RunInFront(v: byte, r: nat, y: seq<byte>)
    requires 0 < r <= MAX_RUN
    ensures |Greedy(Copies(v, r) + y)| <= 2 + |Greedy(y)|
  {
    var x := Copies(v, r) + y;
    RunCovers(x, r);
    var n := RunEnd(x, 1);
    assert x[n..] == y[n - r..];
    DropSome(y, n - r);
  }

  lemma {:induction false} GreedyIsShortest(s: seq<byte>)
    ensures |Greedy(Expand(s))| <= |s|
    decreases |s|
  {
    hide Greedy, Copies;
    if |s| < 2 {
      NoPairs();
    } else {
      GreedyIsShortest(s[2..]);
      var r: nat := s[0];
      if r == 0 {
        assert Copies(s[1], 0) + Expand(s[2..]) == Expand(s[2..]);
      } else {
        RunInFront(s[1], r, Expand(s[2..]));
      }
    }
  }

  /** Every stream that decodes to `x`, with split or empty runs and odd tails, is at least as long
      as the one the encoder makes. */
  lemma EncodeIsShortest(stream: seq<byte>, x: seq<byte>)
    requires Decode(stream) == (OK, x)
    ensures |stream| >= |Encode(x)|
  {
    GreedyIsShortest(stream[4..]);
  }
}
