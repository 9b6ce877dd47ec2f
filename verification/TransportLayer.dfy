/** Fragment placement and the fragment payload format (src/protocol/transport_layer.c). */
module TransportLayer {
  import opened Bytes

  const MAX_TOTAL: nat := 4 * 1024 * 1024
  const MAX_FRAGMENTS: nat := 4096
  const MAGIC: seq<byte> := ['I' as int, 'F' as int, 'R' as int, 'G' as int]
  const TWO32: nat := 0x1_0000_0000

  /** `length` of the C record is the length of `data`. */
  datatype RawFragment = RawFragment(offset: uint32, data: seq<byte>)
  type Fragment = f: RawFragment | |f.data| < 0x1_0000_0000 witness RawFragment(0, [])

  /** The meant condition, over mathematical integers. */
  predicate Fits(f: Fragment, total: uint32) {
    f.offset + |f.data| <= total
  }

  /** The condition the code tests: its sum wraps at 32 bits. */
  predicate PassesGuard(f: Fragment, total: uint32) {
    (f.offset + |f.data|) % TWO32 <= total
  }

  /** How the placement loop ends. `Overrun` stands for the undefined copy of a fragment that does
      not fit but passes the guard. */
  datatype Verdict = Done(rc: Status) | Overrun

  predicate Covers(f: Fragment, x: int) {
    f.offset <= x < f.offset + |f.data|
  }

  /** The first fragment that does not fit, or the number of fragments. */
  function FirstMisfit(frags: seq<Fragment>, total: uint32): (i: nat)
    ensures i <= |frags|
    ensures forall k :: 0 <= k < i ==> Fits(frags[k], total)
    ensures i < |frags| ==> !Fits(frags[i], total)
  {
    if frags == [] || !Fits(frags[0], total) then 0 else 1 + FirstMisfit(frags[1..], total)
  }

  function Judge(frags: seq<Fragment>, total: uint32): Verdict {
    if total > MAX_TOTAL || |frags| > MAX_FRAGMENTS then Done(Limit)
    else
      var i := FirstMisfit(frags, total);
      if i == |frags| then Done(OK)
      else if PassesGuard(frags[i], total) then Overrun
      else Done(Invalid)
  }

  /** `memcpy` of one fragment into the buffer. */
  function Place(buf: seq<byte>, f: Fragment): (r: seq<byte>)
    requires |buf| < TWO32 && Fits(f, |buf|)
    ensures |r| == |buf|
  {
    buf[..f.offset] + f.data + buf[f.offset + |f.data|..]
  }

  ghost predicate AllFit(frags: seq<Fragment>, total: uint32) {
    forall k :: 0 <= k < |frags| ==> Fits(frags[k], total)
  }

  /** The buffer after all fragments have been copied over zeros, in order. */
  function Image(frags: seq<Fragment>, total: uint32): (r: seq<byte>)
    requires AllFit(frags, total)
    ensures |r| == total
  {
    if frags == [] then seq(total, _ => 0)
    else Place(Image(frags[..|frags| - 1], total), frags[|frags| - 1])
  }

  // ----- the loops -----

  /** On an overrun the buffer is as it was just before the undefined copy. */
  method Reassemble(frags: seq<Fragment>, total: uint32) returns (v: Verdict, out: array<byte>)
    ensures v == Judge(frags, total) && fresh(out)
    ensures v == Done(OK) ==> AllFit(frags, total) && out[..] == Image(frags, total)
    ensures v == Overrun ==>
      var done := frags[..FirstMisfit(frags, total)]; AllFit(done, total) && out[..] == Image(done, total)
  {
    if total > 4 * 1024 * 1024 || |frags| > 4096 {
      out := new byte[0];
      return Done(Limit), out;
    }
    hide Judge, Image, Place, FirstMisfit, AllFit;
    var buf := new byte[total](_ => 0);
    NothingPlaced(total);
    assert frags[..0] == [];
    for i := 0 to |frags|
      invariant AllFit(frags[..i], total) && buf[..] == Image(frags[..i], total)
    {
      var frag := frags[i];
      if (frag.offset + |frag.data|) % 0x1_0000_0000 > total {
        MisfitDecides(frags, total, i);
        return Done(Invalid), buf;
      }
      if frag.offset + |frag.data| > total {
        MisfitDecides(frags, total, i);
        return Overrun, buf;
      }
      OneMorePlaced(frags, total, i);
      Copy(buf, frag);
    }
    MisfitDecides(frags, total, |frags|);
    assert frags[..|frags|] == frags;
    return Done(OK), buf;
  }

  lemma NothingPlaced(total: uint32)
    ensures AllFit([], total) && Image([], total) == seq(total, _ => 0)
  {
  }

  lemma {:induction false} OneMorePlaced(frags: seq<Fragment>, total: uint32, i: nat)
    requires i < |frags| && AllFit(frags[..i], total) && Fits(frags[i], total)
    ensures AllFit(frags[..i + 1], total) && Image(frags[..i + 1], total) == Place(Image(frags[..i], total), frags[i])
  {
    hide Place;
    assert frags[..i + 1][..i] == frags[..i];
  }

  /** The first misfit decides the verdict. */
  lemma {:induction false} MisfitDecides(frags: seq<Fragment>, total: uint32, i: nat)
    requires i <= |frags| && AllFit(frags[..i], total) && (i < |frags| ==> !Fits(frags[i], total))
    ensures FirstMisfit(frags, total) == i
    ensures total <= MAX_TOTAL && |frags| <= MAX_FRAGMENTS ==>
      Judge(frags, total) ==
        if i == |frags| then Done(OK) else if PassesGuard(frags[i], total) then Overrun else Done(Invalid)
  {
    hide Fits, PassesGuard;
    FirstMisfitIs(frags, total, i);
  }

  method Copy(buf: array<byte>, frag: Fragment)
    requires buf.Length < TWO32 && Fits(frag, buf.Length)
    modifies buf
    ensures buf[..] == Place(old(buf[..]), frag)
  {
    forall k | 0 <= k < |frag.data| {
      buf[frag.offset + k] := frag.data[k];
    }
  }

  lemma {:induction false} FirstMisfitIs(frags: seq<Fragment>, total: uint32, i: nat)
    requires i <= |frags| && AllFit(frags[..i], total) && (i < |frags| ==> !Fits(frags[i], total))
    ensures FirstMisfit(frags, total) == i
  {
    assert forall k :: 0 <= k < i ==> frags[k] == frags[..i][k];
  }

  // ----- the guard -----

  /** The guard agrees with the meant condition exactly when the sum does not wrap, or wraps to
      more than the total. */
  lemma GuardIsRightWhen(f: Fragment, total: uint32)
    ensures (PassesGuard(f, total) <==> Fits(f, total)) <==>
            (f.offset + |f.data| < TWO32 || f.offset + |f.data| - TWO32 > total)
  {
  }

  /** The 32-bit sum of the fragment wraps to at most the total. */
  predicate Wraps(f: Fragment, total: uint32) {
    f.offset + |f.data| >= TWO32 && f.offset + |f.data| - TWO32 <= total
  }

  /** Reassembly goes wrong exactly when, within its limits, a fragment whose sum wraps comes after
      fragments that all fit. */
  lemma {:induction false} OverrunExactly(frags: seq<Fragment>, total: uint32)
    ensures Judge(frags, total) == Overrun <==>
      total <= MAX_TOTAL && |frags| <= MAX_FRAGMENTS &&
      exists i :: 0 <= i < |frags| && (forall k :: 0 <= k < i ==> Fits(frags[k], total)) && Wraps(frags[i], total)
  {
    var n := FirstMisfit(frags, total);
    if n < |frags| {
      GuardIsRightWhen(frags[n], total);
      assert PassesGuard(frags[n], total) <==> Wraps(frags[n], total);
    }
    forall i | 0 <= i < |frags| && (forall k :: 0 <= k < i ==> Fits(frags[k], total)) && Wraps(frags[i], total)
      ensures i == n
    {
      assert !Fits(frags[i], total);
    }
  }

  /** The verdict on any fragment list. */
  lemma {:induction false} VerdictExactly(frags: seq<Fragment>, total: uint32)
    ensures Judge(frags, total) == Done(Limit) <==> total > 4194304 || |frags| > 4096
    ensures Judge(frags, total) == Done(OK) <==> total <= 4194304 && |frags| <= 4096 && AllFit(frags, total)
    ensures Judge(frags, total) in {Done(Limit), Done(OK), Done(Invalid), Overrun}
  {
    var n := FirstMisfit(frags, total);
    if n < |frags| {
      assert !Fits(frags[n], total);
    }
  }

  /** A one-byte fragment at the last 32-bit offset passes although it fits nowhere, and the
      reassembly goes wrong on it, even when the whole buffer is to be empty. */
  lemma GuardCanBeWrong(b: byte)
    ensures var f := RawFragment(0xffff_ffff, [b]);
      PassesGuard(f, 0) && !Fits(f, 0) && Judge([f], 0) == Overrun
  {
    var f: Fragment := RawFragment(0xffff_ffff, [b]);
    assert FirstMisfit([f], 0) == 0;
  }

  // ----- what the buffer holds -----

  /** The byte at `x`: from the last fragment that covers it, or zero. */
  function ByteAt(frags: seq<Fragment>, x: nat): byte {
    if frags == [] then 0
    else
      var last := frags[|frags| - 1];
      if Covers(last, x) then last.data[x - last.offset] else ByteAt(frags[..|frags| - 1], x)
  }

  lemma {:induction false} ImageAt(frags: seq<Fragment>, total: uint32, x: nat)
    requires AllFit(frags, total) && x < total
    ensures Image(frags, total)[x] == ByteAt(frags, x)
  {
    if frags != [] {
      ImageAt(frags[..|frags| - 1], total, x);
    }
  }

  /** If all fragments that cover `x` agree on its byte, that byte is there. */
  lemma {:induction false} CoveredByte(frags: seq<Fragment>, x: nat, i: nat)
    requires i < |frags| && Covers(frags[i], x)
    requires forall k :: 0 <= k < |frags| && Covers(frags[k], x) ==>
      frags[k].data[x - frags[k].offset] == frags[i].data[x - frags[i].offset]
    ensures ByteAt(frags, x) == frags[i].data[x - frags[i].offset]
  {
    if !Covers(frags[|frags| - 1], x) {
      CoveredByte(frags[..|frags| - 1], x, i);
    }
  }

  lemma {:induction false} UncoveredByte(frags: seq<Fragment>, x: nat)
    requires forall k :: 0 <= k < |frags| ==> !Covers(frags[k], x)
    ensures ByteAt(frags, x) == 0
  {
    if frags != [] {
      UncoveredByte(frags[..|frags| - 1], x);
    }
  }

  // ----- order -----

  ghost predicate Disjoint(frags: seq<Fragment>) {
    forall i, j, x :: 0 <= i < |frags| && 0 <= j < |frags| && Covers(frags[i], x) && Covers(frags[j], x) ==> i == j
  }

  lemma {:induction false} SameElements(a: seq<Fragment>, b: seq<Fragment>, i: nat) returns (j: nat)
    requires multiset(a) == multiset(b) && i < |a|
    ensures j < |b| && b[j] == a[i]
  {
    assert a[i] in multiset(a);
    assert a[i] in b;
    j :| 0 <= j < |b| && b[j] == a[i];
  }

  lemma {:induction false} SameByte(a: seq<Fragment>, b: seq<Fragment>, x: nat)
    requires Disjoint(a) && multiset(a) == multiset(b)
    ensures ByteAt(a, x) == ByteAt(b, x)
  {
    if i :| 0 <= i < |a| && Covers(a[i], x) {
      CoveredByte(a, x, i);
      var j := SameElements(a, b, i);
      forall k | 0 <= k < |b| && Covers(b[k], x)
        ensures b[k] == b[j]
      {
        var m := SameElements(b, a, k);
        assert m == i;
      }
      CoveredByte(b, x, j);
    } else {
      forall k | 0 <= k < |b|
        ensures !Covers(b[k], x)
      {
        var m := SameElements(b, a, k);
      }
      UncoveredByte(a, x);
      UncoveredByte(b, x);
    }
  }

  lemma {:induction false} FitsInAnyOrder(a: seq<Fragment>, b: seq<Fragment>, total: uint32)
    requires multiset(a) == multiset(b) && AllFit(a, total)
    ensures AllFit(b, total)
  {
    forall k | 0 <= k < |b|
      ensures Fits(b[k], total)
    {
      var m := SameElements(b, a, k);
    }
  }

  /** Disjoint fragments give the same buffer in every order. */
  lemma {:induction false} OrderDoesNotMatter(a: seq<Fragment>, b: seq<Fragment>, total: uint32)
    requires Disjoint(a) && AllFit(a, total) && multiset(a) == multiset(b)
    ensures AllFit(b, total) && Image(b, total) == Image(a, total)
  {
    FitsInAnyOrder(a, b, total);
    forall x | 0 <= x < total
      ensures Image(b, total)[x] == Image(a, total)[x]
    {
      ImageAt(a, total, x);
      ImageAt(b, total, x);
      SameByte(a, b, x);
    }
  }

  // ----- splitting and reassembling -----

  function Sum(lengths: seq<nat>): nat {
    if lengths == [] then 0 else lengths[0] + Sum(lengths[1..])
  }

  /** A buffer cut into consecutive pieces of the given lengths. */
  function Split(buf: seq<byte>, from: nat, lengths: seq<nat>): (fs: seq<Fragment>)
    requires |buf| < TWO32 && from + Sum(lengths) == |buf|
    ensures |fs| == |lengths|
    decreases lengths
  {
    if lengths == [] then []
    else
      var end := from + lengths[0];
      var f: Fragment := RawFragment(from, buf[from..end]);
      [f] + Split(buf, end, lengths[1..])
  }

  /** `f` is a true piece of `buf`. */
  predicate PieceOf(f: Fragment, buf: seq<byte>) {
    f.offset + |f.data| <= |buf| && f.data == buf[f.offset..f.offset + |f.data|]
  }

  ghost predicate Covered(frags: seq<Fragment>, x: int) {
    exists k :: 0 <= k < |frags| && Covers(frags[k], x)
  }

  lemma {:induction false} SplitIsPieces(buf: seq<byte>, from: nat, lengths: seq<nat>, x: nat)
    requires |buf| < TWO32 && from + Sum(lengths) == |buf|
    ensures forall k :: 0 <= k < |lengths| ==> PieceOf(Split(buf, from, lengths)[k], buf)
    ensures from <= x < |buf| ==> Covered(Split(buf, from, lengths), x)
    decreases lengths
  {
    if lengths != [] {
      var end := from + lengths[0];
      SplitIsPieces(buf, end, lengths[1..], x);
      var fs, rest := Split(buf, from, lengths), Split(buf, end, lengths[1..]);
      assert forall k :: 1 <= k < |fs| ==> fs[k] == rest[k - 1];
      if end <= x < |buf| {
        var k :| 0 <= k < |rest| && Covers(rest[k], x);
        assert Covers(fs[k + 1], x);
      } else if from <= x < end {
        assert Covers(fs[0], x);
      }
    }
  }

  /** True pieces of a buffer that together cover it make the buffer again, in any order and
      however they overlap. */
  lemma {:induction false} PiecesReassemble(buf: seq<byte>, frags: seq<Fragment>)
    requires |buf| < TWO32
    requires forall k :: 0 <= k < |frags| ==> PieceOf(frags[k], buf)
    requires forall x :: 0 <= x < |buf| ==> Covered(frags, x)
    ensures AllFit(frags, |buf|) && Image(frags, |buf|) == buf
  {
    assert AllFit(frags, |buf|);
    forall x | 0 <= x < |buf|
      ensures Image(frags, |buf|)[x] == buf[x]
    {
      assert Covered(frags, x);
      var k :| 0 <= k < |frags| && Covers(frags[k], x);
      assert forall m :: 0 <= m < |frags| && Covers(frags[m], x) ==> frags[m].data[x - frags[m].offset] == buf[x];
      CoveredByte(frags, x, k);
      ImageAt(frags, |buf|, x);
    }
  }

  /** The pieces of a split, in any order, make the buffer again. */
  lemma {:induction false} SplitReassembles(buf: seq<byte>, lengths: seq<nat>, frags: seq<Fragment>)
    requires |buf| <= MAX_TOTAL && |lengths| <= MAX_FRAGMENTS && Sum(lengths) == |buf|
    requires multiset(frags) == multiset(Split(buf, 0, lengths))
    ensures Judge(frags, |buf|) == Done(OK) && AllFit(frags, |buf|) && Image(frags, |buf|) == buf
  {
    hide Sum, Split, Covers, PieceOf, Image;
    var split := Split(buf, 0, lengths);
    assert |frags| == |multiset(frags)| == |split|;
    forall k | 0 <= k < |frags|
      ensures PieceOf(frags[k], buf)
    {
      SplitIsPieces(buf, 0, lengths, 0);
      var m := SameElements(frags, split, k);
    }
    forall x | 0 <= x < |buf|
      ensures Covered(frags, x)
    {
      SplitIsPieces(buf, 0, lengths, x);
      var k :| 0 <= k < |split| && Covers(split[k], x);
      var m := SameElements(split, frags, k);
    }
    PiecesReassemble(buf, frags);
    assert frags[..|frags|] == frags;
    FirstMisfitIs(frags, |buf|, |frags|);
  }

  // ----- the fragment payload -----

  datatype Fragments = NoFragments(status: Status) | GotFragments(list: seq<Fragment>)

  /** `n` fragment records from `pos` on: an offset, a length, and that many bytes. */
  function ParseFragments(payload: seq<byte>, pos: nat, n: nat): Fragments
    requires pos <= |payload|
    decreases n
  {
    if n == 0 then GotFragments([])
    else if |payload| - pos < 8 then NoFragments(ShortRead)
    else
      var offset, length, start := LoadLe32(payload, pos), LoadLe32(payload, pos + 4), pos + 8;
      if length > |payload| - start then NoFragments(ShortRead)
      else
        match ParseFragments(payload, start + length, n - 1)
        case NoFragments(s) => NoFragments(s)
        case GotFragments(fs) => GotFragments([RawFragment(offset, payload[start..start + length])] + fs)
  }

  /** The header's verdict, or the fragments and the total size to place them in. */
  function ParsePayload(payload: seq<byte>): (Fragments, uint32) {
    if |payload| < 10 || payload[..4] != MAGIC then (NoFragments(BadMagic), 0)
    else (ParseFragments(payload, 10, LoadLe16(payload, 8)), LoadLe32(payload, 4))
  }

  method ParseFragmentPayload(payload: seq<byte>) returns (v: Verdict, out: array<byte>)
    ensures fresh(out)
    ensures match ParsePayload(payload)
            case (NoFragments(s), _) => v == Done(s)
            case (GotFragments(frags), total) =>
              v == Judge(frags, total) &&
              (v == Done(OK) ==> AllFit(frags, total) && out[..] == Image(frags, total))
  {
    hide LoadLe16, LoadLe32, Judge, Image;
    if |payload| < 10 || payload[..4] != [0x49, 0x46, 0x52, 0x47] {
      out := new byte[0];
      return Done(BadMagic), out;
    }
    var total := LoadLe32(payload, 4);
    var count := LoadLe16(payload, 8);
    var pos := 10;
    var frags: seq<Fragment> := [];
    for i := 0 to count
      invariant |frags| == i && 10 <= pos <= |payload|
      invariant ParseFragments(payload, 10, count) == match ParseFragments(payload, pos, count - i)
                                                      case NoFragments(s) => NoFragments(s)
                                                      case GotFragments(fs) => GotFragments(frags + fs)
    {
      if |payload| - pos < 8 {
        out := new byte[0];
        return Done(ShortRead), out;
      }
      var offset := LoadLe32(payload, pos);
      var length := LoadLe32(payload, pos + 4);
      pos := pos + 8;
      if length > |payload| - pos {
        out := new byte[0];
        return Done(ShortRead), out;
      }
      var frag: Fragment := RawFragment(offset, payload[pos..pos + length]);
      Regroup(frags, frag, ParseFragments(payload, pos + length, count - i - 1));
      frags := frags + [frag];
      pos := pos + length;
    }
    assert frags + [] == frags;
    v, out := Reassemble(frags, total);
  }

  lemma {:induction false} Regroup(frags: seq<Fragment>, frag: Fragment, rest: Fragments)
    ensures rest.GotFragments? ==> frags + ([frag] + rest.list) == (frags + [frag]) + rest.list
  {
  }

  function FragmentBytes(f: Fragment): seq<byte> {
    Le32(f.offset) + (Le32(|f.data|) + f.data)
  }

  function FragmentsBytes(fs: seq<Fragment>): seq<byte> {
    if fs == [] then [] else FragmentBytes(fs[0]) + FragmentsBytes(fs[1..])
  }

  /** The payload layout: magic, total size, count, fragments. */
  function PayloadBytes(fs: seq<Fragment>, total: uint32): seq<byte>
    requires |fs| < 0x1_0000
  {
    MAGIC + (Le32(total) + (Le16(|fs|) + FragmentsBytes(fs)))
  }

  lemma {:induction false} FragmentsAreRead(payload: seq<byte>, pos: nat, fs: seq<Fragment>)
    requires At(payload, pos, FragmentsBytes(fs))
    ensures pos <= |payload| && ParseFragments(payload, pos, |fs|) == GotFragments(fs)
    decreases fs
  {
    hide LoadLe32, Le32;
    if fs != [] {
      var f := fs[0];
      AtParts(payload, pos, FragmentBytes(f), FragmentsBytes(fs[1..]));
      AtParts(payload, pos, Le32(f.offset), Le32(|f.data|) + f.data);
      AtParts(payload, pos + 4, Le32(|f.data|), f.data);
      LoadStored32(f.offset, payload, pos);
      LoadStored32(|f.data|, payload, pos + 4);
      FragmentsAreRead(payload, pos + 8 + |f.data|, fs[1..]);
    }
  }

  /** A written payload is read back whole, whatever follows it. */
  lemma {:induction false} PayloadIsRead(fs: seq<Fragment>, total: uint32, rest: seq<byte>)
    requires |fs| < 0x1_0000
    ensures ParsePayload(PayloadBytes(fs, total) + rest) == (GotFragments(fs), total)
  {
    hide LoadLe32, LoadLe16, Le32, Le16, FragmentsBytes;
    var payload := PayloadBytes(fs, total) + rest;
    assert At(payload, 0, PayloadBytes(fs, total));
    AtParts(payload, 0, MAGIC, Le32(total) + (Le16(|fs|) + FragmentsBytes(fs)));
    AtParts(payload, 4, Le32(total), Le16(|fs|) + FragmentsBytes(fs));
    AtParts(payload, 8, Le16(|fs|), FragmentsBytes(fs));
    LoadStored32(total, payload, 4);
    LoadStored16(|fs|, payload, 8);
    FragmentsAreRead(payload, 10, fs);
  }

  // ----- payloads that are cut short, and all that are accepted -----

  lemma {:induction false} FirstFragmentAt(payload: seq<byte>, pos: nat, fs: seq<Fragment>)
    requires fs != [] && At(payload, pos, FragmentsBytes(fs))
    ensures var f := fs[0]; var start := pos + 8;
      start + |f.data| <= |payload| && LoadLe32(payload, pos) == f.offset && LoadLe32(payload, pos + 4) == |f.data| &&
      payload[start..start + |f.data|] == f.data && At(payload, start + |f.data|, FragmentsBytes(fs[1..])) &&
      |FragmentsBytes(fs)| == 8 + |f.data| + |FragmentsBytes(fs[1..])|
  {
    hide LoadLe32, Le32;
    var f := fs[0];
    AtParts(payload, pos, FragmentBytes(f), FragmentsBytes(fs[1..]));
    AtParts(payload, pos, Le32(f.offset), Le32(|f.data|) + f.data);
    AtParts(payload, pos + 4, Le32(|f.data|), f.data);
    LoadStored32(f.offset, payload, pos);
    LoadStored32(|f.data|, payload, pos + 4);
  }

  lemma LoadOfPrefix(payload: seq<byte>, k: nat, at: nat)
    requires at + 4 <= k <= |payload|
    ensures LoadLe32(payload[..k], at) == LoadLe32(payload, at)
  {
  }

  lemma {:induction false} FragmentsCutShort(payload: seq<byte>, pos: nat, fs: seq<Fragment>, k: nat)
    requires At(payload, pos, FragmentsBytes(fs)) && pos <= k < pos + |FragmentsBytes(fs)|
    ensures k <= |payload| && ParseFragments(payload[..k], pos, |fs|) == NoFragments(ShortRead)
    decreases fs
  {
    hide LoadLe32, FragmentBytes;
    assert fs != [];
    FirstFragmentAt(payload, pos, fs);
    hide FragmentsBytes;
    assert k <= |payload| by { WithinBounds(payload, pos, FragmentsBytes(fs)); }
    var cut, next := payload[..k], pos + 8 + |fs[0].data|;
    if k - pos >= 8 {
      LoadOfPrefix(payload, k, pos);
      LoadOfPrefix(payload, k, pos + 4);
      if next <= k {
        FragmentsCutShort(payload, next, fs[1..], k);
      }
    }
  }

  lemma WithinBounds(payload: seq<byte>, pos: nat, fragment: seq<byte>)
    requires At(payload, pos, fragment)
    ensures pos + |fragment| <= |payload|
  {
  }

  /** Every strict prefix of a written payload is refused: for its magic while the ten header bytes
      are not there, and as cut short from then on. */
  lemma {:induction false} CutPayloadIsRefused(fs: seq<Fragment>, total: uint32, k: nat)
    requires |fs| < 0x1_0000 && k < |PayloadBytes(fs, total)|
    ensures ParsePayload(PayloadBytes(fs, total)[..k]).0 == NoFragments(if k < 10 then BadMagic else ShortRead)
  {
    var payload := PayloadBytes(fs, total);
    HeaderOfPayload(fs, total);
    hide FragmentsBytes, LoadLe16, LoadLe32, ParseFragments;
    if k >= 10 {
      assert payload[..k][..4] == payload[..4];
      assert LoadLe16(payload[..k], 8) == LoadLe16(payload, 8) by { Load16OfPrefix(payload, k, 8); }
      hide PayloadBytes;
      FragmentsCutShort(payload, 10, fs, k);
    }
  }

  lemma Load16OfPrefix(payload: seq<byte>, k: nat, at: nat)
    requires at + 2 <= k <= |payload|
    ensures LoadLe16(payload[..k], at) == LoadLe16(payload, at)
  {
  }

  lemma {:induction false} HeaderOfPayload(fs: seq<Fragment>, total: uint32)
    requires |fs| < 0x1_0000
    ensures var payload := PayloadBytes(fs, total);
      |payload| == 10 + |FragmentsBytes(fs)| && payload[..4] == [0x49, 0x46, 0x52, 0x47] &&
      LoadLe32(payload, 4) == total && LoadLe16(payload, 8) == |fs| && At(payload, 10, FragmentsBytes(fs))
  {
    hide LoadLe32, LoadLe16, Le32, Le16, FragmentsBytes;
    var payload := PayloadBytes(fs, total);
    assert payload[4..8] == Le32(total) && payload[8..10] == Le16(|fs|);
    LoadStored32(total, payload, 4);
    LoadStored16(|fs|, payload, 8);
  }

  lemma {:induction false} FragmentsAreExact(payload: seq<byte>, pos: nat, n: nat)
    requires pos <= |payload| && ParseFragments(payload, pos, n).GotFragments?
    ensures var fs := ParseFragments(payload, pos, n).list;
      |fs| == n && At(payload, pos, FragmentsBytes(fs))
    decreases n
  {
    hide LoadLe32, Le32;
    if n > 0 {
      var offset, length, start := LoadLe32(payload, pos), LoadLe32(payload, pos + 4), pos + 8;
      FragmentsAreExact(payload, start + length, n - 1);
      var rest := ParseFragments(payload, start + length, n - 1).list;
      var f: Fragment := RawFragment(offset, payload[start..start + length]);
      hide ParseFragments;
      StoredLoad32(payload, pos);
      StoredLoad32(payload, pos + 4);
      assert At(payload, pos, FragmentBytes(f)) by {
        assert payload[pos..start + length] ==
          payload[pos..pos + 4] + (payload[pos + 4..start] + payload[start..start + length]);
      }
      hide FragmentBytes, FragmentsBytes;
      FragmentsJoin(payload, pos, f, rest, |FragmentBytes(f)|);
    }
  }

  lemma {:induction false} FragmentsJoin(payload: seq<byte>, pos: nat, f: Fragment, rest: seq<Fragment>, n: nat)
    requires n == |FragmentBytes(f)|
    requires At(payload, pos, FragmentBytes(f)) && At(payload, pos + n, FragmentsBytes(rest))
    ensures At(payload, pos, FragmentsBytes([f] + rest))
  {
    hide FragmentBytes;
    assert ([f] + rest)[1..] == rest;
    var end := pos + n + |FragmentsBytes(rest)|;
    assert payload[pos..end] == payload[pos..pos + n] + payload[pos + n..end];
  }

  /** A payload that is read starts with the written form of what is read from it. */
  lemma {:induction false} ReadPayloadIsWritten(payload: seq<byte>)
    requires ParsePayload(payload).0.GotFragments?
    ensures var (frags, total) := ParsePayload(payload);
      |frags.list| < 0x1_0000 && PayloadBytes(frags.list, total) <= payload
  {
    hide LoadLe32, LoadLe16, Le32, Le16, ParseFragments, FragmentsBytes;
    var fs, total := ParsePayload(payload).0.list, ParsePayload(payload).1;
    FragmentsAreExact(payload, 10, LoadLe16(payload, 8));
    StoredLoad32(payload, 4);
    StoredLoad16(payload, 8);
    var end := 10 + |FragmentsBytes(fs)|;
    assert payload[..end] == payload[..4] + (payload[4..8] + (payload[8..10] + payload[10..end]));
  }

  /** What any payload gives: a bad magic without the header, fragments exactly when it starts with a
      written payload, and a short read otherwise. */
  lemma {:induction false} PayloadExactly(payload: seq<byte>)
    ensures ParsePayload(payload).0 == NoFragments(BadMagic) <==>
      |payload| < 10 || payload[..4] != [0x49, 0x46, 0x52, 0x47]
    ensures ParsePayload(payload).0.GotFragments? <==>
      exists fs: seq<Fragment>, total: uint32 :: |fs| < 0x1_0000 && PayloadBytes(fs, total) <= payload
    ensures ParsePayload(payload).0.GotFragments? || ParsePayload(payload).0.status in {BadMagic, ShortRead}
  {
    assert ParsePayload(payload).0 == NoFragments(BadMagic) <==>
      |payload| < 10 || payload[..4] != [0x49, 0x46, 0x52, 0x47] by {
      hide ParseFragments, LoadLe16, LoadLe32;
      if |payload| >= 10 { OnlyShortReads(payload, 10, LoadLe16(payload, 8)); }
    }
    hide LoadLe32, LoadLe16, PayloadBytes;
    if |payload| >= 10 { OnlyShortReads(payload, 10, LoadLe16(payload, 8)); }
    hide ParseFragments;
    if ParsePayload(payload).0.GotFragments? {
      ReadPayloadIsWritten(payload);
    }
    hide ParsePayload;
    forall fs: seq<Fragment>, total: uint32 | |fs| < 0x1_0000 && PayloadBytes(fs, total) <= payload
      ensures ParsePayload(payload).0.GotFragments?
    {
      var b := PayloadBytes(fs, total);
      assert payload == b + payload[|b|..];
      PayloadIsRead(fs, total, payload[|b|..]);
    }
  }

  lemma {:induction false} OnlyShortReads(payload: seq<byte>, pos: nat, n: nat)
    requires pos <= |payload|
    ensures ParseFragments(payload, pos, n).GotFragments? || ParseFragments(payload, pos, n) == NoFragments(ShortRead)
    decreases n
  {
    hide LoadLe32;
    if n > 0 && |payload| - pos >= 8 && LoadLe32(payload, pos + 4) <= |payload| - pos - 8 {
      OnlyShortReads(payload, pos + 8 + LoadLe32(payload, pos + 4), n - 1);
    }
  }

  /** The same fragment, sent in a payload: the fault can be reached from outside. */
  lemma PayloadCanOverrun(b: byte, rest: seq<byte>)
    ensures var f := RawFragment(0xffff_ffff, [b]);
      match ParsePayload(PayloadBytes([f], 0) + rest)
      case (NoFragments(_), _) => false
      case (GotFragments(frags), total) => Judge(frags, total) == Overrun
  {
    hide ParsePayload, PayloadBytes, Judge;
    var f: Fragment := RawFragment(0xffff_ffff, [b]);
    PayloadIsRead([f], 0, rest);
    GuardCanBeWrong(b);
  }
}
