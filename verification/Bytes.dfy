/** Fixed-width integers, status codes and little-endian bytes
    (include/ipmb/types.h, src/util/endian.c).

    Every width is a subset type of `int`, so that lengths, offsets and field values share one
    arithmetic; each place where C wraps or reinterprets a value says so explicitly.
 */
module Bytes {

  type byte = x: int | 0 <= x < 0x100
  type uint16 = x: int | 0 <= x < 0x1_0000
  type uint32 = x: int | 0 <= x < 0x1_0000_0000
  type uint64 = x: int | 0 <= x < 0x1_0000_0000_0000_0000
  type int32 = x: int | -0x8000_0000 <= x < 0x8000_0000

  const TWO64: int := 0x1_0000_0000_0000_0000

  /** IPMB_ERR_ALLOC is kept although allocation always succeeds in this model. */
  datatype Status =
    | OK | ShortRead | BadMagic | BadCrc | Limit | Invalid | Alloc | Eval | NotFound

  /** C's conversion of an unsigned 32-bit value to int32_t. */
  function ToInt32(u: uint32): int32 {
    if u < 0x8000_0000 then u else u - 0x1_0000_0000
  }

  /** C's conversion of an int32_t to uint32_t. */
  function ToUint32(i: int32): uint32 {
    if i < 0 then i + 0x1_0000_0000 else i
  }

  /** Two's-complement truncation of any integer to 32 bits. */
  function Wrap32(n: int): int32 {
    ToInt32(n % 0x1_0000_0000)
  }

  /** Truncation differs from its argument by a multiple of 2^32 ... */
  lemma WrapIsCongruent(n: int) returns (k: int)
    ensures n == Wrap32(n) + 0x1_0000_0000 * k
  {
    k := (n - Wrap32(n)) / 0x1_0000_0000;
  }

  /** ... and is the only 32-bit value that does. */
  lemma WrapIsUnique(n: int, v: int32, k: int)
    requires n == v + 0x1_0000_0000 * k
    ensures Wrap32(n) == v
  {
    WrapShift(n, k);
  }

  lemma WrapShift(n: int, k: int)
    ensures Wrap32(n - 0x1_0000_0000 * k) == Wrap32(n)
  {
  }

  /** The two conversions are that truncation and its inverse. */
  lemma ConversionsAreWraps(u: uint32, i: int32)
    ensures ToInt32(u) == Wrap32(u) && ToInt32(ToUint32(i)) == i && (ToUint32(i) - i) % 0x1_0000_0000 == 0
  {
  }

  function LoadLe16(p: seq<byte>, at: nat): uint16
    requires at + 2 <= |p|
  {
    (p[at] as int) + 0x100 * (p[at + 1] as int)
  }

  function LoadLe32(p: seq<byte>, at: nat): uint32
    requires at + 4 <= |p|
  {
    (p[at] as int) + 0x100 * (p[at + 1] as int) + 0x1_0000 * (p[at + 2] as int) + 0x100_0000 * (p[at + 3] as int)
  }

  function LoadLe64(p: seq<byte>, at: nat): uint64
    requires at + 8 <= |p|
  {
    LoadLe32(p, at) + 0x1_0000_0000 * LoadLe32(p, at + 4)
  }

  /** The two bytes StoreLe16 writes. */
  function Le16(v: uint16): (s: seq<byte>)
    ensures |s| == 2
  {
    [v % 0x100, v / 0x100]
  }

  /** The four bytes StoreLe32 writes. */
  function Le32(v: uint32): (s: seq<byte>)
    ensures |s| == 4
  {
    [v % 0x100, v / 0x100 % 0x100, v / 0x1_0000 % 0x100, v / 0x100_0000]
  }

  function Le64(v: uint64): (s: seq<byte>)
    ensures |s| == 8
  {
    Le32(v % 0x1_0000_0000) + Le32(v / 0x1_0000_0000)
  }

  method StoreLe16(a: array<byte>, at: nat, v: uint16)
    requires at + 2 <= a.Length
    modifies a
    ensures a[..] == old(a[..at]) + Le16(v) + old(a[at + 2..])
  {
    a[at] := v % 0x100;
    a[at + 1] := v / 0x100;
  }

  method StoreLe32(a: array<byte>, at: nat, v: uint32)
    requires at + 4 <= a.Length
    modifies a
    ensures a[..] == old(a[..at]) + Le32(v) + old(a[at + 4..])
  {
    a[at] := v % 0x100;
    a[at + 1] := v / 0x100 % 0x100;
    a[at + 2] := v / 0x1_0000 % 0x100;
    a[at + 3] := v / 0x100_0000 % 0x100;
  }

  // ----- loads and stores are inverse, wherever the bytes lie -----

  lemma LoadStored16(v: uint16, p: seq<byte>, at: nat)
    requires at + 2 <= |p| && p[at..at + 2] == Le16(v)
    ensures LoadLe16(p, at) == v
  {
    assert p[at] == p[at..at + 2][0] && p[at + 1] == p[at..at + 2][1];
  }

  lemma LoadStored32(v: uint32, p: seq<byte>, at: nat)
    requires at + 4 <= |p| && p[at..at + 4] == Le32(v)
    ensures LoadLe32(p, at) == v
  {
    var w := p[at..at + 4];
    assert p[at] == w[0] && p[at + 1] == w[1] && p[at + 2] == w[2] && p[at + 3] == w[3];
    var a, b: int := v / 0x100, v / 0x1_0000;
    assert b == a / 0x100;
    assert v / 0x100_0000 == b / 0x100;
  }

  lemma LoadStored64(v: uint64, p: seq<byte>, at: nat)
    requires at + 8 <= |p| && p[at..at + 8] == Le64(v)
    ensures LoadLe64(p, at) == v
  {
    assert p[at..at + 4] == p[at..at + 8][..4];
    assert p[at + 4..at + 8] == p[at..at + 8][4..];
    LoadStored32(v % 0x1_0000_0000, p, at);
    LoadStored32(v / 0x1_0000_0000, p, at + 4);
  }

  lemma StoredLoad16(p: seq<byte>, at: nat)
    requires at + 2 <= |p|
    ensures Le16(LoadLe16(p, at)) == p[at..at + 2]
  {
  }

  lemma StoredLoad32(p: seq<byte>, at: nat)
    requires at + 4 <= |p|
    ensures Le32(LoadLe32(p, at)) == p[at..at + 4]
  {
    var v: int := LoadLe32(p, at);
    assert v / 0x100 == (p[at + 1] as int) + 0x100 * (p[at + 2] as int) + 0x1_0000 * (p[at + 3] as int);
    assert v / 0x1_0000 == (p[at + 2] as int) + 0x100 * (p[at + 3] as int);
    assert v / 0x100_0000 == p[at + 3];
  }

  lemma StoredLoad64(p: seq<byte>, at: nat)
    requires at + 8 <= |p|
    ensures Le64(LoadLe64(p, at)) == p[at..at + 8]
  {
    hide LoadLe32, Le32;
    StoredLoad32(p, at);
    StoredLoad32(p, at + 4);
    Halves(LoadLe32(p, at), LoadLe32(p, at + 4));
    assert p[at..at + 8] == p[at..at + 4] + p[at + 4..at + 8];
  }

  lemma Halves(lo: uint32, hi: uint32)
    ensures (lo + 0x1_0000_0000 * hi) % 0x1_0000_0000 == lo && (lo + 0x1_0000_0000 * hi) / 0x1_0000_0000 == hi
  {
  }

  // ----- fragments of a buffer -----

  /** `fragment` lies in `data` at `at`. */
  predicate At(data: seq<byte>, at: nat, fragment: seq<byte>) {
    at + |fragment| <= |data| && data[at..at + |fragment|] == fragment
  }

  lemma AtParts(data: seq<byte>, at: nat, a: seq<byte>, b: seq<byte>)
    requires At(data, at, a + b)
    ensures At(data, at, a) && At(data, at + |a|, b)
  {
    var whole := data[at..at + |a| + |b|];
    assert data[at..at + |a|] == whole[..|a|];
    assert data[at + |a|..at + |a| + |b|] == whole[|a|..];
  }

  lemma AtByte(data: seq<byte>, at: nat, b: byte)
    requires At(data, at, [b])
    ensures data[at] == b
  {
    assert data[at..at + 1][0] == b;
  }
}
