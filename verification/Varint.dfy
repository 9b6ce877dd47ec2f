/** Base-128 integers (src/util/varint.c): unsigned LEB128, section 7.6 of DWARF version 5, at most
    ten bytes. */
module Varint {
  import opened Arithmetic
  import opened Bytes

  const MAX_BYTES: nat := 10

  /** Seven bits a byte, lowest first; every byte but the last has its top bit set. */
  function Encode(v: nat): (s: seq<byte>)
    ensures s != []
  {
    if v < 128 then [v] else [v % 128 + 128] + Encode(v / 128)
  }

  predicate Last(b: byte) { b < 0x80 }

  /** The number the low seven bits of the bytes spell. */
  function Sum(s: seq<byte>): nat {
    if s == [] then 0 else s[0] % 128 + 128 * Sum(s[1..])
  }

  /** The position of the first byte without the top bit, among the first ten, or where the search
      ends without one. */
  function Stop(data: seq<byte>, i: nat): (t: nat)
    requires i <= |data| && i <= MAX_BYTES
    ensures i <= t <= |data| && t <= MAX_BYTES
    ensures forall k :: i <= k < t ==> !Last(data[k])
    ensures t < |data| && t < MAX_BYTES ==> Last(data[t])
    decreases |data| - i
  {
    if i < |data| && i < MAX_BYTES && !Last(data[i]) then Stop(data, i + 1) else i
  }

  /** Truncation to 64 bits. */
  function Wrap(n: nat): uint64 { n % TWO64 }

  lemma WrapAdd(a: nat, b: nat)
    ensures Wrap(Wrap(a) + b) == Wrap(a + b)
  {
  }

  /** Status, value and bytes used. Bits beyond the 64th are lost. */
  function Decode(data: seq<byte>): (Status, uint64, nat) {
    var t := Stop(data, 0);
    if t < |data| && t < MAX_BYTES then (OK, Wrap(Sum(data[..t + 1])), t + 1) else (ShortRead, 0, 0)
  }

  /** `result |= group << shift` adds, since the bits of `result` from `shift` on are still zero. */
  method DecodeBytes(data: seq<byte>) returns (rc: Status, value: uint64, used: nat)
    ensures (rc, value, used) == Decode(data)
  {
    hide Mul, Pow2, Sum;
    var result := 0;
    assert Wrap(0) == 0;
    hide Wrap;
    var shift := 0;
    SumOfNothing();
    assert data[..0] == [];
    var i := 0;
    while i < |data| && i < 10
      invariant 0 <= i <= |data| && i <= MAX_BYTES && shift == 7 * i
      invariant result == Wrap(Sum(data[..i]))
      invariant Stop(data, i) == Stop(data, 0)
    {
      SumGrows(data[..i], data[i]);
      assert data[..i + 1] == data[..i] + [data[i]];
      WrapAdd(Sum(data[..i]), Mul(data[i] % 128, Pow2(shift)));
      result := Wrap(result + Mul(data[i] % 128, Pow2(shift)));
      if data[i] < 0x80 {
        return OK, result, i + 1;
      }
      shift := shift + 7;
      i := i + 1;
    }
    return ShortRead, 0, 0;
  }

  /** Writes as many bytes as there is room for, and fails if that is not all of them. */
  method EncodeBytes(value: uint64, out: array<byte>, outLen: nat) returns (rc: Status, used: nat)
    requires outLen <= out.Length
    modifies out
    ensures rc == (if |Encode(value)| <= outLen then OK else ShortRead)
    ensures rc == OK ==> used == |Encode(value)| && out[..] == Encode(value) + old(out[used..])
    ensures rc != OK ==> out[..] == Encode(value)[..outLen] + old(out[outLen..])
  {
    hide Encode;
    var v: nat := value;
    var n := 0;
    var more := true;
    ghost var all := Encode(value);
    while more
      invariant n <= outLen && forall k :: n <= k < out.Length ==> out[k] == old(out[k])
      invariant if more then all == out[..n] + Encode(v) else all == out[..n]
      decreases more, v
    {
      if n >= outLen {
        used := 0;
        return ShortRead, used;
      }
      EncodeStep(v);
      ghost var before := out[..n];
      var b: byte := v % 128;
      v := v / 128;
      if v != 0 { b := b + 128; }
      out[n] := b;
      n := n + 1;
      assert out[..n] == before + [b];
      more := v != 0;
    }
    used := n;
    rc := OK;
  }

  lemma EncodeStep(v: nat)
    ensures Encode(v) == if v / 128 == 0 then [v % 128] else [v % 128 + 128] + Encode(v / 128)
  {
  }

  lemma SumOfNothing()
    ensures Sum([]) == 0
  {
  }

  lemma {:induction false} SumGrows(s: seq<byte>, b: byte)
    ensures Sum(s + [b]) == Sum(s) + Mul(b % 128, Pow2(7 * |s|))
  {
    hide Mul;
    if s == [] {
      MulUnit(b % 128);
    } else {
      SumGrows(s[1..], b);
      assert (s + [b])[1..] == s[1..] + [b];
      Times128(b % 128, 7 * |s| - 7);
    }
  }

  lemma Times128(a: nat, p: nat)
    ensures Pow2(p + 7) == 128 * Pow2(p) && Mul(a, Pow2(p + 7)) == 128 * Mul(a, Pow2(p))
  {
    assert Pow2(p + 2) == 4 * Pow2(p);
    assert Pow2(p + 4) == 4 * Pow2(p + 2);
    assert Pow2(p + 6) == 4 * Pow2(p + 4);
    hide Pow2;
    var q := Pow2(p);
    assert a * (128 * q) == 128 * (a * q);
  }

  // ----- round trip and length -----

  lemma {:induction false} EncodeShape(v: nat)
    ensures var s := Encode(v); Last(s[|s| - 1]) && (forall k :: 0 <= k < |s| - 1 ==> !Last(s[k])) && Sum(s) == v
  {
    if v >= 128 {
      EncodeShape(v / 128);
      assert Encode(v)[1..] == Encode(v / 128);
    }
  }

  lemma {:induction false} EncodeLength(v: nat, k: nat)
    requires v < Pow2(7 * k) && k > 0
    ensures |Encode(v)| <= k
    decreases k
  {
    if v >= 128 {
      Times128(1, 7 * k - 7);
      assert k > 1 by { assert Pow2(7 * 1) == 128 by { Times128(1, 0); } }
      EncodeLength(v / 128, k - 1);
    }
  }

  lemma TenBytesSuffice(v: uint64)
    ensures |Encode(v)| <= MAX_BYTES
  {
    PowersOf128();
    EncodeLength(v, MAX_BYTES);
  }

  lemma PowersOf128()
    ensures Pow2(63) == 0x8000_0000_0000_0000 && Pow2(70) == 128 * Pow2(63)
  {
    assert Pow2(7) == 128 by { Times128(1, 0); }
    Times128(1, 7);
    Times128(1, 14);
    Times128(1, 21);
    Times128(1, 28);
    Times128(1, 35);
    Times128(1, 42);
    Times128(1, 49);
    Times128(1, 56);
    Times128(1, 63);
  }

  lemma StopIs(data: seq<byte>, t: nat)
    requires t < |data| && t < MAX_BYTES && Last(data[t]) && forall k :: 0 <= k < t ==> !Last(data[k])
    ensures Stop(data, 0) == t
  {
  }

  /** Whatever follows it, an encoded 64-bit number is read back, with the bytes it took. */
  lemma DecodeEncode(v: uint64, rest: seq<byte>)
    ensures Decode(Encode(v) + rest) == (OK, v, |Encode(v)|)
  {
    hide Encode, Sum, Last;
    var s := Encode(v);
    EncodeShape(v);
    TenBytesSuffice(v);
    var data := s + rest;
    assert forall k :: 0 <= k < |s| ==> data[k] == s[k];
    StopIs(data, |s| - 1);
    assert data[..|s|] == s;
  }

  lemma {:induction false} SumBelow(s: seq<byte>)
    ensures Sum(s) < Pow2(7 * |s|)
  {
    if s != [] {
      SumBelow(s[1..]);
      Times128(1, 7 * |s| - 7);
      hide Pow2;
    }
  }

  /** No byte string that decodes to a number is shorter than the number's encoding. */
  lemma EncodeIsShortest(data: seq<byte>)
    requires Decode(data).0 == OK
    ensures var (_, v, used) := Decode(data); |Encode(v)| <= used <= |data|
  {
    hide Encode, Sum, Pow2, Last;
    var (_, v, used) := Decode(data);
    if used == MAX_BYTES {
      TenBytesSuffice(v);
    } else {
      SumBelow(data[..used]);
      PowersOf128();
      Pow2Grows(7 * used, 63);
      EncodeLength(v, used);
    }
  }

  /** Decoding fails exactly when none of the first ten bytes ends the number. */
  lemma RefusedExactly(data: seq<byte>)
    ensures Decode(data).0 == (if exists k :: 0 <= k < |data| && k < 10 && data[k] < 128 then OK else ShortRead)
  {
    var t := Stop(data, 0);
    if t < |data| && t < 10 {
      assert data[t] < 128;
    } else {
      assert forall k :: 0 <= k < |data| && k < 10 ==> !Last(data[k]);
    }
    hide Sum, Stop;
  }
}
