/** The bit reader (src/codec/bitstream.c): a buffer read as one little-endian number. */
module Bitstream {
  import opened Arithmetic
  import opened Bytes

  const MAX_BITS: nat := 24

  /** The little-endian integer of a buffer. */
  function Number(data: seq<byte>): nat {
    if data == [] then 0 else data[0] as nat + 256 * Number(data[1..])
  }

  /** Bit `bit` of the buffer, as the loop picks it. */
  function BitAt(data: seq<byte>, bit: nat): (b: nat)
    requires bit < 8 * |data|
    ensures b < 2
  {
    Quotient(data[bit / 8], Pow2(bit % 8)) % 2
  }

  class BitReader {
    var data: seq<byte>
    var bitPos: nat

    constructor (data: seq<byte>)
      ensures this.data == data && bitPos == 0
    {
      this.data, bitPos := data, 0;
    }

    /** `v |= bit << i` adds 2^i, since the bits of `v` from `i` on are still zero. */
    method Read(bits: nat) returns (rc: Status, out: uint32)
      modifies this`bitPos
      ensures rc == (if bits > 24 then Limit else if old(bitPos) + bits > 8 * |data| then ShortRead else OK)
      ensures rc != OK ==> bitPos == old(bitPos)
      ensures rc == OK ==> bitPos == old(bitPos) + bits && out == Extract(data, old(bitPos), bits)
    {
      hide Number, Pow2, BitAt, Mul, Quotient, Remainder;
      if bits > 24 { return Limit, 0; }
      if bitPos + bits > |data| * 8 { return ShortRead, 0; }
      var v := 0;
      ghost var p, n := bitPos, Shift(Number(data), bitPos);
      NothingLow(n);
      for i := 0 to bits
        invariant bitPos == p + i
        invariant v == Low(n, i)
      {
        var bit := bitPos;
        bitPos := bitPos + 1;
        var b := BitAt(data, bit);
        BitIsShift(data, bit);
        ShiftShift(Number(data), p, i);
        LowGrows(n, i);
        v := v + Mul(b, Pow2(i));
      }
      LowIsMod(n, bits);
      ShiftIsDiv(Number(data), p);
      LowIsSmall(n, bits);
      rc, out := OK, v;
    }
  }

  // ----- shifting and masking, one bit at a time -----

  function Shift(n: nat, p: nat): nat {
    if p == 0 then n else Shift(n / 2, p - 1)
  }

  function Low(n: nat, k: nat): nat {
    if k == 0 then 0 else n % 2 + 2 * Low(n / 2, k - 1)
  }

  lemma NothingLow(n: nat)
    ensures Low(n, 0) == 0
  {
  }

  lemma {:induction false} ShiftShift(n: nat, p: nat, q: nat)
    ensures Shift(Shift(n, p), q) == Shift(n, p + q)
    decreases p
  {
    if p > 0 {
      ShiftShift(n / 2, p - 1, q);
    }
  }

  /** The low `a + b` bits are the low `a` bits with the next `b` bits above them. */
  lemma {:induction false} LowSplits(n: nat, a: nat, b: nat)
    ensures Low(n, a + b) == Low(n, a) + Mul(Pow2(a), Low(Shift(n, a), b))
    decreases a
  {
    hide Mul;
    if a == 0 {
      MulUnit(Low(n, b));
    } else {
      LowSplits(n / 2, a - 1, b);
      MulDouble(Pow2(a - 1), Low(Shift(n, a), b));
    }
  }

  lemma LowGrows(n: nat, i: nat)
    ensures Low(n, i + 1) == Low(n, i) + Mul(Shift(n, i) % 2, Pow2(i))
  {
    LowSplits(n, i, 1);
    assert Low(Shift(n, i), 1) == Shift(n, i) % 2;
    MulUnit(Pow2(i));
    hide Mul;
  }

  // ----- the same in arithmetic -----

  lemma {:induction false} ShiftIsDiv(n: nat, p: nat)
    ensures Shift(n, p) == Quotient(n, Pow2(p))
  {
    hide Quotient;
    if p == 0 {
      DivideByOne(n);
    } else {
      ShiftIsDiv(n / 2, p - 1);
      HalveFirst(n, Pow2(p - 1));
    }
  }

  lemma {:induction false} LowIsMod(n: nat, k: nat)
    ensures Low(n, k) == Remainder(n, Pow2(k))
  {
    hide Remainder;
    if k == 0 {
      DivideByOne(n);
    } else {
      LowIsMod(n / 2, k - 1);
      HalveFirst(n, Pow2(k - 1));
    }
  }

  lemma LowIsSmall(n: nat, k: nat)
    requires k <= MAX_BITS
    ensures Low(n, k) < 0x100_0000
  {
    LowBelow(n, k);
    Pow2Grows(k, MAX_BITS);
    assert Pow2(12) == 0x1000;
    assert Pow2(24) == Pow2(12) * 0x1000;
  }

  lemma {:induction false} LowBelow(n: nat, k: nat)
    ensures Low(n, k) < Pow2(k)
  {
    if k > 0 {
      LowBelow(n / 2, k - 1);
    }
  }

  /** Shifting by `b <= e` moves a multiple of 2^e down unharmed. */
  lemma {:induction false} ShiftAbove(d: nat, m: nat, e: nat, b: nat)
    requires b <= e
    ensures Shift(d + Mul(Pow2(e), m), b) == Shift(d, b) + Mul(Pow2(e - b), m)
    decreases b
  {
    hide Mul;
    if b > 0 {
      var half := Mul(Pow2(e - 1), m);
      MulDouble(Pow2(e - 1), m);
      assert (d + 2 * half) / 2 == d / 2 + half;
      ShiftAbove(d / 2, m, e - 1, b - 1);
    }
  }

  lemma NumberSplits(data: seq<byte>)
    requires data != []
    ensures Pow2(8) == 256 && Number(data) == data[0] as nat + Mul(Pow2(8), Number(data[1..]))
  {
    assert Pow2(4) == 16 && Pow2(8) == 16 * Pow2(4);
  }

  lemma ByteGone(d: byte)
    ensures Shift(d, 8) == 0
  {
    ShiftIsDiv(d, 8);
    assert Pow2(4) == 16 && Pow2(8) == 16 * Pow2(4);
    hide Pow2;
    assert Quotient(d, 256) == 0;
  }

  lemma BitOfFirstByte(data: seq<byte>, bit: nat)
    requires data != [] && bit < 8
    ensures BitAt(data, bit) == Shift(Number(data), bit) % 2
  {
    hide Quotient, Number, Mul, Shift, Pow2;
    var d: nat, m := data[0], Number(data[1..]);
    NumberSplits(data);
    ShiftAbove(d, m, 8, bit);
    ShiftIsDiv(d, bit);
    EvenPower(7 - bit, m);
  }

  lemma EvenPower(e: nat, m: nat)
    ensures Mul(Pow2(e + 1), m) % 2 == 0
  {
    hide Mul;
    MulDouble(Pow2(e), m);
  }

  /** The number of the buffer without its first byte is the number shifted by eight. */
  lemma FirstByteGone(data: seq<byte>, bit: nat)
    requires data != [] && bit >= 8
    ensures Shift(Number(data), bit) == Shift(Number(data[1..]), bit - 8)
  {
    hide Number, Mul, Shift, Pow2;
    var d: nat, m := data[0], Number(data[1..]);
    NumberSplits(data);
    ShiftAbove(d, m, 8, 8);
    ByteGone(d);
    assert Pow2(0) == 1 by { PowZero(); }
    MulUnit(m);
    ShiftShift(Number(data), 8, bit - 8);
  }

  lemma PowZero()
    ensures Pow2(0) == 1
  {
  }

  lemma {:induction false} BitIsShift(data: seq<byte>, bit: nat)
    requires bit < 8 * |data|
    ensures BitAt(data, bit) == Shift(Number(data), bit) % 2
    decreases |data|
  {
    hide Mul, Quotient, Number, Shift, Pow2;
    if bit < 8 {
      BitOfFirstByte(data, bit);
    } else {
      FirstByteGone(data, bit);
      BitIsShift(data[1..], bit - 8);
      assert (bit - 8) % 8 == bit % 8 && data[1..][(bit - 8) / 8] == data[bit / 8];
    }
  }

  // ----- consecutive reads -----

  /** What a successful read of `bits` bits at `pos` returns. */
  function Extract(data: seq<byte>, pos: nat, bits: nat): nat {
    Remainder(Quotient(Number(data), Pow2(pos)), Pow2(bits))
  }

  /** Reading `a` bits and then `b` bits is one read of `a + b` bits taken apart. */
  lemma ReadsCompose(data: seq<byte>, pos: nat, a: nat, b: nat)
    ensures Extract(data, pos, a + b) == Extract(data, pos, a) + Mul(Pow2(a), Extract(data, pos + a, b))
  {
    hide Mul, Quotient, Remainder, Number, Pow2, Shift;
    var n := Shift(Number(data), pos);
    ShiftIsDiv(Number(data), pos);
    ShiftIsDiv(Number(data), pos + a);
    ShiftShift(Number(data), pos, a);
    LowIsMod(n, a + b);
    LowIsMod(n, a);
    LowIsMod(Shift(n, a), b);
    LowSplits(n, a, b);
  }

  // ----- loads -----

  /** The little-endian loads are the little-endian numbers of their bytes. */
  lemma LoadsAreNumbers(data: seq<byte>, at: nat)
    ensures at + 2 <= |data| ==> LoadLe16(data, at) == Number(data[at..at + 2])
    ensures at + 4 <= |data| ==> LoadLe32(data, at) == Number(data[at..at + 4])
    ensures at + 8 <= |data| ==> LoadLe64(data, at) == Number(data[at..at + 8])
  {
    if at + 2 <= |data| { ShortNumber(data[at..at + 2]); }
    if at + 4 <= |data| { WordNumber(data[at..at + 4]); }
    if at + 8 <= |data| {
      WordNumber(data[at..at + 8][..4]);
      WordNumber(data[at..at + 8][4..]);
      NumberJoins(data[at..at + 8]);
    }
    hide Number;
  }

  lemma ShortNumber(w: seq<byte>)
    requires |w| == 2
    ensures Number(w) == w[0] as nat + 256 * w[1] as nat
  {
    assert w[1..][1..] == [];
    NumberStep(w);
    NumberStep(w[1..]);
  }

  lemma WordNumber(w: seq<byte>)
    requires |w| == 4
    ensures Number(w) == w[0] as nat + 0x100 * w[1] as nat + 0x1_0000 * w[2] as nat + 0x100_0000 * w[3] as nat
  {
    assert w[1..][1..] == w[2..];
    ShortNumber(w[2..]);
    hide Number;
    NumberStep(w);
    NumberStep(w[1..]);
  }

  lemma NumberStep(w: seq<byte>)
    requires w != []
    ensures Number(w) == w[0] as nat + 256 * Number(w[1..])
  {
  }

  lemma NumberJoins(w: seq<byte>)
    requires |w| == 8
    ensures Number(w) == Number(w[..4]) + 0x1_0000_0000 * Number(w[4..])
  {
    hide Number;
    WordNumber(w[..4]);
    assert w[1..][1..] == w[2..] && w[2..][1..] == w[3..] && w[3..][1..] == w[4..];
    NumberStep(w);
    NumberStep(w[1..]);
    NumberStep(w[2..]);
    NumberStep(w[3..]);
  }
}
