/** The bitwise reflected CRC-32 (src/util/checksum.c), the CRC of section 8 of RFC 1952.

    The register is a `bv32`, as in C. The theorems are about the shift register itself: it is
    linear over exclusive or and every bit step is injective, from which error detection follows.
    Proofs about whole buffers hide the bit-level definitions and use their laws only.
 */
module Checksum {
  import opened Bytes
  import opened Words

  const POLYNOMIAL: bv32 := 0xedb88320
  const ONES: bv32 := 0xffffffff

  /** A byte as the low bits of the register. */
  function Bits(b: byte): bv32 { Widen(Octo(b)) }

  lemma BitsIsCast(b: byte)
    ensures Bits(b) == (b as bv8) as bv32
  {
    OctoIsCast(b);
    hide Octo;
  }

  /** Exclusive or. */
  function X(a: bv32, b: bv32): bv32 { a ^ b }

  /** All ones if the lowest bit is set, else zero. */
  function Mask(c: bv32): bv32 { 0 - (c & 1) }

  function Half(c: bv32): bv32 { c >> 1 }

  predicate Odd(c: bv32) { c & 1 == 1 }

  function Tap(c: bv32): bv32 { if Odd(c) then POLYNOMIAL else 0 }

  /** One iteration of the inner loop. */
  function Bit(c: bv32): bv32 {
    X(Half(c), Tap(c))
  }

  function Steps(n: nat, c: bv32): bv32 {
    if n == 0 then c else Bit(Steps(n - 1, c))
  }

  /** The eight bit steps of one byte. */
  function Octet(c: bv32): bv32 {
    Bit(Bit(Bit(Bit(Bit(Bit(Bit(Bit(c))))))))
  }

  /** The register after shifting in `data`, without the complements. */
  function Feed(c: bv32, data: seq<byte>): bv32
    decreases data
  {
    if data == [] then c else Feed(Octet(X(c, Bits(data[0]))), data[1..])
  }

  function CrcExtend(seed: bv32, data: seq<byte>): bv32 {
    X(Feed(X(seed, ONES), data), ONES)
  }

  /** The CRC as the uint32_t that is compared with a stored one. */
  function Crc32(data: seq<byte>): uint32 {
    ToInt(CrcExtend(0, data))
  }

  method ComputeExtend(seed: bv32, data: seq<byte>) returns (crc: bv32)
    ensures crc == CrcExtend(seed, data)
  {
    hide Bit, Octet, Bits, X, Mask, Half;
    crc := X(seed, ONES);
    for i := 0 to |data|
      invariant Feed(crc, data[i..]) == Feed(X(seed, ONES), data)
    {
      assert data[i..][1..] == data[i + 1..];
      BitsIsCast(data[i]);
      crc := X(crc, (data[i] as bv8) as bv32);
      ghost var start := crc;
      for bit := 0 to 8
        invariant crc == Steps(bit, start)
      {
        BitBody(crc);
        var mask := Mask(crc);
        crc := X(Half(crc), POLYNOMIAL & mask);
      }
      EightSteps(start);
    }
    crc := X(crc, ONES);
  }

  method ComputeCrc32(data: seq<byte>) returns (crc: uint32)
    ensures crc == Crc32(data)
  {
    hide CrcExtend;
    var register := ComputeExtend(0, data);
    crc := ToInt(register);
  }

  /** Masking with all ones or zero is choosing. */
  lemma BitBody(c: bv32)
    ensures X(Half(c), POLYNOMIAL & Mask(c)) == Bit(c)
  {
    MaskChooses(c);
    hide X, Half, Mask, Odd;
  }

  lemma MaskChooses(c: bv32)
    ensures POLYNOMIAL & Mask(c) == Tap(c)
  {
  }

  lemma EightSteps(c: bv32)
    ensures Steps(8, c) == Octet(c)
  {
    hide Bit;
    assert Steps(1, c) == Bit(c);
    assert Steps(2, c) == Bit(Bit(c));
    assert Steps(3, c) == Bit(Bit(Bit(c)));
    assert Steps(4, c) == Bit(Bit(Bit(Bit(c))));
    assert Steps(5, c) == Bit(Bit(Bit(Bit(Bit(c)))));
    assert Steps(6, c) == Bit(Bit(Bit(Bit(Bit(Bit(c))))));
    assert Steps(7, c) == Bit(Bit(Bit(Bit(Bit(Bit(Bit(c)))))));
  }

  // ----- laws of exclusive or and of the bit step -----

  lemma XCancel(a: bv32, b: bv32)
    ensures X(X(a, b), b) == a && X(b, X(b, a)) == a
  {
  }

  lemma XAssoc(a: bv32, b: bv32, c: bv32)
    ensures X(X(a, b), c) == X(a, X(b, c))
  {
  }

  lemma XSwap(a: bv32, b: bv32, c: bv32, d: bv32)
    ensures X(X(a, b), X(c, d)) == X(X(a, c), X(b, d))
  {
    XAssoc(X(a, b), c, d);
    XAssoc(a, b, c);
    assert X(b, c) == X(c, b);
    XAssoc(a, c, b);
    XAssoc(X(a, c), b, d);
    hide X;
  }

  lemma OddLinear(a: bv32, b: bv32)
    ensures Odd(X(a, b)) <==> Odd(a) != Odd(b)
  {
  }

  lemma HalfLinear(a: bv32, b: bv32)
    ensures Half(X(a, b)) == X(Half(a), Half(b))
  {
  }

  lemma TapLinear(a: bv32, b: bv32)
    ensures Tap(X(a, b)) == X(Tap(a), Tap(b))
  {
    OddLinear(a, b);
    hide Odd;
    assert X(POLYNOMIAL, POLYNOMIAL) == 0 && X(0, POLYNOMIAL) == X(POLYNOMIAL, 0) == POLYNOMIAL && X(0, 0) == 0;
    hide X;
  }

  lemma BitLinear(a: bv32, b: bv32)
    ensures Bit(X(a, b)) == X(Bit(a), Bit(b))
  {
    hide X, Half, Tap;
    TapLinear(a, b);
    HalfLinear(a, b);
    XSwap(Half(a), Half(b), Tap(a), Tap(b));
  }

  lemma BitInjective(a: bv32, b: bv32)
    requires Bit(a) == Bit(b)
    ensures a == b
  {
  }

  lemma {:induction false} StepsLinear(n: nat, a: bv32, b: bv32)
    ensures Steps(n, X(a, b)) == X(Steps(n, a), Steps(n, b))
  {
    hide Bit, X;
    if n > 0 {
      StepsLinear(n - 1, a, b);
      BitLinear(Steps(n - 1, a), Steps(n - 1, b));
    }
  }

  lemma {:induction false} StepsInjective(n: nat, a: bv32, b: bv32)
    requires Steps(n, a) == Steps(n, b)
    ensures a == b
  {
    hide Bit;
    if n > 0 {
      BitInjective(Steps(n - 1, a), Steps(n - 1, b));
      StepsInjective(n - 1, a, b);
    }
  }

  lemma OctetLinear(a: bv32, b: bv32)
    ensures Octet(X(a, b)) == X(Octet(a), Octet(b))
  {
    hide Bit, X, Octet;
    StepsLinear(8, a, b);
    EightSteps(a);
    EightSteps(b);
    EightSteps(X(a, b));
  }

  lemma OctetInjective(a: bv32, b: bv32)
    requires Octet(a) == Octet(b)
    ensures a == b
  {
    hide Bit, Octet;
    EightSteps(a);
    EightSteps(b);
    StepsInjective(8, a, b);
  }

  predicate TopByteZero(c: bv32) { c & 0xff000000 == 0 }

  function Up(c: bv32): bv32 { c << 8 }

  /** Shifting out a zero byte moves the other three down unchanged. */
  lemma OctetUp(c: bv32)
    requires TopByteZero(c)
    ensures Octet(Up(c)) == c
  {
  }

  // ----- feeding is compositional, linear, and injective in the register -----

  lemma {:induction false} FeedConcat(c: bv32, a: seq<byte>, b: seq<byte>)
    ensures Feed(c, a + b) == Feed(Feed(c, a), b)
    decreases a
  {
    hide Octet, Bits, X;
    if a == [] {
      assert a + b == b;
    } else {
      assert (a + b)[1..] == a[1..] + b;
      FeedConcat(Octet(X(c, Bits(a[0]))), a[1..], b);
    }
  }

  lemma {:induction false} FeedInjective(c: bv32, d: bv32, data: seq<byte>)
    requires Feed(c, data) == Feed(d, data)
    ensures c == d
    decreases data
  {
    hide Octet, Bits, X;
    if data != [] {
      var x := Bits(data[0]);
      FeedInjective(Octet(X(c, x)), Octet(X(d, x)), data[1..]);
      OctetInjective(X(c, x), X(d, x));
      XCancel(c, x);
      XCancel(d, x);
    }
  }

  function XorBytes(a: byte, b: byte): byte {
    (Octo(a) ^ Octo(b)) as int
  }

  /** Bytewise exclusive or of two buffers. */
  function Xor(a: seq<byte>, b: seq<byte>): (r: seq<byte>)
    requires |a| == |b|
    ensures |r| == |a|
  {
    if a == [] then [] else [XorBytes(a[0], b[0])] + Xor(a[1..], b[1..])
  }

  lemma BitsXor(a: byte, b: byte)
    ensures Bits(XorBytes(a, b)) == X(Bits(a), Bits(b))
  {
    OctoOfInt(Octo(a) ^ Octo(b));
    hide Octo;
  }

  lemma {:induction false} FeedLinear(c: bv32, d: bv32, a: seq<byte>, b: seq<byte>)
    requires |a| == |b|
    ensures Feed(X(c, d), Xor(a, b)) == X(Feed(c, a), Feed(d, b))
    decreases a
  {
    hide Octet, Bits, X, XorBytes;
    if a != [] {
      var x, y := Bits(a[0]), Bits(b[0]);
      BitsXor(a[0], b[0]);
      OctetLinear(X(c, x), X(d, y));
      XSwap(c, d, x, y);
      assert Xor(a, b)[1..] == Xor(a[1..], b[1..]);
      FeedLinear(Octet(X(c, x)), Octet(X(d, y)), a[1..], b[1..]);
    }
  }

  /** Checksumming in pieces is checksumming the whole. */
  lemma ExtendComposes(seed: bv32, a: seq<byte>, b: seq<byte>)
    ensures CrcExtend(CrcExtend(seed, a), b) == CrcExtend(seed, a + b)
  {
    hide X, Feed;
    FeedConcat(X(seed, ONES), a, b);
    XCancel(Feed(X(seed, ONES), a), ONES);
  }

  /** The CRC is affine: the complements survive an odd number of exclusive ors. */
  lemma ExtendXor3(seed: bv32, a: seq<byte>, b: seq<byte>, c: seq<byte>)
    requires |a| == |b| == |c|
    ensures CrcExtend(seed, Xor(Xor(a, b), c)) == X(X(CrcExtend(seed, a), CrcExtend(seed, b)), CrcExtend(seed, c))
  {
    hide X, Feed, Xor;
    var s := X(seed, ONES);
    FeedLinear(s, s, a, b);
    FeedLinear(X(s, s), s, Xor(a, b), c);
    SelfXor(s);
    SelfXor(ONES);
    XSwap(Feed(s, a), ONES, Feed(s, b), ONES);
    XSwap(X(Feed(s, a), Feed(s, b)), X(ONES, ONES), Feed(s, c), ONES);
  }

  lemma SelfXor(a: bv32)
    ensures X(X(a, a), a) == a
  {
  }

  // ----- one bit at a time -----

  function Unit(b: bool): bv32 { if b then 1 else 0 }

  /** The register after shifting in one bit. */
  function Clock(c: bv32, b: bool): bv32 {
    Bit(X(c, Unit(b)))
  }

  function Clocks(c: bv32, w: seq<bool>): bv32
    decreases w
  {
    if w == [] then c else Clocks(Clock(c, w[0]), w[1..])
  }

  /** The lowest `n` bits of a word, lowest first. */
  function LowBits(y: bv32, n: nat): (w: seq<bool>)
    ensures |w| == n
    decreases n
  {
    if n == 0 then [] else [Odd(y)] + LowBits(Half(y), n - 1)
  }

  function Shift(y: bv32, n: nat): bv32
    decreases n
  {
    if n == 0 then y else Shift(Half(y), n - 1)
  }

  /** The bits of a buffer in the order they enter the register: lowest bit of the first byte first. */
  function BitsOf(data: seq<byte>): (w: seq<bool>)
    ensures |w| == 8 * |data|
  {
    if data == [] then [] else LowBits(Bits(data[0]), 8) + BitsOf(data[1..])
  }

  lemma UnitIsLowBit(b: bool)
    ensures Half(Unit(b)) == 0 && Odd(Unit(b)) == b
  {
  }

  lemma PeelBit(c: bv32, y: bv32)
    ensures Bit(X(c, y)) == X(Clock(c, Odd(y)), Half(y))
  {
    hide X, Half, Odd, Unit;
    var u := Unit(Odd(y));
    UnitIsLowBit(Odd(y));
    HalfLinear(c, y);
    HalfLinear(c, u);
    OddLinear(c, y);
    OddLinear(c, u);
    XSwap(Half(c), Half(y), Tap(X(c, y)), 0);
    XZero(Tap(X(c, y)));
    XZero(Half(c));
    XZero(Half(y));
    hide Tap;
    assert Tap(X(c, u)) == Tap(X(c, y)) by { TapByOdd(X(c, u), X(c, y)); }
    XSwap(Half(c), Tap(X(c, y)), Half(y), 0);
    XZero(X(Half(c), Tap(X(c, y))));
  }

  lemma TapByOdd(a: bv32, b: bv32)
    requires Odd(a) == Odd(b)
    ensures Tap(a) == Tap(b)
  {
    hide Odd;
  }

  lemma {:induction false} StepsFront(n: nat, c: bv32)
    requires n > 0
    ensures Steps(n, c) == Steps(n - 1, Bit(c))
  {
    hide Bit;
    if n > 1 {
      StepsFront(n - 1, c);
    }
  }

  /** Adding a word to the register up front is clocking in its low bits, and then adding the rest. */
  lemma {:induction false} Peel(n: nat, c: bv32, y: bv32)
    ensures Steps(n, X(c, y)) == X(Clocks(c, LowBits(y, n)), Shift(y, n))
    decreases n
  {
    hide Bit, X, Half, Odd, Clock;
    if n > 0 {
      StepsFront(n, X(c, y));
      PeelBit(c, y);
      Peel(n - 1, Clock(c, Odd(y)), Half(y));
      assert LowBits(y, n)[1..] == LowBits(Half(y), n - 1);
    }
  }

  lemma HalfSeven(y: bv32)
    ensures Half(Half(Half(Half(Half(Half(Half(y))))))) == y >> 7
    ensures Half(y >> 7) == y >> 8
  {
  }

  lemma ShiftByte(y: bv32)
    ensures Shift(y, 7) == y >> 7 && Shift(y, 8) == y >> 8
  {
    HalfSeven(y);
    hide Half;
    var y2 := Half(Half(y));
    var y4 := Half(Half(y2));
    var y6 := Half(Half(y4));
    assert Shift(y6, 1) == Half(y6) && Shift(y6, 2) == Half(Half(y6));
    assert Shift(y4, 3) == Shift(y6, 1) && Shift(y4, 4) == Shift(y6, 2);
    assert Shift(y2, 5) == Shift(y4, 3) && Shift(y2, 6) == Shift(y4, 4);
    assert Shift(y, 7) == Shift(y2, 5) && Shift(y, 8) == Shift(y2, 6);
  }

  lemma {:induction false} ShiftAdd(y: bv32, m: nat, n: nat)
    ensures Shift(y, m + n) == Shift(Shift(y, m), n)
    decreases m
  {
    hide Half;
    if m > 0 {
      ShiftAdd(Half(y), m - 1, n);
    }
  }

  lemma ByteEndsInEight(b: bv8)
    ensures Widen(b) >> 8 == 0
  {
  }

  lemma OctetIsClocks(c: bv32, b: byte)
    ensures Octet(X(c, Bits(b))) == Clocks(c, LowBits(Bits(b), 8))
  {
    var y := Bits(b);
    ByteEndsInEight(Octo(b));
    ShiftByte(y);
    hide Bit, Octet, X, Clocks, LowBits, Shift, Bits;
    Peel(8, c, y);
    EightSteps(X(c, y));
    XZero(Clocks(c, LowBits(y, 8)));
  }

  lemma XZero(a: bv32)
    ensures X(a, 0) == a
  {
  }

  lemma {:induction false} ClocksConcat(c: bv32, v: seq<bool>, w: seq<bool>)
    ensures Clocks(c, v + w) == Clocks(Clocks(c, v), w)
    decreases v
  {
    hide Clock;
    if v == [] {
      assert v + w == w;
    } else {
      assert (v + w)[1..] == v[1..] + w;
      ClocksConcat(Clock(c, v[0]), v[1..], w);
    }
  }

  /** The byte loop is the bit-serial register. */
  lemma {:induction false} FeedIsClocks(c: bv32, data: seq<byte>)
    ensures Feed(c, data) == Clocks(c, BitsOf(data))
    decreases data
  {
    hide Octet, Bits, X, LowBits, Clocks;
    if data == [] {
      assert Clocks(c, []) == c by { NoClocks(c); }
    } else {
      OctetIsClocks(c, data[0]);
      FeedIsClocks(Octet(X(c, Bits(data[0]))), data[1..]);
      ClocksConcat(c, LowBits(Bits(data[0]), 8), BitsOf(data[1..]));
    }
  }

  lemma NoClocks(c: bv32)
    ensures Clocks(c, []) == c
  {
  }

  lemma {:induction false} ClocksInjective(c: bv32, d: bv32, w: seq<bool>)
    requires Clocks(c, w) == Clocks(d, w)
    ensures c == d
    decreases w
  {
    hide Bit, X, Unit;
    if w != [] {
      ClocksInjective(Clock(c, w[0]), Clock(d, w[0]), w[1..]);
      BitInjective(X(c, Unit(w[0])), X(d, Unit(w[0])));
      XCancel(c, Unit(w[0]));
      XCancel(d, Unit(w[0]));
    }
  }

  // ----- burst detection -----

  function Double(y: bv32): bv32 { y << 1 }

  /** Up to 32 bits as one register word, first bit lowest. */
  function Word(w: seq<bool>): bv32 {
    if w == [] then 0 else X(Unit(w[0]), Double(Word(w[1..])))
  }

  lemma PutBit(b: bool, y: bv32)
    requires y >> 31 == 0
    ensures Half(X(Unit(b), Double(y))) == y && Odd(X(Unit(b), Double(y))) == b
  {
  }

  lemma {:induction false} ShiftZero(n: nat)
    ensures Shift(0, n) == 0
  {
    if n > 0 {
      ShiftZero(n - 1);
    }
  }

  lemma TopBitClear(y: bv32, n: nat)
    requires n <= 31 && Shift(y, n) == 0
    ensures y >> 31 == 0
  {
    ShiftAdd(y, n, 31 - n);
    ShiftZero(31 - n);
    ShiftAdd(y, 8, 23);
    ShiftAdd(Shift(y, 8), 8, 15);
    ShiftAdd(Shift(Shift(y, 8), 8), 8, 7);
    ShiftByte(y);
    ShiftByte(y >> 8);
    ShiftByte(y >> 8 >> 8);
    ShiftByte(y >> 8 >> 8 >> 8);
    hide Shift;
    assert y >> 8 >> 8 >> 8 >> 7 == y >> 31;
  }

  lemma {:induction false} WordBits(w: seq<bool>)
    requires |w| <= 32
    ensures Shift(Word(w), |w|) == 0 && LowBits(Word(w), |w|) == w
  {
    hide X, Half, Odd, Unit, Double;
    if w != [] {
      var p := Word(w[1..]);
      WordBits(w[1..]);
      TopBitClear(p, |w| - 1);
      PutBit(w[0], p);
      assert w == [w[0]] + w[1..];
    }
  }

  /** From one register value, at most 32 bits can be told apart by where they lead. */
  lemma WindowDistinct(c: bv32, v: seq<bool>, w: seq<bool>)
    requires |v| == |w| <= 32 && Clocks(c, v) == Clocks(c, w)
    ensures v == w
  {
    hide X, Clocks, LowBits, Shift, Word, Steps;
    WordBits(v);
    WordBits(w);
    Peel(|v|, c, Word(v));
    Peel(|w|, c, Word(w));
    StepsInjective(|v|, X(c, Word(v)), X(c, Word(w)));
    XCancel(Word(v), c);
    XCancel(Word(w), c);
  }

  /** `v` and `w` have one length and agree everywhere outside the 32 positions from `at`. */
  ghost predicate SameBitsOutside(v: seq<bool>, w: seq<bool>, at: int) {
    |v| == |w| && forall i :: 0 <= i < |v| && !(at <= i < at + 32) ==> v[i] == w[i]
  }

  lemma Pieces<T>(s: seq<T>, lo: nat, hi: nat)
    requires lo <= hi <= |s|
    ensures s == s[..lo] + (s[lo..hi] + s[hi..])
  {
  }

  lemma ClocksBurst(c: bv32, v: seq<bool>, w: seq<bool>, at: int)
    requires SameBitsOutside(v, w, at) && Clocks(c, v) == Clocks(c, w)
    ensures v == w
  {
    hide Clocks;
    var lo := if at < 0 then 0 else if at <= |v| then at else |v|;
    var hi := if at + 32 < lo then lo else if at + 32 <= |v| then at + 32 else |v|;
    var p, x, y, t := v[..lo], v[lo..hi], w[lo..hi], v[hi..];
    assert w[..lo] == p && w[hi..] == t;
    Pieces(v, lo, hi);
    Pieces(w, lo, hi);
    var s := Clocks(c, p);
    ClocksConcat(c, p, x + t);
    ClocksConcat(c, p, y + t);
    ClocksConcat(s, x, t);
    ClocksConcat(s, y, t);
    ClocksInjective(Clocks(s, x), Clocks(s, y), t);
    WindowDistinct(s, x, y);
  }

  /** `a` and `b` differ by a burst: only within 32 consecutive bits, at any bit offset. */
  ghost predicate AgreeOutside(a: seq<byte>, b: seq<byte>, at: int) {
    |a| == |b| && SameBitsOutside(BitsOf(a), BitsOf(b), at)
  }

  lemma WidenInjective(a: bv8, b: bv8)
    requires Widen(a) == Widen(b)
    ensures a == b
  {
  }

  lemma {:induction false} BitsOfInjective(a: seq<byte>, b: seq<byte>)
    requires |a| == |b| && BitsOf(a) == BitsOf(b)
    ensures a == b
  {
    hide Octet, X, LowBits, Clocks, Octo, Widen;
    if a != [] {
      assert BitsOf(a)[..8] == LowBits(Bits(a[0]), 8) && BitsOf(b)[..8] == LowBits(Bits(b[0]), 8);
      assert BitsOf(a)[8..] == BitsOf(a[1..]) && BitsOf(b)[8..] == BitsOf(b[1..]);
      OctetIsClocks(0, a[0]);
      OctetIsClocks(0, b[0]);
      OctetInjective(X(0, Bits(a[0])), X(0, Bits(b[0])));
      XCancel(Bits(a[0]), 0);
      XCancel(Bits(b[0]), 0);
      WidenInjective(Octo(a[0]), Octo(b[0]));
      IntOfOcto(a[0]);
      IntOfOcto(b[0]);
      BitsOfInjective(a[1..], b[1..]);
      assert a == [a[0]] + a[1..] && b == [b[0]] + b[1..];
    }
  }

  lemma FeedBurst(c: bv32, a: seq<byte>, b: seq<byte>, at: int)
    requires AgreeOutside(a, b, at) && a != b
    ensures Feed(c, a) != Feed(c, b)
  {
    hide Feed, Clocks, BitsOf, SameBitsOutside;
    if Feed(c, a) == Feed(c, b) {
      FeedIsClocks(c, a);
      FeedIsClocks(c, b);
      ClocksBurst(c, BitsOf(a), BitsOf(b), at);
      BitsOfInjective(a, b);
    }
  }

  /** A change confined to 32 consecutive bits, wherever they start, always changes the CRC, under
      every seed. */
  lemma BurstDetected(seed: bv32, a: seq<byte>, b: seq<byte>, at: int)
    requires AgreeOutside(a, b, at) && a != b
    ensures CrcExtend(seed, a) != CrcExtend(seed, b)
  {
    hide X, Feed, AgreeOutside;
    var s := X(seed, ONES);
    FeedBurst(s, a, b, at);
    XCancel(Feed(s, a), ONES);
    XCancel(Feed(s, b), ONES);
  }

  /** Bit `8 j + k` of a buffer is bit `k` of its byte `j`. */
  lemma {:induction false} BitsOfAt(data: seq<byte>, j: nat, k: nat)
    requires j < |data| && k < 8
    ensures BitsOf(data)[8 * j + k] == Odd(Shift(Bits(data[j]), k))
    decreases data
  {
    hide Bits, Odd, Half, LowBits, Shift;
    if j == 0 {
      LowBitsAt(Bits(data[0]), 8, k);
    } else {
      var n := 8 * (j - 1) + k;
      BitsOfAt(data[1..], j - 1, k);
      assert BitsOf(data)[8 + n] == BitsOf(data[1..])[n];
    }
  }

  lemma {:induction false} LowBitsAt(y: bv32, n: nat, k: nat)
    requires k < n
    ensures LowBits(y, n)[k] == Odd(Shift(y, k))
    decreases n
  {
    hide Half, Odd;
    if k > 0 {
      LowBitsAt(Half(y), n - 1, k - 1);
    }
  }

  /** A change within four consecutive bytes is such a burst. */
  lemma FourBytesAreABurst(a: seq<byte>, b: seq<byte>, at: nat)
    requires |a| == |b| && forall j :: 0 <= j < |a| && !(at <= j < at + 4) ==> a[j] == b[j]
    ensures AgreeOutside(a, b, 8 * at)
  {
    hide BitsOf, Odd, Shift, Bits;
    var v, w := BitsOf(a), BitsOf(b);
    forall i | 0 <= i < |v| && !(8 * at <= i < 8 * at + 32)
      ensures v[i] == w[i]
    {
      var j, k := i / 8, i % 8;
      BitsOfAt(a, j, k);
      BitsOfAt(b, j, k);
    }
  }

  lemma {:induction false} BitsOfConcat(a: seq<byte>, b: seq<byte>)
    ensures BitsOf(a + b) == BitsOf(a) + BitsOf(b)
  {
    hide Bits, LowBits;
    if a == [] {
      assert a + b == b;
    } else {
      assert (a + b)[1..] == a[1..] + b;
      BitsOfConcat(a[1..], b);
    }
  }

  lemma BitsOfPart(a: seq<byte>, lo: nat, hi: nat)
    requires lo <= hi <= |a|
    ensures BitsOf(a[lo..hi]) == BitsOf(a)[8 * lo..8 * hi]
  {
    hide BitsOf;
    var p, m, t := a[..lo], a[lo..hi], a[hi..];
    Pieces(a, lo, hi);
    BitsOfConcat(p, m + t);
    BitsOfConcat(m, t);
    Middle(BitsOf(p), BitsOf(m), BitsOf(t));
  }

  lemma Middle(p: seq<bool>, m: seq<bool>, t: seq<bool>)
    ensures (p + (m + t))[|p|..|p| + |m|] == m
  {
  }

  /** A burst in a buffer is a burst in each of its parts. */
  lemma BurstInPart(a: seq<byte>, b: seq<byte>, at: int, lo: nat, hi: nat)
    requires AgreeOutside(a, b, at) && lo <= hi <= |a|
    ensures AgreeOutside(a[lo..hi], b[lo..hi], at - 8 * lo)
  {
    hide BitsOf;
    BitsOfPart(a, lo, hi);
    BitsOfPart(b, lo, hi);
  }

  // ----- sealed blocks: data followed by its own stored CRC -----

  /** `block` is some data followed by its CRC in little-endian order. */
  predicate Sealed(block: seq<byte>) {
    |block| >= 4 && Crc32(block[..|block| - 4]) == LoadLe32(block, |block| - 4)
  }

  /** Four bytes as they are added to the register one after the other. */
  lemma JoinPeels(b0: bv8, b1: bv8, b2: bv8, b3: bv8)
    ensures Join(b0, b1, b2, b3) == X(Widen(b0), Up(Join(b1, b2, b3, 0)))
    ensures TopByteZero(Join(b1, b2, b3, 0))
  {
  }

  lemma OctetPeels(s: bv32, b: bv8, rest: bv32)
    requires TopByteZero(rest)
    ensures Octet(X(s, X(Widen(b), Up(rest)))) == X(Octet(X(s, Widen(b))), rest)
  {
    XAssoc(s, Widen(b), Up(rest));
    OctetUp(rest);
    OctetLinear(X(s, Widen(b)), Up(rest));
    hide Octet, X, Widen, Up, TopByteZero;
  }

  /** Feeding four bytes is adding them as one word and then shifting the word out. */
  lemma FeedFour(s: bv32, w: seq<byte>)
    requires |w| == 4
    ensures Feed(s, w) == Octet(Octet(Octet(Octet(X(s, Join(Octo(w[0]), Octo(w[1]), Octo(w[2]), Octo(w[3])))))))
  {
    hide Octet, X, Widen, Up, TopByteZero, Octo, Join, Feed;
    var b0, b1, b2, b3 := Octo(w[0]), Octo(w[1]), Octo(w[2]), Octo(w[3]);
    var s1 := Octet(X(s, Widen(b0)));
    var s2 := Octet(X(s1, Widen(b1)));
    var s3 := Octet(X(s2, Widen(b2)));
    var s4 := Octet(X(s3, Widen(b3)));
    JoinPeels(b0, b1, b2, b3);
    JoinPeels(b1, b2, b3, 0);
    JoinPeels(b2, b3, 0, 0);
    JoinPeels(b3, 0, 0, 0);
    OctetPeels(s, b0, Join(b1, b2, b3, 0));
    OctetPeels(s1, b1, Join(b2, b3, 0, 0));
    OctetPeels(s2, b2, Join(b3, 0, 0, 0));
    OctetPeels(s3, b3, Join(0, 0, 0, 0));
    JoinNothing();
    XZero(s4);
    assert w[1..][1..] == w[2..] && w[2..][1..] == w[3..] && w[3..][1..] == [];
    FeedStep(s, w);
    FeedStep(s1, w[1..]);
    FeedStep(s2, w[2..]);
    FeedStep(s3, w[3..]);
    FeedStep(s4, []);
  }

  lemma FeedStep(c: bv32, w: seq<byte>)
    ensures Feed(c, w) == if w == [] then c else Feed(Octet(X(c, Bits(w[0]))), w[1..])
  {
    hide Octet, X, Bits;
  }

  lemma JoinNothing()
    ensures Join(0, 0, 0, 0) == 0
  {
  }

  lemma JoinIsLoad(w: seq<byte>)
    requires |w| == 4
    ensures ToInt(Join(Octo(w[0]), Octo(w[1]), Octo(w[2]), Octo(w[3]))) == LoadLe32(w, 0)
  {
    hide Octo, ToInt, Join;
    JoinToInt(Octo(w[0]), Octo(w[1]), Octo(w[2]), Octo(w[3]));
    IntOfOcto(w[0]);
    IntOfOcto(w[1]);
    IntOfOcto(w[2]);
    IntOfOcto(w[3]);
  }

  lemma Residue()
    ensures Octet(Octet(Octet(Octet(0xffffffff)))) == 0xdebb20e3
  {
  }

  /** Every sealed block leaves the same register value behind. */
  lemma SealedResidue(block: seq<byte>)
    requires Sealed(block)
    ensures Feed(0xffffffff, block) == 0xdebb20e3
  {
    hide X, Feed, ToInt, LoadLe32, Octo, Join, Octet;
    var data, tail := block[..|block| - 4], block[|block| - 4..];
    ZeroSeed();
    var s := Feed(ONES, data);
    var stored := Join(Octo(tail[0]), Octo(tail[1]), Octo(tail[2]), Octo(tail[3]));
    JoinIsLoad(tail);
    ShiftedLoad(block, |block| - 4);
    SameWord(stored, X(s, ONES));
    XCancel(ONES, s);
    FeedFour(s, tail);
    assert block == data + tail;
    FeedConcat(ONES, data, tail);
    Residue();
  }

  lemma ZeroSeed()
    ensures X(0, ONES) == ONES
  {
  }

  lemma ShiftedLoad(p: seq<byte>, at: nat)
    requires at + 4 <= |p|
    ensures LoadLe32(p[at..], 0) == LoadLe32(p, at)
  {
  }

  /** A burst breaks the seal, even when it hits the stored CRC itself. */
  lemma SealBreaks(block: seq<byte>, other: seq<byte>, at: int)
    requires Sealed(block) && AgreeOutside(block, other, at) && block != other
    ensures !Sealed(other)
  {
    hide Feed, Sealed, AgreeOutside;
    if Sealed(other) {
      SealedResidue(block);
      SealedResidue(other);
      FeedBurst(0xffffffff, block, other, at);
    }
  }

  // ----- the table-driven build -----

  function Down(c: bv32): bv32 { c >> 8 }

  function LowByte(c: bv32): bv32 { c & 0xff }

  /** Entry `n` of the table of section 8 of RFC 1952. */
  function TableEntry(n: bv32): bv32 { Octet(n) }

  /** `update_crc` of RFC 1952 without its complements: one table lookup a byte. */
  function TableFeed(c: bv32, data: seq<byte>): bv32
    decreases data
  {
    if data == [] then c
    else TableFeed(X(TableEntry(LowByte(X(c, Bits(data[0])))), Down(c)), data[1..])
  }

  /** The bitwise loop computes what the older table-driven build computed. */
  lemma {:induction false} TableFormAgrees(c: bv32, data: seq<byte>)
    ensures TableFeed(c, data) == Feed(c, data)
    decreases data
  {
    hide Octet, Octo, Widen, X, LowByte, Down;
    if data != [] {
      OctetByTable(c, Octo(data[0]));
      TableFormAgrees(Octet(X(c, Bits(data[0]))), data[1..]);
    }
  }

  lemma SplitLow(c: bv32)
    ensures c == X(LowByte(c), Up(Down(c))) && TopByteZero(Down(c))
  {
  }

  lemma DownIgnoresByte(c: bv32, b: bv8)
    ensures Down(X(c, Widen(b))) == Down(c)
  {
  }

  lemma OctetByTable(c: bv32, b: bv8)
    ensures Octet(X(c, Widen(b))) == X(TableEntry(LowByte(X(c, Widen(b)))), Down(c))
  {
    SplitLow(X(c, Widen(b)));
    DownIgnoresByte(c, b);
    hide Octet, Widen, X, LowByte, Down, Up, TopByteZero;
    OctetLinear(LowByte(X(c, Widen(b))), Up(Down(c)));
    OctetUp(Down(c));
  }

  lemma XIs(a: bv32, b: bv32)
    ensures X(a, b) == a ^ b
  {
  }

  /** The whole function, with its complements: `update_crc` of section 8 of RFC 1952. */
  lemma {:induction false} ExtendIsTableForm(seed: bv32, data: seq<byte>, start: bv32, end: bv32)
    requires start == seed ^ 0xffffffff && end == TableFeed(start, data)
    ensures CrcExtend(seed, data) == end ^ 0xffffffff
  {
    hide Feed, TableFeed, X;
    XIs(seed, ONES);
    assert X(seed, ONES) == start;
    TableFormAgrees(start, data);
    assert CrcExtend(seed, data) == X(end, ONES);
    XIs(end, ONES);
  }

  lemma NineOctets()
    ensures Octet(X(0xffffffff, 0x31)) == 0x7c231048
    ensures Octet(X(0x7c231048, 0x32)) == 0xb0acbb32
    ensures Octet(X(0xb0acbb32, 0x33)) == 0x77b79c2d
    ensures Octet(X(0x77b79c2d, 0x34)) == 0x641c1f5c
    ensures Octet(X(0x641c1f5c, 0x35)) == 0x340ac5e3
    ensures Octet(X(0x340ac5e3, 0x36)) == 0xf68d2c9e
    ensures Octet(X(0xf68d2c9e, 0x37)) == 0xaffc9660
    ensures Octet(X(0xaffc9660, 0x38)) == 0x651f2550
    ensures Octet(X(0x651f2550, 0x39)) == 0x340bc6d9
  {
  }

  lemma FeedDigit(c: bv32, b: byte, x: bv8, next: bv32, rest: seq<byte>)
    requires x as int == b && Octet(X(c, Widen(x))) == next
    ensures Feed(c, [b] + rest) == Feed(next, rest)
  {
    OctoOfInt(x);
    FeedStep(c, [b] + rest);
    hide Octet, X, Octo, Widen, Feed;
    assert ([b] + rest)[1..] == rest;
  }

  /** The CRC of the nine digits "123456789", by which CRC-32 variants are told apart. */
  lemma CheckValue()
    ensures Crc32([0x31, 0x32, 0x33, 0x34, 0x35, 0x36, 0x37, 0x38, 0x39]) == 0xcbf43926
  {
    NineOctets();
    CheckEnds();
    hide Octet, X, Feed, ToInt, CrcExtend;
    FeedDigit(0xffffffff, 0x31, 0x31, 0x7c231048, [0x32, 0x33, 0x34, 0x35, 0x36, 0x37, 0x38, 0x39]);
    assert [0x31] + [0x32, 0x33, 0x34, 0x35, 0x36, 0x37, 0x38, 0x39] ==
      [0x31, 0x32, 0x33, 0x34, 0x35, 0x36, 0x37, 0x38, 0x39];
    FeedDigit(0x7c231048, 0x32, 0x32, 0xb0acbb32, [0x33, 0x34, 0x35, 0x36, 0x37, 0x38, 0x39]);
    assert [0x32] + [0x33, 0x34, 0x35, 0x36, 0x37, 0x38, 0x39] == [0x32, 0x33, 0x34, 0x35, 0x36, 0x37, 0x38, 0x39];
    FeedDigit(0xb0acbb32, 0x33, 0x33, 0x77b79c2d, [0x34, 0x35, 0x36, 0x37, 0x38, 0x39]);
    assert [0x33] + [0x34, 0x35, 0x36, 0x37, 0x38, 0x39] == [0x33, 0x34, 0x35, 0x36, 0x37, 0x38, 0x39];
    FeedDigit(0x77b79c2d, 0x34, 0x34, 0x641c1f5c, [0x35, 0x36, 0x37, 0x38, 0x39]);
    assert [0x34] + [0x35, 0x36, 0x37, 0x38, 0x39] == [0x34, 0x35, 0x36, 0x37, 0x38, 0x39];
    FeedDigit(0x641c1f5c, 0x35, 0x35, 0x340ac5e3, [0x36, 0x37, 0x38, 0x39]);
    assert [0x35] + [0x36, 0x37, 0x38, 0x39] == [0x35, 0x36, 0x37, 0x38, 0x39];
    FeedDigit(0x340ac5e3, 0x36, 0x36, 0xf68d2c9e, [0x37, 0x38, 0x39]);
    assert [0x36] + [0x37, 0x38, 0x39] == [0x36, 0x37, 0x38, 0x39];
    FeedDigit(0xf68d2c9e, 0x37, 0x37, 0xaffc9660, [0x38, 0x39]);
    assert [0x37] + [0x38, 0x39] == [0x37, 0x38, 0x39];
    FeedDigit(0xaffc9660, 0x38, 0x38, 0x651f2550, [0x39]);
    assert [0x38] + [0x39] == [0x38, 0x39];
    FeedDigit(0x651f2550, 0x39, 0x39, 0x340bc6d9, []);
    assert [0x39] + [] == [0x39];
    FeedStep(0x340bc6d9, []);
    CrcIs([0x31, 0x32, 0x33, 0x34, 0x35, 0x36, 0x37, 0x38, 0x39]);
  }

  lemma CheckEnds()
    ensures X(0x340bc6d9, ONES) == 0xcbf43926 && X(0, ONES) == 0xffffffff && ToInt(0xcbf43926) == 0xcbf43926
  {
  }

  lemma CrcIs(data: seq<byte>)
    ensures Crc32(data) == ToInt(X(Feed(X(0, ONES), data), ONES))
  {
    hide X, Feed, ToInt;
  }

  /** The probe table kept in src/protocol/crc_table.c. */
  const PROBE: seq<bv32> := [
    0x00000000, 0x77073096, 0xee0e612c, 0x990951ba,
    0x076dc419, 0x706af48f, 0xe963a535, 0x9e6495a3,
    0x0edb8832, 0x79dcb8a4, 0xe0d5e91e, 0x97d2d988,
    0x09b64c2b, 0x7eb17cbd, 0xe7b82d07, 0x90bf1d91]

  lemma ProbeTableAgrees(n: nat)
    requires n < 16
    ensures PROBE[n] == TableEntry(n as bv32)
  {
    hide Octet;
    ProbeBases();
    var p := PROBE;
    OctetLinear(1, 2); OctetLinear(1, 4); OctetLinear(1, 8); OctetLinear(2, 4); OctetLinear(2, 8);
    OctetLinear(4, 8); OctetLinear(3, 4); OctetLinear(3, 8); OctetLinear(5, 8); OctetLinear(6, 8); OctetLinear(7, 8);
  }

  lemma ProbeBases()
    ensures Octet(0) == 0 && Octet(1) == 0x77073096 && Octet(2) == 0xee0e612c
    ensures Octet(4) == 0x076dc419 && Octet(8) == 0x0edb8832
  {
  }
}
