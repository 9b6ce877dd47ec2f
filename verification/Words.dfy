/** Machine words and the integers they stand for. */
module Words {
  import opened Bytes

  /** The bits of a byte value, counted up from zero, which proofs can follow; `OctoIsCast` says that
      this is the cast C makes. */
  function Octo(b: int): bv8
    requires 0 <= b < 0x100
  {
    if b == 0 then 0 else Octo(b - 1) + 1
  }

  lemma {:induction false} IntOfOcto(b: int)
    requires 0 <= b < 0x100
    ensures Octo(b) as int == b
  {
    if b > 0 {
      IntOfOcto(b - 1);
      assert Octo(b - 1) != 0xff;
    }
  }

  lemma OctoOfInt(x: bv8)
    ensures Octo(x as int) == x
  {
    IntOfOcto(x as int);
    var y := Octo(x as int);
    hide Octo;
    assert (y as int) as bv8 == y && (x as int) as bv8 == x;
  }

  lemma OctoIsCast(b: int)
    requires 0 <= b < 0x100
    ensures Octo(b) == b as bv8
  {
    IntOfOcto(b);
    var y := Octo(b);
    hide Octo;
    assert (y as int) as bv8 == y;
  }

  function Widen(b: bv8): bv32 { b as bv32 }

  function ToInt(c: bv32): uint32 { c as int }

  /** Four bytes side by side. */
  function Join(b0: bv8, b1: bv8, b2: bv8, b3: bv8): bv32 {
    (b0 as bv32) | ((b1 as bv32) << 8) | ((b2 as bv32) << 16) | ((b3 as bv32) << 24)
  }

  lemma JoinToInt(b0: bv8, b1: bv8, b2: bv8, b3: bv8)
    ensures ToInt(Join(b0, b1, b2, b3)) ==
      (b0 as int) + 0x100 * (b1 as int) + 0x1_0000 * (b2 as int) + 0x100_0000 * (b3 as int)
  {
  }

  lemma SameWord(a: bv32, b: bv32)
    requires ToInt(a) == ToInt(b)
    ensures a == b
  {
    assert (a as int) as bv32 == a && (b as int) as bv32 == b;
  }

  /** Every 32-bit integer is the value of a word. */
  lemma WordExists(n: uint32) returns (x: bv32)
    ensures x as int == n
  {
    var b0, b1, b2, b3 := n % 0x100, n / 0x100 % 0x100, n / 0x1_0000 % 0x100, n / 0x100_0000;
    FourBytes(n);
    hide Octo, Join;
    IntOfOcto(b0);
    IntOfOcto(b1);
    IntOfOcto(b2);
    IntOfOcto(b3);
    JoinToInt(Octo(b0), Octo(b1), Octo(b2), Octo(b3));
    x := Join(Octo(b0), Octo(b1), Octo(b2), Octo(b3));
  }

  lemma FourBytes(n: uint32)
    ensures n == n % 0x100 + 0x100 * (n / 0x100 % 0x100) + 0x1_0000 * (n / 0x1_0000 % 0x100) +
      0x100_0000 * (n / 0x100_0000)
  {
    var a, b: int := n / 0x100, n / 0x1_0000;
    assert b == a / 0x100;
    assert n / 0x100_0000 == b / 0x100;
  }

  lemma PairToInt(hi: bv32, lo: bv32, z: bv64)
    requires z == ((hi as bv64) << 32) | (lo as bv64)
    ensures z as int == (hi as int) * 0x1_0000_0000 + (lo as int)
  {
  }

  /** The cast of a 64-bit integer to a word loses nothing. */
  lemma CastIsExact(n: uint64)
    ensures (n as bv64) as int == n
  {
    var hi := WordExists(n / 0x1_0000_0000);
    var lo := WordExists(n % 0x1_0000_0000);
    var z := ((hi as bv64) << 32) | (lo as bv64);
    PairToInt(hi, lo, z);
    RoundTrip(z, n);
  }

  lemma RoundTrip(z: bv64, n: uint64)
    requires z as int == n
    ensures (n as bv64) as int == n
  {
    assert (z as int) as bv64 == z;
  }

  lemma CastIsInjective(m: uint64, n: uint64)
    requires m as bv64 == n as bv64
    ensures m == n
  {
    CastIsExact(m);
    CastIsExact(n);
  }
}
