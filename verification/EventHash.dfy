/** The hash of a replay summary (src/replay/event_log.c:44-54): a 64-bit multiply-and-xor fold. */
module EventHash {
  import opened Bytes
  import opened Words

  const FNV_OFFSET: bv64 := 1469598103934665603

  /** The conversion of an unsigned integer to a 64-bit word. */
  function Word(v: uint64): bv64 { v as bv64 }

  function Blend(h: bv64, v: bv64): bv64 { h ^ v }

  function Scale(h: bv64): bv64 { h * 1099511628211 }

  /** One step of the fold. */
  function Mix(h: bv64, v: bv64): bv64 {
    Scale(Blend(h, v))
  }

  /** The fold over a list of (session id, update count) pairs. */
  function HashOf(pairs: seq<(uint32, uint64)>): bv64 {
    if pairs == [] then FNV_OFFSET
    else
      var last := pairs[|pairs| - 1];
      Mix(Mix(HashOf(pairs[..|pairs| - 1]), Word(last.0)), Word(last.1))
  }

  // ----- the numbers it computes -----

  lemma WordIsExact(v: uint64)
    ensures Word(v) as int == v
  {
    CastIsExact(v);
  }

  lemma ScaleIs(h: bv64)
    ensures Scale(h) == h * 0x100000001b3
  {
  }

  lemma MixIsScale(h: bv64, v: bv64)
    ensures Mix(h, v) == Scale(h ^ v)
  {
    hide Scale;
  }

  lemma MixIs(h: bv64, v: bv64)
    ensures Mix(h, v) == (h ^ v) * 0x100000001b3
  {
    hide Mix, Scale;
    MixIsScale(h, v);
    ScaleIs(h ^ v);
  }

  lemma TwoSteps(h: bv64, v: bv64, w: bv64, r: bv64)
    requires r == Mix(Mix(h, v), w)
    ensures r == (((h ^ v) * 0x100000001b3) ^ w) * 0x100000001b3
  {
    hide Mix;
    MixIs(h, v);
    MixIs((h ^ v) * 0x100000001b3, w);
  }

  lemma {:induction false} HashOfNothing()
    ensures HashOf([]) == 0x14650fb0739d0383
  {
  }

  lemma {:induction false} HashStep(pairs: seq<(uint32, uint64)>, id: uint32, count: uint64)
    ensures HashOf(pairs + [(id, count)]) == Mix(Mix(HashOf(pairs), Word(id)), Word(count))
  {
    hide Word, Mix;
    assert (pairs + [(id, count)])[..|pairs|] == pairs;
  }

  lemma WordIs(v: uint64, x: bv64)
    requires x as int == v
    ensures Word(v) == x
  {
    assert (x as int) as bv64 == x;
  }

  /** One more pair: exclusive or with the id, times the prime, exclusive or with the count, times
      the prime; `x` and `y` are the words whose values are the id and the count. */
  lemma {:induction false} HashOfOneMore(pairs: seq<(uint32, uint64)>, id: uint32, count: uint64,
      h: bv64, x: bv64, y: bv64)
    requires HashOf(pairs) == h && x as int == id && y as int == count
    ensures HashOf(pairs + [(id, count)]) == (((h ^ x) * 0x100000001b3) ^ y) * 0x100000001b3
  {
    hide HashOf, Word, Mix;
    HashStep(pairs, id, count);
    WordIs(id, x);
    WordIs(count, y);
    TwoSteps(h, x, y, HashOf(pairs + [(id, count)]));
  }

  /** The hash of tests/support/message_builder.c's journal: one checkpoint, session 7, two updates. */
  lemma {:induction false} HashOfTestJournal()
    ensures HashOf([(7, 2)]) == 0x9a6c7b00c54b9f8a
  {
    HashOfNothing();
    HashOfOneMore([], 7, 2, 0x14650fb0739d0383, 7, 2);
    assert [] + [(7 as uint32, 2 as uint64)] == [(7, 2)];
    hide HashOf;
  }

  // ----- changes it never misses -----

  /** Multiplication by the inverse of the prime. */
  function Unscale(h: bv64): bv64 { h * 0xce965057aff6957b }

  lemma InverseCancels(h: bv64)
    ensures Unscale(h * 0x100000001b3) == h
  {
  }

  lemma UnscaleScale(h: bv64)
    ensures Unscale(Scale(h)) == h
  {
    hide Unscale, Scale;
    ScaleIs(h);
    InverseCancels(h);
  }

  function Xor(a: bv64, b: bv64): bv64 { a ^ b }

  lemma XorCancels(a: bv64, b: bv64)
    ensures Xor(Xor(a, b), b) == a && Xor(a, Xor(a, b)) == b
  {
  }

  lemma BlendInjective(g: bv64, h: bv64, x: bv64, y: bv64)
    requires Blend(g, x) == Blend(h, y)
    ensures g == h <==> x == y
  {
    assert Blend(g, x) == Xor(g, x) && Blend(h, y) == Xor(h, y);
    hide Blend, Xor;
    XorCancels(g, x);
    XorCancels(h, y);
  }

  /** A step keeps different hashes apart and different values apart. */
  lemma MixInjective(g: bv64, h: bv64, m: uint64, n: uint64)
    requires Mix(g, Word(m)) == Mix(h, Word(n))
    ensures g == h <==> m == n
  {
    hide Scale, Blend, Unscale, Word;
    UnscaleScale(Blend(g, Word(m)));
    UnscaleScale(Blend(h, Word(n)));
    BlendInjective(g, h, Word(m), Word(n));
    WordIsExact(m);
    WordIsExact(n);
  }

  /** A change of one id or of one count anywhere in the list always changes the hash. */
  lemma {:induction false} OneChangeIsSeen(a: seq<(uint32, uint64)>, b: seq<(uint32, uint64)>, k: nat)
    requires |a| == |b| && k < |a| && forall i :: 0 <= i < |a| && i != k ==> a[i] == b[i]
    requires a[k] != b[k] && (a[k].0 == b[k].0 || a[k].1 == b[k].1)
    ensures HashOf(a) != HashOf(b)
    decreases |a|
  {
    hide Mix, Word;
    var n := |a| - 1;
    var g, h := HashOf(a[..n]), HashOf(b[..n]);
    if k < n {
      OneChangeIsSeen(a[..n], b[..n], k);
    } else {
      assert a[..n] == b[..n];
    }
    if HashOf(a) == HashOf(b) {
      MixInjective(Mix(g, Word(a[n].0)), Mix(h, Word(b[n].0)), a[n].1, b[n].1);
      if a[n].1 == b[n].1 {
        MixInjective(g, h, a[n].0, b[n].0);
      }
    }
  }
}
