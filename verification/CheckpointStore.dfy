/** Growable checkpoint buffers by session (src/session/checkpoint_store.c:18-55). */
module CheckpointStore {
  import opened Bytes

  /** The contents of one buffer, as values. */
  datatype Checkpoint = Checkpoint(sessionId: uint32, bytes: seq<byte>)

  /** One call of `ipmb_checkpoint_append`. */
  datatype Request = Request(sessionId: uint32, payload: seq<byte>)

  // ----- the growth policy -----

  /** The loop at line 46: half as much again and one, until there is room. */
  function Grown(cap: nat, need: nat): (r: nat)
    ensures r >= need && r >= cap
    decreases need - cap
  {
    if cap >= need then cap else Grown(cap + cap / 2 + 1, need)
  }

  /** The capacity after an append that brings the contents to `need` bytes. */
  function NextCapacity(cap: nat, need: nat): nat {
    if need <= cap then cap else Grown(if cap > 0 then cap else 16, need)
  }

  /** What one buffer has cost: `moved` counts the bytes its regrowths have copied, a whole old
      block each time. */
  datatype Account = Account(used: nat, capacity: nat, moved: nat) {
    ghost predicate Bounded() {
      used <= capacity && (capacity <= 16 || 2 * capacity <= 3 * used) && moved <= 3 * used &&
      (capacity == 0 || capacity >= 16)
    }

    /** The capacity pays for the moves; this is what an append keeps. */
    ghost predicate Sound() {
      Bounded() && moved <= 2 * capacity
    }

    function Appended(len: nat): Account {
      Account(used + len, NextCapacity(capacity, used + len),
              if used + len > capacity then moved + capacity else moved)
    }
  }

  /** The account of a buffer that has taken appends of these lengths. */
  function AccountOf(lengths: seq<nat>): Account {
    if lengths == [] then Account(0, 0, 0)
    else AccountOf(lengths[..|lengths| - 1]).Appended(lengths[|lengths| - 1])
  }

  function Total(lengths: seq<nat>): nat {
    if lengths == [] then 0 else Total(lengths[..|lengths| - 1]) + lengths[|lengths| - 1]
  }

  /** One growth overshoots by less than a half, and multiplies the capacity by at least 3/2. */
  lemma {:induction false} GrownBounds(cap: nat, need: nat)
    requires 0 < cap < need
    ensures 2 * Grown(cap, need) <= 3 * need
    ensures 2 * Grown(cap, need) >= 3 * cap
    decreases need - cap
  {
    var next := cap + cap / 2 + 1;
    if next < need {
      GrownBounds(next, need);
    }
  }

  lemma AppendIsSound(a: Account, len: nat)
    requires a.Sound()
    ensures a.Appended(len).Sound()
  {
    var need := a.used + len;
    if need > a.capacity {
      var start := if a.capacity > 0 then a.capacity else 16;
      if start < need {
        GrownBounds(start, need);
      }
    }
  }

  /** Over any run of appends the capacity stays within max(16, 3/2 of what is used), and all the
      copying ever done is at most three bytes for each byte held. */
  lemma {:induction false} CopyingIsLinear(lengths: seq<nat>)
    ensures AccountOf(lengths).Sound()
    ensures AccountOf(lengths).used == Total(lengths)
  {
    if lengths != [] {
      CopyingIsLinear(lengths[..|lengths| - 1]);
      AppendIsSound(AccountOf(lengths[..|lengths| - 1]), lengths[|lengths| - 1]);
    }
  }

  // ----- what appends mean -----

  /** The place of `id`, or the length when it has none. */
  function Place(contents: seq<Checkpoint>, id: uint32): (k: nat)
    ensures k <= |contents|
    ensures k < |contents| ==> contents[k].sessionId == id
    ensures forall j :: 0 <= j < k ==> contents[j].sessionId != id
  {
    if contents == [] || contents[0].sessionId == id then 0 else 1 + Place(contents[1..], id)
  }

  ghost predicate Distinct(contents: seq<Checkpoint>) {
    forall i, j :: 0 <= i < j < |contents| ==> contents[i].sessionId != contents[j].sessionId
  }

  function Appended(contents: seq<Checkpoint>, r: Request): seq<Checkpoint> {
    var k := Place(contents, r.sessionId);
    if k < |contents| then contents[k := Checkpoint(r.sessionId, contents[k].bytes + r.payload)]
    else contents + [Checkpoint(r.sessionId, r.payload)]
  }

  /** The store after a run of appends. */
  function After(rs: seq<Request>): seq<Checkpoint> {
    if rs == [] then [] else Appended(After(rs[..|rs| - 1]), rs[|rs| - 1])
  }

  /** Every payload sent to `id`, in order. */
  function Payloads(rs: seq<Request>, id: uint32): seq<byte> {
    if rs == [] then []
    else
      var earlier := Payloads(rs[..|rs| - 1], id);
      if rs[|rs| - 1].sessionId == id then earlier + rs[|rs| - 1].payload else earlier
  }

  ghost predicate Named(rs: seq<Request>, id: uint32) {
    exists k :: 0 <= k < |rs| && rs[k].sessionId == id
  }

  ghost predicate Holds(contents: seq<Checkpoint>, id: uint32) {
    exists k :: 0 <= k < |contents| && contents[k].sessionId == id
  }

  /** After any run of appends: one buffer for each session named, and in it the concatenation of
      that session's payloads. */
  lemma {:induction false} BuffersAreTheirPayloads(rs: seq<Request>)
    ensures Distinct(After(rs))
    ensures forall k :: 0 <= k < |After(rs)| ==>
              After(rs)[k].bytes == Payloads(rs, After(rs)[k].sessionId)
    ensures forall id: uint32 :: Holds(After(rs), id) <==> Named(rs, id)
  {
    if rs != [] {
      var was, r := rs[..|rs| - 1], rs[|rs| - 1];
      BuffersAreTheirPayloads(was);
      var k := Place(After(was), r.sessionId);
      if k == |After(was)| {
        assert !Holds(After(was), r.sessionId);
        UnnamedIsEmpty(was, r.sessionId);
      }
      forall id: uint32
        ensures Holds(After(rs), id) <==> Named(rs, id)
      {
        HeldAfter(After(was), r, id);
        NamedStep(rs, id);
      }
    }
  }

  lemma {:induction false} UnnamedIsEmpty(rs: seq<Request>, id: uint32)
    requires !Named(rs, id)
    ensures Payloads(rs, id) == []
  {
    if rs != [] {
      NamedStep(rs, id);
      UnnamedIsEmpty(rs[..|rs| - 1], id);
    }
  }

  lemma {:induction false} NamedStep(rs: seq<Request>, id: uint32)
    requires rs != []
    ensures Named(rs, id) <==> Named(rs[..|rs| - 1], id) || rs[|rs| - 1].sessionId == id
  {
    var was := rs[..|rs| - 1];
    if Named(was, id) {
      var k :| 0 <= k < |was| && was[k].sessionId == id;
      assert rs[k].sessionId == id;
    }
    if Named(rs, id) && rs[|rs| - 1].sessionId != id {
      var k :| 0 <= k < |rs| && rs[k].sessionId == id;
      assert was[k].sessionId == id;
    }
  }

  lemma {:induction false} HeldAfter(contents: seq<Checkpoint>, r: Request, id: uint32)
    ensures Holds(Appended(contents, r), id) <==> Holds(contents, id) || r.sessionId == id
  {
    var next := Appended(contents, r);
    var k := Place(contents, r.sessionId);
    assert next[k].sessionId == r.sessionId;
    assert forall j :: 0 <= j < |contents| ==> next[j].sessionId == contents[j].sessionId;
  }

  // ----- the store itself -----

  /** One element of `items`. */
  class State {
    const sessionId: uint32
    var buf: array<byte>
    var used: nat
    ghost var moved: nat

    constructor (sessionId: uint32)
      ensures this.sessionId == sessionId && used == 0 && moved == 0
      ensures fresh(buf) && buf.Length == 0
    {
      this.sessionId := sessionId;
      buf, used, moved := new byte[0], 0, 0;
    }

    ghost function Costs(): Account
      reads this
    {
      Account(used, buf.Length, moved)
    }

    ghost function Value(): Checkpoint
      requires used <= buf.Length
      reads this, buf
    {
      Checkpoint(sessionId, buf[..used])
    }

    /** The second half of `ipmb_checkpoint_append`. */
    method Append(payload: seq<byte>)
      requires Costs().Sound()
      modifies this, buf
      ensures buf == old(buf) || fresh(buf)
      ensures Costs() == old(Costs()).Appended(|payload|) && Costs().Sound()
      ensures Value() == Checkpoint(sessionId, old(buf[..used]) + payload)
    {
      AppendIsSound(Costs(), |payload|);
      hide NextCapacity;
      MakeRoom(used + |payload|);
      CopyIn(payload);
    }

    /** The growth of the buffer, if `need` bytes do not fit. */
    method MakeRoom(need: nat)
      requires used <= buf.Length && used <= need
      modifies this
      ensures need <= buf.Length == NextCapacity(old(buf.Length), need)
      ensures (buf == old(buf) || fresh(buf)) && used == old(used) && buf[..used] == old(buf[..used])
      ensures moved == if need > old(buf.Length) then old(moved) + old(buf.Length) else old(moved)
    {
      if need > buf.Length {
        var cap := if buf.Length > 0 then buf.Length else 16;
        while cap < need
          invariant Grown(cap, need) == NextCapacity(buf.Length, need)
          invariant cap > 0
          decreases need - cap
        {
          cap := cap + cap / 2 + 1;
        }
        Regrow(cap);
      }
    }

    /** `realloc`: a new block that starts with the old one. */
    method Regrow(cap: nat)
      requires used <= buf.Length <= cap
      modifies this
      ensures fresh(buf) && buf.Length == cap && used == old(used) && buf[..used] == old(buf[..used])
      ensures moved == old(moved) + old(buf.Length)
    {
      var next := new byte[cap](_ => 0);
      forall k | 0 <= k < buf.Length {
        next[k] := buf[k];
      }
      moved := moved + buf.Length;
      buf := next;
    }

    /** `memcpy` at the end of what is used. */
    method CopyIn(payload: seq<byte>)
      requires used + |payload| <= buf.Length
      modifies this`used, buf
      ensures used == old(used) + |payload| && buf[..used] == old(buf[..used]) + payload
    {
      forall k | 0 <= k < |payload| {
        buf[used + k] := payload[k];
      }
      used := used + |payload|;
    }
  }

  /** `items` holds the elements in use; `capacity` is the room allocated for them. */
  class Store {
    var items: seq<State>
    var capacity: nat
    ghost var contents: seq<Checkpoint>
    ghost var repr: set<object>

    constructor ()
      ensures Valid() && fresh(repr) && contents == []
    {
      items, capacity, contents, repr := [], 0, [], {};
    }

    /** Element `i` belongs to the store, keeps its bounds and holds `contents[i]`. */
    ghost predicate Sound(i: nat)
      requires i < |items|
      reads this, repr
    {
      items[i] in repr && items[i].buf in repr &&
      items[i].Costs().Sound() &&
      i < |contents| && items[i].Value() == contents[i]
    }

    ghost predicate Valid()
      reads this, repr
    {
      this !in repr && |contents| == |items| <= capacity &&
      Distinct(contents) &&
      (forall i {:trigger items[i]} :: 0 <= i < |items| ==> Sound(i)) &&
      (forall i, j {:trigger items[i], items[j]} :: 0 <= i < j < |items| ==>
         items[i] != items[j] && items[i].buf != items[j].buf)
    }

    /** The search loop of `find_or_add`. */
    method Find(sessionId: uint32) returns (k: nat)
      requires Valid()
      ensures k == Place(contents, sessionId)
    {
      k := 0;
      while k < |items|
        invariant k <= |items|
        invariant forall j :: 0 <= j < k ==> contents[j].sessionId != sessionId
      {
        assert Sound(k);
        if items[k].sessionId == sessionId {
          return;
        }
        k := k + 1;
      }
    }

    /** The rest of `find_or_add`: a new element at the end, after doubling the room if it is full. */
    method Add(sessionId: uint32)
      requires Valid() && Place(contents, sessionId) == |contents|
      modifies this
      ensures Valid() && fresh(repr - old(repr))
      ensures contents == old(contents) + [Checkpoint(sessionId, [])]
      ensures capacity == if |old(items)| < old(capacity) then old(capacity)
                          else if old(capacity) > 0 then 2 * old(capacity) else 4
    {
      hide Account.Sound;
      if |items| == capacity {
        capacity := if capacity > 0 then capacity * 2 else 4;
      }
      var state := new State(sessionId);
      NewIsSound(state);
      items := items + [state];
      contents := contents + [Checkpoint(sessionId, [])];
      repr := repr + {state, state.buf};
      forall i | 0 <= i < |items|
        ensures Sound(i)
      {
        if i < |items| - 1 {
          assert old(Sound(i));
        }
      }
    }

    static lemma NewIsSound(state: State)
      requires state.used == state.moved == state.buf.Length == 0
      ensures state.Costs().Sound()
    {
    }

    /** `find_or_add`: the place of the session's element, new and empty at the end if it had none. */
    method FindOrAdd(sessionId: uint32) returns (k: nat)
      requires Valid()
      modifies this
      ensures Valid() && fresh(repr - old(repr)) && k < |items|
      ensures k == Place(old(contents), sessionId)
      ensures contents == if k < |old(contents)| then old(contents)
                          else old(contents) + [Checkpoint(sessionId, [])]
    {
      hide Sound, Distinct;
      k := Find(sessionId);
      if k == |items| {
        Add(sessionId);
      }
    }

    /** The write into element `k`; the other elements keep their blocks and their contents. */
    method AppendAt(k: nat, payload: seq<byte>)
      requires Valid() && k < |items|
      modifies this, repr
      ensures Valid() && fresh(repr - old(repr))
      ensures contents == old(contents)[k := Checkpoint(old(contents)[k].sessionId, old(contents)[k].bytes + payload)]
    {
      hide Account.Sound, Account.Appended;
      assert Sound(k);
      items[k].Append(payload);
      contents := contents[k := Checkpoint(contents[k].sessionId, contents[k].bytes + payload)];
      repr := repr + {items[k].buf};
      forall i | 0 <= i < |items|
        ensures Sound(i)
      {
        assert old(Sound(i));
      }
    }

    /** `ipmb_checkpoint_append`. */
    method Append(r: Request)
      requires Valid()
      modifies this, repr
      ensures Valid() && fresh(repr - old(repr))
      ensures contents == Appended(old(contents), r)
    {
      hide Sound, Distinct;
      var k := FindOrAdd(r.sessionId);
      AppendAt(k, r.payload);
      assert [] + r.payload == r.payload;
    }
  }
}
