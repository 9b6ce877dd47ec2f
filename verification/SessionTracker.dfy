/** The linked list of sessions (src/session/session_tracker.c). */
module SessionTracker {
  import opened Bytes

  /** A session as a value. */
  datatype Session = Session(sessionId: uint32, peerId: uint32, updates: uint64, state: seq<byte>)

  /** A list node. C assigns the two ids once, when it creates the node. `live` is true until the
      node is freed: it marks the memory that may still be read. */
  class Entry {
    const sessionId: uint32
    const peerId: uint32
    var updates: uint64
    var state: seq<byte>
    var next: Entry?
    ghost var live: bool

    constructor (sessionId: uint32, peerId: uint32)
      ensures this.sessionId == sessionId && this.peerId == peerId
      ensures updates == 0 && state == [] && next == null && live
    {
      this.sessionId, this.peerId := sessionId, peerId;
      updates, state, next, live := 0, [], null, true;
    }

    ghost predicate Holds(s: Session)
      reads `updates, `state
    {
      s == Session(sessionId, peerId, updates, state)
    }
  }

  /** The position of a session in a list, or the list's length. */
  function Position(s: seq<Session>, id: uint32): (i: nat)
    ensures i <= |s|
    ensures i < |s| ==> s[i].sessionId == id
    ensures forall k :: 0 <= k < i ==> s[k].sessionId != id
  {
    if s == [] || s[0].sessionId == id then 0 else 1 + Position(s[1..], id)
  }

  function Touch(s: Session, payload: seq<byte>): Session {
    s.(updates := (s.updates + 1) % TWO64, state := s.state + payload)
  }

  function Upserted(s: seq<Session>, id: uint32, peer: uint32, payload: seq<byte>): seq<Session> {
    var i := Position(s, id);
    if i < |s| then s[i := Touch(s[i], payload)]
    else [Touch(Session(id, peer, 0, []), payload)] + s
  }

  function Removed(s: seq<Session>, id: uint32): seq<Session> {
    var i := Position(s, id);
    if i < |s| then s[..i] + s[i + 1..] else s
  }

  ghost predicate DistinctIds(s: seq<Session>) {
    forall i, j :: 0 <= i < j < |s| ==> s[i].sessionId != s[j].sessionId
  }

  lemma {:induction false} TouchKeepsIds(s: seq<Session>, i: nat, payload: seq<byte>)
    requires i < |s| && DistinctIds(s)
    ensures DistinctIds(s[i := Touch(s[i], payload)])
  {
  }

  lemma {:induction false} RemovalKeepsIds(s: seq<Session>, i: nat)
    requires i < |s| && DistinctIds(s)
    ensures DistinctIds(s[..i] + s[i + 1..])
  {
  }

  lemma {:induction false} NewIdIsDistinct(s: seq<Session>, first: Session)
    requires DistinctIds(s) && Position(s, first.sessionId) == |s|
    ensures DistinctIds([first] + s)
  {
  }

  class Tracker {
    var head: Entry?
    var count: nat
    /** The nodes in list order, and the sessions they hold. */
    ghost var spine: seq<Entry>
    ghost var sessions: seq<Session>

    /** The node at position `i`, or null past the end. */
    ghost function Node(i: nat): Entry?
      reads `spine
    {
      if i < |spine| then spine[i] else null
    }

    /** The links run through `spine`, which has no node twice. */
    ghost predicate Linked()
      reads `head, `spine, spine`next
    {
      head == Node(0) &&
      (forall i {:trigger spine[i].next} :: 0 <= i < |spine| ==> spine[i].next == Node(i + 1)) &&
      forall i, j :: 0 <= i < j < |spine| ==> spine[i] != spine[j]
    }

    /** The nodes are live and hold `sessions`, with no id twice. */
    ghost predicate Holding()
      reads `count, `spine, `sessions, spine`live, spine`updates, spine`state
    {
      count == |spine| == |sessions| &&
      (forall i :: 0 <= i < |spine| ==> spine[i].live && spine[i].Holds(sessions[i])) &&
      DistinctIds(sessions)
    }

    /** The list is `spine`: acyclic, counted and live. */
    ghost predicate Valid()
      reads this, spine
    {
      Linked() && Holding()
    }

    constructor ()
      ensures Valid() && spine == [] && sessions == []
    {
      head, count, spine, sessions := null, 0, [], [];
    }

    method Find(id: uint32) returns (entry: Entry?)
      requires Valid()
      ensures entry == Node(Position(sessions, id))
    {
      entry := head;
      ghost var i := 0;
      while entry != null
        invariant 0 <= i <= |spine| && entry == Node(i)
        invariant i <= Position(sessions, id)
        decreases |spine| - i
      {
        if entry.sessionId == id { return; }
        entry := entry.next;
        i := i + 1;
      }
    }

    lemma NodesHold()
      requires Valid()
      ensures |spine| == |sessions|
      ensures forall m :: 0 <= m < |spine| ==> spine[m].live && spine[m].Holds(sessions[m])
    {
    }

    /** The node with an id is the one at the id's position. */
    lemma IdIsUnique(id: uint32)
      requires Valid()
      ensures |spine| == |sessions|
      ensures forall m :: 0 <= m < |spine| ==> (spine[m].sessionId == id <==> m == Position(sessions, id))
    {
      NodesHold();
    }

    /** A new node at the head. */
    method Insert(id: uint32, peer: uint32) returns (entry: Entry)
      requires Valid() && Position(sessions, id) == |sessions|
      modifies this
      ensures Valid() && fresh(entry) && spine == [entry] + old(spine)
      ensures sessions == [Session(id, peer, 0, [])] + old(sessions)
    {
      entry := new Entry(id, peer);
      var first := Session(id, peer, 0, []);
      assert entry.Holds(first);
      Push(entry);
      NewIdIsDistinct(sessions, first);
      hide DistinctIds, Position, Linked, Entry.Holds;
      count := count + 1;
      sessions := [first] + sessions;
    }

    method Push(entry: Entry)
      requires Linked() && entry !in spine
      modifies this`head, this`spine, entry`next
      ensures Linked() && spine == [entry] + old(spine)
    {
      entry.next := head;
      head := entry;
      spine := [entry] + spine;
    }

    /** One more payload for the node at position `i`. */
    method Record(entry: Entry, payload: seq<byte>, ghost i: nat)
      requires Valid() && i < |spine| && spine[i] == entry
      modifies this`sessions, entry`state, entry`updates
      ensures Valid() && sessions == old(sessions)[i := Touch(old(sessions)[i], payload)]
    {
      TouchKeepsIds(sessions, i, payload);
      hide DistinctIds, Linked;
      if payload != [] {
        entry.state := entry.state + payload;
      }
      entry.updates := (entry.updates + 1) % 0x1_0000_0000_0000_0000;
      sessions := sessions[i := Touch(sessions[i], payload)];
      assert entry.Holds(sessions[i]);
      hide Touch;
      forall k | 0 <= k < |spine| && k != i
        ensures spine[k].Holds(sessions[k])
      {
        assert spine[k] != entry && old(spine[k].Holds(sessions[k]));
      }
    }

    method Upsert(id: uint32, peer: uint32, payload: seq<byte>) returns (rc: Status)
      requires Valid()
      modifies this, spine
      ensures rc == OK && Valid()
      ensures sessions == Upserted(old(sessions), id, peer, payload)
      ensures forall e :: e in old(spine) ==> e in spine
      ensures forall e :: e in spine ==> e in old(spine) || fresh(e)
    {
      ghost var i := Position(sessions, id);
      var entry := Find(id);
      if entry == null {
        entry := Insert(id, peer);
        i := 0;
      }
      hide Valid, Touch, Position;
      Record(entry, payload, i);
      rc := OK;
    }

    /** Takes the node at position `i` out of the list; `prev` is its predecessor, if any. */
    method Unlink(prev: Entry?, dead: Entry, ghost i: nat)
      requires Valid() && i < |spine| && spine[i] == dead
      requires prev == if i > 0 then spine[i - 1] else null
      modifies this, spine
      ensures Valid() && spine == old(spine[..i] + spine[i + 1..]) && !dead.live
      ensures sessions == old(sessions[..i] + sessions[i + 1..])
    {
      hide DistinctIds, Entry.Holds;
      RemovalKeepsIds(sessions, i);
      SkipNode(prev, dead, i);
      hide Linked;
      count := count - 1;
      dead.live := false;
      sessions := sessions[..i] + sessions[i + 1..];
      forall k | 0 <= k < |spine|
        ensures spine[k].live && spine[k].Holds(sessions[k])
      {
        var was := if k < i then k else k + 1;
        assert old(spine[was].live && spine[was].Holds(sessions[was]));
      }
    }

    /** Points the link to `dead` at its successor. */
    method SkipNode(prev: Entry?, dead: Entry, ghost i: nat)
      requires Linked() && i < |spine| && spine[i] == dead
      requires prev == if i > 0 then spine[i - 1] else null
      modifies this`head, this`spine, spine`next
      ensures Linked() && spine == old(spine[..i] + spine[i + 1..]) && dead !in spine
    {
      if prev == null { head := dead.next; } else { prev.next := dead.next; }
      spine := spine[..i] + spine[i + 1..];
      forall k | 0 <= k < |spine|
        ensures spine[k].next == Node(k + 1)
      {
        var was := if k < i then k else k + 1;
        assert old(spine[was].next) == old(Node(was + 1));
      }
    }

    /** The C code walks a pointer to the link itself; `prev` names the node that holds the link. */
    method Terminate(id: uint32) returns (rc: Status)
      requires Valid()
      modifies this, spine
      ensures Valid()
      ensures sessions == Removed(old(sessions), id)
      ensures rc == if Position(old(sessions), id) < |old(sessions)| then OK else NotFound
      ensures forall e :: e in old(spine) && e.sessionId != id ==> e in spine
      ensures forall e :: e in old(spine) && e.sessionId == id ==> !e.live
      ensures forall e :: e in spine ==> e in old(spine)
    {
      hide Holding;
      IdIsUnique(id);
      var cur := head;
      var prev: Entry? := null;
      ghost var i := 0;
      while cur != null
        invariant 0 <= i <= |spine| && cur == Node(i)
        invariant prev == if i > 0 then spine[i - 1] else null
        invariant i <= Position(sessions, id)
        decreases |spine| - i
      {
        if cur.sessionId == id {
          Unlink(prev, cur, i);
          return OK;
        }
        prev := cur;
        cur := cur.next;
        i := i + 1;
      }
      return NotFound;
    }
  }
}
