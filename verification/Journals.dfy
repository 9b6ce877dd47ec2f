/** Journals (include/ipmb/session/journal.h) and the session state a journal stands for.

    `Sessions` replays the records one by one. The theorems give the same state without replay:
    each session is made of the records since its last TERMINATE, and the list is ordered by age.
 */
module Journals {
  import opened Bytes
  import opened SessionTracker

  const ESTABLISH: byte := 1
  const UPDATE: byte := 2
  const MIGRATE: byte := 3
  const TERMINATE: byte := 4
  const CHECKPOINT: byte := 5

  datatype JournalRecord = JournalRecord(kind: byte, sessionId: uint32, peerId: uint32, payload: seq<byte>)

  type Journal = seq<JournalRecord>

  predicate IsUpsert(r: JournalRecord) {
    r.kind == ESTABLISH || r.kind == UPDATE || r.kind == MIGRATE
  }

  /** `r` adds to session `id`. */
  predicate Adds(r: JournalRecord, id: uint32) {
    IsUpsert(r) && r.sessionId == id
  }

  predicate Ends(r: JournalRecord, id: uint32) {
    r.kind == TERMINATE && r.sessionId == id
  }

  /** The session list after one more record. */
  function Apply(s: seq<Session>, r: JournalRecord): seq<Session> {
    if IsUpsert(r) then Upserted(s, r.sessionId, r.peerId, r.payload)
    else if r.kind == TERMINATE then Removed(s, r.sessionId)
    else s
  }

  function Sessions(j: Journal): seq<Session> {
    if j == [] then [] else Apply(Sessions(j[..|j| - 1]), j[|j| - 1])
  }

  // ----- the same state, read off the journal -----

  /** The position just after the last TERMINATE of `id`. */
  function Since(j: Journal, id: uint32): (n: nat)
    ensures n <= |j|
    ensures forall k :: n <= k < |j| ==> !Ends(j[k], id)
    ensures n > 0 ==> Ends(j[n - 1], id)
  {
    if j == [] then 0
    else if Ends(j[|j| - 1], id) then |j|
    else Since(j[..|j| - 1], id)
  }

  /** The records of `j` that add to session `id`, in order. */
  function Additions(j: Journal, id: uint32): (rs: Journal)
    ensures forall r :: r in rs ==> Adds(r, id)
  {
    if j == [] then []
    else if Adds(j[|j| - 1], id) then Additions(j[..|j| - 1], id) + [j[|j| - 1]]
    else Additions(j[..|j| - 1], id)
  }

  /** The records session `id` is made of: its additions since its last TERMINATE. */
  function Parts(j: Journal, id: uint32): (rs: Journal) {
    Additions(j[Since(j, id)..], id)
  }

  function Payloads(rs: Journal): seq<byte> {
    if rs == [] then [] else Payloads(rs[..|rs| - 1]) + rs[|rs| - 1].payload
  }

  /** The session made of a nonempty list of additions: the first one's peer, their number, and
      their payloads joined. */
  function SessionOf(id: uint32, rs: Journal): Session
    requires rs != []
  {
    Session(id, rs[0].peerId, |rs| % TWO64, Payloads(rs))
  }

  /** The position of the first of `id`'s parts, or -1 if it has none. */
  function Birth(j: Journal, id: uint32): int {
    if j == [] then -1
    else
      var last, before := j[|j| - 1], Birth(j[..|j| - 1], id);
      if Ends(last, id) then -1
      else if Adds(last, id) && before == -1 then |j| - 1
      else before
  }

  lemma {:induction false} SinceStep(j: Journal, id: uint32)
    requires j != []
    ensures var p, last := j[..|j| - 1], j[|j| - 1];
      Parts(j, id) == if Ends(last, id) then [] else if Adds(last, id) then Parts(p, id) + [last] else Parts(p, id)
  {
    var p, last, n := j[..|j| - 1], j[|j| - 1], Since(j, id);
    if Ends(last, id) {
      assert j[|j|..] == [];
    } else {
      assert j[n..][..|j[n..]| - 1] == p[n..];
    }
  }

  /** What each kind of record does, by its number: 1, 2 and 3 add to their session, 4 ends it, and all
      others leave the sessions as they are. */
  lemma {:induction false} RecordKinds(j: Journal, r: JournalRecord, id: uint32)
    ensures Parts(j + [r], id) ==
      if r.sessionId == id && r.kind in {1, 2, 3} then Parts(j, id) + [r]
      else if r.sessionId == id && r.kind == 4 then []
      else Parts(j, id)
    ensures r.kind !in {1, 2, 3, 4} ==> Sessions(j + [r]) == Sessions(j)
  {
    assert (j + [r])[..|j|] == j;
    SinceStep(j + [r], id);
    hide Parts;
  }

  lemma PartsEmpty(id: uint32)
    ensures Parts([], id) == []
  {
  }

  /** What the list `s` says about `id` agrees with the parts `rs`. */
  ghost predicate Agrees(s: seq<Session>, id: uint32, rs: Journal) {
    var i := Position(s, id);
    (rs == [] <==> i == |s|) && (rs != [] ==> i < |s| && s[i] == SessionOf(id, rs))
  }

  lemma {:induction false} UpsertedPositions(s: seq<Session>, r: JournalRecord, id: uint32)
    requires DistinctIds(s)
    ensures var t := Upserted(s, r.sessionId, r.peerId, r.payload);
      DistinctIds(t) &&
      (if id == r.sessionId then Position(t, id) < |t| &&
         t[Position(t, id)] ==
           Touch(if Position(s, id) < |s| then s[Position(s, id)] else Session(id, r.peerId, 0, []), r.payload)
       else (Position(t, id) < |t| <==> Position(s, id) < |s|) &&
            (Position(s, id) < |s| ==> t[Position(t, id)] == s[Position(s, id)]))
  {
    var t, k := Upserted(s, r.sessionId, r.peerId, r.payload), Position(s, r.sessionId);
    if k < |s| {
      TouchKeepsIds(s, k, r.payload);
      PositionAt(t, id, Position(s, id));
    } else {
      NewIdIsDistinct(s, t[0]);
      PositionAt(t, id, if id == r.sessionId then 0 else Position(s, id) + 1);
    }
  }

  lemma {:induction false} RemovedPositions(s: seq<Session>, gone: uint32, id: uint32)
    requires DistinctIds(s)
    ensures var t := Removed(s, gone);
      DistinctIds(t) &&
      (if id == gone then Position(t, id) == |t|
       else (Position(t, id) < |t| <==> Position(s, id) < |s|) &&
            (Position(s, id) < |s| ==> t[Position(t, id)] == s[Position(s, id)]))
  {
    var t, k, p := Removed(s, gone), Position(s, gone), Position(s, id);
    if k < |s| {
      RemovalKeepsIds(s, k);
      if id == gone {
        OthersDiffer(s, k);
        PositionAt(t, id, |t|);
      } else {
        hide DistinctIds, Position;
        PositionAt(t, id, if p < k then p else p - 1);
      }
    }
  }

  lemma {:induction false} OthersDiffer(s: seq<Session>, k: nat)
    requires k < |s| && DistinctIds(s)
    ensures var t := s[..k] + s[k + 1..]; forall q :: 0 <= q < |t| ==> t[q].sessionId != s[k].sessionId
  {
  }

  lemma {:induction false} PositionAt(s: seq<Session>, id: uint32, i: nat)
    requires i <= |s| && (i < |s| ==> s[i].sessionId == id)
    requires forall k :: 0 <= k < i ==> s[k].sessionId != id
    ensures Position(s, id) == i
  {
  }

  /** The replayed state is the state read off the journal: a session is in the list exactly when
      it has parts, and then it is made of them. No id occurs twice. */
  lemma {:induction false} SessionsAreTheirParts(j: Journal, id: uint32)
    ensures DistinctIds(Sessions(j)) && Agrees(Sessions(j), id, Parts(j, id))
  {
    if j == [] {
      PartsEmpty(id);
    } else {
      var p, r := j[..|j| - 1], j[|j| - 1];
      SessionsAreTheirParts(p, id);
      SinceStep(j, id);
      hide Parts, Position, DistinctIds, Since;
      if IsUpsert(r) {
        UpsertedPositions(Sessions(p), r, id);
        if Adds(r, id) { PartsGrow(Parts(p, id), r); }
      } else if r.kind == TERMINATE {
        RemovedPositions(Sessions(p), r.sessionId, id);
      }
    }
  }

  lemma {:induction false} PartsGrow(rs: Journal, r: JournalRecord)
    ensures SessionOf(r.sessionId, rs + [r]) ==
      Touch(if rs == [] then Session(r.sessionId, r.peerId, 0, []) else SessionOf(r.sessionId, rs), r.payload)
  {
    assert (rs + [r])[..|rs|] == rs;
    assert (|rs| % TWO64 + 1) % TWO64 == (|rs| + 1) % TWO64;
    if rs == [] { assert Payloads([r]) == [] + r.payload; }
  }

  // ----- the order of the list -----

  /** Record `b` created the present session `id`: it adds to it, and nothing before it does since
      the last TERMINATE. */
  ghost predicate BornAt(j: Journal, id: uint32, b: int) {
    Since(j, id) <= b < |j| && Adds(j[b], id) && forall k :: Since(j, id) <= k < b ==> !Adds(j[k], id)
  }

  lemma {:induction false} BirthIsCreation(j: Journal, id: uint32)
    ensures if Parts(j, id) == [] then Birth(j, id) == -1 && forall k :: Since(j, id) <= k < |j| ==> !Adds(j[k], id)
            else BornAt(j, id, Birth(j, id)) && Parts(j, id)[0] == j[Birth(j, id)]
  {
    if j == [] {
      PartsEmpty(id);
    } else {
      var p := j[..|j| - 1];
      BirthIsCreation(p, id);
      SinceStep(j, id);
      hide Parts;
      assert forall k :: 0 <= k < |p| ==> p[k] == j[k];
    }
  }

  ghost predicate YoungestFirst(j: Journal, s: seq<Session>) {
    forall a, b :: 0 <= a < b < |s| ==> Birth(j, s[a].sessionId) > Birth(j, s[b].sessionId)
  }

  /** One more record moves no birth of a session that stays. */
  lemma {:induction false} BirthsKept(j: Journal)
    requires j != []
    ensures var p, r := j[..|j| - 1], j[|j| - 1]; var s := Sessions(p);
      forall k :: 0 <= k < |s| ==>
        0 <= Birth(p, s[k].sessionId) < |p| &&
        (!Ends(r, s[k].sessionId) ==> Birth(j, s[k].sessionId) == Birth(p, s[k].sessionId))
  {
    var p, r := j[..|j| - 1], j[|j| - 1];
    var s := Sessions(p);
    forall k | 0 <= k < |s|
      ensures 0 <= Birth(p, s[k].sessionId) < |p| &&
        (!Ends(r, s[k].sessionId) ==> Birth(j, s[k].sessionId) == Birth(p, s[k].sessionId))
    {
      ListedIsBorn(p, k);
      hide Sessions;
    }
  }

  /** A list with the ids and the births of an ordered list is ordered. */
  lemma {:induction false} SameOrder(p: Journal, j: Journal, s: seq<Session>, t: seq<Session>)
    requires YoungestFirst(p, s) && |t| == |s|
    requires forall k :: 0 <= k < |t| ==>
      t[k].sessionId == s[k].sessionId && Birth(j, s[k].sessionId) == Birth(p, s[k].sessionId)
    ensures YoungestFirst(j, t)
  {
    hide Birth;
  }

  /** And so is a list with one session taken out. */
  lemma {:induction false} OneLess(p: Journal, j: Journal, s: seq<Session>, i: nat)
    requires YoungestFirst(p, s) && i < |s|
    requires forall k :: 0 <= k < |s| && k != i ==> Birth(j, s[k].sessionId) == Birth(p, s[k].sessionId)
    ensures YoungestFirst(j, s[..i] + s[i + 1..])
  {
    hide Birth;
    var t := s[..i] + s[i + 1..];
    forall a, b | 0 <= a < b < |t|
      ensures Birth(j, t[a].sessionId) > Birth(j, t[b].sessionId)
    {
      var a', b' := if a < i then a else a + 1, if b < i then b else b + 1;
      assert t[a] == s[a'] && t[b] == s[b'];
    }
  }

  lemma {:induction false} UpsertKeepsOrder(j: Journal)
    requires j != [] && IsUpsert(j[|j| - 1])
    requires YoungestFirst(j[..|j| - 1], Sessions(j[..|j| - 1]))
    ensures YoungestFirst(j, Sessions(j))
  {
    var p, r := j[..|j| - 1], j[|j| - 1];
    var s, t, id := Sessions(p), Sessions(j), r.sessionId;
    BirthsKept(j);
    assert t == Upserted(s, id, r.peerId, r.payload);
    hide Sessions, Birth, Parts, DistinctIds, YoungestFirst;
    if Position(s, id) < |s| {
      SameOrder(p, j, s, t);
    } else {
      NewbornIsYoungest(j);
      SameOrder(p, j, s, s);
      InFront(p, j, s, t);
    }
  }

  lemma {:induction false} NewbornIsYoungest(j: Journal)
    requires j != [] && IsUpsert(j[|j| - 1])
    requires var s := Sessions(j[..|j| - 1]); Position(s, j[|j| - 1].sessionId) == |s|
    ensures Birth(j, j[|j| - 1].sessionId) == |j| - 1
  {
    var p, id := j[..|j| - 1], j[|j| - 1].sessionId;
    SessionsAreTheirParts(p, id);
    BirthIsCreation(p, id);
    hide Sessions, Parts, Position;
  }

  lemma {:induction false} InFront(p: Journal, j: Journal, s: seq<Session>, t: seq<Session>)
    requires |t| == |s| + 1 && t[1..] == s && YoungestFirst(j, s)
    requires forall k :: 0 <= k < |s| ==> Birth(j, s[k].sessionId) < Birth(j, t[0].sessionId)
    ensures YoungestFirst(j, t)
  {
    hide Birth;
    assert forall k :: 1 <= k < |t| ==> t[k] == s[k - 1];
  }

  lemma {:induction false} TerminateKeepsOrder(j: Journal)
    requires j != [] && j[|j| - 1].kind == TERMINATE
    requires YoungestFirst(j[..|j| - 1], Sessions(j[..|j| - 1]))
    ensures YoungestFirst(j, Sessions(j))
  {
    var p, r := j[..|j| - 1], j[|j| - 1];
    var s, t, id := Sessions(p), Sessions(j), r.sessionId;
    BirthsKept(j);
    SessionsAreTheirParts(p, id);
    assert t == Removed(s, id);
    var i := Position(s, id);
    hide Sessions, Birth, Parts, YoungestFirst, Position;
    if i < |s| {
      IdsDiffer(s, i);
      hide DistinctIds;
      OneLess(p, j, s, i);
    } else {
      SameOrder(p, j, s, s);
    }
  }

  lemma {:induction false} IdsDiffer(s: seq<Session>, i: nat)
    requires DistinctIds(s) && i < |s|
    ensures forall k :: 0 <= k < |s| && k != i ==> s[k].sessionId != s[i].sessionId
  {
  }

  /** The list is in reverse order of creation. */
  lemma {:induction false} SessionsAreYoungestFirst(j: Journal)
    ensures YoungestFirst(j, Sessions(j))
  {
    if j != [] {
      var p, r := j[..|j| - 1], j[|j| - 1];
      SessionsAreYoungestFirst(p);
      if IsUpsert(r) {
        UpsertKeepsOrder(j);
      } else if r.kind == TERMINATE {
        TerminateKeepsOrder(j);
      } else {
        BirthsKept(j);
        hide Birth;
      }
    }
  }

  lemma {:induction false} ListedIsBorn(j: Journal, k: nat)
    requires k < |Sessions(j)|
    ensures 0 <= Birth(j, Sessions(j)[k].sessionId) < |j|
  {
    var s := Sessions(j);
    SessionsAreTheirParts(j, s[k].sessionId);
    BirthIsCreation(j, s[k].sessionId);
    hide Parts;
    PositionAt(s, s[k].sessionId, k);
  }
}
