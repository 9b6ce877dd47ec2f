/** Replaying a journal into a tracker and a log (src/replay/replay_engine.c:6-30). */
module ReplayEngine {
  import opened Bytes
  import opened SessionTracker
  import opened Journals
  import opened EventHash
  import opened EventLog

  function Ids(s: seq<Session>): (ids: seq<uint32>)
    ensures |ids| == |s|
    ensures forall k :: 0 <= k < |ids| ==> ids[k] == s[k].sessionId
  {
    if s == [] then [] else Ids(s[..|s| - 1]) + [s[|s| - 1].sessionId]
  }

  /** The ids present at each checkpoint, in list order, checkpoint after checkpoint. */
  function CapturedIds(j: Journal): seq<uint32> {
    if j == [] then []
    else
      var p := j[..|j| - 1];
      if j[|j| - 1].kind == CHECKPOINT then CapturedIds(p) + Ids(Sessions(p)) else CapturedIds(p)
  }

  /** A record of kind 5 captures the ids listed at that point, and no other kind captures any. */
  lemma {:induction false} CheckpointsCapture(j: Journal, r: JournalRecord)
    ensures CapturedIds(j + [r]) == CapturedIds(j) + if r.kind == 5 then Ids(Sessions(j)) else []
  {
    hide Ids, Sessions;
    assert (j + [r])[..|j|] == j;
  }

  /** Each id with the number of updates its session has had by the end of the journal. */
  function FinalPairs(j: Journal, ids: seq<uint32>): seq<(uint32, uint64)> {
    if ids == [] then []
    else
      var id := ids[|ids| - 1];
      FinalPairs(j, ids[..|ids| - 1]) + [(id, |Parts(j, id)| % TWO64)]
  }

  /** No session captured by a checkpoint is terminated later; otherwise the summary would read a
      freed entry. */
  ghost predicate Replayable(j: Journal) {
    forall c, t :: 0 <= c < t < |j| && j[c].kind == CHECKPOINT && j[t].kind == TERMINATE ==>
      j[t].sessionId !in Ids(Sessions(j[..c]))
  }

  lemma {:induction false} CapturedAtACheckpoint(j: Journal, id: uint32) returns (c: nat)
    requires id in CapturedIds(j)
    ensures c < |j| && j[c].kind == CHECKPOINT && id in Ids(Sessions(j[..c]))
  {
    hide Ids, Sessions;
    var p := j[..|j| - 1];
    if j[|j| - 1].kind == CHECKPOINT && id in Ids(Sessions(p)) {
      c := |j| - 1;
    } else {
      c := CapturedAtACheckpoint(p, id);
      assert p[..c] == j[..c];
    }
  }

  /** `r` frees a session captured in `before`. */
  predicate FreesCaptured(before: Journal, r: JournalRecord) {
    r.kind == TERMINATE && r.sessionId in CapturedIds(before)
  }

  /** The smallest unsafe journal: a session is checkpointed and then terminated. */
  lemma CapturedThenFreed(id: uint32, peer: uint32)
    ensures !Replayable([JournalRecord(ESTABLISH, id, peer, []), JournalRecord(CHECKPOINT, 0, 0, []),
                         JournalRecord(TERMINATE, id, 0, [])])
  {
    var e := JournalRecord(ESTABLISH, id, peer, []);
    var j := [e, JournalRecord(CHECKPOINT, 0, 0, []), JournalRecord(TERMINATE, id, 0, [])];
    assert j[..1] == [e] && [e][..0] == [];
    var s := Sessions([e]);
    assert Position([], id) == 0 && Sessions([]) == [];
    assert Sessions([e]) == Apply([], e);
    assert Ids(s)[0] == id;
    assert j[1].kind == CHECKPOINT && j[2].kind == TERMINATE;
  }

  lemma {:induction false} CheckpointCaptures(j: Journal, c: nat, id: uint32)
    requires c < |j| && j[c].kind == CHECKPOINT && id in Ids(Sessions(j[..c]))
    ensures id in CapturedIds(j)
  {
    hide Ids, Sessions;
    var p := j[..|j| - 1];
    if c < |p| {
      assert p[..c] == j[..c];
      CheckpointCaptures(p, c, id);
    }
  }

  lemma {:induction false} ReplayableStep(before: Journal, r: JournalRecord)
    ensures Replayable(before + [r]) <==> Replayable(before) && !FreesCaptured(before, r)
  {
    hide CapturedIds, Ids, Sessions;
    var j, n := before + [r], |before|;
    assert forall c :: 0 <= c <= n ==> j[..c] == before[..c];
    assert before[..n] == before;
    if FreesCaptured(before, r) {
      var c := CapturedAtACheckpoint(before, r.sessionId);
      assert j[c].kind == CHECKPOINT && j[n].kind == TERMINATE;
    }
    if Replayable(before) && !FreesCaptured(before, r) {
      forall c, t | 0 <= c < t < |j| && j[c].kind == CHECKPOINT && j[t].kind == TERMINATE
        ensures j[t].sessionId !in Ids(Sessions(j[..c]))
      {
        if t == n && r.sessionId in Ids(Sessions(before[..c])) {
          CheckpointCaptures(before, c, r.sessionId);
        }
      }
    }
    if Replayable(j) {
      forall c, t | 0 <= c < t < n && before[c].kind == CHECKPOINT && before[t].kind == TERMINATE
        ensures before[t].sessionId !in Ids(Sessions(before[..c]))
      {
        assert j[c] == before[c] && j[t] == before[t];
      }
    }
  }

  /** Every listed session is made of its parts. */
  lemma {:induction false} ListedSession(j: Journal, m: nat)
    requires m < |Sessions(j)|
    ensures Sessions(j)[m].updates == |Parts(j, Sessions(j)[m].sessionId)| % TWO64
  {
    var s := Sessions(j);
    SessionsAreTheirParts(j, s[m].sessionId);
    hide Parts, Sessions;
    PositionAt(s, s[m].sessionId, m);
  }

  /** The captured entries are entries of the list, in the order of the checkpoints. */
  ghost predicate Captured(log: Log, tracker: Tracker, j: Journal)
    reads log, tracker
  {
    var ids := CapturedIds(j);
    |log.captured| == |ids| &&
    forall k :: 0 <= k < |ids| ==> log.captured[k] in tracker.spine && log.captured[k].sessionId == ids[k]
  }

  /** The log holds an entry that has been freed. */
  ghost predicate HoldsFreed(log: Log)
    reads log, log.captured
  {
    exists k :: 0 <= k < |log.captured| && !log.captured[k].live
  }

  lemma {:induction false} OneMoreRecord(before: Journal, r: JournalRecord)
    ensures Sessions(before + [r]) == Apply(Sessions(before), r)
    ensures CapturedIds(before + [r]) ==
      CapturedIds(before) + if r.kind == CHECKPOINT then Ids(Sessions(before)) else []
  {
    assert (before + [r])[..|before|] == before;
  }

  /** The body of the record loop. */
  method ReplayRecord(r: JournalRecord, tracker: Tracker, log: Log, ghost before: Journal)
    requires tracker.Valid() && log.Valid() && tracker.sessions == Sessions(before)
    modifies tracker, tracker.spine, log
    ensures tracker.Valid() && log.Valid() && tracker.sessions == Sessions(before + [r])
    ensures old(Captured(log, tracker, before)) ==>
      if FreesCaptured(before, r) then HoldsFreed(log) else Captured(log, tracker, before + [r])
    ensures old(HoldsFreed(log)) ==> HoldsFreed(log)
    ensures forall e :: e in tracker.spine ==> e in old(tracker.spine) || fresh(e)
  {
    hide Sessions, CapturedIds, Tracker.Valid, Log.Valid, Upserted, Removed, Ids;
    OneMoreRecord(before, r);
    tracker.NodesHold();
    if r.kind == ESTABLISH || r.kind == UPDATE || r.kind == MIGRATE {
      var _ := tracker.Upsert(r.sessionId, r.peerId, r.payload);
    } else if r.kind == CHECKPOINT {
      var _ := log.TakeSnapshot(tracker);
      assert forall k :: 0 <= k < |old(log.captured)| ==> log.captured[k] == old(log.captured)[k];
    } else if r.kind == TERMINATE {
      var _ := tracker.Terminate(r.sessionId);
    }
  }

  /** After any journal the list holds the journal's sessions. If the journal is replayable, every
      captured entry is still one of its nodes; if not, a captured entry has been freed. */
  method ReplayRecords(journal: Journal, tracker: Tracker, log: Log) returns (eventCount: nat)
    requires tracker.Valid() && tracker.spine == [] && log.Valid() && log.captured == []
    modifies tracker, log
    ensures tracker.Valid() && log.Valid() && tracker.sessions == Sessions(journal)
    ensures if Replayable(journal) then Captured(log, tracker, journal) else HoldsFreed(log)
    ensures eventCount == |journal|
  {
    hide Sessions, CapturedIds, Tracker.Valid, Log.Valid, Captured, HoldsFreed, Replayable, FreesCaptured;
    eventCount := 0;
    EmptyReplay(tracker, log);
    assert journal[..0] == [];
    for i := 0 to |journal|
      invariant tracker.Valid() && log.Valid() && tracker.sessions == Sessions(journal[..i])
      invariant if Replayable(journal[..i]) then Captured(log, tracker, journal[..i]) else HoldsFreed(log)
      invariant forall k :: 0 <= k < |tracker.spine| ==> fresh(tracker.spine[k])
      invariant eventCount == i
    {
      ReplayableStep(journal[..i], journal[i]);
      ReplayRecord(journal[i], tracker, log, journal[..i]);
      assert forall k :: 0 <= k < |tracker.spine| ==> tracker.spine[k] in tracker.spine;
      assert journal[..i] + [journal[i]] == journal[..i + 1];
      eventCount := eventCount + 1;
    }
    assert journal[..|journal|] == journal;
  }

  lemma EmptyReplay(tracker: Tracker, log: Log)
    requires tracker.Valid() && tracker.spine == [] && log.captured == []
    ensures tracker.sessions == Sessions([]) && Captured(log, tracker, []) && Replayable([])
  {
  }

  /** Every journal is replayed. `defined` says that the summary reads no freed entry, which is so
      exactly for the replayable journals. The hash then depends on the journal only: ids as they
      stood at each checkpoint, but update counts as they stand at the end, because the snapshots
      share the live entries. */
  method ReplayJournal(journal: Journal)
      returns (rc: Status, eventCount: nat, summaryHash: bv64, ghost defined: bool)
    ensures rc == OK && eventCount == |journal|
    ensures defined <==> Replayable(journal)
    ensures Replayable(journal) ==> summaryHash == HashOf(FinalPairs(journal, CapturedIds(journal)))
  {
    hide Replayable, HashOf, Sessions, CapturedIds, Log.Valid, Tracker.Valid, Captured, FinalPairs, PairsOf;
    var tracker := new Tracker();
    var log := new Log();
    eventCount := ReplayRecords(journal, tracker, log);
    if Replayable(journal) {
      CapturedIsFinal(log, tracker, journal);
    }
    summaryHash, defined := log.Summarize();
    rc := OK;
  }

  /** Captured entries that are still on the list are live and have their final counts. */
  lemma {:induction false} CapturedIsFinal(log: Log, tracker: Tracker, j: Journal)
    requires tracker.Valid() && tracker.sessions == Sessions(j) && Captured(log, tracker, j)
    ensures forall k :: 0 <= k < |log.captured| ==> log.captured[k].live
    ensures PairsOf(log.captured) == FinalPairs(j, CapturedIds(j))
  {
    hide Sessions, CapturedIds, Tracker.Valid, Parts, PairsOf, FinalPairs;
    tracker.NodesHold();
    forall k | 0 <= k < |log.captured|
      ensures log.captured[k].live && log.captured[k].updates == |Parts(j, log.captured[k].sessionId)| % TWO64
    {
      var m :| 0 <= m < |tracker.spine| && tracker.spine[m] == log.captured[k];
      ListedSession(j, m);
    }
    PairsAreFinal(log.captured, CapturedIds(j), j);
  }

  lemma {:induction false} PairsAreFinal(entries: seq<Entry>, ids: seq<uint32>, j: Journal)
    requires |entries| == |ids|
    requires forall k :: 0 <= k < |ids| ==>
      entries[k].sessionId == ids[k] && entries[k].updates == |Parts(j, ids[k])| % TWO64
    ensures PairsOf(entries) == FinalPairs(j, ids)
    decreases ids
  {
    hide Parts;
    if ids != [] {
      PairsAreFinal(entries[..|ids| - 1], ids[..|ids| - 1], j);
    }
  }
}
