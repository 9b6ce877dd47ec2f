/** Snapshots of the live session entries and their hash (src/replay/event_log.c). */
module EventLog {
  import opened Bytes
  import opened EventHash
  import opened SessionTracker

  /** A snapshot holds the entries themselves, not copies of them. */
  datatype Snapshot = Snapshot(entries: seq<Entry>)

  class Log {
    var snapshots: seq<Snapshot>
    var capacity: nat

    /** All captured entries, snapshot after snapshot. */
    ghost var captured: seq<Entry>

    ghost predicate Valid()
      reads this
    {
      |snapshots| <= capacity && captured == Flat(snapshots)
    }

    constructor ()
      ensures Valid() && captured == []
    {
      snapshots, capacity, captured := [], 0, [];
    }

    method TakeSnapshot(tracker: Tracker) returns (rc: Status)
      requires Valid() && tracker.Valid()
      modifies this
      ensures rc == OK && Valid()
      ensures captured == old(captured) + tracker.spine
      ensures snapshots == old(snapshots) + [Snapshot(tracker.spine)]
      ensures capacity == if |old(snapshots)| < old(capacity) then old(capacity)
                          else if old(capacity) > 0 then 2 * old(capacity) else 4
    {
      hide Tracker.Holding, Flat;
      if |snapshots| == capacity {
        capacity := if capacity > 0 then capacity * 2 else 4;
      }
      var entries: seq<Entry> := [];
      var cur := tracker.head;
      while cur != null
        invariant |entries| <= |tracker.spine| && entries == tracker.spine[..|entries|]
        invariant cur == tracker.Node(|entries|)
        decreases |tracker.spine| - |entries|
      {
        entries := entries + [cur];
        cur := cur.next;
      }
      assert entries == tracker.spine;
      FlatAppend(snapshots, Snapshot(entries));
      snapshots := snapshots + [Snapshot(entries)];
      captured := captured + entries;
      rc := OK;
    }

    /** Reads every captured entry. `defined` says that none of them had been freed; otherwise the
        C program reads released memory and the result means nothing. */
    method Summarize() returns (h: bv64, ghost defined: bool)
      requires Valid()
      ensures defined <==> AllLive(captured)
      ensures AllLive(captured) ==> h == HashOf(PairsOf(captured))
    {
      hide Word, Blend, Scale, HashOf, PairsOf, Flat;
      h := FNV_OFFSET;
      defined := true;
      NothingCaptured();
      assert snapshots[..0] == [];
      for i := 0 to |snapshots|
        invariant h == HashOf(PairsOf(Flat(snapshots[..i])))
        invariant defined <==> AllLive(Flat(snapshots[..i]))
      {
        ghost var before := Flat(snapshots[..i]);
        var entries := snapshots[i].entries;
        FlatAppend(snapshots[..i], snapshots[i]);
        assert snapshots[..i + 1] == snapshots[..i] + [snapshots[i]];
        assert before + entries[..0] == before;
        for j := 0 to |entries|
          invariant h == HashOf(PairsOf(before + entries[..j]))
          invariant defined <==> AllLive(before + entries[..j])
        {
          var entry := entries[j];
          defined := defined && entry.live;
          h := Blend(h, Word(entry.sessionId));
          h := Scale(h);
          h := Blend(h, Word(entry.updates));
          h := Scale(h);
          OneMore(before + entries[..j], entry);
          assert before + entries[..j + 1] == before + entries[..j] + [entry];
        }
        assert entries[..|entries|] == entries;
      }
      assert snapshots[..|snapshots|] == snapshots;
    }
  }

  ghost predicate AllLive(entries: seq<Entry>)
    reads entries
  {
    forall k :: 0 <= k < |entries| ==> entries[k].live
  }

  /** The pairs a summary reads: the ids and the present counts of the entries. */
  ghost function PairsOf(entries: seq<Entry>): (p: seq<(uint32, uint64)>)
    reads entries
  {
    if entries == [] then []
    else
      var last := entries[|entries| - 1];
      PairsOf(entries[..|entries| - 1]) + [(last.sessionId, last.updates)]
  }

  lemma NothingCaptured()
    ensures HashOf(PairsOf(Flat([]))) == FNV_OFFSET && Flat([]) == []
  {
  }

  lemma {:induction false} OneMore(entries: seq<Entry>, last: Entry)
    ensures HashOf(PairsOf(entries + [last])) ==
      Mix(Mix(HashOf(PairsOf(entries)), Word(last.sessionId)), Word(last.updates))
    ensures AllLive(entries + [last]) <==> AllLive(entries) && last.live
  {
    hide Mix, Word;
    assert (entries + [last])[..|entries|] == entries;
    var pairs, pair := PairsOf(entries), (last.sessionId, last.updates);
    assert PairsOf(entries + [last]) == pairs + [pair];
    assert (pairs + [pair])[..|pairs|] == pairs;
  }

  function Flat(snapshots: seq<Snapshot>): seq<Entry> {
    if snapshots == [] then [] else Flat(snapshots[..|snapshots| - 1]) + snapshots[|snapshots| - 1].entries
  }

  lemma {:induction false} FlatAppend(snapshots: seq<Snapshot>, last: Snapshot)
    ensures Flat(snapshots + [last]) == Flat(snapshots) + last.entries
  {
    assert (snapshots + [last])[..|snapshots|] == snapshots;
  }
}
