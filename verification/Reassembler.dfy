/** The mutable reassembler, method by method against its state machine
    (crates/client-core/src/reassembly.rs). */
module ReassemblerClass {
  import opened Wrappers
  import opened ByteStrings
  import opened Datagram
  import opened ReassemblyModel
  import opened FrameRebuild

  lemma KeptIs(pending: map<u32, Pending>, completed: u32)
    ensures (map id | id in pending && !Older(id, completed) :: pending[id]) == pending - OlderThan(pending, completed)
  {
    hide Older;
  }

  method Newest(ids: set<u32>) returns (newest: u32)
    requires |ids| > 0
    ensures IsNewest(ids, newest)
  {
    newest :| newest in ids;
    var left := ids - {newest};
    while left != {}
      invariant left <= ids && newest in ids
      invariant forall id :: id in ids && id !in left ==> id <= newest
      decreases |left|
    {
      var id :| id in left;
      left := left - {id};
      if newest <= id {
        newest := id;
      }
    }
  }

  method Farthest(ids: set<u32>, newest: u32) returns (oldest: u32)
    requires |ids| > 0 && IsNewest(ids, newest)
    ensures IsVictim(ids, oldest)
  {
    hide Age;
    oldest :| oldest in ids;
    var left := ids - {oldest};
    while left != {}
      invariant left <= ids && oldest in ids
      invariant forall id :: id in ids && id !in left ==> Age(id, newest) <= Age(oldest, newest)
      decreases |left|
    {
      var id :| id in left;
      left := left - {id};
      if Age(oldest, newest) <= Age(id, newest) {
        oldest := id;
      }
    }
  }

  /** Releasing the head and draining the rest. */
  lemma DrainOne(s: State, out: seq<CompletedFrame>)
    requires |s.held| > 0 && !(Blocked(s, s.held[0].frameId) && !Forced(s))
    ensures Drained(s).0 == Drained(Released(s)).0
    ensures out + Drained(s).1 == out + [s.held[0]] + Drained(Released(s)).1
  {
    hide Blocked, Forced, Released;
    assert Drained(s).1 == [s.held[0]] + Drained(Released(s)).1;
  }

  class Reassembler {
    var pending: map<u32, Pending>
    var held: seq<CompletedFrame>
    var dropped: nat
    var recovered: nat
    var latestDelivered: Option<u32>

    ghost function Abstract(): State
      reads this
    {
      State(pending, held, dropped, recovered, latestDelivered)
    }

    /** Every entry's counters agree with its slots. */
    ghost predicate Valid()
      reads this
    {
      AllWellFormed(Abstract())
    }

    constructor ()
      ensures Valid() && Abstract() == InitialState()
    {
      pending, held, dropped, recovered, latestDelivered := map[], [], 0, 0, None;
    }

    method PruneOlderThan(completed: u32)
      modifies this
      ensures Abstract() == PrunedOlderThan(old(Abstract()), completed)
    {
      var before := |pending|;
      PruneCounts(pending, completed);
      KeptIs(pending, completed);
      pending := map id | id in pending && !Older(id, completed) :: pending[id];
      dropped := dropped + (before - |pending|);
    }

    /** Drop the id farthest below the numerically largest one. */
    method PruneOldest()
      modifies this
      ensures Abstract() == PrunedOldest(old(Abstract()))
    {
      hide Age, IsVictim, IsNewest;
      if |pending| == 0 {
        return;
      }
      assert |pending.Keys| > 0;
      var newest := Newest(pending.Keys);
      var oldest := Farthest(pending.Keys, newest);
      VictimUnique(pending.Keys, oldest, Victim(pending.Keys));
      pending := pending - {oldest};
      dropped := dropped + 1;
    }

    /** Release held frames in order. */
    method Drain() returns (out: seq<CompletedFrame>)
      modifies this
      ensures (Abstract(), out) == Drained(old(Abstract()))
    {
      hide Older;
      out := [];
      ghost var start := Abstract();
      while |held| > 0
        invariant Drained(start).0 == Drained(Abstract()).0
        invariant Drained(start).1 == out + Drained(Abstract()).1
        decreases |held|
      {
        ghost var s := Abstract();
        var head := held[0];
        var blocked := exists id :: id in pending && Older(id, head.frameId);
        var force := head.kind == Idr || |held| > HOLD_LIMIT;
        assert blocked <==> Blocked(s, head.frameId);
        if blocked && !force {
          assert out + [] == out;
          return;
        }
        held := held[1..];
        latestDelivered := Some(head.frameId);
        PruneOlderThan(head.frameId);
        out := out + [head];
        assert Abstract() == Released(s);
        DrainOne(s, out[..|out| - 1]);
      }
      assert out + [] == out;
    }

    /** One arriving shard. */
    method Push(h: VideoHeader, payload: Bytes) returns (out: seq<CompletedFrame>)
      requires Valid() && ValidHeader(h)
      modifies this
      ensures Valid()
      ensures (Abstract(), out) == Pushed(old(Abstract()), h, payload)
    {
      hide Stale, Drained, Completes, CompleteDirect, Reconstructed, Assembled, Entry, WellFormed, Recoverable,
           PrunedOldest, Inserted;
      ghost var s := Abstract();
      PushedWellFormed(s, h, payload);
      if latestDelivered.Some? && Stale(latestDelivered.value, h.frameId) {
        return [];
      }
      if InHeld(held, h.frameId) {
        return [];
      }
      var entry := Store(h, payload);
      CompletesIs(entry);
      var completeDirect := entry.receivedData == entry.dataCount;
      var reconstructable := !completeDirect && entry.receivedTotal >= entry.dataCount && Recoverable(entry);
      if !(completeDirect || reconstructable) {
        if |pending| > MAX_PENDING {
          PruneOldest();
        }
        out := Drain();
        return;
      }
      pending := pending - {h.frameId};
      var data := Complete(entry, completeDirect);
      if data.Some? {
        if !completeDirect {
          recovered := recovered + 1;
        }
        var frame := CompletedFrame(h.frameId, h.kind, h.captureTs, data.value);
        held := Inserted(held, frame);
      } else {
        dropped := dropped + 1;
      }
      assert Abstract() == Absorbed(s, h, payload);
      out := Drain();
    }

    /** Find or open the frame's entry, restart it on other geometry, and fill the slot. */
    method Store(h: VideoHeader, payload: Bytes) returns (entry: Pending)
      requires Valid() && ValidHeader(h)
      modifies this`pending
      ensures entry == Entry(old(Abstract()), h, payload) && WellFormed(entry)
      ensures Abstract() == old(Abstract()).(pending := old(pending)[h.frameId := entry])
    {
      hide WellFormed;
      EntryWellFormed(Abstract(), h, payload);
      if h.frameId !in pending {
        pending := pending[h.frameId := NewPending(h)];
      }
      if !Matches(pending[h.frameId], h) {
        pending := pending[h.frameId := NewPending(h)];
      }
      NewWellFormed(h);
      entry := pending[h.frameId];
      if entry.shards[h.chunkIndex].None? {
        entry := entry.(shards := entry.shards[h.chunkIndex := Some(payload)],
                        receivedTotal := (entry.receivedTotal + 1) % 0x1_0000);
        if h.chunkIndex < h.chunkCount {
          entry := entry.(receivedData := entry.receivedData + 1);
        }
      }
      pending := pending[h.frameId := entry];
    }
  }

  lemma CompletesIs(p: Pending)
    requires p.dataCount <= |p.shards|
    ensures Completes(p) <==> CompleteDirect(p) || (p.receivedTotal >= p.dataCount && Recoverable(p))
    ensures CompleteDirect(p) <==> p.receivedData == p.dataCount
  {
    hide Recoverable;
  }

  /** Assemble directly or reconstruct. */
  method Complete(done: Pending, completeDirect: bool) returns (data: Option<Bytes>)
    requires WellFormed(done) && (completeDirect <==> CompleteDirect(done))
    ensures data == if completeDirect then Some(Assembled(done.shards, done.dataCount)) else Reconstructed(done)
  {
    hide Reconstructed, Assembled;
    if completeDirect {
      PresentFull(done.shards, 0, done.dataCount);
      var frame := AssembleData(done);
      data := Some(frame);
    } else {
      data := Reconstruct(done);
    }
  }
}
