/**
 When a sync goes on and when it stops, that the client's check never refuses what the primary serves,
 and a write that is reported visible.
 */
module SyncRounds {
  import opened Wrappers
  import opened SyncHistory
  import opened SyncScan
  import opened SyncPrimary
  import opened SyncLocal
  import opened SyncReplica
  import opened SyncProgress

  // ---------- going on ----------

  /**
   After its first status a call pulls from the cursor if and only if the primary has something to pull;
   a status that is not usable makes it throw, and any other ends it with nothing done.
   */
  lemma FirstStatusDecides(run: seq<System>, events: seq<Event>, i: nat, id: nat)
    requires IsRun(run, events) && i < |events| && events[i] == GetStatus(id)
    ensures id in run[i].calls && run[i].calls[id].pc.StatusReplied? && id in run[i + 1].calls
    ensures var st, d := run[i].calls[id].pc.status, run[i + 1].calls[id];
            && (d.pc.Threw? <==> Unusable(st))
            && (d.pc.PullSent? <==> st.active && st.repair == PullRepair)
            && (d.pc.PullSent? ==> st.lastApplied == Some(d.pc.since))
            && (!d.pc.Threw? && !d.pc.PullSent? ==> d.pc == Returned(Summary(st, 0, 0, st.lastApplied, false)))
  {
    hide Step, CallInv, Replica;
    RunInv(run, events, i);
    assert Step(run[i], events[i], run[i + 1]);
    StatusStep(run[i], id, run[i + 1]);
  }

  lemma StatusStep(s: System, id: nat, t: System)
    requires Inv(s) && Step(s, GetStatus(id), t)
    ensures id in s.calls && s.calls[id].pc.StatusReplied? && id in t.calls
    ensures var st, d := s.calls[id].pc.status, t.calls[id];
            && (d.pc.Threw? <==> Unusable(st))
            && (d.pc.PullSent? <==> st.active && st.repair == PullRepair)
            && (d.pc.PullSent? ==> st.lastApplied == Some(d.pc.since))
            && (!d.pc.Threw? && !d.pc.PullSent? ==> d.pc == Returned(Summary(st, 0, 0, st.lastApplied, false)))
  {
    hide Slice, Replica;
    assert CallInv(s, s.calls[id]);
  }

  /**
   The client's check accepts every chunk the primary serves: a pull that is answered throws if and only
   if the status is not usable, ends the call if and only if there is no unit, and is applied otherwise.
   */
  lemma ServedChunksAreTaken(run: seq<System>, events: seq<Event>, i: nat, id: nat)
    requires IsRun(run, events) && i < |events| && events[i] == GetPull(id)
    ensures id in run[i].calls && run[i].calls[id].pc.PullReplied? && id in run[i + 1].calls
    ensures var c, d := run[i].calls[id], run[i + 1].calls[id];
            var reply := c.pc.reply;
            && (d.pc.Threw? <==> Unusable(reply.status))
            && (d.pc.Returned? <==> !Unusable(reply.status) && reply.units == [])
            && (d.pc.Returned? ==> d.pc == Returned(Summary(reply.status, c.pulls, c.units, c.applied, false)))
            && (!d.pc.Threw? && !d.pc.Returned? ==> d.pc == Applying(c.pc.since, reply))
  {
    hide Step, CallInv, Replica;
    RunInv(run, events, i);
    assert Step(run[i], events[i], run[i + 1]);
    PullStep(run[i], id, run[i + 1]);
  }

  lemma PullStep(s: System, id: nat, t: System)
    requires Inv(s) && Step(s, GetPull(id), t)
    ensures id in s.calls && s.calls[id].pc.PullReplied? && id in t.calls
    ensures PulledChunkOk(s.calls[id].pc.since, s.calls[id].pc.reply.units)
    ensures t.calls[id] == ReceivePull(s.calls[id], s.calls[id].pc.since, s.calls[id].pc.reply)
  {
    hide Knows, Counted, Replica, Closed;
    assert CallInv(s, s.calls[id]);
    SliceIsOk(s, s.calls[id].pc.since, s.calls[id].pc.reply);
  }

  lemma SliceIsOk(s: System, since: nat, reply: PullReply)
    requires s.primary.Valid() && Slice(s, since, reply)
    ensures PulledChunkOk(since, reply.units)
  {
    hide Closed, Depth;
    ClosedMeans(reply.units);
    forall i | 0 <= i < |reply.units| ensures reply.units[i].lsn == since + 1 + i && reply.units[i].recordType <= 0xff {
      assert reply.units[i] == s.primary.log[since + i];
      assert Supported(reply.units[i]);
    }
  }

  /**
   After an acknowledgement a call throws if and only if the status is not usable. It pulls again, from
   what it applied, if and only if it was not asked for a single round, the primary reported more, there
   is still something to pull and rounds are left. Otherwise it returns the status it got, as exhausted
   if and only if only the rounds stopped it.
   */
  lemma SyncGoesOn(run: seq<System>, events: seq<Event>, i: nat, id: nat)
    requires IsRun(run, events) && i < |events| && events[i] == GetAck(id)
    ensures id in run[i].calls && run[i].calls[id].pc.AckReplied? && id in run[i + 1].calls
    ensures var c, d := run[i].calls[id], run[i + 1].calls[id];
            var ack := c.pc.ack;
            var more := !c.once && c.pc.pull.hasMore && ack.status.repair == PullRepair;
            if Unusable(ack.status) then d.pc.Threw?
            else
              && d.pulls == c.pulls + 1
              && (d.pc == PullSent(c.pc.applied) <==> more && d.pulls < d.maxRounds)
              && (d.pc != PullSent(c.pc.applied) ==>
                    d.pc == Returned(Summary(ack.status, d.pulls, d.units, Some(c.pc.applied), more)))
  {
    hide Step, CallInv, Replica;
    RunInv(run, events, i);
    assert Step(run[i], events[i], run[i + 1]);
    AckStep(run[i], id, run[i + 1]);
  }

  lemma AckStep(s: System, id: nat, t: System)
    requires Inv(s) && Step(s, GetAck(id), t)
    ensures id in s.calls && s.calls[id].pc.AckReplied? && id in t.calls
    ensures var c, d := s.calls[id], t.calls[id];
            var ack := c.pc.ack;
            var more := !c.once && c.pc.pull.hasMore && ack.status.repair == PullRepair;
            if Unusable(ack.status) then d.pc.Threw?
            else
              && d.pulls == c.pulls + 1
              && (d.pc == PullSent(c.pc.applied) <==> more && d.pulls < d.maxRounds)
              && (d.pc != PullSent(c.pc.applied) ==>
                    d.pc == Returned(Summary(ack.status, d.pulls, d.units, Some(c.pc.applied), more)))
  {
    hide Slice, Replica;
    assert CallInv(s, s.calls[id]);
  }

  // ---------- a write that is seen ----------

  /** One commit on the primary, and the call that made it. */
  function Wrote(archived: nat, cursor: nat, local: Local, call: Call): System {
    System(Primary([Note(1)], 0, archived, Some(Cursor(cursor, true))), local, 0, map[0 := call], {})
  }

  const EMPTY_LOCAL := Local([], Some(ApplyState(0, 0, 0, true)))
  const SYNCED_LOCAL := Local([Note(1)], Some(ApplyState(0, 1, 1, true)))

  function Before(calls: map<nat, Call>): System {
    System(Primary([], 0, 0, Some(Cursor(0, true))), EMPTY_LOCAL, 0, calls, {})
  }

  /** The writing call, at `pc`. */
  function Writing(pc: Pc): Call {
    NewWrite(1, false).(pc := pc, commit := Some(1))
  }

  function Syncing(pc: Pc): Call {
    Writing(pc).(applied := Some(0), first := Some(0))
  }

  const CAUGHT_UP := Status(true, Some(1), 1, Some(1), false, NoRepair)
  const ACKED := AckReply(0, 1, 1, true, CAUGHT_UP)

  function Seen(): Call {
    Syncing(Returned(Summary(CAUGHT_UP, 1, 1, Some(1), false))).(applied := Some(1), pulls := 1, units := 1)
  }

  lemma StartStep()
    ensures Init(Before(map[]))
    ensures Step(Before(map[]), Start(0, NewWrite(1, false)), Before(map[0 := NewWrite(1, false)]))
  {
  }

  lemma CommitStep()
    ensures Step(Before(map[0 := NewWrite(1, false)]), CommitWrite(0, [Note(1)]), Wrote(0, 0, EMPTY_LOCAL, Writing(WriteReplied)))
  {
    assert [] + [Note(1)] == [Note(1)];
  }

  lemma ArchiveSteps()
    ensures Step(Wrote(0, 0, EMPTY_LOCAL, Writing(WriteReplied)), Archive(1), Wrote(1, 0, EMPTY_LOCAL, Writing(WriteReplied)))
    ensures Step(Wrote(1, 0, EMPTY_LOCAL, Writing(WriteReplied)), GetWrite(0), Wrote(1, 0, EMPTY_LOCAL, Writing(StatusSent)))
  {
  }

  lemma StatusAndPullSteps()
    ensures var reply := Offered([Note(1)]);
            && Step(Wrote(1, 0, EMPTY_LOCAL, Writing(StatusSent)), ServeStatus(0, reply.status),
                    Wrote(1, 0, EMPTY_LOCAL, Writing(StatusReplied(reply.status))))
            && Step(Wrote(1, 0, EMPTY_LOCAL, Writing(StatusReplied(reply.status))), GetStatus(0),
                    Wrote(1, 0, EMPTY_LOCAL, Syncing(PullSent(0))))
            && Step(Wrote(1, 0, EMPTY_LOCAL, Syncing(PullSent(0))), ServePull(0, reply),
                    Wrote(1, 0, EMPTY_LOCAL, Syncing(PullReplied(0, reply))))
            && Step(Wrote(1, 0, EMPTY_LOCAL, Syncing(PullReplied(0, reply))), GetPull(0),
                    Wrote(1, 0, EMPTY_LOCAL, Syncing(Applying(0, reply))))
  {
    hide Closed, PulledChunkOk;
    NotesClose();
    assert [Note(1)][0..1] == [Note(1)];
  }

  lemma ApplyAndAckSteps()
    ensures var reply := Offered([Note(1)]);
            && Step(Wrote(1, 0, EMPTY_LOCAL, Syncing(Applying(0, reply))), Apply(0),
                    Wrote(1, 0, SYNCED_LOCAL, Syncing(AckSent(1, reply))))
            && Step(Wrote(1, 0, SYNCED_LOCAL, Syncing(AckSent(1, reply))), ServeAck(0),
                    Wrote(1, 1, SYNCED_LOCAL, Syncing(AckReplied(1, reply, ACKED))))
            && Step(Wrote(1, 1, SYNCED_LOCAL, Syncing(AckReplied(1, reply, ACKED))), GetAck(0),
                    Wrote(1, 1, SYNCED_LOCAL, Seen()))
  {
    hide Closed, ApplyChunk;
    NotesClose();
    NoteApplies();
    assert [Note(1)][0..1] == [Note(1)];
  }

  /** A run in which a write commits one unit, syncs it and is reported visible by success. */
  lemma VisibleWriteIsReachable() returns (run: seq<System>, events: seq<Event>)
    ensures IsRun(run, events)
    ensures var c := run[|run| - 1].calls;
            0 in c && c[0].pc.Returned? && c[0].commit == Some(1) && LocalVisible(c[0])
  {
    hide Step, Init;
    var one, reply := [Note(1)], Offered([Note(1)]);
    StartStep();
    CommitStep();
    ArchiveSteps();
    StatusAndPullSteps();
    ApplyAndAckSteps();
    run := [Before(map[]), Before(map[0 := NewWrite(1, false)]), Wrote(0, 0, EMPTY_LOCAL, Writing(WriteReplied)),
            Wrote(1, 0, EMPTY_LOCAL, Writing(WriteReplied)), Wrote(1, 0, EMPTY_LOCAL, Writing(StatusSent)),
            Wrote(1, 0, EMPTY_LOCAL, Writing(StatusReplied(reply.status))), Wrote(1, 0, EMPTY_LOCAL, Syncing(PullSent(0))),
            Wrote(1, 0, EMPTY_LOCAL, Syncing(PullReplied(0, reply))), Wrote(1, 0, EMPTY_LOCAL, Syncing(Applying(0, reply))),
            Wrote(1, 0, SYNCED_LOCAL, Syncing(AckSent(1, reply))), Wrote(1, 1, SYNCED_LOCAL, Syncing(AckReplied(1, reply, ACKED))),
            Wrote(1, 1, SYNCED_LOCAL, Seen())];
    events := [Start(0, NewWrite(1, false)), CommitWrite(0, one), Archive(1), GetWrite(0), ServeStatus(0, reply.status),
               GetStatus(0), ServePull(0, reply), GetPull(0), Apply(0), ServeAck(0), GetAck(0)];
  }
}
