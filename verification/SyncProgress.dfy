/**
 How far runs of the sync protocol get: what bounds a call, and the two states from which the
 replica never moves again.
 */
module SyncProgress {
  import opened Wrappers
  import opened SyncHistory
  import opened SyncPrimary
  import opened SyncLocal
  import opened SyncReplica

  // ---------- what bounds a call ----------

  /** The call has just sent a pull request. */
  predicate Pulls(s: System, t: System, id: nat) {
    id in t.calls && t.calls[id].pc.PullSent? && !(id in s.calls && s.calls[id].pc.PullSent?)
  }

  /** Pull requests call `id` has sent in the first `i` steps of a run. */
  function PullsSent(run: seq<System>, id: nat, i: nat): nat
    requires i < |run|
  {
    if i == 0 then 0 else PullsSent(run, id, i - 1) + if Pulls(run[i - 1], run[i], id) then 1 else 0
  }

  /** How the requests a call has sent relate to the rounds it has completed. */
  predicate SentFor(c: Call, sent: nat) {
    match c.pc
    case PullSent(_) => sent == c.pulls + 1
    case PullReplied(_, _) => sent == c.pulls + 1
    case Applying(_, _) => sent == c.pulls + 1
    case AckSent(_, _) => sent == c.pulls + 1
    case AckReplied(_, _, _) => sent == c.pulls + 1
    case Returned(_) => c.pulls <= sent <= c.maxRounds
    case Threw(_) => c.pulls <= sent <= c.maxRounds
    case _ => sent == 0 && c.pulls == 0
  }

  predicate Sent(s: System, id: nat, sent: nat) {
    if id in s.calls then SentFor(s.calls[id], sent) else sent == 0
  }

  /** Every way a call moves keeps count of its requests. */
  lemma MoveCounts(s: System, c: Call, sent: nat)
    requires CallInv(s, c) && SentFor(c, sent)
    ensures SentFor(Fail(c), sent) && (c.pc.PullSent? || !Fail(c).pc.PullSent?)
    ensures c.pc.StatusReplied? ==>
              var d := ReceiveStatus(c, c.pc.status); SentFor(d, if d.pc.PullSent? then sent + 1 else sent)
    ensures c.pc.PullReplied? ==>
              var d := ReceivePull(c, c.pc.since, c.pc.reply); SentFor(d, sent) && !d.pc.PullSent?
    ensures c.pc.AckReplied? ==>
              var d := ReceiveAck(c, c.pc.applied, c.pc.pull, c.pc.ack);
              SentFor(d, if d.pc.PullSent? then sent + 1 else sent)
  {
    hide Knows, Slice, PulledChunkOk, AckOk;
  }

  lemma SentStep(s: System, e: Event, t: System, id: nat, sent: nat)
    requires Inv(s) && Step(s, e, t) && Sent(s, id, sent)
    ensures Sent(t, id, sent + if Pulls(s, t, id) then 1 else 0)
  {
    hide CallInv, Replica, StatusReply, PullAnswer, ApplyChunk, Acknowledge, Replays, ReceiveStatus, ReceivePull,
         ReceiveAck, Fail;
    if id in t.calls {
      OthersStay(s, e, t, id);
      if id in s.calls {
        assert CallInv(s, s.calls[id]);
        MoveCounts(s, s.calls[id], sent);
        ApplyingIsBounded(s, s.calls[id]);
      }
    }
  }

  lemma ApplyingIsBounded(s: System, c: Call)
    requires CallInv(s, c)
    ensures c.pulls <= c.maxRounds && (c.pc.Applying? ==> c.pulls < c.maxRounds)
  {
  }

  lemma {:induction false} RunCounts(run: seq<System>, events: seq<Event>, i: nat, id: nat)
    requires IsRun(run, events) && i < |run|
    ensures Sent(run[i], id, PullsSent(run, id, i))
  {
    hide Inv, Step;
    if i > 0 {
      RunCounts(run, events, i - 1, id);
      RunInv(run, events, i - 1);
      assert Step(run[i - 1], events[i - 1], run[i - 1 + 1]);
      SentStep(run[i - 1], events[i - 1], run[i], id, PullsSent(run, id, i - 1));
    }
  }

  /**
   In every state of every run, whether a call is under way, returned or threw: it has sent at most
   `maxRounds` pull requests, completed at most as many rounds, and accounts for every unit.
   */
  lemma EveryCallIsBounded(run: seq<System>, events: seq<Event>, i: nat, id: nat)
    requires IsRun(run, events) && i < |run| && id in run[i].calls
    ensures var c := run[i].calls[id];
            && PullsSent(run, id, i) <= c.maxRounds
            && c.pulls <= PullsSent(run, id, i) && c.pulls <= c.units
            && (c.applied.Some? ==> c.first.Some? && c.units == c.applied.value - c.first.value)
            && (c.applied.None? ==> c.units == 0)
  {
    hide Step, Replica, Knows, Slice;
    RunInv(run, events, i);
    assert CallInv(run[i], run[i].calls[id]);
    RunCounts(run, events, i, id);
  }

  // ---------- after a crash inside a chunk ----------

  /** The catalog stopped strictly inside the range it was applying. */
  predicate Interrupted(l: Local) {
    l.state.Some? && !l.state.value.complete && l.state.value.from < l.Lsn() < l.state.value.through
  }

  lemma InterruptedAcceptsNothing(l: Local, since: nat, units: seq<Unit>)
    requires l.Coherent() && Interrupted(l) && units != []
    ensures ApplyChunk(l, since, units).None? && !Replays(l, since, units)
  {
    hide Closed;
    if Contiguous(since, units) {
      AcceptedChunks(l, since, units);
    }
  }

  lemma InterruptedStays(s: System, e: Event, t: System)
    requires Inv(s) && Step(s, e, t) && Interrupted(s.local)
    ensures t.local == s.local
  {
    hide Closed, Slice, Knows, Counted, ApplyChunk, Interrupted;
    if e.Apply? || e.Crash? {
      var c := s.calls[e.id];
      assert CallInv(s, c);
      InterruptedAcceptsNothing(s.local, c.pc.since, c.pc.reply.units);
    }
  }

  /** Once a crash has left the catalog inside a chunk, nothing in any run changes the replica again. */
  lemma {:induction false} CrashStopsReplica(run: seq<System>, events: seq<Event>, i: nat, j: nat)
    requires IsRun(run, events) && i <= j < |run| && Interrupted(run[i].local)
    ensures run[j].local == run[i].local
    decreases j
  {
    hide Inv, Step;
    if i < j {
      CrashStopsReplica(run, events, i, j - 1);
      RunInv(run, events, j - 1);
      assert Step(run[j - 1], events[j - 1], run[j - 1 + 1]);
      InterruptedStays(run[j - 1], events[j - 1], run[j]);
    }
  }

  // ---------- after a lost acknowledgement ----------

  /** These units can be served in one chunk of at most `maxBytes`. */
  predicate Affordable(units: seq<Unit>, maxBytes: nat) {
    |units| <= MAX_PULL_UNITS && EncodedBytes(units) <= maxBytes && Closed(units)
  }

  /**
   The last chunk was applied but not acknowledged, and the log has grown: from the cursor, `n`
   units reach past that chunk and can be served.
   */
  predicate Outgrown(p: Primary, l: Local, n: nat, maxBytes: nat) {
    && l.state.Some? && l.state.value.from < l.state.value.through == l.Lsn()
    && var from := l.state.value.from;
       && p.cursor.Some? && p.cursor.value.lsn == from
       && l.Lsn() < from + n <= p.archived <= |p.log|
       && Affordable(p.log[from..from + n], maxBytes)
  }

  /** With a budget for those `n` units, what the primary serves is longer than the applied chunk. */
  lemma ServedIsLonger(p: Primary, l: Local, n: nat, maxBytes: nat, budget: nat, reply: PullReply)
    requires Outgrown(p, l, n, maxBytes) && budget >= maxBytes
    requires PullServes(p, l.state.value.from, budget, reply)
    ensures reply.units == [] || |reply.units| >= n
  {
    hide Closed, EncodedBytes, Inapplicable, Oversized;
    var from := l.state.value.from;
    SlicePrefix(p.log, from, p.archived, n);
    assert Servable(Tail(p, from), n, MAX_PULL_UNITS, budget);
  }

  /**
   Retrying after a lost acknowledgement: the chunk the primary now serves from the old cursor is
   accepted if and only if the applied chunk is still the longest servable one.
   */
  lemma RetryMeetsPrimary(p: Primary, l: Local, maxBytes: nat, reply: PullReply)
    requires p.Valid() && l.Coherent() && l.state.value.from < l.state.value.through == l.Lsn() <= p.archived
    requires PullDue(p, l.state.value.from) && PullServes(p, l.state.value.from, maxBytes, reply) && reply.units != []
    ensures var from, k := l.state.value.from, l.Lsn() - l.state.value.from;
            ApplyChunk(l, from, reply.units).Some? <==> Longest(Tail(p, from), k, MAX_PULL_UNITS, maxBytes)
  {
    hide Closed, EncodedBytes, Inapplicable, Oversized;
    var from := l.state.value.from;
    assert Contiguous(from, reply.units);
    AcceptedChunks(l, from, reply.units);
  }

  /** A call that holds no acknowledgement and no chunk the replica would take. */
  predicate Harmless(c: Call, from: nat, through: nat) {
    match c.pc
    case PullReplied(since, reply) => reply.units == [] || (since <= from && (since, since + |reply.units|) != (from, through))
    case Applying(since, reply) => reply.units == [] || (since <= from && (since, since + |reply.units|) != (from, through))
    case AckSent(_, _) => false
    case _ => true
  }

  ghost predicate AllHarmless(s: System)
    requires s.local.state.Some?
  {
    forall id :: id in s.calls ==> Harmless(s.calls[id], s.local.state.value.from, s.local.state.value.through)
  }

  /** Acknowledgements given up on stay lost, and pulls are served with at least this budget. */
  ghost predicate Lossy(s: System, e: Event, maxBytes: nat) {
    && !e.ServeOrphan?
    && (e.ServePull? && e.id in s.calls && s.calls[e.id].pc.PullSent? && PullDue(s.primary, s.calls[e.id].pc.since) ==>
          s.calls[e.id].pc.since <= s.primary.archived <= |s.primary.log| &&
          exists budget: nat :: budget >= maxBytes && PullServes(s.primary, s.calls[e.id].pc.since, budget, e.reply))
  }

  lemma OutgrownStays(p: Primary, q: Primary, l: Local, n: nat, maxBytes: nat)
    requires Outgrown(p, l, n, maxBytes) && p.log <= q.log && p.archived <= q.archived <= |q.log|
    requires q.cursor.Some? && q.cursor.value.lsn == p.cursor.value.lsn
    ensures Outgrown(q, l, n, maxBytes)
  {
    hide Affordable;
    var from := l.state.value.from;
    assert q.log[from..from + n] == p.log[from..from + n];
  }

  /** The chunk in a harmless call's hands is refused. */
  lemma HarmlessChunkRefused(l: Local, since: nat, units: seq<Unit>)
    requires l.Coherent() && l.state.value.from < l.state.value.through == l.Lsn() && units != []
    requires since <= l.state.value.from && (since, since + |units|) != (l.state.value.from, l.state.value.through)
    ensures ApplyChunk(l, since, units).None? && !Replays(l, since, units)
  {
    hide Closed;
    if Contiguous(since, units) {
      AcceptedChunks(l, since, units);
    }
  }

  /** Everything that moves a call without a chunk being applied keeps it harmless. */
  lemma StaysHarmless(c: Call, from: nat, through: nat)
    requires Harmless(c, from, through)
    ensures Harmless(Fail(c), from, through)
    ensures c.pc.StatusReplied? ==> Harmless(ReceiveStatus(c, c.pc.status), from, through)
    ensures c.pc.PullReplied? ==> Harmless(ReceivePull(c, c.pc.since, c.pc.reply), from, through)
    ensures c.pc.AckReplied? ==> Harmless(ReceiveAck(c, c.pc.applied, c.pc.pull, c.pc.ack), from, through)
  {
  }

  lemma ServedPullHarmless(s: System, e: Event, t: System, n: nat, maxBytes: nat)
    requires s.primary.Valid() && Step(s, e, t) && e.ServePull?
    requires Outgrown(s.primary, s.local, n, maxBytes) && Lossy(s, e, maxBytes)
    ensures Harmless(t.calls[e.id], s.local.state.value.from, s.local.state.value.through)
  {
    hide Closed, EncodedBytes, PullServes, Outgrown;
    var since := s.calls[e.id].pc.since;
    if PullDue(s.primary, since) {
      var budget: nat :| budget >= maxBytes && PullServes(s.primary, since, budget, e.reply);
      OutgrownFacts(s.primary, s.local, n, maxBytes);
      ServedIsLonger(s.primary, s.local, n, maxBytes, budget, e.reply);
    }
  }

  lemma OutgrownFacts(p: Primary, l: Local, n: nat, maxBytes: nat)
    requires Outgrown(p, l, n, maxBytes)
    ensures l.state.Some? && l.state.value.from < l.state.value.through == l.Lsn() < l.state.value.from + n
    ensures p.cursor.Some? && p.cursor.value.lsn == l.state.value.from
  {
  }

  lemma AppliedHarmless(s: System, e: Event, t: System, n: nat, maxBytes: nat)
    requires Inv(s) && Step(s, e, t) && (e.Apply? || e.Crash?)
    requires Outgrown(s.primary, s.local, n, maxBytes) && AllHarmless(s)
    ensures t == Put(s, e.id, Throw(s.calls[e.id], PLAIN))
  {
    hide Closed, Slice, Knows, Counted, ApplyChunk, Outgrown;
    var c := s.calls[e.id];
    OutgrownFacts(s.primary, s.local, n, maxBytes);
    assert CallInv(s, c) && Harmless(c, s.local.state.value.from, s.local.state.value.through);
    HarmlessChunkRefused(s.local, c.pc.since, c.pc.reply.units);
  }

  /** The one call a step moves, if it moves one; every other call stays as it was. */
  lemma OthersStay(s: System, e: Event, t: System, id: nat)
    requires Step(s, e, t) && id in t.calls
    ensures (id in s.calls && t.calls[id] == s.calls[id]) ||
            (!e.Append? && !e.Archive? && !e.Prune? && !e.Retire? && !e.ServeOrphan? && e.id == id)
  {
    hide StatusReply, PullAnswer, ApplyChunk, Acknowledge, Replays, ReceiveStatus, ReceivePull, ReceiveAck, Fail;
  }

  lemma MovedHarmless(s: System, e: Event, t: System, n: nat, maxBytes: nat, id: nat)
    requires Inv(s) && Step(s, e, t) && Outgrown(s.primary, s.local, n, maxBytes)
    requires AllHarmless(s) && Lossy(s, e, maxBytes) && id in t.calls
    ensures Harmless(t.calls[id], s.local.state.value.from, s.local.state.value.through)
  {
    hide Inv, Outgrown, Lossy, StatusReply, PullAnswer, ApplyChunk, Acknowledge, Replays, ReceiveStatus, ReceivePull,
         ReceiveAck, Fail;
    OutgrownFacts(s.primary, s.local, n, maxBytes);
    OthersStay(s, e, t, id);
    if !(id in s.calls && t.calls[id] == s.calls[id]) {
      if id in s.calls {
        assert Harmless(s.calls[id], s.local.state.value.from, s.local.state.value.through);
        StaysHarmless(s.calls[id], s.local.state.value.from, s.local.state.value.through);
      }
      if e.ServePull? {
        InvFacts(s);
        ServedPullHarmless(s, e, t, n, maxBytes);
      } else if e.Apply? || e.Crash? {
        AppliedHarmless(s, e, t, n, maxBytes);
      }
    }
  }

  lemma InvFacts(s: System)
    requires Inv(s)
    ensures s.primary.Valid() && s.local.Coherent()
  {
  }

  lemma PrimaryOutgrown(s: System, e: Event, t: System, n: nat, maxBytes: nat)
    requires Inv(s) && Step(s, e, t) && Outgrown(s.primary, s.local, n, maxBytes)
    requires AllHarmless(s) && Lossy(s, e, maxBytes)
    ensures t.local == s.local && Outgrown(t.primary, s.local, n, maxBytes)
  {
    hide CallInv, Replica, Affordable, StatusReply, PullAnswer, ApplyChunk, Acknowledge, Replays, ReceiveStatus,
         ReceivePull, ReceiveAck, Fail, PullServes;
    if e.Apply? || e.Crash? {
      AppliedHarmless(s, e, t, n, maxBytes);
    }
    assert e.ServeAck? ==> Harmless(s.calls[e.id], s.local.state.value.from, s.local.state.value.through);
    OutgrownStays(s.primary, t.primary, s.local, n, maxBytes);
  }

  /**
   Once an acknowledgement is lost and a longer chunk can be served from the old cursor, nothing in
   any run moves the replica or the cursor again, unless the lost acknowledgement turns up after
   all. The calls need only not hold the applied chunk or an acknowledgement at that moment.
   */
  lemma {:induction false} LostAckStopsReplica(run: seq<System>, events: seq<Event>, i: nat, j: nat, n: nat, maxBytes: nat)
    requires IsRun(run, events) && i <= j < |run|
    requires Outgrown(run[i].primary, run[i].local, n, maxBytes) && AllHarmless(run[i])
    requires forall k :: i <= k < j ==> Lossy(run[k], events[k], maxBytes)
    ensures run[j].local == run[i].local
    ensures Outgrown(run[j].primary, run[j].local, n, maxBytes) && AllHarmless(run[j])
    decreases j
  {
    hide Inv, Step, Outgrown, Lossy, Harmless;
    if i < j {
      LostAckStopsReplica(run, events, i, j - 1, n, maxBytes);
      RunInv(run, events, j - 1);
      var s, e, t := run[j - 1], events[j - 1], run[j];
      assert Step(run[j - 1], events[j - 1], run[j - 1 + 1]);
      PrimaryOutgrown(s, e, t, n, maxBytes);
      OutgrownFacts(s.primary, s.local, n, maxBytes);
      forall id | id in t.calls ensures Harmless(t.calls[id], t.local.state.value.from, t.local.state.value.through) {
        MovedHarmless(s, e, t, n, maxBytes, id);
      }
    }
  }

  // ---------- runs that get there ----------

  /** A primary that retains exactly `units`, none of them acknowledged. */
  function Retaining(units: seq<Unit>): Primary {
    Primary(units, 0, |units|, Some(Cursor(0, true)))
  }

  function Booted(units: seq<Unit>, calls: map<nat, Call>): System {
    System(Retaining(units), Local([], Some(ApplyState(0, 0, 0, true))), 0, calls, {})
  }

  function Offered(units: seq<Unit>): PullReply {
    PullReply(Status(true, Some(0), |units|, Some(|units|), true, PullRepair), units, false)
  }

  /** The call of a first sync, at `pc`. */
  function FirstCall(pc: Pc): Call {
    NewSync(1, false).(pc := pc, applied := Some(0), first := Some(0))
  }

  predicate Chunk(units: seq<Unit>) {
    units != [] && PulledChunkOk(0, units) && Closed(units)
  }

  lemma StatusSteps(units: seq<Unit>)
    requires Chunk(units)
    ensures var start, st := NewSync(1, false), Offered(units).status;
            var asked, told := Booted(units, map[0 := start]), Booted(units, map[0 := start.(pc := StatusReplied(st))]);
            && Step(Booted(units, map[]), Start(0, start), asked)
            && Step(asked, ServeStatus(0, st), told)
            && Step(told, GetStatus(0), Booted(units, map[0 := FirstCall(PullSent(0))]))
  {
    hide Closed, PulledChunkOk;
  }

  lemma PullSteps(units: seq<Unit>)
    requires Chunk(units)
    ensures var sent := Booted(units, map[0 := FirstCall(PullSent(0))]);
            var got := Booted(units, map[0 := FirstCall(PullReplied(0, Offered(units)))]);
            && Step(sent, ServePull(0, Offered(units)), got)
            && Step(got, GetPull(0), Booted(units, map[0 := FirstCall(Applying(0, Offered(units)))]))
  {
    hide Closed, PulledChunkOk;
    assert units[0..|units|] == units;
  }

  /** A first sync up to the moment it is about to apply all of `units`. */
  lemma FirstPull(units: seq<Unit>) returns (run: seq<System>, events: seq<Event>)
    requires Chunk(units)
    ensures IsRun(run, events) && run[|run| - 1] == Booted(units, map[0 := FirstCall(Applying(0, Offered(units)))])
  {
    hide Step, Closed, PulledChunkOk, Init;
    var reply, start := Offered(units), NewSync(1, false);
    FirstPullStarts(units);
    StatusSteps(units);
    PullSteps(units);
    run := [Booted(units, map[]), Booted(units, map[0 := start]),
            Booted(units, map[0 := start.(pc := StatusReplied(reply.status))]), Booted(units, map[0 := FirstCall(PullSent(0))]),
            Booted(units, map[0 := FirstCall(PullReplied(0, reply))]), Booted(units, map[0 := FirstCall(Applying(0, reply))])];
    events := [Start(0, start), ServeStatus(0, reply.status), GetStatus(0), ServePull(0, reply), GetPull(0)];
  }

  lemma FirstPullStarts(units: seq<Unit>)
    requires Chunk(units)
    ensures Init(Booted(units, map[]))
  {
    assert units[..0] == [];
  }

  lemma RunExtends(run: seq<System>, events: seq<Event>, e: Event, t: System)
    requires IsRun(run, events) && Step(run[|run| - 1], e, t)
    ensures IsRun(run + [t], events + [e])
  {
    hide Step;
    var r, es := run + [t], events + [e];
    forall i | 0 <= i < |es| ensures Step(r[i], es[i], r[i + 1]) {
      if i < |events| {
        assert Step(run[i], events[i], run[i + 1]);
      }
    }
  }

  function Note(lsn: nat): Unit {
    Unit(0, COMMIT, lsn, [])
  }

  lemma NotesClose()
    ensures Chunk([Note(1)]) && Chunk([Note(1), Note(2)])
    ensures EncodedBytes([Note(1), Note(2)]) == 42
  {
    var two := [Note(1), Note(2)];
    assert two[1..] == [Note(2)] && [Note(1)][1..] == [] && [Note(2)][1..] == [];
    assert two[..1] == [Note(1)] && [Note(1)][..0] == [];
  }

  /** A crash after the first of two records is such a state. */
  lemma CrashIsReachable() returns (run: seq<System>, events: seq<Event>)
    ensures IsRun(run, events) && Interrupted(run[|run| - 1].local)
  {
    hide Closed;
    var units := [Note(1), Note(2)];
    NotesClose();
    run, events := FirstPull(units);
    var c := FirstCall(Applying(0, Offered(units)));
    var s := run[|run| - 1];
    var t := Put(s.(local := Interrupt(s.local, 0, units, 1)), 0, Throw(c, PLAIN));
    assert Step(s, Crash(0, 1), t);
    RunExtends(run, events, Crash(0, 1), t);
    run, events := run + [t], events + [Crash(0, 1)];
  }

  /** One applied unit, its acknowledgement lost, and what the log has grown to. */
  function LostAck(call: Call, orphans: set<AckRequest>, log: seq<Unit>, archived: nat): System {
    System(Primary(log, 0, archived, Some(Cursor(0, true))), Local([Note(1)], Some(ApplyState(0, 1, 1, true))), 0,
           map[0 := call], orphans)
  }

  lemma NoteApplies()
    ensures ApplyChunk(Local([], Some(ApplyState(0, 0, 0, true))), 0, [Note(1)]) ==
            Some(Local([Note(1)], Some(ApplyState(0, 1, 1, true))))
  {
    hide Closed;
    NotesClose();
    assert [] + [Note(1)] == [Note(1)];
  }

  lemma ApplyIt()
    ensures var one := [Note(1)];
            Step(Booted(one, map[0 := FirstCall(Applying(0, Offered(one)))]), Apply(0),
                 LostAck(FirstCall(AckSent(1, Offered(one))), {}, one, 1))
  {
    hide ApplyChunk, Closed;
    NoteApplies();
  }

  lemma LoseIt()
    ensures var one, sent := [Note(1)], FirstCall(AckSent(1, Offered([Note(1)])));
            Step(LostAck(sent, {}, one, 1), FailCall(0), LostAck(Fail(sent), {AckRequest(1, 1)}, one, 1))
  {
    hide ApplyChunk, Closed;
  }

  lemma GrowAndArchive(call: Call, orphans: set<AckRequest>)
    ensures var one, two := [Note(1)], [Note(1), Note(2)];
            && Step(LostAck(call, orphans, one, 1), Append([Note(2)]), LostAck(call, orphans, two, 1))
            && Step(LostAck(call, orphans, two, 1), Archive(2), LostAck(call, orphans, two, 2))
            && Outgrown(LostAck(call, orphans, two, 2).primary, LostAck(call, orphans, two, 2).local, 2, 42)
  {
    hide Closed, EncodedBytes;
    NotesClose();
    assert [Note(1)] + [Note(2)] == [Note(1), Note(2)];
    assert [Note(1), Note(2)][0..2] == [Note(1), Note(2)];
  }

  /** One unit applied, its acknowledgement lost, one more committed and archived, is such a state. */
  lemma LostAckIsReachable() returns (run: seq<System>, events: seq<Event>)
    ensures IsRun(run, events)
    ensures var s := run[|run| - 1]; Outgrown(s.primary, s.local, 2, 42) && AllHarmless(s)
  {
    hide Step, Closed, Outgrown, IsRun, Chunk;
    var one, two, sent := [Note(1)], [Note(1), Note(2)], FirstCall(AckSent(1, Offered([Note(1)])));
    var lost := {AckRequest(1, 1)};
    NotesClose();
    ApplyIt();
    LoseIt();
    GrowAndArchive(Fail(sent), lost);
    run, events := FirstPull(one);
    RunExtends(run, events, Apply(0), LostAck(sent, {}, one, 1));
    run, events := run + [LostAck(sent, {}, one, 1)], events + [Apply(0)];
    RunExtends(run, events, FailCall(0), LostAck(Fail(sent), lost, one, 1));
    run, events := run + [LostAck(Fail(sent), lost, one, 1)], events + [FailCall(0)];
    RunExtends(run, events, Append([Note(2)]), LostAck(Fail(sent), lost, two, 1));
    run, events := run + [LostAck(Fail(sent), lost, two, 1)], events + [Append([Note(2)])];
    RunExtends(run, events, Archive(2), LostAck(Fail(sent), lost, two, 2));
    run, events := run + [LostAck(Fail(sent), lost, two, 2)], events + [Archive(2)];
  }
}
