/**
 The embedded-sync client: `syncNow` rounds of status, pull, apply and acknowledge, and `write`,
 which commits on the primary and reports whether a local read already shows the commit.
 */
module SyncReplica {
  import opened Wrappers
  import opened SyncHistory
  import opened SyncPrimary
  import opened SyncLocal

  // ---------- checks the client makes on what it receives ----------

  predicate PulledChunkOk(since: nat, units: seq<Unit>) {
    Contiguous(since, units) && forall u :: u in units ==> u.recordType <= 0xff
  }

  /** Check a pulled chunk unit by unit and say how far it reaches. */
  method ValidatePulledChunk(since: nat, units: seq<Unit>) returns (r: Option<nat>)
    ensures r.Some? <==> forall i :: 0 <= i < |units| ==> units[i].lsn == since + 1 + i && units[i].recordType < 256
    ensures r == if PulledChunkOk(since, units) then Some(since + |units|) else None
  {
    var expected := since + 1;
    for i := 0 to |units|
      invariant expected == since + 1 + i
      invariant PulledChunkOk(since, units[..i])
    {
      if units[i].lsn != expected || units[i].recordType > 0xff {
        assert units[i] in units;
        return None;
      }
      expected := expected + 1;
    }
    assert units[..|units|] == units;
    r := Some(if units == [] then since else units[|units| - 1].lsn);
  }

  predicate AckOk(ack: AckReply, applied: nat, remote: nat) {
    && ack.applied == applied
    && ack.remoteLsn >= remote
    && ack.status.remoteLsn >= ack.remoteLsn
    && (ack.advanced || ack.previous >= applied)
    && ack.status.lastApplied.Some? && ack.status.lastApplied.value >= applied
  }

  /** What an accepted acknowledgement vouches for: nothing applied or observed was taken back. */
  lemma AcceptedAckCovers(ack: AckReply, applied: nat, remote: nat)
    ensures AckOk(ack, applied, remote) <==>
            && ack.status.lastApplied.Some?
            && applied == ack.applied <= ack.status.lastApplied.value
            && remote <= ack.remoteLsn <= ack.status.remoteLsn
            && (ack.previous < applied ==> ack.advanced)
  {
  }

  /** The client accepts every acknowledgement reply the primary can produce for its request. */
  lemma PrimaryAcksPassValidation(p: Primary, applied: nat, observed: nat)
    requires Acknowledge(p, applied, observed).Some?
    ensures AckOk(Acknowledge(p, applied, observed).value.1, applied, observed)
  {
  }

  // ---------- one syncNow or write call ----------

  datatype SyncError = SyncError(localApplied: bool, appliedLsn: Option<nat>, remoteLsn: Option<nat>)

  const PLAIN := SyncError(false, None, None)

  datatype Summary = Summary(status: Status, pulls: nat, units: nat, appliedLsn: Option<nat>, exhausted: bool)

  /** Where a call is: what it sent, or what was answered and is on its way back. */
  datatype Pc =
    | WriteSent
    | WriteReplied
    | StatusSent
    | StatusReplied(status: Status)
    | PullSent(since: nat)
    | PullReplied(since: nat, reply: PullReply)
    | Applying(since: nat, reply: PullReply)
    | AckSent(applied: nat, pull: PullReply)
    | AckReplied(applied: nat, pull: PullReply, ack: AckReply)
    | Returned(summary: Summary)
    | Threw(error: SyncError)
    | WriteFailed
    | Deferred

  /** `commit` is the primary's LSN right after this call's own write; `first` the cursor it found. */
  datatype Call = Call(pc: Pc, commit: Option<nat>, defer: bool, once: bool, maxRounds: nat,
                       pulls: nat, units: nat, applied: Option<nat>, first: Option<nat>)

  function NewSync(maxRounds: nat, once: bool): Call {
    Call(StatusSent, None, false, once, maxRounds, 0, 0, None, None)
  }

  function NewWrite(maxRounds: nat, defer: bool): Call {
    Call(WriteSent, None, defer, false, maxRounds, 0, 0, None, None)
  }

  predicate Unusable(st: Status) {
    !st.active || st.repair == Rebootstrap
  }

  function Finish(c: Call, st: Status, exhausted: bool): Call {
    c.(pc := Returned(Summary(st, c.pulls, c.units, c.applied, exhausted)))
  }

  function Throw(c: Call, e: SyncError): Call {
    c.(pc := Threw(e))
  }

  /** The head of the round loop. */
  function LoopHead(c: Call, st: Status): Call {
    if Unusable(st) then Throw(c, PLAIN)
    else if !st.stale || st.repair == NoRepair || st.repair == AwaitArchive then Finish(c, st, false)
    else if st.lastApplied.None? then Throw(c, PLAIN)
    else if c.pulls >= c.maxRounds then Finish(c, st, true)
    else c.(pc := PullSent(st.lastApplied.value))
  }

  function ReceiveStatus(c: Call, st: Status): Call {
    LoopHead(c.(applied := st.lastApplied, first := st.lastApplied), st)
  }

  function ReceivePull(c: Call, since: nat, reply: PullReply): Call {
    if Unusable(reply.status) then Throw(c, PLAIN)
    else if reply.units == [] then Finish(c, reply.status, false)
    else if !PulledChunkOk(since, reply.units) then Throw(c, PLAIN)
    else c.(pc := Applying(since, reply))
  }

  function LocallyApplied(applied: nat, pull: PullReply): SyncError {
    SyncError(true, Some(applied), Some(pull.status.remoteLsn))
  }

  function ReceiveAck(c: Call, applied: nat, pull: PullReply, ack: AckReply): Call {
    if !AckOk(ack, applied, pull.status.remoteLsn) then Throw(c, LocallyApplied(applied, pull))
    else if Unusable(ack.status) then Throw(c, LocallyApplied(applied, pull))
    else
      var next := c.(applied := Some(applied), pulls := c.pulls + 1, units := c.units + |pull.units|);
      if c.once || !pull.hasMore then Finish(next, ack.status, false) else LoopHead(next, ack.status)
  }

  /** The awaited operation failed, whether or not the other side carried it out. */
  function Fail(c: Call): Call {
    match c.pc
    case WriteSent => c.(pc := WriteFailed)
    case WriteReplied => c.(pc := WriteFailed)
    case AckSent(applied, pull) => Throw(c, LocallyApplied(applied, pull))
    case AckReplied(applied, pull, _) => Throw(c, LocallyApplied(applied, pull))
    case Returned(_) => c
    case Threw(_) => c
    case WriteFailed => c
    case Deferred => c
    case _ => Throw(c, PLAIN)
  }

  /** `localVisible`, as `write` computes it from its sync's result or error. */
  predicate LocalVisible(c: Call) {
    && c.commit.Some?
    && match c.pc
       case Returned(s) => !s.status.stale
       case Threw(e) => e.localApplied && e.appliedLsn.Some? && e.remoteLsn.Some? &&
                        e.appliedLsn.value >= e.remoteLsn.value
       case _ => false
  }

  // ---------- the whole system ----------

  /** An acknowledgement whose caller gave up may still reach the primary. */
  datatype AckRequest = AckRequest(applied: nat, observed: nat)

  /** `boot` is the LSN the replica was bootstrapped at. */
  datatype System = System(primary: Primary, local: Local, boot: nat, calls: map<nat, Call>, orphans: set<AckRequest>)

  datatype Event =
    | Append(units: seq<Unit>)
    | Archive(to: nat)
    | Prune(to: nat)
    | Retire
    | Start(id: nat, call: Call)
    | CommitWrite(id: nat, units: seq<Unit>)
    | GetWrite(id: nat)
    | ServeStatus(id: nat, status: Status)
    | GetStatus(id: nat)
    | ServePull(id: nat, reply: PullReply)
    | GetPull(id: nat)
    | Apply(id: nat)
    | Crash(id: nat, k: nat)
    | ServeAck(id: nat)
    | GetAck(id: nat)
    | FailCall(id: nat)
    | ServeOrphan(request: AckRequest)

  /** `units` carry the LSNs that come next in `log`. */
  predicate Next(log: seq<Unit>, units: seq<Unit>) {
    Contiguous(|log|, units)
  }

  function Put(s: System, id: nat, c: Call): System {
    s.(calls := s.calls[id := c])
  }

  ghost predicate Step(s: System, e: Event, t: System) {
    match e
    case Append(units) =>
      Next(s.primary.log, units) && t == s.(primary := s.primary.(log := s.primary.log + units))
    case Archive(to) =>
      s.primary.archived <= to <= |s.primary.log| && t == s.(primary := s.primary.(archived := to))
    case Prune(to) =>
      s.primary.floor <= to <= s.primary.archived && t == s.(primary := s.primary.(floor := to))
    case Retire =>
      && s.primary.cursor.Some?
      && t == s.(primary := s.primary.(cursor := Some(s.primary.cursor.value.(active := false))))
    case Start(id, call) =>
      && id !in s.calls
      && (exists rounds: nat, flag: bool ::
            rounds >= 1 && (call == NewSync(rounds, flag) || call == NewWrite(rounds, flag)))
      && t == Put(s, id, call)
    case CommitWrite(id, units) =>
      && id in s.calls && s.calls[id].pc == WriteSent && Next(s.primary.log, units)
      && t == Put(s.(primary := s.primary.(log := s.primary.log + units)), id,
                  s.calls[id].(pc := WriteReplied, commit := Some(|s.primary.log| + |units|)))
    case GetWrite(id) =>
      && id in s.calls && s.calls[id].pc == WriteReplied
      && t == Put(s, id, s.calls[id].(pc := if s.calls[id].defer then Deferred else StatusSent))
    case ServeStatus(id, status) =>
      && id in s.calls && s.calls[id].pc == StatusSent && StatusReply(s.primary, status)
      && t == Put(s, id, s.calls[id].(pc := StatusReplied(status)))
    case GetStatus(id) =>
      && id in s.calls && s.calls[id].pc.StatusReplied?
      && t == Put(s, id, ReceiveStatus(s.calls[id], s.calls[id].pc.status))
    case ServePull(id, reply) =>
      && id in s.calls && s.calls[id].pc.PullSent? && PullAnswer(s.primary, s.calls[id].pc.since, reply)
      && t == Put(s, id, s.calls[id].(pc := PullReplied(s.calls[id].pc.since, reply)))
    case GetPull(id) =>
      && id in s.calls && s.calls[id].pc.PullReplied?
      && t == Put(s, id, ReceivePull(s.calls[id], s.calls[id].pc.since, s.calls[id].pc.reply))
    case Apply(id) =>
      && id in s.calls && s.calls[id].pc.Applying?
      && var c := s.calls[id];
         var outcome := ApplyChunk(s.local, c.pc.since, c.pc.reply.units);
         if outcome.None? then t == Put(s, id, Throw(c, PLAIN))
         else t == Put(s.(local := outcome.value), id,
                       c.(pc := AckSent(c.pc.since + |c.pc.reply.units|, c.pc.reply)))
    case Crash(id, k) =>
      && id in s.calls && s.calls[id].pc.Applying?
      && var c := s.calls[id];
         && Replays(s.local, c.pc.since, c.pc.reply.units) && k <= |c.pc.reply.units|
         && t == Put(s.(local := Interrupt(s.local, c.pc.since, c.pc.reply.units, k)), id, Throw(c, PLAIN))
    case ServeAck(id) =>
      && id in s.calls && s.calls[id].pc.AckSent?
      && var c := s.calls[id];
         var outcome := Acknowledge(s.primary, c.pc.applied, c.pc.pull.status.remoteLsn);
         && outcome.Some?
         && t == Put(s.(primary := outcome.value.0), id,
                     c.(pc := AckReplied(c.pc.applied, c.pc.pull, outcome.value.1)))
    case GetAck(id) =>
      && id in s.calls && s.calls[id].pc.AckReplied?
      && t == Put(s, id, ReceiveAck(s.calls[id], s.calls[id].pc.applied, s.calls[id].pc.pull, s.calls[id].pc.ack))
    case FailCall(id) =>
      && id in s.calls
      && var c := s.calls[id];
         t == Put(s.(orphans := if c.pc.AckSent? then s.orphans + {AckRequest(c.pc.applied, c.pc.pull.status.remoteLsn)}
                                else s.orphans), id, Fail(c))
    case ServeOrphan(request) =>
      && request in s.orphans
      && var outcome := Acknowledge(s.primary, request.applied, request.observed);
         && outcome.Some?
         && t == s.(primary := outcome.value.0)
  }

  /** A replica just bootstrapped from a snapshot of this primary, with no call running. */
  ghost predicate Init(s: System) {
    && s.primary.Valid()
    && s.boot <= |s.primary.log|
    && s.local == Local(s.primary.log[..s.boot], Some(ApplyState(s.boot, s.boot, s.boot, true)))
    && (s.primary.cursor.Some? ==> s.primary.cursor.value.lsn <= s.boot)
    && s.calls == map[] && s.orphans == {}
  }

  // ---------- the invariant ----------

  /** The local database holds a prefix of the primary's log, cut only where a crash explains it. */
  ghost predicate Replica(s: System) {
    && s.local.content <= s.primary.log
    && s.local.Coherent()
    && s.boot <= s.local.state.value.from
    && s.local.state.value.through <= |s.primary.log|
    && Closed(s.primary.log[s.boot..s.local.state.value.applied])
    && Closed(s.primary.log[s.boot..s.local.state.value.through])
  }

  /** What a status in a call's hands guarantees. */
  predicate Knows(s: System, c: Call, st: Status) {
    && st.remoteLsn <= |s.primary.log|
    && (c.commit.Some? ==> c.commit.value <= st.remoteLsn)
    && (st.lastApplied.Some? ==> st.lastApplied.value <= s.local.Lsn())
    && (!st.stale ==> st.lastApplied == Some(st.remoteLsn))
    && (!Unusable(st) && st.lastApplied == Some(st.remoteLsn) ==> !st.stale)
    && (st.repair == PullRepair ==> st.stale && st.lastApplied.Some?)
  }

  /** A pulled chunk is a closed slice of the primary's log. */
  predicate Slice(s: System, since: nat, reply: PullReply) {
    && since + |reply.units| <= |s.primary.log|
    && reply.units == s.primary.log[since..since + |reply.units|]
    && Closed(reply.units)
    && (reply.units != [] ==> since + |reply.units| <= reply.status.remoteLsn)
  }

  /** Rounds are bounded, each moves at least one unit, and units account for all LSN progress. */
  predicate Counted(c: Call) {
    && c.pulls <= c.maxRounds && c.maxRounds >= 1
    && c.pulls <= c.units
    && (c.applied.None? ==> c.units == 0)
    && (c.applied.Some? ==> c.first.Some? && c.applied.value == c.first.value + c.units)
  }

  predicate CallInv(s: System, c: Call) {
    && Counted(c)
    && (c.commit.Some? ==> c.commit.value <= |s.primary.log|)
    && match c.pc
       case WriteSent => c.commit.None? && c.applied.None? && c.pulls == 0
       case WriteReplied => c.applied.None? && c.pulls == 0
       case StatusSent => c.applied.None? && c.pulls == 0
       case StatusReplied(st) => c.applied.None? && c.pulls == 0 && Knows(s, c, st)
       case PullSent(since) => c.pulls < c.maxRounds && c.applied == Some(since) && since <= s.local.Lsn()
       case PullReplied(since, reply) =>
         c.pulls < c.maxRounds && c.applied == Some(since) && Knows(s, c, reply.status) && Slice(s, since, reply)
       case Applying(since, reply) =>
         && c.pulls < c.maxRounds && c.applied == Some(since) && Knows(s, c, reply.status)
         && Slice(s, since, reply) && reply.units != []
       case AckSent(applied, pull) =>
         && c.pulls < c.maxRounds && c.applied.Some? && c.applied.value + |pull.units| == applied
         && pull.units != [] && applied <= s.local.Lsn() && applied <= pull.status.remoteLsn && Knows(s, c, pull.status)
       case AckReplied(applied, pull, ack) =>
         && c.pulls < c.maxRounds && c.applied.Some? && c.applied.value + |pull.units| == applied
         && pull.units != [] && applied <= s.local.Lsn() && applied <= pull.status.remoteLsn && Knows(s, c, pull.status)
         && Knows(s, c, ack.status) && ack.status.lastApplied == Some(applied)
         && AckOk(ack, applied, pull.status.remoteLsn)
       case Returned(sum) =>
         && Knows(s, c, sum.status) && !Unusable(sum.status)
         && sum.pulls == c.pulls && sum.units == c.units && sum.appliedLsn == c.applied
       case Threw(e) =>
         e.localApplied ==>
           && e.appliedLsn.Some? && e.remoteLsn.Some? && e.appliedLsn.value <= s.local.Lsn()
           && (c.commit.Some? ==> c.commit.value <= e.remoteLsn.value)
       case WriteFailed => true
       case Deferred => true
  }

  ghost predicate Inv(s: System) {
    && s.primary.Valid()
    && Replica(s)
    && (s.primary.cursor.Some? ==> s.primary.cursor.value.lsn <= s.local.Lsn())
    && (forall r :: r in s.orphans ==> r.applied <= s.local.Lsn())
    && (forall id :: id in s.calls ==> CallInv(s, s.calls[id]))
  }

  /** Neither the log nor the replica ever loses a unit. */
  predicate Grows(s: System, t: System) {
    s.primary.log <= t.primary.log && s.local.content <= t.local.content
  }

  lemma KnowsGrows(s: System, t: System, c: Call, st: Status)
    requires Grows(s, t) && Knows(s, c, st)
    ensures Knows(t, c, st)
  {
  }

  lemma SliceGrows(s: System, t: System, since: nat, reply: PullReply)
    requires Grows(s, t) && Slice(s, since, reply)
    ensures Slice(t, since, reply)
  {
    hide Closed;
    var end := since + |reply.units|;
    assert t.primary.log[since..end] == s.primary.log[since..end];
  }

  lemma CallInvGrows(s: System, t: System, c: Call)
    requires Grows(s, t) && CallInv(s, c)
    ensures CallInv(t, c)
  {
    hide Closed, Counted, Knows, Slice;
    match c.pc {
      case StatusReplied(st) => KnowsGrows(s, t, c, st);
      case PullReplied(since, reply) =>
        KnowsGrows(s, t, c, reply.status);
        SliceGrows(s, t, since, reply);
      case Applying(since, reply) =>
        KnowsGrows(s, t, c, reply.status);
        SliceGrows(s, t, since, reply);
      case AckSent(_, pull) => KnowsGrows(s, t, c, pull.status);
      case AckReplied(_, pull, ack) =>
        KnowsGrows(s, t, c, pull.status);
        KnowsGrows(s, t, c, ack.status);
      case Returned(sum) => KnowsGrows(s, t, c, sum.status);
      case _ =>
    }
  }

  /** Enough to show after a step: the shared state is right and the one call that moved is right. */
  lemma InvFromParts(s: System, t: System, id: nat)
    requires Inv(s) && Grows(s, t)
    requires t.primary.Valid() && Replica(t)
    requires t.primary.cursor.Some? ==> t.primary.cursor.value.lsn <= t.local.Lsn()
    requires forall r :: r in t.orphans ==> r.applied <= t.local.Lsn()
    requires forall i :: i in t.calls && i != id ==> i in s.calls && t.calls[i] == s.calls[i]
    requires id in t.calls ==> CallInv(t, t.calls[id])
    ensures Inv(t)
  {
    forall i | i in t.calls ensures CallInv(t, t.calls[i]) {
      if i != id {
        CallInvGrows(s, t, s.calls[i]);
      }
    }
  }

  lemma ReplicaGrows(s: System, t: System)
    requires Replica(s) && s.primary.log <= t.primary.log && t.local == s.local && t.boot == s.boot
    ensures Replica(t)
  {
    var st := s.local.state.value;
    assert t.primary.log[s.boot..st.applied] == s.primary.log[s.boot..st.applied];
    assert t.primary.log[s.boot..st.through] == s.primary.log[s.boot..st.through];
  }

  lemma InitInv(s: System)
    requires Init(s)
    ensures Inv(s)
  {
    assert s.primary.log[s.boot..s.boot] == [];
  }

  // ---------- every step keeps it ----------

  lemma LogStep(s: System, e: Event, t: System)
    requires Inv(s) && Step(s, e, t)
    requires e.Append? || e.Archive? || e.Prune? || e.Retire? || e.Start? || e.CommitWrite?
    ensures Inv(t) && Grows(s, t)
  {
    ReplicaGrows(s, t);
    var id := match e case Start(id, _) => id case CommitWrite(id, _) => id case _ => 0;
    if id in t.calls {
      if id in s.calls {
        CallInvGrows(s, t, s.calls[id]);
      }
    }
    InvFromParts(s, t, id);
  }

  /** Where a call stands has no part in what it counts or knows. */
  lemma Repositioned(s: System, c: Call, pc: Pc, st: Status)
    ensures Counted(c.(pc := pc)) == Counted(c) && Knows(s, c.(pc := pc), st) == Knows(s, c, st)
  {
  }

  lemma LoopHeadInv(s: System, c: Call, st: Status)
    requires Knows(s, c, st) && Counted(c)
    requires c.commit.Some? ==> c.commit.value <= |s.primary.log|
    requires c.applied == st.lastApplied
    ensures CallInv(s, LoopHead(c, st))
  {
  }

  lemma ReceiveStatusInv(s: System, c: Call)
    requires CallInv(s, c) && c.pc.StatusReplied?
    ensures CallInv(s, ReceiveStatus(c, c.pc.status))
  {
    var st := c.pc.status;
    LoopHeadInv(s, c.(applied := st.lastApplied, first := st.lastApplied), st);
  }

  lemma ReceiveAckInv(s: System, c: Call)
    requires CallInv(s, c) && c.pc.AckReplied?
    ensures CallInv(s, ReceiveAck(c, c.pc.applied, c.pc.pull, c.pc.ack))
  {
    var applied, pull, ack := c.pc.applied, c.pc.pull, c.pc.ack;
    var next := c.(applied := Some(applied), pulls := c.pulls + 1, units := c.units + |pull.units|);
    assert Counted(next) && Knows(s, next, ack.status);
    var done := ReceiveAck(c, applied, pull, ack);
    if done == LoopHead(next, ack.status) {
      LoopHeadInv(s, next, ack.status);
    } else if done == Finish(next, ack.status, false) {
    } else {
      assert done == Throw(c, LocallyApplied(applied, pull));
    }
  }

  lemma ReceivePullInv(s: System, c: Call)
    requires CallInv(s, c) && c.pc.PullReplied?
    ensures CallInv(s, ReceivePull(c, c.pc.since, c.pc.reply))
  {
    hide Counted, Knows, Slice, PulledChunkOk;
    var next := ReceivePull(c, c.pc.since, c.pc.reply);
    Repositioned(s, c, next.pc, c.pc.reply.status);
  }

  lemma ServedPullInv(s: System, c: Call, reply: PullReply)
    requires Inv(s) && CallInv(s, c) && c.pc.PullSent? && PullAnswer(s.primary, c.pc.since, reply)
    ensures CallInv(s, c.(pc := PullReplied(c.pc.since, reply)))
  {
    var since := c.pc.since;
    assert s.primary.log[since..since] == [];
    assert Closed([]);
  }

  lemma FailInv(s: System, c: Call)
    requires CallInv(s, c)
    ensures CallInv(s, Fail(c))
  {
    hide Slice;
  }

  lemma MovedCall(s: System, t: System, id: nat, c: Call)
    requires Inv(s) && CallInv(s, c)
    requires t == Put(s.(orphans := t.orphans), id, c)
    requires forall r :: r in t.orphans ==> r.applied <= t.local.Lsn()
    ensures Inv(t) && Grows(s, t)
  {
    ReplicaGrows(s, t);
    CallInvGrows(s, t, c);
    InvFromParts(s, t, id);
  }

  /** Steps that move one call and nothing shared, apart from requests given up on. */
  lemma ServeStep(s: System, e: Event, t: System)
    requires Inv(s) && Step(s, e, t)
    requires e.GetWrite? || e.ServeStatus? || e.ServePull? || e.FailCall?
    ensures Inv(t) && Grows(s, t)
  {
    var c := s.calls[e.id];
    assert CallInv(s, c);
    match e {
      case GetWrite(_) =>
      case ServeStatus(_, status) => NotStaleMeansCaughtUp(s.primary, status);
      case ServePull(_, reply) => ServedPullInv(s, c, reply);
      case FailCall(_) => FailInv(s, c);
    }
    MovedCall(s, t, e.id, t.calls[e.id]);
  }

  lemma ReceiveStep(s: System, e: Event, t: System)
    requires Inv(s) && Step(s, e, t)
    requires e.GetStatus? || e.GetPull? || e.GetAck?
    ensures Inv(t) && Grows(s, t)
  {
    hide Knows, Counted, Slice, Replica;
    var c := s.calls[e.id];
    assert CallInv(s, c);
    match e {
      case GetStatus(_) =>
        ReceiveStatusInv(s, c);
        MovedCall(s, t, e.id, ReceiveStatus(c, c.pc.status));
      case GetPull(_) =>
        ReceivePullInv(s, c);
        MovedCall(s, t, e.id, ReceivePull(c, c.pc.since, c.pc.reply));
      case GetAck(_) =>
        ReceiveAckInv(s, c);
        MovedCall(s, t, e.id, ReceiveAck(c, c.pc.applied, c.pc.pull, c.pc.ack));
    }
  }

  /** An acknowledgement that is served moves the primary's cursor and nothing else shared. */
  lemma CursorMoved(s: System, t: System, applied: nat, observed: nat)
    requires Inv(s) && applied <= s.local.Lsn()
    requires Acknowledge(s.primary, applied, observed).Some?
    requires t == s.(primary := Acknowledge(s.primary, applied, observed).value.0, calls := t.calls)
    ensures t.primary.Valid() && Replica(t) && Grows(s, t)
    ensures t.primary.cursor.Some? ==> t.primary.cursor.value.lsn <= t.local.Lsn()
  {
    hide CallInv, StatusFor;
    ReplicaGrows(s, t);
  }

  lemma ServeAckStep(s: System, id: nat, t: System)
    requires Inv(s) && Step(s, ServeAck(id), t)
    ensures Inv(t) && Grows(s, t)
  {
    hide Counted, Replica, StatusFor;
    var c := s.calls[id];
    assert CallInv(s, c);
    CursorMoved(s, t, c.pc.applied, c.pc.pull.status.remoteLsn);
    AckedCallInv(s, t, c);
    InvFromParts(s, t, id);
  }

  lemma AckedCallInv(s: System, t: System, c: Call)
    requires CallInv(s, c) && c.pc.AckSent? && Grows(s, t)
    requires Acknowledge(s.primary, c.pc.applied, c.pc.pull.status.remoteLsn).Some?
    ensures var ack := Acknowledge(s.primary, c.pc.applied, c.pc.pull.status.remoteLsn).value.1;
            CallInv(t, c.(pc := AckReplied(c.pc.applied, c.pc.pull, ack)))
  {
    var ack := Acknowledge(s.primary, c.pc.applied, c.pc.pull.status.remoteLsn).value.1;
    CallInvGrows(s, t, c);
    Repositioned(t, c, AckReplied(c.pc.applied, c.pc.pull, ack), c.pc.pull.status);
  }

  lemma ServeOrphanStep(s: System, request: AckRequest, t: System)
    requires Inv(s) && Step(s, ServeOrphan(request), t)
    ensures Inv(t) && Grows(s, t)
  {
    hide CallInv, Replica, StatusFor;
    CursorMoved(s, t, request.applied, request.observed);
    forall i | i in t.calls ensures CallInv(t, t.calls[i]) {
      CallInvGrows(s, t, s.calls[i]);
    }
  }

  /** Replaying `k` units at the replica's LSN extends the prefix it holds. */
  lemma PrefixExtends(content: seq<Unit>, log: seq<Unit>, since: nat, units: seq<Unit>, k: nat)
    requires content <= log && since == |content| && k <= |units|
    requires since + |units| <= |log| && units == log[since..since + |units|]
    ensures content + units[..k] <= log
    ensures content + units <= log
  {
    assert content == log[..since];
    assert content + units[..k] == log[..since + k];
    assert content + units == log[..since + |units|];
  }

  lemma ClosedThrough(log: seq<Unit>, boot: nat, since: nat, units: seq<Unit>)
    requires boot <= since && since + |units| <= |log| && units == log[since..since + |units|]
    requires Closed(log[boot..since]) && Closed(units)
    ensures Closed(log[boot..since + |units|])
  {
    assert log[boot..since] + units == log[boot..since + |units|];
    ClosedConcat(log[boot..since], units);
  }

  lemma ReplicaAccepts(s: System, t: System, since: nat, units: seq<Unit>)
    requires Inv(s) && t == s.(local := t.local, calls := t.calls)
    requires units != [] && since + |units| <= |s.primary.log| && units == s.primary.log[since..since + |units|]
    requires ApplyChunk(s.local, since, units) == Some(t.local)
    ensures Replica(t) && Grows(s, t) && since + |units| <= t.local.Lsn()
  {
    AcceptedChunks(s.local, since, units);
    if since == s.local.Lsn() {
      PrefixExtends(s.local.content, s.primary.log, since, units, 0);
      ClosedThrough(s.primary.log, s.boot, since, units);
    }
  }

  lemma ReplicaInterrupted(s: System, t: System, since: nat, units: seq<Unit>, k: nat)
    requires Inv(s) && t == s.(local := t.local, calls := t.calls)
    requires units != [] && since + |units| <= |s.primary.log| && units == s.primary.log[since..since + |units|]
    requires Replays(s.local, since, units) && k <= |units| && t.local == Interrupt(s.local, since, units, k)
    ensures Replica(t) && Grows(s, t)
  {
    PrefixExtends(s.local.content, s.primary.log, since, units, k);
    ClosedThrough(s.primary.log, s.boot, since, units);
  }

  lemma AppliedCall(s: System, t: System, id: nat, c: Call)
    requires Inv(s) && Replica(t) && Grows(s, t)
    requires t == Put(s.(local := t.local), id, c)
    requires CallInv(t, c)
    ensures Inv(t)
  {
    InvFromParts(s, t, id);
  }

  lemma AppliedCallInv(t: System, c: Call)
    requires CallInv(t, c) && c.pc.Applying?
    ensures CallInv(t, Throw(c, PLAIN))
    ensures c.pc.since + |c.pc.reply.units| <= t.local.Lsn() ==>
              CallInv(t, c.(pc := AckSent(c.pc.since + |c.pc.reply.units|, c.pc.reply)))
  {
  }

  lemma ApplyStep(s: System, id: nat, t: System)
    requires Inv(s) && Step(s, Apply(id), t)
    ensures Inv(t) && Grows(s, t)
  {
    hide Knows, Counted, Replica, Closed;
    var c := s.calls[id];
    assert CallInv(s, c);
    var since, units := c.pc.since, c.pc.reply.units;
    if ApplyChunk(s.local, since, units).None? {
      AppliedCallInv(s, c);
      MovedCall(s, t, id, Throw(c, PLAIN));
    } else {
      ReplicaAccepts(s, t, since, units);
      CallInvGrows(s, t, c);
      AppliedCallInv(t, c);
      AppliedCall(s, t, id, c.(pc := AckSent(since + |units|, c.pc.reply)));
    }
  }

  lemma CrashStep(s: System, id: nat, k: nat, t: System)
    requires Inv(s) && Step(s, Crash(id, k), t)
    ensures Inv(t) && Grows(s, t)
  {
    hide Knows, Counted, Closed;
    var c := s.calls[id];
    assert CallInv(s, c);
    ReplicaInterrupted(s, t, c.pc.since, c.pc.reply.units, k);
    CallInvGrows(s, t, c);
    AppliedCallInv(t, c);
    AppliedCall(s, t, id, Throw(c, PLAIN));
  }

  lemma StepKeepsInv(s: System, e: Event, t: System)
    requires Inv(s) && Step(s, e, t)
    ensures Inv(t) && Grows(s, t)
  {
    hide Inv, Step, Grows;
    match e {
      case Apply(id) => ApplyStep(s, id, t);
      case Crash(id, k) => CrashStep(s, id, k, t);
      case ServeAck(id) => ServeAckStep(s, id, t);
      case ServeOrphan(request) => ServeOrphanStep(s, request, t);
      case GetWrite(_) => ServeStep(s, e, t);
      case ServeStatus(_, _) => ServeStep(s, e, t);
      case GetStatus(_) => ReceiveStep(s, e, t);
      case ServePull(_, _) => ServeStep(s, e, t);
      case GetPull(_) => ReceiveStep(s, e, t);
      case GetAck(_) => ReceiveStep(s, e, t);
      case FailCall(_) => ServeStep(s, e, t);
      case _ => LogStep(s, e, t);
    }
  }

  // ---------- whole runs ----------

  ghost predicate IsRun(run: seq<System>, events: seq<Event>) {
    && |run| == |events| + 1
    && Init(run[0])
    && forall i :: 0 <= i < |events| ==> Step(run[i], events[i], run[i + 1])
  }

  lemma {:induction false} RunInv(run: seq<System>, events: seq<Event>, i: nat)
    requires IsRun(run, events) && i < |run|
    ensures Inv(run[i])
    ensures i > 0 ==> Grows(run[i - 1], run[i])
  {
    if i == 0 {
      InitInv(run[0]);
    } else {
      RunInv(run, events, i - 1);
      StepKeepsInv(run[i - 1], events[i - 1], run[i]);
    }
  }

  lemma {:induction false} GrowsAlong(run: seq<System>, i: nat, j: nat)
    requires i <= j < |run|
    requires forall k :: 0 < k < |run| ==> Grows(run[k - 1], run[k])
    ensures Grows(run[i], run[j])
    decreases j
  {
    if i < j {
      GrowsAlong(run, i, j - 1);
      GrowsTransitive(run[i], run[j - 1], run[j]);
    }
  }

  lemma RunGrows(run: seq<System>, events: seq<Event>, i: nat, j: nat)
    requires IsRun(run, events) && i <= j < |run|
    ensures Grows(run[i], run[j])
  {
    forall k | 0 < k < |run| ensures Grows(run[k - 1], run[k]) {
      RunInv(run, events, k);
    }
    GrowsAlong(run, i, j);
  }

  lemma GrowsTransitive(a: System, b: System, c: System)
    requires Grows(a, b) && Grows(b, c)
    ensures Grows(a, c)
  {
  }

  /**
   No loss and no gap: whatever fails, overlaps or crashes, the replica's content is exactly a
   prefix of the primary's log, and the primary never believes more was applied than was.
   */
  lemma NoLossNoGap(run: seq<System>, events: seq<Event>, i: nat)
    requires IsRun(run, events) && i < |run|
    ensures run[i].local.content <= run[i].primary.log
    ensures run[i].primary.cursor.Some? ==> run[i].primary.cursor.value.lsn <= run[i].local.Lsn()
  {
    RunInv(run, events, i);
  }

  /**
   Read your writes: once a `write` reports `localVisible`, the replica holds every unit up to and
   including that commit, at that moment and at every later one.
   */
  lemma ReadYourWrites(run: seq<System>, events: seq<Event>, i: nat, j: nat, id: nat)
    requires IsRun(run, events) && i <= j < |run|
    requires id in run[i].calls && LocalVisible(run[i].calls[id])
    ensures var w := run[i].calls[id].commit.value;
            && w <= run[i].local.Lsn() <= run[j].local.Lsn()
            && w <= |run[i].primary.log|
            && run[j].local.content[..w] == run[i].primary.log[..w]
  {
    RunInv(run, events, i);
    assert CallInv(run[i], run[i].calls[id]);
    RunGrows(run, events, i, j);
    RunInv(run, events, j);
  }

  /**
   When a `write` reports its commit visible. A sync that returned makes it so if and only if the last
   status has the replica at the end of the primary's log. A sync that failed makes it so if and only if
   it failed after a chunk was applied, while acknowledging it, and that chunk reached as far as the
   primary's log did when it was pulled.
   */
  lemma VisibleExactly(run: seq<System>, events: seq<Event>, i: nat, id: nat)
    requires IsRun(run, events) && i < |run| && id in run[i].calls && run[i].calls[id].commit.Some?
    ensures var c := run[i].calls[id];
            c.pc.Returned? ==> (LocalVisible(c) <==> c.pc.summary.status.lastApplied == Some(c.pc.summary.status.remoteLsn))
    ensures i < |events| && !Over(run[i].calls[id].pc) && id in run[i + 1].calls && run[i + 1].calls[id].pc.Threw? ==>
              (LocalVisible(run[i + 1].calls[id]) <==> ReachedEnd(run[i].calls[id].pc))
  {
    hide Init, Replica, Step;
    RunInv(run, events, i);
    assert CallInv(run[i], run[i].calls[id]);
    if i < |events| {
      assert Step(run[i], events[i], run[i + 1]);
      if !Over(run[i].calls[id].pc) && id in run[i + 1].calls && run[i + 1].calls[id].pc.Threw? {
        ThrowVisible(run[i], events[i], run[i + 1], id);
      }
    }
  }

  predicate Over(pc: Pc) {
    pc.Returned? || pc.Threw? || pc.WriteFailed? || pc.Deferred?
  }

  /** The chunk is applied, awaits acknowledgement, and reaches as far as the log did. */
  predicate ReachedEnd(pc: Pc) {
    match pc
    case AckSent(applied, pull) => applied == pull.status.remoteLsn
    case AckReplied(applied, pull, _) => applied == pull.status.remoteLsn
    case _ => false
  }

  lemma FailureVisible(s: System, c: Call)
    requires CallInv(s, c) && c.commit.Some?
    ensures !Over(c.pc) ==> (LocalVisible(Fail(c)) <==> ReachedEnd(c.pc))
    ensures c.pc.AckReplied? ==>
              var d := ReceiveAck(c, c.pc.applied, c.pc.pull, c.pc.ack);
              d.pc.Threw? ==> (LocalVisible(d) <==> ReachedEnd(c.pc))
  {
    hide Counted, Slice;
  }

  /** A call throws in one of these ways. */
  lemma ThrowVisible(s: System, e: Event, t: System, id: nat)
    requires Step(s, e, t) && id in s.calls && CallInv(s, s.calls[id]) && s.calls[id].commit.Some?
    requires !Over(s.calls[id].pc) && id in t.calls && t.calls[id].pc.Threw?
    ensures LocalVisible(t.calls[id]) <==> ReachedEnd(s.calls[id].pc)
  {
    hide CallInv, ApplyChunk, StatusReply, PullAnswer, LoopHead, ReceivePull;
    var c := s.calls[id];
    FailureVisible(s, c);
    PlainThrows(c);
  }

  lemma PlainThrows(c: Call)
    ensures !LocalVisible(Throw(c, PLAIN))
    ensures forall st :: LoopHead(c, st).pc.Threw? ==> !LocalVisible(LoopHead(c, st))
    ensures forall st :: ReceiveStatus(c, st).pc.Threw? ==> !LocalVisible(ReceiveStatus(c, st))
    ensures forall since, reply :: ReceivePull(c, since, reply).pc.Threw? ==> !LocalVisible(ReceivePull(c, since, reply))
  {
  }

  /**
   A local read never shows half a transaction, unless a crash interrupted an apply: every row
   change applied since the bootstrap is followed by its commit or rollback.
   */
  lemma WholeTransactions(run: seq<System>, events: seq<Event>, i: nat, k: nat)
    requires IsRun(run, events) && i < |run|
    requires run[i].local.state.Some? && run[i].local.state.value.complete
    requires run[i].boot <= k < run[i].local.Lsn() && run[i].local.content[k].IsRow()
    ensures exists m :: k < m < run[i].local.Lsn() && run[i].local.content[m].Ends(run[i].local.content[k].txId)
  {
    hide CallInv, Scan, Step;
    RunInv(run, events, i);
    var s := run[i];
    var recent := s.local.content[s.boot..];
    assert recent == s.primary.log[s.boot..s.local.Lsn()];
    ClosedEndsEveryTransaction(recent, k - s.boot);
    var m :| k - s.boot < m < |recent| && recent[m].Ends(recent[k - s.boot].txId);
    assert s.local.content[s.boot + m] == recent[m];
  }

  /**
   Every `syncNow` is bounded and accounts for what it did: at most `maxRounds` pulls, each of at
   least one unit, and the units it reports are exactly how far it moved the LSN. This needs no
   assumption about other calls running at the same time.
   */
  lemma SyncBoundAndConservation(run: seq<System>, events: seq<Event>, i: nat, id: nat)
    requires IsRun(run, events) && i < |run|
    requires id in run[i].calls && run[i].calls[id].pc.Returned?
    ensures var c := run[i].calls[id];
            var sum := c.pc.summary;
            && sum.pulls <= c.maxRounds
            && sum.pulls <= sum.units
            && (sum.appliedLsn.Some? ==> c.first.Some? && sum.units == sum.appliedLsn.value - c.first.value)
            && (sum.appliedLsn.None? ==> sum.units == 0)
  {
    RunInv(run, events, i);
    assert CallInv(run[i], run[i].calls[id]);
  }

  lemma AcceptedAckAdvances(s: System, c: Call)
    requires CallInv(s, c) && c.pc.AckReplied?
    ensures var d := ReceiveAck(c, c.pc.applied, c.pc.pull, c.pc.ack);
            !d.pc.Threw? ==>
              && c.applied.Some? && d.applied.Some? && c.applied.value < d.applied.value
              && d.pulls == c.pulls + 1 && d.units - c.units == d.applied.value - c.applied.value
  {
    hide Counted, Knows, Slice;
  }

  /** Every round that ends in an accepted acknowledgement moves the applied LSN strictly forward. */
  lemma EveryRoundAdvances(run: seq<System>, events: seq<Event>, i: nat, id: nat)
    requires IsRun(run, events) && i < |events| && events[i] == GetAck(id)
    requires id in run[i].calls && id in run[i + 1].calls && !run[i + 1].calls[id].pc.Threw?
    ensures var c, d := run[i].calls[id], run[i + 1].calls[id];
            && c.applied.Some? && d.applied.Some? && c.applied.value < d.applied.value
            && d.pulls == c.pulls + 1 && d.units - c.units == d.applied.value - c.applied.value
  {
    hide CallInv, Replica;
    RunInv(run, events, i);
    assert CallInv(run[i], run[i].calls[id]);
    assert Step(run[i], events[i], run[i + 1]);
    AcceptedAckAdvances(run[i], run[i].calls[id]);
  }
}
