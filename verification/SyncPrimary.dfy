/**
 The primary's half of embedded sync: the replica cursor, the status computed from it, the pull
 answer and the acknowledgement.
 */
module SyncPrimary {
  import opened Wrappers
  import opened SyncHistory

  const MAX_ACK_UNITS := 262_144

  datatype RepairAction = NoRepair | PullRepair | AwaitArchive | Rebootstrap

  datatype Cursor = Cursor(lsn: nat, active: bool)

  /**
   `log[i]` is the unit with LSN `i + 1`, so the primary's LSN is `|log|`. Units with LSN in
   `(floor, archived]` are in retained segments; older ones are pruned, newer ones only in the WAL.
   */
  datatype Primary = Primary(log: seq<Unit>, floor: nat, archived: nat, cursor: Option<Cursor>) {
    ghost predicate Valid() {
      && floor <= archived <= |log|
      && forall i :: 0 <= i < |log| ==> log[i].lsn == i + 1
    }
  }

  datatype Status = Status(active: bool, lastApplied: Option<nat>, remoteLsn: nat, servable: Option<nat>,
                           stale: bool, repair: RepairAction)

  /** The last LSN retained without a gap after `lsn`; `None` when history after `lsn` was pruned. */
  function ContiguousThrough(p: Primary, lsn: nat): Option<nat> {
    if p.archived <= lsn || p.floor >= p.archived then Some(lsn)
    else if p.floor > lsn then None
    else Some(p.archived)
  }

  function StatusFor(p: Primary, cursor: Option<Cursor>): Status {
    var remote := |p.log|;
    match cursor
    case None => Status(false, None, remote, None, true, Rebootstrap)
    case Some(c) =>
      if !c.active then Status(false, Some(c.lsn), remote, None, true, Rebootstrap)
      else if c.lsn > remote then Status(true, Some(c.lsn), remote, None, true, Rebootstrap)
      else if c.lsn == remote then Status(true, Some(c.lsn), remote, Some(remote), false, NoRepair)
      else match ContiguousThrough(p, c.lsn)
        case None => Status(true, Some(c.lsn), remote, None, true, Rebootstrap)
        case Some(through) =>
          Status(true, Some(c.lsn), remote, Some(through), true,
                 if through > c.lsn then PullRepair else AwaitArchive)
  }

  /** A status the handler may send: the computed one, or the same one turned into a rebootstrap. */
  ghost predicate StatusReply(p: Primary, st: Status) {
    var computed := StatusFor(p, p.cursor);
    st == computed || (computed.repair == PullRepair && st == computed.(stale := true, repair := Rebootstrap))
  }

  datatype PullReply = PullReply(status: Status, units: seq<Unit>, hasMore: bool)

  /** The answers the primary may give to a pull from `since`. Refusals are failed calls. */
  ghost predicate PullAnswer(p: Primary, since: nat, reply: PullReply) {
    var st := StatusFor(p, p.cursor);
    if st.repair != PullRepair then reply == PullReply(st, [], false)
    else
      && p.cursor == Some(Cursor(since, true))
      && (|| reply == PullReply(st.(stale := true, repair := Rebootstrap), [], false)
          || (&& reply.status == st
              && since + |reply.units| <= st.servable.value && since + |reply.units| <= |p.log|
              && reply.units == p.log[since..since + |reply.units|]
              && Closed(reply.units)
              && reply.hasMore == (reply.units != [] && since + |reply.units| < st.servable.value)))
  }

  const MAX_PULL_UNITS := 4096
  const MAX_PULL_BYTES := 16 * 1024 * 1024
  const READ_BATCH_UNITS := 4096

  /** The retained units after the cursor, while the primary has some to serve. */
  function Tail(p: Primary, since: nat): seq<Unit>
    requires since <= p.archived <= |p.log|
  {
    p.log[since..p.archived]
  }

  /** A pull is due: the cursor is active at `since` and history after it is retained. */
  predicate PullDue(p: Primary, since: nat) {
    p.cursor == Some(Cursor(since, true)) && StatusFor(p, p.cursor).repair == PullRepair
  }

  lemma PullDueMeans(p: Primary, since: nat)
    requires PullDue(p, since)
    ensures p.floor <= since < p.archived && StatusFor(p, p.cursor).servable == Some(p.archived)
  {
  }

  /**
   What the primary answers when a pull is due: a rebootstrap if and only if a unit within the
   budgets is inapplicable or the first transaction does not fit them, and otherwise the longest
   servable prefix. The number of units the request asks for has no part in it.
   */
  ghost predicate PullServes(p: Primary, since: nat, maxBytes: nat, reply: PullReply)
    requires since <= p.archived <= |p.log|
  {
    var st, tail := StatusFor(p, p.cursor), Tail(p, since);
    if Inapplicable(tail, MAX_PULL_UNITS, maxBytes) || Oversized(tail, MAX_PULL_UNITS, maxBytes) then
      reply == PullReply(st.(stale := true, repair := Rebootstrap), [], false)
    else
      && reply.status == st && reply.units <= tail
      && Longest(tail, |reply.units|, MAX_PULL_UNITS, maxBytes)
      && reply.hasMore == (reply.units != [] && since + |reply.units| < p.archived)
  }

  /**
   Answer a pull. A refusal is `None`: the budgets are out of bounds, or `since` is not the cursor.
   Otherwise the answer is one a replica may rely on, and when a pull is due it is exactly the one
   `PullServes` describes; an empty chunk then means that no transaction is complete yet.
   */
  method AnswerPull(p: Primary, since: nat, maxUnits: nat, maxBytes: nat) returns (r: Option<PullReply>)
    requires p.Valid()
    ensures r.Some? ==> PullAnswer(p, since, r.value)
    ensures r.None? <==>
              || !(1 <= maxUnits <= MAX_PULL_UNITS) || !(1 <= maxBytes <= MAX_PULL_BYTES)
              || (StatusFor(p, p.cursor).repair == PullRepair && p.cursor != Some(Cursor(since, true)))
    ensures r.Some? && PullDue(p, since) ==> since <= p.archived && PullServes(p, since, maxBytes, r.value)
    ensures r.Some? && r.value.status.repair == PullRepair && r.value.units == [] ==>
              forall k :: since < k <= p.archived ==> !Closed(p.log[since..k])
  {
    hide Closed, Inapplicable, Oversized;
    if maxUnits < 1 || maxUnits > MAX_PULL_UNITS || maxBytes < 1 || maxBytes > MAX_PULL_BYTES {
      return None;
    }
    var st := StatusFor(p, p.cursor);
    if st.repair != PullRepair {
      return Some(PullReply(st, [], false));
    }
    if st.lastApplied != Some(since) {
      return None;
    }
    PullDueMeans(p, since);
    var servable := st.servable.value;
    var tail := p.log[since..servable];
    var chunk := BuildPullChunk(tail, maxUnits, MAX_PULL_UNITS, maxBytes, READ_BATCH_UNITS);
    match chunk {
      case Unservable =>
        r := Some(PullReply(st.(stale := true, repair := Rebootstrap), [], false));
      case Units(units) =>
        assert units == tail[..|units|];
        SlicePrefix(p.log, since, servable, |units|);
        r := Some(PullReply(st, units, units != [] && since + |units| < servable));
        if units == [] {
          NothingClosed(tail, MAX_PULL_UNITS, maxBytes);
          forall k | since < k <= servable ensures !Closed(p.log[since..k]) {
            SlicePrefix(p.log, since, servable, k - since);
          }
        }
    }
  }

  lemma SlicePrefix(log: seq<Unit>, from: nat, to: nat, n: nat)
    requires from + n <= to <= |log|
    ensures log[from..to][..n] == log[from..from + n]
  {
  }

  lemma NothingClosed(tail: seq<Unit>, maxUnits: nat, maxBytes: nat)
    requires Fits(tail, |tail|, maxUnits, maxBytes)
    requires forall j :: 0 < j <= |tail| ==> !Servable(tail, j, maxUnits, maxBytes)
    ensures forall j :: 0 < j <= |tail| ==> !Closed(tail[..j])
  {
    forall j | 0 < j <= |tail| ensures !Closed(tail[..j]) {
      EncodedBytesMonotone(tail, j, |tail|);
      assert !Servable(tail, j, maxUnits, maxBytes);
    }
  }

  datatype AckReply = AckReply(previous: nat, applied: nat, remoteLsn: nat, advanced: bool, status: Status)

  /** The range from the cursor to `applied` is fully retained and cuts no transaction. */
  predicate AckCoversRange(p: Primary, from: nat, applied: nat) {
    applied <= from ||
    (applied - from <= MAX_ACK_UNITS && p.floor <= from && applied <= p.archived && applied <= |p.log| &&
     Closed(p.log[from..applied]))
  }

  /** Advance the cursor to what the replica says it applied; `None` when the primary refuses. */
  function Acknowledge(p: Primary, applied: nat, observed: nat): (r: Option<(Primary, AckReply)>)
    ensures r.Some? ==>
              && p.cursor.Some? && p.cursor.value.lsn <= applied <= observed <= |p.log|
              && r.value.0 == p.(cursor := Some(Cursor(applied, true)))
              && r.value.1.status.lastApplied == Some(applied)
  {
    if applied > observed || observed > |p.log| then None
    else match p.cursor
      case None => None
      case Some(c) =>
        if !AckCoversRange(p, c.lsn, applied) || !c.active || applied < c.lsn then None
        else
          var next := p.(cursor := Some(Cursor(applied, true)));
          Some((next, AckReply(c.lsn, applied, |p.log|, applied > c.lsn, StatusFor(p, next.cursor))))
  }

  /** A status that is not stale says the cursor has caught up with the whole log. */
  lemma NotStaleMeansCaughtUp(p: Primary, st: Status)
    requires StatusReply(p, st)
    ensures st.remoteLsn == |p.log|
    ensures st.lastApplied == if p.cursor.Some? then Some(p.cursor.value.lsn) else None
    ensures !st.stale <==> p.cursor == Some(Cursor(|p.log|, true))
  {
  }

  // ---------- when to pull, when to wait, when an acknowledgement counts ----------

  /** The unit with this LSN is in the retained segments. */
  predicate Retained(p: Primary, lsn: nat) {
    p.floor < lsn <= p.archived
  }

  /**
   What a status tells a replica to do: nothing exactly at the end of the log, pull exactly when the next
   unit is retained, wait exactly when no later unit is, and otherwise start over.
   */
  lemma RepairMeans(p: Primary, cursor: Option<Cursor>)
    requires p.Valid()
    ensures var st := StatusFor(p, cursor);
            var behind := cursor.Some? && cursor.value.active && cursor.value.lsn < |p.log|;
            && (st.repair == NoRepair <==> cursor == Some(Cursor(|p.log|, true)))
            && (st.repair == PullRepair <==> behind && Retained(p, cursor.value.lsn + 1))
            && (st.repair == AwaitArchive <==> behind && forall n: nat :: n > cursor.value.lsn ==> !Retained(p, n))
            && (st.stale <==> st.repair != NoRepair)
            && (st.repair == PullRepair ==> st.servable == Some(p.archived))
  {
    if cursor.Some? && cursor.value.active && cursor.value.lsn < |p.log| {
      assert Retained(p, p.archived) <==> p.floor < p.archived;
      assert forall n: nat :: Retained(p, n) ==> n <= p.archived && p.floor < p.archived;
    }
  }

  /**
   An acknowledgement is accepted if and only if the cursor is active, it moves forward within what the
   replica observed of the log, and every unit it covers is retained and no transaction is cut.
   */
  lemma AcceptedAcknowledgements(p: Primary, applied: nat, observed: nat)
    requires p.Valid()
    ensures Acknowledge(p, applied, observed).Some? <==>
            && p.cursor.Some? && p.cursor.value.active
            && p.cursor.value.lsn <= applied <= observed <= |p.log|
            && (applied > p.cursor.value.lsn ==>
                  && applied - p.cursor.value.lsn <= MAX_ACK_UNITS
                  && (forall n: nat :: p.cursor.value.lsn < n <= applied ==> Retained(p, n))
                  && Closed(p.log[p.cursor.value.lsn..applied]))
  {
    hide Closed;
    if p.cursor.Some? && applied > p.cursor.value.lsn {
      var from := p.cursor.value.lsn;
      if forall n: nat :: from < n <= applied ==> Retained(p, n) {
        assert Retained(p, from + 1) && Retained(p, applied);
      }
    }
  }

  /** A chunk the primary served is acknowledged, as long as the cursor and the chunk are still there. */
  lemma ServedChunkIsAcknowledged(p: Primary, since: nat, maxBytes: nat, reply: PullReply, q: Primary)
    requires p.Valid() && PullDue(p, since) && since <= p.archived && PullServes(p, since, maxBytes, reply)
    requires reply.units != []
    requires q.Valid() && p.log <= q.log && p.archived <= q.archived && q.floor <= since && q.cursor == p.cursor
    ensures Acknowledge(q, since + |reply.units|, reply.status.remoteLsn).Some?
  {
    hide Closed, Inapplicable, Oversized;
    PullDueMeans(p, since);
    var n := |reply.units|;
    assert Longest(Tail(p, since), n, MAX_PULL_UNITS, maxBytes);
    assert Tail(p, since)[..n] == q.log[since..since + n];
    AcceptedAcknowledgements(q, since + n, reply.status.remoteLsn);
  }
}
