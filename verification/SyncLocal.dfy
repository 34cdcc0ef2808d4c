/**
 The replica's half of embedded sync: applying one pulled chunk to the local database, with the
 apply-state record that survives a crash.
 */
module SyncLocal {
  import opened Wrappers
  import opened SyncHistory

  datatype ApplyState = ApplyState(from: nat, through: nat, applied: nat, complete: bool)

  /** `content` is every unit the local catalog holds, so the catalog's LSN is `|content|`. */
  datatype Local = Local(content: seq<Unit>, state: Option<ApplyState>) {
    function Lsn(): nat { |content| }

    /**
     What every run leaves behind: a completed range ends exactly at the catalog's LSN, and an
     interrupted one leaves the catalog somewhere inside the range it was applying.
     */
    predicate Coherent() {
      && state.Some?
      && var st := state.value;
         if st.complete then st.from <= st.through == st.applied == Lsn()
         else st.from == st.applied <= Lsn() <= st.through
    }
  }

  predicate Contiguous(since: nat, units: seq<Unit>) {
    forall i :: 0 <= i < |units| ==> units[i].lsn == since + 1 + i
  }

  /** Where applying must resume, from the catalog's LSN and the apply-state record. */
  function Reconcile(l: Local, since: nat, through: nat): Option<nat> {
    var current := l.Lsn();
    match l.state
    case None => if current == since || current == through then Some(current) else None
    case Some(st) =>
      if st.complete then
        if st.applied > current then None
        else if current == since || current == through then Some(current) else None
      else if st.from != since || st.through != through then
        if current == since && st.applied <= current <= st.through then Some(current) else None
      else if current == st.through then Some(current)
      else if current != st.applied then None
      else Some(st.applied)
  }

  predicate TrustedStart(l: Local, since: nat) {
    l.state.Some? && l.state.value.applied == since && l.Lsn() == since
  }

  predicate TrustedTarget(l: Local, since: nat, through: nat) {
    && l.state.Some?
    && var st := l.state.value;
       && st.from == since && st.through == through && l.Lsn() == through
       && (if st.complete then st.applied == through else st.applied == since)
  }

  /** The chunk gets past every check and its records are replayed. */
  predicate Replays(l: Local, since: nat, units: seq<Unit>) {
    && units != [] && Contiguous(since, units)
    && Reconcile(l, since, since + |units|) == Some(since)
    && TrustedStart(l, since)
    && Closed(units)
  }

  /** Apply one pulled chunk; `None` when the local database refuses it. */
  function ApplyChunk(l: Local, since: nat, units: seq<Unit>): Option<Local> {
    var through := since + |units|;
    if !Contiguous(since, units) then None
    else match Reconcile(l, since, through)
      case None => None
      case Some(resume) =>
        var done := Some(ApplyState(since, through, through, true));
        if units == [] then
          if resume == since && TrustedStart(l, since) then Some(l.(state := done)) else None
        else if resume == through then
          if TrustedTarget(l, since, through) then Some(l.(state := done)) else None
        else if resume != since then None
        else if TrustedStart(l, since) && Closed(units) then Some(Local(l.content + units, done))
        else None
  }

  /** A crash after `k` records of a chunk: the intent is on disk and the catalog stops inside it. */
  function Interrupt(l: Local, since: nat, units: seq<Unit>, k: nat): Local
    requires k <= |units|
  {
    Local(l.content + units[..k], Some(ApplyState(since, since + |units|, since, false)))
  }

  /**
   Exactly which chunks a coherent replica accepts: one that starts at its LSN, when that LSN is
   the boundary on record, or a replay of the very range on record when the catalog already holds
   all of it.
   */
  lemma AcceptedChunks(l: Local, since: nat, units: seq<Unit>)
    requires l.Coherent() && units != [] && Contiguous(since, units)
    ensures ApplyChunk(l, since, units).Some? <==>
            || (since == l.Lsn() == l.state.value.applied && Closed(units))
            || (since == l.state.value.from && since + |units| == l.state.value.through == l.Lsn())
    ensures ApplyChunk(l, since, units).Some? ==>
              ApplyChunk(l, since, units).value.Coherent() &&
              ApplyChunk(l, since, units).value.content ==
              if since == l.Lsn() then l.content + units else l.content
  {
    var st := l.state.value;
    if since == l.Lsn() {
      assert Reconcile(l, since, since + |units|).Some? ==>
               Reconcile(l, since, since + |units|) == Some(since) || st.applied == since;
    }
  }

  /**
   After an acknowledgement is lost, the primary's cursor still says `since`. Pulling again from
   there works if and only if the new chunk ends exactly where the applied one did: a chunk grown
   by later writes is refused, and so is a shorter one.
   */
  lemma RetryAfterLostAck(l: Local, since: nat, units: seq<Unit>, again: seq<Unit>)
    requires l.Coherent() && units != [] && again != []
    requires Replays(l, since, units)
    requires Contiguous(since, again)
    ensures var applied := ApplyChunk(l, since, units).value;
            ApplyChunk(applied, since, again).Some? <==> |again| == |units|
  {
    AcceptedChunks(l, since, units);
    AcceptedChunks(ApplyChunk(l, since, units).value, since, again);
  }

  /**
   After a crash inside a chunk, retrying that chunk works if and only if the catalog recovered at
   one of its two ends; strictly inside, no chunk at all is accepted, from any start.
   */
  lemma RetryAfterCrash(l: Local, since: nat, units: seq<Unit>, k: nat)
    requires l.Coherent() && Replays(l, since, units) && k <= |units|
    ensures var crashed := Interrupt(l, since, units, k);
            && crashed.Coherent()
            && (ApplyChunk(crashed, since, units).Some? <==> k == 0 || k == |units|)
            && (0 < k < |units| ==>
                  forall s: nat, us: seq<Unit> :: us != [] ==> ApplyChunk(crashed, s, us).None?)
  {
    var crashed := Interrupt(l, since, units, k);
    AcceptedChunks(crashed, since, units);
    forall s: nat, us: seq<Unit> | us != [] && 0 < k < |units|
      ensures ApplyChunk(crashed, s, us).None?
    {
      if Contiguous(s, us) {
        AcceptedChunks(crashed, s, us);
      }
    }
  }
}
