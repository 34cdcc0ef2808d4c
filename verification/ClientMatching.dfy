/**
 What every run of the client keeps: replies go to the request that asked for them, the in-flight
 window holds, and a request aborted while it waits is never written.
 */
module ClientMatching {
  import opened Bytes
  import opened Wrappers
  import opened ClientSpec

  function Ids(rs: seq<Req>): (ids: seq<nat>)
    ensures |ids| == |rs|
  {
    seq(|rs|, i requires 0 <= i < |rs| => rs[i].id)
  }

  /** The requests written, in order. */
  function Requests(wire: seq<Sent>): seq<nat> {
    if wire == [] then []
    else
      var before := Requests(wire[..|wire| - 1]);
      match wire[|wire| - 1]
      case Request(id) => before + [id]
      case _ => before
  }

  lemma RequestsNext(wire: seq<Sent>, x: Sent)
    ensures Requests(wire + [x]) == if x.Request? then Requests(wire) + [x.id] else Requests(wire)
  {
    assert (wire + [x])[..|wire|] == wire;
  }

  predicate Ascending(ids: seq<nat>) {
    forall i, j :: 0 <= i < j < |ids| ==> ids[i] < ids[j]
  }

  predicate Below(ids: seq<nat>, n: nat) {
    forall i :: 0 <= i < |ids| ==> ids[i] < n
  }

  /** Requests are written in the order they were made, and `pending` is the unanswered end of them. */
  predicate Fifo(s: State) {
    && Ascending(Requests(s.wire) + Ids(s.queued))
    && Below(Requests(s.wire) + Ids(s.queued), s.nextId)
    && |s.replies| <= |Requests(s.wire)|
    && (s.closeError.None? ==> Ids(s.pending) == Requests(s.wire)[|s.replies|..])
    && (s.closeError.Some? ==> Dead(s))
  }

  /** The request that got this frame settled with it, unless it had been aborted. */
  predicate Answered(judge: Judge, results: map<nat, Outcome>, id: nat, f: Frame) {
    && id in results
    && match results[id]
       case Replied(g) => g == f && judge(f) == IsReply
       case TooLarge(g) => g == f && judge(f) == IsTooLarge
       case Aborted => true
       case Closed(_) => false
  }

  /** No frame came for this request. */
  predicate Unanswered(results: map<nat, Outcome>, id: nat, down: bool) {
    && (id in results ==> results[id] == Aborted || (down && results[id].Closed?))
    && (down ==> id in results)
  }

  predicate Own(judge: Judge, s: State)
    requires |s.replies| <= |Requests(s.wire)|
  {
    var asked := Requests(s.wire);
    && (forall k :: 0 <= k < |s.replies| ==> Answered(judge, s.results, asked[k], s.replies[k]))
    && (forall k :: |s.replies| <= k < |asked| ==> Unanswered(s.results, asked[k], s.closeError.Some?))
    && (forall id :: id in Ids(s.queued) ==> Unanswered(s.results, id, false))
    && (forall id :: 0 <= id < s.nextId && id !in asked && id !in Ids(s.queued) ==>
          id in s.results && (s.results[id] == Aborted || s.results[id].Closed?))
    && (forall id :: id in s.results ==> id < s.nextId)
  }

  /** What the window bounds, while requests are being moved into it. */
  predicate Bounded(s: State) {
    && s.window >= 1 && |s.pending| <= s.window
    && (|s.pending| <= 1 || Size(s.pending) < MAX_IN_FLIGHT_BYTES)
  }

  /** Requests wait only while others are unanswered, and a live head of the queue only for lack of room. */
  predicate Window(s: State) {
    && Bounded(s)
    && (s.queued != [] ==> s.pending != [])
    && (s.queued != [] && s.queued[0].id !in s.results ==> |s.pending| == s.window || OverBudget(s))
  }

  predicate Inv(judge: Judge, s: State) {
    Fifo(s) && Own(judge, s) && Window(s)
  }

  // ---------- pumping ----------

  lemma AdvanceRequests(s: State)
    requires s.queued != []
    ensures var t := Advance(s);
            Requests(t.wire) == if s.queued[0].id in s.results then Requests(s.wire) else Requests(s.wire) + [s.queued[0].id]
    ensures Ids(Advance(s).queued) == Ids(s.queued)[1..]
  {
    RequestsNext(s.wire, Request(s.queued[0].id));
  }

  lemma AscendingDrop(ids: seq<nat>, k: nat)
    requires Ascending(ids) && k < |ids|
    ensures Ascending(ids[..k] + ids[k + 1..])
    ensures forall n :: Below(ids, n) ==> Below(ids[..k] + ids[k + 1..], n)
  {
    var rest := ids[..k] + ids[k + 1..];
    assert forall i :: 0 <= i < |rest| ==> rest[i] == if i < k then ids[i] else ids[i + 1];
  }

  lemma AdvanceFifo(s: State)
    requires Fifo(s) && s.queued != []
    ensures Fifo(Advance(s))
  {
    hide Requests;
    AdvanceRequests(s);
    var t, id := Advance(s), s.queued[0].id;
    var all := Requests(s.wire) + Ids(s.queued);
    assert all[|Requests(s.wire)|] == id;
    var now := Requests(t.wire) + Ids(t.queued);
    if id in s.results {
      AscendingDrop(all, |Requests(s.wire)|);
      assert now == all[..|Requests(s.wire)|] + all[|Requests(s.wire)| + 1..];
    } else {
      assert now == all;
      assert Ids(t.pending) == Ids(s.pending) + [id];
    }
  }

  lemma AdvanceOwn(judge: Judge, s: State)
    requires Fifo(s) && Own(judge, s) && s.queued != []
    ensures |s.replies| <= |Requests(Advance(s).wire)| && Own(judge, Advance(s))
  {
    hide Requests;
    AdvanceRequests(s);
    var t, id := Advance(s), s.queued[0].id;
    assert Ids(s.queued)[0] == id;
    assert forall x :: x in Ids(s.queued) <==> x == id || x in Ids(t.queued);
  }

  lemma AdvanceBounded(s: State)
    requires Bounded(s) && s.queued != [] && |s.pending| < s.window && !OverBudget(s)
    ensures Bounded(Advance(s))
  {
    var next := s.queued[0];
    assert (s.pending + [next])[..|s.pending|] == s.pending;
  }

  lemma {:induction false} PumpInv(judge: Judge, s: State)
    requires Fifo(s) && Own(judge, s) && Bounded(s)
    ensures Inv(judge, Pump(s))
    decreases |s.queued|
  {
    hide Fifo, Own, Bounded;
    if s.queued == [] || |s.pending| >= s.window || OverBudget(s) {
      BoundedFacts(s);
    } else {
      AdvanceFifo(s);
      AdvanceOwn(judge, s);
      AdvanceBounded(s);
      PumpInv(judge, Advance(s));
    }
  }

  lemma BoundedFacts(s: State)
    requires Bounded(s)
    ensures s.window >= 1 && |s.pending| <= s.window
  {
  }

  // ---------- the other steps ----------

  lemma AbortInv(judge: Judge, s: State, id: nat)
    requires Inv(judge, s)
    ensures Inv(judge, Abort(s, id))
  {
    hide Requests, Ascending, Size;
  }

  function Queue(s: State, size: nat): State {
    s.(queued := s.queued + [Req(s.nextId, size)], nextId := s.nextId + 1)
  }

  lemma QueueFifo(s: State, size: nat)
    requires Fifo(s) && !s.closed
    ensures Fifo(Queue(s, size)) && Ids(Queue(s, size).queued) == Ids(s.queued) + [s.nextId]
  {
    hide Requests;
    var t, all := Queue(s, size), Requests(s.wire) + Ids(s.queued);
    assert Ids(t.queued) == Ids(s.queued) + [s.nextId];
    assert Requests(t.wire) + Ids(t.queued) == all + [s.nextId];
  }

  lemma QueueOwn(judge: Judge, s: State, size: nat)
    requires Fifo(s) && Own(judge, s) && !s.closed
    ensures Own(judge, Queue(s, size))
  {
    hide Requests, Fifo;
    QueueFifo(s, size);
    var t := Queue(s, size);
    assert forall x :: x in Ids(t.queued) <==> x in Ids(s.queued) || x == s.nextId;
  }

  lemma EnqueueInv(judge: Judge, s: State, size: nat)
    requires Inv(judge, s)
    ensures Inv(judge, Enqueue(s, size))
  {
    hide Fifo, Own, Pump;
    if !s.closed {
      QueueFifo(s, size);
      QueueOwn(judge, s, size);
      PumpInv(judge, Queue(s, size));
    }
  }

  lemma RejectAt(results: map<nat, Outcome>, rs: seq<Req>, o: Outcome)
    ensures forall id :: id in Reject(results, rs, o) <==> id in results || id in Ids(rs)
    ensures forall id :: id in Reject(results, rs, o) ==>
              Reject(results, rs, o)[id] == if id in results then results[id] else o
  {
    forall id | id in Ids(rs) ensures id in Reject(results, rs, o) {
      var i :| 0 <= i < |rs| && Ids(rs)[i] == id;
      assert rs[i] in rs && rs[i].id == id;
    }
    forall r | r in rs ensures r.id in Ids(rs) {
      var i :| 0 <= i < |rs| && rs[i] == r;
      assert Ids(rs)[i] == r.id;
    }
  }

  lemma TearDownFifo(s: State, reason: CloseReason)
    requires Fifo(s)
    ensures Fifo(TearDown(s, reason))
  {
    hide Requests, Reject;
    var t, asked := TearDown(s, reason), Requests(s.wire);
    assert asked + Ids(t.queued) == (asked + Ids(s.queued))[..|asked|];
  }

  lemma TearDownOwn(judge: Judge, s: State, reason: CloseReason)
    requires Fifo(s) && Own(judge, s)
    ensures Own(judge, TearDown(s, reason))
  {
    hide Requests, Ascending, Below, Reject;
    var t, asked := TearDown(s, reason), Requests(s.wire);
    RejectAt(s.results, s.pending + s.queued, Closed(reason));
    assert Ids(s.pending + s.queued) == Ids(s.pending) + Ids(s.queued);
    forall k | |s.replies| <= k < |asked| ensures Unanswered(t.results, asked[k], true) {
      assert Unanswered(s.results, asked[k], s.closeError.Some?);
      if s.closeError.None? {
        assert asked[k] == Ids(s.pending)[k - |s.replies|];
      }
    }
    forall k | 0 <= k < |s.replies| ensures Answered(judge, t.results, asked[k], s.replies[k]) {
      assert Answered(judge, s.results, asked[k], s.replies[k]);
    }
    forall id | id in t.results ensures id < t.nextId {
      WaitingBelow(s, id);
    }
  }

  lemma WaitingBelow(s: State, id: nat)
    requires Fifo(s)
    ensures id in Ids(s.pending) + Ids(s.queued) ==> id < s.nextId
  {
    hide Requests, Ascending;
    var all := Requests(s.wire) + Ids(s.queued);
    if i :| 0 <= i < |s.pending| && Ids(s.pending)[i] == id {
      assert s.closeError.None?;
      assert all[|s.replies| + i] == id;
    } else if i :| 0 <= i < |s.queued| && Ids(s.queued)[i] == id {
      assert all[|Requests(s.wire)| + i] == id;
    }
  }

  lemma TearDownInv(judge: Judge, s: State, reason: CloseReason)
    requires Inv(judge, s)
    ensures Inv(judge, TearDown(s, reason))
  {
    hide Fifo, Own, Reject;
    TearDownFifo(s, reason);
    TearDownOwn(judge, s, reason);
  }

  lemma GracefulCloseInv(judge: Judge, s: State)
    requires Inv(judge, s)
    ensures Inv(judge, GracefulClose(s))
  {
    hide Requests;
    RequestsNext(s.wire, Disconnect);
  }

  lemma AdvanceCommutes(s: State, id: nat, o: Outcome)
    requires s.queued != [] && id !in Ids(s.queued)
    ensures Advance(Resolve(s, id, o)) == Resolve(Advance(s), id, o)
    ensures OverBudget(Resolve(s, id, o)) == OverBudget(s)
    ensures id !in Ids(Advance(s).queued)
  {
    hide Size;
    assert Ids(s.queued)[0] == s.queued[0].id;
    assert Ids(s.queued[1..]) == Ids(s.queued)[1..];
  }

  lemma {:induction false} PumpCommutes(s: State, id: nat, o: Outcome)
    requires id !in Ids(s.queued)
    ensures Pump(Resolve(s, id, o)) == Resolve(Pump(s), id, o)
    decreases |s.queued|
  {
    hide Advance, OverBudget, Ids;
    if s.queued != [] {
      AdvanceCommutes(s, id, o);
      if |s.pending| < s.window && !OverBudget(s) {
        AdvanceShrinks(s);
        PumpCommutes(Advance(s), id, o);
      }
    }
  }

  lemma AdvanceShrinks(s: State)
    requires s.queued != []
    ensures |Advance(s).queued| < |s.queued|
  {
  }

  lemma SizeTail(rs: seq<Req>)
    requires rs != []
    ensures Size(rs[1..]) <= Size(rs)
  {
    if |rs| > 1 {
      SizeTail(rs[..|rs| - 1]);
      assert rs[1..][..|rs| - 2] == rs[..|rs| - 1][1..];
    }
  }

  /** Taking the head of `pending` for a frame and settling it. */
  function Match(s: State, f: Frame, o: Outcome): State
    requires s.pending != []
  {
    Resolve(s.(pending := s.pending[1..], replies := s.replies + [f]), s.pending[0].id, o)
  }

  lemma MatchFifo(s: State, f: Frame, o: Outcome)
    requires Fifo(s) && s.pending != []
    ensures Fifo(Match(s, f, o))
    ensures |s.replies| < |Requests(s.wire)| && s.pending[0].id == Requests(s.wire)[|s.replies|]
    ensures s.pending[0].id !in Ids(s.queued) && s.pending[0].id < s.nextId
  {
    hide Requests;
    var asked, id := Requests(s.wire), s.pending[0].id;
    assert id == Ids(s.pending)[0] == asked[|s.replies|];
    assert Ids(s.pending[1..]) == Ids(s.pending)[1..] == asked[|s.replies| + 1..];
    var all := asked + Ids(s.queued);
    assert all[|s.replies|] == id;
    forall i | 0 <= i < |s.queued| ensures Ids(s.queued)[i] != id {
      assert all[|asked| + i] == Ids(s.queued)[i];
    }
  }

  lemma MatchOwn(judge: Judge, s: State, f: Frame, o: Outcome)
    requires Fifo(s) && Own(judge, s) && s.pending != []
    requires (o == Replied(f) && judge(f) == IsReply) || (o == TooLarge(f) && judge(f) == IsTooLarge)
    ensures |Match(s, f, o).replies| <= |Requests(s.wire)| && Own(judge, Match(s, f, o))
  {
    hide Requests;
    MatchFifo(s, f, o);
    var t, asked, id, n := Match(s, f, o), Requests(s.wire), s.pending[0].id, |s.replies|;
    var all := asked + Ids(s.queued);
    assert Unanswered(s.results, asked[n], s.closeError.Some?);
    forall k | 0 <= k < n + 1 ensures Answered(judge, t.results, asked[k], t.replies[k]) {
      if k < n {
        assert all[k] < all[n];
        assert Answered(judge, s.results, asked[k], s.replies[k]);
      }
    }
    forall k | n + 1 <= k < |asked| ensures Unanswered(t.results, asked[k], t.closeError.Some?) {
      assert all[n] < all[k];
      assert Unanswered(s.results, asked[k], s.closeError.Some?);
    }
    forall x | x in Ids(t.queued) ensures Unanswered(t.results, x, false) {
      assert Unanswered(s.results, x, false);
    }
  }

  lemma DeliverInv(judge: Judge, s: State, f: Frame)
    requires Inv(judge, s) && judge(f) != IsMalformed
    ensures Inv(judge, Deliver(judge, s, f))
  {
    hide Requests, Fifo, Own, Ids;
    if judge(f) == IsPing {
      PongInv(judge, s);
    } else if s.pending == [] {
      TearDownInv(judge, s, Unexpected(f));
    } else {
      var o := if judge(f) == IsReply then Replied(f) else TooLarge(f);
      MatchFifo(s, f, o);
      MatchOwn(judge, s, f, o);
      SizeTail(s.pending);
      PumpInv(judge, Match(s, f, o));
      PumpCommutes(s.(pending := s.pending[1..], replies := s.replies + [f]), s.pending[0].id, o);
    }
  }

  lemma PongInv(judge: Judge, s: State)
    requires Inv(judge, s)
    ensures Inv(judge, s.(wire := s.wire + [Pong]))
  {
    hide Requests;
    RequestsNext(s.wire, Pong);
  }

  lemma {:induction false} WorkInv(judge: Judge, s: State, buf: bytes)
    requires Inv(judge, s)
    ensures Inv(judge, Work(judge, s, buf).0)
    decreases |buf|
  {
    hide Inv, Deliver, TearDown;
    match HeadOf(buf) {
      case Whole(f, rest) =>
        if judge(f) == IsMalformed {
          TearDownInv(judge, s, BadBytes);
        } else {
          DeliverInv(judge, s, f);
          if !Stops(judge, s, f) {
            WorkInv(judge, Deliver(judge, s, f), rest);
          }
        }
      case _ =>
    }
  }

  // ---------- every run ----------

  datatype Conn = Conn(state: State, kept: bytes)

  datatype Event =
    | Send(size: nat)
    | Cancel(id: nat)
    | Data(chunk: bytes)
    | Fail
    | End
    | Close

  ghost predicate Step(judge: Judge, c: Conn, e: Event, d: Conn) {
    match e
    case Send(size) => d == Conn(Enqueue(c.state, size), c.kept)
    case Cancel(id) => d == Conn(Abort(c.state, id), c.kept)
    case Data(chunk) => chunk != [] && Received(judge, c.state, c.kept, chunk, d.state, d.kept)
    case Fail => d == Conn(TearDown(c.state, SocketError), c.kept)
    case End => d == Conn(SocketEnded(c.state), c.kept)
    case Close => d == Conn(GracefulClose(c.state), c.kept)
  }

  ghost predicate IsRun(judge: Judge, window: nat, events: seq<Event>, run: seq<Conn>) {
    && |run| == |events| + 1 && run[0] == Conn(Fresh(window), [])
    && forall i :: 0 <= i < |events| ==> Step(judge, run[i], events[i], run[i + 1])
  }

  lemma StepInv(judge: Judge, c: Conn, e: Event, d: Conn)
    requires Inv(judge, c.state) && Step(judge, c, e, d)
    ensures Inv(judge, d.state)
  {
    hide Inv, TearDown, HeadOf, Work;
    match e {
      case Send(size) => EnqueueInv(judge, c.state, size);
      case Cancel(id) => AbortInv(judge, c.state, id);
      case Data(chunk) =>
        WorkInv(judge, c.state, c.kept + chunk);
        TearDownInv(judge, Work(judge, c.state, c.kept + chunk).0, BadBytes);
      case Fail => TearDownInv(judge, c.state, SocketError);
      case End => TearDownInv(judge, c.state, SocketClosed);
      case Close => GracefulCloseInv(judge, c.state);
    }
  }

  lemma {:induction false} RunInv(judge: Judge, window: nat, events: seq<Event>, run: seq<Conn>, k: nat)
    requires IsRun(judge, window, events, run) && window >= 1 && k <= |events|
    ensures Inv(judge, run[k].state)
  {
    hide Inv, Step;
    if k == 0 {
      FreshInv(judge, window);
    } else {
      RunInv(judge, window, events, run, k - 1);
      assert Step(judge, run[k - 1], events[k - 1], run[k - 1 + 1]);
      StepInv(judge, run[k - 1], events[k - 1], run[k]);
    }
  }

  lemma FreshInv(judge: Judge, window: nat)
    requires window >= 1
    ensures Inv(judge, Fresh(window))
  {
  }

  /** The in-flight window and the absence of stalls, in every state of every run. */
  lemma WindowHolds(judge: Judge, window: nat, events: seq<Event>, run: seq<Conn>, k: nat)
    requires IsRun(judge, window, events, run) && window >= 1 && k <= |events|
    ensures var s := run[k].state;
            && |s.pending| <= window
            && (|s.pending| <= 1 || Size(s.pending) < MAX_IN_FLIGHT_BYTES)
            && (s.queued != [] ==> s.pending != [])
            && (s.queued != [] && s.queued[0].id !in s.results ==>
                  |s.pending| == window || Size(s.pending) + s.queued[0].size >= MAX_IN_FLIGHT_BYTES)
  {
    hide Step, Fifo, Own;
    RunInv(judge, window, events, run, k);
    WindowFixed(judge, window, events, run, k);
  }

  lemma {:induction false} WindowFixed(judge: Judge, window: nat, events: seq<Event>, run: seq<Conn>, k: nat)
    requires IsRun(judge, window, events, run) && k <= |events|
    ensures run[k].state.window == window
  {
    hide Step;
    if k > 0 {
      WindowFixed(judge, window, events, run, k - 1);
      assert Step(judge, run[k - 1], events[k - 1], run[k - 1 + 1]);
      StepSkips(judge, run[k - 1], events[k - 1], run[k], 0);
    }
  }

  // ---------- aborted while it waited ----------

  /** Settled without ever being written. */
  predicate Skipped(s: State, id: nat) {
    id in s.results && id < s.nextId && id !in Requests(s.wire)
  }

  /** What every step keeps: a skipped request stays skipped. */
  predicate Keeps(s: State, t: State, id: nat) {
    t.window == s.window && (Skipped(s, id) ==> Skipped(t, id))
  }

  lemma {:induction false} PumpSkips(s: State, id: nat)
    ensures Keeps(s, Pump(s), id)
    decreases |s.queued|
  {
    if s.queued != [] && |s.pending| < s.window && !OverBudget(s) {
      AdvanceRequests(s);
      PumpSkips(Advance(s), id);
    }
  }

  lemma DeliverSkips(judge: Judge, s: State, f: Frame, id: nat)
    requires judge(f) != IsMalformed
    ensures Keeps(s, Deliver(judge, s, f), id)
  {
    hide Requests, Pump;
    RequestsNext(s.wire, Pong);
    if judge(f) != IsPing && s.pending != [] {
      var t := s.(pending := s.pending[1..], replies := s.replies + [f]);
      PumpSkips(t, id);
      PumpSkips(Resolve(t, s.pending[0].id, TooLarge(f)), id);
    }
  }

  lemma {:induction false} WorkSkips(judge: Judge, s: State, buf: bytes, id: nat)
    ensures Keeps(s, Work(judge, s, buf).0, id)
    decreases |buf|
  {
    hide Deliver, HeadOf, Requests;
    match HeadOf(buf) {
      case Whole(f, rest) =>
        if judge(f) != IsMalformed {
          DeliverSkips(judge, s, f, id);
          if !Stops(judge, s, f) {
            WorkSkips(judge, Deliver(judge, s, f), rest, id);
          }
        }
      case _ =>
    }
  }

  lemma StepSkips(judge: Judge, c: Conn, e: Event, d: Conn, id: nat)
    requires Step(judge, c, e, d)
    ensures Keeps(c.state, d.state, id)
  {
    hide Requests, Work, Pump, HeadOf;
    match e {
      case Send(size) =>
        var s := c.state;
        PumpSkips(s.(queued := s.queued + [Req(s.nextId, size)], nextId := s.nextId + 1), id);
      case Data(chunk) => WorkSkips(judge, c.state, c.kept + chunk, id);
      case Close => RequestsNext(c.state.wire, Disconnect);
      case _ =>
    }
  }

  /** A request aborted while it was queued is never written, however the run goes on. */
  lemma AbortedWhileQueuedNeverWritten(judge: Judge, window: nat, events: seq<Event>, run: seq<Conn>,
                                       id: nat, i: nat, j: nat)
    requires IsRun(judge, window, events, run) && window >= 1 && i <= j <= |events|
    requires id in Ids(run[i].state.queued) && id in run[i].state.results
    ensures id !in Requests(run[j].state.wire)
  {
    hide Requests, Step;
    AbortedStaysSkipped(judge, window, events, run, id, i, j);
  }

  lemma QueuedNotWritten(s: State, id: nat)
    requires Fifo(s) && id in Ids(s.queued)
    ensures id !in Requests(s.wire) && id < s.nextId
  {
    hide Requests;
    var asked := Requests(s.wire);
    var all := asked + Ids(s.queued);
    var i :| 0 <= i < |s.queued| && Ids(s.queued)[i] == id;
    assert all[|asked| + i] == id;
    forall k | 0 <= k < |asked| ensures asked[k] != id {
      assert all[k] == asked[k];
    }
  }

  lemma {:induction false} AbortedStaysSkipped(judge: Judge, window: nat, events: seq<Event>, run: seq<Conn>,
                                               id: nat, i: nat, j: nat)
    requires IsRun(judge, window, events, run) && window >= 1 && i <= j <= |events|
    requires id in Ids(run[i].state.queued) && id in run[i].state.results
    ensures Skipped(run[j].state, id)
    decreases j
  {
    hide Requests, Step;
    if i == j {
      RunInv(judge, window, events, run, i);
      QueuedNotWritten(run[i].state, id);
    } else {
      AbortedStaysSkipped(judge, window, events, run, id, i, j - 1);
      assert Step(judge, run[j - 1], events[j - 1], run[j - 1 + 1]);
      StepSkips(judge, run[j - 1], events[j - 1], run[j], id);
    }
  }

  // ---------- closing ----------

  predicate AllSettled(s: State) {
    forall id :: 0 <= id < s.nextId ==> id in s.results
  }

  /** Tearing a client down leaves no request waiting. */
  lemma TearDownSettlesAll(judge: Judge, s: State, reason: CloseReason)
    requires Inv(judge, s)
    ensures AllSettled(TearDown(s, reason))
  {
    hide Requests, Ascending, Below, Reject, Window;
    TearDownInv(judge, s, reason);
    var t := TearDown(s, reason);
    var asked := Requests(t.wire);
    forall id | 0 <= id < t.nextId ensures id in t.results {
      if k :| 0 <= k < |asked| && asked[k] == id {
        if k < |t.replies| {
          assert Answered(judge, t.results, asked[k], t.replies[k]);
        } else {
          assert Unanswered(t.results, asked[k], true);
        }
      }
    }
  }

  /**
   When the socket closes, every request settles if and only if the client had not already been
   closed by its own `close`, or nothing was waiting anyway.
   */
  lemma SocketEndSettles(judge: Judge, s: State)
    requires Inv(judge, s)
    ensures AllSettled(SocketEnded(s)) <==> !s.closed || AllSettled(s)
  {
    hide Inv, TearDown;
    TearDownSettlesAll(judge, s, SocketClosed);
  }

  /** Data, an error on the socket or its own cancellation: what may still settle request `id` after a close. */
  predicate Reaches(e: Event, id: nat) {
    e.Data? || e.Fail? || e == Cancel(id)
  }

  /** A step on a closed client that does not reach an unsettled request leaves it as it was. */
  lemma ClosedStep(judge: Judge, c: Conn, e: Event, d: Conn, id: nat)
    requires Step(judge, c, e, d) && c.state.closed && id !in c.state.results && !Reaches(e, id)
    ensures d.state.closed && id !in d.state.results && d.state.pending == c.state.pending
  {
  }

  lemma CloseStep(judge: Judge, c: Conn, d: Conn, id: nat)
    requires Step(judge, c, Close, d) && id !in c.state.results
    ensures d.state.closed && id !in d.state.results && d.state.pending == c.state.pending
  {
  }

  lemma ReachedSettles(judge: Judge, c: Conn, e: Event, d: Conn, id: nat)
    requires Inv(judge, c.state) && Step(judge, c, e, d) && id in Ids(c.state.pending) && (e.Fail? || e == Cancel(id))
    ensures id in d.state.results
  {
    hide Fifo, Own, Reject;
    WaitingBelow(c.state, id);
    assert id in Ids(c.state.pending) + Ids(c.state.queued);
    if e.Fail? {
      TearDownSettlesAll(judge, c.state, SocketError);
    }
  }

  /**
   After `close`, a request in flight stays unsettled and in flight in every later state, socket end
   included, until data, an error on the socket or its own cancellation reaches it. The last two always
   settle it.
   */
  lemma {:induction false} CloseForgetsRequestsInFlight(judge: Judge, window: nat, events: seq<Event>, run: seq<Conn>,
                                                        i: nat, j: nat, id: nat)
    requires IsRun(judge, window, events, run) && window >= 1 && i < j <= |events| && events[i] == Close
    requires id in Ids(run[i].state.pending) && id !in run[i].state.results
    requires forall k :: i < k < j ==> !Reaches(events[k], id)
    ensures run[j].state.closed && id in Ids(run[j].state.pending) && id !in run[j].state.results
    ensures j < |events| && (events[j].Fail? || events[j] == Cancel(id)) ==> id in run[j + 1].state.results
    decreases j
  {
    hide Step;
    assert Step(judge, run[j - 1], events[j - 1], run[j - 1 + 1]);
    if j == i + 1 {
      CloseStep(judge, run[i], run[j], id);
    } else {
      CloseForgetsRequestsInFlight(judge, window, events, run, i, j - 1, id);
      ClosedStep(judge, run[j - 1], events[j - 1], run[j], id);
    }
    if j < |events| && (events[j].Fail? || events[j] == Cancel(id)) {
      assert Step(judge, run[j], events[j], run[j + 1]);
      RunInv(judge, window, events, run, j);
      ReachedSettles(judge, run[j], events[j], run[j + 1], id);
    }
  }

  /** A run that sends, closes and sees the socket end, with its request in flight to the last. */
  lemma ForgettingIsReachable(judge: Judge, size: nat) returns (events: seq<Event>, run: seq<Conn>)
    ensures IsRun(judge, 1, events, run) && events == [Send(size), Close, End]
    ensures 0 in Ids(run[1].state.pending) && 0 !in run[1].state.results && !AllSettled(run[3].state)
  {
    var queued := Fresh(1).(queued := [Req(0, size)], nextId := 1);
    var sent := Fresh(1).(pending := [Req(0, size)], wire := [Request(0)], nextId := 1);
    assert Fresh(1).queued + [Req(0, size)] == [Req(0, size)];
    assert Advance(queued) == sent && Pump(sent) == sent;
    assert Enqueue(Fresh(1), size) == sent;
    var closed := Conn(GracefulClose(sent), []);
    events, run := [Send(size), Close, End], [Conn(Fresh(1), []), Conn(sent, []), closed, closed];
    assert Ids(sent.pending)[0] == 0;
    assert 0 !in closed.state.results && 0 < closed.state.nextId;
  }
}
