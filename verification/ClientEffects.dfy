/**
 What every event does to a client, over whole runs: one pong for each ping, one disconnect for the first
 close, a request taken for each send, and one reason for each request that settles. A client with no
 error has had no malformed frame and no answer it did not ask for.
 */
module ClientEffects {
  import opened Bytes
  import opened Wrappers
  import opened ClientSpec
  import opened ClientMatching
  import opened ClientStream

  // ---------- what goes out besides requests ----------

  function Pings(judge: Judge, frames: seq<Frame>): nat {
    if frames == [] then 0 else Pings(judge, frames[1..]) + if judge(frames[0]) == IsPing then 1 else 0
  }

  predicate NoneMalformed(judge: Judge, frames: seq<Frame>) {
    forall i :: 0 <= i < |frames| ==> judge(frames[i]) != IsMalformed
  }

  lemma {:induction false} PingsConcat(judge: Judge, a: seq<Frame>, b: seq<Frame>)
    ensures Pings(judge, a + b) == Pings(judge, a) + Pings(judge, b)
    ensures NoneMalformed(judge, a + b) <==> NoneMalformed(judge, a) && NoneMalformed(judge, b)
  {
    if a == [] {
      assert a + b == b;
    } else {
      assert (a + b)[1..] == a[1..] + b;
      PingsConcat(judge, a[1..], b);
      assert forall i :: 0 <= i < |b| ==> (a + b)[|a| + i] == b[i];
    }
  }

  /** How many of `x` have been written. */
  function Written(s: State, x: Sent): nat {
    multiset(s.wire)[x]
  }

  lemma WrittenNext(wire: seq<Sent>, y: Sent, x: Sent)
    ensures multiset(wire + [y])[x] == multiset(wire)[x] + if x == y then 1 else 0
  {
  }

  lemma {:induction false} PumpWritesRequests(s: State, x: Sent)
    requires !x.Request?
    ensures Written(Pump(s), x) == Written(s, x)
    decreases |s.queued|
  {
    if s.queued != [] && |s.pending| < s.window && !OverBudget(s) {
      WrittenNext(s.wire, Request(s.queued[0].id), x);
      PumpWritesRequests(Advance(s), x);
    }
  }

  lemma DeliverWrites(judge: Judge, s: State, f: Frame, x: Sent)
    requires judge(f) != IsMalformed && !x.Request?
    ensures Written(Deliver(judge, s, f), x) == Written(s, x) + if judge(f) == IsPing && x == Pong then 1 else 0
  {
    hide Pump, Reject;
    if judge(f) == IsPing {
      WrittenNext(s.wire, Pong, x);
    } else if s.pending != [] {
      var t := s.(pending := s.pending[1..], replies := s.replies + [f]);
      PumpWritesRequests(t, x);
      PumpWritesRequests(Resolve(t, s.pending[0].id, TooLarge(f)), x);
    }
  }

  lemma {:induction false} WorkWrites(judge: Judge, s: State, buf: bytes)
    ensures var (t, rest, torn) := Work(judge, s, buf);
            && Written(t, Disconnect) == Written(s, Disconnect)
            && (!torn ==> Written(t, Pong) == Written(s, Pong) + Pings(judge, FramesOf(buf)) && NoneMalformed(judge, FramesOf(buf)))
    decreases |buf|
  {
    hide Deliver, HeadOf, Reject;
    match HeadOf(buf) {
      case Whole(f, rest) =>
        assert FramesOf(buf) == [f] + FramesOf(rest) && ([f] + FramesOf(rest))[1..] == FramesOf(rest);
        if judge(f) != IsMalformed {
          DeliverWrites(judge, s, f, Pong);
          DeliverWrites(judge, s, f, Disconnect);
          if !Stops(judge, s, f) {
            WorkWrites(judge, Deliver(judge, s, f), rest);
          }
        }
      case _ =>
    }
  }

  lemma ErrorStays(judge: Judge, c: Conn, e: Event, d: Conn)
    requires Step(judge, c, e, d) && c.state.closeError.Some?
    ensures d.state.closeError.Some?
  {
    hide Work, Pump, HeadOf, Reject;
    match e {
      case Send(size) =>
        PumpKeeps(c.state.(queued := c.state.queued + [Req(c.state.nextId, size)], nextId := c.state.nextId + 1));
      case Data(chunk) => WorkRest(judge, c.state, c.kept + chunk);
      case _ =>
    }
  }

  lemma StepWrites(judge: Judge, c: Conn, e: Event, d: Conn)
    requires Step(judge, c, e, d) && !e.Data?
    ensures Written(d.state, Pong) == Written(c.state, Pong)
    ensures Written(d.state, Disconnect) == Written(c.state, Disconnect) + if e == Close && !c.state.closed then 1 else 0
  {
    hide Pump, Reject;
    match e {
      case Send(size) =>
        var s := c.state.(queued := c.state.queued + [Req(c.state.nextId, size)], nextId := c.state.nextId + 1);
        PumpWritesRequests(s, Pong);
        PumpWritesRequests(s, Disconnect);
      case Close =>
        WrittenNext(c.state.wire, Disconnect, Pong);
        WrittenNext(c.state.wire, Disconnect, Disconnect);
      case _ =>
    }
  }

  lemma DataWrites(judge: Judge, stream: bytes, c: Conn, chunk: bytes, d: Conn)
    requires Step(judge, c, Data(chunk), d) && c.kept == RestOf(stream) && d.state.closeError.None?
    requires Written(c.state, Pong) == Pings(judge, FramesOf(stream)) && NoneMalformed(judge, FramesOf(stream))
    ensures Written(d.state, Pong) == Pings(judge, FramesOf(stream + chunk)) && NoneMalformed(judge, FramesOf(stream + chunk))
  {
    hide Work, HeadOf, FramesOf, RestOf, Reject, Pings, NoneMalformed;
    FramesGrow(stream, chunk);
    PingsConcat(judge, FramesOf(stream), FramesOf(RestOf(stream) + chunk));
    WorkWrites(judge, c.state, c.kept + chunk);
    WorkRest(judge, c.state, c.kept + chunk);
  }

  /**
   In every run, while no error has closed the client: it has written one pong for each ping received, no
   frame received was malformed, and no more answers came than requests went out.
   */
  lemma {:induction false} PongsForPings(judge: Judge, window: nat, events: seq<Event>, run: seq<Conn>, k: nat)
    requires IsRun(judge, window, events, run) && window >= 1 && k <= |events| && run[k].state.closeError.None?
    ensures var s, frames := run[k].state, FramesOf(Stream(events[..k]));
            && Written(s, Pong) == Pings(judge, frames)
            && NoneMalformed(judge, frames)
            && |Answers(judge, frames)| <= |Requests(s.wire)|
  {
    hide Step, HeadOf, RestOf, Answers, Requests, Own, Window, Written, Pings, NoneMalformed;
    RunInv(judge, window, events, run, k);
    RepliesFollowStream(judge, window, events, run, k);
    if k == 0 {
      assert events[..0] == [];
      NothingWritten(judge, window);
    } else {
      assert Step(judge, run[k - 1], events[k - 1], run[k - 1 + 1]);
      if run[k - 1].state.closeError.Some? {
        ErrorStays(judge, run[k - 1], events[k - 1], run[k]);
      }
      PongsForPings(judge, window, events, run, k - 1);
      RepliesFollowStream(judge, window, events, run, k - 1);
      assert events[..k][..k - 1] == events[..k - 1];
      if events[k - 1].Data? {
        DataWrites(judge, Stream(events[..k - 1]), run[k - 1], events[k - 1].chunk, run[k]);
      } else {
        StepWrites(judge, run[k - 1], events[k - 1], run[k]);
      }
    }
  }

  lemma NothingWritten(judge: Judge, window: nat)
    ensures Written(Fresh(window), Pong) == Pings(judge, FramesOf([])) && NoneMalformed(judge, FramesOf([]))
    ensures Written(Fresh(window), Disconnect) == 0
  {
  }

  /** Whether one of the first `k` events closed the client while it was open. */
  ghost predicate ClosedByCaller(events: seq<Event>, run: seq<Conn>, k: nat)
    requires k <= |events| < |run|
  {
    exists i :: 0 <= i < k && events[i] == Close && !run[i].state.closed
  }

  /** In every run one disconnect is written if the caller closed an open client, and none otherwise. */
  lemma {:induction false} DisconnectForClose(judge: Judge, window: nat, events: seq<Event>, run: seq<Conn>, k: nat)
    requires IsRun(judge, window, events, run) && k <= |events|
    ensures Written(run[k].state, Disconnect) == if ClosedByCaller(events, run, k) then 1 else 0
    ensures ClosedByCaller(events, run, k) ==> run[k].state.closed
  {
    hide Step, Written, HeadOf;
    if k == 0 {
      NothingWritten(judge, window);
    } else {
      DisconnectForClose(judge, window, events, run, k - 1);
      var c, e, d := run[k - 1], events[k - 1], run[k];
      assert Step(judge, c, e, run[k - 1 + 1]);
      OneDisconnect(judge, c, e, d);
      assert ClosedByCaller(events, run, k) <==> ClosedByCaller(events, run, k - 1) || (e == Close && !c.state.closed);
    }
  }

  lemma OneDisconnect(judge: Judge, c: Conn, e: Event, d: Conn)
    requires Step(judge, c, e, d)
    ensures Written(d.state, Disconnect) == Written(c.state, Disconnect) + if e == Close && !c.state.closed then 1 else 0
    ensures c.state.closed || e == Close ==> d.state.closed
  {
    hide Work, Pump, HeadOf, Reject, Written;
    if e.Data? {
      DataKeepsClosed(judge, c, e.chunk, d);
    } else {
      StepWrites(judge, c, e, d);
    }
  }

  lemma DataKeepsClosed(judge: Judge, c: Conn, chunk: bytes, d: Conn)
    requires Step(judge, c, Data(chunk), d)
    ensures Written(d.state, Disconnect) == Written(c.state, Disconnect)
    ensures c.state.closed ==> d.state.closed
  {
    hide Work, HeadOf, Reject;
    WorkWrites(judge, c.state, c.kept + chunk);
    WorkKeepsClosed(judge, c.state, c.kept + chunk);
  }

  lemma {:induction false} WorkKeepsClosed(judge: Judge, s: State, buf: bytes)
    ensures s.closed ==> Work(judge, s, buf).0.closed
    decreases |buf|
  {
    hide HeadOf, Reject, Pump;
    match HeadOf(buf) {
      case Whole(f, rest) =>
        if judge(f) != IsMalformed && !Stops(judge, s, f) {
          if judge(f) != IsPing {
            var t := s.(pending := s.pending[1..], replies := s.replies + [f]);
            PumpKeeps(t);
            PumpKeeps(Resolve(t, s.pending[0].id, TooLarge(f)));
          }
          WorkKeepsClosed(judge, Deliver(judge, s, f), rest);
        }
      case _ =>
    }
  }

  // ---------- requests taken and reasons to settle ----------

  /** Why a request settles, and as what. */
  predicate SettledBy(c: Conn, e: Event, id: nat, o: Outcome) {
    match o
    case Aborted => e == Cancel(id)
    case Closed(SocketError) => e == Fail
    case Closed(SocketClosed) => e == End && !c.state.closed
    case _ => e.Data?
  }

  lemma DeliverOutcomes(judge: Judge, s: State, f: Frame, id: nat)
    requires judge(f) != IsMalformed
    ensures var t := Deliver(judge, s, f);
            id in t.results && id !in s.results ==>
              t.results[id] == Replied(f) || t.results[id] == TooLarge(f) || t.results[id] == Closed(Unexpected(f))
  {
    hide Pump;
    if judge(f) != IsPing && s.pending != [] {
      var t := s.(pending := s.pending[1..], replies := s.replies + [f]);
      PumpKeeps(t);
      PumpKeeps(Resolve(t, s.pending[0].id, TooLarge(f)));
    }
  }

  lemma {:induction false} WorkOutcomes(judge: Judge, s: State, buf: bytes, id: nat)
    ensures var t := Work(judge, s, buf).0;
            id in t.results && id !in s.results ==>
              match t.results[id] {
                case Aborted => false
                case Closed(SocketError) => false
                case Closed(SocketClosed) => false
                case _ => true
              }
    decreases |buf|
  {
    hide Deliver, HeadOf;
    match HeadOf(buf) {
      case Whole(f, rest) =>
        if judge(f) != IsMalformed {
          DeliverOutcomes(judge, s, f, id);
          DeliverSettles(judge, s, f);
          if !Stops(judge, s, f) {
            WorkOutcomes(judge, Deliver(judge, s, f), rest, id);
            WorkSettles(judge, Deliver(judge, s, f), rest);
          }
        }
      case _ =>
    }
  }

  lemma StepOutcomes(judge: Judge, c: Conn, e: Event, d: Conn, id: nat)
    requires Step(judge, c, e, d)
    ensures id in d.state.results && id !in c.state.results ==> SettledBy(c, e, id, d.state.results[id])
  {
    hide Work, Pump, HeadOf;
    match e {
      case Send(size) =>
        PumpKeeps(c.state.(queued := c.state.queued + [Req(c.state.nextId, size)], nextId := c.state.nextId + 1));
      case Data(chunk) =>
        WorkOutcomes(judge, c.state, c.kept + chunk, id);
        WorkSettles(judge, c.state, c.kept + chunk);
      case _ =>
    }
  }

  /**
   In every run a request settles for one reason and as that reason says: its own cancellation, an error on
   the socket, the end of the socket on an open client, or something received. Cancelling always settles it,
   and so does an error. A send on an open client takes the next request, which is then written or queued;
   on a closed one it does nothing.
   */
  lemma WhatSettles(judge: Judge, window: nat, events: seq<Event>, run: seq<Conn>, k: nat, id: nat)
    requires IsRun(judge, window, events, run) && window >= 1 && k < |events|
    ensures var c, e, d := run[k], events[k], run[k + 1];
            && (id in d.state.results && id !in c.state.results ==> SettledBy(c, e, id, d.state.results[id]))
            && (id < c.state.nextId && (e == Cancel(id) || e == Fail) ==> id in d.state.results)
            && (e.Send? && c.state.closed ==> d == c)
            && (e.Send? && !c.state.closed ==>
                  && d.state.nextId == c.state.nextId + 1
                  && (c.state.nextId in Requests(d.state.wire) || c.state.nextId in Ids(d.state.queued)))
  {
    hide Step, Requests, Window;
    RunInv(judge, window, events, run, k);
    RunInv(judge, window, events, run, k + 1);
    var c, e, d := run[k], events[k], run[k + 1];
    assert Step(judge, c, e, d);
    StepOutcomes(judge, c, e, d, id);
    StepTakes(judge, c, e, d, id);
  }

  lemma StepTakes(judge: Judge, c: Conn, e: Event, d: Conn, id: nat)
    requires Inv(judge, c.state) && Inv(judge, d.state) && Step(judge, c, e, d)
    ensures id < c.state.nextId && (e == Cancel(id) || e == Fail) ==> id in d.state.results
    ensures e.Send? && c.state.closed ==> d == c
    ensures e.Send? && !c.state.closed ==>
              && d.state.nextId == c.state.nextId + 1
              && (c.state.nextId in Requests(d.state.wire) || c.state.nextId in Ids(d.state.queued))
  {
    hide Pump, Requests, Window, Fifo, Reject;
    match e {
      case Fail => TearDownSettlesAll(judge, c.state, SocketError);
      case Send(size) =>
        if !c.state.closed {
          PumpKeeps(c.state.(queued := c.state.queued + [Req(c.state.nextId, size)], nextId := c.state.nextId + 1));
          assert c.state.nextId !in d.state.results;
        }
      case _ =>
    }
  }
}
