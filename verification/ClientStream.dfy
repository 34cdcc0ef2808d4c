/**
 What whole runs of the client do with the bytes the server sends: replies are matched to requests in
 the order of the stream, however it is cut into chunks and whatever happens between them, and a
 request settles once.
 */
module ClientStream {
  import opened Bytes
  import opened Wrappers
  import opened ClientSpec
  import opened ClientMatching

  // ---------- the stream and its frames ----------

  /** Everything received: the chunks of all `data` events, in order. */
  function Stream(events: seq<Event>): bytes {
    if events == [] then []
    else
      var before := Stream(events[..|events| - 1]);
      match events[|events| - 1]
      case Data(chunk) => before + chunk
      case _ => before
  }

  /** What follows the last whole frame. */
  function RestOf(buf: bytes): bytes
    decreases |buf|
  {
    match HeadOf(buf)
    case Whole(_, rest) => RestOf(rest)
    case _ => buf
  }

  /** Frames of a stream that grows: those it had, then those the rest and the new bytes make. */
  lemma {:induction false} FramesGrow(a: bytes, b: bytes)
    ensures FramesOf(a + b) == FramesOf(a) + FramesOf(RestOf(a) + b)
    ensures RestOf(a + b) == RestOf(RestOf(a) + b)
    decreases |a|
  {
    hide HeadOf;
    if HeadOf(a).Whole? {
      HeadGrows(a, b);
      FramesGrow(HeadOf(a).rest, b);
      assert [HeadOf(a).frame] + (FramesOf(HeadOf(a).rest) + FramesOf(RestOf(a) + b)) ==
             ([HeadOf(a).frame] + FramesOf(HeadOf(a).rest)) + FramesOf(RestOf(a) + b);
    }
  }

  lemma {:induction false} AnswersConcat(judge: Judge, a: seq<Frame>, b: seq<Frame>)
    ensures Answers(judge, a + b) == Answers(judge, a) + Answers(judge, b)
  {
    if a == [] {
      assert a + b == b;
    } else {
      assert (a + b)[1..] == a[1..] + b;
      AnswersConcat(judge, a[1..], b);
    }
  }

  lemma {:induction false} WorkRest(judge: Judge, s: State, buf: bytes)
    ensures var (t, rest, torn) := Work(judge, s, buf);
            (!torn ==> rest == RestOf(buf)) && (torn || s.closeError.Some? ==> t.closeError.Some?)
    decreases |buf|
  {
    hide HeadOf, Reject;
    match HeadOf(buf) {
      case Whole(f, rest) =>
        if judge(f) != IsMalformed && !Stops(judge, s, f) {
          DeliverKeepsError(judge, s, f);
          WorkRest(judge, Deliver(judge, s, f), rest);
        }
      case _ =>
    }
  }

  lemma DeliverKeepsError(judge: Judge, s: State, f: Frame)
    requires judge(f) != IsMalformed
    ensures s.closeError.Some? ==> Deliver(judge, s, f).closeError.Some?
  {
    hide Pump, Reject;
    if judge(f) != IsPing && s.pending != [] {
      var t := s.(pending := s.pending[1..], replies := s.replies + [f]);
      PumpKeeps(t);
      PumpKeeps(Resolve(t, s.pending[0].id, TooLarge(f)));
    }
  }

  // ---------- replies follow the stream ----------

  /** The answers received so far. */
  function AnswersIn(judge: Judge, events: seq<Event>): seq<Frame> {
    Answers(judge, FramesOf(Stream(events)))
  }

  /** The frames matched are the answers received, in order; all of them until an error close. */
  ghost predicate Tracks(judge: Judge, stream: bytes, c: Conn) {
    var answers := Answers(judge, FramesOf(stream));
    && c.state.replies <= answers
    && (c.state.closeError.None? ==> c.state.replies == answers && c.kept == RestOf(stream))
  }

  lemma TracksData(judge: Judge, stream: bytes, c: Conn, chunk: bytes, d: Conn)
    requires Tracks(judge, stream, c) && Fifo(c.state) && Step(judge, c, Data(chunk), d)
    ensures Tracks(judge, stream + chunk, d)
  {
    hide HeadOf, Work, FramesOf, RestOf, Answers, Requests, Reject;
    FramesGrow(stream, chunk);
    AnswersConcat(judge, FramesOf(stream), FramesOf(RestOf(stream) + chunk));
    WorkRest(judge, c.state, c.kept + chunk);
    if c.state.closeError.None? {
      RepliesInOrder(judge, c.state, c.kept + chunk);
    } else {
      WorkWhenDead(judge, c.state, c.kept + chunk);
    }
  }

  lemma TracksOther(judge: Judge, stream: bytes, c: Conn, e: Event, d: Conn)
    requires Tracks(judge, stream, c) && Step(judge, c, e, d) && !e.Data?
    ensures Tracks(judge, stream, d)
  {
    hide FramesOf, RestOf, Answers, Pump, Reject;
    if e.Send? && !c.state.closed {
      PumpKeeps(c.state.(queued := c.state.queued + [Req(c.state.nextId, e.size)], nextId := c.state.nextId + 1));
    }
  }

  /**
   In every run the frames matched to requests are a prefix of the answers in the byte stream, in
   stream order. Until an error closes the client they are all of them, and what is kept is exactly
   what follows the last whole frame.
   */
  lemma {:induction false} RepliesFollowStream(judge: Judge, window: nat, events: seq<Event>, run: seq<Conn>, k: nat)
    requires IsRun(judge, window, events, run) && window >= 1 && k <= |events|
    ensures Tracks(judge, Stream(events[..k]), run[k])
  {
    hide Step, Tracks, Own, Window;
    if k == 0 {
      assert events[..0] == [];
      NothingReceived(judge, window);
    } else {
      RepliesFollowStream(judge, window, events, run, k - 1);
      RunInv(judge, window, events, run, k - 1);
      assert events[..k][..k - 1] == events[..k - 1];
      assert Step(judge, run[k - 1], events[k - 1], run[k - 1 + 1]);
      if events[k - 1].Data? {
        TracksData(judge, Stream(events[..k - 1]), run[k - 1], events[k - 1].chunk, run[k]);
      } else {
        TracksOther(judge, Stream(events[..k - 1]), run[k - 1], events[k - 1], run[k]);
      }
    }
  }

  lemma NothingReceived(judge: Judge, window: nat)
    ensures Tracks(judge, [], Conn(Fresh(window), []))
  {
  }

  /**
   Reply matching, in every run. If the server answers the requests it gets once each and in order,
   then whatever a request settles with is its own: its reply, its size error, its abort, or the
   close of the connection. One whose answer has arrived has settled, one that never reached the
   wire never gets a reply, and one that has not settled is still pending or queued.
   */
  lemma EveryRequestItsOwn(judge: Judge, window: nat, events: seq<Event>, run: seq<Conn>, k: nat,
                           answer: nat -> Frame, id: nat)
    requires IsRun(judge, window, events, run) && window >= 1 && k <= |events|
    requires var asked, got := Requests(run[k].state.wire), AnswersIn(judge, events[..k]);
             forall i :: 0 <= i < |got| && i < |asked| ==> got[i] == answer(asked[i])
    requires id < run[k].state.nextId
    ensures var s := run[k].state;
            && (id in s.results ==>
                  || (s.results[id] == Replied(answer(id)) && judge(answer(id)) == IsReply && id in Requests(s.wire))
                  || (s.results[id] == TooLarge(answer(id)) && judge(answer(id)) == IsTooLarge && id in Requests(s.wire))
                  || s.results[id] == Aborted
                  || s.results[id].Closed?)
            && (id !in s.results ==> id in Ids(s.pending) || id in Ids(s.queued))
    ensures var s, got := run[k].state, AnswersIn(judge, events[..k]);
            id in Requests(s.wire)[..if |got| <= |Requests(s.wire)| then |got| else |Requests(s.wire)|] ==> id in s.results
  {
    hide Requests, Ascending, Below, Window, Step, FramesOf, RestOf, Answers, Stream;
    RunInv(judge, window, events, run, k);
    RepliesFollowStream(judge, window, events, run, k);
    var s := run[k].state;
    var asked := Requests(s.wire);
    if i :| 0 <= i < |asked| && asked[i] == id {
      if i < |s.replies| {
        assert Answered(judge, s.results, asked[i], s.replies[i]);
      } else {
        assert Unanswered(s.results, asked[i], s.closeError.Some?);
        assert s.closeError.None? ==> Ids(s.pending)[i - |s.replies|] == id;
      }
    }
  }

  // ---------- settling once ----------

  /** Nothing settled is settled again, and only `aborted` may come to say so. */
  predicate Settles(s: State, t: State, aborted: Option<nat>) {
    && (forall id :: id in s.results ==> id in t.results && t.results[id] == s.results[id])
    && (forall id :: id in t.results && id !in s.results && t.results[id] == Aborted ==> aborted == Some(id))
  }

  lemma DeliverSettles(judge: Judge, s: State, f: Frame)
    requires judge(f) != IsMalformed
    ensures Settles(s, Deliver(judge, s, f), None)
  {
    hide Pump;
    if judge(f) != IsPing && s.pending != [] {
      var t := s.(pending := s.pending[1..], replies := s.replies + [f]);
      PumpKeeps(t);
      PumpKeeps(Resolve(t, s.pending[0].id, TooLarge(f)));
    }
  }

  lemma {:induction false} WorkSettles(judge: Judge, s: State, buf: bytes)
    ensures Settles(s, Work(judge, s, buf).0, None)
    decreases |buf|
  {
    hide Deliver, HeadOf;
    match HeadOf(buf) {
      case Whole(f, rest) =>
        if judge(f) != IsMalformed {
          DeliverSettles(judge, s, f);
          if !Stops(judge, s, f) {
            WorkSettles(judge, Deliver(judge, s, f), rest);
          }
        }
      case _ =>
    }
  }

  lemma StepSettles(judge: Judge, c: Conn, e: Event, d: Conn)
    requires Step(judge, c, e, d)
    ensures Settles(c.state, d.state, if e.Cancel? then Some(e.id) else None)
  {
    hide Work, Pump, HeadOf;
    match e {
      case Send(size) =>
        PumpKeeps(c.state.(queued := c.state.queued + [Req(c.state.nextId, size)], nextId := c.state.nextId + 1));
      case Data(chunk) => WorkSettles(judge, c.state, c.kept + chunk);
      case _ =>
    }
  }

  /** A request settles once: what it settled with never changes in the rest of a run. */
  lemma {:induction false} SettledStays(judge: Judge, window: nat, events: seq<Event>, run: seq<Conn>, i: nat, j: nat, id: nat)
    requires IsRun(judge, window, events, run) && i <= j <= |events| && id in run[i].state.results
    ensures id in run[j].state.results && run[j].state.results[id] == run[i].state.results[id]
    decreases j
  {
    hide Step;
    if i < j {
      SettledStays(judge, window, events, run, i, j - 1, id);
      assert Step(judge, run[j - 1], events[j - 1], run[j - 1 + 1]);
      StepSettles(judge, run[j - 1], events[j - 1], run[j]);
    }
  }

  /** Only a request's own cancellation makes it settle as aborted. */
  lemma {:induction false} AbortedWasCancelled(judge: Judge, window: nat, events: seq<Event>, run: seq<Conn>, k: nat, id: nat)
    requires IsRun(judge, window, events, run) && k <= |events|
    requires id in run[k].state.results && run[k].state.results[id] == Aborted
    ensures exists i :: 0 <= i < k && events[i] == Cancel(id)
  {
    hide Step;
    if k > 0 {
      assert Step(judge, run[k - 1], events[k - 1], run[k - 1 + 1]);
      StepSettles(judge, run[k - 1], events[k - 1], run[k]);
      if id in run[k - 1].state.results {
        AbortedWasCancelled(judge, window, events, run, k - 1, id);
      }
    }
  }
}
