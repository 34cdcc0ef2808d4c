/**
 The pipelined client as a state machine over values: the request queues, the in-flight window and
 the byte stream it decodes. `Client` runs the same steps in place.
 */
module ClientSpec {
  import opened Bytes
  import opened Wrappers

  const HEADER := 6
  const MAX_PAYLOAD := 64 * 1024 * 1024
  const MAX_IN_FLIGHT_BYTES := 1024 * 1024

  // ---------- frames ----------

  datatype Frame = Frame(kind: byte, payload: bytes)

  /** What the payload decoder makes of a frame. */
  datatype Verdict = IsPing | IsReply | IsTooLarge | IsMalformed

  type Judge = Frame -> Verdict

  /** What the front of a byte stream holds. */
  datatype Head = Short | Illegal | Whole(frame: Frame, rest: bytes)

  function PayloadLength(buf: bytes): nat
    requires |buf| >= HEADER
  {
    FromLE(buf[2..6])
  }

  function HeadOf(buf: bytes): (h: Head)
    ensures h.Whole? ==> |h.rest| < |buf|
  {
    if |buf| < HEADER then Short
    else if PayloadLength(buf) > MAX_PAYLOAD then Illegal
    else if |buf| < HEADER + PayloadLength(buf) then Short
    else Whole(Frame(buf[0], buf[HEADER..HEADER + PayloadLength(buf)]), buf[HEADER + PayloadLength(buf)..])
  }

  /** More bytes never change a head that is whole or illegal. */
  lemma HeadGrows(a: bytes, b: bytes)
    requires !HeadOf(a).Short?
    ensures HeadOf(a).Illegal? ==> HeadOf(a + b).Illegal?
    ensures HeadOf(a).Whole? ==> HeadOf(a + b) == Whole(HeadOf(a).frame, HeadOf(a).rest + b)
  {
    assert (a + b)[2..6] == a[2..6];
    if HeadOf(a).Whole? {
      var n := HEADER + PayloadLength(a);
      assert (a + b)[HEADER..n] == a[HEADER..n];
      assert (a + b)[n..] == a[n..] + b;
    }
  }

  /** All whole frames at the front of a stream. */
  function FramesOf(buf: bytes): seq<Frame>
    decreases |buf|
  {
    match HeadOf(buf)
    case Whole(f, rest) => [f] + FramesOf(rest)
    case _ => []
  }

  // ---------- requests ----------

  datatype Req = Req(id: nat, size: nat)

  datatype Sent = Request(id: nat) | Pong | Disconnect

  datatype CloseReason = BadBytes | Unexpected(frame: Frame) | SocketError | SocketClosed

  datatype Outcome = Replied(frame: Frame) | TooLarge(frame: Frame) | Aborted | Closed(reason: CloseReason)

  /**
   `pending` are written and unanswered, `queued` wait for room, `results` holds what each settled
   request settled with, and `replies` the frames matched to requests so far.
   */
  datatype State = State(pending: seq<Req>, queued: seq<Req>, closed: bool, closeError: Option<CloseReason>,
                         wire: seq<Sent>, replies: seq<Frame>, results: map<nat, Outcome>, nextId: nat, window: nat)

  function Fresh(window: nat): State {
    State([], [], false, None, [], [], map[], 0, window)
  }

  function Size(rs: seq<Req>): nat {
    if rs == [] then 0 else Size(rs[..|rs| - 1]) + rs[|rs| - 1].size
  }

  function Resolve(s: State, id: nat, o: Outcome): State {
    if id in s.results then s else s.(results := s.results[id := o])
  }

  /** The head of the queue is live and the window has no room for its bytes. */
  predicate OverBudget(s: State)
    requires s.queued != []
  {
    s.queued[0].id !in s.results && s.pending != [] && Size(s.pending) + s.queued[0].size >= MAX_IN_FLIGHT_BYTES
  }

  /** Take the head of the queue: write it, or drop it when it was aborted while it waited. */
  function Advance(s: State): State
    requires s.queued != []
  {
    var next, rest := s.queued[0], s.queued[1..];
    if next.id in s.results then s.(queued := rest)
    else s.(queued := rest, pending := s.pending + [next], wire := s.wire + [Request(next.id)])
  }

  function Pump(s: State): State
    decreases |s.queued|
  {
    if s.queued == [] || |s.pending| >= s.window || OverBudget(s) then s else Pump(Advance(s))
  }

  function Enqueue(s: State, size: nat): State {
    if s.closed then s
    else Pump(s.(queued := s.queued + [Req(s.nextId, size)], nextId := s.nextId + 1))
  }

  function Abort(s: State, id: nat): State {
    if id < s.nextId then Resolve(s, id, Aborted) else s
  }

  /** Every request of `rs` that has not settled settles with `o`. */
  function Reject(results: map<nat, Outcome>, rs: seq<Req>, o: Outcome): map<nat, Outcome> {
    results + (map r | r in rs && r.id !in results :: r.id := o)
  }

  /** Fail everything that is waiting, written or not. */
  function TearDown(s: State, reason: CloseReason): State {
    s.(closed := true, closeError := Some(reason), pending := [], queued := [],
       results := Reject(s.results, s.pending + s.queued, Closed(reason)))
  }

  /** The socket's own close: nothing happens on a client that is already closed. */
  function SocketEnded(s: State): State {
    if s.closed then s else TearDown(s, SocketClosed)
  }

  function GracefulClose(s: State): State {
    if s.closed then s else s.(wire := s.wire + [Disconnect], closed := true)
  }

  // ---------- decoding ----------

  /** One whole frame that decodes, or that is skipped because its result is too large. */
  function Deliver(judge: Judge, s: State, f: Frame): State
    requires judge(f) != IsMalformed
  {
    if judge(f) == IsPing then s.(wire := s.wire + [Pong])
    else if s.pending == [] then TearDown(s, Unexpected(f))
    else
      var id, t := s.pending[0].id, s.(pending := s.pending[1..], replies := s.replies + [f]);
      if judge(f) == IsReply then Resolve(Pump(t), id, Replied(f)) else Pump(Resolve(t, id, TooLarge(f)))
  }

  predicate Stops(judge: Judge, s: State, f: Frame) {
    judge(f) != IsPing && s.pending == []
  }

  /** How far decoding `buf` in one piece gets, what is left, and whether it tore the client down. */
  function Work(judge: Judge, s: State, buf: bytes): (State, bytes, bool)
    decreases |buf|
  {
    match HeadOf(buf)
    case Whole(f, rest) =>
      if judge(f) == IsMalformed then (TearDown(s, BadBytes), buf, true)
      else if Stops(judge, s, f) then (Deliver(judge, s, f), rest, true)
      else Work(judge, Deliver(judge, s, f), rest)
    case _ => (s, buf, false)
  }

  /**
   Decoding `buf` and then `chunk` leaves off at an illegal length that nobody looks at yet: the
   header's first byte came in an earlier chunk, and the declared length is not buffered.
   */
  predicate Waits(buf: bytes, chunk: bytes) {
    && buf != [] && HeadOf(buf + chunk).Illegal?
    && |buf + chunk| < HEADER + PayloadLength(buf + chunk)
  }

  /** What one `data` event does to the state and the bytes kept. */
  predicate Received(judge: Judge, s: State, buf: bytes, chunk: bytes, t: State, kept: bytes) {
    var (u, rest, torn) := Work(judge, s, buf + chunk);
    && kept == rest
    && (torn || !HeadOf(rest).Illegal? ==> t == u)
    && (!torn && HeadOf(rest).Illegal? ==> t == u || t == TearDown(u, BadBytes))
    && (!torn && HeadOf(rest).Illegal? && !HeadOf(buf).Whole? ==>
          t == if Waits(buf, chunk) then u else TearDown(u, BadBytes))
  }

  // ---------- every way of cutting the stream does the same ----------

  /** Decoding in two pieces is decoding in one, unless the first piece already tore the client down. */
  lemma {:induction false} WorkSplit(judge: Judge, s: State, a: bytes, b: bytes)
    ensures var (t, rest, torn) := Work(judge, s, a);
            Work(judge, s, a + b) == if torn then (t, rest + b, true) else Work(judge, t, rest + b)
    decreases |a|
  {
    hide Deliver, TearDown;
    if HeadOf(a).Whole? {
      HeadGrows(a, b);
      var f := HeadOf(a).frame;
      if judge(f) != IsMalformed && !Stops(judge, s, f) {
        WorkSplit(judge, Deliver(judge, s, f), HeadOf(a).rest, b);
      }
    }
  }

  /** What decoding leaves behind starts with no whole frame, unless it tore the client down. */
  lemma {:induction false} WorkLeavesNoFrame(judge: Judge, s: State, buf: bytes)
    ensures var (t, rest, torn) := Work(judge, s, buf); !torn ==> !HeadOf(rest).Whole?
    decreases |buf|
  {
    hide Deliver, TearDown;
    match HeadOf(buf) {
      case Whole(f, rest) =>
        if judge(f) != IsMalformed && !Stops(judge, s, f) {
          WorkLeavesNoFrame(judge, Deliver(judge, s, f), rest);
        }
      case _ =>
    }
  }

  /** Nothing is waiting, and nothing ever will be. */
  predicate Dead(s: State) {
    s.closed && s.pending == [] && s.queued == []
  }

  lemma {:induction false} WorkWhenDead(judge: Judge, s: State, buf: bytes)
    requires Dead(s)
    ensures var t := Work(judge, s, buf).0; Dead(t) && t.results == s.results && t.replies == s.replies
    decreases |buf|
  {
    match HeadOf(buf) {
      case Whole(f, rest) =>
        if judge(f) == IsPing {
          WorkWhenDead(judge, Deliver(judge, s, f), rest);
        }
      case _ =>
    }
  }

  function Concat(chunks: seq<bytes>): bytes {
    if chunks == [] then [] else Concat(chunks[..|chunks| - 1]) + chunks[|chunks| - 1]
  }

  /** `states[i]` and `kept[i]` after the first `i` chunks. */
  ghost predicate Fed(judge: Judge, chunks: seq<bytes>, states: seq<State>, kept: seq<bytes>) {
    && |states| == |kept| == |chunks| + 1 && kept[0] == []
    && (forall i :: 0 <= i < |chunks| ==> chunks[i] != [])
    && (forall i :: 0 <= i < |chunks| ==> Received(judge, states[i], kept[i], chunks[i], states[i + 1], kept[i + 1]))
  }

  /** In step with decoding `stream` in one piece. */
  ghost predicate InStep(judge: Judge, start: State, stream: bytes, s: State, kept: bytes) {
    var (t, rest, torn) := Work(judge, start, stream); !torn && s == t && kept == rest
  }

  /** Torn down, with everything settled the way decoding `stream` in one piece settles it. */
  ghost predicate DownInStep(judge: Judge, start: State, stream: bytes, s: State) {
    var (t, rest, torn) := Work(judge, start, stream);
    && (torn || HeadOf(rest).Illegal?)
    && Dead(s) && s.replies == t.replies
    && s.results == if torn then t.results else TearDown(t, BadBytes).results
  }

  lemma {:induction false} WorkTorn(judge: Judge, s: State, buf: bytes)
    ensures Work(judge, s, buf).2 ==> Dead(Work(judge, s, buf).0)
    decreases |buf|
  {
    match HeadOf(buf) {
      case Whole(f, rest) =>
        if judge(f) != IsMalformed && !Stops(judge, s, f) {
          WorkTorn(judge, Deliver(judge, s, f), rest);
        }
      case _ =>
    }
  }

  lemma InStepNext(judge: Judge, start: State, stream: bytes, s: State, kept: bytes, chunk: bytes, t: State, keep: bytes)
    requires InStep(judge, start, stream, s, kept) && Received(judge, s, kept, chunk, t, keep)
    ensures InStep(judge, start, stream + chunk, t, keep) || DownInStep(judge, start, stream + chunk, t)
  {
    hide HeadOf;
    WorkSplit(judge, start, stream, chunk);
    WorkTorn(judge, s, kept + chunk);
  }

  lemma DownInStepNext(judge: Judge, start: State, stream: bytes, s: State, kept: bytes, chunk: bytes, t: State, keep: bytes)
    requires DownInStep(judge, start, stream, s) && Received(judge, s, kept, chunk, t, keep)
    ensures DownInStep(judge, start, stream + chunk, t)
  {
    WorkSplit(judge, start, stream, chunk);
    WorkWhenDead(judge, s, kept + chunk);
    var (u, rest, torn) := Work(judge, start, stream);
    if !torn {
      HeadGrows(rest, chunk);
    }
  }

  lemma {:induction false} FedInStep(judge: Judge, chunks: seq<bytes>, states: seq<State>, kept: seq<bytes>, k: nat)
    requires Fed(judge, chunks, states, kept) && k <= |chunks|
    ensures || InStep(judge, states[0], Concat(chunks[..k]), states[k], kept[k])
            || DownInStep(judge, states[0], Concat(chunks[..k]), states[k])
  {
    hide InStep, DownInStep, Received;
    if k == 0 {
      NothingFed(judge, states[0]);
    } else {
      FedInStep(judge, chunks, states, kept, k - 1);
      assert chunks[..k][..k - 1] == chunks[..k - 1];
      var stream := Concat(chunks[..k - 1]);
      assert Received(judge, states[k - 1], kept[k - 1], chunks[k - 1], states[k - 1 + 1], kept[k - 1 + 1]);
      if InStep(judge, states[0], stream, states[k - 1], kept[k - 1]) {
        InStepNext(judge, states[0], stream, states[k - 1], kept[k - 1], chunks[k - 1], states[k], kept[k]);
      } else {
        DownInStepNext(judge, states[0], stream, states[k - 1], kept[k - 1], chunks[k - 1], states[k], kept[k]);
      }
    }
  }

  lemma NothingFed(judge: Judge, s: State)
    ensures InStep(judge, s, [], s, [])
  {
  }

  /**
   Chunking does not matter. Whatever the cut, the frames matched to requests are those of decoding
   the whole stream in one piece. When one-piece decoding meets no illegal length, everything
   settles the same way, and unless it tears the client down the states are equal and no whole
   frame is left. At an illegal length a cut stream may still be waiting where one piece closes.
   */
  lemma ChunkingDoesNotMatter(judge: Judge, chunks: seq<bytes>, states: seq<State>, kept: seq<bytes>)
    requires Fed(judge, chunks, states, kept)
    ensures var (t, rest, torn) := Work(judge, states[0], Concat(chunks));
            var s, keep := states[|chunks|], kept[|chunks|];
            && s.replies == t.replies
            && (torn || !HeadOf(rest).Illegal? ==> s.results == t.results)
            && (!torn && !HeadOf(rest).Illegal? ==> s == t && keep == rest && !HeadOf(keep).Whole?)
            && (!torn && HeadOf(rest).Illegal? ==> s == t || s.results == TearDown(t, BadBytes).results)
  {
    hide Work, HeadOf, TearDown;
    FedInStep(judge, chunks, states, kept, |chunks|);
    assert chunks[..|chunks|] == chunks;
    WorkLeavesNoFrame(judge, states[0], Concat(chunks));
  }

  // ---------- replies in order ----------

  /** The frames of a stream that answer something. */
  function Answers(judge: Judge, frames: seq<Frame>): seq<Frame> {
    if frames == [] then []
    else if judge(frames[0]) == IsPing then Answers(judge, frames[1..])
    else [frames[0]] + Answers(judge, frames[1..])
  }

  lemma AnswersNone(judge: Judge)
    ensures Answers(judge, []) == []
  {
  }

  lemma AnswersNext(judge: Judge, f: Frame, frames: seq<Frame>)
    ensures Answers(judge, [f] + frames) == if judge(f) == IsPing then Answers(judge, frames) else [f] + Answers(judge, frames)
  {
    assert ([f] + frames)[1..] == frames;
  }

  /** Frames are matched to requests in stream order, none skipped and none twice. */
  lemma {:induction false} RepliesInOrder(judge: Judge, s: State, buf: bytes)
    ensures var (t, rest, torn) := Work(judge, s, buf);
            && s.replies <= t.replies <= s.replies + Answers(judge, FramesOf(buf))
            && (!torn ==> t.replies == s.replies + Answers(judge, FramesOf(buf)))
    decreases |buf|
  {
    hide Deliver, HeadOf, Reject, Answers;
    match HeadOf(buf) {
      case Whole(f, rest) =>
        AnswersNext(judge, f, FramesOf(rest));
        if judge(f) != IsMalformed {
          DeliverReplies(judge, s, f);
          if !Stops(judge, s, f) {
            RepliesInOrder(judge, Deliver(judge, s, f), rest);
          }
        }
      case _ =>
        AnswersNone(judge);
    }
  }

  lemma DeliverReplies(judge: Judge, s: State, f: Frame)
    requires judge(f) != IsMalformed
    ensures Deliver(judge, s, f).replies == if judge(f) == IsPing || s.pending == [] then s.replies else s.replies + [f]
  {
    if s.pending != [] {
      var t := s.(pending := s.pending[1..], replies := s.replies + [f]);
      PumpKeeps(t);
      PumpKeeps(Resolve(t, s.pending[0].id, TooLarge(f)));
    }
  }

  lemma {:induction false} PumpKeeps(s: State)
    ensures var t := Pump(s);
            t == s.(pending := t.pending, queued := t.queued, wire := t.wire)
    decreases |s.queued|
  {
    if s.queued != [] && |s.pending| < s.window && !OverBudget(s) {
      PumpKeeps(Advance(s));
    }
  }
}
