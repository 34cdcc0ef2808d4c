/**
 The client itself: one object whose queues, chunk list and flags are updated in place by `Send`,
 `Pump`, `OnData` and `OnClose`. Each method is proved to take the step `ClientSpec` describes.
 */
module Client {
  import opened Bytes
  import opened Wrappers
  import opened ClientSpec
  import WireSpec

  lemma {:induction false} ConcatFront(chunks: seq<bytes>)
    requires chunks != []
    ensures Concat(chunks) == chunks[0] + Concat(chunks[1..])
  {
    if |chunks| == 1 {
      assert chunks[..0] == [] && chunks[1..] == [];
    } else {
      var n := |chunks| - 1;
      ConcatFront(chunks[..n]);
      assert chunks[1..][..n - 1] == chunks[..n][1..];
    }
  }

  lemma ConcatOne(chunk: bytes)
    ensures Concat([chunk]) == chunk
  {
    assert [chunk][..0] == [];
  }

  lemma ConcatSnoc(chunks: seq<bytes>, chunk: bytes)
    ensures Concat(chunks + [chunk]) == Concat(chunks) + chunk
  {
    assert (chunks + [chunk])[..|chunks|] == chunks;
  }

  predicate NoEmpty(chunks: seq<bytes>) {
    forall i :: 0 <= i < |chunks| ==> chunks[i] != []
  }

  lemma ConcatNonEmpty(chunks: seq<bytes>)
    requires NoEmpty(chunks) && chunks != []
    ensures Concat(chunks) != []
  {
  }

  /** Dropping bytes off the front of the first chunk, or that chunk and then the rest of them. */
  lemma DropFront(chunks: seq<bytes>, n: nat)
    requires chunks != [] && NoEmpty(chunks) && n <= |Concat(chunks)|
    ensures var head, rest := chunks[0], chunks[1..];
            if |head| <= n then
              && NoEmpty(rest) && |Concat(rest)| == |Concat(chunks)| - |head|
              && Concat(rest)[n - |head|..] == Concat(chunks)[n..]
            else
              NoEmpty([head[n..]] + rest) && Concat([head[n..]] + rest) == Concat(chunks)[n..]
  {
    hide Concat;
    var head, rest := chunks[0], chunks[1..];
    ConcatFront(chunks);
    if |head| > n {
      ConcatFront([head[n..]] + rest);
      assert ([head[n..]] + rest)[1..] == rest;
    }
  }

  /** With several chunks there is more than the last one. */
  lemma LastChunk(chunks: seq<bytes>)
    requires NoEmpty(chunks)
    ensures chunks != [] ==> |Concat(chunks)| == |Concat(chunks[..|chunks| - 1])| + |chunks[|chunks| - 1]|
    ensures |chunks| > 1 ==> Concat(chunks[..|chunks| - 1]) != []
  {
    if |chunks| > 1 {
      ConcatNonEmpty(chunks[..|chunks| - 1]);
    }
  }

  // ---------- requests that never go out ----------

  datatype Refusal = IsClosed | WasAborted | TooManyParams | Unencodable | RequestTooLarge

  datatype Sending = Queued(id: nat) | Refused(why: Refusal)

  datatype Build = Built(size: nat) | Unsendable(why: Refusal)

  /** A frame is built exactly when the server would take it as a frame. */
  function BuildFrame(params: nat, frame: Option<nat>): (b: Build)
    ensures b.Built? <==> params <= WireSpec.MAX_PARAMS && frame.Some? && frame.value <= HEADER + MAX_PAYLOAD
    ensures b.Built? ==> b.size == frame.value
  {
    if params > WireSpec.MAX_PARAMS then Unsendable(TooManyParams)
    else match frame
      case None => Unsendable(Unencodable)
      case Some(size) => if size - HEADER > MAX_PAYLOAD then Unsendable(RequestTooLarge) else Built(size)
  }

  class Client {
    var chunks: seq<bytes>
    var totalLen: nat
    var pending: seq<Req>
    var queued: seq<Req>
    var closed: bool
    var closeError: Option<CloseReason>
    var wire: seq<Sent>
    var results: map<nat, Outcome>
    var nextId: nat
    const maxInFlight: nat
    const judge: Judge
    ghost var replies: seq<Frame>

    ghost function State(): State
      reads this
    {
      ClientSpec.State(pending, queued, closed, closeError, wire, replies, results, nextId, maxInFlight)
    }

    /** The bytes received and not yet decoded. */
    ghost function Kept(): bytes
      reads this
    {
      Concat(chunks)
    }

    ghost predicate Valid()
      reads this
    {
      totalLen == |Concat(chunks)| && NoEmpty(chunks)
    }

    constructor (maxInFlight: nat, judge: Judge)
      requires maxInFlight >= 1
      ensures Valid() && State() == Fresh(maxInFlight) && Kept() == []
      ensures this.maxInFlight == maxInFlight && this.judge == judge
    {
      chunks, totalLen, pending, queued, closed, closeError := [], 0, [], [], false, None;
      wire, results, nextId, replies := [], map[], 0, [];
      this.maxInFlight := maxInFlight;
      this.judge := judge;
    }

    /**
     Queue a request of `params` parameters; `frame` is the length of its encoding, if it has one, and
     `aborted` whether its signal had already fired. A refused request leaves no trace.
     */
    method Send(params: nat, frame: Option<nat>, aborted: bool) returns (r: Sending)
      requires Valid()
      modifies this
      ensures Valid() && chunks == old(chunks)
      ensures r.Queued? <==> !old(closed) && !aborted && BuildFrame(params, frame).Built?
      ensures State() == if r.Queued? then Enqueue(old(State()), BuildFrame(params, frame).size) else old(State())
      ensures r.Queued? ==> r.id == old(nextId)
      ensures r.Refused? ==> r.why == if old(closed) then IsClosed else if aborted then WasAborted
                                      else BuildFrame(params, frame).why
    {
      if closed {
        return Refused(IsClosed);
      }
      if aborted {
        return Refused(WasAborted);
      }
      var built := BuildFrame(params, frame);
      if built.Unsendable? {
        return Refused(built.why);
      }
      r := Queued(nextId);
      queued, nextId := queued + [Req(nextId, built.size)], nextId + 1;
      Pump();
    }

    method AbortRequest(id: nat)
      requires Valid() && id < nextId
      modifies this`results
      ensures Valid() && State() == Abort(old(State()), id)
    {
      if id !in results {
        results := results[id := Aborted];
      }
    }

    /** Write queued requests until the window is full, in frames or in bytes. */
    method Pump()
      requires Valid()
      modifies this`queued, this`pending, this`wire
      ensures Valid() && State() == ClientSpec.Pump(old(State()))
    {
      var inFlightBytes := 0;
      for i := 0 to |pending|
        invariant inFlightBytes == Size(pending[..i])
      {
        assert pending[..i + 1][..i] == pending[..i];
        inFlightBytes := inFlightBytes + pending[i].size;
      }
      assert pending[..|pending|] == pending;
      while queued != [] && |pending| < maxInFlight
        invariant ClientSpec.Pump(State()) == ClientSpec.Pump(old(State()))
        invariant inFlightBytes == Size(pending)
        decreases |queued|
      {
        var next := queued[0];
        if next.id !in results && pending != [] && inFlightBytes + next.size >= MAX_IN_FLIGHT_BYTES {
          break;
        }
        queued := queued[1..];
        if next.id !in results {
          inFlightBytes := inFlightBytes + next.size;
          assert (pending + [next])[..|pending|] == pending;
          pending := pending + [next];
          wire := wire + [Request(next.id)];
        }
      }
    }

    /** Collapse the chunk list into one. */
    method Coalesce()
      requires Valid()
      modifies this`chunks
      ensures Valid() && Kept() == old(Kept())
      ensures |chunks| == if |old(chunks)| == 0 then 0 else 1
    {
      if |chunks| <= 1 {
        return;
      }
      var merged := [];
      for i := 0 to |chunks|
        invariant merged == Concat(chunks[..i])
      {
        assert chunks[..i + 1][..i] == chunks[..i];
        merged := merged + chunks[i];
      }
      assert chunks[..|chunks|] == chunks;
      ConcatFront(chunks);
      ConcatOne(merged);
      chunks := [merged];
    }

    /** Drop the first `n` bytes. */
    method Consume(n: nat)
      requires Valid() && n <= totalLen
      modifies this`chunks, this`totalLen
      ensures Valid() && Kept() == old(Kept())[n..]
      ensures |chunks| <= |old(chunks)|
      ensures old(chunks) != [] && n >= |Concat(old(chunks)[..|old(chunks)| - 1])| ==> |chunks| <= 1
    {
      hide Concat, NoEmpty;
      var remaining: nat := n;
      ConcatNone();
      ghost var last := if chunks == [] then [] else chunks[|chunks| - 1];
      while remaining > 0 && chunks != []
        invariant Valid() && remaining <= totalLen
        invariant Kept()[remaining..] == old(Kept())[n..]
        invariant |chunks| <= |old(chunks)|
        invariant |chunks| > 1 ==> chunks[|chunks| - 1] == last
        decreases remaining, |chunks|
      {
        var head := chunks[0];
        DropFront(chunks, remaining);
        if |head| <= remaining {
          remaining, totalLen, chunks := remaining - |head|, totalLen - |head|, chunks[1..];
        } else {
          chunks := [head[remaining..]] + chunks[1..];
          totalLen := totalLen - remaining;
          remaining := 0;
        }
      }
      assert remaining == 0 && Kept()[0..] == Kept();
      LastChunk(chunks);
      LastChunk(old(chunks));
    }

    /** Reject everything that is waiting. The socket's own close does nothing on a closed client. */
    method OnClose(err: Option<CloseReason>)
      requires Valid()
      modifies this`closed, this`closeError, this`pending, this`queued, this`results
      ensures Valid()
      ensures State() == if err.Some? then TearDown(old(State()), err.value) else SocketEnded(old(State()))
    {
      hide Reject;
      if closed && err.None? {
        return;
      }
      closed := true;
      var reason := if err.Some? then err.value else SocketClosed;
      closeError := Some(reason);
      ghost var waiting := pending + queued;
      while pending != []
        invariant closed && closeError == Some(reason)
        invariant Reject(results, pending + queued, Closed(reason)) == Reject(old(results), waiting, Closed(reason))
        decreases |pending|
      {
        var entry := pending[0];
        RejectHead(results, pending + queued, Closed(reason));
        assert (pending + queued)[1..] == pending[1..] + queued;
        pending := pending[1..];
        if entry.id !in results {
          results := results[entry.id := Closed(reason)];
        }
      }
      assert pending + queued == queued;
      while queued != []
        invariant closed && closeError == Some(reason) && pending == []
        invariant Reject(results, queued, Closed(reason)) == Reject(old(results), waiting, Closed(reason))
        decreases |queued|
      {
        var entry := queued[0];
        RejectHead(results, queued, Closed(reason));
        queued := queued[1..];
        if entry.id !in results {
          results := results[entry.id := Closed(reason)];
        }
      }
      RejectNone(results, Closed(reason));
    }

    /** Send Disconnect and stop taking requests. */
    method Close()
      requires Valid()
      modifies this`wire, this`closed
      ensures Valid() && State() == GracefulClose(old(State()))
    {
      if closed {
        return;
      }
      wire := wire + [Disconnect];
      closed := true;
    }

    /** Hand one whole frame to whoever it is for; false when it tore the client down. */
    method Dispatch(frame: Frame) returns (ok: bool)
      requires Valid() && judge(frame) != IsMalformed
      modifies this`closed, this`closeError, this`pending, this`queued, this`results, this`wire, this`replies
      ensures Valid() && State() == Deliver(judge, old(State()), frame)
      ensures ok <==> !Stops(judge, old(State()), frame)
    {
      if judge(frame) == IsPing {
        wire := wire + [Pong];
        return true;
      }
      if pending == [] {
        OnClose(Some(Unexpected(frame)));
        return false;
      }
      var entry := pending[0];
      pending := pending[1..];
      replies := replies + [frame];
      if judge(frame) == IsTooLarge {
        if entry.id !in results {
          results := results[entry.id := TooLarge(frame)];
        }
        Pump();
      } else {
        Pump();
        if entry.id !in results {
          results := results[entry.id := Replied(frame)];
        }
      }
      ok := true;
    }

    /**
     The buffer to decode from: the only chunk, or the first when it holds a whole frame, or
     everything in one piece. `None` means to wait for more.
     */
    method View() returns (view: Option<bytes>)
      requires Valid() && chunks != []
      modifies this`chunks
      ensures Valid() && Kept() == old(Kept()) && 0 < |chunks| <= |old(chunks)|
      ensures view.Some? ==> view.value <= Kept() && (view.value == Kept() || !HeadOf(view.value).Short?)
      ensures |old(chunks)| == 1 ==> view == Some(Kept())
      ensures |old(chunks)| > 1 ==>
                (view.Some? <==> |Kept()| >= HEADER && |Kept()| >= HEADER + PayloadLength(Kept()))
      ensures |chunks| == 1 || chunks == old(chunks)
    {
      ConcatFront(chunks);
      if |chunks| == 1 {
        return Some(chunks[0]);
      }
      if |chunks[0]| < HEADER && totalLen >= HEADER {
        Coalesce();
        ConcatFront(chunks);
      }
      var first := chunks[0];
      if |first| < HEADER {
        return None;
      }
      var payloadLen := PayloadLength(first);
      assert Kept()[2..6] == first[2..6];
      if |first| >= HEADER + payloadLen {
        return Some(first);
      }
      if totalLen >= HEADER + payloadLen {
        Coalesce();
        ConcatFront(chunks);
        return Some(chunks[0]);
      }
      return None;
    }

    method Push(chunk: bytes)
      requires Valid() && chunk != []
      modifies this`chunks, this`totalLen
      ensures Valid() && chunks == old(chunks) + [chunk] && Kept() == old(Kept()) + chunk
      ensures old(chunks) != [] ==> old(Kept()) != []
    {
      ConcatSnoc(chunks, chunk);
      if chunks != [] {
        ConcatNonEmpty(chunks);
      }
      chunks := chunks + [chunk];
      totalLen := totalLen + |chunk|;
    }

    /**
     One turn of the decoding loop. It goes on after delivering the frame in front; otherwise it has
     torn the client down, or is waiting: for the rest of a frame, or at an illegal length in a
     split buffer that does not hold the length declared.
     */
    method Turn() returns (again: bool)
      requires Valid() && chunks != []
      modifies this
      ensures Valid()
      ensures again <==> GoesOn(judge, old(State()), old(Kept()))
      ensures again ==>
                && State() == Deliver(judge, old(State()), HeadOf(old(Kept())).frame)
                && Kept() == HeadOf(old(Kept())).rest
                && (HEADER + |HeadOf(old(Kept())).frame.payload| >= |Concat(old(chunks)[..|old(chunks)| - 1])| ==> |chunks| <= 1)
      ensures !again && HeadOf(old(Kept())).Whole? ==> Work(judge, old(State()), old(Kept())) == (State(), Kept(), true)
      ensures !again && !HeadOf(old(Kept())).Whole? ==>
                && Kept() == old(Kept())
                && State() == if HeadOf(Kept()).Illegal? && !(|old(chunks)| > 1 && Unbuffered(Kept()))
                              then TearDown(old(State()), BadBytes) else old(State())
    {
      hide HeadOf, Work, PayloadLength, Deliver, TearDown, Concat, NoEmpty;
      ghost var kept, before := Kept(), chunks;
      WorkCases(judge, State(), kept);
      BufferedOrNot(kept);
      var view := View();
      if view.None? {
        return false;
      }
      ViewHead(view.value, Kept());
      match HeadOf(view.value) {
        case Short =>
          again := false;
        case Illegal =>
          OnClose(Some(BadBytes));
          again := false;
        case Whole(frame, _) =>
          if judge(frame) == IsMalformed {
            OnClose(Some(BadBytes));
            again := false;
          } else {
            Consume(HEADER + |frame.payload|);
            again := Dispatch(frame);
          }
      }
    }

    /** A `data` event: decode and dispatch every frame that is now whole. */
    method OnData(chunk: bytes)
      requires Valid() && chunk != []
      modifies this
      ensures Valid()
      ensures Received(judge, old(State()), old(Kept()), chunk, State(), Kept())
    {
      hide HeadOf, Work, PayloadLength, Deliver, TearDown, Received, Waits, Concat, NoEmpty, Unbuffered, GoesOn;
      ghost var held, start := Kept(), State();
      ghost var all := held + chunk;
      Boundary(held, chunk);
      ConcatNone();
      Push(chunk);
      while totalLen > 0
        invariant Valid()
        invariant Work(judge, State(), Kept()) == Work(judge, start, all)
        invariant Kept() == all || HeadOf(all).Whole?
        invariant Kept() == all ==> chunks == old(chunks) + [chunk]
        invariant Kept() != all && !HeadOf(held).Whole? ==> |chunks| <= 1
        decreases totalLen
      {
        ghost var s, kept, parts := State(), Kept(), |chunks|;
        WorkCases(judge, s, kept);
        GoesOnMeans(judge, s, kept);
        var again := Turn();
        if !again {
          Settled(judge, start, held, chunk, s, kept, parts > 1, State(), Kept());
          return;
        }
      }
      WorkCases(judge, State(), Kept());
      Boundary(Kept(), []);
      ReceivedRest(judge, start, held, chunk, State(), Kept());
    }
  }

  /** A whole frame is in front, and delivering it does not end the loop. */
  predicate GoesOn(judge: Judge, s: State, kept: bytes) {
    HeadOf(kept).Whole? && judge(HeadOf(kept).frame) != IsMalformed && !Stops(judge, s, HeadOf(kept).frame)
  }

  /** A header is there and what it declares is not. */
  predicate Unbuffered(kept: bytes) {
    |kept| >= HEADER && |kept| < HEADER + PayloadLength(kept)
  }

  /** Facts about where frames end. */
  lemma Boundary(held: bytes, chunk: bytes)
    ensures HeadOf(held + chunk).Whole? && !HeadOf(held).Whole? ==>
              |held| < HEADER + |HeadOf(held + chunk).frame.payload| <= |held + chunk|
    ensures |held| < HEADER ==> HeadOf(held).Short?
    ensures |held| >= HEADER && |held| < HEADER + PayloadLength(held) ==> !HeadOf(held).Whole?
    ensures Waits(held, chunk) <==>
            && held != [] && |held + chunk| >= HEADER && HeadOf(held + chunk).Illegal?
            && |held + chunk| < HEADER + PayloadLength(held + chunk)
  {
    if !HeadOf(held).Whole? && HeadOf(held + chunk).Whole? && |held| >= HEADER {
      assert (held + chunk)[2..6] == held[2..6];
    }
  }

  lemma BufferedOrNot(kept: bytes)
    ensures |kept| < HEADER ==> HeadOf(kept).Short?
    ensures Unbuffered(kept) ==> !HeadOf(kept).Whole?
    ensures Unbuffered(kept) <==> |kept| >= HEADER && |kept| < HEADER + PayloadLength(kept)
    ensures HeadOf(kept).Illegal? ==> |kept| >= HEADER
  {
  }

  lemma GoesOnMeans(judge: Judge, s: State, kept: bytes)
    ensures GoesOn(judge, s, kept) ==>
              && HeadOf(kept).Whole? && judge(HeadOf(kept).frame) != IsMalformed
              && Work(judge, s, kept) == Work(judge, Deliver(judge, s, HeadOf(kept).frame), HeadOf(kept).rest)
    ensures !GoesOn(judge, s, kept) && HeadOf(kept).Whole? ==> Work(judge, s, kept).2
  {
  }

  lemma ConcatNone()
    ensures Concat([]) == []
  {
  }

  lemma ReceivedRest(judge: Judge, s: State, held: bytes, chunk: bytes, t: State, kept: bytes)
    requires Work(judge, s, held + chunk) == (t, kept, false) && !HeadOf(kept).Illegal?
    ensures Received(judge, s, held, chunk, t, kept)
  {
  }

  /** The loop's last turn leaves what a `data` event is to leave. */
  lemma Settled(judge: Judge, start: State, held: bytes, chunk: bytes, s: State, kept: bytes, split: bool, t: State, keep: bytes)
    requires Work(judge, s, kept) == Work(judge, start, held + chunk)
    requires kept == held + chunk || HeadOf(held + chunk).Whole?
    requires kept == held + chunk ==> (split <==> held != [])
    requires kept != held + chunk && !HeadOf(held).Whole? ==> !split
    requires HeadOf(kept).Whole? ==> Work(judge, s, kept) == (t, keep, true)
    requires !HeadOf(kept).Whole? ==>
               && keep == kept
               && t == if HeadOf(kept).Illegal? && !(split && Unbuffered(kept)) then TearDown(s, BadBytes) else s
    ensures Received(judge, start, held, chunk, t, keep)
  {
    hide PayloadLength, TearDown, Deliver, HeadOf, Work;
    WorkCases(judge, s, kept);
    BufferedOrNot(kept);
    Boundary(held, chunk);
  }

  /** Decoding from the view is decoding from everything kept. */
  lemma ViewHead(view: bytes, kept: bytes)
    requires view <= kept && (view == kept || !HeadOf(view).Short?)
    ensures HeadOf(view).Short? <==> HeadOf(kept).Short?
    ensures HeadOf(view).Illegal? <==> HeadOf(kept).Illegal?
    ensures HeadOf(view).Whole? ==>
              && HEADER + |HeadOf(view).frame.payload| <= |view|
              && HeadOf(kept) == Whole(HeadOf(view).frame, kept[HEADER + |HeadOf(view).frame.payload|..])
  {
    if view != kept {
      HeadGrows(view, kept[|view|..]);
      assert view + kept[|view|..] == kept;
    }
  }

  /** One turn of the decoding loop. */
  lemma WorkCases(judge: Judge, s: State, kept: bytes)
    ensures !HeadOf(kept).Whole? ==> Work(judge, s, kept) == (s, kept, false)
    ensures HeadOf(kept).Whole? && judge(HeadOf(kept).frame) == IsMalformed ==>
              Work(judge, s, kept) == (TearDown(s, BadBytes), kept, true)
    ensures HeadOf(kept).Whole? && judge(HeadOf(kept).frame) != IsMalformed && Stops(judge, s, HeadOf(kept).frame) ==>
              Work(judge, s, kept) == (Deliver(judge, s, HeadOf(kept).frame), HeadOf(kept).rest, true)
    ensures HeadOf(kept).Whole? && judge(HeadOf(kept).frame) != IsMalformed && !Stops(judge, s, HeadOf(kept).frame) ==>
              Work(judge, s, kept) == Work(judge, Deliver(judge, s, HeadOf(kept).frame), HeadOf(kept).rest)
  {
  }

  predicate HasId(rs: seq<Req>, id: nat) {
    exists r :: r in rs && r.id == id
  }

  lemma RejectKey(results: map<nat, Outcome>, rs: seq<Req>, o: Outcome, id: nat)
    ensures id in Reject(results, rs, o) <==> id in results || HasId(rs, id)
    ensures id in Reject(results, rs, o) ==> Reject(results, rs, o)[id] == if id in results then results[id] else o
  {
  }

  lemma RejectHead(results: map<nat, Outcome>, rs: seq<Req>, o: Outcome)
    requires rs != []
    ensures Reject(if rs[0].id in results then results else results[rs[0].id := o], rs[1..], o) == Reject(results, rs, o)
  {
    hide Reject;
    var next := if rs[0].id in results then results else results[rs[0].id := o];
    assert forall r :: r in rs <==> r == rs[0] || r in rs[1..];
    forall id
      ensures id in Reject(next, rs[1..], o) <==> id in Reject(results, rs, o)
      ensures id in Reject(results, rs, o) ==> Reject(next, rs[1..], o)[id] == Reject(results, rs, o)[id]
    {
      RejectKey(next, rs[1..], o, id);
      RejectKey(results, rs, o, id);
    }
  }

  lemma RejectNone(results: map<nat, Outcome>, o: Outcome)
    ensures Reject(results, [], o) == results
  {
  }
}
