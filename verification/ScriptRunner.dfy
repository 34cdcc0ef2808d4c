/**
 The pipelined script runner. Statements go out one window ahead of their replies; the replies, the
 moments they arrive and the moments the caller aborts or the connection closes are all chosen by
 the environment.
 */
module ScriptRunner {
  import opened Wrappers

  datatype Reply = Ok(value: int) | Failed(error: int)

  datatype Query = Begin | Statement(index: nat) | Commit | Rollback

  datatype Result =
    | Refused
    | BeginFailed
    | CommitFailed
    | Results(values: seq<int>)
    | Outcomes(outcomes: seq<Reply>)
    | ScriptError(index: nat, values: seq<int>, cause: int)

  /** The first `n` statements, in order. */
  function Statements(n: nat): (qs: seq<Query>)
    ensures |qs| == n
  {
    seq(n, i requires 0 <= i < n => Statement(i))
  }

  predicate AllOk(reply: nat -> Reply, n: nat) {
    forall j :: 0 <= j < n ==> reply(j).Ok?
  }

  /** The values of the first `n` replies. */
  function Values(reply: nat -> Reply, n: nat): (vs: seq<int>)
    requires AllOk(reply, n)
    ensures |vs| == n
  {
    seq(n, j requires 0 <= j < n => reply(j).value)
  }

  /** Statement `f` is the first of the first `n` to fail. */
  predicate FirstFailure(reply: nat -> Reply, n: nat, f: nat) {
    f < n && reply(f).Failed? && AllOk(reply, f)
  }

  /** Reply `j` arrived in one of the batches up to `i`. */
  predicate Arrived(arrivals: nat -> seq<nat>, i: nat, j: nat) {
    exists k: nat :: k <= i && j in arrivals(k)
  }

  /**
   `arrivals(i)` are the replies handled between two guards of the loop, the later one at statement
   `i`. Only dispatched statements are answered, and the reply that frees a slot has been awaited.
   */
  ghost predicate Timely(arrivals: nat -> seq<nat>, window: nat, n: nat) {
    && (forall i: nat, j :: i < n && j in arrivals(i) ==> j < i)
    && (forall i: nat, j: nat :: j + window <= i < n ==> Arrived(arrivals, i, j))
  }

  /** What the handlers have recorded: outcomes of the statements in `seen`, and the earliest failure. */
  ghost predicate Recorded(reply: nat -> Reply, seen: set<nat>, outcomes: seq<Option<Reply>>, first: Option<nat>) {
    && (forall j :: j in seen ==> j < |outcomes|)
    && (forall j :: 0 <= j < |outcomes| ==> outcomes[j] == if j in seen then Some(reply(j)) else None)
    && (first.Some? ==> first.value in seen && reply(first.value).Failed?)
    && (forall j :: j in seen && reply(j).Failed? ==> first.Some? && first.value <= j)
  }

  /** The settlement handler of statement `j`. */
  method Settle(reply: nat -> Reply, j: nat, outcomes: seq<Option<Reply>>, first: Option<nat>, ghost seen: set<nat>)
    returns (next: seq<Option<Reply>>, earliest: Option<nat>)
    requires Recorded(reply, seen, outcomes, first) && j < |outcomes|
    ensures Recorded(reply, seen + {j}, next, earliest) && |next| == |outcomes|
  {
    next, earliest := outcomes[j := Some(reply(j))], first;
    if reply(j).Failed? && (first.None? || j < first.value) {
      earliest := Some(j);
    }
  }

  method SettleBatch(reply: nat -> Reply, batch: seq<nat>, outcomes: seq<Option<Reply>>, first: Option<nat>, ghost seen: set<nat>)
    returns (next: seq<Option<Reply>>, earliest: Option<nat>, ghost now: set<nat>)
    requires Recorded(reply, seen, outcomes, first) && forall j :: j in batch ==> j < |outcomes|
    ensures now == seen + (set j | j in batch) && |next| == |outcomes|
    ensures Recorded(reply, now, next, earliest)
  {
    next, earliest, now := outcomes, first, seen;
    for k := 0 to |batch|
      invariant |next| == |outcomes| && now == seen + (set j | j in batch[..k])
      invariant Recorded(reply, now, next, earliest)
    {
      assert batch[k] in batch;
      next, earliest := Settle(reply, batch[k], next, earliest, now);
      now := now + {batch[k]};
      assert batch[..k + 1] == batch[..k] + [batch[k]];
    }
    assert batch[..|batch|] == batch;
  }

  /**
   Dispatch statements until the script is done or doomed, and wait for every reply. Fail-fast
   never gets a whole window past the first failure.
   */
  method Dispatch(n: nat, continueOnError: bool, window: nat, reply: nat -> Reply, arrivals: nat -> seq<nat>, stop: nat -> bool)
    returns (wire: seq<Query>, dispatched: nat, outcomes: seq<Option<Reply>>, first: Option<nat>)
    requires window >= 1 && Timely(arrivals, window, n)
    ensures dispatched <= n && wire == Statements(dispatched)
    ensures |outcomes| == n && forall j :: 0 <= j < n ==> outcomes[j] == if j < dispatched then Some(reply(j)) else None
    ensures first.None? ==> AllOk(reply, dispatched)
    ensures first.Some? ==> FirstFailure(reply, dispatched, first.value)
    ensures !continueOnError && first.Some? ==> dispatched <= first.value + window
    ensures forall i :: 0 <= i < dispatched ==> !stop(i)
    ensures dispatched < n ==> stop(dispatched) || (!continueOnError && first.Some?)
  {
    outcomes, first, dispatched, wire := seq(n, _ => None), None, 0, [];
    ghost var seen: set<nat> := {};
    while dispatched < n
      invariant dispatched <= n && |outcomes| == n && wire == Statements(dispatched)
      invariant Recorded(reply, seen, outcomes, first)
      invariant forall j :: j in seen ==> j < dispatched
      invariant forall i: nat, j :: i < dispatched && j in arrivals(i) ==> j in seen
      invariant forall i :: 0 <= i < dispatched ==> !stop(i)
      invariant !continueOnError ==> forall j: nat :: j + window < dispatched ==> reply(j).Ok?
    {
      var i := dispatched;
      outcomes, first, seen := SettleBatch(reply, arrivals(i), outcomes, first, seen);
      forall j: nat | j + window <= i ensures j in seen {
        assert Arrived(arrivals, i, j);
      }
      if stop(i) || (!continueOnError && first.Some?) {
        break;
      }
      wire := wire + [Statement(i)];
      dispatched := dispatched + 1;
    }
    for j := 0 to dispatched
      invariant |outcomes| == n && Recorded(reply, seen, outcomes, first)
      invariant forall i :: i in seen ==> i < dispatched
      invariant forall i :: 0 <= i < j ==> i in seen
      invariant dispatched < n ==> stop(dispatched) || (!continueOnError && first.Some?)
    {
      outcomes, first := Settle(reply, j, outcomes, first, seen);
      seen := seen + {j};
    }
  }

  /** Everything a transaction needs before it may commit: all dispatched, all answered, none failed. */
  predicate Complete(reply: nat -> Reply, n: nat, dispatched: nat) {
    dispatched == n && AllOk(reply, n)
  }

  /** How the transaction is ended. */
  function Ending(transactional: bool, complete: bool, commitOk: bool): seq<Query> {
    if !transactional then []
    else if !complete then [Rollback]
    else if commitOk then [Commit]
    else [Commit, Rollback]
  }

  /** Where a script that did not complete is said to have failed. */
  predicate FailsAt(reply: nat -> Reply, dispatched: nat, f: nat) {
    FirstFailure(reply, dispatched, f) || (f == dispatched && AllOk(reply, dispatched))
  }

  /**
   Run a script. `commit` goes out if and only if every statement was dispatched and succeeded, and
   then after all of them; anything else rolls back. A failed script reports the first failure with
   exactly the results before it, and nothing a window past that failure was dispatched.
   Continue-on-error reports one outcome per statement.
   */
  method ExecScript<S>(statements: seq<S>, isControl: S -> bool, transactional: bool, continueOnError: bool, window: nat,
                       reply: nat -> Reply, arrivals: nat -> seq<nat>, stop: nat -> bool, stopError: int,
                       beginOk: bool, commitOk: bool)
    returns (r: Result, wire: seq<Query>, dispatched: nat)
    requires window >= 1 && Timely(arrivals, window, |statements|)
    ensures r == Refused <==>
            transactional && (continueOnError || exists i :: 0 <= i < |statements| && isControl(statements[i]))
    ensures r == BeginFailed <==> r != Refused && transactional && !beginOk
    ensures r == Refused ==> wire == []
    ensures r == BeginFailed ==> wire == [Begin]
    ensures r != Refused && r != BeginFailed ==>
              && dispatched <= |statements|
              && wire == (if transactional then [Begin] else []) + Statements(dispatched)
                         + Ending(transactional, Complete(reply, |statements|, dispatched), commitOk)
    ensures Commit in wire <==> transactional && (r.Results? || r == CommitFailed)
    ensures Commit in wire ==> Complete(reply, |statements|, dispatched)
    ensures r.Results? && transactional ==> wire == [Begin] + Statements(|statements|) + [Commit]
    ensures r == CommitFailed ==> wire == [Begin] + Statements(|statements|) + [Commit, Rollback]
    ensures r.ScriptError? && transactional ==> wire == [Begin] + Statements(dispatched) + [Rollback]
    ensures !transactional ==> wire == Statements(dispatched)
    ensures r.Results? <==>
            && r != Refused && r != BeginFailed && !continueOnError
            && Complete(reply, |statements|, dispatched) && (transactional ==> commitOk)
    ensures r.Results? ==> r.values == Values(reply, |statements|)
    ensures r == CommitFailed <==>
            && r != Refused && r != BeginFailed && transactional && !commitOk
            && Complete(reply, |statements|, dispatched)
    ensures r.ScriptError? <==>
            r != Refused && r != BeginFailed && !continueOnError && !Complete(reply, |statements|, dispatched)
    ensures r.ScriptError? ==>
              && r.index < |statements| && FailsAt(reply, dispatched, r.index)
              && dispatched <= r.index + window
              && r.values == Values(reply, r.index)
              && r.cause == if r.index < dispatched then reply(r.index).error else stopError
    ensures r.Outcomes? <==> r != Refused && continueOnError
    ensures r.Outcomes? ==> |r.outcomes| == |statements|
    ensures r.Outcomes? ==>
              forall i :: 0 <= i < |statements| ==> r.outcomes[i] == if i < dispatched then reply(i) else Failed(stopError)
    ensures r != Refused && r != BeginFailed && dispatched < |statements| ==>
              stop(dispatched) || (!continueOnError && exists f :: FirstFailure(reply, dispatched, f))
    ensures r != Refused && r != BeginFailed ==> forall i :: 0 <= i < dispatched ==> !stop(i)
  {
    var n := |statements|;
    wire, dispatched := [], 0;
    if transactional {
      if continueOnError {
        return Refused, [], 0;
      }
      for i := 0 to n
        invariant forall j :: 0 <= j < i ==> !isControl(statements[j])
      {
        if isControl(statements[i]) {
          return Refused, [], 0;
        }
      }
      wire := [Begin];
      if !beginOk {
        return BeginFailed, wire, 0;
      }
    }
    var sent, count, outcomes, first := Dispatch(n, continueOnError, window, reply, arrivals, stop);
    wire, dispatched := wire + sent, count;
    if continueOnError {
      var all := Fill(reply, outcomes, dispatched, stopError);
      return Outcomes(all), wire, dispatched;
    }
    var cause := stopError;
    if first.Some? {
      cause := reply(first.value).error;
    } else if dispatched < n {
      first := Some(dispatched);
    }
    if first.Some? {
      if transactional {
        wire := wire + [Rollback];
      }
      var values := Collect(reply, outcomes, first.value);
      return ScriptError(first.value, values, cause), wire, dispatched;
    }
    if transactional {
      wire := wire + [Commit];
      if !commitOk {
        wire := wire + [Rollback];
        return CommitFailed, wire, dispatched;
      }
    }
    var values := Collect(reply, outcomes, n);
    r := Results(values);
  }

  /** The successful results before statement `n`. */
  method Collect(reply: nat -> Reply, outcomes: seq<Option<Reply>>, n: nat) returns (values: seq<int>)
    requires n <= |outcomes| && AllOk(reply, n) && forall j :: 0 <= j < n ==> outcomes[j] == Some(reply(j))
    ensures values == Values(reply, n)
  {
    values := [];
    for i := 0 to n
      invariant values == Values(reply, i)
    {
      if outcomes[i].Some? && outcomes[i].value.Ok? {
        values := values + [outcomes[i].value.value];
      }
    }
  }

  /** Outcomes for the statements that were never dispatched. */
  method Fill(reply: nat -> Reply, outcomes: seq<Option<Reply>>, dispatched: nat, reason: int) returns (all: seq<Reply>)
    requires dispatched <= |outcomes| && forall j :: 0 <= j < dispatched ==> outcomes[j] == Some(reply(j))
    ensures |all| == |outcomes|
    ensures forall i :: 0 <= i < |all| ==> all[i] == if i < dispatched then reply(i) else Failed(reason)
  {
    all := [];
    for i := 0 to |outcomes|
      invariant |all| == i
      invariant forall j :: 0 <= j < i ==> all[j] == if j < dispatched then reply(j) else Failed(reason)
    {
      all := all + [if i < dispatched then outcomes[i].value else Failed(reason)];
    }
  }
}
