/**
 The connection pool as a state machine. Connects, timeouts and client failures finish whenever they
 like; each finishing is an event. `held` counts, for each client, the callers it is handed out to;
 `known` is every client ever connected, and `lost` the waiters nobody will settle.
 */
module PoolSpec {

  datatype Outcome = Got(client: nat) | TimedOut | ConnectFailed | PoolClosed

  datatype State = State(idle: seq<nat>, waiters: seq<nat>, owned: set<nat>, live: int, closed: bool,
                         direct: nat, serving: set<nat>, held: multiset<nat>, known: set<nat>,
                         results: map<nat, Outcome>, lost: set<nat>, nextWaiter: nat, max: real)

  function Fresh(max: real): State {
    State([], [], {}, 0, false, 0, {}, multiset{}, {}, map[], {}, 0, max)
  }

  predicate HasSlot(s: State) {
    (s.live as real) < s.max
  }

  // ---------- the events ----------

  /** Serve waiters while there is headroom: each takes a slot and a connect of its own. */
  function Drain(s: State): State
    decreases |s.waiters|
  {
    if s.closed || s.waiters == [] || !HasSlot(s) then s else Drain(Serve(s))
  }

  function Serve(s: State): State
    requires s.waiters != []
  {
    s.(waiters := s.waiters[1..], live := s.live + 1, serving := s.serving + {s.waiters[0]})
  }

  function Acquire(s: State): State {
    if s.closed then s
    else if s.idle != [] then s.(idle := s.idle[1..], held := s.held + multiset{s.idle[0]})
    else if HasSlot(s) then s.(live := s.live + 1, direct := s.direct + 1)
    else s.(waiters := s.waiters + [s.nextWaiter], nextWaiter := s.nextWaiter + 1)
  }

  function Adopt(s: State, c: nat): State {
    s.(owned := s.owned + {c}, held := s.held + multiset{c}, known := s.known + {c})
  }

  /** An `acquire` connect succeeds; the caller gets the client even if the pool closed meanwhile. */
  function Connected(s: State, c: nat): State
    requires s.direct > 0
  {
    Adopt(s.(direct := s.direct - 1), c)
  }

  function ConnectRejected(s: State): State
    requires s.direct > 0
  {
    Drain(s.(live := s.live - 1, direct := s.direct - 1))
  }

  /** A connect made for waiter `w` succeeds. On a closed pool the client is closed and `w` forgotten. */
  function Served(s: State, w: nat, c: nat): State {
    var t := s.(serving := s.serving - {w});
    if s.closed then t.(live := if s.live > 0 then s.live - 1 else s.live, lost := s.lost + {w}, known := s.known + {c})
    else Adopt(t.(results := s.results[w := Got(c)]), c)
  }

  function ServeRejected(s: State, w: nat): State {
    Drain(s.(live := s.live - 1, serving := s.serving - {w}, results := s.results[w := ConnectFailed]))
  }

  /** `idle` without its first `c`. */
  function Without(idle: seq<nat>, c: nat): seq<nat> {
    if idle == [] then [] else if idle[0] == c then idle[1..] else [idle[0]] + Without(idle[1..], c)
  }

  function Evict(s: State, c: nat): State {
    if c !in s.owned then s
    else
      var t := s.(owned := s.owned - {c}, live := if s.live > 0 then s.live - 1 else s.live, idle := Without(s.idle, c));
      if s.closed then t else Drain(t)
  }

  function Release(s: State, c: nat): State {
    if c !in s.owned then s.(held := s.held - multiset{c})
    else if s.closed then Evict(s.(held := s.held - multiset{c}), c)
    else if s.waiters != [] then s.(waiters := s.waiters[1..], results := s.results[s.waiters[0] := Got(c)])
    else s.(idle := s.idle + [c], held := s.held - multiset{c})
  }

  function Destroy(s: State, c: nat): State {
    Evict(s.(held := s.held - multiset{c}), c)
  }

  function Timeout(s: State, w: nat): State {
    s.(waiters := Without(s.waiters, w), results := s.results[w := TimedOut])
  }

  function RejectAll(results: map<nat, Outcome>, waiters: seq<nat>): map<nat, Outcome>
    decreases waiters
  {
    if waiters == [] then results else RejectAll(results[waiters[0] := PoolClosed], waiters[1..])
  }

  function SetOf(xs: seq<nat>): set<nat> {
    set x | x in xs
  }

  function Close(s: State): State {
    if s.closed then s
    else s.(closed := true, waiters := [], results := RejectAll(s.results, s.waiters),
            idle := [], owned := s.owned - SetOf(s.idle), live := s.live - |s.idle|)
  }

  // ---------- the invariant ----------

  predicate Distinct(xs: seq<nat>) {
    forall i, j :: 0 <= i < j < |xs| ==> xs[i] != xs[j]
  }

  /** Every owned client is idle or handed out, never both, and to one caller at a time. */
  ghost predicate Clients(s: State) {
    && (forall c :: c in s.owned || c in s.held ==> c in s.known)
    && Distinct(s.idle)
    && (forall c :: s.held[c] <= 1)
    && (forall c :: c in s.idle ==> c in s.owned && c !in s.held)
    && (forall c :: c in s.owned ==> c in s.idle || c in s.held)
  }

  /** Slots are owned clients plus connects in flight, and never a whole one past `max`. */
  predicate Slots(s: State) {
    && s.live == |s.owned| + s.direct + |s.serving|
    && (s.live as real) < s.max + 1.0 && s.max >= 1.0
  }

  function One(b: bool): nat {
    if b then 1 else 0
  }

  /** In how many places waiter `w` is: queued, being served, settled, lost. */
  function Places(s: State, w: nat): nat {
    One(w in s.waiters) + One(w in s.serving) + One(w in s.results) + One(w in s.lost)
  }

  /** Every waiter so far is in exactly one place, and only closing the pool loses one. */
  ghost predicate Waiters(s: State) {
    && Distinct(s.waiters)
    && (forall w: nat :: Places(s, w) == One(w < s.nextWaiter))
    && (s.lost != {} ==> s.closed)
  }

  predicate Idle(s: State) {
    && (s.waiters != [] ==> s.idle == [])
    && (s.closed ==> s.waiters == [] && s.idle == [])
  }

  /** While open, nobody waits for something that is there. */
  predicate NoneWaitsInVain(s: State) {
    !s.closed && s.waiters != [] ==> s.idle == [] && !HasSlot(s)
  }

  ghost predicate Inv(s: State) {
    Clients(s) && Slots(s) && Waiters(s) && Idle(s) && NoneWaitsInVain(s)
  }

  // ---------- every event keeps it ----------

  lemma Head(xs: seq<nat>)
    requires xs != []
    ensures forall x :: x in xs <==> x == xs[0] || x in xs[1..]
    ensures Distinct(xs) ==> xs[0] !in xs[1..] && Distinct(xs[1..])
  {
  }

  lemma {:induction false} SetOfSize(xs: seq<nat>)
    requires Distinct(xs)
    ensures |SetOf(xs)| == |xs|
  {
    if xs != [] {
      Head(xs);
      SetOfSize(xs[1..]);
      assert SetOf(xs) == {xs[0]} + SetOf(xs[1..]);
    }
  }

  lemma {:induction false} WithoutSet(xs: seq<nat>, c: nat)
    requires Distinct(xs)
    ensures Distinct(Without(xs, c)) && forall x :: x in Without(xs, c) <==> x in xs && x != c
  {
    if xs != [] {
      Head(xs);
      WithoutSet(xs[1..], c);
    }
  }

  lemma {:induction false} DrainInv(s: State)
    requires Clients(s) && Slots(s) && Waiters(s) && Idle(s)
    ensures Inv(Drain(s))
    decreases |s.waiters|
  {
    hide Clients, Waiters;
    if !s.closed && s.waiters != [] && HasSlot(s) {
      ServeInv(s);
      DrainInv(Serve(s));
    }
  }

  lemma ServeInv(s: State)
    requires Clients(s) && Slots(s) && Waiters(s) && Idle(s) && s.waiters != [] && HasSlot(s)
    ensures Clients(Serve(s)) && Slots(Serve(s)) && Waiters(Serve(s)) && Idle(Serve(s))
  {
    Head(s.waiters);
    var t := Serve(s);
    forall w: nat ensures Places(t, w) == One(w < t.nextWaiter) {
      assert Places(s, w) == One(w < s.nextWaiter);
    }
    assert Places(s, s.waiters[0]) == One(s.waiters[0] < s.nextWaiter);
  }

  /** The waiters' places change only for `w`. */
  lemma WaitersMoved(s: State, t: State, w: nat)
    requires Waiters(s) && t.nextWaiter == s.nextWaiter && Distinct(t.waiters)
    requires forall v: nat :: v != w ==> Places(t, v) == Places(s, v)
    requires Places(t, w) == Places(s, w)
    requires t.lost != {} ==> t.closed
    ensures Waiters(t)
  {
    hide Places;
  }

  lemma AcquireInv(s: State)
    requires Inv(s)
    ensures Inv(Acquire(s))
  {
    var t := Acquire(s);
    if !s.closed && s.idle != [] {
      Head(s.idle);
      WaitersMoved(s, t, 0);
    } else if !s.closed && !HasSlot(s) {
      assert Places(s, s.nextWaiter) == One(s.nextWaiter < s.nextWaiter);
      forall w: nat ensures Places(t, w) == One(w < t.nextWaiter) {
        assert Places(s, w) == One(w < s.nextWaiter);
      }
    } else {
      WaitersMoved(s, t, 0);
    }
  }

  lemma ConnectedInv(s: State, c: nat)
    requires Inv(s) && s.direct > 0 && c !in s.known
    ensures Inv(Connected(s, c))
  {
    WaitersMoved(s, Connected(s, c), 0);
  }

  lemma ConnectRejectedInv(s: State)
    requires Inv(s) && s.direct > 0
    ensures Inv(ConnectRejected(s))
  {
    hide Drain;
    var t := s.(live := s.live - 1, direct := s.direct - 1);
    WaitersMoved(s, t, 0);
    DrainInv(t);
  }

  lemma ServedInv(s: State, w: nat, c: nat)
    requires Inv(s) && w in s.serving && c !in s.known
    ensures Inv(Served(s, w, c))
  {
    assert Places(s, w) == One(w < s.nextWaiter);
    WaitersMoved(s, Served(s, w, c), w);
  }

  lemma ServeRejectedInv(s: State, w: nat)
    requires Inv(s) && w in s.serving
    ensures Inv(ServeRejected(s, w))
  {
    hide Drain;
    assert Places(s, w) == One(w < s.nextWaiter);
    var t := s.(live := s.live - 1, serving := s.serving - {w}, results := s.results[w := ConnectFailed]);
    WaitersMoved(s, t, w);
    DrainInv(t);
  }

  lemma EvictClients(s: State, t: State, c: nat)
    requires Clients(s) && c in s.owned && t.owned == s.owned - {c} && t.idle == Without(s.idle, c) && t.known == s.known
    requires t.held == s.held || t.held == s.held - multiset{c}
    ensures Clients(t)
  {
    WithoutSet(s.idle, c);
  }

  /** Evicting a client that is idle, or that its holder has just let go of or lost. */
  lemma EvictInv(s: State, c: nat, keep: bool)
    requires Inv(s) && c in s.owned && (!keep ==> c in s.held)
    ensures Inv(Evict(if keep then s else s.(held := s.held - multiset{c}), c))
  {
    hide Drain, Clients;
    var u := if keep then s else s.(held := s.held - multiset{c});
    var t := u.(owned := s.owned - {c}, live := if s.live > 0 then s.live - 1 else s.live, idle := Without(s.idle, c));
    EvictClients(s, t, c);
    WaitersMoved(s, t, 0);
    assert Slots(t) && Idle(t);
    DrainInv(t);
  }

  lemma ReleaseInv(s: State, c: nat)
    requires Inv(s) && c in s.held
    ensures Inv(Release(s, c))
  {
    var t := Release(s, c);
    if c in s.owned && s.closed {
      EvictInv(s, c, false);
    } else if c in s.owned && s.waiters != [] {
      Head(s.waiters);
      assert Places(s, s.waiters[0]) == One(s.waiters[0] < s.nextWaiter);
      WaitersMoved(s, t, s.waiters[0]);
    } else {
      WaitersMoved(s, t, 0);
    }
  }

  lemma DestroyInv(s: State, c: nat)
    requires Inv(s) && c in s.held
    ensures Inv(Destroy(s, c))
  {
    hide Drain;
    if c in s.owned {
      EvictInv(s, c, false);
    } else {
      WaitersMoved(s, Destroy(s, c), 0);
    }
  }

  lemma TimeoutInv(s: State, w: nat)
    requires Inv(s) && w in s.waiters
    ensures Inv(Timeout(s, w))
  {
    WithoutSet(s.waiters, w);
    assert Places(s, w) == One(w < s.nextWaiter);
    WaitersMoved(s, Timeout(s, w), w);
  }

  lemma {:induction false} RejectAllSettles(results: map<nat, Outcome>, waiters: seq<nat>)
    ensures forall w :: w in RejectAll(results, waiters) <==> w in results || w in waiters
    decreases waiters
  {
    if waiters != [] {
      RejectAllSettles(results[waiters[0] := PoolClosed], waiters[1..]);
    }
  }

  lemma CloseInv(s: State)
    requires Inv(s)
    ensures Inv(Close(s))
  {
    if !s.closed {
      var t := Close(s);
      RejectAllSettles(s.results, s.waiters);
      forall w: nat ensures Places(t, w) == One(w < t.nextWaiter) {
        assert Places(s, w) == One(w < s.nextWaiter);
      }
      SetOfSize(s.idle);
      assert s.owned == t.owned + SetOf(s.idle);
    }
  }

  // ---------- every interleaving ----------

  datatype Event =
    | Ask
    | ConnectDone(client: nat)
    | ConnectError
    | ServeDone(waiter: nat, client: nat)
    | ServeError(waiter: nat)
    | GiveBack(client: nat)
    | Discard(client: nat)
    | ClientClosed(client: nat)
    | TimerFires(waiter: nat)
    | Shut

  /** Connects make new clients, callers give back only what they hold, timers run only for queued waiters. */
  predicate Step(s: State, e: Event, t: State) {
    match e
    case Ask => t == Acquire(s)
    case ConnectDone(c) => s.direct > 0 && c !in s.known && t == Connected(s, c)
    case ConnectError => s.direct > 0 && t == ConnectRejected(s)
    case ServeDone(w, c) => w in s.serving && c !in s.known && t == Served(s, w, c)
    case ServeError(w) => w in s.serving && t == ServeRejected(s, w)
    case GiveBack(c) => c in s.held && t == Release(s, c)
    case Discard(c) => c in s.held && t == Destroy(s, c)
    case ClientClosed(c) => t == Evict(s, c)
    case TimerFires(w) => w in s.waiters && t == Timeout(s, w)
    case Shut => t == Close(s)
  }

  lemma StepInv(s: State, e: Event, t: State)
    requires Inv(s) && Step(s, e, t)
    ensures Inv(t)
  {
    hide Inv, Drain;
    match e {
      case Ask => AcquireInv(s);
      case ConnectDone(c) => ConnectedInv(s, c);
      case ConnectError => ConnectRejectedInv(s);
      case ServeDone(w, c) => ServedInv(s, w, c);
      case ServeError(w) => ServeRejectedInv(s, w);
      case GiveBack(c) => ReleaseInv(s, c);
      case Discard(c) => DestroyInv(s, c);
      case ClientClosed(c) =>
        if c in s.owned {
          EvictInv(s, c, true);
        }
      case TimerFires(w) => TimeoutInv(s, w);
      case Shut => CloseInv(s);
    }
  }

  ghost predicate IsRun(max: real, events: seq<Event>, run: seq<State>) {
    && |run| == |events| + 1 && run[0] == Fresh(max)
    && forall i :: 0 <= i < |events| ==> Step(run[i], events[i], run[i + 1])
  }

  lemma {:induction false} RunInv(max: real, events: seq<Event>, run: seq<State>, k: nat)
    requires max >= 1.0 && IsRun(max, events, run) && k <= |events|
    ensures Inv(run[k])
  {
    hide Step;
    if k == 0 {
      assert Inv(Fresh(max));
    } else {
      RunInv(max, events, run, k - 1);
      assert Step(run[k - 1], events[k - 1], run[k - 1 + 1]);
      StepInv(run[k - 1], events[k - 1], run[k]);
    }
  }

  lemma {:induction false} DrainKeeps(s: State)
    ensures Drain(s).max == s.max && Drain(s).lost == s.lost
    decreases |s.waiters|
  {
    if !s.closed && s.waiters != [] && HasSlot(s) {
      DrainKeeps(Serve(s));
    }
  }

  lemma {:induction false} MaxFixed(max: real, events: seq<Event>, run: seq<State>, k: nat)
    requires IsRun(max, events, run) && k <= |events|
    ensures run[k].max == max
  {
    if k > 0 {
      MaxFixed(max, events, run, k - 1);
      assert Step(run[k - 1], events[k - 1], run[k - 1 + 1]);
      forall s: State ensures Drain(s).max == s.max {
        DrainKeeps(s);
      }
    }
  }

  /**
   Pool safety, in every state of every interleaving: slots are owned clients plus connects in
   flight; they stay under `max + 1`; a client is handed out to one caller at a time, and never while
   it is idle; and while the pool is open nobody is queued when a client or a slot is free.
   */
  lemma PoolSafety(max: real, events: seq<Event>, run: seq<State>, k: nat)
    requires max >= 1.0 && IsRun(max, events, run) && k <= |events|
    ensures var s := run[k];
            && s.live == |s.owned| + s.direct + |s.serving|
            && (s.live as real) < max + 1.0
            && (forall c :: s.held[c] <= 1 && (c in s.idle ==> c in s.owned && c !in s.held))
            && (!s.closed && s.waiters != [] ==> s.idle == [] && (s.live as real) >= max)
  {
    RunInv(max, events, run, k);
    MaxFixed(max, events, run, k);
  }

  /**
   Every waiter is queued, being served, settled or lost. One is lost exactly when its own connect
   succeeds after the pool closed, so a pool that is still open has lost none.
   */
  lemma WaitersAccountedFor(max: real, events: seq<Event>, run: seq<State>, k: nat, w: nat)
    requires max >= 1.0 && IsRun(max, events, run) && k < |events| && w < run[k].nextWaiter
    ensures w in run[k].waiters || w in run[k].serving || w in run[k].results || w in run[k].lost
    ensures w in run[k].lost ==> run[k].closed
    ensures w in run[k + 1].lost && w !in run[k].lost <==>
            events[k].ServeDone? && events[k].waiter == w && run[k].closed
  {
    RunInv(max, events, run, k);
    var s, t := run[k], run[k + 1];
    assert Places(s, w) == One(w < s.nextWaiter);
    assert Step(s, events[k], t);
    forall u: State ensures Drain(u).lost == u.lost {
      DrainKeeps(u);
    }
  }

  /** A waiter once lost is never settled. */
  lemma {:induction false} LostForGood(max: real, events: seq<Event>, run: seq<State>, i: nat, j: nat, w: nat)
    requires max >= 1.0 && IsRun(max, events, run) && i <= j <= |events| && w in run[i].lost
    ensures w in run[j].lost && w !in run[j].results
    decreases j
  {
    RunInv(max, events, run, j);
    assert Places(run[j], w) == One(w < run[j].nextWaiter);
    if i < j {
      LostForGood(max, events, run, i, j - 1, w);
      assert Step(run[j - 1], events[j - 1], run[j - 1 + 1]);
      forall u: State ensures Drain(u).lost == u.lost {
        DrainKeeps(u);
      }
    }
  }

  // ---------- who gets what ----------

  /** `s` with the first `n` of its queue being served. */
  function ServingFront(s: State, n: nat): State
    requires n <= |s.waiters|
  {
    s.(waiters := s.waiters[n..], live := s.live + n, serving := s.serving + SetOf(s.waiters[..n]))
  }

  lemma ServeThenMore(s: State, n: nat)
    requires s.waiters != [] && n < |s.waiters|
    ensures ServingFront(Serve(s), n) == ServingFront(s, n + 1)
  {
    var w := s.waiters;
    assert w[1..][n..] == w[n + 1..];
    assert w[..n + 1] == [w[0]] + w[1..][..n];
    assert s.serving + {w[0]} + SetOf(w[1..][..n]) == s.serving + SetOf(w[..n + 1]);
  }

  /** A drain serves some of the front of the queue, and leaves everything else alone. */
  lemma {:induction false} DrainTakesFront(s: State) returns (n: nat)
    ensures n <= |s.waiters| && Drain(s) == ServingFront(s, n)
    decreases |s.waiters|
  {
    hide ServingFront;
    if !s.closed && s.waiters != [] && HasSlot(s) {
      var m := DrainTakesFront(Serve(s));
      ServeThenMore(s, m);
      n := m + 1;
    } else {
      n := 0;
      NoneServed(s);
    }
  }

  lemma NoneServed(s: State)
    ensures ServingFront(s, 0) == s
  {
    assert s.waiters[0..] == s.waiters && s.waiters[..0] == [];
    assert s.serving + SetOf([]) == s.serving;
  }

  /** Why a waiter settles, and with what. */
  predicate SettledBy(s: State, e: Event, w: nat, o: Outcome) {
    match o
    case Got(c) => e == ServeDone(w, c) || (e == GiveBack(c) && s.waiters != [] && s.waiters[0] == w)
    case TimedOut => e == TimerFires(w)
    case ConnectFailed => e == ServeError(w)
    case PoolClosed => e == Shut && w in s.waiters
  }

  lemma DrainSettlesNobody(s: State)
    ensures Drain(s).results == s.results && Drain(s).held == s.held && Drain(s).owned == s.owned
  {
    hide Drain;
    var _ := DrainTakesFront(s);
  }

  lemma {:induction false} RejectAllWith(results: map<nat, Outcome>, waiters: seq<nat>, w: nat)
    ensures w in RejectAll(results, waiters) <==> w in results || w in waiters
    ensures w in RejectAll(results, waiters) ==>
              RejectAll(results, waiters)[w] == if w in waiters then PoolClosed else results[w]
    decreases waiters
  {
    if waiters != [] {
      RejectAllWith(results[waiters[0] := PoolClosed], waiters[1..], w);
    }
  }

  lemma StepSettles(s: State, e: Event, t: State, w: nat)
    requires Inv(s) && Step(s, e, t)
    ensures w in s.results ==> w in t.results && t.results[w] == s.results[w]
    ensures w in t.results && w !in s.results ==> SettledBy(s, e, w, t.results[w])
  {
    hide Drain, Clients, Slots, RejectAll, Idle, NoneWaitsInVain;
    assert Places(s, w) == One(w < s.nextWaiter);
    match e {
      case GiveBack(c) =>
        if s.waiters != [] {
          assert s.waiters[0] in s.waiters;
        }
        DrainAfter(s.(held := s.held - multiset{c}), c);
      case Discard(c) => DrainAfter(s.(held := s.held - multiset{c}), c);
      case ClientClosed(c) => DrainAfter(s, c);
      case ConnectError => DrainSettlesNobody(s.(live := s.live - 1, direct := s.direct - 1));
      case ServeError(v) =>
        DrainSettlesNobody(s.(live := s.live - 1, serving := s.serving - {v}, results := s.results[v := ConnectFailed]));
      case Shut => RejectAllWith(s.results, s.waiters, w);
      case _ =>
    }
  }

  lemma GotIsHeld(s: State, e: Event, t: State, w: nat)
    requires Inv(s) && Step(s, e, t) && (e.ServeDone? || e.GiveBack?)
    requires w in t.results && w !in s.results && t.results[w].Got? && SettledBy(s, e, w, t.results[w])
    ensures t.results[w].client in t.owned && t.held[t.results[w].client] == 1
  {
    hide Drain, Slots, Waiters, Clients, RejectAll;
    if e.ServeDone? {
      ServedInv(s, e.waiter, e.client);
    } else {
      ReleaseInv(s, e.client);
      DrainAfter(s.(held := s.held - multiset{e.client}), e.client);
    }
    HandedOut(t);
  }

  /** A client handed out is held once. */
  lemma HandedOut(t: State)
    requires Clients(t)
    ensures forall c :: c in t.held ==> t.held[c] == 1
  {
  }

  lemma DrainAfter(u: State, c: nat)
    ensures Evict(u, c).results == u.results
  {
    hide Drain;
    DrainSettlesNobody(u.(owned := u.owned - {c}, live := if u.live > 0 then u.live - 1 else u.live, idle := Without(u.idle, c)));
  }

  /**
   In every run a waiter settles once, for one reason, and with what that reason brings: the client its own
   connect made, or the one given back while it was first in the queue. It then holds that client alone.
   */
  lemma WaitersGetTheirOwn(max: real, events: seq<Event>, run: seq<State>, k: nat, w: nat)
    requires max >= 1.0 && IsRun(max, events, run) && k < |events|
    ensures var s, t := run[k], run[k + 1];
            && (w in s.results ==> w in t.results && t.results[w] == s.results[w])
            && (w in t.results && w !in s.results ==> SettledBy(s, events[k], w, t.results[w]))
            && (w in t.results && w !in s.results && t.results[w].Got? ==>
                  t.results[w].client in t.owned && t.held[t.results[w].client] == 1)
  {
    hide Inv, Step;
    RunInv(max, events, run, k);
    assert Step(run[k], events[k], run[k + 1]);
    StepSettles(run[k], events[k], run[k + 1], w);
    if w in run[k + 1].results && w !in run[k].results && run[k + 1].results[w].Got? {
      GotIsHeld(run[k], events[k], run[k + 1], w);
    }
  }

  // ---------- first come, first served ----------

  predicate Ascending(xs: seq<nat>) {
    forall i, j :: 0 <= i < j < |xs| ==> xs[i] < xs[j]
  }

  lemma {:induction false} WithoutAscends(xs: seq<nat>, x: nat)
    requires Ascending(xs)
    ensures Ascending(Without(xs, x)) && forall y :: y in Without(xs, x) ==> y in xs
  {
    if xs != [] && xs[0] != x {
      WithoutAscends(xs[1..], x);
      var rest := Without(xs[1..], x);
      forall j | 0 <= j < |rest| ensures xs[0] < rest[j] {
        assert rest[j] in rest && rest[j] in xs[1..];
      }
    }
  }

  /** `ys` is `xs` without some of its front. */
  predicate Suffix(ys: seq<nat>, xs: seq<nat>) {
    |ys| <= |xs| && ys == xs[|xs| - |ys|..]
  }

  lemma DrainSuffix(s: State)
    ensures Suffix(Drain(s).waiters, s.waiters)
  {
    hide Drain;
    var _ := DrainTakesFront(s);
  }

  lemma SuffixAscends(ys: seq<nat>, xs: seq<nat>)
    requires Suffix(ys, xs) && Ascending(xs)
    ensures Ascending(ys)
  {
  }

  lemma NewcomerIsLast(s: State)
    requires Waiters(s) && Ascending(s.waiters)
    ensures Ascending(s.waiters + [s.nextWaiter])
  {
    forall i | 0 <= i < |s.waiters| ensures s.waiters[i] < s.nextWaiter {
      assert s.waiters[i] in s.waiters;
      assert Places(s, s.waiters[i]) == One(s.waiters[i] < s.nextWaiter);
    }
  }

  lemma LeavesSuffix(s: State, e: Event, t: State)
    requires Step(s, e, t) && !e.TimerFires? && (e == Ask ==> t.waiters == s.waiters)
    ensures Suffix(t.waiters, s.waiters)
  {
    hide Drain, RejectAll, Without;
    match e {
      case ConnectError => DrainSuffix(s.(live := s.live - 1, direct := s.direct - 1));
      case ServeError(w) =>
        DrainSuffix(s.(live := s.live - 1, serving := s.serving - {w}, results := s.results[w := ConnectFailed]));
      case GiveBack(c) => EvictSuffix(s.(held := s.held - multiset{c}), c);
      case Discard(c) => EvictSuffix(s.(held := s.held - multiset{c}), c);
      case ClientClosed(c) => EvictSuffix(s, c);
      case _ =>
    }
  }

  lemma QueueStep(s: State, e: Event, t: State)
    requires Inv(s) && Step(s, e, t) && Ascending(s.waiters)
    ensures Ascending(t.waiters)
    ensures Suffix(t.waiters, s.waiters) || (e == Ask && t.waiters == s.waiters + [s.nextWaiter]) || e.TimerFires?
  {
    hide Drain, Clients, Slots, Waiters, RejectAll, Without, Ascending, Suffix;
    if e.TimerFires? {
      WithoutAscends(s.waiters, e.waiter);
    } else if e == Ask && t.waiters != s.waiters {
      NewcomerIsLast(s);
    } else {
      LeavesSuffix(s, e, t);
      SuffixAscends(t.waiters, s.waiters);
    }
  }

  lemma EvictSuffix(u: State, c: nat)
    ensures Suffix(Evict(u, c).waiters, u.waiters)
  {
    hide Drain;
    DrainSuffix(u.(owned := u.owned - {c}, live := if u.live > 0 then u.live - 1 else u.live, idle := Without(u.idle, c)));
  }

  lemma {:induction false} QueueAscends(max: real, events: seq<Event>, run: seq<State>, k: nat)
    requires max >= 1.0 && IsRun(max, events, run) && k <= |events|
    ensures Ascending(run[k].waiters)
  {
    hide Inv, Step;
    if k > 0 {
      QueueAscends(max, events, run, k - 1);
      RunInv(max, events, run, k - 1);
      assert Step(run[k - 1], events[k - 1], run[k - 1 + 1]);
      QueueStep(run[k - 1], events[k - 1], run[k]);
    }
  }

  /**
   In every run the queue is in the order of arrival, and whoever leaves it, but for a timeout of its own,
   leaves nobody behind who came before.
   */
  lemma FirstComeFirstServed(max: real, events: seq<Event>, run: seq<State>, k: nat, w: nat, v: nat)
    requires max >= 1.0 && IsRun(max, events, run) && k < |events|
    requires w in run[k].waiters && w !in run[k + 1].waiters && events[k] != TimerFires(w)
    requires v in run[k + 1].waiters
    ensures Ascending(run[k].waiters) && w < v
  {
    hide Inv, Step;
    QueueAscends(max, events, run, k);
    RunInv(max, events, run, k);
    var s, t := run[k], run[k + 1];
    assert Step(s, events[k], t);
    QueueStep(s, events[k], t);
    if events[k].TimerFires? {
      TimerTakesOne(s, events[k].waiter, t, w);
    } else if Suffix(t.waiters, s.waiters) {
      var i :| 0 <= i < |s.waiters| && s.waiters[i] == w;
      var j :| 0 <= j < |t.waiters| && t.waiters[j] == v;
      var d := |s.waiters| - |t.waiters|;
      assert s.waiters[d + j] == v;
      assert s.waiters == s.waiters[..d] + t.waiters;
      assert i < d;
    }
  }

  lemma TimerTakesOne(s: State, x: nat, t: State, w: nat)
    requires Inv(s) && Step(s, TimerFires(x), t) && w in s.waiters && w != x
    ensures w in t.waiters
  {
    hide Clients, Slots, Places;
    WithoutSet(s.waiters, x);
  }

  /**
   An acquire on an open pool does exactly one thing: it hands out the client that has been idle longest,
   else connects if there is a slot, else queues.
   */
  lemma AskDecides(max: real, events: seq<Event>, run: seq<State>, k: nat)
    requires max >= 1.0 && IsRun(max, events, run) && k < |events| && events[k] == Ask
    ensures var s, t := run[k], run[k + 1];
            && (s.closed ==> t == s)
            && (!s.closed && s.idle != [] ==>
                  && s.idle == [s.idle[0]] + t.idle && t.held == s.held + multiset{s.idle[0]} && s.held[s.idle[0]] == 0
                  && t.direct == s.direct && t.waiters == s.waiters && t.live == s.live)
            && (!s.closed && s.idle == [] && (s.live as real) < max ==>
                  t.direct == s.direct + 1 && t.live == s.live + 1 && t.held == s.held && t.waiters == s.waiters)
            && (!s.closed && s.idle == [] && (s.live as real) >= max ==>
                  t.waiters == s.waiters + [s.nextWaiter] && t.nextWaiter == s.nextWaiter + 1
                  && t.held == s.held && t.direct == s.direct && t.live == s.live)
  {
    RunInv(max, events, run, k);
    MaxFixed(max, events, run, k);
    var s := run[k];
    assert Step(s, events[k], run[k + 1]);
    if !s.closed && s.idle != [] {
      assert s.idle[0] in s.idle;
    }
  }

  /**
   A client given back to an open pool goes to the first waiter if there is one, and else to the end of the
   idle list. A closed pool lets it go, and one it no longer owns is left alone.
   */
  lemma GiveBackDecides(max: real, events: seq<Event>, run: seq<State>, k: nat)
    requires max >= 1.0 && IsRun(max, events, run) && k < |events| && events[k].GiveBack?
    ensures var s, t, c := run[k], run[k + 1], events[k].client;
            && c in s.held
            && (c in s.owned && !s.closed && s.waiters != [] ==>
                  && s.waiters == [s.waiters[0]] + t.waiters && t.held == s.held && t.idle == s.idle
                  && s.waiters[0] in t.results && t.results[s.waiters[0]] == Got(c))
            && (c in s.owned && !s.closed && s.waiters == [] ==> t.idle == s.idle + [c] && t.held == s.held - multiset{c})
            && (c in s.owned && s.closed ==> t.owned == s.owned - {c} && t.live == s.live - 1 && t.held == s.held - multiset{c})
            && (c !in s.owned ==> t == s.(held := s.held - multiset{c}))
  {
    hide Drain;
    RunInv(max, events, run, k);
    var s := run[k];
    assert Step(s, events[k], run[k + 1]);
    if events[k].client in s.owned {
      assert |s.owned| > 0;
    }
  }

  // ---------- the cap ----------

  /** After `k` events of this run the pool holds more than `max` slots. */
  ghost predicate Exceeds(max: real, events: seq<Event>, run: seq<State>, k: nat) {
    IsRun(max, events, run) && k <= |events| && (run[k].live as real) > max
  }

  /** `n` acquires in a row, all of them still connecting. */
  function Asking(max: real, n: nat): State {
    Fresh(max).(live := n, direct := n)
  }

  function Asks(n: nat): seq<Event> {
    seq(n, i => Ask)
  }

  function AskingRun(max: real, n: nat): seq<State> {
    seq(n + 1, i requires 0 <= i <= n => Asking(max, i))
  }

  lemma AskingIsRun(max: real, n: nat)
    requires n > 0 ==> ((n - 1) as real) < max
    ensures IsRun(max, Asks(n), AskingRun(max, n))
  {
  }

  lemma WholeBound(live: int, n: int)
    requires (live as real) < n as real + 1.0
    ensures live <= n
  {
  }

  lemma WholeMaxIsKept(max: real, events: seq<Event>, run: seq<State>, k: nat)
    requires max >= 1.0 && max == max.Floor as real
    ensures !Exceeds(max, events, run, k)
  {
    hide Step;
    if IsRun(max, events, run) && k <= |events| {
      PoolSafety(max, events, run, k);
      WholeBound(run[k].live, max.Floor);
    }
  }

  lemma FractionIsExceeded(max: real)
    requires max >= 1.0 && max > max.Floor as real
    ensures Exceeds(max, Asks(max.Floor + 1), AskingRun(max, max.Floor + 1), max.Floor + 1)
  {
    hide IsRun;
    AskingIsRun(max, max.Floor + 1);
  }

  /** The cap is kept exactly by a whole-number `max`, though the constructor takes any from 1 up. */
  lemma CapHoldsExactly(max: real)
    requires max >= 1.0
    ensures (forall events, run, k :: !Exceeds(max, events, run, k)) <==> max == max.Floor as real
  {
    hide Exceeds;
    if max == max.Floor as real {
      forall events, run, k ensures !Exceeds(max, events, run, k) {
        WholeMaxIsKept(max, events, run, k);
      }
    } else {
      FractionIsExceeded(max);
    }
  }

  // ---------- a run that loses a waiter ----------

  /** The fewest connects that leave no slot free. */
  function Ceiling(max: real): nat
    requires max >= 1.0
  {
    if max == max.Floor as real then max.Floor else max.Floor + 1
  }

  lemma RunGrows(max: real, events: seq<Event>, run: seq<State>, e: Event, t: State)
    requires IsRun(max, events, run) && Step(run[|events|], e, t)
    ensures IsRun(max, events + [e], run + [t])
  {
    hide Step;
    var all, states := events + [e], run + [t];
    forall i | 0 <= i < |all| ensures Step(states[i], all[i], states[i + 1]) {
      if i < |events| {
        assert Step(run[i], events[i], run[i + 1]);
      }
    }
  }

  /**
   Some run of every pool loses a waiter: all slots are connecting, one caller queues, a connect fails
   and its slot goes to that caller, the pool is closed, and then the caller's connect succeeds.
   */
  lemma LosingIsReachable(max: real, c: nat) returns (events: seq<Event>, run: seq<State>)
    requires max >= 1.0
    ensures IsRun(max, events, run) && 0 in run[|events|].lost
  {
    hide IsRun;
    var n := Ceiling(max);
    AskingIsRun(max, n);
    var queued := Asking(max, n).(waiters := [0], nextWaiter := 1);
    var served := Asking(max, n).(direct := n - 1, serving := {0}, nextWaiter := 1);
    assert ConnectRejected(queued) == served by {
      assert Serve(queued.(live := n - 1, direct := n - 1)) == served && Drain(served) == served;
    }
    var shut := Close(served);
    var lost := Served(shut, 0, c);
    events, run := Asks(n), AskingRun(max, n);
    RunGrows(max, events, run, Ask, queued);
    events, run := events + [Ask], run + [queued];
    RunGrows(max, events, run, ConnectError, served);
    events, run := events + [ConnectError], run + [served];
    RunGrows(max, events, run, Shut, shut);
    events, run := events + [Shut], run + [shut];
    RunGrows(max, events, run, ServeDone(0, c), lost);
    events, run := events + [ServeDone(0, c)], run + [lost];
  }

  // ---------- steps the pool object takes ----------

  /** Where `x` first is in `xs`, or past the end. */
  method IndexOf(xs: seq<nat>, x: nat) returns (i: nat)
    ensures i <= |xs| && x !in xs[..i] && (i < |xs| ==> xs[i] == x)
  {
    i := 0;
    while i < |xs| && xs[i] != x
      invariant i <= |xs| && x !in xs[..i]
    {
      i := i + 1;
    }
  }

  /** Cutting out that place is removing the first `x`. */
  lemma {:induction false} WithoutAt(xs: seq<nat>, x: nat, i: nat)
    requires i <= |xs| && x !in xs[..i] && (i < |xs| ==> xs[i] == x)
    ensures Without(xs, x) == if i < |xs| then xs[..i] + xs[i + 1..] else xs
    decreases i
  {
    if i > 0 {
      assert xs[0] in xs[..i];
      assert xs[1..][..i - 1] == xs[..i][1..];
      WithoutAt(xs[1..], x, i - 1);
    }
  }

  /** Finds `x` and splices it out, when it is there. */
  method Remove(xs: seq<nat>, x: nat) returns (ys: seq<nat>)
    ensures ys == Without(xs, x)
  {
    hide Without;
    var idx := IndexOf(xs, x);
    WithoutAt(xs, x, idx);
    ys := if idx < |xs| then xs[..idx] + xs[idx + 1..] else xs;
  }
}
