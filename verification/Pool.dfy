/**
 The pool object. Its methods update the idle list, the waiter queue, the owned set and the slot
 count in place; each is proved to take the step `PoolSpec` describes. The ghost fields are the part
 of the state that lives outside the object: connects in flight and clients in callers' hands.
 */
module Pool {
  import PoolSpec

  datatype Acquired = Rejected | Handed(client: nat) | Connecting | Waiting(waiter: nat)

  class Pool {
    var idleClients: seq<nat>
    var waiters: seq<nat>
    var owned: set<nat>
    var live: int
    var closed: bool
    var results: map<nat, PoolSpec.Outcome>
    var nextWaiter: nat
    const max: real
    ghost var direct: nat
    ghost var serving: set<nat>
    ghost var held: multiset<nat>
    ghost var known: set<nat>
    ghost var lost: set<nat>

    ghost function State(): PoolSpec.State
      reads this
    {
      PoolSpec.State(idleClients, waiters, owned, live, closed, direct, serving, held, known, results, lost, nextWaiter, max)
    }

    /** What every step of the pool keeps. */
    ghost predicate Valid()
      reads this
    {
      PoolSpec.Inv(State())
    }

    constructor (max: real)
      requires max >= 1.0
      ensures State() == PoolSpec.Fresh(max) && Valid()
    {
      idleClients, waiters, owned, live, closed, results, nextWaiter := [], [], {}, 0, false, map[], 0;
      direct, serving, held, known, lost := 0, {}, multiset{}, {}, {};
      this.max := max;
    }

    /** An idle client, or a connect of its own, or a place in the queue. */
    method Acquire() returns (r: Acquired)
      requires Valid()
      modifies this
      ensures Valid()
      ensures State() == PoolSpec.Acquire(old(State()))
      ensures r.Rejected? <==> old(closed)
      ensures r.Handed? ==> r.client in held && r.client in old(idleClients)
      ensures r.Waiting? ==> r.waiter in waiters && r.waiter == old(nextWaiter)
    {
      hide PoolSpec.Inv;
      PoolSpec.AcquireInv(State());
      if closed {
        return Rejected;
      }
      if idleClients != [] {
        var c := idleClients[0];
        idleClients, held := idleClients[1..], held + multiset{c};
        return Handed(c);
      }
      if (live as real) < max {
        live, direct := live + 1, direct + 1;
        return Connecting;
      }
      r := Waiting(nextWaiter);
      waiters, nextWaiter := waiters + [nextWaiter], nextWaiter + 1;
    }

    method Adopt(c: nat)
      modifies this`owned, this`held, this`known
      ensures State() == PoolSpec.Adopt(old(State()), c)
    {
      owned, held, known := owned + {c}, held + multiset{c}, known + {c};
    }

    /** The connect of an `Acquire` succeeds. */
    method Connected(c: nat)
      requires Valid() && direct > 0 && c !in known
      modifies this
      ensures Valid()
      ensures State() == PoolSpec.Connected(old(State()), c)
    {
      hide PoolSpec.Inv;
      PoolSpec.ConnectedInv(State(), c);
      direct := direct - 1;
      Adopt(c);
    }

    method ConnectRejected()
      requires Valid() && direct > 0
      modifies this
      ensures Valid()
      ensures State() == PoolSpec.ConnectRejected(old(State()))
    {
      hide PoolSpec.Inv;
      PoolSpec.ConnectRejectedInv(State());
      direct := direct - 1;
      live := live - 1;
      DrainWaiters();
    }

    /** While there is headroom and a waiter, start a connect for the waiter. */
    method DrainWaiters()
      modifies this`waiters, this`live, this`serving
      ensures State() == PoolSpec.Drain(old(State()))
    {
      if closed {
        return;
      }
      while waiters != [] && (live as real) < max
        invariant PoolSpec.Drain(State()) == PoolSpec.Drain(old(State()))
        decreases |waiters|
      {
        serving := serving + {waiters[0]};
        waiters, live := waiters[1..], live + 1;
      }
    }

    /** The connect made for waiter `w` succeeds. */
    method Served(w: nat, c: nat)
      requires Valid() && w in serving && c !in known
      modifies this
      ensures Valid()
      ensures State() == PoolSpec.Served(old(State()), w, c)
    {
      hide PoolSpec.Inv;
      PoolSpec.ServedInv(State(), w, c);
      serving := serving - {w};
      if closed {
        if live > 0 {
          live := live - 1;
        }
        lost, known := lost + {w}, known + {c};
        return;
      }
      Adopt(c);
      results := results[w := PoolSpec.Got(c)];
    }

    method ServeRejected(w: nat)
      requires Valid() && w in serving
      modifies this
      ensures Valid()
      ensures State() == PoolSpec.ServeRejected(old(State()), w)
    {
      hide PoolSpec.Inv;
      PoolSpec.ServeRejectedInv(State(), w);
      serving := serving - {w};
      live := live - 1;
      results := results[w := PoolSpec.ConnectFailed];
      DrainWaiters();
    }

    /** Drop a client and give its slot back; a client the pool does not own is left alone. */
    method Evict(c: nat)
      modifies this
      ensures State() == PoolSpec.Evict(old(State()), c)
    {
      hide PoolSpec.Drain, PoolSpec.Without;
      if c !in owned {
        return;
      }
      owned := owned - {c};
      if live > 0 {
        live := live - 1;
      }
      idleClients := PoolSpec.Remove(idleClients, c);
      if closed {
        return;
      }
      DrainWaiters();
    }

    /** The connection of a client goes down by itself. */
    method ClientClosed(c: nat)
      requires Valid()
      modifies this
      ensures Valid()
      ensures State() == PoolSpec.Evict(old(State()), c)
    {
      hide PoolSpec.Inv;
      if c in owned {
        PoolSpec.EvictInv(State(), c, true);
      }
      Evict(c);
    }

    method Release(c: nat)
      requires Valid() && c in held
      modifies this
      ensures Valid()
      ensures State() == PoolSpec.Release(old(State()), c)
    {
      hide PoolSpec.Inv;
      PoolSpec.ReleaseInv(State(), c);
      if c !in owned {
        held := held - multiset{c};
        return;
      }
      if closed {
        held := held - multiset{c};
        Evict(c);
        return;
      }
      if waiters != [] {
        results := results[waiters[0] := PoolSpec.Got(c)];
        waiters := waiters[1..];
        return;
      }
      held := held - multiset{c};
      idleClients := idleClients + [c];
    }

    method Destroy(c: nat)
      requires Valid() && c in held
      modifies this
      ensures Valid()
      ensures State() == PoolSpec.Destroy(old(State()), c)
    {
      hide PoolSpec.Inv;
      PoolSpec.DestroyInv(State(), c);
      held := held - multiset{c};
      if c !in owned {
        return;
      }
      Evict(c);
    }

    method Timeout(w: nat)
      requires Valid() && w in waiters
      modifies this
      ensures Valid()
      ensures State() == PoolSpec.Timeout(old(State()), w)
    {
      hide PoolSpec.Inv;
      PoolSpec.TimeoutInv(State(), w);
      waiters := PoolSpec.Remove(waiters, w);
      results := results[w := PoolSpec.TimedOut];
    }

    /** Reject every waiter, let every idle client go. */
    method Close()
      requires Valid()
      modifies this
      ensures Valid()
      ensures State() == PoolSpec.Close(old(State()))
    {
      hide PoolSpec.Inv;
      PoolSpec.CloseInv(State());
      if closed {
        return;
      }
      closed := true;
      while waiters != []
        invariant closed && idleClients == old(idleClients) && owned == old(owned) && live == old(live)
        invariant PoolSpec.RejectAll(results, waiters) == PoolSpec.RejectAll(old(results), old(waiters))
        invariant nextWaiter == old(nextWaiter) && direct == old(direct) && serving == old(serving)
        invariant held == old(held) && known == old(known) && lost == old(lost)
        decreases |waiters|
      {
        results := results[waiters[0] := PoolSpec.PoolClosed];
        waiters := waiters[1..];
      }
      var idle := idleClients;
      idleClients := [];
      for i := 0 to |idle|
        invariant owned == old(owned) - PoolSpec.SetOf(idle[..i])
        invariant closed && idleClients == [] && live == old(live) && waiters == []
        invariant results == PoolSpec.RejectAll(old(results), old(waiters))
        invariant nextWaiter == old(nextWaiter) && direct == old(direct) && serving == old(serving)
        invariant held == old(held) && known == old(known) && lost == old(lost)
      {
        owned := owned - {idle[i]};
        assert idle[..i + 1] == idle[..i] + [idle[i]];
      }
      assert idle[..|idle|] == idle;
      live := live - |idle|;
    }
  }
}
