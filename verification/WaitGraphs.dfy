/** Threads of which each waits for one other at most, as a map; which waits end, and which do not. */
module WaitGraphs {
  import opened Options

  type Thread = nat

  /** The n-th on the chain of waits that starts at t. */
  ghost function Ahead(w: map<Thread, Thread>, t: Thread, n: nat): Option<Thread>
    decreases n
  {
    if n == 0 then Some(t) else if t in w then Ahead(w, w[t], n - 1) else None
  }

  ghost predicate LeadsTo(w: map<Thread, Thread>, t: Thread, u: Thread) {
    exists n: nat :: Ahead(w, t, n) == Some(u)
  }

  /** The chain of waits from t comes to a thread that waits for nobody. */
  ghost predicate Served(w: map<Thread, Thread>, t: Thread) {
    exists u: Thread :: u !in w && LeadsTo(w, t, u)
  }

  /** Every thread in K waits for one in K. */
  ghost predicate Deadlocked(w: map<Thread, Thread>, K: set<Thread>) {
    K != {} && forall t :: t in K ==> t in w && w[t] in K
  }

  /** Those who wait and are never served. */
  ghost function Doomed(w: map<Thread, Thread>): set<Thread> {
    set t | t in w && !Served(w, t)
  }

  lemma LeadsOn(w: map<Thread, Thread>, t: Thread, u: Thread)
    ensures LeadsTo(w, t, t)
    ensures t in w ==> (LeadsTo(w, t, u) <==> t == u || LeadsTo(w, w[t], u))
  {
    assert Ahead(w, t, 0) == Some(t);
    if t in w && LeadsTo(w, w[t], u) {
      var n: nat :| Ahead(w, w[t], n) == Some(u);
      assert Ahead(w, t, n + 1) == Some(u);
    }
    if t in w && LeadsTo(w, t, u) && t != u {
      var n: nat :| Ahead(w, t, n) == Some(u);
      assert Ahead(w, w[t], n - 1) == Some(u);
    }
  }

  lemma {:induction false} ChainInside(w: map<Thread, Thread>, K: set<Thread>, t: Thread, n: nat)
    requires Deadlocked(w, K) && t in K
    ensures Ahead(w, t, n).Some? && Ahead(w, t, n).value in K
    decreases n
  {
    if n > 0 {
      ChainInside(w, K, w[t], n - 1);
    }
  }

  /** They only wait for each other. */
  lemma DoomedIsDeadlocked(w: map<Thread, Thread>)
    ensures Doomed(w) == {} || Deadlocked(w, Doomed(w))
  {
    forall t | t in Doomed(w)
      ensures w[t] in Doomed(w)
    {
      LeadsOn(w, w[t], w[t]);
      if Served(w, w[t]) {
        var v: Thread :| v !in w && LeadsTo(w, w[t], v);
        LeadsOn(w, t, v);
      }
    }
  }

  /** And any threads that only wait for each other are among them. */
  lemma DeadlockedIsDoomed(w: map<Thread, Thread>, K: set<Thread>)
    requires Deadlocked(w, K)
    ensures K <= Doomed(w) && Doomed(w) != {}
  {
    var k :| k in K;
    forall t | t in K
      ensures t in Doomed(w)
    {
      if Served(w, t) {
        var u: Thread :| u !in w && LeadsTo(w, t, u);
        var n: nat :| Ahead(w, t, n) == Some(u);
        ChainInside(w, K, t, n);
      }
    }
  }

  /** A new wait of t for u makes the first cycle exactly when u already waits for t, or is t. */
  lemma CycleCloses(w: map<Thread, Thread>, t: Thread, u: Thread)
    requires Doomed(w) == {} && t !in w
    ensures Doomed(w[t := u]) != {} <==> LeadsTo(w, u, t)
  {
    var w' := w[t := u];
    if LeadsTo(w, u, t) {
      var K := set v | v in w' && LeadsTo(w, v, t);
      LeadsOn(w, t, t);
      forall v | v in K
        ensures w'[v] in K
      {
        LeadsOn(w, v, t);
      }
      assert t in K;
      DeadlockedIsDoomed(w', K);
    } else if Doomed(w') != {} {
      DoomedIsDeadlocked(w');
      AvoidingCycle(w, t, u, Doomed(w'));
    }
  }

  /** Threads that wait for each other without ever leading to the new wait did so before. */
  lemma AvoidingCycle(w: map<Thread, Thread>, t: Thread, u: Thread, K: set<Thread>)
    requires Deadlocked(w[t := u], K) && !LeadsTo(w, u, t)
    ensures Doomed(w) != {}
  {
    var K' := set v | v in K && !LeadsTo(w, v, t);
    LeadsOn(w, t, t);
    forall v | v in K'
      ensures v in w && w[v] in K'
    {
      LeadsOn(w, v, t);
    }
    var k :| k in K;
    if K' != {} {
      DeadlockedIsDoomed(w, K');
    } else {
      var n: nat :| Ahead(w, k, n) == Some(t);
      ReachesNewWait(w, t, u, K, k, n);
    }
  }

  /** From any of them the chain of old waits to t, and then the new one, stays in K. */
  lemma {:induction false} ReachesNewWait(w: map<Thread, Thread>, t: Thread, u: Thread, K: set<Thread>,
                                            k: Thread, n: nat)
    requires Deadlocked(w[t := u], K) && k in K && Ahead(w, k, n) == Some(t)
    ensures u in K
    decreases n
  {
    if k != t {
      ReachesNewWait(w, t, u, K, w[k], n - 1);
    }
  }

  ghost predicate FewerWaits(w: map<Thread, Thread>, w': map<Thread, Thread>) {
    forall t :: t in w' ==> t in w && w[t] == w'[t]
  }

  lemma FewerIsSafer(w: map<Thread, Thread>, w': map<Thread, Thread>)
    requires FewerWaits(w, w') && Doomed(w) == {}
    ensures Doomed(w') == {}
  {
    DoomedIsDeadlocked(w');
    if Doomed(w') != {} {
      assert Deadlocked(w, Doomed(w'));
      DeadlockedIsDoomed(w, Doomed(w'));
    }
  }
}
