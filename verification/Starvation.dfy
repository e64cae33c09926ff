/** Starvation freedom of the credit scheduler on one kthread, with no uthread created or stolen. */
module Starvation {
  import opened Options
  import opened Uthreads
  import opened Scheduling

  /** How often a uthread with `c` credits can still be dispatched before it must leave the active queue. */
  function Slices(c: int): nat {
    1 + (if c > 0 then (c + 24) / 25 else 0)
  }

  function Load(q: seq<Uthread>): nat {
    if q == [] then 0 else Slices(q[0].credits) + Load(q[1..])
  }

  /** The dispatches left before the active queue must be empty. */
  function Potential(k: Kthread): nat {
    Load(k.active) + match k.cur case Some(u) => Slices(u.credits) case None => 0
  }

  /** Calls of the scheduler left before it must swap the queues: an idle kthread needs one call to pick. */
  function Countdown(k: Kthread): (n: nat)
    ensures n >= 1
  {
    Potential(k) + if k.cur.None? then 1 else 0
  }

  /** Credits of a uthread that is queued or running. */
  predicate InRange(u: Uthread) {
    u.credits <= u.initialCredits && (u.credits >= -24 || u.credits == u.initialCredits)
  }

  predicate AllInRange(k: Kthread) {
    && (forall u | u in k.active :: InRange(u))
    && (forall u | u in k.expires :: InRange(u))
    && (k.cur.Some? ==> InRange(k.cur.value))
  }

  /** The uthreads still to be run. */
  function Size(k: Kthread): nat {
    |k.active| + |k.expires| + if k.cur.Some? then 1 else 0
  }

  predicate Has(q: seq<Uthread>, tid: nat) {
    exists u :: u in q && u.tid == tid
  }

  predicate Runs(k: Kthread, tid: nat) {
    k.cur.Some? && k.cur.value.tid == tid
  }

  predicate InitiallyAtMost(k: Kthread, c: nat) {
    && (forall u | u in k.active :: u.initialCredits <= c)
    && (forall u | u in k.expires :: u.initialCredits <= c)
    && (k.cur.Some? ==> k.cur.value.initialCredits <= c)
  }

  // ----- one call ------------------------------------------------------------------------------

  lemma {:induction false} LoadConcat(a: seq<Uthread>, b: seq<Uthread>)
    ensures Load(a + b) == Load(a) + Load(b)
  {
    if a == [] {
      assert a + b == b;
    } else {
      assert (a + b)[1..] == a[1..] + b;
      LoadConcat(a[1..], b);
    }
  }

  lemma {:induction false} LoadWithout(q: seq<Uthread>, u: Uthread)
    requires u in q
    ensures Load(q) == Load(Without(q, u)) + Slices(u.credits)
  {
    assert q == [q[0]] + q[1..];
    if q[0] != u {
      LoadWithout(q[1..], u);
      assert Without(q, u)[1..] == Without(q[1..], u);
    }
  }

  lemma {:induction false} HasWithout(q: seq<Uthread>, u: Uthread, tid: nat)
    requires u in q && Has(q, tid) && u.tid != tid
    ensures Has(Without(q, u), tid)
  {
    var v :| v in q && v.tid == tid;
    WithoutLength(q, u);
    assert v in multiset(q);
    assert v in multiset(Without(q, u)) + multiset{u};
    assert v in Without(q, u);
  }

  lemma HasAppend(q: seq<Uthread>, u: Uthread, tid: nat)
    requires Has(q, tid)
    ensures Has(q + [u], tid)
  {
    var v :| v in q && v.tid == tid;
    assert v in q + [u];
  }

  /** A uthread that returns to the active queue has strictly fewer slices left. */
  lemma ReturnCostsASlice(u: Uthread, c: Call)
    requires StaysActive(SliceEnd(u, c, true))
    ensures Slices(Requeued(SliceEnd(u, c, true)).credits) < Slices(u.credits)
  {
    var v := SliceEnd(u, c, true);
    assert 0 < v.credits <= u.credits;
  }

  /** Settling a running uthread lowers the potential and loses no queued uthread. */
  lemma SettleLowers(k: Kthread, c: Call, tid: nat)
    ensures k.cur.Some? ==> Load(Settle(k, c, true).active) < Potential(k)
    ensures k.cur.None? ==> Settle(k, c, true) == k
    ensures Settle(k, c, true).cur == None
    ensures Has(k.active, tid) ==> Has(Settle(k, c, true).active, tid)
    ensures Has(k.expires, tid) ==> Has(Settle(k, c, true).expires, tid)
  {
    if k.cur.Some? {
      var v := SliceEnd(k.cur.value, c, true);
      var w := Requeued(v);
      if StaysActive(v) {
        ReturnCostsASlice(k.cur.value, c);
        LoadConcat(k.active, [w]);
        assert [w][1..] == [];
      }
      if Has(k.active, tid) {
        HasAppend(k.active, w, tid);
      }
      if Has(k.expires, tid) {
        HasAppend(k.expires, w, tid);
      }
    }
  }

  /** Every call that dispatches lowers the countdown; the others swap the queues. */
  lemma CallLowers(k: Kthread, c: Call, tid: nat)
    ensures var s, k' := Settle(k, c, true), Schedule(k, c, true);
            if s.active == [] then k'.active == s.expires && k'.cur == None
            else Countdown(k') < Countdown(k) && k'.cur.Some?
    ensures Has(k.active, tid) ==>
              var k' := Schedule(k, c, true); k'.cur.Some? && (Runs(k', tid) || Has(k'.active, tid))
    ensures Has(k.expires, tid) ==>
              var k' := Schedule(k, c, true); Has(if k'.cur.Some? then k'.expires else k'.active, tid)
  {
    SettleLowers(k, c, tid);
    var s := Settle(k, c, true);
    if s.active != [] {
      LoadWithout(s.active, Best(s.active));
      if Has(s.active, tid) && Best(s.active).tid != tid {
        HasWithout(s.active, Best(s.active), tid);
      }
    }
  }

  // ----- whole runs ----------------------------------------------------------------------------

  lemma {:induction false} RunSplits(k: Kthread, calls: seq<Call>, i: nat)
    requires 0 < i <= |calls|
    ensures Run(k, calls[..i], true) == Run(Schedule(k, calls[0], true), calls[1..][..i - 1], true)
  {
    assert calls[..i][1..] == calls[1..][..i - 1];
  }

  /** A uthread on the active queue runs before the countdown is over. */
  lemma {:induction false} ActiveRuns(k: Kthread, calls: seq<Call>, tid: nat) returns (i: nat)
    requires Has(k.active, tid) && |calls| >= Countdown(k)
    ensures 0 < i <= Countdown(k) && Runs(Run(k, calls[..i], true), tid)
    decreases |calls|
  {
    var k' := Schedule(k, calls[0], true);
    CallLowers(k, calls[0], tid);
    SettleLowers(k, calls[0], tid);
    if Runs(k', tid) {
      i := 1;
      RunSplits(k, calls, 1);
    } else {
      i := ActiveRuns(k', calls[1..], tid);
      i := i + 1;
      RunSplits(k, calls, i);
    }
  }

  /** A uthread on the expires queue reaches the active queue before the countdown is over. */
  lemma {:induction false} ExpiredReturns(k: Kthread, calls: seq<Call>, tid: nat) returns (i: nat)
    requires Has(k.expires, tid) && |calls| >= Countdown(k)
    ensures 0 < i <= Countdown(k)
    ensures Has(Run(k, calls[..i], true).active, tid)
    ensures Run(k, calls[..i], true).cur == None
    decreases |calls|
  {
    var k' := Schedule(k, calls[0], true);
    CallLowers(k, calls[0], tid);
    SettleLowers(k, calls[0], tid);
    if k'.cur.None? {
      i := 1;
      RunSplits(k, calls, 1);
    } else {
      i := ExpiredReturns(k', calls[1..], tid);
      i := i + 1;
      RunSplits(k, calls, i);
    }
  }

  // ----- credits stay in range, so the countdown is bounded ---------------------------------------

  /** Every call keeps queued credits between -24 and the initial credits, and adds no uthread. */
  lemma CallKeepsRange(k: Kthread, c: Call, m: nat)
    requires AllInRange(k) && InitiallyAtMost(k, m)
    ensures var k' := Schedule(k, c, true);
            AllInRange(k') && InitiallyAtMost(k', m) && Size(k') <= Size(k)
  {
    var s := Settle(k, c, true);
    assert AllInRange(s) && InitiallyAtMost(s, m) && Size(s) <= Size(k);
    if s.active != [] {
      var b := Best(s.active);
      WithoutLength(s.active, b);
      forall v | v in Without(s.active, b) ensures v in s.active {
        WithoutIn(s.active, b, v);
      }
    }
  }

  lemma {:induction false} RunKeepsRange(k: Kthread, calls: seq<Call>, m: nat)
    requires AllInRange(k) && InitiallyAtMost(k, m)
    ensures var k' := Run(k, calls, true);
            AllInRange(k') && InitiallyAtMost(k', m) && Size(k') <= Size(k)
    decreases |calls|
  {
    if calls != [] {
      CallKeepsRange(k, calls[0], m);
      RunKeepsRange(Schedule(k, calls[0], true), calls[1..], m);
    }
  }

  lemma {:induction false} LoadBounded(q: seq<Uthread>, m: nat)
    requires forall u | u in q :: u.credits <= m
    ensures Load(q) <= |q| * Slices(m)
  {
    if q != [] {
      assert q == [q[0]] + q[1..];
      LoadBounded(q[1..], m);
      assert Slices(q[0].credits) <= Slices(m);
      MulAddOne(|q[1..]|, Slices(m));
    }
  }

  lemma MulMonotonic(a: nat, b: nat, s: nat)
    requires a <= b
    ensures a * s <= b * s
  {}

  lemma MulAddOne(a: nat, s: nat)
    ensures (a + 1) * s == a * s + s
  {}

  lemma CountdownBounded(k: Kthread, m: nat)
    requires AllInRange(k) && InitiallyAtMost(k, m)
    ensures Countdown(k) <= Size(k) * Slices(m) + 1
  {
    LoadBounded(k.active, m);
    var n := |k.active|;
    MulAddOne(n, Slices(m));
    MulMonotonic(if k.cur.Some? then n + 1 else n, Size(k), Slices(m));
  }

  /** The bound on scheduler calls: two rounds over all uthreads, each with at most the slices of `m` credits. */
  function Bound(k: Kthread, m: nat): nat {
    2 * (Size(k) * Slices(m) + 1)
  }

  lemma {:induction false} RunConcat(k: Kthread, a: seq<Call>, b: seq<Call>)
    ensures Run(k, a + b, true) == Run(Run(k, a, true), b, true)
    decreases |a|
  {
    if a == [] {
      assert a + b == b;
    } else {
      assert (a + b)[1..] == a[1..] + b;
      RunConcat(Schedule(k, a[0], true), a[1..], b);
    }
  }

  lemma RunPrefixes(k: Kthread, calls: seq<Call>, i: nat, j: nat)
    requires i + j <= |calls|
    ensures Run(k, calls[..i + j], true) == Run(Run(k, calls[..i], true), calls[i..][..j], true)
  {
    RunConcat(k, calls[..i], calls[i..][..j]);
    assert calls[..i] + calls[i..][..j] == calls[..i + j];
  }

  /** The countdown is bounded at every point of a run. */
  lemma CountdownStaysBounded(k: Kthread, calls: seq<Call>, m: nat)
    requires AllInRange(k) && InitiallyAtMost(k, m)
    ensures Countdown(Run(k, calls, true)) <= Size(k) * Slices(m) + 1
  {
    RunKeepsRange(k, calls, m);
    CountdownBounded(Run(k, calls, true), m);
    MulMonotonic(Size(Run(k, calls, true)), Size(k), Slices(m));
  }

  /** A uthread on the expires queue waits for the swap and then for its turn. */
  lemma ExpiredRuns(k: Kthread, calls: seq<Call>, tid: nat, m: nat) returns (n: nat)
    requires AllInRange(k) && InitiallyAtMost(k, m)
    requires Has(k.expires, tid) && |calls| >= Bound(k, m)
    ensures 0 < n <= Bound(k, m) && Runs(Run(k, calls[..n], true), tid)
  {
    var b := Size(k) * Slices(m) + 1;
    assert |calls| >= b + b == Bound(k, m);
    CountdownBounded(k, m);
    var i := ExpiredReturns(k, calls, tid);
    CountdownStaysBounded(k, calls[..i], m);
    var j := ActiveRuns(Run(k, calls[..i], true), calls[i..], tid);
    RunPrefixes(k, calls, i, j);
    n := i + j;
  }

  /** Starvation freedom: whatever the other uthreads do and however long their slices take, every queued uthread is
      dispatched within the bound. */
  lemma QueuedUthreadRuns(k: Kthread, calls: seq<Call>, tid: nat, m: nat)
    requires AllInRange(k) && InitiallyAtMost(k, m)
    requires Has(k.active, tid) || Has(k.expires, tid)
    requires |calls| >= Bound(k, m)
    ensures exists i :: 0 < i <= Bound(k, m) && Runs(Run(k, calls[..i], true), tid)
  {
    CountdownBounded(k, m);
    if Has(k.active, tid) {
      var i := ActiveRuns(k, calls, tid);
    } else {
      var i := ExpiredRuns(k, calls, tid, m);
    }
  }

  // ----- one round -------------------------------------------------------------------------------

  /** A uthread after `n` slices that were cut short before any credit was used up. */
  function Preempted(u: Uthread, n: nat): Uthread {
    if n == 0 then u
    else Requeued(SliceEnd(Preempted(u, n - 1), Call(Fate.Preempted, 0), true))
  }

  lemma {:induction false} PenaltiesAddUp(u: Uthread, n: nat)
    requires !u.isYieldValid && (n > 0 ==> u.credits > 25 * (n - 1))
    ensures Preempted(u, n) == u.(credits := u.credits - 25 * n)
  {
    if n > 0 {
      PenaltiesAddUp(u, n - 1);
    }
  }

  /** A uthread with its initial credits gets exactly `Slices(initial)` such slices in a round: it returns to the active
      queue after all but the last, and after the last it has its initial credits again. */
  lemma FullRound(u: Uthread, i: nat)
    requires u.credits == u.initialCredits && !u.isYieldValid && i < Slices(u.initialCredits)
    ensures StaysActive(Preempted(u, i)) <==> i < Slices(u.initialCredits) - 1
    ensures Preempted(u, Slices(u.initialCredits)) == u
  {
    var n := Slices(u.initialCredits) - 1;
    PenaltiesAddUp(u, i);
    PenaltiesAddUp(u, n);
  }
}
