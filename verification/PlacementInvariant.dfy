/** What every run of the kthreads keeps: the partition of uthreads over places, and the shared counter. */
module PlacementInvariant {
  import opened Options
  import opened Uthreads
  import opened Scheduling
  import opened Placement

  // ----- sums and counts -----------------------------------------------------------------------

  lemma {:induction false} SumUpdate(ws: seq<Worker>, k: nat, w: Worker, m: Measure)
    requires k < |ws|
    ensures Sum(ws[k := w], m) == Sum(ws, m) - Value(ws[k], m) + Value(w, m)
  {
    if k == 0 {
      assert ws[k := w][1..] == ws[1..];
    } else {
      assert ws[k := w][1..] == ws[1..][k - 1 := w];
      SumUpdate(ws[1..], k - 1, w, m);
    }
  }

  lemma {:induction false} CountConcat(a: seq<Uthread>, b: seq<Uthread>, t: nat)
    ensures Count(a + b, t) == Count(a, t) + Count(b, t)
  {
    if a == [] {
      assert a + b == b;
    } else {
      assert (a + b)[1..] == a[1..] + b;
      CountConcat(a[1..], b, t);
    }
  }

  lemma CountAppend(q: seq<Uthread>, u: Uthread, t: nat)
    ensures Count(q + [u], t) == Count(q, t) + if u.tid == t then 1 else 0
  {
    CountConcat(q, [u], t);
    assert [u][1..] == [];
  }

  lemma {:induction false} CountWithout(q: seq<Uthread>, u: Uthread, t: nat)
    requires u in q
    ensures Count(Without(q, u), t) == Count(q, t) - if u.tid == t then 1 else 0
    ensures |Without(q, u)| == |q| - 1
  {
    assert q == [q[0]] + q[1..];
    if q[0] != u {
      CountWithout(q[1..], u, t);
      assert Without(q, u)[1..] == Without(q[1..], u);
    }
  }

  lemma CountDelete(q: seq<Uthread>, c: nat, t: nat)
    requires c < |q|
    ensures Count(q[..c] + q[c + 1..], t) == Count(q, t) - if q[c].tid == t then 1 else 0
  {
    CountConcat(q[..c], q[c + 1..], t);
    CountConcat(q[..c], q[c..], t);
    assert q == q[..c] + q[c..];
    assert q[c..][1..] == q[c + 1..];
  }

  // ----- one step ------------------------------------------------------------------------------

  /** A scheduler call carries a uthread exactly at the points where it says so. */
  predicate HandsMatch(s: System) {
    forall w | w in s.ws ::
      && (w.hand.Some? <==> w.pc.Retiring? || w.pc.Requeueing? || w.pc.Dispatching?)
      && (w.cur.Some? ==> w.pc.User?)
  }

  /** A kthread's own step only moves uthreads between its places. */
  lemma LocalPlaces(s: System, k: nat, l: Local, t: nat)
    requires k < |s.ws| && LocalEnabled(s, k, l) && HandsMatch(s)
    ensures Value(ApplyLocal(s, k, l), PlacesOf(t)) == Value(s.ws[k], PlacesOf(t))
  {
    var w := s.ws[k];
    assert w in s.ws;
    match l
    case Retire => CountAppend(w.zombies, w.hand.value, t);
    case Requeue =>
      CountAppend(w.active, Requeued(w.hand.value), t);
      CountAppend(w.expires, Requeued(w.hand.value), t);
      CountAppend(w.expires, w.hand.value, t);
    case Pick(_) => if w.active != [] { CountWithout(w.active, Best(w.active), t); }
    case Swap => if w.active != [] { CountWithout(w.active, Best(w.active), t); }
    case _ =>
  }

  /** No step loses or duplicates a uthread; creation adds the next number. */
  lemma StepPlaces(s: System, a: Action, t: nat)
    requires Enabled(s, a) && HandsMatch(s)
    ensures Places(Apply(s, a), t) == Places(s, t) + if a.Create? && t == s.tot then 1 else 0
  {
    var m := PlacesOf(t);
    match a
    case Create(gid, credits) =>
      CountAppend(s.creating, Apply(s, a).creating[|s.creating|], t);
    case Enqueue(c, k, toActive) =>
      CountDelete(s.creating, c, t);
      SumUpdate(s.ws, k, Append(s.ws[k], s.creating[c], toActive), m);
      CountAppend(s.ws[k].active, s.creating[c], t);
      CountAppend(s.ws[k].expires, s.creating[c], t);
    case Steal(k) =>
      var i := s.ws[k].pc.i;
      var v, b := s.ws[i], Best(s.ws[i].active);
      var v' := v.(active := Without(v.active, b));
      assert s.ws[k] in s.ws;
      CountWithout(v.active, b, t);
      SumUpdate(s.ws, i, v', m);
      SumUpdate(s.ws[i := v'], k, Take(s.ws[k], b), m);
    case Own(k, l) =>
      LocalPlaces(s, k, l, t);
      SumUpdate(s.ws, k, ApplyLocal(s, k, l), m);
  }

  lemma LocalTotals(s: System, k: nat, l: Local)
    requires k < |s.ws| && LocalEnabled(s, k, l) && HandsMatch(s)
    ensures Value(ApplyLocal(s, k, l), Uthreads) == Value(s.ws[k], Uthreads)
    ensures Value(ApplyLocal(s, k, l), Completions) == Value(s.ws[k], Completions) + if l.Discount? then 1 else 0
  {
    var w := s.ws[k];
    assert w in s.ws;
    if (l.Pick? || l.Swap?) && w.active != [] {
      WithoutLength(w.active, Best(w.active));
    }
  }

  /** A steal only moves a uthread. */
  lemma StealUthreads(s: System, k: nat)
    requires Enabled(s, Steal(k)) && HandsMatch(s)
    ensures Sum(Apply(s, Steal(k)).ws, Uthreads) == Sum(s.ws, Uthreads)
  {
    var i := s.ws[k].pc.i;
    var v, b := s.ws[i], Best(s.ws[i].active);
    var v' := v.(active := Without(v.active, b));
    assert s.ws[k] in s.ws;
    WithoutLength(v.active, b);
    SumUpdate(s.ws, i, v', Uthreads);
    SumUpdate(s.ws[i := v'], k, Take(s.ws[k], b), Uthreads);
  }

  /** Only creation changes the number of uthreads. */
  lemma StepUthreads(s: System, a: Action)
    requires Enabled(s, a) && HandsMatch(s)
    ensures var s' := Apply(s, a);
            |s'.creating| + Sum(s'.ws, Uthreads) == |s.creating| + Sum(s.ws, Uthreads) + (if a.Create? then 1 else 0)
  {
    match a
    case Create(_, _) =>
    case Enqueue(c, k, toActive) =>
      SumUpdate(s.ws, k, Append(s.ws[k], s.creating[c], toActive), Uthreads);
    case Steal(k) => StealUthreads(s, k);
    case Own(k, l) =>
      LocalTotals(s, k, l);
      SumUpdate(s.ws, k, ApplyLocal(s, k, l), Uthreads);
  }

  /** The shared counter moves against the counted completions. */
  lemma StepCompletions(s: System, a: Action)
    requires Enabled(s, a) && HandsMatch(s)
    ensures var s' := Apply(s, a);
            s'.live + Sum(s'.ws, Completions) == s.live + Sum(s.ws, Completions) + (if a.Create? then 1 else 0)
  {
    match a
    case Create(_, _) =>
    case Enqueue(c, k, toActive) =>
      SumUpdate(s.ws, k, Append(s.ws[k], s.creating[c], toActive), Completions);
    case Steal(k) =>
      var i := s.ws[k].pc.i;
      var b := Best(s.ws[i].active);
      var v' := s.ws[i].(active := Without(s.ws[i].active, b));
      SumUpdate(s.ws, i, v', Completions);
      SumUpdate(s.ws[i := v'], k, Take(s.ws[k], b), Completions);
    case Own(k, l) =>
      LocalTotals(s, k, l);
      SumUpdate(s.ws, k, ApplyLocal(s, k, l), Completions);
  }

  lemma StepHands(s: System, a: Action)
    requires Enabled(s, a) && HandsMatch(s)
    ensures HandsMatch(Apply(s, a))
  {
    var s' := Apply(s, a);
    forall w | w in s'.ws
      ensures && (w.hand.Some? <==> w.pc.Retiring? || w.pc.Requeueing? || w.pc.Dispatching?)
              && (w.cur.Some? ==> w.pc.User?)
    {
      var j :| 0 <= j < |s'.ws| && s'.ws[j] == w;
      assert s.ws[j] in s.ws;
    }
  }

  /** Zombie lists only grow. */
  lemma StepZombies(s: System, a: Action, t: nat)
    requires Enabled(s, a)
    ensures Sum(Apply(s, a).ws, ZombiesOf(t)) >= Sum(s.ws, ZombiesOf(t))
  {
    var m := ZombiesOf(t);
    match a
    case Create(_, _) =>
    case Enqueue(c, k, toActive) =>
      SumUpdate(s.ws, k, Append(s.ws[k], s.creating[c], toActive), m);
    case Steal(k) =>
      var i := s.ws[k].pc.i;
      var b := Best(s.ws[i].active);
      var v' := s.ws[i].(active := Without(s.ws[i].active, b));
      SumUpdate(s.ws, i, v', m);
      SumUpdate(s.ws[i := v'], k, Take(s.ws[k], b), m);
    case Own(k, l) =>
      if l.Retire? {
        CountAppend(s.ws[k].zombies, s.ws[k].hand.value, t);
      }
      SumUpdate(s.ws, k, ApplyLocal(s, k, l), m);
  }

  // ----- the invariant -------------------------------------------------------------------------

  /** Every uthread created so far is in exactly one place, and no other uthread is anywhere. */
  predicate Partition(s: System, t: nat) {
    Places(s, t) == if t < s.tot then 1 else 0
  }

  ghost predicate Inv(s: System) {
    && HandsMatch(s)
    && (forall t: nat :: Partition(s, t))
    && |s.creating| + Sum(s.ws, Uthreads) == s.tot
    && s.live == s.tot - Sum(s.ws, Completions)
    && (forall w | w in s.ws && w.pc.Quitting? ::
          0 < w.pc.seen <= s.tot && forall t: nat | t < w.pc.seen :: Zombie(s, t))
  }

  lemma {:induction false} SumBounds(ws: seq<Worker>, t: nat)
    ensures 0 <= Sum(ws, ZombiesOf(t)) <= Sum(ws, PlacesOf(t))
    ensures 0 <= Sum(ws, Unfinished)
    ensures Sum(ws, Completions) + Sum(ws, Unfinished) + Sum(ws, Discounters) == Sum(ws, Uthreads)
    ensures 0 <= Sum(ws, Discounters)
    ensures Sum(ws, Unfinished) == 0 ==> Sum(ws, ZombiesOf(t)) == Sum(ws, PlacesOf(t))
  {
    if ws != [] {
      SumBounds(ws[1..], t);
    }
  }

  lemma {:induction false} InitHolds(s: System)
    requires Init(s)
    ensures Inv(s)
  {
    forall t: nat ensures Partition(s, t) {
      FreshSums(s.ws, t);
    }
    FreshSums(s.ws, 0);
  }

  lemma {:induction false} FreshSums(ws: seq<Worker>, t: nat)
    requires forall w | w in ws :: w == Worker([], [], [], None, None, User, false)
    ensures Sum(ws, PlacesOf(t)) == 0 && Sum(ws, Uthreads) == 0 && Sum(ws, Completions) == 0
  {
    if ws != [] {
      assert ws[0] in ws && forall w | w in ws[1..] :: w in ws;
      FreshSums(ws[1..], t);
    }
  }

  /** The shared counter can only be read as zero when every uthread created so far is a zombie. */
  lemma CounterZeroMeansAllZombies(s: System, t: nat)
    requires Inv(s) && s.live <= 0 && t < s.tot
    ensures Zombie(s, t)
    ensures s.creating == []
  {
    SumBounds(s.ws, t);
    assert Partition(s, t);
  }

  lemma ZombieStays(s: System, a: Action, t: nat)
    requires Enabled(s, a) && HandsMatch(s) && Partition(s, t) && Zombie(s, t)
    ensures Zombie(Apply(s, a), t)
  {
    StepZombies(s, a, t);
    StepPlaces(s, a, t);
    SumBounds(s.ws, t);
    SumBounds(Apply(s, a).ws, t);
  }

  /** A kthread is about to quit because it was, or because it just read the counter as zero. */
  lemma QuittingFrom(s: System, a: Action, j: nat)
    requires Enabled(s, a) && j < |s.ws| && Apply(s, a).ws[j].pc.Quitting?
    ensures s.ws[j].pc == Apply(s, a).ws[j].pc ||
            (Apply(s, a).ws[j].pc.seen == s.tot == Apply(s, a).tot > 0 && s.live == 0)
    ensures s.tot <= Apply(s, a).tot
  {}

  lemma StepKeepsQuitting(s: System, a: Action, j: nat, t: nat)
    requires Enabled(s, a) && Inv(s) && j < |s.ws| && Apply(s, a).ws[j].pc.Quitting?
    ensures 0 < Apply(s, a).ws[j].pc.seen <= Apply(s, a).tot
    ensures t < Apply(s, a).ws[j].pc.seen ==> Zombie(Apply(s, a), t)
  {
    QuittingFrom(s, a, j);
    assert s.ws[j] in s.ws;
    assert Partition(s, t);
    if t < Apply(s, a).ws[j].pc.seen {
      if s.ws[j].pc != Apply(s, a).ws[j].pc {
        CounterZeroMeansAllZombies(s, t);
      }
      ZombieStays(s, a, t);
    }
  }

  lemma StepKeepsInv(s: System, a: Action)
    requires Enabled(s, a) && Inv(s)
    ensures Inv(Apply(s, a))
  {
    var s' := Apply(s, a);
    StepHands(s, a);
    StepUthreads(s, a);
    StepCompletions(s, a);
    forall t: nat ensures Partition(s', t) {
      assert Partition(s, t);
      StepPlaces(s, a, t);
    }
    forall w | w in s'.ws && w.pc.Quitting?
      ensures 0 < w.pc.seen <= s'.tot && forall t: nat | t < w.pc.seen :: Zombie(s', t)
    {
      var j :| 0 <= j < |s'.ws| && s'.ws[j] == w;
      StepKeepsQuitting(s, a, j, 0);
      forall t: nat | t < w.pc.seen ensures Zombie(s', t) {
        StepKeepsQuitting(s, a, j, t);
      }
    }
  }

  // ----- whole runs ----------------------------------------------------------------------------

  lemma {:induction false} RunKeepsInv(run: seq<System>, i: nat)
    requires Execution(run) && i < |run|
    ensures Inv(run[i])
  {
    if i == 0 {
      InitHolds(run[0]);
    } else {
      RunKeepsInv(run, i - 1);
      assert Step(run[i - 1], run[i - 1 + 1]);
      var a :| Enabled(run[i - 1], a) && run[i] == Apply(run[i - 1], a);
      StepKeepsInv(run[i - 1], a);
    }
  }

  /** In every run every created uthread is in exactly one place: being created, on one active, expires or zombie
      queue, in one scheduler's hand, or current on one kthread. */
  lemma ExactlyOnePlace(run: seq<System>, i: nat, t: nat)
    requires Execution(run) && i < |run|
    ensures Places(run[i], t) == if t < run[i].tot then 1 else 0
  {
    RunKeepsInv(run, i);
    assert Partition(run[i], t);
  }

  /** Once a zombie, always a zombie. */
  lemma {:induction false} ZombieForever(run: seq<System>, i: nat, j: nat, t: nat)
    requires Execution(run) && i <= j < |run| && Zombie(run[i], t)
    ensures Zombie(run[j], t)
  {
    if i < j {
      ZombieForever(run, i, j - 1, t);
      RunKeepsInv(run, j - 1);
      assert Partition(run[j - 1], t);
      assert Step(run[j - 1], run[j - 1 + 1]);
      var a :| Enabled(run[j - 1], a) && run[j] == Apply(run[j - 1], a);
      ZombieStays(run[j - 1], a, t);
    }
  }

  /** The shared counter is the number of created uthreads minus the completions counted so far, and never
      undercounts the uthreads that still have to run. */
  lemma CounterIsExact(run: seq<System>, i: nat)
    requires Execution(run) && i < |run|
    ensures run[i].live == run[i].tot - Sum(run[i].ws, Completions)
    ensures run[i].live >= |run[i].creating| + Sum(run[i].ws, Unfinished) >= 0
  {
    RunKeepsInv(run, i);
    SumBounds(run[i].ws, 0);
  }

  lemma InitIsQuiet(s: System, k: nat)
    requires Init(s) && k < |s.ws|
    ensures !s.ws[k].pc.Quitting?
  {
    assert s.ws[k] in s.ws;
  }

  /** A kthread on its way to quitting has read the shared counter as zero at an earlier point of the run. */
  lemma {:induction false} QuittingSawZero(run: seq<System>, i: nat, k: nat) returns (h: nat)
    requires Execution(run) && i < |run| && k < |run[i].ws| && run[i].ws[k].pc.Quitting?
    ensures h < i && run[h].live == 0 && run[h].tot == run[i].ws[k].pc.seen
  {
    InitIsQuiet(run[0], if i == 0 then k else 0);
    if i > 0 {
      assert Step(run[i - 1], run[i - 1 + 1]);
      var a :| Enabled(run[i - 1], a) && run[i] == Apply(run[i - 1], a);
      QuittingFrom(run[i - 1], a, k);
      if run[i - 1].ws[k].pc == run[i].ws[k].pc {
        h := QuittingSawZero(run, i - 1, k);
      } else {
        h := i - 1;
      }
    }
  }

  lemma {:induction false} CountedInQueue(q: seq<Uthread>, u: Uthread)
    requires u in q
    ensures Count(q, u.tid) > 0
  {
    assert q == [q[0]] + q[1..];
    if u != q[0] {
      CountedInQueue(q[1..], u);
    }
  }

  /** Some unfinished uthread has a place that is no zombie list. */
  lemma {:induction false} UnfinishedPlace(ws: seq<Worker>) returns (t: nat)
    requires Sum(ws, Unfinished) > 0
    ensures Sum(ws, PlacesOf(t)) > Sum(ws, ZombiesOf(t))
  {
    var w := ws[0];
    if Value(w, Unfinished) > 0 {
      t := if w.active != [] then w.active[0].tid else if w.expires != [] then w.expires[0].tid
           else if w.cur.Some? then w.cur.value.tid else w.hand.value.tid;
    } else {
      t := UnfinishedPlace(ws[1..]);
    }
    SumBounds(ws[1..], t);
  }

  lemma CreatingIsNoZombie(s: System, u: Uthread)
    requires Inv(s) && u in s.creating
    ensures u.tid < s.tot && !Zombie(s, u.tid)
  {
    assert Partition(s, u.tid);
    CountedInQueue(s.creating, u);
    SumBounds(s.ws, u.tid);
  }

  /** All uthreads are zombies exactly if the shared counter only counts completions not yet subtracted from it. */
  lemma AllZombiesIff(s: System)
    requires Inv(s)
    ensures (forall t: nat | t < s.tot :: Zombie(s, t)) <==> s.live == Sum(s.ws, Discounters)
  {
    SumBounds(s.ws, 0);
    if s.live == Sum(s.ws, Discounters) {
      forall t: nat | t < s.tot ensures Zombie(s, t) {
        assert Partition(s, t);
        SumBounds(s.ws, t);
      }
    } else if s.creating != [] {
      CreatingIsNoZombie(s, s.creating[0]);
    } else {
      var t := UnfinishedPlace(s.ws);
      assert Partition(s, t);
      SumBounds(s.ws, t);
      assert t < s.tot && !Zombie(s, t);
    }
  }

  /** A kthread marks itself done only after reading the shared counter as zero, and every uthread created before that
      read is a zombie when the mark is set.  All uthreads are zombies then exactly if the counter has been raised since
      for no other uthreads than those whose completions it still has to subtract. */
  lemma SafeShutdown(run: seq<System>, i: nat, k: nat)
    requires Execution(run) && i < |run| && Enabled(run[i], Own(k, Quit))
    ensures exists h :: 0 <= h < i && run[h].live == 0 && 0 < run[h].tot == run[i].ws[k].pc.seen
    ensures forall t: nat | t < run[i].ws[k].pc.seen :: Zombie(run[i], t)
    ensures (forall t: nat | t < run[i].tot :: Zombie(run[i], t)) <==> run[i].live == Sum(run[i].ws, Discounters)
    ensures run[i].ws[k].pc.seen == run[i].tot ==> forall t: nat | t < run[i].tot :: Zombie(run[i], t)
  {
    RunKeepsInv(run, i);
    var h := QuittingSawZero(run, i, k);
    assert run[i].ws[k] in run[i].ws;
    AllZombiesIff(run[i]);
  }
}
