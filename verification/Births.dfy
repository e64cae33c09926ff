/** A uthread keeps, wherever it goes, the number, group, priority and initial credits it was created with. */
module Births {
  import opened Options
  import opened Uthreads
  import opened Scheduling
  import opened Placement

  ghost predicate Behaviour(run: seq<System>, acts: seq<Action>) {
    && |run| == |acts| + 1 && Init(run[0])
    && forall i | 0 <= i < |acts| :: Enabled(run[i], acts[i]) && run[i + 1] == Apply(run[i], acts[i])
  }

  /** The arguments of the calls of `uthread_create` so far, in order. */
  datatype Birth = Birth(gid: Level, credits: int)

  function Created(acts: seq<Action>): seq<Birth> {
    if acts == [] then []
    else
      var a := acts[|acts| - 1];
      Created(acts[..|acts| - 1]) + if a.Create? then [Birth(a.gid, a.credits)] else []
  }

  /** The uthread numbered by its creation, with what it was created with. */
  predicate Born(u: Uthread, bs: seq<Birth>) {
    && u.tid < |bs| && u.priority == DEFAULT_PRIORITY
    && u.gid == bs[u.tid].gid && u.initialCredits == bs[u.tid].credits
  }

  predicate AllBorn(q: seq<Uthread>, bs: seq<Birth>) {
    forall i | 0 <= i < |q| :: Born(q[i], bs)
  }

  predicate WorkerBorn(w: Worker, bs: seq<Birth>) {
    && AllBorn(w.active, bs) && AllBorn(w.expires, bs) && AllBorn(w.zombies, bs)
    && (w.cur.Some? ==> Born(w.cur.value, bs)) && (w.hand.Some? ==> Born(w.hand.value, bs))
  }

  /** Every uthread anywhere; those not yet queued have all their credits and no yield flag. */
  predicate SystemBorn(s: System, bs: seq<Birth>) {
    && s.tot == |bs| && AllBorn(s.creating, bs)
    && (forall i | 0 <= i < |s.creating| ::
          s.creating[i].credits == s.creating[i].initialCredits && !s.creating[i].isYieldValid)
    && forall k | 0 <= k < |s.ws| :: WorkerBorn(s.ws[k], bs)
  }

  lemma {:induction false} WithoutBorn(q: seq<Uthread>, u: Uthread, bs: seq<Birth>)
    requires AllBorn(q, bs)
    ensures AllBorn(Without(q, u), bs)
  {
    if q != [] && q[0] != u {
      WithoutBorn(q[1..], u, bs);
    }
  }

  lemma BestBorn(q: seq<Uthread>, bs: seq<Birth>)
    requires q != [] && AllBorn(q, bs)
    ensures Born(Best(q), bs)
  {
    assert Best(q) in q;
  }

  /** Charging, penalties, yields and refills touch only the credits and the yield flag. */
  lemma SliceKeepsBirth(u: Uthread, c: Call, creditMode: bool, bs: seq<Birth>)
    requires Born(u, bs)
    ensures Born(SliceEnd(u, c, creditMode), bs) && Born(Requeued(u), bs)
  {}

  lemma PickKeepsBirths(s: System, k: nat, l: Local, bs: seq<Birth>)
    requires k < |s.ws| && LocalEnabled(s, k, l) && (l.Pick? || l.Swap?) && WorkerBorn(s.ws[k], bs)
    ensures WorkerBorn(ApplyLocal(s, k, l), bs)
  {
    var w := s.ws[k];
    if w.active != [] {
      BestBorn(w.active, bs);
      WithoutBorn(w.active, Best(w.active), bs);
    }
  }

  lemma LocalKeepsBirths(s: System, k: nat, l: Local, bs: seq<Birth>)
    requires k < |s.ws| && LocalEnabled(s, k, l) && WorkerBorn(s.ws[k], bs)
    ensures WorkerBorn(ApplyLocal(s, k, l), bs)
  {
    var w := s.ws[k];
    match l
    case Pick(_) => PickKeepsBirths(s, k, l, bs);
    case Swap => PickKeepsBirths(s, k, l, bs);
    case Interrupt(c) => if w.cur.Some? { SliceKeepsBirth(w.cur.value, c, s.creditMode, bs); }
    case Requeue => SliceKeepsBirth(w.hand.value, Call(Finished, 0), s.creditMode, bs);
    case _ =>
  }

  lemma StepKeepsBirths(s: System, a: Action, bs: seq<Birth>)
    requires Enabled(s, a) && SystemBorn(s, bs)
    ensures SystemBorn(Apply(s, a), if a.Create? then bs + [Birth(a.gid, a.credits)] else bs)
  {
    match a
    case Own(k, l) => LocalKeepsBirths(s, k, l, bs);
    case Steal(k) =>
      var v := s.ws[s.ws[k].pc.i];
      BestBorn(v.active, bs);
      WithoutBorn(v.active, Best(v.active), bs);
    case _ =>
  }

  /** In every run each uthread, wherever it is, has the number, group and initial credits of its creation. */
  lemma {:induction false} UthreadsKeepTheirBirths(run: seq<System>, acts: seq<Action>)
    requires Behaviour(run, acts)
    ensures SystemBorn(run[|acts|], Created(acts))
    decreases |acts|
  {
    if acts != [] {
      var n := |acts| - 1;
      UthreadsKeepTheirBirths(run[..n + 1], acts[..n]);
      assert Enabled(run[n], acts[n]) && run[n + 1] == Apply(run[n], acts[n]);
      StepKeepsBirths(run[n], acts[n], Created(acts[..n]));
    } else {
      assert forall k | 0 <= k < |run[0].ws| :: run[0].ws[k] in run[0].ws;
    }
  }
}
