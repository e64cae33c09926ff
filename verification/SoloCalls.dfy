/** The small steps of module Placement and the scheduler call of module Scheduling describe the same code: when no
    other kthread interferes, the steps of one call add up to the call. */
module SoloCalls {
  import opened Options
  import opened Uthreads
  import opened Scheduling
  import opened Placement

  function View(w: Worker): Kthread {
    Kthread(w.active, w.expires, w.zombies, w.cur)
  }

  /** From the interrupt to the point where the kthread looks for its next uthread. */
  function Settled(s: System, k: nat, c: Call): System
    requires k < |s.ws| && LocalEnabled(s, k, Interrupt(c))
  {
    var s1 := Apply(s, Own(k, Interrupt(c)));
    if s.ws[k].cur.None? then s1
    else if c.fate.Finished? then Apply(Apply(s1, Own(k, Retire)), Own(k, Discount))
    else Apply(s1, Own(k, Requeue))
  }

  /** From there to the dispatch, or to the report that there is nothing to run. */
  function Resumed(s: System, k: nat): System
    requires k < |s.ws| && s.ws[k].pc.Picking?
  {
    var s1 := Apply(s, Own(k, Pick(false)));
    if s.ws[k].active != [] then Apply(s1, Own(k, Dispatch))
    else Apply(Apply(s1, Own(k, Swap)), Own(k, GiveUp))
  }

  lemma SettledIsSettle(s: System, k: nat, c: Call)
    requires k < |s.ws| && LocalEnabled(s, k, Interrupt(c))
    ensures var s' := Settled(s, k, c);
            && |s'.ws| == |s.ws| && s'.ws[k].pc.Picking?
            && View(s'.ws[k]) == Settle(View(s.ws[k]), c, s.creditMode)
            && (forall j | 0 <= j < |s.ws| && j != k :: s'.ws[j] == s.ws[j])
            && s'.live == s.live - (if s.ws[k].cur.Some? && c.fate.Finished? then 1 else 0)
  {}

  lemma ResumedIsFindBest(s: System, k: nat)
    requires k < |s.ws| && s.ws[k].pc.Picking? && s.ws[k].cur.None?
    ensures var s' := Resumed(s, k);
            && |s'.ws| == |s.ws|
            && View(s'.ws[k]) == FindBest(View(s.ws[k]))
            && (forall j | 0 <= j < |s.ws| && j != k :: s'.ws[j] == s.ws[j])
  {}

  /** One undisturbed call. */
  lemma CallIsSchedule(s: System, k: nat, c: Call)
    requires k < |s.ws| && LocalEnabled(s, k, Interrupt(c))
    ensures var s' := Resumed(Settled(s, k, c), k);
            && View(s'.ws[k]) == Schedule(View(s.ws[k]), c, s.creditMode)
            && (forall j | 0 <= j < |s.ws| && j != k :: s'.ws[j] == s.ws[j])
  {
    SettledIsSettle(s, k, c);
    ResumedIsFindBest(Settled(s, k, c), k);
  }

  // ----- stealing ------------------------------------------------------------------------------------

  /** Kthread `i` has something to steal for `k`. */
  predicate Victim(s: System, k: nat, i: nat) {
    Visits(s, k, i) && !s.ws[i].done && s.ws[i].active != []
  }

  /** The steal loop of kthread `k`, undisturbed, from its look at kthread `i` on. */
  function Scanned(s: System, k: nat): System
    requires k < |s.ws| <= GT_MAX_CORES && s.ws[k].pc.Scanning? && s.ws[k].pc.i <= k
    decreases k - s.ws[k].pc.i
  {
    var i := s.ws[k].pc.i;
    if !Visits(s, k, i) then Apply(s, Own(k, Skip))
    else if s.ws[i].done then Scanned(Apply(s, Own(k, Skip)), k)
    else
      var s1 := Apply(s, Own(k, Look));
      if s.ws[i].active == [] then Scanned(Apply(s1, Own(k, Skip)), k) else Apply(s1, Steal(k))
  }

  function At(s: System, k: nat, pc: Pc): System
    requires k < |s.ws|
  {
    s.(ws := s.ws[k := s.ws[k].(pc := pc)])
  }

  lemma AtTwice(s: System, k: nat, pc: Pc, pc': Pc)
    requires k < |s.ws|
    ensures At(At(s, k, pc), k, pc') == At(s, k, pc')
  {
    assert At(At(s, k, pc), k, pc').ws == At(s, k, pc').ws;
  }

  lemma ScanSkips(s: System, k: nat, i: nat)
    requires k < |s.ws| <= GT_MAX_CORES && s.ws[k].pc == Scanning(i) && i < k && !Victim(s, k, i)
    ensures Scanned(s, k) == Scanned(At(s, k, Scanning(i + 1)), k)
  {
    AtTwice(s, k, Probing(i), Scanning(i + 1));
    if s.ws[i].done {
      assert Apply(s, Own(k, Skip)) == At(s, k, Scanning(i + 1));
    } else {
      var s1 := Apply(s, Own(k, Look));
      assert s1 == At(s, k, Probing(i));
      assert Apply(s1, Own(k, Skip)) == At(s1, k, Scanning(i + 1));
    }
  }

  lemma ScanSteals(s: System, k: nat, i: nat)
    requires k < |s.ws| <= GT_MAX_CORES && s.ws[k].pc == Scanning(i) && i < k && Victim(s, k, i)
    ensures var u := Best(s.ws[i].active);
            Scanned(s, k) == s.(ws := s.ws[i := s.ws[i].(active := Without(s.ws[i].active, u))]
                                          [k := s.ws[k].(hand := Some(u), pc := Dispatching)])
  {
    var u := Best(s.ws[i].active);
    var s1 := Apply(s, Own(k, Look));
    assert s1.ws[i] == s.ws[i];
    assert Apply(s1, Steal(k)).ws == s.ws[i := s.ws[i].(active := Without(s.ws[i].active, u))]
                                         [k := s.ws[k].(hand := Some(u), pc := Dispatching)];
  }

  /** The loop takes the best uthread of the lowest-numbered victim, or goes on to the swap if there is none. */
  lemma {:induction false} ScanTakesFromFirstVictim(s: System, k: nat, i: nat, v: nat)
    requires k < |s.ws| <= GT_MAX_CORES && s.ws[k].pc == Scanning(i) && i <= v <= k
    requires forall j | i <= j < v :: !Victim(s, k, j)
    ensures v == k ==> Scanned(s, k) == At(s, k, Swapping)
    ensures Victim(s, k, v) ==>
              var u := Best(s.ws[v].active);
              Scanned(s, k) == s.(ws := s.ws[v := s.ws[v].(active := Without(s.ws[v].active, u))]
                                            [k := s.ws[k].(hand := Some(u), pc := Dispatching)])
    decreases v - i
  {
    if i < v {
      assert !Victim(s, k, i);
      var s' := At(s, k, Scanning(i + 1));
      forall j | i + 1 <= j < v ensures !Victim(s', k, j) {
        assert !Victim(s, k, j);
      }
      ScanSkips(s, k, i);
      ScanTakesFromFirstVictim(s', k, i + 1, v);
      AtTwice(s, k, Scanning(i + 1), Swapping);
      if Victim(s, k, v) {
        var v' := s.ws[v].(active := Without(s.ws[v].active, Best(s.ws[v].active)));
        var w := s.ws[k].(hand := Some(Best(s.ws[v].active)), pc := Dispatching);
        assert s'.ws[v := v'][k := w] == s.ws[v := v'][k := w];
      }
    } else if Victim(s, k, v) {
      ScanSteals(s, k, v);
    }
  }
}
