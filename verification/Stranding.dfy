/** The limit of the shutdown check: it only speaks of uthreads created before the counter was read.  A uthread created
    later can be placed on a kthread that has already quit.  It is then never run, unless a thief read the done flag of
    that kthread before the flag was set and has not looked at its queue yet. */
module Stranding {
  import opened Options
  import opened Uthreads
  import opened Scheduling
  import opened Placement
  import opened PlacementInvariant

  /** Kthread `k` (not the main one) has left its scheduling loop. */
  predicate HasQuit(s: System, k: nat) {
    0 < k < |s.ws| && s.ws[k].done && s.ws[k].pc.User?
  }

  /** Kthread `j` read that kthread `k` is not done and is about to look at its active queue. */
  predicate Thief(s: System, j: nat, k: nat) {
    Visits(s, j, k) && s.ws[j].pc == Probing(k)
  }

  ghost predicate NoThief(s: System, k: nat) {
    forall j: nat :: !Thief(s, j, k)
  }

  /** A run that goes on from `s`. */
  ghost predicate Continuation(s: System, run: seq<System>) {
    |run| > 0 && run[0] == s && forall i | 0 <= i < |run| - 1 :: Step(run[i], run[i + 1])
  }

  predicate Grows(s: System, s': System, k: nat) {
    && k < |s.ws| && k < |s'.ws|
    && s.ws[k].active <= s'.ws[k].active && s.ws[k].expires <= s'.ws[k].expires
  }

  /** Nothing ever leaves the queues of kthread `k`. */
  ghost predicate OnlyGrows(run: seq<System>, k: nat) {
    forall i, j | 0 <= i <= j < |run| :: Grows(run[i], run[j], k)
  }

  lemma StepLeavesQueue(s: System, a: Action, k: nat)
    requires Enabled(s, a) && HasQuit(s, k) && NoThief(s, k)
    ensures HasQuit(Apply(s, a), k) && Grows(s, Apply(s, a), k)
  {
    assert a.Steal? ==> !Thief(s, a.k, k);
  }

  lemma StepBringsNoThief(s: System, a: Action, k: nat)
    requires Enabled(s, a) && HasQuit(s, k) && NoThief(s, k)
    ensures NoThief(Apply(s, a), k)
  {
    forall j: nat ensures !Thief(Apply(s, a), j, k) {
      assert !Thief(s, j, k);
    }
  }

  /** Nothing leaves the queues of a kthread that has quit and that no thief is about to look at: it does not schedule,
      and nobody starts to steal from it. */
  lemma {:induction false} StrandedForever(run: seq<System>, i: nat, j: nat, k: nat)
    requires i <= j < |run| && forall n | 0 <= n < |run| - 1 :: Step(run[n], run[n + 1])
    requires HasQuit(run[i], k) && NoThief(run[i], k)
    ensures HasQuit(run[j], k) && NoThief(run[j], k) && Grows(run[i], run[j], k)
  {
    if i < j {
      StrandedForever(run, i, j - 1, k);
      assert Step(run[j - 1], run[j - 1 + 1]);
      var a :| Enabled(run[j - 1], a) && run[j] == Apply(run[j - 1], a);
      StepLeavesQueue(run[j - 1], a, k);
      StepBringsNoThief(run[j - 1], a, k);
    }
  }

  /** A thief takes a uthread from the queue of a kthread that has quit, if need be one that was placed there since. */
  lemma ThiefTakes(s: System, j: nat, k: nat) returns (run: seq<System>)
    requires HasQuit(s, k) && Thief(s, j, k)
    ensures Continuation(s, run) && !OnlyGrows(run, k)
  {
    run := [s];
    if s.ws[k].active == [] {
      run := Extend(s, run, Create(0, 0));
      run := Extend(s, run, Enqueue(|s.creating|, k, true));
    }
    var full := Last(run);
    WithoutLength(full.ws[k].active, Best(full.ws[k].active));
    run := Extend(s, run, Steal(j));
    assert !Grows(run[|run| - 2], run[|run| - 1], k);
  }

  /** What is on the queues of a kthread that has quit stays there in every continuation exactly if no thief is about to
      look at them. */
  lemma StrandedIff(s: System, k: nat)
    requires HasQuit(s, k)
    ensures (forall run | Continuation(s, run) :: OnlyGrows(run, k)) <==> NoThief(s, k)
  {
    if NoThief(s, k) {
      forall run, i, j | Continuation(s, run) && 0 <= i <= j < |run| ensures Grows(run[i], run[j], k) {
        StrandedForever(run, 0, i, k);
        StrandedForever(run, i, j, k);
      }
    } else {
      var j: nat :| Thief(s, j, k);
      var run := ThiefTakes(s, j, k);
    }
  }

  // ----- concrete runs -------------------------------------------------------------------------

  function Last(run: seq<System>): System
    requires run != []
  {
    run[|run| - 1]
  }

  lemma Extend(s: System, run: seq<System>, a: Action) returns (longer: seq<System>)
    requires Continuation(s, run) && Enabled(Last(run), a)
    ensures Continuation(s, longer) && |longer| == |run| + 1 && longer[..|run|] == run
    ensures Last(longer) == Apply(Last(run), a)
  {
    longer := run + [Apply(Last(run), a)];
    forall i | 0 <= i < |longer| - 1 ensures Step(longer[i], longer[i + 1]) {
      if i < |run| - 1 {
        assert Step(run[i], run[i + 1]);
      }
    }
  }

  function Fresh(): Worker {
    Worker([], [], [], None, None, User, false)
  }

  function Task(tid: nat): Uthread {
    Uthread(tid, DEFAULT_PRIORITY, 0, 0, 0, false)
  }

  /** The second of three kthreads makes a step of its own. */
  lemma SecondSteps(s: System, run: seq<System>, l: Local, third: Worker) returns (longer: seq<System>)
    requires Continuation(s, run) && Enabled(Last(run), Own(1, l)) && Last(run).ws == [Fresh(), Last(run).ws[1], third]
    ensures Continuation(s, longer)
    ensures Last(longer) == Last(run).(ws := [Fresh(), ApplyLocal(Last(run), 1, l), third],
                                       live := Last(run).live - if l.Discount? then 1 else 0)
  {
    longer := Extend(s, run, Own(1, l));
    assert Last(longer).ws == [Fresh(), ApplyLocal(Last(run), 1, l), third];
  }

  /** Of three idle kthreads the second is given a uthread. */
  lemma OneUthreadStarts(s: System) returns (run: seq<System>)
    requires s.ws == [Fresh(), Fresh(), Fresh()] && Init(s)
    ensures Continuation(s, run)
    ensures Last(run) == s.(ws := [Fresh(), Fresh().(active := [Task(0)]), Fresh()], tot := 1, live := 1)
  {
    run := Extend(s, [s], Create(0, 0));
    run := Extend(s, run, Enqueue(0, 1, true));
    assert Last(run).ws == [Fresh(), Fresh().(active := [Task(0)]), Fresh()];
  }

  lemma FinishedTask(c: Call, creditMode: bool)
    requires c.fate.Finished?
    ensures SliceEnd(Task(0), c, creditMode) == Task(0)
  {}

  /** It runs the uthread to its end. */
  lemma OneUthreadRuns(s: System) returns (run: seq<System>)
    requires s.ws == [Fresh(), Fresh(), Fresh()] && Init(s)
    ensures Continuation(s, run)
    ensures Last(run) == s.(ws := [Fresh(), Fresh().(zombies := [Task(0)], pc := Picking), Fresh()], tot := 1)
  {
    var c := Call(Finished, 0);
    run := OneUthreadStarts(s);
    run := SecondSteps(s, run, Interrupt(c), Fresh());
    run := SecondSteps(s, run, Pick(false), Fresh());
    assert Last(run).ws[1] == Fresh().(hand := Some(Task(0)), pc := Dispatching);
    run := SecondSteps(s, run, Dispatch, Fresh());
    FinishedTask(c, s.creditMode);
    run := SecondSteps(s, run, Interrupt(c), Fresh());
    assert Last(run).ws[1] == Fresh().(hand := Some(Task(0)), pc := Retiring);
    run := SecondSteps(s, run, Retire, Fresh());
    run := SecondSteps(s, run, Discount, Fresh());
    assert [] + [Task(0)] == [Task(0)];
  }

  /** The second kthread after its uthread, when it has read the shared counter as zero. */
  function GivingUp(): Worker {
    Fresh().(zombies := [Task(0)], pc := Quitting(1))
  }

  lemma SecondGivesUp(s: System) returns (run: seq<System>)
    requires s.ws == [Fresh(), Fresh(), Fresh()] && Init(s)
    ensures Continuation(s, run) && Last(run) == s.(ws := [Fresh(), GivingUp(), Fresh()], tot := 1)
  {
    run := OneUthreadRuns(s);
    run := Extend(s, run, Own(1, Pick(false)));
    run := Extend(s, run, Own(1, Swap));
    run := Extend(s, run, Own(1, GiveUp));
    assert Last(run).ws == [Fresh(), GivingUp(), Fresh()];
  }

  /** A stranded uthread exists: the second kthread quits after the first uthread, and a second one is placed on it. */
  lemma LateUthreadIsStranded(s: System) returns (run: seq<System>)
    requires s.ws == [Fresh(), Fresh(), Fresh()] && Init(s)
    ensures Execution(run) && HasQuit(Last(run), 1) && NoThief(Last(run), 1) && Last(run).ws[1].active == [Task(1)]
  {
    run := SecondGivesUp(s);
    run := Extend(s, run, Own(1, Quit));
    assert Last(run).ws == [Fresh(), Fresh().(zombies := [Task(0)], done := true), Fresh()];
    run := Extend(s, run, Create(0, 0));
    run := Extend(s, run, Enqueue(0, 1, true));
  }

  /** The third kthread goes through the steal loop until it has read that the second is not done. */
  lemma ThirdProbes(s: System) returns (run: seq<System>)
    requires s.ws == [Fresh(), Fresh(), Fresh()] && Init(s) && s.creditMode
    ensures Continuation(s, run) && Last(run) == s.(ws := [Fresh(), GivingUp(), Fresh().(pc := Probing(1))], tot := 1)
  {
    run := SecondGivesUp(s);
    run := Extend(s, run, Own(2, Interrupt(Call(Finished, 0))));
    run := Extend(s, run, Own(2, Pick(true)));
    run := Extend(s, run, Own(2, Look));
    assert Last(run).ws == [Fresh(), GivingUp(), Fresh().(pc := Probing(0))];
    run := Extend(s, run, Own(2, Skip));
    run := Extend(s, run, Own(2, Look));
    assert Last(run).ws == [Fresh(), GivingUp(), Fresh().(pc := Probing(1))];
  }

  /** A thief that read the flag early does take such a uthread. */
  lemma LateUthreadIsStolen(s: System) returns (run: seq<System>)
    requires s.ws == [Fresh(), Fresh(), Fresh()] && Init(s) && s.creditMode
    ensures Execution(run) && |run| > 1
    ensures HasQuit(run[|run| - 2], 1) && run[|run| - 2].ws[1].active == [Task(1)]
    ensures HasQuit(Last(run), 1) && Last(run).ws[1].active == [] && Last(run).ws[2].hand == Some(Task(1))
  {
    run := ThirdProbes(s);
    run := Extend(s, run, Own(1, Quit));
    run := Extend(s, run, Create(0, 0));
    run := Extend(s, run, Enqueue(0, 1, true));
    var late := Fresh().(zombies := [Task(0)], done := true, active := [Task(1)]);
    assert Last(run).ws == [Fresh(), late, Fresh().(pc := Probing(1))];
    run := Extend(s, run, Steal(2));
  }

  /** A uthread created between the read of the counter and the mark can be unfinished when the mark is set. */
  lemma CreationBeforeTheMark(s: System) returns (run: seq<System>)
    requires s.ws == [Fresh(), Fresh(), Fresh()] && Init(s)
    ensures Execution(run) && Enabled(Last(run), Own(1, Quit)) && Last(run).tot == 2 && !Zombie(Last(run), 1)
  {
    run := SecondGivesUp(s);
    run := Extend(s, run, Create(0, 0));
    RunKeepsInv(run, |run| - 1);
    CreatingIsNoZombie(Last(run), Task(1));
  }
}
