/** The spinlock of gt_spinlock.c under any interleaving of its memory accesses, on the paths through which kthreads
    take the runqueue locks. */
module Spinlocks {

  /** Control points of `add_to_runqueue` and `sched_find_best_uthread`, named after their lines in gt_pq.c. */
  datatype Line =
    | Idle
    | Add108(target: nat)   // lock the target's runqueue
    | Add110(target: nat)   // insert
    | Add111(target: nat)   // unlock
    | Find187               // lock the own runqueue
    | Find191               // look at the own active queue
    | Find194               // unlock: it was empty
    | Find197(i: nat)       // steal loop
    | Find204(i: nat)       // lock the victim's runqueue
    | Find205(i: nat)       // look again
    | Find206(i: nat)       // unlock: it became empty
    | Find221(i: nat)       // unlock: a uthread was taken
    | Find222               // lock the own runqueue for the stolen uthread
    | Find250               // swap
    | Find254               // look at the former active queue
    | Find276               // unlock

  datatype Op = Lock(l: nat) | Unlock(l: nat) | Local

  /** A kthread.  `mid` is set between the two memory accesses of a lock attempt (the plain read and the exchange) or of
      an unlock (the plain read and the clearing write).  `held` are the locks it acquired and did not release. */
  datatype Kthread = Kthread(line: Line, mid: bool, held: set<nat>)

  /** One lock per kthread, and per kthread whether the active queue its scheduler call looks at has a uthread. */
  datatype System = System(locked: seq<bool>, occupied: seq<bool>, ks: seq<Kthread>)

  datatype Action =
    | Start(k: nat, line: Line)
    | Move(k: nat, choice: bool)

  function OpAt(line: Line, own: nat): Op {
    match line
    case Add108(j) => Lock(j)
    case Add111(j) => Unlock(j)
    case Find187 => Lock(own)
    case Find194 => Unlock(own)
    case Find204(i) => Lock(i)
    case Find206(i) => Unlock(i)
    case Find221(i) => Unlock(i)
    case Find222 => Lock(own)
    case Find276 => Unlock(own)
    case _ => Local
  }

  /** The line after a completed lock or unlock. */
  function After(line: Line): Line {
    match line
    case Add108(j) => Add110(j)
    case Find187 => Find191
    case Find194 => Find197(0)
    case Find204(i) => Find205(i)
    case Find206(i) => Find197(i + 1)
    case Find221(_) => Find222
    case Find222 => Find276
    case _ => Idle
  }

  /** The line after a local step, and the new state of the own or visited queue; `choice` is what the step finds out
      about other data: whether the victim looks promising, whether an insertion is into the active queue, whether a
      queue stays occupied after a removal, or whether the queue that became active in the swap is occupied. */
  function Proceed(s: System, k: nat, choice: bool): (Line, seq<bool>)
    requires WellFormed(s) && k < |s.ks|
  {
    match s.ks[k].line
    case Add110(j) => (Add111(j), s.occupied[j := s.occupied[j] || choice])
    case Find191 => if s.occupied[k] then (Find276, s.occupied[k := choice]) else (Find194, s.occupied)
    case Find197(i) =>
      (if i < 16 && i < |s.ks| && i != k then (if choice then Find204(i) else Find197(i + 1)) else Find250, s.occupied)
    case Find205(i) => if s.occupied[i] then (Find221(i), s.occupied[i := choice]) else (Find206(i), s.occupied)
    case Find250 => (Find254, s.occupied)
    case Find254 => if s.occupied[k] then (Find276, s.occupied[k := choice]) else (Idle, s.occupied[k := choice])
    case other => (other, s.occupied)
  }

  predicate LineOk(line: Line, n: nat) {
    match line
    case Add108(j) => j < n
    case Add110(j) => j < n
    case Add111(j) => j < n
    case Find204(i) => i < n
    case Find205(i) => i < n
    case Find206(i) => i < n
    case Find221(i) => i < n
    case _ => true
  }

  predicate WellFormed(s: System) {
    && |s.locked| == |s.occupied| == |s.ks|
    && forall k | 0 <= k < |s.ks| :: LineOk(s.ks[k].line, |s.ks|)
  }

  predicate Enabled(s: System, a: Action) {
    match a
    case Start(k, line) => k < |s.ks| && s.ks[k].line.Idle? && (line.Add108? || line.Find187?) && LineOk(line, |s.ks|)
    case Move(k, _) => k < |s.ks|
  }

  function Apply(s: System, a: Action): System
    requires WellFormed(s) && Enabled(s, a)
  {
    var t := s.ks[a.k];
    match a
    case Start(k, line) => s.(ks := s.ks[k := t.(line := line)])
    case Move(k, choice) =>
      match OpAt(t.line, k)
      case Lock(l) =>
        if !t.mid then s.(ks := s.ks[k := t.(mid := !s.locked[l])])
        else if s.locked[l] then s.(ks := s.ks[k := t.(mid := false)])
        else s.(locked := s.locked[l := true], ks := s.ks[k := Kthread(After(t.line), false, t.held + {l})])
      case Unlock(l) =>
        if !t.mid && s.locked[l] then s.(ks := s.ks[k := t.(mid := true)])
        else s.(locked := s.locked[l := false], ks := s.ks[k := Kthread(After(t.line), false, t.held - {l})])
      case Local =>
        var (line, occupied) := Proceed(s, k, choice);
        s.(occupied := occupied, ks := s.ks[k := t.(line := line)])
  }

  predicate Init(s: System) {
    && |s.locked| == |s.occupied| == |s.ks|
    && (forall l | 0 <= l < |s.locked| :: !s.locked[l])
    && (forall k | 0 <= k < |s.ks| :: s.ks[k] == Kthread(Idle, false, {}))
  }

  /** The write with which a kthread that does not hold a lock clears it while it is set.  It is at line 276 and comes
      from line 254: a uthread was added between lines 194 and 250, and another kthread has taken the lock since. */
  predicate Intrudes(s: System, a: Action) {
    && WellFormed(s) && Enabled(s, a) && a.Move? && OpAt(s.ks[a.k].line, a.k).Unlock?
    && var l := OpAt(s.ks[a.k].line, a.k).l;
       s.ks[a.k].mid && l !in s.ks[a.k].held && s.locked[l]
  }

  ghost predicate Step(s: System, s': System) {
    exists a :: WellFormed(s) && Enabled(s, a) && s' == Apply(s, a)
  }

  ghost predicate SafeStep(s: System, s': System) {
    exists a :: WellFormed(s) && Enabled(s, a) && !Intrudes(s, a) && s' == Apply(s, a)
  }

  ghost predicate Execution(run: seq<System>) {
    |run| > 0 && Init(run[0]) && forall i | 0 <= i < |run| - 1 :: Step(run[i], run[i + 1])
  }

  /** A run from `s` in which no kthread clears a lock that another one holds. */
  ghost predicate SafeContinuation(s: System, run: seq<System>) {
    |run| > 0 && run[0] == s && forall i | 0 <= i < |run| - 1 :: SafeStep(run[i], run[i + 1])
  }

  ghost predicate SafeExecution(run: seq<System>) {
    |run| > 0 && Init(run[0]) && SafeContinuation(run[0], run)
  }

  // ----- the invariant -------------------------------------------------------------------------

  /** The locks taken on the way to a line. */
  function HeldAt(line: Line, own: nat): set<nat> {
    match line
    case Add110(j) => {j}
    case Add111(j) => {j}
    case Find191 => {own}
    case Find194 => {own}
    case Find205(i) => {i}
    case Find206(i) => {i}
    case Find221(i) => {i}
    case Find276 => {own}
    case _ => {}
  }

  /** A kthread holds the locks taken on the way to its line, except that it may come to line 276 from line 254. */
  predicate HoldsAt(t: Kthread, own: nat) {
    t.held == HeldAt(t.line, own) || (t.line.Find276? && t.held == {})
  }

  /** At most one kthread is between lock and unlock. */
  predicate Exclusive(s: System) {
    forall j, k | 0 <= j < k < |s.ks| :: s.ks[j].held !! s.ks[k].held
  }

  /** A lock word is set exactly while some kthread holds the lock, and every kthread holds what its line says. */
  ghost predicate Inv(s: System) {
    && WellFormed(s) && Exclusive(s)
    && (forall k | 0 <= k < |s.ks| :: HoldsAt(s.ks[k], k))
    && (forall k, l | 0 <= k < |s.ks| && l in s.ks[k].held :: l < |s.locked| && s.locked[l])
    && (forall l | 0 <= l < |s.locked| && s.locked[l] :: exists k :: 0 <= k < |s.ks| && l in s.ks[k].held)
  }

  /** Kthread `k` spins for lock `l`. */
  predicate WaitsFor(s: System, k: nat, l: nat) {
    k < |s.ks| && l < |s.locked| && OpAt(s.ks[k].line, k) == Lock(l)
  }

  /** The holder of a set lock word. */
  ghost predicate HeldBy(s: System, l: nat, k: nat) {
    k < |s.ks| && l in s.ks[k].held
  }

  /** Steps that leave the lock words and the held locks alone. */
  lemma QuietStep(s: System, k: nat, t: Kthread, occupied: seq<bool>)
    requires Inv(s) && k < |s.ks| && t.held == s.ks[k].held && HoldsAt(t, k)
    requires LineOk(t.line, |s.ks|) && |occupied| == |s.occupied|
    ensures Inv(s.(occupied := occupied, ks := s.ks[k := t]))
  {
    var s' := s.(occupied := occupied, ks := s.ks[k := t]);
    assert forall j | 0 <= j < |s.ks| :: s'.ks[j].held == s.ks[j].held;
    forall l | 0 <= l < |s.locked| && s'.locked[l] ensures exists j :: 0 <= j < |s'.ks| && l in s'.ks[j].held {
      var j :| 0 <= j < |s.ks| && l in s.ks[j].held;
      assert l in s'.ks[j].held;
    }
  }

  /** A successful exchange. */
  lemma AcquireStep(s: System, k: nat, l: nat)
    requires Inv(s) && WaitsFor(s, k, l) && !s.locked[l]
    ensures Inv(s.(locked := s.locked[l := true],
                   ks := s.ks[k := Kthread(After(s.ks[k].line), false, s.ks[k].held + {l})]))
  {
    var t := Kthread(After(s.ks[k].line), false, s.ks[k].held + {l});
    var s' := s.(locked := s.locked[l := true], ks := s.ks[k := t]);
    assert HoldsAt(s.ks[k], k) && s.ks[k].held == {};
    assert forall j | 0 <= j < |s.ks| :: l !in s.ks[j].held;
    forall m | 0 <= m < |s.locked| && s'.locked[m] ensures exists j :: 0 <= j < |s'.ks| && m in s'.ks[j].held {
      if m == l {
        assert l in s'.ks[k].held;
      } else {
        var j :| 0 <= j < |s.ks| && m in s.ks[j].held;
        assert m in s'.ks[j].held;
      }
    }
  }

  /** The write that clears a lock, held or already clear. */
  lemma ReleaseStep(s: System, k: nat, l: nat)
    requires Inv(s) && k < |s.ks| && OpAt(s.ks[k].line, k) == Unlock(l) && (l in s.ks[k].held || !s.locked[l])
    ensures Inv(s.(locked := s.locked[l := false],
                   ks := s.ks[k := Kthread(After(s.ks[k].line), false, s.ks[k].held - {l})]))
  {
    var t := Kthread(After(s.ks[k].line), false, s.ks[k].held - {l});
    var s' := s.(locked := s.locked[l := false], ks := s.ks[k := t]);
    forall m | 0 <= m < |s.locked| && s'.locked[m] ensures exists j :: 0 <= j < |s'.ks| && m in s'.ks[j].held {
      var j :| 0 <= j < |s.ks| && m in s.ks[j].held;
      assert m in s'.ks[j].held;
    }
  }

  lemma LockMove(s: System, k: nat, choice: bool)
    requires Inv(s) && k < |s.ks| && OpAt(s.ks[k].line, k).Lock?
    ensures Inv(Apply(s, Move(k, choice)))
  {
    var t, l := s.ks[k], OpAt(s.ks[k].line, k).l;
    if t.mid && !s.locked[l] {
      AcquireStep(s, k, l);
    } else {
      QuietStep(s, k, t.(mid := !t.mid && !s.locked[l]), s.occupied);
    }
  }

  lemma UnlockMove(s: System, k: nat, choice: bool)
    requires Inv(s) && k < |s.ks| && OpAt(s.ks[k].line, k).Unlock? && !Intrudes(s, Move(k, choice))
    ensures Inv(Apply(s, Move(k, choice)))
  {
    var t, l := s.ks[k], OpAt(s.ks[k].line, k).l;
    if !t.mid && s.locked[l] {
      QuietStep(s, k, t.(mid := true), s.occupied);
    } else {
      ReleaseStep(s, k, l);
    }
  }

  lemma LocalMove(s: System, k: nat, choice: bool)
    requires Inv(s) && k < |s.ks| && OpAt(s.ks[k].line, k).Local?
    ensures Inv(Apply(s, Move(k, choice)))
  {
    var (line, occupied) := Proceed(s, k, choice);
    assert HoldsAt(s.ks[k], k);
    QuietStep(s, k, s.ks[k].(line := line), occupied);
  }

  lemma StepKeepsInv(s: System, a: Action)
    requires Inv(s) && Enabled(s, a) && !Intrudes(s, a)
    ensures Inv(Apply(s, a))
  {
    match a
    case Start(k, line) => QuietStep(s, k, s.ks[k].(line := line), s.occupied);
    case Move(k, choice) =>
      match OpAt(s.ks[k].line, k)
      case Lock(_) => LockMove(s, k, choice);
      case Unlock(_) => UnlockMove(s, k, choice);
      case Local => LocalMove(s, k, choice);
  }

  lemma {:induction false} RunKeepsInv(run: seq<System>, i: nat)
    requires i < |run| && Inv(run[0]) && SafeContinuation(run[0], run)
    ensures Inv(run[i])
  {
    if i > 0 {
      RunKeepsInv(run, i - 1);
      assert SafeStep(run[i - 1], run[i - 1 + 1]);
      var a :| Enabled(run[i - 1], a) && !Intrudes(run[i - 1], a) && run[i] == Apply(run[i - 1], a);
      StepKeepsInv(run[i - 1], a);
    }
  }

  /** Mutual exclusion, and no kthread waits for a lock while holding one: a lock that is waited for is free or held
      by a kthread that waits for nothing, so the kthreads cannot deadlock. */
  lemma ExclusionWithoutHoldAndWait(run: seq<System>, i: nat)
    requires SafeExecution(run) && i < |run|
    ensures Exclusive(run[i])
    ensures forall k: nat, l: nat | WaitsFor(run[i], k, l) :: run[i].ks[k].held == {}
    ensures forall k: nat, l: nat | WaitsFor(run[i], k, l) && run[i].locked[l] ::
              exists h: nat :: HeldBy(run[i], l, h) && h != k && forall m: nat :: !WaitsFor(run[i], h, m)
  {
    RunKeepsInv(run, i);
    var s := run[i];
    forall k: nat, l: nat | WaitsFor(s, k, l) ensures s.ks[k].held == {} {
      assert HoldsAt(s.ks[k], k);
    }
    forall k: nat, l: nat | WaitsFor(s, k, l) && s.locked[l]
      ensures exists h: nat :: HeldBy(s, l, h) && h != k && forall m: nat :: !WaitsFor(s, h, m)
    {
      var h: nat :| h < |s.ks| && l in s.ks[h].held;
      assert HoldsAt(s.ks[h], h);
      assert HeldBy(s, l, h);
    }
  }

  // ----- unlocking without the lock ---------------------------------------------------------------

  ghost predicate AlwaysExclusive(run: seq<System>) {
    forall i | 0 <= i < |run| :: Exclusive(run[i])
  }

  lemma ExtendSafely(s: System, run: seq<System>, a: Action) returns (longer: seq<System>)
    requires SafeContinuation(s, run) && WellFormed(Last(run)) && Enabled(Last(run), a) && !Intrudes(Last(run), a)
    ensures SafeContinuation(s, longer) && Last(longer) == Apply(Last(run), a)
  {
    longer := run + [Apply(Last(run), a)];
    forall i | 0 <= i < |longer| - 1 ensures SafeStep(longer[i], longer[i + 1]) {
      if i < |run| - 1 {
        assert SafeStep(run[i], run[i + 1]);
      }
    }
  }

  /** An idle kthread acquires a lock whose word is clear although another kthread holds it. */
  lemma SecondHolder(s: System, k: nat, h: nat, l: nat) returns (run: seq<System>)
    requires WellFormed(s) && k < |s.ks| && h < |s.ks| && k != h && l < |s.locked| && !s.locked[l]
    requires s.ks[k] == Kthread(Idle, false, {}) && l in s.ks[h].held
    ensures SafeContinuation(s, run) && !Exclusive(Last(run))
  {
    run := ExtendSafely(s, [s], Start(k, Add108(l)));
    run := ExtendSafely(s, run, Move(k, false));
    assert Last(run) == With(s, k, Kthread(Add108(l), true, {}));
    run := ExtendSafely(s, run, Move(k, false));
    assert l in Last(run).ks[k].held && l in Last(run).ks[h].held;
  }

  /** The step after which two kthreads can come to hold one lock is exactly the clearing of a lock held by another. */
  lemma IntrusionIff(s: System, a: Action)
    requires Inv(s) && Enabled(s, a)
    ensures (forall run | SafeContinuation(Apply(s, a), run) :: AlwaysExclusive(run)) <==> !Intrudes(s, a)
  {
    var s' := Apply(s, a);
    if !Intrudes(s, a) {
      StepKeepsInv(s, a);
      forall run, i | SafeContinuation(s', run) && 0 <= i < |run| ensures Exclusive(run[i]) {
        RunKeepsInv(run, i);
      }
    } else {
      var l := OpAt(s.ks[a.k].line, a.k).l;
      var h :| 0 <= h < |s.ks| && l in s.ks[h].held;
      assert HoldsAt(s.ks[a.k], a.k);
      var none: set<nat> := {};
      assert none - {l} == none;
      var run := SecondHolder(s', a.k, h, l);
      assert !AlwaysExclusive(run);
    }
  }

  function Last(run: seq<System>): System
    requires run != []
  {
    run[|run| - 1]
  }

  lemma Extend(run: seq<System>, a: Action) returns (longer: seq<System>)
    requires Execution(run) && WellFormed(Last(run)) && Enabled(Last(run), a)
    ensures Execution(longer) && Last(longer) == Apply(Last(run), a)
  {
    longer := run + [Apply(Last(run), a)];
    forall i | 0 <= i < |longer| - 1 ensures Step(longer[i], longer[i + 1]) {
      if i < |run| - 1 {
        assert Step(run[i], run[i + 1]);
      }
    }
  }

  /** The state in which kthread `k` has moved on to `t`. */
  function With(s: System, k: nat, t: Kthread): System
    requires k < |s.ks|
  {
    s.(ks := s.ks[k := t])
  }

  /** Kthread `k`, idle, runs `add_to_runqueue` for kthread 0 up to the insertion, while the lock is free. */
  lemma AddLocks(run: seq<System>, k: nat) returns (longer: seq<System>)
    requires Execution(run) && WellFormed(Last(run)) && k < |Last(run).ks|
    requires Last(run).ks[k] == Kthread(Idle, false, {}) && !Last(run).locked[0]
    ensures Execution(longer)
    ensures Last(longer) == With(Last(run).(locked := Last(run).locked[0 := true]), k, Kthread(Add110(0), false, {0}))
  {
    var s := Last(run);
    longer := Extend(run, Start(k, Add108(0)));
    assert Last(longer) == With(s, k, Kthread(Add108(0), false, {}));
    longer := Extend(longer, Move(k, false));
    assert Last(longer) == With(s, k, Kthread(Add108(0), true, {}));
    longer := Extend(longer, Move(k, false));
    assert {} + {0} == {0};
    assert Last(longer).ks == With(s, k, Kthread(Add110(0), false, {0})).ks;
  }

  /** The rest of `add_to_runqueue`. */
  lemma AddUnlocks(run: seq<System>, k: nat) returns (longer: seq<System>)
    requires Execution(run) && WellFormed(Last(run)) && k < |Last(run).ks|
    requires Last(run).ks[k] == Kthread(Add110(0), false, {0}) && Last(run).locked[0]
    ensures Execution(longer)
    ensures Last(longer) == With(Last(run).(locked := Last(run).locked[0 := false],
                                            occupied := Last(run).occupied[0 := true]),
                                 k, Kthread(Idle, false, {}))
  {
    var s := Last(run).(occupied := Last(run).occupied[0 := true]);
    longer := Extend(run, Move(k, true));
    assert Last(longer) == With(s, k, Kthread(Add111(0), false, {0}));
    longer := Extend(longer, Move(k, false));
    assert Last(longer) == With(s, k, Kthread(Add111(0), true, {0}));
    longer := Extend(longer, Move(k, false));
    assert {0} - {0} == {};
    assert Last(longer).ks == With(s, k, Kthread(Idle, false, {})).ks;
  }

  /** Kthread 0 takes its own lock to look for a uthread. */
  lemma FindLocks(s: System) returns (run: seq<System>)
    requires Init(s) && |s.ks| == 3 && !s.occupied[0]
    ensures Execution(run) && Last(run) == With(s.(locked := s.locked[0 := true]), 0, Kthread(Find191, false, {0}))
  {
    run := Extend([s], Start(0, Find187));
    assert Last(run) == With(s, 0, Kthread(Find187, false, {}));
    run := Extend(run, Move(0, false));
    assert Last(run) == With(s, 0, Kthread(Find187, true, {}));
    run := Extend(run, Move(0, false));
    assert {} + {0} == {0};
    assert Last(run).ks == With(s, 0, Kthread(Find191, false, {0})).ks;
  }

  /** Kthread 0 finds its active queue empty and gets as far as the swap. */
  lemma FindsNothing(s: System) returns (run: seq<System>)
    requires Init(s) && |s.ks| == 3 && !s.occupied[0]
    ensures Execution(run) && Last(run) == With(s, 0, Kthread(Find250, false, {}))
  {
    run := FindLocks(s);
    var s' := s.(locked := s.locked[0 := true]);
    run := Extend(run, Move(0, false));
    assert Last(run) == With(s', 0, Kthread(Find194, false, {0}));
    run := Extend(run, Move(0, false));
    assert Last(run) == With(s', 0, Kthread(Find194, true, {0}));
    run := Extend(run, Move(0, false));
    assert {0} - {0} == {} && s'.locked[0 := false] == s.locked;
    assert Last(run) == With(s, 0, Kthread(Find197(0), false, {}));
    run := Extend(run, Move(0, false));
    assert Last(run) == With(s, 0, Kthread(Find250, false, {}));
  }

  /** A uthread is added before kthread 0 swaps, so it reaches the unlock of line 276 without the lock. */
  lemma ReachesUnlockWithoutLock(s: System) returns (run: seq<System>)
    requires Init(s) && |s.ks| == 3 && !s.occupied[0]
    ensures Execution(run) && WellFormed(Last(run))
    ensures Last(run).ks == [Kthread(Find276, false, {}), Kthread(Idle, false, {}), Kthread(Idle, false, {})]
    ensures !Last(run).locked[0]
  {
    run := FindsNothing(s);
    run := AddLocks(run, 1);
    run := AddUnlocks(run, 1);
    assert Last(run).ks == [Kthread(Find250, false, {}), Kthread(Idle, false, {}), Kthread(Idle, false, {})];
    run := Extend(run, Move(0, false));
    run := Extend(run, Move(0, false));
  }

  /** Such a run can go wrong: kthread 0 clears the lock that kthread 2 holds, and kthread 1 acquires it
      too. */
  lemma WindowBreaksExclusion(s: System) returns (run: seq<System>)
    requires Init(s) && |s.ks| == 3 && !s.occupied[0]
    ensures Execution(run) && !Exclusive(Last(run))
  {
    run := ReachesUnlockWithoutLock(s);
    run := AddLocks(run, 2);
    run := Extend(run, Move(0, false));
    run := Extend(run, Move(0, false));
    var none: set<nat> := {};
    assert none - {0} == none;
    assert Last(run).ks == [Kthread(Idle, false, {}), Kthread(Idle, false, {}), Kthread(Add110(0), false, {0})];
    run := AddLocks(run, 1);
    assert 0 in Last(run).ks[1].held && 0 in Last(run).ks[2].held;
  }
}
