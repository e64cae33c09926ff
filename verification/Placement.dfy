/** Every uthread is in exactly one place, however many kthreads create, schedule, swap and steal concurrently.
    Each critical section, each queue swap, and each access to a shared counter or to another kthread's done flag is one
    atomic step. */
module Placement {
  import opened Options
  import opened Uthreads
  import opened Scheduling

  /** Where a kthread stands in `uthread_schedule` and `sched_find_best_uthread`. */
  datatype Pc =
    | User                  // running a uthread, or between two calls of the scheduler
    | Retiring              // holds a finished uthread (gt_uthread.c:164)
    | Discounting           // the zombie is queued, the shared counter is not yet lowered (gt_uthread.c:182)
    | Requeueing            // holds an unfinished uthread (gt_uthread.c:193)
    | Picking               // about to look at its active queue (gt_pq.c:187)
    | Scanning(i: nat)      // about to read whether kthread i is done (gt_pq.c:197)
    | Probing(i: nat)       // read that it is not, about to look at its active queue and to steal (gt_pq.c:203)
    | Swapping              // nothing stolen (gt_pq.c:250)
    | Empty                 // found nothing (gt_uthread.c:219)
    | Quitting(seen: nat)   // read the shared counter as zero when `seen` uthreads had been created
    | Dispatching           // holds the uthread to run next (gt_uthread.c:237)

  /** A kthread; `hand` is the uthread a scheduler call carries in a local variable. */
  datatype Worker = Worker(
    active: seq<Uthread>, expires: seq<Uthread>, zombies: seq<Uthread>,
    cur: Option<Uthread>, hand: Option<Uthread>, pc: Pc, done: bool)

  /** All kthreads, the uthreads between being counted and being queued, and the two shared counters
      `kthread_tot_uthreads` and `kthread_cur_uthreads`. */
  datatype System = System(creditMode: bool, ws: seq<Worker>, creating: seq<Uthread>, tot: nat, live: int)

  /** Steps of one kthread that touch only its own state, apart from lowering the shared counter. */
  datatype Local =
    | Interrupt(call: Call)
    | Retire
    | Discount
    | Requeue
    | Pick(balancing: bool)
    | Look
    | Skip
    | Swap
    | GiveUp
    | Quit
    | Dispatch
    | Reopen

  datatype Action =
    | Create(gid: Level, credits: int)
    | Enqueue(c: nat, k: nat, toActive: bool)
    | Steal(k: nat)
    | Own(k: nat, l: Local)

  predicate Init(s: System) {
    && 0 < |s.ws| <= GT_MAX_CORES
    && (forall w | w in s.ws :: w == Worker([], [], [], None, None, User, false))
    && s.creating == [] && s.tot == 0 && s.live == 0
  }

  /** The steal loop of kthread `k` reaches kthread `i`: it stops at, rather than skips, its own number. */
  predicate Visits(s: System, k: nat, i: nat) {
    i < GT_MAX_CORES && i < k < |s.ws|
  }

  predicate LocalEnabled(s: System, k: nat, l: Local)
    requires k < |s.ws|
  {
    var w := s.ws[k];
    match l
    case Interrupt(_) => w.pc.User? && !w.done
    case Retire => w.pc.Retiring? && w.hand.Some?
    case Discount => w.pc.Discounting?
    case Requeue => w.pc.Requeueing? && w.hand.Some?
    case Pick(balancing) => w.pc.Picking? && (balancing ==> s.creditMode)
    case Look => w.pc.Scanning? && Visits(s, k, w.pc.i) && !s.ws[w.pc.i].done
    case Skip =>
      || (w.pc.Scanning? && (Visits(s, k, w.pc.i) ==> s.ws[w.pc.i].done))
      || (w.pc.Probing? && (Visits(s, k, w.pc.i) ==> s.ws[w.pc.i].active == []))
    case Swap => w.pc.Swapping?
    case GiveUp => w.pc.Empty?
    case Quit => w.pc.Quitting?
    case Dispatch => w.pc.Dispatching? && w.hand.Some?
    case Reopen => k == 0 && w.pc.User?
  }

  predicate Enabled(s: System, a: Action) {
    match a
    case Create(_, _) => true
    case Enqueue(c, k, _) => c < |s.creating| && k < |s.ws|
    case Steal(k) => k < |s.ws| && s.ws[k].pc.Probing? && Visits(s, k, s.ws[k].pc.i) && s.ws[s.ws[k].pc.i].active != []
    case Own(k, l) => k < |s.ws| && LocalEnabled(s, k, l)
  }

  /** The best uthread of a nonempty queue is taken in hand. */
  function Take(w: Worker, u: Uthread): Worker {
    w.(hand := Some(u), pc := Dispatching)
  }

  function Append(w: Worker, u: Uthread, toActive: bool): Worker {
    if toActive then w.(active := w.active + [u]) else w.(expires := w.expires + [u])
  }

  function ApplyLocal(s: System, k: nat, l: Local): Worker
    requires k < |s.ws| && LocalEnabled(s, k, l)
  {
    var w := s.ws[k];
    match l
    case Interrupt(call) =>
      (match w.cur
       case None => w.(pc := Picking)
       case Some(u) => w.(cur := None, hand := Some(SliceEnd(u, call, s.creditMode)),
                          pc := if call.fate.Finished? then Retiring else Requeueing))
    case Retire => w.(zombies := w.zombies + [w.hand.value], hand := None, pc := Discounting)
    case Discount => w.(pc := Picking)
    case Requeue =>
      var u, w' := w.hand.value, w.(hand := None, pc := Picking);
      if s.creditMode then Append(w', Requeued(u), StaysActive(u)) else Append(w', u, false)
    case Pick(balancing) =>
      if w.active != [] then Take(w.(active := Without(w.active, Best(w.active))), Best(w.active))
      else w.(pc := if balancing then Scanning(0) else Swapping)
    case Look => w.(pc := Probing(w.pc.i))
    case Skip => w.(pc := if Visits(s, k, w.pc.i) then Scanning(w.pc.i + 1) else Swapping)
    case Swap =>
      // after the swap the call looks at the former active queue, where an enqueue may have landed meanwhile
      if w.active == [] then w.(active := w.expires, expires := [], pc := Empty)
      else Take(w.(active := w.expires, expires := Without(w.active, Best(w.active))), Best(w.active))
    case GiveUp => w.(pc := if s.tot != 0 && s.live == 0 then Quitting(s.tot) else User)
    case Quit => w.(done := true, pc := User)
    case Dispatch => w.(cur := w.hand, hand := None, pc := User)
    case Reopen => w.(done := false)
  }

  function Apply(s: System, a: Action): System
    requires Enabled(s, a)
  {
    match a
    case Create(gid, credits) =>
      s.(creating := s.creating + [Uthread(s.tot, DEFAULT_PRIORITY, gid, credits, credits, false)],
         tot := s.tot + 1, live := s.live + 1)
    case Enqueue(c, k, toActive) =>
      // the caller read the active pointer before taking the lock, so a swap can turn it into the expires queue
      s.(creating := s.creating[..c] + s.creating[c + 1..], ws := s.ws[k := Append(s.ws[k], s.creating[c], toActive)])
    case Steal(k) =>
      // the stolen uthread passes through the thief's active queue within one critical section
      var v := s.ws[s.ws[k].pc.i];
      var b := Best(v.active);
      s.(ws := s.ws[s.ws[k].pc.i := v.(active := Without(v.active, b))][k := Take(s.ws[k], b)])
    case Own(k, l) =>
      s.(ws := s.ws[k := ApplyLocal(s, k, l)], live := if l.Discount? then s.live - 1 else s.live)
  }

  ghost predicate Step(s: System, s': System) {
    exists a :: Enabled(s, a) && s' == Apply(s, a)
  }

  /** A run of the system from its start. */
  ghost predicate Execution(run: seq<System>) {
    && |run| > 0 && Init(run[0])
    && forall i | 0 <= i < |run| - 1 :: Step(run[i], run[i + 1])
  }

  // ----- counting ------------------------------------------------------------------------------

  function Count(q: seq<Uthread>, t: nat): nat {
    if q == [] then 0 else (if q[0].tid == t then 1 else 0) + Count(q[1..], t)
  }

  function CountOpt(o: Option<Uthread>, t: nat): nat {
    if o.Some? && o.value.tid == t then 1 else 0
  }

  /** Quantities that are added up over all kthreads. */
  datatype Measure =
    | PlacesOf(t: nat)    // how often uthread t occurs at the kthread
    | ZombiesOf(t: nat)   // how often it occurs on the zombie list
    | Uthreads            // how many uthreads the kthread has
    | Unfinished          // how many of them are not on the zombie list
    | Completions         // how many completions the shared counter has accounted for
    | Discounters         // whether it has yet to account for one

  function Value(w: Worker, m: Measure): int {
    match m
    case PlacesOf(t) =>
      Count(w.active, t) + Count(w.expires, t) + Count(w.zombies, t) + CountOpt(w.cur, t) + CountOpt(w.hand, t)
    case ZombiesOf(t) => Count(w.zombies, t)
    case Uthreads =>
      |w.active| + |w.expires| + |w.zombies| + (if w.cur.Some? then 1 else 0) + if w.hand.Some? then 1 else 0
    case Unfinished => |w.active| + |w.expires| + (if w.cur.Some? then 1 else 0) + if w.hand.Some? then 1 else 0
    case Completions => |w.zombies| - if w.pc.Discounting? then 1 else 0
    case Discounters => if w.pc.Discounting? then 1 else 0
  }

  function Sum(ws: seq<Worker>, m: Measure): int {
    if ws == [] then 0 else Value(ws[0], m) + Sum(ws[1..], m)
  }

  /** The number of places uthread `t` is in. */
  function Places(s: System, t: nat): int {
    Count(s.creating, t) + Sum(s.ws, PlacesOf(t))
  }

  /** `t` is on exactly one zombie list. */
  predicate Zombie(s: System, t: nat) {
    Sum(s.ws, ZombiesOf(t)) == 1
  }
}
