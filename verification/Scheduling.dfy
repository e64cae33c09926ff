/** One kthread's scheduling decisions: the credit rules of `uthread_schedule` and the active/expires discipline of
    `sched_find_best_uthread`, without stealing. */
module Scheduling {
  import opened Options
  import opened Uthreads

  /** How the time slice of the current uthread ended. */
  datatype Fate = Finished | Yielded | Preempted

  /** One call of `uthread_schedule`: how the slice ended and how many microseconds it took. */
  datatype Call = Call(fate: Fate, micros: nat)

  /** `kthread_runqueue_t`: queues list uthreads in the order they were added. */
  datatype Kthread = Kthread(
    active: seq<Uthread>, expires: seq<Uthread>, zombies: seq<Uthread>, cur: Option<Uthread>)

  /** One credit per full millisecond, but never more than one beyond what is left.  A uthread without credits
      is not charged. */
  function Charge(u: Uthread, micros: nat): (r: Uthread)
    ensures r.(credits := u.credits) == u
    ensures u.credits <= 0 ==> r == u
    ensures u.credits > 0 ==> -1 <= r.credits <= u.credits
    ensures u.credits > 0 ==> (r.credits < 0 <==> micros > 1000 * u.credits)
    ensures 0 <= r.credits < u.credits ==> 1000 * (u.credits - r.credits) <= micros < 1000 * (u.credits - r.credits + 1)
    ensures r.credits == u.credits > 0 ==> micros < 1000
  {
    if u.credits <= 0 then u
    else if micros > 1000 * u.credits then u.(credits := u.credits - (u.credits + 1))
    else
      assert micros / 1000 <= u.credits;
      u.(credits := u.credits - micros / 1000)
  }

  /** Where an unfinished uthread goes in credit mode: to the active queue, or to the expires queue. */
  predicate StaysActive(u: Uthread) {
    u.credits > 0 && !u.isYieldValid
  }

  /** The 25-credit penalty, the yield, or the refill that goes with requeueing in credit mode. */
  function Requeued(u: Uthread): Uthread {
    if StaysActive(u) then u.(credits := u.credits - 25)
    else if u.credits > 0 then u.(isYieldValid := false)
    else u.(credits := u.initialCredits, isYieldValid := false)
  }

  /** The current uthread as `uthread_schedule` finds it: `gt_yield` raises the yield flag before the call, and credit
      mode charges the slice. */
  function SliceEnd(u: Uthread, c: Call, creditMode: bool): Uthread {
    var v := if c.fate.Yielded? then u.(isYieldValid := true) else u;
    if creditMode then Charge(v, c.micros) else v
  }

  /** The first half of `uthread_schedule`: the current uthread becomes a zombie or is queued again. */
  function Settle(k: Kthread, c: Call, creditMode: bool): Kthread {
    match k.cur
    case None => k
    case Some(u) =>
      var v := SliceEnd(u, c, creditMode);
      var k' := k.(cur := None);
      if c.fate.Finished? then k'.(zombies := k.zombies + [v])
      else if !creditMode then k'.(expires := k.expires + [v])
      else if StaysActive(v) then k'.(active := k.active + [Requeued(v)])
      else k'.(expires := k.expires + [Requeued(v)])
  }

  /** What becomes of the current uthread `u`, in numbers.  In credit mode a slice costs one credit per full
      millisecond. If credits are left, a preempted uthread pays 25 more and stays active, and one that yielded
      moves to the expires queue; if none are left, it is refilled and moves there. */
  lemma SettleInNumbers(k: Kthread, c: Call, u: Uthread)
    requires k.cur == Some(u)
    ensures var rest := 1000 * u.credits - c.micros;
            u.credits > 0 && rest > 0 && c.fate.Preempted? && !u.isYieldValid ==>
              Settle(k, c, true) ==
              k.(cur := None, active := k.active + [u.(credits := u.credits - c.micros / 1000 - 25)])
    ensures var rest := 1000 * u.credits - c.micros;
            u.credits > 0 && rest > 0 && (c.fate.Yielded? || (c.fate.Preempted? && u.isYieldValid)) ==>
              Settle(k, c, true) ==
              k.(cur := None,
                 expires := k.expires + [u.(credits := u.credits - c.micros / 1000, isYieldValid := false)])
    ensures !c.fate.Finished? && (u.credits <= 0 || c.micros >= 1000 * u.credits) ==>
              Settle(k, c, true) ==
              k.(cur := None, expires := k.expires + [u.(credits := u.initialCredits, isYieldValid := false)])
    ensures !c.fate.Finished? ==>
              Settle(k, c, false) ==
              k.(cur := None, expires := k.expires + [u.(isYieldValid := u.isYieldValid || c.fate.Yielded?)])
    ensures c.fate.Finished? ==>
              Settle(k, c, false) == k.(cur := None, zombies := k.zombies + [u])
    ensures c.fate.Finished? ==>
              Settle(k, c, true) ==
              k.(cur := None, zombies := k.zombies + [u.(credits :=
                if u.credits <= 0 then u.credits
                else if c.micros > 1000 * u.credits then -1
                else u.credits - c.micros / 1000)])
  {
    var v := if c.fate.Yielded? then u.(isYieldValid := true) else u;
    var w := Charge(v, c.micros);
    if 0 < u.credits && c.micros <= 1000 * u.credits {
      ChargeInNumbers(v, c.micros);
      assert c.micros < 1000 * u.credits ==> c.micros / 1000 < u.credits;
    }
  }

  lemma ChargeInNumbers(u: Uthread, micros: nat)
    requires 0 < u.credits && micros <= 1000 * u.credits
    ensures Charge(u, micros) == u.(credits := u.credits - micros / 1000)
  {}

  /** `sched_find_best_uthread`: with an empty active queue the call swaps the two queues and then looks at the queue
      it had found empty, so it returns nothing; the following call serves the former expires queue. */
  function FindBest(k: Kthread): Kthread {
    if k.active == [] then k.(active := k.expires, expires := [], cur := None)
    else k.(active := Without(k.active, Best(k.active)), cur := Some(Best(k.active)))
  }

  function Schedule(k: Kthread, c: Call, creditMode: bool): Kthread {
    FindBest(Settle(k, c, creditMode))
  }

  /** A kthread with nothing else to run dispatches the preempted uthread again, charged for its slice. */
  lemma LoneUthreadIsCharged(k: Kthread, c: Call, u: Uthread)
    requires k.cur == Some(u) && k.active == [] && c.fate.Preempted? && !u.isYieldValid
    requires 0 < u.credits && c.micros < 1000 * u.credits
    ensures Schedule(k, c, true) == k.(cur := Some(u.(credits := u.credits - c.micros / 1000 - 25)))
  {
    SettleInNumbers(k, c, u);
    var v := u.(credits := u.credits - c.micros / 1000 - 25);
    assert [] + [v] == [v] && Best([v]) == v && Without([v], v) == [];
  }

  function Run(k: Kthread, calls: seq<Call>, creditMode: bool): Kthread
    decreases |calls|
  {
    if calls == [] then k else Run(Schedule(k, calls[0], creditMode), calls[1..], creditMode)
  }
}
