/** The kthread runqueue of gt_pq.c and gt_uthread.c as it is updated in place. */
module Kthreads {
  import opened Words
  import opened Options
  import opened Uthreads
  import opened Runqueues
  import opened Scheduling

  /** `kthread_runqueue_t`: two runqueues whose roles are exchanged by swapping pointers. */
  class KthreadRunqueue {
    var activeRunq: Runqueue
    var expiresRunq: Runqueue
    var curUthread: Option<Uthread>
    var zombieUthreads: seq<Uthread>

    ghost predicate Valid()
      reads `activeRunq, `expiresRunq, activeRunq.Repr, expiresRunq.Repr
    {
      && activeRunq.Repr !! expiresRunq.Repr
      && this !in activeRunq.Repr && this !in expiresRunq.Repr
      && activeRunq.Valid() && expiresRunq.Valid()
    }

    ghost function View(): Kthread
      reads this, activeRunq, expiresRunq
    {
      Kthread(activeRunq.Contents, expiresRunq.Contents, zombieUthreads, curUthread)
    }

    /** `kthread_init_runqueue`. */
    constructor ()
      ensures Valid() && fresh(activeRunq.Repr) && fresh(expiresRunq.Repr)
      ensures View() == Kthread([], [], [], None)
    {
      activeRunq := new Runqueue();
      expiresRunq := new Runqueue();
      curUthread := None;
      zombieUthreads := [];
    }

    /** `sched_find_best_uthread` with load balancing off. */
    method FindBestUthread() returns (u: Option<Uthread>)
      requires Valid()
      modifies this, activeRunq.Repr, expiresRunq.Repr
      ensures Valid() && {activeRunq, expiresRunq} == {old(activeRunq), old(expiresRunq)}
      ensures View().(cur := u) == FindBest(old(View()))
      ensures curUthread == old(curUthread)
    {
      var runq := activeRunq;
      runq.LookupFindsBest();
      if IsZero(runq.uthreadMask) {
        assert runq.uthreadTot == 0;
        activeRunq := expiresRunq;
        expiresRunq := runq;
        runq := expiresRunq;
        assert IsZero(runq.uthreadMask) && runq.uthreadTot == 0;
        u := None;
      } else {
        var best := runq.RemoveBest();
        u := Some(best);
      }
    }

    /** `uthread_schedule`, from the interrupted uthread to the one dispatched next. */
    method UthreadSchedule(c: Call, creditMode: bool)
      requires Valid()
      modifies this, activeRunq.Repr, expiresRunq.Repr
      ensures Valid() && {activeRunq, expiresRunq} == {old(activeRunq), old(expiresRunq)}
      ensures View() == Schedule(old(View()), c, creditMode)
    {
      SettleCurrent(c, creditMode);
      var next := FindBestUthread();
      curUthread := next;
    }

    method SettleCurrent(c: Call, creditMode: bool)
      requires Valid()
      modifies this, activeRunq.Repr, expiresRunq.Repr
      ensures Valid() && activeRunq == old(activeRunq) && expiresRunq == old(expiresRunq)
      ensures View() == Settle(old(View()), c, creditMode)
    {
      if curUthread.None? {
        return;
      }
      var u := curUthread.value;
      if c.fate.Yielded? {
        u := u.(isYieldValid := true);
      }
      if creditMode && u.credits > 0 {
        u := Charge(u, c.micros);
      }
      curUthread := None;
      if c.fate.Finished? {
        zombieUthreads := zombieUthreads + [u];
      } else if !creditMode {
        expiresRunq.Add(u);
      } else {
        Requeue(u);
      }
    }

    /** The credit-mode branch that queues an unfinished uthread again. */
    method Requeue(u: Uthread)
      requires Valid()
      modifies activeRunq.Repr, expiresRunq.Repr
      ensures Valid()
      ensures View() == if StaysActive(u) then old(View()).(active := old(activeRunq.Contents) + [Requeued(u)])
                        else old(View()).(expires := old(expiresRunq.Contents) + [Requeued(u)])
    {
      if u.credits > 0 {
        if u.isYieldValid {
          expiresRunq.Add(u.(isYieldValid := false));
        } else {
          activeRunq.Add(u.(credits := u.credits - 25));
        }
      } else {
        expiresRunq.Add(u.(credits := u.initialCredits, isYieldValid := false));
      }
    }
  }
}
