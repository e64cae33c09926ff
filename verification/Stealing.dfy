/** `sched_find_best_uthread` with load balancing: the loop that steals from lower-numbered kthreads. */
module Stealing {
  import opened Options
  import opened Uthreads
  import opened Scheduling

  /** Kthread `i` can be stolen from. */
  predicate IsVictim(ks: seq<Kthread>, done: seq<bool>, i: nat)
    requires i < |ks| == |done|
  {
    !done[i] && ks[i].active != []
  }

  /** How often a uthread is queued at a kthread, and at all of them. */
  function QueuedAt(k: Kthread, u: Uthread): nat {
    multiset(k.active)[u] + multiset(k.expires)[u]
  }

  function Queued(ks: seq<Kthread>, u: Uthread): nat {
    if ks == [] then 0 else QueuedAt(ks[0], u) + Queued(ks[1..], u)
  }

  lemma {:induction false} QueuedUpdate(ks: seq<Kthread>, i: nat, k: Kthread, u: Uthread)
    requires i < |ks|
    ensures Queued(ks[i := k], u) == Queued(ks, u) - QueuedAt(ks[i], u) + QueuedAt(k, u)
  {
    if i == 0 {
      assert ks[i := k][1..] == ks[1..];
    } else {
      assert ks[i := k][1..] == ks[1..][i - 1 := k];
      QueuedUpdate(ks[1..], i - 1, k, u);
    }
  }

  /** Removing the best uthread of a kthread's active queue takes away that one uthread. */
  lemma RemovalTakesOne(ks: seq<Kthread>, i: nat, x: Uthread)
    requires i < |ks| && ks[i].active != []
    ensures var u := Best(ks[i].active);
            Queued(ks[i := ks[i].(active := Without(ks[i].active, u))], x) + (if x == u then 1 else 0) == Queued(ks, x)
  {
    var u := Best(ks[i].active);
    WithoutLength(ks[i].active, u);
    QueuedUpdate(ks, i, ks[i].(active := Without(ks[i].active, u)), x);
    assert multiset(ks[i].active)[x] == (multiset(Without(ks[i].active, u)) + multiset{u})[x];
  }

  /** Kthread `me` dispatches its own best active uthread; otherwise the best active uthread of the first victim below
      its own number; otherwise it swaps its queues and returns nothing.  No queued uthread is lost or duplicated. */
  method FindBestUthread(ks: array<Kthread>, done: seq<bool>, me: nat, balancing: bool) returns (u: Option<Uthread>)
    requires me < ks.Length <= 16 && |done| == ks.Length
    modifies ks
    ensures old(ks[me].active) != [] ==>
              u == Some(Best(old(ks[me].active))) &&
              ks[..] == old(ks[..])[me := old(ks[me]).(active := Without(old(ks[me].active), u.value))]
    ensures old(ks[me].active) == [] && (!balancing || forall i | 0 <= i < me :: !IsVictim(old(ks[..]), done, i)) ==>
              u == None && ks[..] == old(ks[..])[me := old(ks[me]).(active := old(ks[me].expires), expires := [])]
    ensures old(ks[me].active) == [] && balancing && (exists i :: 0 <= i < me && IsVictim(old(ks[..]), done, i)) ==>
              exists v :: 0 <= v < me && IsVictim(old(ks[..]), done, v) &&
                (forall i | 0 <= i < v :: !IsVictim(old(ks[..]), done, i)) &&
                u == Some(Best(old(ks[v].active))) &&
                ks[..] == old(ks[..])[v := old(ks[v]).(active := Without(old(ks[v].active), u.value))]
    ensures forall x :: Queued(ks[..], x) + (if u == Some(x) then 1 else 0) == Queued(old(ks[..]), x)
  {
    ghost var was := ks[..];
    if ks[me].active == [] {
      if balancing {
        var i := 0;
        while i < 16 && i != me
          invariant i <= me && ks[..] == was
          invariant forall j | 0 <= j < i :: !IsVictim(was, done, j)
        {
          if !done[i] && ks[i].active != [] {
            var v := Remove(ks, i);
            assert IsVictim(was, done, i);
            return Some(v);
          }
          i := i + 1;
        }
      }
      ks[me] := ks[me].(active := ks[me].expires, expires := []);
      assert ks[..] == was[me := ks[me]];
      forall x ensures Queued(ks[..], x) == Queued(was, x) {
        QueuedUpdate(was, me, ks[me], x);
      }
      u := None;
    } else {
      var best := Remove(ks, me);
      u := Some(best);
    }
  }

  /** Takes the best uthread of kthread `i`'s active queue. */
  method Remove(ks: array<Kthread>, i: nat) returns (u: Uthread)
    requires i < ks.Length && ks[i].active != []
    modifies ks
    ensures u == Best(old(ks[i].active))
    ensures ks[..] == old(ks[..])[i := old(ks[i]).(active := Without(old(ks[i].active), u))]
    ensures forall x :: Queued(ks[..], x) + (if x == u then 1 else 0) == Queued(old(ks[..]), x)
  {
    ghost var was := ks[..];
    u := Best(ks[i].active);
    ks[i] := ks[i].(active := Without(ks[i].active, u));
    assert ks[..] == was[i := ks[i]];
    forall x ensures Queued(ks[..], x) + (if x == u then 1 else 0) == Queued(was, x) {
      RemovalTakesOne(was, i, x);
    }
  }
}
