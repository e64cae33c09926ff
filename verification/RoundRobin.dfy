/** `ksched_find_target` of gt_kthread.c: round-robin placement of new uthreads over the present kthreads. */
module RoundRobin {

  import opened Uthreads

  type Cpu = i: nat | i < 16

  /** Which entries of `kthread_cpu_map` are set. */
  type CpuMap = m: seq<bool> | |m| == 16 witness seq(16, _ => true)

  /** Steps of the search loop from `a` to `b`: once around when they are equal. */
  function Gap(a: Cpu, b: Cpu): (d: nat)
    ensures 1 <= d <= 16
  {
    if b > a then b - a else b + 16 - a
  }

  /** The present cpu that follows `last` most closely. */
  ghost predicate IsNext(last: Cpu, present: CpuMap, t: Cpu) {
    present[t] && forall i: Cpu | present[i] :: Gap(last, t) <= Gap(last, i)
  }

  class SharedInfo {
    /** The cpu the last uthread of each group was placed on. */
    const lastUgroupKthread: array<Cpu>

    constructor ()
      ensures lastUgroupKthread.Length == 32 && fresh(lastUgroupKthread)
      ensures forall g | 0 <= g < 32 :: lastUgroupKthread[g] == 0
    {
      lastUgroupKthread := new Cpu[32](_ => 0);
    }

    /** The search takes as many steps as the distance, so at most GT_MAX_CORES. */
    method FindTarget(gid: nat, present: CpuMap) returns (target: Cpu, ghost steps: nat)
      requires lastUgroupKthread.Length == 32 && gid < 32
      requires exists i: Cpu :: present[i]
      modifies lastUgroupKthread
      ensures IsNext(old(lastUgroupKthread[gid]), present, target)
      ensures steps == Gap(old(lastUgroupKthread[gid]), target) <= GT_MAX_CORES
      ensures lastUgroupKthread[..] == old(lastUgroupKthread[..])[gid := target]
    {
      ghost var last := lastUgroupKthread[gid];
      ghost var p: Cpu :| present[p];
      target := (lastUgroupKthread[gid] + 1) % GT_MAX_CORES;
      steps := 1;
      while !present[target]
        invariant steps == Gap(last, target) <= Gap(last, p)
        invariant forall i: Cpu | present[i] :: steps <= Gap(last, i)
        decreases Gap(last, p) - steps
      {
        target := (target + 1) % GT_MAX_CORES;
        steps := steps + 1;
      }
      lastUgroupKthread[gid] := target;
    }
  }

  ghost predicate PlacedAt(last: Cpu, present: CpuMap, targets: seq<Cpu>, k: nat)
    requires k < |targets|
  {
    IsNext(if k == 0 then last else targets[k - 1], present, targets[k])
  }

  /** The targets of successive creations in one group. */
  ghost predicate Placed(last: Cpu, present: CpuMap, targets: seq<Cpu>) {
    forall k: nat | k < |targets| :: PlacedAt(last, present, targets, k)
  }

  function Count(targets: seq<Cpu>, c: Cpu): nat {
    if targets == [] then 0
    else Count(targets[..|targets| - 1], c) + if targets[|targets| - 1] == c then 1 else 0
  }

  /** How far `c` lies behind `a` on the ring. */
  function Lap(a: Cpu, c: Cpu): nat {
    if c >= a then c - a else c + 16 - a
  }

  /** In the current lap, which started at `start`, the cpus up to `t` have had one uthread more than the others. */
  ghost predicate LapState(present: CpuMap, targets: seq<Cpu>, start: Cpu, t: Cpu, b: nat) {
    forall c: Cpu | present[c] :: Count(targets, c) == b + if Lap(start, c) <= Lap(start, t) then 1 else 0
  }

  /** The next target continues the lap, or begins a new one when the lap is complete. */
  lemma NextInLap(present: CpuMap, start: Cpu, l: Cpu, t: Cpu, c: Cpu)
    requires present[start] && present[l] && present[c] && IsNext(l, present, t)
    ensures if Lap(start, t) > Lap(start, l)
            then Lap(start, c) <= Lap(start, t) <==> c == t || Lap(start, c) <= Lap(start, l)
            else t == start && Lap(start, c) <= Lap(start, l)
  {
    assert Gap(l, t) <= Gap(l, start) && Gap(l, t) <= Gap(l, c);
  }

  lemma {:induction false} LapAdvances(last: Cpu, present: CpuMap, targets: seq<Cpu>) returns (b: nat)
    requires targets != [] && Placed(last, present, targets)
    ensures LapState(present, targets, targets[0], targets[|targets| - 1], b)
  {
    var n := |targets|;
    var t, prefix := targets[n - 1], targets[..n - 1];
    assert PlacedAt(last, present, targets, n - 1);
    if n == 1 {
      b := 0;
      assert prefix == [];
    } else {
      forall k: nat | k < n - 1 ensures PlacedAt(last, present, prefix, k) {
        assert PlacedAt(last, present, targets, k);
      }
      b := LapAdvances(last, present, prefix);
      var start, l := targets[0], targets[n - 2];
      assert present[start] && present[l] by {
        assert PlacedAt(last, present, targets, 0) && PlacedAt(last, present, targets, n - 2);
      }
      forall c: Cpu | present[c]
        ensures if Lap(start, t) > Lap(start, l)
                then Lap(start, c) <= Lap(start, t) <==> c == t || Lap(start, c) <= Lap(start, l)
                else t == start && Lap(start, c) <= Lap(start, l)
      {
        NextInLap(present, start, l, t, c);
      }
      if Lap(start, t) <= Lap(start, l) {
        b := b + 1;
      }
    }
  }

  /** After any number of creations in one group, any two present kthreads have received the same number of uthreads, up
      to one. */
  lemma Balanced(last: Cpu, present: CpuMap, targets: seq<Cpu>, c: Cpu, d: Cpu)
    requires Placed(last, present, targets) && present[c] && present[d]
    ensures Count(targets, c) <= Count(targets, d) + 1
  {
    if targets != [] {
      var b := LapAdvances(last, present, targets);
    }
  }
}
