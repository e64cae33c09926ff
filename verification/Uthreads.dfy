/** The user-level thread record of gt_uthread.h and the queue discipline a runqueue has to implement. */
module Uthreads {

  /** A priority or a group number: MAX_UTHREAD_PRIORITY and MAX_UTHREAD_GROUPS are both 32. */
  type Level = i: nat | i < 32

  const DEFAULT_PRIORITY: Level := 16

  /** The number of kthreads there can be. */
  const GT_MAX_CORES: nat := 16

  /** The fields of `uthread_struct_t` that scheduling reads and writes.  A uthread is only written while it is on no
      queue, except that its yield flag is lowered right after it was queued on an expires queue, where nobody else
      looks at it; so queues hold its value. */
  datatype Uthread = Uthread(
    tid: nat, priority: Level, gid: Level, initialCredits: int, credits: int, isYieldValid: bool)

  /** A part of a runqueue: one priority level, one group, or one cell of the table. */
  datatype Part = Prio(p: Level) | Group(g: Level) | Cell(p: Level, g: Level)

  predicate InPart(u: Uthread, k: Part) {
    match k
    case Prio(p) => u.priority == p
    case Group(g) => u.gid == g
    case Cell(p, g) => u.priority == p && u.gid == g
  }

  /** The uthreads of a part, in order. */
  function Members(q: seq<Uthread>, k: Part): seq<Uthread> {
    if q == [] then []
    else (if InPart(q[0], k) then [q[0]] else []) + Members(q[1..], k)
  }

  /** `q` without the first occurrence of `u`. */
  function Without(q: seq<Uthread>, u: Uthread): seq<Uthread> {
    if q == [] then []
    else if q[0] == u then q[1..]
    else [q[0]] + Without(q[1..], u)
  }

  /** Lexicographic order on (priority, group); smaller runs first. */
  predicate Precedes(u: Uthread, v: Uthread) {
    u.priority < v.priority || (u.priority == v.priority && u.gid < v.gid)
  }

  /** The slow form of selection: the earliest inserted uthread of the least (priority, group). */
  function Best(q: seq<Uthread>): (u: Uthread)
    requires q != []
    ensures u in q
    ensures forall v | v in q :: !Precedes(v, u)
  {
    if |q| == 1 then q[0]
    else
      var b := Best(q[1..]);
      assert q == [q[0]] + q[1..];
      if Precedes(b, q[0]) then b else q[0]
  }

  lemma {:induction false} MembersIn(q: seq<Uthread>, k: Part, u: Uthread)
    ensures u in Members(q, k) <==> u in q && InPart(u, k)
  {
    if q != [] {
      MembersIn(q[1..], k, u);
      assert q == [q[0]] + q[1..];
    }
  }

  lemma {:induction false} MembersConcat(a: seq<Uthread>, b: seq<Uthread>, k: Part)
    ensures Members(a + b, k) == Members(a, k) + Members(b, k)
  {
    if a == [] {
      assert a + b == b;
    } else {
      assert (a + b)[1..] == a[1..] + b;
      MembersConcat(a[1..], b, k);
      var first := if InPart(a[0], k) then [a[0]] else [];
      assert Members(a + b, k) == first + (Members(a[1..], k) + Members(b, k));
    }
  }

  /** Appending to the queue appends to each part the uthread belongs to. */
  lemma MembersAppend(q: seq<Uthread>, u: Uthread, k: Part)
    ensures Members(q + [u], k) == if InPart(u, k) then Members(q, k) + [u] else Members(q, k)
  {
    MembersConcat(q, [u], k);
    assert [u][1..] == [];
  }

  /** Removing from the queue removes from each part the uthread belongs to, and changes no other part. */
  lemma {:induction false} MembersWithout(q: seq<Uthread>, u: Uthread, k: Part)
    requires u in q
    ensures Members(Without(q, u), k) == if InPart(u, k) then Without(Members(q, k), u) else Members(q, k)
  {
    if q[0] != u {
      assert q == [q[0]] + q[1..];
      MembersWithout(q[1..], u, k);
      assert Without(q, u)[1..] == Without(q[1..], u);
      if InPart(q[0], k) {
        assert Members(q, k)[1..] == Members(q[1..], k);
      } else {
        assert Members(q, k) == Members(q[1..], k);
      }
    } else {
      assert Members(q, k)[if InPart(u, k) then 1 else 0..] == Members(q[1..], k);
    }
  }

  lemma {:induction false} WithoutLength(q: seq<Uthread>, u: Uthread)
    requires u in q
    ensures |Without(q, u)| == |q| - 1
    ensures multiset(Without(q, u)) + multiset{u} == multiset(q)
  {
    assert q == [q[0]] + q[1..];
    if q[0] != u {
      WithoutLength(q[1..], u);
    }
  }

  lemma WithoutIn(q: seq<Uthread>, u: Uthread, v: Uthread)
    requires u in q && v in Without(q, u)
    ensures v in q
  {
    WithoutLength(q, u);
    assert v in multiset(Without(q, u));
    assert v in multiset(q);
  }

  /** The best uthread is the head of its own cell. */
  lemma {:induction false} BestHeadsItsCell(q: seq<Uthread>)
    requires q != []
    ensures var u := Best(q);
            Members(q, Cell(u.priority, u.gid)) != [] && Members(q, Cell(u.priority, u.gid))[0] == u
  {
    if |q| > 1 {
      BestHeadsItsCell(q[1..]);
    }
  }

  /** No cell before the best uthread's cell is occupied. */
  lemma BestCellIsLeast(q: seq<Uthread>, v: Uthread)
    requires v in q
    ensures Best(q).priority <= v.priority
    ensures Best(q).priority == v.priority ==> Best(q).gid <= v.gid
  {
    assert !Precedes(v, Best(q));
  }
}
