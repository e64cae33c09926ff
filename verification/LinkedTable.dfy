/** The table of a runqueue with its tail queues linked by pointers: what module Runqueues takes for a table of
    sequences. */
module LinkedTable {
  import opened Uthreads
  import opened TailQueue

  /** The uthreads whose records contain the given queue entries. */
  ghost function Values(ns: seq<Node>, item: map<Node, Uthread>): (us: seq<Uthread>)
    requires forall n | n in ns :: n in item
    ensures |us| == |ns| && forall i | 0 <= i < |ns| :: us[i] == item[ns[i]]
  {
    seq(|ns|, i requires 0 <= i < |ns| => item[ns[i]])
  }

  lemma {:induction false} DeleteIsWithout(us: seq<Uthread>, k: nat)
    requires k < |us| && Distinct(us)
    ensures Without(us, us[k]) == Delete(us, k)
  {
    if k > 0 {
      assert us[0] != us[k];
      DeleteIsWithout(us[1..], k - 1);
      assert [us[0]] + Delete(us[1..], k - 1) == Delete(us, k);
    }
  }

  lemma {:induction false} WithoutDistinct(q: seq<Uthread>, u: Uthread)
    requires Distinct(q) && u in q
    ensures Distinct(Without(q, u))
  {
    var k :| 0 <= k < |q| && q[k] == u;
    DeleteIsWithout(q, k);
    DeleteDistinct(q, k);
  }

  /** A part of a queue without repetitions has none. */
  lemma {:induction false} MembersDistinct(q: seq<Uthread>, k: Part)
    requires Distinct(q)
    ensures Distinct(Members(q, k))
  {
    if q != [] {
      MembersDistinct(q[1..], k);
      MembersIn(q[1..], k, q[0]);
      assert q[0] !in q[1..];
      var rest := Members(q[1..], k);
      assert q[0] !in rest;
    }
  }

  /** A cell holds its part of the queue. */
  ghost predicate Holds(ns: seq<Node>, item: map<Node, Uthread>, q: seq<Uthread>, c: Part) {
    (forall n | n in ns :: n in item) && Values(ns, item) == Members(q, c)
  }

  /** The cell of the new entry. */
  lemma HoldsAfterInsert(ns: seq<Node>, item: map<Node, Uthread>, q: seq<Uthread>, c: Part, elm: Node, u: Uthread)
    requires Holds(ns, item, q, c) && elm !in ns && InPart(u, c)
    ensures Holds(ns + [elm], item[elm := u], q + [u], c)
  {
    MembersAppend(q, u, c);
  }

  /** Every other cell. */
  lemma HoldsBesideInsert(ns: seq<Node>, item: map<Node, Uthread>, q: seq<Uthread>, c: Part, elm: Node, u: Uthread)
    requires Holds(ns, item, q, c) && elm !in ns && !InPart(u, c)
    ensures Holds(ns, item[elm := u], q + [u], c)
  {
    MembersAppend(q, u, c);
  }

  /** The cell of the removed entry. */
  lemma HoldsAfterRemoval(ns: seq<Node>, item: map<Node, Uthread>, q: seq<Uthread>, c: Part, k: nat)
    requires Holds(ns, item, q, c) && k < |ns| && Distinct(ns) && Distinct(q) && InPart(item[ns[k]], c)
    ensures item[ns[k]] in q
    ensures Holds(Delete(ns, k), item - {ns[k]}, Without(q, item[ns[k]]), c)
  {
    var u := Values(ns, item)[k];
    MembersIn(q, c, u);
    MembersWithout(q, u, c);
    MembersDistinct(q, c);
    DeleteIsWithout(Members(q, c), k);
    DeleteDistinct(ns, k);
    var ms := Delete(ns, k);
    forall i | 0 <= i < |ms| ensures ms[i] in item && ms[i] != ns[k] && item[ms[i]] == Delete(Members(q, c), k)[i] {
      assert ms[i] == if i < k then ns[i] else ns[i + 1];
      assert ms[i] in ms;
    }
  }

  /** Every other cell. */
  lemma HoldsBesideRemoval(ns: seq<Node>, item: map<Node, Uthread>, q: seq<Uthread>, c: Part, elm: Node, u: Uthread)
    requires Holds(ns, item, q, c) && elm !in ns && u in q && !InPart(u, c)
    ensures Holds(ns, item - {elm}, Without(q, u), c)
  {
    MembersWithout(q, u, c);
  }

  /** Row by row, the cell (p, g) comes before (i, j). */
  predicate Before(p: nat, g: nat, i: nat, j: nat) {
    p < i || (p == i && g < j)
  }

  /** The `prio_array[].group[]` tail queues. */
  class Table {
    const group: array2<Head>
    /** The queued uthreads in the order they were added, and the uthread around each queue entry. */
    ghost var Contents: seq<Uthread>
    ghost var Item: map<Node, Uthread>
    ghost var Repr: set<object>

    /** A cell is a list of its own, linked well, of entries that belong there. */
    ghost predicate CellLinked(p: Level, g: Level)
      requires group.Length0 == group.Length1 == 32
      reads `Item, `Repr, group, Repr
    {
      && group[p, g] in Repr
      && (forall n | n in group[p, g].Elems :: n in Repr && n in Item && InPart(Item[n], Cell(p, g)))
      && group[p, g].Valid()
    }

    ghost predicate Apart(p: Level, g: Level, p': Level, g': Level)
      requires group.Length0 == group.Length1 == 32
      reads group
    {
      group[p, g] == group[p', g'] ==> p == p' && g == g'
    }

    ghost predicate Linked()
      reads `Item, `Repr, group, Repr
    {
      && group.Length0 == group.Length1 == 32 && this !in Repr && group !in Repr
      && (forall p: Level, g: Level :: CellLinked(p, g))
      && (forall p: Level, g: Level, p': Level, g': Level :: Apart(p, g, p', g'))
    }

    /** Every cell holds its part of the contents in order. */
    ghost predicate Valid()
      reads this, group, Repr
    {
      && Linked() && Distinct(Contents)
      && (forall p: Level, g: Level ::
            CellLinked(p, g) && Holds(group[p, g].Elems, Item, Contents, Cell(p, g)))
    }

    /** The cells before row `i`, column `j` are initialised. */
    ghost predicate Started(i: nat, j: nat)
      reads `Item, `Repr, group, Repr
    {
      && group.Length0 == group.Length1 == 32 && this !in Repr && group !in Repr
      && (forall p: Level, g: Level | Before(p, g, i, j) :: CellLinked(p, g) && group[p, g].Elems == [])
      && (forall p: Level, g: Level, p': Level, g': Level | Before(p, g, i, j) && Before(p', g', i, j) ::
            Apart(p, g, p', g'))
    }

    method InitCell(i: Level, j: Level)
      requires Started(i, j)
      modifies `Repr, group
      ensures Started(i, j + 1) && fresh(Repr - old(Repr))
    {
      var head := new Head();
      group[i, j] := head;
      Repr := Repr + {head};
      forall p: Level, g: Level | Before(p, g, i, j)
        ensures CellLinked(p, g) && group[p, g].Elems == [] && group[p, g] != head
      {
        assert old(CellLinked(p, g)) && (p != i || g != j);
      }
      forall p: Level, g: Level, p': Level, g': Level | Before(p, g, i, j + 1) && Before(p', g', i, j + 1)
        ensures Apart(p, g, p', g')
      {
        if Before(p, g, i, j) && Before(p', g', i, j) {
          assert old(Apart(p, g, p', g'));
        }
      }
    }

    /** `init_runqueue`: `TAILQ_INIT` on every cell. */
    constructor ()
      ensures Valid() && fresh(Repr) && Contents == [] && Item == map[]
    {
      var any := new Head();
      group := new Head[32, 32]((_, _) => any);
      Contents, Item, Repr := [], map[], {};
      new;
      for i := 0 to 32
        invariant Started(i, 0) && fresh(Repr) && fresh(group) && Contents == [] && Item == map[]
      {
        for j := 0 to 32
          invariant Started(i, j) && fresh(Repr) && fresh(group) && Contents == [] && Item == map[]
        {
          InitCell(i, j);
        }
        assert forall p: Level, g: Level :: Before(p, g, i + 1, 0) <==> Before(p, g, i, 32);
      }
      assert forall p: Level, g: Level :: Before(p, g, 32, 0);
    }

    method InsertLink(elm: Node, ghost u: Uthread, p: Level, g: Level)
      requires Linked() && elm !in Item && u.priority == p && u.gid == g
      modifies this`Item, this`Repr, Repr, elm
      ensures Linked() && Repr == old(Repr) + {elm} && Item == old(Item)[elm := u]
      ensures group[p, g].Elems == old(group[p, g].Elems) + [elm]
      ensures forall p': Level, g': Level | p != p' || g != g' :: group[p', g'].Elems == old(group[p', g'].Elems)
    {
      assert CellLinked(p, g);
      group[p, g].InsertTail(elm);
      forall p': Level, g': Level | p != p' || g != g'
        ensures group[p', g'].Valid() && group[p', g'].Elems == old(group[p', g'].Elems)
      {
        assert old(CellLinked(p', g')) && old(Apart(p, g, p', g'));
        ghost var others := old(group[p', g'].Elems);
        forall i | 0 <= i < |others|
          ensures others[i] != elm && others[i] !in old(group[p, g].Elems)
          ensures others[i].tqeNext == old(others[i].tqeNext) && others[i].tqePrev == old(others[i].tqePrev)
        {
          assert others[i] in others;
        }
      }
      Item := Item[elm := u];
      Repr := Repr + {elm};
      forall p': Level, g': Level ensures CellLinked(p', g') {
        assert old(CellLinked(p', g'));
      }
    }

    /** The table's part of `__add_to_runqueue`. */
    method Insert(elm: Node, ghost u: Uthread, p: Level, g: Level)
      requires Valid() && elm !in Item && u !in Contents && u.priority == p && u.gid == g
      modifies this, Repr, elm
      ensures Valid() && Repr == old(Repr) + {elm}
      ensures Contents == old(Contents) + [u] && Item == old(Item)[elm := u]
    {
      InsertLink(elm, u, p, g);
      Contents := Contents + [u];
      forall p': Level, g': Level
        ensures CellLinked(p', g') && Holds(group[p', g'].Elems, Item, Contents, Cell(p', g'))
      {
        assert old(CellLinked(p', g'));
        if p == p' && g == g' {
          HoldsAfterInsert(old(group[p, g].Elems), old(Item), old(Contents), Cell(p, g), elm, u);
        } else {
          HoldsBesideInsert(group[p', g'].Elems, old(Item), old(Contents), Cell(p', g'), elm, u);
        }
      }
    }

    method RemoveLink(elm: Node, p: Level, g: Level, ghost k: nat)
      requires Linked() && k < |group[p, g].Elems| && group[p, g].Elems[k] == elm
      modifies this`Item, Repr
      ensures Linked() && Item == old(Item) - {elm}
      ensures group[p, g].Elems == Delete(old(group[p, g].Elems), k) && elm !in group[p, g].Elems
      ensures forall p': Level, g': Level | p != p' || g != g' :: group[p', g'].Elems == old(group[p', g'].Elems)
    {
      assert CellLinked(p, g);
      group[p, g].Remove(elm, k);
      forall p': Level, g': Level | p != p' || g != g'
        ensures group[p', g'].Valid() && group[p', g'].Elems == old(group[p', g'].Elems)
      {
        assert old(CellLinked(p', g')) && old(Apart(p, g, p', g'));
        ghost var others := old(group[p', g'].Elems);
        forall i | 0 <= i < |others|
          ensures others[i] !in old(group[p, g].Elems)
          ensures others[i].tqeNext == old(others[i].tqeNext) && others[i].tqePrev == old(others[i].tqePrev)
        {
          assert others[i] in others;
        }
      }
      Item := Item - {elm};
      forall p': Level, g': Level ensures CellLinked(p', g') {
        assert old(CellLinked(p', g'));
      }
    }

    /** The table's part of `__rem_from_runqueue`. */
    method Remove(elm: Node, p: Level, g: Level, ghost k: nat)
      requires Valid() && k < |group[p, g].Elems| && group[p, g].Elems[k] == elm
      requires elm in Item
      modifies this, Repr
      ensures Valid() && Item == old(Item) - {elm}
      ensures Contents == Without(old(Contents), old(Item[elm]))
    {
      ghost var u := Item[elm];
      assert CellLinked(p, g) && Distinct(group[p, g].Elems);
      RemoveLink(elm, p, g, k);
      HoldsAfterRemoval(old(group[p, g].Elems), old(Item), Contents, Cell(p, g), k);
      WithoutDistinct(Contents, u);
      Contents := Without(Contents, u);
      forall p': Level, g': Level
        ensures CellLinked(p', g') && Holds(group[p', g'].Elems, Item, Contents, Cell(p', g'))
      {
        assert old(CellLinked(p', g'));
        if p != p' || g != g' {
          HoldsBesideRemoval(group[p', g'].Elems, old(Item), old(Contents), Cell(p', g'), elm, u);
        }
      }
    }

    /** `TAILQ_FIRST` of the cell that the masks lead to. */
    method FirstOf(p: Level, g: Level) returns (n: Node?)
      requires Valid()
      ensures if Members(Contents, Cell(p, g)) == [] then n == null
              else n != null && n in Item && Item[n] == Members(Contents, Cell(p, g))[0]
    {
      assert CellLinked(p, g);
      n := group[p, g].First();
    }
  }
}
