/** The O(1) runqueue of gt_pq.c: a 32 by 32 table of tail queues, indexed by bit masks and counters. */
module Runqueues {
  import opened Words
  import opened Uthreads

  /** At most one priority was ever in use. */
  ghost predicate Uniform(used: set<Level>) {
    forall a, b | a in used && b in used :: a == b
  }

  /** `runqueue_t`, with the `group_mask` and `group` fields of its `prio_array` as tables of their own.
      Each tail queue is the sequence of its elements; module LinkedTable shows that a table of linked ones behaves
      like this. */
  class Runqueue {
    var uthreadMask: Word
    var uthreadTot: nat
    const uthreadPrioTot: array<nat>
    const uthreadGroupMask: array<Word>
    const uthreadGroupTot: array<nat>
    const groupMask: array<Word>
    const group: array2<seq<Uthread>>

    /** The queued uthreads in the order they were added. */
    ghost var Contents: seq<Uthread>
    /** Every priority at which a uthread was ever added. */
    ghost var Used: set<Level>

    ghost const Repr: set<object> :=
      {this, uthreadPrioTot, uthreadGroupMask, uthreadGroupTot, groupMask, group}

    ghost predicate Shape() {
      && uthreadPrioTot.Length == uthreadGroupMask.Length == uthreadGroupTot.Length == groupMask.Length == 32
      && group.Length0 == group.Length1 == 32
      && uthreadPrioTot != uthreadGroupTot && uthreadGroupMask != groupMask
    }

    /** The table of tail queues holds `q`, and each priority's group mask is exact. */
    ghost predicate TableExact(q: seq<Uthread>)
      requires Shape()
      reads group, groupMask
    {
      && (forall p: Level, g: Level :: group[p, g] == Members(q, Cell(p, g)))
      && (forall p: Level, g: Level :: IsBitSet(groupMask[p], g) <==> Members(q, Cell(p, g)) != [])
    }

    /** The per-priority counters and the priority mask are exact. */
    ghost predicate PrioExact(q: seq<Uthread>)
      requires Shape()
      reads this`uthreadMask, uthreadPrioTot
    {
      && (forall p: Level :: uthreadPrioTot[p] == |Members(q, Prio(p))|)
      && (forall p: Level :: IsBitSet(uthreadMask, p) <==> Members(q, Prio(p)) != [])
    }

    /** The per-group counters are exact, and the per-group priority masks cover the occupied cells. */
    ghost predicate GroupCovers(q: seq<Uthread>, used: set<Level>)
      requires Shape()
      reads uthreadGroupTot, uthreadGroupMask
    {
      && (forall g: Level :: uthreadGroupTot[g] == |Members(q, Group(g))|)
      && (forall g: Level, p: Level :: Members(q, Cell(p, g)) != [] ==> IsBitSet(uthreadGroupMask[g], p))
      && (forall g: Level, p: Level :: IsBitSet(uthreadGroupMask[g], p) ==> p in used)
    }

    ghost predicate GroupMaskExact(q: seq<Uthread>)
      requires Shape()
      reads uthreadGroupMask
    {
      forall g: Level, p: Level :: IsBitSet(uthreadGroupMask[g], p) ==> Members(q, Cell(p, g)) != []
    }

    /** The index agrees with the queues; the group masks are exact as long as one priority is in use. */
    ghost predicate Valid()
      reads Repr
    {
      && Shape()
      && uthreadTot == |Contents|
      && (forall u | u in Contents :: u.priority in Used)
      && TableExact(Contents)
      && PrioExact(Contents)
      && GroupCovers(Contents, Used)
      && (Uniform(Used) ==> GroupMaskExact(Contents))
    }

    /** `init_runqueue` on zeroed memory. */
    constructor ()
      ensures Valid() && fresh(Repr)
      ensures Contents == [] && Used == {}
    {
      uthreadMask := Zero();
      uthreadTot := 0;
      uthreadPrioTot := new nat[32](_ => 0);
      uthreadGroupMask := new Word[32](_ => Zero());
      uthreadGroupTot := new nat[32](_ => 0);
      groupMask := new Word[32](_ => Zero());
      group := new seq<Uthread>[32, 32]((_, _) => []);
      Contents := [];
      Used := {};
      new;
      assert Repr == {this, uthreadPrioTot, uthreadGroupMask, uthreadGroupTot, groupMask, group};
    }

    /** `__add_to_runqueue`. */
    method Add(u: Uthread)
      requires Valid()
      modifies Repr
      ensures Valid()
      ensures Contents == old(Contents) + [u]
      ensures Used == old(Used) + {u.priority}
      ensures forall g: Level :: uthreadGroupMask[g] ==
                if g == u.gid then SetBit(old(uthreadGroupMask[g]), u.priority) else old(uthreadGroupMask[g])
    {
      AddToTable(u);
      uthreadTot := uthreadTot + 1;
      AddToPrio(u);
      AddToGroup(u);
      Contents := Contents + [u];
      Used := Used + {u.priority};
    }

    method AddToTable(u: Uthread)
      requires Shape() && TableExact(Contents)
      modifies group, groupMask
      ensures TableExact(Contents + [u])
    {
      var p, g := u.priority, u.gid;
      forall p: Level, g: Level ensures Members(Contents + [u], Cell(p, g)) ==
          Members(Contents, Cell(p, g)) + if p == u.priority && g == u.gid then [u] else []
      {
        MembersAppend(Contents, u, Cell(p, g));
      }
      group[p, g] := group[p, g] + [u];
      if !IsBitSet(groupMask[p], g) {
        groupMask[p] := SetBit(groupMask[p], g);
      }
    }

    method AddToPrio(u: Uthread)
      requires Shape() && PrioExact(Contents)
      modifies this`uthreadMask, uthreadPrioTot
      ensures PrioExact(Contents + [u])
    {
      var p := u.priority;
      uthreadPrioTot[p] := uthreadPrioTot[p] + 1;
      if !IsBitSet(uthreadMask, p) {
        uthreadMask := SetBit(uthreadMask, p);
      }
      forall p: Level ensures Members(Contents + [u], Prio(p)) ==
          Members(Contents, Prio(p)) + if p == u.priority then [u] else []
      {
        MembersAppend(Contents, u, Prio(p));
      }
    }

    method AddToGroup(u: Uthread)
      requires Shape() && GroupCovers(Contents, Used)
      requires Uniform(Used) ==> GroupMaskExact(Contents)
      modifies uthreadGroupTot, uthreadGroupMask
      ensures GroupCovers(Contents + [u], Used + {u.priority})
      ensures Uniform(Used + {u.priority}) ==> GroupMaskExact(Contents + [u])
      ensures forall g: Level :: uthreadGroupMask[g] ==
                if g == u.gid then SetBit(old(uthreadGroupMask[g]), u.priority) else old(uthreadGroupMask[g])
    {
      var p, g := u.priority, u.gid;
      GroupAfterAddition(u);
      assert Uniform(Used + {p}) ==> Uniform(Used);
      uthreadGroupTot[g] := uthreadGroupTot[g] + 1;
      if !IsBitSet(uthreadGroupMask[g], p) {
        uthreadGroupMask[g] := SetBit(uthreadGroupMask[g], p);
      }
      forall g': Level, p': Level | IsBitSet(uthreadGroupMask[g'], p')
        ensures IsBitSet(old(uthreadGroupMask[g']), p') || (g' == g && p' == p)
      {}
    }

    /** How one addition changes the groups and cells. */
    lemma GroupAfterAddition(u: Uthread)
      ensures forall g: Level :: |Members(Contents + [u], Group(g))| ==
                |Members(Contents, Group(g))| + if g == u.gid then 1 else 0
      ensures forall p: Level, g: Level :: Members(Contents + [u], Cell(p, g)) != [] <==>
                Members(Contents, Cell(p, g)) != [] || (p == u.priority && g == u.gid)
    {
      forall g: Level ensures |Members(Contents + [u], Group(g))| ==
          |Members(Contents, Group(g))| + if g == u.gid then 1 else 0
      {
        MembersAppend(Contents, u, Group(g));
      }
      forall p: Level, g: Level ensures Members(Contents + [u], Cell(p, g)) != [] <==>
          Members(Contents, Cell(p, g)) != [] || (p == u.priority && g == u.gid)
      {
        MembersAppend(Contents, u, Cell(p, g));
      }
    }

    /** `__rem_from_runqueue`. */
    method Remove(u: Uthread)
      requires Valid() && u in Contents
      modifies Repr
      ensures Valid()
      ensures Contents == Without(old(Contents), u)
      ensures Used == old(Used)
      ensures forall g: Level :: uthreadGroupMask[g] ==
                if g == u.gid && Members(Contents, Group(g)) == []
                then ResetBit(old(uthreadGroupMask[g]), u.priority) else old(uthreadGroupMask[g])
    {
      WithoutLength(Contents, u);
      forall v | v in Without(Contents, u) ensures v in Contents {
        WithoutIn(Contents, u, v);
      }
      RemoveFromTable(u);
      uthreadTot := uthreadTot - 1;
      RemoveFromPrio(u);
      RemoveFromGroup(u);
      Contents := Without(Contents, u);
    }

    method RemoveFromTable(u: Uthread)
      requires Shape() && TableExact(Contents) && u in Contents
      modifies group, groupMask
      ensures TableExact(Without(Contents, u))
    {
      var p, g := u.priority, u.gid;
      group[p, g] := Without(group[p, g], u);
      if group[p, g] == [] {
        groupMask[p] := ResetBit(groupMask[p], g);
      }
      CellsAfterRemoval(u);
    }

    /** How one removal changes the cells. */
    lemma CellsAfterRemoval(u: Uthread)
      requires u in Contents
      ensures Members(Contents, Cell(u.priority, u.gid)) != []
      ensures Members(Without(Contents, u), Cell(u.priority, u.gid)) ==
              Without(Members(Contents, Cell(u.priority, u.gid)), u)
      ensures forall p: Level, g: Level | p != u.priority || g != u.gid ::
                Members(Without(Contents, u), Cell(p, g)) == Members(Contents, Cell(p, g))
    {
      MembersIn(Contents, Cell(u.priority, u.gid), u);
      MembersWithout(Contents, u, Cell(u.priority, u.gid));
      forall p: Level, g: Level | p != u.priority || g != u.gid
        ensures Members(Without(Contents, u), Cell(p, g)) == Members(Contents, Cell(p, g))
      {
        MembersWithout(Contents, u, Cell(p, g));
      }
    }

    method RemoveFromPrio(u: Uthread)
      requires Shape() && PrioExact(Contents) && u in Contents
      modifies this`uthreadMask, uthreadPrioTot
      ensures PrioExact(Without(Contents, u))
    {
      var p := u.priority;
      PrioAfterRemoval(u);
      uthreadPrioTot[p] := uthreadPrioTot[p] - 1;
      if uthreadPrioTot[p] == 0 {
        uthreadMask := ResetBit(uthreadMask, p);
      }
    }

    lemma PrioAfterRemoval(u: Uthread)
      requires u in Contents
      ensures Members(Contents, Prio(u.priority)) != []
      ensures forall p: Level :: |Members(Without(Contents, u), Prio(p))| ==
                |Members(Contents, Prio(p))| - if p == u.priority then 1 else 0
    {
      MembersIn(Contents, Prio(u.priority), u);
      WithoutLength(Members(Contents, Prio(u.priority)), u);
      forall p: Level ensures Members(Without(Contents, u), Prio(p)) ==
          if p == u.priority then Without(Members(Contents, Prio(p)), u) else Members(Contents, Prio(p))
      {
        MembersWithout(Contents, u, Prio(p));
      }
    }

    /** The group mask loses a bit only when the whole group becomes empty. */
    method RemoveFromGroup(u: Uthread)
      requires Shape() && GroupCovers(Contents, Used) && u in Contents
      requires TableExact(Without(Contents, u))
      requires forall v | v in Contents :: v.priority in Used
      requires Uniform(Used) ==> GroupMaskExact(Contents)
      modifies uthreadGroupTot, uthreadGroupMask
      ensures GroupCovers(Without(Contents, u), Used)
      ensures Uniform(Used) ==> GroupMaskExact(Without(Contents, u))
      ensures forall g: Level :: uthreadGroupMask[g] ==
                if g == u.gid && Members(Without(Contents, u), Group(g)) == []
                then ResetBit(old(uthreadGroupMask[g]), u.priority) else old(uthreadGroupMask[g])
    {
      var p, g := u.priority, u.gid;
      ghost var q := Without(Contents, u);
      GroupAfterRemoval(u);
      uthreadGroupTot[g] := uthreadGroupTot[g] - 1;
      assert uthreadGroupTot[g] == |Members(q, Group(g))|;
      if uthreadGroupTot[g] == 0 {
        assert group[p, g] == [];
        uthreadGroupMask[g] := ResetBit(uthreadGroupMask[g], p);
      }
    }

    /** How one removal changes the groups and cells. */
    lemma GroupAfterRemoval(u: Uthread)
      requires u in Contents && forall v | v in Contents :: v.priority in Used
      ensures Members(Contents, Group(u.gid)) != []
      ensures forall g: Level :: |Members(Without(Contents, u), Group(g))| ==
                |Members(Contents, Group(g))| - if g == u.gid then 1 else 0
      ensures forall p: Level, g: Level | p != u.priority || g != u.gid ::
                Members(Without(Contents, u), Cell(p, g)) == Members(Contents, Cell(p, g))
      ensures forall p: Level :: Members(Without(Contents, u), Cell(p, u.gid)) != [] ==>
                Members(Without(Contents, u), Group(u.gid)) != [] && Members(Contents, Cell(p, u.gid)) != []
      ensures Uniform(Used) ==>
                (Members(Without(Contents, u), Group(u.gid)) == [] <==>
                 Members(Without(Contents, u), Cell(u.priority, u.gid)) == [])
    {
      var q := Without(Contents, u);
      MembersIn(Contents, Group(u.gid), u);
      WithoutLength(Members(Contents, Group(u.gid)), u);
      forall g: Level ensures Members(q, Group(g)) ==
          if g == u.gid then Without(Members(Contents, Group(g)), u) else Members(Contents, Group(g))
      {
        MembersWithout(Contents, u, Group(g));
      }
      forall p: Level, g: Level | p != u.priority || g != u.gid
        ensures Members(q, Cell(p, g)) == Members(Contents, Cell(p, g))
      {
        MembersWithout(Contents, u, Cell(p, g));
      }
      forall p: Level | Members(q, Cell(p, u.gid)) != []
        ensures Members(q, Group(u.gid)) != [] && Members(Contents, Cell(p, u.gid)) != []
      {
        var v := Members(q, Cell(p, u.gid))[0];
        MembersIn(q, Cell(p, u.gid), v);
        MembersIn(q, Group(u.gid), v);
        WithoutIn(Contents, u, v);
        MembersIn(Contents, Cell(p, u.gid), v);
      }
      if Uniform(Used) && Members(q, Group(u.gid)) != [] {
        var v := Members(q, Group(u.gid))[0];
        MembersIn(q, Group(u.gid), v);
        WithoutIn(Contents, u, v);
        MembersIn(q, Cell(u.priority, u.gid), v);
      }
    }

    /** Lines 261-274: two lowest-set-bit lookups and a removal select exactly what the slow search selects. */
    method RemoveBest() returns (u: Uthread)
      requires Valid() && !IsZero(uthreadMask)
      modifies Repr
      ensures Valid()
      ensures old(Contents) != [] && u == Best(old(Contents))
      ensures Contents == Without(old(Contents), u)
      ensures Used == old(Used)
    {
      LookupFindsBest();
      var p := LowestBitSet(uthreadMask);
      assert !IsZero(groupMask[p]);
      var g := LowestBitSet(groupMask[p]);
      u := group[p, g][0];
      Remove(u);
    }

    /** The mask is zero exactly when the runqueue is empty; otherwise the lookups lead to the head of the best
        uthread's tail queue. */
    lemma LookupFindsBest()
      requires Valid()
      ensures IsZero(uthreadMask) <==> Contents == []
      ensures Contents != [] ==>
                var u := Best(Contents);
                && LowestBitSet(uthreadMask) == u.priority
                && !IsZero(groupMask[u.priority])
                && LowestBitSet(groupMask[u.priority]) == u.gid
                && group[u.priority, u.gid] != [] && group[u.priority, u.gid][0] == u
    {
      if Contents == [] {
        forall i | 0 <= i < 32 ensures !uthreadMask[i] {
          var p: Level := i;
          assert !IsBitSet(uthreadMask, p);
        }
      } else {
        var u := Best(Contents);
        MembersIn(Contents, Prio(u.priority), u);
        assert IsBitSet(uthreadMask, u.priority);
        var p: Level := LowestBitSet(uthreadMask);
        var v := Members(Contents, Prio(p))[0];
        MembersIn(Contents, Prio(p), v);
        BestCellIsLeast(Contents, v);
        BestHeadsItsCell(Contents);
        assert IsBitSet(groupMask[p], u.gid);
        var g: Level := LowestBitSet(groupMask[p]);
        var w := Members(Contents, Cell(p, g))[0];
        MembersIn(Contents, Cell(p, g), w);
        BestCellIsLeast(Contents, w);
      }
    }
  }

  method TwoAdded(u: Uthread, v: Uthread) returns (r: Runqueue)
    requires u.gid == v.gid
    ensures fresh(r.Repr) && r.Valid() && r.Contents == [u, v]
    ensures IsBitSet(r.uthreadGroupMask[u.gid], u.priority)
  {
    r := new Runqueue();
    r.Add(u);
    assert r.Contents == [u] && IsBitSet(r.uthreadGroupMask[u.gid], u.priority);
    r.Add(v);
    assert r.Contents == [u, v];
  }

  /** With two priorities in one group the group mask can name an empty cell: the bit of the first priority stays
      behind when its last uthread leaves while the group still has a uthread at another priority. */
  method StaleGroupBit(u: Uthread, v: Uthread) returns (r: Runqueue)
    requires u.gid == v.gid && u.priority != v.priority
    ensures fresh(r.Repr) && r.Valid() && r.Contents == [v]
    ensures Members(r.Contents, Cell(u.priority, u.gid)) == []
    ensures IsBitSet(r.uthreadGroupMask[u.gid], u.priority)
  {
    r := TwoAdded(u, v);
    assert Without([u, v], u) == [v];
    assert Members([v], Group(u.gid)) == [v];
    r.Remove(u);
  }
}
