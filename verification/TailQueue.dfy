/** The intrusive tail queue of gt_tailq.h, down to its links. */
module TailQueue {

  /** What a `**` link can address: the head's `tqh_first` field or an element's `tqe_next` field. */
  datatype Link = Null | FirstOf(head: Head) | NextOf(node: Node)

  /** The `TAILQ_ENTRY` inside an element. */
  class Node {
    var tqeNext: Node?
    var tqePrev: Link
    constructor () {
      tqeNext, tqePrev := null, Null;
    }
  }

  /** `s` without its element at `k`. */
  function Delete<T>(s: seq<T>, k: nat): (r: seq<T>)
    requires k < |s|
    ensures |r| == |s| - 1
    ensures forall i | 0 <= i < k :: r[i] == s[i]
    ensures forall i | k <= i < |r| :: r[i] == s[i + 1]
  {
    s[..k] + s[k + 1..]
  }

  predicate Distinct<T(==)>(s: seq<T>) {
    forall i, j | 0 <= i < j < |s| :: s[i] != s[j]
  }

  lemma DeleteDistinct<T>(s: seq<T>, k: nat)
    requires k < |s| && Distinct(s)
    ensures Distinct(Delete(s, k))
    ensures s[k] !in Delete(s, k)
  {
    forall i | 0 <= i < |s| - 1 ensures Delete(s, k)[i] != s[k] {
      assert Delete(s, k)[i] == if i < k then s[i] else s[i + 1];
    }
  }

  class Head {
    var tqhFirst: Node?
    var tqhLast: Link
    /** The queued elements, first to last. */
    ghost var Elems: seq<Node>

    /** The pointer that should be stored in front of position `i`, and the link that addresses it. */
    ghost function PointerTo(i: nat): Node?
      reads this`Elems
    {
      if i < |Elems| then Elems[i] else null
    }

    ghost function LinkTo(i: nat): Link
      requires i <= |Elems|
      reads this`Elems
    {
      if i == 0 then FirstOf(this) else NextOf(Elems[i - 1])
    }

    /** Well linked: every forward pointer leads to the following element, every back link addresses the pointer that
        leads here, and the head's last link addresses the final null. */
    ghost predicate Valid()
      reads this, Elems
    {
      && Distinct(Elems)
      && tqhFirst == PointerTo(0)
      && tqhLast == LinkTo(|Elems|)
      && (forall i {:trigger Elems[i].tqeNext} | 0 <= i < |Elems| :: Elems[i].tqeNext == PointerTo(i + 1))
      && (forall i {:trigger Elems[i].tqePrev} | 0 <= i < |Elems| :: Elems[i].tqePrev == LinkTo(i))
    }

    /** `TAILQ_INIT`. */
    constructor ()
      ensures Valid() && Elems == []
    {
      tqhFirst, tqhLast := null, Null;
      Elems := [];
      new;
      tqhLast := FirstOf(this);
    }

    /** `TAILQ_EMPTY`. */
    method IsEmpty() returns (b: bool)
      requires Valid()
      ensures b <==> Elems == []
    {
      b := tqhFirst == null;
    }

    /** `TAILQ_FIRST`. */
    method First() returns (n: Node?)
      requires Valid()
      ensures n == if Elems == [] then null else Elems[0]
    {
      n := tqhFirst;
    }

    /** `TAILQ_INSERT_TAIL`. */
    method InsertTail(elm: Node)
      requires Valid() && elm !in Elems
      modifies this, Elems, elm
      ensures Valid()
      ensures Elems == old(Elems) + [elm]
    {
      elm.tqeNext := null;
      elm.tqePrev := tqhLast;
      match tqhLast {
        case FirstOf(h) => h.tqhFirst := elm;
        case NextOf(m) => m.tqeNext := elm;
      }
      tqhLast := NextOf(elm);
      Elems := Elems + [elm];
    }

    /** `TAILQ_REMOVE`: any member, wherever it stands. */
    method Remove(elm: Node, ghost k: nat)
      requires Valid() && k < |Elems| && Elems[k] == elm
      modifies this, Elems
      ensures Valid()
      ensures Elems == Delete(old(Elems), k)
      ensures elm !in Elems
    {
      ghost var s, t := Elems, Delete(Elems, k);
      DeleteDistinct(s, k);
      if elm.tqeNext != null {
        elm.tqeNext.tqePrev := elm.tqePrev;
      } else {
        tqhLast := elm.tqePrev;
      }
      match elm.tqePrev {
        case FirstOf(h) => h.tqhFirst := elm.tqeNext;
        case NextOf(m) => m.tqeNext := elm.tqeNext;
      }
      Elems := t;
    }

    /** Following `n` forward pointers from the head. */
    ghost function Walk(n: nat): (m: Node?)
      requires Valid()
      reads this, Elems
      ensures m == PointerTo(n)
    {
      if n == 0 then tqhFirst
      else
        var l := Walk(n - 1);
        if l == null then null else l.tqeNext
    }

    /** The list is acyclic: walking it visits each element once, in order, and then ends. */
    lemma WalkVisits()
      requires Valid()
      ensures forall i | 0 <= i < |Elems| :: Walk(i) == Elems[i]
      ensures forall i, j | 0 <= i < j < |Elems| :: Walk(i) != Walk(j)
      ensures forall n: nat | n >= |Elems| :: Walk(n) == null
    {
      assert forall n: nat :: Walk(n) == PointerTo(n);
    }
  }
}
