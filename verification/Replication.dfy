/** Replication in GTStore as a step machine: a put is stored at the first live node of the key's window, which
    answers the client and sends the pair to the following r - 1 nodes; each node applies such messages in order, some
    time later. Nodes fail and do not come back. */
module Replication {
  import opened Options
  import opened Ring
  import opened Wire

  datatype Message = Message(key: string, values: Values)

  datatype Cluster = Cluster(n: nat, r: nat, stores: seq<Store>, queues: seq<seq<Message>>, alive: set<nat>)

  datatype Action =
    | Put(key: string, values: Values)
    | Drain(i: nat)
    | Fail(i: nat)

  predicate WellFormed(c: Cluster) {
    && 1 <= c.r <= c.n && |c.stores| == |c.queues| == c.n
    && forall i | i in c.alive :: i < c.n
  }

  predicate Init(c: Cluster) {
    && WellFormed(c)
    && (forall i | 0 <= i < c.n :: c.stores[i] == map[] && c.queues[i] == [])
  }

  /** The node a client reaches for a key, whatever sound list of dead nodes it has been given. */
  function Responsible(c: Cluster, key: string): Option<nat>
    requires WellFormed(c)
  {
    FirstLive(Home(key, c.n), c.r, c.n, c.alive)
  }

  /** Where the puts of node `x` are forwarded first: the next live node among its replicas. */
  function Heir(c: Cluster, x: nat): Option<nat>
    requires WellFormed(c) && x < c.n
  {
    FirstLive(Succ(x, c.n), c.r - 1, c.n, c.alive - {x})
  }

  /** A node fails quietly if the node that takes over from it has no replication message left to apply. */
  predicate Quiet(c: Cluster, x: nat)
    requires WellFormed(c) && x < c.n
  {
    match Heir(c, x)
    case None => true
    case Some(h) => c.queues[h] == []
  }

  predicate Enabled(c: Cluster, a: Action)
    requires WellFormed(c)
  {
    match a
    case Put(_, _) => true
    case Drain(i) => i in c.alive && c.queues[i] != []
    case Fail(i) => i in c.alive
  }

  function Forwarded(c: Cluster, f: nat, m: Message): seq<seq<Message>>
    requires WellFormed(c) && f < c.n
  {
    seq(c.n, i requires 0 <= i < c.n =>
      if i in c.alive && 1 <= Dist(f, i, c.n) < c.r then c.queues[i] + [m] else c.queues[i])
  }

  function Apply(c: Cluster, a: Action): Cluster
    requires WellFormed(c) && Enabled(c, a)
  {
    match a
    case Put(key, values) =>
      (match Responsible(c, key)
       case None => c
       case Some(f) =>
         c.(stores := c.stores[f := c.stores[f][key := values]],
            queues := Forwarded(c, f, Message(key, values))))
    case Drain(i) =>
      var m := c.queues[i][0];
      c.(stores := c.stores[i := c.stores[i][m.key := m.values]], queues := c.queues[i := c.queues[i][1..]])
    case Fail(i) => c.(alive := c.alive - {i})
  }

  /** Failures happen only quietly. */
  predicate Allowed(c: Cluster, a: Action) {
    WellFormed(c) && Enabled(c, a) && (a.Fail? ==> Quiet(c, a.i))
  }

  /** A run from `c`, given with its actions, in which every failure is quiet. */
  ghost predicate Continuation(c: Cluster, run: seq<Cluster>, acts: seq<Action>) {
    && |run| == |acts| + 1 && run[0] == c
    && forall i | 0 <= i < |acts| :: Allowed(run[i], acts[i]) && run[i + 1] == Apply(run[i], acts[i])
  }

  ghost predicate Behaviour(run: seq<Cluster>, acts: seq<Action>) {
    run != [] && Init(run[0]) && Continuation(run[0], run, acts)
  }

  /** What was acknowledged after one more action: a put is answered if some node of the key's window is alive. */
  function AckedBy(c: Cluster, a: Action, acked: map<string, Values>): map<string, Values> {
    if WellFormed(c) && a.Put? && Responsible(c, a.key).Some? then acked[a.key := a.values] else acked
  }

  /** For each key the values of the last put in the run that was answered, on top of what was acknowledged before. */
  function Acked(run: seq<Cluster>, acts: seq<Action>, before: map<string, Values>): map<string, Values>
    requires |run| == |acts| + 1
  {
    if acts == [] then before
    else
      var n := |acts| - 1;
      AckedBy(run[n], acts[n], Acked(run[..n + 1], acts[..n], before))
  }

  // ----- the invariant -------------------------------------------------------------------------

  /** What a node holds for a key once it has applied its queue. */
  function Settled(q: seq<Message>, store: Store, key: string): Option<Values> {
    if q == [] then (if key in store then Some(store[key]) else None)
    else if q[|q| - 1].key == key then Some(q[|q| - 1].values)
    else Settled(q[..|q| - 1], store, key)
  }

  predicate NoPending(q: seq<Message>, key: string) {
    forall i | 0 <= i < |q| :: q[i].key != key
  }

  /** Every live node of the key's window settles on the acknowledged values, and the first one has nothing left to
      apply for the key. */
  ghost predicate KeySafe(c: Cluster, key: string, values: Values)
    requires WellFormed(c)
  {
    && (forall i: nat | i in c.alive && Dist(Home(key, c.n), i, c.n) < c.r ::
          Settled(c.queues[i], c.stores[i], key) == Some(values))
    && (Responsible(c, key).Some? ==> NoPending(c.queues[Responsible(c, key).value], key))
  }

  /** Nothing is stored or under way for a key that was never acknowledged. */
  ghost predicate KeyUnknown(c: Cluster, key: string)
    requires WellFormed(c)
  {
    forall i | 0 <= i < c.n :: key !in c.stores[i] && NoPending(c.queues[i], key)
  }

  ghost predicate Inv(c: Cluster, acked: map<string, Values>) {
    && WellFormed(c)
    && (forall key | key in acked :: KeySafe(c, key, acked[key]))
    && (forall key | key !in acked :: KeyUnknown(c, key))
  }

  lemma {:induction false} NoPendingSettles(q: seq<Message>, store: Store, key: string)
    requires NoPending(q, key)
    ensures Settled(q, store, key) == if key in store then Some(store[key]) else None
  {
    if q != [] {
      NoPendingSettles(q[..|q| - 1], store, key);
    }
  }

  lemma SettledAppend(q: seq<Message>, m: Message, store: Store, key: string)
    ensures Settled(q + [m], store, key) == if m.key == key then Some(m.values) else Settled(q, store, key)
  {
    assert (q + [m])[..|q|] == q;
  }

  lemma {:induction false} SettledStore(q: seq<Message>, store: Store, other: Store, key: string)
    requires key in store <==> key in other
    requires key in store ==> store[key] == other[key]
    ensures Settled(q, store, key) == Settled(q, other, key)
  {
    if q != [] {
      SettledStore(q[..|q| - 1], store, other, key);
    }
  }

  /** Applying the oldest message changes nothing about where the node settles. */
  lemma {:induction false} SettledDrain(q: seq<Message>, store: Store, key: string)
    requires q != []
    ensures Settled(q[1..], store[q[0].key := q[0].values], key) == Settled(q, store, key)
  {
    if |q| > 1 {
      assert q[1..][..|q| - 2] == q[..|q| - 1][1..];
      SettledDrain(q[..|q| - 1], store, key);
    } else {
      assert q[..0] == [] && q[1..] == [];
    }
  }

  // ----- one step ------------------------------------------------------------------------------

  /** On the ring, the window nodes behind the first live one are among its replicas. */
  lemma WindowIsForwardedTo(c: Cluster, key: string, f: nat, i: nat)
    requires WellFormed(c) && Responsible(c, key) == Some(f) && i in c.alive && i != f
    requires Dist(Home(key, c.n), i, c.n) < c.r
    ensures 1 <= Dist(f, i, c.n) < c.r
  {
    FirstLiveIsNearest(Home(key, c.n), c.r, c.n, c.alive, i);
  }

  lemma PutKeepsItsKey(c: Cluster, acked: map<string, Values>, key: string, values: Values)
    requires Inv(c, acked) && Responsible(c, key).Some?
    ensures var c' := Apply(c, Put(key, values)); WellFormed(c') && KeySafe(c', key, values)
  {
    var c', f, m := Apply(c, Put(key, values)), Responsible(c, key).value, Message(key, values);
    assert if key in acked then KeySafe(c, key, acked[key]) else KeyUnknown(c, key);
    assert NoPending(c.queues[f], key) && c'.queues[f] == c.queues[f];
    NoPendingSettles(c'.queues[f], c'.stores[f], key);
    forall i: nat | i in c.alive && Dist(Home(key, c.n), i, c.n) < c.r
      ensures Settled(c'.queues[i], c'.stores[i], key) == Some(values)
    {
      if i != f {
        WindowIsForwardedTo(c, key, f, i);
        SettledAppend(c.queues[i], m, c.stores[i], key);
      }
    }
  }

  lemma PutKeepsOtherKey(c: Cluster, key: string, values: Values, k: string, kept: Values)
    requires WellFormed(c) && KeySafe(c, k, kept) && k != key && Responsible(c, key).Some?
    ensures var c' := Apply(c, Put(key, values)); WellFormed(c') && KeySafe(c', k, kept)
  {
    var c', m := Apply(c, Put(key, values)), Message(key, values);
    forall i: nat | i in c.alive && Dist(Home(k, c.n), i, c.n) < c.r
      ensures Settled(c'.queues[i], c'.stores[i], k) == Some(kept)
    {
      SettledAppend(c.queues[i], m, c.stores[i], k);
      SettledStore(c'.queues[i], c.stores[i], c'.stores[i], k);
    }
  }

  lemma PutKeepsInv(c: Cluster, acked: map<string, Values>, key: string, values: Values)
    requires Inv(c, acked)
    ensures Inv(Apply(c, Put(key, values)), if Responsible(c, key).Some? then acked[key := values] else acked)
  {
    var c' := Apply(c, Put(key, values));
    if Responsible(c, key).Some? {
      var acked' := acked[key := values];
      forall k | k in acked' ensures KeySafe(c', k, acked'[k]) {
        if k == key {
          PutKeepsItsKey(c, acked, key, values);
        } else {
          assert KeySafe(c, k, acked[k]);
          PutKeepsOtherKey(c, key, values, k, acked[k]);
        }
      }
      forall k | k !in acked' ensures KeyUnknown(c', k) {
        assert KeyUnknown(c, k);
      }
    }
  }

  lemma DrainKeepsInv(c: Cluster, acked: map<string, Values>, i: nat)
    requires Inv(c, acked) && Enabled(c, Drain(i))
    ensures Inv(Apply(c, Drain(i)), acked)
  {
    var c' := Apply(c, Drain(i));
    forall k | k in acked ensures KeySafe(c', k, acked[k]) {
      assert KeySafe(c, k, acked[k]);
      SettledDrain(c.queues[i], c.stores[i], k);
    }
    forall k | k !in acked ensures KeyUnknown(c', k) {
      assert KeyUnknown(c, k);
    }
  }

  /** The condition under which the failure of `x` loses nothing: the node that takes over a key has no message for that
      key left to apply. */
  ghost predicate HandsOver(c: Cluster, acked: map<string, Values>, x: nat)
    requires WellFormed(c) && x in c.alive
  {
    forall key | key in acked && Responsible(c, key) == Some(x) ::
      match Responsible(Apply(c, Fail(x)), key)
      case None => true
      case Some(h) => NoPending(c.queues[h], key)
  }

  lemma FailKeepsInv(c: Cluster, acked: map<string, Values>, x: nat)
    requires Inv(c, acked) && Enabled(c, Fail(x)) && HandsOver(c, acked, x)
    ensures Inv(Apply(c, Fail(x)), acked)
  {
    var c' := Apply(c, Fail(x));
    forall key | key in acked ensures KeySafe(c', key, acked[key]) {
      assert KeySafe(c, key, acked[key]);
      if Responsible(c, key) != Some(x) {
        FirstLiveStays(Home(key, c.n), c.r, c.n, c.alive, x);
      }
    }
    forall key | key !in acked ensures KeyUnknown(c', key) {
      assert KeyUnknown(c, key);
    }
  }

  lemma QuietHandsOver(c: Cluster, acked: map<string, Values>, x: nat)
    requires WellFormed(c) && x in c.alive && Quiet(c, x)
    ensures HandsOver(c, acked, x)
  {
    forall key | key in acked && Responsible(c, key) == Some(x) && Responsible(Apply(c, Fail(x)), key).Some?
      ensures NoPending(c.queues[Responsible(Apply(c, Fail(x)), key).value], key)
    {
      NextInLine(Home(key, c.n), c.r, c.n, c.alive, x);
    }
  }

  lemma StepKeepsInv(c: Cluster, acked: map<string, Values>, a: Action)
    requires Inv(c, acked) && Allowed(c, a)
    ensures Inv(Apply(c, a), AckedBy(c, a, acked))
  {
    match a
    case Put(key, values) => PutKeepsInv(c, acked, key, values);
    case Drain(i) => DrainKeepsInv(c, acked, i);
    case Fail(i) =>
      QuietHandsOver(c, acked, i);
      FailKeepsInv(c, acked, i);
  }

  // ----- what clients see ------------------------------------------------------------------------

  /** What a client's get returns. */
  function Get(c: Cluster, key: string): Answer
    requires WellFormed(c)
  {
    match Responsible(c, key)
    case None => Invalid
    case Some(f) => if key in c.stores[f] then Found(c.stores[f][key]) else NotFound
  }

  /** A put replaces what gets of its key return, and changes nothing for other keys; one that reaches no node changes
      nothing at all. */
  lemma PutIsRead(c: Cluster, key: string, values: Values, k: string)
    requires WellFormed(c)
    ensures var c' := Apply(c, Put(key, values));
            && WellFormed(c')
            && (Responsible(c, key).Some? ==> Get(c', key) == Found(values))
            && (k != key ==> Get(c', k) == Get(c, k))
            && (Responsible(c, key).None? ==> c' == c)
  {}

  /** A put reaches the store of one node, and the queues of exactly the live nodes on that node's replica list. */
  lemma PutGoesToReplicas(c: Cluster, key: string, values: Values, f: nat, i: nat)
    requires WellFormed(c) && Responsible(c, key) == Some(f) && i < c.n
    ensures var c' := Apply(c, Put(key, values));
            && c'.alive == c.alive
            && c'.stores[i] == (if i == f then c.stores[i][key := values] else c.stores[i])
            && c'.queues[i] == c.queues[i] +
                 if i in c.alive && IsReplica(f, c.r, c.n, i) then [Message(key, values)] else []
  {
    ReplicaIff(f, c.r, c.n, i);
  }

  /** A get returns the acknowledged values, as long as one node of the key's window is alive, and finds nothing for a
      key without any. */
  ghost predicate ReadsBack(c: Cluster, acked: map<string, Values>, key: string) {
    WellFormed(c) &&
    Get(c, key) == if Responsible(c, key).None? then Invalid
                   else if key in acked then Found(acked[key]) else NotFound
  }

  lemma InvReadsBack(c: Cluster, acked: map<string, Values>, key: string)
    requires Inv(c, acked)
    ensures ReadsBack(c, acked, key)
  {
    if Responsible(c, key).Some? {
      var f := Responsible(c, key).value;
      if key in acked {
        assert KeySafe(c, key, acked[key]);
        FirstLiveIsNearest(Home(key, c.n), c.r, c.n, c.alive, f);
        NoPendingSettles(c.queues[f], c.stores[f], key);
      } else {
        assert KeyUnknown(c, key);
      }
    }
  }

  // ----- whole runs ----------------------------------------------------------------------------

  lemma {:induction false} RunKeepsInv(run: seq<Cluster>, acts: seq<Action>, before: map<string, Values>)
    requires run != [] && Inv(run[0], before) && Continuation(run[0], run, acts)
    ensures Inv(run[|acts|], Acked(run, acts, before))
    decreases |acts|
  {
    if acts != [] {
      var n := |acts| - 1;
      RunKeepsInv(run[..n + 1], acts[..n], before);
      assert Allowed(run[n], acts[n]) && run[n + 1] == Apply(run[n], acts[n]);
      StepKeepsInv(run[n], Acked(run[..n + 1], acts[..n], before), acts[n]);
    }
  }

  /** In every run with quiet failures every get returns the values of the last put of its key that was made while some
      node of the key's window was alive. */
  lemma AcknowledgedPutsSurvive(run: seq<Cluster>, acts: seq<Action>, key: string)
    requires Behaviour(run, acts)
    ensures ReadsBack(run[|acts|], Acked(run, acts, map[]), key)
  {
    RunKeepsInv(run, acts, map[]);
    InvReadsBack(run[|acts|], Acked(run, acts, map[]), key);
  }

  /** Action `i` is the last put of the key that was answered. */
  predicate LastAnswered(run: seq<Cluster>, acts: seq<Action>, key: string, i: nat)
    requires |run| == |acts| + 1
  {
    && i < |acts| && Answered(run[i], acts[i], key)
    && forall j | i < j < |acts| :: !Answered(run[j], acts[j], key)
  }

  predicate Answered(c: Cluster, a: Action, key: string) {
    WellFormed(c) && a.Put? && a.key == key && Responsible(c, key).Some?
  }

  lemma {:induction false} AckedIsLastAnswered(run: seq<Cluster>, acts: seq<Action>, key: string, i: nat)
    requires |run| == |acts| + 1 && LastAnswered(run, acts, key, i)
    ensures key in Acked(run, acts, map[]) && Acked(run, acts, map[])[key] == acts[i].values
    decreases |acts|
  {
    var n := |acts| - 1;
    if i < n {
      assert !Answered(run[n], acts[n], key);
      forall j | i < j < n ensures !Answered(run[..n + 1][j], acts[..n][j], key) {
        assert !Answered(run[j], acts[j], key);
      }
      AckedIsLastAnswered(run[..n + 1], acts[..n], key, i);
    }
  }

  lemma {:induction false} NotAcked(run: seq<Cluster>, acts: seq<Action>, key: string)
    requires |run| == |acts| + 1 && forall j | 0 <= j < |acts| :: !Answered(run[j], acts[j], key)
    ensures key !in Acked(run, acts, map[])
    decreases |acts|
  {
    if acts != [] {
      var n := |acts| - 1;
      assert !Answered(run[n], acts[n], key);
      forall j | 0 <= j < n ensures !Answered(run[..n + 1][j], acts[..n][j], key) {
        assert !Answered(run[j], acts[j], key);
      }
      NotAcked(run[..n + 1], acts[..n], key);
    }
  }

  /** A key no put of which was answered is not found. */
  lemma UnansweredIsNotFound(run: seq<Cluster>, acts: seq<Action>, key: string)
    requires Behaviour(run, acts) && forall j | 0 <= j < |acts| :: !Answered(run[j], acts[j], key)
    ensures WellFormed(run[|acts|])
    ensures Responsible(run[|acts|], key).Some? ==> Get(run[|acts|], key) == NotFound
  {
    AcknowledgedPutsSurvive(run, acts, key);
    NotAcked(run, acts, key);
  }

  /** The same read off the actions alone. */
  lemma LastPutIsRead(run: seq<Cluster>, acts: seq<Action>, key: string, i: nat)
    requires Behaviour(run, acts) && LastAnswered(run, acts, key, i)
    ensures WellFormed(run[|acts|])
    ensures Responsible(run[|acts|], key).Some? ==> Get(run[|acts|], key) == Found(acts[i].values)
  {
    AcknowledgedPutsSurvive(run, acts, key);
    AckedIsLastAnswered(run, acts, key, i);
  }

  /** Every other live node of the window reaches the same values by applying its queue. */
  lemma ReplicasCatchUp(run: seq<Cluster>, acts: seq<Action>, key: string, node: nat)
    requires Behaviour(run, acts) && key in Acked(run, acts, map[])
    ensures var c := run[|acts|];
            && WellFormed(c)
            && (node in c.alive && Dist(Home(key, c.n), node, c.n) < c.r ==>
                  Settled(c.queues[node], c.stores[node], key) == Some(Acked(run, acts, map[])[key]))
  {
    RunKeepsInv(run, acts, map[]);
    assert KeySafe(run[|acts|], key, Acked(run, acts, map[])[key]);
  }

  // ----- failures that are not quiet ---------------------------------------------------------------

  lemma Prepend(c: Cluster, a: Action, run: seq<Cluster>, acts: seq<Action>)
    requires Allowed(c, a) && Continuation(Apply(c, a), run, acts)
    ensures Continuation(c, [c] + run, [a] + acts)
  {
    forall i | 0 <= i < |acts| + 1
      ensures Allowed(([c] + run)[i], ([a] + acts)[i]) && ([c] + run)[i + 1] == Apply(([c] + run)[i], ([a] + acts)[i])
    {
      if i > 0 {
        assert Allowed(run[i - 1], acts[i - 1]) && run[i - 1 + 1] == Apply(run[i - 1], acts[i - 1]);
      }
    }
  }

  lemma {:induction false} AckedPrepend(
    c: Cluster, a: Action, run: seq<Cluster>, acts: seq<Action>, before: map<string, Values>)
    requires |run| == |acts| + 1
    ensures Acked([c] + run, [a] + acts, before) == Acked(run, acts, AckedBy(c, a, before))
    decreases |acts|
  {
    var n := |acts|;
    if n == 0 {
      assert ([a] + acts)[..0] == [];
    } else {
      assert ([c] + run)[..n + 1] == [c] + run[..n] && ([a] + acts)[..n] == [a] + acts[..n - 1];
      AckedPrepend(c, a, run[..n], acts[..n - 1], before);
    }
  }

  /** If the responsible node still has an older message for the key to apply, it ends up serving that one. */
  lemma {:induction false} DrainsToStale(c: Cluster, acked: map<string, Values>, h: nat, p: nat, key: string)
    returns (run: seq<Cluster>, acts: seq<Action>)
    requires WellFormed(c) && Responsible(c, key) == Some(h) && p < |c.queues[h]| && c.queues[h][p].key == key
    requires key in acked && c.queues[h][p].values != acked[key]
    ensures Continuation(c, run, acts) && !ReadsBack(run[|acts|], Acked(run, acts, acked), key)
    decreases p
  {
    var c' := Apply(c, Drain(h));
    run, acts := [c'], [];
    if p > 0 {
      run, acts := DrainsToStale(c', acked, h, p - 1, key);
    }
    Prepend(c, Drain(h), run, acts);
    AckedPrepend(c, Drain(h), run, acts, acked);
    run, acts := [c] + run, [Drain(h)] + acts;
  }

  /** A key that is not handed over: after one more put the new node overwrites it with what it still had to apply. */
  lemma PendingMessageWins(c: Cluster, acked: map<string, Values>, h: nat, p: nat, key: string)
    returns (run: seq<Cluster>, acts: seq<Action>)
    requires WellFormed(c) && Responsible(c, key) == Some(h) && p < |c.queues[h]| && c.queues[h][p].key == key
    ensures Continuation(c, run, acts) && !ReadsBack(run[|acts|], Acked(run, acts, acked), key)
  {
    var put := Put(key, c.queues[h][p].values + ["0"]);
    run, acts := DrainsToStale(Apply(c, put), AckedBy(c, put, acked), h, p, key);
    Prepend(c, put, run, acts);
    AckedPrepend(c, put, run, acts, acked);
    run, acts := [c] + run, [put] + acts;
  }

  /** Whatever happens after the failure of `x`, short of failures that are not quiet, gets read back what was
      acknowledged: this holds exactly if the nodes that take over have no message left for the keys they take over. */
  lemma FailIsSafeIff(c: Cluster, acked: map<string, Values>, x: nat)
    requires Inv(c, acked) && Enabled(c, Fail(x))
    ensures (forall run, acts, key | Continuation(Apply(c, Fail(x)), run, acts) ::
               ReadsBack(run[|acts|], Acked(run, acts, acked), key))
            <==> HandsOver(c, acked, x)
  {
    var c' := Apply(c, Fail(x));
    if HandsOver(c, acked, x) {
      FailKeepsInv(c, acked, x);
      forall run, acts, key | Continuation(c', run, acts) ensures ReadsBack(run[|acts|], Acked(run, acts, acked), key) {
        RunKeepsInv(run, acts, acked);
        InvReadsBack(run[|acts|], Acked(run, acts, acked), key);
      }
    } else {
      var key :| key in acked && Responsible(c, key) == Some(x) && Responsible(c', key).Some?
                 && !NoPending(c.queues[Responsible(c', key).value], key);
      var h := Responsible(c', key).value;
      var p :| 0 <= p < |c.queues[h]| && c.queues[h][p].key == key;
      var run, acts := PendingMessageWins(c', acked, h, p, key);
    }
  }

  /** Without quiet failures an acknowledged put can be missed: the only replica answers before it has applied the
      forwarded message. */
  lemma UnquietFailureLosesPut(c: Cluster, key: string, values: Values)
    requires Init(c) && c.n == c.r == 2 && c.alive == {0, 1} && Home(key, 2) == 0
    ensures var c1 := Apply(c, Put(key, values));
            && WellFormed(c1) && Enabled(c1, Fail(0)) && !Quiet(c1, 0)
            && Get(c1, key) == Found(values)
            && WellFormed(Apply(c1, Fail(0))) && Get(Apply(c1, Fail(0)), key) == NotFound
  {
    var c1 := Apply(c, Put(key, values));
    assert c1.queues[1] == [Message(key, values)];
    var c2 := Apply(c1, Fail(0));
    assert FirstLive(0, 2, 2, c2.alive) == FirstLive(1, 1, 2, c2.alive) == Some(1);
  }
}
