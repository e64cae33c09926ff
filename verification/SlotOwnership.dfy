/** What every run of the slot protocol keeps: slots have one owner, workers read their owner's paths, and every
    request is handled exactly once before its slot is freed. */
module SlotOwnership {
  import opened Options
  import opened Slots

  /** A message belongs to a request that waits for its slot. */
  predicate TokenOk(s: System, t: Token) {
    t.req < |s.requests| && s.requests[t.req].phase == Sent(t.slot)
  }

  /** The paths read for request `q`, so far. */
  predicate PathsOk(s: System, q: nat, input: Option<string>, output: Option<string>) {
    && q < |s.requests| && HasInput(s.requests[q].path)
    && (input.Some? ==> input.value == s.requests[q].path)
    && (output.Some? ==> output.value == CompressedPath(s.requests[q].path))
  }

  predicate WorkerOk(s: System, w: Worker) {
    w.Busy? ==> TokenOk(s, w.token) && PathsOk(s, w.token.req, w.input, w.output)
  }

  /** A request's slot carries its paths, and its message is counted exactly once: in flight or handled. */
  predicate RequestOk(s: System, q: nat)
    requires q < |s.requests|
  {
    var r := s.requests[q];
    && HasInput(r.path)
    && (match r.phase
        case New => InFlight(s, q) == 0 && Count(s.handled, q) == 0
        case Claimed(i) => InFlight(s, q) == 0 && Count(s.handled, q) == 0 && SlotOk(s, i, r.path) && !s.slots[i].isDone
        case Sent(i) =>
          && InFlight(s, q) + Count(s.handled, q) == 1 && SlotOk(s, i, r.path)
          && (s.slots[i].isDone <==> Count(s.handled, q) == 1)
        case Finished => InFlight(s, q) == 0 && Count(s.handled, q) == 1)
  }

  predicate SlotOk(s: System, i: nat, path: string)
    requires HasInput(path)
  {
    && i < |s.slots| && s.slots[i].isUsed
    && s.slots[i].originalPath == path && s.slots[i].compressedPath == CompressedPath(path)
  }

  ghost predicate Inv(s: System) {
    && (forall t | t in s.queue :: TokenOk(s, t))
    && (forall w | 0 <= w < |s.workers| :: WorkerOk(s, s.workers[w]))
    && (forall q: nat | q < |s.requests| :: RequestOk(s, q))
    && (forall q: nat | q >= |s.requests| :: InFlight(s, q) == 0 && Count(s.handled, q) == 0)
    && (forall q: nat, p: nat, i: nat | Owns(s, q, i) && Owns(s, p, i) :: q == p)
    && (forall i: nat | i < |s.slots| && s.slots[i].isUsed :: exists q: nat :: Owns(s, q, i))
    && (forall h | h in s.handled :: PathsOk(s, h.req, Some(h.input), h.output))
  }

  // ----- counting ------------------------------------------------------------------------------

  lemma {:induction false} QueuedAppend(ts: seq<Token>, t: Token, q: nat)
    ensures Queued(ts + [t], q) == Queued(ts, q) + if t.req == q then 1 else 0
  {
    if ts == [] {
      assert ts + [t] == [t] && [t][1..] == [];
    } else {
      assert (ts + [t])[1..] == ts[1..] + [t];
      QueuedAppend(ts[1..], t, q);
    }
  }

  lemma {:induction false} CountAppend(hs: seq<Handled>, h: Handled, q: nat)
    ensures Count(hs + [h], q) == Count(hs, q) + if h.req == q then 1 else 0
  {
    if hs == [] {
      assert hs + [h] == [h] && [h][1..] == [];
    } else {
      assert (hs + [h])[1..] == hs[1..] + [h];
      CountAppend(hs[1..], h, q);
    }
  }

  function Holds(w: Worker, q: nat): nat {
    if w.Busy? && w.token.req == q then 1 else 0
  }

  lemma {:induction false} HeldUpdate(ws: seq<Worker>, k: nat, w: Worker, q: nat)
    requires k < |ws|
    ensures Held(ws[k := w], q) == Held(ws, q) - Holds(ws[k], q) + Holds(w, q)
  {
    if k == 0 {
      assert ws[k := w][1..] == ws[1..];
    } else {
      assert ws[k := w][1..] == ws[1..][k - 1 := w];
      HeldUpdate(ws[1..], k - 1, w, q);
    }
  }

  /** How a step changes the counts of a request. */
  lemma StepCounts(s: System, a: Action, q: nat)
    requires Enabled(s, a)
    ensures var s' := Apply(s, a);
            && InFlight(s', q) == InFlight(s, q) + (if a == Send(q) then 1 else 0)
                                  - (if a.SetDone? && s.workers[a.w].token.req == q then 1 else 0)
            && Count(s'.handled, q) ==
               Count(s.handled, q) + (if a.SetDone? && s.workers[a.w].token.req == q then 1 else 0)
  {
    match a
    case Send(p) => QueuedAppend(s.queue, Token(s.requests[p].phase.slot, p), q);
    case Receive(w) => HeldUpdate(s.workers, w, Busy(s.queue[0], None, None), q);
    case ReadInput(w) => HeldUpdate(s.workers, w, Apply(s, a).workers[w], q);
    case ReadOutput(w) => HeldUpdate(s.workers, w, Apply(s, a).workers[w], q);
    case SetDone(w) =>
      HeldUpdate(s.workers, w, Idle, q);
      CountAppend(s.handled, Handled(s.workers[w].token.req, s.workers[w].input.value, s.workers[w].output), q);
    case _ =>
  }

  // ----- one step ------------------------------------------------------------------------------

  lemma StepRequests(s: System, a: Action, q: nat)
    requires Inv(s) && Enabled(s, a) && q < |Apply(s, a).requests|
    ensures RequestOk(Apply(s, a), q)
  {
    StepCounts(s, a, q);
    if q < |s.requests| {
      assert RequestOk(s, q);
      if s.requests[q].phase.Claimed? || s.requests[q].phase.Sent? {
        assert Owns(s, q, s.requests[q].phase.slot);
      }
      if a.SetDone? {
        assert WorkerOk(s, s.workers[a.w]);
        assert Owns(s, s.workers[a.w].token.req, s.workers[a.w].token.slot);
      } else if a.Free? {
        assert Owns(s, a.q, s.requests[a.q].phase.slot);
        assert RequestOk(s, a.q);
      }
    }
  }

  lemma {:induction false} QueuedPositive(ts: seq<Token>, t: Token)
    requires t in ts
    ensures Queued(ts, t.req) > 0
  {
    if ts[0] != t {
      QueuedPositive(ts[1..], t);
    }
  }

  lemma {:induction false} HeldPositive(ws: seq<Worker>, k: nat)
    requires k < |ws| && ws[k].Busy?
    ensures Held(ws, ws[k].token.req) > 0
  {
    if k > 0 {
      HeldPositive(ws[1..], k - 1);
    }
  }

  /** A request whose message is in flight is not freed, since its slot is not done. */
  lemma TokenStays(s: System, a: Action, t: Token)
    requires Inv(s) && Enabled(s, a) && TokenOk(s, t) && InFlight(s, t.req) > 0
    ensures TokenOk(Apply(s, a), t)
  {
    assert RequestOk(s, t.req);
  }

  lemma StepTokens(s: System, a: Action, t: Token)
    requires Inv(s) && Enabled(s, a) && t in Apply(s, a).queue
    ensures TokenOk(Apply(s, a), t)
  {
    if t in s.queue {
      QueuedPositive(s.queue, t);
      TokenStays(s, a, t);
    }
  }

  lemma StepWorkers(s: System, a: Action, k: nat)
    requires Inv(s) && Enabled(s, a) && k < |s.workers|
    ensures WorkerOk(Apply(s, a), Apply(s, a).workers[k])
  {
    var w := s.workers[k];
    assert WorkerOk(s, w);
    if a == Receive(k) {
      var t := s.queue[0];
      assert t in s.queue && RequestOk(s, t.req);
      QueuedPositive(s.queue, t);
      TokenStays(s, a, t);
    } else if w.Busy? {
      HeldPositive(s.workers, k);
      TokenStays(s, a, w.token);
      assert RequestOk(s, w.token.req);
    }
  }

  lemma OwnersStayUnique(s: System, a: Action, q: nat, p: nat, i: nat)
    requires Inv(s) && Enabled(s, a) && Owns(Apply(s, a), q, i) && Owns(Apply(s, a), p, i)
    ensures q == p
  {
    assert q < |s.requests| ==> RequestOk(s, q);
    assert p < |s.requests| ==> RequestOk(s, p);
    assert a != Claim(q, i) ==> Owns(s, q, i);
    assert a != Claim(p, i) ==> Owns(s, p, i);
  }

  lemma UsedSlotsStayOwned(s: System, a: Action, i: nat)
    requires Inv(s) && Enabled(s, a) && i < |s.slots| && Apply(s, a).slots[i].isUsed
    ensures exists q: nat :: Owns(Apply(s, a), q, i)
  {
    if a.Claim? && a.i == i {
      assert Owns(Apply(s, a), a.q, i);
    } else {
      var q: nat :| Owns(s, q, i);
      assert Owns(Apply(s, a), q, i);
    }
  }

  lemma StepHandled(s: System, a: Action, h: Handled)
    requires Inv(s) && Enabled(s, a) && h in Apply(s, a).handled
    ensures PathsOk(Apply(s, a), h.req, Some(h.input), h.output)
  {
    if h !in s.handled {
      assert WorkerOk(s, s.workers[a.w]);
    }
  }

  lemma StepKeepsInv(s: System, a: Action)
    requires Inv(s) && Enabled(s, a)
    ensures Inv(Apply(s, a))
  {
    var s' := Apply(s, a);
    forall t | t in s'.queue ensures TokenOk(s', t) {
      StepTokens(s, a, t);
    }
    forall w | 0 <= w < |s'.workers| ensures WorkerOk(s', s'.workers[w]) {
      StepWorkers(s, a, w);
    }
    forall q: nat | q < |s'.requests| ensures RequestOk(s', q) {
      StepRequests(s, a, q);
    }
    forall q: nat | q >= |s'.requests| ensures InFlight(s', q) == 0 && Count(s'.handled, q) == 0 {
      StepCounts(s, a, q);
      assert a.SetDone? ==> WorkerOk(s, s.workers[a.w]);
    }
    forall q: nat, p: nat, i: nat | Owns(s', q, i) && Owns(s', p, i) ensures q == p {
      OwnersStayUnique(s, a, q, p, i);
    }
    forall i: nat | i < |s'.slots| && s'.slots[i].isUsed ensures exists q: nat :: Owns(s', q, i) {
      UsedSlotsStayOwned(s, a, i);
    }
    forall h | h in s'.handled ensures PathsOk(s', h.req, Some(h.input), h.output) {
      StepHandled(s, a, h);
    }
  }

  lemma {:induction false} IdleHoldsNothing(ws: seq<Worker>, q: nat)
    requires forall w | 0 <= w < |ws| :: ws[w] == Idle
    ensures Held(ws, q) == 0
  {
    if ws != [] {
      IdleHoldsNothing(ws[1..], q);
    }
  }

  lemma {:induction false} RunKeepsInv(run: seq<System>, i: nat)
    requires Execution(run) && i < |run|
    ensures Inv(run[i])
  {
    if i == 0 {
      forall q: nat ensures InFlight(run[0], q) == 0 {
        IdleHoldsNothing(run[0].workers, q);
      }
    } else {
      RunKeepsInv(run, i - 1);
      assert Step(run[i - 1], run[i - 1 + 1]);
      var a :| Enabled(run[i - 1], a) && run[i] == Apply(run[i - 1], a);
      StepKeepsInv(run[i - 1], a);
    }
  }

  // ----- the guarantees ----------------------------------------------------------------------------

  function QueuedFor(ts: seq<Token>, i: nat): nat {
    if ts == [] then 0 else (if ts[0].slot == i then 1 else 0) + QueuedFor(ts[1..], i)
  }

  function HeldFor(ws: seq<Worker>, i: nat): nat {
    if ws == [] then 0 else (if ws[0].Busy? && ws[0].token.slot == i then 1 else 0) + HeldFor(ws[1..], i)
  }

  /** Messages that name slot `i`. */
  function MessagesFor(s: System, i: nat): nat {
    QueuedFor(s.queue, i) + HeldFor(s.workers, i)
  }

  lemma {:induction false} QueuedForOwner(ts: seq<Token>, i: nat, q: nat)
    requires forall t | t in ts :: t.slot == i <==> t.req == q
    ensures QueuedFor(ts, i) == Queued(ts, q)
  {
    if ts != [] {
      QueuedForOwner(ts[1..], i, q);
      assert ts[0] in ts;
    }
  }

  lemma {:induction false} HeldForOwner(ws: seq<Worker>, i: nat, q: nat)
    requires forall k | 0 <= k < |ws| && ws[k].Busy? :: ws[k].token.slot == i <==> ws[k].token.req == q
    ensures HeldFor(ws, i) == Held(ws, q)
  {
    if ws != [] {
      HeldForOwner(ws[1..], i, q);
    }
  }

  lemma MessagesAreTheOwners(s: System, i: nat, q: nat)
    requires Inv(s) && (Owns(s, q, i) || (q == |s.requests| && i < |s.slots| && !s.slots[i].isUsed))
    ensures MessagesFor(s, i) == InFlight(s, q)
  {
    forall t | TokenOk(s, t) && Owns(s, t.req, t.slot) ensures t.slot == i <==> t.req == q {
      assert RequestOk(s, t.req);
      assert Owns(s, q, i) && Owns(s, t.req, i) ==> q == t.req;
    }
    assert forall t | t in s.queue :: TokenOk(s, t) && Owns(s, t.req, t.slot);
    forall k | 0 <= k < |s.workers| && s.workers[k].Busy?
      ensures s.workers[k].token.slot == i <==> s.workers[k].token.req == q
    {
      assert WorkerOk(s, s.workers[k]);
      assert Owns(s, s.workers[k].token.req, s.workers[k].token.slot);
    }
    QueuedForOwner(s.queue, i, q);
    HeldForOwner(s.workers, i, q);
  }

  /** A used slot has exactly one owner and at most one message queued or in progress; a free slot has neither. */
  lemma SlotsHaveOneOwner(run: seq<System>, n: nat, i: nat)
    requires Execution(run) && n < |run| && i < |run[n].slots|
    ensures run[n].slots[i].isUsed <==> exists q: nat :: Owns(run[n], q, i)
    ensures forall q: nat, p: nat | Owns(run[n], q, i) && Owns(run[n], p, i) :: q == p
    ensures MessagesFor(run[n], i) <= if run[n].slots[i].isUsed then 1 else 0
  {
    var s := run[n];
    RunKeepsInv(run, n);
    forall q: nat | Owns(s, q, i) ensures s.slots[i].isUsed {
      assert RequestOk(s, q);
    }
    if s.slots[i].isUsed {
      var q: nat :| Owns(s, q, i);
      MessagesAreTheOwners(s, i, q);
      assert RequestOk(s, q);
    } else {
      MessagesAreTheOwners(s, i, |s.requests|);
    }
  }

  /** The paths a worker reads without the lock are the ones its request stored. */
  lemma WorkersReadTheirRequest(run: seq<System>, n: nat, w: nat)
    requires Execution(run) && n < |run| && w < |run[n].workers| && run[n].workers[w].Busy?
    ensures var s := run[n];
            var t := s.workers[w].token;
            && t.req < |s.requests| && Owns(s, t.req, t.slot) && HasInput(s.requests[t.req].path)
            && SlotOk(s, t.slot, s.requests[t.req].path)
            && PathsOk(s, t.req, s.workers[w].input, s.workers[w].output)
  {
    var s := run[n];
    RunKeepsInv(run, n);
    assert WorkerOk(s, s.workers[w]);
    assert RequestOk(s, s.workers[w].token.req);
  }

  /** A request is handled at most once, with its own paths; exactly once by the time its waiter can free the slot; and
      never again. */
  lemma HandledExactlyOnce(run: seq<System>, n: nat, q: nat)
    requires Execution(run) && n < |run| && q < |run[n].requests|
    ensures var s := run[n];
            && Count(s.handled, q) <= 1
            && (Enabled(s, Free(q)) || s.requests[q].phase.Finished? ==>
                  Count(s.handled, q) == 1 && InFlight(s, q) == 0)
            && (s.requests[q].phase.New? || s.requests[q].phase.Claimed? ==> Count(s.handled, q) == 0)
            && (forall h | h in s.handled && h.req == q :: PathsOk(s, q, Some(h.input), h.output))
  {
    RunKeepsInv(run, n);
    assert RequestOk(run[n], q);
  }

  // ----- runs with their actions ---------------------------------------------------------------------

  ghost predicate Behaviour(run: seq<System>, acts: seq<Action>) {
    && |run| == |acts| + 1 && Init(run[0])
    && forall i | 0 <= i < |acts| :: Enabled(run[i], acts[i]) && run[i + 1] == Apply(run[i], acts[i])
  }

  /** The paths clients asked to have compressed, in order. */
  function Submitted(acts: seq<Action>): seq<string> {
    if acts == [] then []
    else
      var a := acts[|acts| - 1];
      Submitted(acts[..|acts| - 1]) + if a.Submit? then [a.path] else []
  }

  predicate Asked(s: System, paths: seq<string>) {
    |s.requests| == |paths| && forall q | 0 <= q < |paths| :: s.requests[q].path == paths[q]
  }

  lemma {:induction false} RequestsAreSubmitted(run: seq<System>, acts: seq<Action>)
    requires Behaviour(run, acts)
    ensures Asked(run[|acts|], Submitted(acts))
    decreases |acts|
  {
    if acts != [] {
      var n := |acts| - 1;
      RequestsAreSubmitted(run[..n + 1], acts[..n]);
      assert Enabled(run[n], acts[n]) && run[n + 1] == Apply(run[n], acts[n]);
    }
  }

  lemma BehaviourIsExecution(run: seq<System>, acts: seq<Action>)
    requires Behaviour(run, acts)
    ensures Execution(run)
  {
    forall i | 0 <= i < |run| - 1 ensures Step(run[i], run[i + 1]) {
      assert Enabled(run[i], acts[i]) && run[i + 1] == Apply(run[i], acts[i]);
    }
  }

  /** What the server compressed is what some client submitted, and the output goes where that client's path says:
      to the sibling of its first input folder. */
  lemma HandledAsSubmitted(run: seq<System>, acts: seq<Action>, h: Handled, base: string, name: string)
    requires Behaviour(run, acts) && h in run[|acts|].handled
    ensures h.req < |Submitted(acts)| && h.input == Submitted(acts)[h.req]
    ensures h.output.Some? && IsInputOf(h.input, base, name) ==>
              h.output.value == base + "/output/" + name + "_compressed"
  {
    BehaviourIsExecution(run, acts);
    RunKeepsInv(run, |acts|);
    RequestsAreSubmitted(run, acts);
    assert PathsOk(run[|acts|], h.req, Some(h.input), h.output);
    if IsInputOf(h.input, base, name) {
      OutputIsSibling(h.input, base, name);
    }
  }
}
