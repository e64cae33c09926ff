/** The slot protocol of TinyFile: client threads claim a shared-memory slot, send its number to the server and wait;
    server workers read the slot's paths without its lock.  Any number of requests, slots and workers interleave. */
module Slots {
  import opened Options

  /** `shared_memory_entry_t`. */
  datatype Slot = Slot(isUsed: bool, isDone: bool, originalPath: string, compressedPath: string)

  /** A queued or received message.  The server only sees the slot; `req` records which request sent it. */
  datatype Token = Token(slot: nat, req: nat)

  datatype Phase =
    | New                   // no slot yet
    | Claimed(slot: nat)    // owns a slot, message not yet sent
    | Sent(slot: nat)       // owns a slot, waits for the server
    | Finished              // the slot was freed

  datatype Request = Request(path: string, phase: Phase)

  /** `input` and `output` are the paths a worker has read so far. */
  datatype Worker = Idle | Busy(token: Token, input: Option<string>, output: Option<string>)

  /** A compression that was carried out. */
  datatype Handled = Handled(req: nat, input: string, output: Option<string>)

  datatype System = System(
    slots: seq<Slot>, queue: seq<Token>, workers: seq<Worker>, requests: seq<Request>, handled: seq<Handled>)

  /** Position of the first "/input/" in the path. */
  function InputAt(path: string): (i: nat)
    requires HasInput(path)
    ensures i + 7 <= |path| && "/input/" <= path[i..]
    ensures forall j | 0 <= j < i :: !("/input/" <= path[j..])
  {
    if "/input/" <= path then assert path[0..] == path; 0
    else
      var rest := path[1..];
      assert forall j | 0 < j <= |path| :: path[j..] == rest[j - 1..];
      assert path[0..] == path;
      1 + InputAt(rest)
  }

  predicate HasInput(path: string) {
    "/input/" <= path || (path != "" && HasInput(path[1..]))
  }

  function CompressedPath(path: string): string
    requires HasInput(path)
  {
    path[..InputAt(path)] + "/output/" + path[InputAt(path) + 7..] + "_compressed"
  }

  /** `path` is a base folder, the first "/input/", and a file name. */
  predicate IsInputOf(path: string, base: string, name: string) {
    && path == base + "/input/" + name
    && forall j | 0 <= j < |base| :: !("/input/" <= path[j..])
  }

  /** The output goes to the sibling folder of the first input folder, under the same name with a suffix. */
  lemma OutputIsSibling(path: string, base: string, name: string)
    requires IsInputOf(path, base, name)
    ensures HasInput(path) && CompressedPath(path) == base + "/output/" + name + "_compressed"
  {
    assert path[|base|..] == "/input/" + name;
    InputHere(path, |base|);
    assert InputAt(path) == |base|;
    assert path[..|base|] == base && path[|base| + 7..] == name;
  }

  lemma {:induction false} InputHere(path: string, i: nat)
    requires i <= |path| && "/input/" <= path[i..]
    ensures HasInput(path)
    decreases i
  {
    if i > 0 {
      assert path[1..][i - 1..] == path[i..];
      InputHere(path[1..], i - 1);
    } else {
      assert path[0..] == path;
    }
  }

  datatype Action =
    | Submit(path: string)
    | Claim(q: nat, i: nat)     // find_and_set_shared_memory_entry_index, under the slot's lock
    | Send(q: nat)              // mq_send
    | Receive(w: nat)           // mq_receive
    | ReadInput(w: nat)         // compress_file opens the original path
    | ReadOutput(w: nat)        // compress_file opens the compressed path
    | SetDone(w: nat)           // under the slot's lock
    | Free(q: nat)              // wait_response_from_server, under the slot's lock

  predicate Init(s: System) {
    && (forall i | 0 <= i < |s.slots| :: !s.slots[i].isUsed && !s.slots[i].isDone)
    && (forall w | 0 <= w < |s.workers| :: s.workers[w] == Idle)
    && s.queue == [] && s.requests == [] && s.handled == []
  }

  /** Worker `w` is handling the message of some slot. */
  predicate Works(s: System, w: nat) {
    w < |s.workers| && s.workers[w].Busy? && s.workers[w].token.slot < |s.slots|
  }

  predicate Enabled(s: System, a: Action) {
    match a
    case Submit(path) => HasInput(path)
    case Claim(q, i) =>
      && q < |s.requests| && s.requests[q].phase == New && HasInput(s.requests[q].path)
      && i < |s.slots| && !s.slots[i].isUsed
    case Send(q) => q < |s.requests| && s.requests[q].phase.Claimed?
    case Receive(w) => w < |s.workers| && s.workers[w].Idle? && s.queue != []
    case ReadInput(w) => Works(s, w) && s.workers[w].input.None?
    case ReadOutput(w) => Works(s, w) && s.workers[w].input.Some?
    case SetDone(w) => Works(s, w) && s.workers[w].input.Some?
    case Free(q) =>
      && q < |s.requests| && s.requests[q].phase.Sent?
      && s.requests[q].phase.slot < |s.slots| && s.slots[s.requests[q].phase.slot].isDone
  }

  function SetPhase(s: System, q: nat, phase: Phase): seq<Request>
    requires q < |s.requests|
  {
    s.requests[q := s.requests[q].(phase := phase)]
  }

  function Apply(s: System, a: Action): System
    requires Enabled(s, a)
  {
    match a
    case Submit(path) => s.(requests := s.requests + [Request(path, New)])
    case Claim(q, i) =>
      var path := s.requests[q].path;
      s.(slots := s.slots[i := Slot(true, false, path, CompressedPath(path))], requests := SetPhase(s, q, Claimed(i)))
    case Send(q) =>
      var i := s.requests[q].phase.slot;
      s.(queue := s.queue + [Token(i, q)], requests := SetPhase(s, q, Sent(i)))
    case Receive(w) =>
      s.(queue := s.queue[1..], workers := s.workers[w := Busy(s.queue[0], None, None)])
    case ReadInput(w) =>
      var b := s.workers[w];
      s.(workers := s.workers[w := b.(input := Some(s.slots[b.token.slot].originalPath))])
    case ReadOutput(w) =>
      var b := s.workers[w];
      s.(workers := s.workers[w := b.(output := Some(s.slots[b.token.slot].compressedPath))])
    case SetDone(w) =>
      var b := s.workers[w];
      s.(slots := s.slots[b.token.slot := s.slots[b.token.slot].(isDone := true)],
         workers := s.workers[w := Idle],
         handled := s.handled + [Handled(b.token.req, b.input.value, b.output)])
    case Free(q) =>
      var i := s.requests[q].phase.slot;
      s.(slots := s.slots[i := s.slots[i].(isUsed := false, isDone := false)], requests := SetPhase(s, q, Finished))
  }

  ghost predicate Step(s: System, s': System) {
    exists a :: Enabled(s, a) && s' == Apply(s, a)
  }

  ghost predicate Execution(run: seq<System>) {
    |run| > 0 && Init(run[0]) && forall i | 0 <= i < |run| - 1 :: Step(run[i], run[i + 1])
  }

  // ----- the client's scan -------------------------------------------------------------------------

  /** The scan of `find_and_set_shared_memory_entry_index` over an otherwise unchanging table: it claims the first free
      slot, or none. */
  method FindAndSet(slots: array<Slot>, path: string) returns (index: int)
    requires HasInput(path)
    modifies slots
    ensures -1 <= index < slots.Length
    ensures index == -1 ==> slots[..] == old(slots[..]) && forall i | 0 <= i < slots.Length :: slots[i].isUsed
    ensures index >= 0 ==> !old(slots[index].isUsed) && forall i | 0 <= i < index :: old(slots[i].isUsed)
    ensures index >= 0 ==> slots[..] == old(slots[..])[index := Slot(true, false, path, CompressedPath(path))]
    ensures index >= 0 ==>
              forall base, name | IsInputOf(path, base, name) ::
                slots[index].compressedPath == base + "/output/" + name + "_compressed"
  {
    forall base, name | IsInputOf(path, base, name)
      ensures CompressedPath(path) == base + "/output/" + name + "_compressed"
    {
      OutputIsSibling(path, base, name);
    }
    var i := 0;
    while i < slots.Length
      invariant 0 <= i <= slots.Length && slots[..] == old(slots[..])
      invariant forall j | 0 <= j < i :: slots[j].isUsed
    {
      if !slots[i].isUsed {
        slots[i] := Slot(true, false, path, CompressedPath(path));
        return i;
      }
      i := i + 1;
    }
    return -1;
  }

  // ----- counting ------------------------------------------------------------------------------

  function Queued(ts: seq<Token>, q: nat): nat {
    if ts == [] then 0 else (if ts[0].req == q then 1 else 0) + Queued(ts[1..], q)
  }

  function Held(ws: seq<Worker>, q: nat): nat {
    if ws == [] then 0 else (if ws[0].Busy? && ws[0].token.req == q then 1 else 0) + Held(ws[1..], q)
  }

  function Count(hs: seq<Handled>, q: nat): nat {
    if hs == [] then 0 else (if hs[0].req == q then 1 else 0) + Count(hs[1..], q)
  }

  /** Messages of request `q` that are queued or in progress. */
  function InFlight(s: System, q: nat): nat {
    Queued(s.queue, q) + Held(s.workers, q)
  }

  /** The slot a request owns. */
  predicate Owns(s: System, q: nat, i: nat) {
    q < |s.requests| && (s.requests[q].phase == Claimed(i) || s.requests[q].phase == Sent(i))
  }
}
