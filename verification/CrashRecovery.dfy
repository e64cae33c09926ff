/** Crash refinement of the redo log: one file, one process that can crash and restart at any point.  Appending a record
    and truncating the log are atomic; a data write, in a sync or in a replay, can stop after any number of bytes. */
module CrashRecovery {
  import opened FileReplay
  import opened LogText
  import opened Recovery
  import opened Gtfs

  datatype Pc =
    | Down                  // not running
    | Ready                 // between two calls
    | Writing(w: Write)     // in a sync, the record logged and the data not yet written
    | Replaying(i: nat)     // in a clean or in the first open, with i entries of the log replayed

  /** The data file, the log, and the volatile list of pending writes. */
  datatype State = State(filename: string, contents: File, log: string, pending: seq<WriteId>, pc: Pc)

  datatype Action =
    | WriteFile(id: WriteId)
    | AbortWrite(id: WriteId)
    | LogWrite(r: Record)       // gtfs_sync_write_file up to line 516
    | WriteSome(j: nat)         // some of its bytes reach the file
    | WriteAll                  // all of them do, and the call returns
    | StartReplay               // gtfs_clean, or the first gtfs_open_file after a restart
    | Wreck(next: State)        // the same on a log whose reading is undefined: anything may happen
    | OpenOnly                  // a first open whose existence check fails: it counts as open, nothing is replayed
    | ReplaySome(j: nat)        // some bytes of the next entry reach the file
    | ReplayNext                // the next entry is replayed
    | Truncate                  // after the last entry
    | Crash

  predicate Init(s: State) {
    CleanName(s.filename) && s.log == "" && s.pending == [] && s.pc == Down
  }

  predicate Idle(s: State) {
    s.pc.Ready? || s.pc.Down?
  }

  /** The replay under way has another entry to write. */
  predicate HasNext(s: State) {
    s.pc.Replaying? && ParseLog(s.log).Ok? && s.pc.i < |ParseLog(s.log).value|
  }

  /** The file after `w` was written for a log entry with this file name. */
  function Replayed(s: State, filename: string, w: Write): File {
    if filename == s.filename then Apply(s.contents, w) else s.contents
  }

  function Part(w: Write, j: nat): Write
    requires j <= |w.data|
  {
    Write(w.offset, w.data[..j])
  }

  predicate Enabled(s: State, a: Action) {
    match a
    case WriteFile(_) => s.pc.Ready?
    case AbortWrite(_) => s.pc.Ready?
    case LogWrite(r) => s.pc.Ready? && Writable(r)
    case WriteSome(j) => s.pc.Writing? && j <= |s.pc.w.data|
    case WriteAll => s.pc.Writing?
    case StartReplay => Idle(s) && ParseLog(s.log).Ok?
    case Wreck(_) => Idle(s) && ParseLog(s.log).Undefined?
    case OpenOnly => s.pc.Down?
    case ReplaySome(j) => HasNext(s) && j <= |ParseLog(s.log).value[s.pc.i].write.data|
    case ReplayNext => HasNext(s)
    case Truncate => s.pc.Replaying? && ParseLog(s.log).Ok? && s.pc.i == |ParseLog(s.log).value|
    case Crash => true
  }

  function Next(s: State, a: Action): State
    requires Enabled(s, a)
  {
    match a
    case WriteFile(id) => s.(pending := s.pending + [id])
    case AbortWrite(id) => s.(pending := Aborted(s.pending, id))
    case LogWrite(r) => s.(log := s.log + Print(s.filename, r), pc := Writing(Effect(r)))
    case WriteSome(j) => s.(contents := Apply(s.contents, Part(s.pc.w, j)))
    case WriteAll => s.(contents := Apply(s.contents, s.pc.w), pc := Ready)
    case StartReplay => s.(pc := Replaying(0))
    case Wreck(next) => next
    case OpenOnly => s.(pc := Ready)
    case ReplaySome(j) =>
      var e := ParseLog(s.log).value[s.pc.i];
      s.(contents := Replayed(s, e.filename, Part(e.write, j)))
    case ReplayNext =>
      var e := ParseLog(s.log).value[s.pc.i];
      s.(contents := Replayed(s, e.filename, e.write), pc := Replaying(s.pc.i + 1))
    case Truncate => s.(log := "", pending := [], pc := Ready)
    case Crash => s.(pending := [], pc := Down)
  }

  /** An undisturbed sync: the record in the log, and its bytes in the file. */
  lemma SyncIsLogThenWrite(s: State, r: Record)
    requires s.pc.Ready? && Writable(r)
    ensures var s' := Next(Next(s, LogWrite(r)), WriteAll);
            && s' == s.(log := s.log + Print(s.filename, r), contents := s'.contents)
            && (forall j | 0 <= j < r.length :: r.offset + j < |s'.contents| &&
                  s'.contents[r.offset + j] == if j < |r.data| then r.data[j] else '\0')
            && (forall p | 0 <= p < |s.contents| && !(r.offset <= p < r.offset + r.length) ::
                  p < |s'.contents| && s'.contents[p] == s.contents[p])
  {}

  // ----- runs with their actions -----------------------------------------------------------------

  ghost predicate Behaviour(run: seq<State>, acts: seq<Action>) {
    && |run| == |acts| + 1 && Init(run[0])
    && forall i | 0 <= i < |acts| :: Enabled(run[i], acts[i]) && run[i + 1] == Next(run[i], acts[i])
  }

  /** The writes of all syncs so far, in commit order. */
  function Committed(acts: seq<Action>): seq<Write> {
    if acts == [] then []
    else
      var a := acts[|acts| - 1];
      Committed(acts[..|acts| - 1]) + if a.LogWrite? && Writable(a.r) then [Effect(a.r)] else []
  }

  /** The records logged since the log was last emptied. */
  function InLog(acts: seq<Action>): seq<Record> {
    if acts == [] then []
    else
      match acts[|acts| - 1]
      case LogWrite(r) => InLog(acts[..|acts| - 1]) + [r]
      case Truncate => []
      case _ => InLog(acts[..|acts| - 1])
  }

  /** No replay was started while a record that is not clean was in the log. */
  predicate Trusted(acts: seq<Action>) {
    if acts == [] then true
    else
      var a, before := acts[|acts| - 1], acts[..|acts| - 1];
      Trusted(before) && (a.StartReplay? || a.Wreck? ==> AllClean(InLog(before)))
  }

  /** No sync or replay was cut off by a crash since the last complete replay. */
  predicate Uncut(run: seq<State>, acts: seq<Action>)
    requires |run| == |acts| + 1
  {
    if acts == [] then true
    else
      var a, n := acts[|acts| - 1], |acts| - 1;
      a.Truncate? || (Uncut(run[..n + 1], acts[..n]) && (a.Crash? ==> Idle(run[n])))
  }

  /** The contents the file stands for: the initial contents with all synced writes applied in commit order. */
  function Target(run: seq<State>, acts: seq<Action>): File
    requires |run| == |acts| + 1
  {
    Replay(Committed(acts), run[0].contents)
  }

  // ----- the invariant -----------------------------------------------------------------------------

  /** With the records `rs` in the log, the file stands for `target`; `uncut` says that it also holds it between
      calls. */
  predicate Sound(s: State, rs: seq<Record>, target: File, uncut: bool) {
    && CleanName(s.filename) && AllWritable(rs)
    && s.log == PrintLog(s.filename, rs)
    && Replay(Effects(rs), s.contents) == target
    && (uncut && Idle(s) ==> s.contents == target)
    && (s.pc.Writing? ==> s.pc.w in Effects(rs) && (uncut ==> Apply(s.contents, s.pc.w) == target))
    && (s.pc.Replaying? ==> AllClean(rs) && s.pc.i <= |rs| && Remaining(s, rs) == target)
  }

  /** The contents at the end of the replay that is under way. */
  function Remaining(s: State, rs: seq<Record>): File
    requires AllWritable(rs) && s.pc.Replaying? && s.pc.i <= |rs|
  {
    EffectsLength(rs);
    Replay(Effects(rs)[s.pc.i..], s.contents)
  }

  /** Part of a logged write changes nothing about what the log stands for. */
  lemma PartialWriteHidden(log: seq<Write>, f: File, w: Write, j: nat)
    requires w in log && j <= |w.data|
    ensures Replay(log, Apply(f, Part(w, j))) == Replay(log, f)
  {
    AbsorbsItself(log, f);
    PartialWriteAbsorbed(log, f, f, w, j);
    ReplayAbsorbs(log, f, Apply(f, Part(w, j)));
  }

  /** Completing an interrupted write. */
  lemma WriteAfterPart(f: File, w: Write, j: nat)
    requires j <= |w.data|
    ensures Apply(Apply(f, Part(w, j)), w) == Apply(f, w)
  {
    PartialWriteHidden([w], f, w, j);
    ReplayOne(w, f);
    ReplayOne(w, Apply(f, Part(w, j)));
  }

  lemma LogWriteKeeps(s: State, r: Record, rs: seq<Record>, target: File, uncut: bool)
    requires Sound(s, rs, target, uncut) && Enabled(s, LogWrite(r))
    ensures Sound(Next(s, LogWrite(r)), rs + [r], Apply(target, Effect(r)), uncut)
  {
    PrintLogAppend(s.filename, rs, r);
    EffectsAppend(rs, r);
    ReplayConcat(Effects(rs), [Effect(r)], s.contents);
    ReplayOne(Effect(r), Replay(Effects(rs), s.contents));
  }

  /** Replaying the next write, or part of it, changes nothing about where a replay ends or what the log stands for. */
  lemma ReplayStep(log: seq<Write>, f: File, i: nat, j: nat)
    requires i < |log| && j <= |log[i].data|
    ensures Replay(log, Apply(f, Part(log[i], j))) == Replay(log, f)
    ensures Replay(log[i..], Apply(f, Part(log[i], j))) == Replay(log[i..], f)
    ensures Replay(log, Apply(f, log[i])) == Replay(log, f)
    ensures Replay(log[i + 1..], Apply(f, log[i])) == Replay(log[i..], f)
  {
    var w, rest := log[i], log[i..];
    assert w in rest && rest[0] == w && rest[1..] == log[i + 1..];
    PartialWriteHidden(log, f, w, j);
    PartialWriteHidden(rest, f, w, j);
    WholeWriteHidden(log, f, w);
    ReplayFirst(rest, f);
  }

  lemma {:induction false} EntryAt(filename: string, ws: seq<Write>, i: nat)
    requires i < |ws|
    ensures |Entries(filename, ws)| == |ws| && Entries(filename, ws)[i] == Entry(filename, ws[i])
  {
    EntriesLength(filename, ws);
    if i > 0 {
      EntryAt(filename, ws[1..], i - 1);
    }
  }

  /** A replay under way reads exactly the writes of the records. */
  lemma ReplayReads(s: State, rs: seq<Record>)
    requires CleanName(s.filename) && AllWritable(rs) && AllClean(rs) && s.log == PrintLog(s.filename, rs)
    ensures ParseLog(s.log) == Ok(Entries(s.filename, Effects(rs)))
    ensures |Entries(s.filename, Effects(rs))| == |Effects(rs)| == |rs|
    ensures forall i | 0 <= i < |rs| :: Entries(s.filename, Effects(rs))[i] == Entry(s.filename, Effects(rs)[i])
  {
    RoundTripIff(s.filename, rs);
    EffectsLength(rs);
    EntriesLength(s.filename, Effects(rs));
    forall i | 0 <= i < |rs| ensures Entries(s.filename, Effects(rs))[i] == Entry(s.filename, Effects(rs)[i]) {
      EntryAt(s.filename, Effects(rs), i);
    }
  }

  /** The write of the entry that a replay under way comes to next. */
  lemma NextEntry(s: State, rs: seq<Record>, target: File, uncut: bool)
    requires Sound(s, rs, target, uncut) && HasNext(s)
    ensures s.pc.i < |rs| == |Effects(rs)|
    ensures ParseLog(s.log).value[s.pc.i] == Entry(s.filename, Effects(rs)[s.pc.i])
  {
    ReplayReads(s, rs);
  }

  lemma ReplaySomeKeeps(s: State, j: nat, rs: seq<Record>, target: File, uncut: bool)
    requires Sound(s, rs, target, uncut) && Enabled(s, ReplaySome(j))
    ensures Sound(Next(s, ReplaySome(j)), rs, target, uncut)
  {
    NextEntry(s, rs, target, uncut);
    ReplayStep(Effects(rs), s.contents, s.pc.i, j);
  }

  lemma ReplayNextKeeps(s: State, rs: seq<Record>, target: File, uncut: bool)
    requires Sound(s, rs, target, uncut) && Enabled(s, ReplayNext)
    ensures Sound(Next(s, ReplayNext), rs, target, uncut)
  {
    NextEntry(s, rs, target, uncut);
    ReplayStep(Effects(rs), s.contents, s.pc.i, 0);
  }

  lemma WritingKeeps(s: State, a: Action, rs: seq<Record>, target: File, uncut: bool)
    requires Sound(s, rs, target, uncut) && Enabled(s, a) && (a.WriteSome? || a.WriteAll?)
    ensures Sound(Next(s, a), rs, target, uncut)
  {
    if a.WriteSome? {
      PartialWriteHidden(Effects(rs), s.contents, s.pc.w, a.j);
      WriteAfterPart(s.contents, s.pc.w, a.j);
    } else {
      WholeWriteHidden(Effects(rs), s.contents, s.pc.w);
    }
  }

  lemma AllReplayed(s: State, rs: seq<Record>, target: File, uncut: bool)
    requires Sound(s, rs, target, uncut) && Enabled(s, Truncate)
    ensures s.contents == target
  {
    ReplayReads(s, rs);
    assert Effects(rs)[|rs|..] == [];
  }

  /** Every other step of a trusted run keeps what the file stands for. */
  lemma StepKeeps(s: State, a: Action, rs: seq<Record>, target: File, uncut: bool)
    requires Sound(s, rs, target, uncut) && Enabled(s, a) && !a.LogWrite? && !a.Truncate?
    requires a.StartReplay? || a.Wreck? ==> AllClean(rs)
    ensures Sound(Next(s, a), rs, target, uncut && (a.Crash? ==> Idle(s)))
  {
    match a
    case WriteSome(_) => WritingKeeps(s, a, rs, target, uncut);
    case WriteAll => WritingKeeps(s, a, rs, target, uncut);
    case ReplaySome(j) => ReplaySomeKeeps(s, j, rs, target, uncut);
    case ReplayNext => ReplayNextKeeps(s, rs, target, uncut);
    case StartReplay => assert Effects(rs)[0..] == Effects(rs);
    case Wreck(_) => RoundTripIff(s.filename, rs);
    case _ =>
  }

  lemma SoundRecovers(s: State, rs: seq<Record>, target: File, uncut: bool)
    requires Sound(s, rs, target, uncut)
    ensures ParseLog(s.log) == Ok(Entries(s.filename, Effects(rs))) <==> AllClean(rs)
    ensures AllClean(rs) ==> Recover(ParseLog(s.log), map[s.filename := s.contents]) == Ok(map[s.filename := target])
  {
    RoundTripIff(s.filename, rs);
    if AllClean(rs) {
      TextRecovers(s.filename, rs, map[s.filename := s.contents]);
      assert map[s.filename := s.contents][s.filename := target] == map[s.filename := target];
    }
  }

  // ----- whole runs --------------------------------------------------------------------------------

  lemma {:induction false} RunKeeps(run: seq<State>, acts: seq<Action>)
    requires Behaviour(run, acts) && Trusted(acts)
    ensures Sound(run[|acts|], InLog(acts), Target(run, acts), Uncut(run, acts))
    decreases |acts|
  {
    if acts != [] {
      var n := |acts| - 1;
      var s, a, before := run[n], acts[n], acts[..n];
      RunKeeps(run[..n + 1], before);
      assert Enabled(run[n], acts[n]) && run[n + 1] == Next(run[n], acts[n]);
      if a.LogWrite? {
        LogWriteKeeps(s, a.r, InLog(before), Target(run[..n + 1], before), Uncut(run[..n + 1], before));
        ReplayConcat(Committed(before), [Effect(a.r)], run[0].contents);
        ReplayOne(Effect(a.r), Target(run[..n + 1], before));
      } else {
        assert Committed(acts) == Committed(before);
        if a.Truncate? {
          AllReplayed(s, InLog(before), Target(run[..n + 1], before), Uncut(run[..n + 1], before));
        } else {
          StepKeeps(s, a, InLog(before), Target(run[..n + 1], before), Uncut(run[..n + 1], before));
        }
      }
    }
  }

  /** At the end of every run, whatever crashed before: replaying the records logged since the last truncation over the
      file gives the initial contents with the writes of all syncs applied in commit order.  The log text reads back as
      these records exactly if they are clean, and recovering from the text then gives the same contents.  Only a replay
      started while the log has a record that is not clean ends this. */
  lemma CrashRefinement(run: seq<State>, acts: seq<Action>)
    requires Behaviour(run, acts) && Trusted(acts)
    ensures var s, rs := run[|acts|], InLog(acts);
            && AllWritable(rs)
            && (ParseLog(s.log) == Ok(Entries(s.filename, Effects(rs))) <==> AllClean(rs))
            && Replay(Effects(rs), s.contents) == Target(run, acts)
            && (AllClean(rs) ==>
                  Recover(ParseLog(s.log), map[s.filename := s.contents]) == Ok(map[s.filename := Target(run, acts)]))
  {
    RunKeeps(run, acts);
    SoundRecovers(run[|acts|], InLog(acts), Target(run, acts), Uncut(run, acts));
  }

  /** The log is emptied only when the file already holds every synced write. */
  lemma TruncatedOnlyAfterReplay(run: seq<State>, acts: seq<Action>)
    requires Behaviour(run, acts) && Trusted(acts) && Enabled(run[|acts|], Truncate)
    ensures run[|acts|].contents == Target(run, acts)
  {
    RunKeeps(run, acts);
    AllReplayed(run[|acts|], InLog(acts), Target(run, acts), Uncut(run, acts));
  }

  /** Whenever no crash has cut off a sync or a replay since the last complete replay, the file holds every synced
      write, also those the log cannot carry. */
  lemma SyncedWritesInFile(run: seq<State>, acts: seq<Action>)
    requires Behaviour(run, acts) && Trusted(acts) && run[|acts|].pc.Ready? && Uncut(run, acts)
    ensures run[|acts|].contents == Target(run, acts)
  {
    RunKeeps(run, acts);
  }

  // ----- pending writes ------------------------------------------------------------------------------

  /** The action ends the life of the pending list, or takes something from it. */
  predicate Forgets(a: Action) {
    a.AbortWrite? || a.Wreck? || a.Truncate? || a.Crash?
  }

  /** The writes issued by some actions, in order. */
  function Issued(acts: seq<Action>): seq<WriteId> {
    if acts == [] then []
    else
      var a := acts[|acts| - 1];
      Issued(acts[..|acts| - 1]) + if a.WriteFile? then [a.id] else []
  }

  /** A restart and an emptied log leave nothing pending; from then on exactly the issued writes are, until one is
      aborted.  Syncs do not remove them. */
  lemma {:induction false} PendingSince(run: seq<State>, acts: seq<Action>, m: nat)
    requires Behaviour(run, acts) && m <= |acts| && (m == 0 || acts[m - 1].Crash? || acts[m - 1].Truncate?)
    requires forall i | m <= i < |acts| :: !Forgets(acts[i])
    ensures run[|acts|].pending == Issued(acts[m..])
    decreases |acts|
  {
    if m < |acts| {
      var n := |acts| - 1;
      PendingSince(run[..n + 1], acts[..n], m);
      assert acts[m..][..n - m] == acts[..n][m..];
      assert Enabled(run[n], acts[n]) && run[n + 1] == Next(run[n], acts[n]);
    } else if m > 0 {
      assert Enabled(run[m - 1], acts[m - 1]) && run[m - 1 + 1] == Next(run[m - 1], acts[m - 1]);
    }
  }
}
