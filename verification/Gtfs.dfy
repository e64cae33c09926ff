/** A file of gtfs.cpp with its log and its list of pending writes. */
module Gtfs {
  import opened Options
  import opened FileReplay
  import opened LogText
  import opened Recovery

  /** `write_t`: the data is the caller's buffer, known by its address. */
  datatype WriteId = WriteId(offset: nat, length: nat, address: nat, data: string)

  /** What a sync of this write logs. */
  function RecordOf(w: WriteId): Record {
    Record(w.offset, w.length, w.data)
  }

  /** What `gtfs_abort_write_file` compares: the address of the data, not the data. */
  predicate Same(a: WriteId, b: WriteId) {
    a.offset == b.offset && a.length == b.length && a.address == b.address
  }

  /** The list without the first entry that looks like `w`. */
  function Aborted(ws: seq<WriteId>, w: WriteId): seq<WriteId> {
    if ws == [] then []
    else if Same(ws[0], w) then ws[1..]
    else [ws[0]] + Aborted(ws[1..], w)
  }

  predicate Matches(w: WriteId, offset: nat, length: nat) {
    w.offset == offset && w.length == length
  }

  /** The data of the first pending write at exactly this position and length. */
  function Lookup(ws: seq<WriteId>, offset: nat, length: nat): Option<string> {
    if ws == [] then None
    else if Matches(ws[0], offset, length) then Some(ws[0].data)
    else Lookup(ws[1..], offset, length)
  }

  /** What a read returns: pending data, or file contents, or nothing past the end of the file. */
  function Read(ws: seq<WriteId>, contents: File, offset: nat, length: nat): string {
    match Lookup(ws, offset, length)
    case Some(data) => data
    case None => if offset + length > |contents| then "" else contents[offset..offset + length]
  }

  class GtfsFile {
    const filename: string
    var contents: File
    var log: string
    /** The entry of `file_log_updates_mapping`, if there is one. */
    var updates: Option<seq<WriteId>>

    ghost function Pending(): seq<WriteId>
      reads this
    {
      if updates.Some? then updates.value else []
    }

    constructor (name: string, bytes: File)
      ensures filename == name && contents == bytes && log == "" && updates == None
    {
      filename, contents, log, updates := name, bytes, "", None;
    }

    /** `gtfs_write_file`: nothing persistent changes. */
    method WriteFile(offset: nat, length: nat, address: nat, data: string) returns (w: WriteId)
      modifies this`updates
      ensures w == WriteId(offset, length, address, data)
      ensures updates.Some? && Pending() == old(Pending()) + [w]
    {
      w := WriteId(offset, length, address, data);
      var logs := if updates.Some? then updates.value else [];
      updates := Some(logs + [w]);
    }

    /** `gtfs_abort_write_file`: nothing persistent changes. */
    method AbortWriteFile(w: WriteId) returns (ret: int)
      modifies this`updates
      ensures Pending() == Aborted(old(Pending()), w)
      ensures forall i | 0 <= i < |old(Pending())| && Same(old(Pending())[i], w)
                         && (forall j | 0 <= j < i :: !Same(old(Pending())[j], w)) ::
                Pending() == old(Pending())[..i] + old(Pending())[i + 1..]
      ensures (forall i | 0 <= i < |old(Pending())| :: !Same(old(Pending())[i], w)) ==> Pending() == old(Pending())
      ensures ret == if old(updates).Some? then 0 else -1
      ensures updates.Some? <==> old(updates).Some?
    {
      if updates.None? {
        return -1;
      }
      var logs := updates.value;
      var i := 0;
      while i < |logs| && !Same(logs[i], w)
        invariant 0 <= i <= |logs|
        invariant forall j | 0 <= j < i :: !Same(logs[j], w)
      {
        i := i + 1;
      }
      AbortedAt(logs, i, w);
      if i < |logs| {
        logs := logs[..i] + logs[i + 1..];
      }
      updates := Some(logs);
      return 0;
    }

    /** `gtfs_read_file`: the data of the oldest pending write at exactly this position and length, even if a newer one
        is pending; otherwise the bytes of the file, and nothing if they are not all there. */
    method ReadFile(offset: nat, length: nat) returns (data: string)
      ensures data == Read(Pending(), contents, offset, length)
      ensures forall i | 0 <= i < |Pending()| && Matches(Pending()[i], offset, length)
                         && (forall j | 0 <= j < i :: !Matches(Pending()[j], offset, length)) ::
                data == Pending()[i].data
      ensures (forall i | 0 <= i < |Pending()| :: !Matches(Pending()[i], offset, length)) ==>
                if offset + length <= |contents|
                then |data| == length && forall j | 0 <= j < length :: data[j] == contents[offset + j]
                else data == ""
    {
      if updates.Some? {
        var logs := updates.value;
        var i := 0;
        while i < |logs|
          invariant 0 <= i <= |logs|
          invariant Lookup(logs, offset, length) == Lookup(logs[i..], offset, length)
          invariant forall j | 0 <= j < i :: !Matches(logs[j], offset, length)
        {
          if Matches(logs[i], offset, length) {
            return logs[i].data;
          }
          i := i + 1;
        }
      }
      if offset > |contents| || offset + length > |contents| {
        return "";
      }
      return contents[offset..offset + length];
    }

    /** `gtfs_sync_write_file`, undisturbed: one record in the log, then the bytes in the file.  The log gains one
        record, and what it stands for gains the write. */
    method SyncWriteFile(w: WriteId) returns (n: nat)
      requires Writable(RecordOf(w))
      modifies this`log, this`contents
      ensures n == w.length
      ensures log == old(log) + Print(filename, RecordOf(w))
      ensures contents == Apply(old(contents), Effect(RecordOf(w)))
      ensures w.length > 0 ==> |contents| == Max(|old(contents)|, w.offset + w.length)
      ensures forall j | 0 <= j < w.length :: contents[w.offset + j] == if j < |w.data| then w.data[j] else '\0'
      ensures forall p | 0 <= p < |old(contents)| && !(w.offset <= p < w.offset + w.length) ::
                contents[p] == old(contents)[p]
      ensures forall rs | AllWritable(rs) && old(log) == PrintLog(filename, rs) ::
                && log == PrintLog(filename, rs + [RecordOf(w)]) && AllWritable(rs + [RecordOf(w)])
                && Replay(Effects(rs + [RecordOf(w)]), contents) ==
                   Apply(Replay(Effects(rs), old(contents)), Effect(RecordOf(w)))
    {
      log := log + Print(filename, RecordOf(w));
      contents := Apply(contents, Effect(RecordOf(w)));
      n := w.length;
      forall rs | AllWritable(rs) && old(log) == PrintLog(filename, rs)
        ensures log == PrintLog(filename, rs + [RecordOf(w)]) && AllWritable(rs + [RecordOf(w)])
        ensures Replay(Effects(rs + [RecordOf(w)]), contents) ==
                Apply(Replay(Effects(rs), old(contents)), Effect(RecordOf(w)))
      {
        PrintLogAppend(filename, rs, RecordOf(w));
        SyncAddsItsWrite(rs, RecordOf(w), old(contents));
      }
    }

    /** `gtfs_clean`, undisturbed: the log is emptied only after it was read and replayed to its end. */
    method CleanLog() returns (r: Outcome<int>)
      modifies this
      ensures r == if ParseLog(old(log)).Ok? then Ok(0) else Undefined
      ensures r.Ok? ==> Recover(ParseLog(old(log)), map[filename := old(contents)]) ==
                        Ok(map[filename := old(contents)][filename := contents])
      ensures r.Ok? ==> log == "" && updates == None
      ensures r.Undefined? ==> log == old(log)
    {
      var files := map[filename := contents];
      var recovered := SyncLogToFile(files, log);
      if recovered.Undefined? {
        return Undefined;
      }
      EntriesTouchOnly(ParseLog(log).value, files);
      contents := recovered.value[filename];
      assert recovered.value == files[filename := contents];
      log := "";
      updates := None;
      r := Ok(0);
    }
  }

  lemma {:induction false} EntriesTouchOnly(es: seq<Entry>, files: Directory)
    ensures ReplayEntries(es, files).Keys == files.Keys
  {
    if es != [] {
      EntriesTouchOnly(es[1..], ApplyEntry(files, es[0]));
    }
  }

  /** A sync, then a clean, of a write the log can carry, over a log of such writes: the file holds the logged writes
      and the new one, and the log is empty. */
  method SyncThenClean(f: GtfsFile, w: WriteId, ghost rs: seq<Record>) returns (r: Outcome<int>)
    requires CleanName(f.filename) && AllWritable(rs) && AllClean(rs) && f.log == PrintLog(f.filename, rs)
    requires Writable(RecordOf(w)) && Clean(RecordOf(w))
    modifies f
    ensures r == Ok(0) && f.log == ""
    ensures f.contents == Apply(Replay(Effects(rs), old(f.contents)), Effect(RecordOf(w)))
  {
    var n := f.SyncWriteFile(w);
    ghost var all, synced := rs + [RecordOf(w)], f.contents;
    RoundTripIff(f.filename, all);
    TextRecovers(f.filename, all, map[f.filename := synced]);
    r := f.CleanLog();
    assert map[f.filename := synced][f.filename := f.contents][f.filename] == f.contents;
    assert map[f.filename := synced][f.filename := Replay(Effects(all), synced)][f.filename] == f.contents;
  }

  // ----- aborting --------------------------------------------------------------------------------

  predicate AllAre(ws: seq<WriteId>, w: WriteId) {
    forall i | 0 <= i < |ws| :: ws[i] == w
  }

  /** From its first occurrence on, the list consists of `w` alone. */
  predicate OnlyFromFirst(ws: seq<WriteId>, w: WriteId) {
    ws == [] || (if ws[0] == w then AllAre(ws, w) else OnlyFromFirst(ws[1..], w))
  }

  lemma {:induction false} AbortedConcat(a: seq<WriteId>, b: seq<WriteId>, w: WriteId)
    requires forall x | x in a :: !Same(x, w)
    ensures Aborted(a + b, w) == a + Aborted(b, w)
  {
    if a == [] {
      assert a + b == b;
    } else {
      assert (a + b)[1..] == a[1..] + b;
      AbortedConcat(a[1..], b, w);
    }
  }

  lemma AbortedAt(ws: seq<WriteId>, i: nat, w: WriteId)
    requires i <= |ws| && (forall j | 0 <= j < i :: !Same(ws[j], w)) && (i < |ws| ==> Same(ws[i], w))
    ensures Aborted(ws, w) == if i < |ws| then ws[..i] + ws[i + 1..] else ws
  {
    AbortedConcat(ws[..i], ws[i..], w);
    assert ws == ws[..i] + ws[i..];
    if i < |ws| {
      assert ws[i..][1..] == ws[i + 1..];
    }
  }

  /** The address tells writes apart: of two writes to the same place from different buffers, the abort of the later
      removes the later. */
  lemma AbortGoesByAddress(ws: seq<WriteId>, a: WriteId, b: WriteId)
    requires a.offset == b.offset && a.length == b.length && a.address != b.address
    requires forall x | x in ws :: x.address != b.address
    ensures Aborted(ws + [a, b], b) == ws + [a]
  {
    AbortedConcat(ws, [a, b], b);
    assert [a, b][1..] == [b] && [b][1..] == [];
    assert Aborted([b], b) == [] && [a] + [] == [a];
  }

  lemma {:induction false} CommuteIff(b: seq<WriteId>, m: seq<WriteId>, w: WriteId)
    ensures b + [w] + m == [w] + b + m <==> AllAre(b, w)
  {
    var l, r := b + [w] + m, [w] + b + m;
    if AllAre(b, w) {
      assert l == r;
    }
    if l == r {
      ShiftedEqual(b, m, w, |b|);
    }
  }

  lemma {:induction false} ShiftedEqual(b: seq<WriteId>, m: seq<WriteId>, w: WriteId, n: nat)
    requires b + [w] + m == [w] + b + m && n <= |b|
    ensures forall i | 0 <= i < n :: b[i] == w
  {
    if n > 0 {
      ShiftedEqual(b, m, w, n - 1);
      assert (b + [w] + m)[n - 1] == b[n - 1];
      assert ([w] + b + m)[n - 1] == if n == 1 then w else b[n - 2];
    }
  }

  /** Aborting a write after any interleaved writes leaves the list as if it had never been issued exactly if every
      pending write from the first indistinguishable one up to its own position is indistinguishable too; in particular
      if there is none. */
  lemma {:induction false} AbortUndoesIff(before: seq<WriteId>, w: WriteId, after: seq<WriteId>)
    requires forall x | x in before :: Same(x, w) ==> x == w
    ensures Aborted(before + [w] + after, w) == before + after <==> OnlyFromFirst(before, w)
  {
    if before == [] {
      assert before + [w] + after == [w] + after && before + after == after;
      assert ([w] + after)[1..] == after;
    } else {
      var all := before + [w] + after;
      assert all[0] == before[0];
      assert all[1..] == before[1..] + [w] + after;
      assert before + after == [before[0]] + (before[1..] + after);
      if before[0] == w {
        CommuteIff(before[1..], after, w);
        assert before == [w] + before[1..];
        assert AllAre(before, w) <==> AllAre(before[1..], w);
        assert Aborted(all, w) == before[1..] + [w] + after;
        assert [w] + (before[1..] + after) == [w] + before[1..] + after;
      } else {
        AbortUndoesIff(before[1..], w, after);
        assert ([before[0]] + Aborted(all[1..], w))[1..] == Aborted(all[1..], w);
        assert ([before[0]] + (before[1..] + after))[1..] == before[1..] + after;
      }
    }
  }

  /** Distinct pending writes: every read is as if the aborted write had never been issued. */
  lemma AbortIsolation(before: seq<WriteId>, w: WriteId, after: seq<WriteId>, contents: File, offset: nat, length: nat)
    requires forall x | x in before :: !Same(x, w)
    ensures Aborted(before + [w] + after, w) == before + after
    ensures Read(Aborted(before + [w] + after, w), contents, offset, length) ==
            Read(before + after, contents, offset, length)
  {
    AbortedConcat(before, [w] + after, w);
    assert before + [w] + after == before + ([w] + after);
    assert ([w] + after)[1..] == after;
  }
}
