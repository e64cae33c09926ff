/** `sync_log_to_file` of gtfs.cpp: reading a log line by line and writing its records to the data files. */
module Recovery {
  import opened Text
  import opened FileReplay
  import opened LogText

  type Directory = map<string, File>

  /** A record is written to the file it names; a file that cannot be opened is left alone. */
  function ApplyEntry(files: Directory, e: Entry): Directory {
    if e.filename in files then files[e.filename := Apply(files[e.filename], e.write)] else files
  }

  function ReplayEntries(es: seq<Entry>, files: Directory): Directory {
    if es == [] then files else ReplayEntries(es[1..], ApplyEntry(files, es[0]))
  }

  function Recover(parsed: Outcome<seq<Entry>>, files: Directory): Outcome<Directory> {
    match parsed
    case Ok(es) => Ok(ReplayEntries(es, files))
    case Undefined => Undefined
  }

  lemma RecoverStep(line: string, lines: seq<string>, files: Directory)
    ensures Recover(ParseLines([line] + lines), files) ==
            if line == "" then Recover(ParseLines(lines), files)
            else if ParseLine(line).Undefined? then Undefined
            else Recover(ParseLines(lines), ApplyEntry(files, ParseLine(line).value))
  {
    ParseCons(line, lines);
    if line != "" && ParseLine(line).Ok? && ParseLines(lines).Ok? {
      assert ([ParseLine(line).value] + ParseLines(lines).value)[1..] == ParseLines(lines).value;
    }
  }

  /** What one line does to the files. */
  function LineEffect(line: string, files: Directory): Outcome<Directory> {
    if line == "" then Ok(files)
    else match ParseLine(line) case Ok(e) => Ok(ApplyEntry(files, e)) case Undefined => Undefined
  }

  lemma RecoverFrom(lines: seq<string>, i: nat, files: Directory)
    requires i < |lines|
    ensures Recover(ParseLines(lines[i..]), files) ==
            match LineEffect(lines[i], files)
            case Ok(files') => Recover(ParseLines(lines[i + 1..]), files')
            case Undefined => Undefined
  {
    assert lines[i..] == [lines[i]] + lines[i + 1..];
    RecoverStep(lines[i], lines[i + 1..], files);
  }

  /** One line of the log. */
  method ReadLine(line: string) returns (e: Outcome<Entry>)
    ensures e == ParseLine(line)
  {
    var tokens := GetPieces(line, '|');
    if |tokens| < 4 {
      return Undefined;
    }
    var offset, length := Stoi(tokens[1]), Stoi(tokens[2]);
    if offset.None? || length.None? || offset.value < 0 {
      return Undefined;
    }
    var data := tokens[3] + "\n";
    if length.value < 0 || length.value > |data| + 1 {
      return Undefined;
    }
    return Ok(Entry(tokens[0], Write(offset.value, (data + "\0")[..length.value])));
  }

  /** The reading and writing loop amounts to parsing the whole log and then replaying it. */
  method SyncLogToFile(files: Directory, text: string) returns (r: Outcome<Directory>)
    ensures r == Recover(ParseLog(text), files)
  {
    var lines := GetPieces(text, '\n');
    r := ReplayLines(files, lines);
  }

  method ReplayLine(files: Directory, line: string) returns (r: Outcome<Directory>)
    ensures r == LineEffect(line, files)
  {
    if line == "" {
      return Ok(files);
    }
    var e := ReadLine(line);
    if e.Undefined? {
      return Undefined;
    }
    return Ok(ApplyEntry(files, e.value));
  }

  method ReplayLines(files: Directory, lines: seq<string>) returns (r: Outcome<Directory>)
    ensures r == Recover(ParseLines(lines), files)
  {
    r := Ok(files);
    var i := 0;
    assert lines[0..] == lines;
    while i < |lines|
      invariant 0 <= i <= |lines| && r.Ok?
      invariant Recover(ParseLines(lines[i..]), r.value) == Recover(ParseLines(lines), files)
    {
      RecoverFrom(lines, i, r.value);
      r := ReplayLine(r.value, lines[i]);
      if r.Undefined? {
        return;
      }
      i := i + 1;
    }
    assert lines[i..] == [];
  }

  lemma {:induction false} EntriesReplay(filename: string, ws: seq<Write>, files: Directory)
    requires filename in files
    ensures ReplayEntries(Entries(filename, ws), files) == files[filename := Replay(ws, files[filename])]
  {
    if ws == [] {
      assert files == files[filename := files[filename]];
    } else {
      var e := Entry(filename, ws[0]);
      assert Entries(filename, ws)[1..] == Entries(filename, ws[1..]);
      EntriesReplay(filename, ws[1..], ApplyEntry(files, e));
      ReplayFirst(ws, files[filename]);
    }
  }

  /** Recovering from the text that syncs wrote replays exactly their writes, in the order they were synced. */
  lemma TextRecovers(filename: string, rs: seq<Record>, files: Directory)
    requires CleanName(filename) && filename in files && AllWritable(rs) && AllClean(rs)
    ensures Recover(ParseLog(PrintLog(filename, rs)), files) ==
            Ok(files[filename := Replay(Effects(rs), files[filename])])
  {
    RoundTripIff(filename, rs);
    EntriesReplay(filename, Effects(rs), files);
  }

  lemma {:induction false} PrintLogAppend(filename: string, rs: seq<Record>, r: Record)
    ensures PrintLog(filename, rs + [r]) == PrintLog(filename, rs) + Print(filename, r)
  {
    if rs == [] {
      assert rs + [r] == [r] && [r][1..] == [];
      assert Print(filename, r) + "" == Print(filename, r) == "" + Print(filename, r);
    } else {
      assert (rs + [r])[1..] == rs[1..] + [r];
      PrintLogAppend(filename, rs[1..], r);
      Associate(Print(filename, rs[0]), PrintLog(filename, rs[1..]), Print(filename, r));
    }
  }

  lemma {:induction false} EffectsAppend(rs: seq<Record>, r: Record)
    requires AllWritable(rs) && Writable(r)
    ensures AllWritable(rs + [r]) && Effects(rs + [r]) == Effects(rs) + [Effect(r)]
  {
    if rs == [] {
      assert rs + [r] == [r] && [r][1..] == [];
    } else {
      assert forall x | x in rs[1..] :: x in rs;
      assert (rs + [r])[1..] == rs[1..] + [r];
      EffectsAppend(rs[1..], r);
      assert (rs + [r])[0] == rs[0];
    }
  }

  /** A sync, seen through the log: what the log stands for over the file gains exactly the synced write. */
  lemma SyncAddsItsWrite(rs: seq<Record>, r: Record, f: File)
    requires AllWritable(rs) && Writable(r)
    ensures AllWritable(rs + [r])
    ensures Replay(Effects(rs + [r]), Apply(f, Effect(r))) == Apply(Replay(Effects(rs), f), Effect(r))
  {
    EffectsAppend(rs, r);
    WholeWriteHidden(Effects(rs + [r]), f, Effect(r));
    ReplayConcat(Effects(rs), [Effect(r)], f);
    ReplayOne(Effect(r), Replay(Effects(rs), f));
  }

  lemma BarRecovered()
    ensures var r := Record(0, 3, "a|b");
            && Writable(r) && Effect(r) == Write(0, "a|b")
            && DataText(r.data) != "" && AfterFirstLine(r.data, "") == "" && Recovered(r) == Ok("a\n\0")
  {
    var data := "a|b";
    assert (data + "\0")[..3] == data;
    assert Find(data, '\n') == 3 && DataText(data) == data;
    assert Find(data, '|') == 1 && data[..1] == "a";
    assert ("a" + "\n" + "\0")[..3] == "a\n\0";
  }

  lemma OneEntryReplays(e: Entry, f: File)
    ensures ReplayEntries([e], map[e.filename := f]) == map[e.filename := Apply(f, e.write)]
  {
    var files := map[e.filename := f];
    assert [e][1..] == [] && ApplyEntry(files, e) == map[e.filename := Apply(f, e.write)];
    assert ReplayEntries([], ApplyEntry(files, e)) == ApplyEntry(files, e);
  }

  lemma OneRecordPrints(filename: string, r: Record)
    ensures PrintLog(filename, [r]) == Print(filename, r) + ""
  {
    assert [r][1..] == [] && PrintLog(filename, []) == "";
  }

  lemma OneRecordParses(filename: string, r: Record)
    requires CleanName(filename) && Writable(r) && DataText(r.data) != "" && Recovered(r).Ok?
    requires AfterFirstLine(r.data, "") == ""
    ensures ParseLog(Print(filename, r) + "") == Ok([Entry(filename, Write(r.offset, Recovered(r).value))])
  {
    RecordParses(filename, r, "");
    var e := Entry(filename, Write(r.offset, Recovered(r).value));
    assert [e] + [] == [e];
  }

  /** A record that is not clean can be replayed wrongly: a sync writes these three bytes, recovery writes others. */
  lemma BarIsLost(filename: string, f: File)
    requires CleanName(filename)
    ensures var r := Record(0, 3, "a|b");
            && Writable(r) && Effect(r) == Write(0, "a|b")
            && Recover(ParseLog(PrintLog(filename, [r])), map[filename := f]) ==
               Ok(map[filename := Apply(f, Write(0, "a\n\0"))])
  {
    BarRecovered();
    OneRecordPrints(filename, Record(0, 3, "a|b"));
    OneRecordParses(filename, Record(0, 3, "a|b"));
    OneEntryReplays(Entry(filename, Write(0, "a\n\0")), f);
  }
}
