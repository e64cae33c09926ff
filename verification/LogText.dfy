/** The textual redo log of gtfs.cpp: what a sync appends to it and what recovery reads back. */
module LogText {
  import opened Options
  import opened Text
  import opened FileReplay

  /** Recovery either goes through or does something the language leaves undefined: an index past the tokens of a
      line, a failing `stoi`, or a read past the end of the data. */
  datatype Outcome<+T> = Ok(value: T) | Undefined

  const INT_MAX: int := 0x7fff_ffff

  // ----- numbers -------------------------------------------------------------------------------

  predicate IsDigit(c: char) {
    '0' <= c <= '9'
  }

  function Digit(d: nat): char
    requires d < 10
  {
    ('0' as int + d) as char
  }

  /** `to_string` of a nonnegative number. */
  function ToString(n: nat): (s: string)
    ensures s != "" && forall i | 0 <= i < |s| :: IsDigit(s[i])
  {
    if n < 10 then [Digit(n)] else ToString(n / 10) + [Digit(n % 10)]
  }

  /** The value of a string of digits. */
  function Value(s: string): nat
    requires forall i | 0 <= i < |s| :: IsDigit(s[i])
  {
    if s == "" then 0
    else
      assert IsDigit(s[|s| - 1]);
      Value(s[..|s| - 1]) * 10 + (s[|s| - 1] as int - '0' as int)
  }

  /** The longest prefix of digits. */
  function Digits(s: string): (r: string)
    ensures r <= s && forall i | 0 <= i < |r| :: IsDigit(r[i])
  {
    if s == "" || !IsDigit(s[0]) then "" else [s[0]] + Digits(s[1..])
  }

  /** `stoi`: white space, a sign, digits; anything after them is ignored.  It throws when there are no digits or the
      number does not fit an `int`. */
  function Stoi(s: string): Option<int>
    decreases |s|
  {
    if s == "" then None
    else if s[0] in " \t\n\r" then Stoi(s[1..])
    else
      var sign := if s[0] == '-' then -1 else 1;
      var d := Digits(if s[0] == '-' || s[0] == '+' then s[1..] else s);
      if d == "" || sign * Value(d) > INT_MAX || sign * Value(d) < -INT_MAX - 1 then None else Some(sign * Value(d))
  }

  /** Numbers are printed in decimal, most significant digit first. */
  lemma DecimalDigits(n: nat, d: nat)
    requires d < 10
    ensures ToString(d) == [('0' as int + d) as char]
    ensures n > 0 ==> ToString(10 * n + d) == ToString(n) + ToString(d)
  {
    if n > 0 {
      assert (10 * n + d) / 10 == n && (10 * n + d) % 10 == d;
    }
  }

  lemma {:induction false} ValueOfToString(n: nat)
    ensures Value(ToString(n)) == n
  {
    if n >= 10 {
      ValueOfToString(n / 10);
      assert ToString(n)[..|ToString(n)| - 1] == ToString(n / 10);
    }
  }

  lemma {:induction false} DigitsOfDigits(s: string)
    requires forall i | 0 <= i < |s| :: IsDigit(s[i])
    ensures Digits(s) == s
  {
    if s != "" {
      DigitsOfDigits(s[1..]);
    }
  }

  lemma StoiOfToString(n: nat)
    requires n <= INT_MAX
    ensures Stoi(ToString(n)) == Some(n)
  {
    var s := ToString(n);
    ValueOfToString(n);
    DigitsOfDigits(s);
    assert IsDigit(s[0]);
  }

  // ----- records ---------------------------------------------------------------------------------

  /** A write as it is logged: `length` bytes of a C string.  The length may be smaller than the string, or include its
      terminating zero. */
  datatype Record = Record(offset: nat, length: nat, data: string)

  /** A record a sync can be asked to log: the numbers are `int`s, and the bytes lie within the C string. */
  predicate Writable(r: Record) {
    '\0' !in r.data && r.offset <= INT_MAX && r.length <= INT_MAX && r.length <= |r.data| + 1
  }

  /** The write a sync performs on the data file. */
  function Effect(r: Record): (w: Write)
    requires r.length <= |r.data| + 1
    ensures w.offset == r.offset && |w.data| == r.length
    ensures forall j | 0 <= j < r.length :: w.data[j] == if j < |r.data| then r.data[j] else '\0'
  {
    Write(r.offset, (r.data + "\0")[..r.length])
  }

  predicate AllWritable(rs: seq<Record>) {
    forall r | r in rs :: Writable(r)
  }

  function Effects(rs: seq<Record>): seq<Write>
    requires AllWritable(rs)
  {
    if rs == [] then []
    else
      assert rs[0] in rs && forall r | r in rs[1..] :: r in rs;
      [Effect(rs[0])] + Effects(rs[1..])
  }

  /** What a log line tells recovery to do. */
  datatype Entry = Entry(filename: string, write: Write)

  /** Four fields separated by bars. */
  function Row(a: string, b: string, c: string, d: string): string {
    a + ("|" + (b + ("|" + (c + ("|" + d)))))
  }

  /** The line a sync appends: the whole C string, then a newline. */
  function Print(filename: string, r: Record): string {
    Row(filename, ToString(r.offset), ToString(r.length), r.data) + "\n"
  }

  function PrintLog(filename: string, rs: seq<Record>): string {
    if rs == [] then "" else Print(filename, rs[0]) + PrintLog(filename, rs[1..])
  }

  /** The bytes `fs.write` takes from the C string of `data`: past its terminating zero they are not defined. */
  function Bytes(data: string, length: int): Outcome<string> {
    if 0 <= length <= |data| + 1 then Ok((data + "\0")[..length]) else Undefined
  }

  function ParseLine(line: string): Outcome<Entry> {
    var tokens := Pieces(line, '|');
    if |tokens| < 4 then Undefined
    else
      var offset, length := Stoi(tokens[1]), Stoi(tokens[2]);
      if offset.None? || length.None? || offset.value < 0 then Undefined
      else
        match Bytes(tokens[3] + "\n", length.value)
        case Ok(bytes) => Ok(Entry(tokens[0], Write(offset.value, bytes)))
        case Undefined => Undefined
  }

  /** Empty lines are skipped. */
  function ParseLines(lines: seq<string>): Outcome<seq<Entry>> {
    if lines == [] then Ok([])
    else if lines[0] == "" then ParseLines(lines[1..])
    else
      match (ParseLine(lines[0]), ParseLines(lines[1..]))
      case (Ok(e), Ok(es)) => Ok([e] + es)
      case _ => Undefined
  }

  function ParseLog(text: string): Outcome<seq<Entry>> {
    ParseLines(Pieces(text, '\n'))
  }

  function Entries(filename: string, ws: seq<Write>): seq<Entry> {
    if ws == [] then [] else [Entry(filename, ws[0])] + Entries(filename, ws[1..])
  }

  predicate CleanName(filename: string) {
    '|' !in filename && '\n' !in filename
  }

  predicate OnlyNewlines(s: string) {
    forall j | 0 <= j < |s| :: s[j] == '\n'
  }

  /** What follows the first line of the data and the newline that ends it. */
  function Behind(data: string): string {
    if Find(data, '\n') < |data| then data[Find(data, '\n') + 1..] else ""
  }

  /** The bytes end before the first bar of the first line; if it has no bar, they may include the newline behind it
      and, if the data ends there, the terminating zero. */
  predicate BytesKept(r: Record) {
    var i := Find(r.data, '\n');
    var b := Find(r.data[..i], '|');
    r.length <= b || (b == i < |r.data| && (r.length == i + 1 || r.length == i + 2 == |r.data| + 1))
  }

  /** A record the log can carry. */
  predicate Clean(r: Record) {
    r.data != "" && r.data[0] != '\n' && OnlyNewlines(Behind(r.data)) && BytesKept(r)
  }

  predicate AllClean(rs: seq<Record>) {
    forall r | r in rs :: Clean(r)
  }

  lemma DigitsAreNotDelimiters(n: nat)
    ensures '|' !in ToString(n) && '\n' !in ToString(n)
  {}

  /** Text after a row belongs to its last field. */
  lemma RowConcat(a: string, b: string, c: string, d: string, rest: string)
    ensures Row(a, b, c, d) + rest == Row(a, b, c, d + rest)
  {
    var d1 := "|" + d;
    var c1 := c + d1;
    var c2 := "|" + c1;
    var b1 := b + c2;
    var b2 := "|" + b1;
    Associate("|", d, rest);
    Associate(c, d1, rest);
    Associate("|", c1, rest);
    Associate(b, c2, rest);
    Associate("|", b1, rest);
    Associate(a, b2, rest);
  }

  lemma RowTokens(a: string, b: string, c: string, d: string)
    requires '|' !in a && '|' !in b && '|' !in c
    ensures Pieces(Row(a, b, c, d), '|') == [a] + ([b] + ([c] + Pieces(d, '|')))
  {
    PiecesSplit(c, '|', d);
    PiecesSplit(b, '|', c + ("|" + d));
    PiecesSplit(a, '|', b + ("|" + (c + ("|" + d))));
  }

  lemma RowWithoutNewline(a: string, b: string, c: string, d: string)
    requires '\n' !in a && '\n' !in b && '\n' !in c && '\n' !in d
    ensures '\n' !in Row(a, b, c, d)
  {}

  /** What a record says, field by field: the bars set off the file name, the offset and the length, in this order. */
  lemma RecordFields(filename: string, r: Record)
    requires CleanName(filename) && Writable(r)
    ensures var fields := Pieces(Print(filename, r), '|');
            && |fields| >= 4 && fields[0] == filename
            && Stoi(fields[1]) == Some(r.offset) && Stoi(fields[2]) == Some(r.length)
  {
    var b, c := ToString(r.offset), ToString(r.length);
    DigitsAreNotDelimiters(r.offset);
    DigitsAreNotDelimiters(r.length);
    RowConcat(filename, b, c, r.data, "\n");
    RowTokens(filename, b, c, r.data + "\n");
    StoiOfToString(r.offset);
    StoiOfToString(r.length);
    assert r.data + "\n" != "";
  }

  /** A line with the numbers of `r` and some text as its data. */
  function Line(filename: string, r: Record, text: string): string {
    Row(filename, ToString(r.offset), ToString(r.length), text)
  }

  lemma LineParses(filename: string, r: Record, text: string)
    requires CleanName(filename) && Writable(r)
    ensures ParseLine(Line(filename, r, text)) ==
            if text == "" then Undefined
            else match Bytes(text[..Find(text, '|')] + "\n", r.length)
                 case Ok(bytes) => Ok(Entry(filename, Write(r.offset, bytes)))
                 case Undefined => Undefined
  {
    var b, c := ToString(r.offset), ToString(r.length);
    DigitsAreNotDelimiters(r.offset);
    DigitsAreNotDelimiters(r.length);
    RowTokens(filename, b, c, text);
    StoiOfToString(r.offset);
    StoiOfToString(r.length);
  }

  /** What follows the first newline of a record that is followed by `rest`. */
  function AfterFirstLine(data: string, rest: string): string {
    if Find(data, '\n') < |data| then Behind(data) + ("\n" + rest) else rest
  }

  lemma SplitTail(tail: string, j: nat, rest: string)
    requires j < |tail| && tail[j] == '\n'
    ensures tail + ("\n" + rest) == tail[..j] + ("\n" + (tail[j + 1..] + ("\n" + rest)))
  {
    var head, tail' := tail[..j], tail[j + 1..];
    assert tail == head + ("\n" + tail');
    Associate(head, "\n" + tail', "\n" + rest);
    Associate("\n", tail', "\n" + rest);
  }

  lemma SplitAtFirstNewline(data: string, rest: string)
    ensures data + ("\n" + rest) == data[..Find(data, '\n')] + ("\n" + AfterFirstLine(data, rest))
  {
    var i := Find(data, '\n');
    if i < |data| {
      SplitTail(data, i, rest);
    } else {
      assert data[..i] == data;
    }
  }

  /** The first line of a log that starts with a record ends at the first newline of the data, or after the data. */
  lemma FirstLine(filename: string, r: Record, rest: string)
    requires CleanName(filename)
    ensures Pieces(Print(filename, r) + rest, '\n') ==
            [Line(filename, r, r.data[..Find(r.data, '\n')])] + Pieces(AfterFirstLine(r.data, rest), '\n')
  {
    var i, tail := Find(r.data, '\n'), AfterFirstLine(r.data, rest);
    var b, c := ToString(r.offset), ToString(r.length);
    DigitsAreNotDelimiters(r.offset);
    DigitsAreNotDelimiters(r.length);
    RowWithoutNewline(filename, b, c, r.data[..i]);
    PiecesSplit(Line(filename, r, r.data[..i]), '\n', tail);
    RowConcat(filename, b, c, r.data[..i], "\n" + tail);
    Associate(Row(filename, b, c, r.data), "\n", rest);
    RowConcat(filename, b, c, r.data, "\n" + rest);
    SplitAtFirstNewline(r.data, rest);
  }

  lemma ParseCons(line: string, lines: seq<string>)
    ensures ParseLines([line] + lines) ==
            if line == "" then ParseLines(lines)
            else match (ParseLine(line), ParseLines(lines))
                 case (Ok(e), Ok(es)) => Ok([e] + es)
                 case _ => Undefined
  {
    assert ([line] + lines)[1..] == lines;
  }

  /** The text recovery takes for the data of a record. */
  function DataText(data: string): string {
    data[..Find(data, '\n')]
  }

  /** The bytes recovery writes for a record, if it has a data token at all. */
  function Recovered(r: Record): Outcome<string> {
    Bytes(DataText(r.data)[..Find(DataText(r.data), '|')] + "\n", r.length)
  }

  lemma KeptBytesRecovered(r: Record)
    requires Writable(r) && BytesKept(r)
    ensures Recovered(r) == Ok(Effect(r).data)
  {
    var i := Find(r.data, '\n');
    var b := Find(r.data[..i], '|');
    var text := r.data[..i][..b] + "\n" + "\0";
    assert forall j | 0 <= j < b :: text[j] == r.data[j];
    assert text[..r.length] == (r.data + "\0")[..r.length];
  }

  lemma OtherBytesMangled(r: Record)
    requires Writable(r) && !BytesKept(r)
    ensures Recovered(r) != Ok(Effect(r).data)
  {
    var i := Find(r.data, '\n');
    var b := Find(r.data[..i], '|');
    var text, bytes := r.data[..i][..b] + "\n" + "\0", r.data + "\0";
    if r.length <= |text| {
      assert text[b] == '\n' && text[b + 1] == '\0';
      if b < i || i == |r.data| {
        assert bytes[b] != '\n' && text[..r.length][b] != bytes[..r.length][b];
      } else {
        assert r.length == i + 2 && bytes[i + 1] != '\0';
        assert text[..r.length][i + 1] != bytes[..r.length][i + 1];
      }
    }
  }

  /** What recovery makes of a log that starts with a record. */
  lemma RecordParses(filename: string, r: Record, rest: string)
    requires CleanName(filename) && Writable(r)
    ensures ParseLog(Print(filename, r) + rest) ==
            if DataText(r.data) == "" then Undefined
            else match (Recovered(r), ParseLog(AfterFirstLine(r.data, rest)))
                 case (Ok(bytes), Ok(es)) => Ok([Entry(filename, Write(r.offset, bytes))] + es)
                 case _ => Undefined
  {
    FirstLine(filename, r, rest);
    LineParses(filename, r, DataText(r.data));
    ParseCons(Line(filename, r, DataText(r.data)), Pieces(AfterFirstLine(r.data, rest), '\n'));
  }

  // ----- what follows the first line of the data -------------------------------------------------

  /** Lines in front of a log are skipped if they are all empty; otherwise they break it or add entries to it. */
  lemma {:induction false} TailParses(tail: string, rest: string)
    ensures OnlyNewlines(tail) ==> ParseLog(tail + ("\n" + rest)) == ParseLog(rest)
    ensures !OnlyNewlines(tail) && ParseLog(tail + ("\n" + rest)).Ok? ==>
              ParseLog(rest).Ok? && |ParseLog(tail + ("\n" + rest)).value| > |ParseLog(rest).value|
    ensures ParseLog(tail + ("\n" + rest)).Ok? ==> ParseLog(rest).Ok?
    decreases |tail|
  {
    var j := Find(tail, '\n');
    var line := tail[..j];
    if j == |tail| {
      assert line == tail;
      PiecesSplit(tail, '\n', rest);
      ParseCons(tail, Pieces(rest, '\n'));
      assert tail != "" ==> tail[0] != '\n';
    } else {
      var tail' := tail[j + 1..];
      TailParses(tail', rest);
      SplitTail(tail, j, rest);
      PiecesSplit(line, '\n', tail' + ("\n" + rest));
      ParseCons(line, Pieces(tail' + ("\n" + rest), '\n'));
      NewlinesSplit(tail, j);
    }
  }

  lemma NewlinesSplit(tail: string, j: nat)
    requires j < |tail| && j == Find(tail, '\n')
    ensures OnlyNewlines(tail) <==> tail[..j] == "" && OnlyNewlines(tail[j + 1..])
  {
    if j > 0 {
      assert tail[0] != '\n';
    } else {
      assert forall k | 0 < k < |tail| :: tail[k] == tail[1..][k - 1];
    }
  }

  lemma RestParses(data: string, rest: string)
    ensures OnlyNewlines(Behind(data)) ==> ParseLog(AfterFirstLine(data, rest)) == ParseLog(rest)
    ensures ParseLog(AfterFirstLine(data, rest)).Ok? ==>
              && ParseLog(rest).Ok?
              && |ParseLog(AfterFirstLine(data, rest)).value| >= |ParseLog(rest).value|
              && (!OnlyNewlines(Behind(data)) ==> |ParseLog(AfterFirstLine(data, rest)).value| > |ParseLog(rest).value|)
  {
    if Find(data, '\n') < |data| {
      TailParses(Behind(data), rest);
    }
  }

  // ----- round trips -----------------------------------------------------------------------------

  /** A clean record reads back as the write it was printed from. */
  lemma CleanRecordParses(filename: string, r: Record, rest: string)
    requires CleanName(filename) && Writable(r) && Clean(r)
    ensures ParseLog(Print(filename, r) + rest) ==
            match ParseLog(rest) case Ok(es) => Ok([Entry(filename, Effect(r))] + es) case Undefined => Undefined
  {
    RecordParses(filename, r, rest);
    KeptBytesRecovered(r);
    RestParses(r.data, rest);
  }

  lemma ConsInjective(d: Entry, e: Entry, a: seq<Entry>, b: seq<Entry>)
    ensures [d] + a == [e] + b <==> d == e && a == b
  {
    assert ([d] + a)[1..] == a && ([e] + b)[1..] == b;
    assert ([d] + a)[0] == d && ([e] + b)[0] == e;
  }

  /** A record that is not clean makes the log unreadable, or reads back as another write, or adds further writes. */
  lemma UncleanRecordMisparses(filename: string, r: Record, rest: string)
    requires CleanName(filename) && Writable(r) && !Clean(r)
    ensures match ParseLog(Print(filename, r) + rest)
            case Undefined => true
            case Ok(es) =>
              && ParseLog(rest).Ok? && es != []
              && (es[0] != Entry(filename, Effect(r)) || |es| > 1 + |ParseLog(rest).value|)
  {
    RecordParses(filename, r, rest);
    RestParses(r.data, rest);
    if !BytesKept(r) {
      OtherBytesMangled(r);
    }
  }

  /** No record is lost, whatever its data: a readable log has at least as many entries as records. */
  lemma {:induction false} NoRecordLost(filename: string, rs: seq<Record>)
    requires CleanName(filename) && AllWritable(rs) && ParseLog(PrintLog(filename, rs)).Ok?
    ensures |ParseLog(PrintLog(filename, rs)).value| >= |rs|
  {
    if rs != [] {
      assert rs[0] in rs && forall r | r in rs[1..] :: r in rs;
      RecordParses(filename, rs[0], PrintLog(filename, rs[1..]));
      RestParses(rs[0].data, PrintLog(filename, rs[1..]));
      NoRecordLost(filename, rs[1..]);
    }
  }

  /** The log reads back as the writes that were synced exactly if each of its records is clean. */
  lemma {:induction false} RoundTripIff(filename: string, rs: seq<Record>)
    requires CleanName(filename) && AllWritable(rs)
    ensures ParseLog(PrintLog(filename, rs)) == Ok(Entries(filename, Effects(rs))) <==> AllClean(rs)
  {
    if rs != [] {
      var r, rest := rs[0], PrintLog(filename, rs[1..]);
      assert rs == [r] + rs[1..] && r in rs && forall x | x in rs[1..] :: x in rs;
      assert Effects(rs)[1..] == Effects(rs[1..]);
      EntriesLength(filename, Effects(rs));
      EffectsLength(rs);
      if Clean(r) {
        RoundTripIff(filename, rs[1..]);
        CleanRecordParses(filename, r, rest);
        if ParseLog(rest).Ok? {
          ConsInjective(Entry(filename, Effect(r)), Entry(filename, Effect(r)),
                        ParseLog(rest).value, Entries(filename, Effects(rs[1..])));
        }
      } else {
        UncleanRecordMisparses(filename, r, rest);
        if ParseLog(rest).Ok? {
          NoRecordLost(filename, rs[1..]);
        }
      }
    }
  }

  lemma {:induction false} EntriesLength(filename: string, ws: seq<Write>)
    ensures |Entries(filename, ws)| == |ws|
  {
    if ws != [] {
      EntriesLength(filename, ws[1..]);
    }
  }

  lemma {:induction false} EffectsLength(rs: seq<Record>)
    requires AllWritable(rs)
    ensures |Effects(rs)| == |rs|
  {
    if rs != [] {
      assert forall r | r in rs[1..] :: r in rs;
      EffectsLength(rs[1..]);
    }
  }
}
