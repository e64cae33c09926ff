/** Writing to a data file and replaying a redo log over it. */
module FileReplay {

  /** File contents, byte by byte. */
  type File = string

  /** `data` is written at `offset`. */
  datatype Write = Write(offset: nat, data: string)

  function Max(a: nat, b: nat): nat {
    if a < b then b else a
  }

  /** A byte of the file as it reads beyond the end: gaps are filled with zeros. */
  function ByteOf(f: File, p: nat): char {
    if p < |f| then f[p] else '\0'
  }

  predicate Covers(w: Write, p: nat) {
    w.offset <= p < w.offset + |w.data|
  }

  /** Seek and write.  Writing past the end fills the gap with zeros; writing nothing extends nothing. */
  function Apply(f: File, w: Write): (r: File)
    ensures |r| == if w.data == "" then |f| else Max(|f|, w.offset + |w.data|)
    ensures forall p: nat | p < |r| :: r[p] == if Covers(w, p) then w.data[p - w.offset] else ByteOf(f, p)
  {
    if w.data == "" then f
    else
      var end := w.offset + |w.data|;
      var g := if |f| < w.offset then f + seq(w.offset - |f|, _ => '\0') else f;
      g[..w.offset] + w.data + if end < |g| then g[end..] else ""
  }

  function Replay(log: seq<Write>, f: File): File {
    if log == [] then f else Apply(Replay(log[..|log| - 1], f), log[|log| - 1])
  }

  /** Where the log's writes end. */
  function End(log: seq<Write>): nat {
    if log == [] then 0
    else
      var w := log[|log| - 1];
      Max(End(log[..|log| - 1]), if w.data == "" then 0 else w.offset + |w.data|)
  }

  predicate CoveredBy(log: seq<Write>, p: nat) {
    exists w :: w in log && Covers(w, p)
  }

  /** The byte the last covering write leaves at `p`, or else the file's own. */
  function LastByte(log: seq<Write>, f: File, p: nat): char {
    if log == [] then ByteOf(f, p)
    else
      var w := log[|log| - 1];
      if Covers(w, p) then w.data[p - w.offset] else LastByte(log[..|log| - 1], f, p)
  }

  lemma {:induction false} ReplayPointwise(log: seq<Write>, f: File)
    ensures |Replay(log, f)| == Max(|f|, End(log))
    ensures forall p: nat | p < |Replay(log, f)| :: Replay(log, f)[p] == LastByte(log, f, p)
  {
    if log != [] {
      var rest := log[..|log| - 1];
      ReplayPointwise(rest, f);
      forall p: nat | p < |Replay(log, f)| ensures Replay(log, f)[p] == LastByte(log, f, p) {
        if p >= |Replay(rest, f)| {
          BeyondEnd(rest, f, p);
        }
      }
    }
  }

  lemma {:induction false} BeyondEnd(log: seq<Write>, f: File, p: nat)
    requires p >= |f| && p >= End(log)
    ensures LastByte(log, f, p) == '\0'
  {
    if log != [] {
      BeyondEnd(log[..|log| - 1], f, p);
    }
  }

  lemma {:induction false} SplitOff(log: seq<Write>, p: nat)
    requires log != []
    ensures CoveredBy(log, p) <==> Covers(log[|log| - 1], p) || CoveredBy(log[..|log| - 1], p)
  {
    assert log == log[..|log| - 1] + [log[|log| - 1]];
  }

  lemma {:induction false} LastByteDepends(log: seq<Write>, f: File, g: File, p: nat)
    requires CoveredBy(log, p) || ByteOf(f, p) == ByteOf(g, p)
    ensures LastByte(log, f, p) == LastByte(log, g, p)
  {
    if log != [] {
      SplitOff(log, p);
      if !Covers(log[|log| - 1], p) {
        LastByteDepends(log[..|log| - 1], f, g, p);
      }
    }
  }

  lemma {:induction false} EndCovers(log: seq<Write>, w: Write)
    requires w in log && w.data != ""
    ensures w.offset + |w.data| <= End(log)
  {
    var last := log[|log| - 1];
    if w != last {
      EndCovers(log[..|log| - 1], w);
    }
  }

  /** `g` differs from `f` only where the log writes anyway, and is no longer than the log makes it. */
  predicate Absorbed(log: seq<Write>, f: File, g: File) {
    && |f| <= |g| <= Max(|f|, End(log))
    && forall p: nat | p < |g| :: CoveredBy(log, p) || g[p] == ByteOf(f, p)
  }

  /** Replaying the log hides whatever it writes anyway. */
  lemma ReplayAbsorbs(log: seq<Write>, f: File, g: File)
    requires Absorbed(log, f, g)
    ensures Replay(log, g) == Replay(log, f)
  {
    ReplayPointwise(log, f);
    ReplayPointwise(log, g);
    forall p: nat | p < |Replay(log, f)| ensures LastByte(log, f, p) == LastByte(log, g, p) {
      LastByteDepends(log, f, g, p);
    }
  }

  /** Writing any prefix of a logged write is hidden by the log. */
  lemma PartialWriteAbsorbed(log: seq<Write>, f: File, g: File, w: Write, j: nat)
    requires Absorbed(log, f, g) && w in log && j <= |w.data|
    ensures Absorbed(log, f, Apply(g, Write(w.offset, w.data[..j])))
  {
    var part := Write(w.offset, w.data[..j]);
    var h := Apply(g, part);
    if w.data != "" {
      EndCovers(log, w);
    }
    forall p: nat | p < |h| ensures CoveredBy(log, p) || h[p] == ByteOf(f, p) {
      if Covers(part, p) {
        assert Covers(w, p);
      }
    }
  }

  lemma AbsorbsItself(log: seq<Write>, f: File)
    ensures Absorbed(log, f, f)
  {}

  /** A write that is logged and performed: replaying it again over the result changes nothing. */
  lemma WholeWriteHidden(log: seq<Write>, f: File, w: Write)
    requires w in log
    ensures Replay(log, Apply(f, w)) == Replay(log, f)
  {
    AbsorbsItself(log, f);
    PartialWriteAbsorbed(log, f, f, w, |w.data|);
    assert Write(w.offset, w.data[..|w.data|]) == w;
    ReplayAbsorbs(log, f, Apply(f, w));
  }

  lemma ReplayOne(w: Write, f: File)
    ensures Replay([w], f) == Apply(f, w)
  {
    assert [w][..0] == [];
  }

  lemma {:induction false} PrefixAbsorbed(log: seq<Write>, f: File, g: File, n: nat)
    requires Absorbed(log, f, g) && n <= |log|
    ensures Absorbed(log, f, Replay(log[..n], g))
  {
    if n > 0 {
      PrefixAbsorbed(log, f, g, n - 1);
      assert log[..n][..n - 1] == log[..n - 1];
      var w := log[n - 1];
      PartialWriteAbsorbed(log, f, Replay(log[..n - 1], g), w, |w.data|);
      assert Write(w.offset, w.data[..|w.data|]) == w;
    }
  }

  /** Interrupted replays: `ns[k]` records were replayed before the k-th interruption. */
  function ReplayPrefixes(log: seq<Write>, ns: seq<nat>, f: File): File
    requires forall k | 0 <= k < |ns| :: ns[k] <= |log|
  {
    if ns == [] then f
    else Replay(log[..ns[|ns| - 1]], ReplayPrefixes(log, ns[..|ns| - 1], f))
  }

  lemma {:induction false} PrefixesAbsorbed(log: seq<Write>, ns: seq<nat>, f: File)
    requires forall k | 0 <= k < |ns| :: ns[k] <= |log|
    ensures Absorbed(log, f, ReplayPrefixes(log, ns, f))
  {
    if ns != [] {
      PrefixesAbsorbed(log, ns[..|ns| - 1], f);
      PrefixAbsorbed(log, f, ReplayPrefixes(log, ns[..|ns| - 1], f), ns[|ns| - 1]);
    }
  }

  /** Replaying any prefixes any number of times and then the whole log equals replaying the whole log once. */
  lemma ReplayIsIdempotent(log: seq<Write>, ns: seq<nat>, f: File)
    requires forall k | 0 <= k < |ns| :: ns[k] <= |log|
    ensures Replay(log, ReplayPrefixes(log, ns, f)) == Replay(log, f)
  {
    PrefixesAbsorbed(log, ns, f);
    ReplayAbsorbs(log, f, ReplayPrefixes(log, ns, f));
  }

  lemma {:induction false} ReplayConcat(a: seq<Write>, b: seq<Write>, f: File)
    ensures Replay(a + b, f) == Replay(b, Replay(a, f))
  {
    if b == [] {
      assert a + b == a;
    } else {
      assert (a + b)[..|a + b| - 1] == a + b[..|b| - 1];
      ReplayConcat(a, b[..|b| - 1], f);
    }
  }

  /** Replaying starts with the first record. */
  lemma ReplayFirst(log: seq<Write>, f: File)
    requires log != []
    ensures Replay(log, f) == Replay(log[1..], Apply(f, log[0]))
  {
    ReplayConcat([log[0]], log[1..], f);
    assert log == [log[0]] + log[1..];
    assert [log[0]][..0] == [];
  }
}
