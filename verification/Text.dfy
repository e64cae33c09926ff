/** Cutting strings at a delimiter, as `find`, `substr` and `getline` do. */
module Text {

  /** Position of the first `d`, or the length. */
  function Find(s: string, d: char): (i: nat)
    ensures i <= |s| && (i < |s| ==> s[i] == d)
    ensures forall j | 0 <= j < i :: s[j] != d
  {
    if s == "" || s[0] == d then 0 else 1 + Find(s[1..], d)
  }

  /** `find(d, from)`: the first index at or after `from` of `d` in `s`, or the length if there is none. */
  function FindFrom(s: string, d: char, from: nat): (i: nat)
    requires from <= |s|
    ensures from <= i <= |s| && (i < |s| ==> s[i] == d)
    ensures forall j | from <= j < i :: s[j] != d
    decreases |s| - from
  {
    if from == |s| || s[from] == d then from else FindFrom(s, d, from + 1)
  }

  /** What successive calls of `getline` with delimiter `d` yield: a trailing delimiter opens no further piece. */
  function Pieces(s: string, d: char): seq<string>
    decreases |s|
  {
    if s == "" then []
    else
      var i := Find(s, d);
      [s[..i]] + if i < |s| then Pieces(s[i + 1..], d) else []
  }

  /** The reading loop over one stream. */
  method GetPieces(s: string, d: char) returns (ps: seq<string>)
    ensures ps == Pieces(s, d)
  {
    ps := [];
    var rest := s;
    while rest != ""
      invariant ps + Pieces(rest, d) == Pieces(s, d)
      decreases |rest|
    {
      var i := Find(rest, d);
      ps := ps + [rest[..i]];
      rest := if i < |rest| then rest[i + 1..] else "";
    }
  }

  lemma PiecesSplit(a: string, d: char, rest: string)
    requires d !in a
    ensures Pieces(a + ([d] + rest), d) == [a] + Pieces(rest, d)
  {
    var s := a + ([d] + rest);
    assert s[|a|] == d;
    assert forall j | 0 <= j < |a| :: s[j] == a[j];
    assert Find(s, d) == |a|;
    assert s[..|a|] == a && s[|a| + 1..] == rest;
  }

  lemma Associate(a: string, b: string, c: string)
    ensures (a + b) + c == a + (b + c)
  {}
}
