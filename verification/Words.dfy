/** The mask operations of gt_bitops.h.  A mask is a 32-bit word, given by its bits, least significant first;
    bit `i` says that bucket `i` is occupied. */
module Words {

  type Word = w: seq<bool> | |w| == 32 witness seq(32, _ => false)

  function Zero(): Word {
    seq(32, _ => false)
  }

  predicate IsBitSet(w: Word, i: nat)
    requires i < 32
  {
    w[i]
  }

  /** The `btsl` instruction. */
  function SetBit(w: Word, i: nat): Word
    requires i < 32
  {
    w[i := true]
  }

  /** The `btrl` instruction. */
  function ResetBit(w: Word, i: nat): Word
    requires i < 32
  {
    w[i := false]
  }

  predicate IsZero(w: Word) {
    forall i | 0 <= i < 32 :: !w[i]
  }

  /** The `bsfl` instruction: the least set bit.  The instruction leaves its result undefined on zero. */
  function LowestBitSet(w: Word): (r: nat)
    requires !IsZero(w)
    ensures r < 32 && IsBitSet(w, r)
    ensures forall j: nat | j < r :: !IsBitSet(w, j)
  {
    LowestFrom(w, 0)
  }

  function LowestFrom(w: Word, i: nat): (r: nat)
    requires !IsZero(w) && i <= 32
    requires forall j: nat | j < i :: !w[j]
    ensures r < 32 && w[r]
    ensures forall j: nat | j < r :: !w[j]
    decreases 32 - i
  {
    if w[i] then i else LowestFrom(w, i + 1)
  }
}
