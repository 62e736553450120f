/**
 * The board's three 64-bit masks (Lib/Board.cs: _occupied, _owner, _stable and
 * the helpers _Occupied, _Owner, _Stable, _SetStable and _GetColor). Bit i of a
 * mask stands for square i in row-major order; a mask is modelled here as the
 * set of indices of its set bits, so `m | (1 << i)` is `m + {i}`,
 * `m & ~(1 << i)` is `m - {i}` and `(m & (1 << i)) != 0` is `i in m`.
 */
module Masks {
  import opened Geometry

  /** A 64-bit mask: the indices, all in 0..63, of its set bits. */
  type Bits = set<int>

  predicate WellFormed(m: Bits) {
    forall i :: i in m ==> 0 <= i < 64
  }

  /** The colour _GetColor reads off the two masks for square i. */
  function ColorOf(occupied: Bits, owner: Bits, i: int): (c: Color)
    ensures c == None <==> i !in occupied
    ensures c == White <==> i in occupied && i in owner
  {
    if i !in occupied then None
    else if i in owner then White
    else Black
  }

  /** The grid of colours the two masks encode; owner bits matter only where occupied. */
  function Decode(occupied: Bits, owner: Bits): (g: seq<Color>)
    ensures |g| == 64
    ensures forall i :: 0 <= i < 64 ==> g[i] == ColorOf(occupied, owner, i)
  {
    seq(64, i => ColorOf(occupied, owner, i))
  }

  /** Writing White into square i: occupied and owner bits both set. */
  lemma DecodeSetWhite(occupied: Bits, owner: Bits, i: int)
    requires 0 <= i < 64
    ensures Decode(occupied + {i}, owner + {i}) == Decode(occupied, owner)[i := White]
  {
  }

  /** Writing Black into square i: occupied bit set, owner bit cleared. */
  lemma DecodeSetBlack(occupied: Bits, owner: Bits, i: int)
    requires 0 <= i < 64
    ensures Decode(occupied + {i}, owner - {i}) == Decode(occupied, owner)[i := Black]
  {
  }

  /** Clearing square i: occupied bit cleared, owner bit left as it was. */
  lemma DecodeClear(occupied: Bits, owner: Bits, i: int)
    requires 0 <= i < 64
    ensures Decode(occupied - {i}, owner) == Decode(occupied, owner)[i := None]
  {
  }
}
