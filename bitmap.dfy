/** Occupancy bitmaps: free counting, range marking, and the two searches
    (first-fit contiguous data run, lowest free inode slot). An entry is
    `true` when the slot or block is occupied. */
module Bitmap {
  import opened Layout

  /** `n` copies of `v`. */
  function Fill(n: nat, v: bool): (s: seq<bool>)
    ensures |s| == n
    ensures forall i :: 0 <= i < n ==> s[i] == v
  {
    seq(n, _ => v)
  }

  /** Number of clear (free) entries. */
  function CountFree(b: seq<bool>): (c: nat)
    ensures c <= |b|
  {
    if |b| == 0 then 0
    else CountFree(b[..|b| - 1]) + (if b[|b| - 1] then 0 else 1)
  }

  /** `b` with every entry in `[lo, hi)` set to `v`. */
  function Marked(b: seq<bool>, lo: int, hi: int, v: bool): (r: seq<bool>)
    ensures |r| == |b|
    ensures forall i :: 0 <= i < |b| ==> r[i] == (if lo <= i < hi then v else b[i])
  {
    seq(|b|, i requires 0 <= i < |b| => if lo <= i < hi then v else b[i])
  }

  /** The `n` entries starting at `start` exist and are all free. */
  predicate FreeRun(b: seq<bool>, start: int, n: int) {
    0 <= start && start + n <= |b| &&
    forall j :: start <= j < start + n ==> !b[j]
  }

  lemma {:induction false} CountFreeAppend(a: seq<bool>, b: seq<bool>)
    ensures CountFree(a + b) == CountFree(a) + CountFree(b)
    decreases |b|
  {
    if |b| > 0 {
      var b' := b[..|b| - 1];
      assert (a + b)[..|a + b| - 1] == a + b';
      CountFreeAppend(a, b');
    } else {
      assert a + b == a;
    }
  }

  lemma {:induction false} CountFreeFill(n: nat, v: bool)
    ensures CountFree(Fill(n, v)) == if v then 0 else n
  {
    if n > 0 {
      assert Fill(n, v)[..n - 1] == Fill(n - 1, v);
      CountFreeFill(n - 1, v);
    }
  }

  /** A bitmap with no free entry counts zero, and one that counts zero has
      no free entry. */
  lemma {:induction false} NoneFreeIffZero(b: seq<bool>)
    ensures (forall i :: 0 <= i < |b| ==> b[i]) <==> CountFree(b) == 0
  {
    if |b| > 0 {
      NoneFreeIffZero(b[..|b| - 1]);
      if CountFree(b) == 0 {
        forall i | 0 <= i < |b| ensures b[i] {
          if i < |b| - 1 { assert b[..|b| - 1][i] == b[i]; }
        }
      }
    }
  }

  /** Setting a run of free entries lowers the free count by its length;
      clearing a run of occupied entries raises it by its length. */
  lemma CountMarkedRun(b: seq<bool>, lo: int, hi: int, v: bool)
    requires 0 <= lo <= hi <= |b|
    requires forall k :: lo <= k < hi ==> b[k] == !v
    ensures CountFree(Marked(b, lo, hi, v)) ==
            if v then CountFree(b) - (hi - lo) else CountFree(b) + (hi - lo)
  {
    var m := Marked(b, lo, hi, v);
    CountFreeSplit(b, lo, hi);
    CountFreeSplit(m, lo, hi);
    MarkedParts(b, lo, hi, v);
  }

  lemma MarkedParts(b: seq<bool>, lo: int, hi: int, v: bool)
    requires 0 <= lo <= hi <= |b|
    requires forall k :: lo <= k < hi ==> b[k] == !v
    ensures CountFree(b[lo..hi]) == (if v then hi - lo else 0)
    ensures CountFree(Marked(b, lo, hi, v)[lo..hi]) == (if v then 0 else hi - lo)
    ensures Marked(b, lo, hi, v)[..lo] == b[..lo]
    ensures Marked(b, lo, hi, v)[hi..] == b[hi..]
  {
    SliceIsFill(b, lo, hi, !v);
    SliceIsFill(Marked(b, lo, hi, v), lo, hi, v);
    CountFreeFill(hi - lo, v);
    CountFreeFill(hi - lo, !v);
  }

  lemma SliceIsFill(b: seq<bool>, lo: int, hi: int, v: bool)
    requires 0 <= lo <= hi <= |b|
    requires forall k :: lo <= k < hi ==> b[k] == v
    ensures b[lo..hi] == Fill(hi - lo, v)
  {
  }

  lemma CountFreeSplit(b: seq<bool>, lo: int, hi: int)
    requires 0 <= lo <= hi <= |b|
    ensures CountFree(b) == CountFree(b[..lo]) + CountFree(b[lo..hi]) + CountFree(b[hi..])
  {
    var front, middle, back := b[..lo], b[lo..hi], b[hi..];
    assert b == (front + middle) + back;
    CountFreeAppend(front + middle, back);
    CountFreeAppend(front, middle);
  }

  /** Setting and then clearing the same free run gives the bitmap back. */
  lemma MarkThenClear(b: seq<bool>, lo: int, hi: int)
    requires forall k :: 0 <= k < |b| && lo <= k < hi ==> !b[k]
    ensures Marked(Marked(b, lo, hi, true), lo, hi, false) == b
  {
  }

  /** If slot `s` is the lowest free entry, at most `|b| - s` entries are free,
      so `s` is at most `|b| - CountFree(b)`: it lies among the first
      `|b| - CountFree(b) + 1` entries. */
  lemma LowestFreeBound(b: seq<bool>, s: int)
    requires 0 <= s < |b| && !b[s]
    requires forall j :: 0 <= j < s ==> b[j]
    ensures s <= |b| - CountFree(b)
  {
    assert b == b[..s] + b[s..];
    CountFreeAppend(b[..s], b[s..]);
    NoneFreeIffZero(b[..s]);
  }

  /** find_data_space: first-fit scan for `needed` consecutive free blocks.
      It never signals failure by itself: `found` reports whether the scan
      ended with a complete run; when it did not, `first` is the start of
      the trailing free stretch, which is too short. */
  method FindDataSpace(needed: int, bitmap: array<bool>) returns (first: int, found: bool)
    requires bitmap.Length == DataBlocks
    ensures 0 <= first <= DataBlocks
    ensures found ==> FreeRun(bitmap[..], first, needed)
    ensures found ==> forall s :: 0 <= s < first ==> !FreeRun(bitmap[..], s, needed)
    ensures !found ==> forall s :: !FreeRun(bitmap[..], s, needed)
    ensures !found ==> first + needed > DataBlocks
    ensures !found ==> (forall j :: first <= j < DataBlocks ==> !bitmap[j]) && (first == 0 || bitmap[first - 1])
  {
    var blocksToFind := needed;
    first := 0;
    var current := 0;
    while blocksToFind > 0 && current < DataBlocks
      invariant 0 <= first <= current <= DataBlocks
      invariant blocksToFind == needed - (current - first)
      invariant needed > 0 ==> blocksToFind >= 0
      invariant needed <= 0 ==> current == 0
      invariant forall j :: first <= j < current ==> !bitmap[j]
      invariant first == 0 || bitmap[first - 1]
      invariant forall s :: 0 <= s < first ==> !FreeRun(bitmap[..], s, needed)
      decreases DataBlocks - current
    {
      if !bitmap[current] {
        blocksToFind := blocksToFind - 1;
        current := current + 1;
      } else {
        // every candidate start in [first, current] would cover `current`
        forall s | first <= s <= current ensures !FreeRun(bitmap[..], s, needed) {
          assert bitmap[..][current];
        }
        current := current + 1;
        first := current;
        blocksToFind := needed;
      }
    }
    found := blocksToFind <= 0;
  }

  /** find_inode_space: the lowest free slot, or -1 when every slot is taken. */
  method FindInodeSpace(bitmap: array<bool>) returns (slot: int)
    requires bitmap.Length == Inodes
    ensures -1 <= slot < Inodes
    ensures slot == -1 <==> forall i :: 0 <= i < Inodes ==> bitmap[i]
    ensures slot >= 0 ==> !bitmap[slot] && forall i :: 0 <= i < slot ==> bitmap[i]
  {
    for i := 0 to Inodes
      invariant forall j :: 0 <= j < i ==> bitmap[j]
    {
      if !bitmap[i] {
        return i;
      }
    }
    return -1;
  }
}
