/** Inode records, the two name lookups, the listing, and the consistency
    invariant that ties the inode table to both bitmaps. */
module InodeTable {
  import opened Layout
  import opened Bitmap

  /** One inode-table record: byte size, first data block, name. */
  datatype Inode = Inode(size: nat, firstBlock: nat, name: string)

  /** A record whose bytes are all zero, as formatting and deletion leave it;
      its name reads back as the empty string. */
  const Erased := Inode(0, 0, "")

  /** One line of the listing: name and size of a live file. */
  datatype Entry = Entry(name: string, size: nat)

  /** A name the 128-byte name buffer holds with its terminating NUL. */
  predicate Storable(name: string) {
    |name| < MaxNameLength && '\0' !in name
  }

  /** One past the last data block reserved for the record. */
  function End(r: Inode): (e: nat) {
    r.firstBlock + NeededBlocks(r.size)
  }

  /** Some slot whose bitmap entry is set holds `name` (the duplicate test of
      import, which scans every slot and skips the free ones). */
  predicate NameLive(live: seq<bool>, recs: seq<Inode>, name: string)
    requires |live| == |recs|
  {
    exists i :: 0 <= i < |recs| && live[i] && recs[i].name == name
  }

  /** The lookup of export and delete: the first of the first `bound` slots
      whose stored name equals `name`, or -1. It ignores the bitmap. */
  function FindInPrefix(recs: seq<Inode>, bound: int, name: string): (p: int)
    requires bound <= |recs|
    ensures -1 <= p && p < |recs|
    ensures p == -1 <==> forall j :: 0 <= j < bound ==> recs[j].name != name
    ensures p >= 0 ==> p < bound && recs[p].name == name
    ensures p >= 0 ==> forall j :: 0 <= j < p ==> recs[j].name != name
    decreases bound
  {
    if bound <= 0 then -1
    else
      var p := FindInPrefix(recs, bound - 1, name);
      if p >= 0 then p
      else if recs[bound - 1].name == name then bound - 1
      else -1
  }

  /** The `(name, size)` pairs of the live slots, in slot order. */
  function Listing(live: seq<bool>, recs: seq<Inode>): (l: seq<Entry>)
    requires |live| == |recs|
    ensures |l| == |live| - CountFree(live)
    decreases |live|
  {
    if |live| == 0 then []
    else
      var n := |live| - 1;
      Listing(live[..n], recs[..n]) +
        (if live[n] then [Entry(recs[n].name, recs[n].size)] else [])
  }

  /** An entry is listed exactly when some live slot holds that name and size. */
  lemma {:induction false} ListingMembership(live: seq<bool>, recs: seq<Inode>, e: Entry)
    requires |live| == |recs|
    ensures e in Listing(live, recs) <==>
            exists i :: 0 <= i < |live| && live[i] && e == Entry(recs[i].name, recs[i].size)
    decreases |live|
  {
    if |live| > 0 {
      var n := |live| - 1;
      ListingMembership(live[..n], recs[..n], e);
      if e in Listing(live, recs) && e !in Listing(live[..n], recs[..n]) {
        assert live[n] && e == Entry(recs[n].name, recs[n].size);
      }
      if exists i :: 0 <= i < |live| && live[i] && e == Entry(recs[i].name, recs[i].size) {
        var i :| 0 <= i < |live| && live[i] && e == Entry(recs[i].name, recs[i].size);
        if i < n {
          assert live[..n][i] && e == Entry(recs[..n][i].name, recs[..n][i].size);
        }
      }
    }
  }

  /** A live record: a non-empty storable name and a data run inside the
      bitmap whose blocks are all marked occupied. */
  ghost predicate LiveRecord(r: Inode, used: seq<bool>) {
    r.name != "" && Storable(r.name) && End(r) <= |used| &&
    forall k :: r.firstBlock <= k < End(r) ==> used[k]
  }

  /** Two records whose data runs do not overlap. */
  ghost predicate Apart(a: Inode, b: Inode) {
    End(a) <= b.firstBlock || End(b) <= a.firstBlock
  }

  /** The invariant that import and delete keep: free slots hold erased
      records; live records own occupied, pairwise disjoint runs under
      pairwise distinct names; and every occupied block belongs to the run
      of some live record. */
  ghost predicate Consistent(live: seq<bool>, used: seq<bool>, recs: seq<Inode>) {
    && |live| == |recs|
    && (forall i :: 0 <= i < |recs| && !live[i] ==> recs[i] == Erased)
    && (forall i :: 0 <= i < |recs| && live[i] ==> LiveRecord(recs[i], used))
    && (forall i, j :: 0 <= i < |recs| && 0 <= j < |recs| && i != j && live[i] && live[j] ==>
          recs[i].name != recs[j].name && Apart(recs[i], recs[j]))
    && (forall k :: 0 <= k < |used| && used[k] ==>
          exists i :: 0 <= i < |recs| && live[i] && recs[i].firstBlock <= k < End(recs[i]))
  }

  /** A freshly formatted table is consistent. */
  lemma FormattedConsistent(n: nat, m: nat)
    ensures Consistent(Fill(n, false), Fill(m, false), seq(n, _ => Erased))
  {
  }

  /** Every record of a consistent table, live or not, has its run inside
      the data bitmap. */
  lemma RecordInRange(live: seq<bool>, used: seq<bool>, recs: seq<Inode>, i: int)
    requires Consistent(live, used, recs) && 0 <= i < |recs| && |used| > 0
    ensures End(recs[i]) <= |used|
  {
    if !live[i] {
      // an erased record reserves block 0 only
      assert End(recs[i]) == End(Erased) == 1;
    }
  }

  /** Storing a new record in a free slot, on a free run and under a name no
      live slot holds, keeps the table consistent once the slot and the run
      are marked. */
  lemma ImportKeepsConsistent(live: seq<bool>, used: seq<bool>, recs: seq<Inode>, s: int, r: Inode)
    requires Consistent(live, used, recs)
    requires 0 <= s < |live| && !live[s]
    requires r.name != "" && Storable(r.name) && !NameLive(live, recs, r.name)
    requires FreeRun(used, r.firstBlock, NeededBlocks(r.size))
    ensures Consistent(live[s := true], Marked(used, r.firstBlock, End(r), true), recs[s := r])
  {
    var live', used', recs' := live[s := true], Marked(used, r.firstBlock, End(r), true), recs[s := r];
    forall i | 0 <= i < |recs| && live[i] ensures Apart(recs[i], r) {
      // each run holds its own first block, occupied in one and free in the other
      assert used[recs[i].firstBlock];
      assert !used[r.firstBlock];
    }
    forall i | 0 <= i < |recs'| && live'[i] ensures LiveRecord(recs'[i], used') {
      if i != s {
        assert LiveRecord(recs[i], used);
      }
    }
    forall k | 0 <= k < |used'| && used'[k]
      ensures exists i :: 0 <= i < |recs'| && live'[i] && recs'[i].firstBlock <= k < End(recs'[i])
    {
      if !(r.firstBlock <= k < End(r)) {
        var i :| 0 <= i < |recs| && live[i] && recs[i].firstBlock <= k < End(recs[i]);
        assert i != s;
        assert live'[i] && recs'[i] == recs[i];
      } else {
        assert live'[s] && recs'[s] == r;
      }
    }
  }

  /** Erasing a live record, freeing its slot and clearing its run keeps the
      table consistent. */
  lemma DeleteKeepsConsistent(live: seq<bool>, used: seq<bool>, recs: seq<Inode>, p: int)
    requires Consistent(live, used, recs)
    requires 0 <= p < |live| && live[p]
    ensures Consistent(live[p := false], Marked(used, recs[p].firstBlock, End(recs[p]), false), recs[p := Erased])
  {
    var r := recs[p];
    var live', used', recs' := live[p := false], Marked(used, r.firstBlock, End(r), false), recs[p := Erased];
    forall i | 0 <= i < |recs'| && live'[i] ensures LiveRecord(recs'[i], used') {
      assert i != p && Apart(recs[i], r);
      assert LiveRecord(recs[i], used);
    }
    forall k | 0 <= k < |used'| && used'[k]
      ensures exists i :: 0 <= i < |recs'| && live'[i] && recs'[i].firstBlock <= k < End(recs'[i])
    {
      var i :| 0 <= i < |recs| && live[i] && recs[i].firstBlock <= k < End(recs[i]);
      assert i != p;
      assert live'[i] && recs'[i] == recs[i];
    }
  }

  /** In a consistent table a non-empty name found by the prefix lookup sits
      in a live slot. */
  lemma FoundNameIsLive(live: seq<bool>, used: seq<bool>, recs: seq<Inode>, bound: int, name: string)
    requires Consistent(live, used, recs) && bound <= |recs| && name != ""
    requires FindInPrefix(recs, bound, name) >= 0
    ensures live[FindInPrefix(recs, bound, name)]
  {
  }

  /** A record just stored in the lowest free slot, under a name no live slot
      holds, is what the prefix lookup finds once the slot is counted as
      taken: the slot lies inside the scanned prefix, every slot below it is
      live with another name. */
  lemma ImportedFoundByPrefix(live: seq<bool>, recs: seq<Inode>, s: int, r: Inode)
    requires |live| == |recs| && 0 <= s < |live| && !live[s]
    requires forall j :: 0 <= j < s ==> live[j]
    requires !NameLive(live, recs, r.name)
    ensures CountFree(live) > 0
    ensures FindInPrefix(recs[s := r], |live| - (CountFree(live) - 1), r.name) == s
  {
    NoneFreeIffZero(live);
    LowestFreeBound(live, s);
    var recs' := recs[s := r];
    forall j | 0 <= j < s ensures recs'[j].name != r.name {
      assert live[j] && recs'[j] == recs[j];
    }
  }

  /** The prefix lookup can miss a live file. In this consistent table the
      only live record, "b", sits in slot 1 on block 1, as after importing
      "a" and then "b" and deleting "a". With 79 slots free the lookup scans
      only slot 0, so it does not find "b". */
  lemma PrefixLookupCanMissLiveName()
    ensures var live := Marked(Fill(Inodes, false), 1, 2, true);
            var used := Marked(Fill(DataBlocks, false), 1, 2, true);
            var recs := seq(Inodes, i => if i == 1 then Inode(0, 1, "b") else Erased);
            && Consistent(live, used, recs)
            && NameLive(live, recs, "b")
            && FindInPrefix(recs, Inodes - CountFree(live), "b") == -1
  {
    var live := Marked(Fill(Inodes, false), 1, 2, true);
    var used := Marked(Fill(DataBlocks, false), 1, 2, true);
    var recs := seq(Inodes, i => if i == 1 then Inode(0, 1, "b") else Erased);
    CountFreeFill(Inodes, false);
    CountMarkedRun(Fill(Inodes, false), 1, 2, true);
    assert Inodes - CountFree(live) == 1;
    assert live[1] && recs[1].name == "b";
    forall k | 0 <= k < |used| && used[k]
      ensures exists i :: 0 <= i < |recs| && live[i] && recs[i].firstBlock <= k < End(recs[i])
    {
      assert live[1] && recs[1].firstBlock <= k < End(recs[1]);
    }
  }

  /** After a live record is deleted, the listing no longer reports its name. */
  lemma DeletedNameNotListed(live: seq<bool>, used: seq<bool>, recs: seq<Inode>, p: int, e: Entry)
    requires Consistent(live, used, recs)
    requires 0 <= p < |live| && live[p]
    requires e in Listing(live[p := false], recs[p := Erased])
    ensures e.name != recs[p].name
  {
    ListingMembership(live[p := false], recs[p := Erased], e);
    var i :| 0 <= i < |live| && live[p := false][i] && e == Entry(recs[p := Erased][i].name, recs[p := Erased][i].size);
    assert i != p && live[i];
  }
}
