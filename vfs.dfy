/** The virtual file system: superblock, both bitmaps, the inode table and
    the data region held in memory, and the operations that format, import,
    export, delete, list and map. */
module FileSystem {
  import opened Layout
  import opened Bitmap
  import opened InodeTable
  import opened RunMap
  import opened Transfer

  datatype Option<T> = None | Some(value: T)

  /** Why an import stopped before writing anything. */
  datatype ImportError =
    | SourceMissing   // the source file cannot be opened
    | NoStore         // the backing store does not exist
    | NoFreeInode     // the free-inode counter is zero
    | DuplicateName   // a live record already has the name
    | NoSpace         // fewer free data blocks than the file needs
    | RunNotFound     // no contiguous free run is long enough

  datatype ImportResult = Imported(slot: nat, firstBlock: nat) | Rejected(error: ImportError)

  datatype ExportResult = Exported(copyName: string, bytes: seq<byte>) | NotFound

  datatype AreaKind = SuperblockArea | InodeBitmapArea | DataBitmapArea | InodeTableArea

  /** A fixed region of the layout report: byte address and block count. */
  datatype Area = Area(kind: AreaKind, address: int, blocks: nat)

  /** The layout report: the four fixed regions, then the data region
      run-length encoded. */
  datatype LayoutReport = LayoutReport(areas: seq<Area>, extents: seq<Extent>)

  /** Storing a record in a free slot, on a free run, keeps the table
      consistent and lowers each free count by what was taken. */
  lemma StoreKeepsCounts(live: seq<bool>, used: seq<bool>, recs: seq<Inode>, s: int, r: Inode)
    requires Consistent(live, used, recs)
    requires 0 <= s < |live| && !live[s]
    requires r.name != "" && Storable(r.name) && !NameLive(live, recs, r.name)
    requires FreeRun(used, r.firstBlock, NeededBlocks(r.size))
    ensures CountFree(live[s := true]) == CountFree(live) - 1
    ensures CountFree(Marked(used, r.firstBlock, End(r), true)) == CountFree(used) - NeededBlocks(r.size)
    ensures Consistent(live[s := true], Marked(used, r.firstBlock, End(r), true), recs[s := r])
  {
    assert live[s := true] == Marked(live, s, s + 1, true);
    CountMarkedRun(live, s, s + 1, true);
    CountMarkedRun(used, r.firstBlock, End(r), true);
    ImportKeepsConsistent(live, used, recs, s, r);
  }

  /** Erasing a live record keeps the table consistent and raises each free
      count by what was given back. */
  lemma EraseKeepsCounts(live: seq<bool>, used: seq<bool>, recs: seq<Inode>, p: int)
    requires Consistent(live, used, recs)
    requires 0 <= p < |live| && live[p]
    ensures CountFree(live[p := false]) == CountFree(live) + 1
    ensures CountFree(Marked(used, recs[p].firstBlock, End(recs[p]), false)) == CountFree(used) + NeededBlocks(recs[p].size)
    ensures Consistent(live[p := false], Marked(used, recs[p].firstBlock, End(recs[p]), false), recs[p := Erased])
  {
    assert live[p := false] == Marked(live, p, p + 1, false);
    CountMarkedRun(live, p, p + 1, false);
    CountMarkedRun(used, recs[p].firstBlock, End(recs[p]), false);
    DeleteKeepsConsistent(live, used, recs, p);
  }

  class Vfs {
    /** Whether the backing store is present. */
    var present: bool

    // superblock
    var freeDataBlocks: int
    var freeInodes: int
    var inodeBitmapOffset: int
    var dataBitmapOffset: int
    var inodeTableOffset: int
    var dataOffset: int

    const inodeBitmap: array<bool>
    const dataBitmap: array<bool>
    const inodes: array<Inode>
    /** The data region: block `b` of it is bytes `[b * BlockSize, (b + 1) * BlockSize)`. */
    const data: array<byte>

    /** Shape of the store, and the offsets that formatting fixes. */
    ghost predicate Wf()
      reads this
    {
      && inodeBitmap.Length == Inodes && dataBitmap.Length == DataBlocks
      && inodes.Length == Inodes && data.Length == DataBlocks * BlockSize
      && inodeBitmap != dataBitmap
      && (present ==>
            && inodeBitmapOffset == InodeBitmapBlock && dataBitmapOffset == DataBitmapBlock
            && inodeTableOffset == InodeTableBlock && dataOffset == DataRegionBlock)
    }

    /** The superblock counters count the clear bitmap entries, and the inode
        table agrees with both bitmaps. */
    ghost predicate Valid()
      reads this, inodeBitmap, dataBitmap, inodes
    {
      Wf() && (present ==>
        && freeInodes == CountFree(inodeBitmap[..])
        && freeDataBlocks == CountFree(dataBitmap[..])
        && Consistent(inodeBitmap[..], dataBitmap[..], inodes[..]))
    }

    /** No backing store yet. */
    constructor ()
      ensures Valid() && !present
      ensures fresh(inodeBitmap) && fresh(dataBitmap) && fresh(inodes) && fresh(data)
    {
      present := false;
      freeDataBlocks, freeInodes := 0, 0;
      inodeBitmapOffset, dataBitmapOffset, inodeTableOffset, dataOffset := 0, 0, 0, 0;
      inodeBitmap := new bool[Inodes];
      dataBitmap := new bool[DataBlocks];
      inodes := new Inode[Inodes](_ => Erased);
      data := new byte[DataBlocks * BlockSize];
    }

    /** The zero fill of create_vfs: every byte of the new backing file is
        zero, so every data byte is 0 and every inode record reads as erased. */
    method ZeroFill()
      requires Wf()
      modifies data, inodes
      ensures forall k :: 0 <= k < data.Length ==> data[k] == 0
      ensures inodes[..] == seq(Inodes, _ => Erased)
    {
      for i := 0 to data.Length
        modifies data
        invariant forall k :: 0 <= k < i ==> data[k] == 0
      {
        data[i] := 0;
      }
      for i := 0 to Inodes
        modifies inodes
        invariant forall k :: 0 <= k < i ==> inodes[k] == Erased
      {
        inodes[i] := Erased;
      }
      assert inodes[..] == seq(Inodes, _ => Erased);
    }

    /** The bitmap loops of create_vfs: every entry of both bitmaps is clear. */
    method ClearBitmaps()
      requires Wf()
      modifies inodeBitmap, dataBitmap
      ensures inodeBitmap[..] == Fill(Inodes, false) && dataBitmap[..] == Fill(DataBlocks, false)
    {
      for i := 0 to Inodes
        modifies inodeBitmap
        invariant forall k :: 0 <= k < i ==> !inodeBitmap[k]
      {
        inodeBitmap[i] := false;
      }
      for i := 0 to DataBlocks
        modifies dataBitmap
        invariant forall k :: 0 <= k < i ==> !dataBitmap[k]
        invariant inodeBitmap[..] == Fill(Inodes, false)
      {
        dataBitmap[i] := false;
      }
      assert dataBitmap[..] == Fill(DataBlocks, false);
    }

    /** create_vfs: refuses when the store is present; otherwise zero-fills it,
        writes the superblock with full counters and clears both bitmaps. */
    method Format() returns (created: bool)
      requires Valid()
      modifies this, inodeBitmap, dataBitmap, inodes, data
      ensures Valid() && present
      ensures created == !old(present)
      ensures !created ==> unchanged(this, inodeBitmap, dataBitmap, inodes, data)
      ensures created ==> freeInodes == Inodes && freeDataBlocks == DataBlocks
      ensures created ==> inodeBitmap[..] == Fill(Inodes, false) && dataBitmap[..] == Fill(DataBlocks, false)
      ensures created ==> inodes[..] == seq(Inodes, _ => Erased)
      ensures created ==> forall k :: 0 <= k < data.Length ==> data[k] == 0
    {
      if present {
        return false;
      }
      ZeroFill();
      freeInodes := Inodes;
      freeDataBlocks := DataBlocks;
      inodeBitmapOffset := InodeBitmapBlock;
      dataBitmapOffset := DataBitmapBlock;
      inodeTableOffset := InodeTableBlock;
      dataOffset := DataRegionBlock;
      ClearBitmaps();
      present := true;
      CountFreeFill(Inodes, false);
      CountFreeFill(DataBlocks, false);
      FormattedConsistent(Inodes, DataBlocks);
      created := true;
    }

    /** remove_vfs: deletes the backing store if there is one. */
    method Remove() returns (removed: bool)
      requires Wf()
      modifies this
      ensures Valid() && !present
      ensures removed == old(present)
      ensures freeDataBlocks == old(freeDataBlocks) && freeInodes == old(freeInodes)
      ensures inodeBitmapOffset == old(inodeBitmapOffset) && dataBitmapOffset == old(dataBitmapOffset)
      ensures inodeTableOffset == old(inodeTableOffset) && dataOffset == old(dataOffset)
    {
      removed := present;
      present := false;
    }

    /** store_data_on_vfs: streams `src` into the data region from the start
        of block `firstBlock`, one block-sized chunk at a time with a short
        final chunk. */
    method CopyIn(firstBlock: nat, src: seq<byte>) returns (ghost chunks: seq<nat>)
      requires Wf() && firstBlock * BlockSize + |src| <= data.Length
      modifies data
      ensures data[..] == Overwrite(old(data[..]), firstBlock * BlockSize, src)
      ensures chunks == ChunkSizes(|src|)
    {
      var base := firstBlock * BlockSize;
      var count := BlockSize;
      var i := |src|;
      var done := 0;
      chunks := [];
      while i > 0
        invariant 0 <= done <= |src| && 0 <= i && done + i == |src|
        invariant i > 0 ==> count == BlockSize
        invariant data[..] == Overwrite(old(data[..]), base, src[..done])
        invariant chunks + ChunkSizes(i) == ChunkSizes(|src|)
      {
        if i < BlockSize {
          count := i;
        }
        ChunkAppend(chunks, i, |src|);
        assert count == FirstChunk(i);
        var buf := src[done..done + count];
        WriteChunk(base + done, buf);
        OverwriteExtend(old(data[..]), base, src, done, count);
        chunks := chunks + [count];
        i := i - count;
        done := done + count;
      }
      assert src[..done] == src;
    }

    /** One `fwrite` of the copy-in loop: `buf` lands at byte `at` of the
        data region. */
    method WriteChunk(at: nat, buf: seq<byte>)
      requires Wf() && at + |buf| <= data.Length
      modifies data
      ensures data[..] == Overwrite(old(data[..]), at, buf)
    {
      forall k | 0 <= k < |buf| {
        data[at + k] := buf[k];
      }
    }

    /** write_content_to_new_file: streams the `size` bytes of `rec`'s run
        out, chunk by chunk, into an artifact named "copy_" + `name`. */
    method CopyOut(name: string, rec: Inode) returns (copyName: string, bytes: seq<byte>, ghost chunks: seq<nat>)
      requires Wf() && rec.firstBlock * BlockSize + rec.size <= data.Length
      ensures copyName == "copy_" + name
      ensures bytes == data[rec.firstBlock * BlockSize .. rec.firstBlock * BlockSize + rec.size]
      ensures chunks == ChunkSizes(rec.size)
    {
      copyName := "copy_" + name;
      var base := rec.firstBlock * BlockSize;
      var size := rec.size;
      var count := BlockSize;
      bytes := [];
      chunks := [];
      while size > 0
        invariant 0 <= size && |bytes| + size == rec.size
        invariant size > 0 ==> count == BlockSize
        invariant bytes == data[base .. base + |bytes|]
        invariant chunks + ChunkSizes(size) == ChunkSizes(rec.size)
      {
        if size < BlockSize {
          count := size;
        }
        ChunkAppend(chunks, size, rec.size);
        assert count == FirstChunk(size);
        var buf := data[base + |bytes| .. base + |bytes| + count];
        assert data[base .. base + |bytes| + count] == data[base .. base + |bytes|] + buf;
        bytes := bytes + buf;
        chunks := chunks + [count];
        size := size - count;
      }
    }

    /** The bitmap update loops of import and delete: every data-bitmap
        entry in `[lo, hi)` becomes `v`. */
    method MarkRun(lo: int, hi: int, v: bool)
      requires Wf() && 0 <= lo <= hi <= DataBlocks
      modifies dataBitmap
      ensures dataBitmap[..] == Marked(old(dataBitmap[..]), lo, hi, v)
    {
      for i := lo to hi
        invariant forall k :: 0 <= k < DataBlocks ==>
                    dataBitmap[k] == (if lo <= k < i then v else old(dataBitmap[k]))
      {
        dataBitmap[i] := v;
      }
    }

    /** is_unique: -1 when a slot whose bitmap entry is set holds `name`. */
    method IsUnique(name: string) returns (r: int)
      requires Wf()
      ensures r == 0 || r == -1
      ensures r == -1 <==> NameLive(inodeBitmap[..], inodes[..], name)
    {
      var index := 0;
      while index < Inodes
        invariant 0 <= index <= Inodes
        invariant forall j :: 0 <= j < index && inodeBitmap[j] ==> inodes[j].name != name
      {
        if inodeBitmap[index] && inodes[index].name == name {
          assert inodeBitmap[..][index] && inodes[..][index].name == name;
          return -1;
        }
        index := index + 1;
      }
      return 0;
    }

    /** The lookup of copy_from_vfs and remove_from_vfs: scans the first
        `Inodes - freeInodes` slots by name, whatever their bitmap entries. */
    method LookupPrefix(name: string) returns (p: int)
      requires Wf() && 0 <= freeInodes <= Inodes
      ensures p == FindInPrefix(inodes[..], Inodes - freeInodes, name)
    {
      var bound := Inodes - freeInodes;
      var i := 0;
      while i < bound
        invariant 0 <= i <= bound
        invariant forall j :: 0 <= j < i ==> inodes[j].name != name
      {
        if inodes[i].name == name {
          return i;
        }
        i := i + 1;
      }
      return -1;
    }

    /** The first check of copy_on_vfs that fails, in the order the C code
        makes them, or None when the import goes ahead. */
    ghost function Rejection(name: string, src: Option<seq<byte>>): Option<ImportError>
      reads this, inodeBitmap, dataBitmap, inodes
      requires Wf()
    {
      if src.None? || name == "" then Some(SourceMissing)
      else if !present then Some(NoStore)
      else if freeInodes == 0 then Some(NoFreeInode)
      else if NameLive(inodeBitmap[..], inodes[..], name) then Some(DuplicateName)
      else if freeDataBlocks < NeededBlocks(|src.value|) then Some(NoSpace)
      else if forall s :: !FreeRun(dataBitmap[..], s, NeededBlocks(|src.value|)) then Some(RunNotFound)
      else None
    }

    /** copy_on_vfs: imports the bytes `src` (None when the source cannot be
        opened) under `name`. A rejection changes nothing; a success stores
        the bytes on the lowest-starting free run, writes the record into
        the lowest free slot, marks both and takes the counters down. */
    method Import(name: string, src: Option<seq<byte>>) returns (r: ImportResult)
      requires Valid() && Storable(name)
      modifies this, inodeBitmap, dataBitmap, inodes, data
      ensures Valid() && present == old(present)
      ensures r.Rejected? <==> old(Rejection(name, src)).Some?
      ensures r.Rejected? ==> r.error == old(Rejection(name, src)).value
      ensures r.Rejected? ==> unchanged(this, inodeBitmap, dataBitmap, inodes, data)
      ensures r.Imported? ==>
        var bytes, n := src.value, NeededBlocks(|src.value|);
        && r.slot < Inodes && !old(inodeBitmap[..])[r.slot]
        && (forall j :: 0 <= j < r.slot ==> old(inodeBitmap[..])[j])
        && FreeRun(old(dataBitmap[..]), r.firstBlock, n)
        && (forall s :: 0 <= s < r.firstBlock ==> !FreeRun(old(dataBitmap[..]), s, n))
        && inodes[..] == old(inodes[..])[r.slot := Inode(|bytes|, r.firstBlock, name)]
        && inodeBitmap[..] == old(inodeBitmap[..])[r.slot := true]
        && dataBitmap[..] == Marked(old(dataBitmap[..]), r.firstBlock, r.firstBlock + n, true)
        && data[..] == Overwrite(old(data[..]), r.firstBlock * BlockSize, bytes)
        && freeInodes == old(freeInodes) - 1
        && freeDataBlocks == old(freeDataBlocks) - n
    {
      if src.None? || name == "" {
        return Rejected(SourceMissing);
      }
      if !present {
        return Rejected(NoStore);
      }
      if freeInodes == 0 {
        return Rejected(NoFreeInode);
      }
      var unique := IsUnique(name);
      if unique == -1 {
        return Rejected(DuplicateName);
      }
      var bytes := src.value;
      var needed := NeededBlocks(|bytes|);
      if freeDataBlocks < needed {
        return Rejected(NoSpace);
      }
      var dataSpace, found := FindDataSpace(needed, dataBitmap);
      if !found {
        // the C code goes on and writes past the end of the data bitmap
        return Rejected(RunNotFound);
      }
      NoneFreeIffZero(inodeBitmap[..]);
      var inodeSpace := FindInodeSpace(inodeBitmap);

      Store(name, bytes, inodeSpace, dataSpace);
      r := Imported(inodeSpace, dataSpace);
    }

    /** The writing half of copy_on_vfs, once every check has passed: the
        bytes go to the run from block `first`, the record to slot `slot`,
        both are marked and the counters lowered. */
    method Store(name: string, bytes: seq<byte>, slot: int, first: int)
      requires Valid() && present
      requires name != "" && Storable(name) && !NameLive(inodeBitmap[..], inodes[..], name)
      requires 0 <= slot < Inodes && !inodeBitmap[slot]
      requires FreeRun(dataBitmap[..], first, NeededBlocks(|bytes|))
      modifies this, inodeBitmap, dataBitmap, inodes, data
      ensures Valid() && present
      ensures var n := NeededBlocks(|bytes|);
        && inodes[..] == old(inodes[..])[slot := Inode(|bytes|, first, name)]
        && inodeBitmap[..] == old(inodeBitmap[..])[slot := true]
        && dataBitmap[..] == Marked(old(dataBitmap[..]), first, first + n, true)
        && data[..] == Overwrite(old(data[..]), first * BlockSize, bytes)
        && freeInodes == old(freeInodes) - 1
        && freeDataBlocks == old(freeDataBlocks) - n
    {
      ghost var live, used, recs := inodeBitmap[..], dataBitmap[..], inodes[..];
      var needed := NeededBlocks(|bytes|);
      var rec := Inode(|bytes|, first, name);
      NeededBlocksFits(first, |bytes|);
      ghost var chunks := CopyIn(first, bytes);
      inodes[slot] := rec;
      assert inodes[..] == recs[slot := rec];
      MarkRun(first, first + needed, true);
      assert dataBitmap[..] == Marked(used, rec.firstBlock, End(rec), true);
      inodeBitmap[slot] := true;
      assert inodeBitmap[..] == live[slot := true];
      freeDataBlocks := freeDataBlocks - needed;
      freeInodes := freeInodes - 1;
      StoreKeepsCounts(live, used, recs, slot, rec);
    }

    /** copy_from_vfs: exports the bytes of the first record among the first
        `Inodes - freeInodes` slots whose name is `name`. */
    method Export(name: string) returns (r: ExportResult)
      requires Valid() && present
      ensures var p := FindInPrefix(inodes[..], Inodes - freeInodes, name);
        && (r.NotFound? <==> p == -1)
        && (p >= 0 ==>
              var rec := inodes[p];
              && rec.firstBlock * BlockSize + rec.size <= data.Length
              && r == Exported("copy_" + name, data[rec.firstBlock * BlockSize .. rec.firstBlock * BlockSize + rec.size]))
    {
      var p := LookupPrefix(name);
      if p == -1 {
        return NotFound;
      }
      var rec := inodes[p];
      RecordInRange(inodeBitmap[..], dataBitmap[..], inodes[..], p);
      NeededBlocksFits(rec.firstBlock, rec.size);
      var copyName, bytes;
      ghost var chunks;
      copyName, bytes, chunks := CopyOut(name, rec);
      r := Exported(copyName, bytes);
    }

    /** The update half of remove_from_vfs: zeroes the record in slot `p`,
        clears the slot and the `size / 4096 + 1` blocks from the record's
        first block, and gives the counters back. Erasing a live record keeps
        the invariant. */
    method Erase(p: int)
      requires Valid() && present && 0 <= p < Inodes
      modifies this, inodeBitmap, dataBitmap, inodes
      ensures Wf() && present
      ensures old(inodeBitmap[p]) ==> Valid()
      ensures var rec := old(inodes[p]);
        && inodes[..] == old(inodes[..])[p := Erased]
        && inodeBitmap[..] == old(inodeBitmap[..])[p := false]
        && dataBitmap[..] == Marked(old(dataBitmap[..]), rec.firstBlock, rec.firstBlock + NeededBlocks(rec.size), false)
        && freeDataBlocks == old(freeDataBlocks) + NeededBlocks(rec.size)
        && freeInodes == old(freeInodes) + 1
    {
      ghost var live, used, recs := inodeBitmap[..], dataBitmap[..], inodes[..];
      var rec := inodes[p];
      assert rec == recs[p];
      RecordInRange(live, used, recs, p);
      inodes[p] := Erased;
      assert inodes[..] == recs[p := Erased];
      inodeBitmap[p] := false;
      assert inodeBitmap[..] == live[p := false];
      // the block-count rule, recomputed from the stored size
      var occupied := NeededBlocks(rec.size);
      MarkRun(rec.firstBlock, rec.firstBlock + occupied, false);
      freeDataBlocks := freeDataBlocks + occupied;
      freeInodes := freeInodes + 1;
      if live[p] {
        EraseKeepsCounts(live, used, recs, p);
      }
    }

    /** remove_from_vfs: erases the first record among the first
        `Inodes - freeInodes` slots whose name is `name`; -1 when there is
        none. */
    method Delete(name: string) returns (r: int)
      requires Valid() && present
      modifies this, inodeBitmap, dataBitmap, inodes
      ensures Wf() && present
      ensures name != "" ==> Valid()
      ensures var p := FindInPrefix(old(inodes[..]), Inodes - old(freeInodes), name);
        && (p == -1 ==> r == -1 && unchanged(this, inodeBitmap, dataBitmap, inodes))
        && (p >= 0 ==>
              var rec := old(inodes[..])[p];
              var n := NeededBlocks(rec.size);
              && r == 0
              && inodes[..] == old(inodes[..])[p := Erased]
              && inodeBitmap[..] == old(inodeBitmap[..])[p := false]
              && dataBitmap[..] == Marked(old(dataBitmap[..]), rec.firstBlock, rec.firstBlock + n, false)
              && freeDataBlocks == old(freeDataBlocks) + n
              && freeInodes == old(freeInodes) + 1)
    {
      var p := LookupPrefix(name);
      if p == -1 {
        return -1;
      }
      if name != "" {
        FoundNameIsLive(inodeBitmap[..], dataBitmap[..], inodes[..], Inodes - freeInodes, name);
        assert inodeBitmap[p];
      }
      Erase(p);
      r := 0;
    }

    /** list_vfs: name and size of every slot whose bitmap entry is set, in
        slot order; None when there is no store. */
    method List() returns (r: Option<seq<Entry>>)
      requires Wf()
      ensures r.None? <==> !present
      ensures r.Some? ==> r.value == Listing(inodeBitmap[..], inodes[..])
    {
      if !present {
        return None;
      }
      var out: seq<Entry> := [];
      var index := 0;
      while index < Inodes
        invariant 0 <= index <= Inodes
        invariant out == Listing(inodeBitmap[..index], inodes[..index])
      {
        assert inodeBitmap[..index + 1][..index] == inodeBitmap[..index];
        assert inodes[..index + 1][..index] == inodes[..index];
        if inodeBitmap[index] {
          out := out + [Entry(inodes[index].name, inodes[index].size)];
        }
        index := index + 1;
      }
      assert inodeBitmap[..Inodes] == inodeBitmap[..];
      assert inodes[..Inodes] == inodes[..];
      return Some(out);
    }

    /** map_vfs: the four fixed regions, then the data bitmap coalesced into
        runs of equal state, each with the byte address of its first block
        and its block count; None when there is no store. */
    method Map() returns (r: Option<LayoutReport>)
      requires Wf()
      ensures r.None? <==> !present
      ensures r.Some? ==> r.value.areas == [
                Area(SuperblockArea, 0, 1),
                Area(InodeBitmapArea, InodeBitmapBlock * BlockSize, 1),
                Area(DataBitmapArea, DataBitmapBlock * BlockSize, 1),
                Area(InodeTableArea, InodeTableBlock * BlockSize, InodeBlocks)]
      ensures r.Some? ==>
                var es := r.value.extents;
                && Expand(es) == dataBitmap[..]
                && Coalesced(es)
                && Addressed(es, DataRegionBlock)
                && Total(es) == DataBlocks
    {
      if !present {
        return None;
      }
      var areas := [
        Area(SuperblockArea, 0, 1),
        Area(InodeBitmapArea, inodeBitmapOffset * BlockSize, 1),
        Area(DataBitmapArea, dataBitmapOffset * BlockSize, 1),
        Area(InodeTableArea, inodeTableOffset * BlockSize, InodeBlocks)];
      var addrCounter := dataOffset * BlockSize;
      var nBlocks: nat := 0;
      var currentState := false;
      var extents: seq<Extent> := [];
      ghost var start := 0;
      ghost var bits := dataBitmap[..];
      // i == DataBlocks is the end sentinel: it closes the last run
      for i := 0 to DataBlocks + 1
        invariant 0 <= start <= DataBlocks && start <= i
        invariant i > 0 ==> start < i
        invariant i == DataBlocks + 1 ==> start == DataBlocks
        invariant nBlocks == i - start
        invariant addrCounter == dataOffset * BlockSize + start * BlockSize
        invariant Encodes(extents, bits[..start], dataOffset)
        invariant forall k :: start <= k < i && k < DataBlocks ==> bits[k] == currentState
        invariant start < DataBlocks && extents != [] ==> extents[|extents| - 1].busy != currentState
      {
        if i == 0 {
          currentState := dataBitmap[0];
        }
        if i == DataBlocks || dataBitmap[i] != currentState {
          var e := Extent(addrCounter, nBlocks, currentState);
          EmitRun(extents, bits, dataOffset, start, i, e);
          extents := extents + [e];
          addrCounter := dataOffset * BlockSize + i * BlockSize;
          if i < DataBlocks {
            currentState := dataBitmap[i];
          }
          nBlocks := 0;
          start := i;
        }
        nBlocks := nBlocks + 1;
      }
      assert bits[..DataBlocks] == bits;
      r := Some(LayoutReport(areas, extents));
    }

    /** Importing a file and deleting it again gives back both bitmaps, both
        counters and the inode table as they were. */
    method ImportThenDelete(name: string, bytes: seq<byte>) returns (imported: ImportResult, deleted: int)
      requires Valid() && Storable(name)
      modifies this, inodeBitmap, dataBitmap, inodes, data
      ensures imported.Imported? ==> deleted == 0 && Valid()
      ensures imported.Imported? ==>
                && inodeBitmap[..] == old(inodeBitmap[..]) && dataBitmap[..] == old(dataBitmap[..])
                && inodes[..] == old(inodes[..])
                && freeInodes == old(freeInodes) && freeDataBlocks == old(freeDataBlocks)
    {
      ghost var live, used, recs := inodeBitmap[..], dataBitmap[..], inodes[..];
      imported := Import(name, Some(bytes));
      deleted := -1;
      if imported.Imported? {
        var s, first := imported.slot, imported.firstBlock;
        ghost var rec := Inode(|bytes|, first, name);
        assert !NameLive(live, recs, name);
        ImportedFoundByPrefix(live, recs, s, rec);
        ghost var live1, recs1 := inodeBitmap[..], inodes[..];
        assert recs1 == recs[s := rec] && live1 == live[s := true];
        assert recs[s] == Erased;
        deleted := Delete(name);
        assert inodes[..] == recs1[s := Erased] && inodeBitmap[..] == live1[s := false];
        assert recs1[s := Erased] == recs;
        assert live1[s := false] == live;
        MarkThenClear(used, first, first + NeededBlocks(|bytes|));
      }
    }

    /** Exporting a file right after importing it yields the imported bytes
        under the "copy_" name. */
    method ImportThenExport(name: string, bytes: seq<byte>) returns (imported: ImportResult, exported: ExportResult)
      requires Valid() && Storable(name)
      modifies this, inodeBitmap, dataBitmap, inodes, data
      ensures imported.Imported? ==> exported == Exported("copy_" + name, bytes)
    {
      ghost var live, recs := inodeBitmap[..], inodes[..];
      imported := Import(name, Some(bytes));
      exported := NotFound;
      if imported.Imported? {
        var s := imported.slot;
        assert !NameLive(live, recs, name);
        ImportedFoundByPrefix(live, recs, s, Inode(|bytes|, imported.firstBlock, name));
        exported := Export(name);
        OverwriteReadBack(old(data[..]), imported.firstBlock * BlockSize, bytes);
      }
    }
  }

  /** A new store formatted from scratch: the first step of every session of
      the program. It is present, keeps the invariant, and has every inode and
      every data block free. */
  method NewFormatted() returns (fs: Vfs)
    ensures fresh(fs) && fs.Valid() && fs.present
    ensures fs.freeInodes == Inodes && fs.freeDataBlocks == DataBlocks
    ensures fs.inodeBitmap[..] == Fill(Inodes, false) && fs.dataBitmap[..] == Fill(DataBlocks, false)
  {
    fs := new Vfs();
    var created := fs.Format();
  }
}
