/** The run-length encoding of the data bitmap that the layout report
    prints: consecutive blocks of equal state coalesced into one extent. */
module RunMap {
  import opened Layout
  import opened Bitmap

  /** One reported range: byte address in the store, block count, state. */
  datatype Extent = Extent(address: int, blocks: nat, busy: bool)

  /** Sum of the block counts. */
  function Total(es: seq<Extent>): (n: nat) {
    if es == [] then 0 else es[0].blocks + Total(es[1..])
  }

  /** The bitmap an encoding stands for: each extent contributes `blocks`
      entries of its state. */
  function Expand(es: seq<Extent>): (b: seq<bool>)
    ensures |b| == Total(es)
  {
    if es == [] then [] else Fill(es[0].blocks, es[0].busy) + Expand(es[1..])
  }

  /** No empty extent, and neighbouring extents differ in state. */
  predicate Coalesced(es: seq<Extent>) {
    && (forall k :: 0 <= k < |es| ==> es[k].blocks > 0)
    && (forall k :: 0 < k < |es| ==> es[k - 1].busy != es[k].busy)
  }

  /** Each extent's address is the byte address of its first block, the
      first extent starting at block `base` of the store. */
  predicate Addressed(es: seq<Extent>, base: int)
    decreases |es|
  {
    es == [] || (es[0].address == base * BlockSize && Addressed(es[1..], base + es[0].blocks))
  }

  lemma {:induction false} ExpandSnoc(es: seq<Extent>, x: Extent)
    ensures Expand(es + [x]) == Expand(es) + Fill(x.blocks, x.busy)
    decreases |es|
  {
    if es == [] {
      assert Expand([x]) == Fill(x.blocks, x.busy) + Expand([]);
    } else {
      assert (es + [x])[1..] == es[1..] + [x];
      ExpandSnoc(es[1..], x);
    }
  }

  lemma {:induction false} AddressedSnoc(es: seq<Extent>, x: Extent, base: int)
    requires Addressed(es, base)
    requires x.address == (base + Total(es)) * BlockSize
    ensures Addressed(es + [x], base)
    decreases |es|
  {
    if es != [] {
      assert (es + [x])[1..] == es[1..] + [x];
      AddressedSnoc(es[1..], x, base + es[0].blocks);
    }
  }

  /** `es` is a coalesced, correctly addressed encoding of `b`, its first
      extent starting at block `base`. */
  predicate Encodes(es: seq<Extent>, b: seq<bool>, base: int) {
    Expand(es) == b && Coalesced(es) && Addressed(es, base)
  }

  /** Closing the run `[start, i)` of equal entries of `b`: the encoding of
      `b[..start]` extended by one extent for that run encodes `b[..i]`. */
  lemma EmitRun(es: seq<Extent>, b: seq<bool>, base: int, start: int, i: int, e: Extent)
    requires 0 <= start < i <= |b|
    requires Encodes(es, b[..start], base)
    requires e.address == base * BlockSize + start * BlockSize && e.blocks == i - start
    requires forall k :: start <= k < i ==> b[k] == e.busy
    requires es != [] ==> es[|es| - 1].busy != e.busy
    ensures Encodes(es + [e], b[..i], base)
  {
    ExpandSnoc(es, e);
    assert e.address == (base + Total(es)) * BlockSize;
    AddressedSnoc(es, e, base);
    assert b[..i] == b[..start] + Fill(i - start, e.busy);
  }

  /** The `k`-th extent starts at block `Total(es[..k])` of the encoded
      bitmap (offset by `base`), and its address says so. */
  lemma {:induction false} AddressOfExtent(es: seq<Extent>, base: int, k: int)
    requires Addressed(es, base) && 0 <= k < |es|
    ensures es[k].address == (base + Total(es[..k])) * BlockSize
    decreases k
  {
    if k > 0 {
      AddressOfExtent(es[1..], base + es[0].blocks, k - 1);
      assert es[..k][1..] == es[1..][..k - 1];
    }
  }

  /** Every block covered by the `k`-th extent has that extent's state. */
  lemma {:induction false} StateOfExtent(es: seq<Extent>, k: int, j: int)
    requires 0 <= k < |es| && 0 <= j < es[k].blocks
    ensures Total(es[..k]) + j < |Expand(es)|
    ensures Expand(es)[Total(es[..k]) + j] == es[k].busy
    decreases k
  {
    if k == 0 {
      assert Total(es[..0]) == 0;
    } else {
      StateOfExtent(es[1..], k - 1, j);
      assert es[..k][1..] == es[1..][..k - 1];
    }
  }

  /** A coalesced, addressed encoding is determined by the bitmap it
      expands to: the report is the only one of its kind. */
  lemma {:induction false} EncodingUnique(e1: seq<Extent>, e2: seq<Extent>, base: int)
    requires Coalesced(e1) && Coalesced(e2)
    requires Addressed(e1, base) && Addressed(e2, base)
    requires Expand(e1) == Expand(e2)
    ensures e1 == e2
    decreases |e1|
  {
    if e1 != [] && e2 != [] {
      var x, y := e1[0], e2[0];
      var b := Expand(e1);
      assert b[0] == x.busy by { assert b == Fill(x.blocks, x.busy) + Expand(e1[1..]); }
      assert b[0] == y.busy by { assert b == Fill(y.blocks, y.busy) + Expand(e2[1..]); }
      LeadingRun(e1);
      LeadingRun(e2);
      // both first extents are the leading run of b[0]'s state
      assert x.blocks == y.blocks;
      assert Expand(e1[1..]) == b[x.blocks..] == Expand(e2[1..]);
      EncodingUnique(e1[1..], e2[1..], base + x.blocks);
      assert e1 == [x] + e1[1..];
      assert e2 == [y] + e2[1..];
    }
  }

  /** The first extent of a coalesced encoding is the whole leading run of
      its state: the entry right after it, if any, differs. */
  lemma LeadingRun(es: seq<Extent>)
    requires Coalesced(es) && es != []
    ensures es[0].blocks <= |Expand(es)|
    ensures forall i :: 0 <= i < es[0].blocks ==> Expand(es)[i] == es[0].busy
    ensures es[0].blocks < |Expand(es)| ==> Expand(es)[es[0].blocks] != es[0].busy
  {
    var rest := es[1..];
    assert Expand(es) == Fill(es[0].blocks, es[0].busy) + Expand(rest);
    if rest != [] {
      assert Expand(rest) == Fill(rest[0].blocks, rest[0].busy) + Expand(rest[1..]);
      assert rest[0].blocks > 0;
      assert Expand(rest)[0] == rest[0].busy;
    }
  }
}
