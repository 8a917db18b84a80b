/** The space inside a page at the level of bytes: freeblocks threaded through the page, two-byte
    pointers, and the moves of defragmentPage. */
module PageSpace {
  import opened ByteTypes
  import opened PageBytes
  import opened Regions
  import opened PageLayout

  /** Address of the pointer to freeblock i; one past the last is the end of the list. */
  function Addr(g: Geometry, blocks: seq<Region>, i: nat): nat
    requires i <= |blocks|
  {
    if i == 0 then g.hdr + 1 else blocks[i - 1].start
  }

  function NextOf(blocks: seq<Region>, i: nat): nat { if i < |blocks| then blocks[i].start else 0 }

  ghost predicate Link(g: Geometry, d: seq<byte>, blocks: seq<Region>, i: nat)
    requires i <= |blocks|
  {
    Addr(g, blocks, i) + 2 <= |d| && Get2(d, Addr(g, blocks, i)) == NextOf(blocks, i)
  }

  ghost predicate SizeField(d: seq<byte>, b: Region) { b.start + 4 <= |d| && Get2(d, b.start + 2) == b.size }

  /** The freeblocks are a list threaded through the page. */
  ghost predicate Chain(g: Geometry, d: seq<byte>, blocks: seq<Region>) {
    (forall i :: 0 <= i <= |blocks| ==> Link(g, d, blocks, i))
        && (forall i :: 0 <= i < |blocks| ==> SizeField(d, blocks[i]))
  }

  /** The header and the freeblocks say which parts of the content area are free. */
  ghost predicate EncFree(g: Geometry, d: seq<byte>, v: View) {
    g.usable <= |d| && g.hdr + 8 <= |d| && d[g.hdr + 7] == v.frag && Chain(g, d, v.blocks)
  }

  /** The header says also where the content area starts. */
  ghost predicate EncSpace(g: Geometry, d: seq<byte>, v: View) {
    EncFree(g, d, v) && Get2(d, g.hdr + 5) == v.top % 0x1_0000
  }

  ghost predicate Pointer(g: Geometry, d: seq<byte>, i: nat, r: Region) {
    g.cellOffset + 2 * i + 2 <= |d| && Get2(d, g.cellOffset + 2 * i) == r.start
  }

  /** The header and the pointer array say where the cells are. */
  ghost predicate EncCells(g: Geometry, d: seq<byte>, cells: seq<Region>) {
    g.hdr + 8 <= |d| && Get2(d, g.hdr + 3) == |cells| && forall i :: 0 <= i < |cells| ==> Pointer(g, d, i, cells[i])
  }

  /** The bytes of a region. */
  function Content(d: seq<byte>, r: Region): seq<byte> { if r.End() <= |d| then d[r.start..r.End()] else [] }

  /** The cells of a page, in order. */
  function Contents(d: seq<byte>, cells: seq<Region>): (c: seq<seq<byte>>)
    ensures |c| == |cells|
  {
    seq(|cells|, i requires 0 <= i < |cells| => Content(d, cells[i]))
  }

  // ----- What writes leave alone

  /** d' differs from d at most at the addresses in s. */
  ghost predicate SameExcept(d: seq<byte>, d': seq<byte>, s: set<nat>) {
    |d| == |d'| && forall i :: 0 <= i < |d| && i !in s ==> d'[i] == d[i]
  }

  lemma PutSame(d: seq<byte>, d': seq<byte>, s: set<nat>, a: nat, x: nat)
    requires SameExcept(d, d', s) && a + 2 <= |d|
    ensures SameExcept(d, Put2(d', a, x), s + {a, a + 1})
  {
  }

  lemma GetKept(d: seq<byte>, d': seq<byte>, s: set<nat>, a: nat)
    requires SameExcept(d, d', s) && a + 2 <= |d| && a !in s && a + 1 !in s
    ensures Get2(d', a) == Get2(d, a)
  {
  }

  lemma ContentKept(d: seq<byte>, d': seq<byte>, s: set<nat>, r: Region)
    requires SameExcept(d, d', s) && forall x :: x in s ==> x < r.start || r.End() <= x
    ensures Content(d', r) == Content(d, r)
  {
  }

  /** What is before the header, the page type, the right child and what is behind the usable part stay. */
  ghost predicate Framed(g: Geometry, d: seq<byte>, d': seq<byte>) {
    && |d'| == |d|
    && forall x :: 0 <= x < |d| && (x <= g.hdr || g.hdr + 8 <= x < g.cellOffset || g.usable <= x) ==> d'[x] == d[x]
  }

  lemma FramedBy(g: Geometry, d: seq<byte>, d': seq<byte>, s: set<nat>)
    requires GeometryOk(g) && SameExcept(d, d', s)
    requires forall x :: x in s ==> g.hdr < x < g.hdr + 8 || g.cellOffset <= x < g.usable
    ensures Framed(g, d, d')
  {
  }

  lemma FramedTwice(g: Geometry, d: seq<byte>, d1: seq<byte>, d2: seq<byte>)
    requires Framed(g, d, d1) && Framed(g, d1, d2)
    ensures Framed(g, d, d2)
  {
  }

  lemma FramedRange(g: Geometry, d: seq<byte>, d': seq<byte>, lo: nat, hi: nat)
    requires SameOutside(d, d', lo, hi) && GeometryOk(g) && g.cellOffset <= lo && hi <= g.usable
    ensures Framed(g, d, d')
  {
    forall x | 0 <= x < |d| && (x <= g.hdr || g.hdr + 8 <= x < g.cellOffset || g.usable <= x) ensures d'[x] == d[x] {
      assert x < lo || hi <= x;
    }
  }

  // ----- Freeing

  /** Walks the freeblocks up to the place for start. */
  method FindPlace(g: Geometry, d: seq<byte>, start: nat, ghost v: View)
    returns (ok: bool, iPtr: nat, iFree: nat, ghost k: nat)
    requires GeometryOk(g) && Inside(v.blocks, v.top + 1, g.usable) && Ascending(v.blocks) && EncSpace(g, d, v)
             && GapStart(g, v) <= v.top
    requires forall i :: 0 <= i < |v.blocks| ==> v.blocks[i].start != start
    ensures ok && PlaceOf(v.blocks, start, k) && iPtr == Addr(g, v.blocks, k) && iFree == NextOf(v.blocks, k)
  {
    ok, iPtr, k := true, g.hdr + 1, 0;
    assert Link(g, d, v.blocks, 0);
    iFree := Get2(d, iPtr);
    while iFree < start
      invariant ok && k <= |v.blocks| && iPtr == Addr(g, v.blocks, k) && iFree == NextOf(v.blocks, k)
      invariant forall i :: 0 <= i < k ==> v.blocks[i].start < start
      decreases |v.blocks| - k
    {
      if k < |v.blocks| && k > 0 { OtherBlock(v.blocks, k, k - 1); }
      if iFree < iPtr + 4 {
        if iFree == 0 { break; }
        ok := false;
        return;
      }
      iPtr, k := iFree, k + 1;
      assert Link(g, d, v.blocks, k);
      iFree := Get2(d, iPtr);
    }
    forall i | k <= i < |v.blocks| ensures start < v.blocks[i].start {
      if k < i { OtherBlock(v.blocks, k, i); }
    }
  }

  /** A cell does not start where a freeblock starts. */
  lemma NotABlock(g: Geometry, v: View, idx: nat)
    requires Layout(g, v) && idx < |v.cells|
    ensures forall i :: 0 <= i < |v.blocks| ==> v.blocks[i].start != v.cells[idx].start
  {
    hide Sum;
    forall i | 0 <= i < |v.blocks| ensures v.blocks[i].start != v.cells[idx].start {
      assert Apart(v.cells[idx], v.blocks[i]);
    }
  }

  lemma BlockInside(s: seq<Region>, lo: nat, hi: nat, k: nat)
    requires Inside(s, lo, hi)
    ensures k < |s| ==> lo <= s[k].start && s[k].End() <= hi && s[k].size >= 4
  {
  }

  /** Finds the place for a freed region and coalesces it with its neighbours. */
  method Coalesce(g: Geometry, d: seq<byte>, r: Region, ghost v: View, ghost idx: nat)
    returns (ok: bool, iPtr: nat, m: Region, iFree: nat, nFrag: int, ghost k: nat)
    requires GeometryOk(g) && EncSpace(g, d, v) && Layout(g, v) && idx < |v.cells| && r == v.cells[idx]
    ensures ok && PlaceOf(v.blocks, r.start, k) && iPtr == Addr(g, v.blocks, k)
    ensures m == Merged(v.blocks, r, k) && nFrag == Holes(v.blocks, r, k)
            && iFree == NextOf(v.blocks, Kept(v.blocks, r, k).1)
  {
    hide Ascending, Inside, Disjoint, Cross, Sum;
    NotABlock(g, v, idx);
    ok, iPtr, iFree, k := FindPlace(g, d, r.start, v);
    assert Link(g, d, v.blocks, k);
    WithoutCell(g, v, idx, k);
    MergedShape(g, v, r, Without(v.cells, idx), k);
    assert k < |v.blocks| ==> v.blocks[k].End() <= g.usable && v.blocks[k].size >= 4 by {
      BlockInside(v.blocks, v.top + 1, g.usable, k);
    }
    if iFree > g.usable - 4 { ok := false; return; }
    var iStart, iEnd := r.start, r.End();
    nFrag := 0;
    if iFree != 0 && iEnd + 3 >= iFree {
      assert MergeNext(v.blocks, r, k) && SizeField(d, v.blocks[k]) && Link(g, d, v.blocks, k + 1);
      nFrag := iFree - iEnd;
      if iEnd > iFree { ok := false; return; }
      iEnd := iFree + Get2(d, iFree + 2);
      if iEnd > g.usable { ok := false; return; }
      iFree := Get2(d, iFree);
    }
    if iPtr > g.hdr + 1 {
      assert k > 0 && SizeField(d, v.blocks[k - 1]);
      var iPtrEnd := iPtr + Get2(d, iPtr + 2);
      if iPtrEnd + 3 >= iStart {
        if iPtrEnd > iStart { ok := false; return; }
        nFrag := nFrag + iStart - iPtrEnd;
        iStart := iPtr;
      }
    }
    m := Region(iStart, iEnd - iStart);
  }

  /** What the writes of freeSpace do to the list when the block stays on it. */
  ghost predicate Spliced(g: Geometry, d: seq<byte>, d': seq<byte>, blocks: seq<Region>, r: Region, k: nat)
    requires k <= |blocks|
  {
    var m, iPtr := Merged(blocks, r, k), Addr(g, blocks, k);
    && SameExcept(d, d', {g.hdr + 7, iPtr, iPtr + 1, m.start, m.start + 1, m.start + 2, m.start + 3})
    && m.start + 4 <= |d| && iPtr + 2 <= |d|
    && (!MergePrev(blocks, r, k) ==> Get2(d', iPtr) == m.start)
    && Get2(d', m.start) == NextOf(blocks, Kept(blocks, r, k).1) && Get2(d', m.start + 2) == m.size
  }

  /** Blocks that are kept lie apart from the coalesced one and from the header. */
  ghost predicate Roomy(g: Geometry, blocks: seq<Region>, m: Region, lo: nat, hi: nat)
    requires lo <= hi <= |blocks|
  {
    && g.hdr + 8 <= m.start && m.size >= 4
    && (forall i :: 0 <= i < |blocks| ==> g.hdr + 8 <= blocks[i].start && blocks[i].size >= 4)
    && (forall i :: 0 <= i < lo ==> blocks[i].End() <= m.start)
       && (forall i :: hi <= i < |blocks| ==> m.End() <= blocks[i].start)
    && Ascending(blocks)
  }

  lemma FreedAt(blocks: seq<Region>, r: Region, k: nat, i: nat)
    requires k <= |blocks| && i < |FreedBlocks(blocks, r, k)|
    ensures var p := Kept(blocks, r, k);
            FreedBlocks(blocks, r, k)[i] == if i < p.0 then blocks[i] else if i
                == p.0 then Merged(blocks, r, k) else blocks[i - p.0 - 1 + p.1]
  {
    hide Merged;
  }

  lemma SplicedChain(g: Geometry, d: seq<byte>, d': seq<byte>, blocks: seq<Region>, r: Region, k: nat)
    requires k <= |blocks| && Chain(g, d, blocks) && Spliced(g, d, d', blocks, r, k)
    requires var p := Kept(blocks, r, k); Roomy(g, blocks, Merged(blocks, r, k), p.0, p.1)
    ensures Chain(g, d', FreedBlocks(blocks, r, k))
  {
    hide Merged, Ascending, FreedBlocks, Spliced, Roomy;
    var p, b := Kept(blocks, r, k), FreedBlocks(blocks, r, k);
    assert |b| == p.0 + 1 + |blocks| - p.1 by { FreedLength(blocks, r, k); }
    forall i | 0 <= i <= |b| ensures Link(g, d', b, i) { SplicedLink(g, d, d', blocks, r, k, i); }
    forall i | 0 <= i < |b| ensures SizeField(d', b[i]) { SplicedSize(g, d, d', blocks, r, k, i); }
  }

  lemma FreedLength(blocks: seq<Region>, r: Region, k: nat)
    requires k <= |blocks|
    ensures var p := Kept(blocks, r, k); |FreedBlocks(blocks, r, k)| == p.0 + 1 + |blocks| - p.1
  {
  }

  /** The two bytes at a are not written. */
  ghost predicate Untouched(g: Geometry, iPtr: nat, m: Region, a: nat) {
    (a + 2 <= g.hdr + 7 || g.hdr + 8 <= a) && (a + 2 <= iPtr || iPtr + 2 <= a) && (a + 2 <= m.start || m.start + 4 <= a)
  }

  lemma UntouchedKept(g: Geometry, d: seq<byte>, d': seq<byte>, blocks: seq<Region>, r: Region, k: nat, a: nat)
    requires k <= |blocks| && Spliced(g, d, d', blocks, r, k) && a + 2 <= |d|
    requires Untouched(g, Addr(g, blocks, k), Merged(blocks, r, k), a)
    ensures |d'| == |d| && Get2(d', a) == Get2(d, a)
  {
    hide Merged;
    var iPtr, m := Addr(g, blocks, k), Merged(blocks, r, k);
    GetKept(d, d', {g.hdr + 7, iPtr, iPtr + 1, m.start, m.start + 1, m.start + 2, m.start + 3}, a);
  }

  lemma SplicedHas(g: Geometry, d: seq<byte>, d': seq<byte>, blocks: seq<Region>, r: Region, k: nat)
    requires k <= |blocks| && Spliced(g, d, d', blocks, r, k)
    ensures var m, iPtr := Merged(blocks, r, k), Addr(g, blocks, k);
            && |d'| == |d| && m.start + 4 <= |d| && iPtr + 2 <= |d|
            && (if MergePrev(blocks, r, k) then m.start == blocks[k - 1].start else Get2(d', iPtr) == m.start)
            && Get2(d', m.start) == NextOf(blocks, Kept(blocks, r, k).1) && Get2(d', m.start + 2) == m.size
  {
  }

  lemma SplicedSize(g: Geometry, d: seq<byte>, d': seq<byte>, blocks: seq<Region>, r: Region, k: nat, i: nat)
    requires k <= |blocks| && Chain(g, d, blocks) && Spliced(g, d, d', blocks, r, k)
    requires var p := Kept(blocks, r, k); Roomy(g, blocks, Merged(blocks, r, k), p.0, p.1)
    requires i < |FreedBlocks(blocks, r, k)|
    ensures SizeField(d', FreedBlocks(blocks, r, k)[i])
  {
    hide Merged, FreedBlocks, Spliced, Ascending, Get2;
    FreedLength(blocks, r, k);
    FreedAt(blocks, r, k, i);
    SplicedHas(g, d, d', blocks, r, k);
    var p := Kept(blocks, r, k);
    if i != p.0 {
      var j := if i < p.0 then i else i - p.0 - 1 + p.1;
      assert SizeField(d, blocks[j]);
      if k > 0 && j != k - 1 { OtherBlock(blocks, k - 1, j); }
      UntouchedKept(g, d, d', blocks, r, k, blocks[j].start + 2);
    }
  }

  lemma SplicedLink(g: Geometry, d: seq<byte>, d': seq<byte>, blocks: seq<Region>, r: Region, k: nat, i: nat)
    requires k <= |blocks| && Chain(g, d, blocks) && Spliced(g, d, d', blocks, r, k)
    requires var p := Kept(blocks, r, k); Roomy(g, blocks, Merged(blocks, r, k), p.0, p.1)
    requires i <= |FreedBlocks(blocks, r, k)|
    ensures Link(g, d', FreedBlocks(blocks, r, k), i)
  {
    hide Merged, FreedBlocks, Spliced, Ascending, Get2, Roomy, Chain;
    FreedLength(blocks, r, k);
    SplicedHas(g, d, d', blocks, r, k);
    var p, b := Kept(blocks, r, k), FreedBlocks(blocks, r, k);
    if i > 0 { FreedAt(blocks, r, k, i - 1); }
    if i < |b| { FreedAt(blocks, r, k, i); }
    if i < p.0 || (i == p.0 && MergePrev(blocks, r, k)) {
      LinkBefore(g, d, d', blocks, r, k, i);
    } else if i > p.0 + 1 {
      LinkAfter(g, d, d', blocks, r, k, i - p.0 - 2 + p.1);
    }
  }

  lemma LinkBefore(g: Geometry, d: seq<byte>, d': seq<byte>, blocks: seq<Region>, r: Region, k: nat, i: nat)
    requires k <= |blocks| && Chain(g, d, blocks) && Spliced(g, d, d', blocks, r, k)
    requires var p := Kept(blocks, r, k);
             Roomy(g, blocks, Merged(blocks, r, k), p.0, p.1) && (i < p.0 || (i == p.0 && MergePrev(blocks, r, k)))
    ensures |d'| == |d| && Link(g, d', blocks, i)
  {
    hide Merged, Spliced, Ascending, Get2;
    SplicedHas(g, d, d', blocks, r, k);
    assert Link(g, d, blocks, i);
    if 0 < i && i < k { OtherBlock(blocks, k - 1, i - 1); }
    UntouchedKept(g, d, d', blocks, r, k, Addr(g, blocks, i));
  }

  lemma LinkAfter(g: Geometry, d: seq<byte>, d': seq<byte>, blocks: seq<Region>, r: Region, k: nat, j: nat)
    requires k <= |blocks| && Chain(g, d, blocks) && Spliced(g, d, d', blocks, r, k)
    requires var p := Kept(blocks, r, k); Roomy(g, blocks, Merged(blocks, r, k), p.0, p.1) && p.1 <= j < |blocks|
    ensures |d'| == |d| && Link(g, d', blocks, j + 1)
  {
    hide Merged, Spliced, Ascending, Get2;
    SplicedHas(g, d, d', blocks, r, k);
    assert Link(g, d, blocks, j + 1);
    if k > 0 { OtherBlock(blocks, k - 1, j); }
    UntouchedKept(g, d, d', blocks, r, k, blocks[j].start);
  }

  function PutFrag(g: Geometry, d: seq<byte>, frag: byte): (r: seq<byte>)
    requires g.hdr + 8 <= |d|
    ensures |r| == |d|
  {
    d[g.hdr + 7 := frag]
  }

  /** Puts the coalesced block on the list. */
  function FreeOnList(g: Geometry, d: seq<byte>, iPtr: nat, m: Region, iFree: nat, frag: byte): (r: seq<byte>)
    requires g.hdr + 8 <= |d| && iPtr + 2 <= |d| && m.start + 4 <= |d|
  {
    Put2(Put2(Put2(PutFrag(g, d, frag), iPtr, m.start), m.start, iFree), m.start + 2, m.size)
  }

  /** Lets the block at the start of the content area join the gap. */
  function FreeAtTop(g: Geometry, d: seq<byte>, m: Region, iFree: nat, frag: byte): (r: seq<byte>)
    requires g.hdr + 8 <= |d| && m.start + 4 <= |d|
  {
    Put2(Put2(Put2(Put2(PutFrag(g, d, frag), g.hdr + 1, iFree), g.hdr + 5, m.End()), m.start, iFree), m.start + 2,
        m.size)
  }

  lemma OnListWrites(g: Geometry, d: seq<byte>, iPtr: nat, m: Region, iFree: nat, frag: byte)
    requires g.hdr + 8 <= |d| && iPtr + 2 <= |d| && m.start + 4 <= |d| && g.hdr + 8 <= m.start
    requires m.start < 0x1_0000 && m.size < 0x1_0000 && iFree < 0x1_0000
    requires iPtr == m.start || iPtr + 4 <= m.start
    requires iPtr == g.hdr + 1 || g.hdr + 8 <= iPtr
    ensures var d' := FreeOnList(g, d, iPtr, m, iFree, frag);
            && SameExcept(d, d', {g.hdr + 7, iPtr, iPtr + 1, m.start, m.start + 1, m.start + 2, m.start + 3})
            && (iPtr != m.start ==> Get2(d', iPtr) == m.start) && Get2(d', m.start) == iFree
               && Get2(d', m.start + 2) == m.size
            && d'[g.hdr + 7] == frag
  {
    hide Get2, Put2;
    var d1 := PutFrag(g, d, frag);
    var d2 := Put2(d1, iPtr, m.start);
    var d3 := Put2(d2, m.start, iFree);
    var d4 := Put2(d3, m.start + 2, m.size);
    assert SameExcept(d, d1, {g.hdr + 7});
    PutSame(d, d1, {g.hdr + 7}, iPtr, m.start);
    PutSame(d, d2, {g.hdr + 7, iPtr, iPtr + 1}, m.start, iFree);
    PutSame(d, d3, {g.hdr + 7, iPtr, iPtr + 1, m.start, m.start + 1}, m.start + 2, m.size);
    PutGet(d1, iPtr, m.start);
    PutGet(d2, m.start, iFree);
    PutGet(d3, m.start + 2, m.size);
    if iPtr != m.start {
      PutElsewhere(d2, m.start, iFree, iPtr);
      PutElsewhere(d3, m.start + 2, m.size, iPtr);
    }
    PutElsewhere(d3, m.start + 2, m.size, m.start);
    PutByte(d1, iPtr, m.start, g.hdr + 7);
    PutByte(d2, m.start, iFree, g.hdr + 7);
    PutByte(d3, m.start + 2, m.size, g.hdr + 7);
  }

  lemma PutByte(d: seq<byte>, a: nat, v: nat, b: nat)
    requires a + 2 <= |d| && b < |d| && (b < a || a + 2 <= b)
    ensures Put2(d, a, v)[b] == d[b]
  {
  }

  lemma AtTopWrites(g: Geometry, d: seq<byte>, m: Region, iFree: nat, frag: byte)
    requires g.hdr + 8 <= |d| && m.start + 4 <= |d| && g.hdr + 8 <= m.start && m.End() <= 0x1_0000 && iFree < 0x1_0000
    ensures var d' := FreeAtTop(g, d, m, iFree, frag);
            && SameExcept(d, d', {g.hdr + 7, g.hdr + 1, g.hdr + 2, g.hdr + 5, g.hdr + 6, m.start, m.start + 1,
               m.start + 2, m.start + 3})
            && Get2(d', g.hdr + 1) == iFree && Get2(d', g.hdr + 5) == m.End() % 0x1_0000 && d'[g.hdr + 7] == frag
  {
    hide Get2, Put2, SameExcept;
    AtTopSame(g, d, m, iFree, frag);
    var d1 := PutFrag(g, d, frag);
    var d2 := Put2(d1, g.hdr + 1, iFree);
    var d3 := Put2(d2, g.hdr + 5, m.End());
    var d4 := Put2(d3, m.start, iFree);
    PutGet(d1, g.hdr + 1, iFree);
    PutGetLow(d2, g.hdr + 5, m.End());
    PutElsewhere(d2, g.hdr + 5, m.End(), g.hdr + 1);
    PutElsewhere(d3, m.start, iFree, g.hdr + 1);
    PutElsewhere(d4, m.start + 2, m.size, g.hdr + 1);
    PutElsewhere(d3, m.start, iFree, g.hdr + 5);
    PutElsewhere(d4, m.start + 2, m.size, g.hdr + 5);
    PutByte(d1, g.hdr + 1, iFree, g.hdr + 7);
    PutByte(d2, g.hdr + 5, m.End(), g.hdr + 7);
    PutByte(d3, m.start, iFree, g.hdr + 7);
    PutByte(d4, m.start + 2, m.size, g.hdr + 7);
  }

  lemma AtTopSame(g: Geometry, d: seq<byte>, m: Region, iFree: nat, frag: byte)
    requires g.hdr + 8 <= |d| && m.start + 4 <= |d|
    ensures SameExcept(d, FreeAtTop(g, d, m, iFree, frag),
                       {g.hdr + 7, g.hdr + 1, g.hdr + 2, g.hdr + 5, g.hdr + 6, m.start, m.start + 1, m.start + 2,
                           m.start + 3})
  {
    hide Get2, Put2;
    var d1 := PutFrag(g, d, frag);
    var d2 := Put2(d1, g.hdr + 1, iFree);
    var d3 := Put2(d2, g.hdr + 5, m.End());
    var d4 := Put2(d3, m.start, iFree);
    assert SameExcept(d, d1, {g.hdr + 7});
    PutSame(d, d1, {g.hdr + 7}, g.hdr + 1, iFree);
    PutSame(d, d2, {g.hdr + 7, g.hdr + 1, g.hdr + 2}, g.hdr + 5, m.End());
    PutSame(d, d3, {g.hdr + 7, g.hdr + 1, g.hdr + 2, g.hdr + 5, g.hdr + 6}, m.start, iFree);
    PutSame(d, d4, {g.hdr + 7, g.hdr + 1, g.hdr + 2, g.hdr + 5, g.hdr + 6, m.start, m.start + 1}, m.start + 2, m.size);
  }

  lemma PutGetLow(d: seq<byte>, a: nat, v: nat)
    requires a + 2 <= |d| && v <= 0x1_0000
    ensures Get2(Put2(d, a, v), a) == v % 0x1_0000
  {
  }

  /** Address x is in the header, not in the cell count, or from lo on, in none of the cells. */
  ghost predicate Away(g: Geometry, lo: nat, cells: seq<Region>, x: nat) {
    || g.hdr + 1 <= x < g.hdr + 3 || g.hdr + 5 <= x < g.hdr + 8
    || (lo <= x && forall i :: 0 <= i < |cells| ==> x < cells[i].start || cells[i].End() <= x)
  }

  /** Below address hi, only the fields of the header that say what is free have changed. */
  ghost predicate HeadKept(g: Geometry, d: seq<byte>, d': seq<byte>, hi: nat) {
    && |d'| == |d|
    && forall x ::
         0 <= x < |d| && x < hi && !(g.hdr + 1 <= x < g.hdr + 3) && !(g.hdr + 5 <= x < g.hdr + 8) ==> d'[x] == d[x]
  }

  lemma HeadIsKept(g: Geometry, d: seq<byte>, d': seq<byte>, s: set<nat>, lo: nat, others: seq<Region>)
    requires SameExcept(d, d', s) && forall x :: x in s ==> Away(g, lo, others, x)
    ensures HeadKept(g, d, d', lo)
  {
  }

  /** So the cell count and the pointers are the same. */
  lemma PointersInHead(g: Geometry, d: seq<byte>, d': seq<byte>, hi: nat, cells: seq<Region>)
    requires GeometryOk(g) && HeadKept(g, d, d', hi) && EncCells(g, d, cells) && g.cellOffset + 2 * |cells| <= hi
    ensures EncCells(g, d', cells)
  {
    forall i | 0 <= i < |cells| ensures Pointer(g, d', i, cells[i]) { assert Pointer(g, d, i, cells[i]); }
  }

  lemma PointersKept(g: Geometry, d: seq<byte>, d': seq<byte>, s: set<nat>, cells: seq<Region>, others: seq<Region>)
    requires GeometryOk(g) && SameExcept(d, d', s) && EncCells(g, d, cells)
    requires forall x :: x in s ==> Away(g, g.cellOffset + 2 * |cells|, others, x)
    ensures EncCells(g, d', cells)
  {
    hide Away, EncCells;
    HeadIsKept(g, d, d', s, g.cellOffset + 2 * |cells|, others);
    PointersInHead(g, d, d', g.cellOffset + 2 * |cells|, cells);
  }

  lemma ContentsKept(g: Geometry, d: seq<byte>, d': seq<byte>, s: set<nat>, lo: nat, cells: seq<Region>)
    requires GeometryOk(g) && SameExcept(d, d', s) && (forall x :: x in s ==> Away(g, lo, cells, x))
    requires forall i :: 0 <= i < |cells| ==> g.hdr + 8 <= cells[i].start
    ensures Contents(d', cells) == Contents(d, cells)
  {
    forall i | 0 <= i < |cells| ensures Content(d', cells[i]) == Content(d, cells[i]) {
      ContentKept(d, d', s, cells[i]);
    }
  }

  lemma AwayRegion(g: Geometry, lo: nat, cells: seq<Region>, r: Region, x: nat)
    requires Cross(cells, [r]) && r.start <= x < r.End() && lo <= r.start
    ensures Away(g, lo, cells, x)
  {
    forall i | 0 <= i < |cells| ensures x < cells[i].start || cells[i].End() <= x { assert Apart(cells[i], [r][0]); }
  }

  /** What freeing a cell does to the bytes of a page. */
  ghost predicate FreedBytes(g: Geometry, d: seq<byte>, d': seq<byte>, v: View, idx: nat, k: nat)
    requires idx < |v.cells| && k <= |v.blocks|
  {
    var others := Without(v.cells, idx);
    && EncSpace(g, d', FreedView(v, idx, k)) && HeadKept(g, d, d', v.top) && Framed(g, d, d')
    && Contents(d', others) == Contents(d, others)
  }

  lemma CellsHigh(g: Geometry, v: View)
    requires GeometryOk(g) && Layout(g, v)
    ensures forall i :: 0 <= i < |v.cells| ==> g.hdr + 8 <= v.cells[i].start
  {
    hide Sum;
  }

  lemma FreedOnList(g: Geometry, d: seq<byte>, v: View, idx: nat, k: nat)
    requires GeometryOk(g) && Layout(g, v) && EncSpace(g, d, v)
    requires idx < |v.cells| && PlaceOf(v.blocks, v.cells[idx].start, k)
    requires Merged(v.blocks, v.cells[idx], k).start > v.top
    ensures var r := v.cells[idx];
            var m, iPtr, frag := Merged(v.blocks, r, k), Addr(g, v.blocks, k), v.frag - Holes(v.blocks, r, k);
            && iPtr + 2 <= |d| && m.start + 4 <= |d| && 0 <= frag < 256
            && FreedBytes(g, d, FreeOnList(g, d, iPtr, m, NextOf(v.blocks, Kept(v.blocks, r, k).1), frag), v, idx, k)
  {
    hide Sum, Merged, Holes, Ascending, Inside, Cross, Disjoint, FreeOnList, Chain, MergePrev, MergeNext, Get2,
      FreedBytes, FreedView;
    var r, cells := v.cells[idx], Without(v.cells, idx);
    var m, iPtr, frag := Merged(v.blocks, r, k), Addr(g, v.blocks, k), v.frag - Holes(v.blocks, r, k);
    WithoutCell(g, v, idx, k);
    MergedShape(g, v, r, cells, k);
    FreedLayout(g, v, idx, k);
    PtrPlace(g, v, r, cells, k);
    var iFree := NextOf(v.blocks, Kept(v.blocks, r, k).1);
    NextSmall(g, v, Kept(v.blocks, r, k).1);
    OnListWrites(g, d, iPtr, m, iFree, frag);
    OnListDone(g, d, FreeOnList(g, d, iPtr, m, iFree, frag), v, idx, k);
  }

  lemma OnListDone(g: Geometry, d: seq<byte>, d': seq<byte>, v: View, idx: nat, k: nat)
    requires GeometryOk(g) && Layout(g, v) && EncSpace(g, d, v)
    requires idx < |v.cells| && PlaceOf(v.blocks, v.cells[idx].start, k)
    requires Merged(v.blocks, v.cells[idx], k).start > v.top && Spliced(g, d, d', v.blocks, v.cells[idx], k)
    requires g.hdr + 7 < |d'| && d'[g.hdr + 7] == v.frag - Holes(v.blocks, v.cells[idx], k)
    ensures FreedBytes(g, d, d', v, idx, k)
  {
    hide Sum, Merged, Holes, Ascending, Inside, Cross, Disjoint, Chain, MergePrev, MergeNext, Get2, FreedBlocks;
    var r, cells := v.cells[idx], Without(v.cells, idx);
    var m, iPtr := Merged(v.blocks, r, k), Addr(g, v.blocks, k);
    WithoutCell(g, v, idx, k);
    RoomyKept(g, v, r, cells, k);
    SplicedChain(g, d, d', v.blocks, r, k);
    PtrPlace(g, v, r, cells, k);
    UntouchedKept(g, d, d', v.blocks, r, k, g.hdr + 5);
    OnListCells(g, d, d', v, idx, k);
  }

  lemma OnListCells(g: Geometry, d: seq<byte>, d': seq<byte>, v: View, idx: nat, k: nat)
    requires GeometryOk(g) && Layout(g, v)
    requires idx < |v.cells| && PlaceOf(v.blocks, v.cells[idx].start, k) && Spliced(g, d, d', v.blocks, v.cells[idx], k)
    requires Merged(v.blocks, v.cells[idx], k).start > v.top
    ensures HeadKept(g, d, d', v.top) && Framed(g, d, d')
            && Contents(d', Without(v.cells, idx)) == Contents(d, Without(v.cells, idx))
  {
    hide Sum, Merged, Holes, Ascending, Inside, Cross, Disjoint, Chain, MergePrev, MergeNext, Get2, Away, Contents;
    var r, cells := v.cells[idx], Without(v.cells, idx);
    var m, iPtr := Merged(v.blocks, r, k), Addr(g, v.blocks, k);
    WithoutCell(g, v, idx, k);
    var s := {g.hdr + 7, iPtr, iPtr + 1, m.start, m.start + 1, m.start + 2, m.start + 3};
    forall x | x in s ensures Away(g, v.top, cells, x) { ListAway(g, v, r, cells, k, x); }
    MergedShape(g, v, r, cells, k);
    PtrPlace(g, v, r, cells, k);
    FramedBy(g, d, d', s);
    HeadIsKept(g, d, d', s, v.top, cells);
    CellsHigh(g, v);
    ContentsKept(g, d, d', s, v.top, cells);
  }

  lemma NextSmall(g: Geometry, v: View, i: nat)
    requires GeometryOk(g) && Layout(g, v)
    ensures NextOf(v.blocks, i) < 0x1_0000
  {
    hide Sum;
  }

  /** The pointer to be changed is in the header or in the block before. */
  lemma PtrPlace(g: Geometry, v: View, r: Region, cells: seq<Region>, k: nat)
    requires GeometryOk(g) && Freeable(g, v, r, cells, k) && GapStart(g, v) <= v.top
    ensures var iPtr, m := Addr(g, v.blocks, k), Merged(v.blocks, r, k);
            && (if MergePrev(v.blocks, r, k) then iPtr == m.start else iPtr + 4 <= m.start)
            && (iPtr == g.hdr + 1 || (v.top < iPtr && iPtr + 4 <= g.usable))
  {
    MergedShape(g, v, r, cells, k);
    if k > 0 { assert Apart([r][0], v.blocks[k - 1]); assert v.blocks[k - 1].start < r.start; }
  }

  lemma RoomyKept(g: Geometry, v: View, r: Region, cells: seq<Region>, k: nat)
    requires GeometryOk(g) && Freeable(g, v, r, cells, k) && GapStart(g, v) <= v.top
    ensures var p := Kept(v.blocks, r, k); Roomy(g, v.blocks, Merged(v.blocks, r, k), p.0, p.1)
  {
    hide Merged;
    MergedShape(g, v, r, cells, k);
    MergedFits(g, v, r, cells, k);
    var p, m := Kept(v.blocks, r, k), Merged(v.blocks, r, k);
    forall i | 0 <= i < p.0 ensures v.blocks[i].End() <= m.start { assert v.blocks[..p.0][i] == v.blocks[i]; }
    forall i | p.1 <= i < |v.blocks| ensures m.End() <= v.blocks[i].start {
      assert v.blocks[p.1..][i - p.1] == v.blocks[i];
    }
  }

  lemma ListAway(g: Geometry, v: View, r: Region, cells: seq<Region>, k: nat, x: nat)
    requires GeometryOk(g) && Freeable(g, v, r, cells, k) && GapStart(g, v) <= v.top
    requires var iPtr, m := Addr(g, v.blocks, k), Merged(v.blocks, r, k);
             x in {g.hdr + 7, iPtr, iPtr + 1, m.start, m.start + 1, m.start + 2, m.start + 3}
    ensures Away(g, v.top, cells, x)
  {
    var iPtr, m := Addr(g, v.blocks, k), Merged(v.blocks, r, k);
    MergedShape(g, v, r, cells, k);
    MergedApart(g, v, r, cells, k);
    if m.start <= x < m.start + 4 {
      AwayRegion(g, v.top, cells, m, x);
    } else if k > 0 && iPtr <= x < iPtr + 2 {
      var b := v.blocks[k - 1];
      assert Cross(cells, [b]) by {
        forall i | 0 <= i < |cells| ensures Apart(cells[i], [b][0]) { assert Apart(cells[i], v.blocks[k - 1]); }
      }
      AwayRegion(g, v.top, cells, b, x);
    }
  }

  lemma TailChain(g: Geometry, d: seq<byte>, d': seq<byte>, s: set<nat>, blocks: seq<Region>, j: nat)
    requires j <= |blocks| && Chain(g, d, blocks) && SameExcept(d, d', s) && g.hdr + 8 <= |d|
    requires Get2(d', g.hdr + 1) == NextOf(blocks, j)
    requires forall i, x :: j <= i < |blocks| && x in s ==> x < blocks[i].start
    ensures Chain(g, d', blocks[j..])
  {
    hide Get2;
    var b := blocks[j..];
    forall i | 0 <= i <= |b| ensures Link(g, d', b, i) {
      assert Link(g, d, blocks, j + i);
      if i > 0 { GetKept(d, d', s, blocks[j + i - 1].start); }
    }
    forall i | 0 <= i < |b| ensures SizeField(d', b[i]) {
      assert SizeField(d, blocks[j + i]);
      GetKept(d, d', s, blocks[j + i].start + 2);
    }
  }

  function TopWritten(g: Geometry, m: Region): set<nat> {
    {g.hdr + 7, g.hdr + 1, g.hdr + 2, g.hdr + 5, g.hdr + 6, m.start, m.start + 1, m.start + 2, m.start + 3}
  }

  lemma FreedAtTop(g: Geometry, d: seq<byte>, v: View, idx: nat, k: nat)
    requires GeometryOk(g) && Layout(g, v) && EncSpace(g, d, v)
    requires idx < |v.cells| && PlaceOf(v.blocks, v.cells[idx].start, k)
    requires Merged(v.blocks, v.cells[idx], k).start <= v.top
    ensures var r := v.cells[idx];
            var m, frag := Merged(v.blocks, r, k), v.frag - Holes(v.blocks, r, k);
            && m.start + 4 <= |d| && 0 <= frag < 256
            && FreedBytes(g, d, FreeAtTop(g, d, m, NextOf(v.blocks, Kept(v.blocks, r, k).1), frag), v, idx, k)
  {
    hide Sum, Merged, Holes, Ascending, Inside, Cross, Disjoint, FreeAtTop, Chain, MergePrev, MergeNext, Get2, Contents;
    var r, cells := v.cells[idx], Without(v.cells, idx);
    var m, frag := Merged(v.blocks, r, k), v.frag - Holes(v.blocks, r, k);
    WithoutCell(g, v, idx, k);
    MergedShape(g, v, r, cells, k);
    FreedLayout(g, v, idx, k);
    var j := Kept(v.blocks, r, k).1;
    NextSmall(g, v, j);
    AtTopWrites(g, d, m, NextOf(v.blocks, j), frag);
    var d', s := FreeAtTop(g, d, m, NextOf(v.blocks, j), frag), TopWritten(g, m);
    TailHigh(g, v, r, cells, k);
    TailChain(g, d, d', s, v.blocks, j);
    TopCells(g, d, d', v, idx, k);
  }

  lemma TailHigh(g: Geometry, v: View, r: Region, cells: seq<Region>, k: nat)
    requires GeometryOk(g) && Freeable(g, v, r, cells, k) && GapStart(g, v) <= v.top
    ensures var j, m := Kept(v.blocks, r, k).1, Merged(v.blocks, r, k);
            j <= |v.blocks| && forall i, x :: j <= i < |v.blocks| && x in TopWritten(g, m) ==> x < v.blocks[i].start
  {
    hide Merged;
    MergedShape(g, v, r, cells, k);
    MergedFits(g, v, r, cells, k);
    var j, m := Kept(v.blocks, r, k).1, Merged(v.blocks, r, k);
    forall i | j <= i < |v.blocks| ensures m.End() <= v.blocks[i].start { assert v.blocks[j..][i - j] == v.blocks[i]; }
  }

  lemma TopCells(g: Geometry, d: seq<byte>, d': seq<byte>, v: View, idx: nat, k: nat)
    requires GeometryOk(g) && Layout(g, v)
    requires idx < |v.cells| && PlaceOf(v.blocks, v.cells[idx].start, k)
    requires SameExcept(d, d', TopWritten(g, Merged(v.blocks, v.cells[idx], k)))
    ensures HeadKept(g, d, d', v.top) && Framed(g, d, d')
            && Contents(d', Without(v.cells, idx)) == Contents(d, Without(v.cells, idx))
  {
    hide Sum, Merged, Ascending, Inside, Cross, Disjoint, MergePrev, MergeNext, Get2, Contents;
    var r, cells := v.cells[idx], Without(v.cells, idx);
    var m := Merged(v.blocks, r, k);
    WithoutCell(g, v, idx, k);
    MergedShape(g, v, r, cells, k);
    MergedApart(g, v, r, cells, k);
    var s := TopWritten(g, m);
    MergedHigh(g, v, r, cells, k);
    forall x | x in s ensures Away(g, v.top, cells, x) { if m.start <= x { AwayRegion(g, v.top, cells, m, x); } }
    FramedBy(g, d, d', s);
    HeadIsKept(g, d, d', s, v.top, cells);
    CellsHigh(g, v);
    ContentsKept(g, d, d', s, v.top, cells);
  }

  lemma MergedHigh(g: Geometry, v: View, r: Region, cells: seq<Region>, k: nat)
    requires GeometryOk(g) && Freeable(g, v, r, cells, k) && GapStart(g, v) <= v.top
    ensures v.top <= Merged(v.blocks, r, k).start
  {
    MergedShape(g, v, r, cells, k);
  }

  /** Returns the bytes of a cell to the free space of the page. */
  method FreeSpace(g: Geometry, d: seq<byte>, r: Region, ghost v: View, ghost idx: nat)
    returns (ok: bool, d': seq<byte>, ghost k: nat)
    requires GeometryOk(g) && Layout(g, v) && EncSpace(g, d, v) && idx < |v.cells| && r == v.cells[idx]
    ensures ok && PlaceOf(v.blocks, r.start, k) && FreedBytes(g, d, d', v, idx, k)
  {
    hide Sum, Ascending, Inside, Cross, Disjoint, FreeAtTop, FreeOnList, Chain, Get2, FreedBytes, Merged, Holes;
    var iPtr, m, iFree, nFrag;
    ok, iPtr, m, iFree, nFrag, k := Coalesce(g, d, r, v, idx);
    FreedLayout(g, v, idx, k);
    if nFrag > d[g.hdr + 7] { ok := false; return; }
    var frag := d[g.hdr + 7] - nFrag;
    var x := Get2(d, g.hdr + 5);
    TopOfCells(g, v, idx);
    if m.start <= x {
      if m.start < x || iPtr != g.hdr + 1 { ok := false; return; }
      FreedAtTop(g, d, v, idx, k);
      d' := FreeAtTop(g, d, m, iFree, frag);
    } else {
      FreedOnList(g, d, v, idx, k);
      d' := FreeOnList(g, d, iPtr, m, iFree, frag);
    }
  }

  lemma TopOfCells(g: Geometry, v: View, idx: nat)
    requires GeometryOk(g) && Layout(g, v) && idx < |v.cells|
    ensures v.top < 0x1_0000
  {
    hide Sum;
    BlockInside(v.cells, v.top, g.usable, idx);
  }

  // ----- Taking room from a freeblock

  ghost predicate HighBlocks(g: Geometry, blocks: seq<Region>) {
    Ascending(blocks) && forall i :: 0 <= i < |blocks| ==> g.hdr + 8 <= blocks[i].start && blocks[i].size >= 4
  }

  lemma BlocksHigh(g: Geometry, v: View)
    requires GeometryOk(g) && Layout(g, v)
    ensures HighBlocks(g, v.blocks)
  {
    hide Sum;
  }

  lemma ShrunkChain(g: Geometry, d: seq<byte>, blocks: seq<Region>, k: nat, x: nat)
    requires Chain(g, d, blocks) && HighBlocks(g, blocks) && k < |blocks| && 4 <= x < blocks[k].size
             && blocks[k].start + 4 <= |d| && x < 0x1_0000
    ensures Chain(g, Put2(d, blocks[k].start + 2, x), blocks[k := Region(blocks[k].start, x)])
  {
    hide Get2, Put2, Ascending;
    var a := blocks[k].start + 2;
    var d', b := Put2(d, a, x), blocks[k := Region(blocks[k].start, x)];
    forall i | 0 <= i <= |b| ensures Link(g, d', b, i) {
      assert Link(g, d, blocks, i) && Addr(g, b, i) == Addr(g, blocks, i) && NextOf(b, i) == NextOf(blocks, i);
      if i > 0 && i - 1 != k { OtherBlock(blocks, k, i - 1); }
      PutElsewhere(d, a, x, Addr(g, blocks, i));
    }
    forall i | 0 <= i < |b| ensures SizeField(d', b[i]) {
      assert SizeField(d, blocks[i]);
      if i == k { PutGet(d, a, x); } else { OtherBlock(blocks, k, i); PutElsewhere(d, a, x, blocks[i].start + 2); }
    }
  }

  lemma RemovedChain(g: Geometry, d: seq<byte>, blocks: seq<Region>, k: nat, next: nat)
    requires Chain(g, d, blocks) && HighBlocks(g, blocks) && k < |blocks| && next == NextOf(blocks, k + 1) < 0x1_0000
    requires Addr(g, blocks, k) + 2 <= |d|
    ensures Chain(g, Put2(d, Addr(g, blocks, k), next), Without(blocks, k))
  {
    hide Get2, Put2, Ascending;
    var a, b := Addr(g, blocks, k), Without(blocks, k);
    var d' := Put2(d, a, next);
    assert forall i :: 0 <= i < |b| ==> b[i] == blocks[if i < k then i else i + 1];
    forall i | 0 <= i <= |b| ensures Link(g, d', b, i) {
      var j := if i <= k then i else i + 1;
      assert Link(g, d, blocks, j) && Addr(g, b, i) == Addr(g, blocks, j);
      if i == k {
        PutGet(d, a, next);
      } else {
        if j > 0 && k > 0 && j != k { OtherBlock(blocks, k - 1, j - 1); }
        PutElsewhere(d, a, next, Addr(g, blocks, j));
      }
    }
    forall i | 0 <= i < |b| ensures SizeField(d', b[i]) {
      var j := if i < k then i else i + 1;
      assert SizeField(d, blocks[j]);
      if k > 0 && j != k - 1 { OtherBlock(blocks, k - 1, j); }
      PutElsewhere(d, a, next, blocks[j].start + 2);
    }
  }

  lemma ChainKept(g: Geometry, d: seq<byte>, d': seq<byte>, s: set<nat>, blocks: seq<Region>)
    requires Chain(g, d, blocks) && SameExcept(d, d', s)
    requires forall x ::
               x in s ==>
                 !(g.hdr + 1 <= x < g.hdr + 3)
                 && forall i :: 0 <= i < |blocks| ==> x < blocks[i].start || blocks[i].start + 4 <= x
    ensures Chain(g, d', blocks)
  {
    hide Get2;
    forall i | 0 <= i <= |blocks| ensures Link(g, d', blocks, i) {
      assert Link(g, d, blocks, i);
      GetKept(d, d', s, Addr(g, blocks, i));
    }
    forall i | 0 <= i < |blocks| ensures SizeField(d', blocks[i]) {
      assert SizeField(d, blocks[i]);
      GetKept(d, d', s, blocks[i].start + 2);
    }
  }

  /** The page still has the same cells, and its header describes v'. */
  ghost predicate SameCells(g: Geometry, d: seq<byte>, d': seq<byte>, v: View, v': View) {
    Framed(g, d, d') && EncSpace(g, d', v') && EncCells(g, d', v.cells) && Contents(d', v.cells) == Contents(d, v.cells)
  }

  /** Room has been taken from a freeblock. */
  ghost predicate SlotTaken(g: Geometry, d: seq<byte>, d': seq<byte>, v: View, v': View) {
    && EncFree(g, d', v') && HeadKept(g, d, d', v.top) && Framed(g, d, d') && Get2(d', g.hdr + 5) == Get2(d, g.hdr + 5)
    && Contents(d', v.cells) == Contents(d, v.cells)
  }

  lemma SlotSame(g: Geometry, d: seq<byte>, d': seq<byte>, v: View, k: nat, n: nat)
    requires GeometryOk(g) && Layout(g, v) && EncSpace(g, d, v) && EncCells(g, d, v.cells) && k < |v.blocks|
             && v.blocks[k].size >= n
    requires SlotTaken(g, d, d', v, TakeSlot(v, k, n))
    ensures SameCells(g, d, d', v, TakeSlot(v, k, n))
  {
    hide EncCells, Contents, Sum;
    PointersInHead(g, d, d', v.top, v.cells);
  }

  lemma ShrunkBytes(g: Geometry, d: seq<byte>, v: View, k: nat, n: nat)
    requires GeometryOk(g) && Layout(g, v) && EncFree(g, d, v)
    requires k < |v.blocks| && v.blocks[k].size >= n + 4 && n >= 4
    ensures v.blocks[k].start + 4 <= |d| && v.blocks[k].size - n < 0x1_0000
    ensures SlotTaken(g, d, Put2(d, v.blocks[k].start + 2, v.blocks[k].size - n), v, TakeSlot(v, k, n))
  {
    hide Sum, Ascending, Cross, Disjoint, Inside, Get2, Put2, Chain, EncCells, Contents, HighBlocks;
    BlocksHigh(g, v);
    BlockInside(v.blocks, v.top + 1, g.usable, k);
    var b := v.blocks[k];
    var x := b.size - n;
    ShrunkChain(g, d, v.blocks, k, x);
    var d' := Put2(d, b.start + 2, x);
    PutElsewhere(d, b.start + 2, x, g.hdr + 5);
    PutByte(d, b.start + 2, x, g.hdr + 7);
    PutSame(d, d, {}, b.start + 2, x);
    BlockWrite(g, d, d', {} + {b.start + 2, b.start + 2 + 1}, v, k);
  }

  /** Writes inside a freeblock and to the header leave the cells alone. */
  lemma BlockWrite(g: Geometry, d: seq<byte>, d': seq<byte>, s: set<nat>, v: View, k: nat)
    requires GeometryOk(g) && Layout(g, v) && SameExcept(d, d', s) && k < |v.blocks|
    requires forall x ::
               x in s ==>
                 g.hdr + 1 <= x < g.hdr + 3 || g.hdr + 5 <= x < g.hdr + 8 || v.blocks[k].start <= x < v.blocks[k].End()
    ensures HeadKept(g, d, d', v.top) && Framed(g, d, d') && Contents(d', v.cells) == Contents(d, v.cells)
  {
    hide Sum, Ascending, Disjoint, Get2, EncCells, Contents;
    var b := v.blocks[k];
    assert Cross(v.cells, [b]) by {
      forall i | 0 <= i < |v.cells| ensures Apart(v.cells[i], [b][0]) { assert Apart(v.cells[i], v.blocks[k]); }
    }
    BlockInside(v.blocks, v.top + 1, g.usable, k);
    forall x | x in s ensures Away(g, v.top, v.cells, x) {
      if b.start <= x < b.End() { AwayRegion(g, v.top, v.cells, b, x); }
    }
    HeadIsKept(g, d, d', s, v.top, v.cells);
    FramedBy(g, d, d', s);
    CellsHigh(g, v);
    ContentsKept(g, d, d', s, v.top, v.cells);
  }

  /** Unlinks a freeblock and counts what is left of it as fragments. */
  function Unlink(g: Geometry, d: seq<byte>, iAddr: nat, next: nat, frag: byte): (r: seq<byte>)
    requires g.hdr + 8 <= |d| && iAddr + 2 <= |d|
  {
    PutFrag(g, Put2(d, iAddr, next), frag)
  }

  lemma RemovedBytes(g: Geometry, d: seq<byte>, v: View, k: nat, n: nat)
    requires GeometryOk(g) && Layout(g, v) && EncFree(g, d, v) && v.frag <= 57
    requires k < |v.blocks| && n <= v.blocks[k].size < n + 4 && n >= 4
    ensures Addr(g, v.blocks, k) + 2 <= |d|
    ensures SlotTaken(g, d, Unlink(g, d, Addr(g, v.blocks, k), NextOf(v.blocks, k + 1), v.frag + v.blocks[k].size - n),
            v, TakeSlot(v, k, n))
  {
    hide Sum, Ascending, Cross, Disjoint, Inside, Get2, Put2, EncCells, Contents, HighBlocks;
    BlocksHigh(g, v);
    assert Link(g, d, v.blocks, k);
    NextSmall(g, v, k + 1);
    var a, next, frag := Addr(g, v.blocks, k), NextOf(v.blocks, k + 1), v.frag + v.blocks[k].size - n;
    AddrHigh(g, v, k);
    RemovedChain(g, d, v.blocks, k, next);
    var d1 := Put2(d, a, next);
    var d' := PutFrag(g, d1, frag);
    PutElsewhere(d, a, next, g.hdr + 5);
    assert SameExcept(d1, d', {g.hdr + 7});
    GetKept(d1, d', {g.hdr + 7}, g.hdr + 5);
    RemovedHigh(g, v, k);
    ChainKept(g, d1, d', {g.hdr + 7}, Without(v.blocks, k));
    PutSame(d, d, {}, a, next);
    var s := {a, a + 1, g.hdr + 7};
    assert SameExcept(d, d', s);
    UnlinkWrite(g, d, d', s, v, k);
  }

  lemma RemovedHigh(g: Geometry, v: View, k: nat)
    requires GeometryOk(g) && HighBlocks(g, v.blocks) && k < |v.blocks|
    ensures forall i :: 0 <= i < |Without(v.blocks, k)| ==> g.hdr + 8 <= Without(v.blocks, k)[i].start
  {
  }

  lemma AddrHigh(g: Geometry, v: View, k: nat)
    requires GeometryOk(g) && Layout(g, v) && k < |v.blocks|
    ensures Addr(g, v.blocks, k) == g.hdr + 1 || g.hdr + 8 <= Addr(g, v.blocks, k)
  {
    hide Sum;
  }

  lemma UnlinkWrite(g: Geometry, d: seq<byte>, d': seq<byte>, s: set<nat>, v: View, k: nat)
    requires GeometryOk(g) && Layout(g, v) && SameExcept(d, d', s) && k < |v.blocks|
    requires var a := Addr(g, v.blocks, k); s == {a, a + 1, g.hdr + 7}
    ensures HeadKept(g, d, d', v.top) && Framed(g, d, d') && Contents(d', v.cells) == Contents(d, v.cells)
  {
    hide Contents, Sum;
    BlockWrite(g, d, d', s, v, if k == 0 then 0 else k - 1);
  }

  /** Freeblock k is the first that has room for n bytes. */
  ghost predicate FirstFit(blocks: seq<Region>, n: nat, k: int) {
    0 <= k < |blocks| && blocks[k].size >= n && forall i :: 0 <= i < k ==> blocks[i].size < n
  }

  /** No freeblock has room for n bytes, or taking them from the first that has would leave too many fragments. */
  ghost predicate NoSlot(v: View, n: nat) {
    forall k :: FirstFit(v.blocks, n, k) ==> v.blocks[k].size - n < 4 && v.frag > 57
  }

  /** Looks for a freeblock that has room for n bytes, and takes the room from its end. */
  method PageFindSlot(g: Geometry, d: seq<byte>, n: nat, ghost v: View)
    returns (ok: bool, found: bool, d': seq<byte>, at: nat, ghost k: nat)
    requires GeometryOk(g) && Layout(g, v) && EncFree(g, d, v) && n >= 4 && v.blocks != []
    ensures found <==> !NoSlot(v, n)
    ensures found ==> FirstFit(v.blocks, n, k)
    ensures ok && (found ==> k < |v.blocks| && v.blocks[k].size >= n && (v.blocks[k].size - n < 4 ==> v.frag <= 57)
                             && at == v.blocks[k].start + v.blocks[k].size - n
                                && SlotTaken(g, d, d', v, TakeSlot(v, k, n)))
    ensures !found ==> d' == d && (v.frag > 57 || forall i :: 0 <= i < |v.blocks| ==> v.blocks[i].size < n)
  {
    hide Sum, Ascending, Cross, Disjoint, Inside, Get2, Put2, EncCells, Contents, SlotTaken, TakeSlot;
    assert Link(g, d, v.blocks, 0);
    var iAddr, pc := g.hdr + 1, Get2(d, g.hdr + 1);
    k, ok, found, d', at := 0, true, false, d, 0;
    BlockInside(v.blocks, v.top + 1, g.usable, 0);
    while pc <= g.usable - 4
      invariant ok && !found && d' == d && k < |v.blocks| && iAddr == Addr(g, v.blocks, k)
                && pc == v.blocks[k].start <= g.usable - 4
      invariant forall i :: 0 <= i < k ==> v.blocks[i].size < n
      decreases |v.blocks| - k
    {
      BlockInside(v.blocks, v.top + 1, g.usable, k);
      assert SizeField(d, v.blocks[k]);
      var size := Get2(d, pc + 2);
      var x := size - n;
      if x >= 0 {
        assert FirstFit(v.blocks, n, k);
        if size + pc > g.usable { ok := false; return; }
        if x < 4 {
          if d[g.hdr + 7] > 57 { return; }
          assert Link(g, d, v.blocks, k + 1);
          RemovedBytes(g, d, v, k, n);
          d' := Unlink(g, d, iAddr, Get2(d, pc), d[g.hdr + 7] + x);
        } else {
          ShrunkBytes(g, d, v, k, n);
          d' := Put2(d, pc + 2, x);
        }
        found, at := true, pc + x;
        return;
      }
      assert Link(g, d, v.blocks, k + 1);
      iAddr, pc := pc, Get2(d, pc);
      if k + 1 < |v.blocks| { OtherBlock(v.blocks, k, k + 1); BlockInside(v.blocks, v.top + 1, g.usable, k + 1); }
      if pc < iAddr + size { break; }
      k := k + 1;
    }
    if pc != 0 { ok := false; return; }
  }

  // ----- Defragmenting

  /** Moves the bytes from lo to hi up by n. */
  function Slide(d: seq<byte>, lo: nat, hi: nat, n: nat): (r: seq<byte>)
    requires lo <= hi && hi + n <= |d|
    ensures |r| == |d|
  {
    Write(d, lo + n, d[lo..hi])
  }

  function SlideRegion(r: Region, lo: nat, hi: nat, n: nat): Region {
    if lo <= r.start < hi then r.(start := r.start + n) else r
  }

  /** What lies within lo..hi moves, what lies elsewhere stays; nothing may lie in the n bytes after hi. */
  lemma SlideContent(d: seq<byte>, lo: nat, hi: nat, n: nat, r: Region)
    requires lo <= hi && hi + n <= |d| && r.End() <= |d| && r.size > 0
    requires r.End() <= lo || (lo <= r.start && r.End() <= hi) || hi + n <= r.start
    ensures Content(Slide(d, lo, hi, n), SlideRegion(r, lo, hi, n)) == Content(d, r)
  {
    var d' := Slide(d, lo, hi, n);
    if lo <= r.start < hi {
      SlideIn(d, lo, hi, n, r);
    } else {
      SliceSame(d, d', lo + n, hi + n, r.start, r.End());
    }
  }

  lemma SlideIn(d: seq<byte>, lo: nat, hi: nat, n: nat, r: Region)
    requires lo <= r.start && r.End() <= hi && hi + n <= |d|
    ensures Slide(d, lo, hi, n)[r.start + n..r.End() + n] == d[r.start..r.End()]
  {
    var d', m := Slide(d, lo, hi, n), d[lo..hi];
    forall k | 0 <= k < r.size ensures d'[r.start + n..r.End() + n][k] == d[r.start..r.End()][k] {
      assert d'[r.start + n + k] == m[r.start + k - lo] == d[r.start + k];
    }
  }

  /** The region of a cell after what lies in front of one or two freeblocks has moved up. */
  function Shifted(r: Region, iFree: nat, sz: nat, iFree2: nat, sz2: nat): Region {
    if r.start < iFree then r.(start := r.start + sz) else if r.start < iFree2 then r.(start := r.start + sz2) else r
  }

  function ShiftedAll(cells: seq<Region>, iFree: nat, sz: nat, iFree2: nat, sz2: nat): (r: seq<Region>)
    ensures |r| == |cells| && forall i :: 0 <= i < |cells| ==> r[i] == Shifted(cells[i], iFree, sz, iFree2, sz2)
  {
    seq(|cells|, i requires 0 <= i < |cells| => Shifted(cells[i], iFree, sz, iFree2, sz2))
  }

  /** The second freeblock, as the code sees it: at 0 and empty if there is none. */
  function Second(blocks: seq<Region>): Region { if |blocks| == 2 then blocks[1] else Region(0, 0) }

  /** Where a cell can lie on a page with one or two freeblocks. */
  lemma CellPlaces(g: Geometry, v: View, i: nat)
    requires Layout(g, v) && 1 <= |v.blocks| <= 2 && i < |v.cells|
    ensures var r, b1, b2 := v.cells[i], v.blocks[0], Second(v.blocks);
            && v.top <= r.start && r.End() <= g.usable && r.size >= 4
            && (r.End() <= b1.start || (b1.End() <= r.start
               && (|v.blocks| == 2 ==> r.End() <= b2.start || b2.End() <= r.start)))
            && v.top < b1.start && b1.End() <= g.usable
               && (|v.blocks| == 2 ==> b1.End() + 4 <= b2.start && b2.End() <= g.usable && b2.size >= 4)
  {
    hide Sum;
    BlockInside(v.cells, v.top, g.usable, i);
    BlockInside(v.blocks, v.top + 1, g.usable, 0);
    assert Apart(v.cells[i], v.blocks[0]);
    if |v.blocks| == 2 {
      BlockInside(v.blocks, v.top + 1, g.usable, 1);
      assert Apart(v.cells[i], v.blocks[1]);
      OtherBlock(v.blocks, 0, 1);
    }
  }

  function ShiftedView(v: View): View
    requires 1 <= |v.blocks|
  {
    var b1, b2 := v.blocks[0], Second(v.blocks);
    View(ShiftedAll(v.cells, b1.start, b1.size + b2.size, b2.start, b2.size), [], v.top + b1.size + b2.size, v.frag)
  }

  lemma {:induction false} SumSizes(a: seq<Region>, b: seq<Region>)
    requires |a| == |b| && forall i :: 0 <= i < |a| ==> a[i].size == b[i].size
    ensures Sum(a) == Sum(b)
  {
    if a != [] { SumSizes(a[1..], b[1..]); }
  }

  lemma ShiftedLayout(g: Geometry, v: View)
    requires Layout(g, v) && 1 <= |v.blocks| <= 2 && v.cells != []
    ensures Layout(g, ShiftedView(v)) && FreeBytes(g, ShiftedView(v)) == FreeBytes(g, v)
  {
    hide Sum, Inside, Ascending, Cross, Disjoint, ShiftedAll;
    var v' := ShiftedView(v);
    SumSizes(v.cells, v'.cells);
    assert Sum(v.blocks) == v.blocks[0].size + Second(v.blocks).size by {
      SumOne(v.blocks[0]);
      if |v.blocks| == 2 {
        SumOne(v.blocks[1]);
        SumConcat([v.blocks[0]], [v.blocks[1]]);
        assert v.blocks == [v.blocks[0]] + [v.blocks[1]];
      } else {
        assert v.blocks == [v.blocks[0]];
      }
    }
    SumNone();
    CellPlaces(g, v, 0);
    ShiftedApart(g, v);
    assert Ascending(v'.blocks) && Inside(v'.blocks, v'.top + 1, g.usable) && Cross(v'.cells, v'.blocks) by {
      NoBlocks(v'.cells, v'.top + 1, g.usable);
    }
  }

  lemma NoBlocks(cells: seq<Region>, lo: nat, hi: nat)
    ensures Ascending([]) && Inside([], lo, hi) && Cross(cells, [])
  {
  }

  lemma ShiftedApart(g: Geometry, v: View)
    requires Layout(g, v) && 1 <= |v.blocks| <= 2
    ensures Inside(ShiftedView(v).cells, ShiftedView(v).top, g.usable) && Disjoint(ShiftedView(v).cells)
  {
    hide Sum, Layout, ShiftedAll;
    var v' := ShiftedView(v);
    forall i | 0 <= i < |v'.cells|
        ensures v'.top <= v'.cells[i].start && v'.cells[i].End() <= g.usable && v'.cells[i].size >= 4 {
      CellPlaces(g, v, i);
    }
    forall i, j | 0 <= i < j < |v'.cells| ensures Apart(v'.cells[i], v'.cells[j]) {
      CellPlaces(g, v, i);
      CellPlaces(g, v, j);
      CellsApart(g, v, i, j);
    }
  }

  lemma CellsApart(g: Geometry, v: View, i: nat, j: nat)
    requires Layout(g, v) && i < j < |v.cells|
    ensures Apart(v.cells[i], v.cells[j])
  {
    hide Sum;
  }

  /** The bytes of the page after the moves. */
  function Moved(d: seq<byte>, top: nat, b1: Region, b2: Region): (r: seq<byte>)
    requires top <= b1.start && b1.End() <= |d| && (b2.size > 0 ==> b1.End() <= b2.start && b2.End() <= |d|)
    ensures |r| == |d|
  {
    var d1 := if b2.size == 0 then d else Slide(d, b1.End(), b2.start, b2.size);
    Slide(d1, top, b1.start, b1.size + b2.size)
  }

  lemma MovedContent(g: Geometry, d: seq<byte>, v: View, i: nat)
    requires Layout(g, v) && 1 <= |v.blocks| <= 2 && i < |v.cells| && g.usable <= |d|
    ensures var b1, b2 := v.blocks[0], Second(v.blocks);
            && v.top <= b1.start && b1.End() <= |d| && (b2.size > 0 ==> b1.End() <= b2.start && b2.End() <= |d|)
            && Content(Moved(d, v.top, b1, b2), ShiftedView(v).cells[i]) == Content(d, v.cells[i])
  {
    hide Sum, Layout, ShiftedAll, Slide, Content;
    CellPlaces(g, v, i);
    var b1, b2, r := v.blocks[0], Second(v.blocks), v.cells[i];
    var d1 := if b2.size == 0 then d else Slide(d, b1.End(), b2.start, b2.size);
    var r1 := if b2.size == 0 then r else SlideRegion(r, b1.End(), b2.start, b2.size);
    if b2.size > 0 { SlideContent(d, b1.End(), b2.start, b2.size, r); }
    SlideContent(d1, v.top, b1.start, b1.size + b2.size, r1);
    assert SlideRegion(r1, v.top, b1.start, b1.size + b2.size) == ShiftedView(v).cells[i];
  }

  /** Only the content area changes. */
  lemma MovedLow(d: seq<byte>, top: nat, b1: Region, b2: Region)
    requires top <= b1.start && b1.End() <= |d| && (b2.size > 0 ==> b1.End() <= b2.start && b2.End() <= |d|)
    ensures SameOutside(d, Moved(d, top, b1, b2), top, |d|)
  {
  }

  /** The last writes of defragmentPage: new start of the content area, no freeblocks, an empty gap. */
  function Finish(g: Geometry, d: seq<byte>, gap: nat, cbrk: nat): (r: seq<byte>)
    requires g.hdr + 8 <= |d| && gap <= cbrk <= |d|
    ensures |r| == |d|
  {
    Write(Put2(Put2(d, g.hdr + 5, cbrk), g.hdr + 1, 0), gap, seq(cbrk - gap, _ => 0))
  }

  lemma FinishWrites(g: Geometry, d: seq<byte>, gap: nat, cbrk: nat)
    requires GeometryOk(g) && g.cellOffset <= gap <= cbrk <= |d| && cbrk < 0x1_0000
    ensures var d' := Finish(g, d, gap, cbrk);
            && SameExcept(d, d', {g.hdr + 5, g.hdr + 6, g.hdr + 1, g.hdr + 2} + Span(gap, cbrk))
            && Get2(d', g.hdr + 5) == cbrk && Get2(d', g.hdr + 1) == 0 && d'[g.hdr + 7] == d[g.hdr + 7]
  {
    hide Get2, Put2;
    var d1 := Put2(d, g.hdr + 5, cbrk);
    var d2 := Put2(d1, g.hdr + 1, 0);
    var d' := Write(d2, gap, seq(cbrk - gap, _ => 0));
    PutSame(d, d, {}, g.hdr + 5, cbrk);
    PutSame(d, d1, {} + {g.hdr + 5, g.hdr + 5 + 1}, g.hdr + 1, 0);
    PutGet(d, g.hdr + 5, cbrk);
    PutElsewhere(d1, g.hdr + 1, 0, g.hdr + 5);
    PutGet(d1, g.hdr + 1, 0);
    assert SameExcept(d2, d', Span(gap, cbrk));
    GetKept(d2, d', Span(gap, cbrk), g.hdr + 5);
    GetKept(d2, d', Span(gap, cbrk), g.hdr + 1);
    PutByte(d, g.hdr + 5, cbrk, g.hdr + 7);
    PutByte(d1, g.hdr + 1, 0, g.hdr + 7);
  }

  lemma FinishBytes(g: Geometry, d: seq<byte>, v: View)
    requires GeometryOk(g) && Layout(g, v) && v.blocks == [] && v.cells != [] && EncCells(g, d, v.cells)
    requires g.usable <= |d| && d[g.hdr + 7] == v.frag
    ensures SameCells(g, d, Finish(g, d, GapStart(g, v), v.top), v, v)
  {
    hide Sum, Get2, Finish, EncCells, Contents, Disjoint, Cross, Ascending;
    TopOfCells(g, v, 0);
    FinishWrites(g, d, GapStart(g, v), v.top);
    var d', s := Finish(g, d, GapStart(g, v), v.top),
        {g.hdr + 5, g.hdr + 6, g.hdr + 1, g.hdr + 2} + Span(GapStart(g, v), v.top);
    assert Chain(g, d', v.blocks) by { assert Link(g, d', v.blocks, 0); }
    forall x | x in s ensures Away(g, GapStart(g, v), v.cells, x) { }
    PointersKept(g, d, d', s, v.cells, v.cells);
    FramedBy(g, d, d', s);
    CellsHigh(g, v);
    ContentsKept(g, d, d', s, GapStart(g, v), v.cells);
  }

  /** The first pointers lead to the new places of their cells, the others to the old ones. */
  ghost predicate HalfPointers(g: Geometry, d: seq<byte>, cells: seq<Region>, cells': seq<Region>, i: nat) {
    && |cells'| == |cells| && g.hdr + 8 <= |d| && Get2(d, g.hdr + 3) == |cells|
    && forall j :: 0 <= j < |cells| ==> Pointer(g, d, j, if j < i then cells'[j] else cells[j])
  }

  /** Sets pointer i to the new place. */
  lemma PointerStep(g: Geometry, d: seq<byte>, cells: seq<Region>, cells': seq<Region>, i: nat)
    requires GeometryOk(g) && HalfPointers(g, d, cells, cells', i) && i < |cells| && cells'[i].start < 0x1_0000
    ensures g.cellOffset + 2 * i + 2 <= |d|
            && HalfPointers(g, Put2(d, g.cellOffset + 2 * i, cells'[i].start), cells, cells', i + 1)
    ensures SameOutside(d, Put2(d, g.cellOffset + 2 * i, cells'[i].start), g.cellOffset, g.cellOffset + 2 * |cells|)
  {
    hide Get2;
    assert Pointer(g, d, i, cells[i]);
    var a := g.cellOffset + 2 * i;
    PutElsewhere(d, a, cells'[i].start, g.hdr + 3);
    PutGet(d, a, cells'[i].start);
    forall j | 0 <= j < |cells|
        ensures Pointer(g, Put2(d, a, cells'[i].start), j, if j < i + 1 then cells'[j] else cells[j]) {
      assert Pointer(g, d, j, if j < i then cells'[j] else cells[j]);
      if j != i { PutElsewhere(d, a, cells'[i].start, g.cellOffset + 2 * j); }
    }
  }

  /** Adds the moves to the cell pointers. */
  method ShiftPointers(g: Geometry, d: seq<byte>, n: nat, iFree: nat, sz: nat, iFree2: nat, sz2: nat,
                       ghost cells: seq<Region>)
    returns (d': seq<byte>)
    requires GeometryOk(g) && EncCells(g, d, cells) && n == |cells|
    requires forall i :: 0 <= i < n ==> ShiftedAll(cells, iFree, sz, iFree2, sz2)[i].start < 0x1_0000
    ensures EncCells(g, d', ShiftedAll(cells, iFree, sz, iFree2, sz2))
            && SameOutside(d, d', g.cellOffset, g.cellOffset + 2 * n)
  {
    hide Get2, Put2, ShiftedAll;
    d' := d;
    ghost var cells' := ShiftedAll(cells, iFree, sz, iFree2, sz2);
    for i := 0 to n
      invariant HalfPointers(g, d', cells, cells', i) && SameOutside(d, d', g.cellOffset, g.cellOffset + 2 * n)
    {
      assert Pointer(g, d', i, cells[i]);
      PointerStep(g, d', cells, cells', i);
      var pc := Get2(d', g.cellOffset + 2 * i);
      if pc < iFree {
        d' := Put2(d', g.cellOffset + 2 * i, pc + sz);
      } else if pc < iFree2 {
        d' := Put2(d', g.cellOffset + 2 * i, pc + sz2);
      } else {
        SamePut(d', g.cellOffset + 2 * i);
      }
    }
  }

  lemma SamePut(d: seq<byte>, a: nat)
    requires a + 2 <= |d|
    ensures Put2(d, a, Get2(d, a)) == d
  {
  }

  /** The same cells at other places, and no freeblocks. */
  ghost predicate Defragged(g: Geometry, d: seq<byte>, d': seq<byte>, v: View, v': View) {
    && Framed(g, d, d') && Layout(g, v') && v'.blocks == [] && FreeBytes(g, v') == FreeBytes(g, v)
    && EncSpace(g, d', v') && EncCells(g, d', v'.cells)
    && |v'.cells| == |v.cells| && Contents(d', v'.cells) == Contents(d, v.cells)
    && forall i :: 0 <= i < |v.cells| ==> v'.cells[i].size == v.cells[i].size
  }

  /** Moving two stretches of cells, when there are at most two freeblocks. */
  method MoveCells(g: Geometry, d: seq<byte>, n: nat, top: nat, b1: Region, b2: Region, ghost v: View)
    returns (d': seq<byte>)
    requires GeometryOk(g) && Layout(g, v) && EncSpace(g, d, v) && EncCells(g, d, v.cells) && n == |v.cells| > 0
    requires 1 <= |v.blocks| <= 2 && top == v.top && b1 == v.blocks[0] && b2 == Second(v.blocks)
    ensures Defragged(g, d, d', v, ShiftedView(v))
  {
    hide Sum, Layout, Get2, Contents, EncCells, ShiftedAll, Moved, Finish, Chain;
    ghost var v' := ShiftedView(v);
    LayoutBounds(g, v);
    MovedContent(g, d, v, 0);
    var d1 := Moved(d, top, b1, b2);
    MovedLow(d, top, b1, b2);
    LowCells(g, d, d1, top, v.cells);
    ShiftedLayout(g, v);
    LayoutBounds(g, v');
    LayoutStarts(g, v');
    var d2 := ShiftPointers(g, d1, n, b1.start, b1.size + b2.size, b2.start, b2.size, v.cells);
    d' := Finish(g, d2, g.cellOffset + 2 * n, top + b1.size + b2.size);
    assert d2[g.hdr + 7] == d1[g.hdr + 7] == d[g.hdr + 7];
    FinishBytes(g, d2, v');
    BlocksBounds(g, v);
    MovedFrame(g, d, d1, d2, top, b1, b2, g.cellOffset + 2 * n);
    FramedTwice(g, d, d2, d');
    MovedContents(g, d, d1, d2, v);
  }

  lemma MovedFrame(g: Geometry, d: seq<byte>, d1: seq<byte>, d2: seq<byte>, top: nat, b1: Region, b2: Region, hi: nat)
    requires GeometryOk(g) && g.cellOffset <= top <= b1.start && b1.End() <= g.usable <= |d| && hi <= g.usable
    requires b2.size > 0 ==> b1.End() <= b2.start && b2.End() <= g.usable
    requires d1 == Moved(d, top, b1, b2) && SameOutside(d1, d2, g.cellOffset, hi)
    ensures Framed(g, d, d2)
  {
    hide Moved, Framed, SameOutside;
    MovedHigh(d, top, b1, b2, g.usable);
    FramedRange(g, d, d1, top, g.usable);
    FramedRange(g, d1, d2, g.cellOffset, hi);
    FramedTwice(g, d, d1, d2);
  }

  lemma BlocksBounds(g: Geometry, v: View)
    requires Layout(g, v)
    ensures forall i :: 0 <= i < |v.blocks| ==> v.blocks[i].End() <= g.usable
  {
    hide Sum;
  }

  lemma MovedHigh(d: seq<byte>, top: nat, b1: Region, b2: Region, hi: nat)
    requires top <= b1.start && b1.End() <= hi <= |d| && (b2.size > 0 ==> b1.End() <= b2.start && b2.End() <= hi)
    ensures SameOutside(d, Moved(d, top, b1, b2), top, hi)
  {
  }

  lemma LayoutBounds(g: Geometry, v: View)
    requires GeometryOk(g) && Layout(g, v)
    ensures g.cellOffset + 2 * |v.cells| <= v.top <= g.usable && v.frag <= 60
  {
    hide Sum;
  }

  lemma LayoutStarts(g: Geometry, v: View)
    requires GeometryOk(g) && Layout(g, v)
    ensures forall i :: 0 <= i < |v.cells| ==> v.top <= v.cells[i].start < 0x1_0000
  {
    hide Sum;
    forall i | 0 <= i < |v.cells| ensures v.top <= v.cells[i].start < 0x1_0000 {
      BlockInside(v.cells, v.top, g.usable, i);
    }
  }

  lemma LowCells(g: Geometry, d: seq<byte>, d': seq<byte>, top: nat, cells: seq<Region>)
    requires GeometryOk(g) && EncCells(g, d, cells) && SameOutside(d, d', top, |d|) && g.cellOffset + 2 * |cells| <= top
    ensures EncCells(g, d', cells)
  {
    hide Get2;
    GetSame(d, d', top, |d|, g.hdr + 3);
    forall i | 0 <= i < |cells| ensures Pointer(g, d', i, cells[i]) {
      assert Pointer(g, d, i, cells[i]);
      GetSame(d, d', top, |d|, g.cellOffset + 2 * i);
    }
  }

  lemma MovedContents(g: Geometry, d: seq<byte>, d1: seq<byte>, d2: seq<byte>, v: View)
    requires GeometryOk(g) && Layout(g, v) && 1 <= |v.blocks| <= 2 && g.usable <= |d| && v.cells != []
    requires var b1, b2 := v.blocks[0], Second(v.blocks);
             && v.top <= b1.start && b1.End() <= |d| && (b2.size > 0 ==> b1.End() <= b2.start && b2.End() <= |d|)
             && d1 == Moved(d, v.top, b1, b2)
    requires SameOutside(d1, d2, g.cellOffset, g.cellOffset + 2 * |v.cells|)
    ensures Contents(d2, ShiftedView(v).cells) == Contents(d, v.cells)
  {
    hide Sum, Layout, ShiftedAll, Moved;
    var cells' := ShiftedView(v).cells;
    ShiftedLayout(g, v);
    LayoutBounds(g, ShiftedView(v));
    LayoutStarts(g, ShiftedView(v));
    forall i | 0 <= i < |cells'| ensures Content(d2, cells'[i]) == Content(d, v.cells[i]) {
      MovedContent(g, d, v, i);
      OutsideContent(d1, d2, g.cellOffset, g.cellOffset + 2 * |v.cells|, cells'[i]);
    }
  }

  lemma OutsideContent(d: seq<byte>, d': seq<byte>, lo: nat, hi: nat, r: Region)
    requires SameOutside(d, d', lo, hi) && (r.End() <= lo || hi <= r.start)
    ensures Content(d', r) == Content(d, r)
  {
    if r.End() <= |d| { SliceSame(d, d', lo, hi, r.start, r.End()); }
  }

  // ----- Rebuilding the whole page

  /** The cells packed from the end of the page downwards. */
  function PackedCell(cells: seq<Region>, usable: nat, i: nat): Region
    requires i < |cells|
  {
    var start := usable - Sum(cells[..i + 1]);
    Region(if start >= 0 then start else 0, cells[i].size)
  }

  function PackedCells(cells: seq<Region>, usable: nat): (r: seq<Region>)
    ensures |r| == |cells| && forall i :: 0 <= i < |cells| ==> r[i] == PackedCell(cells, usable, i)
  {
    seq(|cells|, i requires 0 <= i < |cells| => PackedCell(cells, usable, i))
  }

  lemma SumPrefix(cells: seq<Region>, i: nat)
    requires i < |cells|
    ensures Sum(cells[..i + 1]) == Sum(cells[..i]) + cells[i].size <= Sum(cells)
  {
    hide Sum;
    assert cells[..i + 1] == cells[..i] + [cells[i]];
    SumConcat(cells[..i], [cells[i]]);
    SumOne(cells[i]);
    assert cells == cells[..i + 1] + cells[i + 1..];
    SumConcat(cells[..i + 1], cells[i + 1..]);
  }

  lemma SumPrefixes(cells: seq<Region>, i: nat, j: nat)
    requires i <= j <= |cells|
    ensures Sum(cells[..i]) <= Sum(cells[..j]) <= Sum(cells)
  {
    hide Sum;
    assert cells[..j] == cells[..i] + cells[i..j];
    SumConcat(cells[..i], cells[i..j]);
    assert cells == cells[..j] + cells[j..];
    SumConcat(cells[..j], cells[j..]);
  }

  lemma PackedPlace(cells: seq<Region>, usable: nat, i: nat)
    requires i < |cells| && Sum(cells) <= usable
    ensures var r := PackedCell(cells, usable, i);
            r.start == usable - Sum(cells[..i]) - cells[i].size && r.End() == usable - Sum(cells[..i])
                && r.start >= usable - Sum(cells)
  {
    SumPrefix(cells, i);
  }

  function PackedView(g: Geometry, v: View): View {
    var start := g.usable - Sum(v.cells);
    View(PackedCells(v.cells, g.usable), [], if start >= 0 then start else 0, 0)
  }

  lemma PackedLayout(g: Geometry, v: View)
    requires GeometryOk(g) && Layout(g, v)
    ensures Layout(g, PackedView(g, v)) && FreeBytes(g, PackedView(g, v)) == FreeBytes(g, v)
    ensures PackedView(g, v).top == g.usable - Sum(v.cells) >= v.top
  {
    hide Sum, Inside, Disjoint, Cross, Ascending, PackedCell;
    var v' := PackedView(g, v);
    forall i | 0 <= i < |v.cells| ensures v'.cells[i].size == v.cells[i].size { PackedPlaceSize(v.cells, g.usable, i); }
    SumSizes(v.cells, v'.cells);
    SumNone();
    PackedApart(g, v);
    NoBlocks(v'.cells, v'.top + 1, g.usable);
  }

  lemma PackedPlaceSize(cells: seq<Region>, usable: nat, i: nat)
    requires i < |cells|
    ensures PackedCell(cells, usable, i).size == cells[i].size
  {
  }

  lemma PackedApart(g: Geometry, v: View)
    requires GeometryOk(g) && Layout(g, v)
    ensures var v' := PackedView(g, v); Inside(v'.cells, v'.top, g.usable) && Disjoint(v'.cells)
  {
    hide Sum, PackedCell;
    var v' := PackedView(g, v);
    forall i | 0 <= i < |v.cells|
        ensures v'.top <= v'.cells[i].start && v'.cells[i].End() <= g.usable && v'.cells[i].size >= 4 {
      PackedPlace(v.cells, g.usable, i);
      PackedPlaceSize(v.cells, g.usable, i);
    }
    forall i, j | 0 <= i < j < |v.cells| ensures Apart(v'.cells[i], v'.cells[j]) {
      PackedPlace(v.cells, g.usable, i);
      PackedPlace(v.cells, g.usable, j);
      SumPrefix(v.cells, i);
      SumPrefixes(v.cells, i + 1, j);
    }
  }

  /** Cell j can still be read from src. */
  ghost predicate Readable(d: seq<byte>, src: seq<byte>, cells: seq<Region>, i: nat) {
    forall j :: i <= j < |cells| ==> Content(src, cells[j]) == Content(d, cells[j])
  }

  /** The first cells have been written to their new places. */
  ghost predicate Written(d: seq<byte>, d': seq<byte>, cells: seq<Region>, cells': seq<Region>, i: nat)
    requires |cells| == |cells'|
  {
    forall j :: 0 <= j < i && j < |cells| ==> Content(d', cells'[j]) == Content(d, cells[j])
  }

  /** While no cell has been moved, the cells to come all lie below the ones already in place. */
  ghost predicate AllBelow(cells: seq<Region>, i: nat, cbrk: int) {
    forall j :: i <= j < |cells| ==> cells[j].End() <= cbrk
  }

  /** The header and what is behind the usable part have not been written. */
  ghost predicate EdgesKept(g: Geometry, d: seq<byte>, d': seq<byte>) {
    |d'| == |d| && forall x :: 0 <= x < |d| && (x < g.cellOffset || g.usable <= x) ==> d'[x] == d[x]
  }

  ghost predicate Rebuilding(g: Geometry, d: seq<byte>, d': seq<byte>, src: seq<byte>, moved: bool, v: View, i: nat,
                             cbrk: int) {
    && i <= |v.cells| && cbrk == g.usable - Sum(v.cells[..i]) && |d'| == |d| && g.cellOffset <= |d|
    && HalfPointers(g, d', v.cells, PackedCells(v.cells, g.usable), i)
    && Written(d, d', v.cells, PackedCells(v.cells, g.usable), i)
    && Readable(d, if moved then src else d', v.cells, i)
    && (!moved ==> AllBelow(v.cells, i, cbrk)) && (moved ==> |src| == |d|)
    && EdgesKept(g, d, d')
  }

  /** Writing the pointer keeps all contents. */
  lemma RebuildPointer(g: Geometry, d: seq<byte>, d': seq<byte>, src: seq<byte>, moved: bool, v: View, i: nat,
                       cbrk: int)
    requires GeometryOk(g) && Layout(g, v) && Rebuilding(g, d, d', src, moved, v, i, cbrk) && i < |v.cells|
    ensures var c := PackedCells(v.cells, g.usable)[i].start;
            && c == cbrk - v.cells[i].size && g.cellOffset + 2 * |v.cells| <= c < 0x1_0000
               && c + v.cells[i].size <= g.usable
            && g.cellOffset + 2 * i + 2 <= |d'| && Get2(d', g.cellOffset + 2 * i) == v.cells[i].start
            && var d1 := Put2(d', g.cellOffset + 2 * i, c);
               && HalfPointers(g, d1, v.cells, PackedCells(v.cells, g.usable), i + 1)
               && Written(d, d1, v.cells, PackedCells(v.cells, g.usable), i)
               && Readable(d, if moved then src else d1, v.cells, i)
               && EdgesKept(g, d, d1)
  {
    hide Sum, Get2, Put2, PackedCell, Layout, Content;
    var cells' := PackedCells(v.cells, g.usable);
    LayoutBounds(g, v);
    PackedLayout(g, v);
    LayoutStarts(g, PackedView(g, v));
    LayoutStarts(g, v);
    LayoutBounds(g, PackedView(g, v));
    PackedPlace(v.cells, g.usable, i);
    PackedPlaceSize(v.cells, g.usable, i);
    CellSize(g, v, i);
    PointerStep(g, d', v.cells, cells', i);
    assert Pointer(g, d', i, v.cells[i]);
    var d1 := Put2(d', g.cellOffset + 2 * i, cells'[i].start);
    forall r: Region | v.top <= r.start ensures Content(d1, r) == Content(d', r) {
      OutsideContent(d', d1, g.cellOffset, g.cellOffset + 2 * |v.cells|, r);
    }
  }

  lemma CellSize(g: Geometry, v: View, i: nat)
    requires GeometryOk(g) && Layout(g, v) && i < |v.cells|
    ensures v.cells[i].size >= 4 && v.cells[i].End() <= g.usable && v.top <= v.cells[i].start
  {
    hide Sum;
    BlockInside(v.cells, v.top, g.usable, i);
  }

  /** A cell that is already in its place. */
  lemma RebuildInPlace(g: Geometry, d: seq<byte>, d1: seq<byte>, src: seq<byte>, v: View, i: nat, cbrk: int)
    requires GeometryOk(g) && Layout(g, v) && i < |v.cells| && |d1| == |d| && g.cellOffset <= |d|
    requires cbrk == g.usable - Sum(v.cells[..i])
             && PackedCells(v.cells, g.usable)[i].start == v.cells[i].start == cbrk - v.cells[i].size
    requires HalfPointers(g, d1, v.cells, PackedCells(v.cells, g.usable), i + 1)
             && Written(d, d1, v.cells, PackedCells(v.cells, g.usable), i)
    requires Readable(d, d1, v.cells, i) && AllBelow(v.cells, i, cbrk)
             && EdgesKept(g, d, d1)
    ensures Rebuilding(g, d, d1, src, false, v, i + 1, cbrk - v.cells[i].size)
  {
    hide Sum, Layout, HalfPointers, PackedCell, Content;
    SumPrefix(v.cells, i);
    PackedPlaceSize(v.cells, g.usable, i);
    assert PackedCells(v.cells, g.usable)[i] == v.cells[i];
    forall j | i + 1 <= j < |v.cells| ensures v.cells[j].End() <= cbrk - v.cells[i].size {
      CellsApart(g, v, i, j);
      CellSize(g, v, j);
    }
  }

  lemma SubSlice(s: seq<byte>, a: nat, b: nat, i: nat, j: nat)
    requires a <= i <= j <= b <= |s|
    ensures s[i..j] == s[a..b][i - a..j - a]
  {
    var t := s[a..b];
    forall k | 0 <= k < j - i ensures s[i..j][k] == t[i - a..j - a][k] { assert t[i - a + k] == s[i + k]; }
  }

  /** The cells to come are all in the part that is copied to the scratch buffer. */
  lemma RebuildCopy(g: Geometry, d: seq<byte>, d1: seq<byte>, scratch: seq<byte>, v: View, i: nat, cbrk: nat)
    requires GeometryOk(g) && Layout(g, v) && Readable(d, d1, v.cells, i) && AllBelow(v.cells, i, cbrk)
    requires i < |v.cells| && cbrk <= |d1| == |scratch|
    ensures v.top <= cbrk
    ensures Readable(d, Write(scratch, v.top, d1[v.top..cbrk]), v.cells, i)
  {
    hide Sum, Layout;
    CellSize(g, v, i);
    assert v.cells[i].End() <= cbrk;
    var src := Write(scratch, v.top, d1[v.top..cbrk]);
    forall j | i <= j < |v.cells| ensures Content(src, v.cells[j]) == Content(d, v.cells[j]) {
      CellSize(g, v, j);
      var r := v.cells[j];
      assert Content(d1, r) == Content(d, r);
      assert src[v.top..cbrk] == d1[v.top..cbrk];
      SubSlice(src, v.top, cbrk, r.start, r.End());
      SubSlice(d1, v.top, cbrk, r.start, r.End());
    }
  }

  /** A cell that is copied to its new place. */
  lemma RebuildMove(g: Geometry, d: seq<byte>, d1: seq<byte>, src: seq<byte>, v: View, i: nat, cbrk: int)
    requires GeometryOk(g) && Layout(g, v) && i < |v.cells| && |d1| == |d| == |src| && g.usable <= |d|
    requires cbrk == g.usable - Sum(v.cells[..i])
             && PackedCells(v.cells, g.usable)[i].start == cbrk - v.cells[i].size >= g.cellOffset + 2 * |v.cells|
    requires cbrk <= g.usable
    requires HalfPointers(g, d1, v.cells, PackedCells(v.cells, g.usable), i + 1)
             && Written(d, d1, v.cells, PackedCells(v.cells, g.usable), i)
    requires Readable(d, src, v.cells, i)
             && EdgesKept(g, d, d1)
    ensures v.cells[i].End() <= |src|
    ensures Rebuilding(g, d, Write(d1, PackedCells(v.cells, g.usable)[i].start,
            src[v.cells[i].start..v.cells[i].End()]), src, true, v, i + 1, cbrk - v.cells[i].size)
  {
    hide Sum, Layout, PackedCell, Content;
    SumPrefix(v.cells, i);
    PackedPlaceSize(v.cells, g.usable, i);
    CellSize(g, v, i);
    var cells', r := PackedCells(v.cells, g.usable), v.cells[i];
    var r' := cells'[i];
    var d' := Write(d1, r'.start, src[r.start..r.End()]);
    assert SameOutside(d1, d', r'.start, r'.End());
    HalfKept(g, d1, d', r'.start, r'.End(), v.cells, cells', i + 1);
    assert Content(d', r') == Content(src, r) by { WrittenContent(d1, r'.start, src, r); }
    forall j | 0 <= j < i ensures Content(d', cells'[j]) == Content(d1, cells'[j]) {
      PackedAbove(g, v, j, i);
      OutsideContent(d1, d', r'.start, r'.End(), cells'[j]);
    }
  }

  lemma PackedAbove(g: Geometry, v: View, j: nat, i: nat)
    requires GeometryOk(g) && Layout(g, v) && j < i < |v.cells|
    ensures PackedCells(v.cells, g.usable)[i].End() <= PackedCells(v.cells, g.usable)[j].start
  {
    hide Sum, Layout, PackedCell;
    PackedLayout(g, v);
    LayoutSum(g, v);
    PackedPlace(v.cells, g.usable, i);
    PackedPlace(v.cells, g.usable, j);
    SumPrefix(v.cells, j);
    SumPrefixes(v.cells, j + 1, i);
  }

  lemma LayoutSum(g: Geometry, v: View)
    requires Layout(g, v)
    ensures Sum(v.cells) <= g.usable - v.top && v.frag + Sum(v.blocks) <= g.usable - v.top
  {
  }

  lemma WrittenContent(d: seq<byte>, a: nat, src: seq<byte>, r: Region)
    requires r.End() <= |src| && a + r.size <= |d|
    ensures Content(Write(d, a, src[r.start..r.End()]), Region(a, r.size)) == Content(src, r)
  {
  }

  lemma HalfKept(g: Geometry, d: seq<byte>, d': seq<byte>, lo: nat, hi: nat, cells: seq<Region>, cells': seq<Region>,
                 i: nat)
    requires GeometryOk(g) && HalfPointers(g, d, cells, cells', i) && SameOutside(d, d', lo, hi)
             && g.cellOffset + 2 * |cells| <= lo
    ensures HalfPointers(g, d', cells, cells', i)
  {
    hide Get2;
    GetSame(d, d', lo, hi, g.hdr + 3);
    forall j | 0 <= j < |cells| ensures Pointer(g, d', j, if j < i then cells'[j] else cells[j]) {
      assert Pointer(g, d, j, if j < i then cells'[j] else cells[j]);
      GetSame(d, d', lo, hi, g.cellOffset + 2 * j);
    }
  }

  /** Packs the cells anew, through a scratch buffer from the first cell on that has to move. */
  method Rebuild(g: Geometry, d: seq<byte>, sizes: seq<nat>, scratch: seq<byte>, ghost v: View)
    returns (ok: bool, d': seq<byte>, cbrk: nat)
    requires GeometryOk(g) && Layout(g, v) && EncSpace(g, d, v) && EncCells(g, d, v.cells) && v.cells != []
    requires |sizes| == |v.cells| && (forall i :: 0 <= i < |sizes| ==> sizes[i] == v.cells[i].size) && |scratch| == |d|
    ensures ok && cbrk == g.usable - Sum(v.cells) && |d'| == |d| && EncCells(g, d', PackedCells(v.cells, g.usable))
    ensures Contents(d', PackedCells(v.cells, g.usable)) == Contents(d, v.cells) && Framed(g, d, d')
  {
    hide Sum, Layout, PackedCell, PackedCells, Get2, Put2, Content, Contents, Chain, EncCells, HalfPointers, Written,
      Readable, AllBelow, EdgesKept, Framed;
    LayoutBounds(g, v);
    TopOfCells(g, v, 0);
    var n, first := |sizes|, g.cellOffset + 2 * |sizes|;
    var src, moved := d, false;
    ok, d', cbrk := true, d, g.usable;
    RebuildStart(g, d, v);
    for i := 0 to n
      invariant ok && Rebuilding(g, d, d', src, moved, v, i, cbrk) && cbrk <= g.usable
    {
      RebuildPointer(g, d, d', src, moved, v, i, cbrk);
      CellSize(g, v, i);
      var a := g.cellOffset + 2 * i;
      var pc, size := Get2(d', a), sizes[i];
      if pc < first || pc > g.usable - 4 { ok := false; return; }
      if cbrk - size < first || pc + size > g.usable { ok := false; return; }
      cbrk := cbrk - size;
      d' := Put2(d', a, cbrk);
      if !moved && cbrk == pc {
        RebuildInPlace(g, d, d', src, v, i, cbrk + size);
      } else {
        if !moved {
          GetLow(g, d, d', g.hdr + 5);
          var x := Get2(d', g.hdr + 5);
          RebuildCopy(g, d, d', scratch, v, i, cbrk + size);
          src, moved := Write(scratch, x, d'[x..cbrk + size]), true;
        }
        RebuildMove(g, d, d', src, v, i, cbrk + size);
        d' := Write(d', cbrk, src[pc..pc + size]);
      }
    }
    RebuildEnd(g, d, d', src, moved, v, cbrk);
  }

  lemma RebuildEnd(g: Geometry, d: seq<byte>, d': seq<byte>, src: seq<byte>, moved: bool, v: View, cbrk: int)
    requires Rebuilding(g, d, d', src, moved, v, |v.cells|, cbrk)
    ensures cbrk == g.usable - Sum(v.cells) && EncCells(g, d', PackedCells(v.cells, g.usable))
    ensures Contents(d', PackedCells(v.cells, g.usable)) == Contents(d, v.cells)
    ensures GeometryOk(g) ==> Framed(g, d, d')
  {
    hide Sum, PackedCell, Get2, Content;
    assert v.cells[..|v.cells|] == v.cells;
    var cells' := PackedCells(v.cells, g.usable);
    forall i | 0 <= i < |cells'| ensures Pointer(g, d', i, cells'[i]) { }
  }

  lemma GetLow(g: Geometry, d: seq<byte>, d': seq<byte>, a: nat)
    requires EdgesKept(g, d, d') && a + 2 <= g.cellOffset <= |d|
    ensures Get2(d', a) == Get2(d, a)
  {
  }

  lemma RebuildStart(g: Geometry, d: seq<byte>, v: View)
    requires GeometryOk(g) && Layout(g, v) && EncSpace(g, d, v) && EncCells(g, d, v.cells)
    ensures Rebuilding(g, d, d, d, false, v, 0, g.usable)
  {
    hide Layout, PackedCell, Get2, Content, Chain;
    assert v.cells[..0] == [];
    forall j | 0 <= j < |v.cells| ensures v.cells[j].End() <= g.usable { CellSize(g, v, j); }
  }

  /** The layout after defragmentation: with few fragments and one or two freeblocks, what lies in front of
      these moves up; otherwise all cells are packed at the end of the page. */
  ghost function DefragView(g: Geometry, v: View, nMaxFrag: int): View {
    if v.frag <= nMaxFrag && 1 <= |v.blocks| <= 2 then ShiftedView(v) else PackedView(g, v)
  }

  /** Brings all free bytes, except at most nMaxFrag fragments, into the gap.  The cells keep their
      bytes and their order. */
  method DefragmentPage(g: Geometry, d: seq<byte>, nMaxFrag: int, nFree: int, sizes: seq<nat>, scratch: seq<byte>,
                        ghost v: View)
    returns (ok: bool, d': seq<byte>, ghost v': View)
    requires GeometryOk(g) && Layout(g, v) && EncSpace(g, d, v) && EncCells(g, d, v.cells) && v.cells != []
    requires |sizes| == |v.cells| && (forall i :: 0 <= i < |sizes| ==> sizes[i] == v.cells[i].size) && |scratch| == |d|
    requires nFree == FreeBytes(g, v)
    ensures ok && Defragged(g, d, d', v, v') && (v'.frag == 0 || v'.frag <= nMaxFrag)
    ensures v' == DefragView(g, v, nMaxFrag)
  {
    hide Sum, Inside, Disjoint, Cross, Ascending, Get2, Contents, EncCells, ShiftedAll, PackedCells, Finish,
      Framed;
    var n := |sizes|;
    TopOfCells(g, v, 0);
    assert Link(g, d, v.blocks, 0);
    BlockInside(v.blocks, v.top + 1, g.usable, 0);
    if d[g.hdr + 7] <= nMaxFrag {
      var iFree := Get2(d, g.hdr + 1);
      if iFree != 0 {
        assert Link(g, d, v.blocks, 1) && SizeField(d, v.blocks[0]);
        var iFree2 := Get2(d, iFree);
        if 1 < |v.blocks| {
          BlockInside(v.blocks, v.top + 1, g.usable, 1);
          assert Link(g, d, v.blocks, 2) && SizeField(d, v.blocks[1]);
        }
        if 2 < |v.blocks| { BlockInside(v.blocks, v.top + 1, g.usable, 2); }
        if iFree2 == 0 || Get2(d, iFree2) == 0 {
          var sz, top := Get2(d, iFree + 2), Get2(d, g.hdr + 5);
          if top >= iFree { ok := false; return; }
          var b2 := if iFree2 == 0 then Region(0, 0) else Region(iFree2, Get2(d, iFree2 + 2));
          d' := MoveCells(g, d, n, top, Region(iFree, sz), b2, v);
          v' := ShiftedView(v);
          assert nFree == v'.frag + v'.top - GapStart(g, v') by { SumNone(); }
          if d[g.hdr + 7] + (top + sz + b2.size) - (g.cellOffset + 2 * n) != nFree { ok := false; return; }
          return true, d', v';
        }
      }
    }
    var cbrk;
    ok, d', cbrk := Rebuild(g, d, sizes, scratch, v);
    v' := PackedView(g, v);
    PackedLayout(g, v);
    ghost var d1 := d';
    d' := PutFrag(g, d', 0);
    RebuiltFrag(g, d1, d', v');
    assert nFree == v'.frag + v'.top - GapStart(g, v') by { SumNone(); }
    if cbrk - (g.cellOffset + 2 * n) != nFree { ok := false; return; }
    FinishBytes(g, d', v');
    FramedTwice(g, d, d1, d');
    FramedTwice(g, d, d', Finish(g, d', g.cellOffset + 2 * n, cbrk));
    d' := Finish(g, d', g.cellOffset + 2 * n, cbrk);
    PackedSizes(v.cells, g.usable);
  }

  lemma PackedSizes(cells: seq<Region>, usable: nat)
    ensures forall i :: 0 <= i < |cells| ==> PackedCells(cells, usable)[i].size == cells[i].size
  {
  }

  lemma RebuiltFrag(g: Geometry, d: seq<byte>, d': seq<byte>, v: View)
    requires GeometryOk(g) && Layout(g, v) && EncCells(g, d, v.cells) && d' == PutFrag(g, d, 0)
    ensures EncCells(g, d', v.cells) && Contents(d', v.cells) == Contents(d, v.cells) && Framed(g, d, d')
  {
    hide Contents, Sum, Get2;
    assert SameExcept(d, d', {g.hdr + 7});
    FramedBy(g, d, d', {g.hdr + 7});
    CellsHigh(g, v);
    PointersKept(g, d, d', {g.hdr + 7}, v.cells, v.cells);
    ContentsKept(g, d, d', {g.hdr + 7}, |v.cells|, v.cells);
  }

  // ----- allocateSpace, insertCell and dropCell

  /** Room for n bytes has been set aside; the cells are the same, though perhaps at other places. */
  ghost predicate RoomMade(g: Geometry, d: seq<byte>, d': seq<byte>, v: View, v': View, r: Region) {
    && Framed(g, d, d') && Reserved(g, v', r) && FreeBytes(g, v') == FreeBytes(g, v) - r.size && EncSpace(g, d', v')
       && EncCells(g, d', v'.cells)
    && |v'.cells| == |v.cells| && Contents(d', v'.cells) == Contents(d, v.cells)
    && forall i :: 0 <= i < |v.cells| ==> v'.cells[i].size == v.cells[i].size
  }

  lemma GapBytes(g: Geometry, d: seq<byte>, v: View, n: nat)
    requires GeometryOk(g) && Layout(g, v) && EncSpace(g, d, v) && EncCells(g, d, v.cells) && n >= 4
             && GapStart(g, v) + 2 + n <= v.top
    ensures RoomMade(g, d, Put2(d, g.hdr + 5, v.top - n), v, v.(top := v.top - n), Region(v.top - n, n))
  {
    hide Sum, Get2, Put2, Contents, EncCells, Disjoint, Cross, Ascending;
    var top := v.top - n;
    GapReserved(g, v, n);
    var d', s := Put2(d, g.hdr + 5, top), {g.hdr + 5, g.hdr + 6};
    PutGet(d, g.hdr + 5, top);
    PutByte(d, g.hdr + 5, top, g.hdr + 7);
    PutSame(d, d, {}, g.hdr + 5, top);
    assert SameExcept(d, d', s);
    forall x | x in s ensures Away(g, GapStart(g, v), v.cells, x) { }
    ChainKept(g, d, d', s, v.blocks);
    PointersKept(g, d, d', s, v.cells, v.cells);
    FramedBy(g, d, d', s);
    CellsHigh(g, v);
    ContentsKept(g, d, d', s, GapStart(g, v), v.cells);
  }

  lemma SlotRoom(g: Geometry, d: seq<byte>, d': seq<byte>, v: View, k: nat, n: nat)
    requires Layout(g, v) && GapStart(g, v) + 2 <= v.top && n >= 4 && k < |v.blocks| && v.blocks[k].size >= n
    requires v.blocks[k].size - n < 4 ==> v.frag <= 57
    requires SameCells(g, d, d', v, TakeSlot(v, k, n))
    ensures RoomMade(g, d, d', v, TakeSlot(v, k, n), Region(v.blocks[k].start + v.blocks[k].size - n, n))
  {
    hide Sum, Layout, Contents, EncCells, Reserved, EncSpace;
    SlotReserved(g, v, k, n);
    TakeSlotCells(v, k, n);
  }

  /** After defragmenting, the gap is large enough. */
  lemma DefraggedRoom(g: Geometry, d: seq<byte>, d': seq<byte>, v: View, v': View, n: nat)
    requires GeometryOk(g) && Defragged(g, d, d', v, v') && v.cells != [] && n >= 4
    requires FreeBytes(g, v) >= n + 2 && (v'.frag == 0 || v'.frag <= FreeBytes(g, v) - (2 + n))
    ensures 0 < v'.top < 0x1_0000 && g.hdr + 8 <= |d'| && Get2(d', g.hdr + 5) == v'.top && v'.top >= n
    ensures RoomMade(g, d, Put2(d', g.hdr + 5, v'.top - n), v, v'.(top := v'.top - n), Region(v'.top - n, n))
  {
    hide Sum, Layout, Contents, EncCells, Reserved, Chain, Put2, Get2;
    SumNone();
    TopOfCells(g, v', 0);
    LayoutBounds(g, v');
    GapBytes(g, d', v', n);
    FramedTwice(g, d, d', Put2(d', g.hdr + 5, v'.top - n));
  }

  /** Where the room comes from: the first freeblock that has it, unless there is no room for the cell pointer or
      that would leave too many fragments; otherwise the gap, after the page has been defragmented if that is
      too small.  Only then do cells move. */
  ghost predicate RoomTaken(g: Geometry, v: View, n: nat, v': View) {
    if GapStart(g, v) + 2 <= v.top && !NoSlot(v, n) then exists k :: FirstFit(v.blocks, n, k) && v' == TakeSlot(v, k, n)
    else if GapStart(g, v) + 2 + n <= v.top then v' == LowerTop(v, n)
    else
      var most := FreeBytes(g, v) - (2 + n);
      v' == LowerTop(DefragView(g, v, if most < 4 then most else 4), n)
  }

  ghost function LowerTop(v: View, n: nat): View { if n <= v.top then v.(top := v.top - n) else v }

  /** Makes room for n bytes and a cell pointer.  It never fails when there are that many free bytes. */
  method AllocateSpace(g: Geometry, d: seq<byte>, n: nat, nFree: int, sizes: seq<nat>, scratch: seq<byte>,
                       ghost v: View)
    returns (ok: bool, d': seq<byte>, at: nat, ghost v': View)
    requires GeometryOk(g) && Layout(g, v) && Reset(g, v) && EncSpace(g, d, v) && EncCells(g, d, v.cells)
    requires |sizes| == |v.cells| && (forall i :: 0 <= i < |sizes| ==> sizes[i] == v.cells[i].size) && |scratch| == |d|
    requires nFree == FreeBytes(g, v) && n >= 4 && nFree >= n + 2
    ensures ok && RoomMade(g, d, d', v, v', Region(at, n))
    ensures RoomTaken(g, v, n, v')
  {
    hide Sum, Inside, Disjoint, Cross, Ascending, Get2, Put2, Contents, EncCells, TakeSlot, RoomMade, SameCells,
      SlotTaken, Defragged, NoSlot, FirstFit, DefragView;
    EmptySlots(v, n);
    ok, d', at, v' := true, d, 0, v;
    var gap := g.cellOffset + 2 * |sizes|;
    var top := Get2(d, g.hdr + 5);
    TopStored(g, v);
    if gap > top {
      if top == 0 && g.usable == 0x1_0000 { top := 0x1_0000; } else { ok := false; return; }
    }
    assert top == v.top;
    assert Link(g, d, v.blocks, 0);
    BlockInside(v.blocks, v.top + 1, g.usable, 0);
    if Get2(d, g.hdr + 1) != 0 && gap + 2 <= top {
      var found;
      ghost var k;
      ok, found, d', at, k := PageFindSlot(g, d, n, v);
      if found {
        v' := TakeSlot(v, k, n);
        SlotSame(g, d, d', v, k, n);
        SlotRoom(g, d, d', v, k, n);
        TakeSlotCells(v, k, n);
        return;
      } else if !ok {
        return;
      }
    }
    if gap + 2 + n > top {
      assert v.cells != [] by { SumNone(); }
      var most := nFree - (2 + n);
      ok, d', v' := DefragmentPage(g, d, if most < 4 then most else 4, nFree, sizes, scratch, v);
      if !ok { return; }
      DefraggedRoom(g, d, d', v, v', n);
      top := Get2(d', g.hdr + 5);
      if top == 0 { top := 0x1_0000; }
    } else {
      GapBytes(g, d, v, n);
    }
    d', at := Put2(d', g.hdr + 5, top - n), top - n;
    v' := v'.(top := v'.top - n);
  }

  lemma EmptySlots(v: View, n: nat)
    ensures v.blocks == [] ==> NoSlot(v, n)
  {
  }

  lemma TakeSlotCells(v: View, k: nat, n: nat)
    requires k < |v.blocks| && v.blocks[k].size >= n
    ensures TakeSlot(v, k, n).cells == v.cells && TakeSlot(v, k, n).top == v.top
  {
  }

  lemma TopStored(g: Geometry, v: View)
    requires GeometryOk(g) && Layout(g, v) && Reset(g, v)
    ensures if v.top < 0x1_0000 then GapStart(g, v) <= v.top == v.top % 0x1_0000
            else v.cells == [] && v.top == g.usable == 0x1_0000
  {
    hide Sum;
    if v.cells != [] { TopOfCells(g, v, 0); }
  }

  /** Writes to the cell count and the pointer array. */
  lemma PointerWrites(g: Geometry, d: seq<byte>, d': seq<byte>, v: View, hi: nat, cells: seq<Region>)
    requires GeometryOk(g) && EncSpace(g, d, v) && SameExcept(d, d', {g.hdr + 3, g.hdr + 4} + Span(g.cellOffset, hi))
             && hi <= v.top
    requires Inside(v.blocks, v.top + 1, g.usable) && forall i :: 0 <= i < |cells| ==> v.top <= cells[i].start
    requires g.cellOffset <= hi
    ensures EncSpace(g, d', v) && Contents(d', cells) == Contents(d, cells)
  {
    hide Get2, Contents;
    var s := {g.hdr + 3, g.hdr + 4} + Span(g.cellOffset, hi);
    GetKept(d, d', s, g.hdr + 5);
    forall i | 0 <= i < |v.blocks| ensures hi < v.blocks[i].start { BlockInside(v.blocks, v.top + 1, g.usable, i); }
    ChainKept(g, d, d', s, v.blocks);
    forall i | 0 <= i < |cells| ensures Content(d', cells[i]) == Content(d, cells[i]) {
      ContentKept(d, d', s, cells[i]);
    }
    assert Contents(d', cells) == Contents(d, cells) by { SameContents(d, d', cells); }
  }

  lemma SameContents(d: seq<byte>, d': seq<byte>, cells: seq<Region>)
    requires forall i :: 0 <= i < |cells| ==> Content(d', cells[i]) == Content(d, cells[i])
    ensures Contents(d', cells) == Contents(d, cells)
  {
  }

  /** Opens the pointer array at i. */
  function OpenPointer(g: Geometry, d: seq<byte>, n: nat, i: nat, at: nat): (r: seq<byte>)
    requires i <= n && g.cellOffset + 2 * n + 2 <= |d| && g.hdr + 8 <= |d|
    ensures |r| == |d|
  {
    var a := g.cellOffset + 2 * i;
    Put2(Put2(Write(d, a + 2, d[a..g.cellOffset + 2 * n]), a, at), g.hdr + 3, n + 1)
  }

  lemma OpenSame(g: Geometry, d: seq<byte>, n: nat, i: nat, at: nat)
    requires GeometryOk(g) && i <= n && g.cellOffset + 2 * n + 2 <= |d|
    ensures SameExcept(d, OpenPointer(g, d, n, i, at),
            {g.hdr + 3, g.hdr + 4} + Span(g.cellOffset, g.cellOffset + 2 * n + 2))
  {
  }

  lemma OpenPointers(g: Geometry, d: seq<byte>, cells: seq<Region>, i: nat, r: Region)
    requires GeometryOk(g) && EncCells(g, d, cells) && i <= |cells| && g.cellOffset + 2 * |cells| + 2 <= |d|
             && r.start < 0x1_0000 && |cells| + 1 < 0x1_0000
    ensures EncCells(g, OpenPointer(g, d, |cells|, i, r.start), Inserted(cells, i, r))
  {
    hide Get2, Put2, Inserted;
    var n, a := |cells|, g.cellOffset + 2 * i;
    var d1 := Write(d, a + 2, d[a..g.cellOffset + 2 * n]);
    var d2 := Put2(d1, a, r.start);
    var d3 := Put2(d2, g.hdr + 3, n + 1);
    PutGet(d2, g.hdr + 3, n + 1);
    var cells' := Inserted(cells, i, r);
    forall j | 0 <= j < |cells'| ensures Pointer(g, d3, j, cells'[j]) {
      PutElsewhere(d2, g.hdr + 3, n + 1, g.cellOffset + 2 * j);
      if j == i {
        PutGet(d1, a, r.start);
      } else {
        PutElsewhere(d1, a, r.start, g.cellOffset + 2 * j);
        OpenedPointer(g, d, n, i, j);
        assert Pointer(g, d, if j < i then j else j - 1, cells[if j < i then j else j - 1]);
      }
    }
  }

  lemma OpenedPointer(g: Geometry, d: seq<byte>, n: nat, i: nat, j: nat)
    requires GeometryOk(g) && i <= n && g.cellOffset + 2 * n + 2 <= |d| && j <= n && j != i
    ensures var a := g.cellOffset + 2 * i;
            Get2(Write(d, a + 2, d[a..g.cellOffset + 2 * n]), g.cellOffset + 2 * j)
                == Get2(d, g.cellOffset + 2 * (if j < i then j else j - 1))
  {
    var a := g.cellOffset + 2 * i;
    var m, x := d[a..g.cellOffset + 2 * n], g.cellOffset + 2 * j;
    if j > i { assert m[x - a - 2] == d[x - 2] && m[x - a - 1] == d[x - 1]; }
  }

  /** Closes the pointer array at i. */
  function ClosePointer(g: Geometry, d: seq<byte>, n: nat, i: nat): (r: seq<byte>)
    requires i < n && g.cellOffset + 2 * n <= |d| && g.hdr + 8 <= |d|
    ensures |r| == |d|
  {
    var a := g.cellOffset + 2 * i;
    Put2(Write(d, a, d[a + 2..g.cellOffset + 2 * n]), g.hdr + 3, n - 1)
  }

  lemma CloseSame(g: Geometry, d: seq<byte>, n: nat, i: nat)
    requires GeometryOk(g) && i < n && g.cellOffset + 2 * n <= |d|
    ensures SameExcept(d, ClosePointer(g, d, n, i), {g.hdr + 3, g.hdr + 4} + Span(g.cellOffset, g.cellOffset + 2 * n))
  {
  }

  lemma ClosePointers(g: Geometry, d: seq<byte>, cells: seq<Region>, i: nat)
    requires GeometryOk(g) && EncCells(g, d, cells) && i < |cells| && g.cellOffset + 2 * |cells| <= |d|
    ensures EncCells(g, ClosePointer(g, d, |cells|, i), Without(cells, i))
  {
    hide Get2, Put2;
    var n, a := |cells|, g.cellOffset + 2 * i;
    var d1 := Write(d, a, d[a + 2..g.cellOffset + 2 * n]);
    var d2 := Put2(d1, g.hdr + 3, n - 1);
    PutGet(d1, g.hdr + 3, n - 1);
    var cells' := Without(cells, i);
    forall j | 0 <= j < |cells'| ensures Pointer(g, d2, j, cells'[j]) {
      PutElsewhere(d1, g.hdr + 3, n - 1, g.cellOffset + 2 * j);
      ClosedPointer(g, d, n, i, j);
      assert Pointer(g, d, if j < i then j else j + 1, cells[if j < i then j else j + 1]);
    }
  }

  lemma ClosedPointer(g: Geometry, d: seq<byte>, n: nat, i: nat, j: nat)
    requires GeometryOk(g) && i < n && g.cellOffset + 2 * n <= |d| && j < n - 1
    ensures var a := g.cellOffset + 2 * i;
            Get2(Write(d, a, d[a + 2..g.cellOffset + 2 * n]), g.cellOffset + 2 * j)
                == Get2(d, g.cellOffset + 2 * (if j < i then j else j + 1))
  {
    var a := g.cellOffset + 2 * i;
    var m, x := d[a + 2..g.cellOffset + 2 * n], g.cellOffset + 2 * j;
    if j >= i { assert m[x - a] == d[x + 2] && m[x - a + 1] == d[x + 3]; }
  }

  // ----- Writing the content of a new cell

  lemma WriteCell(g: Geometry, d: seq<byte>, v: View, r: Region, cell: seq<byte>)
    requires GeometryOk(g) && Reserved(g, v, r) && EncSpace(g, d, v) && EncCells(g, d, v.cells) && |cell| == r.size
    ensures r.End() <= |d|
    ensures var d' := Write(d, r.start, cell);
            EncSpace(g, d', v) && EncCells(g, d', v.cells) && Contents(d', v.cells) == Contents(d, v.cells)
                && Content(d', r) == cell
  {
    hide Get2, Contents, Sum, EncCells;
    var d', s := Write(d, r.start, cell), Span(r.start, r.End());
    assert SameExcept(d, d', s);
    GetKept(d, d', s, g.hdr + 5);
    forall x, i | x in s && 0 <= i < |v.blocks| ensures x < v.blocks[i].start || v.blocks[i].start + 4 <= x {
      assert Apart([r][0], v.blocks[i]);
      BlockInside(v.blocks, v.top + 1, g.usable, i);
    }
    ChainKept(g, d, d', s, v.blocks);
    forall x | x in s ensures Away(g, GapStart(g, v), v.cells, x) { AwayRegion(g, GapStart(g, v), v.cells, r, x); }
    PointersKept(g, d, d', s, v.cells, v.cells);
    forall i | 0 <= i < |v.cells| ensures g.hdr + 8 <= v.cells[i].start { BlockInside(v.cells, v.top, g.usable, i); }
    ContentsKept(g, d, d', s, GapStart(g, v), v.cells);
  }

  lemma InsertBytes(g: Geometry, d: seq<byte>, v: View, r: Region, i: nat, cell: seq<byte>)
    requires GeometryOk(g) && Reserved(g, v, r) && EncSpace(g, d, v) && EncCells(g, d, v.cells) && |cell| == r.size
             && i <= |v.cells|
    ensures r.End() <= |d| && g.cellOffset + 2 * |v.cells| + 2 <= |d|
    ensures var d' := OpenPointer(g, Write(d, r.start, cell), |v.cells|, i, r.start);
            && EncSpace(g, d', AddCell(v, i, r)) && EncCells(g, d', AddCell(v, i, r).cells)
            && Contents(d', AddCell(v, i, r).cells) == Inserted(Contents(d, v.cells), i, cell) && Framed(g, d, d')
  {
    hide Get2, Contents, Sum, EncCells, Inserted, Cross, Disjoint, Ascending, Content, OpenPointer, Chain, Inside;
    WriteCell(g, d, v, r, cell);
    var d0, n := Write(d, r.start, cell), |v.cells|;
    var d' := OpenPointer(g, d0, n, i, r.start);
    OpenSame(g, d0, n, i, r.start);
    ReservedRoom(g, v, r);
    FramedRange(g, d, d0, r.start, r.End());
    FramedBy(g, d0, d', {g.hdr + 3, g.hdr + 4} + Span(g.cellOffset, g.cellOffset + 2 * n + 2));
    FramedTwice(g, d, d0, d');
    OpenPointers(g, d0, v.cells, i, r);
    var cells' := Inserted(v.cells, i, r);
    PointerWrites(g, d0, d', v, g.cellOffset + 2 * n + 2, cells');
    InsertedContents(d0, v.cells, i, r);
  }

  lemma ReservedRoom(g: Geometry, v: View, r: Region)
    requires GeometryOk(g) && Reserved(g, v, r)
    ensures |v.cells| + 1 < 0x1_0000 && forall i :: 0 <= i < |v.cells| ==> v.top <= v.cells[i].start
  {
    hide Sum;
    forall i | 0 <= i < |v.cells| ensures v.top <= v.cells[i].start { BlockInside(v.cells, v.top, g.usable, i); }
  }

  lemma InsertedContents(d: seq<byte>, cells: seq<Region>, i: nat, r: Region)
    requires i <= |cells|
    ensures Contents(d, Inserted(cells, i, r)) == Inserted(Contents(d, cells), i, Content(d, r))
  {
  }

  lemma WithoutContents(d: seq<byte>, cells: seq<Region>, i: nat)
    requires i < |cells|
    ensures Contents(d, Without(cells, i)) == Without(Contents(d, cells), i)
  {
  }

  lemma DropBytes(g: Geometry, d: seq<byte>, d1: seq<byte>, v: View, idx: nat, k: nat)
    requires GeometryOk(g) && Layout(g, v) && EncCells(g, d, v.cells) && idx < |v.cells|
    requires PlaceOf(v.blocks, v.cells[idx].start, k) && FreedBytes(g, d, d1, v, idx, k)
    ensures |d1| == |d| && g.cellOffset + 2 * |v.cells| <= |d1| && g.hdr + 8 <= |d1|
    ensures var d', v' := ClosePointer(g, d1, |v.cells|, idx), FreedView(v, idx, k);
            && Layout(g, v') && FreeBytes(g, v') == FreeBytes(g, v) + v.cells[idx].size + 2
            && EncSpace(g, d', v') && EncCells(g, d', v'.cells)
               && Contents(d', v'.cells) == Without(Contents(d, v.cells), idx) && Framed(g, d, d')
  {
    hide Get2, Contents, Sum, EncCells, Cross, Disjoint, Ascending, Content, ClosePointer, Chain, Inside, Merged,
      Holes, FreedBlocks;
    FreedLayout(g, v, idx, k);
    PointersInHead(g, d, d1, v.top, v.cells);
    var n, v' := |v.cells|, FreedView(v, idx, k);
    var d' := ClosePointer(g, d1, n, idx);
    CloseSame(g, d1, n, idx);
    LayoutBounds(g, v);
    FramedBy(g, d1, d', {g.hdr + 3, g.hdr + 4} + Span(g.cellOffset, g.cellOffset + 2 * n));
    FramedTwice(g, d, d1, d');
    ClosePointers(g, d1, v.cells, idx);
    LayoutStarts(g, v');
    FreedTopHigher(v, idx, k);
    PointerWrites(g, d1, d', v', g.cellOffset + 2 * n, v'.cells);
    WithoutContents(d, v.cells, idx);
  }

  lemma FreedTopHigher(v: View, idx: nat, k: nat)
    requires idx < |v.cells| && k <= |v.blocks| && v.top <= Merged(v.blocks, v.cells[idx], k).start
    ensures v.top <= FreedView(v, idx, k).top
  {
  }
}
