/** The space inside a B-tree page: cells, freeblocks, fragments and the gap. */
module PageLayout {
  import opened Regions

  /** Where the header and the cell pointer array are, and where the usable part of the page ends. */
  datatype Geometry = Geometry(hdr: nat, cellOffset: nat, usable: nat)

  ghost predicate GeometryOk(g: Geometry) {
    (g.hdr == 0 || g.hdr == 100) && (g.cellOffset == g.hdr + 8 || g.cellOffset == g.hdr + 12)
        && 480 <= g.usable <= 0x1_0000
  }

  /** What is on a page: cells in the order of their pointers, freeblocks in the order of their
      addresses, the start of the content area and the number of fragmented bytes. */
  datatype View = View(cells: seq<Region>, blocks: seq<Region>, top: nat, frag: nat)

  function GapStart(g: Geometry, v: View): nat { g.cellOffset + 2 * |v.cells| }

  /** No cell touches a freeblock. */
  ghost predicate Cross(cells: seq<Region>, blocks: seq<Region>) {
    forall i, j :: 0 <= i < |cells| && 0 <= j < |blocks| ==> Apart(cells[i], blocks[j])
  }

  /** Freeblocks ascend with at least four bytes between them. */
  ghost predicate Ascending(blocks: seq<Region>) {
    forall i, j :: 0 <= i < j < |blocks| ==> blocks[i].End() + 4 <= blocks[j].start
  }

  /** Cells, freeblocks and fragments partition the content area. */
  ghost predicate Layout(g: Geometry, v: View) {
    && GapStart(g, v) <= v.top <= g.usable && v.frag <= 60
    && Inside(v.cells, v.top, g.usable) && Inside(v.blocks, v.top + 1, g.usable)
    && Disjoint(v.cells) && Cross(v.cells, v.blocks) && Ascending(v.blocks)
    && Sum(v.cells) + Sum(v.blocks) + v.frag == g.usable - v.top
  }

  /** A page without cells is all gap. */
  ghost predicate Reset(g: Geometry, v: View) { v.cells == [] ==> v.blocks == [] && v.frag == 0 && v.top == g.usable }

  /** Free bytes: the gap, the fragments and the freeblocks. */
  function FreeBytes(g: Geometry, v: View): int { v.top - GapStart(g, v) + v.frag + Sum(v.blocks) }

  lemma DisjointAll(cells: seq<Region>, blocks: seq<Region>)
    requires Disjoint(cells) && Cross(cells, blocks) && Ascending(blocks)
    ensures Disjoint(cells + blocks)
  {
    var s := cells + blocks;
    forall i, j | 0 <= i < j < |s| ensures Apart(s[i], s[j]) {
      if i >= |cells| {
        var x, y := i - |cells|, j - |cells|;
        assert s[i] == blocks[x] && s[j] == blocks[y] && blocks[x].End() + 4 <= blocks[y].start;
      }
    }
  }

  lemma InsideAll(cells: seq<Region>, blocks: seq<Region>, lo: nat, hi: nat)
    requires Inside(cells, lo, hi) && Inside(blocks, lo + 1, hi)
    ensures Inside(cells + blocks, lo, hi)
  {
  }

  /** Bytes in neither a cell nor a freeblock are exactly the fragments. */
  lemma FragmentsAreLoose(g: Geometry, v: View)
    requires Layout(g, v)
    ensures |Span(v.top, g.usable) - Bytes(v.cells + v.blocks)| == v.frag
  {
    DisjointAll(v.cells, v.blocks);
    InsideAll(v.cells, v.blocks, v.top, g.usable);
    SumConcat(v.cells, v.blocks);
    LooseBytes(v.cells + v.blocks, v.top, g.usable);
  }

  // ----- Freeing a cell

  /** k is the place in the freeblock list where the bytes from start on belong. */
  ghost predicate PlaceOf(blocks: seq<Region>, start: nat, k: nat) {
    && k <= |blocks| && (forall i :: 0 <= i < k ==> blocks[i].start < start)
       && (forall i :: k <= i < |blocks| ==> start < blocks[i].start)
  }

  predicate MergeNext(blocks: seq<Region>, r: Region, k: nat) { k < |blocks| && r.End() + 3 >= blocks[k].start }

  predicate MergePrev(blocks: seq<Region>, r: Region, k: nat) {
    0 < k <= |blocks| && blocks[k - 1].End() + 3 >= r.start
  }

  /** The freeblock that a freed region becomes, with the neighbours it is coalesced with. */
  function Merged(blocks: seq<Region>, r: Region, k: nat): Region {
    var start := if MergePrev(blocks, r, k) then blocks[k - 1].start else r.start;
    var end := if MergeNext(blocks, r, k) then blocks[k].End() else r.End();
    Region(start, if end >= start then end - start else 0)
  }

  /** The freeblocks before and after the coalesced one. */
  function Kept(blocks: seq<Region>, r: Region, k: nat): (p: (nat, nat)) {
    (if MergePrev(blocks, r, k) then k - 1 else k, if MergeNext(blocks, r, k) then k + 1 else k)
  }

  /** The region to be freed is apart from all other things. */
  ghost predicate Freeable(g: Geometry, v: View, r: Region, cells: seq<Region>, k: nat) {
    && v.top <= r.start && r.End() <= g.usable && r.size >= 4 && PlaceOf(v.blocks, r.start, k)
    && Disjoint(cells) && Inside(cells, v.top, g.usable) && Cross(cells, v.blocks) && Cross(cells, [r])
       && Cross([r], v.blocks)
    && Inside(v.blocks, v.top + 1, g.usable) && Ascending(v.blocks)
  }

  /** The coalesced block is made of the region, its merged neighbours and holes of at most three bytes. */
  lemma MergedShape(g: Geometry, v: View, r: Region, cells: seq<Region>, k: nat)
    requires Freeable(g, v, r, cells, k)
    ensures var m := Merged(v.blocks, r, k);
            && m.start <= r.start && r.End() <= m.End() <= g.usable && m.size >= 4
            && (MergePrev(v.blocks, r, k) ==>
                 v.top < v.blocks[k - 1].start == m.start
                 && v.blocks[k - 1].End() <= r.start <= v.blocks[k - 1].End() + 3)
            && (MergeNext(v.blocks, r, k) ==>
                 r.End() <= v.blocks[k].start <= r.End() + 3 && m.End() == v.blocks[k].End())
            && (!MergePrev(v.blocks, r, k) ==> m.start == r.start)
               && (!MergeNext(v.blocks, r, k) ==> m.End() == r.End())
  {
    if MergePrev(v.blocks, r, k) { assert Apart([r][0], v.blocks[k - 1]) && v.blocks[k - 1].start < r.start; }
    if MergeNext(v.blocks, r, k) { assert Apart([r][0], v.blocks[k]) && r.start < v.blocks[k].start; }
  }

  /** Other cells are apart from the coalesced block: they do not fit into the holes. */
  lemma MergedApart(g: Geometry, v: View, r: Region, cells: seq<Region>, k: nat)
    requires Freeable(g, v, r, cells, k)
    ensures Cross(cells, [Merged(v.blocks, r, k)])
  {
    MergedShape(g, v, r, cells, k);
    forall i | 0 <= i < |cells| ensures Apart(cells[i], Merged(v.blocks, r, k)) {
      assert Apart(cells[i], [r][0]);
      if MergePrev(v.blocks, r, k) { assert Apart(cells[i], v.blocks[k - 1]); }
      if MergeNext(v.blocks, r, k) { assert Apart(cells[i], v.blocks[k]); }
    }
  }

  /** The list with the coalesced block in place. */
  function FreedBlocks(blocks: seq<Region>, r: Region, k: nat): seq<Region>
    requires k <= |blocks|
  {
    var p := Kept(blocks, r, k);
    blocks[..p.0] + [Merged(blocks, r, k)] + blocks[p.1..]
  }

  /** A list with one block between two parts of it. */
  ghost predicate Fits(a: seq<Region>, m: Region, b: seq<Region>) {
    && (forall i :: 0 <= i < |a| ==> a[i].End() + 4 <= m.start)
       && (forall i :: 0 <= i < |b| ==> m.End() + 4 <= b[i].start)
  }

  lemma SplicedAscending(a: seq<Region>, m: Region, b: seq<Region>)
    requires Ascending(a) && Ascending(b) && Fits(a, m, b)
    ensures Ascending(a + [m] + b)
  {
    var s := a + [m] + b;
    assert forall i :: 0 <= i < |a| ==> s[i] == a[i];
    assert forall i :: |a| < i < |s| ==> s[i] == b[i - |a| - 1];
    forall i, j | 0 <= i < j < |s| ensures s[i].End() + 4 <= s[j].start {
      if i < |a| && j > |a| { assert s[i].End() + 4 <= m.start; }
    }
  }

  lemma SplicedInside(a: seq<Region>, m: Region, b: seq<Region>, lo: nat, hi: nat)
    requires Inside(a, lo, hi) && Inside(b, lo, hi) && lo <= m.start && m.End() <= hi && m.size >= 4
    ensures Inside(a + [m] + b, lo, hi)
  {
  }

  lemma SplicedCross(cells: seq<Region>, a: seq<Region>, m: Region, b: seq<Region>)
    requires Cross(cells, a) && Cross(cells, [m]) && Cross(cells, b)
    ensures Cross(cells, a + [m] + b)
  {
    var s := a + [m] + b;
    forall i, j | 0 <= i < |cells| && 0 <= j < |s| ensures Apart(cells[i], s[j]) {
      if j < |a| { assert s[j] == a[j]; } else if j == |a| { assert s[j] == [m][0]; } else {
        assert s[j] == b[j - |a| - 1];
      }
    }
  }

  lemma PartOfBlocks(blocks: seq<Region>, cells: seq<Region>, lo: nat, hi: nat, i: nat, j: nat)
    requires i <= j <= |blocks| && Ascending(blocks) && Inside(blocks, lo, hi) && Cross(cells, blocks)
    ensures Ascending(blocks[i..j]) && Inside(blocks[i..j], lo, hi) && Cross(cells, blocks[i..j])
  {
  }

  lemma MergedFits(g: Geometry, v: View, r: Region, cells: seq<Region>, k: nat)
    requires Freeable(g, v, r, cells, k)
    ensures var p := Kept(v.blocks, r, k); Fits(v.blocks[..p.0], Merged(v.blocks, r, k), v.blocks[p.1..])
  {
    hide Merged;
    MergedShape(g, v, r, cells, k);
    var p, m := Kept(v.blocks, r, k), Merged(v.blocks, r, k);
    forall i | 0 <= i < p.0 ensures v.blocks[i].End() + 4 <= m.start {
      assert Apart([r][0], v.blocks[i]);
      if i < k - 1 { assert v.blocks[i].End() + 4 <= v.blocks[k - 1].start; }
    }
    forall i | p.1 <= i < |v.blocks| ensures m.End() + 4 <= v.blocks[i].start {
      assert Apart([r][0], v.blocks[i]);
      if k < i { assert v.blocks[k].End() + 4 <= v.blocks[i].start; }
    }
  }

  lemma FreedAscending(g: Geometry, v: View, r: Region, cells: seq<Region>, k: nat)
    requires Freeable(g, v, r, cells, k)
    ensures var b := FreedBlocks(v.blocks, r, k); Ascending(b) && Cross(cells, b) && Inside(b, v.top, g.usable)
    ensures Merged(v.blocks, r, k).start > v.top ==> Inside(FreedBlocks(v.blocks, r, k), v.top + 1, g.usable)
  {
    hide Merged, Ascending, Inside, Cross, Fits;
    MergedShape(g, v, r, cells, k);
    MergedApart(g, v, r, cells, k);
    MergedFits(g, v, r, cells, k);
    var p, m := Kept(v.blocks, r, k), Merged(v.blocks, r, k);
    var a, b := v.blocks[..p.0], v.blocks[p.1..];
    PartOfBlocks(v.blocks, cells, v.top + 1, g.usable, 0, p.0);
    PartOfBlocks(v.blocks, cells, v.top + 1, g.usable, p.1, |v.blocks|);
    assert v.blocks[0..p.0] == a && v.blocks[p.1..|v.blocks|] == b;
    SplicedAscending(a, m, b);
    SplicedCross(cells, a, m, b);
    InsideMore(a, v.top + 1, v.top, g.usable);
    InsideMore(b, v.top + 1, v.top, g.usable);
    SplicedInside(a, m, b, v.top, g.usable);
    if m.start > v.top { SplicedInside(a, m, b, v.top + 1, g.usable); }
  }

  lemma InsideMore(s: seq<Region>, lo: nat, lo': nat, hi: nat)
    requires Inside(s, lo, hi) && lo' <= lo
    ensures Inside(s, lo', hi)
  {
  }

  /** Fragment bytes that coalescing takes up. */
  function Holes(blocks: seq<Region>, r: Region, k: nat): int {
    Merged(blocks, r, k).size - r.size
      - (if MergePrev(blocks, r, k) then blocks[k - 1].size else 0)
      - (if MergeNext(blocks, r, k) then blocks[k].size else 0)
  }

  lemma FreedSum(blocks: seq<Region>, r: Region, k: nat)
    requires k <= |blocks|
    ensures Sum(FreedBlocks(blocks, r, k)) == Sum(blocks) + r.size + Holes(blocks, r, k)
    ensures var p := Kept(blocks, r, k);
            Sum(blocks[..p.0]) + Sum(blocks[p.1..])
                == Sum(blocks) + r.size + Holes(blocks, r, k) - Merged(blocks, r, k).size
  {
    hide Sum, Merged;
    var p, m := Kept(blocks, r, k), Merged(blocks, r, k);
    var a, b := blocks[..p.0], blocks[p.1..];
    SumConcat(a + [m], b);
    SumConcat(a, [m]);
    SumOne(m);
    MiddleSum(blocks, r, k);
  }

  lemma MiddleSum(blocks: seq<Region>, r: Region, k: nat)
    requires k <= |blocks|
    ensures var p := Kept(blocks, r, k);
            Sum(blocks) == Sum(blocks[..p.0]) + Sum(blocks[p.1..])
              + (if MergePrev(blocks, r, k) then blocks[k - 1].size else 0)
                  + (if MergeNext(blocks, r, k) then blocks[k].size else 0)
  {
    hide Sum;
    assert blocks == blocks[..k] + blocks[k..];
    SumConcat(blocks[..k], blocks[k..]);
    if MergePrev(blocks, r, k) {
      assert blocks[..k] == blocks[..k - 1] + [blocks[k - 1]];
      SumConcat(blocks[..k - 1], [blocks[k - 1]]);
      SumOne(blocks[k - 1]);
    }
    if MergeNext(blocks, r, k) {
      assert blocks[k..] == [blocks[k]] + blocks[k + 1..];
      SumConcat([blocks[k]], blocks[k + 1..]);
      SumOne(blocks[k]);
    }
  }

  /** The page after its cell idx has been freed, the cell pointer array still having a slot for it. */
  function FreedView(v: View, idx: nat, k: nat): View
    requires idx < |v.cells| && k <= |v.blocks|
  {
    var r := v.cells[idx];
    var m, frag := Merged(v.blocks, r, k), v.frag - Holes(v.blocks, r, k);
    var frag' := if frag >= 0 then frag else 0;
    if m.start <= v.top then View(Without(v.cells, idx), v.blocks[Kept(v.blocks, r, k).1..], m.End(), frag')
    else View(Without(v.cells, idx), FreedBlocks(v.blocks, r, k), v.top, frag')
  }

  lemma WithoutCell(g: Geometry, v: View, idx: nat, k: nat)
    requires Layout(g, v) && idx < |v.cells| && PlaceOf(v.blocks, v.cells[idx].start, k)
    ensures Freeable(g, v, v.cells[idx], Without(v.cells, idx), k)
  {
    hide Sum;
    var r, cells := v.cells[idx], Without(v.cells, idx);
    assert forall i :: 0 <= i < |cells| ==> cells[i] == v.cells[if i < idx then i else i + 1];
    forall i | 0 <= i < |cells| ensures Apart(cells[i], r) {
      assert Apart(v.cells[idx], v.cells[if i < idx then i else i + 1])
          || Apart(v.cells[if i < idx then i else i + 1], v.cells[idx]);
    }
  }

  /** Freeing a cell keeps the partition; the fragments taken up were there. */
  lemma FreedLayout(g: Geometry, v: View, idx: nat, k: nat)
    requires Layout(g, v) && idx < |v.cells| && PlaceOf(v.blocks, v.cells[idx].start, k)
    ensures Layout(g, FreedView(v, idx, k))
            && FreeBytes(g, FreedView(v, idx, k)) == FreeBytes(g, v) + v.cells[idx].size + 2
    ensures 0 <= Holes(v.blocks, v.cells[idx], k) <= v.frag
    ensures v.top <= Merged(v.blocks, v.cells[idx], k).start
    ensures Merged(v.blocks, v.cells[idx], k).start == v.top ==> k == 0 && v.cells[idx].start == v.top
  {
    hide Sum, Merged, Disjoint, Ascending, Cross, Inside;
    var r, cells := v.cells[idx], Without(v.cells, idx);
    WithoutCell(g, v, idx, k);
    MergedShape(g, v, r, cells, k);
    FreedAscending(g, v, r, cells, k);
    FreedSum(v.blocks, r, k);
    SumWithout(v.cells, idx);
    var b := FreedBlocks(v.blocks, r, k);
    DisjointAll(cells, b);
    InsideConcat(cells, b, v.top, g.usable);
    SumConcat(cells, b);
    SumBound(cells + b, v.top, g.usable);
    FirstIsTop(g, v, idx, k);
    if Merged(v.blocks, r, k).start <= v.top {
      FreedTop(g, v, r, cells, k);
      assert Sum(v.blocks[..0]) == 0 by { SumNone(); assert v.blocks[..0] == []; }
    }
  }

  lemma InsideConcat(a: seq<Region>, b: seq<Region>, lo: nat, hi: nat)
    requires Inside(a, lo, hi) && Inside(b, lo, hi)
    ensures Inside(a + b, lo, hi)
  {
  }

  lemma FirstIsTop(g: Geometry, v: View, idx: nat, k: nat)
    requires Layout(g, v) && idx < |v.cells| && PlaceOf(v.blocks, v.cells[idx].start, k)
    ensures v.top <= Merged(v.blocks, v.cells[idx], k).start
    ensures Merged(v.blocks, v.cells[idx], k).start == v.top ==> k == 0 && v.cells[idx].start == v.top
  {
    hide Sum;
    if k > 0 { assert v.top + 1 <= v.blocks[k - 1].start < v.cells[idx].start; }
  }

  /** A region freed at the start of the content area joins the gap. */
  lemma FreedTop(g: Geometry, v: View, r: Region, cells: seq<Region>, k: nat)
    requires Freeable(g, v, r, cells, k) && Merged(v.blocks, r, k).start <= v.top && k == 0
    ensures var m, b := Merged(v.blocks, r, k), v.blocks[Kept(v.blocks, r, k).1..];
            && v.top < m.End() <= g.usable && Inside(b, m.End() + 1, g.usable) && Inside(cells, m.End(), g.usable)
            && Ascending(b) && Cross(cells, b)
  {
    MergedShape(g, v, r, cells, k);
    MergedApart(g, v, r, cells, k);
    MergedFits(g, v, r, cells, k);
    var m, b := Merged(v.blocks, r, k), v.blocks[Kept(v.blocks, r, k).1..];
    forall i | 0 <= i < |cells| ensures m.End() <= cells[i].start { assert Apart(cells[i], [m][0]); }
  }

  // ----- Allocating room for a cell

  /** Room r has been taken out of the free bytes of the page, and there is room for one more cell
      pointer. */
  ghost predicate Reserved(g: Geometry, v: View, r: Region) {
    && GapStart(g, v) + 2 <= v.top <= r.start && r.End() <= g.usable && r.size >= 4 && v.frag <= 60
    && Inside(v.cells, v.top, g.usable) && Inside(v.blocks, v.top + 1, g.usable)
    && Disjoint(v.cells) && Cross(v.cells, v.blocks) && Ascending(v.blocks)
    && Cross(v.cells, [r]) && Cross([r], v.blocks)
    && Sum(v.cells) + Sum(v.blocks) + v.frag + r.size == g.usable - v.top
  }

  function Inserted<T>(s: seq<T>, i: nat, x: T): (r: seq<T>)
    requires i <= |s|
    ensures |r| == |s| + 1 && r[i] == x
    ensures forall j :: 0 <= j < i ==> r[j] == s[j]
    ensures forall j :: i < j <= |s| ==> r[j] == s[j - 1]
  {
    s[..i] + [x] + s[i..]
  }

  function AddCell(v: View, i: nat, r: Region): View
    requires i <= |v.cells|
  {
    v.(cells := Inserted(v.cells, i, r))
  }

  lemma SumInserted(s: seq<Region>, i: nat, r: Region)
    requires i <= |s|
    ensures Sum(Inserted(s, i, r)) == Sum(s) + r.size
  {
    hide Sum;
    assert s == s[..i] + s[i..];
    SumConcat(s[..i], s[i..]);
    SumConcat(s[..i] + [r], s[i..]);
    SumConcat(s[..i], [r]);
    SumOne(r);
  }

  lemma InsertedApart(g: Geometry, v: View, i: nat, r: Region)
    requires Reserved(g, v, r) && i <= |v.cells|
    ensures var cells := Inserted(v.cells, i, r);
            Disjoint(cells) && Inside(cells, v.top, g.usable) && Cross(cells, v.blocks)
  {
    hide Sum, Inserted;
    var cells := Inserted(v.cells, i, r);
    forall a, b | 0 <= a < b < |cells| ensures Apart(cells[a], cells[b]) {
      if a == i { assert Apart(v.cells[b - 1], [r][0]); }
      if b == i { assert Apart(v.cells[a], [r][0]); }
    }
    forall a, b | 0 <= a < |cells| && 0 <= b < |v.blocks| ensures Apart(cells[a], v.blocks[b]) {
      if a == i { assert Apart([r][0], v.blocks[b]); }
    }
  }

  /** A cell put into reserved room keeps the partition. */
  lemma ReservedLayout(g: Geometry, v: View, i: nat, r: Region)
    requires Reserved(g, v, r) && i <= |v.cells|
    ensures Layout(g, AddCell(v, i, r))
    ensures FreeBytes(g, AddCell(v, i, r)) == FreeBytes(g, v) - 2
  {
    hide Sum, Inserted, Disjoint, Inside, Cross, Ascending;
    SumInserted(v.cells, i, r);
    InsertedApart(g, v, i, r);
  }

  /** The gap gives room at its end. */
  lemma GapReserved(g: Geometry, v: View, n: nat)
    requires Layout(g, v) && GapStart(g, v) + 2 + n <= v.top && n >= 4
    ensures Reserved(g, v.(top := v.top - n), Region(v.top - n, n))
  {
    hide Sum;
  }

  /** A freeblock gives room at its end; what is left is a smaller freeblock, or a fragment. */
  function TakeSlot(v: View, k: nat, n: nat): View
    requires k < |v.blocks| && v.blocks[k].size >= n
  {
    var b := v.blocks[k];
    if b.size - n >= 4 then v.(blocks := v.blocks[k := Region(b.start, b.size - n)])
    else v.(blocks := Without(v.blocks, k), frag := v.frag + b.size - n)
  }

  lemma SlotReserved(g: Geometry, v: View, k: nat, n: nat)
    requires Layout(g, v) && GapStart(g, v) + 2 <= v.top && n >= 4 && k < |v.blocks| && v.blocks[k].size >= n
    requires v.blocks[k].size - n < 4 ==> v.frag <= 57
    ensures Reserved(g, TakeSlot(v, k, n), Region(v.blocks[k].start + v.blocks[k].size - n, n))
    ensures FreeBytes(g, TakeSlot(v, k, n)) == FreeBytes(g, v) - n
  {
    hide Sum;
    var b := v.blocks[k];
    var b' := Region(b.start, b.size - n);
    SumUpdate(v.blocks, k, b');
    SumWithout(v.blocks, k);
    SlotApart(g, v, k, n);
    if b.size - n >= 4 { SlotShrunk(g, v, k, n); } else { SlotRemoved(g, v, k); }
  }

  lemma SlotApart(g: Geometry, v: View, k: nat, n: nat)
    requires Layout(g, v) && k < |v.blocks| && v.blocks[k].size >= n >= 4
    ensures var r := Region(v.blocks[k].start + v.blocks[k].size - n, n);
            Cross(v.cells, [r]) && Cross([r], TakeSlot(v, k, n).blocks)
  {
    hide Sum;
    var r := Region(v.blocks[k].start + v.blocks[k].size - n, n);
    forall i | 0 <= i < |v.cells| ensures Apart(v.cells[i], r) { assert Apart(v.cells[i], v.blocks[k]); }
    var bs := TakeSlot(v, k, n).blocks;
    forall j | 0 <= j < |bs| ensures Apart(r, bs[j]) {
      if |bs| == |v.blocks| {
        if j != k { OtherBlock(v.blocks, k, j); }
      } else {
        OtherBlock(v.blocks, k, if j < k then j else j + 1);
      }
    }
  }

  lemma OtherBlock(blocks: seq<Region>, k: nat, j: nat)
    requires Ascending(blocks) && k < |blocks| && j < |blocks| && j != k
    ensures if j < k then blocks[j].End() + 4 <= blocks[k].start else blocks[k].End() + 4 <= blocks[j].start
  {
  }

  lemma SlotShrunk(g: Geometry, v: View, k: nat, n: nat)
    requires Layout(g, v) && k < |v.blocks| && v.blocks[k].size - n >= 4
    ensures var bs := v.blocks[k := Region(v.blocks[k].start, v.blocks[k].size - n)];
            Ascending(bs) && Inside(bs, v.top + 1, g.usable) && Cross(v.cells, bs)
  {
    hide Sum;
    var bs := v.blocks[k := Region(v.blocks[k].start, v.blocks[k].size - n)];
    forall i, j | 0 <= i < j < |bs| ensures bs[i].End() + 4 <= bs[j].start {
      assert v.blocks[i].End() + 4 <= v.blocks[j].start;
    }
    forall i, j | 0 <= i < |v.cells| && 0 <= j < |bs| ensures Apart(v.cells[i], bs[j]) {
      assert Apart(v.cells[i], v.blocks[j]);
    }
  }

  lemma SlotRemoved(g: Geometry, v: View, k: nat)
    requires Layout(g, v) && k < |v.blocks|
    ensures var bs := Without(v.blocks, k); Ascending(bs) && Inside(bs, v.top + 1, g.usable) && Cross(v.cells, bs)
  {
    hide Sum;
    var bs := Without(v.blocks, k);
    assert forall j :: 0 <= j < |bs| ==> bs[j] == v.blocks[if j < k then j else j + 1];
  }
}
