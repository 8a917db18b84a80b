/** editPage and rebuildPage: the cells of a page are replaced by another stretch of the cell array of
    balance_nonroot, in place if there is room, otherwise by writing the page anew. */
module EditPage {
  import opened ByteTypes
  import opened PageBytes
  import opened Regions
  import opened PageLayout
  import opened PageSpace
  import opened MemPageModel

  /** A cell of the array: its bytes, and its address if it is on the page that is edited, otherwise a
      negative number. */
  datatype CellRef = CellRef(bytes: seq<byte>, at: int)

  function BytesOf(cells: seq<CellRef>): (r: seq<seq<byte>>)
    ensures |r| == |cells|
  {
    seq(|cells|, i requires 0 <= i < |cells| => cells[i].bytes)
  }

  ghost predicate CellsLong(cells: seq<CellRef>) { forall i :: 0 <= i < |cells| ==> |cells[i].bytes| >= 4 }

  /** The pointers from slot base on lead to the given cells. */
  ghost predicate PtrsAt(g: Geometry, d: seq<byte>, base: nat, cells: seq<Region>) {
    forall i :: 0 <= i < |cells| ==> Pointer(g, d, base + i, cells[i])
  }

  /** Below hi, only the header fields that say what is free and the addresses from a up to b have changed. */
  ghost predicate KeptBut(g: Geometry, d: seq<byte>, d': seq<byte>, hi: nat, a: nat, b: nat) {
    && |d'| == |d|
    && forall x ::
         0 <= x < |d| && x < hi && !(g.hdr + 1 <= x < g.hdr + 3) && !(g.hdr + 5 <= x < g.hdr + 8) && !(a <= x < b) ==>
           d'[x] == d[x]
  }

  lemma PtrsKept(g: Geometry, d: seq<byte>, d': seq<byte>, hi: nat, a: nat, b: nat, base: nat, cells: seq<Region>)
    requires GeometryOk(g) && KeptBut(g, d, d', hi, a, b) && PtrsAt(g, d, base, cells)
             && g.cellOffset + 2 * (base + |cells|) <= hi
    requires g.cellOffset + 2 * (base + |cells|) <= a || b <= g.cellOffset + 2 * base
    ensures PtrsAt(g, d', base, cells)
  {
    forall i | 0 <= i < |cells| ensures Pointer(g, d', base + i, cells[i]) { assert Pointer(g, d, base + i, cells[i]); }
  }

  // ----- Putting one cell on a page

  /** Writes the bytes of a cell into reserved room and its pointer into a slot. */
  lemma PutCell(g: Geometry, d: seq<byte>, w: View, r: Region, ins: nat, slot: nat, cell: seq<byte>)
    requires GeometryOk(g) && Reserved(g, w, r) && |cell| == r.size && ins <= |w.cells| && g.usable <= |d|
    requires g.cellOffset + 2 * slot + 2 <= w.top
    ensures g.cellOffset + 2 * slot + 2 <= |d| && r.End() <= |d| && r.start < 0x1_0000
    ensures var p := g.cellOffset + 2 * slot;
            var d', w' := Put2(Write(d, r.start, cell), p, r.start), AddCell(w, ins, r);
            && Layout(g, w') && KeptBut(g, d, d', w.top, p, p + 2) && Pointer(g, d', slot, r) && Content(d', r) == cell
            && Contents(d', w.cells) == Contents(d, w.cells) && Get2(d', g.hdr + 5) == Get2(d, g.hdr + 5)
            && (EncFree(g, d, w) ==> EncFree(g, d', w')) && Framed(g, d, d')
  {
    hide Sum, Get2, Put2, Contents, Content, Chain, Inserted, Layout, Disjoint, Ascending, Write;
    var p := g.cellOffset + 2 * slot;
    var d1 := Write(d, r.start, cell);
    var d' := Put2(d1, p, r.start);
    ReservedLayout(g, w, ins, r);
    ReservedPlaces(g, w, r);
    WrittenOnce(g, d, d1, r, cell);
    PutGet(d1, p, r.start);
    PutSameOutside(d1, p, r.start);
    SameAfter(g, d, d1, d', w, r, p);
    OutsideContent(d1, d', p, p + 2, r);
    if EncFree(g, d, w) { FreeAfter(g, d, d1, d', w, r, p); }
  }

  lemma PutSameOutside(d: seq<byte>, p: nat, x: nat)
    requires p + 2 <= |d|
    ensures SameOutside(d, Put2(d, p, x), p, p + 2)
  {
  }

  lemma WrittenOnce(g: Geometry, d: seq<byte>, d1: seq<byte>, r: Region, cell: seq<byte>)
    requires r.End() <= |d| && |cell| == r.size && d1 == Write(d, r.start, cell)
    ensures SameOutside(d, d1, r.start, r.End()) && Content(d1, r) == cell
  {
  }

  lemma ReservedPlaces(g: Geometry, w: View, r: Region)
    requires GeometryOk(g) && Reserved(g, w, r)
    ensures r.start < 0x1_0000 && g.hdr + 8 <= w.top <= r.start && r.End() <= g.usable && GapStart(g, w) <= w.top
    ensures forall i :: 0 <= i < |w.cells| ==> w.top <= w.cells[i].start && Apart(w.cells[i], r)
    ensures forall i ::
              0 <= i < |w.blocks| ==> w.top < w.blocks[i].start && w.blocks[i].size >= 4 && Apart(r, w.blocks[i])
  {
    hide Sum;
    forall i | 0 <= i < |w.cells| ensures w.top <= w.cells[i].start && Apart(w.cells[i], r) {
      assert Apart(w.cells[i], [r][0]);
    }
    forall i | 0 <= i < |w.blocks| ensures w.top < w.blocks[i].start && w.blocks[i].size >= 4 && Apart(r, w.blocks[i]) {
      assert Apart([r][0], w.blocks[i]);
    }
  }

  lemma SameAfter(g: Geometry, d: seq<byte>, d1: seq<byte>, d': seq<byte>, w: View, r: Region, p: nat)
    requires GeometryOk(g) && SameOutside(d, d1, r.start, r.End()) && SameOutside(d1, d', p, p + 2) && g.hdr + 8 <= |d|
    requires g.cellOffset <= p && p + 2 <= w.top <= r.start
             && forall i :: 0 <= i < |w.cells| ==> w.top <= w.cells[i].start && Apart(w.cells[i], r)
    ensures KeptBut(g, d, d', w.top, p, p + 2) && Contents(d', w.cells) == Contents(d, w.cells)
            && Get2(d', g.hdr + 5) == Get2(d, g.hdr + 5)
  {
    hide Content;
    forall i | 0 <= i < |w.cells| ensures Content(d', w.cells[i]) == Content(d, w.cells[i]) {
      OutsideContent(d, d1, r.start, r.End(), w.cells[i]);
      OutsideContent(d1, d', p, p + 2, w.cells[i]);
    }
  }

  lemma FreeAfter(g: Geometry, d: seq<byte>, d1: seq<byte>, d': seq<byte>, w: View, r: Region, p: nat)
    requires GeometryOk(g) && SameOutside(d, d1, r.start, r.End()) && SameOutside(d1, d', p, p + 2) && EncFree(g, d, w)
    requires g.cellOffset <= p && p + 2 <= w.top <= r.start
    requires forall i ::
               0 <= i < |w.blocks| ==> w.top < w.blocks[i].start && w.blocks[i].size >= 4 && Apart(r, w.blocks[i])
    ensures EncFree(g, d', w)
  {
    hide Get2;
    var s := Span(p, p + 2) + Span(r.start, r.End());
    assert SameExcept(d, d', s);
    ChainKept(g, d, d', s, w.blocks);
  }

  // ----- Writing the page anew

  lemma CellBytesNext(s: seq<seq<byte>>, i: nat)
    requires i < |s|
    ensures CellBytes(s[i..]) == |s[i]| + 2 + CellBytes(s[i + 1..])
  {
    assert s[i..][1..] == s[i + 1..];
  }

  /** Cells on the page lie in its content area and still have their bytes. */
  ghost predicate Intact(g: Geometry, d: seq<byte>, cells: seq<CellRef>) {
    && g.usable <= |d| && g.hdr + 8 <= |d|
    && forall i :: 0 <= i < |cells| && cells[i].at >= 0 ==>
         Get2(d, g.hdr + 5) <= cells[i].at && cells[i].at + |cells[i].bytes| <= g.usable
             && Content(d, Region(cells[i].at, |cells[i].bytes|)) == cells[i].bytes
  }

  /** rebuildPage: packs the cells from the end of the page downwards.  Cells that are on the page are read
      from a copy of its content area. */
  method RebuildPage(g: Geometry, d: seq<byte>, cells: seq<CellRef>, scratch: seq<byte>)
    returns (ok: bool, d': seq<byte>, ghost v': View)
    requires GeometryOk(g) && Intact(g, d, cells) && CellsLong(cells) && |scratch| == |d|
    requires g.cellOffset + CellBytes(BytesOf(cells)) <= g.usable
    ensures ok && |d'| == |d| && Layout(g, v') && EncSpace(g, d', v') && EncCells(g, d', v'.cells)
            && Contents(d', v'.cells) == BytesOf(cells) && Framed(g, d, d')
  {
    hide Sum, Layout, Get2, Put2, Contents, Content, CellBytes, EncCells, EncSpace, EncFree, Reserved, KeptBut, PtrsAt,
      Framed;
    ok, d', v' := true, d, EmptyView(g);
    var top := Get2(d, g.hdr + 5);
    var tmp := scratch;
    if top <= g.usable { tmp := Write(scratch, top, d[top..g.usable]); }
    var pData, i := g.usable, 0;
    RebuildStart(g, d, cells);
    FramedSame(g, d);
    while i < |cells|
      invariant ok && 0 <= i <= |cells| && |d'| == |d| && RebuildState(g, d', cells, v', i, pData) && Framed(g, d, d')
    {
      var c := cells[i];
      var sz, slot := |c.bytes|, g.cellOffset + 2 * i;
      var src := if c.at >= 0 then tmp[c.at..c.at + sz] else c.bytes;
      assert src == c.bytes by { if c.at >= 0 { CopiedCell(g, d, scratch, top, c); } }
      RebuildStep(g, d', cells, v', i, pData);
      FramedTwice(g, d, d', Write(Put2(d', slot, pData - sz), pData - sz, c.bytes));
      pData := pData - sz;
      d' := Put2(d', slot, pData);
      if pData < slot + 2 { ok := false; return; }
      d' := Write(d', pData, src);
      v' := AddCell(v'.(top := pData), i, Region(pData, sz));
      i := i + 1;
    }
    RebuildEnd(g, d', cells, v', pData);
    FramedTwice(g, d, d', PutFrag(g, Put2(Put2(Put2(d', g.hdr + 1, 0), g.hdr + 3, i), g.hdr + 5, pData), 0));
    d' := PutFrag(g, Put2(Put2(Put2(d', g.hdr + 1, 0), g.hdr + 3, i), g.hdr + 5, pData), 0);
  }

  lemma CopiedCell(g: Geometry, d: seq<byte>, scratch: seq<byte>, top: nat, c: CellRef)
    requires top <= c.at && c.at + |c.bytes| <= g.usable <= |d| == |scratch|
             && Content(d, Region(c.at, |c.bytes|)) == c.bytes
    ensures Write(scratch, top, d[top..g.usable])[c.at..c.at + |c.bytes|] == c.bytes
  {
    var tmp := Write(scratch, top, d[top..g.usable]);
    forall x | c.at <= x < c.at + |c.bytes| ensures tmp[x] == d[x] { assert tmp[x] == d[top..g.usable][x - top]; }
  }

  /** The first i cells are in place, packed at the end of the page. */
  ghost predicate RebuildState(g: Geometry, d: seq<byte>, cells: seq<CellRef>, w: View, i: nat, pData: int) {
    && i <= |cells| == |BytesOf(cells)| && |w.cells| == i && w.blocks == [] && w.frag == 0 && w.top == pData
       && Layout(g, w)
    && g.usable <= |d| && PtrsAt(g, d, 0, w.cells) && Contents(d, w.cells) == BytesOf(cells)[..i]
    && g.cellOffset + 2 * i + CellBytes(BytesOf(cells)[i..]) <= pData
  }

  lemma RebuildStart(g: Geometry, d: seq<byte>, cells: seq<CellRef>)
    requires GeometryOk(g) && g.usable <= |d| && g.cellOffset + CellBytes(BytesOf(cells)) <= g.usable
    ensures RebuildState(g, d, cells, EmptyView(g), 0, g.usable)
  {
    hide CellBytes;
    assert BytesOf(cells)[0..] == BytesOf(cells);
  }

  lemma RebuildStep(g: Geometry, d: seq<byte>, cells: seq<CellRef>, w: View, i: nat, pData: int)
    requires GeometryOk(g) && RebuildState(g, d, cells, w, i, pData) && i < |cells| && CellsLong(cells)
    ensures var sz, slot := |cells[i].bytes|, g.cellOffset + 2 * i;
            && 0 <= pData - sz && slot + 2 <= pData - sz && slot + 2 <= |d| && pData <= |d|
            && RebuildState(g, Write(Put2(d, slot, pData - sz), pData - sz, cells[i].bytes), cells,
                            AddCell(w.(top := pData - sz), i, Region(pData - sz, sz)), i + 1, pData - sz)
            && Framed(g, d, Write(Put2(d, slot, pData - sz), pData - sz, cells[i].bytes))
  {
    hide Framed, Sum, Layout, Get2, Put2, Contents, Content, CellBytes, Reserved, KeptBut, PtrsAt, EncFree, Inserted,
      Write;
    var b, c := BytesOf(cells), cells[i].bytes;
    CellBytesNext(b, i);
    LayoutBounds(g, w);
    GapReserved(g, w, |c|);
    var r, w1 := Region(pData - |c|, |c|), w.(top := pData - |c|);
    PutCell(g, d, w1, r, i, i, c);
    PutThenWrite(d, r.start, c, g.cellOffset + 2 * i, r.start);
    var d' := Write(Put2(d, g.cellOffset + 2 * i, r.start), r.start, c);
    PtrsKept(g, d, d', w1.top, g.cellOffset + 2 * i, g.cellOffset + 2 * i + 2, 0, w.cells);
    InsertedLast(w.cells, r);
    PtrsAppend(g, d', w.cells, r);
    InsertedContents(d', w.cells, i, r);
    InsertedLast(Contents(d', w.cells), c);
    assert b[..i + 1] == b[..i] + [c];
  }

  lemma InsertedLast<T>(s: seq<T>, x: T)
    ensures Inserted(s, |s|, x) == s + [x]
  {
  }

  lemma PtrsAppend(g: Geometry, d: seq<byte>, cells: seq<Region>, r: Region)
    requires PtrsAt(g, d, 0, cells) && Pointer(g, d, |cells|, r)
    ensures PtrsAt(g, d, 0, cells + [r])
  {
    forall i | 0 <= i < |cells| + 1 ensures Pointer(g, d, 0 + i, (cells + [r])[i]) {
      if i < |cells| { assert Pointer(g, d, 0 + i, cells[i]); }
    }
  }

  lemma PutThenWrite(d: seq<byte>, a: nat, s: seq<byte>, p: nat, x: nat)
    requires a + |s| <= |d| && p + 2 <= a
    ensures Put2(Write(d, a, s), p, x) == Write(Put2(d, p, x), a, s)
  {
    var d1, d2 := Put2(Write(d, a, s), p, x), Write(Put2(d, p, x), a, s);
    forall i | 0 <= i < |d| ensures d1[i] == d2[i] {}
  }

  lemma RebuildEnd(g: Geometry, d: seq<byte>, cells: seq<CellRef>, w: View, pData: int)
    requires GeometryOk(g) && RebuildState(g, d, cells, w, |cells|, pData)
    ensures 0 <= pData && g.hdr + 8 <= |d|
    ensures var d' := PutFrag(g, Put2(Put2(Put2(d, g.hdr + 1, 0), g.hdr + 3, |cells|), g.hdr + 5, pData), 0);
            && |d'| == |d| && Layout(g, w) && EncSpace(g, d', w) && EncCells(g, d', w.cells)
               && Contents(d', w.cells) == BytesOf(cells) && Framed(g, d, d')
  {
    hide Sum, Layout, Get2, Put2, Contents, CellBytes, PtrsAt;
    LayoutBounds(g, w);
    assert BytesOf(cells)[..|cells|] == BytesOf(cells);
    NewHeader(g, d, w);
  }

  /** Writes the header of a page without freeblocks and fragments. */
  lemma NewHeader(g: Geometry, d: seq<byte>, w: View)
    requires GeometryOk(g) && Layout(g, w) && w.blocks == [] && w.frag == 0 && g.usable <= |d|
             && PtrsAt(g, d, 0, w.cells)
    ensures var d' := PutFrag(g, Put2(Put2(Put2(d, g.hdr + 1, 0), g.hdr + 3, |w.cells|), g.hdr + 5, w.top), 0);
            EncSpace(g, d', w) && EncCells(g, d', w.cells) && Contents(d', w.cells) == Contents(d, w.cells)
                && Framed(g, d, d')
  {
    hide Sum, Layout, Get2, Put2, Contents, PtrsAt;
    LayoutBounds(g, w);
    LayoutStarts(g, w);
    var d1 := Put2(d, g.hdr + 1, 0);
    var d2 := Put2(d1, g.hdr + 3, |w.cells|);
    var d3 := Put2(d2, g.hdr + 5, w.top);
    var d' := PutFrag(g, d3, 0);
    PutGet(d, g.hdr + 1, 0);
    PutElsewhere(d1, g.hdr + 3, |w.cells|, g.hdr + 1);
    PutElsewhere(d2, g.hdr + 5, w.top, g.hdr + 1);
    PutGet(d1, g.hdr + 3, |w.cells|);
    PutElsewhere(d2, g.hdr + 5, w.top, g.hdr + 3);
    PutGetLow(d2, g.hdr + 5, w.top);
    assert SameExcept(d3, d', {g.hdr + 7});
    GetKept(d3, d', {g.hdr + 7}, g.hdr + 1);
    GetKept(d3, d', {g.hdr + 7}, g.hdr + 3);
    GetKept(d3, d', {g.hdr + 7}, g.hdr + 5);
    assert Link(g, d', w.blocks, 0);
    PutSameOutside(d, g.hdr + 1, 0);
    PutSameOutside(d1, g.hdr + 3, |w.cells|);
    PutSameOutside(d2, g.hdr + 5, w.top);
    HeaderOnly(g, d, d', w);
    assert SameExcept(d, d', Span(g.hdr + 1, g.hdr + 8));
    FramedBy(g, d, d', Span(g.hdr + 1, g.hdr + 8));
    CountAndPointers(g, d', w.cells);
  }

  lemma CountAndPointers(g: Geometry, d: seq<byte>, cells: seq<Region>)
    requires PtrsAt(g, d, 0, cells) && g.hdr + 8 <= |d| && Get2(d, g.hdr + 3) == |cells|
    ensures EncCells(g, d, cells)
  {
    forall i | 0 <= i < |cells| ensures Pointer(g, d, i, cells[i]) { assert Pointer(g, d, 0 + i, cells[i]); }
  }

  lemma HeaderOnly(g: Geometry, d: seq<byte>, d': seq<byte>, w: View)
    requires GeometryOk(g) && SameOutside(d, d', g.hdr, g.hdr + 8) && PtrsAt(g, d, 0, w.cells) && g.usable <= |d|
    requires g.hdr + 8 <= w.top && forall i :: 0 <= i < |w.cells| ==> w.top <= w.cells[i].start
    ensures PtrsAt(g, d', 0, w.cells) && Contents(d', w.cells) == Contents(d, w.cells)
  {
    hide Content;
    forall i | 0 <= i < |w.cells|
        ensures Pointer(g, d', 0 + i, w.cells[i]) && Content(d', w.cells[i]) == Content(d, w.cells[i]) {
      assert Pointer(g, d, 0 + i, w.cells[i]);
      OutsideContent(d, d', g.hdr, g.hdr + 8, w.cells[i]);
    }
  }

  // ----- Adding cells

  /** w' is w with the given cells inserted at ins. */
  ghost predicate CellsAdded(d: seq<byte>, w: View, d': seq<byte>, w': View, ins: nat, bytes: seq<seq<byte>>)
    requires ins <= |w.cells|
  {
    && |w'.cells| == |w.cells| + |bytes| && w'.cells[..ins] == w.cells[..ins]
       && w'.cells[ins + |bytes|..] == w.cells[ins..]
    && Contents(d', w.cells) == Contents(d, w.cells) && Contents(d', w'.cells[ins..ins + |bytes|]) == bytes
  }

  /** One turn of the loop of pageInsertArray: puts a cell into a freeblock or below the content area. */
  method InsertOne(g: Geometry, d: seq<byte>, pBegin: nat, pData0: nat, slot: nat, cell: seq<byte>, ghost w: View,
                   ghost ins: nat)
    returns (full: bool, d': seq<byte>, pData: nat, ghost d1: seq<byte>, ghost w': View, ghost r: Region)
    requires GeometryOk(g) && g.hdr == 0 && g.usable <= |d| && Layout(g, w) && EncFree(g, d, w) && w.top == pData0
             && ins <= |w.cells|
    requires |cell| >= 4 && pBegin <= pData0 && GapStart(g, w) + 2 <= pBegin && g.cellOffset + 2 * slot + 2 <= pBegin
    ensures full ==> d' == d
    ensures full <==> NoSlot(w, |cell|) && w.top - pBegin < |cell|
    ensures !full ==> pData == if NoSlot(w, |cell|) then w.top - |cell| else w.top
    ensures |d'| == |d| && Get2(d', 5) == Get2(d, 5) && Framed(g, d, d')
    ensures !full ==>
              Layout(g, w') && EncFree(g, d', w') && w'.top == pData >= pBegin && w'.cells == Inserted(w.cells, ins, r)
    ensures !full ==> KeptBut(g, d, d1, w.top, 0, 0) && Contents(d1, w.cells) == Contents(d, w.cells)
    ensures !full ==>
              Contents(d', w.cells) == Contents(d1, w.cells) && Pointer(g, d', slot, r) && Content(d', r) == cell
    ensures !full ==> KeptBut(g, d1, d', w'.top, g.cellOffset + 2 * slot, g.cellOffset + 2 * slot + 2)
  {
    hide Sum, Layout, Get2, Put2, Contents, Content, EncFree, KeptBut, SlotTaken, Reserved, TakeSlot, Inserted, Write,
      Pointer, Framed, NoSlot, FirstFit;
    FramedSame(g, d);
    NoBlocksNoSlot(w, |cell|);
    full, d', pData, d1, w', r := false, d, pData0, d, w, Region(0, 0);
    var sz := |cell|;
    FirstBlock(g, d, w);
    var found, at := false, 0;
    if Get2(d, 1) != 0 {
      var ok;
      ghost var k;
      ok, found, d', at, k := PageFindSlot(g, d, sz, w);
      if found {
        w' := TakeSlot(w, k, sz);
        SlotGives(g, d, d', w, k, sz);
      }
    }
    if !found {
      if pData - pBegin < sz {
        full, d' := true, d;
        return;
      }
      pData := pData - sz;
      at, w' := pData, w.(top := pData);
      GapGives(g, d, w, sz);
    }
    d1, r := d', Region(at, sz);
    PutCell(g, d', w', r, ins, slot, cell);
    d' := Put2(Write(d', at, cell), g.cellOffset + 2 * slot, at);
    FramedTwice(g, d, d1, d');
    w' := AddCell(w', ins, r);
  }

  /** pageInsertArray: puts cells iFirst up to iEnd on the page, into freeblocks or below the content area, and
      their pointers into the slots from ptr on.  It fails when a cell would have to reach below pBegin. */
  method PageInsertArray(g: Geometry, d: seq<byte>, pBegin: nat, pData0: nat, ptr: nat, iFirst: nat, iEnd: nat,
                         cells: seq<CellRef>, ghost w: View, ghost ins: nat)
    returns (full: bool, d': seq<byte>, pData: nat, ghost w': View)
    requires GeometryOk(g) && g.hdr == 0 && g.usable <= |d| && Layout(g, w) && EncFree(g, d, w) && w.top == pData0
             && ins <= |w.cells|
    requires iFirst <= iEnd <= |cells| && CellsLong(cells) && (forall i :: iFirst <= i < iEnd ==> cells[i].at < 0)
    requires pBegin <= pData0 && g.cellOffset + 2 * (|w.cells| + (iEnd - iFirst)) <= pBegin
             && g.cellOffset + 2 * (ptr + (iEnd - iFirst)) <= pBegin
    ensures |d'| == |d| && Get2(d', 5) == Get2(d, 5) && Contents(d', w.cells) == Contents(d, w.cells)
    ensures Framed(g, d, d') && (iFirst == iEnd ==> !full && w' == w)
    ensures full ==> exists w1: View, i :: iFirst <= i < iEnd && |w1.cells| == |w.cells| + (i - iFirst)
                                     && TooFull(w1, pBegin, |cells[i].bytes|)
    ensures !full ==> Layout(g, w') && EncFree(g, d', w') && w'.top == pData >= pBegin
    ensures !full ==>
              CellsAdded(d, w, d', w', ins, BytesOf(cells[iFirst..iEnd]))
              && PtrsAt(g, d', ptr, w'.cells[ins..ins + (iEnd - iFirst)])
    ensures !full ==> KeptBut(g, d, d', pBegin, g.cellOffset + 2 * ptr, g.cellOffset + 2 * (ptr + (iEnd - iFirst)))
  {
    hide Sum, Layout, Get2, Put2, Contents, Content, EncFree, KeptBut, PtrsAt, CellsAdded, SlotTaken, Reserved,
      TakeSlot, Inserted, Write, Framed, NoSlot;
    full, d', pData, w' := false, d, pData0, w;
    FramedSame(g, d);
    var i := iFirst;
    AddedNone(g, d, w, ins, cells, iFirst, pBegin, ptr);
    while i < iEnd
      invariant iFirst <= i <= iEnd && !full && |d'| == |d| && Get2(d', 5) == Get2(d, 5) && Framed(g, d, d')
      invariant i == iFirst ==> w' == w
      invariant Layout(g, w') && EncFree(g, d', w') && w'.top == pData >= pBegin
      invariant CellsAdded(d, w, d', w', ins, BytesOf(cells[iFirst..i]))
                && PtrsAt(g, d', ptr, AddedPart(w', ins, i - iFirst))
      invariant KeptBut(g, d, d', pBegin, g.cellOffset + 2 * ptr, g.cellOffset + 2 * (ptr + (i - iFirst)))
    {
      AddedLength(d, w, d', w', ins, BytesOf(cells[iFirst..i]));
      var n := i - iFirst;
      ghost var d0, w0 := d', w';
      ghost var d1, r;
      full, d', pData, d1, w', r := InsertOne(g, d', pBegin, pData, ptr + n, cells[i].bytes, w', ins + n);
      FramedTwice(g, d, d0, d');
      if full {
        AddedContents(d, w, d0, w0, ins, BytesOf(cells[iFirst..i]));
        assert TooFull(w0, pBegin, |cells[i].bytes|);
        return;
      }
      AddStep(g, d, w, d0, w0, d1, d', w', ins, ptr, cells, iFirst, i, pBegin, r);
      i := i + 1;
    }
    AddedContents(d, w, d', w', ins, BytesOf(cells[iFirst..iEnd]));
    AddedLength(d, w, d', w', ins, BytesOf(cells[iFirst..iEnd]));
  }

  /** A cell of n bytes finds no freeblock, and would reach below pBegin in front of the others. */
  ghost predicate TooFull(w: View, pBegin: nat, n: nat) { NoSlot(w, n) && w.top - pBegin < n }

  lemma NoBlocksNoSlot(w: View, n: nat)
    ensures w.blocks == [] ==> NoSlot(w, n)
  {
  }

  function AddedPart(w: View, ins: nat, n: nat): seq<Region> {
    if ins + n <= |w.cells| then w.cells[ins..ins + n] else []
  }

  lemma AddedNone(g: Geometry, d: seq<byte>, w: View, ins: nat, cells: seq<CellRef>, i: nat, hi: nat, ptr: nat)
    requires ins <= |w.cells| && i <= |cells|
    ensures CellsAdded(d, w, d, w, ins, BytesOf(cells[i..i])) && PtrsAt(g, d, ptr, AddedPart(w, ins, 0))
    ensures KeptBut(g, d, d, hi, g.cellOffset + 2 * ptr, g.cellOffset + 2 * ptr)
  {
    assert BytesOf(cells[i..i]) == [] && w.cells[ins..ins + 0] == [];
  }

  lemma AddedLength(d: seq<byte>, w: View, d': seq<byte>, w': View, ins: nat, bytes: seq<seq<byte>>)
    requires ins <= |w.cells| && CellsAdded(d, w, d', w', ins, bytes)
    ensures |w'.cells| == |w.cells| + |bytes| && AddedPart(w', ins, |bytes|) == w'.cells[ins..ins + |bytes|]
  {
  }

  lemma AddedContents(d: seq<byte>, w: View, d': seq<byte>, w': View, ins: nat, bytes: seq<seq<byte>>)
    requires ins <= |w.cells| && CellsAdded(d, w, d', w', ins, bytes)
    ensures Contents(d', w.cells) == Contents(d, w.cells)
  {
  }

  /** The list of freeblocks is empty exactly if the header says so. */
  lemma FirstBlock(g: Geometry, d: seq<byte>, w: View)
    requires GeometryOk(g) && g.hdr == 0 && Layout(g, w) && EncFree(g, d, w)
    ensures Get2(d, 1) != 0 <==> w.blocks != []
  {
    hide Sum, Get2;
    assert Link(g, d, w.blocks, 0);
    BlockInside(w.blocks, w.top + 1, g.usable, 0);
  }

  lemma SlotGives(g: Geometry, d: seq<byte>, d': seq<byte>, w: View, k: nat, n: nat)
    requires Layout(g, w) && GapStart(g, w) + 2 <= w.top && n >= 4 && k < |w.blocks| && w.blocks[k].size >= n
    requires (w.blocks[k].size - n < 4 ==> w.frag <= 57) && SlotTaken(g, d, d', w, TakeSlot(w, k, n))
    ensures var w1 := TakeSlot(w, k, n);
            && Reserved(g, w1, Region(w.blocks[k].start + w.blocks[k].size - n, n)) && EncFree(g, d', w1)
               && w1.cells == w.cells && w1.top == w.top
            && KeptBut(g, d, d', w.top, 0, 0) && Get2(d', g.hdr + 5) == Get2(d, g.hdr + 5)
               && Contents(d', w.cells) == Contents(d, w.cells)
            && Framed(g, d, d') && |d'| == |d|
  {
    hide Sum, Layout, Reserved, Get2, Contents, EncFree;
    SlotReserved(g, w, k, n);
  }

  lemma GapGives(g: Geometry, d: seq<byte>, w: View, n: nat)
    requires GeometryOk(g) && Layout(g, w) && EncFree(g, d, w) && n >= 4 && GapStart(g, w) + 2 + n <= w.top
    ensures var w1 := w.(top := w.top - n);
            Reserved(g, w1, Region(w.top - n, n)) && EncFree(g, d, w1) && KeptBut(g, d, d, w.top, 0, 0)
  {
    hide Sum, Layout, Reserved;
    GapReserved(g, w, n);
  }

  lemma AddStep(g: Geometry, d: seq<byte>, w: View, d0: seq<byte>, w0: View, d1: seq<byte>, d2: seq<byte>, w2: View,
                ins: nat, ptr: nat, cells: seq<CellRef>, iFirst: nat, i: nat, hi: nat, r: Region)
    requires GeometryOk(g) && ins <= |w.cells| && iFirst <= i < |cells|
             && g.cellOffset + 2 * (ptr + (i - iFirst)) + 2 <= hi <= w0.top && hi <= w2.top
    requires CellsAdded(d, w, d0, w0, ins, BytesOf(cells[iFirst..i]))
             && PtrsAt(g, d0, ptr, AddedPart(w0, ins, i - iFirst))
    requires KeptBut(g, d, d0, hi, g.cellOffset + 2 * ptr, g.cellOffset + 2 * (ptr + (i - iFirst)))
    requires KeptBut(g, d0, d1, w0.top, 0, 0) && Contents(d1, w0.cells) == Contents(d0, w0.cells)
    requires var p := g.cellOffset + 2 * (ptr + (i - iFirst)); KeptBut(g, d1, d2, w2.top, p, p + 2)
    requires Pointer(g, d2, ptr + (i - iFirst), r) && Content(d2, r) == cells[i].bytes
             && Contents(d2, w0.cells) == Contents(d1, w0.cells)
    requires w2.cells == Inserted(w0.cells, ins + (i - iFirst), r)
    ensures CellsAdded(d, w, d2, w2, ins, BytesOf(cells[iFirst..i + 1]))
            && PtrsAt(g, d2, ptr, AddedPart(w2, ins, i + 1 - iFirst))
    ensures KeptBut(g, d, d2, hi, g.cellOffset + 2 * ptr, g.cellOffset + 2 * (ptr + (i + 1 - iFirst)))
  {
    hide Get2, Content, Contents, Inserted, KeptBut, CellsAdded, Pointer, PtrsAt;
    KeptGrow(g, d, d0, d1, d2, hi, w0.top, w2.top, g.cellOffset + 2 * ptr, g.cellOffset + 2 * (ptr + (i - iFirst)));
    var n, bytes := i - iFirst, BytesOf(cells[iFirst..i]);
    assert BytesOf(cells[iFirst..i + 1]) == bytes + [cells[i].bytes];
    AddedLength(d, w, d0, w0, ins, bytes);
    AddedCells(d, w, d0, w0, d2, w2, ins, bytes, r, cells[i].bytes);
    AddedLength(d, w, d2, w2, ins, bytes + [cells[i].bytes]);
    MorePointers(g, d0, d1, d2, w0.top, w2.top, ptr, w0.cells[ins..ins + n], r);
  }

  lemma MorePointers(g: Geometry, d0: seq<byte>, d1: seq<byte>, d2: seq<byte>, top0: nat, top2: nat, ptr: nat,
                     before: seq<Region>, r: Region)
    requires GeometryOk(g) && PtrsAt(g, d0, ptr, before) && Pointer(g, d2, ptr + |before|, r)
    requires KeptBut(g, d0, d1, top0, 0, 0) && g.cellOffset + 2 * (ptr + |before|) + 2 <= top0
             && g.cellOffset + 2 * (ptr + |before|) + 2 <= top2
    requires var p := g.cellOffset + 2 * (ptr + |before|); KeptBut(g, d1, d2, top2, p, p + 2)
    ensures PtrsAt(g, d2, ptr, before + [r])
  {
    hide KeptBut, Pointer;
    var n, more := |before|, before + [r];
    PtrsKept(g, d0, d1, top0, 0, 0, ptr, before);
    PtrsKept(g, d1, d2, top2, g.cellOffset + 2 * (ptr + n), g.cellOffset + 2 * (ptr + n) + 2, ptr, before);
    forall j | 0 <= j < n + 1 ensures Pointer(g, d2, ptr + j, more[j]) {
      if j < n { assert Pointer(g, d2, ptr + j, before[j]); }
    }
  }

  lemma KeptGrow(g: Geometry, d: seq<byte>, d0: seq<byte>, d1: seq<byte>, d2: seq<byte>, hi: nat, top0: nat, top2: nat,
                 a: nat, b: nat)
    requires KeptBut(g, d, d0, hi, a, b) && KeptBut(g, d0, d1, top0, 0, 0) && KeptBut(g, d1, d2, top2, b, b + 2)
             && hi <= top0 && hi <= top2 && a <= b
    ensures KeptBut(g, d, d2, hi, a, b + 2)
  {
  }

  lemma AddedCells(d: seq<byte>, w: View, d0: seq<byte>, w0: View, d2: seq<byte>, w2: View, ins: nat,
                   bytes: seq<seq<byte>>, r: Region, b: seq<byte>)
    requires ins <= |w.cells| && CellsAdded(d, w, d0, w0, ins, bytes)
             && Contents(d2, w0.cells) == Contents(d0, w0.cells) && Content(d2, r) == b
    requires ins + |bytes| <= |w0.cells| && w2.cells == Inserted(w0.cells, ins + |bytes|, r)
    ensures CellsAdded(d, w, d2, w2, ins, bytes + [b])
            && w2.cells[ins..ins + |bytes| + 1] == w0.cells[ins..ins + |bytes|] + [r]
  {
    hide Content;
    var n := |bytes|;
    var x, y, z := w0.cells[..ins], w0.cells[ins..ins + n], w0.cells[ins + n..];
    assert w0.cells == x + y + z && w2.cells == x + y + [r] + z;
    assert w2.cells[..ins] == x && w2.cells[ins..ins + n + 1] == y + [r] && w2.cells[ins + n + 1..] == z;
    assert w.cells == x + z;
    SubContents(d0, d2, x, y, z);
    assert Contents(d2, y + [r]) == Contents(d2, y) + [b];
  }

  /** The contents of parts of a row of cells. */
  lemma SubContents(d: seq<byte>, d': seq<byte>, x: seq<Region>, y: seq<Region>, z: seq<Region>)
    requires Contents(d', x + y + z) == Contents(d, x + y + z)
    ensures Contents(d', x + z) == Contents(d, x + z) && Contents(d', y) == Contents(d, y)
  {
    hide Content;
    var s := x + y + z;
    forall i | 0 <= i < |s| ensures Content(d', s[i]) == Content(d, s[i]) {
      assert Contents(d', s)[i] == Contents(d, s)[i];
    }
    forall i | 0 <= i < |x + z| ensures Content(d', (x + z)[i]) == Content(d, (x + z)[i]) {
      assert (x + z)[i] == s[if i < |x| then i else i + |y|];
    }
    forall i | 0 <= i < |y| ensures Content(d', y[i]) == Content(d, y[i]) { assert y[i] == s[|x| + i]; }
  }

  // ----- Removing cells

  /** Cell ix[j] of the array is cell j of the page. */
  ghost predicate Places(w: View, cells: seq<CellRef>, ix: seq<nat>) {
    && |ix| == |w.cells|
    && forall j ::
         0 <= j < |ix| ==>
           ix[j] < |cells| && cells[ix[j]].at == w.cells[j].start && |cells[ix[j]].bytes| == w.cells[j].size
  }

  ghost predicate Ascends(ix: seq<nat>) { forall i, j :: 0 <= i < j < |ix| ==> ix[i] < ix[j] }

  /** Among cells lo up to hi of the array, those on the page are numbers ix[a] up to ix[b]. */
  ghost predicate Listed(cells: seq<CellRef>, ix: seq<nat>, lo: nat, hi: nat, a: nat, b: nat) {
    && a <= b <= |ix| && hi <= |cells| && (forall j :: a <= j < b ==> lo <= ix[j] < hi)
    && forall x :: lo <= x < hi && cells[x].at >= 0 ==> exists j :: a <= j < b && ix[j] == x
  }

  lemma ListedNext(cells: seq<CellRef>, ix: seq<nat>, lo: nat, hi: nat, a: nat, b: nat)
    requires Listed(cells, ix, lo, hi, a, b) && lo < hi && Ascends(ix)
             && forall j :: 0 <= j < |ix| ==> ix[j] < |cells| && cells[ix[j]].at >= 0
    ensures if cells[lo].at >= 0 then a < b && ix[a] == lo && Listed(cells, ix, lo + 1, hi, a + 1, b)
            else Listed(cells, ix, lo + 1, hi, a, b)
  {
    if cells[lo].at >= 0 {
      var j :| a <= j < b && ix[j] == lo;
      assert forall t :: a < t < |ix| ==> ix[a] < ix[t];
      forall t | a + 1 <= t < b ensures lo + 1 <= ix[t] < hi { assert ix[a] < ix[t]; }
      forall x | lo + 1 <= x < hi && cells[x].at >= 0 ensures exists t :: a + 1 <= t < b && ix[t] == x {
        var t :| a <= t < b && ix[t] == x;
      }
    }
  }

  /** A run of freed cells that lie next to each other, as one region; none if pFree is 0. */
  function RunOf(pFree: nat, szFree: nat): seq<Region> { if pFree == 0 then [] else [Region(pFree, szFree)] }

  /** Cells a up to a + n of w have been freed, except that the last run of them, of szFree bytes from pFree on,
      is still to be returned to the free space. */
  ghost predicate FreeState(g: Geometry, d: seq<byte>, d': seq<byte>, w: View, u: View, a: nat, b: nat, n: nat,
                            pFree: nat, szFree: nat) {
    && a + n <= b <= |w.cells| && u.cells == w.cells[..a] + RunOf(pFree, szFree) + w.cells[a + n..]
    && Layout(g, u) && EncSpace(g, d', u) && w.top <= u.top && HeadKept(g, d, d', w.top) && Framed(g, d, d')
    && Contents(d', w.cells[..a]) == Contents(d, w.cells[..a])
       && Contents(d', w.cells[b..]) == Contents(d, w.cells[b..])
  }

  /** pageFreeArray: returns the bytes of those cells iFirst up to iEnd that are on the page to its free space, in
      one piece if they lie next to each other. */
  method PageFreeArray(g: Geometry, d: seq<byte>, iFirst: nat, iEnd: nat, cells: seq<CellRef>, ghost w: View,
                       ghost ix: seq<nat>, ghost a: nat, ghost b: nat)
    returns (ok: bool, d': seq<byte>, nRet: nat, ghost w': View)
    requires GeometryOk(g) && Layout(g, w) && EncSpace(g, d, w) && Places(w, cells, ix) && Ascends(ix)
             && CellsLong(cells)
    requires iFirst <= iEnd <= |cells| && Listed(cells, ix, iFirst, iEnd, a, b)
    ensures ok && nRet == b - a && b <= |w.cells| && w'.cells == w.cells[..a] + w.cells[b..]
    ensures Layout(g, w') && EncSpace(g, d', w') && w.top <= w'.top && HeadKept(g, d, d', w.top) && Framed(g, d, d')
    ensures Contents(d', w'.cells) == Contents(d, w'.cells)
  {
    hide Sum, Layout, EncSpace, Contents, HeadKept, Listed, FreedBytes, FreedView, FreeState;
    ok, d', nRet, w' := true, d, 0, w;
    var pFree: nat, szFree: nat := 0, 0;
    FreeNone(g, d, w, cells, ix, iFirst, iEnd, a, b);
    for i := iFirst to iEnd
      invariant ok && Listed(cells, ix, i, iEnd, a + nRet, b) && FreeState(g, d, d', w, w', a, b, nRet, pFree, szFree)
      invariant pFree == 0 ==> szFree == 0
    {
      ListedNext(cells, ix, i, iEnd, a + nRet, b);
      var pCell := cells[i].at;
      if pCell >= g.cellOffset && pCell < g.usable {
        var sz := |cells[i].bytes|;
        RunIs(g, d, d', w, w', a, b, nRet, pFree, szFree);
        if pFree != pCell + sz {
          if pFree != 0 {
            ghost var k;
            ghost var d0, u := d', w';
            ok, d', k := FreeSpace(g, d', Region(pFree, szFree), w', a);
            w' := FreedView(w', a, k);
            RunFreed(g, d, d0, d', w, u, a, b, nRet, pFree, szFree, k);
            if !ok { return; }
          }
          RunStarts(g, d, d', w, w', a, b, nRet, pCell, sz);
          pFree, szFree := pCell, sz;
          if pFree + sz > g.usable { ok := false; return; }
        } else {
          RunGrows(g, d, d', w, w', a, b, nRet, pFree, szFree);
          w' := w'.(cells := w.cells[..a] + [Region(pCell, szFree + sz)] + w.cells[a + nRet + 1..]);
          pFree, szFree := pCell, szFree + sz;
        }
        nRet := nRet + 1;
      } else {
        OnPageInside(g, w, cells, ix, i);
      }
    }
    FreeAll(cells, ix, iEnd, a + nRet, b);
    RunIs(g, d, d', w, w', a, b, nRet, pFree, szFree);
    if pFree != 0 {
      ghost var k;
      ghost var d0, u := d', w';
      ok, d', k := FreeSpace(g, d', Region(pFree, szFree), w', a);
      w' := FreedView(w', a, k);
      RunFreed(g, d, d0, d', w, u, a, b, nRet, pFree, szFree, k);
    }
    FreeDone(g, d, d', w, w', a, b);
  }

  lemma FreeNone(g: Geometry, d: seq<byte>, w: View, cells: seq<CellRef>, ix: seq<nat>, lo: nat, hi: nat, a: nat,
                 b: nat)
    requires Layout(g, w) && EncSpace(g, d, w) && Places(w, cells, ix) && Listed(cells, ix, lo, hi, a, b)
    ensures FreeState(g, d, d, w, w, a, b, 0, 0, 0) && a <= b <= |w.cells|
  {
    hide Layout, EncSpace, Contents;
    assert w.cells == w.cells[..a] + [] + w.cells[a + 0..];
  }

  /** The run is cell a of the view. */
  lemma RunIs(g: Geometry, d: seq<byte>, d': seq<byte>, w: View, u: View, a: nat, b: nat, n: nat, pFree: nat,
              szFree: nat)
    requires FreeState(g, d, d', w, u, a, b, n, pFree, szFree)
    ensures Layout(g, u) && EncSpace(g, d', u) && (pFree != 0 ==> a < |u.cells| && u.cells[a] == Region(pFree, szFree))
  {
    hide Layout, EncSpace, Contents;
  }

  /** The run has been returned to the free space. */
  lemma RunFreed(g: Geometry, d: seq<byte>, d0: seq<byte>, d1: seq<byte>, w: View, u: View, a: nat, b: nat, n: nat,
                 pFree: nat, szFree: nat, k: nat)
    requires GeometryOk(g) && FreeState(g, d, d0, w, u, a, b, n, pFree, szFree) && pFree != 0
    requires k <= |u.blocks| && a < |u.cells| && PlaceOf(u.blocks, u.cells[a].start, k)
             && FreedBytes(g, d0, d1, u, a, k)
    ensures FreeState(g, d, d1, w, FreedView(u, a, k), a, b, n, 0, 0)
  {
    hide Sum, Layout, EncSpace, Contents, Merged, Holes, FreedBlocks;
    FreedLayout(g, u, a, k);
    FreedTopHigher(u, a, k);
    var u1 := FreedView(u, a, k);
    var x, y := w.cells[..a], w.cells[a + n..];
    assert u.cells == x + [u.cells[a]] + y;
    assert Without(u.cells, a) == x + y && u1.cells == x + [] + y;
    TwoParts(d0, d1, x, y, b - (a + n));
    assert y[b - (a + n)..] == w.cells[b..];
    HeadKeptTwice(g, d, d0, d1, w.top, u.top);
  }

  lemma HeadKeptTwice(g: Geometry, d: seq<byte>, d0: seq<byte>, d1: seq<byte>, hi: nat, hi0: nat)
    requires HeadKept(g, d, d0, hi) && HeadKept(g, d0, d1, hi0) && hi <= hi0
    ensures HeadKept(g, d, d1, hi)
  {
  }

  lemma TwoParts(d: seq<byte>, d': seq<byte>, x: seq<Region>, y: seq<Region>, i: nat)
    requires Contents(d', x + y) == Contents(d, x + y) && i <= |y|
    ensures Contents(d', x) == Contents(d, x) && Contents(d', y[i..]) == Contents(d, y[i..])
  {
    hide Content;
    var s := x + y;
    forall j | 0 <= j < |s| ensures Content(d', s[j]) == Content(d, s[j]) {
      assert Contents(d', s)[j] == Contents(d, s)[j];
    }
    forall j | 0 <= j < |x| ensures Content(d', x[j]) == Content(d, x[j]) { assert x[j] == s[j]; }
    forall j | 0 <= j < |y[i..]| ensures Content(d', y[i..][j]) == Content(d, y[i..][j]) {
      assert y[i..][j] == s[|x| + i + j];
    }
  }

  /** The next cell starts a run. */
  lemma RunStarts(g: Geometry, d: seq<byte>, d': seq<byte>, w: View, u: View, a: nat, b: nat, n: nat, pCell: int,
                  sz: nat)
    requires GeometryOk(g) && FreeState(g, d, d', w, u, a, b, n, 0, 0) && a + n < b && pCell == w.cells[a + n].start
             && sz == w.cells[a + n].size
    ensures pCell > 0 && pCell + sz <= g.usable && FreeState(g, d, d', w, u, a, b, n + 1, pCell, sz)
  {
    hide Sum, EncSpace, Contents;
    assert u.cells[a] == w.cells[a + n] == Region(pCell, sz);
    assert w.cells[a + n..] == [w.cells[a + n]] + w.cells[a + n + 1..];
    BlockInside(u.cells, u.top, g.usable, a);
  }

  /** The next cell lies just before the run. */
  lemma RunGrows(g: Geometry, d: seq<byte>, d': seq<byte>, w: View, u: View, a: nat, b: nat, n: nat, pFree: nat,
                 szFree: nat)
    requires GeometryOk(g) && FreeState(g, d, d', w, u, a, b, n, pFree, szFree) && pFree != 0 && a + n < b
             && w.cells[a + n].End() == pFree
    ensures var r := w.cells[a + n];
            var u1 := u.(cells := w.cells[..a] + [Region(r.start, szFree + r.size)] + w.cells[a + n + 1..]);
            r.start > 0 && FreeState(g, d, d', w, u1, a, b, n + 1, r.start, szFree + r.size)
  {
    hide Layout, EncSpace, EncFree, Contents;
    var x, r, y := w.cells[..a], w.cells[a + n], w.cells[a + n + 1..];
    assert w.cells[a + n..] == [r] + y;
    assert u.cells == x + [Region(pFree, szFree), r] + y;
    MergedLayout(g, u, x, Region(pFree, szFree), r, y);
    CellSize(g, u, |x| + 1);
    LayoutBounds(g, u);
    SameFree(g, d', u, u.(cells := x + [Region(r.start, szFree + r.size)] + y));
  }

  lemma SameFree(g: Geometry, d: seq<byte>, u: View, u1: View)
    requires EncSpace(g, d, u) && u1.blocks == u.blocks && u1.top == u.top && u1.frag == u.frag
    ensures EncSpace(g, d, u1)
  {
  }

  /** Two cells next to each other may be seen as one. */
  lemma MergedLayout(g: Geometry, u: View, x: seq<Region>, p: Region, r: Region, y: seq<Region>)
    requires Layout(g, u) && u.cells == x + [p, r] + y && r.End() == p.start
    ensures Layout(g, u.(cells := x + [Region(r.start, p.size + r.size)] + y))
  {
    hide Sum, Ascending, Inside, Disjoint, Cross;
    var m := Region(r.start, p.size + r.size);
    var c := x + [m] + y;
    MergedSum(x, p, r, y);
    MergedInside(u, x, p, r, y, g.usable);
    BlocksLong(u.cells, u.top, g.usable);
    BlocksLong(u.blocks, u.top + 1, g.usable);
    assert u.cells[|x|] == p && u.cells[|x| + 1] == r;
    MergedDisjoint(u, x, p, r, y);
  }

  lemma BlocksLong(s: seq<Region>, lo: nat, hi: nat)
    requires Inside(s, lo, hi)
    ensures forall j :: 0 <= j < |s| ==> s[j].size >= 4
  {
  }

  lemma MergedInside(u: View, x: seq<Region>, p: Region, r: Region, y: seq<Region>, hi: nat)
    requires u.cells == x + [p, r] + y && r.End() == p.start && Inside(u.cells, u.top, hi)
    ensures Inside(x + [Region(r.start, p.size + r.size)] + y, u.top, hi)
  {
    var c := x + [Region(r.start, p.size + r.size)] + y;
    assert u.cells[|x|] == p && u.cells[|x| + 1] == r;
    forall i | 0 <= i < |c| ensures u.top <= c[i].start && c[i].End() <= hi && c[i].size >= 4 {
      if i != |x| { assert c[i] == u.cells[if i < |x| then i else i + 1]; }
    }
  }

  lemma MergedDisjoint(u: View, x: seq<Region>, p: Region, r: Region, y: seq<Region>)
    requires u.cells == x + [p, r] + y && r.End() == p.start && Disjoint(u.cells) && Cross(u.cells, u.blocks)
    requires p.size >= 4 && r.size >= 4 && forall j :: 0 <= j < |u.cells| ==> u.cells[j].size >= 4
    requires forall j :: 0 <= j < |u.blocks| ==> u.blocks[j].size >= 4
    ensures var c := x + [Region(r.start, p.size + r.size)] + y; Disjoint(c) && Cross(c, u.blocks)
  {
    var m := Region(r.start, p.size + r.size);
    var c := x + [m] + y;
    assert u.cells[|x|] == p && u.cells[|x| + 1] == r;
    forall i, j | 0 <= i < j < |c| ensures Apart(c[i], c[j]) {
      var i', j' := if i <= |x| then i else i + 1, if j < |x| then j else j + 1;
      assert i != |x| ==> c[i] == u.cells[i'];
      assert j != |x| ==> c[j] == u.cells[j'];
      assert Apart(u.cells[i'], u.cells[j']);
      if i == |x| { assert Apart(u.cells[|x| + 1], u.cells[j']); }
      if j == |x| { assert Apart(u.cells[i'], u.cells[|x|]); }
    }
    forall i, j | 0 <= i < |c| && 0 <= j < |u.blocks| ensures Apart(c[i], u.blocks[j]) {
      if i == |x| {
        assert Apart(u.cells[|x|], u.blocks[j]) && Apart(u.cells[|x| + 1], u.blocks[j]);
      } else {
        assert c[i] == u.cells[if i < |x| then i else i + 1];
      }
    }
  }

  lemma MergedSum(x: seq<Region>, p: Region, r: Region, y: seq<Region>)
    ensures Sum(x + [p, r] + y) == Sum(x + [Region(r.start, p.size + r.size)] + y)
  {
    hide Sum;
    var m := Region(r.start, p.size + r.size);
    SumConcat(x + [p, r], y);
    SumConcat(x, [p, r]);
    SumConcat([p], [r]);
    assert [p, r] == [p] + [r];
    SumConcat(x + [m], y);
    SumConcat(x, [m]);
    SumOne(p);
    SumOne(r);
    SumOne(m);
  }

  lemma OnPageInside(g: Geometry, w: View, cells: seq<CellRef>, ix: seq<nat>, i: nat)
    requires GeometryOk(g) && Layout(g, w) && Places(w, cells, ix) && i < |cells|
             && !(g.cellOffset <= cells[i].at < g.usable)
    ensures i !in ix
  {
    hide Sum;
    forall j | 0 <= j < |ix| ensures ix[j] != i { BlockInside(w.cells, w.top, g.usable, j); }
  }

  lemma FreeAll(cells: seq<CellRef>, ix: seq<nat>, hi: nat, a: nat, b: nat)
    requires Listed(cells, ix, hi, hi, a, b)
    ensures a == b
  {
    var x := if a < |ix| then ix[a] else 0;
  }

  lemma FreeDone(g: Geometry, d: seq<byte>, d': seq<byte>, w: View, u: View, a: nat, b: nat)
    requires a <= b && FreeState(g, d, d', w, u, a, b, b - a, 0, 0)
    ensures b <= |w.cells| && u.cells == w.cells[..a] + w.cells[b..] && Layout(g, u) && EncSpace(g, d', u)
            && w.top <= u.top
    ensures HeadKept(g, d, d', w.top) && Framed(g, d, d') && Contents(d', u.cells) == Contents(d, u.cells)
  {
    hide Layout, EncSpace, Content;
    var x, y := w.cells[..a], w.cells[b..];
    assert u.cells == x + y;
    assert Contents(d', x + y) == Contents(d', x) + Contents(d', y)
        && Contents(d, x + y) == Contents(d, x) + Contents(d, y);
  }

  // ----- Which cells of the array are on the page

  function Range(lo: nat, hi: nat): (r: seq<nat>)
    ensures |r| == if lo <= hi then hi - lo else 0
  {
    if hi <= lo then [] else seq(hi - lo, i requires 0 <= i < hi - lo => lo + i)
  }

  /** The bytes of the cells with the given numbers. */
  function BytesAt(cells: seq<CellRef>, ix: seq<nat>): (r: seq<seq<byte>>)
    requires forall j :: 0 <= j < |ix| ==> ix[j] < |cells|
    ensures |r| == |ix|
  {
    seq(|ix|, j requires 0 <= j < |ix| => cells[ix[j]].bytes)
  }

  ghost predicate Numbers(cells: seq<CellRef>, ix: seq<nat>) { forall j :: 0 <= j < |ix| ==> ix[j] < |cells| }

  /** The numbers of the cells on the page before editing: overflow cells, of which there are nOv after the
      first ov cells, are not on the page. */
  function OldNumbers(iOld: nat, nCell: nat, ov: nat, nOv: nat): seq<nat> {
    Range(iOld, iOld + ov) + Range(iOld + ov + nOv, iOld + nCell + nOv)
  }

  function Least(x: nat, lo: nat): nat { if x < lo then lo else x }
  function Clamp(x: nat, lo: nat, hi: nat): nat { if x < lo then lo else if x > hi then hi else x }

  /** Those that are not before lo. */
  function FromNumbers(iOld: nat, nCell: nat, ov: nat, nOv: nat, lo: nat): seq<nat> {
    Range(Least(iOld, lo), Least(iOld + ov, lo)) + Range(Least(iOld + ov + nOv, lo), Least(iOld + nCell + nOv, lo))
  }

  /** Those from lo up to, not including, hi. */
  function KeptNumbers(iOld: nat, nCell: nat, ov: nat, nOv: nat, lo: nat, hi: nat): seq<nat> {
    Range(Clamp(iOld, lo, hi), Clamp(iOld + ov, lo, hi))
        + Range(Clamp(iOld + ov + nOv, lo, hi), Clamp(iOld + nCell + nOv, lo, hi))
  }

  lemma OldAscends(iOld: nat, nCell: nat, ov: nat, nOv: nat)
    requires ov <= nCell
    ensures Ascends(OldNumbers(iOld, nCell, ov, nOv)) && |OldNumbers(iOld, nCell, ov, nOv)| == nCell
  {
  }

  /** The numbers before lo come first. */
  lemma CutFront(iOld: nat, nCell: nat, ov: nat, nOv: nat, lo: nat)
    requires ov <= nCell
    ensures var ix, from := OldNumbers(iOld, nCell, ov, nOv), FromNumbers(iOld, nCell, ov, nOv, lo);
            && |from| <= |ix| && ix[|ix| - |from|..] == from
               && (forall j :: 0 <= j < |ix| - |from| ==> iOld <= ix[j] < lo)
            && Ascends(from) && (forall j :: 0 <= j < |from| ==> lo <= from[j]) && (lo <= iOld ==> from == ix)
  {
    hide Ascends, OldNumbers;
    var ix, from := OldNumbers(iOld, nCell, ov, nOv), FromNumbers(iOld, nCell, ov, nOv, lo);
    CutFrontEqual(iOld, nCell, ov, nOv, lo);
    OldAscends(iOld, nCell, ov, nOv);
    FromAscends(ix, |ix| - |from|);
    CutFrontBefore(iOld, nCell, ov, nOv, lo);
    if lo <= iOld { assert ix[0..] == ix; }
  }

  lemma FromAscends(ix: seq<nat>, b: nat)
    requires Ascends(ix) && b <= |ix|
    ensures Ascends(ix[b..])
  {
  }

  lemma CutFrontEqual(iOld: nat, nCell: nat, ov: nat, nOv: nat, lo: nat)
    requires ov <= nCell
    ensures var ix, from := OldNumbers(iOld, nCell, ov, nOv), FromNumbers(iOld, nCell, ov, nOv, lo);
            |from| <= |ix| && ix[|ix| - |from|..] == from && (lo <= iOld ==> |from| == |ix|)
  {
    hide Range;
    var x0, x1, y0, y1 := iOld, iOld + ov, iOld + ov + nOv, iOld + nCell + nOv;
    var k := if lo <= x0 then 0 else if lo <= x1 then lo - x0 else if lo <= y0 then x1 - x0
             else if lo <= y1 then x1 - x0 + (lo - y0) else nCell;
    DropFront(x0, x1, y0, y1, Least(x0, lo), Least(x1, lo), Least(y0, lo), Least(y1, lo), k);
  }

  /** Two ranges without their first k numbers. */
  lemma DropFront(x0: nat, x1: nat, y0: nat, y1: nat, a: nat, b: nat, c: nat, e: nat, k: nat)
    requires x0 <= x1 && y0 <= y1
    requires || (k <= x1 - x0 && a == x0 + k && b == x1 && c == y0 && e == y1)
             || (k >= x1 - x0 && b <= a && c == y0 + (k - (x1 - x0)) <= e == y1)
             || (k == x1 - x0 + (y1 - y0) && b <= a && e <= c)
    ensures var s := Range(x0, x1) + Range(y0, y1);
            k <= |s| && s[k..] == Range(a, b) + Range(c, e) && |Range(a, b) + Range(c, e)| == |s| - k
  {
    hide Range;
    ConcatDrop(Range(x0, x1), Range(y0, y1), k);
    RangeEmpty(a, b);
    RangeEmpty(c, e);
    if k <= x1 - x0 { RangeDrop(x0, x1, k); }
    if k >= x1 - x0 { RangeDrop(y0, y1, k - (x1 - x0)); RangeEmpty(x1, x1); RangeEmpty(y1, y1); }
  }

  lemma RangeDrop(lo: nat, hi: nat, k: nat)
    requires lo + k <= hi
    ensures Range(lo, hi)[k..] == Range(lo + k, hi)
  {
  }

  lemma RangeEmpty(lo: nat, hi: nat)
    ensures hi <= lo ==> Range(lo, hi) == []
  {
  }

  lemma ConcatDrop<T>(x: seq<T>, y: seq<T>, k: nat)
    requires k <= |x| + |y|
    ensures (x + y)[k..] == if k <= |x| then x[k..] + y else y[k - |x|..]
  {
  }

  lemma CutFrontBefore(iOld: nat, nCell: nat, ov: nat, nOv: nat, lo: nat)
    requires ov <= nCell
    ensures var ix, n := OldNumbers(iOld, nCell, ov, nOv), |FromNumbers(iOld, nCell, ov, nOv, lo)|;
            && (forall j :: 0 <= j < |ix| - n ==> iOld <= ix[j] < lo)
            && forall j :: 0 <= j < n ==> lo <= FromNumbers(iOld, nCell, ov, nOv, lo)[j]
  {
  }

  /** The numbers from hi on come last. */
  lemma CutBack(iOld: nat, nCell: nat, ov: nat, nOv: nat, lo: nat, hi: nat)
    requires ov <= nCell && lo <= hi
    ensures var from, kept := FromNumbers(iOld, nCell, ov, nOv, lo), KeptNumbers(iOld, nCell, ov, nOv, lo, hi);
            && |kept| <= |from| && from[..|kept|] == kept
               && (forall j :: |kept| <= j < |from| ==> hi <= from[j] < iOld + nCell + nOv)
            && (forall j :: 0 <= j < |kept| ==> lo <= kept[j] < hi) && (iOld + nCell + nOv <= hi ==> kept == from)
  {
    CutBackEqual(iOld, nCell, ov, nOv, lo, hi);
    CutBackAfter(iOld, nCell, ov, nOv, lo, hi);
  }

  lemma CutBackEqual(iOld: nat, nCell: nat, ov: nat, nOv: nat, lo: nat, hi: nat)
    requires ov <= nCell && lo <= hi
    ensures var from, kept := FromNumbers(iOld, nCell, ov, nOv, lo), KeptNumbers(iOld, nCell, ov, nOv, lo, hi);
            |kept| <= |from| && from[..|kept|] == kept && (iOld + nCell + nOv <= hi ==> kept == from)
  {
    hide Range;
    var x0, x1 := Least(iOld, lo), Least(iOld + ov, lo);
    var y0, y1 := Least(iOld + ov + nOv, lo), Least(iOld + nCell + nOv, lo);
    var k := if hi <= x0 then 0 else if hi <= x1 then hi - x0 else if hi <= y0 then x1 - x0
             else if hi <= y1 then x1 - x0 + (hi - y0) else x1 - x0 + (y1 - y0);
    TakeFront(x0, x1, y0, y1, Clamp(iOld, lo, hi), Clamp(iOld + ov, lo, hi), Clamp(iOld + ov + nOv, lo, hi),
              Clamp(iOld + nCell + nOv, lo, hi), k);
  }

  /** The first k numbers of two ranges. */
  lemma TakeFront(x0: nat, x1: nat, y0: nat, y1: nat, a: nat, b: nat, c: nat, e: nat, k: nat)
    requires x0 <= x1 && y0 <= y1
    requires || (k <= x1 - x0 && a == x0 && b == x0 + k && e <= c)
             || (k == 0 && b <= a && e <= c)
             || (x1 - x0 <= k <= x1 - x0 + (y1 - y0) && a == x0 && b == x1 && c == y0 && e == y0 + (k - (x1 - x0)))
    ensures var s := Range(x0, x1) + Range(y0, y1);
            k <= |s| && s[..k] == Range(a, b) + Range(c, e) && |Range(a, b) + Range(c, e)| == k
  {
    hide Range;
    ConcatTake(Range(x0, x1), Range(y0, y1), k);
    RangeEmpty(a, b);
    RangeEmpty(c, e);
    if k <= x1 - x0 { RangeTake(x0, x1, k); }
    if k >= x1 - x0 { RangeTake(y0, y1, k - (x1 - x0)); }
  }

  lemma RangeTake(lo: nat, hi: nat, k: nat)
    requires lo + k <= hi
    ensures Range(lo, hi)[..k] == Range(lo, lo + k)
  {
  }

  lemma ConcatTake<T>(x: seq<T>, y: seq<T>, k: nat)
    requires k <= |x| + |y|
    ensures (x + y)[..k] == if k <= |x| then x[..k] else x + y[..k - |x|]
  {
  }

  lemma CutBackAfter(iOld: nat, nCell: nat, ov: nat, nOv: nat, lo: nat, hi: nat)
    requires ov <= nCell && lo <= hi
    ensures var from, n := FromNumbers(iOld, nCell, ov, nOv, lo), |KeptNumbers(iOld, nCell, ov, nOv, lo, hi)|;
            && (forall j :: n <= j < |from| ==> hi <= from[j] < iOld + nCell + nOv)
            && forall j :: 0 <= j < n ==> lo <= KeptNumbers(iOld, nCell, ov, nOv, lo, hi)[j] < hi
  {
  }

  // ----- Removing cells from the start and the end of the page

  /** The cells of the page are those of the array with numbers ix, and the pointers are in order. */
  ghost predicate OnPage(g: Geometry, d: seq<byte>, w: View, cells: seq<CellRef>, ix: seq<nat>) {
    && Layout(g, w) && EncSpace(g, d, w) && PtrsAt(g, d, 0, w.cells) && Places(w, cells, ix) && Numbers(cells, ix)
    && Contents(d, w.cells) == BytesAt(cells, ix)
  }

  /** The page is described by the array: no other cell of the array is on it. */
  ghost predicate OldPage(g: Geometry, d: seq<byte>, v: View, cells: seq<CellRef>, iOld: nat, ov: nat, nOv: nat) {
    && ov <= |v.cells| && iOld + |v.cells| + nOv <= |cells|
       && OnPage(g, d, v, cells, OldNumbers(iOld, |v.cells|, ov, nOv))
    && forall x :: 0 <= x < |cells| && cells[x].at >= 0 ==> x in OldNumbers(iOld, |v.cells|, ov, nOv)
  }

  /** Cells a up to b of the page have been freed. */
  lemma OnPageFreed(g: Geometry, d: seq<byte>, d': seq<byte>, w: View, w': View, cells: seq<CellRef>, ix: seq<nat>,
                    a: nat, b: nat)
    requires OnPage(g, d, w, cells, ix) && a <= b <= |ix| && w'.cells == w.cells[..a] + w.cells[b..]
    requires Contents(d', w'.cells) == Contents(d, w'.cells)
    ensures Places(w', cells, ix[..a] + ix[b..]) && Numbers(cells, ix[..a] + ix[b..])
    ensures Contents(d', w'.cells) == BytesAt(cells, ix[..a] + ix[b..])
  {
    hide Layout, EncSpace, Content;
    var ix' := ix[..a] + ix[b..];
    forall j | 0 <= j < |ix'|
      ensures ix'[j] < |cells| && cells[ix'[j]].at == w'.cells[j].start && |cells[ix'[j]].bytes| == w'.cells[j].size
      ensures Content(d', w'.cells[j]) == cells[ix'[j]].bytes
    {
      var i := if j < a then j else j - a + b;
      assert w'.cells[j] == w.cells[i] && ix'[j] == ix[i];
      assert Contents(d', w'.cells)[j] == Contents(d, w'.cells)[j] && Contents(d, w.cells)[i] == BytesAt(cells, ix)[i];
    }
  }

  /** Moves the pointers of all but the first n cells to the start of the array.  As many bytes are moved as there
      were pointers; those behind the array do no harm. */
  lemma PointersShifted(g: Geometry, d: seq<byte>, w0: View, w: View, n: nat)
    requires GeometryOk(g) && n <= |w0.cells| && w.cells == w0.cells[n..] && PtrsAt(g, d, 0, w0.cells) && Layout(g, w0)
    requires Layout(g, w) && EncSpace(g, d, w) && w0.top <= w.top
    ensures g.cellOffset + 2 * n + 2 * |w0.cells| <= |d|
    ensures var d' := Write(d, g.cellOffset, d[g.cellOffset + 2 * n..g.cellOffset + 2 * n + 2 * |w0.cells|]);
            EncSpace(g, d', w) && Contents(d', w.cells) == Contents(d, w.cells) && PtrsAt(g, d', 0, w.cells)
                && Framed(g, d, d')
  {
    hide Sum, Layout, Contents, EncSpace, Write, PtrsAt;
    LayoutBounds(g, w0);
    RoomForTwice(g, w0);
    EncLength(g, d, w);
    var c, m := g.cellOffset, |w0.cells|;
    var d' := Write(d, c, d[c + 2 * n..c + 2 * n + 2 * m]);
    WriteSame(d, c, d[c + 2 * n..c + 2 * n + 2 * m], {g.hdr + 3, g.hdr + 4});
    FramedBy(g, d, d', {g.hdr + 3, g.hdr + 4} + Span(c, c + 2 * m));
    PointerWritesIn(g, d, d', w, c + 2 * m);
    MovedDown(g, d, d', w0.cells, n);
  }

  lemma WriteSame(d: seq<byte>, a: nat, t: seq<byte>, s: set<nat>)
    requires a + |t| <= |d|
    ensures SameExcept(d, Write(d, a, t), s + Span(a, a + |t|))
  {
  }

  lemma MovedDown(g: Geometry, d: seq<byte>, d': seq<byte>, cells: seq<Region>, n: nat)
    requires n <= |cells| && PtrsAt(g, d, 0, cells) && g.cellOffset + 2 * n + 2 * |cells| <= |d|
    requires d' == Write(d, g.cellOffset, d[g.cellOffset + 2 * n..g.cellOffset + 2 * n + 2 * |cells|])
    ensures PtrsAt(g, d', 0, cells[n..])
  {
    hide Write, Pointer;
    forall i | 0 <= i < |cells| - n ensures Pointer(g, d', 0 + i, cells[n..][i]) {
      assert Pointer(g, d, 0 + (n + i), cells[n + i]);
      MovedPointer(g, d, d', 0, n, 2 * |cells|, n + i, cells[n + i]);
    }
  }

  /** A pointer that is moved from slot j to slot j - from + to. */
  lemma MovedPointer(g: Geometry, d: seq<byte>, d': seq<byte>, to: nat, from: nat, n: nat, j: nat, r: Region)
    requires Pointer(g, d, j, r) && from <= j && 2 * (j - from) + 2 <= n
    requires g.cellOffset + 2 * to + n <= |d| && g.cellOffset + 2 * from + n <= |d|
    requires d' == Write(d, g.cellOffset + 2 * to, d[g.cellOffset + 2 * from..g.cellOffset + 2 * from + n])
    ensures Pointer(g, d', j - from + to, r)
  {
    var a, b, i := g.cellOffset + 2 * to, g.cellOffset + 2 * from, 2 * (j - from);
    MovedByte(d, a, b, n, i);
    MovedByte(d, a, b, n, i + 1);
  }

  /** The bytes from b on, written from a on. */
  lemma MovedByte(d: seq<byte>, a: nat, b: nat, n: nat, i: nat)
    requires a + n <= |d| && b + n <= |d| && i < n
    ensures Write(d, a, d[b..b + n])[a + i] == d[b + i]
  {
  }

  lemma EncLength(g: Geometry, d: seq<byte>, w: View)
    requires EncSpace(g, d, w)
    ensures g.usable <= |d| && g.hdr + 8 <= |d|
  {
  }

  lemma PointerWritesIn(g: Geometry, d: seq<byte>, d': seq<byte>, w: View, hi: nat)
    requires GeometryOk(g) && Layout(g, w) && EncSpace(g, d, w)
             && SameExcept(d, d', {g.hdr + 3, g.hdr + 4} + Span(g.cellOffset, hi))
    requires g.cellOffset <= hi <= w.top
    ensures EncSpace(g, d', w) && Contents(d', w.cells) == Contents(d, w.cells)
  {
    hide Sum, EncSpace, Contents;
    LayoutStarts(g, w);
    PointerWrites(g, d, d', w, hi, w.cells);
  }

  /** Every cell takes four bytes besides its pointer. */
  lemma RoomForTwice(g: Geometry, w: View)
    requires GeometryOk(g) && Layout(g, w)
    ensures g.cellOffset + 6 * |w.cells| <= g.usable
  {
    hide Sum;
    SumLong(w.cells, w.top, g.usable);
  }

  lemma {:induction false} SumLong(s: seq<Region>, lo: nat, hi: nat)
    requires Inside(s, lo, hi)
    ensures Sum(s) >= 4 * |s|
  {
    if s != [] { SumLong(s[1..], lo, hi); }
  }

  /** The first part of editPage: removes the cells that do not belong to iNew .. iNew + nNew - 1. */
  method RemoveCells(g: Geometry, d: seq<byte>, cells: seq<CellRef>, iOld: nat, nCell0: nat, nOv: nat, iNew: nat,
                     nNew: nat, ghost v: View, ghost ov: nat)
    returns (ok: bool, d': seq<byte>, nCell: nat, ghost w: View)
    requires GeometryOk(g) && OldPage(g, d, v, cells, iOld, ov, nOv) && nCell0 == |v.cells| && CellsLong(cells)
             && iNew + nNew <= |cells|
    ensures ok && |d'| == |d| && nCell == |w.cells| && v.top <= w.top && Framed(g, d, d')
    ensures OnPage(g, d', w, cells, KeptNumbers(iOld, nCell0, ov, nOv, iNew, iNew + nNew))
  {
    hide Sum, Layout, EncSpace, Contents, HeadKept, PtrsAt, Places, Ascends, Listed, OldNumbers, FromNumbers,
      KeptNumbers, Write, OldPage, OnPage, Framed;
    ok, d', nCell, w := true, d, nCell0, v;
    FramedSame(g, d);
    var iOldEnd, iNewEnd := iOld + nCell0 + nOv, iNew + nNew;
    ghost var from := FromNumbers(iOld, nCell0, ov, nOv, iNew);
    OldBounds(g, d, v, cells, iOld, ov, nOv);
    CutFront(iOld, nCell0, ov, nOv, iNew);
    if iOld < iNew {
      ghost var ix := OldNumbers(iOld, nCell0, ov, nOv);
      ghost var b := |ix| - |from|;
      FrontIsListed(g, d, v, cells, iOld, ov, nOv, iNew);
      var nShift;
      ok, d', nShift, w := PageFreeArray(g, d, iOld, iNew, cells, v, ix, 0, b);
      FrontFreed(g, d, d', v, w, cells, ix, b);
      FramedTwice(g, d, d', Write(d', g.cellOffset,
                                  d'[g.cellOffset + 2 * nShift..g.cellOffset + 2 * nShift + 2 * nCell]));
      d' := Write(d', g.cellOffset, d'[g.cellOffset + 2 * nShift..g.cellOffset + 2 * nShift + 2 * nCell]);
      nCell := nCell - nShift;
    } else {
      NothingBefore(g, d, v, cells, iOld, ov, nOv, iNew);
    }
    CutBack(iOld, nCell0, ov, nOv, iNew, iNewEnd);
    if iNewEnd < iOldEnd {
      ghost var a := |KeptNumbers(iOld, nCell0, ov, nOv, iNew, iNewEnd)|;
      ghost var d0, w0 := d', w;
      BackIsListed(g, d, d', v, w, cells, iOld, ov, nOv, iNew, iNewEnd);
      var nBack;
      ok, d', nBack, w := PageFreeArray(g, d', iNewEnd, iOldEnd, cells, w, from, a, |from|);
      BackFreed(g, d0, d', w0, w, cells, from, a);
      FramedTwice(g, d, d0, d');
      nCell := nCell - nBack;
    }
    PageLength(g, d', w, cells, KeptNumbers(iOld, nCell0, ov, nOv, iNew, iNewEnd));
  }

  lemma OldBounds(g: Geometry, d: seq<byte>, v: View, cells: seq<CellRef>, iOld: nat, ov: nat, nOv: nat)
    requires OldPage(g, d, v, cells, iOld, ov, nOv)
    ensures ov <= |v.cells| && iOld + |v.cells| + nOv <= |cells|
  {
  }

  lemma PageLength(g: Geometry, d: seq<byte>, w: View, cells: seq<CellRef>, ix: seq<nat>)
    requires OnPage(g, d, w, cells, ix)
    ensures |w.cells| == |ix| && g.usable <= |d| && g.hdr + 8 <= |d|
  {
    hide Layout, Contents;
  }

  lemma FrontIsListed(g: Geometry, d: seq<byte>, v: View, cells: seq<CellRef>, iOld: nat, ov: nat, nOv: nat, iNew: nat)
    requires OldPage(g, d, v, cells, iOld, ov, nOv) && iOld < iNew <= |cells|
    ensures var ix := OldNumbers(iOld, |v.cells|, ov, nOv);
            && |FromNumbers(iOld, |v.cells|, ov, nOv, iNew)| <= |ix| && OnPage(g, d, v, cells, ix) && Ascends(ix)
               && Layout(g, v) && EncSpace(g, d, v)
            && Places(v, cells, ix) && Listed(cells, ix, iOld, iNew, 0,
               |ix| - |FromNumbers(iOld, |v.cells|, ov, nOv, iNew)|)
  {
    hide Layout, EncSpace, Contents, OldNumbers, FromNumbers;
    CutFront(iOld, |v.cells|, ov, nOv, iNew);
    OldAscends(iOld, |v.cells|, ov, nOv);
    var ix, from := OldNumbers(iOld, |v.cells|, ov, nOv), FromNumbers(iOld, |v.cells|, ov, nOv, iNew);
    var b := |ix| - |from|;
    assert forall t :: b <= t < |ix| ==> ix[t] == ix[b..][t - b];
    forall x | iOld <= x < iNew && cells[x].at >= 0 ensures exists j :: 0 <= j < b && ix[j] == x {
      assert x in ix;
      var j :| 0 <= j < |ix| && ix[j] == x;
    }
  }

  lemma FrontFreed(g: Geometry, d: seq<byte>, d1: seq<byte>, v: View, w: View, cells: seq<CellRef>, ix: seq<nat>,
                   b: nat)
    requires GeometryOk(g) && OnPage(g, d, v, cells, ix) && b <= |ix| && w.cells == v.cells[..0] + v.cells[b..]
             && Contents(d1, w.cells) == Contents(d, w.cells)
    requires Layout(g, w) && EncSpace(g, d1, w) && v.top <= w.top && HeadKept(g, d, d1, v.top)
    ensures g.cellOffset + 2 * b + 2 * |v.cells| <= |d1| == |d|
    ensures OnPage(g, Write(d1, g.cellOffset, d1[g.cellOffset + 2 * b..g.cellOffset + 2 * b + 2 * |v.cells|]), w,
            cells, ix[b..])
    ensures Framed(g, d1, Write(d1, g.cellOffset, d1[g.cellOffset + 2 * b..g.cellOffset + 2 * b + 2 * |v.cells|]))
    ensures |w.cells| == |v.cells| - b
  {
    hide Sum, Layout, EncSpace, Contents, Places, PtrsAt, Write;
    OnPageFreed(g, d, d1, v, w, cells, ix, 0, b);
    assert ix[..0] + ix[b..] == ix[b..];
    PlacesLength(v, cells, ix);
    assert v.cells[..0] + v.cells[b..] == v.cells[b..];
    LayoutBounds(g, v);
    HeadIsKeptBut(g, d, d1, v.top);
    PtrsKept(g, d, d1, v.top, 0, 0, 0, v.cells);
    PointersShifted(g, d1, v, w, b);
  }

  lemma PlacesLength(w: View, cells: seq<CellRef>, ix: seq<nat>)
    requires Places(w, cells, ix)
    ensures |w.cells| == |ix|
  {
  }

  lemma HeadIsKeptBut(g: Geometry, d: seq<byte>, d': seq<byte>, hi: nat)
    requires HeadKept(g, d, d', hi)
    ensures KeptBut(g, d, d', hi, 0, 0)
  {
  }

  lemma NothingBefore(g: Geometry, d: seq<byte>, v: View, cells: seq<CellRef>, iOld: nat, ov: nat, nOv: nat, iNew: nat)
    requires OldPage(g, d, v, cells, iOld, ov, nOv) && iNew <= iOld
    ensures OnPage(g, d, v, cells, FromNumbers(iOld, |v.cells|, ov, nOv, iNew))
  {
    hide OnPage, OldNumbers, FromNumbers;
    CutFront(iOld, |v.cells|, ov, nOv, iNew);
  }

  lemma BackIsListed(g: Geometry, d: seq<byte>, d1: seq<byte>, v: View, w: View, cells: seq<CellRef>, iOld: nat,
                     ov: nat, nOv: nat, iNew: nat, iNewEnd: nat)
    requires OldPage(g, d, v, cells, iOld, ov, nOv) && iNew <= iNewEnd < iOld + |v.cells| + nOv
    requires OnPage(g, d1, w, cells, FromNumbers(iOld, |v.cells|, ov, nOv, iNew))
    ensures var from, kept := FromNumbers(iOld, |v.cells|, ov, nOv, iNew),
            KeptNumbers(iOld, |v.cells|, ov, nOv, iNew, iNewEnd);
            && |kept| <= |from| && Ascends(from) && Layout(g, w) && EncSpace(g, d1, w) && Places(w, cells, from)
            && iOld + |v.cells| + nOv <= |cells|
            && Listed(cells, from, iNewEnd, iOld + |v.cells| + nOv, |kept|, |from|)
  {
    hide Layout, EncSpace, Contents, OldNumbers, FromNumbers, KeptNumbers, Ascends, Places, Listed;
    CutFront(iOld, |v.cells|, ov, nOv, iNew);
    CutBack(iOld, |v.cells|, ov, nOv, iNew, iNewEnd);
    OldBounds(g, d, v, cells, iOld, ov, nOv);
    BackListed(cells, OldNumbers(iOld, |v.cells|, ov, nOv), FromNumbers(iOld, |v.cells|, ov, nOv, iNew),
               |KeptNumbers(iOld, |v.cells|, ov, nOv, iNew, iNewEnd)|, iNew, iNewEnd, iOld + |v.cells| + nOv);
  }

  lemma BackListed(cells: seq<CellRef>, ix: seq<nat>, from: seq<nat>, n: nat, lo: nat, hi: nat, end: nat)
    requires |from| <= |ix| && ix[|ix| - |from|..] == from && n <= |from| && lo <= hi && end <= |cells|
    requires (forall j :: 0 <= j < |ix| - |from| ==> ix[j] < lo) && forall j :: 0 <= j < n ==> from[..n][j] < hi
    requires forall j :: n <= j < |from| ==> hi <= from[j] < end
    requires forall x :: 0 <= x < |cells| && cells[x].at >= 0 ==> x in ix
    ensures Listed(cells, from, hi, end, n, |from|)
  {
    forall x | hi <= x < end && cells[x].at >= 0 ensures exists j :: n <= j < |from| && from[j] == x {
      BackHas(ix, from, n, lo, hi, x);
    }
  }

  lemma BackHas(ix: seq<nat>, from: seq<nat>, n: nat, lo: nat, hi: nat, x: nat)
    requires |from| <= |ix| && ix[|ix| - |from|..] == from && n <= |from| && lo <= hi <= x && x in ix
    requires (forall j :: 0 <= j < |ix| - |from| ==> ix[j] < lo) && forall j :: 0 <= j < n ==> from[..n][j] < hi
    ensures exists j :: n <= j < |from| && from[j] == x
  {
    var b := |ix| - |from|;
    assert forall t :: 0 <= t < n ==> from[t] == from[..n][t];
    var i :| 0 <= i < |ix| && ix[i] == x;
    assert ix[b..][i - b] == x;
  }

  lemma BackFreed(g: Geometry, d: seq<byte>, d': seq<byte>, w0: View, w: View, cells: seq<CellRef>, from: seq<nat>,
                  a: nat)
    requires GeometryOk(g) && OnPage(g, d, w0, cells, from) && a <= |from|
             && w.cells == w0.cells[..a] + w0.cells[|from|..]
    requires Contents(d', w.cells) == Contents(d, w.cells) && Layout(g, w) && EncSpace(g, d', w) && w0.top <= w.top
             && HeadKept(g, d, d', w0.top)
    ensures OnPage(g, d', w, cells, from[..a]) && |d'| == |d| && |w.cells| == a
  {
    hide Sum, Layout, EncSpace, Contents, Places;
    OnPageFreed(g, d, d', w0, w, cells, from, a, |from|);
    assert from[..a] + from[|from|..] == from[..a];
    PlacesLength(w0, cells, from);
    assert w.cells == w0.cells[..a];
    LayoutBounds(g, w0);
    HeadIsKeptBut(g, d, d', w0.top);
    PtrsKept(g, d, d', w0.top, 0, 0, 0, w0.cells);
    forall i | 0 <= i < a ensures Pointer(g, d', 0 + i, w.cells[i]) { assert Pointer(g, d', 0 + i, w0.cells[i]); }
  }

  // ----- The whole edit

  /** Between two steps of editPage: the page holds the cells with numbers ix, its content area starts at pData,
      which the header does not say yet, and the cells w0 that were kept are still intact. */
  ghost predicate EditState(g: Geometry, d: seq<byte>, w: View, cells: seq<CellRef>, ix: seq<nat>, pBegin: nat,
                            pData: nat, w0: View, ix0: seq<nat>, top0: nat) {
    && g.usable <= |d| && Layout(g, w) && EncFree(g, d, w) && w.top == pData >= pBegin && PtrsAt(g, d, 0, w.cells)
    && Numbers(cells, ix) && |ix| == |w.cells| && Contents(d, w.cells) == BytesAt(cells, ix)
    && Unharmed(d, w, cells, w0, ix0, top0)
  }

  ghost predicate Unharmed(d: seq<byte>, w: View, cells: seq<CellRef>, w0: View, ix0: seq<nat>, top0: nat) {
    && 7 <= |d| && Get2(d, 5) == top0 && Numbers(cells, ix0) && Contents(d, w0.cells) == BytesAt(cells, ix0)
    && forall r :: r in w0.cells ==> r in w.cells
  }

  /** Adds cells iFirst up to iEnd between the cells before slot pos and those from there on. */
  method AddCells(g: Geometry, d: seq<byte>, pBegin: nat, pData0: nat, nCell: nat, pos: nat, iFirst: nat, iEnd: nat,
                  cells: seq<CellRef>, ghost w: View, ghost ix: seq<nat>, ghost w0: View, ghost ix0: seq<nat>,
                  ghost top0: nat)
    returns (full: bool, d': seq<byte>, pData: nat, ghost w': View)
    requires GeometryOk(g) && g.hdr == 0 && EditState(g, d, w, cells, ix, pBegin, pData0, w0, ix0, top0)
             && nCell == |ix| && pos <= nCell
    requires iFirst <= iEnd <= |cells| && CellsLong(cells) && (forall i :: iFirst <= i < iEnd ==> cells[i].at < 0)
    requires g.cellOffset + 2 * (nCell + (iEnd - iFirst)) <= pBegin
    ensures |d'| == |d| && Framed(g, d, d') && (iFirst == iEnd ==> !full && w' == w)
    ensures full ==> Unharmed(d', w, cells, w0, ix0, top0)
    ensures !full ==> EditState(g, d', w', cells, ix[..pos] + Range(iFirst, iEnd) + ix[pos..], pBegin, pData, w0, ix0,
            top0)
  {
    hide Sum, Layout, Get2, Contents, EncFree, KeptBut, PtrsAt, CellsAdded, Write, Range, EditState, Unharmed,
      Framed;
    var n := iEnd - iFirst;
    StateLength(g, d, w, cells, ix, pBegin, pData0, w0, ix0, top0);
    d' := d;
    if pos < nCell {
      d' := Write(d, g.cellOffset + 2 * (pos + n), d[g.cellOffset + 2 * pos..g.cellOffset + 2 * nCell]);
    }
    SlotsOpened(g, d, d', w, cells, ix, pBegin, pData0, w0, ix0, top0, pos, n);
    ghost var d1 := d';
    full, d', pData, w' := PageInsertArray(g, d', pBegin, pData0, pos, iFirst, iEnd, cells, w, pos);
    FramedTwice(g, d, d1, d');
    if full {
      StillUnharmed(d1, d', w, w, cells, w0, ix0, top0);
    } else {
      CellsJoined(g, d1, d', w, w', cells, ix, pBegin, pData, w0, ix0, top0, pos, iFirst, iEnd);
    }
  }

  lemma StateLength(g: Geometry, d: seq<byte>, w: View, cells: seq<CellRef>, ix: seq<nat>, pBegin: nat, pData: nat,
                    w0: View, ix0: seq<nat>, top0: nat)
    requires EditState(g, d, w, cells, ix, pBegin, pData, w0, ix0, top0) && GeometryOk(g)
    ensures |w.cells| == |ix| && g.usable <= |d| && pBegin <= pData == w.top <= g.usable && Layout(g, w)
            && EncFree(g, d, w)
  {
    hide Sum, Contents, EncFree;
  }

  /** The pointers from pos on have moved up by n slots. */
  lemma SlotsOpened(g: Geometry, d: seq<byte>, d': seq<byte>, w: View, cells: seq<CellRef>, ix: seq<nat>, pBegin: nat,
                    pData: nat, w0: View, ix0: seq<nat>, top0: nat, pos: nat, n: nat)
    requires GeometryOk(g) && g.hdr == 0 && EditState(g, d, w, cells, ix, pBegin, pData, w0, ix0, top0) && pos <= |ix|
             && g.usable <= |d|
    requires g.cellOffset + 2 * (|ix| + n) <= pBegin <= |d|
    requires d' == if pos < |ix|
             then Write(d, g.cellOffset + 2 * (pos + n), d[g.cellOffset + 2 * pos..g.cellOffset + 2 * |ix|]) else d
    ensures |d'| == |d| && EncFree(g, d', w) && Contents(d', w.cells) == BytesAt(cells, ix)
            && Unharmed(d', w, cells, w0, ix0, top0) && Framed(g, d, d')
    ensures |w.cells| == |ix| && Layout(g, w) && w.top == pData >= pBegin && Numbers(cells, ix)
    ensures PtrsAt(g, d', 0, w.cells[..pos]) && PtrsAt(g, d', pos + n, w.cells[pos..])
  {
    hide Sum, Layout, Get2, Contents, EncFree, Unharmed, Write;
    StateLength(g, d, w, cells, ix, pBegin, pData, w0, ix0, top0);
    var a, b := g.cellOffset + 2 * (pos + n), g.cellOffset + 2 * (|ix| + n);
    if pos < |ix| {
      WrittenRange(d, a, d[g.cellOffset + 2 * pos..g.cellOffset + 2 * |ix|]);
      assert SameOutside(d, d', a, b);
      FramedRange(g, d, d', a, b);
      AreaOnly(g, d, d', w, a, b);
      StillUnharmed(d, d', w, w, cells, w0, ix0, top0);
      MovedUp(g, d, d', w.cells, pos, n);
    } else {
      assert w.cells[..pos] == w.cells && w.cells[pos..] == [];
    }
  }

  lemma WrittenRange(d: seq<byte>, a: nat, s: seq<byte>)
    requires a + |s| <= |d|
    ensures SameOutside(d, Write(d, a, s), a, a + |s|)
  {
  }

  /** Writes between the pointers that stay and the content area. */
  lemma AreaOnly(g: Geometry, d: seq<byte>, d': seq<byte>, w: View, a: nat, b: nat)
    requires GeometryOk(g) && Layout(g, w) && EncFree(g, d, w) && SameOutside(d, d', a, b) && g.cellOffset <= a
             && b <= w.top
    ensures EncFree(g, d', w) && Contents(d', w.cells) == Contents(d, w.cells)
            && Get2(d', g.hdr + 5) == Get2(d, g.hdr + 5)
  {
    hide Sum, Get2, Content;
    LayoutStarts(g, w);
    GetSame(d, d', a, b, g.hdr + 5);
    forall i | 0 <= i < |w.cells| ensures Content(d', w.cells[i]) == Content(d, w.cells[i]) {
      OutsideContent(d, d', a, b, w.cells[i]);
    }
    var s := Span(a, b);
    assert SameExcept(d, d', s);
    forall i | 0 <= i < |w.blocks| ensures b <= w.blocks[i].start { BlockInside(w.blocks, w.top + 1, g.usable, i); }
    ChainKept(g, d, d', s, w.blocks);
  }

  lemma MovedUp(g: Geometry, d: seq<byte>, d': seq<byte>, cells: seq<Region>, pos: nat, n: nat)
    requires GeometryOk(g) && PtrsAt(g, d, 0, cells) && pos < |cells| && g.cellOffset + 2 * (|cells| + n) <= |d|
    requires d' == Write(d, g.cellOffset + 2 * (pos + n), d[g.cellOffset + 2 * pos..g.cellOffset + 2 * |cells|])
    ensures PtrsAt(g, d', 0, cells[..pos]) && PtrsAt(g, d', pos + n, cells[pos..])
  {
    hide Write, Pointer;
    WrittenRange(d, g.cellOffset + 2 * (pos + n), d[g.cellOffset + 2 * pos..g.cellOffset + 2 * |cells|]);
    forall i | 0 <= i < pos ensures Pointer(g, d', 0 + i, cells[..pos][i]) {
      assert Pointer(g, d, 0 + i, cells[i]);
      PointerSame(g, d, d', g.cellOffset + 2 * (pos + n), g.cellOffset + 2 * (|cells| + n), i, cells[i]);
    }
    forall i | 0 <= i < |cells| - pos ensures Pointer(g, d', pos + n + i, cells[pos..][i]) {
      assert Pointer(g, d, 0 + (pos + i), cells[pos + i]);
      MovedPointer(g, d, d', pos + n, pos, 2 * (|cells| - pos), pos + i, cells[pos + i]);
    }
  }

  lemma PointerSame(g: Geometry, d: seq<byte>, d': seq<byte>, a: nat, b: nat, i: nat, r: Region)
    requires Pointer(g, d, i, r) && SameOutside(d, d', a, b) && g.cellOffset + 2 * i + 2 <= a
    ensures Pointer(g, d', i, r)
  {
  }

  lemma StillUnharmed(d: seq<byte>, d': seq<byte>, w: View, w': View, cells: seq<CellRef>, w0: View, ix0: seq<nat>,
                      top0: nat)
    requires Unharmed(d, w, cells, w0, ix0, top0) && |d'| == |d| && Get2(d', 5) == Get2(d, 5)
             && Contents(d', w.cells) == Contents(d, w.cells)
    requires forall r :: r in w.cells ==> r in w'.cells
    ensures Unharmed(d', w', cells, w0, ix0, top0)
  {
    hide Get2, Content;
    forall i | 0 <= i < |w0.cells| ensures Content(d', w0.cells[i]) == Content(d, w0.cells[i]) {
      assert w0.cells[i] in w.cells;
      var j :| 0 <= j < |w.cells| && w.cells[j] == w0.cells[i];
      assert Contents(d', w.cells)[j] == Contents(d, w.cells)[j];
    }
    assert Contents(d', w0.cells) == Contents(d, w0.cells);
  }

  /** The added cells and the others make up the page. */
  lemma CellsJoined(g: Geometry, d: seq<byte>, d': seq<byte>, w: View, w': View, cells: seq<CellRef>, ix: seq<nat>,
                    pBegin: nat, pData: nat, w0: View, ix0: seq<nat>, top0: nat, pos: nat, iFirst: nat, iEnd: nat)
    requires GeometryOk(g) && g.usable <= |d| && |d'| == |d| && |w.cells| == |ix| && pos <= |ix| && Numbers(cells, ix)
             && iFirst <= iEnd <= |cells|
    requires Contents(d, w.cells) == BytesAt(cells, ix) && Unharmed(d, w, cells, w0, ix0, top0)
             && Get2(d', 5) == Get2(d, 5)
    requires PtrsAt(g, d, 0, w.cells[..pos]) && PtrsAt(g, d, pos + (iEnd - iFirst), w.cells[pos..])
    requires Layout(g, w') && EncFree(g, d', w') && w'.top == pData >= pBegin
             && g.cellOffset + 2 * (|ix| + (iEnd - iFirst)) <= pBegin
    requires CellsAdded(d, w, d', w', pos, BytesOf(cells[iFirst..iEnd]))
    requires PtrsAt(g, d', pos, w'.cells[pos..pos + (iEnd - iFirst)])
    requires KeptBut(g, d, d', pBegin, g.cellOffset + 2 * pos, g.cellOffset + 2 * (pos + (iEnd - iFirst)))
    ensures EditState(g, d', w', cells, ix[..pos] + Range(iFirst, iEnd) + ix[pos..], pBegin, pData, w0, ix0, top0)
  {
    hide Sum, Layout, Get2, Contents, EncFree, KeptBut, Range, PtrsAt, Unharmed;
    var n, bytes := iEnd - iFirst, BytesOf(cells[iFirst..iEnd]);
    var x, y, z := w.cells[..pos], w'.cells[pos..pos + n], w.cells[pos..];
    assert w'.cells == x + y + z by { assert w'.cells[..pos] == x && w'.cells[pos + n..] == z; }
    assert w.cells == x + z;
    PtrsKept(g, d, d', pBegin, g.cellOffset + 2 * pos, g.cellOffset + 2 * (pos + n), 0, x);
    PtrsKept(g, d, d', pBegin, g.cellOffset + 2 * pos, g.cellOffset + 2 * (pos + n), pos + n, z);
    JoinPointers(g, d', x, y, z);
    JoinContents(d', x, y, z, cells, ix, pos, iFirst, iEnd);
    StillUnharmed(d, d', w, w', cells, w0, ix0, top0);
  }

  lemma JoinPointers(g: Geometry, d: seq<byte>, x: seq<Region>, y: seq<Region>, z: seq<Region>)
    requires PtrsAt(g, d, 0, x) && PtrsAt(g, d, |x|, y) && PtrsAt(g, d, |x| + |y|, z)
    ensures PtrsAt(g, d, 0, x + y + z)
  {
    hide Pointer;
    var s := x + y + z;
    forall i | 0 <= i < |s| ensures Pointer(g, d, 0 + i, s[i]) {
      if i < |x| { assert Pointer(g, d, 0 + i, x[i]); }
      else if i < |x| + |y| { assert Pointer(g, d, |x| + (i - |x|), y[i - |x|]); }
      else { assert Pointer(g, d, |x| + |y| + (i - |x| - |y|), z[i - |x| - |y|]); }
    }
  }

  lemma JoinContents(d: seq<byte>, x: seq<Region>, y: seq<Region>, z: seq<Region>, cells: seq<CellRef>, ix: seq<nat>,
                     pos: nat, iFirst: nat, iEnd: nat)
    requires Numbers(cells, ix) && iFirst <= iEnd <= |cells| && |x| == pos && |x| + |z| == |ix| && |y| == iEnd - iFirst
    requires Contents(d, x + z) == BytesAt(cells, ix) && Contents(d, y) == BytesOf(cells[iFirst..iEnd])
    ensures var ix' := ix[..pos] + Range(iFirst, iEnd) + ix[pos..];
            Numbers(cells, ix') && |ix'| == |x + y + z| && Contents(d, x + y + z) == BytesAt(cells, ix')
  {
    hide Content;
    var ix', s := ix[..pos] + Range(iFirst, iEnd) + ix[pos..], x + y + z;
    forall i | 0 <= i < |s| ensures ix'[i] < |cells| && Content(d, s[i]) == cells[ix'[i]].bytes {
      if pos <= i < pos + |y| {
        assert Contents(d, y)[i - pos] == BytesOf(cells[iFirst..iEnd])[i - pos];
      } else {
        var j := if i < pos then i else i - |y|;
        assert s[i] == (x + z)[j] && ix'[i] == ix[j];
        assert Contents(d, x + z)[j] == BytesAt(cells, ix)[j];
      }
    }
  }

  /** The loop of editPage that adds those overflow cells that stay on the page. */
  method AddOverflow(g: Geometry, d0: seq<byte>, cells: seq<CellRef>, iOld: nat, nCell0: nat, ov: nat, nOv: nat,
                     iNew: nat, nNew: nat, pBegin: nat, pData0: nat, nCell1: nat, ghost d: seq<byte>, ghost v: View,
                     ghost w: View, ghost w0: View, ghost ix0: seq<nat>, ghost top0: nat)
    returns (full: bool, d': seq<byte>, pData: nat, nCell: nat, ghost w': View)
    requires GeometryOk(g) && g.hdr == 0 && OldPage(g, d, v, cells, iOld, ov, nOv) && nCell0 == |v.cells|
             && ov <= nCell0 && CellsLong(cells) && iNew + nNew <= |cells| && pBegin == g.cellOffset + 2 * nNew
    requires var mid := MidNumbers(iOld, nCell0, ov, nOv, iNew, iNew + nNew, 0);
             EditState(g, d0, w, cells, mid, pBegin, pData0, w0, ix0, top0) && nCell1 == |mid|
    ensures Framed(g, d0, d') && (full ==> exists w1 :: Unharmed(d', w1, cells, w0, ix0, top0))
    ensures var mid := MidNumbers(iOld, nCell0, ov, nOv, iNew, iNew + nNew, nOv);
            !full ==> EditState(g, d', w', cells, mid, pBegin, pData, w0, ix0, top0) && nCell == |mid|
    ensures AllThere(cells, iNew, iNew + nNew) ==>
              && !full && w' == w
              && MidNumbers(iOld, nCell0, ov, nOv, iNew, iNew + nNew, nOv)
                 == MidNumbers(iOld, nCell0, ov, nOv, iNew, iNew + nNew, 0)
  {
    hide Sum, Layout, Get2, Put2, Contents, CellBytes, OldPage, EditState, Unharmed, Range, MidNumbers, CellsLong,
      AllThere, Framed;
    var iNewEnd := iNew + nNew;
    full, d', pData, nCell, w' := false, d0, pData0, nCell1, w;
    ghost var still := AllThere(cells, iNew, iNewEnd);
    ghost var mid0 := MidNumbers(iOld, nCell0, ov, nOv, iNew, iNewEnd, 0);
    FramedSame(g, d0);
    var i := 0;
    while !full && i < nOv
      invariant 0 <= i <= nOv && Framed(g, d0, d') && (full ==> exists w1 :: Unharmed(d', w1, cells, w0, ix0, top0))
      invariant !full ==> EditState(g, d', w', cells, MidNumbers(iOld, nCell0, ov, nOv, iNew, iNewEnd, i), pBegin,
                pData, w0, ix0, top0)
      invariant !full ==> nCell == |MidNumbers(iOld, nCell0, ov, nOv, iNew, iNewEnd, i)|
      invariant still ==> !full && w' == w && MidNumbers(iOld, nCell0, ov, nOv, iNew, iNewEnd, i) == mid0
    {
      var iCell: int := iOld + ov + i - iNew;
      MidNext(iOld, nCell0, ov, nOv, iNew, iNewEnd, i);
      if 0 <= iCell < nNew {
        FrontElsewhere(g, d, v, cells, iOld, ov, nOv, iOld + ov + i);
        if still { NothingNew(cells, iNew, iNewEnd, iCell + iNew, iCell + iNew + 1); }
        ghost var d1 := d';
        full, d', pData, w' := AddCells(g, d', pBegin, pData, nCell, iCell, iCell + iNew, iCell + iNew + 1, cells, w',
                                        MidNumbers(iOld, nCell0, ov, nOv, iNew, iNewEnd, i), w0, ix0, top0);
        FramedTwice(g, d0, d1, d');
        nCell := nCell + 1;
      }
      i := i + 1;
    }
  }

  /** editPage: the page, which held cells of the array from iOld on, nOv of them as overflow cells after the
      first ov, holds cells iNew .. iNew + nNew - 1 afterwards, in order, and its bytes describe the space
      that is left.  This never fails if those cells fit.  If all of them were on the page before, none of
      them moves. */
  method EditPage(g: Geometry, d: seq<byte>, cells: seq<CellRef>, iOld: nat, nCell0: nat, ov: nat, nOv: nat, iNew: nat,
                  nNew: nat, scratch: seq<byte>, ghost v: View)
    returns (ok: bool, d': seq<byte>, ghost v': View)
    requires GeometryOk(g) && g.hdr == 0 && OldPage(g, d, v, cells, iOld, ov, nOv) && nCell0 == |v.cells|
             && CellsLong(cells)
    requires |scratch| == |d| && iNew + nNew <= |cells|
             && g.cellOffset + CellBytes(BytesOf(cells[iNew..iNew + nNew])) <= g.usable
    ensures ok && Framed(g, d, d') && Layout(g, v') && EncSpace(g, d', v') && EncCells(g, d', v'.cells)
    ensures Contents(d', v'.cells) == BytesOf(cells[iNew..iNew + nNew])
    ensures FreeBytes(g, v') == g.usable - g.cellOffset - CellBytes(BytesOf(cells[iNew..iNew + nNew]))
    ensures AllThere(cells, iNew, iNew + nNew) ==> Unmoved(v', cells, iNew, nNew)
  {
    hide Sum, Layout, Get2, Put2, Contents, CellBytes, FreeBytes, AllThere, EncSpace, EncFree, EncCells, OldPage,
      OnPage, EditState, Unharmed, Range, KeptNumbers, MidNumbers, CellsLong, Intact, Places, Clamp, Framed, Unmoved;
    ghost var d0;
    var iNewEnd, pBegin, nCell := iNew + nNew, g.cellOffset + 2 * nNew, 0;
    ghost var w0: View;
    OldBounds(g, d, v, cells, iOld, ov, nOv);
    ok, d', nCell, w0 := RemoveCells(g, d, cells, iOld, nCell0, nOv, iNew, nNew, v, ov);
    ghost var ix0 := KeptNumbers(iOld, nCell0, ov, nOv, iNew, iNewEnd);
    PageLength(g, d', w0, cells, ix0);
    ghost var top0 := Get2(d', 5);
    var pData: nat := NotZero(Get2(d', 5));
    EditStart(g, d', w0, cells, ix0, pBegin);
    v' := w0;
    var full := pData < pBegin;
    ghost var still := AllThere(cells, iNew, iNewEnd);
    if still { RoomForAll(g, d, v, w0, cells, iOld, ov, nOv, iNew, nNew); }
    FrontNumbers(iOld, nCell0, ov, nOv, iNew, nNew);
    if !full && iNew < iOld {
      var nAdd := if nNew < iOld - iNew then nNew else iOld - iNew;
      forall x | iNew <= x < iNew + nAdd ensures cells[x].at < 0 { FrontElsewhere(g, d, v, cells, iOld, ov, nOv, x); }
      d0 := d';
      if still { NothingNew(cells, iNew, iNewEnd, iNew, iNew + nAdd); }
      full, d', pData, v' := AddCells(g, d', pBegin, pData, nCell, 0, iNew, iNew + nAdd, cells, v', ix0, w0, ix0, top0);
      FramedTwice(g, d, d0, d');
      nCell := nCell + nAdd;
    }
    if !full {
      d0 := d';
      full, d', pData, nCell, v' := AddOverflow(g, d', cells, iOld, nCell0, ov, nOv, iNew, nNew, pBegin, pData, nCell,
                                                d, v, v', w0, ix0, top0);
      FramedTwice(g, d, d0, d');
    }
    if !full {
      MidEnd(iOld, nCell0, ov, nOv, iNew, iNewEnd);
      forall x | iNew + nCell <= x < iNewEnd ensures cells[x].at < 0 {
        FrontElsewhere(g, d, v, cells, iOld, ov, nOv, x);
      }
      d0 := d';
      if still { NothingNew(cells, iNew, iNewEnd, iNew + nCell, iNewEnd); }
      full, d', pData, v' := AddCells(g, d', pBegin, pData, nCell, nCell, iNew + nCell, iNewEnd, cells, v',
                                      MidNumbers(iOld, nCell0, ov, nOv, iNew, iNewEnd, nOv), w0, ix0, top0);
      FramedTwice(g, d, d0, d');
    }
    if full {
      ghost var w :| Unharmed(d', w, cells, w0, ix0, top0);
      KeptIntact(g, d, d', v, w, cells, w0, iOld, ov, nOv, iNew, iNewEnd, top0);
      PartLong(cells, iNew, iNewEnd);
      d0 := d';
      ok, d', v' := RebuildPage(g, d', cells[iNew..iNewEnd], scratch);
      FramedTwice(g, d, d0, d');
    } else {
      if still { NoneMoves(w0, cells, ix0, iNew, nNew); }
      EditEnd(g, d', v', cells, iNew, iNewEnd, pBegin, pData, w0, ix0, top0);
      FramedTwice(g, d, d', Put2(Put2(d', 3, nNew), 5, pData));
      d' := Put2(Put2(d', 3, nNew), 5, pData);
    }
    EncLength(g, d', v');
    FreeIsRest(g, d', v');
  }

  /** All cells lo up to hi of the array are on the page. */
  ghost predicate AllThere(cells: seq<CellRef>, lo: nat, hi: nat) {
    hi <= |cells| && forall x :: lo <= x < hi ==> There(cells, x)
  }

  ghost predicate There(cells: seq<CellRef>, x: int) { 0 <= x < |cells| && cells[x].at >= 0 }

  /** The cells of the page have the addresses that the array says. */
  ghost predicate Unmoved(w: View, cells: seq<CellRef>, iNew: nat, nNew: nat) {
    && |w.cells| == nNew && iNew + nNew <= |cells|
    && forall j :: 0 <= j < nNew ==> w.cells[j].start == cells[iNew + j].at
  }

  lemma NothingNew(cells: seq<CellRef>, lo: nat, hi: nat, a: nat, b: nat)
    requires AllThere(cells, lo, hi) && lo <= a <= b <= hi && forall x :: a <= x < b ==> x < |cells| && cells[x].at < 0
    ensures a == b
  {
    assert a < hi ==> There(cells, a);
  }

  /** Cells that are all on the page have room for their pointers. */
  lemma RoomForAll(g: Geometry, d: seq<byte>, v: View, w: View, cells: seq<CellRef>, iOld: nat, ov: nat, nOv: nat,
                   iNew: nat, nNew: nat)
    requires GeometryOk(g) && OldPage(g, d, v, cells, iOld, ov, nOv) && v.top <= w.top
    requires AllThere(cells, iNew, iNew + nNew)
    ensures g.cellOffset + 2 * nNew <= w.top
  {
    hide OnPage, Layout, OldNumbers;
    assert nNew > 0 ==> There(cells, iNew) && There(cells, iNew + nNew - 1);
    assert iNew <= iOld + ov < iNew + nNew ==> There(cells, iOld + ov);
    if nNew > 0 {
      if iNew < iOld || iOld + ov <= iNew < iOld + ov + nOv {
        FrontElsewhere(g, d, v, cells, iOld, ov, nOv, iNew);
      }
      if iOld + |v.cells| + nOv < iNew + nNew { FrontElsewhere(g, d, v, cells, iOld, ov, nOv, iNew + nNew - 1); }
      if nOv > 0 && iNew <= iOld + ov < iNew + nNew { FrontElsewhere(g, d, v, cells, iOld, ov, nOv, iOld + ov); }
    }
    PageLayoutOf(g, d, v, cells, OldNumbers(iOld, |v.cells|, ov, nOv));
    LayoutBounds(g, v);
  }

  lemma PageLayoutOf(g: Geometry, d: seq<byte>, v: View, cells: seq<CellRef>, ix: seq<nat>)
    requires OnPage(g, d, v, cells, ix)
    ensures Layout(g, v)
  {
  }

  lemma NoneMoves(w: View, cells: seq<CellRef>, ix: seq<nat>, iNew: nat, nNew: nat)
    requires Places(w, cells, ix) && ix == Range(iNew, iNew + nNew) && iNew + nNew <= |cells|
    ensures Unmoved(w, cells, iNew, nNew)
  {
    assert |ix| == nNew && forall j :: 0 <= j < nNew ==> ix[j] == iNew + j;
  }

  lemma PartLong(cells: seq<CellRef>, i: nat, j: nat)
    requires CellsLong(cells) && i <= j <= |cells|
    ensures CellsLong(cells[i..j])
  {
  }

  /** A stored two-byte number that is not zero: 0 stands for 65536. */
  function NotZero(x: nat): nat { if x == 0 then 0x1_0000 else x }

  /** The cells on the page once i of the overflow cells have been looked at. */
  function MidNumbers(iOld: nat, nCell: nat, ov: nat, nOv: nat, lo: nat, hi: nat, i: nat): seq<nat> {
    Range(lo, Clamp(iOld + ov + i, lo, hi)) + Range(Clamp(iOld + ov + nOv, lo, hi), Clamp(iOld + nCell + nOv, lo, hi))
  }

  lemma EditStart(g: Geometry, d: seq<byte>, w: View, cells: seq<CellRef>, ix: seq<nat>, pBegin: nat)
    requires GeometryOk(g) && g.hdr == 0 && OnPage(g, d, w, cells, ix) && 8 <= |d|
    ensures Unharmed(d, w, cells, w, ix, Get2(d, 5)) && Places(w, cells, ix) && Layout(g, w) && Get2(d, 5) <= w.top
            && g.usable <= |d|
    ensures NotZero(Get2(d, 5)) == w.top
            && (w.top >= pBegin ==> EditState(g, d, w, cells, ix, pBegin, w.top, w, ix, Get2(d, 5)))
  {
    hide Sum, Get2, Contents, EncFree, Places, PtrsAt;
    LayoutBounds(g, w);
    PlacesLength(w, cells, ix);
    EncLength(g, d, w);
  }

  /** The cells before iOld are not on the page, and with those that have been kept they are not too many. */
  lemma FrontNumbers(iOld: nat, nCell: nat, ov: nat, nOv: nat, iNew: nat, nNew: nat)
    requires ov <= nCell
    ensures var ix0 := KeptNumbers(iOld, nCell, ov, nOv, iNew, iNew + nNew);
            var mid := MidNumbers(iOld, nCell, ov, nOv, iNew, iNew + nNew, 0);
            if iNew < iOld then
              var nAdd := if nNew < iOld - iNew then nNew else iOld - iNew;
              |ix0| + nAdd <= nNew && ix0[..0] + Range(iNew, iNew + nAdd) + ix0[0..] == mid && |mid| == |ix0| + nAdd
            else ix0 == mid
  {
    hide Range, Clamp;
    var lo, hi := iNew, iNew + nNew;
    ClampFacts(iOld, nCell, ov, nOv, lo, hi);
    var a, b, c, e := Clamp(iOld, lo, hi), Clamp(iOld + ov, lo, hi), Clamp(iOld + ov + nOv, lo, hi),
        Clamp(iOld + nCell + nOv, lo, hi);
    if lo < iOld {
      RangeJoin(lo, a, b);
      FrontJoin(Range(lo, a), Range(a, b), Range(c, e));
    }
  }

  lemma ClampFacts(iOld: nat, nCell: nat, ov: nat, nOv: nat, lo: nat, hi: nat)
    requires ov <= nCell && lo <= hi
    ensures lo <= Clamp(iOld, lo, hi) <= Clamp(iOld + ov, lo, hi) <= Clamp(iOld + ov + nOv, lo, hi)
            <= Clamp(iOld + nCell + nOv, lo, hi) <= hi
    ensures Clamp(iOld, lo, hi) == if lo >= iOld then lo else if hi - lo < iOld - lo then hi else iOld
  {
  }

  lemma FrontJoin<T>(x: seq<T>, y: seq<T>, z: seq<T>)
    ensures (y + z)[..0] + x + (y + z)[0..] == (x + y) + z && |(x + y) + z| == |x| + |y + z|
  {
    assert (y + z)[0..] == y + z && (y + z)[..0] == [];
  }

  lemma RangeJoin(a: nat, b: nat, c: nat)
    requires a <= b <= c
    ensures Range(a, b) + Range(b, c) == Range(a, c)
  {
  }

  lemma FrontElsewhere(g: Geometry, d: seq<byte>, v: View, cells: seq<CellRef>, iOld: nat, ov: nat, nOv: nat, x: nat)
    requires OldPage(g, d, v, cells, iOld, ov, nOv) && x < |cells|
             && (x < iOld || iOld + ov <= x < iOld + ov + nOv || iOld + |v.cells| + nOv <= x)
    ensures cells[x].at < 0
  {
    hide OnPage;
  }

  /** An overflow cell is not on the page; if it belongs there now, its place is behind the cells before it. */
  lemma MidNext(iOld: nat, nCell: nat, ov: nat, nOv: nat, lo: nat, hi: nat, i: nat)
    requires ov <= nCell && i < nOv && lo <= hi
    ensures var mid, next, x := MidNumbers(iOld, nCell, ov, nOv, lo, hi, i),
            MidNumbers(iOld, nCell, ov, nOv, lo, hi, i + 1), iOld + ov + i;
            if lo <= x < hi then x - lo <= |mid| < hi - lo && next == mid[..x - lo] + Range(x, x + 1) + mid[x - lo..]
                && |next| == |mid| + 1
            else next == mid
  {
    hide Range, Clamp;
    var x, c, e := iOld + ov + i, Clamp(iOld + ov + nOv, lo, hi), Clamp(iOld + nCell + nOv, lo, hi);
    ClampNext(x, iOld + ov + nOv, iOld + nCell + nOv, lo, hi);
    if lo <= x < hi {
      RangeJoin(lo, x, x + 1);
      MiddleCut(Range(lo, x), Range(c, e));
    }
  }

  lemma ClampNext(x: nat, y: nat, z: nat, lo: nat, hi: nat)
    requires x < y <= z && lo <= hi
    ensures if lo <= x < hi then Clamp(x, lo, hi) == x && Clamp(x + 1, lo, hi) == x + 1
            else Clamp(x + 1, lo, hi) == Clamp(x, lo, hi)
    ensures lo <= x < hi ==> x + 1 <= Clamp(y, lo, hi) <= Clamp(z, lo, hi) <= hi
  {
  }

  lemma MiddleCut<T>(x: seq<T>, y: seq<T>)
    ensures (x + y)[..|x|] == x && (x + y)[|x|..] == y
  {
  }

  lemma MidEnd(iOld: nat, nCell: nat, ov: nat, nOv: nat, lo: nat, hi: nat)
    requires ov <= nCell && lo <= hi
    ensures var e := Clamp(iOld + nCell + nOv, lo, hi);
            var r := Range(lo, e);
            && MidNumbers(iOld, nCell, ov, nOv, lo, hi, nOv) == r && lo + |r| == e <= hi
               && (e < hi ==> iOld + nCell + nOv <= e) && r[..|r|] + Range(e, hi) + r[|r|..] == Range(lo, hi)
  {
    var c, e := Clamp(iOld + ov + nOv, lo, hi), Clamp(iOld + nCell + nOv, lo, hi);
    RangeJoin(lo, c, e);
    RangeJoin(lo, e, hi);
    hide Range;
    var r := Range(lo, e);
    assert r[..|r|] == r && r[|r|..] == [];
  }

  /** What must be written anew is still there. */
  lemma KeptIntact(g: Geometry, d0: seq<byte>, d: seq<byte>, v: View, w: View, cells: seq<CellRef>, w0: View,
                   iOld: nat, ov: nat, nOv: nat, iNew: nat, iNewEnd: nat, top0: nat)
    requires OldPage(g, d0, v, cells, iOld, ov, nOv) && iNew <= iNewEnd <= |cells| && g.usable <= |d| && GeometryOk(g)
             && g.hdr == 0
    requires var ix0 := KeptNumbers(iOld, |v.cells|, ov, nOv, iNew, iNewEnd);
             Unharmed(d, w, cells, w0, ix0, top0) && Places(w0, cells, ix0)
    requires Layout(g, w0) && top0 <= w0.top
    ensures Intact(g, d, cells[iNew..iNewEnd])
  {
    hide Sum, Layout, OnPage, Content, Get2, KeptNumbers, OldNumbers, FromNumbers;
    var ix, ix0 := OldNumbers(iOld, |v.cells|, ov, nOv), KeptNumbers(iOld, |v.cells|, ov, nOv, iNew, iNewEnd);
    var part := cells[iNew..iNewEnd];
    forall i | 0 <= i < |part| && part[i].at >= 0
      ensures top0 <= part[i].at && part[i].at + |part[i].bytes| <= g.usable
              && Content(d, Region(part[i].at, |part[i].bytes|)) == part[i].bytes
    {
      var x := iNew + i;
      assert x in ix;
      KeptHas(iOld, |v.cells|, ov, nOv, iNew, iNewEnd, x);
      var j :| 0 <= j < |ix0| && ix0[j] == x;
      CellSize(g, w0, j);
      assert w0.cells[j] == Region(cells[x].at, |cells[x].bytes|);
      assert Contents(d, w0.cells)[j] == BytesAt(cells, ix0)[j];
    }
  }

  lemma KeptHas(iOld: nat, nCell: nat, ov: nat, nOv: nat, lo: nat, hi: nat, x: nat)
    requires ov <= nCell && lo <= x < hi && x in OldNumbers(iOld, nCell, ov, nOv)
    ensures x in KeptNumbers(iOld, nCell, ov, nOv, lo, hi)
  {
    var a, b, c, e := Clamp(iOld, lo, hi), Clamp(iOld + ov, lo, hi), Clamp(iOld + ov + nOv, lo, hi),
        Clamp(iOld + nCell + nOv, lo, hi);
    RangeHas(iOld, iOld + ov, x);
    RangeHas(iOld + ov + nOv, iOld + nCell + nOv, x);
    RangeHas(a, b, x);
    RangeHas(c, e, x);
  }

  lemma RangeHas(lo: nat, hi: nat, x: nat)
    ensures x in Range(lo, hi) <==> lo <= x < hi
  {
    if lo <= x < hi { assert Range(lo, hi)[x - lo] == x; }
  }

  lemma EditEnd(g: Geometry, d: seq<byte>, w: View, cells: seq<CellRef>, iNew: nat, iNewEnd: nat, pBegin: nat,
                pData: nat, w0: View, ix0: seq<nat>, top0: nat)
    requires GeometryOk(g) && g.hdr == 0 && iNew <= iNewEnd <= |cells|
    requires EditState(g, d, w, cells, Range(iNew, iNewEnd), pBegin, pData, w0, ix0, top0)
    ensures 8 <= |d| && var d' := Put2(Put2(d, 3, iNewEnd - iNew), 5, pData);
              && |d'| == |d| && Layout(g, w) && EncSpace(g, d', w) && EncCells(g, d', w.cells)
              && Contents(d', w.cells) == BytesOf(cells[iNew..iNewEnd]) && Framed(g, d, d')
  {
    hide Sum, Layout, Get2, Put2, Contents, PtrsAt, Unharmed, Chain;
    LayoutBounds(g, w);
    LayoutStarts(g, w);
    var n := iNewEnd - iNew;
    var d1 := Put2(d, 3, n);
    var d' := Put2(d1, 5, pData);
    PutGet(d, 3, n);
    PutElsewhere(d1, 5, pData, 3);
    PutGetLow(d1, 5, pData);
    PutByte(d, 3, n, 7);
    PutByte(d1, 5, pData, 7);
    PutSameOutside(d, 3, n);
    PutSameOutside(d1, 5, pData);
    assert SameExcept(d, d', Span(3, 7));
    FramedBy(g, d, d', Span(3, 7));
    HeaderOnly(g, d, d', w);
    CountAndPointers(g, d', w.cells);
    SizeKeepsChain(g, d, d', w);
    assert BytesAt(cells, Range(iNew, iNewEnd)) == BytesOf(cells[iNew..iNewEnd]);
  }

  lemma SizeKeepsChain(g: Geometry, d: seq<byte>, d': seq<byte>, w: View)
    requires GeometryOk(g) && g.hdr == 0 && Layout(g, w) && Chain(g, d, w.blocks) && SameOutside(d, d', 3, 7)
    ensures Chain(g, d', w.blocks)
  {
    hide Sum, Get2;
    var s := Span(3, 7);
    assert SameExcept(d, d', s);
    forall i | 0 <= i < |w.blocks| ensures 8 <= w.blocks[i].start { BlockInside(w.blocks, w.top + 1, g.usable, i); }
    ChainKept(g, d, d', s, w.blocks);
  }
}
