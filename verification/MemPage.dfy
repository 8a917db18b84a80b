/** A page in memory, with the operations that insert and drop cells. */
module MemPageModel {
  import opened ByteTypes
  import opened PageBytes
  import opened Regions
  import opened PageLayout
  import opened PageSpace

  /** What btreeInitPage computes from the bytes of a page. */
  method InitFree(g: Geometry, d: seq<byte>, nCell: nat, ghost v: View) returns (ok: bool, nFree: int)
    requires GeometryOk(g) && Layout(g, v) && Reset(g, v) && EncSpace(g, d, v) && nCell == |v.cells|
    ensures ok && nFree == FreeBytes(g, v)
  {
    hide Inside, Disjoint, Cross, Ascending, Get2, Sum;
    ok := true;
    var first, top := g.cellOffset + 2 * nCell, Get2(d, g.hdr + 5);
    if top == 0 { top := 0x1_0000; }
    TopStored(g, v);
    nFree := d[g.hdr + 7] + top;
    assert Link(g, d, v.blocks, 0);
    var pc := Get2(d, g.hdr + 1);
    SumNone();
    assert v.blocks[..0] == [] && (v.blocks == [] ==> Sum(v.blocks) == 0);
    BlockInside(v.blocks, v.top + 1, g.usable, 0);
    if pc > 0 {
      if pc < first { ok := false; return; }
      ghost var k := 0;
      var next, size;
      while true
        invariant ok && k < |v.blocks| && pc == v.blocks[k].start && nFree == v.frag + v.top + Sum(v.blocks[..k])
        decreases |v.blocks| - k
      {
        BlockInside(v.blocks, v.top + 1, g.usable, k);
        if pc > g.usable - 4 { ok := false; return; }
        assert Link(g, d, v.blocks, k + 1) && SizeField(d, v.blocks[k]);
        next, size := Get2(d, pc), Get2(d, pc + 2);
        nFree := nFree + size;
        SumPrefix(v.blocks, k);
        if k + 1 < |v.blocks| { OtherBlock(v.blocks, k, k + 1); }
        if next <= pc + size + 3 { break; }
        pc, k := next, k + 1;
      }
      assert v.blocks[..k + 1] == v.blocks;
      if next > 0 { ok := false; return; }
      if pc + size > g.usable { ok := false; return; }
    }
    LayoutSum(g, v);
    if nFree > g.usable { ok := false; return; }
    nFree := nFree - first;
  }

  /** The empty page that zeroPage sets up. */
  function ZeroPage(g: Geometry, d: seq<byte>): (r: seq<byte>)
    requires g.hdr + 8 <= |d|
    ensures |r| == |d|
  {
    Put2(PutFrag(g, Put2(Put2(d, g.hdr + 1, 0), g.hdr + 3, 0), 0), g.hdr + 5, g.usable)
  }

  function EmptyView(g: Geometry): View { View([], [], g.usable, 0) }

  lemma ZeroBytes(g: Geometry, d: seq<byte>)
    requires GeometryOk(g) && g.usable <= |d|
    ensures var v := EmptyView(g);
            && Layout(g, v) && Reset(g, v) && EncSpace(g, ZeroPage(g, d), v) && EncCells(g, ZeroPage(g, d), [])
               && FreeBytes(g, v) == g.usable - g.cellOffset && Framed(g, d, ZeroPage(g, d))
  {
    hide Get2, Put2;
    var d1 := Put2(d, g.hdr + 1, 0);
    var d2 := Put2(d1, g.hdr + 3, 0);
    var d3 := PutFrag(g, d2, 0);
    PutGet(d, g.hdr + 1, 0);
    PutGet(d1, g.hdr + 3, 0);
    PutGetLow(d3, g.hdr + 5, g.usable);
    PutElsewhere(d1, g.hdr + 3, 0, g.hdr + 1);
    assert SameExcept(d2, d3, {g.hdr + 7});
    GetKept(d2, d3, {g.hdr + 7}, g.hdr + 1);
    GetKept(d2, d3, {g.hdr + 7}, g.hdr + 3);
    PutElsewhere(d3, g.hdr + 5, g.usable, g.hdr + 1);
    PutElsewhere(d3, g.hdr + 5, g.usable, g.hdr + 3);
    PutByte(d3, g.hdr + 5, g.usable, g.hdr + 7);
    assert Link(g, ZeroPage(g, d), [], 0);
    PutSame(d, d, {}, g.hdr + 1, 0);
    PutSame(d, d1, {} + {g.hdr + 1, g.hdr + 1 + 1}, g.hdr + 3, 0);
    var s := {} + {g.hdr + 1, g.hdr + 1 + 1} + {g.hdr + 3, g.hdr + 3 + 1} + {g.hdr + 7};
    assert SameExcept(d, d3, s);
    PutSame(d, d3, s, g.hdr + 5, g.usable);
    FramedBy(g, d, ZeroPage(g, d), s + {g.hdr + 5, g.hdr + 5 + 1});
  }

  class MemPage {
    const g: Geometry
    var data: seq<byte>
    var nCell: nat
    var nFree: int
    /** What the cell parser says about the size of each cell. */
    var sizes: seq<nat>
    /** Cells that did not fit, with the positions they belong to. */
    var overflow: seq<(nat, seq<byte>)>
    ghost var v: View

    ghost predicate Valid()
      reads this
    {
      && GeometryOk(g) && Layout(g, v) && Reset(g, v) && EncSpace(g, data, v) && EncCells(g, data, v.cells)
      && nCell == |v.cells| == |sizes| && nFree == FreeBytes(g, v)
         && (forall i :: 0 <= i < |sizes| ==> sizes[i] == v.cells[i].size)
    }

    /** The cells on the page, in order. */
    ghost function Cells(): (c: seq<seq<byte>>)
      reads this
    {
      Contents(data, v.cells)
    }

    constructor (geo: Geometry, buffer: seq<byte>)
      requires GeometryOk(geo) && geo.usable <= |buffer|
      ensures Valid() && g == geo && Cells() == [] && overflow == [] && nFree == geo.usable - geo.cellOffset
              && |data| == |buffer| && Framed(g, buffer, data)
    {
      g, data, nCell, nFree, sizes, overflow := geo, ZeroPage(geo, buffer), 0, geo.usable - geo.cellOffset, [], [];
      v := EmptyView(geo);
      new;
      ZeroBytes(geo, buffer);
    }

    /** Inserts a cell before cell i, or puts it on the overflow list if the page has no room. */
    method InsertCell(i: nat, cell: seq<byte>, scratch: seq<byte>) returns (ok: bool)
      requires Valid() && |cell| >= 4 && |scratch| == |data| && i <= nCell + |overflow|
      modifies this
      ensures ok && Valid() && |data| == old(|data|) && Framed(g, old(data), data)
      ensures if old(overflow) != [] || |cell| + 2 > old(nFree)
              then Cells() == old(Cells()) && overflow == old(overflow) + [(i, cell)] && nFree == old(nFree)
                   && data == old(data)
              else overflow == [] && i <= old(nCell) && Cells() == Inserted(old(Cells()), i, cell)
                   && nFree == old(nFree) - |cell| - 2
    {
      hide Contents, EncSpace, EncCells, Layout, Reserved, OpenPointer, Inserted, Sum, Framed;
      ok := true;
      FramedSame(g, data);
      if overflow != [] || |cell| + 2 > nFree {
        overflow := overflow + [(i, cell)];
        return;
      }
      var d, at;
      ghost var v1;
      ok, d, at, v1 := AllocateSpace(g, data, |cell|, nFree, sizes, scratch, v);
      if !ok { return; }
      ghost var r := Region(at, |cell|);
      InsertBytes(g, d, v1, r, i, cell);
      ReservedLayout(g, v1, i, r);
      var d' := OpenPointer(g, Write(d, at, cell), nCell, i, at);
      InsertedSizes(sizes, v.cells, v1.cells, i, r);
      FramedTwice(g, data, d, d');
      data, nCell, nFree, sizes := d', nCell + 1, nFree - |cell| - 2, Inserted(sizes, i, |cell|);
      v := AddCell(v1, i, r);
    }

    /** Removes cell i. */
    method DropCell(i: nat) returns (ok: bool)
      requires Valid() && i < nCell
      modifies this
      ensures ok && Valid() && |data| == old(|data|) && overflow == old(overflow) && Framed(g, old(data), data)
      ensures Cells() == Without(old(Cells()), i) && nFree == old(nFree) + |old(Cells())[i]| + 2
    {
      hide Contents, EncSpace, EncCells, Layout, ClosePointer, FreedBytes, Sum, FreedView, ZeroPage,
        Framed;
      PointerAt(g, data, v, i);
      var pc, sz := Get2(data, g.cellOffset + 2 * i), sizes[i];
      ok := true;
      if pc + sz > g.usable { ok := false; return; }
      var d;
      ghost var k;
      ok, d, k := FreeSpace(g, data, Region(pc, sz), v, i);
      if !ok { return; }
      DropBytes(g, data, d, v, i, k);
      DroppedSize(g, data, v, i);
      DroppedSizes(sizes, v, i, k);
      if nCell == 1 {
        ZeroBytes(g, d);
        FreedFrame(g, data, d, v, i, k);
        FramedTwice(g, data, d, ZeroPage(g, d));
        data, nFree, v := ZeroPage(g, d), g.usable - g.cellOffset, EmptyView(g);
      } else {
        data, nFree, v := ClosePointer(g, d, nCell, i), nFree + sz + 2, FreedView(v, i, k);
      }
      nCell, sizes := nCell - 1, Without(sizes, i);
    }
  }

  lemma FramedSame(g: Geometry, d: seq<byte>)
    ensures Framed(g, d, d)
  {
  }

  lemma FreedFrame(g: Geometry, d: seq<byte>, d': seq<byte>, v: View, i: nat, k: nat)
    requires i < |v.cells| && k <= |v.blocks| && FreedBytes(g, d, d', v, i, k)
    ensures Framed(g, d, d')
  {
  }

  lemma InsertedSizes(sizes: seq<nat>, cells: seq<Region>, cells1: seq<Region>, i: nat, r: Region)
    requires |sizes| == |cells| == |cells1| && i <= |sizes|
    requires forall j :: 0 <= j < |sizes| ==> sizes[j] == cells[j].size && cells1[j].size == cells[j].size
    ensures forall j :: 0 <= j <= |sizes| ==> Inserted(sizes, i, r.size)[j] == Inserted(cells1, i, r)[j].size
  {
  }

  lemma DroppedSize(g: Geometry, d: seq<byte>, v: View, i: nat)
    requires GeometryOk(g) && Layout(g, v) && EncSpace(g, d, v) && i < |v.cells|
    ensures |Contents(d, v.cells)[i]| == v.cells[i].size && g.usable <= |d|
    ensures |v.cells| == 1 ==> FreeBytes(g, v) + v.cells[i].size + 2 == g.usable - g.cellOffset
  {
    hide Get2, Chain;
    CellSize(g, v, i);
    if |v.cells| == 1 { SumOne(v.cells[0]); assert v.cells == [v.cells[0]]; }
  }

  lemma PointerAt(g: Geometry, d: seq<byte>, v: View, i: nat)
    requires GeometryOk(g) && Layout(g, v) && EncCells(g, d, v.cells) && i < |v.cells|
    ensures g.cellOffset + 2 * i + 2 <= |d| && Get2(d, g.cellOffset + 2 * i) == v.cells[i].start
            && v.cells[i].End() <= g.usable
  {
    hide Get2, Layout;
    assert Pointer(g, d, i, v.cells[i]);
    CellSize(g, v, i);
  }

  lemma DroppedSizes(sizes: seq<nat>, v: View, i: nat, k: nat)
    requires |sizes| == |v.cells| && i < |sizes| && k <= |v.blocks|
             && forall j :: 0 <= j < |sizes| ==> sizes[j] == v.cells[j].size
    ensures var cells := FreedView(v, i, k).cells;
            |Without(sizes, i)| == |cells| == |sizes| - 1
                && forall j :: 0 <= j < |cells| ==> Without(sizes, i)[j] == cells[j].size
  {
  }

  // ----- Whole runs

  datatype PageOp = Insert(i: nat, cell: seq<byte>) | Drop(i: nat)

  /** Bytes that cells take on a page, with their pointers. */
  function CellBytes(s: seq<seq<byte>>): nat { if s == [] then 0 else |s[0]| + 2 + CellBytes(s[1..]) }

  /** The call is within range and the cell fits by its size alone. */
  predicate Applicable(capacity: int, s: seq<seq<byte>>, op: PageOp) {
    match op
    case Insert(i, cell) => i <= |s| && |cell| >= 4 && CellBytes(s) + |cell| + 2 <= capacity
    case Drop(i) => i < |s|
  }

  function After(s: seq<seq<byte>>, op: PageOp): seq<seq<byte>>
    requires op.i <= |s| && (op.Drop? ==> op.i < |s|)
  {
    match op case Insert(i, cell) => Inserted(s, i, cell) case Drop(i) => Without(s, i)
  }

  /** The cells after a run, if every call in it is applicable. */
  function Replay(capacity: int, ops: seq<PageOp>): (r: (bool, seq<seq<byte>>)) {
    if ops == [] then (true, [])
    else
      var before, op := Replay(capacity, ops[..|ops| - 1]), ops[|ops| - 1];
      if before.0 && Applicable(capacity, before.1, op) then (true, After(before.1, op)) else (false, [])
  }

  lemma {:induction false} BytesOfContents(d: seq<byte>, cells: seq<Region>)
    requires forall i :: 0 <= i < |cells| ==> cells[i].End() <= |d|
    ensures CellBytes(Contents(d, cells)) == Sum(cells) + 2 * |cells|
  {
    if cells != [] {
      assert Contents(d, cells)[1..] == Contents(d, cells[1..]);
      BytesOfContents(d, cells[1..]);
    }
  }

  /** The free bytes of a page depend on its cells alone, not on where they lie. */
  lemma FreeIsRest(g: Geometry, d: seq<byte>, v: View)
    requires GeometryOk(g) && Layout(g, v) && g.usable <= |d|
    ensures FreeBytes(g, v) == g.usable - g.cellOffset - CellBytes(Contents(d, v.cells))
  {
    hide Sum, Contents, CellBytes;
    forall i | 0 <= i < |v.cells| ensures v.cells[i].End() <= |d| { CellSize(g, v, i); }
    BytesOfContents(d, v.cells);
  }

  lemma {:induction false} ReplayPrefix(capacity: int, ops: seq<PageOp>, k: nat)
    requires k <= |ops| && Replay(capacity, ops).0
    ensures Replay(capacity, ops[..k]).0
    decreases |ops| - k
  {
    if k < |ops| {
      ReplayPrefix(capacity, ops, k + 1);
      assert ops[..k + 1][..k] == ops[..k];
    } else {
      assert ops[..k] == ops;
    }
  }

  /** Any run of insertions and deletions in which every cell fits by its size alone succeeds: the
      bytes of the page hold exactly the cells, and its free bytes are counted right. */
  method RunPage(geo: Geometry, buffer: seq<byte>, scratch: seq<byte>, ops: seq<PageOp>) returns (p: MemPage)
    requires GeometryOk(geo) && geo.usable <= |buffer| == |scratch| && Replay(geo.usable - geo.cellOffset, ops).0
    ensures p.Valid() && p.overflow == [] && p.Cells() == Replay(geo.usable - geo.cellOffset, ops).1
            && Framed(geo, buffer, p.data)
    ensures p.nFree == geo.usable - geo.cellOffset - CellBytes(p.Cells())
  {
    hide Layout, EncSpace, EncCells, Contents, CellBytes, Inserted, Framed;
    p := new MemPage(geo, buffer);
    ghost var capacity := geo.usable - geo.cellOffset;
    for k := 0 to |ops|
      invariant p.Valid() && p.g == geo && p.overflow == [] && |p.data| == |buffer| && fresh(p)
      invariant Framed(geo, buffer, p.data)
      invariant Replay(capacity, ops[..k]) == (true, p.Cells())
    {
      ReplayPrefix(capacity, ops, k + 1);
      assert ops[..k + 1][..k] == ops[..k];
      PageFree(p);
      var ok;
      ghost var before := p.data;
      match ops[k] {
        case Insert(i, cell) => ok := p.InsertCell(i, cell, scratch);
        case Drop(i) => ok := p.DropCell(i);
      }
      FramedTwice(geo, buffer, before, p.data);
    }
    assert ops[..|ops|] == ops;
    PageFree(p);
  }

  lemma PageFree(p: MemPage)
    requires p.Valid()
    ensures p.nFree == p.g.usable - p.g.cellOffset - CellBytes(p.Cells()) && |p.Cells()| == p.nCell
  {
    hide Layout, Contents, CellBytes, EncCells, Chain, Get2;
    FreeIsRest(p.g, p.data, p.v);
  }
}
