/** Why cells are small enough for balancing: the limits on what stays on a page, and the sizes of cells
    that follow from them.  Real sizes also make a case in which balancing leaves four overflow cells. */
module CellSizes {
  import opened BTreeModel
  import opened BalanceLoop
  import OverflowChain
  import opened Regions
  import Layout = PageLayout

  /** Payload bytes that may stay on a page, as lockBtree computes the limits from the usable size. */
  function MaxLocal(usable: nat): int { (usable - 12) * 64 / 255 - 23 }
  function MinLocal(usable: nat): int { (usable - 12) * 32 / 255 - 23 }
  function MaxLeaf(usable: nat): int { usable - 35 }

  /** Bytes of a payload in its cell: all of it, or the local part and the number of an overflow page. */
  function PayloadBytes(n: nat, minLocal: nat, maxLocal: nat, usable: nat): (r: nat)
    requires minLocal <= maxLocal && usable > 4
    ensures r <= maxLocal + 4
  {
    if n <= maxLocal then n else OverflowChain.LocalSize(n, minLocal, maxLocal, usable - 4) + 4
  }

  /** A cell takes at least four bytes on a leaf. */
  function AtLeastFour(n: nat): nat { if n < 4 then 4 else n }

  lemma Limits(usable: nat)
    requires 480 <= usable <= 0x1_0000
    ensures 0 < MinLocal(usable) <= MaxLocal(usable) && MinLocal(usable) <= MaxLeaf(usable)
    ensures 3 * (MaxLocal(usable) + 25) <= usable - 112
  {
  }

  /** Bytes of an index cell with its two-byte pointer, for a payload of n bytes whose length takes h
      bytes: on a leaf, and with a child pointer on an interior page. */
  function IndexCell(usable: nat, n: nat, h: nat): Cell
    requires 480 <= usable <= 0x1_0000
  {
    Limits(usable);
    var bytes := h + PayloadBytes(n, MinLocal(usable), MaxLocal(usable), usable);
    Cell(0, 0, 2 + AtLeastFour(bytes), 2 + 4 + bytes)
  }

  /** Bytes of a table cell, whose key takes k bytes; an interior cell has only a child and the key. */
  function TableCell(usable: nat, n: nat, h: nat, k: nat): Cell
    requires 480 <= usable <= 0x1_0000
  {
    Limits(usable);
    var bytes := h + k + PayloadBytes(n, MinLocal(usable), MaxLeaf(usable), usable);
    Cell(0, 0, 2 + AtLeastFour(bytes), 2 + 4 + k)
  }

  /** Every cell, of whatever payload, meets the premise of the balancing results, on pages of every
      size. */
  lemma RealCellsOk(usable: nat, rootHdr: nat, bulk: bool, n: nat, h: nat, k: nat)
    requires 480 <= usable <= 0x1_0000 && (rootHdr == 0 || rootHdr == 100) && 1 <= h <= 9 && 1 <= k <= 9
    ensures CellOk(Params(false, usable, rootHdr, bulk), IndexCell(usable, n, h))
    ensures CellOk(Params(true, usable, rootHdr, bulk), TableCell(usable, n, h, k))
  {
    hide MaxLocal, MinLocal;
    Limits(usable);
  }

  /** The tightest case: on pages of 65536 bytes four of the largest index cells do not fit on a page,
      neither on a leaf nor inside. */
  lemma FourDoNotFit()
    ensures var c := IndexCell(0x1_0000, MaxLocal(0x1_0000), 3);
            4 * c.leafCost > Capacity(Params(false, 0x1_0000, 0, false), true)
                && 4 * c.nodeCost > Capacity(Params(false, 0x1_0000, 0, false), false)
  {
  }

  // ----- The room on a page

  lemma {:induction false} TotalIsSum(cells: seq<Cell>, regions: seq<Region>, leaf: bool)
    requires |cells| == |regions| && forall i :: 0 <= i < |cells| ==> Cost(cells[i], leaf) == regions[i].size + 2
    ensures Total(cells, leaf) == Sum(regions) + 2 * |cells|
  {
    if cells != [] {
      var n := |cells| - 1;
      TotalIsSum(cells[..n], regions[..n], leaf);
      assert regions == regions[..n] + [regions[n]];
      SumConcat(regions[..n], [regions[n]]);
      SumOne(regions[n]);
    }
  }

  /** The room that balancing counts with is that of a real page: the free bytes of a page with these cells
      are its room less what they cost, on page 1 behind the file header. */
  lemma FreeIsRoomLeft(p: Params, g: Layout.Geometry, v: Layout.View, cells: seq<Cell>, leaf: bool, isRoot: bool)
    requires ParamsOk(p) && Layout.GeometryOk(g) && Layout.Layout(g, v) && g.usable == p.usable
    requires g.cellOffset == g.hdr + (if leaf then 8 else 12) && g.hdr == (if isRoot then p.rootHdr else 0)
    requires |cells| == |v.cells| && forall i :: 0 <= i < |cells| ==> Cost(cells[i], leaf) == v.cells[i].size + 2
    ensures Layout.FreeBytes(g, v) == Room(p, leaf, isRoot) - Total(cells, leaf)
  {
    hide Sum, Total;
    TotalIsSum(cells, v.cells, leaf);
  }

  // ----- Four overflow cells

  const SmallPages := Params(true, 512, 0, false)

  /** A row with a payload of n bytes, whose key takes k bytes: 1 for keys up to 127, 9 for negative ones. */
  function Row(key: int, n: nat, k: nat): Cell { TableCell(512, n, 2, k).(key := key) }

  /** Three neighbouring leaves after row 11 has been inserted between rows 10 and 12. */
  function Siblings(): (r: seq<Tree>)
    ensures |r| == 3
  {
    [Leaf([Row(-5, 477, 9)]), Leaf([Row(10, 195, 1), Row(11, 477, 1), Row(12, 195, 1)]), Leaf([Row(30, 477, 1)])]
  }

  function OldDividers(): (r: seq<Cell>)
    ensures |r| == 2
  {
    [Divider(Row(3, 195, 1)), Divider(Row(20, 195, 1))]
  }

  function AllRows(): (r: seq<Cell>)
    ensures |r| == 5
  {
    [Row(-5, 477, 9), Row(10, 195, 1), Row(11, 477, 1), Row(12, 195, 1), Row(30, 477, 1)]
  }

  lemma RowSizes(key: int)
    ensures Row(key, 477, 9).leafCost == 490 && Row(key, 477, 9).nodeCost == 15
    ensures Row(key, 477, 1).leafCost == 482 && Row(key, 477, 1).nodeCost == 7
    ensures Row(key, 195, 1).leafCost == 200 && Row(key, 195, 1).nodeCost == 7
  {
  }

  /** The leaves and dividers meet the premises of Redistribute: the cells are real ones, the rows are in
      order, and only the middle leaf has a cell too many. */
  lemma SiblingsAreReal()
    ensures GatherCells(true, Siblings(), OldDividers()) == AllRows()
    ensures CellsOk(SmallPages, AllRows()) && CellsOk(SmallPages, OldDividers())
            && Sorted(Forest(true, Siblings(), OldDividers()))
    ensures var room := Capacity(SmallPages, true);
            && Total(Siblings()[0].cells, true) <= room && SplitAt(SmallPages, Siblings()[1].cells, true, 1, 1, room)
               && Total(Siblings()[2].cells, true) <= room
  {
    RealRows();
    InOrderRows();
    RealSizes();
  }

  lemma RealRows()
    ensures GatherCells(true, Siblings(), OldDividers()) == AllRows()
    ensures CellsOk(SmallPages, AllRows()) && CellsOk(SmallPages, OldDividers())
  {
    RealCellsOk(512, 0, false, 477, 2, 9);
    RealCellsOk(512, 0, false, 477, 2, 1);
    RealCellsOk(512, 0, false, 195, 2, 1);
    var s := Siblings();
    assert s[1..][1..] == [s[2]] && [s[2]][1..] == [];
  }

  lemma InOrderRows()
    ensures Sorted(Forest(true, Siblings(), OldDividers()))
  {
    hide Row, Before;
    var s, d, r := Siblings(), OldDividers(), AllRows();
    assert s[1..][1..] == [s[2]] && [s[2]][1..] == [] && Rest(Rest(d)) == [];
    var items := [Entry(r[0]), Sep(d[0]), Entry(r[1]), Entry(r[2]), Entry(r[3]), Sep(d[1]), Entry(r[4])];
    assert Forest(true, s, d) == items;
    Keys();
    forall i, j | 0 <= i < j < |items| ensures Before(items[i], items[j]) { KeysBefore(items, i, j); }
  }

  lemma Keys()
    ensures AllRows()[0].key == -5 && AllRows()[1].key == 10 && AllRows()[2].key == 11 && AllRows()[3].key == 12
            && AllRows()[4].key == 30
    ensures OldDividers()[0].key == 3 && OldDividers()[1].key == 20
  {
  }

  /** Items with ascending keys are in order. */
  lemma {:induction false} KeysBefore(items: seq<Item>, i: nat, j: nat)
    requires i < j < |items| && forall k :: 0 <= k < |items| - 1 ==> items[k].cell.key < items[k + 1].cell.key
    ensures items[i].cell.key < items[j].cell.key && Before(items[i], items[j])
  {
    if i + 1 < j { KeysBefore(items, i, j - 1); }
    assert items[j - 1].cell.key < items[j - 1 + 1].cell.key;
  }

  lemma RealSizes()
    ensures var room := Capacity(SmallPages, true);
            && Total(Siblings()[0].cells, true) <= room && SplitAt(SmallPages, Siblings()[1].cells, true, 1, 1, room)
               && Total(Siblings()[2].cells, true) <= room
  {
    hide Row;
    RowSizes(-5); RowSizes(10); RowSizes(11); RowSizes(12); RowSizes(30);
    var m := Siblings()[1].cells;
    assert m[..1] == [m[0]] && m[2..] == [m[2]] && m[..1][..0] == [] && m[2..][..0] == [];
    assert Siblings()[0].cells[..0] == [] && Siblings()[2].cells[..0] == [];
  }

  /** However the rows are dealt out, each gets a page of its own. */
  lemma {:induction false} OneRowEach(start: nat, cnt: seq<nat>)
    requires start < 5 && Cuts(5, true, start, cnt)
             && Fitting(Costs(AllRows(), true), Capacity(SmallPages, true), true, start, cnt)
    ensures cnt[0] == start + 1 && |cnt| == 5 - start
    decreases cnt
  {
    OnlyOne(start, cnt);
    if |cnt| > 1 { OneRowEach(start + 1, cnt[1..]); }
  }

  lemma OnlyOne(start: nat, cnt: seq<nat>)
    requires start < 5 && Cuts(5, true, start, cnt)
             && Fitting(Costs(AllRows(), true), Capacity(SmallPages, true), true, start, cnt)
    ensures cnt[0] == start + 1
  {
  }

  /** The parent was full with dividers of 7 bytes each.  It has lost both when the first new divider, of
      15 bytes, is inserted and does not fit; so all four go to the overflow array. */
  lemma FourOverflowCells(cnt: seq<nat>)
    requires Cuts(5, true, 0, cnt) && Fitting(Costs(AllRows(), true), Capacity(SmallPages, true), true, 0, cnt)
    ensures 486 + Total(OldDividers(), false) == Capacity(SmallPages, false)
    ensures Overflowed(486, NewDividers(AllRows(), true, 0, cnt), Capacity(SmallPages, false)) == 4
  {
    OneRowEach(0, cnt);
    RowSizes(-5);
    assert NewDividers(AllRows(), true, 0, cnt)[0] == Divider(AllRows()[0]);
  }
}
