/** The auto-vacuum commit and the incremental vacuum: every used page at the end of the file moves into
    a free page at the front, the freed end is cut off, and the database means what it meant before. */
module AutoVacuum {
  import opened Arith
  import opened PointerMap
  import opened DbFile
  import opened Freelist
  import opened PageGraph

  datatype VacuumRc = VacOk | VacDone | VacCorrupt

  /** No page is both a child and an overflow page of the same node. */
  ghost predicate KindsDisjoint(page: Page) {
    forall t :: !(PointsTo(page, BtreePage, t) && PointsTo(page, Overflow1, t))
  }

  ghost predicate Targets(page: Page, t: Pgno) { exists k :: PointsTo(page, k, t) }

  /** The pointer map once a page has recorded the pointers of one cell. */
  function RecordCell(ptrmap: map<Pgno, PtrEntry>, c: Cell, leaf: bool, pgno: Pgno): map<Pgno, PtrEntry> {
    var m := if c.ovfl != 0 then ptrmap[c.ovfl := PtrEntry(Overflow1, pgno)] else ptrmap;
    if leaf then m else m[c.child := PtrEntry(BtreePage, pgno)]
  }

  /** ... of its first n cells. */
  function RecordCells(ptrmap: map<Pgno, PtrEntry>, cells: seq<Cell>, leaf: bool, n: nat,
                       pgno: Pgno): map<Pgno, PtrEntry>
    requires n <= |cells|
  {
    if n == 0 then ptrmap else RecordCell(RecordCells(ptrmap, cells, leaf, n - 1, pgno), cells[n - 1], leaf, pgno)
  }

  ghost predicate Recorded(m: map<Pgno, PtrEntry>, k: PtrType, t: Pgno, pgno: Pgno) {
    t in m && m[t] == PtrEntry(k, pgno)
  }

  ghost predicate Kept(m: map<Pgno, PtrEntry>, m': map<Pgno, PtrEntry>, t: Pgno) { t in m ==> t in m' && m'[t] == m[t] }

  ghost predicate CellRecorded(m: map<Pgno, PtrEntry>, c: Cell, leaf: bool, pgno: Pgno) {
    (c.ovfl != 0 ==> Recorded(m, Overflow1, c.ovfl, pgno)) && (!leaf ==> Recorded(m, BtreePage, c.child, pgno))
  }

  /** Recording cell j does not touch what cell i recorded. */
  lemma RecordCellKeeps(m: map<Pgno, PtrEntry>, page: Page, i: nat, j: nat, pgno: Pgno)
    requires page.Node? && PageOk(page) && KindsDisjoint(page) && i < j < |page.cells|
    requires CellRecorded(m, page.cells[i], page.leaf, pgno)
    ensures CellRecorded(RecordCell(m, page.cells[j], page.leaf, pgno), page.cells[i], page.leaf, pgno)
  {
    var c, d := page.cells[i], page.cells[j];
    assert !page.leaf ==> PointsTo(page, BtreePage, c.child) && PointsTo(page, BtreePage, d.child);
    assert c.ovfl != 0 ==> PointsTo(page, Overflow1, c.ovfl);
    assert d.ovfl != 0 ==> PointsTo(page, Overflow1, d.ovfl);
  }

  lemma {:induction false} RecordCellsOk(ptrmap: map<Pgno, PtrEntry>, page: Page, n: nat, pgno: Pgno)
    requires page.Node? && PageOk(page) && KindsDisjoint(page) && n <= |page.cells|
    ensures forall j ::
              0 <= j < n ==> CellRecorded(RecordCells(ptrmap, page.cells, page.leaf, n, pgno), page.cells[j],
              page.leaf, pgno)
    ensures forall t :: !PointsTo(page, BtreePage, t) && !PointsTo(page, Overflow1, t) ==>
                          Kept(ptrmap, RecordCells(ptrmap, page.cells, page.leaf, n, pgno), t)
  {
    if n > 0 {
      RecordCellsOk(ptrmap, page, n - 1, pgno);
      var m := RecordCells(ptrmap, page.cells, page.leaf, n - 1, pgno);
      var c := page.cells[n - 1];
      assert !page.leaf ==> PointsTo(page, BtreePage, c.child);
      assert c.ovfl != 0 ==> PointsTo(page, Overflow1, c.ovfl);
      assert c.ovfl != 0 && !page.leaf ==> c.child != c.ovfl;
      forall j | 0 <= j < n - 1
          ensures CellRecorded(RecordCell(m, c, page.leaf, pgno), page.cells[j], page.leaf, pgno) {
        RecordCellKeeps(m, page, j, n - 1, pgno);
      }
    }
  }

  /** setChildPtrmaps: record page pgno as the parent of everything it points to. */
  method SetChildPtrmaps(bt: BtShared, pgno: Pgno)
    requires pgno in bt.pages && bt.pages[pgno].Node? && PageOk(bt.pages[pgno]) && KindsDisjoint(bt.pages[pgno])
    modifies bt`ptrmap
    ensures forall k, t :: PointsTo(bt.pages[pgno], k, t) ==> Recorded(bt.ptrmap, k, t, pgno)
    ensures forall t :: !Targets(bt.pages[pgno], t) ==> Kept(old(bt.ptrmap), bt.ptrmap, t)
  {
    var page := bt.pages[pgno];
    var cells := page.cells;
    var i := 0;
    while i < |cells|
      invariant 0 <= i <= |cells|
      invariant bt.ptrmap == RecordCells(old(bt.ptrmap), cells, page.leaf, i, pgno)
    {
      if cells[i].ovfl != 0 {
        bt.ptrmap := bt.ptrmap[cells[i].ovfl := PtrEntry(Overflow1, pgno)];
      }
      if !page.leaf {
        bt.ptrmap := bt.ptrmap[cells[i].child := PtrEntry(BtreePage, pgno)];
      }
      i := i + 1;
    }
    RecordCellsOk(old(bt.ptrmap), page, i, pgno);
    ghost var m := bt.ptrmap;
    if !page.leaf {
      bt.ptrmap := bt.ptrmap[page.right := PtrEntry(BtreePage, pgno)];
    }
    AllRecorded(old(bt.ptrmap), page, pgno, m, bt.ptrmap);
  }

  lemma AllRecorded(ptrmap: map<Pgno, PtrEntry>, page: Page, pgno: Pgno, m: map<Pgno, PtrEntry>,
                    m': map<Pgno, PtrEntry>)
    requires page.Node? && PageOk(page) && KindsDisjoint(page)
    requires forall j :: 0 <= j < |page.cells| ==> CellRecorded(m, page.cells[j], page.leaf, pgno)
    requires forall t :: !PointsTo(page, BtreePage, t) && !PointsTo(page, Overflow1, t) ==> Kept(ptrmap, m, t)
    requires m' == if page.leaf then m else m[page.right := PtrEntry(BtreePage, pgno)]
    ensures forall k, t :: PointsTo(page, k, t) ==> Recorded(m', k, t, pgno)
    ensures forall t :: !Targets(page, t) ==> Kept(ptrmap, m', t)
  {
    assert !page.leaf ==> PointsTo(page, BtreePage, page.right);
    forall t | !Targets(page, t) ensures Kept(ptrmap, m', t) {
      assert !PointsTo(page, BtreePage, t) && !PointsTo(page, Overflow1, t);
      assert Kept(ptrmap, m, t);
    }
    forall k, t | PointsTo(page, k, t) ensures Recorded(m', k, t, pgno) {
      if k.BtreePage? {
        if t != page.right { var i :| 0 <= i < |page.cells| && page.cells[i].child == t; }
      } else {
        var i :| 0 <= i < |page.cells| && page.cells[i].ovfl == t;
      }
    }
  }

  /** modifyPagePointer: the one pointer of type eType to iFrom on page iPtrPage becomes a pointer to
      iTo; it is corruption if there is none. */
  method ModifyPagePointer(bt: BtShared, iPtrPage: Pgno, iFrom: Pgno, iTo: Pgno, eType: PtrType) returns (rc: VacuumRc)
    requires iPtrPage in bt.pages && PageOk(bt.pages[iPtrPage]) && KindsDisjoint(bt.pages[iPtrPage]) && iFrom != 0
    requires eType.Overflow2? ==> bt.pages[iPtrPage].Ovfl?
    requires !eType.Overflow2? ==> bt.pages[iPtrPage].Node? && (eType.Overflow1? || eType.BtreePage?)
    requires eType.BtreePage? ==> !bt.pages[iPtrPage].leaf
    modifies bt`pages
    ensures rc == if PointsTo(old(bt.pages)[iPtrPage], eType, iFrom) then VacOk else VacCorrupt
    ensures rc.VacCorrupt? ==> bt.pages == old(bt.pages)
    ensures rc.VacOk? ==> bt.pages == old(bt.pages)[iPtrPage := Rename(old(bt.pages)[iPtrPage], map[iFrom := iTo])]
  {
    var page := bt.pages[iPtrPage];
    ghost var target := Rename(page, map[iFrom := iTo]);
    if eType.Overflow2? {
      if page.nextOvfl != iFrom { return VacCorrupt; }
      bt.pages := bt.pages[iPtrPage := Ovfl(iTo, page.bytes)];
      return VacOk;
    }
    var cells, i := page.cells, 0;
    while i < |cells|
      invariant 0 <= i <= |cells| && bt.pages == old(bt.pages)
      invariant forall j :: 0 <= j < i ==> if eType.Overflow1? then cells[j].ovfl != iFrom else cells[j].child != iFrom
    {
      if eType.Overflow1? && cells[i].ovfl == iFrom {
        assert PointsTo(page, Overflow1, cells[i].ovfl);
        OnlyOverflow(page, i, iFrom, iTo);
        bt.pages := bt.pages[iPtrPage := page.(cells := cells[i := cells[i].(ovfl := iTo)])];
        return VacOk;
      }
      if eType.BtreePage? && cells[i].child == iFrom {
        assert PointsTo(page, BtreePage, cells[i].child);
        OnlyChild(page, i, iFrom, iTo);
        bt.pages := bt.pages[iPtrPage := page.(cells := cells[i := cells[i].(child := iTo)])];
        return VacOk;
      }
      i := i + 1;
    }
    if !eType.BtreePage? || page.right != iFrom { return VacCorrupt; }
    assert PointsTo(page, BtreePage, page.right);
    OnlyRight(page, iFrom, iTo);
    bt.pages := bt.pages[iPtrPage := page.(right := iTo)];
    return VacOk;
  }

  lemma OnlyOverflow(page: Page, i: nat, iFrom: Pgno, iTo: Pgno)
    requires page.Node? && PageOk(page) && KindsDisjoint(page) && iFrom != 0
    requires i < |page.cells| && page.cells[i].ovfl == iFrom
    ensures page.(cells := page.cells[i := page.cells[i].(ovfl := iTo)]) == Rename(page, map[iFrom := iTo])
  {
    assert PointsTo(page, Overflow1, iFrom) && !PointsTo(page, BtreePage, iFrom);
    assert page.cells[i := page.cells[i].(ovfl := iTo)] == Rename(page, map[iFrom := iTo]).cells;
  }

  lemma OnlyChild(page: Page, i: nat, iFrom: Pgno, iTo: Pgno)
    requires page.Node? && PageOk(page) && KindsDisjoint(page) && iFrom != 0 && !page.leaf
    requires i < |page.cells| && page.cells[i].child == iFrom
    ensures page.(cells := page.cells[i := page.cells[i].(child := iTo)]) == Rename(page, map[iFrom := iTo])
  {
    assert PointsTo(page, BtreePage, iFrom) && !PointsTo(page, Overflow1, iFrom);
    assert page.cells[i := page.cells[i].(child := iTo)] == Rename(page, map[iFrom := iTo]).cells;
  }

  lemma OnlyRight(page: Page, iFrom: Pgno, iTo: Pgno)
    requires page.Node? && PageOk(page) && KindsDisjoint(page) && iFrom != 0 && !page.leaf && page.right == iFrom
    ensures page.(right := iTo) == Rename(page, map[iFrom := iTo])
  {
    assert PointsTo(page, BtreePage, iFrom) && !PointsTo(page, Overflow1, iFrom);
    assert page.cells == Rename(page, map[iFrom := iTo]).cells;
  }

  lemma UsedKindsDisjoint(pages: map<Pgno, Page>, ptrmap: map<Pgno, PtrEntry>, used: set<Pgno>, p: Pgno)
    requires WellFormed(pages, ptrmap, used) && p in used
    ensures KindsDisjoint(pages[p])
  {
  }

  /** relocatePage: page iDbPage moves to the unused page iFreePage. */
  method RelocatePage(bt: BtShared, ghost used: set<Pgno>, eType: PtrType, iPtrPage: Pgno, iDbPage: Pgno,
                      iFreePage: Pgno)
    returns (rc: VacuumRc)
    requires WellFormed(bt.pages, bt.ptrmap, used) && iDbPage in used
    requires iDbPage >= 3 ==> bt.ptrmap[iDbPage] == PtrEntry(eType, iPtrPage) && !eType.RootPage?
    requires iFreePage !in used && iFreePage > 1
    modifies bt`pages, bt`ptrmap
    ensures rc == if iDbPage < 3 then VacCorrupt else VacOk
    ensures rc.VacCorrupt? ==> bt.pages == old(bt.pages) && bt.ptrmap == old(bt.ptrmap)
    ensures rc.VacOk? ==> Moved(old(bt.pages), old(bt.ptrmap), used, iDbPage, iFreePage, bt.pages, bt.ptrmap)
    ensures forall p ::
              p !in used && p != iFreePage && p in old(bt.pages) ==> p in bt.pages && bt.pages[p] == old(bt.pages)[p]
    ensures forall p ::
              p !in used && p != iFreePage && p in old(bt.ptrmap) ==>
                p in bt.ptrmap && bt.ptrmap[p] == old(bt.ptrmap)[p]
  {
    hide WellFormed, Moved;
    if iDbPage < 3 { return VacCorrupt; }
    rc := MovePage(bt, used, eType, iPtrPage, iDbPage, iFreePage);
  }

  /** The body of relocatePage for pages that can be moved. */
  method MovePage(bt: BtShared, ghost used: set<Pgno>, eType: PtrType, iPtrPage: Pgno, iDbPage: Pgno, iFreePage: Pgno)
    returns (rc: VacuumRc)
    requires WellFormed(bt.pages, bt.ptrmap, used) && iDbPage in used && iDbPage >= 3
    requires bt.ptrmap[iDbPage] == PtrEntry(eType, iPtrPage) && !eType.RootPage?
    requires iFreePage !in used && iFreePage > 1
    modifies bt`pages, bt`ptrmap
    ensures rc == VacOk
    ensures Moved(old(bt.pages), old(bt.ptrmap), used, iDbPage, iFreePage, bt.pages, bt.ptrmap)
    ensures forall p ::
              p !in used && p != iFreePage && p in old(bt.pages) ==> p in bt.pages && bt.pages[p] == old(bt.pages)[p]
    ensures forall p ::
              p !in used && p != iFreePage && p in old(bt.ptrmap) ==>
                p in bt.ptrmap && bt.ptrmap[p] == old(bt.ptrmap)[p]
  {
    hide PointsTo, PageOk, Rename, EntryOk, KindsDisjoint, MovedEntry, Recorded, Targets, Kept, Moved, EntriesMoved;
    ghost var pages0, ptrmap0 := bt.pages, bt.ptrmap;
    ParentOf(pages0, ptrmap0, used, iDbPage);
    UsedKindsDisjoint(pages0, ptrmap0, used, iDbPage);
    UsedKindsDisjoint(pages0, ptrmap0, used, iPtrPage);
    // the pager moves the page
    bt.pages := (bt.pages - {iDbPage})[iFreePage := bt.pages[iDbPage]];
    assert bt.pages[iFreePage] == pages0[iDbPage];
    UpdateChildren(bt, iFreePage, eType);
    assert bt.pages[iFreePage] == pages0[iDbPage];
    assert forall t :: !Targets(pages0[iDbPage], t) ==> Kept(ptrmap0, bt.ptrmap, t);
    ChildrenMoved(pages0, ptrmap0, used, iDbPage, iFreePage, bt.ptrmap);
    rc := ModifyPagePointer(bt, iPtrPage, iDbPage, iFreePage, eType);
    MoveIsComplete(pages0, ptrmap0, used, iDbPage, iFreePage, bt.ptrmap);
    bt.ptrmap := bt.ptrmap[iFreePage := PtrEntry(eType, iPtrPage)];
  }

  /** A page has moved when it has been copied, the entries of its targets have been moved, and its parent
      and its entry have followed. */
  lemma MoveIsComplete(pages: map<Pgno, Page>, ptrmap: map<Pgno, PtrEntry>, used: set<Pgno>, x: Pgno, y: Pgno,
                       ptrmap1: map<Pgno, PtrEntry>)
    requires WellFormed(pages, ptrmap, used) && x in used && x != 1 && y !in used
    requires ptrmap[x].parent in used && ptrmap[x].parent != x
    requires EntriesMoved(ptrmap, used, x, y, ptrmap1) && forall t :: t !in used ==> Kept(ptrmap, ptrmap1, t)
    ensures var par := ptrmap[x].parent;
            var pages', ptrmap' := (pages - {x})[y := pages[x]][par := Rename(pages[par], map[x := y])],
                ptrmap1[y := ptrmap[x]];
            && Moved(pages, ptrmap, used, x, y, pages', ptrmap')
            && (forall p :: p !in used && p != y && p in pages ==> p in pages' && pages'[p] == pages[p])
            && (forall p :: p !in used && p != y && p in ptrmap ==> p in ptrmap' && ptrmap'[p] == ptrmap[p])
  {
    hide PointsTo, PageOk, Rename, EntryOk, MovedEntry;
    OthersUnaffected(pages, ptrmap, used, x, y);
    forall p | p !in used && p != y && p in ptrmap ensures p in ptrmap1 && ptrmap1[p] == ptrmap[p] {
      assert Kept(ptrmap, ptrmap1, p);
    }
  }

  /** The middle part of relocatePage: whatever the moved page points to learns its new number. */
  method UpdateChildren(bt: BtShared, iFreePage: Pgno, eType: PtrType)
    requires iFreePage in bt.pages && PageOk(bt.pages[iFreePage]) && KindsDisjoint(bt.pages[iFreePage])
    requires bt.pages[iFreePage].Node? <==> eType.RootPage? || eType.BtreePage?
    modifies bt`ptrmap
    ensures forall k, t :: PointsTo(bt.pages[iFreePage], k, t) ==> Recorded(bt.ptrmap, k, t, iFreePage)
    ensures forall t :: !Targets(bt.pages[iFreePage], t) ==> Kept(old(bt.ptrmap), bt.ptrmap, t)
  {
    var page := bt.pages[iFreePage];
    if eType.BtreePage? || eType.RootPage? {
      SetChildPtrmaps(bt, iFreePage);
    } else if page.nextOvfl != 0 {
      assert PointsTo(page, Overflow2, page.nextOvfl) && Targets(page, page.nextOvfl);
      bt.ptrmap := bt.ptrmap[page.nextOvfl := PtrEntry(Overflow2, iFreePage)];
    }
  }

  /** The parent recorded for a page that is not a root is another used page, of the right kind. */
  lemma ParentOf(pages: map<Pgno, Page>, ptrmap: map<Pgno, PtrEntry>, used: set<Pgno>, x: Pgno)
    requires WellFormed(pages, ptrmap, used) && x in used && x != 1 && !ptrmap[x].kind.RootPage?
    ensures var e := ptrmap[x];
            && e.parent in used && e.parent != x && PointsTo(pages[e.parent], e.kind, x)
            && (pages[x].Node? <==> e.kind.BtreePage?)
            && (e.kind.Overflow2? ==> pages[e.parent].Ovfl?)
            && (!e.kind.Overflow2? ==> pages[e.parent].Node? && (e.kind.Overflow1? || e.kind.BtreePage?))
            && (e.kind.BtreePage? ==> !pages[e.parent].leaf)
  {
    assert EntryOk(pages, used, x, ptrmap[x]);
  }

  ghost predicate EntriesMoved(ptrmap: map<Pgno, PtrEntry>, used: set<Pgno>, x: Pgno, y: Pgno,
                               ptrmap': map<Pgno, PtrEntry>) {
    forall t ::
          t in used && t != 1 && t != x && t in ptrmap ==> t in ptrmap' && ptrmap'[t] == MovedEntry(ptrmap[t], x, y)
  }

  /** Updating the entries of what page x points to is exactly moving every entry that names x. */
  lemma ChildrenMoved(pages: map<Pgno, Page>, ptrmap: map<Pgno, PtrEntry>, used: set<Pgno>, x: Pgno, y: Pgno,
                      ptrmap': map<Pgno, PtrEntry>)
    requires WellFormed(pages, ptrmap, used) && x in used
    requires forall k, t :: PointsTo(pages[x], k, t) ==> Recorded(ptrmap', k, t, y)
    requires forall t :: !Targets(pages[x], t) ==> Kept(ptrmap, ptrmap', t)
    ensures EntriesMoved(ptrmap, used, x, y, ptrmap')
    ensures forall t :: t !in used ==> Kept(ptrmap, ptrmap', t)
  {
    forall t | t !in used ensures Kept(ptrmap, ptrmap', t) { assert !Targets(pages[x], t); }
    forall t | t in used && t != 1 && t != x && t in ptrmap
      ensures t in ptrmap' && ptrmap'[t] == MovedEntry(ptrmap[t], x, y)
    {
      assert EntryOk(pages, used, t, ptrmap[t]);
      if k :| PointsTo(pages[x], k, t) {
        assert ptrmap[t] == PtrEntry(k, x) && Recorded(ptrmap', k, t, y);
      } else {
        assert !Targets(pages[x], t) && Kept(ptrmap, ptrmap', t);
      }
    }
  }

  /** Only the parent of x points to x. */
  lemma OthersUnaffected(pages: map<Pgno, Page>, ptrmap: map<Pgno, PtrEntry>, used: set<Pgno>, x: Pgno, y: Pgno)
    requires WellFormed(pages, ptrmap, used) && x in used && x != 1
    ensures forall p :: p in used && p != ptrmap[x].parent ==> Rename(pages[p], map[x := y]) == pages[p]
  {
    forall p | p in used && p != ptrmap[x].parent
      ensures Rename(pages[p], map[x := y]) == pages[p]
    {
      RenameUnaffected(pages[p], x, y);
    }
  }

  // ----- Counting pages

  function ContentSet(g: Geometry, n: Pgno): set<Pgno> { set p: Pgno | 1 <= p <= n && IsContent(g, p) }

  lemma {:induction false} ContentSetSize(g: Geometry, n: Pgno)
    ensures |ContentSet(g, n)| == ContentCount(g, n)
  {
    hide IsContent;
    if n == 0 {
      assert ContentSet(g, 0) == {};
    } else {
      ContentSetSize(g, n - 1);
      if IsContent(g, n) {
        assert ContentSet(g, n) == ContentSet(g, n - 1) + {n};
      } else {
        assert ContentSet(g, n) == ContentSet(g, n - 1);
      }
    }
  }

  /** The listed pages at or below n, and the used pages above n. */
  ghost function Low(free: multiset<Pgno>, n: Pgno): set<Pgno> { set p | p in free && p <= n }
  ghost function High(used: set<Pgno>, n: Pgno): set<Pgno> { set p | p in used && p > n }
  ghost function Support(free: multiset<Pgno>): set<Pgno> { set p | p in free }

  /** There are as many free slots in the first nFin pages as there are used pages behind them. */
  lemma SlotsMatch(g: Geometry, nOrig: Pgno, nFin: Pgno, free: multiset<Pgno>, used: set<Pgno>)
    requires nFin <= nOrig && Distinct(free) && Support(free) !! used && Support(free) + used == ContentSet(g, nOrig)
    requires ContentCount(g, nFin) == ContentCount(g, nOrig) - |free|
    ensures |Low(free, nFin)| == |High(used, nFin)|
    ensures |used| == ContentCount(g, nFin)
  {
    hide IsContent;
    ContentSetSize(g, nOrig);
    ContentSetSize(g, nFin);
    DistinctSize(free, Support(free));
    assert |Support(free) + used| == |Support(free)| + |used|;
    var lowUsed := used - High(used, nFin);
    assert ContentSet(g, nFin) == Low(free, nFin) + lowUsed;
    assert |ContentSet(g, nFin)| == |Low(free, nFin)| + |lowUsed|;
    assert used == lowUsed + High(used, nFin);
    assert |used| == |lowUsed| + |High(used, nFin)|;
  }

  /** Root pages sit in the first content pages of the file, so they lie below nFin. */
  lemma RootsBelow(g: Geometry, used: set<Pgno>, r: Pgno, nFin: Pgno)
    requires |used| == ContentCount(g, nFin) && 1 in used
    requires IsContent(g, r)
    ensures ContentSet(g, r) - {1} <= used ==> r <= nFin
  {
    ContentSetSize(g, r);
    if nFin < r { ContentCountStrict(g, nFin, r); }
    if ContentSet(g, r) - {1} <= used { SubsetSize(ContentSet(g, r), used); }
  }

  lemma SubsetSize(a: set<Pgno>, b: set<Pgno>)
    requires a <= b
    ensures |a| <= |b|
    ensures |a| == |b| ==> a == b
  {
    assert b == a + (b - a);
    assert |b| == |a| + |b - a|;
    if |a| == |b| { assert b - a == {}; }
  }

  // ----- One step

  /** Everything a vacuum commit keeps while it works down from the end of the file.  Pages above
      `last` have been dealt with. */
  ghost predicate Vacuuming(bt: BtShared, used: set<Pgno>, nFin: Pgno, last: Pgno)
    reads bt
  {
    && bt.Valid() && bt.autoVacuum
    && WellFormed(bt.pages, bt.ptrmap, used)
    && Bookkeeping(bt.g, bt.ptrmap, Free(bt.list), used, nFin, last)
  }

  /** Used pages are content pages that are not free; above nFin the pointer map tells which are used,
      and none of those is a root; there is a free slot for each of them. */
  ghost predicate Bookkeeping(g: Geometry, ptrmap: map<Pgno, PtrEntry>, free: multiset<Pgno>, used: set<Pgno>,
                              nFin: Pgno, last: Pgno) {
    && (forall p :: p in used ==> p <= last && p !in free && IsContent(g, p))
    && (forall p :: nFin < p <= last && IsContent(g, p) ==> p in ptrmap && (p in used <==> !ptrmap[p].kind.FreePage?))
    && (forall p :: p in used && p > nFin ==> p in ptrmap && !ptrmap[p].kind.RootPage?)
    && |Low(free, nFin)| == |High(used, nFin)|
  }

  /** Used page x, the last one, went to the free page y. */
  lemma BookkeepingAfterMove(g: Geometry, ptrmap: map<Pgno, PtrEntry>, free: multiset<Pgno>, used: set<Pgno>,
                             nFin: Pgno, x: Pgno, ptrmap': map<Pgno, PtrEntry>, free': multiset<Pgno>, y: Pgno)
    requires Bookkeeping(g, ptrmap, free, used, nFin, x) && x in used && 1 <= nFin < x
    requires y <= nFin && y in free && y !in free' && IsContent(g, y)
    requires (forall p :: p in free' ==> p in free) && Low(free', nFin) == Low(free, nFin) - {y}
    requires forall t ::
               t in used && t != 1 && t != x ==> t in ptrmap' && t in ptrmap && ptrmap'[t].kind == ptrmap[t].kind
    requires forall p :: p !in used && p != y && p in ptrmap ==> p in ptrmap' && ptrmap'[p] == ptrmap[p]
    ensures Bookkeeping(g, ptrmap', free', used - {x} + {y}, nFin, x - 1)
    ensures |used - {x} + {y}| == |used|
  {
    hide IsContent, Low, High;
    SwapSizes(used, nFin, x, y);
    assert |Low(free', nFin)| == |Low(free, nFin)| - 1 by { assert y in Low(free, nFin) by { LowHas(free, nFin, y); } }
  }

  lemma LowHas(free: multiset<Pgno>, n: Pgno, y: Pgno)
    ensures y in Low(free, n) <==> y in free && y <= n
  {
  }

  lemma SwapSizes(used: set<Pgno>, n: Pgno, x: Pgno, y: Pgno)
    requires x in used && y !in used && y <= n < x
    ensures |used - {x} + {y}| == |used| && |High(used - {x} + {y}, n)| == |High(used, n)| - 1
  {
    var used' := used - {x} + {y};
    assert High(used', n) == High(used, n) - {x};
    DropOne(High(used, n), x);
    DropOne(used, x);
    DropOne(used', y);
    assert used' - {y} == used - {x};
  }

  lemma DropOne(s: set<Pgno>, x: Pgno)
    requires x in s
    ensures |s - {x}| == |s| - 1
  {
  }

  /** The inner loop of incrVacuumStep: take free pages off the list until one lies at or below nFin. */
  method AllocateLow(bt: BtShared, nFin: Pgno) returns (iFreePg: Pgno)
    requires bt.Valid() && Low(Free(bt.list), nFin) != {}
    modifies bt`nPage, bt`firstTrunk, bt`nFree, bt`pages, bt`list
    ensures bt.Valid() && bt.nPage == old(bt.nPage)
    ensures iFreePg <= nFin && iFreePg in old(Free(bt.list)) && iFreePg !in Free(bt.list)
    ensures forall p :: p in Free(bt.list) ==> p in old(Free(bt.list))
    ensures Low(Free(bt.list), nFin) == old(Low(Free(bt.list), nFin)) - {iFreePg}
    ensures SameOutside(old(bt.pages), bt.pages, old(Free(bt.list)))
  {
    hide Chain, Free, Allowed, Abs;
    ghost var pages0, free0 := bt.pages, Free(bt.list);
    while true
      invariant bt.Valid() && bt.nPage == old(bt.nPage)
      invariant forall p :: p in Free(bt.list) ==> p in free0
      invariant Low(Free(bt.list), nFin) == Low(free0, nFin)
      invariant SameOutside(pages0, bt.pages, free0)
      decreases bt.nFree
    {
      assert bt.nFree > 0 by {
        var p :| p in Low(free0, nFin);
        assert p in Free(bt.list);
      }
      ghost var pages1, list1 := bt.pages, bt.list;
        var rc;
      rc, iFreePg := bt.AllocateBtreePage(0, AllocMode.Any);
      RemovedWasFree(pages1, list1, bt.pages, bt.list, iFreePg);
      OneLess(Free(list1), Free(bt.list), iFreePg, nFin);
      assert SameOutside(pages1, bt.pages, Free(list1));
      if iFreePg <= nFin { return; }
    }
  }

  lemma OneLess(free: multiset<Pgno>, free': multiset<Pgno>, x: Pgno, n: Pgno)
    requires Distinct(free) && x in free && free' == free - multiset{x}
    ensures x !in free' && forall p :: p in free' <==> p in free && p != x
    ensures Low(free', n) == Low(free, n) - {x}
  {
    assert free[x] == 1;
  }

  /** Only the used pages matter to the page graph. */
  lemma WellFormedFrame(pages: map<Pgno, Page>, ptrmap: map<Pgno, PtrEntry>, used: set<Pgno>, pages': map<Pgno, Page>)
    requires WellFormed(pages, ptrmap, used)
    requires forall p :: p in used ==> p in pages' && pages'[p] == pages[p]
    ensures WellFormed(pages', ptrmap, used)
  {
    hide PointsTo, PageOk;
    forall t | t in used && t != 1 ensures EntryOk(pages', used, t, ptrmap[t]) {
      assert EntryOk(pages, used, t, ptrmap[t]);
    }
  }

  lemma UsedClosed(pages: map<Pgno, Page>, ptrmap: map<Pgno, PtrEntry>, used: set<Pgno>)
    requires WellFormed(pages, ptrmap, used)
    ensures 0 !in used && forall p :: p in used ==> p in pages && PageOk(pages[p]) && Closed(pages[p], used)
  {
    hide PointsTo, PageOk;
  }

  /** Relocation, seen from the state before free pages were taken off the list. */
  method MoveLastPage(bt: BtShared, ghost used: set<Pgno>, ghost pages0: map<Pgno, Page>, iLastPg: Pgno, iFreePg: Pgno)
    returns (rc: VacuumRc)
    requires bt.Valid() && WellFormed(bt.pages, bt.ptrmap, used) && iLastPg in used && iLastPg >= 3
    requires !bt.ptrmap[iLastPg].kind.RootPage? && iFreePg !in used && iFreePg > 1 && iFreePg !in Free(bt.list)
    requires forall p :: p in used ==> p !in Free(bt.list) && p in pages0 && pages0[p] == bt.pages[p]
    modifies bt`pages, bt`ptrmap
    ensures rc == VacOk && bt.Valid()
    ensures WellFormed(bt.pages, bt.ptrmap, used - {iLastPg} + {iFreePg})
    ensures SameGraph(pages0, used, bt.pages, used - {iLastPg} + {iFreePg}, Shift(used, iLastPg, iFreePg))
    ensures forall t :: t in used && t != 1 && t != iLastPg ==>
                          t in bt.ptrmap && t in old(bt.ptrmap) && bt.ptrmap[t].kind == old(bt.ptrmap)[t].kind
    ensures iFreePg in bt.ptrmap && bt.ptrmap[iFreePg].kind == old(bt.ptrmap)[iLastPg].kind
    ensures forall p ::
              p !in used && p != iFreePg && p in old(bt.ptrmap) ==> p in bt.ptrmap && bt.ptrmap[p] == old(bt.ptrmap)[p]
  {
    hide PointsTo, PageOk, Rename, EntryOk, Free, Allowed, WellFormed, Moved, SameGraph, FileOk, MovedEntry;
    ghost var pages1, ptrmap1 := bt.pages, bt.ptrmap;
    HasEntry(pages1, ptrmap1, used, iLastPg);
    rc := RelocatePage(bt, used, bt.ptrmap[iLastPg].kind, bt.ptrmap[iLastPg].parent, iLastPg, iFreePg);
    MovedKinds(pages1, ptrmap1, used, iLastPg, iFreePg, bt.pages, bt.ptrmap);
    MoveKeepsGraph(pages1, ptrmap1, used, iLastPg, iFreePg, bt.pages, bt.ptrmap);
    SameGraphFrame(pages1, pages0, used, bt.pages, used - {iLastPg} + {iFreePg}, Shift(used, iLastPg, iFreePg));
    ListSurvives(bt.g, bt.autoVacuum, bt.nPage, pages1, bt.firstTrunk, bt.list, bt.pages, used, iFreePg);
  }

  lemma HasEntry(pages: map<Pgno, Page>, ptrmap: map<Pgno, PtrEntry>, used: set<Pgno>, x: Pgno)
    requires WellFormed(pages, ptrmap, used) && x in used
    ensures x in pages && (x != 1 ==> x in ptrmap)
  {
  }

  /** Moving a page changes the kind of no map entry. */
  lemma MovedKinds(pages: map<Pgno, Page>, ptrmap: map<Pgno, PtrEntry>, used: set<Pgno>, x: Pgno, y: Pgno,
                   pages': map<Pgno, Page>, ptrmap': map<Pgno, PtrEntry>)
    requires WellFormed(pages, ptrmap, used) && x in used && x != 1 && x in ptrmap
             && Moved(pages, ptrmap, used, x, y, pages', ptrmap')
    ensures forall t ::
              t in used && t != 1 && t != x ==> t in ptrmap' && t in ptrmap && ptrmap'[t].kind == ptrmap[t].kind
    ensures y in ptrmap' && ptrmap'[y].kind == ptrmap[x].kind
  {
    hide PointsTo, PageOk, Rename, EntryOk;
  }

  lemma SameGraphFrame(before: map<Pgno, Page>, before': map<Pgno, Page>, used: set<Pgno>, after: map<Pgno, Page>,
                       used': set<Pgno>, ren: map<Pgno, Pgno>)
    requires SameGraph(before, used, after, used', ren)
    requires forall p :: p in used ==> p in before' && p in before && before'[p] == before[p]
    ensures SameGraph(before', used, after, used', ren)
  {
    hide Rename;
  }

  lemma ListSurvives(g: Geometry, autoVacuum: bool, nPage: Pgno, pages: map<Pgno, Page>, first: Pgno,
                     list: seq<TrunkRec>, pages': map<Pgno, Page>, used: set<Pgno>, y: Pgno)
    requires FileOk(g, autoVacuum, nPage, pages, first, list)
    requires forall p :: p in used ==> p !in Free(list)
    requires y !in Free(list)
    requires forall p :: p !in used && p != y && p in pages ==> p in pages' && pages'[p] == pages[p]
    ensures FileOk(g, autoVacuum, nPage, pages', first, list)
  {
    forall i | 0 <= i < |list| ensures list[i].pgno in Free(list) { ListedTrunk(list, i); }
    ChainFrame(pages, pages', first, list);
  }

  lemma FreeAreContent(bt: BtShared)
    requires bt.ListValid() && bt.autoVacuum
    ensures forall p :: p in Free(bt.list) ==> 2 <= p <= bt.nPage && IsContent(bt.g, p)
  {
    forall p | p in Free(bt.list) ensures 2 <= p <= bt.nPage && IsContent(bt.g, p) { bt.FreeInRange(p); }
  }

  lemma NoContentOnPageTwo(g: Geometry)
    requires g.Valid()
    ensures !IsContent(g, 2)
  {
    DivUnique(g.GroupSize(), 0, 0);
    InGroup(g, 2);
  }

  /** The branch of incrVacuumStep that moves the last page. */
  method MoveStep(bt: BtShared, ghost used: set<Pgno>, nFin: Pgno, iLastPg: Pgno)
    returns (rc: VacuumRc, ghost used': set<Pgno>, ghost ren: map<Pgno, Pgno>)
    requires Vacuuming(bt, used, nFin, iLastPg) && 1 <= nFin < iLastPg && iLastPg in used
    modifies bt`nPage, bt`firstTrunk, bt`nFree, bt`pages, bt`list, bt`ptrmap
    ensures rc.VacOk? && Vacuuming(bt, used', nFin, iLastPg - 1)
    ensures bt.nPage == old(bt.nPage) && |used'| == |used|
    ensures SameGraph(old(bt.pages), used, bt.pages, used', ren)
            && forall p :: p in used && p <= nFin ==> p in ren && ren[p] == p
  {
    hide IsPtrmapPage, FileOk, Free, Allowed, PointsTo, PageOk, Rename, EntryOk, SameGraph;
    ghost var pages0, ptrmap0, free0 := bt.pages, bt.ptrmap, Free(bt.list);
    FreeAreContent(bt);
    NoContentOnPageTwo(bt.g);
    assert iLastPg in High(used, nFin) && Low(free0, nFin) != {};
    var iFreePg := AllocateLow(bt, nFin);
    WellFormedFrame(pages0, ptrmap0, used, bt.pages);
    rc := MoveLastPage(bt, used, pages0, iLastPg, iFreePg);
    used', ren := used - {iLastPg} + {iFreePg}, Shift(used, iLastPg, iFreePg);
    BookkeepingAfterMove(bt.g, ptrmap0, free0, used, nFin, iLastPg, bt.ptrmap, Free(bt.list), iFreePg);
  }

  /** incrVacuumStep with bCommit set: afterwards page iLastPg is no longer in use. */
  method IncrVacuumStep(bt: BtShared, ghost used: set<Pgno>, nFin: Pgno, iLastPg: Pgno)
    returns (rc: VacuumRc, ghost used': set<Pgno>, ghost ren: map<Pgno, Pgno>)
    requires Vacuuming(bt, used, nFin, iLastPg) && 1 <= nFin < iLastPg
    modifies bt`nPage, bt`firstTrunk, bt`nFree, bt`pages, bt`list, bt`ptrmap
    ensures rc.VacOk? || rc.VacDone?
    ensures rc.VacOk? ==> Vacuuming(bt, used', nFin, iLastPg - 1)
    ensures rc.VacDone? ==> Vacuuming(bt, used', nFin, nFin)
    ensures rc.VacDone? <==> old(bt.nFree) == 0 && !IsPtrmapPage(bt.g, iLastPg) && iLastPg != bt.g.pendingPage
    ensures bt.nPage == old(bt.nPage) && |used'| == |used|
    ensures SameGraph(old(bt.pages), used, bt.pages, used', ren)
            && forall p :: p in used && p <= nFin ==> p in ren && ren[p] == p
  {
    hide IsPtrmapPage, FileOk, Free, Allowed, PointsTo, PageOk, Rename, EntryOk, SameGraph;
    if !IsPtrmapPage(bt.g, iLastPg) && iLastPg != bt.g.pendingPage {
      if bt.nFree == 0 {
        assert Low(Free(bt.list), nFin) == {} && High(used, nFin) == {};
        assert forall p :: p in used && p > nFin ==> p in High(used, nFin);
        SameGraphReflexive(bt.pages, used);
        return VacDone, used, map p | p in used :: p;
      }
      if !bt.ptrmap[iLastPg].kind.FreePage? {
        rc, used', ren := MoveStep(bt, used, nFin, iLastPg);
        return;
      }
    }
    SameGraphReflexive(bt.pages, used);
    return VacOk, used, map p | p in used :: p;
  }

  // ----- The whole commit

  /** A database file between transactions: every content page is either used or on the freelist, the
      pointer map says which, and root pages come first. */
  ghost predicate Ready(bt: BtShared, used: set<Pgno>)
    reads bt
  {
    && bt.Valid() && bt.autoVacuum && bt.nPage <= MAX_PAGE && 1 in used
    && WellFormed(bt.pages, bt.ptrmap, used)
    && Support(Free(bt.list)) !! used && Support(Free(bt.list)) + used == ContentSet(bt.g, bt.nPage)
    && (forall p :: p in Free(bt.list) ==> p in bt.ptrmap && bt.ptrmap[p].kind.FreePage?)
    && RootsFirst(bt.g, bt.ptrmap, used)
  }

  ghost predicate RootsFirst(g: Geometry, ptrmap: map<Pgno, PtrEntry>, used: set<Pgno>) {
    forall r, p :: r in used && r != 1 && r in ptrmap && ptrmap[r].kind.RootPage? && p in ContentSet(g, r) && p != 1 ==>
                     p in used && p in ptrmap && ptrmap[p].kind.RootPage?
  }

  /** A file that is ready can start the vacuum. */
  lemma StartVacuum(bt: BtShared, used: set<Pgno>, nFin: Pgno)
    requires Ready(bt, used) && nFin <= bt.nPage && IsContent(bt.g, nFin)
    requires ContentCount(bt.g, nFin) == ContentCount(bt.g, bt.nPage) - bt.nFree
    ensures Vacuuming(bt, used, nFin, bt.nPage) && |used| == ContentCount(bt.g, nFin)
  {
    hide IsContent, Chain, Free, PointsTo, PageOk, EntryOk, Bookkeeping;
    NotFreeEntries(bt.pages, bt.ptrmap, used);
    SlotsMatch(bt.g, bt.nPage, nFin, Free(bt.list), used);
    StartBookkeeping(bt.g, bt.ptrmap, Free(bt.list), used, bt.nPage, nFin);
  }

  lemma NotFreeEntries(pages: map<Pgno, Page>, ptrmap: map<Pgno, PtrEntry>, used: set<Pgno>)
    requires WellFormed(pages, ptrmap, used)
    ensures forall p :: p in used && p != 1 ==> p in ptrmap && !ptrmap[p].kind.FreePage?
  {
    hide PointsTo, PageOk;
    forall p | p in used && p != 1 ensures p in ptrmap && !ptrmap[p].kind.FreePage? {
      assert EntryOk(pages, used, p, ptrmap[p]);
    }
  }

  lemma StartBookkeeping(g: Geometry, ptrmap: map<Pgno, PtrEntry>, free: multiset<Pgno>, used: set<Pgno>, nOrig: Pgno,
                         nFin: Pgno)
    requires 1 <= nFin <= nOrig && 1 in used
    requires forall p :: p in used && p != 1 ==> p in ptrmap && !ptrmap[p].kind.FreePage?
    requires forall p :: p in free ==> p in ptrmap && ptrmap[p].kind.FreePage?
    requires Support(free) !! used && Support(free) + used == ContentSet(g, nOrig)
    requires RootsFirst(g, ptrmap, used)
    requires |Low(free, nFin)| == |High(used, nFin)| && |used| == ContentCount(g, nFin)
    ensures Bookkeeping(g, ptrmap, free, used, nFin, nOrig)
  {
    hide IsContent;
    var all := ContentSet(g, nOrig);
    forall p | p in used ensures p <= nOrig && p !in free && IsContent(g, p) {
      assert p in all;
      assert p !in Support(free);
    }
    forall p | nFin < p <= nOrig && IsContent(g, p) ensures p in ptrmap && (p in used <==> !ptrmap[p].kind.FreePage?) {
      assert p in all;
      if p !in used { assert p in Support(free); }
    }
    forall p | p in used && p > nFin ensures !ptrmap[p].kind.RootPage? {
      assert p in all && p != 1;
      RootsBelow(g, used, p, nFin);
    }
  }

  /** There are more content pages than free pages: page 1 is never free. */
  lemma NotAllFree(bt: BtShared, used: set<Pgno>)
    requires Ready(bt, used)
    ensures bt.nFree < ContentCount(bt.g, bt.nPage)
  {
    hide IsPtrmapPage, Chain, Free, Allowed, PointsTo, PageOk;
    var free := Free(bt.list);
    ContentSetSize(bt.g, bt.nPage);
    DistinctSize(free, Support(free));
    assert |Support(free) + used| == |Support(free)| + |used|;
    assert |used| > 0;
  }

  /** The loop of autoVacuumCommit. */
  method VacuumLoop(bt: BtShared, ghost used: set<Pgno>, nFin: Pgno)
    returns (ghost used': set<Pgno>, ghost ren: map<Pgno, Pgno>)
    requires Vacuuming(bt, used, nFin, bt.nPage) && 1 <= nFin <= bt.nPage
    modifies bt
    ensures bt.nPage == old(bt.nPage) && |used'| == |used| && Vacuuming(bt, used', nFin, nFin)
    ensures SameGraph(old(bt.pages), used, bt.pages, used', ren)
    ensures forall p :: p in used && p <= nFin ==> p in ren && ren[p] == p
    ensures nFin == bt.nPage ==> bt.nFree == old(bt.nFree) && bt.firstTrunk == old(bt.firstTrunk)
  {
    hide FileOk, Free, WellFormed, Closed, PageOk, SameGraph, Compose, Bookkeeping;
    used', ren := used, map p | p in used :: p;
    ghost var pages0, n0 := bt.pages, bt.nPage;
    UsedClosed(pages0, bt.ptrmap, used);
    SameGraphReflexive(pages0, used);
    var iFree := bt.nPage;
    var rc := VacOk;
    while iFree > nFin && rc == VacOk
      invariant nFin <= iFree <= n0 && bt.nPage == n0 && |used'| == |used|
      invariant rc.VacOk? || rc.VacDone?
      invariant Vacuuming(bt, used', nFin, if rc.VacOk? then iFree else nFin)
      invariant SameGraph(pages0, used, bt.pages, used', ren) && ren.Keys == used
      invariant forall p :: p in used && p <= nFin ==> ren[p] == p
      invariant iFree == n0 ==> bt.nFree == old(bt.nFree) && bt.firstTrunk == old(bt.firstTrunk)
    {
      ghost var mid, pages1, step := used', bt.pages, ren;
      UsedClosed(pages1, bt.ptrmap, mid);
      rc, used', step := IncrVacuumStep(bt, mid, nFin, iFree);
      ComposedStays(pages0, used, pages1, mid, bt.pages, used', ren, step, nFin);
      ren := Compose(ren, step);
      iFree := iFree - 1;
    }
  }

  lemma ComposedStays(a: map<Pgno, Page>, ua: set<Pgno>, b: map<Pgno, Page>, ub: set<Pgno>, c: map<Pgno, Page>,
                      uc: set<Pgno>, ren: map<Pgno, Pgno>, ren': map<Pgno, Pgno>, n: Pgno)
    requires SameGraph(a, ua, b, ub, ren) && SameGraph(b, ub, c, uc, ren')
    requires 0 !in ua && 0 !in ub && forall p :: p in ua ==> PageOk(a[p]) && Closed(a[p], ua)
    requires forall p :: p in ua && p <= n ==> p in ren && ren[p] == p
    requires forall p :: p in ub && p <= n ==> p in ren' && ren'[p] == p
    ensures SameGraph(a, ua, c, uc, Compose(ren, ren'))
    ensures Compose(ren, ren').Keys == ua && forall p :: p in ua && p <= n ==> Compose(ren, ren')[p] == p
  {
    hide PageOk, Rename, Closed;
    SameGraphTransitive(a, ua, b, ub, c, uc, ren, ren');
    forall p | p in ua && p <= n ensures Compose(ren, ren')[p] == p { assert ren[p] in ren.Values; }
  }

  /** Used pages that all lie within the final size fill it. */
  lemma UsedFills(g: Geometry, ptrmap: map<Pgno, PtrEntry>, free: multiset<Pgno>, used: set<Pgno>, nFin: Pgno)
    requires Bookkeeping(g, ptrmap, free, used, nFin, nFin) && |used| == ContentCount(g, nFin)
    requires forall p :: p in used ==> p != 0
    ensures used == ContentSet(g, nFin)
  {
    hide IsContent;
    ContentSetSize(g, nFin);
    SubsetSize(used, ContentSet(g, nFin));
  }

  /** autoVacuumCommit.  Provided the last page of the file holds content, the commit succeeds; the
      pages in use are then exactly the content pages 1..nPage of a file with an empty freelist, they
      hold the page graph they held before with some pages renumbered, and the pointer map is again
      its exact inverse.  Pages that already lay within the final size, root pages among them, did
      not move. */
  method AutoVacuumCommit(bt: BtShared, ghost used: set<Pgno>)
    returns (rc: VacuumRc, ghost used': set<Pgno>, ghost ren: map<Pgno, Pgno>)
    requires Ready(bt, used)
    modifies bt
    ensures rc.VacCorrupt? <==> !IsContent(bt.g, old(bt.nPage))
    ensures rc.VacCorrupt? ==> unchanged(bt)
    ensures rc.VacOk? || rc.VacCorrupt?
    ensures rc.VacOk? ==> bt.Valid() && bt.nFree == 0 && bt.firstTrunk == 0
    ensures rc.VacOk? ==> used' == ContentSet(bt.g, bt.nPage) && IsContent(bt.g, bt.nPage)
    ensures rc.VacOk? ==> ContentCount(bt.g, bt.nPage) == ContentCount(bt.g, old(bt.nPage)) - old(bt.nFree)
    ensures rc.VacOk? ==> WellFormed(bt.pages, bt.ptrmap, used')
    ensures rc.VacOk? ==> SameGraph(old(bt.pages), used, bt.pages, used', ren)
    ensures rc.VacOk? ==> forall p :: p in used && p <= bt.nPage ==> p in ren && ren[p] == p
  {
    hide IsPtrmapPage, FileOk, Free, WellFormed, SameGraph, Bookkeeping, Support, ContentSet, RootsFirst, ContentCount;
    used', ren := used, map[];
    ghost var pages0 := bt.pages;
    var nOrig := bt.nPage;
    if IsPtrmapPage(bt.g, nOrig) || nOrig == bt.g.pendingPage { return VacCorrupt, used', ren; }
    var nFree := bt.nFree;
    NotAllFree(bt, used);
    var nFin := FinalDbSize(bt.g, nOrig, nFree);
    StartVacuum(bt, used, nFin);
    used', ren := VacuumLoop(bt, used, nFin);
    UsedClosed(bt.pages, bt.ptrmap, used');
    UsedFills(bt.g, bt.ptrmap, Free(bt.list), used', nFin);
    EmptyFile(bt.g, bt.autoVacuum, nFin, bt.pages);
    if nFree > 0 {
      bt.firstTrunk, bt.nFree, bt.list := 0, 0, [];
      bt.nPage := nFin;
    } else {
      NoTrunks(bt);
    }
    return VacOk, used', ren;
  }

  lemma NoTrunks(bt: BtShared)
    requires bt.Valid() && bt.nFree == 0
    ensures bt.firstTrunk == 0
  {
    EmptyList(bt.list);
  }

  lemma EmptyFile(g: Geometry, autoVacuum: bool, nPage: Pgno, pages: map<Pgno, Page>)
    ensures FileOk(g, autoVacuum, nPage, pages, 0, []) && |Free([])| == 0
  {
  }

  // ----- Incremental vacuum

  ghost predicate IsRoot(ptrmap: map<Pgno, PtrEntry>, p: Pgno) { p in ptrmap && ptrmap[p].kind.RootPage? }

  /** The same root pages are used before and after. */
  lemma RootsFirstKept(g: Geometry, ptrmap: map<Pgno, PtrEntry>, used: set<Pgno>, ptrmap': map<Pgno, PtrEntry>,
                       used': set<Pgno>)
    requires RootsFirst(g, ptrmap, used)
    requires forall t :: t in used' && t != 1 && IsRoot(ptrmap', t) ==> t in used && IsRoot(ptrmap, t)
    requires forall t :: t in used && t != 1 && IsRoot(ptrmap, t) ==> t in used' && IsRoot(ptrmap', t)
    ensures RootsFirst(g, ptrmap', used')
  {
    hide ContentSet;
    forall r, p | r in used' && r != 1 && r in ptrmap' && ptrmap'[r].kind.RootPage? && p in ContentSet(g, r) && p != 1
      ensures p in used' && p in ptrmap' && ptrmap'[p].kind.RootPage?
    {
      assert IsRoot(ptrmap', r) && IsRoot(ptrmap, r);
      assert IsRoot(ptrmap, p);
    }
  }

  /** What the pointer map and the freelist say of the last page. */
  lemma LastPage(bt: BtShared, used: set<Pgno>, nFin: Pgno)
    requires Ready(bt, used) && IsContent(bt.g, bt.nPage) && Vacuuming(bt, used, nFin, bt.nPage) && 1 <= nFin < bt.nPage
    ensures bt.nPage >= 3 && bt.nPage in bt.ptrmap && !bt.ptrmap[bt.nPage].kind.RootPage?
    ensures if bt.ptrmap[bt.nPage].kind.FreePage? then bt.nPage in Free(bt.list) && bt.nPage !in used
            else bt.nPage in used && Low(Free(bt.list), nFin) != {}
    ensures forall p :: p in used ==> p !in Free(bt.list)
    ensures forall p :: p in Free(bt.list) ==> p >= 2
  {
    hide FileOk, Free, WellFormed, RootsFirst;
    var x, free := bt.nPage, Free(bt.list);
    FreeAreContent(bt);
    NoContentOnPageTwo(bt.g);
    assert x in ContentSet(bt.g, x);
    if x in used {
      assert x in High(used, nFin);
    } else {
      assert x in Support(free);
    }
  }

  /** The loop at the end of incrVacuumStep: the content page before iLastPg. */
  method PreviousContent(g: Geometry, iLastPg: Pgno) returns (n: Pgno)
    requires g.Valid() && iLastPg >= 2
    ensures 1 <= n < iLastPg && IsContent(g, n) && forall p :: n < p < iLastPg ==> !IsContent(g, p)
  {
    n := iLastPg - 1;
    while n == g.pendingPage || IsPtrmapPage(g, n)
      invariant 1 <= n < iLastPg && forall p :: n < p < iLastPg ==> !IsContent(g, p)
      decreases n
    {
      assert n != 1;
      n := n - 1;
    }
  }

  lemma ContentSetStep(g: Geometry, n: Pgno, x: Pgno)
    requires 1 <= n < x && IsContent(g, x) && forall p :: n < p < x ==> !IsContent(g, p)
    ensures ContentSet(g, n) == ContentSet(g, x) - {x}
    ensures ContentCount(g, n) == ContentCount(g, x) - 1
  {
    hide IsContent;
    ContentSetSize(g, n);
    ContentSetSize(g, x);
    assert ContentSet(g, n) == ContentSet(g, x) - {x};
  }

  /** Take a page off the freelist; the pages in use do not notice. */
  method TakeFree(bt: BtShared, ghost used: set<Pgno>, nearby: Pgno, eMode: AllocMode) returns (pgno: Pgno)
    requires bt.Valid() && bt.autoVacuum && nearby > 0 && !eMode.Any?
    requires WellFormed(bt.pages, bt.ptrmap, used) && forall p :: p in used ==> p !in Free(bt.list)
    requires eMode.Exact? ==> nearby in Free(bt.list) && nearby in bt.ptrmap && bt.ptrmap[nearby].kind.FreePage?
    requires eMode.Le? ==> Low(Free(bt.list), nearby) != {}
    modifies bt`nPage, bt`firstTrunk, bt`nFree, bt`pages, bt`list
    ensures bt.Valid() && bt.nPage == old(bt.nPage) && bt.nFree == old(bt.nFree) - 1
    ensures if eMode.Exact? then pgno == nearby else pgno <= nearby
    ensures pgno in old(Free(bt.list)) && pgno !in Free(bt.list)
    ensures Support(Free(bt.list)) == old(Support(Free(bt.list))) - {pgno}
    ensures WellFormed(bt.pages, bt.ptrmap, used)
    ensures forall p :: p in used ==> p in old(bt.pages) && p in bt.pages && bt.pages[p] == old(bt.pages)[p]
  {
    hide Chain, Free, Allowed, PointsTo, PageOk, EntryOk, Abs;
    ghost var pages0, list0 := bt.pages, bt.list;
    ghost var x :| x in Free(list0) && x <= nearby;
    CountPositive(Free(list0), x);
    var rc;
    rc, pgno := bt.AllocateBtreePage(nearby, eMode);
    RemovedWasFree(pages0, list0, bt.pages, bt.list, pgno);
    OneLess(Free(list0), Free(bt.list), pgno, 0);
    WellFormedFrame(pages0, bt.ptrmap, used, bt.pages);
  }

  lemma CountPositive(m: multiset<Pgno>, x: Pgno)
    requires x in m
    ensures |m| > 0
  {
  }

  /** Lowering the page count past pages that are not on the list. */
  lemma ShrinkList(g: Geometry, autoVacuum: bool, nPage: Pgno, pages: map<Pgno, Page>, first: Pgno,
                   list: seq<TrunkRec>, n': Pgno)
    requires FileOk(g, autoVacuum, nPage, pages, first, list)
    requires forall p :: p in Free(list) ==> p <= n'
    ensures FileOk(g, autoVacuum, n', pages, first, list)
  {
    hide Allowed, Free;
  }

  /** sqlite3BtreeIncrVacuum: one step of an incremental vacuum.  Nothing happens when no page is
      free.  Otherwise the file ends one content page earlier, the freelist is one page shorter, and
      the page graph is the same up to the number of at most one page. */
  method IncrVacuum(bt: BtShared, ghost used: set<Pgno>)
    returns (rc: VacuumRc, ghost used': set<Pgno>, ghost ren: map<Pgno, Pgno>)
    requires Ready(bt, used) && IsContent(bt.g, bt.nPage)
    modifies bt
    ensures rc == if old(bt.nFree) == 0 then VacDone else VacOk
    ensures rc.VacDone? ==> unchanged(bt)
    ensures rc.VacOk? ==> Ready(bt, used') && IsContent(bt.g, bt.nPage)
    ensures rc.VacOk? ==>
              bt.nFree == old(bt.nFree) - 1 && ContentCount(bt.g, bt.nPage) == ContentCount(bt.g, old(bt.nPage)) - 1
    ensures rc.VacOk? ==> SameGraph(old(bt.pages), used, bt.pages, used', ren)
    ensures rc.VacOk? ==> forall p :: p in used && p < old(bt.nPage) ==> p in ren && ren[p] == p
  {
    hide IsPtrmapPage, FileOk, Free, WellFormed, SameGraph, Bookkeeping, ContentSet, RootsFirst, ContentCount, Support;
    used', ren := used, map[];
    if bt.nFree == 0 { return VacDone, used', ren; }
    var nOrig := bt.nPage;
    NotAllFree(bt, used);
    var nFin := FinalDbSize(bt.g, nOrig, bt.nFree);
    StartVacuum(bt, used, nFin);
    used', ren := IncrStep(bt, used, nFin);
    var n := PreviousContent(bt.g, nOrig);
    ContentSetStep(bt.g, n, nOrig);
    rc := VacOk;
    FreeBelow(bt.g, bt.autoVacuum, nOrig, n, bt.pages, bt.firstTrunk, bt.list, used');
    bt.nPage := n;
  }

  lemma FreeBelow(g: Geometry, autoVacuum: bool, nOrig: Pgno, n: Pgno, pages: map<Pgno, Page>, first: Pgno,
                  list: seq<TrunkRec>, used: set<Pgno>)
    requires FileOk(g, autoVacuum, nOrig, pages, first, list)
    requires Support(Free(list)) + used == ContentSet(g, nOrig) - {nOrig}
    requires ContentSet(g, n) == ContentSet(g, nOrig) - {nOrig}
    ensures FileOk(g, autoVacuum, n, pages, first, list)
  {
    hide Allowed, Free, IsContent, FileOk;
    forall p | p in Free(list) ensures p <= n {
      assert p in Support(Free(list));
      assert p in ContentSet(g, n);
    }
    ShrinkList(g, autoVacuum, nOrig, pages, first, list, n);
  }

  /** The body of incrVacuumStep without bCommit: page nPage is freed for good. */
  method IncrStep(bt: BtShared, ghost used: set<Pgno>, nFin: Pgno)
    returns (ghost used': set<Pgno>, ghost ren: map<Pgno, Pgno>)
    requires Ready(bt, used) && IsContent(bt.g, bt.nPage) && Vacuuming(bt, used, nFin, bt.nPage) && 1 <= nFin < bt.nPage
    modifies bt
    ensures bt.Valid() && bt.nPage == old(bt.nPage) && bt.nFree == old(bt.nFree) - 1 && 1 in used'
    ensures WellFormed(bt.pages, bt.ptrmap, used')
    ensures Support(Free(bt.list)) !! used' && Support(Free(bt.list)) + used' == ContentSet(bt.g, bt.nPage) - {bt.nPage}
    ensures forall p :: p in Free(bt.list) ==> p in bt.ptrmap && bt.ptrmap[p].kind.FreePage?
    ensures RootsFirst(bt.g, bt.ptrmap, used')
    ensures SameGraph(old(bt.pages), used, bt.pages, used', ren)
    ensures forall p :: p in used && p < bt.nPage ==> p in ren && ren[p] == p
  {
    hide IsContent, FileOk, Free, WellFormed, SameGraph, ContentSet, RootsFirst, ContentCount, Bookkeeping, Low;
    var iLastPg := bt.nPage;
    ghost var pages0, ptrmap0, free0 := bt.pages, bt.ptrmap, Free(bt.list);
    LastPage(bt, used, nFin);
    UsedClosed(pages0, ptrmap0, used);
    SameGraphReflexive(pages0, used);
    if bt.ptrmap[iLastPg].kind.FreePage? {
      var iFreePg := TakeFree(bt, used, iLastPg, AllocMode.Exact);
      used', ren := used, map p | p in used :: p;
      SameGraphTo(pages0, used, pages0, used, ren, bt.pages);
      forall p | p in Free(bt.list) ensures p in free0 { assert p in Support(Free(bt.list)); }
    } else {
      ghost var iFreePg;
      iFreePg, ren := IncrMove(bt, used, nFin);
      used' := used - {iLastPg} + {iFreePg};
    }
  }

  /** The last page is in use: swap it with a free page at or below nFin. */
  method IncrMove(bt: BtShared, ghost used: set<Pgno>, nFin: Pgno)
    returns (ghost iFreePg: Pgno, ghost ren: map<Pgno, Pgno>)
    requires bt.Valid() && bt.autoVacuum && WellFormed(bt.pages, bt.ptrmap, used) && RootsFirst(bt.g, bt.ptrmap, used)
    requires bt.nPage >= 3 && bt.nPage in used && !bt.ptrmap[bt.nPage].kind.RootPage?
    requires 1 <= nFin && Low(Free(bt.list), nFin) != {}
    requires forall p :: p in used ==> p !in Free(bt.list)
    requires forall p :: p in Free(bt.list) ==> p >= 2 && p in bt.ptrmap && bt.ptrmap[p].kind.FreePage?
    modifies bt
    ensures bt.Valid() && bt.nPage == old(bt.nPage) && bt.nFree == old(bt.nFree) - 1
    ensures iFreePg in old(Free(bt.list)) && WellFormed(bt.pages, bt.ptrmap, used - {bt.nPage} + {iFreePg})
    ensures Support(Free(bt.list)) == old(Support(Free(bt.list))) - {iFreePg}
    ensures forall p :: p in Free(bt.list) ==> p in bt.ptrmap && bt.ptrmap[p].kind.FreePage?
    ensures RootsFirst(bt.g, bt.ptrmap, used - {bt.nPage} + {iFreePg})
    ensures SameGraph(old(bt.pages), used, bt.pages, used - {bt.nPage} + {iFreePg}, ren)
    ensures forall p :: p in used && p < bt.nPage ==> p in ren && ren[p] == p
  {
    hide FileOk, Free, WellFormed, SameGraph, RootsFirst, Low;
    var iLastPg := bt.nPage;
    ghost var pages0, ptrmap0, free0 := bt.pages, bt.ptrmap, Free(bt.list);
    var pgno := TakeFree(bt, used, nFin, AllocMode.Le);
    forall p | p in Free(bt.list) ensures p in free0 { assert p in Support(Free(bt.list)); }
    var rc := MoveLastPage(bt, used, pages0, iLastPg, pgno);
    iFreePg, ren := pgno, Shift(used, iLastPg, pgno);
    RootsFirstKept(bt.g, ptrmap0, used, bt.ptrmap, used - {iLastPg} + {pgno});
  }

  lemma SameGraphTo(before: map<Pgno, Page>, used: set<Pgno>, after: map<Pgno, Page>, used': set<Pgno>,
                    ren: map<Pgno, Pgno>, after': map<Pgno, Page>)
    requires SameGraph(before, used, after, used', ren)
    requires forall p :: p in used' ==> p in after' && p in after && after'[p] == after[p]
    ensures SameGraph(before, used, after', used', ren)
  {
    hide Rename;
    assert forall p :: p in used ==> ren[p] in ren.Values;
  }
}
