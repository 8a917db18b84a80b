/** The pages of a database as a graph: who points to whom, how the pointer map records it, and what is
    kept when one page moves and the pointers to it follow. */
module PageGraph {
  import opened PointerMap
  import opened DbFile

  /** Page `page` stores a pointer of type k to page t. */
  ghost predicate PointsTo(page: Page, k: PtrType, t: Pgno) {
    match page
    case Node(leaf, cells, right) =>
      || (k.BtreePage? && !leaf && (right == t || exists i :: 0 <= i < |cells| && cells[i].child == t))
      || (k.Overflow1? && t != 0 && exists i :: 0 <= i < |cells| && cells[i].ovfl == t)
    case Ovfl(next, _) => k.Overflow2? && next == t && t != 0
    case _ => false
  }

  /** No page number occurs twice among the pointers of a page, and only leaves lack children. */
  ghost predicate PageOk(page: Page) {
    match page
    case Node(leaf, cells, right) =>
      && (forall i, j :: 0 <= i < j < |cells| && cells[i].ovfl != 0 ==> cells[i].ovfl != cells[j].ovfl)
      && (if leaf then right == 0 && forall i :: 0 <= i < |cells| ==> cells[i].child == 0
          else
            && right != 0
            && (forall i :: 0 <= i < |cells| ==> cells[i].child != 0 && cells[i].child != right)
            && (forall i, j :: 0 <= i < j < |cells| ==> cells[i].child != cells[j].child))
    case Ovfl(_, _) => true
    case _ => false
  }

  /** The pages in `used` form a graph whose every pointer is recorded, once, in the pointer map.
      Page 1 has no entry. */
  ghost predicate WellFormed(pages: map<Pgno, Page>, ptrmap: map<Pgno, PtrEntry>, used: set<Pgno>) {
    && (forall p :: p in used ==> p != 0 && p in pages && PageOk(pages[p]))
    && (forall p, k, t :: p in used && PointsTo(pages[p], k, t) ==>
          t in used && t != 1 && t != p && t in ptrmap && ptrmap[t] == PtrEntry(k, p))
    && (forall t :: t in used && t != 1 ==> t in ptrmap && EntryOk(pages, used, t, ptrmap[t]))
  }

  /** The entry e of page t: its type fits the page, and it names the page that points to t. */
  ghost predicate EntryOk(pages: map<Pgno, Page>, used: set<Pgno>, t: Pgno, e: PtrEntry)
  {
    && t in pages && !e.kind.FreePage?
    && (pages[t].Node? <==> e.kind.RootPage? || e.kind.BtreePage?)
    && (!e.kind.RootPage? ==> e.parent in used && e.parent in pages && PointsTo(pages[e.parent], e.kind, t))
  }

  // ----- Renaming pages

  /** Apply a renaming of pages; pages it does not mention keep their number. */
  function At(ren: map<Pgno, Pgno>, p: Pgno): Pgno { if p in ren then ren[p] else p }

  function RenameCell(c: Cell, ren: map<Pgno, Pgno>): Cell { Cell(c.payload, At(ren, c.child), At(ren, c.ovfl)) }

  /** The same page with every pointer renamed. */
  function Rename(page: Page, ren: map<Pgno, Pgno>): Page {
    match page
    case Node(leaf, cells, right) =>
      Node(leaf, seq(|cells|, i requires 0 <= i < |cells| => RenameCell(cells[i], ren)), At(ren, right))
    case Ovfl(next, bytes) => Ovfl(At(ren, next), bytes)
    case Trunk(_, _) => page
    case Blank => page
  }

  /** `after` holds the page graph of `before`, with page p stored at ren[p] and all pointers adjusted. */
  ghost predicate SameGraph(before: map<Pgno, Page>, used: set<Pgno>, after: map<Pgno, Page>, used': set<Pgno>,
                            ren: map<Pgno, Pgno>) {
    && ren.Keys == used && ren.Values == used'
    && (forall p, q :: p in used && q in used && ren[p] == ren[q] ==> p == q)
    && (forall p :: p in used ==> p in before && ren[p] in after && after[ren[p]] == Rename(before[p], ren))
  }

  /** Doing one renaming after another. */
  ghost function Compose(ren: map<Pgno, Pgno>, ren': map<Pgno, Pgno>): map<Pgno, Pgno> {
    map p | p in ren :: At(ren', ren[p])
  }

  /** Every pointer of a used page leads to a used page (or is 0). */
  ghost predicate Closed(page: Page, used: set<Pgno>) {
    forall k, t :: PointsTo(page, k, t) ==> t in used
  }

  /** On pages whose pointers stay inside the domain, composed renaming is renaming twice. */
  lemma RenameTwice(page: Page, used: set<Pgno>, ren: map<Pgno, Pgno>, ren': map<Pgno, Pgno>)
    requires PageOk(page) && Closed(page, used) && ren.Keys == used && 0 !in used && 0 !in ren'
    ensures Rename(Rename(page, ren), ren') == Rename(page, Compose(ren, ren'))
  {
    var both := Compose(ren, ren');
    match page
    case Node(leaf, cells, right) =>
      forall i | 0 <= i < |cells|
        ensures RenameCell(RenameCell(cells[i], ren), ren') == RenameCell(cells[i], both)
      {
        if !leaf { assert PointsTo(page, BtreePage, cells[i].child); }
        if cells[i].ovfl != 0 { assert PointsTo(page, Overflow1, cells[i].ovfl); }
      }
      if !leaf { assert PointsTo(page, BtreePage, right); }
    case Ovfl(next, _) =>
      if next != 0 { assert PointsTo(page, Overflow2, next); }
  }

  lemma SameGraphTransitive(a: map<Pgno, Page>, ua: set<Pgno>, b: map<Pgno, Page>, ub: set<Pgno>, c: map<Pgno, Page>,
                            uc: set<Pgno>, ren: map<Pgno, Pgno>, ren': map<Pgno, Pgno>)
    requires SameGraph(a, ua, b, ub, ren) && SameGraph(b, ub, c, uc, ren')
    requires 0 !in ua && 0 !in ub && forall p :: p in ua ==> PageOk(a[p]) && Closed(a[p], ua)
    ensures SameGraph(a, ua, c, uc, Compose(ren, ren'))
  {
    var both := Compose(ren, ren');
    assert forall p :: p in ua ==> ren[p] in ren.Values;
    assert forall p :: p in ua ==> both[p] == ren'[ren[p]];
    forall q ensures q in both.Values <==> q in uc {
      if q in uc {
        var r :| r in ren' && ren'[r] == q;
        assert r in ren.Values;
        var p :| p in ren && ren[p] == r;
        assert both[p] == q;
      }
      if q in both.Values {
        var p :| p in both && both[p] == q;
        assert ren[p] in ren'.Keys;
      }
    }
    forall p | p in ua
      ensures both[p] in c && c[both[p]] == Rename(a[p], both)
    {
      RenameTwice(a[p], ua, ren, ren');
    }
  }

  lemma SameGraphReflexive(a: map<Pgno, Page>, used: set<Pgno>)
    requires forall p :: p in used ==> p in a && PageOk(a[p])
    ensures SameGraph(a, used, a, used, map p | p in used :: p)
  {
    var id := map p | p in used :: p;
    forall q ensures q in id.Values <==> q in used {
      if q in used { assert id[q] == q; }
    }
    forall p | p in used ensures Rename(a[p], id) == a[p] {
      match a[p]
      case Node(leaf, cells, right) => assert Rename(a[p], id).cells == cells;
      case Ovfl(_, _) =>
    }
  }

  // ----- Moving one page

  /** The renaming that moves page x to page y. */
  ghost function Shift(used: set<Pgno>, x: Pgno, y: Pgno): map<Pgno, Pgno> {
    map p | p in used :: if p == x then y else p
  }

  lemma RenameByShift(page: Page, used: set<Pgno>, x: Pgno, y: Pgno)
    requires x in used && PageOk(page)
    ensures Rename(page, Shift(used, x, y)) == Rename(page, map[x := y])
  {
    match page
    case Node(leaf, cells, right) =>
      assert Rename(page, Shift(used, x, y)).cells == Rename(page, map[x := y]).cells;
    case Ovfl(_, _) =>
  }

  /** What a page points to after x was renamed to y, a page it did not point to before. */
  lemma RenamePoints(page: Page, x: Pgno, y: Pgno, k: PtrType, t: Pgno)
    requires PageOk(page) && x != 0 && y != 0
    requires forall k' :: !PointsTo(page, k', y)
    ensures PointsTo(Rename(page, map[x := y]), k, t) <==>
              if t == y then PointsTo(page, k, x) else t != x && PointsTo(page, k, t)
  {
    var page' := Rename(page, map[x := y]);
    match page
    case Node(leaf, cells, right) =>
      assert !PointsTo(page, BtreePage, y) && !PointsTo(page, Overflow1, y);
      forall i | 0 <= i < |cells| ensures page'.cells[i] == RenameCell(cells[i], map[x := y]) { }
      var s := if t == y then x else t;
      if PointsTo(page, k, s) && (t == y || t != x) {
        if i :| 0 <= i < |cells| && (if k.BtreePage? then cells[i].child == s else cells[i].ovfl == s) {
          assert page'.cells[i] == RenameCell(cells[i], map[x := y]);
        }
      }
    case Ovfl(_, _) => assert !PointsTo(page, Overflow2, y);
  }

  lemma RenameKeepsPageOk(page: Page, x: Pgno, y: Pgno)
    requires PageOk(page) && x != 0 && y != 0
    requires forall k' :: !PointsTo(page, k', y)
    ensures PageOk(Rename(page, map[x := y]))
  {
    match page
    case Node(leaf, cells, right) =>
      assert !PointsTo(page, BtreePage, y) && !PointsTo(page, Overflow1, y);
    case Ovfl(_, _) =>
  }

  /** A page that does not point to x is not affected when x moves. */
  lemma RenameUnaffected(page: Page, x: Pgno, y: Pgno)
    requires PageOk(page) && x != 0 && forall k' :: !PointsTo(page, k', x)
    ensures Rename(page, map[x := y]) == page
  {
    match page
    case Node(leaf, cells, right) =>
      assert !PointsTo(page, BtreePage, x) && !PointsTo(page, Overflow1, x);
      assert Rename(page, map[x := y]).cells == cells;
    case Ovfl(_, _) => assert !PointsTo(page, Overflow2, x);
  }

  /** The entry of a page after page x moved to y. */
  function MovedEntry(e: PtrEntry, x: Pgno, y: Pgno): PtrEntry {
    if !e.kind.RootPage? && e.parent == x then PtrEntry(e.kind, y) else e
  }

  /** What relocatePage must achieve. */
  ghost predicate Moved(pages: map<Pgno, Page>, ptrmap: map<Pgno, PtrEntry>, used: set<Pgno>, x: Pgno, y: Pgno,
                        pages': map<Pgno, Page>, ptrmap': map<Pgno, PtrEntry>)
    requires x in pages && x in ptrmap
  {
    && (forall p :: p in used && p != x && p in pages ==> p in pages' && pages'[p] == Rename(pages[p], map[x := y]))
    && y in pages' && pages'[y] == pages[x]
    && y in ptrmap' && ptrmap'[y] == ptrmap[x]
    && (forall t ::
         t in used && t != 1 && t != x && t in ptrmap ==> t in ptrmap' && ptrmap'[t] == MovedEntry(ptrmap[t], x, y))
  }

  /** Moving a page keeps the graph, up to the new number, and keeps the pointer map its exact inverse. */
  lemma MoveKeepsGraph(pages: map<Pgno, Page>, ptrmap: map<Pgno, PtrEntry>, used: set<Pgno>, x: Pgno, y: Pgno,
                       pages': map<Pgno, Page>, ptrmap': map<Pgno, PtrEntry>)
    requires WellFormed(pages, ptrmap, used)
    requires x in used && x != 1 && !ptrmap[x].kind.RootPage? && y !in used && y > 1
    requires Moved(pages, ptrmap, used, x, y, pages', ptrmap')
    ensures WellFormed(pages', ptrmap', used - {x} + {y})
    ensures SameGraph(pages, used, pages', used - {x} + {y}, Shift(used, x, y))
  {
    var used' := used - {x} + {y};
    forall p | p in used
      ensures PageOk(pages[p]) && forall k :: !PointsTo(pages[p], k, y)
    {
    }
    assert forall k :: !PointsTo(pages[x], k, x);
    RenameUnaffected(pages[x], x, y);
    assert forall p :: p in used ==> pages'[if p == x then y else p] == Rename(pages[p], map[x := y]);
    forall p | p in used' ensures p != 0 && p in pages' && PageOk(pages'[p]) {
      RenameKeepsPageOk(pages[if p == y then x else p], x, y);
    }
    forall p, k, t | p in used' && PointsTo(pages'[p], k, t)
      ensures t in used' && t != 1 && t != p && t in ptrmap' && ptrmap'[t] == PtrEntry(k, p)
    {
      var p0, t0 := if p == y then x else p, if t == y then x else t;
      RenamePoints(pages[p0], x, y, k, t);
      assert PointsTo(pages[p0], k, t0);
    }
    forall t | t in used' && t != 1 ensures t in ptrmap' && EntryOk(pages', used', t, ptrmap'[t]) {
      var t0 := if t == y then x else t;
      var e := ptrmap[t0];
      assert EntryOk(pages, used, t0, e);
      if !e.kind.RootPage? {
        assert PointsTo(pages[e.parent], e.kind, t0);
        RenamePoints(pages[e.parent], x, y, e.kind, t);
      }
    }
    MoveIsSameGraph(pages, used, x, y, pages');
  }

  lemma MoveIsSameGraph(pages: map<Pgno, Page>, used: set<Pgno>, x: Pgno, y: Pgno, pages': map<Pgno, Page>)
    requires x in used && y !in used
    requires forall p :: p in used ==> p in pages && PageOk(pages[p])
    requires forall p ::
               p in used ==>
                 (if p == x then y else p) in pages' && pages'[if p == x then y else p] == Rename(pages[p], map[x := y])
    ensures SameGraph(pages, used, pages', used - {x} + {y}, Shift(used, x, y))
  {
    var ren := Shift(used, x, y);
    forall q ensures q in ren.Values <==> q in used - {x} + {y} {
      if q in used - {x} + {y} {
        var p := if q == y then x else q;
        assert ren[p] == q;
      }
    }
    forall p | p in used ensures ren[p] in pages' && pages'[ren[p]] == Rename(pages[p], ren) {
      RenameByShift(pages[p], used, x, y);
    }
  }
}
