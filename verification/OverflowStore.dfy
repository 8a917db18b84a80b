/** Overflow payload and the page allocator: a chain is built from pages that the allocator hands out and
    given back page by page, and the freelist and the pointer map stay right. */
module OverflowStore {
  import opened Arith
  import opened ByteTypes
  import opened PointerMap
  import opened DbFile
  import opened Freelist
  import opened OverflowChain

  // ----- The file around a chain

  /** What the database file holds at one moment. */
  datatype FileState = FileState(nPage: Pgno, pages: Pages, list: seq<TrunkRec>, ptrmap: PtrMap)

  ghost function StateOf(bt: BtShared): FileState
    reads bt
  {
    FileState(bt.nPage, bt.pages, bt.list, bt.ptrmap)
  }

  ghost function Elems(chain: seq<Pgno>): set<Pgno> { set p | p in chain }

  /** Pages in use are in the file and not on the freelist. */
  ghost predicate UsedOk(f: FileState, used: set<Pgno>) { forall p :: p in used ==> p <= f.nPage && p !in Free(f.list) }

  /** The pages of a chain: not in use for anything else, not free, and such as the file hands out. */
  ghost predicate ChainApart(bt: BtShared, f: FileState, used: set<Pgno>, chain: seq<Pgno>) {
    forall i :: 0 <= i < |chain| ==>
      chain[i] !in used && chain[i] <= f.nPage && chain[i] !in Free(f.list) && Allowed(bt.g, bt.autoVacuum, chain[i])
  }

  ghost predicate Kept(pages: Pages, pages': Pages, used: set<Pgno>) {
    forall p :: p in used ==> (p in pages' <==> p in pages) && (p in pages ==> pages'[p] == pages[p])
  }

  /** A page has been allocated: one of the freelist, or one at the end of the file if there is none. */
  ghost predicate Allocated(f: FileState, f': FileState, pg: Pgno) {
    && pg <= f'.nPage && pg !in Free(f'.list) && f'.ptrmap == f.ptrmap
    && if Free(f.list) == multiset{}
       then f'.nPage == pg > f.nPage && Free(f'.list) == multiset{} && SamePrefix(f.pages, f'.pages, f.nPage)
       else f'.nPage == f.nPage && Removed(f.pages, f.list, f'.pages, f'.list, pg)
  }

  /** The pages of a chain have been taken from the file f0: the first t of them off the freelist, and when
      that was empty the others from beyond the end of the file. */
  ghost predicate Taken(bt: BtShared, f0: FileState, f: FileState, used: set<Pgno>, chain: seq<Pgno>, t: nat) {
    && t <= |chain| && Free(f0.list) == Free(f.list) + multiset(chain[..t])
       && (t < |chain| ==> Free(f.list) == multiset{})
    && f0.nPage <= f.nPage && (t == |chain| ==> f.nPage == f0.nPage)
       && (forall i :: t <= i < |chain| ==> f0.nPage < chain[i])
    && Kept(f0.pages, f.pages, used) && UsedOk(f, used) && ChainApart(bt, f, used, chain) && NoRepeat(chain)
  }

  lemma TakenNone(bt: BtShared, f: FileState, used: set<Pgno>)
    requires UsedOk(f, used)
    ensures Taken(bt, f, f, used, [], 0)
  {
  }

  lemma TakenNext(bt: BtShared, f0: FileState, f: FileState, f': FileState, used: set<Pgno>, chain: seq<Pgno>, t: nat,
                  pg: Pgno)
    requires Taken(bt, f0, f, used, chain, t) && Allocated(f, f', pg) && Allowed(bt.g, bt.autoVacuum, pg)
    ensures Taken(bt, f0, f', used, chain + [pg], if Free(f.list) == multiset{} then t else t + 1)
    ensures pg !in chain && pg !in used && pg != 0 && Kept(f.pages, f'.pages, used + Elems(chain))
  {
    hide Free, Allowed, Taken, Allocated, Kept, Elems;
    AllowedIsLarge(bt, pg);
    AllocatedApart(bt, f0, f, f', used, chain, t, pg);
    if Free(f.list) == multiset{} {
      TakenBeyond(bt, f0, f, f', used, chain, t, pg);
    } else {
      TakenFree(bt, f0, f, f', used, chain, t, pg);
    }
  }

  /** An allocation leaves the pages in use and those of the chain alone. */
  lemma AllocatedApart(bt: BtShared, f0: FileState, f: FileState, f': FileState, used: set<Pgno>, chain: seq<Pgno>,
                       t: nat, pg: Pgno)
    requires Taken(bt, f0, f, used, chain, t) && Allocated(f, f', pg)
    ensures pg !in chain && pg !in used && Kept(f.pages, f'.pages, used + Elems(chain)) && f.nPage <= f'.nPage
    ensures forall p :: p in Free(f'.list) ==> p in Free(f.list)
  {
    hide Free, Allowed;
    if Free(f.list) != multiset{} { RemovedWasFree(f.pages, f.list, f'.pages, f'.list, pg); }
  }

  lemma TakenFree(bt: BtShared, f0: FileState, f: FileState, f': FileState, used: set<Pgno>, chain: seq<Pgno>, t: nat,
                  pg: Pgno)
    requires Taken(bt, f0, f, used, chain, t) && Allocated(f, f', pg) && Allowed(bt.g, bt.autoVacuum, pg)
             && Free(f.list) != multiset{}
    requires pg !in chain && pg !in used && Kept(f.pages, f'.pages, used + Elems(chain))
             && forall p :: p in Free(f'.list) ==> p in Free(f.list)
    ensures Taken(bt, f0, f', used, chain + [pg], t + 1)
  {
    hide Free, Allowed, SameOutside;
    RemovedWasFree(f.pages, f.list, f'.pages, f'.list, pg);
    assert Free(f.list) == Free(f'.list) + multiset{pg};
    assert t == |chain| && (chain + [pg])[..t + 1] == chain[..t] + [pg];
  }

  lemma TakenBeyond(bt: BtShared, f0: FileState, f: FileState, f': FileState, used: set<Pgno>, chain: seq<Pgno>,
                    t: nat, pg: Pgno)
    requires Taken(bt, f0, f, used, chain, t) && Allocated(f, f', pg) && Allowed(bt.g, bt.autoVacuum, pg)
             && Free(f.list) == multiset{}
    requires pg !in chain && pg !in used && Kept(f.pages, f'.pages, used + Elems(chain)) && f.nPage <= f'.nPage
    ensures Taken(bt, f0, f', used, chain + [pg], t)
  {
    hide Free, Allowed, SamePrefix;
    assert (chain + [pg])[..t] == chain[..t];
  }

  lemma AllowedIsLarge(bt: BtShared, pg: Pgno)
    requires Allowed(bt.g, bt.autoVacuum, pg)
    ensures pg >= 2
  {
  }

  /** Writing on the pages of a chain. */
  lemma TakenWrite(bt: BtShared, f0: FileState, f: FileState, f': FileState, used: set<Pgno>, chain: seq<Pgno>, t: nat)
    requires Taken(bt, f0, f, used, chain, t) && f'.nPage == f.nPage && f'.list == f.list
             && OthersSame(f.pages, f'.pages, chain)
    ensures Taken(bt, f0, f', used, chain, t)
  {
    hide Free, Allowed;
  }

  /** Writing on pages that are not free does not disturb the freelist. */
  lemma ListKept(g: Geometry, auto: bool, nPage: Pgno, pages: Pages, pages': Pages, first: Pgno, list: seq<TrunkRec>,
                 chain: seq<Pgno>)
    requires FileOk(g, auto, nPage, pages, first, list) && OthersSame(pages, pages', chain)
             && forall i :: 0 <= i < |chain| ==> chain[i] !in Free(list)
    ensures FileOk(g, auto, nPage, pages', first, list)
  {
    hide ListOk, Free;
    forall i | 0 <= i < |list| && list[i].pgno in pages
        ensures list[i].pgno in pages' && pages'[list[i].pgno] == pages[list[i].pgno] {
      ListedTrunk(list, i);
    }
    ChainFrame(pages, pages', first, list);
  }

  // ----- The pointer map of a chain

  /** The entries of a chain: the first page waits for the number of the B-tree page, the others name their
      predecessors. */
  ghost predicate Recorded(ptrmap: PtrMap, chain: seq<nat>) {
    && (chain != [] ==> chain[0] in ptrmap && ptrmap[chain[0]] == PtrEntry(Overflow1, 0))
    && (forall i :: 0 < i < |chain| ==> chain[i] in ptrmap && ptrmap[chain[i]] == PtrEntry(Overflow2, chain[i - 1]))
  }

  /** Entries of other pages. */
  ghost predicate MapSame(ptrmap: PtrMap, ptrmap': PtrMap, chain: seq<nat>) {
    (forall p :: p in ptrmap && p !in chain ==> p in ptrmap' && ptrmap'[p] == ptrmap[p])
        && (forall p :: p in ptrmap' && p !in chain ==> p in ptrmap)
  }

  /** Entries of the second kind name pages in use. */
  ghost predicate ParentsIn(ptrmap: PtrMap, used: set<Pgno>) {
    forall q :: q in ptrmap && ptrmap[q].kind.Overflow2? ==> ptrmap[q].parent in used
  }

  /** The pointer map of an auto-vacuum database in which the pages of used are in use. */
  ghost predicate MapRight(auto: bool, pages: Pages, ptrmap: PtrMap, used: set<Pgno>) {
    auto ==> MapExact(pages, ptrmap) && ParentsIn(ptrmap, used)
  }

  /** What fillInCell keeps of the pointer map. */
  ghost predicate MapState(auto: bool, pages: Pages, ptrmap0: PtrMap, ptrmap: PtrMap, chain: seq<Pgno>,
                           used: set<Pgno>) {
    MapSame(ptrmap0, ptrmap, chain) && MapRight(auto, pages, ptrmap, used + Elems(chain))
        && (auto ==> Recorded(ptrmap, chain))
  }

  lemma MapWrite(auto: bool, pages: Pages, ptrmap0: PtrMap, ptrmap: PtrMap, chain: seq<Pgno>, used: set<Pgno>,
                 pg: Pgno, p: Page)
    requires MapState(auto, pages, ptrmap0, ptrmap, chain, used) && pg in pages && pages[pg].Ovfl? && p.Ovfl?
             && p.nextOvfl == pages[pg].nextOvfl
    ensures MapState(auto, pages[pg := p], ptrmap0, ptrmap, chain, used)
  {
  }

  /** Pages that are not in use may change. */
  lemma MapKept(auto: bool, pages: Pages, pages': Pages, ptrmap: PtrMap, used: set<Pgno>)
    requires MapRight(auto, pages, ptrmap, used) && Kept(pages, pages', used)
    ensures MapRight(auto, pages', ptrmap, used)
  {
  }

  lemma MapGrow(auto: bool, pages: Pages, ptrmap0: PtrMap, ptrmap: PtrMap, chain: seq<Pgno>, used: set<Pgno>,
                last: Pgno, pg: Pgno, p: Page, pages1: Pages, ptrmap1: PtrMap)
    requires MapState(auto, pages, ptrmap0, ptrmap, chain, used) && pg != 0 && pg !in chain && pg !in used
    requires last == LastPage(chain) && (last == 0 ==> chain == []) && (last != 0 ==> LinksTo(pages, last, 0))
    requires pages1 == (if last == 0 then pages else pages[last := pages[last].(nextOvfl := pg)])[pg := p] && p.Ovfl?
    requires ptrmap1 == if auto then ptrmap[pg := PtrEntry(if last == 0 then Overflow1 else Overflow2, last)]
             else ptrmap
    ensures MapState(auto, pages1, ptrmap0, ptrmap1, chain + [pg], used)
  {
    if auto {
      forall q | q in ptrmap1 && ptrmap1[q].kind.Overflow2?
        ensures q != 0 && LinksTo(pages1, ptrmap1[q].parent, q) && ptrmap1[q].parent in used + Elems(chain + [pg])
      {
        if q != pg { assert LinksTo(pages, ptrmap[q].parent, q); } else { assert last in chain; }
      }
      RecordedGrow(ptrmap, chain, last, pg);
    }
  }

  lemma RecordedGrow(ptrmap: PtrMap, chain: seq<nat>, last: nat, pg: nat)
    requires Recorded(ptrmap, chain) && pg !in chain
    requires last == LastPage(chain) && (last == 0 ==> chain == [])
    ensures Recorded(ptrmap[pg := PtrEntry(if last == 0 then Overflow1 else Overflow2, last)], chain + [pg])
  {
    var chain' := chain + [pg];
    forall i | 0 <= i < |chain| ensures chain'[i] == chain[i] != pg {}
    assert chain != [] ==> chain'[|chain| - 1] == last;
  }

  // ----- Storing a payload

  /** Where fillInCell stands: the chain so far holds the first at bytes of the payload, and it has been taken
      from the file. */
  ghost predicate FillState(bt: BtShared, size: nat, f0: FileState, f: FileState, used: set<Pgno>, local: seq<byte>,
                            first: Pgno, chain: seq<Pgno>, t: nat, payload: seq<byte>, at: nat, nLocal: nat,
                            spaceLeft: nat) {
    && Filled(f.pages, size, local, first, chain, payload, at, nLocal, spaceLeft) && Taken(bt, f0, f, used, chain, t)
    && MapState(bt.autoVacuum, f.pages, f0.ptrmap, f.ptrmap, chain, used) && (LastPage(chain) == 0 ==> chain == [])
  }

  /** n is the first page after pgno that can hold content. */
  ghost predicate NextTo(g: Geometry, pgno: Pgno, n: Pgno) {
    && n > pgno && n != g.pendingPage && !IsPtrmapPage(g, n)
    && forall p :: pgno < p < n ==> IsPtrmapPage(g, p) || p == g.pendingPage
  }

  /** The page comes from the first trunk, if there is one, and there from the place closest to the page after
      last; without auto-vacuum, to last itself. */
  ghost predicate TakenNear(bt: BtShared, list: seq<TrunkRec>, last: Pgno, pg: Pgno) {
    exists nearby :: Near(bt, last, nearby) && (list != [] ==> FromFirst(list[0], nearby, pg))
  }

  ghost predicate Near(bt: BtShared, last: Pgno, nearby: Pgno) {
    if bt.autoVacuum then NextTo(bt.g, last, nearby) else nearby == last
  }

  lemma NearIs(bt: BtShared, list: seq<TrunkRec>, last: Pgno, nearby: Pgno, pg: Pgno)
    requires if bt.autoVacuum then NextTo(bt.g, last, nearby) else nearby == last
    requires list != [] ==> FromFirst(list[0], nearby, pg)
    ensures TakenNear(bt, list, last, pg)
  {
    hide NextTo, FromFirst;
    assert Near(bt, last, nearby);
  }

  /** The page after pgno that can hold content. */
  method NextContent(g: Geometry, pgno: Pgno) returns (n: Pgno)
    requires g.Valid()
    ensures NextTo(g, pgno, n)
  {
    hide IsPtrmapPage;
    n := pgno + 1;
    ghost var w := ContentAhead(g, n);
    while IsPtrmapPage(g, n) || n == g.pendingPage
      invariant pgno < n <= w && forall p :: pgno < p < n ==> IsPtrmapPage(g, p) || p == g.pendingPage
      decreases w - n
    {
      n := n + 1;
    }
  }

  lemma ContentAhead(g: Geometry, n: Pgno) returns (w: Pgno)
    requires g.Valid() && n >= 1
    ensures w >= n && w != g.pendingPage && !IsPtrmapPage(g, w)
  {
    assert !IsPtrmapPage(g, 1);
    hide IsPtrmapPage;
    w := n;
    if IsPtrmapPage(g, n) {
      PtrmapPagesAreSparse(g, n, 1);
      PtrmapPagesAreSparse(g, n, 2);
      w := if n + 1 == g.pendingPage then n + 2 else n + 1;
    } else if n == g.pendingPage {
      if IsPtrmapPage(g, n + 1) {
        PtrmapPagesAreSparse(g, n + 1, 1);
        w := n + 2;
      } else {
        w := n + 1;
      }
    }
  }

  /** Allocates a page near another one. */
  method TakePage(bt: BtShared, nearby: Pgno) returns (pg: Pgno)
    requires bt.Valid()
    modifies bt`nPage, bt`firstTrunk, bt`nFree, bt`pages, bt`list
    ensures bt.Valid() && Allocated(old(StateOf(bt)), StateOf(bt), pg) && Allowed(bt.g, bt.autoVacuum, pg)
    ensures old(bt.list) != [] ==> FromFirst(old(bt.list[0]), nearby, pg)
  {
    hide FileOk, SamePrefix, Removed, Abs, Free, Allowed, Allocated, FromFirst;
    EmptyList(bt.list);
    ghost var f := StateOf(bt);
    FreeRange(bt);
    var rc;
    rc, pg := bt.AllocateBtreePage(nearby, AllocMode.Any);
    FreeRange(bt);
    FreshPage(bt.g, bt.autoVacuum, f, StateOf(bt), pg);
  }

  /** Writes part of a payload on a page of a chain. */
  method WritePiece(bt: BtShared, pg: Pgno, at: nat, piece: seq<byte>, ghost chain: seq<Pgno>)
    requires bt.Valid() && pg in bt.pages && bt.pages[pg].Ovfl? && at + |piece| <= |bt.pages[pg].bytes|
    requires pg in chain && forall i :: 0 <= i < |chain| ==> chain[i] !in Free(bt.list)
    modifies bt`pages
    ensures bt.Valid() && var p := old(bt.pages)[pg];
            bt.pages == old(bt.pages)[pg := p.(bytes := Overwrite(p.bytes, at, piece))]
  {
    hide FileOk, Overwrite, Free;
    ghost var pages0 := bt.pages;
    bt.pages := bt.pages[pg := bt.pages[pg].(bytes := Overwrite(bt.pages[pg].bytes, at, piece))];
    ListKept(bt.g, bt.autoVacuum, bt.nPage, pages0, bt.pages, bt.firstTrunk, bt.list, chain);
  }

  /** Adds an empty page to a chain whose last page, last, is full.  What the new page held before, blank(pg),
      stays there until it is overwritten. */
  method AddOverflowPage(bt: BtShared, size: nat, blank: Pgno -> seq<byte>, last: Pgno, first: Pgno,
                         ghost f0: FileState, ghost used: set<Pgno>, ghost local: seq<byte>, ghost chain: seq<Pgno>,
                         ghost t: nat, ghost payload: seq<byte>, ghost at: nat, ghost nLocal: nat)
    returns (pg: Pgno, first': Pgno, ghost t': nat)
    requires bt.Valid() && last == LastPage(chain) && forall p :: |blank(p)| == size
    requires FillState(bt, size, f0, StateOf(bt), used, local, first, chain, t, payload, at, nLocal, 0)
    modifies bt`nPage, bt`firstTrunk, bt`nFree, bt`pages, bt`list, bt`ptrmap
    ensures bt.Valid() && pg == LastPage(chain + [pg]) != 0
    ensures FillState(bt, size, f0, StateOf(bt), used, local, first', chain + [pg], t', payload, at, nLocal, size)
    ensures TakenNear(bt, old(bt.list), last, pg)
  {
    hide FileOk, Filled, Taken, MapState, Allocated, UsedOk, ChainApart, Kept, OthersSame, Allowed, Free, NextTo,
      FromFirst, TakenNear;
    ghost var f := StateOf(bt);
    var nearby := last;
    if bt.autoVacuum { nearby := NextContent(bt.g, last); }
    pg := TakePage(bt, nearby);
    NearIs(bt, f.list, last, nearby, pg);
    ghost var f1 := StateOf(bt);
    t' := if Free(f.list) == multiset{} then t else t + 1;
    TakenNext(bt, f0, f, f1, used, chain, t, pg);
    FillKept(bt, size, f0, f, f1, used, local, first, chain, payload, at, nLocal, 0);
    FilledLast(f1.pages, size, local, first, chain, payload, at, nLocal, 0);
    if bt.autoVacuum { bt.ptrmap := bt.ptrmap[pg := PtrEntry(if last == 0 then Overflow1 else Overflow2, last)]; }
    first' := if last == 0 then pg else first;
    if last != 0 { bt.pages := bt.pages[last := bt.pages[last].(nextOvfl := pg)]; }
    bt.pages := bt.pages[pg := Ovfl(0, blank(pg))];
    FilledGrow(f1.pages, size, local, first, chain, payload, at, nLocal, pg, Ovfl(0, blank(pg)));
    MapGrow(bt.autoVacuum, f1.pages, f0.ptrmap, f1.ptrmap, chain, used, last, pg, Ovfl(0, blank(pg)), bt.pages,
        bt.ptrmap);
    OnlyChain(f1.pages, bt.pages, chain, last, pg);
    TakenWrite(bt, f0, f1, StateOf(bt), used, chain + [pg], t');
    TakenApart(bt, f0, f1, used, chain + [pg], t');
    ListKept(bt.g, bt.autoVacuum, bt.nPage, f1.pages, bt.pages, bt.firstTrunk, bt.list, chain + [pg]);
  }

  lemma OnlyChain(pages: Pages, pages': Pages, chain: seq<Pgno>, last: Pgno, pg: Pgno)
    requires last == LastPage(chain) && (last == 0 ==> chain == [])
             && (last != 0 ==> last in pages && pages[last].Ovfl?) && pg in pages'
    requires pages' == (if last == 0 then pages else pages[last := pages[last].(nextOvfl := pg)])[pg := pages'[pg]]
    ensures OthersSame(pages, pages', chain + [pg])
  {
    if last != 0 { assert (chain + [pg])[|chain| - 1] == last; }
    assert (chain + [pg])[|chain|] == pg;
  }

  lemma TakenApart(bt: BtShared, f0: FileState, f: FileState, used: set<Pgno>, chain: seq<Pgno>, t: nat)
    requires Taken(bt, f0, f, used, chain, t)
    ensures UsedOk(f, used) && ChainApart(bt, f, used, chain)
            && forall i :: 0 <= i < |chain| ==> chain[i] !in Free(f.list)
  {
    hide Free, Allowed;
  }

  /** What an allocation leaves as it was. */
  lemma FillKept(bt: BtShared, size: nat, f0: FileState, f: FileState, f1: FileState, used: set<Pgno>,
                 local: seq<byte>, first: Pgno, chain: seq<Pgno>, payload: seq<byte>, at: nat, nLocal: nat,
                 spaceLeft: nat)
    requires Filled(f.pages, size, local, first, chain, payload, at, nLocal, spaceLeft)
             && Kept(f.pages, f1.pages, used + Elems(chain))
    requires MapState(bt.autoVacuum, f.pages, f0.ptrmap, f.ptrmap, chain, used) && f1.ptrmap == f.ptrmap
    ensures Filled(f1.pages, size, local, first, chain, payload, at, nLocal, spaceLeft)
    ensures MapState(bt.autoVacuum, f1.pages, f0.ptrmap, f1.ptrmap, chain, used)
  {
    hide MapExact, ParentsIn, Partial, Used, Kept;
    MapKept(bt.autoVacuum, f.pages, f1.pages, f.ptrmap, used + Elems(chain));
    if chain != [] { PartialKept(f.pages, f1.pages, size, chain, payload[nLocal..at], used + Elems(chain)); }
  }

  lemma {:induction false} PartialKept(pages: Pages, pages': Pages, size: nat, chain: seq<Pgno>, rest: seq<byte>,
                                       used: set<Pgno>)
    requires Partial(pages, size, chain, rest) && Kept(pages, pages', used)
             && forall i :: 0 <= i < |chain| ==> chain[i] in used
    ensures Partial(pages', size, chain, rest)
    decreases chain
  {
    if |chain| > 1 { PartialKept(pages, pages', size, chain[1..], rest[size..], used); }
  }

  lemma FreeRange(bt: BtShared)
    requires bt.Valid()
    ensures Distinct(Free(bt.list))
            && forall p :: p in Free(bt.list) ==> p <= bt.nPage && Allowed(bt.g, bt.autoVacuum, p)
    ensures bt.nFree == 0 <==> Free(bt.list) == multiset{}
  {
    hide Chain, Free, Allowed;
  }

  lemma FreshPage(g: Geometry, auto: bool, f: FileState, f': FileState, pg: Pgno)
    requires Distinct(Free(f.list)) && f'.ptrmap == f.ptrmap
             && forall p :: p in Free(f.list) ==> p <= f.nPage && Allowed(g, auto, p)
    requires if Free(f.list) == multiset{}
             then f'.nPage == pg > f.nPage && Free(f'.list) == multiset{} && SamePrefix(f.pages, f'.pages, f.nPage)
             else f'.nPage == f.nPage && Removed(f.pages, f.list, f'.pages, f'.list, pg)
    ensures Allocated(f, f', pg) && (Free(f.list) != multiset{} ==> Allowed(g, auto, pg))
  {
    hide Free, SameOutside, SamePrefix, Allowed;
    if Free(f.list) != multiset{} { assert Free(f.list)[pg] == 1; }
  }

  /** Stores a payload of given bytes followed by zeros, in a chain of pages that the allocator hands out. */
  method FillInCell(bt: BtShared, minLocal: nat, maxLocal: nat, src: seq<byte>, nZero: nat, blank: Pgno -> seq<byte>,
                    ghost used: set<Pgno>)
    returns (local: seq<byte>, first: Pgno, ghost chain: seq<Pgno>, ghost t: nat)
    requires bt.Valid() && UsedOk(StateOf(bt), used) && MapRight(bt.autoVacuum, bt.pages, bt.ptrmap, used)
    requires 1 <= minLocal <= maxLocal && forall p :: |blank(p)| == OvflSize(bt)
    modifies bt`nPage, bt`firstTrunk, bt`nFree, bt`pages, bt`list, bt`ptrmap
    ensures bt.Valid() && Taken(bt, old(StateOf(bt)), StateOf(bt), used, chain, t)
    ensures MapState(bt.autoVacuum, bt.pages, old(bt.ptrmap), bt.ptrmap, chain, used)
    ensures var payload := src + Zeros(nZero);
            if |payload| <= maxLocal then local == payload && first == 0 && chain == []
            else |local| == LocalSize(|payload|, minLocal, maxLocal, OvflSize(bt)) && local == payload[..|local|]
                 && first == First(chain)
                 && Stores(bt.pages, OvflSize(bt), chain, payload[|local|..])
  {
    hide Partial, Used, Overwrite, Filled, Taken, Zeros, Stores, OthersSame, NoRepeat, Piece, MapExact, ParentsIn,
      Recorded, MapSame, MapState, UsedOk, FileOk, FillState, Kept, Free;
    var size, nPayload, nSrc := OvflSize(bt), |src| + nZero, |src|;
    ghost var payload, f0 := src + Zeros(nZero), StateOf(bt);
    chain, first, t := [], 0, 0;
    TakenNone(bt, f0, used);
    MapNone(bt.autoVacuum, bt.pages, bt.ptrmap, used);
    if nPayload <= maxLocal {
      local := src + Zeros(nPayload - nSrc);
      return;
    }
    var nLocal := LocalSize(nPayload, minLocal, maxLocal, size);
    var spaceLeft, at, last := nLocal, 0, 0;
    local := [];
    FilledStart(bt.pages, size, payload, nLocal);
    FillIs(bt, size, f0, f0, used, local, first, chain, t, payload, at, nLocal, spaceLeft);
    while true
      invariant nPayload == |payload| - at && 0 < nPayload && 0 < spaceLeft
                && nSrc == (if at <= |src| then |src| - at else 0)
      invariant bt.Valid() && last == LastPage(chain) && (chain != [] ==> spaceLeft <= size)
      invariant FillState(bt, size, f0, StateOf(bt), used, local, first, chain, t, payload, at, nLocal, spaceLeft)
      decreases nPayload
    {
      var n := if nPayload > spaceLeft then spaceLeft else nPayload;
      if nSrc < n && nSrc > 0 { n := nSrc; }
      PieceIs(src, nZero, at, n);
      var piece := Piece(src, at, n);
      ghost var f := StateOf(bt);
      if last == 0 {
        FillLocal(bt, size, f0, f, used, local, first, chain, t, payload, at, nLocal, spaceLeft, n);
        local := local + piece;
      } else {
        FillWrite(bt, size, f0, f, used, local, first, chain, t, payload, at, nLocal, spaceLeft, n);
        WritePiece(bt, last, size - spaceLeft, piece, chain);
      }
      nPayload, at, nSrc, spaceLeft := nPayload - n, at + n, if nSrc >= n then nSrc - n else 0, spaceLeft - n;
      if nPayload == 0 { break; }
      if spaceLeft == 0 {
        last, first, t := AddOverflowPage(bt, size, blank, last, first, f0, used, local, chain, t, payload, at, nLocal);
        chain, spaceLeft := chain + [last], size;
      }
    }
    FillEnd(bt, size, f0, StateOf(bt), used, local, first, chain, t, payload, nLocal, spaceLeft);
  }

  /** Content bytes of an overflow page. */
  function OvflSize(bt: BtShared): (size: nat)
    requires bt.g.Valid()
    ensures size > 0
  {
    bt.g.usableSize - 4
  }

  lemma MapNone(auto: bool, pages: Pages, ptrmap: PtrMap, used: set<Pgno>)
    requires MapRight(auto, pages, ptrmap, used)
    ensures MapState(auto, pages, ptrmap, ptrmap, [], used)
  {
    assert used + Elems([]) == used;
  }

  lemma FillIs(bt: BtShared, size: nat, f0: FileState, f: FileState, used: set<Pgno>, local: seq<byte>, first: Pgno,
               chain: seq<Pgno>, t: nat, payload: seq<byte>, at: nat, nLocal: nat, spaceLeft: nat)
    requires Filled(f.pages, size, local, first, chain, payload, at, nLocal, spaceLeft)
             && Taken(bt, f0, f, used, chain, t)
    requires MapState(bt.autoVacuum, f.pages, f0.ptrmap, f.ptrmap, chain, used)
             && (LastPage(chain) == 0 ==> chain == [])
    ensures FillState(bt, size, f0, f, used, local, first, chain, t, payload, at, nLocal, spaceLeft)
  {
  }

  lemma FillLocal(bt: BtShared, size: nat, f0: FileState, f: FileState, used: set<Pgno>, local: seq<byte>, first: Pgno,
                  chain: seq<Pgno>, t: nat, payload: seq<byte>, at: nat, nLocal: nat, spaceLeft: nat, n: nat)
    requires FillState(bt, size, f0, f, used, local, first, chain, t, payload, at, nLocal, spaceLeft)
    requires LastPage(chain) == 0 && n <= spaceLeft && at + n <= |payload|
    ensures FillState(bt, size, f0, f, used, local + payload[at..at + n], first, chain, t, payload, at + n, nLocal,
            spaceLeft - n)
  {
    hide Filled, Taken, MapState;
    FilledLocal(f.pages, size, local, first, chain, payload, at, nLocal, spaceLeft, n);
  }

  lemma FillWrite(bt: BtShared, size: nat, f0: FileState, f: FileState, used: set<Pgno>, local: seq<byte>, first: Pgno,
                  chain: seq<Pgno>, t: nat, payload: seq<byte>, at: nat, nLocal: nat, spaceLeft: nat, n: nat)
    requires FillState(bt, size, f0, f, used, local, first, chain, t, payload, at, nLocal, spaceLeft)
    requires LastPage(chain) != 0 && n <= spaceLeft && at + n <= |payload|
    ensures var last := LastPage(chain);
            && IsOvfl(f.pages, last, size) && spaceLeft <= size && last in chain
               && (forall i :: 0 <= i < |chain| ==> chain[i] !in Free(f.list))
            && var p := f.pages[last];
               var f' := f.(pages := f.pages[last :=
                   p.(bytes := Overwrite(p.bytes, size - spaceLeft, payload[at..at + n]))]);
               FillState(bt, size, f0, f', used, local, first, chain, t, payload, at + n, nLocal, spaceLeft - n)
  {
    hide Filled, Taken, MapState, Overwrite, Free;
    var last := LastPage(chain);
    FilledWrite(f.pages, size, local, first, chain, payload, at, nLocal, spaceLeft, n);
    TakenApart(bt, f0, f, used, chain, t);
    var p' := f.pages[last].(bytes := Overwrite(f.pages[last].bytes, size - spaceLeft, payload[at..at + n]));
    MapWrite(bt.autoVacuum, f.pages, f0.ptrmap, f.ptrmap, chain, used, last, p');
    TakenWrite(bt, f0, f, f.(pages := f.pages[last := p']), used, chain, t);
  }

  lemma FillEnd(bt: BtShared, size: nat, f0: FileState, f: FileState, used: set<Pgno>, local: seq<byte>, first: Pgno,
                chain: seq<Pgno>, t: nat, payload: seq<byte>, nLocal: nat, spaceLeft: nat)
    requires FillState(bt, size, f0, f, used, local, first, chain, t, payload, |payload|, nLocal, spaceLeft)
             && nLocal < |payload|
    requires chain != [] ==> spaceLeft < size
    ensures local == payload[..nLocal] && Stores(f.pages, size, chain, payload[nLocal..]) && first == First(chain)
    ensures Taken(bt, f0, f, used, chain, t) && MapState(bt.autoVacuum, f.pages, f0.ptrmap, f.ptrmap, chain, used)
  {
    hide Filled, Taken, MapState;
    FilledEnd(f.pages, size, local, first, chain, payload, nLocal, spaceLeft);
  }

  // ----- Freeing a chain

  /** The pointer map after pages have been put on the freelist. */
  function MapFreed(ptrmap: PtrMap, freed: seq<nat>): (r: PtrMap)
    ensures forall p :: p in freed ==> p in r && r[p] == PtrEntry(FreePage, 0)
    ensures forall p :: p !in freed ==> (p in r <==> p in ptrmap) && (p in ptrmap ==> r[p] == ptrmap[p])
  {
    if freed == [] then ptrmap else MapFreed(ptrmap, freed[..|freed| - 1])[freed[|freed| - 1] := PtrEntry(FreePage, 0)]
  }

  /** Where clearCell stands: the first i pages of the chain are on the freelist. */
  ghost predicate ClearState(bt: BtShared, f0: FileState, f: FileState, used: set<Pgno>, chain: seq<Pgno>, i: nat) {
    && i <= |chain| && f.nPage == f0.nPage && Free(f.list) == Free(f0.list) + multiset(chain[..i])
    && Kept(f0.pages, f.pages, used + Elems(chain[i..]))
    && f.ptrmap == if bt.autoVacuum then MapFreed(f0.ptrmap, chain[..i]) else f0.ptrmap
  }

  /** Frees the overflow pages of a cell, in order. */
  method ClearCell(bt: BtShared, guess: Pgno -> Pgno, first: Pgno, nPayload: nat, nLocal: nat,
                   ghost chain: seq<Pgno>, ghost rest: seq<byte>, ghost used: set<Pgno>)
    returns (ok: bool)
    requires bt.Valid() && nLocal <= nPayload && |rest| == nPayload - nLocal
    requires first == First(chain) && NoRepeat(chain) && Stores(bt.pages, OvflSize(bt), chain, rest)
    requires UsedOk(StateOf(bt), used) && ChainApart(bt, StateOf(bt), used, chain)
    requires MapRight(bt.autoVacuum, bt.pages, bt.ptrmap, used + Elems(chain))
    modifies bt`firstTrunk, bt`nFree, bt`pages, bt`list, bt`ptrmap
    ensures ok && bt.Valid() && UsedOk(StateOf(bt), used) && Kept(old(bt.pages), bt.pages, used)
    ensures Free(bt.list) == old(Free(bt.list)) + multiset(chain)
    ensures bt.ptrmap == (if bt.autoVacuum then MapFreed(old(bt.ptrmap), chain) else old(bt.ptrmap))
    ensures MapRight(bt.autoVacuum, bt.pages, bt.ptrmap, used)
  {
    hide Stores, MapExact, ParentsIn, MapFreed, PageCount, ExactAt, NoRepeat, FileOk, Kept, Free, Allowed, UsedOk,
      ChainApart, ClearState;
    ghost var f0 := StateOf(bt);
    ChainLength(bt.pages, OvflSize(bt), chain, rest);
    ClearStart(bt, f0, used, chain);
    ok := true;
    if nLocal == nPayload {
      CountStep(0, OvflSize(bt));
      ClearEnd(bt, f0, f0, OvflSize(bt), used, chain, rest);
      return;
    }
    var nOvfl, ovflPgno := PageCount(nPayload - nLocal, OvflSize(bt)), first;
    ghost var i := 0;
    while nOvfl != 0
      invariant ok && bt.Valid() && i <= |chain| && nOvfl == |chain| - i && (nOvfl > 0 ==> ovflPgno == chain[i])
      invariant ClearState(bt, f0, StateOf(bt), used, chain, i)
      decreases nOvfl
    {
      nOvfl := nOvfl - 1;
      ghost var f := StateOf(bt);
      ClearAt(bt, f0, f, OvflSize(bt), used, chain, rest, i);
      if ovflPgno < 2 || ovflPgno > bt.nPage { ok := false; return; }
      var iNext := 0;
      if nOvfl != 0 {
        var read;
        iNext, read := GetOverflowPage(bt.pages, bt.autoVacuum, bt.ptrmap, guess, ovflPgno);
      }
      var rc := bt.FreePage2(ovflPgno);
      ClearNext(bt, f0, f, StateOf(bt), used, chain, i);
      ovflPgno, i := iNext, i + 1;
    }
    ClearEnd(bt, f0, StateOf(bt), OvflSize(bt), used, chain, rest);
  }

  lemma ClearStart(bt: BtShared, f: FileState, used: set<Pgno>, chain: seq<Pgno>)
    ensures ClearState(bt, f, f, used, chain, 0)
  {
    assert chain[..0] == [];
  }

  /** The page that is freed next. */
  lemma ClearAt(bt: BtShared, f0: FileState, f: FileState, size: nat, used: set<Pgno>, chain: seq<Pgno>,
                rest: seq<byte>, i: nat)
    requires ClearState(bt, f0, f, used, chain, i) && i < |chain| && NoRepeat(chain)
             && Stores(f0.pages, size, chain, rest)
    requires UsedOk(f0, used) && ChainApart(bt, f0, used, chain)
             && MapRight(bt.autoVacuum, f0.pages, f0.ptrmap, used + Elems(chain))
    ensures var pg := chain[i];
            && 2 <= pg <= f.nPage && pg !in Free(f.list) && Allowed(bt.g, bt.autoVacuum, pg) && pg in f.pages
               && f.pages[pg].Ovfl?
            && (i + 1 < |chain| ==> f.pages[pg].nextOvfl == chain[i + 1])
               && (bt.autoVacuum ==> ExactAt(f.pages, f.ptrmap, pg))
  {
    hide Free, Stores, MapFreed, Allowed;
    var pg := chain[i];
    LinkAt(f0.pages, size, chain, rest, i);
    assert pg == chain[i..][0] && pg in Elems(chain[i..]);
    assert pg !in chain[..i];
    AllowedIsLarge(bt, pg);
    if bt.autoVacuum {
      forall q | q in f.ptrmap && f.ptrmap[q] == PtrEntry(Overflow2, pg) ensures f.pages[pg].nextOvfl == q {
        assert q !in chain[..i];
        assert LinksTo(f0.pages, pg, q);
      }
    }
  }

  lemma ClearNext(bt: BtShared, f0: FileState, f: FileState, f': FileState, used: set<Pgno>, chain: seq<Pgno>, i: nat)
    requires ClearState(bt, f0, f, used, chain, i) && i < |chain| && NoRepeat(chain) && UsedOk(f0, used)
             && ChainApart(bt, f0, used, chain)
    requires Added(f.pages, f.list, f'.pages, f'.list, chain[i]) && f'.nPage == f.nPage
    requires f'.ptrmap == if bt.autoVacuum then f.ptrmap[chain[i] := PtrEntry(FreePage, 0)] else f.ptrmap
    ensures ClearState(bt, f0, f', used, chain, i + 1)
  {
    hide Free, MapFreed, Allowed;
    FreedMore(f0.ptrmap, chain, i);
    forall p | p in used + Elems(chain[i + 1..]) ensures p in used + Elems(chain[i..]) && p !in Free(f'.list) {
      if p in Elems(chain[i + 1..]) {
        var j :| i + 1 <= j < |chain| && chain[j] == p;
        assert chain[i..][j - i] == p;
        assert p !in chain[..i + 1];
      } else {
        assert p !in chain[..i + 1];
      }
    }
  }

  lemma ClearEnd(bt: BtShared, f0: FileState, f: FileState, size: nat, used: set<Pgno>, chain: seq<Pgno>,
                 rest: seq<byte>)
    requires ClearState(bt, f0, f, used, chain, |chain|) && Stores(f0.pages, size, chain, rest)
    requires UsedOk(f0, used) && ChainApart(bt, f0, used, chain)
             && MapRight(bt.autoVacuum, f0.pages, f0.ptrmap, used + Elems(chain))
    ensures UsedOk(f, used) && Kept(f0.pages, f.pages, used) && Free(f.list) == Free(f0.list) + multiset(chain)
    ensures f.ptrmap == (if bt.autoVacuum then MapFreed(f0.ptrmap, chain) else f0.ptrmap)
    ensures MapRight(bt.autoVacuum, f.pages, f.ptrmap, used)
  {
    hide Free, Stores, MapFreed, Allowed;
    assert chain[..|chain|] == chain && used + Elems(chain[|chain|..]) == used;
    forall p | p in used ensures p !in chain {}
    if bt.autoVacuum { FreedExact(f0.pages, f.pages, size, chain, rest, f0.ptrmap, used); }
  }

  lemma FreedMore(ptrmap: PtrMap, chain: seq<Pgno>, i: nat)
    requires i < |chain|
    ensures chain[..i + 1] == chain[..i] + [chain[i]]
    ensures MapFreed(ptrmap, chain[..i + 1]) == MapFreed(ptrmap, chain[..i])[chain[i] := PtrEntry(FreePage, 0)]
  {
    assert chain[..i + 1] == chain[..i] + [chain[i]];
    assert chain[..i + 1][..i] == chain[..i];
  }

  /** When the whole chain has been freed, no entry names one of its pages, and the map is exact again. */
  lemma FreedExact(pages: Pages, pages': Pages, size: nat, chain: seq<Pgno>, rest: seq<byte>, ptrmap: PtrMap,
                   used: set<Pgno>)
    requires MapRight(true, pages, ptrmap, used + Elems(chain)) && Stores(pages, size, chain, rest)
             && Kept(pages, pages', used)
    ensures MapRight(true, pages', MapFreed(ptrmap, chain), used)
  {
    hide MapFreed, Stores;
    var m := MapFreed(ptrmap, chain);
    forall q | q in m && m[q].kind.Overflow2? ensures q != 0 && m[q].parent in used && LinksTo(pages', m[q].parent, q) {
      assert q !in chain;
      var r := m[q].parent;
      assert LinksTo(pages, r, q);
      if r in chain {
        var j :| 0 <= j < |chain| && chain[j] == r;
        LinkAt(pages, size, chain, rest, j);
        if j + 1 == |chain| { LastLink(pages, size, chain, rest); }
      }
    }
  }

  // ----- Round trip

  /** What fillInCell stores, accessPayload reads back: any part of the payload, with any state of the
      cache; what it overwrites, it reads back too; and clearCell then gives back exactly the pages that
      fillInCell took.  Afterwards the freelist holds what it held before, and the pages by which the file has
      grown; no other page in use has changed.  In an auto-vacuum database the pointer map is exact all the
      time, and the entries of other pages stay. */
  method RoundTrip(bt: BtShared, minLocal: nat, maxLocal: nat, src: seq<byte>, nZero: nat, blank: Pgno -> seq<byte>,
                   guess: Pgno -> Pgno, offset: nat, amt: nat, at: nat, s: seq<byte>, offset2: nat, amt2: nat,
                   ghost used: set<Pgno>)
    returns (buf: seq<byte>, buf2: seq<byte>, ghost chain: seq<Pgno>, ghost grown: seq<Pgno>)
    requires bt.Valid() && UsedOk(StateOf(bt), used) && MapRight(bt.autoVacuum, bt.pages, bt.ptrmap, used)
    requires 1 <= minLocal <= maxLocal && forall p :: |blank(p)| == OvflSize(bt)
    requires offset + amt <= |src| + nZero && at + |s| <= |src| + nZero && offset2 + amt2 <= |src| + nZero
    modifies bt`nPage, bt`firstTrunk, bt`nFree, bt`pages, bt`list, bt`ptrmap
    ensures var payload := src + Zeros(nZero);
            buf == payload[offset..offset + amt] && buf2 == Patch(payload, at, s)[offset2..offset2 + amt2]
    ensures bt.Valid() && UsedOk(StateOf(bt), used) && Kept(old(bt.pages), bt.pages, used)
    ensures Free(bt.list) == old(Free(bt.list)) + multiset(grown)
            && (forall i :: 0 <= i < |grown| ==> old(bt.nPage) < grown[i] <= bt.nPage)
    ensures grown == [] ==> bt.nPage == old(bt.nPage)
    ensures MapRight(bt.autoVacuum, bt.pages, bt.ptrmap, used) && MapSame(old(bt.ptrmap), bt.ptrmap, chain)
            && forall p :: p in chain ==> p !in used
  {
    hide Stores, NoRepeat, Patch, MapExact, MapRight, Recorded, MapFreed, MapSame, FileOk, Taken, MapState, Free, Kept,
      UsedOk, ChainApart, Zeros, OthersSame, Elems;
    ghost var f0, payload := StateOf(bt), src + Zeros(nZero);
    var local, first;
    ghost var t;
    local, first, chain, t := FillInCell(bt, minLocal, maxLocal, src, nZero, blank, used);
    FillMeans(bt, f0, StateOf(bt), used, chain, t);
    StoredWhole(bt.pages, OvflSize(bt), local, first, chain, payload, maxLocal);
    buf, buf2, grown := UseAndClear(bt, guess, local, first, |src| + nZero, offset, amt, at, s, offset2, amt2, f0,
                                    chain, t, payload, used);
  }

  /** The round trip after the payload has been stored. */
  method UseAndClear(bt: BtShared, guess: Pgno -> Pgno, local: seq<byte>, first: Pgno, n: nat, offset: nat, amt: nat,
                     at: nat, s: seq<byte>, offset2: nat, amt2: nat, ghost f0: FileState, ghost chain: seq<Pgno>,
                     ghost t: nat, ghost payload: seq<byte>, ghost used: set<Pgno>)
    returns (buf: seq<byte>, buf2: seq<byte>, ghost grown: seq<Pgno>)
    requires bt.Valid() && Taken(bt, f0, StateOf(bt), used, chain, t) && MapSame(f0.ptrmap, bt.ptrmap, chain)
    requires MapRight(bt.autoVacuum, bt.pages, bt.ptrmap, used + Elems(chain))
    requires |local| <= |payload| == n && local == payload[..|local|] && first == First(chain)
    requires Stores(bt.pages, OvflSize(bt), chain, payload[|local|..])
    requires offset + amt <= n && at + |s| <= n && offset2 + amt2 <= n
    modifies bt`firstTrunk, bt`nFree, bt`pages, bt`list, bt`ptrmap
    ensures buf == payload[offset..offset + amt] && buf2 == Patch(payload, at, s)[offset2..offset2 + amt2]
    ensures bt.Valid() && UsedOk(StateOf(bt), used) && Kept(f0.pages, bt.pages, used)
    ensures Free(bt.list) == Free(f0.list) + multiset(grown)
    ensures (forall i :: 0 <= i < |grown| ==> f0.nPage < grown[i] <= bt.nPage)
            && (grown == [] ==> bt.nPage == f0.nPage)
    ensures MapRight(bt.autoVacuum, bt.pages, bt.ptrmap, used) && MapSame(f0.ptrmap, bt.ptrmap, chain)
            && forall p :: p in chain ==> p !in used
  {
    hide Stores, NoRepeat, Patch, MapExact, MapRight, Recorded, MapFreed, MapSame, FileOk, Taken, Free, Kept, UsedOk,
      ChainApart, OthersSame, Elems;
    ghost var f1 := StateOf(bt);
    TakenMeans(bt, f0, f1, used, chain, t);
    MapIsExact(bt.autoVacuum, bt.pages, bt.ptrmap, used + Elems(chain));
    var local', pages;
    ghost var payload';
    buf, buf2, local', pages, payload' := UsePayload(bt.pages, OvflSize(bt), bt.autoVacuum, bt.ptrmap, guess, local,
                                                     first, n, offset, amt, at, s, offset2, amt2, chain, payload);
    ListKept(bt.g, bt.autoVacuum, bt.nPage, bt.pages, pages, bt.firstTrunk, bt.list, chain);
    bt.pages := pages;
    TakenWrite(bt, f0, f1, StateOf(bt), used, chain, t);
    TakenMeans(bt, f0, StateOf(bt), used, chain, t);
    MapRightAgain(bt.autoVacuum, bt.pages, bt.ptrmap, used + Elems(chain), f1.pages);
    ghost var f2 := StateOf(bt);
    var ok := ClearCell(bt, guess, first, n, |local'|, chain, payload'[|local'|..], used);
    grown := chain[t..];
    GivenBack(f0.list, f2.list, bt.list, chain, t);
    FreedSame(bt.autoVacuum, f0.ptrmap, f2.ptrmap, bt.ptrmap, chain);
    KeptTwice(f0.pages, f2.pages, bt.pages, used);
  }

  lemma MapIsExact(auto: bool, pages: Pages, ptrmap: PtrMap, used: set<Pgno>)
    requires MapRight(auto, pages, ptrmap, used)
    ensures auto ==> MapExact(pages, ptrmap)
  {
  }

  /** Reads part of a payload, overwrites part of it, and reads again, with one cache of page numbers. */
  method UsePayload(pages: Pages, size: nat, auto: bool, ptrmap: PtrMap, guess: Pgno -> Pgno, local: seq<byte>,
                    first: Pgno, n: nat, offset: nat, amt: nat, at: nat, s: seq<byte>, offset2: nat, amt2: nat,
                    ghost chain: seq<Pgno>, ghost payload: seq<byte>)
    returns (buf: seq<byte>, buf2: seq<byte>, local': seq<byte>, pages': Pages, ghost payload': seq<byte>)
    requires size > 0 && (auto ==> MapExact(pages, ptrmap)) && |local| <= |payload| == n && local == payload[..|local|]
    requires first == First(chain) && NoRepeat(chain) && Stores(pages, size, chain, payload[|local|..])
    requires offset + amt <= n && at + |s| <= n && offset2 + amt2 <= n
    ensures payload' == Patch(payload, at, s) && |payload'| == n
    ensures buf == payload[offset..offset + amt] && buf2 == payload'[offset2..offset2 + amt2]
    ensures |local'| == |local| && Stores(pages', size, chain, payload'[|local|..])
    ensures OthersSame(pages, pages', chain) && (auto ==> MapExact(pages', ptrmap))
  {
    hide Stores, CacheOk, NoRepeat, Patch, MapExact, OthersSame;
    var ok, cache, valid;
    ok, buf, cache, valid := AccessPayload(size, pages, auto, ptrmap, guess, local, first, n, offset, amt, [], false,
        chain, payload);
    ok, local', pages', cache, valid :=
        OverwritePayload(size, pages, auto, ptrmap, guess, local, first, n, at, s, cache, valid, chain, payload);
    payload' := Patch(payload, at, s);
    ok, buf2, cache, valid := AccessPayload(size, pages', auto, ptrmap, guess, local', first, n, offset2, amt2, cache,
        valid, chain, payload');
  }

  /** A payload that fits on the B-tree page has no chain. */
  lemma StoredWhole(pages: Pages, size: nat, local: seq<byte>, first: Pgno, chain: seq<Pgno>, payload: seq<byte>,
                    maxLocal: nat)
    requires if |payload| <= maxLocal then local == payload && first == 0 && chain == []
             else |local| <= |payload| && local == payload[..|local|] && first == First(chain)
                  && Stores(pages, size, chain, payload[|local|..])
    ensures |local| <= |payload| && local == payload[..|local|] && first == First(chain)
            && Stores(pages, size, chain, payload[|local|..])
  {
    if |payload| <= maxLocal { assert payload[|local|..] == []; }
  }

  lemma MapRightAgain(auto: bool, pages: Pages, ptrmap: PtrMap, used: set<Pgno>, pages0: Pages)
    requires MapRight(auto, pages0, ptrmap, used) && (auto ==> MapExact(pages, ptrmap))
    ensures MapRight(auto, pages, ptrmap, used)
  {
  }

  lemma TakenMeans(bt: BtShared, f0: FileState, f: FileState, used: set<Pgno>, chain: seq<Pgno>, t: nat)
    requires Taken(bt, f0, f, used, chain, t)
    ensures UsedOk(f, used) && ChainApart(bt, f, used, chain) && NoRepeat(chain) && Kept(f0.pages, f.pages, used)
    ensures t <= |chain| && Free(f0.list) == Free(f.list) + multiset(chain[..t])
            && (t == |chain| ==> f.nPage == f0.nPage)
    ensures forall i :: t <= i < |chain| ==> f0.nPage < chain[i] <= f.nPage
    ensures forall i :: 0 <= i < |chain| ==> chain[i] !in Free(f.list) && chain[i] !in used
  {
    hide Free, Allowed, Kept;
  }

  lemma FillMeans(bt: BtShared, f0: FileState, f: FileState, used: set<Pgno>, chain: seq<Pgno>, t: nat)
    requires Taken(bt, f0, f, used, chain, t) && MapState(bt.autoVacuum, f.pages, f0.ptrmap, f.ptrmap, chain, used)
    ensures NoRepeat(chain) && (forall i :: 0 <= i < |chain| ==> chain[i] !in Free(f.list))
    ensures MapRight(bt.autoVacuum, f.pages, f.ptrmap, used + Elems(chain)) && MapSame(f0.ptrmap, f.ptrmap, chain)
  {
    hide Taken, MapExact, ParentsIn;
    TakenMeans(bt, f0, f, used, chain, t);
  }

  lemma GivenBack(list0: seq<TrunkRec>, list1: seq<TrunkRec>, list2: seq<TrunkRec>, chain: seq<Pgno>, t: nat)
    requires t <= |chain| && Free(list0) == Free(list1) + multiset(chain[..t])
             && Free(list2) == Free(list1) + multiset(chain)
    ensures Free(list2) == Free(list0) + multiset(chain[t..])
  {
    hide Free;
    assert chain == chain[..t] + chain[t..];
  }

  lemma KeptTwice(pages0: Pages, pages1: Pages, pages2: Pages, used: set<Pgno>)
    requires Kept(pages0, pages1, used) && Kept(pages1, pages2, used)
    ensures Kept(pages0, pages2, used)
  {
  }

  lemma FreedSame(auto: bool, ptrmap0: PtrMap, ptrmap1: PtrMap, ptrmap2: PtrMap, chain: seq<Pgno>)
    requires MapSame(ptrmap0, ptrmap1, chain) && ptrmap2 == if auto then MapFreed(ptrmap1, chain) else ptrmap1
    ensures MapSame(ptrmap0, ptrmap2, chain)
  {
    hide MapFreed;
  }
}
