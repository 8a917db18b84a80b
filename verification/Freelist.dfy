/** The free-page list: trunk pages linked through the file, each holding leaf page numbers. */
module Freelist {
  import opened Arith
  import opened PointerMap
  import opened DbFile

  /** One trunk page with the leaves it lists. */
  datatype TrunkRec = TrunkRec(pgno: Pgno, leaves: seq<Pgno>)

  /** The page numbers on a list of trunks. */
  ghost function Free(list: seq<TrunkRec>): multiset<Pgno> {
    if list == [] then multiset{}
    else multiset{list[0].pgno} + multiset(list[0].leaves) + Free(list[1..])
  }

  /** Page `first` starts a chain of trunk pages that spells out `list`, ended by page number 0. */
  ghost predicate Chain(pages: map<Pgno, Page>, first: Pgno, list: seq<TrunkRec>)
    decreases list
  {
    if list == [] then first == 0
    else
      && first == list[0].pgno != 0
      && first in pages && pages[first].Trunk? && pages[first].leaves == list[0].leaves
      && Chain(pages, pages[first].next, list[1..])
  }

  ghost predicate Distinct(free: multiset<Pgno>) { forall p :: free[p] <= 1 }

  // ----- Lemmas about lists of trunks

  lemma {:induction false} FreeConcat(a: seq<TrunkRec>, b: seq<TrunkRec>)
    ensures Free(a + b) == Free(a) + Free(b)
  {
    if a == [] {
      assert a + b == b;
    } else {
      assert (a + b)[1..] == a[1..] + b;
      FreeConcat(a[1..], b);
    }
  }

  /** Free split around one trunk. */
  lemma FreeAt(list: seq<TrunkRec>, i: nat)
    requires i < |list|
    ensures Free(list) == Free(list[..i]) + multiset{list[i].pgno} + multiset(list[i].leaves) + Free(list[i + 1..])
  {
    assert list == list[..i] + list[i..];
    FreeConcat(list[..i], list[i..]);
    assert list[i..][1..] == list[i + 1..];
  }

  /** Replacing trunk i by other trunks exchanges exactly what they list. */
  lemma FreeReplace(list: seq<TrunkRec>, i: nat, mid: seq<TrunkRec>)
    requires i < |list|
    ensures Free(list[..i] + mid + list[i + 1..]) == Free(list[..i]) + Free(mid) + Free(list[i + 1..])
  {
    FreeConcat(list[..i] + mid, list[i + 1..]);
    FreeConcat(list[..i], mid);
  }

  lemma {:induction false} FreeSize(list: seq<TrunkRec>)
    ensures |list| <= |Free(list)|
  {
    if list != [] { FreeSize(list[1..]); }
  }

  /** The trunk at the end of a chain prefix, and the chain that is left. */
  lemma {:induction false} ChainAt(pages: map<Pgno, Page>, first: Pgno, list: seq<TrunkRec>, i: nat)
    requires Chain(pages, first, list) && i < |list|
    ensures list[i].pgno != 0 && list[i].pgno in pages && pages[list[i].pgno].Trunk?
    ensures pages[list[i].pgno].leaves == list[i].leaves
    ensures Chain(pages, pages[list[i].pgno].next, list[i + 1..])
    ensures i + 1 < |list| ==> pages[list[i].pgno].next == list[i + 1].pgno
    ensures i + 1 == |list| ==> pages[list[i].pgno].next == 0
    decreases list
  {
    if i > 0 {
      ChainAt(pages, pages[first].next, list[1..], i - 1);
      assert list[1..][i..] == list[i + 1..];
    }
  }

  /** Pages off the list may change without disturbing it. */
  lemma {:induction false} ChainFrame(pages: map<Pgno, Page>, pages': map<Pgno, Page>, first: Pgno, list: seq<TrunkRec>)
    requires Chain(pages, first, list)
    requires forall i ::
               0 <= i < |list| && list[i].pgno in pages ==>
                 list[i].pgno in pages' && pages'[list[i].pgno] == pages[list[i].pgno]
    ensures Chain(pages', first, list)
    decreases list
  {
    if list != [] {
      assert list[0].pgno in pages;
      forall i | 0 <= i < |list[1..]| && list[1..][i].pgno in pages
        ensures list[1..][i].pgno in pages' && pages'[list[1..][i].pgno] == pages[list[1..][i].pgno]
      {
        assert list[1..][i] == list[i + 1];
      }
      ChainFrame(pages, pages', pages[first].next, list[1..]);
    }
  }

  /** Trunk j of a chain prefix of length i, linked to its successor or, as the last one, to page mid. */
  ghost predicate Linked(pages: map<Pgno, Page>, list: seq<TrunkRec>, j: nat, i: nat, mid: Pgno)
    requires j < i <= |list|
  {
    && list[j].pgno != 0 && list[j].pgno in pages
    && pages[list[j].pgno] == Trunk(if j + 1 < i then list[j + 1].pgno else mid, list[j].leaves)
  }

  /** Splice: a chain prefix whose last next-pointer is redirected to another chain. */
  lemma {:induction false} ChainSplice(pages: map<Pgno, Page>, list: seq<TrunkRec>, i: nat, mid: Pgno,
                                       tail: seq<TrunkRec>)
    requires i <= |list| && forall j :: 0 <= j < i ==> Linked(pages, list, j, i, mid)
    requires Chain(pages, mid, tail)
    ensures Chain(pages, if i == 0 then mid else list[0].pgno, list[..i] + tail)
    decreases i
  {
    if i == 0 {
      assert list[..0] + tail == tail;
    } else {
      var rest := list[1..];
      assert Linked(pages, list, 0, i, mid);
      var i' := i - 1;
      forall j | 0 <= j < i'
        ensures Linked(pages, rest, j, i', mid)
      {
        assert Linked(pages, list, j + 1, i, mid);
      }
      ChainSplice(pages, rest, i', mid, tail);
      assert (list[..i] + tail)[1..] == rest[..i - 1] + tail;
      assert (list[..i] + tail)[0] == list[0];
    }
  }

  lemma ChainCons(pages: map<Pgno, Page>, mid: Pgno, repl: seq<TrunkRec>, next: Pgno, tail: seq<TrunkRec>)
    requires |repl| <= 1 && Chain(pages, next, tail)
    requires mid == if repl == [] then next else repl[0].pgno
    requires repl != [] ==> mid != 0 && mid in pages && pages[mid] == Trunk(next, repl[0].leaves)
    ensures Chain(pages, mid, repl + tail)
  {
    if repl == [] { assert repl + tail == tail; } else { assert (repl + tail)[1..] == tail; }
  }

  /** Replace trunk i of a chain by nothing or by another trunk page that takes over its successor. */
  lemma ChainReplace(pages: map<Pgno, Page>, pages': map<Pgno, Page>, first: Pgno, list: seq<TrunkRec>, i: nat,
                     repl: seq<TrunkRec>, next: Pgno, mid: Pgno)
    requires Chain(pages, first, list) && i < |list| && |repl| <= 1
    requires list[i].pgno in pages && pages[list[i].pgno] == Trunk(next, list[i].leaves)
    requires mid == if repl == [] then next else repl[0].pgno
    requires repl != [] ==> mid != 0 && mid in pages' && pages'[mid] == Trunk(next, repl[0].leaves)
    requires forall j :: 0 <= j < |list| && j != i && j != i - 1 && list[j].pgno in pages ==>
                           list[j].pgno in pages' && pages'[list[j].pgno] == pages[list[j].pgno]
    requires i > 0 ==> list[i - 1].pgno in pages' && pages'[list[i - 1].pgno] == Trunk(mid, list[i - 1].leaves)
    ensures Chain(pages', if i == 0 then mid else first, list[..i] + repl + list[i + 1..])
  {
    var tail := list[i + 1..];
    assert Chain(pages', next, tail) by {
      ChainAt(pages, first, list, i);
      forall j | 0 <= j < |tail| && tail[j].pgno in pages
        ensures tail[j].pgno in pages' && pages'[tail[j].pgno] == pages[tail[j].pgno]
      {
        assert tail[j] == list[i + 1 + j];
      }
      ChainFrame(pages, pages', next, tail);
    }
    ChainCons(pages', mid, repl, next, tail);
    forall j | 0 <= j < i
      ensures Linked(pages', list, j, i, mid)
    {
      ChainAt(pages, first, list, j);
    }
    ChainSplice(pages', list, i, mid, repl + tail);
    assert list[..i] + repl + tail == list[..i] + (repl + tail);
  }

  /** Everything a trunk lists is on every prefix that contains the trunk. */
  lemma InPrefix(list: seq<TrunkRec>, i: nat, j: nat, x: Pgno)
    requires i < j <= |list| && (x == list[i].pgno || x in list[i].leaves)
    ensures x in Free(list[..j])
  {
    FreeAt(list[..j], i);
  }

  /** Trunks of a distinct list share no page. */
  lemma TrunksDisjoint(list: seq<TrunkRec>, i: nat, j: nat, x: Pgno)
    requires i < j < |list| && Distinct(Free(list))
    requires x == list[i].pgno || x in list[i].leaves
    ensures x != list[j].pgno && x !in list[j].leaves
  {
    InPrefix(list, i, j, x);
    FreeAt(list, j);
    assert Free(list)[x] <= 1;
  }

  /** There are at most n - lo + 1 distinct pages between lo and n. */
  lemma {:induction false} Pigeonhole(s: set<Pgno>, lo: Pgno, n: Pgno)
    requires forall p :: p in s ==> lo <= p <= n
    requires lo <= n + 1
    ensures |s| <= n + 1 - lo
    decreases n
  {
    if lo <= n {
      if n == 0 {
        assert s <= {0};
        assert |s| <= |{0}| by { if 0 in s { assert s == {0}; } else { assert s == {}; } }
      } else {
        var t := s - {n};
        Pigeonhole(t, lo, n - 1);
        assert s <= t + {n};
        assert |s| <= |t| + 1 by { if n in s { assert s == t + {n}; } else { assert s == t; } }
      }
    } else {
      if p :| p in s { assert false; }
    }
  }

  /** A distinct multiset has as many elements as its support. */
  lemma {:induction false} DistinctSize(m: multiset<Pgno>, s: set<Pgno>)
    requires Distinct(m) && forall p :: p in m <==> p in s
    ensures |m| == |s|
    decreases |s|
  {
    if s == {} {
      assert m == multiset{};
    } else {
      var p :| p in s;
      DistinctSize(m - multiset{p}, s - {p});
      assert m == (m - multiset{p}) + multiset{p};
    }
  }

  lemma DistinctBound(m: multiset<Pgno>, lo: Pgno, n: Pgno)
    requires Distinct(m) && lo <= n + 1 && forall p :: p in m ==> lo <= p <= n
    ensures |m| <= n + 1 - lo
  {
    var s := set p | p in m;
    DistinctSize(m, s);
    Pigeonhole(s, lo, n);
  }

  function Abs(x: int): nat { if x < 0 then -x else x }

  /** Removing leaf c of a trunk: the last leaf takes its place. */
  function DropLeaf(leaves: seq<Pgno>, c: nat): (r: seq<Pgno>)
    requires c < |leaves|
    ensures |r| == |leaves| - 1
  {
    leaves[c := leaves[|leaves| - 1]][..|leaves| - 1]
  }

  lemma Cancel(a: multiset<Pgno>, b: multiset<Pgno>, x: Pgno)
    requires a + multiset{x} == b + multiset{x}
    ensures a == b
  {
    assert a == (a + multiset{x}) - multiset{x};
    assert b == (b + multiset{x}) - multiset{x};
  }

  lemma DropLeafRemovesOne(leaves: seq<Pgno>, c: nat)
    requires c < |leaves|
    ensures multiset(DropLeaf(leaves, c)) == multiset(leaves) - multiset{leaves[c]}
  {
    var k := |leaves| - 1;
    var moved := leaves[c := leaves[k]];
    assert moved == moved[..k] + [moved[k]];
    assert multiset(moved) == multiset(moved[..k]) + multiset{leaves[k]};
    Cancel(multiset(moved[..k]), multiset(leaves) - multiset{leaves[c]}, leaves[k]);
  }

  lemma OtherTrunks(list: seq<TrunkRec>, i: nat)
    requires i < |list| && Distinct(Free(list))
    ensures forall j :: 0 <= j < |list| && j != i ==> list[j].pgno != list[i].pgno && list[j].pgno !in list[i].leaves
  {
    forall j | 0 <= j < |list| && j != i
      ensures list[j].pgno != list[i].pgno && list[j].pgno !in list[i].leaves
    {
      if j < i {
        TrunksDisjoint(list, j, i, list[j].pgno);
      } else {
        TrunksDisjoint(list, i, j, list[i].pgno);
        if list[j].pgno in list[i].leaves { TrunksDisjoint(list, i, j, list[j].pgno); }
      }
    }
  }

  lemma ListedLeaf(list: seq<TrunkRec>, i: nat, c: nat)
    requires i < |list| && c < |list[i].leaves|
    ensures list[i].leaves[c] in Free(list)
  {
    FreeAt(list, i);
  }

  lemma EmptyList(list: seq<TrunkRec>)
    ensures list == [] <==> |Free(list)| == 0
  {
    FreeSize(list);
  }

  lemma ListedTrunk(list: seq<TrunkRec>, i: nat)
    requires i < |list|
    ensures list[i].pgno in Free(list)
  {
    FreeAt(list, i);
  }

  /** The pages of one trunk: itself at place 0, then its leaves. */
  ghost function Slot(t: TrunkRec, k: nat): Pgno
    requires k <= |t.leaves|
  {
    if k == 0 then t.pgno else t.leaves[k - 1]
  }

  lemma SlotListed(list: seq<TrunkRec>, j: nat, l: nat)
    requires j < |list| && l <= |list[j].leaves|
    ensures Slot(list[j], l) in Free(list)
  {
    hide Free;
    FreeAt(list, j);
  }

  lemma SlotsOfOneTrunk(list: seq<TrunkRec>, i: nat, k: nat, l: nat)
    requires i < |list| && k < l <= |list[i].leaves| && Slot(list[i], k) == Slot(list[i], l)
    ensures Free(list)[Slot(list[i], k)] >= 2
  {
    hide Free;
    FreeAt(list, i);
    var t, p, at := list[i], Slot(list[i], k), l - 1;
    assert t.leaves == t.leaves[..at] + [p] + t.leaves[at + 1..];
    if k > 0 { assert t.leaves[..at][k - 1] == p; }
  }

  lemma SlotsOfTwoTrunks(list: seq<TrunkRec>, i: nat, k: nat, j: nat, l: nat)
    requires i < j < |list| && k <= |list[i].leaves| && l <= |list[j].leaves| && Slot(list[i], k) == Slot(list[j], l)
    ensures Free(list)[Slot(list[i], k)] >= 2
  {
    hide Free;
    FreeAt(list, i);
    var rest := list[i + 1..];
    assert rest[j - i - 1] == list[j];
    SlotListed(rest, j - i - 1, l);
  }

  lemma PlacesDiffer(list: seq<TrunkRec>, i: nat, k: nat, j: nat, l: nat)
    requires Distinct(Free(list)) && i < |list| && j < |list| && k <= |list[i].leaves| && l <= |list[j].leaves|
    ensures Slot(list[i], k) == Slot(list[j], l) ==> i == j && k == l
  {
    hide Slot, Free;
    if Slot(list[i], k) == Slot(list[j], l) {
      if i < j {
        SlotsOfTwoTrunks(list, i, k, j, l);
      } else if j < i {
        SlotsOfTwoTrunks(list, j, l, i, k);
      } else if k < l {
        SlotsOfOneTrunk(list, i, k, l);
      } else if l < k {
        SlotsOfOneTrunk(list, i, l, k);
      }
    }
  }

  ghost function PagesOn(free: multiset<Pgno>): set<Pgno> { set p | p in free }

  lemma FreeOne(rec: TrunkRec)
    ensures Free([rec]) == multiset{rec.pgno} + multiset(rec.leaves)
  {
    assert Free([rec][1..]) == multiset{};
  }

  lemma FreeDropLeaf(list: seq<TrunkRec>, i: nat, c: nat)
    requires i < |list| && c < |list[i].leaves|
    ensures list[i].leaves[c] in Free(list)
    ensures Free(list[..i] + [TrunkRec(list[i].pgno, DropLeaf(list[i].leaves, c))] + list[i + 1..])
            == Free(list) - multiset{list[i].leaves[c]}
  {
    var rec := TrunkRec(list[i].pgno, DropLeaf(list[i].leaves, c));
    DropLeafRemovesOne(list[i].leaves, c);
    FreeAt(list, i);
    FreeReplace(list, i, [rec]);
    FreeOne(rec);
    WithoutLeaf(Free(list[..i]), rec.pgno, multiset(list[i].leaves), list[i].leaves[c], Free(list[i + 1..]));
  }

  /** Removing trunk i: its first leaf, if any, becomes the trunk of the others. */
  function Promote(rec: TrunkRec): seq<TrunkRec> {
    if rec.leaves == [] then [] else [TrunkRec(rec.leaves[0], rec.leaves[1..])]
  }

  lemma PromoteKeepsLeaves(rec: TrunkRec)
    ensures Free(Promote(rec)) == multiset(rec.leaves)
  {
    var l := rec.leaves;
    if l != [] {
      assert l == [l[0]] + l[1..];
      FreeOne(TrunkRec(l[0], l[1..]));
    }
  }

  lemma FreePromote(list: seq<TrunkRec>, i: nat)
    requires i < |list|
    ensures list[i].pgno in Free(list)
    ensures Free(list[..i] + Promote(list[i]) + list[i + 1..]) == Free(list) - multiset{list[i].pgno}
  {
    FreeAt(list, i);
    FreeReplace(list, i, Promote(list[i]));
    PromoteKeepsLeaves(list[i]);
    Without(Free(list[..i]), list[i].pgno, multiset(list[i].leaves), Free(list[i + 1..]));
  }

  lemma WithoutLeaf(a: multiset<Pgno>, p: Pgno, m: multiset<Pgno>, x: Pgno, b: multiset<Pgno>)
    requires x in m
    ensures a + (multiset{p} + (m - multiset{x})) + b == a + multiset{p} + m + b - multiset{x}
  {
  }

  lemma Without(a: multiset<Pgno>, p: Pgno, m: multiset<Pgno>, b: multiset<Pgno>)
    ensures a + m + b == a + multiset{p} + m + b - multiset{p}
  {
  }

  /** No page outside `free` was added, removed or written. */
  ghost predicate SameOutside(before: map<Pgno, Page>, after: map<Pgno, Page>, free: multiset<Pgno>) {
    forall p :: p !in free ==> (p in after <==> p in before) && (p in before ==> after[p] == before[p])
  }

  /** Pages 1..n are as they were. */
  ghost predicate SamePrefix(before: map<Pgno, Page>, after: map<Pgno, Page>, n: Pgno) {
    forall p :: p <= n ==> (p in after <==> p in before) && (p in before ==> after[p] == before[p])
  }

  datatype AllocMode = Any | Exact | Le

  datatype Rc = Ok | Corrupt

  /** A page the file may hand out: neither the pending-byte page nor, with auto-vacuum, a pointer-map page. */
  predicate Allowed(g: Geometry, autoVacuum: bool, p: Pgno) {
    p >= 2 && p != g.pendingPage && (autoVacuum ==> !IsPtrmapPage(g, p))
  }

  /** A freelist that only names distinct pages the file may hand out, on trunks that are not overfull. */
  ghost predicate ListOk(g: Geometry, autoVacuum: bool, nPage: Pgno, list: seq<TrunkRec>) {
    && Distinct(Free(list))
    && (forall p :: p in Free(list) ==> p <= nPage && Allowed(g, autoVacuum, p))
    && (forall i :: 0 <= i < |list| ==> |list[i].leaves| <= g.usableSize / 4 - 2)
  }

  lemma ListOkReplace(g: Geometry, autoVacuum: bool, nPage: Pgno, list: seq<TrunkRec>, i: nat, repl: seq<TrunkRec>,
                      list': seq<TrunkRec>, x: Pgno)
    requires ListOk(g, autoVacuum, nPage, list) && i < |list| && |repl| <= 1
    requires list' == list[..i] + repl + list[i + 1..]
    requires Free(list') == Free(list) - multiset{x}
    requires repl != [] ==> |repl[0].leaves| <= |list[i].leaves|
    ensures ListOk(g, autoVacuum, nPage, list')
  {
    hide Free, Allowed;
    var before, after := Free(list), Free(list');
    forall p ensures after[p] <= before[p] { }
    forall p ensures after[p] <= 1 { assert before[p] <= 1; }
    forall p | p in after ensures p <= nPage && Allowed(g, autoVacuum, p) {
      assert after[p] <= before[p];
      assert p in before;
    }
    forall j | 0 <= j < |list'| ensures |list'[j].leaves| <= g.usableSize / 4 - 2 {
      if j < i { assert list'[j] == list[j]; }
      else if j < i + |repl| { assert list'[j] == repl[0]; }
      else { assert list'[j] == list[j - |repl| + 1]; }
    }
  }

  ghost predicate FileOk(g: Geometry, autoVacuum: bool, nPage: Pgno, pages: map<Pgno, Page>, first: Pgno,
                         list: seq<TrunkRec>) {
    Chain(pages, first, list) && ListOk(g, autoVacuum, nPage, list)
  }

  /** Exactly page x left the list, and only listed pages were written. */
  ghost predicate Removed(pages: map<Pgno, Page>, list: seq<TrunkRec>, pages': map<Pgno, Page>, list': seq<TrunkRec>,
                          x: Pgno) {
    x in Free(list) && Free(list') == Free(list) - multiset{x} && SameOutside(pages, pages', Free(list))
  }

  lemma RemovedWasFree(pages: map<Pgno, Page>, list: seq<TrunkRec>, pages': map<Pgno, Page>, list': seq<TrunkRec>,
                       x: Pgno)
    requires Removed(pages, list, pages', list', x)
    ensures x in Free(list) && Free(list') == Free(list) - multiset{x} && |Free(list')| == |Free(list)| - 1
  {
    assert Free(list) == Free(list') + multiset{x};
  }

  /** A trunk with other leaves. */
  lemma ChainNewLeaves(pages: map<Pgno, Page>, first: Pgno, list: seq<TrunkRec>, i: nat, leaves: seq<Pgno>)
    requires Chain(pages, first, list) && Distinct(Free(list)) && i < |list| && list[i].pgno in pages
             && pages[list[i].pgno].Trunk?
    ensures Chain(pages[list[i].pgno := Trunk(pages[list[i].pgno].next, leaves)], first,
            list[..i] + [TrunkRec(list[i].pgno, leaves)] + list[i + 1..])
  {
    hide Free, Distinct;
    var pages' := pages[list[i].pgno := Trunk(pages[list[i].pgno].next, leaves)];
    OtherTrunks(list, i);
    ChainAt(pages, first, list, i);
    if i > 0 { ChainAt(pages, first, list, i - 1); }
    ChainReplace(pages, pages', first, list, i, [TrunkRec(list[i].pgno, leaves)], pages[list[i].pgno].next,
        list[i].pgno);
  }

  lemma TakeLeafOk(g: Geometry, autoVacuum: bool, nPage: Pgno, pages: map<Pgno, Page>, first: Pgno, list: seq<TrunkRec>,
                   i: nat, c: nat, pages': map<Pgno, Page>, list': seq<TrunkRec>)
    requires FileOk(g, autoVacuum, nPage, pages, first, list) && i < |list| && c < |list[i].leaves|
    requires list[i].pgno in pages && pages[list[i].pgno].Trunk?
    requires pages' == pages[list[i].pgno := Trunk(pages[list[i].pgno].next, DropLeaf(list[i].leaves, c))]
    requires list' == list[..i] + [TrunkRec(list[i].pgno, DropLeaf(list[i].leaves, c))] + list[i + 1..]
    ensures FileOk(g, autoVacuum, nPage, pages', first, list')
    ensures Removed(pages, list, pages', list', list[i].leaves[c])
  {
    hide Free, Chain, Allowed, DropLeaf;
    var rec := TrunkRec(list[i].pgno, DropLeaf(list[i].leaves, c));
    assert SameOutside(pages, pages', Free(list)) by { ListedTrunk(list, i); }
    assert Chain(pages', first, list') by {
      ChainNewLeaves(pages, first, list, i, DropLeaf(list[i].leaves, c));
    }
    FreeDropLeaf(list, i, c);
    ListOkReplace(g, autoVacuum, nPage, list, i, [rec], list', list[i].leaves[c]);
  }

  /** The pages after trunk page t was cut out between prev (0: the header) and its successor. */
  function CutTrunk(pages: map<Pgno, Page>, prev: Pgno, t: Page): (map<Pgno, Page>, Pgno)
    requires t.Trunk? && (prev != 0 ==> prev in pages && pages[prev].Trunk?)
  {
    var mid := if t.leaves == [] then t.next else t.leaves[0];
    var pages1 := if t.leaves == [] then pages else pages[mid := Trunk(t.next, t.leaves[1..])];
    (if prev == 0 then pages1 else pages1[prev := Trunk(mid, pages[prev].leaves)], mid)
  }

  lemma TakeTrunkOk(g: Geometry, autoVacuum: bool, nPage: Pgno, pages: map<Pgno, Page>, first: Pgno,
                    list: seq<TrunkRec>, i: nat, prev: Pgno, pages': map<Pgno, Page>, mid: Pgno, list': seq<TrunkRec>)
    requires FileOk(g, autoVacuum, nPage, pages, first, list) && i < |list|
    requires list[i].pgno in pages && pages[list[i].pgno].Trunk? && pages[list[i].pgno].leaves == list[i].leaves
    requires if i == 0 then prev == 0 else prev == list[i - 1].pgno != 0 && prev in pages && pages[prev].Trunk?
    requires (pages', mid) == CutTrunk(pages, prev, pages[list[i].pgno])
    requires list' == list[..i] + Promote(list[i]) + list[i + 1..]
    ensures FileOk(g, autoVacuum, nPage, pages', if i == 0 then mid else first, list')
    ensures Removed(pages, list, pages', list', list[i].pgno)
  {
    CutTrunkChain(pages, first, list, i, prev, pages', mid) by {
      if list[i].leaves != [] { ListedLeaf(list, i, 0); assert Allowed(g, autoVacuum, mid); }
    }
    CutTrunkOutside(pages, list, i, prev, pages');
    FreePromote(list, i);
    ListOkReplace(g, autoVacuum, nPage, list, i, Promote(list[i]), list', list[i].pgno);
  }

  lemma CutTrunkOutside(pages: map<Pgno, Page>, list: seq<TrunkRec>, i: nat, prev: Pgno, pages': map<Pgno, Page>)
    requires i < |list| && list[i].pgno in pages && pages[list[i].pgno].Trunk?
             && pages[list[i].pgno].leaves == list[i].leaves
    requires if i == 0 then prev == 0 else prev == list[i - 1].pgno != 0 && prev in pages && pages[prev].Trunk?
    requires pages' == CutTrunk(pages, prev, pages[list[i].pgno]).0
    ensures SameOutside(pages, pages', Free(list))
  {
    hide Free;
    var free := Free(list);
    assert list[i].leaves != [] ==> list[i].leaves[0] in free by { if list[i].leaves != [] { ListedLeaf(list, i, 0); } }
    assert i > 0 ==> list[i - 1].pgno in free by { if i > 0 { ListedTrunk(list, i - 1); } }
  }

  lemma CutTrunkChain(pages: map<Pgno, Page>, first: Pgno, list: seq<TrunkRec>, i: nat, prev: Pgno,
                      pages': map<Pgno, Page>, mid: Pgno)
    requires Chain(pages, first, list) && Distinct(Free(list)) && i < |list|
    requires list[i].pgno in pages && pages[list[i].pgno].Trunk? && pages[list[i].pgno].leaves == list[i].leaves
    requires if i == 0 then prev == 0 else prev == list[i - 1].pgno != 0 && prev in pages && pages[prev].Trunk?
    requires (pages', mid) == CutTrunk(pages, prev, pages[list[i].pgno])
    requires list[i].leaves != [] ==> mid != 0
    ensures Chain(pages', if i == 0 then mid else first, list[..i] + Promote(list[i]) + list[i + 1..])
  {
    var t := pages[list[i].pgno];
    OtherTrunks(list, i);
    if i > 0 { ChainAt(pages, first, list, i - 1); OtherTrunks(list, i - 1); }
    ChainReplace(pages, pages', first, list, i, Promote(list[i]), t.next, mid);
  }

  /** Page p comes from the first trunk: the trunk itself if it has no leaves, otherwise the leaf closest to
      nearby, or the first one if there is no page to be near to. */
  ghost predicate FromFirst(rec: TrunkRec, nearby: Pgno, p: Pgno) {
    if rec.leaves == [] then p == rec.pgno
    else
      && p in rec.leaves && (nearby == 0 ==> p == rec.leaves[0])
      && (nearby > 0 ==> forall l :: l in rec.leaves ==> Abs(p - nearby) <= Abs(l - nearby))
  }

  /** Page p answers the search: it is `nearby` itself, or at most it for BTALLOC_LE. */
  predicate Wanted(eMode: AllocMode, nearby: Pgno, p: Pgno) { p == nearby || (eMode.Le? && p < nearby) }

  lemma NoLeafWanted(leaves: seq<Pgno>, nearby: Pgno, eMode: AllocMode, closest: nat)
    requires closest < |leaves| && nearby > 0
    requires eMode.Le? && (exists l :: l in leaves && l <= nearby) ==> leaves[closest] <= nearby
    requires !eMode.Le? ==> forall l :: l in leaves ==> Abs(leaves[closest] - nearby) <= Abs(l - nearby)
    requires !Wanted(eMode, nearby, leaves[closest])
    ensures forall l :: l in leaves ==> !Wanted(eMode, nearby, l)
  {
  }

  lemma NextPrefix(list: seq<TrunkRec>, i: nat)
    requires i < |list|
    ensures Free(list[..i + 1]) == Free(list[..i]) + multiset{list[i].pgno} + multiset(list[i].leaves)
  {
    var l := list[..i + 1];
    FreeAt(l, i);
    assert l[..i] == list[..i] && l[i] == list[i] && l[i + 1..] == [];
  }

  /** One more page is on the list, and only listed pages were written. */
  ghost predicate Added(pages: map<Pgno, Page>, list: seq<TrunkRec>, pages': map<Pgno, Page>, list': seq<TrunkRec>,
                        x: Pgno) {
    Free(list') == Free(list) + multiset{x} && |Free(list')| == |Free(list)| + 1
        && SameOutside(pages, pages', Free(list'))
  }

  lemma AddLeafOk(g: Geometry, autoVacuum: bool, nPage: Pgno, pages: map<Pgno, Page>, first: Pgno, list: seq<TrunkRec>,
                  x: Pgno, pages': map<Pgno, Page>, list': seq<TrunkRec>)
    requires FileOk(g, autoVacuum, nPage, pages, first, list) && list != []
    requires x !in Free(list) && x <= nPage && Allowed(g, autoVacuum, x)
    requires first in pages && pages[first].Trunk? && |list[0].leaves| < g.usableSize / 4 - 8
    requires pages' == pages[first := Trunk(pages[first].next, list[0].leaves + [x])]
    requires list' == [TrunkRec(first, list[0].leaves + [x])] + list[1..]
    ensures FileOk(g, autoVacuum, nPage, pages', first, list')
    ensures Added(pages, list, pages', list', x)
  {
    hide Free, Chain, Allowed, ListOk, Distinct;
    ChainHead(pages, first, list);
    assert list' == list[..0] + [TrunkRec(first, list[0].leaves + [x])] + list[0 + 1..];
    FewLeaves(g, autoVacuum, nPage, list, x, list');
    ChainNewLeaves(pages, first, list, 0, list[0].leaves + [x]);
    FreeAddLeaf(list, x, list');
    AddedListOk(g, autoVacuum, nPage, list, x, list');
    ListedTrunk(list', 0);
  }

  lemma ChainHead(pages: map<Pgno, Page>, first: Pgno, list: seq<TrunkRec>)
    requires Chain(pages, first, list) && list != []
    ensures first == list[0].pgno
  {
  }

  lemma FewLeaves(g: Geometry, autoVacuum: bool, nPage: Pgno, list: seq<TrunkRec>, x: Pgno, list': seq<TrunkRec>)
    requires ListOk(g, autoVacuum, nPage, list) && list != [] && |list[0].leaves| < g.usableSize / 4 - 8
    requires list' == [TrunkRec(list[0].pgno, list[0].leaves + [x])] + list[1..]
    ensures Distinct(Free(list)) && forall j :: 0 <= j < |list'| ==> |list'[j].leaves| <= g.usableSize / 4 - 2
  {
    hide Free, Allowed, Distinct;
    forall j | 1 <= j < |list'| ensures list'[j] == list[j] {}
  }

  lemma FreeAddLeaf(list: seq<TrunkRec>, x: Pgno, list': seq<TrunkRec>)
    requires list != [] && list' == [TrunkRec(list[0].pgno, list[0].leaves + [x])] + list[1..]
    ensures Free(list') == Free(list) + multiset{x}
  {
    assert list'[1..] == list[1..];
  }

  lemma AddedListOk(g: Geometry, autoVacuum: bool, nPage: Pgno, list: seq<TrunkRec>, x: Pgno, list': seq<TrunkRec>)
    requires ListOk(g, autoVacuum, nPage, list)
    requires x !in Free(list) && x <= nPage && Allowed(g, autoVacuum, x)
    requires Free(list') == Free(list) + multiset{x}
    requires forall j :: 0 <= j < |list'| ==> |list'[j].leaves| <= g.usableSize / 4 - 2
    ensures ListOk(g, autoVacuum, nPage, list') && |Free(list')| == |Free(list)| + 1
  {
    var before, after := Free(list), Free(list');
    forall p ensures after[p] <= 1 { assert before[p] <= 1; }
    forall p | p in after ensures p == x || p in before { }
  }

  lemma AddTrunkOk(g: Geometry, autoVacuum: bool, nPage: Pgno, pages: map<Pgno, Page>, first: Pgno, list: seq<TrunkRec>,
                   x: Pgno, iTrunk: Pgno, pages': map<Pgno, Page>, list': seq<TrunkRec>)
    requires FileOk(g, autoVacuum, nPage, pages, first, list) && g.Valid()
    requires x !in Free(list) && x <= nPage && Allowed(g, autoVacuum, x)
    requires iTrunk == if list == [] then 0 else first
    requires pages' == pages[x := Trunk(iTrunk, [])]
    requires list' == [TrunkRec(x, [])] + list
    ensures FileOk(g, autoVacuum, nPage, pages', x, list')
    ensures Added(pages, list, pages', list', x)
  {
    forall j | 0 <= j < |list| ensures list[j].pgno != x { FreePromote(list, j); }
    ChainFrame(pages, pages', first, list);
    assert list'[1..] == list;
    forall j | 0 <= j < |list'| ensures |list'[j].leaves| <= g.usableSize / 4 - 2 {
      if j > 0 { assert list'[j] == list[j - 1]; }
    }
    AddedListOk(g, autoVacuum, nPage, list, x, list');
  }

  /** After a pointer-map page come at least three pages that are not pointer-map pages. */
  lemma PtrmapPagesAreSparse(g: Geometry, p: Pgno, k: nat)
    requires g.Valid() && p >= 2 && IsPtrmapPage(g, p) && 1 <= k <= 2
    ensures !IsPtrmapPage(g, p + k)
  {
    var s := DivMod(p - 2, g.GroupSize());
    var q := Group(g, p);
    GroupIs(g, p, q, s);
    GroupIs(g, p + k, q, s + k);
  }

  /** The fields of BtShared and of the header page that the page allocator works on. */
  class BtShared {
    const g: Geometry
    const autoVacuum: bool
    var nPage: Pgno                     // size of the file in pages
    var firstTrunk: Pgno                // header offset 32
    var nFree: nat                      // header offset 36
    var pages: map<Pgno, Page>
    var ptrmap: map<Pgno, PtrEntry>
    ghost var list: seq<TrunkRec>       // the freelist spelled out

    /** The list is well formed, whatever the header says its length is. */
    ghost predicate ListValid()
      reads this
    {
      && g.Valid() && g.usableSize <= 65536 && 1 <= nPage
      && FileOk(g, autoVacuum, nPage, pages, firstTrunk, list)
    }

    ghost predicate Valid()
      reads this
    {
      ListValid() && nFree == |Free(list)|
    }

    constructor (g: Geometry, autoVacuum: bool, nPage: Pgno, pages: map<Pgno, Page>, ptrmap: map<Pgno, PtrEntry>)
      requires g.Valid() && g.usableSize <= 65536 && 1 <= nPage
      ensures Valid() && nFree == 0
      ensures this.g == g && this.autoVacuum == autoVacuum && this.nPage == nPage && this.pages == pages
              && this.ptrmap == ptrmap
    {
      this.g, this.autoVacuum, this.nPage, this.pages, this.ptrmap := g, autoVacuum, nPage, pages, ptrmap;
      firstTrunk, nFree, list := 0, 0, [];
    }

    /** Extract leaf c of trunk i. */
    method TakeLeaf(ghost i: nat, iTrunk: Pgno, c: nat) returns (pgno: Pgno)
      requires ListValid() && i < |list| && iTrunk == list[i].pgno
      requires iTrunk in pages && pages[iTrunk].Trunk? && pages[iTrunk].leaves == list[i].leaves
      requires c < |list[i].leaves|
      modifies this`pages, this`list
      ensures ListValid() && pgno == old(list[i].leaves[c])
      ensures Removed(old(pages), old(list), pages, list, pgno)
      ensures list == old(list[..i]) + [TrunkRec(iTrunk, DropLeaf(old(list[i].leaves), c))] + old(list[i + 1..])
    {
      hide DropLeaf, FileOk, Removed;
      var t := pages[iTrunk];
      pgno := t.leaves[c];
      var pages' := pages[iTrunk := Trunk(t.next, DropLeaf(t.leaves, c))];
      ghost var list' := list[..i] + [TrunkRec(iTrunk, DropLeaf(t.leaves, c))] + list[i + 1..];
      TakeLeafOk(g, autoVacuum, nPage, pages, firstTrunk, list, i, c, pages', list');
      pages, list := pages', list';
    }

    /** Extract trunk i itself; prev is the trunk before it, or 0. */
    method TakeTrunk(ghost i: nat, prev: Pgno, iTrunk: Pgno)
      requires ListValid() && i < |list| && iTrunk == list[i].pgno
      requires iTrunk in pages && pages[iTrunk].Trunk? && pages[iTrunk].leaves == list[i].leaves
      requires if i == 0 then prev == 0 else prev == list[i - 1].pgno != 0 && prev in pages && pages[prev].Trunk?
      modifies this`pages, this`list, this`firstTrunk
      ensures ListValid()
      ensures Removed(old(pages), old(list), pages, list, iTrunk)
      ensures list == old(list[..i]) + Promote(old(list[i])) + old(list[i + 1..])
    {
      var (pages', mid) := CutTrunk(pages, prev, pages[iTrunk]);
      ghost var list' := list[..i] + Promote(list[i]) + list[i + 1..];
      TakeTrunkOk(g, autoVacuum, nPage, pages, firstTrunk, list, i, prev, pages', mid, list');
      if prev == 0 { firstTrunk := mid; }
      pages, list := pages', list';
    }

    /** The search for a leaf near `nearby` on one trunk. */
    static method PickLeaf(leaves: seq<Pgno>, nearby: Pgno, eMode: AllocMode) returns (closest: nat)
      requires leaves != []
      ensures closest < |leaves|
      ensures nearby > 0 && eMode.Le? && (exists l :: l in leaves && l <= nearby) ==> leaves[closest] <= nearby
      ensures nearby > 0 && !eMode.Le? ==> forall l :: l in leaves ==> Abs(leaves[closest] - nearby) <= Abs(l - nearby)
      ensures nearby == 0 ==> closest == 0
      ensures nearby > 0 && !eMode.Le? ==>
                forall j :: 0 <= j < closest ==> Abs(leaves[closest] - nearby) < Abs(leaves[j] - nearby)
      ensures nearby > 0 && eMode.Le? ==> forall j :: 0 <= j < closest ==> leaves[j] > nearby
    {
      closest := 0;
      if nearby > 0 {
        if eMode.Le? {
          var i := 0;
          while i < |leaves|
            invariant 0 <= i <= |leaves| && closest == 0
            invariant forall j :: 0 <= j < i ==> leaves[j] > nearby
          {
            if leaves[i] <= nearby {
              closest := i;
              break;
            }
            i := i + 1;
          }
        } else {
          var dist := Abs(leaves[0] - nearby);
          for i := 1 to |leaves|
            invariant closest < |leaves| && dist == Abs(leaves[closest] - nearby)
            invariant forall j :: 0 <= j < i ==> dist <= Abs(leaves[j] - nearby)
            invariant forall j :: 0 <= j < closest ==> dist < Abs(leaves[j] - nearby)
          {
            var d2 := Abs(leaves[i] - nearby);
            if d2 < dist {
              closest, dist := i, d2;
            }
          }
        }
      }
    }
  
    /** Append a page to the file, stepping over the pending-byte page and over a new pointer-map page. */
    method AppendPage() returns (pgno: Pgno)
      requires ListValid() && list == []
      modifies this`nPage, this`pages
      ensures ListValid()
      ensures pgno == nPage > old(nPage) && Allowed(g, autoVacuum, pgno)
      ensures forall p :: old(nPage) < p < pgno ==> !Allowed(g, autoVacuum, p)
      ensures SamePrefix(old(pages), pages, old(nPage)) && pgno in pages && pages[pgno] == Blank
      ensures forall p :: old(nPage) < p < pgno && p != g.pendingPage ==> p in pages && pages[p] == Blank
    {
      ghost var n0 := nPage;
      nPage := nPage + 1;
      if nPage == g.pendingPage { nPage := nPage + 1; }
      if autoVacuum && IsPtrmapPage(g, nPage) {
        PtrmapPagesAreSparse(g, nPage, 1);
        PtrmapPagesAreSparse(g, nPage, 2);
        pages := pages[nPage := Blank];
        nPage := nPage + 1;
        if nPage == g.pendingPage { nPage := nPage + 1; }
      }
      pgno := nPage;
      pages := pages[pgno := Blank];
    }
  
    lemma FreeInRange(p: Pgno)
      requires ListValid()
      ensures p in Free(list) ==> 2 <= p <= nPage && Allowed(g, autoVacuum, p)
    {
      assert p in Free(list) ==> Allowed(g, autoVacuum, p);
    }

    /** Two different places of the list, trunks or leaves, hold different pages. */
    lemma ListedOnce(i: nat, k: nat, j: nat, l: nat)
      requires ListValid() && i < |list| && j < |list| && k <= |list[i].leaves| && l <= |list[j].leaves|
      ensures Slot(list[i], k) == Slot(list[j], l) ==> i == j && k == l
    {
      PlacesDiffer(list, i, k, j, l);
    }

    /** The header counts the pages on the list. */
    lemma HeaderCountsPages()
      requires Valid()
      ensures nFree == |PagesOn(Free(list))|
    {
      DistinctSize(Free(list), PagesOn(Free(list)));
    }

    lemma HeaderCountBelowPageCount()
      requires Valid()
      ensures nFree < nPage
    {
      forall p | p in Free(list) ensures 2 <= p <= nPage { assert Allowed(g, autoVacuum, p); }
      DistinctBound(Free(list), 2, nPage);
    }

    /** What the file says at trunk i. */
    lemma TrunkAt(i: nat)
      requires ListValid() && i <= |list|
      ensures list != [] ==> firstTrunk == list[0].pgno
      ensures i < |list| ==>
                && list[i].pgno in Free(list) && 1 <= list[i].pgno <= nPage
                && list[i].pgno in pages && pages[list[i].pgno].Trunk? && pages[list[i].pgno].leaves == list[i].leaves
                && pages[list[i].pgno].next == if i + 1 < |list| then list[i + 1].pgno else 0
    {
      if i < |list| {
        ListedTrunk(list, i);
        ChainAt(pages, firstTrunk, list, i);
        assert Allowed(g, autoVacuum, list[i].pgno);
      }
    }

    /** One turn of the search loop of allocateBtreePage: look at trunk i, which follows trunk prev. */
    method TryTrunk(ghost i: nat, prev: Pgno, iTrunk: Pgno, nearby: Pgno, eMode: AllocMode, searchList: bool)
      returns (found: bool, pgno: Pgno)
      requires ListValid() && i < |list| && iTrunk == list[i].pgno && (searchList ==> nearby > 0)
      requires if i == 0 then prev == 0 else prev == list[i - 1].pgno != 0 && prev in pages && pages[prev].Trunk?
      modifies this`firstTrunk, this`pages, this`list
      ensures ListValid()
      ensures found ==>
                Removed(old(pages), old(list), pages, list, pgno) && (searchList ==> Wanted(eMode, nearby, pgno))
      ensures !found ==> searchList && pages == old(pages) && list == old(list) && firstTrunk == old(firstTrunk)
      ensures !found ==> !Wanted(eMode, nearby, iTrunk) && forall l :: l in list[i].leaves ==> !Wanted(eMode, nearby, l)
      ensures !searchList && !eMode.Le? ==> FromFirst(old(list[i]), nearby, pgno)
    {
      hide FileOk, SameOutside, Free, Chain, Removed, Abs;
      TrunkAt(i);
      var leaves := pages[iTrunk].leaves;
      var k := |leaves|;
      found, pgno := true, iTrunk;
      if k == 0 && !searchList {
        TakeTrunk(i, prev, iTrunk);
      } else if searchList && Wanted(eMode, nearby, iTrunk) {
        TakeTrunk(i, prev, iTrunk);
      } else if k > 0 {
        var closest := PickLeaf(leaves, nearby, eMode);
        if !searchList || Wanted(eMode, nearby, leaves[closest]) {
          pgno := TakeLeaf(i, iTrunk, closest);
        } else {
          NoLeafWanted(leaves, nearby, eMode, closest);
          found := false;
        }
      } else {
        found := false;
      }
    }

    /** The search loop of allocateBtreePage.  Without searchList it stops at the first trunk. */
    method SearchTrunks(nearby: Pgno, eMode: AllocMode, searchList: bool, n: nat) returns (rc: Rc, pgno: Pgno)
      requires ListValid() && list != [] && n == |Free(list)| && (searchList ==> nearby > 0)
      modifies this`firstTrunk, this`pages, this`list
      ensures rc.Corrupt? <==> searchList && forall p :: p in old(Free(list)) ==> !Wanted(eMode, nearby, p)
      ensures rc.Corrupt? ==> pages == old(pages) && list == old(list) && firstTrunk == old(firstTrunk)
      ensures rc.Ok? ==> ListValid() && Removed(old(pages), old(list), pages, list, pgno)
      ensures rc.Ok? && searchList ==> Wanted(eMode, nearby, pgno)
      ensures !searchList && !eMode.Le? ==> FromFirst(old(list[0]), nearby, pgno)
    {
      hide FileOk, SameOutside, Wanted, Free, Chain, Removed, Abs, FromFirst;
      var prev, iTrunk, nSearch := 0, firstTrunk, 0;
      TrunkAt(0);
      EmptyList(list[..0]);
      assert Free(list[..0]) == multiset{};
      FreeSize(list);
      while true
        invariant ListValid() && pages == old(pages) && list == old(list) && firstTrunk == old(firstTrunk)
        invariant nSearch <= |list| && (nSearch > 0 ==> searchList)
        invariant iTrunk == (if nSearch < |list| then list[nSearch].pgno else 0)
        invariant if nSearch == 0 then prev == 0
                  else prev == list[nSearch - 1].pgno != 0 && prev in pages && pages[prev].Trunk?
        invariant forall p :: p in Free(list[..nSearch]) ==> !Wanted(eMode, nearby, p)
        decreases |list| - nSearch
      {
        TrunkAt(nSearch);
        if iTrunk == 0 || iTrunk > nPage || nSearch > n {
          assert list[..nSearch] == list;
          return Rc.Corrupt, 0;
        }
        NextPrefix(list, nSearch);
        var found;
        found, pgno := TryTrunk(nSearch, prev, iTrunk, nearby, eMode, searchList);
        if found {
          RemovedWasFree(old(pages), old(list), pages, list, pgno);
          return Rc.Ok, pgno;
        }
        prev, iTrunk, nSearch := iTrunk, pages[iTrunk].next, nSearch + 1;
      }
    }

    /** allocateBtreePage.  A page comes off the freelist if there is one, else the file grows.

        BTALLOC_EXACT delivers the page asked for whenever it is free; BTALLOC_LE delivers a page at
        or below `nearby`, and runs off the end of the list (page number 0, reported as corruption,
        with the header count already lowered) exactly when no free page is that low. */
    method AllocateBtreePage(nearby: Pgno, eMode: AllocMode) returns (rc: Rc, pgno: Pgno)
      requires Valid()
      requires eMode.Any? || (nearby > 0 && autoVacuum)
      requires eMode.Exact? && nFree > 0 && nearby <= nPage ==>
                 nearby in ptrmap && (ptrmap[nearby].kind.FreePage? <==> nearby in Free(list))
      modifies this`nPage, this`firstTrunk, this`nFree, this`pages, this`list
      ensures rc.Corrupt? <==> old(nFree) > 0 && eMode.Le? && forall p :: p in old(Free(list)) ==> p > nearby
      ensures rc.Corrupt? ==>
                nFree == old(nFree) - 1 && pages == old(pages) && list == old(list) && firstTrunk == old(firstTrunk)
      ensures rc.Ok? ==> Valid()
      ensures rc.Ok? && old(nFree) > 0 ==>
                && nFree == old(nFree) - 1 && nPage == old(nPage)
                && Removed(old(pages), old(list), pages, list, pgno)
      ensures rc.Ok? && old(nFree) > 0 && eMode.Exact? && nearby in old(Free(list)) ==> pgno == nearby
      ensures rc.Ok? && old(nFree) > 0 && eMode.Le? ==> pgno <= nearby
      ensures rc.Ok? && old(nFree) > 0 && (eMode.Any? || (eMode.Exact? && nearby !in old(Free(list)))) ==>
                FromFirst(old(list[0]), nearby, pgno)
      ensures old(nFree) == 0 ==>
                && nFree == 0 && pgno == nPage > old(nPage) && Allowed(g, autoVacuum, pgno)
                && (forall p :: old(nPage) < p < pgno ==> !Allowed(g, autoVacuum, p))
                && SamePrefix(old(pages), pages, old(nPage))
    {
      hide FileOk, SameOutside, SamePrefix, Free, Chain, Allowed, Abs, Removed, FromFirst;
      FreeInRange(nearby);
      rc, pgno := Rc.Ok, 0;
      var n := nFree;
      HeaderCountBelowPageCount();
      assert n < nPage;   // so the corruption test on the header count never fires
      EmptyList(list);
      if n == 0 {
        pgno := AppendPage();
        return;
      }
      var searchList := false;
      if eMode.Exact? {
        if nearby <= nPage { searchList := ptrmap[nearby].kind.FreePage?; }
      } else if eMode.Le? {
        searchList := true;
      }
      nFree := n - 1;
      rc, pgno := SearchTrunks(nearby, eMode, searchList, n);
      if rc.Ok? { RemovedWasFree(old(pages), old(list), pages, list, pgno); }
    }

    /** Page iPage becomes the last leaf of the first trunk. */
    method PushLeaf(iPage: Pgno)
      requires ListValid() && list != [] && firstTrunk in pages && pages[firstTrunk].Trunk?
      requires pages[firstTrunk].leaves == list[0].leaves && |list[0].leaves| < g.usableSize / 4 - 8
      requires iPage !in Free(list) && iPage <= nPage && Allowed(g, autoVacuum, iPage)
      modifies this`pages, this`list
      ensures ListValid() && Added(old(pages), old(list), pages, list, iPage)
      ensures list == [TrunkRec(firstTrunk, old(list[0].leaves) + [iPage])] + old(list)[1..]
    {
      var t := pages[firstTrunk];
      var pages' := pages[firstTrunk := Trunk(t.next, t.leaves + [iPage])];
      ghost var list' := [TrunkRec(firstTrunk, t.leaves + [iPage])] + list[1..];
      AddLeafOk(g, autoVacuum, nPage, pages, firstTrunk, list, iPage, pages', list');
      pages, list := pages', list';
    }

    /** Page iPage becomes the first trunk. */
    method PushTrunk(iPage: Pgno, iTrunk: Pgno)
      requires ListValid() && iTrunk == if list == [] then 0 else firstTrunk
      requires iPage !in Free(list) && iPage <= nPage && Allowed(g, autoVacuum, iPage)
      modifies this`pages, this`list, this`firstTrunk
      ensures ListValid() && Added(old(pages), old(list), pages, list, iPage)
      ensures list == [TrunkRec(iPage, [])] + old(list)
    {
      var pages' := pages[iPage := Trunk(iTrunk, [])];
      ghost var list' := [TrunkRec(iPage, [])] + list;
      AddTrunkOk(g, autoVacuum, nPage, pages, firstTrunk, list, iPage, iTrunk, pages', list');
      firstTrunk, pages, list := iPage, pages', list';
    }

    /** freePage2: page iPage joins the freelist, as a leaf of the first trunk while that has room and
        as a new first trunk otherwise. */
    method FreePage2(iPage: Pgno) returns (rc: Rc)
      requires Valid()
      requires iPage >= 2 ==> iPage !in Free(list) && iPage <= nPage && Allowed(g, autoVacuum, iPage)
      modifies this`firstTrunk, this`nFree, this`pages, this`list, this`ptrmap
      ensures rc.Corrupt? <==> iPage < 2
      ensures rc.Corrupt? ==> unchanged(this)
      ensures rc.Ok? ==> Valid() && nFree == old(nFree) + 1 && Added(old(pages), old(list), pages, list, iPage)
      ensures rc.Ok? ==>
                if old(list) != [] && |old(list[0].leaves)| < g.usableSize / 4 - 8
                then list == [TrunkRec(old(list[0].pgno), old(list[0].leaves) + [iPage])] + old(list)[1..]
                else list == [TrunkRec(iPage, [])] + old(list)
      ensures rc.Ok? ==> ptrmap == if autoVacuum then old(ptrmap)[iPage := PtrEntry(FreePage, 0)] else old(ptrmap)
    {
      hide FileOk, SameOutside, Allowed, Free, Chain, Added;
      if iPage < 2 { return Rc.Corrupt; }
      EmptyList(list);
      TrunkAt(0);
      rc := Rc.Ok;
      if autoVacuum { ptrmap := ptrmap[iPage := PtrEntry(FreePage, 0)]; }
      var iTrunk := 0;
      if nFree != 0 {
        iTrunk := firstTrunk;
        if |pages[iTrunk].leaves| < g.usableSize / 4 - 8 {
          PushLeaf(iPage);
          nFree := nFree + 1;
          return;
        }
      }
      PushTrunk(iPage, iTrunk);
      nFree := nFree + 1;
    }
  }
}
