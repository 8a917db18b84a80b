/** Pointer-map arithmetic of an auto-vacuum database file.

    Pages 1..n of the file are of three kinds: pointer-map pages, the
    pending-byte page, and content pages.  This module models how the file
    decides which page is which, where the entry of a page is stored, and how
    many pages are left when every free page has been squeezed out. */
module PointerMap {
  import opened Arith
  import opened ByteTypes

  type Pgno = nat

  /** The part of BtShared that fixes the page layout. */
  datatype Geometry = Geometry(usableSize: nat, pendingPage: Pgno) {
    /** Entries on one pointer-map page. */
    function Entries(): nat { usableSize / 5 }

    /** Pages governed by one pointer-map page, itself included. */
    function GroupSize(): nat { usableSize / 5 + 1 }

    /** SQLite refuses pages with fewer than 480 usable bytes; the pending byte never lies on page 1. */
    predicate Valid() { usableSize >= 480 && pendingPage >= 2 }
  }

  /** Upper bound on page numbers (SQLITE_MAX_PAGE_COUNT of a default build is half of it). */
  const MAX_PAGE: Pgno := 0x7fff_fffe

  /** Unsigned 32-bit wrap-around. */
  function Wrap(x: int): (r: int)
    ensures 0 <= r < U32
    ensures 0 <= x < U32 ==> r == x
  {
    x % U32
  }

  // ----- ptrmapPageno, PTRMAP_ISPAGE, PTRMAP_PTROFFSET

  function PtrmapPageno(g: Geometry, pgno: Pgno): Pgno
  {
    if pgno < 2 then 0
    else
      var perMap := g.GroupSize();
      var ret := (pgno - 2) / perMap * perMap + 2;
      if ret == g.pendingPage then ret + 1 else ret
  }

  predicate IsPtrmapPage(g: Geometry, pgno: Pgno) { PtrmapPageno(g, pgno) == pgno }

  function PtrOffset(ptrmapPage: Pgno, pgno: Pgno): int { 5 * (pgno - ptrmapPage - 1) }

  /** A page that can hold database content: neither a pointer-map page nor the pending-byte page. */
  predicate IsContent(g: Geometry, pgno: Pgno) {
    pgno >= 1 && !IsPtrmapPage(g, pgno) && pgno != g.pendingPage
  }

  /** Number of content pages among pages 1..n. */
  function ContentCount(g: Geometry, n: Pgno): nat {
    if n == 0 then 0 else ContentCount(g, n - 1) + (if IsContent(g, n) then 1 else 0)
  }

  // ----- Groups of pages

  /** The group a page belongs to, and its position in that group. */
  function Group(g: Geometry, pgno: Pgno): int requires pgno >= 2 { (pgno - 2) / g.GroupSize() }

  lemma GroupIs(g: Geometry, pgno: Pgno, q: int, r: int)
    requires pgno == q * g.GroupSize() + r + 2 && 0 <= r < g.GroupSize() && pgno >= 2
    ensures Group(g, pgno) == q
    ensures PtrmapPageno(g, pgno) == if q * g.GroupSize() + 2
            == g.pendingPage then q * g.GroupSize() + 3 else q * g.GroupSize() + 2
  {
    DivUnique(g.GroupSize(), q, r);
  }

  /** The page that opens the group of pgno. */
  function GroupStart(g: Geometry, pgno: Pgno): Pgno
    requires pgno >= 2
  {
    Group(g, pgno) * g.GroupSize() + 2
  }

  lemma InGroup(g: Geometry, pgno: Pgno)
    requires pgno >= 2
    ensures GroupStart(g, pgno) <= pgno < GroupStart(g, pgno) + g.GroupSize()
    ensures PtrmapPageno(g, pgno) == GroupStart(g, pgno) + (if GroupStart(g, pgno) == g.pendingPage then 1 else 0)
  {
    var r := DivMod(pgno - 2, g.GroupSize());
  }

  /** From one page to the next, the group changes exactly at its opening page. */
  lemma NextPage(g: Geometry, n: Pgno)
    requires g.Valid() && n >= 3
    ensures if GroupStart(g, n) == n
            then Group(g, n - 1) == Group(g, n) - 1 && GroupStart(g, n - 1) == n - g.GroupSize()
            else Group(g, n - 1) == Group(g, n) && GroupStart(g, n - 1) == GroupStart(g, n)
  {
    var p, q := g.GroupSize(), Group(g, n);
    InGroup(g, n);
    if GroupStart(g, n) == n {
      assert (q - 1) * p == q * p - p;
      GroupIs(g, n - 1, q - 1, p - 1);
    } else {
      GroupIs(g, n - 1, q, n - 1 - GroupStart(g, n));
    }
  }

  /** A map page is filled before the next group begins: there is no room left for the entry of the page that
      opens the next group.  Only if the pending-byte page took the place of the map page is there room for
      that one entry, and no other. */
  lemma MapPageIsFilled(g: Geometry, n: Pgno)
    requires g.Valid() && n >= 3 && GroupStart(g, n) == n
    ensures var m, shift := PtrmapPageno(g, n - 1), if GroupStart(g, n - 1) == g.pendingPage then 5 else 0;
            PtrOffset(m, n - 1) + 5 <= g.usableSize < PtrOffset(m, n) + shift + 5 <= g.usableSize + 5
    ensures 5 * g.Entries() <= g.usableSize < 5 * g.Entries() + 5 && g.GroupSize() == g.Entries() + 1
  {
    NextPage(g, n);
    InGroup(g, n - 1);
  }

  /** One if the pending-byte page counts as one of the pages up to n, the last of which is in a group
      that starts at start. */
  function PendingBelow(n: int, start: int, pending: int): int {
    if pending <= n && !(n == pending == start) then 1 else 0
  }

  /** Pages 1..n less one pointer-map page for each group up to that of n, less the pending-byte
      page.  A pending-byte page that opens a group comes before the pointer-map page of the group. */
  function ClosedForm(g: Geometry, n: Pgno): int
    requires n >= 2
  {
    n - Group(g, n) - 1 - PendingBelow(n, GroupStart(g, n), g.pendingPage)
  }

  lemma {:induction false} ContentCountClosedForm(g: Geometry, n: Pgno)
    requires g.Valid() && n >= 2
    ensures ContentCount(g, n) == ClosedForm(g, n)
  {
    InGroup(g, n);
    if n == 2 {
      assert Group(g, 2) == 0 by { DivUnique(g.GroupSize(), 0, 0); }
      assert ContentCount(g, 1) == 1 by { assert ContentCount(g, 0) == 0; }
    } else {
      ContentCountClosedForm(g, n - 1);
      NextPage(g, n);
      ClosedFormStep(g, n);
    }
  }

  lemma ClosedFormStep(g: Geometry, n: Pgno)
    requires g.Valid() && n >= 3
    requires GroupStart(g, n) <= n
    requires PtrmapPageno(g, n) == GroupStart(g, n) + (if GroupStart(g, n) == g.pendingPage then 1 else 0)
    requires if GroupStart(g, n) == n
             then Group(g, n - 1) == Group(g, n) - 1 && GroupStart(g, n - 1) == n - g.GroupSize()
             else Group(g, n - 1) == Group(g, n) && GroupStart(g, n - 1) == GroupStart(g, n)
    ensures ClosedForm(g, n) == ClosedForm(g, n - 1) + (if IsContent(g, n) then 1 else 0)
  {
    hide GroupStart, Group, PtrmapPageno;
  }

  /** The pending-byte page is never used as a pointer-map page, and a pointer-map page maps to itself. */
  lemma PtrmapPageIsNeverPending(g: Geometry, pgno: Pgno)
    requires g.Valid() && pgno >= 2
    ensures !IsPtrmapPage(g, g.pendingPage)
    ensures PtrmapPageno(g, pgno) != g.pendingPage
    ensures IsPtrmapPage(g, PtrmapPageno(g, pgno))
  {
    PendingIsNoMapPage(g);
    MapPageIsOne(g, pgno);
  }

  lemma PendingIsNoMapPage(g: Geometry)
    requires g.Valid()
    ensures !IsPtrmapPage(g, g.pendingPage)
  {
    var p := g.GroupSize();
    GroupIs(g, g.pendingPage, (g.pendingPage - 2) / p, (g.pendingPage - 2) % p);
  }

  lemma MapPageIsOne(g: Geometry, pgno: Pgno)
    requires g.Valid() && pgno >= 2
    ensures PtrmapPageno(g, pgno) != g.pendingPage && IsPtrmapPage(g, PtrmapPageno(g, pgno))
  {
    var p := g.GroupSize();
    var q, r := (pgno - 2) / p, (pgno - 2) % p;
    GroupIs(g, pgno, q, r);
    var m := PtrmapPageno(g, pgno);
    GroupIs(g, m, q, m - 2 - q * p);
  }

  // ----- Placement of the entry of a page

  /** The entry of a content page above page 1 lies wholly inside the usable part of its pointer-map page. */
  lemma EntryInBounds(g: Geometry, pgno: Pgno)
    requires g.Valid() && pgno >= 2 && IsContent(g, pgno)
    ensures 0 <= PtrOffset(PtrmapPageno(g, pgno), pgno) <= g.usableSize - 5
    ensures PtrmapPageno(g, pgno) < pgno
  {
    var p := g.GroupSize();
    GroupIs(g, pgno, (pgno - 2) / p, (pgno - 2) % p);
  }

  /** A pointer-map page describes exactly the pages that follow it up to the end of its group: all of
      usableSize/5, or one fewer if it had to give way to the pending-byte page. */
  lemma PagesOfMapPage(g: Geometry, mapPage: Pgno, key: Pgno)
    requires g.Valid() && mapPage >= 2 && IsPtrmapPage(g, mapPage) && IsContent(g, key)
    ensures PtrmapPageno(g, key) == mapPage <==>
              mapPage < key <= mapPage + g.Entries() - (if GroupStart(g, mapPage) == g.pendingPage then 1 else 0)
  {
    hide GroupStart;
    InGroup(g, mapPage);
    if key >= 2 { SameGroup(g, mapPage, key); }
  }

  lemma SameGroup(g: Geometry, mapPage: Pgno, key: Pgno)
    requires g.Valid() && mapPage >= 2 && key >= 2 && IsPtrmapPage(g, mapPage)
    ensures GroupStart(g, key) <= key < GroupStart(g, key) + g.GroupSize()
    ensures PtrmapPageno(g, key) == mapPage ==> GroupStart(g, key) == GroupStart(g, mapPage)
    ensures GroupStart(g, mapPage) <= key < GroupStart(g, mapPage) + g.GroupSize() ==> PtrmapPageno(g, key) == mapPage
  {
    hide PtrmapPageno;
    InGroup(g, mapPage);
    InGroup(g, key);
    if PtrmapPageno(g, key) == mapPage { GroupIs(g, mapPage, Group(g, key), mapPage - GroupStart(g, key)); }
    if GroupStart(g, mapPage) <= key < GroupStart(g, mapPage) + g.GroupSize() {
      GroupIs(g, key, Group(g, mapPage), key - GroupStart(g, mapPage));
    }
  }

  // ----- The pointer map as bytes

  /** Big-endian 4-byte integers, as put4byte and get4byte store them. */
  function Put4(v: int): (s: seq<byte>)
    requires 0 <= v < U32
    ensures |s| == 4
  {
    var hi, lo := v / 0x1_0000, v % 0x1_0000;
    [hi / 256, hi % 256, lo / 256, lo % 256]
  }

  function Get4(s: seq<byte>, at: nat): (v: int)
    requires at + 4 <= |s|
    ensures 0 <= v < U32
  {
    ((s[at] as int) * 256 + s[at + 1] as int) * 0x1_0000 + (s[at + 2] as int) * 256 + s[at + 3] as int
  }

  lemma PutGet4(v: int, s: seq<byte>, at: nat)
    requires 0 <= v < U32 && at + 4 <= |s| && s[at..at + 4] == Put4(v)
    ensures Get4(s, at) == v
  {
    var hi, lo := v / 0x1_0000, v % 0x1_0000;
    var w := s[at..at + 4];
    assert w[0] == hi / 256 && w[1] == hi % 256 && w[2] == lo / 256 && w[3] == lo % 256;
    assert w[0] == s[at] && w[1] == s[at + 1] && w[2] == s[at + 2] && w[3] == s[at + 3];
    assert (s[at] as int) * 256 + s[at + 1] as int == hi;
    assert (s[at + 2] as int) * 256 + s[at + 3] as int == lo;
  }

  datatype Entry = Entry(kind: byte, parent: Pgno)

  datatype Result<T> = Ok(value: T) | Corrupt

  /** The pager, as far as the pointer map needs it: the bytes of every page. */
  type PageStore = map<Pgno, seq<byte>>

  predicate ValidStore(g: Geometry, st: PageStore)
  {
    forall p :: p in st ==> |st[p]| >= g.usableSize
  }

  /** A page with the five bytes of an entry in place. */
  function Stored(s: seq<byte>, at: nat, e: Entry): (r: seq<byte>)
    requires at + 5 <= |s| && e.parent < U32
    ensures |r| == |s|
  {
    s[..at] + [e.kind] + Put4(e.parent) + s[at + 5..]
  }

  /** ptrmapPut: write the entry of page key. */
  function PtrmapPut(g: Geometry, st: PageStore, key: Pgno, e: Entry): (r: Result<PageStore>)
    requires ValidStore(g, st) && e.parent < U32
    requires g.Valid()
    ensures r.Ok? ==> ValidStore(g, r.value) && r.value.Keys == st.Keys
  {
    var page := PtrmapPageno(g, key);
    var offset := PtrOffset(page, key);
    if key == 0 || page !in st || offset < 0 || offset > g.usableSize - 5 then Corrupt
    else
      Ok(st[page := Stored(st[page], offset, e)])
  }

  /** ptrmapGet: read the entry of page key; types outside 1..5 are corrupt. */
  function PtrmapGet(g: Geometry, st: PageStore, key: Pgno): Result<Entry>
    requires ValidStore(g, st) && g.Valid()
  {
    var page := PtrmapPageno(g, key);
    var offset := PtrOffset(page, key);
    if page !in st || offset < 0 || offset > g.usableSize - 5 then Corrupt
    else if st[page][offset] < 1 || st[page][offset] > 5 then Corrupt
    else Ok(Entry(st[page][offset], Get4(st[page], offset + 1)))
  }

  /** The byte-level pointer map behaves as a plain map from content pages to entries: an entry that
      was put is read back, as corruption if its type is not one of 1..5, every other page keeps what it
      had, and writing never fails while the pointer-map page exists. */
  lemma PtrmapRefinesMap(g: Geometry, st: PageStore, key: Pgno, e: Entry, other: Pgno)
    requires ValidStore(g, st) && g.Valid() && e.parent < U32
    requires key >= 2 && IsContent(g, key) && PtrmapPageno(g, key) in st
    requires other >= 2 && IsContent(g, other)
    ensures PtrmapPut(g, st, key, e).Ok?
    ensures PtrmapGet(g, PtrmapPut(g, st, key, e).value, key) == if 1 <= e.kind <= 5 then Ok(e) else Corrupt
    ensures other != key ==> PtrmapGet(g, PtrmapPut(g, st, key, e).value, other) == PtrmapGet(g, st, other)
  {
    hide IsContent, PtrmapPageno, Put4, Get4, Stored;
    EntryInBounds(g, key);
    EntryInBounds(g, other);
    var page, offset := PtrmapPageno(g, key), PtrOffset(PtrmapPageno(g, key), key);
    StoredBytes(st[page], offset, e);
    if other != key && PtrmapPageno(g, other) == page { StoredElsewhere(st[page], offset, e, PtrOffset(page, other)); }
  }

  /** Page 0 and the map pages themselves have no entry, and no entry can be written or read without its map
      page. */
  lemma PtrmapRefuses(g: Geometry, st: PageStore, key: Pgno, e: Entry)
    requires ValidStore(g, st) && g.Valid() && e.parent < U32
    ensures key == 0 || PtrmapPageno(g, key) !in st || (key >= 2 && IsPtrmapPage(g, key)) ==>
              PtrmapPut(g, st, key, e).Corrupt?
    ensures PtrmapPageno(g, key) !in st || (key >= 2 && IsPtrmapPage(g, key)) ==> PtrmapGet(g, st, key).Corrupt?
  {
    hide PtrmapPageno;
  }

  lemma StoredBytes(s: seq<byte>, at: nat, e: Entry)
    requires at + 5 <= |s| && e.parent < U32
    ensures Stored(s, at, e)[at] == e.kind && Get4(Stored(s, at, e), at + 1) == e.parent
  {
    hide Get4, Put4;
    var s' := Stored(s, at, e);
    var p := Put4(e.parent);
    forall i | 0 <= i < 4 ensures s'[at + 1 + i] == p[i] {}
    assert s'[at + 1..at + 5] == p;
    PutGet4(e.parent, s', at + 1);
  }

  lemma StoredElsewhere(s: seq<byte>, at: nat, e: Entry, o: nat)
    requires at + 5 <= |s| && e.parent < U32 && o + 5 <= |s| && (o + 5 <= at || at + 5 <= o)
    ensures Stored(s, at, e)[o] == s[o] && Get4(Stored(s, at, e), o + 1) == Get4(s, o + 1)
  {
    hide Put4;
    var s' := Stored(s, at, e);
    assert forall i :: o <= i < o + 5 ==> s'[i] == s[i];
    assert s'[o + 1] == s[o + 1] && s'[o + 2] == s[o + 2] && s'[o + 3] == s[o + 3] && s'[o + 4] == s[o + 4];
  }

  // ----- finalDbSize

  /** Dropping trailing pages without content does not change how much content there is. */
  lemma ContentCountMonotone(g: Geometry, a: Pgno, b: Pgno)
    requires a <= b
    ensures ContentCount(g, a) <= ContentCount(g, b) <= ContentCount(g, a) + (b - a)
    decreases b - a
  {
    if a < b { ContentCountMonotone(g, a, b - 1); }
  }

  /** Content pages are determined by their rank. */
  lemma ContentCountStrict(g: Geometry, a: Pgno, b: Pgno)
    requires a < b && IsContent(g, b)
    ensures ContentCount(g, a) < ContentCount(g, b)
  {
    ContentCountMonotone(g, a, b - 1);
  }

  /** Where the estimate lands, as plain integer arithmetic: in group d = q - nPtrmap, at position k + e - t. */
  lemma EstimatePosition(p: int, k: int, q: int, s: int, e: int, nFree: nat, x: int, nPtrmap: int, t: int, d: int)
    requires p == k + 1 && k >= 1 && x == nFree - (s - e) + k && x == nPtrmap * k + t && d == q - nPtrmap
    ensures (q * p + s + 2) - nFree - nPtrmap == d * p + (k + e - t) + 2
  {
    assert nPtrmap * p == nPtrmap * k + nPtrmap;
    assert d * p == q * p - nPtrmap * p;
  }

  /** The value nOrig - nFree - nPtrmap, corrected for the pending-byte page, keeps exactly nFree
      content pages fewer than nOrig did.  Only the trailing pages without content are left to drop. */
  lemma EstimateIsExact(g: Geometry, nOrig: Pgno, nFree: nat, x: int, nPtrmap: int, n1: int, n2: int)
    requires g.Valid() && IsContent(g, nOrig) && nFree < ContentCount(g, nOrig)
    requires x == nFree - nOrig + PtrmapPageno(g, nOrig) + g.Entries()
    requires nPtrmap == x / g.Entries()
    requires n1 == nOrig - nFree - nPtrmap
    requires n2 == if nOrig > g.pendingPage && n1 < g.pendingPage then n1 - 1 else n1
    ensures 0 <= x <= nFree + g.Entries() && 0 <= nPtrmap && 1 <= n2 <= nOrig
    ensures ContentCount(g, n2) == ContentCount(g, nOrig) - nFree
  {
    var p, k := g.GroupSize(), g.Entries();
    var t := DivMod(x, k);
    assert ContentCount(g, 1) == 1 by { assert ContentCount(g, 0) == 0; }
    if nOrig > 1 {
      var s := DivMod(nOrig - 2, p);
      var q := Group(g, nOrig);
      GroupIs(g, nOrig, q, s);
      var e := if q * p + 2 == g.pendingPage then 1 else 0;
      EstimatePosition(p, k, q, s, e, nFree, x, nPtrmap, t, q - nPtrmap);
      LandsInGroup(g, nOrig, nFree, q, s, e, q - nPtrmap, t, n1, n2);
    }
  }

  /** Second half of EstimateIsExact: what the estimate counts. */
  lemma LandsInGroup(g: Geometry, nOrig: Pgno, nFree: nat, q: int, s: int, e: int, d: int, t: int, n1: int, n2: int)
    requires g.Valid() && IsContent(g, nOrig) && nOrig >= 2 && nFree < ContentCount(g, nOrig)
    requires q >= 0 && 0 <= s < g.GroupSize() && nOrig == q * g.GroupSize() + s + 2
    requires e == if q * g.GroupSize() + 2 == g.pendingPage then 1 else 0
    requires d <= q && 0 <= t < g.Entries()
    requires n1 == nOrig - nFree - (q - d)
    requires n1 == d * g.GroupSize() + (g.Entries() + e - t) + 2
    requires n2 == if nOrig > g.pendingPage && n1 < g.pendingPage then n1 - 1 else n1
    ensures 1 <= n2 <= nOrig
    ensures ContentCount(g, n2) == ContentCount(g, nOrig) - nFree
  {
    var p, k := g.GroupSize(), g.Entries();
    GroupIs(g, nOrig, q, s);
    ContentCountClosedForm(g, nOrig);
    LastGroup(p, k, d, t, e, n1, nOrig - nFree - q);
    if d < 0 {
      assert ContentCount(g, 1) == 1 by { assert ContentCount(g, 0) == 0; }
      if n2 == 2 { ContentCountClosedForm(g, 2); DivUnique(p, 0, 0); }
    } else {
      LandsAbove(g, nOrig, nFree, q, s, e, d, t, n1, n2);
    }
  }

  lemma LandsAbove(g: Geometry, nOrig: Pgno, nFree: nat, q: int, s: int, e: int, d: int, t: int, n1: int, n2: int)
    requires g.Valid() && IsContent(g, nOrig) && nOrig >= 2 && nFree < ContentCount(g, nOrig)
    requires q >= 0 && 0 <= s < g.GroupSize() && nOrig == q * g.GroupSize() + s + 2
    requires e == if q * g.GroupSize() + 2 == g.pendingPage then 1 else 0
    requires 0 <= d <= q && 0 <= t < g.Entries()
    requires n1 == nOrig - nFree - (q - d)
    requires n1 == d * g.GroupSize() + (g.Entries() + e - t) + 2
    requires n2 == if nOrig > g.pendingPage && n1 < g.pendingPage then n1 - 1 else n1
    ensures 1 <= n2 <= nOrig
    ensures ContentCount(g, n2) == ContentCount(g, nOrig) - nFree
  {
    var p := g.GroupSize();
    ProductsApart(p, d, q);
    CountsAgree(p, q, d, q * p, d * p, s, e, t, nOrig, nFree, n1, n2, g.pendingPage);
    CountOf(g, nOrig, q, s);
    var o := n2 - 2 - d * p;
    if o == p {
      // the estimate is the pending-byte page that opens the group of nOrig
      SameGroupAsPending(p, q, d, n1, g.pendingPage);
      CountOf(g, n2, q, 0);
    } else {
      CountOf(g, n2, d, o);
    }
  }

  lemma CountOf(g: Geometry, n: Pgno, q: int, s: int)
    requires g.Valid() && n >= 2 && 0 <= s < g.GroupSize() && n == q * g.GroupSize() + s + 2
    ensures ContentCount(g, n) == n - q - 1 - PendingBelow(n, q * g.GroupSize() + 2, g.pendingPage)
  {
    GroupIs(g, n, q, s);
    ContentCountClosedForm(g, n);
  }

  lemma ProductsApart(p: int, d: int, q: int)
    requires p > 0 && 0 <= d <= q
    ensures 0 <= d * p && (if d < q then d * p + p <= q * p else d * p == q * p)
  {
    if d < q {
      MulAtLeast(q - d, p);
      assert (q - d) * p == q * p - d * p;
    }
  }

  /** The case distinctions about the pending-byte page, for page numbers qp + s + 2 and dp + o + 2. */
  lemma CountsAgree(p: int, q: int, d: int, qp: int, dp: int, s: int, e: int, t: int, nOrig: int, nFree: nat, n1: int,
                    n2: int, pending: int)
    requires p >= 2 && 0 <= s < p && nOrig == qp + s + 2 && nOrig != pending && 0 <= t < p - 1 && 0 <= dp
    requires if d < q then dp + p <= qp else d == q && dp == qp
    requires e == if qp + 2 == pending then 1 else 0
    requires n1 == nOrig - nFree - (q - d) && n1 == dp + (p - 1 + e - t) + 2
    requires n2 == if nOrig > pending && n1 < pending then n1 - 1 else n1
    ensures 2 <= n2 <= nOrig && 0 <= n2 - 2 - dp <= p
    ensures n2 - 2 - dp == p ==> d < q && n1 == n2 && n1 == dp + p + 2 && pending == qp + 2 && n1 >= pending
    ensures n2 - 2 - dp == p && n1 == pending && d + 1 == q ==>
              n2 - q - 1 - PendingBelow(n2, qp + 2, pending)
                  == nOrig - q - 1 - PendingBelow(nOrig, qp + 2, pending) - nFree
    ensures n2 - 2 - dp < p ==>
              n2 - d - 1 - PendingBelow(n2, dp + 2, pending)
              == nOrig - q - 1 - PendingBelow(nOrig, qp + 2, pending) - nFree
  {
  }

  lemma SameGroupAsPending(p: int, q: int, d: int, n1: int, pending: int)
    requires p > 0 && d < q && n1 == d * p + p + 2 && pending == q * p + 2 && n1 >= pending
    ensures d + 1 == q && n1 == pending
  {
    assert (d + 1) * p == d * p + p;
    assert (q - (d + 1)) * p == q * p - (d + 1) * p;
    if d + 1 < q { MulAtLeast(q - (d + 1), p); }
  }

  /** Freeing fewer pages than there are leaves page 1: the estimate passes group 0 only to reach it. */
  lemma LastGroup(p: int, k: int, d: int, t: int, e: int, n1: int, left: int)
    requires p == k + 1 && k >= 2 && 0 <= t < k && 0 <= e <= 1
    requires n1 == d * p + (k + e - t) + 2 && n1 == left + d && left >= 2 + e
    ensures d >= -1
    ensures d == -1 ==> t == 0 && left == 2 + e && n1 == 1 + e
  {
    assert d * p == d * k + d;
    assert (-d - 1) * k == -(d * k) - k;
    if d < -1 { MulAtLeast(-d - 1, k); }
  }

  /** The first part of finalDbSize.  Every operand is a 32-bit unsigned integer. */
  function SizeEstimate(g: Geometry, nOrig: Pgno, nFree: nat): Pgno
    requires g.Valid()
  {
    var nEntry := g.Entries();
    var nPtrmap := Wrap(nFree - nOrig + PtrmapPageno(g, nOrig) + nEntry) / nEntry;
    var nFin := Wrap(nOrig - nFree - nPtrmap);
    if nOrig > g.pendingPage && nFin < g.pendingPage then Wrap(nFin - 1) else nFin
  }

  /** The unsigned arithmetic never wraps for a file that holds more content pages than free ones. */
  lemma SizeEstimateIsExact(g: Geometry, nOrig: Pgno, nFree: nat)
    requires g.Valid() && g.usableSize <= 65536 && nOrig <= MAX_PAGE
    requires IsContent(g, nOrig) && nFree < ContentCount(g, nOrig)
    ensures 1 <= SizeEstimate(g, nOrig, nFree) <= nOrig
    ensures ContentCount(g, SizeEstimate(g, nOrig, nFree)) == ContentCount(g, nOrig) - nFree
  {
    ContentCountMonotone(g, 0, nOrig);
    assert g.Entries() <= 65536 && PtrmapPageno(g, nOrig) >= 0;
    hide ContentCount, PtrmapPageno, IsContent, Wrap, Geometry.Entries;
    var x := nFree - nOrig + PtrmapPageno(g, nOrig) + g.Entries();
    var nPtrmap := x / g.Entries();
    var n1 := nOrig - nFree - nPtrmap;
    var n2 := if nOrig > g.pendingPage && n1 < g.pendingPage then n1 - 1 else n1;
    EstimateIsExact(g, nOrig, nFree, x, nPtrmap, n1, n2);
    assert Wrap(x) == x && Wrap(n1) == n1;
  }

  /** The closing loop of finalDbSize: step over pages without content.  Page 0 counts as a
      pointer-map page, so the unsigned counter wraps there. */
  method DropTrailing(g: Geometry, n: Pgno) returns (nFin: Pgno)
    requires g.Valid()
    ensures IsContent(g, nFin)
    ensures n >= 1 ==> nFin <= n && ContentCount(g, nFin) == ContentCount(g, n)
  {
    nFin := n;
    while IsPtrmapPage(g, nFin) || nFin == g.pendingPage
      invariant n >= 1 ==> 1 <= nFin <= n && ContentCount(g, nFin) == ContentCount(g, n)
      decreases nFin == 0, nFin
    {
      assert nFin != 1;
      nFin := if nFin == 0 then U32 - 1 else nFin - 1;
    }
  }

  /** finalDbSize: the size of the file once its nFree free pages are gone.  When the last page holds
      content and not every page is free, the result is the one content page whose rank is nFree
      below that of nOrig. */
  method FinalDbSize(g: Geometry, nOrig: Pgno, nFree: nat) returns (nFin: Pgno)
    requires g.Valid() && g.usableSize <= 65536 && nOrig <= MAX_PAGE
    ensures IsContent(g, nFin)
    ensures IsContent(g, nOrig) && nFree < ContentCount(g, nOrig) ==>
              && nFin <= nOrig && (nFin == nOrig <==> nFree == 0)
              && ContentCount(g, nFin) == ContentCount(g, nOrig) - nFree
  {
    nFin := DropTrailing(g, SizeEstimate(g, nOrig, nFree));
    if IsContent(g, nOrig) && nFree < ContentCount(g, nOrig) {
      SizeEstimateIsExact(g, nOrig, nFree);
      if nFin < nOrig { ContentCountStrict(g, nFin, nOrig); }
    }
  }
}
