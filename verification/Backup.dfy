/** An online backup: pages are copied a few at a time while the source goes on changing.

    Both databases are byte-addressed; the destination is a map because only some of its bytes have
    been written.  The page sizes may differ. */
module BackupModel {
  import opened Arith
  import opened ByteTypes

  /** Page size of source and destination, and the byte that no page may be stored around. */
  datatype Sizes = Sizes(src: nat, dest: nat, pending: nat)

  ghost predicate SizesOk(z: Sizes) {
    && 512 <= z.src && 512 <= z.dest && (Multiple(z.src, z.dest) || Multiple(z.dest, z.src))
    && Multiple(z.pending, z.src) && Multiple(z.pending, z.dest) && z.pending >= z.src && z.pending >= z.dest
  }

  /** a is a multiple of b. */
  ghost predicate Multiple(a: nat, b: nat) { b > 0 && exists k: nat :: a == Times(k, b) }

  function Times(k: nat, b: nat): nat { k * b }

  function PageOf(a: nat, size: nat): nat
    requires size > 0
  {
    a / size
  }

  lemma TimesNext(k: nat, b: nat)
    ensures Times(k + 1, b) == Times(k, b) + b
  {
  }

  lemma TimesMonotone(j: nat, k: nat, b: nat)
    requires j <= k
    ensures Times(j, b) <= Times(k, b)
    ensures j < k ==> Times(j, b) + b <= Times(k, b)
  {
    MulMonotone(j, k, b);
    if j < k { MulMonotone(j + 1, k, b); }
  }

  /** An offset is on page k exactly if it lies between the page's ends. */
  lemma OnPage(a: nat, k: nat, size: nat)
    requires size > 0
    ensures PageOf(a, size) == k <==> Times(k, size) <= a < Times(k, size) + size
    ensures a == Times(PageOf(a, size), size) + a % size
  {
    var q := PageOf(a, size);
    var t := DivMod(a, size);
    if q < k { TimesMonotone(q, k, size); }
    if k < q { TimesMonotone(k, q, size); }
  }

  lemma MultipleSum(a: nat, c: nat, b: nat)
    requires Multiple(a, b) && Multiple(c, b)
    ensures Multiple(a + c, b)
  {
    var j: nat :| a == Times(j, b);
    var k: nat :| c == Times(k, b);
    assert a + c == Times(j + k, b);
  }

  lemma MultipleTimes(k: nat, a: nat, b: nat)
    requires Multiple(a, b)
    ensures Multiple(Times(k, a), b)
  {
    var m: nat :| a == Times(m, b);
    assert k * (m * b) == (k * m) * b;
    assert Times(k, a) == Times(k * m, b);
  }

  /** Multiples of b are at least b apart. */
  lemma MultiplesApart(a: nat, c: nat, b: nat)
    requires Multiple(a, b) && Multiple(c, b) && a < c
    ensures a + b <= c
  {
    var j: nat :| a == Times(j, b);
    var k: nat :| c == Times(k, b);
    if j >= k { TimesMonotone(k, j, b); } else { TimesMonotone(j, k, b); }
  }

  /** A chunk of the smaller page size lies inside the destination's pending page or outside it. */
  lemma ChunkPlace(z: Sizes, a: nat)
    requires SizesOk(z) && Multiple(a, if z.src < z.dest then z.src else z.dest)
    ensures var n := if z.src < z.dest then z.src else z.dest;
            (z.pending <= a && a + n <= z.pending + z.dest) || a + n <= z.pending || z.pending + z.dest <= a
  {
    hide Multiple, Times;
    var n := if z.src < z.dest then z.src else z.dest;
    SizesMultiple(z);
    MultipleSum(z.pending, z.dest, n);
    if a < z.pending { MultiplesApart(a, z.pending, n); }
    if a < z.pending + z.dest { MultiplesApart(a, z.pending + z.dest, n); }
  }

  lemma SizesMultiple(z: Sizes)
    requires SizesOk(z)
    ensures var n := if z.src < z.dest then z.src else z.dest;
            Multiple(z.dest, n) && Multiple(z.src, n) && Multiple(z.pending, n)
  {
    assert z.src == Times(1, z.src) && z.dest == Times(1, z.dest);
    if Multiple(z.src, z.dest) {
      var k: nat :| z.src == Times(k, z.dest);
      if k == 0 { } else { MulAtLeast(k, z.dest); }
    }
    if Multiple(z.dest, z.src) { var k: nat :| z.dest == Times(k, z.src); if k == 0 { } else { MulAtLeast(k, z.src); } }
  }

  // ----- Copying one page

  type Bytes = map<nat, byte>

  /** Writes s at offset at. */
  function WriteAt(m: Bytes, at: nat, s: seq<byte>): (r: Bytes)
    ensures forall a :: at <= a < at + |s| ==> a in r && r[a] == s[a - at]
    ensures forall a :: a < at || at + |s| <= a ==> (a in r <==> a in m) && (a in m ==> r[a] == m[a])
  {
    if s == [] then m else WriteAt(m, at, s[..|s| - 1])[at + |s| - 1 := s[|s| - 1]]
  }

  /** The in-header database size. */
  predicate SizeField(a: nat) { 28 <= a < 32 }

  predicate InPending(z: Sizes, a: nat) { z.pending <= a < z.pending + z.dest }

  /** Bytes lo..hi of m' come from page data starting at base, the others from m; the destination's
      pending page aside. */
  ghost predicate CopiedTo(z: Sizes, m: Bytes, m': Bytes, base: nat, page: seq<byte>, hi: nat) {
    && (forall a: nat :: base <= a < hi && a - base < |page| && !InPending(z, a) ==> Holds(m', a, page[a - base]))
    && (forall a: nat :: a < base || hi <= a || InPending(z, a) ==> SameAt(m, m', a))
  }

  /** The data of a source page, with the number of source pages in the header if it is the first page and
      this is not an update. */
  function Sent(base: nat, page: seq<byte>, update: bool, lastPage: seq<byte>): (r: seq<byte>)
    requires |page| >= 512 && |lastPage| == 4
    ensures |r| == |page|
    ensures forall i :: 0 <= i < |page| ==> r[i] == if base == 0 && !update && SizeField(i) then lastPage[i - 28]
                                                    else page[i]
  {
    if base == 0 && !update then page[..28] + lastPage + page[32..] else page
  }

  ghost predicate Holds(m: Bytes, a: nat, x: byte) { a in m && m[a] == x }

  ghost predicate SameAt(m: Bytes, m': Bytes, a: nat) { (a in m' <==> a in m) && (a in m ==> m'[a] == m[a]) }

  /** A four-byte field. */
  ghost predicate FieldIs(m: Bytes, at: nat, f: seq<byte>) {
    |f| == 4 && Holds(m, at, f[0]) && Holds(m, at + 1, f[1]) && Holds(m, at + 2, f[2]) && Holds(m, at + 3, f[3])
  }

  ghost predicate SameField(m: Bytes, m': Bytes, at: nat) {
    SameAt(m, m', at) && SameAt(m, m', at + 1) && SameAt(m, m', at + 2) && SameAt(m, m', at + 3)
  }

  lemma CopiedChunk(z: Sizes, m: Bytes, m0: Bytes, base: nat, page: seq<byte>, lo: nat, n: nat)
    requires CopiedTo(z, m, m0, base, page, lo) && base <= lo && lo + n <= base + |page|
    requires lo + n <= z.pending || z.pending + z.dest <= lo
    ensures CopiedTo(z, m, WriteAt(m0, lo, page[lo - base..lo - base + n]), base, page, lo + n)
  {
    hide WriteAt;
    var chunk := page[lo - base..lo - base + n];
    var m1 := WriteAt(m0, lo, chunk);
    forall a: nat | base <= a < lo + n && a - base < |page| && !InPending(z, a)
        ensures Holds(m1, a, page[a - base]) {
      if a < lo { assert Holds(m0, a, page[a - base]); } else { assert chunk[a - lo] == page[a - base]; }
    }
    forall a: nat | a < base || lo + n <= a || InPending(z, a) ensures SameAt(m, m1, a) {
      assert SameAt(m, m0, a);
    }
  }

  lemma CopiedSkip(z: Sizes, m: Bytes, m0: Bytes, base: nat, page: seq<byte>, lo: nat, n: nat)
    requires CopiedTo(z, m, m0, base, page, lo) && base <= lo
    requires z.pending <= lo && lo + n <= z.pending + z.dest
    ensures CopiedTo(z, m, m0, base, page, lo + n)
  {
  }

  /** A chunk as the loop writes it is a chunk of what is to be sent. */
  lemma ChunkSent(m: Bytes, base: nat, page: seq<byte>, update: bool, lastPage: seq<byte>, lo: nat, n: nat)
    requires |page| >= 512 && |lastPage| == 4 && base <= lo && lo + n <= base + |page| && n >= 512
             && (lo == 0 || lo >= 512)
    ensures var chunk, sent := page[lo - base..lo - base + n], Sent(base, page, update, lastPage);
            WriteAt(m, lo, sent[lo - base..lo - base + n])
            == if lo == 0 && !update then WriteAt(WriteAt(m, lo, chunk), 28, lastPage) else WriteAt(m, lo, chunk)
  {
    hide WriteAt;
    var chunk, part := page[lo - base..lo - base + n], Sent(base, page, update, lastPage)[lo - base..lo - base + n];
    if lo == 0 && !update {
      var r1, r2 := WriteAt(m, lo, part), WriteAt(WriteAt(m, lo, chunk), 28, lastPage);
      assert forall a :: a in r1 <==> a in r2;
      assert forall a :: a in r1 ==> r1[a] == r2[a];
    } else {
      assert part == chunk;
    }
  }

  lemma ChunkWritten(z: Sizes, m: Bytes, m0: Bytes, base: nat, page: seq<byte>, update: bool, lastPage: seq<byte>,
                     lo: nat, n: nat)
    requires |page| >= 512 && |lastPage| == 4 && base <= lo && lo + n <= base + |page| && n >= 512
             && (lo == 0 || lo >= 512)
    requires CopiedTo(z, m, m0, base, Sent(base, page, update, lastPage), lo)
    requires lo + n <= z.pending || z.pending + z.dest <= lo
    ensures var m1 := WriteAt(m0, lo, page[lo - base..lo - base + n]);
            CopiedTo(z, m, if lo == 0 && !update then WriteAt(m1, 28, lastPage) else m1, base,
                     Sent(base, page, update, lastPage), lo + n)
  {
    hide CopiedTo, WriteAt, Sent;
    CopiedChunk(z, m, m0, base, Sent(base, page, update, lastPage), lo, n);
    ChunkSent(m0, base, page, update, lastPage, lo, n);
  }

  /** Where the copy loop reads and writes. */
  lemma ChunkAddress(z: Sizes, pg: nat, base: nat, iOff: nat)
    requires SizesOk(z) && pg >= 1 && base == Times(pg - 1, z.src) && base <= iOff < base + z.src
    ensures PageOf(iOff, z.src) == pg - 1 && iOff % z.src == iOff - base
    ensures Times(PageOf(iOff, z.dest), z.dest) + iOff % z.dest == iOff
    ensures PageOf(iOff, z.dest) == PageOf(z.pending, z.dest) <==> InPending(z, iOff)
  {
    OnPage(iOff, pg - 1, z.src);
    OnPage(iOff, PageOf(iOff, z.dest), z.dest);
    var k: nat :| z.pending == Times(k, z.dest);
    OnPage(z.pending, k, z.dest);
    OnPage(iOff, k, z.dest);
  }

  /** Copies a source page to all destination pages it spans. */
  method BackupOnePage(z: Sizes, m: Bytes, pg: nat, page: seq<byte>, update: bool, lastPage: seq<byte>)
    returns (m': Bytes)
    requires SizesOk(z) && pg >= 1 && |page| == z.src && |lastPage| == 4
    ensures var base := Times(pg - 1, z.src);
            z.src >= 512 && CopiedTo(z, m, m', base, Sent(base, page, update, lastPage), base + z.src)
  {
    hide SizesOk, Times, Multiple, PageOf, CopiedTo, WriteAt, Sent;
    SizesPositive(z);
    var base := Times(pg - 1, z.src);
    ghost var sent := Sent(base, page, update, lastPage);
    var nCopy := if z.src < z.dest then z.src else z.dest;
    var iEnd, iOff := base + z.src, base;
    m' := m;
    StartMultiple(z, pg);
    CopiedNone(z, m, base, sent);
    while iOff < iEnd
      invariant base <= iOff && Multiple(iOff, nCopy) && (iOff < iEnd ==> iOff + nCopy <= iEnd)
      invariant CopiedTo(z, m, m', base, sent, if iOff < iEnd then iOff else iEnd)
      decreases iEnd - iOff
    {
      ChunkAddress(z, pg, base, iOff);
      ChunkPlace(z, iOff);
      FirstChunk(iOff, nCopy);
      if PageOf(iOff, z.dest) != PageOf(z.pending, z.dest) {
        var at := Times(PageOf(iOff, z.dest), z.dest) + iOff % z.dest;
        var chunk := page[iOff % z.src..iOff % z.src + nCopy];
        ChunkWritten(z, m, m', base, page, update, lastPage, iOff, nCopy);
        m' := WriteAt(m', at, chunk);
        if iOff == 0 && !update {
          m' := WriteAt(m', 28, lastPage);
        }
      } else {
        CopiedSkip(z, m, m', base, sent, iOff, nCopy);
      }
      NextChunk(z, pg, iOff);
      assert iOff + nCopy == if iOff + z.dest < iEnd then iOff + z.dest else iEnd;
      iOff := iOff + z.dest;
    }
  }

  lemma FirstChunk(iOff: nat, nCopy: nat)
    requires Multiple(iOff, nCopy) && nCopy >= 512
    ensures iOff == 0 || iOff >= 512
  {
    assert Times(0, nCopy) == 0;
    if iOff > 0 { MultiplesApart(0, iOff, nCopy); }
  }

  lemma CopiedNone(z: Sizes, m: Bytes, base: nat, page: seq<byte>)
    ensures CopiedTo(z, m, m, base, page, base)
  {
  }

  lemma SizesPositive(z: Sizes)
    requires SizesOk(z)
    ensures z.src >= 512 && z.dest >= 512 && z.pending >= z.src && z.pending >= z.dest
  {
  }

  lemma StartMultiple(z: Sizes, pg: nat)
    requires SizesOk(z) && pg >= 1
    ensures var n := if z.src < z.dest then z.src else z.dest; Multiple(Times(pg - 1, z.src), n)
  {
    SizesMultiple(z);
    MultipleTimes(pg - 1, z.src, if z.src < z.dest then z.src else z.dest);
  }

  lemma NextChunk(z: Sizes, pg: nat, iOff: nat)
    requires SizesOk(z) && pg >= 1
    requires var n := if z.src < z.dest then z.src else z.dest; Multiple(iOff, n)
    ensures var n := if z.src < z.dest then z.src else z.dest;
            Multiple(iOff + z.dest, n)
                && (iOff + z.dest < Times(pg - 1, z.src) + z.src ==> iOff + z.dest + n <= Times(pg - 1, z.src) + z.src)
  {
    hide Multiple, Times;
    var n := if z.src < z.dest then z.src else z.dest;
    SizesMultiple(z);
    MultipleSum(iOff, z.dest, n);
    StartMultiple(z, pg);
    MultipleSum(Times(pg - 1, z.src), z.src, n);
    if iOff + z.dest < Times(pg - 1, z.src) + z.src { MultiplesApart(iOff + z.dest, Times(pg - 1, z.src) + z.src, n); }
  }

  // ----- What has been copied

  /** Around the pending byte, the source's or the destination's page is left out. */
  predicate Hidden(z: Sizes, a: nat) { z.pending <= a < z.pending + (if z.src < z.dest then z.dest else z.src) }

  /** The first hi bytes of the source are in the destination. */
  ghost predicate Match(z: Sizes, dest: Bytes, src: seq<byte>, hi: nat) {
    forall a: nat :: a < hi && a < |src| && !SizeField(a) && !Hidden(z, a) ==> Holds(dest, a, src[a])
  }

  function PendingPage(z: Sizes): nat
    requires z.src > 0
  {
    PageOf(z.pending, z.src) + 1
  }

  function PageData(z: Sizes, src: seq<byte>, pg: nat): seq<byte>
    requires pg >= 1 && Times(pg - 1, z.src) + z.src <= |src|
  {
    src[Times(pg - 1, z.src)..Times(pg - 1, z.src) + z.src]
  }

  /** The source's pending page is hidden. */
  lemma PendingHidden(z: Sizes, pg: nat)
    requires SizesOk(z) && pg == PendingPage(z)
    ensures Times(pg - 1, z.src) == z.pending
  {
    var k: nat :| z.pending == Times(k, z.src);
    OnPage(z.pending, k, z.src);
  }

  lemma MatchNext(z: Sizes, dest: Bytes, dest': Bytes, src: seq<byte>, pg: nat, lastPage: seq<byte>)
    requires SizesOk(z) && |lastPage| == 4 && pg >= 1 && Match(z, dest, src, Times(pg - 1, z.src))
             && Times(pg - 1, z.src) + z.src <= |src|
    requires var base := Times(pg - 1, z.src);
             CopiedTo(z, dest, dest', base, Sent(base, PageData(z, src, pg), false, lastPage), base + z.src)
    ensures Match(z, dest', src, Times(pg, z.src))
    ensures if pg == 1 then FieldIs(dest', 28, lastPage) else SameField(dest, dest', 28)
  {
    hide Times, Sent;
    var base, page := Times(pg - 1, z.src), PageData(z, src, pg);
    var sent := Sent(base, page, false, lastPage);
    FirstPages(pg, z.src);
    TimesNext(pg - 1, z.src);
    forall a: nat | a < base + z.src && !SizeField(a) && !Hidden(z, a) ensures Holds(dest', a, src[a]) {
      if a < base {
        assert Holds(dest, a, src[a]);
        assert SameAt(dest, dest', a);
      } else {
        assert !InPending(z, a) && sent[a - base] == page[a - base] == src[a];
        assert Holds(dest', a, sent[a - base]);
      }
    }
    forall i: nat | 28 <= i < 32 ensures if pg == 1 then Holds(dest', i, sent[i]) else SameAt(dest, dest', i) {
      assert !InPending(z, i) && base + z.src >= 512;
    }
    assert pg == 1 ==> Holds(dest', 28, sent[28]) && Holds(dest', 29, sent[29]) && Holds(dest', 30, sent[30])
                       && Holds(dest', 31, sent[31]);
    assert pg != 1 ==> SameAt(dest, dest', 28) && SameAt(dest, dest', 29) && SameAt(dest, dest', 30)
                       && SameAt(dest, dest', 31);
  }

  lemma FirstPages(pg: nat, size: nat)
    requires pg >= 1 && size >= 512
    ensures if pg == 1 then Times(pg - 1, size) == 0 else Times(pg - 1, size) >= 512
  {
    if pg > 1 { TimesMonotone(1, pg - 1, size); }
  }

  lemma PendingIsLater(z: Sizes)
    requires SizesOk(z)
    ensures PendingPage(z) >= 2
  {
    PendingHidden(z, PendingPage(z));
    assert Times(0, z.src) == 0;
  }

  lemma MatchPending(z: Sizes, dest: Bytes, src: seq<byte>, pg: nat)
    requires SizesOk(z) && pg == PendingPage(z) && Match(z, dest, src, Times(pg - 1, z.src))
    ensures Match(z, dest, src, Times(pg, z.src))
  {
    hide Times;
    PendingHidden(z, pg);
    TimesNext(pg - 1, z.src);
  }

  /** A page of the source is written, perhaps one past the end. */
  function Written(z: Sizes, src: seq<byte>, pg: nat, page: seq<byte>): (r: seq<byte>)
    requires pg >= 1 && Times(pg - 1, z.src) <= |src| && |page| == z.src
  {
    var base := Times(pg - 1, z.src);
    src[..base] + page + (if base + z.src <= |src| then src[base + z.src..] else [])
  }

  lemma MatchWritten(z: Sizes, dest: Bytes, dest': Bytes, src: seq<byte>, pg: nat, page: seq<byte>, hi: nat)
    requires pg >= 1 && Times(pg - 1, z.src) <= |src| && |page| == z.src && Match(z, dest, src, hi)
    requires Times(pg - 1, z.src) + z.src <= |src| || Times(pg - 1, z.src) == |src|
    requires var base := Times(pg - 1, z.src);
             if base + z.src <= hi then CopiedTo(z, dest, dest', base, page, base + z.src)
                 else hi <= base && dest' == dest
    ensures Match(z, dest', Written(z, src, pg, page), hi)
  {
    hide Times;
    var base, src' := Times(pg - 1, z.src), Written(z, src, pg, page);
    forall a: nat | a < hi && a < |src'| && !SizeField(a) && !Hidden(z, a) ensures Holds(dest', a, src'[a]) {
      if base <= a < base + z.src {
        assert !InPending(z, a) && src'[a] == page[a - base];
        assert Holds(dest', a, page[a - base]);
      } else {
        assert src'[a] == src[a] && Holds(dest, a, src[a]);
        if base + z.src <= hi { assert SameAt(dest, dest', a); }
      }
    }
  }

  // ----- The last step

  /** Header fields that the copy gets of its own: the schema cookie, the stamps of the commit and, if the
      destination is in WAL mode, the file format. */
  predicate OwnField(a: nat, wal: bool) { 40 <= a < 44 || Stamped(a) || (wal && 18 <= a < 20) }

  /** The change counter, its copy and the library version, which the commit writes. */
  predicate Stamped(a: nat) { 24 <= a < 28 || 92 <= a < 100 }

  predicate HeaderField(a: nat, wal: bool) { OwnField(a, wal) || SizeField(a) }

  /** The schema cookie, the file format and, as part of the commit, the stamps. */
  function WriteHeader(m: Bytes, cookie: nat, wal: bool, stamps: seq<byte>): (r: Bytes)
    requires |stamps| == 100
  {
    var m1 := WriteAt(m, 40, Enc4(cookie));
    var m2 := if wal then WriteAt(m1, 18, [2, 2]) else m1;
    m2 + map a: nat | 0 <= a < 100 && Stamped(a) :: stamps[a]
  }

  /** The four bytes at an offset, read as a big-endian number. */
  function BigEndian(m: Bytes, at: nat): int
    requires at in m && at + 1 in m && at + 2 in m && at + 3 in m
  {
    ((m[at] as int * 256 + m[at + 1]) * 256 + m[at + 2]) * 256 + m[at + 3]
  }

  /** The header of a finished copy. */
  ghost predicate HeaderSet(m: Bytes, cookie: nat, wal: bool, stamps: seq<byte>)
    requires |stamps| == 100
  {
    && 40 in m && 41 in m && 42 in m && 43 in m && BigEndian(m, 40) == cookie
    && (wal ==> Holds(m, 18, 2) && Holds(m, 19, 2))
    && (forall a: nat :: 24 <= a < 28 ==> Holds(m, a, stamps[a]))
    && (forall a: nat :: 92 <= a < 100 ==> Holds(m, a, stamps[a]))
  }

  lemma Enc4Number(m: Bytes, at: nat, n: nat)
    requires n < U32 && FieldIs(m, at, Enc4(n))
    ensures BigEndian(m, at) == n
  {
    Enc4Value(n);
  }

  lemma Enc4Value(n: nat)
    requires n < U32
    ensures var e := Enc4(n); ((e[0] as int * 256 + e[1]) * 256 + e[2]) * 256 + e[3] == n
  {
    var a, b, c := n / 256, n / 0x1_0000, n / 0x100_0000;
    assert n == a * 256 + n % 256 && a == b * 256 + a % 256 && b == c * 256 + b % 256 && c % 256 == c;
  }

  lemma HeaderWritten(m: Bytes, cookie: nat, wal: bool, stamps: seq<byte>)
    requires |stamps| == 100 && cookie < U32
    ensures var r := WriteHeader(m, cookie, wal, stamps);
            HeaderSet(r, cookie, wal, stamps) && forall a: nat :: !OwnField(a, wal) ==> SameAt(m, r, a)
  {
    hide WriteAt, BigEndian;
    var r := WriteHeader(m, cookie, wal, stamps);
    var m1 := WriteAt(m, 40, Enc4(cookie));
    assert FieldIs(m1, 40, Enc4(cookie)) && SameField(m1, r, 40);
    Enc4Number(r, 40, cookie);
  }

  lemma HeaderStays(m: Bytes, m': Bytes, cookie: nat, wal: bool, stamps: seq<byte>)
    requires |stamps| == 100 && HeaderSet(m, cookie, wal, stamps) && KeepsStart(m, m', 100)
    ensures HeaderSet(m', cookie, wal, stamps)
  {
    assert SameAt(m, m', 18) && SameAt(m, m', 19);
    assert SameField(m, m', 40);
    forall a: nat | 24 <= a < 28 || 92 <= a < 100 ensures Holds(m', a, stamps[a]) {
      assert SameAt(m, m', a) && Holds(m, a, stamps[a]);
    }
  }

  function Truncate(m: Bytes, n: nat): (r: Bytes) { map a | a in m && a < n :: m[a] }

  /** The copy is complete: every byte of the source outside its pending page and the header fields,
      and nothing behind the end. */
  ghost predicate Complete(z: Sizes, dest: Bytes, src: seq<byte>, wal: bool) {
    && (forall a: nat ::
         a < |src| && !HeaderField(a, wal) && !(z.pending <= a < z.pending + z.src) ==> Holds(dest, a, src[a]))
    && (forall a: nat :: a in dest ==> a < (if src == [] then z.src else |src|))
  }

  /** The copy of a source without pages is a new database. */
  ghost predicate IsNewDb(z: Sizes, dest: Bytes, newDb: seq<byte>, wal: bool) {
    forall a: nat :: a < |newDb| && a < z.src && !OwnField(a, wal) ==> Holds(dest, a, newDb[a])
  }

  /** The in-header size is that of the source, or n if it has been written by a step. */
  ghost predicate FieldOk(dest: Bytes, src: seq<byte>, fromSource: bool, n: nat) {
    |src| >= 32 ==> FieldIs(dest, 28, if fromSource then src[28..32] else Enc4(n))
  }

  /** Whole source pages hidden behind the destination's pending page are written at the end. */
  method WriteExtra(z: Sizes, m: Bytes, src: seq<byte>, nSrc: nat, ghost wal: bool) returns (m': Bytes)
    requires SizesOk(z) && z.src < z.dest && |src| == Times(nSrc, z.src)
    requires forall a: nat :: a < |src| && !HeaderField(a, wal) && !Hidden(z, a) ==> Holds(m, a, src[a])
    ensures forall a: nat ::
              a < |src| && !HeaderField(a, wal) && !(z.pending <= a < z.pending + z.src) ==> Holds(m', a, src[a])
    ensures KeepsStart(m, m', z.pending)
  {
    hide SizesOk, Times, Multiple, PageOf, WriteAt;
    SizesPositive(z);
    var iSize := |src|;
    var iEnd := if z.pending + z.dest < iSize then z.pending + z.dest else iSize;
    var iOff := z.pending + z.src;
    m' := m;
    ExtraMultiple(z, nSrc);
    while iOff < iEnd
      invariant z.pending + z.src <= iOff && Multiple(iOff, z.src)
      invariant forall a: nat :: a < |src| && !HeaderField(a, wal) && !Hidden(z, a) ==> Holds(m', a, src[a])
      invariant forall a: nat :: z.pending + z.src <= a < iOff && a < |src| ==> Holds(m', a, src[a])
      invariant KeepsStart(m, m', z.pending)
      decreases iEnd - iOff
    {
      ExtraPage(z, iOff, nSrc);
      var iSrcPg := PageOf(iOff, z.src) + 1;
      var page := PageData(z, src, iSrcPg);
      ghost var m0 := m';
      m' := WriteAt(m', iOff, page);
      forall a: nat | a < |src| && Holds(m0, a, src[a]) ensures Holds(m', a, src[a]) {
        if iOff <= a < iOff + z.src { assert page[a - iOff] == src[a]; }
      }
      forall a: nat | iOff <= a < iOff + z.src ensures Holds(m', a, src[a]) { assert page[a - iOff] == src[a]; }
      forall a: nat | a < z.pending ensures SameAt(m, m', a) { assert SameAt(m, m0, a) && SameAt(m0, m', a); }
      iOff := iOff + z.src;
    }
  }

  lemma ExtraMultiple(z: Sizes, nSrc: nat)
    requires SizesOk(z) && z.src < z.dest
    ensures Multiple(z.pending + z.src, z.src)
  {
    assert z.src == Times(1, z.src);
    MultipleSum(z.pending, z.src, z.src);
  }

  lemma ExtraPage(z: Sizes, iOff: nat, nSrc: nat)
    requires SizesOk(z) && z.src < z.dest && Multiple(iOff, z.src) && iOff < Times(nSrc, z.src)
    ensures Times(PageOf(iOff, z.src), z.src) == iOff && iOff + z.src <= Times(nSrc, z.src)
            && Multiple(iOff + z.src, z.src)
  {
    var k: nat :| iOff == Times(k, z.src);
    OnPage(iOff, k, z.src);
    if k >= nSrc { TimesMonotone(nSrc, k, z.src); } else { TimesMonotone(k, nSrc, z.src); }
    TimesNext(k, z.src);
    assert iOff + z.src == Times(k + 1, z.src);
  }

  /** Whole destination pages that the source fills. */
  lemma TruncatePages(z: Sizes, n: nat)
    requires SizesOk(z) && z.src >= z.dest
    ensures Times(n * (z.src / z.dest), z.dest) == Times(n, z.src)
  {
    SizesMultiple(z);
    var k: nat :| z.src == Times(k, z.dest);
    OnPage(z.src, k, z.dest);
    assert z.src / z.dest == PageOf(z.src, z.dest) == k;
    assert n * k * z.dest == n * (k * z.dest);
  }

  /** Brings the destination to the size of the source, at least one page; of a source with smaller pages,
      the pages behind the destination's pending page are written. */
  method CutToSize(z: Sizes, dest: Bytes, src: seq<byte>, nSrc: nat, ghost wal: bool) returns (m: Bytes)
    requires SizesOk(z) && |src| == Times(nSrc, z.src)
    requires forall a: nat :: a < |src| && !HeaderField(a, wal) && !Hidden(z, a) ==> Holds(dest, a, src[a])
    ensures Complete(z, m, src, wal) && z.src >= 512 && KeepsStart(dest, m, z.src)
  {
    hide Times, Multiple, PageOf, WriteAt, SizesOk, KeepsStart, SameAt, Truncate;
    SizesPositive(z);
    m := dest;
    TimesZero(nSrc, z.src);
    var n := if nSrc == 0 then 1 else nSrc;
    TimesMonotone(1, n, z.src);
    TimesZero(1, z.src);
    if z.src < z.dest {
      m := WriteExtra(z, m, src, nSrc, wal);
      CutOff(z, dest, m, src, n, wal);
      m := Truncate(m, Times(n, z.src));
    } else {
      TruncatePages(z, n);
      KeepsItself(m, z.pending);
      CutOff(z, dest, m, src, n, wal);
      m := Truncate(m, Times(n * (z.src / z.dest), z.dest));
    }
  }

  lemma CutOff(z: Sizes, dest: Bytes, m: Bytes, src: seq<byte>, n: nat, wal: bool)
    requires Times(n, z.src) == (if src == [] then z.src else |src|) && z.src <= Times(n, z.src) && z.src <= z.pending
    requires KeepsStart(dest, m, z.pending)
    requires forall a: nat ::
               a < |src| && !HeaderField(a, wal) && !(z.pending <= a < z.pending + z.src) ==> Holds(m, a, src[a])
    ensures var m' := Truncate(m, Times(n, z.src)); Complete(z, m', src, wal) && KeepsStart(dest, m', z.src)
  {
    hide Times, HeaderField;
    var m' := Truncate(m, Times(n, z.src));
    forall a: nat | a < z.src ensures SameAt(dest, m', a) { assert SameAt(dest, m, a); }
    forall a: nat | a < |src| && Holds(m, a, src[a]) ensures Holds(m', a, src[a]) { }
  }

  lemma KeepsItself(m: Bytes, hi: nat)
    ensures KeepsStart(m, m, hi)
  {
  }

  ghost predicate KeepsStart(m: Bytes, m': Bytes, hi: nat) { forall a: nat :: a < hi ==> SameAt(m, m', a) }

  /** Ends a backup whose pages have all been copied.  The schema cookie is one more than that of the
      destination before the backup, so that other connections notice the change. */
  method FinishCopy(z: Sizes, dest: Bytes, src: seq<byte>, nSrc: nat, newDb: seq<byte>, iDestSchema: nat, wal: bool,
                    stamps: seq<byte>)
    returns (m: Bytes)
    requires SizesOk(z) && |src| == Times(nSrc, z.src) && Match(z, dest, src, |src|) && |stamps| == 100
             && |newDb| == z.dest
    ensures Complete(z, m, src, wal) && HeaderSet(m, (iDestSchema + 1) % U32, wal, stamps)
    ensures if nSrc == 0 then IsNewDb(z, m, newDb, wal) else SameField(dest, m, 28)
  {
    hide Times, Multiple, PageOf, WriteAt, SizesOk, WriteHeader, HeaderSet, Complete, OwnField, KeepsStart, SameAt;
    SizesPositive(z);
    TimesZero(nSrc, z.src);
    m := if nSrc == 0 then WriteAt(dest, 0, newDb) else dest;
    ghost var m0 := m;
    HeaderWritten(m, (iDestSchema + 1) % U32, wal, stamps);
    m := WriteHeader(m, (iDestSchema + 1) % U32, wal, stamps);
    ghost var m1 := m;
    forall a: nat | a < |src| && !HeaderField(a, wal) && !Hidden(z, a) ensures Holds(m, a, src[a]) {
      assert Holds(m0, a, src[a]) && SameAt(m0, m, a);
      HoldsStill(m0, m, a, src[a]);
    }
    m := CutToSize(z, m, src, nSrc, wal);
    KeepsLess(m1, m, 100, z.src);
    HeaderStays(m1, m, (iDestSchema + 1) % U32, wal, stamps);
    if nSrc == 0 { NewDbStays(z, dest, m0, m1, m, newDb, wal); } else { FieldKept(m0, m1, m, wal); }
  }

  lemma KeepsLess(m: Bytes, m': Bytes, lo: nat, hi: nat)
    requires KeepsStart(m, m', hi) && lo <= hi
    ensures KeepsStart(m, m', lo)
  {
  }

  lemma HoldsStill(m: Bytes, m': Bytes, a: nat, x: byte)
    requires Holds(m, a, x) && SameAt(m, m', a)
    ensures Holds(m', a, x)
  {
  }

  lemma NewDbStays(z: Sizes, dest: Bytes, m0: Bytes, m1: Bytes, m: Bytes, newDb: seq<byte>, wal: bool)
    requires m0 == WriteAt(dest, 0, newDb) && (forall a: nat :: !OwnField(a, wal) ==> SameAt(m0, m1, a))
    requires KeepsStart(m1, m, z.src)
    ensures IsNewDb(z, m, newDb, wal)
  {
    hide WriteAt, OwnField;
    forall a: nat | a < |newDb| && a < z.src && !OwnField(a, wal) ensures Holds(m, a, newDb[a]) {
      assert SameAt(m0, m1, a) && SameAt(m1, m, a);
    }
  }

  lemma FieldKept(m0: Bytes, m1: Bytes, m: Bytes, wal: bool)
    requires (forall a: nat :: !OwnField(a, wal) ==> SameAt(m0, m1, a)) && KeepsStart(m1, m, 100)
    ensures SameField(m0, m, 28)
  {
    forall a: nat | 28 <= a < 32 ensures SameAt(m0, m, a) { assert SameAt(m0, m1, a) && SameAt(m1, m, a); }
  }

  lemma TimesZero(n: nat, b: nat)
    requires b > 0
    ensures Times(n, b) == 0 <==> n == 0
    ensures Times(1, b) == b
  {
    if n > 0 { TimesMonotone(1, n, b); }
  }

  // ----- The backup object and its source

  function PagesLeft(nSrc: nat, iNext: nat): nat { if iNext <= nSrc then nSrc + 1 - iNext else 0 }

  /** The count of remaining pages as the code stores it, in 32 unsigned bits. */
  function Remaining(nSrc: nat, iNext: nat): nat { (nSrc + 1 - iNext) % U32 }

  /** An unsigned 32-bit number returned as an int. */
  function AsInt(x: nat): (r: int)
    ensures -0x8000_0000 <= r < 0x8000_0000 && (r - x) % U32 == 0
  {
    var y := x % U32;
    if y < 0x8000_0000 then y else y - U32
  }

  /** The stored count is right exactly if the source has not shrunk below what has been copied, and so
      is the count reported to the caller if it fits in an int. */
  lemma RemainingIsRight(nSrc: nat, iNext: nat)
    requires nSrc < U32 - 1 && iNext < U32
    ensures Remaining(nSrc, iNext) == PagesLeft(nSrc, iNext) <==> iNext <= nSrc + 1
    ensures AsInt(Remaining(nSrc, iNext)) == PagesLeft(nSrc, iNext) <==> iNext <= nSrc + 1 < iNext + 0x8000_0000
    ensures nSrc < 0x7fff_ffff && iNext <= 0x8000_0000 ==> AsInt(Remaining(nSrc, iNext)) == nSrc + 1 - iNext
  {
  }

  /** A source that has shrunk to 5 pages after 9 have been copied (ShrinkDuringBackup): the field has wrapped
      around, and the caller is told
      that -4 pages remain. */
  lemma RemainingWraps()
    ensures PagesLeft(5, 10) == 0 && Remaining(5, 10) == 4294967292 && AsInt(Remaining(5, 10)) == -4
  {
  }

  /** The next page after copying up to nPage pages, all if that is negative. */
  function IndexAfter(iNext: nat, nPage: int, nSrc: nat): nat {
    if iNext > nSrc then iNext else if nPage < 0 || iNext + nPage > nSrc then nSrc + 1 else iNext + nPage
  }

  /** A page other than the pending page is among those from lo up to, not including, hi. */
  ghost predicate AnyToCopy(z: Sizes, lo: nat, hi: nat)
    requires z.src > 0
  {
    lo + 1 < hi || (lo + 1 == hi && lo != PendingPage(z))
  }

  /** A step has a page to copy. */
  ghost predicate CopiesAny(z: Sizes, iNext: nat, nPage: int, nSrc: nat) {
    z.src > 0 && AnyToCopy(z, iNext, IndexAfter(iNext, nPage, nSrc))
  }

  /** Nothing is written where the source has its pending page. */
  ghost predicate PendingKept(z: Sizes, m: Bytes, m': Bytes) {
    forall a: nat :: z.pending <= a < z.pending + z.src ==> SameAt(m, m', a)
  }

  lemma NoneToCopy(z: Sizes, lo: nat)
    requires z.src > 0
    ensures !AnyToCopy(z, lo, lo)
  {
  }

  lemma NextToCopy(z: Sizes, lo: nat, hi: nat)
    requires z.src > 0 && lo <= hi
    ensures AnyToCopy(z, lo, hi + 1) <==> AnyToCopy(z, lo, hi) || hi != PendingPage(z)
  {
  }

  lemma MoreToCopy(z: Sizes, lo: nat, hi: nat, end: nat)
    requires z.src > 0 && hi <= end
    ensures AnyToCopy(z, lo, hi) ==> AnyToCopy(z, lo, end)
  {
  }

  lemma KeptTwice(z: Sizes, m: Bytes, m1: Bytes, m2: Bytes)
    requires PendingKept(z, m, m1) && PendingKept(z, m1, m2)
    ensures PendingKept(z, m, m2)
  {
    forall a: nat | z.pending <= a < z.pending + z.src ensures SameAt(m, m2, a) {
      assert SameAt(m, m1, a) && SameAt(m1, m2, a);
    }
  }

  lemma KeptAlready(z: Sizes, m: Bytes)
    ensures PendingKept(z, m, m)
  {
  }

  lemma PendingStays(z: Sizes, m: Bytes, m': Bytes, src: seq<byte>, pg: nat, lastPage: seq<byte>)
    requires SizesOk(z) && pg >= 1 && Times(pg - 1, z.src) + z.src <= |src| && pg != PendingPage(z) && |lastPage| == 4
    requires var base := Times(pg - 1, z.src);
             CopiedTo(z, m, m', base, Sent(base, PageData(z, src, pg), false, lastPage), base + z.src)
    ensures PendingKept(z, m, m')
  {
    hide Times, Sent;
    var q := PendingPage(z);
    PendingHidden(z, q);
    if pg < q { TimesMonotone(pg - 1, q - 1, z.src); } else { TimesMonotone(q - 1, pg - 1, z.src); }
  }

  lemma IndexReaches(iNext: nat, nPage: int, nSrc: nat)
    ensures var i := IndexAfter(iNext, nPage, nSrc); i >= iNext && (i > nSrc || (nPage >= 0 && i == iNext + nPage))
  {
  }

  datatype Rc = Ok | Busy | Done | ReadOnly

  predicate Fatal(rc: Rc) { rc != Ok && rc != Busy }

  function Enc4(n: nat): (s: seq<byte>)
    ensures |s| == 4
  {
    [n / 0x100_0000 % 256, n / 0x1_0000 % 256, n / 256 % 256, n % 256]
  }

  class Backup {
    const z: Sizes
    const destInMemory: bool
    const destWal: bool
    var src: seq<byte>
    var nSrc: nat
    var dest: Bytes
    var iNext: nat
    var rc: Rc
    var isAttached: bool
    var nRemaining: nat
    var nPagecount: nat
    const iDestSchema: nat      // the destination's schema cookie before the backup
    ghost var fromSource: bool  // the in-header size comes with page 1 of the source, or else
    ghost var nAtCopy: nat      // it is the number of pages when page 1 was copied

    /** Until the backup is done, the pages before iNext have been copied, and changes to them are
        reported to the backup. */
    ghost predicate Valid()
      reads this
    {
      && SizesOk(z) && |src| == Times(nSrc, z.src) && iNext >= 1 && iDestSchema < U32
      && (!Fatal(rc) ==> Match(z, dest, src, Times(iNext - 1, z.src)) && (iNext > 1 ==> isAttached))
      && (!Fatal(rc) && iNext > 1 ==> FieldOk(dest, src, fromSource, nAtCopy))
    }

    constructor (sizes: Sizes, inMemory: bool, wal: bool, s: seq<byte>, n: nat, d: Bytes, schema: nat)
      requires SizesOk(sizes) && |s| == Times(n, sizes.src) && schema < U32
      ensures Valid() && z == sizes && src == s && nSrc == n && dest == d && iNext == 1 && rc == Ok
      ensures destInMemory == inMemory && destWal == wal && iDestSchema == schema
    {
      z, destInMemory, destWal, src, nSrc, dest := sizes, inMemory, wal, s, n, d;
      iNext, rc, isAttached, nRemaining, nPagecount, iDestSchema := 1, Ok, false, 0, 0, schema;
      fromSource, nAtCopy := false, 0;
    }
  
    /** sqlite3_backup_remaining: the count of the last step, as an int. */
    function Reported(): int
      reads this
    {
      AsInt(nRemaining)
    }

    /** Copies up to nPage pages, all that are left if nPage is negative.  When everything has been
        copied, the destination is brought to the size of the source and the backup is done. */
    method Step(nPage: int, srcWriting: bool, newDb: seq<byte>, stamps: seq<byte>) returns (result: Rc)
      requires Valid() && |newDb| == z.dest && |stamps| == 100
      modifies this
      ensures Valid() && src == old(src) && nSrc == old(nSrc) && result == rc
      ensures Fatal(old(rc)) ==> rc == old(rc) && dest == old(dest) && iNext == old(iNext)
      ensures !Fatal(old(rc)) && !srcWriting ==> rc != Busy
      ensures !Fatal(old(rc)) && srcWriting ==> rc == Busy && dest == old(dest) && iNext == old(iNext)
      ensures !Fatal(old(rc)) && rc == Done ==>
                && Complete(z, dest, src, destWal) && iNext > nSrc
                && HeaderSet(dest, (iDestSchema + 1) % U32, destWal, stamps)
                && if nSrc == 0 then IsNewDb(z, dest, newDb, destWal) else FieldOk(dest, src, fromSource, nAtCopy)
      ensures !Fatal(old(rc)) && old(iNext) == 1 && iNext > 1 && rc != ReadOnly ==> !fromSource && nAtCopy == nSrc
      ensures !Fatal(old(rc)) && rc == Ok ==> nPage >= 0 && iNext == old(iNext) + nPage <= nSrc
      ensures !Fatal(old(rc)) && !srcWriting ==>
                (rc == ReadOnly <==>
                   z.src != z.dest && (destWal || (destInMemory && CopiesAny(z, old(iNext), nPage, nSrc))))
      ensures rc != Done ==> PendingKept(z, old(dest), dest)
      ensures !Fatal(old(rc)) && !srcWriting && rc != ReadOnly ==> nPagecount == nSrc
      ensures !Fatal(old(rc)) && !srcWriting && rc != ReadOnly ==>
                iNext == IndexAfter(old(iNext), nPage, nSrc) && nRemaining == Remaining(nSrc, iNext)
                    && (rc == Done <==> iNext > nSrc)
      ensures !Fatal(old(rc)) && !srcWriting && rc != ReadOnly && nSrc < U32 - 1 && iNext < U32 ==>
                && (nRemaining == PagesLeft(nSrc, iNext) <==> iNext <= nSrc + 1)
                && (Reported() == PagesLeft(nSrc, iNext) <==> iNext <= nSrc + 1 < iNext + 0x8000_0000)
    {
      hide Times, Multiple, PageOf, SizesOk, Match, Complete, Remaining, AsInt, HeaderSet, IsNewDb, FieldOk, Enc4,
        IndexAfter, PagesLeft, PendingKept, CopiesAny;
      KeptAlready(z, dest);
      if Fatal(rc) { return rc; }
      if srcWriting {
        rc := Busy;
        return rc;
      }
      rc := Ok;
      SizesPositive(z);
      if destWal && z.src != z.dest {
        rc := ReadOnly;
        return rc;
      }
      CopyPages(nPage);
      IndexReaches(old(iNext), nPage, nSrc);
      if nSrc < U32 - 1 && iNext < U32 { RemainingIsRight(nSrc, iNext); }
      if rc == Ok { EndStep(newDb, stamps); }
      return rc;
    }

    /** The end of a step: the counts are recorded, and the copy is completed if all pages have been copied. */
    method EndStep(newDb: seq<byte>, stamps: seq<byte>)
      requires rc == Ok && SizesOk(z) && |src| == Times(nSrc, z.src) && iNext >= 1 && iDestSchema < U32
      requires Match(z, dest, src, Times(iNext - 1, z.src)) && |newDb| == z.dest && |stamps| == 100
      requires iNext > 1 ==> FieldOk(dest, src, fromSource, nAtCopy)
      modifies this`dest, this`rc, this`nPagecount, this`nRemaining, this`isAttached
      ensures Valid() && rc == (if iNext > nSrc then Done else Ok)
      ensures nPagecount == nSrc && nRemaining == Remaining(nSrc, iNext) && (rc == Ok ==> dest == old(dest))
      ensures rc == Done ==>
                && Complete(z, dest, src, destWal) && HeaderSet(dest, (iDestSchema + 1) % U32, destWal, stamps)
                && if nSrc == 0 then IsNewDb(z, dest, newDb, destWal) else FieldOk(dest, src, fromSource, nAtCopy)
    {
      hide Times, Multiple, PageOf, SizesOk, Match, Complete, Remaining, HeaderSet, IsNewDb, FieldOk;
      nPagecount, nRemaining := nSrc, Remaining(nSrc, iNext);
      if iNext > nSrc {
        ghost var dest0 := dest;
        MatchAll(z, dest, src, iNext - 1, nSrc);
        dest := FinishCopy(z, dest, src, nSrc, newDb, iDestSchema, destWal, stamps);
        if nSrc > 0 { FieldStays(dest0, dest, src, fromSource, nAtCopy); }
        rc := Done;
      } else if !isAttached {
        isAttached := true;
      }
    }

    /** The loop of sqlite3_backup_step: copies up to nPage pages, but not the pending page. */
    method CopyPages(nPage: int)
      requires rc == Ok && SizesOk(z) && |src| == Times(nSrc, z.src) && iNext >= 1
      requires Match(z, dest, src, Times(iNext - 1, z.src))
      requires iNext > 1 ==> FieldOk(dest, src, fromSource, nAtCopy)
      modifies this`dest, this`iNext, this`rc, this`fromSource, this`nAtCopy
      ensures iNext >= 1 && PendingKept(z, old(dest), dest)
      ensures rc == if z.src != z.dest && destInMemory && CopiesAny(z, old(iNext), nPage, nSrc) then ReadOnly else Ok
      ensures rc == Ok ==> iNext == IndexAfter(old(iNext), nPage, nSrc) && Match(z, dest, src, Times(iNext - 1, z.src))
      ensures rc == Ok && iNext > 1 ==> FieldOk(dest, src, fromSource, nAtCopy)
      ensures rc == Ok && old(iNext) == 1 && iNext > 1 ==> !fromSource && nAtCopy == nSrc
    {
      hide Times, Multiple, PageOf, SizesOk, Match, FieldOk, AnyToCopy, PendingKept;
      SizesPositive(z);
      NoneToCopy(z, iNext);
      KeptAlready(z, dest);
      var ii := 0;
      while (nPage < 0 || ii < nPage) && iNext <= nSrc && rc == Ok
        invariant iNext == old(iNext) + ii && iNext >= 1 && (ii > 0 ==> iNext <= nSrc + 1)
        invariant rc == if z.src != z.dest && destInMemory && AnyToCopy(z, old(iNext), iNext) then ReadOnly else Ok
        invariant PendingKept(z, old(dest), dest) && iNext <= IndexAfter(old(iNext), nPage, nSrc)
        invariant rc == Ok ==> Match(z, dest, src, Times(iNext - 1, z.src)) && (nPage >= 0 ==> ii <= nPage || ii == 0)
        invariant rc == Ok && iNext > 1 ==> FieldOk(dest, src, fromSource, nAtCopy)
        invariant rc == Ok && old(iNext) == 1 && iNext > 1 ==> !fromSource && nAtCopy == nSrc
        decreases nSrc + 1 - iNext
      {
        ghost var m := dest;
        NextToCopy(z, old(iNext), iNext);
        if iNext != PendingPage(z) {
          rc := CopyNext();
          KeptTwice(z, old(dest), m, dest);
        } else {
          MatchPending(z, dest, src, iNext);
          PendingIsLater(z);
        }
        iNext, ii := iNext + 1, ii + 1;
      }
      MoreToCopy(z, old(iNext), iNext, IndexAfter(old(iNext), nPage, nSrc));
    }

    /** Copies page iNext, unless the destination is in memory and its page size differs. */
    method CopyNext() returns (r: Rc)
      requires SizesOk(z) && |src| == Times(nSrc, z.src) && 1 <= iNext <= nSrc
               && Match(z, dest, src, Times(iNext - 1, z.src))
      requires (iNext > 1 ==> FieldOk(dest, src, fromSource, nAtCopy)) && iNext != PendingPage(z)
      modifies this`dest, this`fromSource, this`nAtCopy
      ensures r == if z.src != z.dest && destInMemory then ReadOnly else Ok
      ensures PendingKept(z, old(dest), dest)
      ensures r == Ok ==> Match(z, dest, src, Times(iNext, z.src)) && FieldOk(dest, src, fromSource, nAtCopy)
      ensures if iNext == 1 && r == Ok then !fromSource && nAtCopy == nSrc
              else fromSource == old(fromSource) && nAtCopy == old(nAtCopy)
    {
      hide Times, Multiple, PageOf, SizesOk, Match, CopiedTo, Enc4, Sent;
      if z.src != z.dest && destInMemory { return ReadOnly; }
      PageInside(z, iNext, nSrc);
      var m := BackupOnePage(z, dest, iNext, PageData(z, src, iNext), false, Enc4(nSrc));
      MatchNext(z, dest, m, src, iNext, Enc4(nSrc));
      PendingStays(z, dest, m, src, iNext, Enc4(nSrc));
      if iNext == 1 { fromSource, nAtCopy := false, nSrc; }
      dest := m;
      return Ok;
    }

    /** A transaction on the source writes a page, perhaps one past the end; a page already copied is
        copied again. */
    method SourceWrite(pg: nat, page: seq<byte>)
      requires Valid() && 1 <= pg <= nSrc + 1 && |page| == z.src && pg != PendingPage(z)
      modifies this
      ensures Valid() && Times(pg - 1, z.src) <= |old(src)| && src == Written(z, old(src), pg, page)
      ensures nSrc == (if pg > old(nSrc) then pg else old(nSrc)) && iNext == old(iNext)
              && (rc == old(rc) || rc == ReadOnly)
      ensures Fatal(old(rc)) ==> rc == old(rc) && dest == old(dest)
      ensures fromSource == (old(fromSource) || (pg == 1 && iNext > 1)) && nAtCopy == old(nAtCopy)
    {
      hide Times, Multiple, PageOf, SizesOk, Match, CopiedTo, FieldOk;
      SizesPositive(z);
      PageBounds(z, pg, nSrc, iNext);
      ghost var src0, dest0 := src, dest;
      src := Written(z, src, pg, page);
      if pg > nSrc { nSrc := pg; }
      if isAttached { Update(pg, page); }
      if !Fatal(rc) {
        MatchWritten(z, dest0, dest, src0, pg, page, Times(iNext - 1, z.src));
        if iNext > 1 { FieldWritten(z, dest0, dest, src0, pg, page, iNext, fromSource, nAtCopy); }
      }
      if pg == 1 && iNext > 1 { fromSource := true; }
    }

    /** backupUpdate for this backup: a page already copied is copied again, header size included. */
    method Update(pg: nat, page: seq<byte>)
      requires SizesOk(z) && pg >= 1 && |page| == z.src
      modifies this`dest, this`rc
      ensures rc == if !Fatal(old(rc)) && pg < iNext && z.src != z.dest && destInMemory then ReadOnly else old(rc)
      ensures !Fatal(rc) && pg < iNext ==>
                var base := Times(pg - 1, z.src); CopiedTo(z, old(dest), dest, base, page, base + z.src)
      ensures Fatal(old(rc)) || pg >= iNext ==> dest == old(dest) && rc == old(rc)
    {
      if !Fatal(rc) && pg < iNext {
        if z.src != z.dest && destInMemory {
          rc := ReadOnly;
        } else {
          dest := BackupOnePage(z, dest, pg, page, true, Enc4(0));
        }
      }
    }

    /** The source grows past the pending page, which is never written. */
    method SourceSkipPending(page: seq<byte>)
      requires Valid() && nSrc + 1 == PendingPage(z) && |page| == z.src
      modifies this`src, this`nSrc
      ensures Valid() && src == old(src) + page && nSrc == old(nSrc) + 1
    {
      hide Times, Multiple, PageOf, SizesOk;
      PendingHidden(z, nSrc + 1);
      PendingIsLater(z);
      SizesPositive(z);
      TimesMonotone(1, nSrc, z.src);
      TimesZero(1, z.src);
      TimesNext(nSrc, z.src);
      assert (src + page)[28..32] == src[28..32];
      src, nSrc := src + page, nSrc + 1;
    }

    /** The source loses its last pages. */
    method SourceTruncate(n: nat)
      requires Valid() && n <= nSrc
      modifies this`src, this`nSrc
      ensures Valid() && Times(n, z.src) <= |old(src)| && src == old(src)[..Times(n, z.src)] && nSrc == n
    {
      hide Times, Multiple, PageOf, SizesOk;
      TimesMonotone(n, nSrc, z.src);
      src, nSrc := src[..Times(n, z.src)], n;
    }

    /** Another process has changed the source: the backup starts again. */
    method SourceReplaced(s: seq<byte>, n: nat)
      requires Valid() && |s| == Times(n, z.src)
      modifies this
      ensures Valid() && src == s && nSrc == n && dest == old(dest) && rc == old(rc) && (isAttached ==> iNext == 1)
    {
      src, nSrc := s, n;
      if isAttached { iNext := 1; }
      assert Times(0, z.src) == 0;
    }
  }

  lemma FieldStays(m: Bytes, m': Bytes, src: seq<byte>, fromSource: bool, n: nat)
    requires FieldOk(m, src, fromSource, n) && SameField(m, m', 28)
    ensures FieldOk(m', src, fromSource, n)
  {
  }

  lemma FieldWritten(z: Sizes, dest: Bytes, dest': Bytes, src: seq<byte>, pg: nat, page: seq<byte>, iNext: nat,
                     fromSource: bool, n: nat)
    requires pg >= 1 && z.src >= 512 && Times(pg - 1, z.src) <= |src| && |page| == z.src && iNext > 1
    requires FieldOk(dest, src, fromSource, n) && z.pending >= z.src && z.pending >= z.dest
    requires Times(pg - 1, z.src) + z.src <= |src| || Times(pg - 1, z.src) == |src|
    requires var base := Times(pg - 1, z.src);
             if pg < iNext then CopiedTo(z, dest, dest', base, page, base + z.src) else dest' == dest
    ensures FieldOk(dest', Written(z, src, pg, page), fromSource || pg == 1, n)
  {
    hide Times, Enc4;
    var base, src' := Times(pg - 1, z.src), Written(z, src, pg, page);
    FirstPages(pg, z.src);
    if pg == 1 {
      assert page == src'[..z.src];
      forall i: nat | 28 <= i < 32 ensures Holds(dest', i, page[i]) { assert !InPending(z, i); }
      assert src'[28..32] == page[28..32];
    } else {
      assert |src| >= 512;
      forall i: nat | 28 <= i < 32 ensures SameAt(dest, dest', i) { assert !InPending(z, i); }
      assert SameField(dest, dest', 28);
      assert |src'| >= 32 ==> src'[28..32] == src[28..32];
    }
  }

  lemma PageInside(z: Sizes, pg: nat, n: nat)
    requires 1 <= pg <= n
    ensures Times(pg - 1, z.src) + z.src <= Times(n, z.src)
  {
    TimesMonotone(pg - 1, n, z.src);
  }

  lemma PageBounds(z: Sizes, pg: nat, n: nat, iNext: nat)
    requires 1 <= pg <= n + 1 && iNext >= 1 && z.src > 0
    ensures Times(pg - 1, z.src) <= Times(n, z.src)
    ensures pg <= n ==> Times(pg - 1, z.src) + z.src <= Times(n, z.src)
    ensures pg == n + 1 ==> Times(pg, z.src) == Times(n, z.src) + z.src
    ensures if pg < iNext then Times(pg - 1, z.src) + z.src <= Times(iNext - 1, z.src)
            else Times(iNext - 1, z.src) <= Times(pg - 1, z.src)
  {
    TimesMonotone(pg - 1, n, z.src);
    TimesNext(n, z.src);
    if pg < iNext { TimesMonotone(pg - 1, iNext - 1, z.src); } else { TimesMonotone(iNext - 1, pg - 1, z.src); }
  }

  lemma MatchAll(z: Sizes, dest: Bytes, src: seq<byte>, k: nat, n: nat)
    requires Match(z, dest, src, Times(k, z.src)) && n <= k && |src| == Times(n, z.src)
    ensures Match(z, dest, src, |src|)
  {
    TimesMonotone(n, k, z.src);
  }

  // ----- Whole runs

  datatype Event =
    | CopySome(nPage: int, srcWriting: bool)
    | Write(pg: nat, page: seq<byte>)
    | SkipPending(page: seq<byte>)
    | Shrink(n: nat)
    | Replace(s: seq<byte>, n: nat)

  /** Carries out events in any order, as far as they are possible in the state they meet. */
  method Run(b: Backup, events: seq<Event>, newDb: seq<byte>, stamps: seq<byte>)
    requires b.Valid() && |newDb| == b.z.dest && |stamps| == 100
    modifies b
    ensures b.Valid()
  {
    hide Times, Multiple, SizesOk, PageOf, Match;
    SizesPositive(b.z);
    for i := 0 to |events|
      invariant b.Valid()
    {
      match events[i]
      case CopySome(nPage, srcWriting) => var r := b.Step(nPage, srcWriting, newDb, stamps);
      case Write(pg, page) => if 1 <= pg <= b.nSrc + 1 && |page| == b.z.src && pg != PendingPage(b.z) {
        b.SourceWrite(pg, page);
      }
      case SkipPending(page) => if b.nSrc + 1 == PendingPage(b.z) && |page| == b.z.src { b.SourceSkipPending(page); }
      case Shrink(n) => if n <= b.nSrc { b.SourceTruncate(n); }
      case Replace(s, n) => if |s| == Times(n, b.z.src) { b.SourceReplaced(s, n); }
    }
  }

  /** A source of n pages shrinks to m pages after k have been copied: m - k pages are said to remain, as the
      last call reports, a negative number if m < k. */
  method ShrinkDuringBackup(z: Sizes, inMemory: bool, wal: bool, s: seq<byte>, n: nat, d: Bytes, k: nat, m: nat,
                            nPage: int, newDb: seq<byte>, schema: nat, stamps: seq<byte>)
    returns (b: Backup, r: Rc, reported: int)
    requires SizesOk(z) && |s| == Times(n, z.src) && m <= k < n < 0x7fff_ffff && |newDb| == z.dest && |stamps| == 100
    requires (z.src == z.dest || (!wal && !inMemory)) && schema < U32
    ensures b.Valid() && r == Done && reported == m - k
  {
    hide Times, Multiple, SizesOk, PageOf, Match, Complete, Remaining, AsInt;
    b := new Backup(z, inMemory, wal, s, n, d, schema);
    r := b.Step(k, false, newDb, stamps);
    b.SourceTruncate(m);
    r := b.Step(nPage, false, newDb, stamps);
    RemainingIsRight(m, k + 1);
    reported := b.Reported();
  }

  /** After any interleaving that has not ended the backup, one call for all remaining pages makes the
      destination a copy of the source as it is at that moment. */
  method RunThenCopyAll(b: Backup, events: seq<Event>, newDb: seq<byte>, stamps: seq<byte>) returns (ended: bool, r: Rc)
    requires b.Valid() && |newDb| == b.z.dest && |stamps| == 100
    modifies b
    ensures b.Valid()
    ensures !ended && r == Done ==>
              && Complete(b.z, b.dest, b.src, b.destWal)
              && HeaderSet(b.dest, (b.iDestSchema + 1) % U32, b.destWal, stamps)
              && BigEndian(b.dest, 40) != b.iDestSchema
              && if b.nSrc == 0 then IsNewDb(b.z, b.dest, newDb, b.destWal)
                 else FieldOk(b.dest, b.src, b.fromSource, b.nAtCopy)
    ensures !ended && (b.z.src == b.z.dest || (!b.destWal && !b.destInMemory)) ==> r == Done
  {
    hide Times, Multiple, SizesOk, PageOf, Match, Complete, BigEndian;
    Run(b, events, newDb, stamps);
    ended := Fatal(b.rc);
    r := b.Step(-1, false, newDb, stamps);
  }
}
