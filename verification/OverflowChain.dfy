/** Payload that does not fit on a B-tree page: it is continued on a chain of overflow pages. */
module OverflowChain {
  import opened Arith
  import opened ByteTypes
  import opened PointerMap
  import opened DbFile

  type Pages = map<Pgno, Page>

  /** The pointer map of an auto-vacuum database. */
  type PtrMap = map<Pgno, PtrEntry>

  /** Page pgno is an overflow page with content of the given size.  Its link is 0 at the end of a chain. */
  predicate IsOvfl(pages: Pages, pgno: Pgno, size: nat) {
    pgno in pages && pages[pgno].Ovfl? && |pages[pgno].bytes| == size
  }

  predicate LinksTo(pages: Pages, pgno: Pgno, next: Pgno) {
    pgno in pages && pages[pgno].Ovfl? && pages[pgno].nextOvfl == next
  }

  /** The pages of chain hold the bytes of rest, size bytes on each but the last. */
  ghost predicate Partial(pages: Pages, size: nat, chain: seq<nat>, rest: seq<byte>)
    decreases chain
  {
    if chain == [] then rest == []
    else
      && chain[0] != 0 && IsOvfl(pages, chain[0], size)
      && var p := pages[chain[0]];
         if |chain| == 1 then p.nextOvfl == 0 && |rest| <= size && p.bytes[..|rest|] == rest
         else p.nextOvfl == chain[1] && |rest| >= size && p.bytes == rest[..size]
              && Partial(pages, size, chain[1..], rest[size..])
  }

  ghost predicate NoRepeat(chain: seq<nat>) { forall i, j :: 0 <= i < j < |chain| ==> chain[i] != chain[j] }

  /** The same, and no page is superfluous. */
  ghost predicate Stores(pages: Pages, size: nat, chain: seq<nat>, rest: seq<byte>)
    decreases chain
  {
    if chain == [] then rest == []
    else
      && chain[0] != 0 && IsOvfl(pages, chain[0], size) && rest != []
      && var p := pages[chain[0]];
         if |chain| == 1 then p.nextOvfl == 0 && |rest| <= size && p.bytes[..|rest|] == rest
         else p.nextOvfl == chain[1] && |rest| > size && p.bytes == rest[..size]
              && Stores(pages, size, chain[1..], rest[size..])
  }

  function First(chain: seq<nat>): nat { if chain == [] then 0 else chain[0] }

  /** Number of overflow pages for n bytes. */
  function PageCount(n: nat, size: nat): nat
    requires size > 0
  {
    (n + size - 1) / size
  }

  lemma CountStep(n: nat, size: nat)
    requires size > 0
    ensures n > size ==> PageCount(n, size) == PageCount(n - size, size) + 1
    ensures 0 < n <= size ==> PageCount(n, size) == 1
    ensures n == 0 ==> PageCount(n, size) == 0
  {
    if n > size {
      var m := n - size;
      var t := DivMod(m + size - 1, size);
      assert n + size - 1 == (PageCount(m, size) + 1) * size + t;
      DivUnique(size, PageCount(m, size) + 1, t);
    } else if n > 0 {
      DivUnique(size, 1, n - 1);
    } else {
      DivUnique(size, 0, size - 1);
    }
  }

  lemma {:induction false} ChainLength(pages: Pages, size: nat, chain: seq<nat>, rest: seq<byte>)
    requires size > 0 && Stores(pages, size, chain, rest)
    ensures |chain| == PageCount(|rest|, size)
    decreases chain
  {
    CountStep(|rest|, size);
    if |chain| > 1 { ChainLength(pages, size, chain[1..], rest[size..]); }
  }

  // ----- Writing a chain

  function Overwrite(d: seq<byte>, at: nat, s: seq<byte>): (r: seq<byte>)
    requires at + |s| <= |d|
    ensures |r| == |d| && r[..at + |s|] == d[..at] + s
  {
    d[..at] + s + d[at + |s|..]
  }

  /** Bytes used on the last page of a chain. */
  function Used(size: nat, chain: seq<nat>, rest: seq<byte>): int
    decreases chain
  {
    if |chain| <= 1 then |rest| else if |rest| < size then 0 else Used(size, chain[1..], rest[size..])
  }

  /** Adding bytes on the last page. */
  lemma {:induction false} PartialAppend(pages: Pages, size: nat, chain: seq<nat>, rest: seq<byte>, s: seq<byte>)
    requires chain != [] && NoRepeat(chain) && Partial(pages, size, chain, rest)
    requires 0 <= Used(size, chain, rest) && Used(size, chain, rest) + |s| <= size
    ensures var last := chain[|chain| - 1];
            && IsOvfl(pages, last, size)
            && var p := pages[last];
               var pages' := pages[last := p.(bytes := Overwrite(p.bytes, Used(size, chain, rest), s))];
               Partial(pages', size, chain, rest + s) && Used(size, chain, rest + s) == Used(size, chain, rest) + |s|
    decreases chain
  {
    hide Overwrite;
    var last := chain[|chain| - 1];
    if |chain| > 1 {
      var tail := chain[1..];
      assert NoRepeat(tail) by { assert forall i :: 0 <= i < |tail| ==> tail[i] == chain[i + 1]; }
      assert tail[|tail| - 1] == last != chain[0];
      hide NoRepeat;
      PartialAppend(pages, size, tail, rest[size..], s);
      assert (rest + s)[size..] == rest[size..] + s && (rest + s)[..size] == rest[..size];
    }
  }

  /** Adding an empty page at the end of a chain whose last page is full. */
  lemma {:induction false} PartialGrow(pages: Pages, size: nat, chain: seq<nat>, rest: seq<byte>, pg: nat, p: Page)
    requires chain != [] && NoRepeat(chain) && Partial(pages, size, chain, rest) && Used(size, chain, rest) == size
    requires pg != 0 && pg !in chain && p.Ovfl? && |p.bytes| == size && p.nextOvfl == 0
    ensures var last := chain[|chain| - 1];
            && IsOvfl(pages, last, size)
            && var pages' := pages[last := pages[last].(nextOvfl := pg)][pg := p];
               Partial(pages', size, chain + [pg], rest) && Used(size, chain + [pg], rest) == 0
    decreases chain
  {
    var last := chain[|chain| - 1];
    if |chain| > 1 {
      var tail := chain[1..];
      assert NoRepeat(tail) by { assert forall i :: 0 <= i < |tail| ==> tail[i] == chain[i + 1]; }
      assert tail[|tail| - 1] == last;
      PartialGrow(pages, size, tail, rest[size..], pg, p);
      assert (chain + [pg])[1..] == tail + [pg];
    } else {
      var pages' := pages[last := pages[last].(nextOvfl := pg)][pg := p];
      assert chain == [last] && (chain + [pg])[1..] == [pg];
      assert rest == rest[..size] && rest[size..] == [];
      assert Partial(pages', size, [pg], []);
    }
  }

  lemma {:induction false} PartialStores(pages: Pages, size: nat, chain: seq<nat>, rest: seq<byte>)
    requires Partial(pages, size, chain, rest) && Used(size, chain, rest) > 0
    ensures Stores(pages, size, chain, rest)
    decreases chain
  {
    if |chain| > 1 {
      PartialStores(pages, size, chain[1..], rest[size..]);
      UsedNonEmpty(size, chain[1..], rest[size..]);
    }
  }

  lemma UsedNonEmpty(size: nat, chain: seq<nat>, rest: seq<byte>)
    requires Used(size, chain, rest) > 0
    ensures rest != []
    decreases chain
  {
  }

  function Zeros(n: nat): (r: seq<byte>)
    ensures |r| == n
  {
    seq(n, _ => 0)
  }

  /** How many bytes of a large payload stay on the B-tree page: if possible so many that the last
      overflow page is full. */
  function LocalSize(n: nat, minLocal: nat, maxLocal: nat, size: nat): (r: nat)
    requires minLocal <= maxLocal < n && size > 0
    ensures minLocal <= r <= maxLocal
  {
    var r := minLocal + (n - minLocal) % size;
    if r > maxLocal then minLocal else r
  }

  /** The bytes that spill over fill whole pages, unless too many bytes would have to stay behind. */
  lemma LocalSizeFills(n: nat, minLocal: nat, maxLocal: nat, size: nat)
    requires minLocal <= maxLocal < n && size > 0
    ensures var r := LocalSize(n, minLocal, maxLocal, size);
            if minLocal + (n - minLocal) % size > maxLocal then r == minLocal
                else (exists k: nat :: n - r == Times(k, size))
  {
    var x := n - minLocal;
    var t := DivMod(x, size);
    assert x % size == t;
    assert x - t == Times(x / size, size);
  }

  /** What the loop of fillInCell has written: w bytes, the first on the B-tree page, the others on the
      chain. */
  ghost predicate Filled(pages: Pages, size: nat, local: seq<byte>, first: nat, chain: seq<nat>, payload: seq<byte>,
                         w: nat, nLocal: nat, spaceLeft: nat) {
    && nLocal <= |payload| && w <= |payload| && first == First(chain) && NoRepeat(chain)
    && if chain == [] then w <= nLocal && local == payload[..w] && spaceLeft == nLocal - w
       else w >= nLocal && local == payload[..nLocal] && Partial(pages, size, chain, payload[nLocal..w])
            && Used(size, chain, payload[nLocal..w]) >= 0 && spaceLeft == size - Used(size, chain, payload[nLocal..w])
  }

  lemma FilledWrite(pages: Pages, size: nat, local: seq<byte>, first: nat, chain: seq<nat>, payload: seq<byte>, w: nat,
                    nLocal: nat, spaceLeft: nat, n: nat)
    requires Filled(pages, size, local, first, chain, payload, w, nLocal, spaceLeft) && n <= spaceLeft
             && w + n <= |payload| && chain != []
    ensures var last := chain[|chain| - 1];
            && IsOvfl(pages, last, size) && spaceLeft <= size
            && var p := pages[last];
               var pages' := pages[last := p.(bytes := Overwrite(p.bytes, size - spaceLeft, payload[w..w + n]))];
               Filled(pages', size, local, first, chain, payload, w + n, nLocal, spaceLeft - n)
  {
    hide Partial, Used, Overwrite;
    var rest, s := payload[nLocal..w], payload[w..w + n];
    PartialAppend(pages, size, chain, rest, s);
    assert payload[nLocal..w + n] == rest + s;
  }

  lemma FilledGrow(pages: Pages, size: nat, local: seq<byte>, first: nat, chain: seq<nat>, payload: seq<byte>, w: nat,
                   nLocal: nat, pg: nat, p: Page)
    requires Filled(pages, size, local, first, chain, payload, w, nLocal, 0) && pg != 0 && pg !in chain && p.Ovfl?
             && p.nextOvfl == 0 && |p.bytes| == size
    ensures chain != [] ==> IsOvfl(pages, chain[|chain| - 1], size)
    ensures var pages1 := if chain == [] then pages else var last := chain[|chain| - 1];
            pages[last := pages[last].(nextOvfl := pg)];
            Filled(pages1[pg := p], size, local, if chain == [] then pg else first, chain + [pg], payload, w, nLocal,
                size)
  {
    hide Partial, Used;
    assert NoRepeat(chain + [pg]);
    if chain == [] {
      assert chain + [pg] == [pg] && payload[nLocal..w] == [];
      OnePage(pages[pg := p], size, pg);
    } else {
      PartialGrow(pages, size, chain, payload[nLocal..w], pg, p);
    }
  }

  lemma OnePage(pages: Pages, size: nat, pg: nat)
    requires pg != 0 && IsOvfl(pages, pg, size) && pages[pg].nextOvfl == 0
    ensures Partial(pages, size, [pg], []) && Used(size, [pg], []) == 0
  {
  }

  /** The pages outside a chain. */
  ghost predicate OthersSame(pages: Pages, pages': Pages, chain: seq<nat>) {
    (forall p :: p in pages && p !in chain ==> p in pages' && pages'[p] == pages[p])
        && (forall p :: p in pages' && p !in chain ==> p in pages)
  }

  /** The next bytes of a payload. */
  function Piece(src: seq<byte>, at: nat, n: nat): (r: seq<byte>)
    requires at + n <= |src| || at >= |src|
  {
    if at + n <= |src| then src[at..at + n] else Zeros(n)
  }

  lemma PieceIs(src: seq<byte>, nZero: nat, at: nat, n: nat)
    requires at + n <= |src| + nZero && (at + n <= |src| || at >= |src|)
    ensures Piece(src, at, n) == (src + Zeros(nZero))[at..at + n]
  {
  }

  function LastPage(chain: seq<Pgno>): Pgno { if chain == [] then 0 else chain[|chain| - 1] }

  /** The last page of a chain. */
  lemma {:induction false} LastOf(pages: Pages, size: nat, chain: seq<nat>, rest: seq<byte>)
    requires chain != [] && Partial(pages, size, chain, rest)
    ensures LinksTo(pages, chain[|chain| - 1], 0)
    decreases chain
  {
    if |chain| > 1 { LastOf(pages, size, chain[1..], rest[size..]); }
  }

  lemma FilledLast(pages: Pages, size: nat, local: seq<byte>, first: nat, chain: seq<nat>, payload: seq<byte>, w: nat,
                   nLocal: nat, spaceLeft: nat)
    requires Filled(pages, size, local, first, chain, payload, w, nLocal, spaceLeft)
    ensures chain != [] ==> LinksTo(pages, chain[|chain| - 1], 0)
    ensures first == First(chain)
  {
    if chain != [] { LastOf(pages, size, chain, payload[nLocal..w]); }
  }

  lemma FilledStart(pages: Pages, size: nat, payload: seq<byte>, nLocal: nat)
    requires nLocal <= |payload|
    ensures Filled(pages, size, [], 0, [], payload, 0, nLocal, nLocal)
  {
  }

  lemma FilledLocal(pages: Pages, size: nat, local: seq<byte>, first: nat, chain: seq<nat>, payload: seq<byte>, w: nat,
                    nLocal: nat, spaceLeft: nat, n: nat)
    requires Filled(pages, size, local, first, chain, payload, w, nLocal, spaceLeft) && chain == [] && n <= spaceLeft
             && w + n <= |payload|
    ensures Filled(pages, size, local + payload[w..w + n], first, chain, payload, w + n, nLocal, spaceLeft - n)
  {
  }

  /** At the end the last page is not empty. */
  lemma FilledEnd(pages: Pages, size: nat, local: seq<byte>, first: nat, chain: seq<nat>, payload: seq<byte>,
                  nLocal: nat, spaceLeft: nat)
    requires Filled(pages, size, local, first, chain, payload, |payload|, nLocal, spaceLeft) && nLocal < |payload|
    requires chain != [] ==> spaceLeft < size
    ensures local == payload[..nLocal] && Stores(pages, size, chain, payload[nLocal..]) && first == First(chain)
  {
    assert payload[nLocal..|payload|] == payload[nLocal..];
    PartialStores(pages, size, chain, payload[nLocal..]);
  }

  // ----- What the cache learns

  /** Every page of the chain that holds any of bytes lo up to hi is known. */
  ghost predicate Known(cache: seq<nat>, chain: seq<nat>, size: nat, lo: nat, hi: nat) {
    |cache| >= |chain| && forall k: nat :: k < |chain| && lo < Times(k, size) + size && Times(k, size) < hi ==>
      cache[k] == chain[k]
  }

  lemma TimesNext(k: nat, size: nat)
    ensures Times(k + 1, size) == Times(k, size) + size
  {
  }

  lemma {:induction false} TimesGrow(j: nat, k: nat, size: nat)
    requires j <= k
    ensures Times(j, size) <= Times(k, size) && (j < k ==> Times(j, size) + size <= Times(k, size))
  {
    if j < k {
      TimesGrow(j, k - 1, size);
      TimesNext(k - 1, size);
    }
  }

  /** Where a walk starts, no page before has to be known. */
  lemma KnownStart(cache: seq<nat>, chain: seq<nat>, size: nat, lo: nat, idx: nat)
    requires size > 0 && CacheOk(cache, chain) && (idx == 0 || idx == lo / size)
    ensures Known(cache, chain, size, lo, Times(idx, size))
  {
    hide Times;
    PlaceOf(size, lo, idx);
    forall k: nat | k < idx ensures Times(k, size) + size <= lo { TimesGrow(k, idx, size); }
    forall k: nat | idx <= k ensures Times(k, size) >= Times(idx, size) { TimesGrow(idx, k, size); }
  }

  lemma KnownNext(cache: seq<nat>, chain: seq<nat>, size: nat, lo: nat, idx: nat)
    requires CacheOk(cache, chain) && idx < |chain| && Known(cache, chain, size, lo, Times(idx, size))
    ensures Known(cache[idx := chain[idx]], chain, size, lo, Times(idx, size) + size)
  {
    hide Times;
    forall k: nat ensures (k < idx ==> Times(k, size) + size <= Times(idx, size))
                          && (idx < k ==> Times(idx, size) + size <= Times(k, size)) {
      if k < idx { TimesGrow(k, idx, size); } else { TimesGrow(idx, k, size); }
    }
  }

  lemma KnownLess(cache: seq<nat>, chain: seq<nat>, size: nat, lo: nat, hi: nat, hi': nat)
    requires Known(cache, chain, size, lo, hi) && hi' <= hi
    ensures Known(cache, chain, size, lo, hi')
  {
  }

  // ----- Reading a payload

  /** An entry of the second kind names the page before an overflow page in its chain. */
  ghost predicate MapExact(pages: Pages, ptrmap: PtrMap) {
    forall q :: q in ptrmap && ptrmap[q].kind.Overflow2? ==> q != 0 && LinksTo(pages, ptrmap[q].parent, q)
  }

  /** Entries that name ovfl as their predecessor are right. */
  ghost predicate ExactAt(pages: Pages, ptrmap: PtrMap, ovfl: nat) {
    ovfl in pages && pages[ovfl].Ovfl?
        && forall q :: q in ptrmap && ptrmap[q] == PtrEntry(Overflow2, ovfl) ==> pages[ovfl].nextOvfl == q
  }

  /** The page after an overflow page.  If the pointer map confirms a guess, the page itself is not read. */
  method GetOverflowPage(pages: Pages, auto: bool, ptrmap: PtrMap, guess: nat -> nat, ovfl: nat)
    returns (next: nat, read: bool)
    requires ovfl in pages && pages[ovfl].Ovfl? && (auto ==> ExactAt(pages, ptrmap, ovfl))
    ensures next == pages[ovfl].nextOvfl
    ensures read <==> !(auto && guess(ovfl) in ptrmap && ptrmap[guess(ovfl)] == PtrEntry(Overflow2, ovfl))
  {
    if auto {
      var g := guess(ovfl);
      if g in ptrmap && ptrmap[g].kind.Overflow2? && ptrmap[g].parent == ovfl { return g, false; }
    }
    return pages[ovfl].nextOvfl, true;
  }

  lemma ExactEverywhere(pages: Pages, ptrmap: PtrMap, ovfl: nat)
    requires MapExact(pages, ptrmap) && ovfl in pages && pages[ovfl].Ovfl?
    ensures ExactAt(pages, ptrmap, ovfl)
  {
  }

  /** Known entries of the overflow page list of a cursor are right; 0 means not known. */
  ghost predicate CacheOk(cache: seq<nat>, chain: seq<nat>) {
    |cache| >= |chain| && forall i :: 0 <= i < |chain| ==> cache[i] == 0 || cache[i] == chain[i]
  }

  function Times(k: nat, size: nat): nat { k * size }

  /** The k-th page of a chain and what follows it. */
  lemma {:induction false} StoresFrom(pages: Pages, size: nat, chain: seq<nat>, rest: seq<byte>, k: nat)
    requires size > 0 && Stores(pages, size, chain, rest) && Times(k, size) < |rest|
    ensures k < |chain| && Stores(pages, size, chain[k..], rest[Times(k, size)..])
    decreases k
  {
    if k == 0 {
      assert chain[0..] == chain && rest[0..] == rest;
    } else {
      assert Times(k, size) == Times(k - 1, size) + size;
      assert |rest| > size;
      StoresFrom(pages, size, chain[1..], rest[size..], k - 1);
      assert chain[1..][k - 1..] == chain[k..] && rest[size..][Times(k - 1, size)..] == rest[Times(k, size)..];
    }
  }

  /** Part of a payload: what has been read, followed by what is still to be read from the chain. */
  ghost predicate ReadState(pages: Pages, size: nat, chain: seq<nat>, idx: nat, rest: seq<byte>, off: nat, rem: nat,
                            buf: seq<byte>, wanted: seq<byte>) {
    && idx < |chain| && Stores(pages, size, chain[idx..], rest) && 0 < rem && off + rem <= |rest|
       && buf + rest[off..off + rem] == wanted
  }

  lemma HeadNotZero(pages: Pages, size: nat, chain: seq<nat>, rest: seq<byte>)
    requires Stores(pages, size, chain, rest) && chain != []
    ensures chain[0] != 0
  {
  }

  /** Skipping a page. */
  lemma ReadSkip(pages: Pages, size: nat, chain: seq<nat>, idx: nat, rest: seq<byte>, off: nat, rem: nat,
                 buf: seq<byte>, wanted: seq<byte>)
    requires size > 0 && ReadState(pages, size, chain, idx, rest, off, rem, buf, wanted) && off >= size
    ensures |rest| >= size && idx + 1 < |chain| && LinksTo(pages, chain[idx], chain[idx + 1]) && chain[idx + 1] != 0
    ensures ReadState(pages, size, chain, idx + 1, rest[size..], off - size, rem, buf, wanted)
  {
    assert chain[idx..][1..] == chain[idx + 1..] && chain[idx..][1] == chain[idx + 1] == chain[idx + 1..][0];
    HeadNotZero(pages, size, chain[idx + 1..], rest[size..]);
    SuffixSlice(rest, size, off - size, off - size + rem);
  }

  /** Reading from a page. */
  lemma ReadPage(pages: Pages, size: nat, chain: seq<nat>, idx: nat, rest: seq<byte>, off: nat, rem: nat,
                 buf: seq<byte>, wanted: seq<byte>, a: nat)
    requires size > 0 && ReadState(pages, size, chain, idx, rest, off, rem, buf, wanted) && off < size
    requires a == if rem + off > size then size - off else rem
    ensures chain[idx] in pages && pages[chain[idx]].Ovfl? && off + a <= |pages[chain[idx]].bytes|
    ensures var buf' := buf + pages[chain[idx]].bytes[off..off + a];
            if rem == a then buf' == wanted
            else |rest| >= size && idx + 1 < |chain| && pages[chain[idx]].nextOvfl == chain[idx + 1] != 0
                 && ReadState(pages, size, chain, idx + 1, rest[size..], 0, rem - a, buf', wanted)
  {
    var p, tail := pages[chain[idx]], chain[idx..];
    assert tail[0] == chain[idx];
    assert p.bytes[off..off + a] == rest[off..off + a] by { PageSlice(pages, size, tail, rest, off, a); }
    assert rest[off..off + rem] == rest[off..off + a] + rest[off + a..off + rem];
    if rem != a {
      assert tail[1..] == chain[idx + 1..] && tail[1] == chain[idx + 1] == chain[idx + 1..][0];
      HeadNotZero(pages, size, chain[idx + 1..], rest[size..]);
      SuffixSlice(rest, size, 0, rem - a);
    }
  }

  lemma PageSlice(pages: Pages, size: nat, tail: seq<nat>, rest: seq<byte>, off: nat, a: nat)
    requires tail != [] && Stores(pages, size, tail, rest) && off + a <= size && off + a <= |rest|
    ensures IsOvfl(pages, tail[0], size) && off + a <= |pages[tail[0]].bytes|
            && pages[tail[0]].bytes[off..off + a] == rest[off..off + a]
  {
    var d := pages[tail[0]].bytes;
    var n := if |rest| <= size then |rest| else size;
    assert d[..n] == rest[..n];
    PrefixSlice(d, n, off, off + a);
    PrefixSlice(rest, n, off, off + a);
  }

  lemma PrefixSlice(s: seq<byte>, n: nat, i: nat, j: nat)
    requires i <= j <= n <= |s|
    ensures s[i..j] == s[..n][i..j]
  {
    var t := s[..n];
    forall k | 0 <= k < j - i ensures s[i..j][k] == t[i..j][k] { assert t[i + k] == s[i + k]; }
  }

  /** Where the walk along a chain starts: at a page that the cache knows, or at the first page. */
  method FindStart(size: nat, first: nat, nOvfl: nat, off: nat, cache: seq<nat>, valid: bool, ghost chain: seq<nat>)
    returns (idx: nat, nextPage: nat, off': nat, cache': seq<nat>)
    requires size > 0 && chain != [] && first == chain[0] && nOvfl == |chain| && off / size < |chain|
             && (valid ==> CacheOk(cache, chain))
    ensures CacheOk(cache', chain) && idx < |chain| && nextPage == chain[idx] && (valid ==> cache' == cache)
    ensures if valid && cache[off / size] != 0 then idx == off / size && off' == off % size
            else idx == 0 && off' == off
  {
    idx, nextPage, off', cache' := 0, first, off, cache;
    if !valid {
      cache' := seq(nOvfl, _ => 0);
    } else if cache[off / size] != 0 {
      idx, nextPage, off' := off / size, cache[off / size], off % size;
    }
  }

  /** Reads amt bytes of a payload from offset on.  The cache of page numbers may be partly filled; afterwards
      it knows all overflow pages from which bytes have been read. */
  method AccessPayload(size: nat, pages: Pages, auto: bool, ptrmap: PtrMap, guess: nat -> nat, local: seq<byte>,
                       first: nat, nPayload: nat, offset: nat, amt: nat, cache: seq<nat>, valid: bool,
                       ghost chain: seq<nat>, ghost payload: seq<byte>)
    returns (ok: bool, buf: seq<byte>, cache': seq<nat>, valid': bool)
    requires size > 0 && (auto ==> MapExact(pages, ptrmap)) && |local| <= |payload| == nPayload
             && local == payload[..|local|]
    requires first == First(chain) && Stores(pages, size, chain, payload[|local|..]) && offset + amt <= nPayload
             && (valid ==> CacheOk(cache, chain))
    ensures ok && buf == payload[offset..offset + amt] && (valid' ==> CacheOk(cache', chain))
    ensures amt > 0 && offset + amt > |local| ==>
              valid' && Known(cache', chain, size, if offset < |local| then 0 else offset - |local|,
                              offset + amt - |local|)
  {
    hide Stores, MapExact, Known, CacheOk;
    ok, cache', valid' := true, cache, valid;
    var nLocal := |local|;
    var off: nat, rem: nat := 0, amt;
    if offset < nLocal {
      var a := if amt + offset > nLocal then nLocal - offset else amt;
      buf, rem := local[offset..offset + a], amt - a;
    } else {
      off, buf := offset - nLocal, [];
    }
    if rem > 0 {
      ghost var rest, mid := payload[nLocal..], offset + amt - rem;
      var more;
      ok, more, cache', valid' :=
          ReadChain(size, pages, auto, ptrmap, guess, first, nPayload - nLocal, off, rem, cache, valid, chain, rest);
      SuffixSlice(payload, nLocal, off, off + rem);
      assert payload[offset..offset + amt] == payload[offset..mid] + payload[mid..offset + amt];
      buf := buf + more;
    }
  }

  /** The part of a read that lies on the overflow pages. */
  method ReadChain(size: nat, pages: Pages, auto: bool, ptrmap: PtrMap, guess: nat -> nat, first: nat, nRest: nat,
                   start: nat, n: nat, cache: seq<nat>, valid: bool, ghost chain: seq<nat>, ghost rest: seq<byte>)
    returns (ok: bool, buf: seq<byte>, cache': seq<nat>, valid': bool)
    requires size > 0 && (auto ==> MapExact(pages, ptrmap)) && |rest| == nRest && first == First(chain)
    requires Stores(pages, size, chain, rest) && 0 < n && start + n <= nRest && (valid ==> CacheOk(cache, chain))
    ensures ok && buf == rest[start..start + n] && valid' && CacheOk(cache', chain)
    ensures Known(cache', chain, size, start, start + n)
  {
    hide Stores, ReadState, MapExact, Known, Times, PageCount, ExactAt;
    var off: nat, rem: nat, idx: nat, nextPage := start, n, 0, first;
    ghost var tail, wanted := rest, rest[start..start + n];
    buf := [];
    ReadStart(pages, size, chain, rest, start, n);
    ChainLength(pages, size, chain, rest);
    CacheIndex(pages, size, chain, rest, off, rem, buf, wanted);
    idx, nextPage, off, cache' := FindStart(size, first, PageCount(nRest, size), start, cache, valid, chain);
    KnownStart(cache', chain, size, start, idx);
    PlaceOf(size, start, idx);
    valid' := true;
    if idx > 0 { tail := rest[Times(idx, size)..]; }
    while nextPage != 0
      invariant ReadState(pages, size, chain, idx, tail, off, rem, buf, wanted) && idx < |chain|
                && nextPage == chain[idx]
      invariant valid' && CacheOk(cache', chain) && Known(cache', chain, size, start, Times(idx, size))
      invariant Times(idx, size) + off + rem == start + n
      decreases |chain| - idx
    {
      KnownNext(cache', chain, size, start, idx);
      TimesNext(idx, size);
      cache' := cache'[idx := nextPage];
      if off >= size {
        ReadSkip(pages, size, chain, idx, tail, off, rem, buf, wanted);
        if cache'[idx + 1] != 0 {
          nextPage := cache'[idx + 1];
        } else {
          if auto { ExactEverywhere(pages, ptrmap, nextPage); }
          var read;
          nextPage, read := GetOverflowPage(pages, auto, ptrmap, guess, nextPage);
        }
        off, tail := off - size, tail[size..];
      } else {
        var a := if rem + off > size then size - off else rem;
        ReadPage(pages, size, chain, idx, tail, off, rem, buf, wanted, a);
        var p := pages[nextPage];
        nextPage, buf := p.nextOvfl, buf + p.bytes[off..off + a];
        KnownLess(cache', chain, size, start, Times(idx, size) + size, Times(idx, size) + off + a);
        off, rem := 0, rem - a;
        if rem == 0 { return true, buf, cache', valid'; }
        tail := tail[size..];
      }
      idx := idx + 1;
    }
    FirstNotZero(pages, size, chain, idx, tail, off, rem, buf, wanted);
    ok := false;
  }

  /** The place of an offset that is looked up in the cache. */
  lemma PlaceOf(size: nat, off: nat, idx: nat)
    requires size > 0
    ensures Times(0, size) == 0 && Times(off / size, size) + off % size == off
  {
    var m := DivMod(off, size);
  }

  lemma FirstNotZero(pages: Pages, size: nat, chain: seq<nat>, idx: nat, rest: seq<byte>, off: nat, rem: nat,
                     buf: seq<byte>, wanted: seq<byte>)
    requires ReadState(pages, size, chain, idx, rest, off, rem, buf, wanted)
    ensures idx < |chain| && chain[idx] != 0
  {
    assert chain[idx..][0] == chain[idx];
  }

  lemma ReadStart(pages: Pages, size: nat, chain: seq<nat>, rest: seq<byte>, start: nat, n: nat)
    requires Stores(pages, size, chain, rest) && start + n <= |rest| && n > 0
    ensures ReadState(pages, size, chain, 0, rest, start, n, [], rest[start..start + n])
  {
    assert chain != [] && chain[0..] == chain;
  }

  /** Where a cached page number is looked up, and the state there. */
  lemma CacheIndex(pages: Pages, size: nat, chain: seq<nat>, rest: seq<byte>, off: nat, rem: nat, buf: seq<byte>,
                   wanted: seq<byte>)
    requires size > 0 && ReadState(pages, size, chain, 0, rest, off, rem, buf, wanted)
    ensures off / size < |chain| && Times(off / size, size) <= |rest| && off % size < size
    ensures ReadState(pages, size, chain, off / size, rest[Times(off / size, size)..], off % size, rem, buf, wanted)
  {
    hide Stores, ReadState;
    var k := off / size;
    var t := DivMod(off, size);
    assert off == Times(k, size) + off % size;
    IndexState(pages, size, chain, rest, off, rem, buf, wanted, k, off % size);
  }

  lemma IndexState(pages: Pages, size: nat, chain: seq<nat>, rest: seq<byte>, off: nat, rem: nat, buf: seq<byte>,
                   wanted: seq<byte>, k: nat, t: nat)
    requires size > 0 && ReadState(pages, size, chain, 0, rest, off, rem, buf, wanted) && off == Times(k, size) + t
    ensures k < |chain| && Times(k, size) <= |rest|
            && ReadState(pages, size, chain, k, rest[Times(k, size)..], t, rem, buf, wanted)
  {
    hide Stores, Times;
    assert chain[0..] == chain;
    StoresFrom(pages, size, chain, rest, k);
    SuffixSlice(rest, Times(k, size), t, t + rem);
  }

  lemma SuffixSlice(s: seq<byte>, n: nat, i: nat, j: nat)
    requires i <= j && n + j <= |s|
    ensures s[n..][i..j] == s[n + i..n + j]
  {
    var t := s[n..];
    forall k | 0 <= k < j - i ensures t[i..j][k] == s[n + i..n + j][k] { assert t[i + k] == s[n + i + k]; }
  }

  // ----- Writing over a payload

  /** r with the bytes from at on replaced by s. */
  function Patch(r: seq<byte>, at: nat, s: seq<byte>): (p: seq<byte>)
    requires at + |s| <= |r|
    ensures |p| == |r|
  {
    r[..at] + s + r[at + |s|..]
  }

  lemma PatchTwice(r: seq<byte>, at: nat, s: seq<byte>, t: seq<byte>)
    requires at + |s| + |t| <= |r|
    ensures Patch(Patch(r, at, s), at + |s|, t) == Patch(r, at, s + t)
  {
  }

  /** A patch behind the first n bytes, and one within them. */
  lemma PatchParts(r: seq<byte>, at: nat, s: seq<byte>, n: nat)
    requires at + |s| <= |r| && n <= |r|
    ensures n <= at ==> Patch(r, at, s)[..n] == r[..n] && Patch(r, at, s)[n..] == Patch(r[n..], at - n, s)
    ensures at + |s| <= n ==> Patch(r, at, s)[..n] == Patch(r[..n], at, s) && Patch(r, at, s)[n..] == r[n..]
  {
  }

  lemma {:induction false} StoresSame(pages: Pages, pages': Pages, size: nat, chain: seq<nat>, rest: seq<byte>)
    requires Stores(pages, size, chain, rest)
             && forall p :: p in chain && p in pages ==> p in pages' && pages'[p] == pages[p]
    ensures Stores(pages', size, chain, rest)
    decreases chain
  {
    if |chain| > 1 { StoresSame(pages, pages', size, chain[1..], rest[size..]); }
  }

  /** Writing on one page of a chain. */
  lemma {:induction false} StoresPatch(pages: Pages, size: nat, chain: seq<nat>, rest: seq<byte>, k: nat, off: nat,
                                       s: seq<byte>)
    requires size > 0 && Stores(pages, size, chain, rest) && NoRepeat(chain) && k < |chain| && off + |s| <= size
    requires Times(k, size) + off + |s| <= |rest|
    ensures IsOvfl(pages, chain[k], size)
    ensures var p := pages[chain[k]];
            Stores(pages[chain[k] := p.(bytes := Overwrite(p.bytes, off, s))], size, chain,
                Patch(rest, Times(k, size) + off, s))
    decreases k
  {
    hide Overwrite, Patch;
    if k == 0 {
      PatchFirst(pages, size, chain, rest, off, s);
    } else {
      var tail := chain[1..];
      assert NoRepeat(tail) by { assert forall i :: 0 <= i < |tail| ==> tail[i] == chain[i + 1]; }
      assert Times(k, size) == Times(k - 1, size) + size;
      assert tail[k - 1] == chain[k] != chain[0];
      StoresPatch(pages, size, tail, rest[size..], k - 1, off, s);
      PatchParts(rest, Times(k, size) + off, s, size);
    }
  }

  lemma PatchFirst(pages: Pages, size: nat, chain: seq<nat>, rest: seq<byte>, off: nat, s: seq<byte>)
    requires size > 0 && Stores(pages, size, chain, rest) && NoRepeat(chain) && chain != [] && off + |s| <= size
             && off + |s| <= |rest|
    ensures IsOvfl(pages, chain[0], size)
    ensures var p := pages[chain[0]];
            Stores(pages[chain[0] := p.(bytes := Overwrite(p.bytes, off, s))], size, chain, Patch(rest, off, s))
  {
    var p := pages[chain[0]];
    var pages' := pages[chain[0] := p.(bytes := Overwrite(p.bytes, off, s))];
    if |chain| > 1 {
      PatchParts(rest, off, s, size);
      assert Overwrite(p.bytes, off, s) == Patch(p.bytes, off, s);
      assert forall q :: q in chain[1..] ==> q != chain[0];
      StoresSame(pages, pages', size, chain[1..], rest[size..]);
    } else {
      PatchParts(p.bytes, off, s, |rest|);
      assert Overwrite(p.bytes, off, s) == Patch(p.bytes, off, s);
    }
  }

  /** What has been written, and where the next byte goes. */
  ghost predicate WriteState(pages: Pages, size: nat, chain: seq<nat>, rest: seq<byte>, start: nat, s: seq<byte>,
                             w: nat, idx: nat, off: nat) {
    && w <= |s| && start + |s| <= |rest| && NoRepeat(chain) && Stores(pages, size, chain, Patch(rest, start, s[..w]))
    && Times(idx, size) + off == start + w
  }

  /** Overwrites |s| bytes of a payload from offset on.  The cache of page numbers may be partly filled. */
  method OverwritePayload(size: nat, pages: Pages, auto: bool, ptrmap: PtrMap, guess: nat -> nat, local: seq<byte>,
                          first: nat, nPayload: nat, offset: nat, s: seq<byte>, cache: seq<nat>, valid: bool,
                          ghost chain: seq<nat>, ghost payload: seq<byte>)
    returns (ok: bool, local': seq<byte>, pages': Pages, cache': seq<nat>, valid': bool)
    requires size > 0 && (auto ==> MapExact(pages, ptrmap)) && |local| <= |payload| == nPayload
             && local == payload[..|local|] && NoRepeat(chain)
    requires first == First(chain) && Stores(pages, size, chain, payload[|local|..]) && offset + |s| <= nPayload
             && (valid ==> CacheOk(cache, chain))
    ensures ok && |local'| == |local| && var payload' := Patch(payload, offset, s);
              local' == payload'[..|local|] && Stores(pages', size, chain, payload'[|local|..])
    ensures OthersSame(pages, pages', chain) && (valid' ==> CacheOk(cache', chain))
            && (auto ==> MapExact(pages', ptrmap))
    ensures |s| > 0 && offset + |s| > |local| ==>
              valid' && Known(cache', chain, size, if offset < |local| then 0 else offset - |local|,
                              offset + |s| - |local|)
  {
    hide Stores, MapExact, Patch, Overwrite, NoRepeat, OthersSame, CacheOk, Known;
    ok, local', pages', cache', valid' := true, local, pages, cache, valid;
    var nLocal := |local|;
    var off: nat, w: nat := 0, 0;
    if offset < nLocal {
      w := if |s| + offset > nLocal then nLocal - offset else |s|;
      local' := Overwrite(local, offset, s[..w]);
    } else {
      off := offset - nLocal;
    }
    PatchSplit(payload, local, offset, s, w);
    LinksSame(pages, chain);
    if w == |s| { return; }
    ok, pages', cache', valid' :=
        OverwriteChain(size, pages, auto, ptrmap, guess, first, nPayload - nLocal, off, s[w..], cache, valid, chain,
        payload[nLocal..]);
  }

  /** The part of an overwrite that lies on the overflow pages. */
  method OverwriteChain(size: nat, pages: Pages, auto: bool, ptrmap: PtrMap, guess: nat -> nat, first: nat, nRest: nat,
                        start: nat, t: seq<byte>, cache: seq<nat>, valid: bool, ghost chain: seq<nat>,
                        ghost rest: seq<byte>)
    returns (ok: bool, pages': Pages, cache': seq<nat>, valid': bool)
    requires size > 0 && (auto ==> MapExact(pages, ptrmap)) && NoRepeat(chain) && |rest| == nRest
             && first == First(chain)
    requires Stores(pages, size, chain, rest) && t != [] && start + |t| <= nRest && (valid ==> CacheOk(cache, chain))
    ensures ok && Stores(pages', size, chain, Patch(rest, start, t))
    ensures OthersSame(pages, pages', chain) && (valid' ==> CacheOk(cache', chain))
            && (auto ==> MapExact(pages', ptrmap))
    ensures valid' && Known(cache', chain, size, start, start + |t|)
  {
    hide Known, Stores, MapExact, Patch, Overwrite, Times, NoRepeat, SameLinks, OthersSame, WriteState, PageCount,
      ExactAt;
    ok, pages', cache', valid' := true, pages, cache, valid;
    var off: nat, idx: nat, done: nat, nextPage := start, 0, 0, first;
    LinksSame(pages, chain);
    WriteStart(pages, size, chain, rest, start, t);
    ChainLength(pages, size, chain, rest);
    WriteIndex(pages, size, chain, rest, start, t);
    idx, nextPage, off, cache' := FindStart(size, first, PageCount(nRest, size), start, cache, valid, chain);
    KnownStart(cache', chain, size, start, idx);
    valid' := true;
    while nextPage != 0
      invariant WriteState(pages', size, chain, rest, start, t, done, idx, off) && done < |t|
      invariant idx < |chain| && nextPage == chain[idx] && OthersSame(pages, pages', chain)
                && SameLinks(pages, pages', chain)
      invariant valid' && CacheOk(cache', chain) && (auto ==> MapExact(pages', ptrmap))
      invariant Known(cache', chain, size, start, Times(idx, size))
      decreases |chain| - idx
    {
      KnownNext(cache', chain, size, start, idx);
      assert Times(idx + 1, size) == Times(idx, size) + size by { TimesNext(idx, size); }
      cache' := cache'[idx := nextPage];
      WriteAt(pages', size, chain, rest, start, t, done, idx, off);
      if off >= size {
        WriteSkip(pages', size, chain, rest, start, t, done, idx, off);
        if cache'[idx + 1] != 0 {
          nextPage := cache'[idx + 1];
        } else {
          if auto { ExactEverywhere(pages', ptrmap, nextPage); }
          var read;
          nextPage, read := GetOverflowPage(pages', auto, ptrmap, guess, nextPage);
        }
        off := off - size;
      } else {
        var a := if |t| - done + off > size then size - off else |t| - done;
        WritePage(pages', size, chain, rest, start, t, done, idx, off, a);
        WritePlace(pages', size, chain, rest, start, t, done, idx, off);
        var p := pages'[nextPage];
        var p' := p.(bytes := Overwrite(p.bytes, off, t[done..done + a]));
        LinksKept(pages, pages', chain, auto, ptrmap, nextPage, p');
        pages' := pages'[nextPage := p'];
        nextPage, off, done := p.nextOvfl, 0, done + a;
        if done == |t| {
          WriteEnd(pages', size, chain, rest, start, t);
          KnownLess(cache', chain, size, start, Times(idx, size) + size, start + |t|);
          return;
        }
      }
      idx := idx + 1;
    }
    WriteAt(pages', size, chain, rest, start, t, done, idx, off);
    ok := false;
  }

  lemma WritePlace(pages: Pages, size: nat, chain: seq<nat>, rest: seq<byte>, start: nat, t: seq<byte>, w: nat,
                   idx: nat, off: nat)
    requires WriteState(pages, size, chain, rest, start, t, w, idx, off)
    ensures Times(idx, size) + off == start + w
  {
  }

  lemma LinksSame(pages: Pages, chain: seq<nat>)
    ensures OthersSame(pages, pages, chain) && SameLinks(pages, pages, chain)
  {
  }

  /** Where a cached page number is looked up when writing. */
  lemma WriteIndex(pages: Pages, size: nat, chain: seq<nat>, rest: seq<byte>, start: nat, t: seq<byte>)
    requires size > 0 && WriteState(pages, size, chain, rest, start, t, 0, 0, start) && t != []
    ensures start / size < |chain| && WriteState(pages, size, chain, rest, start, t, 0, start / size, start % size)
  {
    hide Stores, Patch, NoRepeat;
    var m := DivMod(start, size);
    assert start == Times(start / size, size) + start % size;
    StoresFrom(pages, size, chain, Patch(rest, start, t[..0]), start / size);
  }

  ghost predicate SameLinks(pages: Pages, pages': Pages, chain: seq<nat>) {
    forall p :: p in chain && p in pages && pages[p].Ovfl? ==> LinksTo(pages', p, pages[p].nextOvfl)
  }

  lemma LinksKept(pages: Pages, pages': Pages, chain: seq<nat>, auto: bool, ptrmap: PtrMap, pg: nat, p: Page)
    requires OthersSame(pages, pages', chain) && SameLinks(pages, pages', chain) && pg in chain && pg in pages'
             && pages'[pg].Ovfl? && p.Ovfl? && p.nextOvfl == pages'[pg].nextOvfl
    requires auto ==> MapExact(pages', ptrmap)
    ensures OthersSame(pages, pages'[pg := p], chain) && SameLinks(pages, pages'[pg := p], chain)
            && (auto ==> MapExact(pages'[pg := p], ptrmap))
  {
  }

  /** The part of a patch on the B-tree page and the part on the chain. */
  lemma PatchSplit(payload: seq<byte>, local: seq<byte>, offset: nat, s: seq<byte>, w: nat)
    requires |local| <= |payload| && local == payload[..|local|] && offset + |s| <= |payload|
    requires w == if offset >= |local| then 0 else if |s| + offset > |local| then |local| - offset else |s|
    ensures var n, p := |local|, Patch(payload, offset, s);
            && p[..n] == (if offset < n then Overwrite(local, offset, s[..w]) else local)
            && p[n..] == (if w == |s| then payload[n..]
               else Patch(payload[n..], if offset < n then 0 else offset - n, s[w..]))
  {
    hide Patch, Overwrite;
    var n := |local|;
    if offset >= n {
      PatchParts(payload, offset, s, n);
      assert s[0..] == s;
      if w == |s| { PatchNothing(payload[n..], offset - n); }
    } else if w == |s| {
      PatchParts(payload, offset, s, n);
      OverwriteIsPatch(local, offset, s);
      assert s[..w] == s;
    } else {
      PatchAcross(payload, local, offset, s, w);
    }
  }

  lemma PatchNothing(r: seq<byte>, at: nat)
    requires at <= |r|
    ensures Patch(r, at, []) == r
  {
  }

  lemma OverwriteIsPatch(r: seq<byte>, at: nat, s: seq<byte>)
    requires at + |s| <= |r|
    ensures Overwrite(r, at, s) == Patch(r, at, s)
  {
  }

  lemma PatchAcross(payload: seq<byte>, local: seq<byte>, offset: nat, s: seq<byte>, w: nat)
    requires |local| <= |payload| && local == payload[..|local|] && offset + |s| <= |payload|
    requires offset < |local| && offset + w == |local| && w < |s|
    ensures var n, p := |local|, Patch(payload, offset, s);
            p[..n] == Overwrite(local, offset, s[..w]) && p[n..] == Patch(payload[n..], 0, s[w..])
  {
    var n, p := |local|, Patch(payload, offset, s);
    assert p[..n] == payload[..offset] + s[..w];
    assert p[n..] == s[w..] + payload[offset + |s|..];
    assert payload[n..][|s| - w..] == payload[offset + |s|..];
  }

  lemma WriteStart(pages: Pages, size: nat, chain: seq<nat>, rest: seq<byte>, start: nat, t: seq<byte>)
    requires size > 0 && Stores(pages, size, chain, rest) && NoRepeat(chain) && start + |t| <= |rest| && t != []
    ensures WriteState(pages, size, chain, rest, start, t, 0, 0, start) && chain != [] && chain[0] != 0
  {
    hide Patch;
    assert t[..0] == [];
    PatchNothing(rest, start);
    assert Times(0, size) == 0;
  }

  lemma WriteAt(pages: Pages, size: nat, chain: seq<nat>, rest: seq<byte>, start: nat, t: seq<byte>, w: nat, idx: nat,
                off: nat)
    requires size > 0 && WriteState(pages, size, chain, rest, start, t, w, idx, off) && w < |t| && idx < |chain|
    ensures chain[idx] != 0 && IsOvfl(pages, chain[idx], size)
  {
    hide Patch;
    ghost var cur := Patch(rest, start, t[..w]);
    StoresFrom(pages, size, chain, cur, idx);
    assert chain[idx..][0] == chain[idx];
  }

  /** There is a next page if bytes remain beyond this one. */
  lemma NextPage(pages: Pages, size: nat, chain: seq<nat>, cur: seq<byte>, idx: nat)
    requires size > 0 && Stores(pages, size, chain, cur) && Times(idx + 1, size) < |cur|
    ensures idx + 1 < |chain| && LinksTo(pages, chain[idx], chain[idx + 1])
  {
    hide Stores;
    StoresFrom(pages, size, chain, cur, idx + 1);
    LinkAt(pages, size, chain, cur, idx);
  }

  lemma WriteSkip(pages: Pages, size: nat, chain: seq<nat>, rest: seq<byte>, start: nat, t: seq<byte>, w: nat,
                  idx: nat, off: nat)
    requires size > 0 && WriteState(pages, size, chain, rest, start, t, w, idx, off) && w < |t| && idx < |chain|
             && off >= size
    ensures idx + 1 < |chain| && LinksTo(pages, chain[idx], chain[idx + 1])
    ensures WriteState(pages, size, chain, rest, start, t, w, idx + 1, off - size)
  {
    hide Stores, Patch;
    assert Times(idx + 1, size) == Times(idx, size) + size;
    NextPage(pages, size, chain, Patch(rest, start, t[..w]), idx);
  }

  lemma WritePage(pages: Pages, size: nat, chain: seq<nat>, rest: seq<byte>, start: nat, t: seq<byte>, w: nat,
                  idx: nat, off: nat, a: nat)
    requires size > 0 && WriteState(pages, size, chain, rest, start, t, w, idx, off) && w < |t| && idx < |chain|
             && off < size
    requires a == if |t| - w + off > size then size - off else |t| - w
    ensures IsOvfl(pages, chain[idx], size)
    ensures var p := pages[chain[idx]];
            var pages' := pages[chain[idx] := p.(bytes := Overwrite(p.bytes, off, t[w..w + a]))];
            && Stores(pages', size, chain, Patch(rest, start, t[..w + a]))
            && (w + a < |t| ==>
                 idx + 1 < |chain| && p.nextOvfl == chain[idx + 1]
                 && WriteState(pages', size, chain, rest, start, t, w + a, idx + 1, 0))
  {
    hide Stores, Patch, Overwrite;
    var cur, piece := Patch(rest, start, t[..w]), t[w..w + a];
    StoresPatch(pages, size, chain, cur, idx, off, piece);
    assert t[..w] + piece == t[..w + a];
    PatchTwice(rest, start, t[..w], piece);
    if w + a < |t| {
      assert Times(idx + 1, size) == Times(idx, size) + size;
      NextPage(pages, size, chain, cur, idx);
    }
  }

  lemma WriteEnd(pages: Pages, size: nat, chain: seq<nat>, rest: seq<byte>, start: nat, t: seq<byte>)
    requires start + |t| <= |rest| && Stores(pages, size, chain, Patch(rest, start, t[..|t|]))
    ensures Stores(pages, size, chain, Patch(rest, start, t))
  {
    assert t[..|t|] == t;
  }

  // ----- Links

  lemma {:induction false} LastLink(pages: Pages, size: nat, chain: seq<nat>, rest: seq<byte>)
    requires chain != [] && Stores(pages, size, chain, rest)
    ensures LinksTo(pages, chain[|chain| - 1], 0)
    decreases chain
  {
    if |chain| > 1 { LastLink(pages, size, chain[1..], rest[size..]); }
  }

  lemma {:induction false} LinkAt(pages: Pages, size: nat, chain: seq<nat>, rest: seq<byte>, i: nat)
    requires Stores(pages, size, chain, rest) && i < |chain|
    ensures chain[i] in pages && pages[chain[i]].Ovfl? && (i + 1 < |chain| ==> pages[chain[i]].nextOvfl == chain[i + 1])
    decreases i
  {
    if i > 0 { LinkAt(pages, size, chain[1..], rest[size..], i - 1); }
  }
}
