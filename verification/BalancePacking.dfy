/** The packing arithmetic of balance_nonroot: how the cells of up to three siblings are dealt out to
    at most five pages.

    Cell j costs cost[j] bytes, its two-byte pointer included.  Page i receives the cells from
    First(i) up to, not including, cnt[i].  In a table leaf (leafData) pages are adjacent; otherwise
    the cell cnt[i] becomes the divider between pages i and i+1. */
module BalancePacking {

  const NB := 3

  /** Total cost of the first j cells.  One past the last cell counts as a cell of cost 0. */
  function Prefix(cost: seq<nat>, j: nat): (p: nat)
    ensures j == 0 ==> p == 0
  {
    if j == 0 then 0 else Prefix(cost, j - 1) + (if j <= |cost| then cost[j - 1] else 0)
  }

  lemma {:induction false} PrefixMonotone(cost: seq<nat>, i: nat, j: nat)
    requires i <= j
    ensures Prefix(cost, i) <= Prefix(cost, j)
    decreases j
  {
    if i < j { PrefixMonotone(cost, i, j - 1); }
  }

  /** First cell of the page that follows a page ending before cell c. */
  function After(c: nat, leafData: bool): nat { if leafData then c else c + 1 }

  /** First cell of page i. */
  function First(cnt: seq<nat>, i: nat, leafData: bool): nat
    requires i <= |cnt|
  {
    if i == 0 then 0 else After(cnt[i - 1], leafData)
  }

  /** Bytes used by page i.  The value is signed: while the boundaries are being moved, a page may
      temporarily end before it starts. */
  function PageSize(cost: seq<nat>, cnt: seq<nat>, i: nat, leafData: bool): int
    requires i < |cnt|
  {
    Prefix(cost, cnt[i]) - Prefix(cost, First(cnt, i, leafData))
  }

  /** A way to deal out all cells so that every page fits. */
  ghost predicate Feasible(cost: seq<nat>, usable: int, leafData: bool, cnt: seq<nat>) {
    && cnt != [] && cnt[|cnt| - 1] == |cost|
    && (forall i :: 0 <= i < |cnt| ==> First(cnt, i, leafData) <= cnt[i] <= |cost|)
    && (forall i :: 0 <= i < |cnt| ==> PageSize(cost, cnt, i, leafData) <= usable)
  }

  /** What balance_nonroot needs of a packing: besides, no page is empty. */
  ghost predicate GoodPacking(cost: seq<nat>, usable: int, leafData: bool, cnt: seq<nat>) {
    Feasible(cost, usable, leafData, cnt) && forall i :: 0 <= i < |cnt| ==> First(cnt, i, leafData) < cnt[i]
  }

  // ----- The greedy packing from the left

  /** Page i holds as many cells as fit. */
  ghost predicate Greedy(cost: seq<nat>, usable: int, leafData: bool, cnt: seq<nat>, i: nat)
    requires i < |cnt|
  {
    && cnt[i] <= |cost| && First(cnt, i, leafData) <= cnt[i]
    && PageSize(cost, cnt, i, leafData) <= usable
    && (cnt[i] < |cost| ==> PageSize(cost, cnt, i, leafData) + cost[cnt[i]] > usable)
  }

  /** Greedy pages reach at least as far as those of any other packing. */
  lemma {:induction false} GreedyDominates(cost: seq<nat>, usable: int, leafData: bool, cnt: seq<nat>, other: seq<nat>,
                                           i: nat)
    requires i < |cnt| && i < |other| && Feasible(cost, usable, leafData, other)
    requires forall x :: 0 <= x <= i ==> Greedy(cost, usable, leafData, cnt, x)
    ensures cnt[i] >= other[i]
  {
    hide Prefix, Feasible, Greedy;
    if i > 0 { GreedyDominates(cost, usable, leafData, cnt, other, i - 1); }
    ReachesAsFar(cost, usable, leafData, cnt, other, i);
  }

  lemma ReachesAsFar(cost: seq<nat>, usable: int, leafData: bool, cnt: seq<nat>, other: seq<nat>, i: nat)
    requires i < |cnt| && i < |other| && Feasible(cost, usable, leafData, other)
             && Greedy(cost, usable, leafData, cnt, i)
    requires First(other, i, leafData) <= First(cnt, i, leafData)
    ensures cnt[i] >= other[i]
  {
    hide First;
    assert PageSize(cost, other, i, leafData) <= usable;
    PrefixMonotone(cost, First(other, i, leafData), First(cnt, i, leafData));
    if cnt[i] < other[i] {
      assert Prefix(cost, cnt[i] + 1) == Prefix(cost, cnt[i]) + cost[cnt[i]];
      PrefixMonotone(cost, cnt[i] + 1, other[i]);
    }
  }

  /** What greedy pages leave for the last page fits whenever it fits in another packing. */
  lemma LeftOver(cost: seq<nat>, usable: int, leafData: bool, cnt: seq<nat>, n: nat, other: seq<nat>)
    requires n < |cnt| && cnt[n] == |cost| && |other| == n + 1 && Feasible(cost, usable, leafData, other)
    requires forall x :: 0 <= x < n ==> Greedy(cost, usable, leafData, cnt, x)
    ensures PageSize(cost, cnt, n, leafData) <= usable
  {
    if n > 0 { GreedyDominates(cost, usable, leafData, cnt, other, n - 1); }
    PrefixMonotone(cost, First(other, n, leafData), First(cnt, n, leafData));
    assert PageSize(cost, other, n, leafData) <= usable;
  }

  /** If greedy pages leave something over after n pages that does not fit on one more, every packing
      takes more than n + 1 pages. */
  lemma NeedsMorePages(cost: seq<nat>, usable: int, leafData: bool, cnt: seq<nat>, n: nat, other: seq<nat>)
    requires n < |cnt| && cnt[n] == |cost| && Feasible(cost, usable, leafData, other)
    requires forall x :: 0 <= x < n ==> Greedy(cost, usable, leafData, cnt, x) && cnt[x] < |cost|
    requires PageSize(cost, cnt, n, leafData) > usable
    ensures |other| > n + 1
  {
    hide PageSize, First, Prefix;
    if |other| <= n {
      GreedyDominates(cost, usable, leafData, cnt, other, |other| - 1);
    } else if |other| == n + 1 {
      LeftOver(cost, usable, leafData, cnt, n, other);
    }
  }

  // ----- First pass

  datatype PackRc = Packed | PackCorrupt

  /** The sizes kept beside the boundaries are the prefix-sum differences. */
  ghost predicate SizesExact(cost: seq<nat>, cnt: seq<nat>, sz: seq<int>, k: nat, leafData: bool)
  {
    k <= |cnt| && k <= |sz| && forall i :: 0 <= i < k ==> sz[i] == PageSize(cost, cnt, i, leafData)
  }

  lemma PageSizeAfterMove(cost: seq<nat>, cnt: seq<nat>, leafData: bool, i: nat, c: nat, x: nat)
    requires i < |cnt| && x < |cnt|
    ensures PageSize(cost, cnt[i := c], x, leafData) == PageSize(cost, cnt, x, leafData)
              + (if x == i then Prefix(cost, c) - Prefix(cost, cnt[i]) else 0)
              + (if x == i + 1 then Prefix(cost, After(cnt[i], leafData)) - Prefix(cost, After(c, leafData)) else 0)
  {
    hide Prefix, After;
  }

  /** Moving the end of page i by one cell changes its own size and that of its right neighbour only. */
  lemma MoveBoundary(cost: seq<nat>, cnt: seq<nat>, sz: seq<int>, k: nat, leafData: bool, i: nat, c: nat, sz': seq<int>)
    requires SizesExact(cost, cnt, sz, k, leafData) && i + 1 < k && |sz'| == |sz|
    requires c <= |cost|
    requires forall x :: 0 <= x < k && x != i && x != i + 1 ==> sz'[x] == sz[x]
    requires sz'[i] == sz[i] + Prefix(cost, c) - Prefix(cost, cnt[i])
    requires sz'[i + 1] == sz[i + 1] + Prefix(cost, After(cnt[i], leafData)) - Prefix(cost, After(c, leafData))
    ensures SizesExact(cost, cnt[i := c], sz', k, leafData)
  {
    hide Prefix, After, PageSize;
    forall x | 0 <= x < k ensures sz'[x] == PageSize(cost, cnt[i := c], x, leafData) {
      assert sz[x] == PageSize(cost, cnt, x, leafData);
      PageSizeAfterMove(cost, cnt, leafData, i, c, x);
    }
  }

  /** State of the first pass: pages before i are settled, and the last of the k pages reaches the end. */
  ghost predicate PassState(cost: seq<nat>, usable: int, leafData: bool, cnt: seq<nat>, sz: seq<int>, i: nat, k: nat) {
    && |cnt| == |sz| == NB + 2 && 1 <= k <= NB + 2 && i <= k
    && SizesExact(cost, cnt, sz, k, leafData)
    && (forall x :: 0 <= x < k ==> cnt[x] <= |cost|) && cnt[k - 1] == |cost|
    && (forall x :: 0 <= x < i ==> Greedy(cost, usable, leafData, cnt, x))
    && (forall x :: 0 <= x < i && x < k - 1 ==> cnt[x] < |cost|)
  }

  /** Settled pages do not depend on later boundaries. */
  lemma GreedyFrame(cost: seq<nat>, usable: int, leafData: bool, cnt: seq<nat>, cnt': seq<nat>, i: nat)
    requires i <= |cnt| && i <= |cnt'| && forall x :: 0 <= x < i ==> cnt'[x] == cnt[x]
    requires forall x :: 0 <= x < i ==> Greedy(cost, usable, leafData, cnt, x)
    ensures forall x :: 0 <= x < i ==> Greedy(cost, usable, leafData, cnt', x)
  {
    forall x | 0 <= x < i ensures Greedy(cost, usable, leafData, cnt', x) {
      assert Greedy(cost, usable, leafData, cnt, x);
    }
  }

  /** A page with bytes in it has a cell. */
  lemma NonEmpty(cost: seq<nat>, cnt: seq<nat>, i: nat, leafData: bool)
    requires i < |cnt| && PageSize(cost, cnt, i, leafData) > 0
    ensures cnt[i] > First(cnt, i, leafData)
  {
    if cnt[i] <= First(cnt, i, leafData) { PrefixMonotone(cost, cnt[i], First(cnt, i, leafData)); }
  }

  /** Cost of cell j, and 0 one past the end. */
  function CostAt(cost: seq<nat>, j: nat): nat { if j < |cost| then cost[j] else 0 }

  /** The first inner loop: move cells off page i, to a new page if there is no right neighbour. */
  method ShrinkPage(cost: seq<nat>, usable: int, leafData: bool, cnt0: seq<nat>, sz0: seq<int>, i: nat, k0: nat)
    returns (rc: PackRc, cnt: seq<nat>, sz: seq<int>, k: nat)
    requires PassState(cost, usable, leafData, cnt0, sz0, i, k0) && i < k0 && usable >= 0
    ensures rc.Packed? ==> PassState(cost, usable, leafData, cnt, sz, i, k) && i < k && sz[i] <= usable
    ensures rc.PackCorrupt? ==> forall other :: Feasible(cost, usable, leafData, other) ==> |other| > NB + 2
  {
    hide Greedy, PageSize, First, Prefix, Feasible;
    cnt, sz, k := cnt0, sz0, k0;
    while sz[i] > usable
      invariant PassState(cost, usable, leafData, cnt, sz, i, k) && i < k
      decreases cnt[i]
    {
      if i + 1 >= k {
        if i + 2 > NB + 2 {
          forall other | Feasible(cost, usable, leafData, other) ensures |other| > NB + 2 {
            NeedsMorePages(cost, usable, leafData, cnt, i, other);
          }
          return PackCorrupt, cnt, sz, k;
        }
        k := i + 2;
        OpenPage(cost, usable, leafData, cnt, sz, i);
        sz, cnt := sz[k - 1 := 0], cnt[k - 1 := |cost|];
      }
      var c := cnt[i];
      NonEmpty(cost, cnt, i, leafData);
      var sz1 := CostAt(cost, c - 1);
      var sz2 := if leafData then sz1 else CostAt(cost, c);
      StepDown(cost, leafData, c);
      var sz' := sz[i := sz[i] - sz1][i + 1 := sz[i + 1] + sz2];
      MoveBoundary(cost, cnt, sz, k, leafData, i, c - 1, sz');
      GreedyFrame(cost, usable, leafData, cnt, cnt[i := c - 1], i);
      sz, cnt := sz', cnt[i := c - 1];
    }
    rc := Packed;
  }

  /** Prefix sums around one cell. */
  lemma StepDown(cost: seq<nat>, leafData: bool, c: nat)
    requires 0 < c <= |cost|
    ensures Prefix(cost, c) - Prefix(cost, c - 1) == cost[c - 1] == CostAt(cost, c - 1)
    ensures Prefix(cost, After(c, leafData)) - Prefix(cost, After(c - 1, leafData))
            == if leafData then cost[c - 1] else CostAt(cost, c)
  {
    assert Prefix(cost, c + 1) == Prefix(cost, c) + CostAt(cost, c);
  }

  /** A fresh page after the last one is empty. */
  lemma OpenPage(cost: seq<nat>, usable: int, leafData: bool, cnt: seq<nat>, sz: seq<int>, i: nat)
    requires PassState(cost, usable, leafData, cnt, sz, i, i + 1) && i + 1 < NB + 2
    ensures PassState(cost, usable, leafData, cnt[i + 1 := |cost|], sz[i + 1 := 0], i, i + 2)
  {
    var cnt', sz' := cnt[i + 1 := |cost|], sz[i + 1 := 0];
    GreedyFrame(cost, usable, leafData, cnt, cnt', i);
    assert Prefix(cost, |cost| + 1) == Prefix(cost, |cost|);
    forall x | 0 <= x < i + 2 ensures sz'[x] == PageSize(cost, cnt', x, leafData) {
      if x < i + 1 { assert sz[x] == PageSize(cost, cnt, x, leafData); }
    }
  }

  /** The second inner loop: pull cells onto page i while they fit. */
  method GrowPage(cost: seq<nat>, usable: int, leafData: bool, cnt0: seq<nat>, sz0: seq<int>, i: nat, k: nat)
    returns (cnt: seq<nat>, sz: seq<int>)
    requires PassState(cost, usable, leafData, cnt0, sz0, i, k) && i < k && sz0[i] <= usable
    ensures PassState(cost, usable, leafData, cnt, sz, i, k) && sz[i] <= usable
    ensures cnt[i] < |cost| ==> sz[i] + cost[cnt[i]] > usable
  {
    hide Greedy, PageSize, First, Prefix;
    cnt, sz := cnt0, sz0;
    while cnt[i] < |cost|
      invariant PassState(cost, usable, leafData, cnt, sz, i, k) && sz[i] <= usable
      decreases |cost| - cnt[i]
    {
      var c := cnt[i];
      if sz[i] + cost[c] > usable { break; }
      var sz2 := if leafData then cost[c] else CostAt(cost, c + 1);
      StepDown(cost, leafData, c + 1);
      var sz' := sz[i := sz[i] + cost[c]][i + 1 := sz[i + 1] - sz2];
      MoveBoundary(cost, cnt, sz, k, leafData, i, c + 1, sz');
      GreedyFrame(cost, usable, leafData, cnt, cnt[i := c + 1], i);
      sz, cnt := sz', cnt[i := c + 1];
    }
  }

  /** The first pass of the packing: fill the pages from the left.  It reports corruption exactly when
      the cells do not fit on NB+2 pages. */
  method FirstPass(cost: seq<nat>, usable: int, leafData: bool, cntOld: seq<nat>, szOld: seq<int>, nOld: nat)
    returns (rc: PackRc, cnt: seq<nat>, sz: seq<int>, k: nat)
    requires PassState(cost, usable, leafData, cntOld, szOld, 0, nOld) && usable >= 0 && cost != []
    requires forall j :: 0 <= j < |cost| ==> 0 < cost[j] <= usable
    ensures rc.Packed? ==> PassState(cost, usable, leafData, cnt, sz, k, k)
    ensures rc.PackCorrupt? ==> forall other :: Feasible(cost, usable, leafData, other) ==> |other| > NB + 2
  {
    hide Greedy, PageSize, First, Prefix, Feasible;
    cnt, sz, k := cntOld, szOld, nOld;
    var i := 0;
    while i < k
      invariant PassState(cost, usable, leafData, cnt, sz, i, k)
      decreases NB + 2 - i
    {
      rc, cnt, sz, k := ShrinkPage(cost, usable, leafData, cnt, sz, i, k);
      if rc.PackCorrupt? { return; }
      cnt, sz := GrowPage(cost, usable, leafData, cnt, sz, i, k);
      PageSettled(cost, usable, leafData, cnt, sz, i, k);
      if cnt[i] >= |cost| {
        k := i + 1;
      } else {
        // so the test for a page that ends no later than its left neighbour never fires
        assert cnt[i] > (if i > 0 then cnt[i - 1] else 0);
      }
      i := i + 1;
    }
    rc := Packed;
  }

  /** A page that is as full as can be is settled, and not empty. */
  lemma PageSettled(cost: seq<nat>, usable: int, leafData: bool, cnt: seq<nat>, sz: seq<int>, i: nat, k: nat)
    requires PassState(cost, usable, leafData, cnt, sz, i, k) && i < k && sz[i] <= usable
    requires cnt[i] < |cost| ==> sz[i] + cost[cnt[i]] > usable
    requires forall j :: 0 <= j < |cost| ==> 0 < cost[j] <= usable
    ensures cnt[i] > (if i > 0 then cnt[i - 1] else 0) || cnt[i] == |cost|
    ensures PassState(cost, usable, leafData, cnt, sz, i + 1, if cnt[i] == |cost| then i + 1 else k)
  {
    assert sz[i] == PageSize(cost, cnt, i, leafData);
    if cnt[i] < |cost| { NonEmpty(cost, cnt, i, leafData); }
    assert Greedy(cost, usable, leafData, cnt, i);
  }

  // ----- Second pass

  /** State of the second pass: boundaries ascend, sizes are exact and fit, and no page from i on is empty. */
  ghost predicate EvenState(cost: seq<nat>, usable: int, leafData: bool, cnt: seq<nat>, sz: seq<int>, i: nat, k: nat) {
    && |cnt| == |sz| == NB + 2 && 1 <= k <= NB + 2 && i <= k
    && SizesExact(cost, cnt, sz, k, leafData) && cnt[k - 1] == |cost|
    && 0 < cnt[0] && (forall x :: 0 < x < k ==> cnt[x - 1] < cnt[x])
    && (forall x :: 0 <= x < k ==> 0 <= sz[x] <= usable)
    && (forall x :: i <= x < k ==> 0 < sz[x])
  }

  lemma SizesNonNegative(cost: seq<nat>, cnt: seq<nat>, i: nat, leafData: bool)
    requires i < |cnt| && (if i > 0 then cnt[i - 1] < cnt[i] else true)
    ensures PageSize(cost, cnt, i, leafData) >= 0
  {
    PrefixMonotone(cost, First(cnt, i, leafData), cnt[i]);
  }

  /** Cost of the cell before position c. */
  function CostBefore(cost: seq<nat>, c: nat): nat { if 0 < c <= |cost| then cost[c - 1] else 0 }

  /** With its boundary at e, the right page of two has a cell, and one cell more would leave it with more
      bytes than the left page; the rightmost page may have two bytes more.  In bulk mode one cell is
      enough. */
  ghost predicate Settled(cost: seq<nat>, leafData: bool, bBulk: bool, first: nat, e: nat, end: nat, rightMost: bool) {
    && Prefix(cost, After(e, leafData)) < Prefix(cost, end)
    && (bBulk || (0 < e && TipsOver(cost, leafData, first, e - 1, end, rightMost)))
  }

  ghost predicate TipsOver(cost: seq<nat>, leafData: bool, first: nat, e: nat, end: nat, rightMost: bool) {
    Prefix(cost, end) - Prefix(cost, After(e, leafData))
        > Prefix(cost, e) - Prefix(cost, first) + (if rightMost then 2 else 0)
  }

  /** Moving down from c0, the boundary stops at the first place where it is settled. */
  ghost predicate StopsAt(cost: seq<nat>, leafData: bool, bBulk: bool, first: nat, c0: nat, end: nat, rightMost: bool,
                          c: nat) {
    && c <= c0 && (c > 0 ==> Settled(cost, leafData, bBulk, first, c, end, rightMost))
    && forall e :: c < e <= c0 ==> !Settled(cost, leafData, bBulk, first, e, end, rightMost)
  }

  /** The inner loop of the second pass: shift cells from page i-1, which holds the cells from `first`
      up to `c`, to page i, which ends before `end`, while that evens them out, and at least one if
      page i is empty.  On return page i-1 ends before c'. */
  method ShiftCells(cost: seq<nat>, usable: int, leafData: bool, bBulk: bool, first: nat, c: nat, end: nat,
                    szLeft0: int, szRight0: int, rightMost: bool)
    returns (c': nat, szLeft: int, szRight: int)
    requires 0 < c < |cost| && c < end <= |cost|
    requires szLeft0 == Prefix(cost, c) - Prefix(cost, first)
             && szRight0 == Prefix(cost, end) - Prefix(cost, After(c, leafData))
    requires 0 <= szLeft0 <= usable && 0 <= szRight0 <= usable
    requires forall j :: 0 <= j < |cost| ==> 2 < cost[j] <= usable
    ensures c' <= c && szLeft <= usable && 0 < szRight <= usable
    ensures szLeft == Prefix(cost, c') - Prefix(cost, first)
            && szRight == Prefix(cost, end) - Prefix(cost, After(c', leafData))
    ensures 0 < szLeft0 && (0 < szRight0 || CostBefore(cost, c) < szLeft0) ==> 0 < szLeft
    ensures StopsAt(cost, leafData, bBulk, first, c, end, rightMost, c')
  {
    hide Prefix, After, Settled;
    szLeft, szRight := szLeft0, szRight0;
    ghost var keeps := 0 < szLeft0 && (0 < szRight0 || CostBefore(cost, c) < szLeft0);
    var r := c - 1;
    while r >= 0
      invariant -1 <= r < c
      invariant szLeft == Prefix(cost, r + 1) - Prefix(cost, first) && szLeft <= usable
      invariant szRight == Prefix(cost, end) - Prefix(cost, After(r + 1, leafData)) && 0 <= szRight <= usable
      invariant r + 1 < c ==> 0 < szRight
      invariant keeps ==> 0 < szLeft && (szRight == 0 ==> CostBefore(cost, r + 1) < szLeft)
      invariant forall e :: r + 1 < e <= c ==> !Settled(cost, leafData, bBulk, first, e, end, rightMost)
    {
      var d := if leafData then r else r + 1;
      SettledTest(cost, leafData, bBulk, first, r + 1, end, rightMost);
      if szRight != 0 && (bBulk || szRight + cost[d] > szLeft - (cost[r] - (if rightMost then 2 else 0))) {
        break;
      }
      StepDown(cost, leafData, r + 1);
      szRight, szLeft, r := szRight + cost[d], szLeft - cost[r], r - 1;
    }
    c' := r + 1;
  }

  /** The test of the loop, in terms of the sizes of the two pages. */
  lemma SettledTest(cost: seq<nat>, leafData: bool, bBulk: bool, first: nat, e: nat, end: nat, rightMost: bool)
    requires 0 < e < |cost|
    ensures var szLeft, szRight := Prefix(cost, e) - Prefix(cost, first),
                Prefix(cost, end) - Prefix(cost, After(e, leafData));
            Settled(cost, leafData, bBulk, first, e, end, rightMost)
            <==> szRight > 0 && (bBulk || szRight + cost[if leafData then e - 1 else e]
                                          > szLeft - cost[e - 1] + (if rightMost then 2 else 0))
  {
    hide Prefix;
    StepDown(cost, leafData, e);
  }

  /** One turn of the second pass. */
  method EvenOut(cost: seq<nat>, usable: int, leafData: bool, bBulk: bool, cnt0: seq<nat>, sz0: seq<int>, i: nat,
                 k: nat)
    returns (rc: PackRc, cnt: seq<nat>, sz: seq<int>)
    requires EvenState(cost, usable, leafData, cnt0, sz0, i + 1, k) && 0 < i < k
    requires forall j :: 0 <= j < |cost| ==> 2 < cost[j] <= usable
    ensures rc.Packed? ==> EvenState(cost, usable, leafData, cnt, sz, i, k)
    ensures rc.Packed? ==> forall x :: 0 <= x < k && x != i - 1 && x != i ==> sz[x] == sz0[x]
    ensures 0 < sz0[i - 1] && (0 < sz0[i] || CostBefore(cost, cnt0[i - 1]) < sz0[i - 1]) ==> rc.Packed? && 0 < sz[i - 1]
    ensures |cnt| == |cnt0| && forall x :: 0 <= x < |cnt| && x != i - 1 ==> cnt[x] == cnt0[x]
    ensures StopsAt(cost, leafData, bBulk, First(cnt0, i - 1, leafData), cnt0[i - 1], cnt0[i], i == k - 1, cnt[i - 1])
  {
    hide StopsAt;
    BelowEnd(cost, usable, leafData, cnt0, sz0, i + 1, k, i - 1);
    var c, szLeft, szRight := ShiftCells(cost, usable, leafData, bBulk, First(cnt0, i - 1, leafData), cnt0[i - 1],
        cnt0[i],
                                         sz0[i - 1], sz0[i], i == k - 1);
    cnt, sz := cnt0[i - 1 := c], sz0[i := szRight][i - 1 := szLeft];
    Evened(cost, usable, leafData, cnt0, sz0, i, k, c, cnt, sz);
    rc := if c <= (if i > 1 then cnt[i - 2] else 0) then PackCorrupt else Packed;
  }

  lemma Evened(cost: seq<nat>, usable: int, leafData: bool, cnt0: seq<nat>, sz0: seq<int>, i: nat, k: nat, c: nat,
               cnt: seq<nat>, sz: seq<int>)
    requires EvenState(cost, usable, leafData, cnt0, sz0, i + 1, k) && 0 < i < k && c <= cnt0[i - 1] <= |cost|
    requires |sz| == |sz0| && (forall x :: 0 <= x < k && x != i - 1 && x != i ==> sz[x] == sz0[x])
    requires cnt == cnt0[i - 1 := c] && sz[i - 1] <= usable && 0 < sz[i] <= usable
    requires sz[i - 1] == Prefix(cost, c) - Prefix(cost, First(cnt0, i - 1, leafData))
    requires sz[i] == Prefix(cost, cnt0[i]) - Prefix(cost, After(c, leafData))
    ensures 0 < sz[i - 1] ==> c > (if i > 1 then cnt[i - 2] else 0)
    ensures c > (if i > 1 then cnt[i - 2] else 0) ==> EvenState(cost, usable, leafData, cnt, sz, i, k)
  {
    hide Prefix, After, First, PageSize, SizesExact;
    EvenedSizes(cost, leafData, cnt0, sz0, i, k, c, sz);
    if sz[i - 1] > 0 { StillOrdered(cost, cnt, sz, k, leafData, i - 1); }
    if c > (if i > 1 then cnt[i - 2] else 0) {
      SizesNonNegative(cost, cnt, i - 1, leafData);
      SizeIs(cost, cnt, sz, k, leafData, i - 1);
    }
  }

  lemma EvenedSizes(cost: seq<nat>, leafData: bool, cnt0: seq<nat>, sz0: seq<int>, i: nat, k: nat, c: nat, sz: seq<int>)
    requires SizesExact(cost, cnt0, sz0, k, leafData) && 0 < i < k && c <= |cost|
    requires |sz| == |sz0| && (forall x :: 0 <= x < k && x != i - 1 && x != i ==> sz[x] == sz0[x])
    requires sz[i - 1] == Prefix(cost, c) - Prefix(cost, First(cnt0, i - 1, leafData))
    requires sz[i] == Prefix(cost, cnt0[i]) - Prefix(cost, After(c, leafData))
    ensures SizesExact(cost, cnt0[i - 1 := c], sz, k, leafData)
  {
    hide Prefix, After, SizesExact;
    SizeIs(cost, cnt0, sz0, k, leafData, i - 1);
    SizeIs(cost, cnt0, sz0, k, leafData, i);
    MoveBoundary(cost, cnt0, sz0, k, leafData, i - 1, c, sz);
  }

  lemma SizeIs(cost: seq<nat>, cnt: seq<nat>, sz: seq<int>, k: nat, leafData: bool, i: nat)
    requires SizesExact(cost, cnt, sz, k, leafData) && i < k
    ensures i < |cnt| && i < |sz| && sz[i] == PageSize(cost, cnt, i, leafData) && k <= |cnt| && k <= |sz|
  {
  }

  lemma StillOrdered(cost: seq<nat>, cnt: seq<nat>, sz: seq<int>, k: nat, leafData: bool, i: nat)
    requires SizesExact(cost, cnt, sz, k, leafData) && i < k && sz[i] > 0
    ensures cnt[i] > (if i > 0 then cnt[i - 1] else 0)
  {
    NonEmpty(cost, cnt, i, leafData);
  }

  lemma BelowEnd(cost: seq<nat>, usable: int, leafData: bool, cnt: seq<nat>, sz: seq<int>, i: nat, k: nat, x: nat)
    requires EvenState(cost, usable, leafData, cnt, sz, i, k) && x < k - 1
    ensures 0 < cnt[x] < |cost| && cnt[x] < cnt[x + 1] <= |cost|
  {
    hide SizesExact;
    Ascends(cnt, k, 0, x);
    Ascends(cnt, k, x + 1, k - 1);
  }

  lemma {:induction false} Ascends(cnt: seq<nat>, k: nat, x: nat, y: nat)
    requires k <= |cnt| && x <= y < k && forall z :: 0 < z < k ==> cnt[z - 1] < cnt[z]
    ensures cnt[x] <= cnt[y]
    decreases y
  {
    if x < y { Ascends(cnt, k, x, y - 1); }
  }

  /** Any two cells fit on one page.  (Three cells of interior and index pages do.) */
  ghost predicate TwoFit(cost: seq<nat>, usable: int) {
    forall j, l :: 0 <= j < |cost| && 0 <= l < |cost| ==> cost[j] + cost[l] <= usable
  }

  /** What the first pass hands to the second: all pages but the last are not empty, and an empty last
      page has a left neighbour that can spare a cell. */
  lemma PassToEven(cost: seq<nat>, usable: int, leafData: bool, cnt: seq<nat>, sz: seq<int>, k: nat)
    requires PassState(cost, usable, leafData, cnt, sz, k, k) && cost != []
    requires forall j :: 0 <= j < |cost| ==> 2 < cost[j] <= usable
    ensures EvenState(cost, usable, leafData, cnt, sz, k, k)
    ensures forall x :: 0 <= x < k - 1 ==> 0 < sz[x]
    ensures leafData || TwoFit(cost, usable) ==> k == 1 || 0 < sz[k - 1] || CostBefore(cost, cnt[k - 2]) < sz[k - 2]
  {
    hide PageSize, Greedy;
    forall x | 0 <= x < k ensures 0 <= sz[x] <= usable && (x < k - 1 ==> 0 < sz[x]) {
      SettledPage(cost, usable, leafData, cnt, sz, k, x);
    }
    forall x | 0 < x < k ensures cnt[x - 1] < cnt[x] {
      SettledPage(cost, usable, leafData, cnt, sz, k, x);
    }
    SettledPage(cost, usable, leafData, cnt, sz, k, 0);
    if k > 1 { LastPageSize(cost, usable, leafData, cnt, sz, k); }
  }

  lemma SettledPage(cost: seq<nat>, usable: int, leafData: bool, cnt: seq<nat>, sz: seq<int>, k: nat, x: nat)
    requires PassState(cost, usable, leafData, cnt, sz, k, k) && cost != [] && x < k
    requires forall j :: 0 <= j < |cost| ==> 2 < cost[j] <= usable
    ensures (if x > 0 then cnt[x - 1] < cnt[x] else 0 < cnt[x]) && 0 <= sz[x] <= usable && (x < k - 1 ==> 0 < sz[x])
  {
    hide Prefix;
    assert Greedy(cost, usable, leafData, cnt, x) && sz[x] == PageSize(cost, cnt, x, leafData);
    if x < k - 1 {
      assert cnt[x] < |cost|;
      NonEmpty(cost, cnt, x, leafData);
    } else {
      PrefixMonotone(cost, First(cnt, x, leafData), cnt[x]);
    }
  }

  lemma LastPageSize(cost: seq<nat>, usable: int, leafData: bool, cnt: seq<nat>, sz: seq<int>, k: nat)
    requires PassState(cost, usable, leafData, cnt, sz, k, k) && cost != [] && k > 1
    requires forall j :: 0 <= j < |cost| ==> 2 < cost[j] <= usable
    ensures leafData || TwoFit(cost, usable) ==> 0 < sz[k - 1] || CostBefore(cost, cnt[k - 2]) < sz[k - 2]
  {
    var c, n := cnt[k - 2], |cost|;
    assert Greedy(cost, usable, leafData, cnt, k - 2) && c < n;
    assert sz[k - 2] == PageSize(cost, cnt, k - 2, leafData) && sz[k - 1] == PageSize(cost, cnt, k - 1, leafData);
    assert Prefix(cost, c + 1) == Prefix(cost, c) + cost[c];
    PrefixMonotone(cost, c + 1, n);
    if c + 1 < n {
      assert Prefix(cost, c + 2) == Prefix(cost, c + 1) + cost[c + 1];
      PrefixMonotone(cost, c + 2, n);
    } else if c > 0 && TwoFit(cost, usable) {
      assert cost[c - 1] + cost[c] <= usable;
    }
  }

  /** Each boundary of cnt has moved down from that of the greedy packing, the rightmost one first. */
  ghost predicate EvenedFrom(cost: seq<nat>, leafData: bool, bBulk: bool, greedy: seq<nat>, cnt: seq<nat>, i: nat,
                             k: nat) {
    && 0 < k <= |greedy| && k <= |cnt| && cnt[k - 1] == greedy[k - 1]
    && forall x :: i <= x < k - 1 ==>
         StopsAt(cost, leafData, bBulk, First(greedy, x, leafData), greedy[x], cnt[x + 1], x == k - 2, cnt[x])
  }

  lemma EvenedStart(cost: seq<nat>, leafData: bool, bBulk: bool, cnt: seq<nat>, k: nat)
    requires 0 < k <= |cnt|
    ensures EvenedFrom(cost, leafData, bBulk, cnt, cnt, k - 1, k)
  {
  }

  lemma EvenedStep(cost: seq<nat>, leafData: bool, bBulk: bool, greedy: seq<nat>, before: seq<nat>, cnt: seq<nat>,
                   i: nat, k: nat)
    requires 0 < i < k && EvenedFrom(cost, leafData, bBulk, greedy, before, i, k)
    requires (forall x :: 0 <= x < i ==> before[x] == greedy[x])
    requires |cnt| == |before| && forall x :: 0 <= x < |cnt| && x != i - 1 ==> cnt[x] == before[x]
    requires StopsAt(cost, leafData, bBulk, First(before, i - 1, leafData), before[i - 1], before[i], i == k - 1,
                     cnt[i - 1])
    ensures EvenedFrom(cost, leafData, bBulk, greedy, cnt, i - 1, k)
  {
    hide StopsAt;
    assert First(before, i - 1, leafData) == First(greedy, i - 1, leafData);
  }

  /** The second pass of the packing. */
  method SecondPass(cost: seq<nat>, usable: int, leafData: bool, bBulk: bool, cnt0: seq<nat>, sz0: seq<int>, k: nat)
    returns (rc: PackRc, cnt: seq<nat>, sz: seq<int>)
    requires PassState(cost, usable, leafData, cnt0, sz0, k, k) && cost != []
    requires forall j :: 0 <= j < |cost| ==> 2 < cost[j] <= usable
    ensures rc.Packed? ==> EvenState(cost, usable, leafData, cnt, sz, 1, k)
                           && EvenedFrom(cost, leafData, bBulk, cnt0, cnt, 0, k)
    ensures leafData || TwoFit(cost, usable) ==> rc.Packed?
  {
    hide PassState, SizesExact, StopsAt, EvenedFrom;
    PassToEven(cost, usable, leafData, cnt0, sz0, k);
    cnt, sz := cnt0, sz0;
    EvenedStart(cost, leafData, bBulk, cnt0, k);
    ghost var fine := leafData || TwoFit(cost, usable);
    var i := k - 1;
    while i > 0
      invariant 0 <= i < k && EvenState(cost, usable, leafData, cnt, sz, i + 1, k)
      invariant EvenedFrom(cost, leafData, bBulk, cnt0, cnt, i, k) && forall x :: 0 <= x < i ==> cnt[x] == cnt0[x]
      invariant forall x :: 0 <= x < i && fine ==> 0 < sz[x]
      invariant fine && i > 0 ==> 0 < sz[i] || CostBefore(cost, cnt[i - 1]) < sz[i - 1]
    {
      ghost var before := cnt;
      rc, cnt, sz := EvenOut(cost, usable, leafData, bBulk, cnt, sz, i, k);
      if rc.PackCorrupt? { return; }
      EvenedStep(cost, leafData, bBulk, cnt0, before, cnt, i, k);
      i := i - 1;
    }
    rc := Packed;
  }

  /** The packing of balance_nonroot.  A packing it delivers is good and has as few pages as possible: it is
      the greedy one with its boundaries moved down.  If any two cells fit on a page, or in a table leaf,
      it reports corruption exactly when no packing exists. */
  method Pack(cost: seq<nat>, usable: int, leafData: bool, bBulk: bool, cntOld: seq<nat>, szOld: seq<int>, nOld: nat)
    returns (rc: PackRc, cnt: seq<nat>, sz: seq<int>)
    requires 1 <= nOld <= NB && |cntOld| == |szOld| == nOld && cost != [] && usable >= 0
    requires cntOld[nOld - 1] == |cost| && (forall x :: 0 <= x < nOld ==> cntOld[x] <= |cost|)
    requires SizesExact(cost, cntOld, szOld, nOld, leafData)
    requires forall j :: 0 <= j < |cost| ==> 2 < cost[j] <= usable
    ensures rc.Packed? ==>
              |cnt| <= NB + 2 && GoodPacking(cost, usable, leafData, cnt) && SizesExact(cost, cnt, sz, |cnt|, leafData)
    ensures rc.Packed? ==> forall other :: Feasible(cost, usable, leafData, other) ==> |cnt| <= |other|
    ensures rc.Packed? ==> EvenedGreedy(cost, usable, leafData, bBulk, cnt)
    ensures leafData || TwoFit(cost, usable) ==>
              (rc.PackCorrupt? <==> forall other :: Feasible(cost, usable, leafData, other) ==> |other| > NB + 2)
  {
    hide PageSize, Greedy, GoodPacking, Feasible, TwoFit, EvenedGreedy, EvenedFrom;
    var pad := NB + 2 - nOld;
    cnt, sz := cntOld + seq(pad, _ => 0), szOld + seq(pad, _ => 0);
    assert PassState(cost, usable, leafData, cnt, sz, 0, nOld) by {
      PadSizes(cost, cntOld, szOld, nOld, leafData, cnt, sz);
    }
    var k;
    rc, cnt, sz, k := FirstPass(cost, usable, leafData, cnt, sz, nOld);
    if rc.PackCorrupt? { return; }
    FirstIsFeasible(cost, usable, leafData, cnt, sz, k);
    forall other | Feasible(cost, usable, leafData, other) ensures k <= |other| {
      GreedyIsShortest(cost, usable, leafData, cnt, sz, k, other);
    }
    assert |cnt[..k]| <= NB + 2;
    ghost var greedy := cnt;
    rc, cnt, sz := SecondPass(cost, usable, leafData, bBulk, cnt, sz, k);
    if rc.PackCorrupt? { return; }
    EvenIsGood(cost, usable, leafData, cnt, sz, k);
    EvenedPart(cost, usable, leafData, bBulk, greedy, cnt, k);
    cnt, sz := cnt[..k], sz[..k];
  }

  /** The packing is the greedy one with its boundaries moved down. */
  ghost predicate EvenedGreedy(cost: seq<nat>, usable: int, leafData: bool, bBulk: bool, cnt: seq<nat>) {
    exists greedy: seq<nat> ::
      && |greedy| == |cnt| && (forall x :: 0 <= x < |greedy| ==> Greedy(cost, usable, leafData, greedy, x))
      && EvenedFrom(cost, leafData, bBulk, greedy, cnt, 0, |cnt|)
  }

  lemma EvenedPart(cost: seq<nat>, usable: int, leafData: bool, bBulk: bool, greedy: seq<nat>, cnt: seq<nat>, k: nat)
    requires k <= |greedy| && (forall x :: 0 <= x < k ==> Greedy(cost, usable, leafData, greedy, x))
    requires EvenedFrom(cost, leafData, bBulk, greedy, cnt, 0, k)
    ensures EvenedGreedy(cost, usable, leafData, bBulk, cnt[..k])
  {
    hide StopsAt, Greedy;
    var g, c := greedy[..k], cnt[..k];
    GreedyFrame(cost, usable, leafData, greedy, g, k);
    forall x | 0 <= x < k - 1
      ensures StopsAt(cost, leafData, bBulk, First(g, x, leafData), g[x], c[x + 1], x == k - 2, c[x])
    {
      assert First(g, x, leafData) == First(greedy, x, leafData);
    }
    assert EvenedFrom(cost, leafData, bBulk, g, c, 0, k);
  }

  lemma PadSizes(cost: seq<nat>, cntOld: seq<nat>, szOld: seq<int>, n: nat, leafData: bool, cnt: seq<nat>, sz: seq<int>)
    requires SizesExact(cost, cntOld, szOld, n, leafData) && n <= |cnt| && n <= |sz| && n <= |cntOld|
    requires cnt[..n] == cntOld[..n] && sz[..n] == szOld[..n]
    ensures SizesExact(cost, cnt, sz, n, leafData)
  {
    hide Prefix;
    assert forall x ::
          0 <= x < n ==>
            cnt[x] == cnt[..n][x] && cntOld[x] == cntOld[..n][x] && sz[x] == sz[..n][x] && szOld[x] == szOld[..n][x];
    forall x | 0 <= x < n ensures sz[x] == PageSize(cost, cnt, x, leafData) {
      assert szOld[x] == PageSize(cost, cntOld, x, leafData);
    }
  }

  /** No packing has fewer pages than the greedy one. */
  lemma GreedyIsShortest(cost: seq<nat>, usable: int, leafData: bool, cnt: seq<nat>, sz: seq<int>, k: nat,
                         other: seq<nat>)
    requires PassState(cost, usable, leafData, cnt, sz, k, k) && Feasible(cost, usable, leafData, other)
    ensures k <= |other|
  {
    hide PageSize, Prefix, Greedy, First;
    if |other| < k { GreedyDominates(cost, usable, leafData, cnt, other, |other| - 1); }
  }

  lemma FirstIsFeasible(cost: seq<nat>, usable: int, leafData: bool, cnt: seq<nat>, sz: seq<int>, k: nat)
    requires PassState(cost, usable, leafData, cnt, sz, k, k)
    ensures Feasible(cost, usable, leafData, cnt[..k])
  {
    hide Prefix;
    var c := cnt[..k];
    forall x | 0 <= x < k ensures First(c, x, leafData) <= c[x] <= |cost| && PageSize(cost, c, x, leafData) <= usable {
      assert Greedy(cost, usable, leafData, cnt, x);
    }
  }

  lemma EvenIsGood(cost: seq<nat>, usable: int, leafData: bool, cnt: seq<nat>, sz: seq<int>, k: nat)
    requires EvenState(cost, usable, leafData, cnt, sz, 1, k)
    ensures GoodPacking(cost, usable, leafData, cnt[..k]) && SizesExact(cost, cnt[..k], sz[..k], k, leafData)
  {
    hide Prefix;
    var c := cnt[..k];
    PadSizes(cost, cnt, sz, k, leafData, c, sz[..k]);
    forall x | 0 <= x < k
      ensures First(c, x, leafData) < c[x] <= |cost| && PageSize(cost, c, x, leafData) <= usable
    {
      assert sz[x] == PageSize(cost, cnt, x, leafData) == PageSize(cost, c, x, leafData);
      if x > 0 { NonEmpty(cost, c, x, leafData); }
      Ascends(cnt, k, x, k - 1);
    }
  }
}
