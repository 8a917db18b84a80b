/** The statistics an ANALYZE is meant to deliver, defined on the rows themselves, and the proof that
    the accumulator delivers them. */
module Stat4Exact {
  import opened Arith
  import opened ScanGroups
  import opened Stat4

  type IndexRow = seq<int>

  /** x comes before y when only their first n columns are compared. */
  ghost predicate PrefixLess(x: IndexRow, y: IndexRow, n: nat)
    requires n <= |x| && n <= |y|
  {
    exists d :: 0 <= d < n && x[..d] == y[..d] && x[d] < y[d]
  }

  /** An index: rows of nCol columns, strictly ascending. */
  ghost predicate IsIndex(rows: seq<IndexRow>, nCol: nat) {
    && (forall q :: 0 <= q < |rows| ==> |rows[q]| == nCol)
    && (forall q :: 0 < q < |rows| ==> PrefixLess(rows[q - 1], rows[q], nCol))
  }

  /** Rows that agree with row r on columns 0..j. */
  ghost function EqualRows(rows: seq<IndexRow>, r: nat, j: nat): set<nat>
    requires r < |rows| && forall q :: 0 <= q < |rows| ==> j < |rows[q]|
  {
    set q: nat | q < |rows| && rows[q][..j + 1] == rows[r][..j + 1]
  }

  /** Rows that come before row r when columns 0..j are compared. */
  ghost function LessRows(rows: seq<IndexRow>, r: nat, j: nat): set<nat>
    requires r < |rows| && forall q :: 0 <= q < |rows| ==> j < |rows[q]|
  {
    set q: nat | q < |rows| && PrefixLess(rows[q], rows[r], j + 1)
  }

  /** The distinct values of columns 0..j among a set of rows. */
  ghost function Prefixes(rows: seq<IndexRow>, which: set<nat>, j: nat): set<IndexRow>
    requires forall q :: q in which ==> q < |rows| && j < |rows[q]|
  {
    set q | q in which :: rows[q][..j + 1]
  }

  /** The left-most column in which two rows differ. */
  function FirstDiff(x: IndexRow, y: IndexRow): (d: nat)
    requires |x| == |y|
    ensures d <= |x| && x[..d] == y[..d] && (d < |x| ==> x[d] != y[d])
  {
    if x == [] || x[0] != y[0] then 0
    else
      var d := FirstDiff(x[1..], y[1..]);
      assert x[..d + 1] == [x[0]] + x[1..][..d] && y[..d + 1] == [y[0]] + y[1..][..d];
      d + 1
  }

  /** The change list of an index. */
  ghost predicate IsChangeList(rows: seq<IndexRow>, chg: seq<nat>) {
    && |chg| == |rows| && (forall q :: 0 < q < |rows| ==> |rows[q - 1]| == |rows[q]|)
    && forall q :: 0 < q < |rows| ==> chg[q] == FirstDiff(rows[q - 1], rows[q])
  }

  lemma PrefixLessTransitive(x: IndexRow, y: IndexRow, z: IndexRow, n: nat)
    requires n <= |x| && n <= |y| && n <= |z| && PrefixLess(x, y, n) && PrefixLess(y, z, n)
    ensures PrefixLess(x, z, n)
  {
    var d :| 0 <= d < n && x[..d] == y[..d] && x[d] < y[d];
    var e :| 0 <= e < n && y[..e] == z[..e] && y[e] < z[e];
    var m := if d < e then d else e;
    assert x[..m] == x[..d][..m] && y[..m] == y[..d][..m] && y[..m] == y[..e][..m] && z[..m] == z[..e][..m];
    if d < e { assert y[d] == y[..e][d] == z[..e][d] == z[d]; }
    if e < d { assert x[e] == x[..d][e] == y[..d][e] == y[e]; }
  }

  lemma PrefixLessIrreflexive(x: IndexRow, y: IndexRow, n: nat)
    requires n <= |x| && n <= |y| && PrefixLess(x, y, n)
    ensures x[..n] != y[..n] && !PrefixLess(y, x, n)
  {
    var d :| 0 <= d < n && x[..d] == y[..d] && x[d] < y[d];
    assert x[..n][d] == x[d] && y[..n][d] == y[d];
    forall e | 0 <= e < n ensures !(y[..e] == x[..e] && y[e] < x[e]) {
      if e < d { assert x[e] == x[..d][e] == y[..d][e] == y[e]; }
      if e > d { assert x[..e][d] == x[d] && y[..e][d] == y[d]; }
    }
  }

  /** Equal prefixes are interchangeable on the left of the order. */
  lemma PrefixLessEqual(x: IndexRow, y: IndexRow, z: IndexRow, n: nat)
    requires n <= |x| && n <= |y| && n <= |z| && x[..n] == y[..n]
    ensures PrefixLess(x, z, n) <==> PrefixLess(y, z, n)
    ensures PrefixLess(z, x, n) <==> PrefixLess(z, y, n)
  {
    assert forall d ::
          0 <= d < n ==> x[..d] == x[..n][..d] && y[..d] == y[..n][..d] && x[d] == x[..n][d] && y[d] == y[..n][d];
  }

  /** One row to the next: equal up to the changed column, and larger in it. */
  lemma NextRowPrefix(rows: seq<IndexRow>, nCol: nat, chg: seq<nat>, q: nat, j: nat)
    requires IsIndex(rows, nCol) && IsChangeList(rows, chg) && 0 < q < |rows| && j < nCol
    ensures chg[q] > j ==> rows[q - 1][..j + 1] == rows[q][..j + 1]
    ensures chg[q] <= j ==> PrefixLess(rows[q - 1], rows[q], j + 1)
    ensures chg[q] < nCol
  {
    var x, y, c := rows[q - 1], rows[q], chg[q];
    assert PrefixLess(x, y, nCol);
    var d :| 0 <= d < nCol && x[..d] == y[..d] && x[d] < y[d];
    assert forall i :: 0 <= i < d ==> x[i] == x[..d][i] && y[i] == y[..d][i];
    assert forall i :: 0 <= i < c ==> x[i] == x[..c][i] && y[i] == y[..c][i];
    if c > j { assert x[..j + 1] == x[..c][..j + 1] && y[..j + 1] == y[..c][..j + 1]; }
  }

  /** Rows p <= q agree on columns 0..j exactly when p is not before the group of q, and otherwise
      p is the smaller one. */
  lemma {:induction false} RowOrder(rows: seq<IndexRow>, nCol: nat, chg: seq<nat>, p: nat, q: nat, j: nat)
    requires IsIndex(rows, nCol) && IsChangeList(rows, chg) && p <= q < |rows| && j < nCol
    ensures Start(chg, q, j) <= p ==> rows[p][..j + 1] == rows[q][..j + 1]
    ensures Start(chg, q, j) > p ==> PrefixLess(rows[p], rows[q], j + 1)
    decreases q
  {
    hide PrefixLess, FirstDiff;
    if p < q {
      NextRowPrefix(rows, nCol, chg, q, j);
      RowOrder(rows, nCol, chg, p, q - 1, j);
      if chg[q] <= j {
        if Start(chg, q - 1, j) <= p {
          PrefixLessEqual(rows[p], rows[q - 1], rows[q], j + 1);
        } else {
          PrefixLessTransitive(rows[p], rows[q - 1], rows[q], j + 1);
        }
      } else if Start(chg, q - 1, j) > p {
        PrefixLessEqual(rows[q - 1], rows[q], rows[p], j + 1);
      }
    }
  }

  /** The group of row r reaches row q exactly when the group of row q starts at or before r. */
  lemma {:induction false} StartEnd(chg: seq<nat>, r: nat, q: nat, j: nat)
    requires r <= q < |chg|
    ensures q < End(chg, r, j) <==> Start(chg, q, j) <= r
    decreases q - r
  {
    if r < q {
      StartEnd(chg, r + 1, q, j);
      if chg[r + 1] <= j { StartAbove(chg, r + 1, q, j); }
      else if Start(chg, q, j) == r + 1 { StartNotChanged(chg, q, j); }
    }
  }

  lemma {:induction false} StartNotChanged(chg: seq<nat>, q: nat, j: nat)
    requires q < |chg|
    ensures Start(chg, q, j) == 0 || chg[Start(chg, q, j)] <= j
  {
    if q > 0 && chg[q] > j { StartNotChanged(chg, q - 1, j); }
  }

  lemma {:induction false} IntervalSize(lo: nat, hi: nat, s: set<nat>)
    requires lo <= hi && forall q :: q in s <==> lo <= q < hi
    ensures |s| == hi - lo
    decreases hi - lo
  {
    if lo == hi {
      assert s == {};
    } else {
      IntervalSize(lo, hi - 1, s - {hi - 1});
    }
  }

  /** The equal rows are the group of the row, and the smaller rows are those before it. */
  lemma GroupMeaning(rows: seq<IndexRow>, nCol: nat, chg: seq<nat>, r: nat, j: nat)
    requires IsIndex(rows, nCol) && IsChangeList(rows, chg) && r < |rows| && j < nCol
    ensures |EqualRows(rows, r, j)| == Count(chg, r, j)
    ensures |LessRows(rows, r, j)| == Start(chg, r, j)
    ensures forall q: nat :: q in LessRows(rows, r, j) <==> q < Start(chg, r, j)
  {
    hide PrefixLess, FirstDiff;
    forall q: nat | q < |rows|
      ensures rows[q][..j + 1] == rows[r][..j + 1] <==> Start(chg, r, j) <= q < End(chg, r, j)
      ensures PrefixLess(rows[q], rows[r], j + 1) <==> q < Start(chg, r, j)
    {
      if q <= r {
        RowOrder(rows, nCol, chg, q, r, j);
        if q < Start(chg, r, j) { PrefixLessIrreflexive(rows[q], rows[r], j + 1); }
        else if PrefixLess(rows[q], rows[r], j + 1) { PrefixLessIrreflexive(rows[q], rows[r], j + 1); }
      } else {
        RowOrder(rows, nCol, chg, r, q, j);
        StartEnd(chg, r, q, j);
        if r < Start(chg, q, j) { PrefixLessIrreflexive(rows[r], rows[q], j + 1); }
        else if PrefixLess(rows[q], rows[r], j + 1) { PrefixLessIrreflexive(rows[q], rows[r], j + 1); }
      }
    }
    IntervalSize(Start(chg, r, j), End(chg, r, j), EqualRows(rows, r, j));
    IntervalSize(0, Start(chg, r, j), LessRows(rows, r, j));
  }

  /** The first m rows have one distinct prefix for each group among them. */
  lemma {:induction false} DistinctPrefixes(rows: seq<IndexRow>, nCol: nat, chg: seq<nat>, m: nat, which: set<nat>,
                                            j: nat)
    requires IsIndex(rows, nCol) && IsChangeList(rows, chg) && 0 < m <= |rows| && j < nCol
    requires forall q: nat :: q in which <==> q < m
    ensures |Prefixes(rows, which, j)| == Before(chg, m - 1, j) + 1
    decreases m
  {
    hide PrefixLess, FirstDiff, Prefixes;
    var which' := which - {m - 1};
    PrefixesAdd(rows, nCol, which', m - 1, which, j);
    if m == 1 {
      NoPrefixes(rows, which', j);
    } else {
      DistinctPrefixes(rows, nCol, chg, m - 1, which', j);
      if chg[m - 1] <= j {
        LastIsNew(rows, nCol, chg, m - 1, which', j);
      } else {
        LastIsOld(rows, nCol, chg, m - 1, which', j);
      }
    }
  }

  lemma NoPrefixes(rows: seq<IndexRow>, which: set<nat>, j: nat)
    requires which == {}
    ensures Prefixes(rows, which, j) == {}
  {
  }

  lemma LastIsOld(rows: seq<IndexRow>, nCol: nat, chg: seq<nat>, x: nat, which: set<nat>, j: nat)
    requires IsIndex(rows, nCol) && IsChangeList(rows, chg) && 0 < x < |rows| && j < nCol && chg[x] > j
    requires x - 1 in which && forall q :: q in which ==> q < x
    ensures rows[x][..j + 1] in Prefixes(rows, which, j)
  {
    NextRowPrefix(rows, nCol, chg, x, j);
  }

  lemma PrefixesAdd(rows: seq<IndexRow>, nCol: nat, which': set<nat>, x: nat, which: set<nat>, j: nat)
    requires j < nCol && x < |rows| && (forall q :: 0 <= q < |rows| ==> |rows[q]| == nCol)
    requires x !in which' && which == which' + {x} && forall q :: q in which ==> q < |rows|
    ensures Prefixes(rows, which, j) == Prefixes(rows, which', j) + {rows[x][..j + 1]}
    ensures var ps := Prefixes(rows, which', j);
            |Prefixes(rows, which, j)| == if rows[x][..j + 1] in ps then |ps| else |ps| + 1
  {
    var ps, p := Prefixes(rows, which', j), rows[x][..j + 1];
    assert Prefixes(rows, which, j) == ps + {p};
    if p in ps { assert ps + {p} == ps; }
  }

  /** A row that starts a group has a prefix no earlier row has. */
  lemma LastIsNew(rows: seq<IndexRow>, nCol: nat, chg: seq<nat>, x: nat, which: set<nat>, j: nat)
    requires IsIndex(rows, nCol) && IsChangeList(rows, chg) && 0 < x < |rows| && j < nCol && chg[x] <= j
    requires forall q :: q in which ==> q < x
    ensures rows[x][..j + 1] !in Prefixes(rows, which, j)
  {
    hide PrefixLess, FirstDiff;
    forall q | q in which ensures rows[q][..j + 1] != rows[x][..j + 1] {
      RowOrder(rows, nCol, chg, q, x, j);
      PrefixLessIrreflexive(rows[q], rows[x], j + 1);
    }
  }

  lemma {:induction false} BeforeStart(chg: seq<nat>, r: nat, j: nat)
    requires r < |chg|
    ensures Before(chg, r, j) == Before(chg, Start(chg, r, j), j)
  {
    if r > 0 && chg[r] > j { BeforeStart(chg, r - 1, j); }
  }

  /** The distinct smaller prefixes are the groups before that of the row. */
  lemma SmallerGroups(rows: seq<IndexRow>, nCol: nat, chg: seq<nat>, r: nat, j: nat)
    requires IsIndex(rows, nCol) && IsChangeList(rows, chg) && r < |rows| && j < nCol
    ensures |Prefixes(rows, LessRows(rows, r, j), j)| == Before(chg, r, j)
  {
    hide PrefixLess, FirstDiff;
    GroupMeaning(rows, nCol, chg, r, j);
    BeforeStart(chg, r, j);
    var s := Start(chg, r, j);
    if s == 0 {
      assert Prefixes(rows, LessRows(rows, r, j), j) == {};
    } else {
      DistinctPrefixes(rows, nCol, chg, s, LessRows(rows, r, j), j);
      StartNotChanged(chg, r, j);
    }
  }

  /** Sample s states, for every column prefix, how many rows of the index share it with the row of
      the sample, how many come before, and how many distinct values come before. */
  ghost predicate Exact(rows: seq<IndexRow>, ids: seq<int>, nCol: nat, s: Sample) {
    && 0 < nCol == |s.anEq| == |s.anLt| == |s.anDLt| && Row(s) < |rows| == |ids| && s.rowid == ids[Row(s)]
    && (forall q :: 0 <= q < |rows| ==> |rows[q]| == nCol)
    && forall j :: 0 <= j < nCol ==>
         && s.anEq[j] == |EqualRows(rows, Row(s), j)|
         && s.anLt[j] == |LessRows(rows, Row(s), j)|
         && s.anDLt[j] == |Prefixes(rows, LessRows(rows, Row(s), j), j)|
  }

  lemma KeptIsExact(rows: seq<IndexRow>, ids: seq<int>, nCol: nat, chg: seq<nat>, s: Sample)
    requires IsIndex(rows, nCol) && IsChangeList(rows, chg)
    requires KeptOk(chg, ids, nCol, s, 0) && forall j :: 0 <= j < nCol ==> s.anEq[j] != 0
    ensures Exact(rows, ids, nCol, s)
  {
    hide PrefixLess, FirstDiff, Start, End, Before, EqualRows;
    forall j | 0 <= j < nCol
      ensures s.anEq[j] == |EqualRows(rows, Row(s), j)| && s.anLt[j] == |LessRows(rows, Row(s), j)|
      ensures s.anDLt[j] == |Prefixes(rows, LessRows(rows, Row(s), j), j)|
    {
      assert EqEntryOk(chg, s, 0, j);
      GroupMeaning(rows, nCol, chg, Row(s), j);
      SmallerGroups(rows, nCol, chg, Row(s), j);
    }
  }

  /** No sample has the values of row r in columns 0..j. */
  ghost predicate Unrepresented(rows: seq<IndexRow>, samples: seq<Sample>, r: nat, j: nat)
    requires r < |rows| && forall q :: 0 <= q < |rows| ==> j < |rows[q]|
  {
    forall k :: 0 <= k < |samples| && samples[k].anLt != [] && Row(samples[k]) < |rows| ==>
      rows[Row(samples[k])][..j + 1] != rows[r][..j + 1]
  }

  /** Values that no sample has are rare: there is no room for another sample, and every sample that was not
      taken periodically was kept for values that are at least as frequent, those of its columns 0..iCol. */
  ghost predicate MostFrequentKept(rows: seq<IndexRow>, nCol: nat, samples: seq<Sample>, mx: nat)
    requires forall q :: 0 <= q < |rows| ==> |rows[q]| == nCol
  {
    forall r, j :: 0 <= r < |rows| && 0 <= j < nCol - 1 && Unrepresented(rows, samples, r, j) ==>
      Outranked(samples, mx, |EqualRows(rows, r, j)|, j)
  }

  lemma SettledMeaning(rows: seq<IndexRow>, ids: seq<int>, nCol: nat, chg: seq<nat>, a: seq<Sample>, mx: nat)
    requires IsIndex(rows, nCol) && IsChangeList(rows, chg) && nCol > 0 && AllOk(chg, ids, nCol, a, 0)
    requires AllSettled(chg, nCol, a, mx, 0)
    ensures MostFrequentKept(rows, nCol, a, mx)
  {
    hide PrefixLess, FirstDiff, EqualRows, Outranked, AllOk, Start, End, IsChangeList;
    assert |chg| == |rows| by { ChangeListLength(rows, chg); }
    forall r, j | 0 <= r < |rows| && 0 <= j < nCol - 1 && Unrepresented(rows, a, r, j)
      ensures Outranked(a, mx, |EqualRows(rows, r, j)|, j)
    {
      assert Settled(chg, a, mx, r, j);
      GroupMeaning(rows, nCol, chg, r, j);
      if Held(chg, a, r, j) {
        var k :| 0 <= k < |a| && Holds(chg, a[k], r, j);
        SameStartSameValues(rows, nCol, chg, Row(a[k]), r, j);
      }
    }
  }

  lemma ChangeListLength(rows: seq<IndexRow>, chg: seq<nat>)
    requires IsChangeList(rows, chg)
    ensures |chg| == |rows|
  {
  }

  lemma SameStartSameValues(rows: seq<IndexRow>, nCol: nat, chg: seq<nat>, p: nat, q: nat, j: nat)
    requires IsIndex(rows, nCol) && IsChangeList(rows, chg) && p < |rows| && q < |rows| && j < nCol
    requires Start(chg, p, j) == Start(chg, q, j)
    ensures rows[p][..j + 1] == rows[q][..j + 1]
  {
    hide PrefixLess, FirstDiff;
    StartBelow(chg, p, j);
    StartBelow(chg, q, j);
    if p <= q { RowOrder(rows, nCol, chg, p, q, j); } else { RowOrder(rows, nCol, chg, q, p, j); }
  }

  /** The samples are in the order of their rows, each from another row. */
  ghost predicate InIndexOrder(a: seq<Sample>, nCol: nat) {
    && nCol > 0 && (forall k :: 0 <= k < |a| ==> |a[k].anLt| == nCol)
    && forall k, l :: 0 <= k < l < |a| ==> a[k].anLt[nCol - 1] < a[l].anLt[nCol - 1]
  }

  /** ANALYZE of one index: initialise, push every row with the column it changes, and flush.  The
      kept samples, at most mxSample of them, are in the order of the index, their counts are exact,
      whatever was kept or dropped on the way, and they represent the most frequent values. */
  method Analyze(rows: seq<IndexRow>, rowids: seq<int>, nCol: nat, mxSample: nat, seed: nat)
    returns (samples: seq<Sample>)
    requires IsIndex(rows, nCol) && 0 < |rows| == |rowids| && nCol > 0 && mxSample > 0
    ensures |samples| <= mxSample
    ensures forall k :: 0 <= k < |samples| ==> Exact(rows, rowids, nCol, samples[k])
    ensures InIndexOrder(samples, nCol)
    ensures EvenlySpaced(samples, |rows|, mxSample / 3)
    ensures MostFrequentKept(rows, nCol, samples, mxSample)
  {
    hide PrefixLess, FirstDiff, KeptOk, Exact, NoZeroFrom, CurrentOk, KeepsPeriodic, PeriodicKept, EvenlySpaced,
      IsPeriod, Quota, Periodic, AllSettled, Covered, IsWorst, AllOk, MostFrequentKept, HasPeriodic, IsPeriodic,
      InIndexOrder;
    var p := new Accum(nCol, mxSample, |rows|, seed);
    var q := 0;
    while q < |rows|
      invariant fresh(p) && p.nCol == nCol && p.mxSample == mxSample && p.nEst == |rows|
      invariant 0 <= q <= |rows| && p.Valid() && p.nRow == q && p.ids == rowids[..q]
      invariant |p.chg| == q && forall i :: 0 < i < q ==> p.chg[i] == FirstDiff(rows[i - 1], rows[i])
    {
      var iChng := 0;
      if q > 0 {
        iChng := FirstDiff(rows[q - 1], rows[q]);
        DiffColumn(rows, nCol, q);
      }
      p.StatPush(iChng, rowids[q]);
      q := q + 1;
    }
    ghost var last := p.a;
    p.SamplePushPrevious(0);
    samples := p.a;
    SpacedOut(last, samples, |rows|, mxSample, p.nPSample);
    assert p.ids == rowids;
    AllExact(rows, rowids, nCol, p.chg, samples);
    SettledMeaning(rows, rowids, nCol, p.chg, samples, mxSample);
  }

  /** The periodic samples are the last rows of every `step` rows. */
  ghost predicate LastOfEvery(samples: seq<Sample>, n: nat, step: nat) {
    && step > 0 && Periodic(samples) == n / step
    && forall r: nat :: HasPeriodic(samples, r) <==> r < n && (r + 1) % step == 0
  }

  /** The periodic samples are equally far apart, and so close that there are k of them if n is large enough,
      but never more. */
  ghost predicate EvenlySpaced(samples: seq<Sample>, n: nat, k: nat) {
    && (exists step: nat :: LastOfEvery(samples, n, step) && (step - 1) * (k + 1) <= n < step * (k + 1))
    && Periodic(samples) <= k && (n >= k * (k + 1) ==> Periodic(samples) == k)
  }

  lemma SpacedOut(a0: seq<Sample>, a: seq<Sample>, n: nat, mx: nat, p: nat)
    requires p > 0 && mx > 0 && IsPeriod(p, n, mx) && PeriodicKept(a0, n, p) && KeepsPeriodic(a0, a)
    requires Periodic(a) == Quota(n, p)
    ensures EvenlySpaced(a, n, mx / 3)
  {
    hide HasPeriodic, IsPeriodic, Periodic;
    FewPeriodicRows(n, n, mx, p);
    forall r: nat ensures HasPeriodic(a, r) <==> r < n && (r + 1) % p == 0 { PeriodicEvery(r, p); }
    assert LastOfEvery(a, n, p);
    if n >= (mx / 3) * (mx / 3 + 1) { ManyRows(n, mx / 3, p); }
  }

  lemma ManyRows(n: nat, k: nat, p: nat)
    requires p > 0 && (p - 1) * (k + 1) <= n && n >= k * (k + 1)
    ensures n / p >= k
  {
    var t := DivMod(n, p);
    var q := n / p;
    // if q < k, n is less than q * p + p <= k * p, hence p > k + 1, and then k * p <= (p - 1) * (k + 1) <= n
    if q < k { MulMonotone(q + 1, k, p); }
    if p <= k + 1 { MulMonotone(p, k + 1, k); }
    assert (p - 1) * (k + 1) == k * p + p - k - 1;
  }

  lemma DiffColumn(rows: seq<IndexRow>, nCol: nat, q: nat)
    requires IsIndex(rows, nCol) && 0 < q < |rows|
    ensures FirstDiff(rows[q - 1], rows[q]) < nCol
  {
    var x, y := rows[q - 1], rows[q];
    PrefixLessIrreflexive(x, y, nCol);
    assert x[..nCol] == x && y[..nCol] == y;
  }

  lemma AllExact(rows: seq<IndexRow>, ids: seq<int>, nCol: nat, chg: seq<nat>, a: seq<Sample>)
    requires IsIndex(rows, nCol) && IsChangeList(rows, chg) && nCol > 0
    requires AllOk(chg, ids, nCol, a, 0) && NoZeroFrom(a, nCol, 0)
    ensures forall k :: 0 <= k < |a| ==> Exact(rows, ids, nCol, a[k])
    ensures InIndexOrder(a, nCol)
  {
    hide PrefixLess, FirstDiff, Exact;
    forall k | 0 <= k < |a| ensures Exact(rows, ids, nCol, a[k]) {
      KeptIsExact(rows, ids, nCol, chg, a[k]);
    }
    LengthsOk(chg, ids, nCol, a, 0);
  }
}
