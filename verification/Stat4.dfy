/** The STAT4 accumulator: a bounded set of sample rows kept while an index is scanned, whose counts
    are exact once the scan is over. */
module Stat4 {
  import opened Arith
  import opened ScanGroups

  datatype Sample = Sample(anEq: seq<nat>, anLt: seq<nat>, anDLt: seq<nat>, rowid: int, isPSample: bool, iCol: nat,
      iHash: nat)

  /** sampleIsBetterPost, from column i on. */
  predicate BetterPost(x: Sample, y: Sample, i: nat)
    requires |x.anEq| == |y.anEq|
    decreases |x.anEq| - i
  {
    if i >= |x.anEq| then x.iHash > y.iHash
    else if x.anEq[i] > y.anEq[i] then true
    else if x.anEq[i] < y.anEq[i] then false
    else BetterPost(x, y, i + 1)
  }

  /** sampleIsBetter. */
  predicate Better(x: Sample, y: Sample)
    requires |x.anEq| == |y.anEq| && x.iCol < |x.anEq| && y.iCol < |y.anEq|
  {
    var nEqNew, nEqOld := x.anEq[x.iCol], y.anEq[y.iCol];
    if nEqNew > nEqOld then true
    else if nEqNew == nEqOld then x.iCol < y.iCol || (x.iCol == y.iCol && BetterPost(x, y, x.iCol + 1))
    else false
  }

  lemma {:induction false} BetterPostTransitive(x: Sample, y: Sample, z: Sample, i: nat)
    requires |x.anEq| == |y.anEq| == |z.anEq| && BetterPost(x, y, i) && BetterPost(y, z, i)
    ensures BetterPost(x, z, i)
    decreases |x.anEq| - i
  {
    if i < |x.anEq| && x.anEq[i] == y.anEq[i] == z.anEq[i] { BetterPostTransitive(x, y, z, i + 1); }
  }

  /** Preference between samples is transitive. */
  lemma BetterTransitive(x: Sample, y: Sample, z: Sample)
    requires |x.anEq| == |y.anEq| == |z.anEq| && x.iCol < |x.anEq| && y.iCol < |y.anEq| && z.iCol < |z.anEq|
    requires Better(x, y) && Better(y, z)
    ensures Better(x, z)
  {
    if x.iCol == y.iCol == z.iCol && x.anEq[x.iCol] == y.anEq[x.iCol] == z.anEq[x.iCol] {
      BetterPostTransitive(x, y, z, x.iCol + 1);
    }
  }

  lemma {:induction false} NotBetterPostTransitive(x: Sample, y: Sample, z: Sample, i: nat)
    requires |x.anEq| == |y.anEq| == |z.anEq| && !BetterPost(x, y, i) && !BetterPost(y, z, i)
    ensures !BetterPost(x, z, i)
    decreases |x.anEq| - i
  {
    if i < |x.anEq| && x.anEq[i] == y.anEq[i] == z.anEq[i] { NotBetterPostTransitive(x, y, z, i + 1); }
  }

  /** Neither is the opposite: preference ranks all samples, with ties. */
  lemma NotBetterTransitive(x: Sample, y: Sample, z: Sample)
    requires |x.anEq| == |y.anEq| == |z.anEq| && x.iCol < |x.anEq| && y.iCol < |y.anEq| && z.iCol < |z.anEq|
    requires !Better(x, y) && !Better(y, z)
    ensures !Better(x, z)
  {
    if x.iCol == y.iCol == z.iCol && x.anEq[x.iCol] == y.anEq[x.iCol] == z.anEq[x.iCol] {
      NotBetterPostTransitive(x, y, z, x.iCol + 1);
    }
  }

  // ----- What the counters of a sample mean

  /** The row a sample was taken from: the number of rows before it, the last column being unique. */
  function Row(s: Sample): nat requires s.anLt != [] { s.anLt[|s.anLt| - 1] }

  /** Sample s describes a row of the scan: its anLt and anDLt are those of the row. */
  ghost predicate SampleOk(chg: seq<nat>, ids: seq<int>, nCol: nat, s: Sample) {
    && nCol > 0 && |s.anEq| == |s.anLt| == |s.anDLt| == nCol && s.iCol < nCol
    && Row(s) < |chg| == |ids| && s.rowid == ids[Row(s)]
    && forall j :: 0 <= j < nCol ==> s.anLt[j] == Start(chg, Row(s), j) && s.anDLt[j] == Before(chg, Row(s), j)
  }

  /** Entry j of anEq is 0 while the group is open (below level lvl), and otherwise the size of the group. */
  ghost predicate EqEntryOk(chg: seq<nat>, s: Sample, lvl: nat, j: nat)
    requires j < |s.anEq| && s.anLt != [] && Row(s) < |chg|
  {
    && (s.anEq[j] == 0 ==> Open(chg, Row(s), j))
    && (s.anEq[j] != 0 ==> s.anEq[j] == Count(chg, Row(s), j))
    && (j < lvl && Open(chg, Row(s), j) ==> s.anEq[j] == 0)
  }

  /** The entries that are still open come first. */
  ghost predicate ZerosFirst(s: Sample) {
    forall i, j :: 0 <= i < j < |s.anEq| && s.anEq[j] == 0 ==> s.anEq[i] == 0
  }

  /** A kept sample.  A sample kept for the size of its group in column iCol has that size, and the
      sizes of all smaller groups. */
  ghost predicate KeptOk(chg: seq<nat>, ids: seq<int>, nCol: nat, s: Sample, lvl: nat) {
    && SampleOk(chg, ids, nCol, s)
    && (forall j :: 0 <= j < nCol ==> EqEntryOk(chg, s, lvl, j))
    && s.anEq[nCol - 1] != 0 && ZerosFirst(s)
    && (!s.isPSample ==> forall j :: s.iCol <= j < nCol ==> s.anEq[j] != 0)
  }

  /** All kept samples are right, and in the order of their rows. */
  ghost predicate AllOk(chg: seq<nat>, ids: seq<int>, nCol: nat, a: seq<Sample>, lvl: nat) {
    && (forall k :: 0 <= k < |a| ==> KeptOk(chg, ids, nCol, a[k], lvl))
    && (forall k, l :: 0 <= k < l < |a| ==> Row(a[k]) < Row(a[l]))
  }

  /** Number of periodic samples. */
  function Periodic(a: seq<Sample>): nat {
    if a == [] then 0 else Periodic(a[..|a| - 1]) + (if a[|a| - 1].isPSample then 1 else 0)
  }

  lemma {:induction false} PeriodicConcat(a: seq<Sample>, b: seq<Sample>)
    ensures Periodic(a + b) == Periodic(a) + Periodic(b)
  {
    if b == [] {
      assert a + b == a;
    } else {
      assert (a + b)[..|a + b| - 1] == a + b[..|b| - 1];
      PeriodicConcat(a, b[..|b| - 1]);
    }
  }

  lemma {:induction false} SomeNotPeriodic(a: seq<Sample>)
    requires Periodic(a) < |a|
    ensures exists k :: 0 <= k < |a| && !a[k].isPSample
  {
    if a[|a| - 1].isPSample {
      SomeNotPeriodic(a[..|a| - 1]);
      var k :| 0 <= k < |a| - 1 && !a[..|a| - 1][k].isPSample;
      assert !a[k].isPSample;
    }
  }

  lemma PeriodicUpdate(a: seq<Sample>, k: nat, s: Sample)
    requires k < |a| && s.isPSample == a[k].isPSample
    ensures Periodic(a[k := s]) == Periodic(a)
  {
    hide Periodic;
    PeriodicSplit(a, k);
    PeriodicSplit(a[k := s], k);
    assert a[k := s][..k] == a[..k] && a[k := s][k + 1..] == a[k + 1..];
  }

  lemma PeriodicSplit(a: seq<Sample>, k: nat)
    requires k < |a|
    ensures Periodic(a) == Periodic(a[..k]) + (if a[k].isPSample then 1 else 0) + Periodic(a[k + 1..])
    ensures Periodic(a[..k] + a[k + 1..]) == Periodic(a[..k]) + Periodic(a[k + 1..])
  {
    hide Periodic;
    var front, back := a[..k], a[k + 1..];
    assert a == front + [a[k]] + back;
    PeriodicConcat(front + [a[k]], back);
    PeriodicConcat(front, [a[k]]);
    PeriodicOne(a[k]);
    PeriodicConcat(front, back);
  }

  lemma PeriodicOne(s: Sample)
    ensures Periodic([s]) == if s.isPSample then 1 else 0
  {
    assert [s][..0] == [];
  }

  /** Sample m of a is not periodic, and no such sample is worse. */
  ghost predicate IsWorst(a: seq<Sample>, m: int, nCol: nat) {
    && (forall k :: 0 <= k < |a| ==> |a[k].anEq| == nCol && a[k].iCol < nCol)
    && 0 <= m < |a| && !a[m].isPSample && forall k :: 0 <= k < |a| && !a[k].isPSample ==> !Better(a[m], a[k])
  }

  /** The find_new_min loop of sampleInsert. */
  method FindMin(a: seq<Sample>, nCol: nat) returns (iMin: int)
    requires forall k :: 0 <= k < |a| ==> |a[k].anEq| == nCol && a[k].iCol < nCol
    requires Periodic(a) < |a|
    ensures IsWorst(a, iMin, nCol)
  {
    iMin := -1;
    SomeNotPeriodic(a);
    for i := 0 to |a|
      invariant iMin < 0 ==> forall k :: 0 <= k < i ==> a[k].isPSample
      invariant iMin >= 0 ==> iMin < i && !a[iMin].isPSample
      invariant iMin >= 0 ==> forall k :: 0 <= k < i && !a[k].isPSample ==> !Better(a[iMin], a[k])
    {
      if !a[i].isPSample {
        if iMin < 0 {
          assert !Better(a[i], a[i]) by { NotBetterSelf(a[i]); }
          iMin := i;
        } else if Better(a[iMin], a[i]) {
          forall k | 0 <= k <= i && !a[k].isPSample ensures !Better(a[i], a[k]) {
            if k < i && Better(a[i], a[k]) { BetterTransitive(a[iMin], a[i], a[k]); }
            if k == i { NotBetterSelf(a[i]); }
          }
          iMin := i;
        }
      }
    }
  }

  lemma {:induction false} NotBetterPostSelf(x: Sample, i: nat)
    ensures !BetterPost(x, x, i)
    decreases |x.anEq| - i
  {
    if i < |x.anEq| { NotBetterPostSelf(x, i + 1); }
  }

  lemma NotBetterSelf(x: Sample)
    requires x.iCol < |x.anEq|
    ensures !Better(x, x)
  {
    NotBetterPostSelf(x, x.iCol + 1);
  }

  /** The sample with the first n entries of anEq set to zero. */
  function ZeroFirst(s: Sample, n: nat): (t: Sample)
    requires n <= |s.anEq|
    ensures |t.anEq| == |s.anEq| && forall j :: 0 <= j < |s.anEq| ==> t.anEq[j] == if j < n then 0 else s.anEq[j]
    ensures t.anLt == s.anLt && t.isPSample == s.isPSample && t.iCol == s.iCol
  {
    s.(anEq := seq(n, _ => 0) + s.anEq[n..])
  }

  // ----- Small steps on the kept samples

  /** Fewer levels that must be zero. */
  lemma AllOkWeaken(chg: seq<nat>, ids: seq<int>, nCol: nat, a: seq<Sample>, lvl: nat, lvl': nat)
    requires AllOk(chg, ids, nCol, a, lvl) && lvl' <= lvl
    ensures AllOk(chg, ids, nCol, a, lvl')
  {
    forall k | 0 <= k < |a| ensures KeptOk(chg, ids, nCol, a[k], lvl') {
      forall j | 0 <= j < nCol ensures EqEntryOk(chg, a[k], lvl', j) {
        assert EqEntryOk(chg, a[k], lvl, j);
      }
    }
  }

  lemma AllOkRemove(chg: seq<nat>, ids: seq<int>, nCol: nat, a: seq<Sample>, lvl: nat, m: nat)
    requires AllOk(chg, ids, nCol, a, lvl) && m < |a|
    ensures AllOk(chg, ids, nCol, a[..m] + a[m + 1..], lvl)
  {
    var b := a[..m] + a[m + 1..];
    assert forall k :: 0 <= k < |b| ==> b[k] == a[if k < m then k else k + 1];
  }

  lemma AllOkAppend(chg: seq<nat>, ids: seq<int>, nCol: nat, a: seq<Sample>, lvl: nat, s: Sample)
    requires AllOk(chg, ids, nCol, a, lvl) && KeptOk(chg, ids, nCol, s, lvl)
    requires forall k :: 0 <= k < |a| ==> Row(a[k]) < Row(s)
    ensures AllOk(chg, ids, nCol, a + [s], lvl)
  {
  }

  lemma AllOkUpdate(chg: seq<nat>, ids: seq<int>, nCol: nat, a: seq<Sample>, lvl: nat, k: nat, s: Sample)
    requires AllOk(chg, ids, nCol, a, lvl) && k < |a| && KeptOk(chg, ids, nCol, s, lvl) && Row(s) == Row(a[k])
    ensures AllOk(chg, ids, nCol, a[k := s], lvl)
  {
  }

  /** A candidate for column i: its row lies in the open group of column i, and its counts from column i on
      are those so far. */
  ghost predicate CandidateOk(chg: seq<nat>, ids: seq<int>, nCol: nat, s: Sample, i: nat) {
    && SampleOk(chg, ids, nCol, s) && s.iCol == i < nCol - 1 && !s.isPSample
    && Open(chg, Row(s), i)
    && forall j :: i < j < nCol ==> s.anEq[j] == Count(chg, Row(s), j)
  }

  /** What sampleInsert asks of its argument: a candidate for column iCol with the size of its group
      filled in, or the last row as a periodic sample. */
  ghost predicate NewOk(chg: seq<nat>, ids: seq<int>, nCol: nat, s: Sample, nEqZero: nat) {
    if s.isPSample then
      && SampleOk(chg, ids, nCol, s) && nEqZero == nCol - 1
      && Row(s) == |chg| - 1 && s.anEq[nCol - 1] == 1 && forall q :: 0 <= q < |chg| ==> chg[q] <= nCol - 1
    else
      && CandidateOk(chg, ids, nCol, s, nEqZero)
      && s.anEq[nEqZero] == Count(chg, Row(s), nEqZero)
  }

  /** The inserted copy is in order. */
  lemma NewKept(chg: seq<nat>, ids: seq<int>, nCol: nat, s: Sample, z: nat)
    requires NewOk(chg, ids, nCol, s, z)
    ensures KeptOk(chg, ids, nCol, ZeroFirst(s, z), z)
  {
    var t := ZeroFirst(s, z);
    forall j | 0 <= j < nCol ensures EqEntryOk(chg, t, z, j) {
      if s.isPSample {
        Singleton(chg, Row(s), nCol - 1);
        if j < z { Nested(chg, Row(s), j, nCol - 1); }
      } else if j < z {
        Nested(chg, Row(s), j, z);
      }
    }
  }

  lemma NewShape(chg: seq<nat>, ids: seq<int>, nCol: nat, s: Sample, z: nat)
    requires NewOk(chg, ids, nCol, s, z)
    ensures |s.anEq| == |s.anLt| == nCol && z < nCol && s.iCol < nCol && (!s.isPSample ==> s.iCol == z)
    ensures forall j :: z <= j < nCol ==> s.anEq[j] != 0
  {
  }

  /** No kept sample shares the open group of a candidate, so all come from earlier rows. */
  lemma NoSharers(chg: seq<nat>, ids: seq<int>, nCol: nat, a: seq<Sample>, s: Sample, i: nat)
    requires CandidateOk(chg, ids, nCol, s, i) && AllOk(chg, ids, nCol, a, i + 1)
    requires forall k :: 0 <= k < |a| ==> a[k].anEq[i] != 0
    ensures forall k :: 0 <= k < |a| ==> Row(a[k]) < Row(s)
  {
    OpenRows(chg, Row(s), i);
    forall k | 0 <= k < |a| ensures Row(a[k]) < Row(s) {
      assert EqEntryOk(chg, a[k], i + 1, i);
      OpenRows(chg, Row(a[k]), i);
    }
  }

  /** A sample that shares the group of a candidate takes over its column and count.  As the code
      asserts, the candidate is the better one of the two. */
  function Upgrade(t: Sample, s: Sample): Sample
    requires s.iCol < |s.anEq| == |t.anEq|
  {
    t.(iCol := s.iCol, anEq := t.anEq[s.iCol := s.anEq[s.iCol]])
  }

  lemma SharerIsWorse(chg: seq<nat>, ids: seq<int>, nCol: nat, t: Sample, s: Sample, i: nat)
    requires CandidateOk(chg, ids, nCol, s, i) && s.anEq[i] == Count(chg, Row(s), i)
    requires KeptOk(chg, ids, nCol, t, i + 1) && !t.isPSample && t.anEq[i] == 0
    ensures t.iCol > i && Better(s, t)
  {
    assert EqEntryOk(chg, t, i + 1, i) && EqEntryOk(chg, t, i + 1, t.iCol);
    OpenRows(chg, Row(s), i);
    OpenRows(chg, Row(t), i);
    Nested(chg, Row(t), i, t.iCol);
  }

  lemma Upgraded(chg: seq<nat>, ids: seq<int>, nCol: nat, t: Sample, s: Sample, i: nat)
    requires CandidateOk(chg, ids, nCol, s, i) && s.anEq[i] == Count(chg, Row(s), i)
    requires KeptOk(chg, ids, nCol, t, i + 1) && !t.isPSample && t.anEq[i] == 0 && t.anEq[i + 1] != 0
    ensures KeptOk(chg, ids, nCol, Upgrade(t, s), i) && Row(Upgrade(t, s)) == Row(t)
  {
    assert EqEntryOk(chg, t, i + 1, i);
    OpenRows(chg, Row(s), i);
    OpenRows(chg, Row(t), i);
    forall j | 0 <= j < nCol ensures EqEntryOk(chg, Upgrade(t, s), i, j) && (j > i ==> t.anEq[j] != 0) {
      assert EqEntryOk(chg, t, i + 1, j);
    }
  }

  /** No anEq entry from column z on is zero. */
  ghost predicate NoZeroFrom(a: seq<Sample>, nCol: nat, z: nat) {
    forall k, j :: 0 <= k < |a| && z <= j < nCol && j < |a[k].anEq| ==> a[k].anEq[j] != 0
  }

  lemma NoZeroFromMore(a: seq<Sample>, nCol: nat, z: nat, z': nat)
    requires NoZeroFrom(a, nCol, z) && z <= z'
    ensures NoZeroFrom(a, nCol, z')
  {
  }

  /** Removing one sample and appending another, in terms of everything the array must satisfy. */
  lemma RemoveOk(chg: seq<nat>, ids: seq<int>, nCol: nat, a: seq<Sample>, lvl: nat, z: nat, m: nat)
    requires AllOk(chg, ids, nCol, a, lvl) && NoZeroFrom(a, nCol, z) && m < |a| && !a[m].isPSample
    ensures var b := a[..m] + a[m + 1..];
            && AllOk(chg, ids, nCol, b, lvl) && NoZeroFrom(b, nCol, z) && Periodic(b) == Periodic(a)
            && forall k :: 0 <= k < |b| ==> b[k] in a
  {
    hide AllOk, KeptOk, Periodic;
    PeriodicSplit(a, m);
    AllOkRemove(chg, ids, nCol, a, lvl, m);
    var b := a[..m] + a[m + 1..];
    assert forall k :: 0 <= k < |b| ==> b[k] == a[if k < m then k else k + 1];
  }

  lemma AppendOk(chg: seq<nat>, ids: seq<int>, nCol: nat, a: seq<Sample>, lvl: nat, z: nat, t: Sample)
    requires AllOk(chg, ids, nCol, a, lvl) && NoZeroFrom(a, nCol, z) && KeptOk(chg, ids, nCol, t, lvl)
    requires forall k :: 0 <= k < |a| ==> a[k].anLt != [] && Row(a[k]) < Row(t)
    requires forall j :: z <= j < nCol ==> t.anEq[j] != 0
    ensures AllOk(chg, ids, nCol, a + [t], lvl) && NoZeroFrom(a + [t], nCol, z)
    ensures Periodic(a + [t]) == Periodic(a) + (if t.isPSample then 1 else 0)
  {
    AllOkAppend(chg, ids, nCol, a, lvl, t);
    PeriodicConcat(a, [t]);
    assert Periodic([t]) == if t.isPSample then 1 else 0 by { assert [t][..0] == []; }
  }

  /** What the search through the kept samples for one that shares the prefix of s finds. */
  datatype Sharer = NoSharer | PeriodicSharer | BestSharer(k: nat)

  /** Sample k shares the prefix of a candidate in column i, which is still open. */
  ghost predicate Shares(a: seq<Sample>, i: nat, k: int) { 0 <= k < |a| && i < |a[k].anEq| && a[k].anEq[i] == 0 }

  /** No sample that shares the prefix is better than sample k, and none is periodic. */
  ghost predicate BestSharerAt(a: seq<Sample>, i: nat, nCol: nat, k: nat)
    requires forall l :: 0 <= l < |a| ==> |a[l].anEq| == nCol && a[l].iCol < nCol
  {
    Shares(a, i, k) && forall l :: Shares(a, i, l) ==> !a[l].isPSample && !Better(a[l], a[k])
  }

  /** The first loop of sampleInsert: the best kept sample in the group of candidate s, unless the
      group holds a periodic sample. */
  method FindSharer(ghost chg: seq<nat>, ghost ids: seq<int>, nCol: nat, a: seq<Sample>, s: Sample, i: nat)
    returns (r: Sharer)
    requires CandidateOk(chg, ids, nCol, s, i) && s.anEq[i] == Count(chg, Row(s), i) && AllOk(chg, ids, nCol, a, i + 1)
    ensures forall l :: 0 <= l < |a| ==> |a[l].anEq| == nCol && a[l].iCol < nCol
    ensures r.NoSharer? ==> (forall k :: 0 <= k < |a| ==> Row(a[k]) < Row(s)) && forall l :: !Shares(a, i, l)
    ensures r.PeriodicSharer? ==> exists k :: Shares(a, i, k) && a[k].isPSample
    ensures r.BestSharer? ==> BestSharerAt(a, i, nCol, r.k)
  {
    LengthsOk(chg, ids, nCol, a, i + 1);
    var best := -1;
    var k := |a|;
    while k > 0
      invariant 0 <= k <= |a|
      invariant best < 0 ==> forall l :: k <= l < |a| ==> a[l].anEq[i] != 0
      invariant best >= 0 ==> k <= best < |a| && a[best].anEq[i] == 0
      invariant forall l :: k <= l < |a| && a[l].anEq[i] == 0 ==> !a[l].isPSample && best >= 0 && !Better(a[l], a[best])
    {
      k := k - 1;
      if a[k].anEq[i] == 0 {
        assert EqEntryOk(chg, a[k], i + 1, i);
        if a[k].isPSample {
          assert Shares(a, i, k);
          return PeriodicSharer;
        }
        SharerIsWorse(chg, ids, nCol, a[k], s, i);
        assert a[k].iCol > i && Better(s, a[k]);
        NotBetterSelf(a[k]);
        if best < 0 || Better(a[k], a[best]) {
          NoneBetter(a, nCol, i, k, best);
          best := k;
        }
      }
    }
    if best >= 0 { return BestSharer(best); }
    NoSharers(chg, ids, nCol, a, s, i);
    return NoSharer;
  }

  lemma NoneBetter(a: seq<Sample>, nCol: nat, i: nat, k: nat, best: int)
    requires forall l :: 0 <= l < |a| ==> |a[l].anEq| == nCol && a[l].iCol < nCol
    requires k < |a| && i < nCol && (best >= 0 ==> best < |a| && Better(a[k], a[best]))
    requires forall l :: k < l < |a| && a[l].anEq[i] == 0 ==> best >= 0 && !Better(a[l], a[best])
    ensures forall l :: k < l < |a| && a[l].anEq[i] == 0 ==> !Better(a[l], a[k])
  {
    forall l | k < l < |a| && a[l].anEq[i] == 0 && Better(a[l], a[k]) ensures false {
      BetterTransitive(a[l], a[k], a[best]);
    }
  }

  // ----- What an insertion does to the kept samples

  /** The samples that stay when room is needed for one more. */
  function Evicted(a: seq<Sample>, m: int, mx: nat): seq<Sample> {
    if |a| >= mx && 0 <= m < |a| then a[..m] + a[m + 1..] else a
  }

  /** The result of sampleInsert: nothing, an upgrade of the best sharer, or a new last sample. */
  ghost predicate Inserted(a0: seq<Sample>, m: int, mx: nat, s: Sample, z: nat, a: seq<Sample>)
    requires z <= |s.anEq|
  {
    if !s.isPSample && exists k :: Shares(a0, z, k) && a0[k].isPSample then a == a0
    else if !s.isPSample && exists k :: Shares(a0, z, k) then exists k :: UpgradedAt(a0, z, s, k, a)
    else a == Evicted(a0, m, mx) + [ZeroFirst(s, z)]
  }

  ghost predicate UpgradedAt(a0: seq<Sample>, z: nat, s: Sample, k: nat, a: seq<Sample>) {
    && Shares(a0, z, k) && s.iCol < |s.anEq| == |a0[k].anEq|
    && (forall l :: 0 <= l < |a0| ==> |a0[l].anEq| == |s.anEq| && a0[l].iCol < |s.anEq|)
    && BestSharerAt(a0, z, |s.anEq|, k) && a == a0[k := Upgrade(a0[k], s)]
  }

  lemma SharesAt(a: seq<Sample>, i: nat, nCol: nat, k: nat)
    requires (forall l :: 0 <= l < |a| ==> |a[l].anEq| == nCol && a[l].iCol < nCol) && BestSharerAt(a, i, nCol, k)
    ensures k < |a| && !a[k].isPSample && i < nCol && a[k].anEq[i] == 0
  {
  }

  lemma InsertedNothing(a: seq<Sample>, m: int, mx: nat, s: Sample, z: nat)
    requires z <= |s.anEq| && !s.isPSample && exists k :: Shares(a, z, k) && a[k].isPSample
    ensures Inserted(a, m, mx, s, z, a)
  {
  }

  lemma InsertedUpgrade(a: seq<Sample>, m: int, mx: nat, s: Sample, z: nat, k: nat)
    requires z <= |s.anEq| && !s.isPSample && s.iCol < |s.anEq| && k < |a|
    requires (forall l :: 0 <= l < |a| ==> |a[l].anEq| == |s.anEq| && a[l].iCol < |s.anEq|)
             && BestSharerAt(a, z, |s.anEq|, k)
    ensures Inserted(a, m, mx, s, z, a[k := Upgrade(a[k], s)])
  {
    hide Better;
    assert UpgradedAt(a, z, s, k, a[k := Upgrade(a[k], s)]);
  }

  lemma InsertedNew(a: seq<Sample>, m: int, mx: nat, s: Sample, z: nat)
    requires z <= |s.anEq| && (s.isPSample || forall k :: !Shares(a, z, k))
    ensures Inserted(a, m, mx, s, z, Evicted(a, m, mx) + [ZeroFirst(s, z)])
  {
  }

  /** Row r is kept as a periodic sample. */
  ghost predicate HasPeriodic(a: seq<Sample>, r: nat) {
    exists k :: 0 <= k < |a| && a[k].isPSample && a[k].anLt != [] && Row(a[k]) == r
  }

  ghost predicate KeepsPeriodic(a0: seq<Sample>, a: seq<Sample>) {
    forall r: nat :: HasPeriodic(a0, r) <==> HasPeriodic(a, r)
  }

  /** Row n is kept as a periodic sample beside those that were before. */
  ghost predicate AddsPeriodic(a0: seq<Sample>, a: seq<Sample>, n: nat) {
    forall r: nat :: HasPeriodic(a, r) <==> HasPeriodic(a0, r) || r == n
  }

  /** An insertion never loses a periodic sample, and adds the one it is called for. */
  lemma InsertedKeeps(a0: seq<Sample>, m: int, mx: nat, s: Sample, z: nat, a: seq<Sample>)
    requires z <= |s.anEq| && Inserted(a0, m, mx, s, z, a) && (|a0| >= mx && 0 <= m < |a0| ==> !a0[m].isPSample)
    ensures if s.isPSample then s.anLt != [] ==> AddsPeriodic(a0, a, Row(s)) else KeepsPeriodic(a0, a)
  {
    hide UpgradedAt, HasPeriodic, KeepsPeriodic, AddsPeriodic, Evicted, ZeroFirst;
    if !s.isPSample && exists k :: Shares(a0, z, k) && a0[k].isPSample {
      KeepsSame(a0);
    } else if !s.isPSample && exists k :: Shares(a0, z, k) {
      var k :| UpgradedAt(a0, z, s, k, a);
      UpgradedKeeps(a0, z, s, k, a);
    } else {
      EvictedKeeps(a0, m, mx, s, z);
    }
  }

  lemma UpgradedKeeps(a0: seq<Sample>, z: nat, s: Sample, k: nat, a: seq<Sample>)
    requires UpgradedAt(a0, z, s, k, a)
    ensures KeepsPeriodic(a0, a)
  {
    hide Better, BestSharerAt;
    assert |a| == |a0| && forall l :: 0 <= l < |a| ==> a[l].isPSample == a0[l].isPSample && a[l].anLt == a0[l].anLt;
    SamePeriodic(a0, a);
  }

  lemma EvictedKeeps(a0: seq<Sample>, m: int, mx: nat, s: Sample, z: nat)
    requires z <= |s.anEq| && (|a0| >= mx && 0 <= m < |a0| ==> !a0[m].isPSample)
    ensures var a := Evicted(a0, m, mx) + [ZeroFirst(s, z)];
            if s.isPSample then s.anLt != [] ==> AddsPeriodic(a0, a, Row(s)) else KeepsPeriodic(a0, a)
  {
    hide ZeroFirst, HasPeriodic, Evicted;
    EvictedSame(a0, m, mx);
    forall r: nat { AppendPeriodic(Evicted(a0, m, mx), ZeroFirst(s, z), r); }
  }

  lemma EvictedSame(a0: seq<Sample>, m: int, mx: nat)
    requires |a0| >= mx && 0 <= m < |a0| ==> !a0[m].isPSample
    ensures KeepsPeriodic(a0, Evicted(a0, m, mx))
  {
    var a := Evicted(a0, m, mx);
    forall r: nat | HasPeriodic(a0, r) ensures HasPeriodic(a, r) {
      var k :| 0 <= k < |a0| && a0[k].isPSample && a0[k].anLt != [] && Row(a0[k]) == r;
      assert a[if |a0| >= mx && 0 <= m < k then k - 1 else k] == a0[k];
    }
    forall r: nat | HasPeriodic(a, r) ensures HasPeriodic(a0, r) {
      var k :| 0 <= k < |a| && a[k].isPSample && a[k].anLt != [] && Row(a[k]) == r;
      assert a0[if |a0| >= mx && 0 <= m <= k then k + 1 else k] == a[k];
    }
  }

  lemma AppendPeriodic(a: seq<Sample>, t: Sample, r: nat)
    ensures HasPeriodic(a + [t], r) <==> HasPeriodic(a, r) || (t.isPSample && t.anLt != [] && Row(t) == r)
  {
    var b := a + [t];
    assert b[|a|] == t;
    if HasPeriodic(a, r) {
      var k :| 0 <= k < |a| && a[k].isPSample && a[k].anLt != [] && Row(a[k]) == r;
      assert b[k] == a[k];
    }
  }

  lemma SamePeriodic(a: seq<Sample>, b: seq<Sample>)
    requires |b| == |a| && forall k :: 0 <= k < |a| ==> b[k].isPSample == a[k].isPSample && b[k].anLt == a[k].anLt
    ensures KeepsPeriodic(a, b)
  {
    forall r | HasPeriodic(a, r) ensures HasPeriodic(b, r) {
      var k :| 0 <= k < |a| && a[k].isPSample && a[k].anLt != [] && Row(a[k]) == r;
      assert b[k].isPSample && b[k].anLt == a[k].anLt;
    }
    forall r | HasPeriodic(b, r) ensures HasPeriodic(a, r) {
      var k :| 0 <= k < |b| && b[k].isPSample && b[k].anLt != [] && Row(b[k]) == r;
      assert a[k].isPSample && a[k].anLt == b[k].anLt;
    }
  }

  lemma KeepsSame(a: seq<Sample>)
    ensures KeepsPeriodic(a, a)
  {
  }

  lemma FillKeeps(a: seq<Sample>, cur: Sample, c: nat)
    requires forall k :: 0 <= k < |a| ==> |a[k].anEq| == |cur.anEq|
    ensures KeepsPeriodic(a, FillAll(a, cur, c))
  {
    SamePeriodic(a, FillAll(a, cur, c));
  }

  lemma KeepsTransitive(a: seq<Sample>, b: seq<Sample>, c: seq<Sample>)
    requires KeepsPeriodic(a, b) && KeepsPeriodic(b, c)
    ensures KeepsPeriodic(a, c)
  {
  }

  lemma KeptAt(chg: seq<nat>, ids: seq<int>, nCol: nat, a: seq<Sample>, lvl: nat, k: nat)
    requires AllOk(chg, ids, nCol, a, lvl) && k < |a|
    ensures KeptOk(chg, ids, nCol, a[k], lvl)
  {
  }

  lemma LengthsOk(chg: seq<nat>, ids: seq<int>, nCol: nat, a: seq<Sample>, lvl: nat)
    requires AllOk(chg, ids, nCol, a, lvl)
    ensures forall k :: 0 <= k < |a| ==> |a[k].anEq| == |a[k].anLt| == nCol > 0 && a[k].iCol < nCol && Row(a[k]) < |chg|
  {
    forall k | 0 <= k < |a| ensures |a[k].anEq| == |a[k].anLt| == nCol > 0 && a[k].iCol < nCol && Row(a[k]) < |chg| {
      KeptAt(chg, ids, nCol, a, lvl, k);
    }
  }

  // ----- A new row

  /** The current row: all its counts are those of the scan so far. */
  ghost predicate CurrentOk(chg: seq<nat>, ids: seq<int>, nCol: nat, s: Sample) {
    && SampleOk(chg, ids, nCol, s) && Row(s) == |chg| - 1
    && forall j :: 0 <= j < nCol ==> s.anEq[j] == Count(chg, |chg| - 1, j)
  }

  ghost predicate Columns(chg: seq<nat>, nCol: nat) { forall q :: 0 <= q < |chg| ==> chg[q] < nCol }

  /** A candidate gets the size of its group from the current row. */
  lemma CandidateCount(chg: seq<nat>, ids: seq<int>, nCol: nat, best: Sample, cur: Sample, i: nat)
    requires CandidateOk(chg, ids, nCol, best, i) && CurrentOk(chg, ids, nCol, cur)
    ensures var best' := best.(anEq := best.anEq[i := cur.anEq[i]]);
            NewOk(chg, ids, nCol, best', i) && CandidateOk(chg, ids, nCol, best', i)
  {
    OpenRows(chg, Row(best), i);
    LastRow(chg, i);
  }

  /** The sample with its zero entries from column c on filled in from the current row. */
  function Fill(s: Sample, cur: Sample, c: nat): (t: Sample)
    requires |s.anEq| == |cur.anEq|
    ensures |t.anEq| == |s.anEq| && t.anLt == s.anLt && t.isPSample == s.isPSample && t.iCol == s.iCol
  {
    s.(anEq := seq(|s.anEq|, j requires 0 <= j < |s.anEq| => if j >= c
        && s.anEq[j] == 0 then cur.anEq[j] else s.anEq[j]))
  }

  function FillAll(a: seq<Sample>, cur: Sample, c: nat): (b: seq<Sample>)
    requires forall k :: 0 <= k < |a| ==> |a[k].anEq| == |cur.anEq|
    ensures |b| == |a| && forall k :: 0 <= k < |a| ==> b[k] == Fill(a[k], cur, c)
  {
    seq(|a|, k requires 0 <= k < |a| => Fill(a[k], cur, c))
  }

  lemma FillOk(chg: seq<nat>, ids: seq<int>, nCol: nat, s: Sample, cur: Sample, c: nat)
    requires KeptOk(chg, ids, nCol, s, c) && CurrentOk(chg, ids, nCol, cur)
    ensures KeptOk(chg, ids, nCol, Fill(s, cur, c), c)
    ensures forall j :: c <= j < nCol ==> Fill(s, cur, c).anEq[j] != 0
  {
    var t := Fill(s, cur, c);
    forall j | 0 <= j < nCol ensures EqEntryOk(chg, t, c, j) && (j >= c ==> t.anEq[j] != 0) {
      assert EqEntryOk(chg, s, c, j);
      if j >= c && s.anEq[j] == 0 {
        OpenRows(chg, Row(s), j);
        LastRow(chg, j);
      }
    }
  }

  lemma {:induction false} FillPeriodic(a: seq<Sample>, cur: Sample, c: nat)
    requires forall k :: 0 <= k < |a| ==> |a[k].anEq| == |cur.anEq|
    ensures Periodic(FillAll(a, cur, c)) == Periodic(a)
  {
    if a != [] {
      var n := |a| - 1;
      FillPeriodic(a[..n], cur, c);
      assert FillAll(a, cur, c)[..n] == FillAll(a[..n], cur, c);
    }
  }

  lemma FillAllOk(chg: seq<nat>, ids: seq<int>, nCol: nat, a: seq<Sample>, cur: Sample, c: nat)
    requires AllOk(chg, ids, nCol, a, c) && CurrentOk(chg, ids, nCol, cur)
    ensures (forall k :: 0 <= k < |a| ==> |a[k].anEq| == |cur.anEq|)
    ensures var b := FillAll(a, cur, c);
            AllOk(chg, ids, nCol, b, c) && NoZeroFrom(b, nCol, c) && Periodic(b) == Periodic(a)
  {
    assert forall k :: 0 <= k < |a| ==> |a[k].anEq| == |cur.anEq|;
    FillPeriodic(a, cur, c);
    var b := FillAll(a, cur, c);
    forall k | 0 <= k < |b| ensures KeptOk(chg, ids, nCol, b[k], c) && forall j :: c <= j < nCol ==> b[k].anEq[j] != 0 {
      FillOk(chg, ids, nCol, a[k], cur, c);
    }
  }

  /** A row that changes column c closes the levels from c on; the levels before stay open. */
  lemma CloseLevels(chg: seq<nat>, ids: seq<int>, nCol: nat, a: seq<Sample>, c: nat, id: int)
    requires AllOk(chg, ids, nCol, a, c) && NoZeroFrom(a, nCol, c) && nCol > 0
    ensures AllOk(chg + [c], ids + [id], nCol, a, nCol - 1)
  {
    forall k | 0 <= k < |a| ensures KeptOk(chg + [c], ids + [id], nCol, a[k], nCol - 1) {
      CloseSample(chg, ids, nCol, a[k], c, id) by { assert forall j :: c <= j < nCol ==> a[k].anEq[j] != 0; }
    }
  }

  lemma CloseSample(chg: seq<nat>, ids: seq<int>, nCol: nat, s: Sample, c: nat, id: int)
    requires KeptOk(chg, ids, nCol, s, c) && forall j :: c <= j < nCol ==> s.anEq[j] != 0
    ensures KeptOk(chg + [c], ids + [id], nCol, s, nCol - 1)
  {
    hide Start, Before, End, Count, Open;
    var chg', lvl := chg + [c], nCol - 1;
    forall j | 0 <= j < nCol
      ensures EqEntryOk(chg', s, lvl, j)
      ensures s.anLt[j] == Start(chg', Row(s), j) && s.anDLt[j] == Before(chg', Row(s), j)
    {
      GroupExtend(chg, c, Row(s), j);
      assert EqEntryOk(chg, s, c, j);
    }
    assert KeptOk(chg', ids + [id], nCol, s, lvl);
  }

  /** The counters of the new row. */
  function Advance(cur: Sample, c: nat, id: int, hash: nat): (s: Sample)
    requires |cur.anEq| == |cur.anLt| == |cur.anDLt|
    ensures |s.anEq| == |s.anLt| == |s.anDLt| == |cur.anEq|
  {
    var n := |cur.anEq|;
    Sample(seq(n, j requires 0 <= j < n => if j < c then cur.anEq[j] + 1 else 1),
           seq(n, j requires 0 <= j < n => if j < c then cur.anLt[j] else cur.anLt[j] + cur.anEq[j]),
           seq(n, j requires 0 <= j < n => if j < c then cur.anDLt[j] else cur.anDLt[j] + 1),
           id, false, cur.iCol, hash)
  }

  lemma AdvanceOk(chg: seq<nat>, ids: seq<int>, nCol: nat, cur: Sample, c: nat, id: int, hash: nat)
    requires CurrentOk(chg, ids, nCol, cur) && c < nCol
    ensures CurrentOk(chg + [c], ids + [id], nCol, Advance(cur, c, id, hash))
  {
    hide Start, Before, End;
    var s, n := Advance(cur, c, id, hash), |chg|;
    forall j | 0 <= j < nCol
      ensures s.anLt[j] == Start(chg + [c], n, j) && s.anDLt[j] == Before(chg + [c], n, j)
      ensures s.anEq[j] == Count(chg + [c], n, j)
    {
      NewRow(chg, c, j);
      LastRow(chg, j);
      LastRow(chg + [c], j);
    }
  }

  /** A candidate that the new row does not replace keeps exact counts: had one of its groups grown,
      the new row would have been the better candidate. */
  lemma BestStays(chg: seq<nat>, ids: seq<int>, nCol: nat, best: Sample, cur: Sample, i: nat, c: nat, id: int)
    requires CandidateOk(chg, ids, nCol, best, i) && i < c
    requires CurrentOk(chg + [c], ids + [id], nCol, cur)
    requires !BetterPost(cur, best, i + 1)
    ensures CandidateOk(chg + [c], ids + [id], nCol, best, i)
  {
    hide Start, Before, End;
    var r, chg' := Row(best), chg + [c];
    GroupExtend(chg, c, r, i);
    forall j | 0 <= j < nCol
      ensures best.anLt[j] == Start(chg', r, j) && best.anDLt[j] == Before(chg', r, j)
      ensures j > i ==> best.anEq[j] == Count(chg', r, j)
    {
      GroupExtend(chg, c, r, j);
      GroupExtend(chg, c, r, i + 1);
      if j > i { Nested(chg', r, i + 1, j); }
      OpenRows(chg', r, i + 1);
      LastRow(chg', i + 1);
    }
  }

  /** The row of a sample lies in the largest part of the open group of column i, when that is divided by the
      next column. */
  ghost predicate InLargest(chg: seq<nat>, s: Sample, i: nat) {
    && s.anLt != [] && Row(s) < |chg|
    && forall r :: 0 <= r < |chg| && Open(chg, r, i) ==> Count(chg, r, i + 1) <= Count(chg, Row(s), i + 1)
  }

  /** The group that the new row starts is its own largest part. */
  lemma LargestAlone(chg: seq<nat>, c: nat, cur: Sample, i: nat)
    requires (c <= i || chg == []) && cur.anLt != [] && Row(cur) == |chg|
    ensures InLargest(chg + [c], cur, i)
  {
    if chg != [] {
      forall r | 0 <= r < |chg| ensures !Open(chg + [c], r, i) { GroupExtend(chg, c, r, i); }
    }
  }

  /** What a new row does to the sizes of the parts: that of the new row grows, the others stay. */
  lemma PartSize(chg: seq<nat>, c: nat, r: nat, i: nat)
    requires r < |chg| && Open(chg + [c], r, i)
    ensures Open(chg, r, i)
    ensures Count(chg + [c], r, i + 1) == Count(chg, r, i + 1)
            || Count(chg + [c], r, i + 1) == Count(chg + [c], |chg|, i + 1)
  {
    hide Start, End, Before, Count;
    var chg' := chg + [c];
    GroupExtend(chg, c, r, i);
    GroupExtend(chg, c, r, i + 1);
    if Open(chg', r, i + 1) {
      OpenRows(chg', r, i + 1);
      LastRow(chg', i + 1);
      SameSize(chg', r, |chg|, i + 1);
    }
  }

  lemma LargestReplaced(chg: seq<nat>, ids: seq<int>, nCol: nat, best: Sample, cur: Sample, i: nat, c: nat, id: int)
    requires CandidateOk(chg, ids, nCol, best, i) && InLargest(chg, best, i)
    requires CurrentOk(chg + [c], ids + [id], nCol, cur) && BetterPost(cur, best, i + 1)
    ensures InLargest(chg + [c], cur, i)
  {
    hide Start, End, Before, Count, Open;
    var chg' := chg + [c];
    assert Count(chg, Row(best), i + 1) == best.anEq[i + 1] <= cur.anEq[i + 1] == Count(chg', |chg|, i + 1);
    forall r | 0 <= r < |chg'| && Open(chg', r, i) ensures Count(chg', r, i + 1) <= Count(chg', |chg|, i + 1) {
      if r < |chg| { PartSize(chg, c, r, i); }
    }
  }

  lemma LargestStays(chg: seq<nat>, ids: seq<int>, nCol: nat, best: Sample, cur: Sample, i: nat, c: nat, id: int)
    requires CandidateOk(chg, ids, nCol, best, i) && InLargest(chg, best, i)
    requires CandidateOk(chg + [c], ids + [id], nCol, best, i)
    requires CurrentOk(chg + [c], ids + [id], nCol, cur) && !BetterPost(cur, best, i + 1)
    ensures InLargest(chg + [c], best, i)
  {
    hide Start, End, Before, Count, Open;
    var chg' := chg + [c];
    assert Count(chg', |chg|, i + 1) == cur.anEq[i + 1] <= best.anEq[i + 1];
    assert best.anEq[i + 1] == Count(chg, Row(best), i + 1) == Count(chg', Row(best), i + 1);
    forall r | 0 <= r < |chg'| && Open(chg', r, i) ensures Count(chg', r, i + 1) <= Count(chg', Row(best), i + 1) {
      if r < |chg| { PartSize(chg, c, r, i); }
    }
  }

  /** The current row as a candidate for column i. */
  lemma CurrentIsCandidate(chg: seq<nat>, ids: seq<int>, nCol: nat, cur: Sample, i: nat)
    requires CurrentOk(chg, ids, nCol, cur) && i + 1 < nCol && !cur.isPSample
    ensures CandidateOk(chg, ids, nCol, cur.(iCol := i), i)
  {
    LastRow(chg, i);
  }

  // ----- No sample is passed over for a worse one

  /** Sample s represents the open group of column lvl in such a way that no other sample of that group
      can be upgraded at a lower level. */
  ghost predicate Covers(chg: seq<nat>, s: Sample, lvl: nat) {
    s.anLt != [] && Row(s) < |chg| && Open(chg, Row(s), lvl) && (s.isPSample || s.iCol == lvl)
  }

  /** While levels are being closed, from the deepest down to lvl: if some sample of the open group of
      column lvl has been passed over, another one represents that group. */
  ghost predicate Covered(chg: seq<nat>, a: seq<Sample>, lvl: nat) {
    || (exists p :: 0 <= p < |a| && Covers(chg, a[p], lvl))
    || (forall k :: 0 <= k < |a| && !a[k].isPSample && lvl < |a[k].anEq| ==> a[k].anEq[lvl] != 0)
  }

  lemma CoveredAtTop(chg: seq<nat>, ids: seq<int>, nCol: nat, a: seq<Sample>, lvl: nat)
    requires AllOk(chg, ids, nCol, a, lvl) && nCol > 0
    ensures Covered(chg, a, nCol - 1)
  {
    forall k | 0 <= k < |a| ensures |a[k].anEq| == nCol && a[k].anEq[nCol - 1] != 0 {
      KeptAt(chg, ids, nCol, a, lvl, k);
    }
  }

  /** A sample that was passed over at level i + 1 is not the best sharer at level i. */
  lemma NotPassedOver(chg: seq<nat>, ids: seq<int>, nCol: nat, a: seq<Sample>, s: Sample, i: nat, k: nat)
    requires CandidateOk(chg, ids, nCol, s, i) && AllOk(chg, ids, nCol, a, i + 1) && Covered(chg, a, i + 1)
    requires (forall l :: 0 <= l < |a| ==> |a[l].anEq| == nCol && a[l].iCol < nCol) && BestSharerAt(a, i, nCol, k)
    ensures a[k].anEq[i + 1] != 0
  {
    hide AllOk, Better, Start, End;
    KeptAt(chg, ids, nCol, a, i + 1, k);
    if a[k].anEq[i + 1] == 0 {
      assert Shares(a, i, k) && !a[k].isPSample;
      var p :| 0 <= p < |a| && Covers(chg, a[p], i + 1);
      KeptAt(chg, ids, nCol, a, i + 1, p);
      Nested(chg, Row(a[p]), i, i + 1);
      assert EqEntryOk(chg, a[p], i + 1, i);
      assert Shares(a, i, p);
      CoveringIsBetter(chg, ids, nCol, a[p], a[k], i + 1);
    }
  }

  lemma CoveringIsBetter(chg: seq<nat>, ids: seq<int>, nCol: nat, p: Sample, t: Sample, lvl: nat)
    requires KeptOk(chg, ids, nCol, p, lvl) && KeptOk(chg, ids, nCol, t, lvl) && lvl < nCol
    requires !p.isPSample && !t.isPSample && Open(chg, Row(p), lvl) && p.iCol == lvl && t.anEq[lvl] == 0
    ensures Better(p, t)
  {
    assert EqEntryOk(chg, p, lvl, lvl) && EqEntryOk(chg, t, lvl, lvl) && EqEntryOk(chg, t, lvl, t.iCol);
    OpenRows(chg, Row(p), lvl);
    OpenRows(chg, Row(t), lvl);
    assert t.iCol > lvl;
    Nested(chg, Row(t), lvl, t.iCol);
  }

  /** If a sample shares the prefix of a candidate and none such is periodic, the candidate is better than
      the worst sample: it is always offered. */
  lemma AlwaysOffered(chg: seq<nat>, ids: seq<int>, nCol: nat, a: seq<Sample>, m: int, s: Sample, i: nat, k: nat)
    requires CandidateOk(chg, ids, nCol, s, i) && s.anEq[i] == Count(chg, Row(s), i)
    requires AllOk(chg, ids, nCol, a, i + 1) && IsWorst(a, m, nCol) && k < |a| && !a[k].isPSample && a[k].anEq[i] == 0
    ensures Better(s, a[m])
  {
    hide AllOk, Better, Start, End;
    KeptAt(chg, ids, nCol, a, i + 1, k);
    SharerIsWorse(chg, ids, nCol, a[k], s, i);
    if !Better(s, a[m]) { NotBetterTransitive(s, a[m], a[k]); }
  }

  // ----- The kept samples represent the largest groups

  ghost predicate InGroup(chg: seq<nat>, s: Sample, r: nat, i: nat)
    requires r < |chg|
  {
    s.anLt != [] && Row(s) < |chg| && Start(chg, Row(s), i) == Start(chg, r, i)
  }

  /** Sample s represents the group of row r in column i, as a periodic sample or for its size. */
  ghost predicate Holds(chg: seq<nat>, s: Sample, r: nat, i: nat)
    requires r < |chg|
  {
    InGroup(chg, s, r, i) && (s.isPSample || s.iCol <= i)
  }

  ghost predicate Held(chg: seq<nat>, a: seq<Sample>, r: nat, i: nat)
    requires r < |chg|
  {
    exists k :: 0 <= k < |a| && Holds(chg, a[k], r, i)
  }

  /** The group for which sample t was kept has more than n rows, or n rows and no longer prefix. */
  predicate AtMost(n: nat, i: nat, t: Sample) {
    t.iCol < |t.anEq| && (n < t.anEq[t.iCol] || (n == t.anEq[t.iCol] && t.iCol <= i))
  }

  /** There is no room for a group of n rows in column i: all samples represent groups at least as large. */
  ghost predicate Outranked(a: seq<Sample>, mx: nat, n: nat, i: nat) {
    |a| >= mx && forall k :: 0 <= k < |a| && !a[k].isPSample ==> AtMost(n, i, a[k])
  }

  ghost predicate Settled(chg: seq<nat>, a: seq<Sample>, mx: nat, r: nat, i: nat)
    requires r < |chg|
  {
    Held(chg, a, r, i) || Outranked(a, mx, Count(chg, r, i), i)
  }

  /** All groups that are closed or about to be closed. */
  ghost predicate AllSettled(chg: seq<nat>, nCol: nat, a: seq<Sample>, mx: nat, lvl: nat) {
    forall r, i :: 0 <= r < |chg| && 0 <= i < nCol - 1 && (i >= lvl || !Open(chg, r, i)) ==> Settled(chg, a, mx, r, i)
  }

  /** Rows with the same start are in the same group. */
  lemma {:induction false} SameStart(chg: seq<nat>, r: nat, q: nat, i: nat)
    requires r <= q < |chg| && Start(chg, r, i) == Start(chg, q, i)
    ensures End(chg, r, i) == End(chg, q, i)
    decreases q - r
  {
    if r < q {
      StartBelow(chg, r, i);
      StartHere(chg, q, i);
      if chg[q] > i { SameStart(chg, r, q - 1, i); }
    }
  }

  lemma StartHere(chg: seq<nat>, r: nat, i: nat)
    requires r < |chg|
    ensures chg[r] <= i ==> Start(chg, r, i) == r
  {
  }

  lemma {:induction false} StartBelow(chg: seq<nat>, r: nat, i: nat)
    requires r < |chg|
    ensures Start(chg, r, i) <= r
  {
  }

  lemma SameSize(chg: seq<nat>, r: nat, q: nat, i: nat)
    requires r < |chg| && q < |chg| && Start(chg, r, i) == Start(chg, q, i)
    ensures Count(chg, r, i) == Count(chg, q, i)
  {
    if r <= q { SameStart(chg, r, q, i); } else { SameStart(chg, q, r, i); }
  }

  /** A sample that represents a group for its size ranks at least as high as the group. */
  lemma HolderRanks(chg: seq<nat>, ids: seq<int>, nCol: nat, s: Sample, lvl: nat, r: nat, i: nat)
    requires KeptOk(chg, ids, nCol, s, lvl) && !s.isPSample && r < |chg| && Holds(chg, s, r, i)
    ensures AtMost(Count(chg, r, i), i, s)
  {
    hide Start, End;
    SameSize(chg, Row(s), r, i);
    assert EqEntryOk(chg, s, lvl, s.iCol);
    Nested(chg, Row(s), s.iCol, i);
  }

  lemma RanksUp(n: nat, i: nat, x: Sample, t: Sample)
    requires AtMost(n, i, x) && |x.anEq| == |t.anEq| && t.iCol < |t.anEq| && !Better(x, t)
    ensures AtMost(n, i, t)
  {
  }

  lemma BetterIsNotWorse(x: Sample, t: Sample)
    requires |x.anEq| == |t.anEq| && t.iCol < |t.anEq| && x.iCol < |x.anEq| && Better(x, t)
    ensures !Better(t, x)
  {
    if Better(t, x) { BetterTransitive(x, t, x); NotBetterSelf(x); }
  }

  /** What a caller of sampleInsert knows of the samples and of the new one. */
  ghost predicate InsertOk(chg: seq<nat>, ids: seq<int>, nCol: nat, a0: seq<Sample>, m: int, mx: nat, s: Sample,
                           z: nat, lvl: nat) {
    && AllOk(chg, ids, nCol, a0, lvl) && |a0| <= mx && |s.anEq| == nCol && s.iCol < nCol && z < nCol
    && (!s.isPSample ==>
         s.iCol == z && lvl == z + 1 && CandidateOk(chg, ids, nCol, s, z) && s.anEq[z] == Count(chg, Row(s), z))
    && (|a0| == mx ==> IsWorst(a0, m, nCol) && (s.isPSample || Better(s, a0[m])))
  }

  /** An insertion leaves settled what was settled. */
  lemma SettledInserted(chg: seq<nat>, ids: seq<int>, nCol: nat, a0: seq<Sample>, m: int, mx: nat, s: Sample, z: nat,
                        lvl: nat, a: seq<Sample>, r: nat, i: nat)
    requires InsertOk(chg, ids, nCol, a0, m, mx, s, z, lvl) && Inserted(a0, m, mx, s, z, a)
    requires r < |chg| && Settled(chg, a0, mx, r, i)
    ensures Settled(chg, a, mx, r, i)
  {
    hide AllOk, UpgradedAt, Evicted, ZeroFirst, Settled, CandidateOk, IsWorst, Better;
    if !s.isPSample && exists k :: Shares(a0, z, k) && a0[k].isPSample {
    } else if !s.isPSample && exists k :: Shares(a0, z, k) {
      var k :| UpgradedAt(a0, z, s, k, a);
      SettledUpgraded(chg, ids, nCol, a0, mx, s, z, k, a, r, i);
    } else {
      SettledEvicted(chg, ids, nCol, a0, m, mx, s, z, lvl, r, i);
    }
  }

  lemma SettledUpgraded(chg: seq<nat>, ids: seq<int>, nCol: nat, a0: seq<Sample>, mx: nat, s: Sample, z: nat, k: nat,
                        a: seq<Sample>, r: nat, i: nat)
    requires CandidateOk(chg, ids, nCol, s, z) && s.anEq[z] == Count(chg, Row(s), z) && AllOk(chg, ids, nCol, a0, z + 1)
    requires !s.isPSample && UpgradedAt(a0, z, s, k, a) && r < |chg| && Settled(chg, a0, mx, r, i)
    ensures Settled(chg, a, mx, r, i)
  {
    hide AllOk, CandidateOk, Start, End, Better;
    SharesAt(a0, z, |s.anEq|, k);
    KeptAt(chg, ids, nCol, a0, z + 1, k);
    assert s.iCol == z by { NewIsAt(chg, ids, nCol, s, z); }
    SharerIsWorse(chg, ids, nCol, a0[k], s, z);
    if Held(chg, a0, r, i) {
      var l :| 0 <= l < |a0| && Holds(chg, a0[l], r, i);
      assert Holds(chg, a[l], r, i);
    } else {
      UpgradeRanks(Count(chg, r, i), i, a0[k], s);
      assert forall l :: 0 <= l < |a| && l != k ==> a[l] == a0[l];
    }
  }

  lemma NewIsAt(chg: seq<nat>, ids: seq<int>, nCol: nat, s: Sample, z: nat)
    requires CandidateOk(chg, ids, nCol, s, z)
    ensures s.iCol == z < |s.anEq| == nCol
  {
  }

  lemma UpgradeRanks(n: nat, i: nat, t: Sample, s: Sample)
    requires AtMost(n, i, t) && |s.anEq| == |t.anEq| && s.iCol < |s.anEq| && Better(s, t)
    ensures AtMost(n, i, Upgrade(t, s))
  {
  }

  lemma SettledEvicted(chg: seq<nat>, ids: seq<int>, nCol: nat, a0: seq<Sample>, m: int, mx: nat, s: Sample, z: nat,
                       lvl: nat, r: nat, i: nat)
    requires InsertOk(chg, ids, nCol, a0, m, mx, s, z, lvl) && r < |chg| && Settled(chg, a0, mx, r, i)
    ensures Settled(chg, Evicted(a0, m, mx) + [ZeroFirst(s, z)], mx, r, i)
  {
    hide AllOk, CandidateOk, Start, End, Better, ZeroFirst, IsWorst;
    var a := Evicted(a0, m, mx) + [ZeroFirst(s, z)];
    if |a0| == mx { WorstIsNotPeriodic(a0, m, nCol); }
    if l :| 0 <= l < |a0| && (|a0| < mx || l != m) && Holds(chg, a0[l], r, i) {
      assert a[if |a0| < mx || l < m then l else l - 1] == a0[l];
    } else {
      if Held(chg, a0, r, i) {
        KeptAt(chg, ids, nCol, a0, lvl, m);
        HolderRanks(chg, ids, nCol, a0[m], lvl, r, i);
      }
      OutrankedEvicted(a0, m, nCol, s, z, Count(chg, r, i), i);
    }
  }

  lemma WorstIsNotPeriodic(a: seq<Sample>, m: int, nCol: nat)
    requires IsWorst(a, m, nCol)
    ensures 0 <= m < |a| && !a[m].isPSample
  {
  }

  lemma OutrankedEvicted(a0: seq<Sample>, m: int, nCol: nat, s: Sample, z: nat, n: nat, i: nat)
    requires IsWorst(a0, m, nCol) && AtMost(n, i, a0[m]) && |s.anEq| == nCol && z <= nCol
    requires !s.isPSample ==> s.iCol == z < nCol && Better(s, a0[m])
    ensures Outranked(Evicted(a0, m, |a0|) + [ZeroFirst(s, z)], |a0|, n, i)
  {
    hide Better, ZeroFirst, AtMost;
    var a := Evicted(a0, m, |a0|) + [ZeroFirst(s, z)];
    NewLast(a0, m, |a0|, s, z);
    forall k | 0 <= k < |a| && !a[k].isPSample ensures AtMost(n, i, a[k]) {
      if k < |a0| - 1 {
        assert a[k] == a0[if k < m then k else k + 1];
        RanksUp(n, i, a0[m], a[k]);
      } else {
        ZeroFirstRanks(n, i, a0[m], s, z);
      }
    }
  }

  lemma ZeroFirstRanks(n: nat, i: nat, x: Sample, s: Sample, z: nat)
    requires AtMost(n, i, x) && |x.anEq| == |s.anEq| && z <= s.iCol < |s.anEq| && Better(s, x)
    ensures AtMost(n, i, ZeroFirst(s, z))
  {
    BetterIsNotWorse(s, x);
    RanksUp(n, i, x, s);
  }

  /** The group of a candidate that has been inserted. */
  lemma HeldInserted(chg: seq<nat>, ids: seq<int>, nCol: nat, a0: seq<Sample>, m: int, mx: nat, s: Sample, z: nat,
                     a: seq<Sample>)
    requires CandidateOk(chg, ids, nCol, s, z) && AllOk(chg, ids, nCol, a0, z + 1) && Inserted(a0, m, mx, s, z, a)
    ensures Held(chg, a, Row(s), z) && (exists p :: 0 <= p < |a| && Covers(chg, a[p], z))
  {
    hide AllOk, Start, End, Better, BestSharerAt, Evicted, ZeroFirst;
    var p: nat;
    if k :| Shares(a0, z, k) && a0[k].isPSample {
      p := k;
      OpenSharer(chg, ids, nCol, a0, z, p);
    } else if k :| Shares(a0, z, k) {
      p :| UpgradedAt(a0, z, s, p, a);
      OpenSharer(chg, ids, nCol, a0, z, p);
    } else {
      p := |a| - 1;
      NewLast(a0, m, mx, s, z);
    }
    OpenRows(chg, Row(s), z);
    OpenRows(chg, Row(a[p]), z);
    assert Holds(chg, a[p], Row(s), z) && Covers(chg, a[p], z);
  }

  lemma OpenSharer(chg: seq<nat>, ids: seq<int>, nCol: nat, a: seq<Sample>, z: nat, p: nat)
    requires AllOk(chg, ids, nCol, a, z + 1) && Shares(a, z, p)
    ensures p < |a| && a[p].anLt != [] && Row(a[p]) < |chg| && Open(chg, Row(a[p]), z)
  {
    KeptAt(chg, ids, nCol, a, z + 1, p);
    assert EqEntryOk(chg, a[p], z + 1, z);
  }

  lemma NewLast(a0: seq<Sample>, m: int, mx: nat, s: Sample, z: nat)
    requires z <= |s.anEq|
    ensures var a := Evicted(a0, m, mx) + [ZeroFirst(s, z)];
            var t := a[|a| - 1]; t.anLt == s.anLt && t.iCol == s.iCol && t.isPSample == s.isPSample
  {
  }

  /** The group of a candidate that was not offered. */
  lemma OutrankedCandidate(chg: seq<nat>, ids: seq<int>, nCol: nat, a: seq<Sample>, m: int, mx: nat, s: Sample, z: nat)
    requires CandidateOk(chg, ids, nCol, s, z) && s.anEq[z] == Count(chg, Row(s), z) && |a| >= mx
             && IsWorst(a, m, nCol) && !Better(s, a[m])
    ensures Outranked(a, mx, Count(chg, Row(s), z), z)
  {
    hide Better;
    forall k | 0 <= k < |a| && !a[k].isPSample ensures AtMost(Count(chg, Row(s), z), z, a[k]) {
      NotBetterTransitive(s, a[m], a[k]);
      RanksUp(Count(chg, Row(s), z), z, s, a[k]);
    }
  }

  /** One level further down. */
  lemma AllSettledNext(chg: seq<nat>, ids: seq<int>, nCol: nat, a0: seq<Sample>, a: seq<Sample>, mx: nat, s: Sample,
                       z: nat)
    requires AllSettled(chg, nCol, a0, mx, z + 1) && CandidateOk(chg, ids, nCol, s, z) && Settled(chg, a, mx, Row(s), z)
    requires forall r, i ::
               0 <= r < |chg| && 0 <= i < nCol - 1 && Settled(chg, a0, mx, r, i) ==> Settled(chg, a, mx, r, i)
    ensures AllSettled(chg, nCol, a, mx, z)
  {
    hide Start, End, Settled;
    forall r, i | 0 <= r < |chg| && 0 <= i < nCol - 1 && (i >= z || !Open(chg, r, i))
        ensures Settled(chg, a, mx, r, i) {
      if i == z && Open(chg, r, z) {
        OpenRows(chg, r, z);
        OpenRows(chg, Row(s), z);
        SettledGroup(chg, a, mx, Row(s), r, z);
      }
    }
  }

  lemma SettledGroup(chg: seq<nat>, a: seq<Sample>, mx: nat, q: nat, r: nat, i: nat)
    requires q < |chg| && r < |chg| && Start(chg, q, i) == Start(chg, r, i) && Settled(chg, a, mx, q, i)
    ensures Settled(chg, a, mx, r, i)
  {
    hide Start, End;
    SameSize(chg, q, r, i);
    if Held(chg, a, q, i) {
      var k :| 0 <= k < |a| && Holds(chg, a[k], q, i);
      assert Holds(chg, a[k], r, i);
    }
  }

  lemma AllSettledInserted(chg: seq<nat>, ids: seq<int>, nCol: nat, a0: seq<Sample>, m: int, mx: nat, s: Sample,
                           z: nat, lvl: nat, a: seq<Sample>)
    requires InsertOk(chg, ids, nCol, a0, m, mx, s, z, lvl) && Inserted(a0, m, mx, s, z, a)
             && AllSettled(chg, nCol, a0, mx, lvl)
    ensures AllSettled(chg, nCol, a, mx, if s.isPSample then lvl else z)
  {
    hide InsertOk, Inserted, Settled, Open;
    forall r, i | 0 <= r < |chg| && 0 <= i < nCol - 1 && Settled(chg, a0, mx, r, i) ensures Settled(chg, a, mx, r, i) {
      SettledInserted(chg, ids, nCol, a0, m, mx, s, z, lvl, a, r, i);
    }
    if !s.isPSample {
      CandidateSettled(chg, ids, nCol, a0, m, mx, s, z, lvl, a);
      AllSettledNext(chg, ids, nCol, a0, a, mx, s, z);
    }
  }

  lemma CandidateSettled(chg: seq<nat>, ids: seq<int>, nCol: nat, a0: seq<Sample>, m: int, mx: nat, s: Sample, z: nat,
                         lvl: nat, a: seq<Sample>)
    requires InsertOk(chg, ids, nCol, a0, m, mx, s, z, lvl) && Inserted(a0, m, mx, s, z, a) && !s.isPSample
    ensures lvl == z + 1 && CandidateOk(chg, ids, nCol, s, z) && Settled(chg, a, mx, Row(s), z)
  {
    hide AllOk, Inserted, Held, IsWorst, Better;
    HeldInserted(chg, ids, nCol, a0, m, mx, s, z, a);
  }

  lemma InsertedRanked(chg: seq<nat>, ids: seq<int>, nCol: nat, a0: seq<Sample>, m: int, mx: nat, s: Sample, z: nat,
                       a: seq<Sample>)
    requires InsertOk(chg, ids, nCol, a0, m, mx, s, z, z + 1) && Inserted(a0, m, mx, s, z, a) && !s.isPSample
    requires AllSettled(chg, nCol, a0, mx, z + 1)
    ensures AllSettled(chg, nCol, a, mx, z) && Covered(chg, a, z)
  {
    hide AllOk, Inserted, AllSettled, Held, IsWorst, Better, CandidateOk;
    AllSettledInserted(chg, ids, nCol, a0, m, mx, s, z, z + 1, a);
    HeldInserted(chg, ids, nCol, a0, m, mx, s, z, a);
  }

  /** A candidate that is not offered: its group and all others stay settled, and no sample of the group
      has been passed over. */
  lemma NotOffered(chg: seq<nat>, ids: seq<int>, nCol: nat, a: seq<Sample>, m: int, mx: nat, s: Sample, z: nat)
    requires CandidateOk(chg, ids, nCol, s, z) && s.anEq[z] == Count(chg, Row(s), z) && AllOk(chg, ids, nCol, a, z + 1)
    requires |a| >= mx && IsWorst(a, m, nCol) && !Better(s, a[m]) && AllSettled(chg, nCol, a, mx, z + 1)
    ensures AllSettled(chg, nCol, a, mx, z) && Covered(chg, a, z)
  {
    hide AllOk, Better, Open, Start, End;
    OutrankedCandidate(chg, ids, nCol, a, m, mx, s, z);
    assert Settled(chg, a, mx, Row(s), z);
    AllSettledNext(chg, ids, nCol, a, a, mx, s, z);
    forall k | 0 <= k < |a| && !a[k].isPSample ensures a[k].anEq[z] != 0 {
      if a[k].anEq[z] == 0 { AlwaysOffered(chg, ids, nCol, a, m, s, z, k); }
    }
  }

  ghost predicate Dropped(a: seq<Sample>, s: Sample) { forall l :: 0 <= l < |a| ==> a[l].anLt != s.anLt }

  /** Whatever an insertion drops was the worst sample. */
  ghost predicate DropsOnlyWorst(a0: seq<Sample>, a: seq<Sample>, nCol: nat)
    requires forall k :: 0 <= k < |a0| ==> |a0[k].anEq| == nCol && a0[k].iCol < nCol
  {
    forall k :: 0 <= k < |a0| && Dropped(a, a0[k]) ==>
      !a0[k].isPSample && forall l :: 0 <= l < |a0| && !a0[l].isPSample ==> !Better(a0[k], a0[l])
  }

  lemma InsertedDropsWorst(a0: seq<Sample>, m: int, mx: nat, s: Sample, z: nat, a: seq<Sample>, nCol: nat)
    requires z <= |s.anEq| && Inserted(a0, m, mx, s, z, a) && |a0| <= mx && (|a0| == mx ==> IsWorst(a0, m, nCol))
    requires forall k :: 0 <= k < |a0| ==> |a0[k].anEq| == nCol && a0[k].iCol < nCol
    ensures DropsOnlyWorst(a0, a, nCol)
  {
    hide Better, Evicted, ZeroFirst, UpgradedAt;
    if !s.isPSample && exists l :: Shares(a0, z, l) && a0[l].isPSample {
    } else if !s.isPSample && exists l :: Shares(a0, z, l) {
      var l :| UpgradedAt(a0, z, s, l, a);
      UpgradedDropsNone(a0, z, s, l, a);
    } else {
      EvictedDropsOne(a0, m, mx, ZeroFirst(s, z));
    }
  }

  lemma UpgradedDropsNone(a0: seq<Sample>, z: nat, s: Sample, k: nat, a: seq<Sample>)
    requires UpgradedAt(a0, z, s, k, a)
    ensures |a| == |a0| && forall l :: 0 <= l < |a0| ==> a[l].anLt == a0[l].anLt
  {
    hide Better, BestSharerAt;
  }

  lemma EvictedDropsOne(a0: seq<Sample>, m: int, mx: nat, t: Sample)
    requires |a0| <= mx && (|a0| == mx ==> 0 <= m < |a0|)
    ensures var a := Evicted(a0, m, mx) + [t];
            forall k :: 0 <= k < |a0| && Dropped(a, a0[k]) ==> |a0| == mx && k == m
  {
    var a := Evicted(a0, m, mx) + [t];
    forall k | 0 <= k < |a0| && !(|a0| == mx && k == m) ensures !Dropped(a, a0[k]) {
      assert a[if |a0| < mx || k < m then k else k - 1] == a0[k];
    }
  }

  // ----- The samples of the next row

  /** A row that changes column c: the groups from c on are closed, and the others are as settled as before. */
  lemma AllSettledRow(chg: seq<nat>, nCol: nat, a: seq<Sample>, mx: nat, c: nat)
    requires AllSettled(chg, nCol, a, mx, c) && nCol > 0
             && forall k :: 0 <= k < |a| ==> a[k].anLt != [] && Row(a[k]) < |chg|
    ensures AllSettled(chg + [c], nCol, a, mx, nCol - 1)
  {
    hide Start, End, Before, Settled;
    var chg' := chg + [c];
    forall r, i | 0 <= r < |chg'| && 0 <= i < nCol - 1 && (i >= nCol - 1 || !Open(chg', r, i))
        ensures Settled(chg', a, mx, r, i) {
      LastRow(chg', i);
      GroupExtend(chg, c, r, i);
      assert Settled(chg, a, mx, r, i);
      SettledRow(chg, a, mx, c, r, i);
    }
  }

  lemma SettledRow(chg: seq<nat>, a: seq<Sample>, mx: nat, c: nat, r: nat, i: nat)
    requires r < |chg| && Settled(chg, a, mx, r, i) && !Open(chg + [c], r, i)
    ensures Settled(chg + [c], a, mx, r, i)
  {
    hide Start, End, Before;
    var chg' := chg + [c];
    GroupExtend(chg, c, r, i);
    if Held(chg, a, r, i) {
      var k :| 0 <= k < |a| && Holds(chg, a[k], r, i);
      GroupExtend(chg, c, Row(a[k]), i);
      assert Holds(chg', a[k], r, i);
    }
  }

  /** Filling in the sizes of closed groups does not change what the samples are kept for. */
  lemma FillRanks(chg: seq<nat>, ids: seq<int>, nCol: nat, a: seq<Sample>, lvl: nat, cur: Sample, c: nat, m: int,
                  mx: nat, lvl': nat)
    requires AllOk(chg, ids, nCol, a, lvl) && |cur.anEq| == nCol
             && (forall k :: 0 <= k < |a| ==> |a[k].anEq| == |cur.anEq|)
    ensures IsWorst(a, m, nCol) ==> IsWorst(FillAll(a, cur, c), m, nCol)
    ensures AllSettled(chg, nCol, a, mx, lvl') ==> AllSettled(chg, nCol, FillAll(a, cur, c), mx, lvl')
  {
    hide AllOk, KeptOk, Better, Settled;
    var b := FillAll(a, cur, c);
    forall k | 0 <= k < |a| ensures SameRank(a[k], b[k]) {
      KeptAt(chg, ids, nCol, a, lvl, k);
      FillRank(chg, ids, nCol, a[k], lvl, cur, c);
    }
    if IsWorst(a, m, nCol) {
      forall k | 0 <= k < |b| && !b[k].isPSample ensures !Better(b[m], b[k]) { SameBetter(a[m], b[m], a[k], b[k]); }
    }
    forall r, i | 0 <= r < |chg| && Settled(chg, a, mx, r, i) ensures Settled(chg, b, mx, r, i) {
      SettledFill(chg, a, b, mx, r, i);
    }
  }

  /** Sample t differs from s only in entries that the ranking does not look at. */
  ghost predicate SameRank(s: Sample, t: Sample) {
    && t.anLt == s.anLt && t.isPSample == s.isPSample && t.iCol == s.iCol && t.iHash == s.iHash && |t.anEq| == |s.anEq|
    && (!s.isPSample ==> forall j :: s.iCol <= j < |s.anEq| ==> t.anEq[j] == s.anEq[j])
  }

  lemma FillRank(chg: seq<nat>, ids: seq<int>, nCol: nat, s: Sample, lvl: nat, cur: Sample, c: nat)
    requires KeptOk(chg, ids, nCol, s, lvl) && |s.anEq| == |cur.anEq|
    ensures SameRank(s, Fill(s, cur, c)) && s.iCol < nCol == |s.anEq|
  {
  }

  lemma SameBetter(x: Sample, x': Sample, y: Sample, y': Sample)
    requires SameRank(x, x') && SameRank(y, y') && !x.isPSample && !y.isPSample && |x.anEq| == |y.anEq|
             && x.iCol < |x.anEq| && y.iCol < |y.anEq|
    ensures Better(x, y) <==> Better(x', y')
  {
    if x.iCol == y.iCol { SameBetterPost(x, x', y, y', x.iCol + 1); }
  }

  lemma {:induction false} SameBetterPost(x: Sample, x': Sample, y: Sample, y': Sample, i: nat)
    requires SameRank(x, x') && SameRank(y, y') && !x.isPSample && !y.isPSample && |x.anEq| == |y.anEq| && x.iCol < i
             && y.iCol < i
    ensures BetterPost(x, y, i) <==> BetterPost(x', y', i)
    decreases |x.anEq| - i
  {
    if i < |x.anEq| { SameBetterPost(x, x', y, y', i + 1); }
  }

  lemma SettledFill(chg: seq<nat>, a: seq<Sample>, b: seq<Sample>, mx: nat, r: nat, i: nat)
    requires |b| == |a| && (forall k :: 0 <= k < |a| ==> SameRank(a[k], b[k])) && r < |chg| && Settled(chg, a, mx, r, i)
    ensures Settled(chg, b, mx, r, i)
  {
    hide Start, End;
    if Held(chg, a, r, i) {
      var k :| 0 <= k < |a| && Holds(chg, a[k], r, i);
      assert SameRank(a[k], b[k]) && Holds(chg, b[k], r, i);
    } else {
      forall k | 0 <= k < |b| && !b[k].isPSample ensures AtMost(Count(chg, r, i), i, b[k]) {
        assert SameRank(a[k], b[k]);
      }
    }
  }

  /** Number of periodic samples due in the first n rows. */
  function Quota(n: nat, p: nat): nat requires p > 0 { n / p }

  /** A periodic sample every p rows: then the nEst announced rows give no more than a third of the samples,
      and p is the least such period. */
  ghost predicate IsPeriod(p: nat, nEst: nat, mxSample: nat) {
    var m := mxSample / 3 + 1;
    (p - 1) * m <= nEst < p * m
  }

  lemma PeriodIsLeast(nEst: nat, mxSample: nat)
    ensures IsPeriod(nEst / (mxSample / 3 + 1) + 1, nEst, mxSample)
  {
    var m := mxSample / 3 + 1;
    var t := DivMod(nEst, m);
    assert (nEst / m + 1) * m == nEst / m * m + m;
  }

  /** Rows at which the quota of periodic samples grows. */
  predicate IsPeriodic(r: nat, p: nat) requires p > 0 { Quota(r, p) != Quota(r + 1, p) }

  /** The periodic samples are those of the periodic rows among the first n. */
  ghost predicate PeriodicKept(a: seq<Sample>, n: nat, p: nat)
    requires p > 0
  {
    forall r: nat :: HasPeriodic(a, r) <==> r < n && IsPeriodic(r, p)
  }

  /** Row n has been kept if it is periodic, and nothing else has changed. */
  ghost predicate PeriodicTaken(a0: seq<Sample>, a: seq<Sample>, n: nat, p: nat)
    requires p > 0
  {
    if IsPeriodic(n, p) then AddsPeriodic(a0, a, n) else KeepsPeriodic(a0, a)
  }

  lemma PeriodicKeptNext(a0: seq<Sample>, a1: seq<Sample>, a: seq<Sample>, n: nat, p: nat)
    requires p > 0 && PeriodicKept(a0, n, p) && KeepsPeriodic(a0, a1) && PeriodicTaken(a1, a, n, p)
    ensures PeriodicKept(a, n + 1, p)
  {
    hide HasPeriodic, IsPeriodic;
  }

  /** The tie-breaker of the next row, in unsigned 32-bit arithmetic. */
  function NextPrn(prn: nat): nat { (prn * 1103515245 + 12345) % 0x1_0000_0000 }

  /** The generator is one-to-one: rows with different numbers have different next ones. */
  lemma NextPrnOneToOne(x: nat, y: nat)
    requires x < 0x1_0000_0000 && y < 0x1_0000_0000 && NextPrn(x) == NextPrn(y)
    ensures x == y
  {
    var u, w := x * 1103515245 + 12345, y * 1103515245 + 12345;
    assert u == u / 0x1_0000_0000 * 0x1_0000_0000 + NextPrn(x) && w == w / 0x1_0000_0000 * 0x1_0000_0000 + NextPrn(y);
    OddFactor(x - y, u / 0x1_0000_0000 - w / 0x1_0000_0000);
  }

  /** The multiplier has an inverse modulo the range. */
  lemma OddFactor(d: int, t: int)
    requires d * 1103515245 == t * 0x1_0000_0000 && -0x1_0000_0000 < d < 0x1_0000_0000
    ensures d == 0
  {
    assert d == (t * 4005161829 - d * 1029054899) * 0x1_0000_0000;
  }

  /** The state of an ANALYZE of one index. */
  class Accum {
    const nCol: nat
    const mxSample: nat
    const nPSample: nat
    const nEst: nat             // number of rows announced to stat_init
    var nRow: nat
    var current: Sample
    var aBest: seq<Sample>
    var a: seq<Sample>
    var iMin: int
    var nMaxEqZero: nat
    var iPrn: nat
    ghost var chg: seq<nat>     // the change list of the rows pushed so far
    ghost var ids: seq<int>     // and their rowids

    /** The sample arrays are in order, with levels below lvl still open. */
    ghost predicate SamplesOk(lvl: nat)
      reads this
    {
      && AllOk(chg, ids, nCol, a, lvl) && |a| <= mxSample && Periodic(a) < mxSample
      && (|a| == mxSample ==> IsWorst(a, iMin, nCol))
      && NoZeroFrom(a, nCol, nMaxEqZero)
    }

    /** While levels are closed from the deepest down to lvl: every group that is closed is represented,
        or all kept samples represent groups at least as large. */
    ghost predicate Ranked(lvl: nat)
      reads this
    {
      Covered(chg, a, lvl) && AllSettled(chg, nCol, a, mxSample, lvl)
    }

    /** Change the counters of kept sample k. */
    method ReplaceSample(k: nat, t: Sample, ghost lvl: nat)
      requires SamplesOk(lvl) && k < |a| && KeptOk(chg, ids, nCol, t, lvl)
      requires Row(t) == Row(a[k]) && t.isPSample == a[k].isPSample
      requires forall j :: nMaxEqZero <= j < nCol ==> t.anEq[j] != 0
      modifies this`a, this`iMin
      ensures SamplesOk(lvl) && Periodic(a) == old(Periodic(a)) && a == old(a)[k := t]
    {
      hide KeptOk, AllOk;
      AllOkUpdate(chg, ids, nCol, a, lvl, k, t);
      PeriodicUpdate(a, k, t);
      a := a[k := t];
      LengthsOk(chg, ids, nCol, a, lvl);
      if |a| >= mxSample { iMin := FindMin(a, nCol); }
    }

    /** Append a sample, after removing sample iMin if the array is full. */
    method AddSample(t: Sample, ghost lvl: nat)
      requires SamplesOk(lvl) && 0 < mxSample && KeptOk(chg, ids, nCol, t, lvl)
      requires forall k :: 0 <= k < |a| ==> a[k].anLt != [] && Row(a[k]) < Row(t)
      requires t.isPSample ==> Periodic(a) + 1 < mxSample
      requires forall j :: nMaxEqZero <= j < nCol ==> t.anEq[j] != 0
      modifies this`a, this`iMin
      ensures SamplesOk(lvl) && Periodic(a) == old(Periodic(a)) + (if t.isPSample then 1 else 0)
      ensures a == Evicted(old(a), old(iMin), mxSample) + [t]
    {
      hide KeptOk, AllOk, NoZeroFrom, Periodic;
      if |a| >= mxSample {
        RemoveOk(chg, ids, nCol, a, lvl, nMaxEqZero, iMin);
        a := a[..iMin] + a[iMin + 1..];
      }
      AppendOk(chg, ids, nCol, a, lvl, nMaxEqZero, t);
      a := a + [t];
      LengthsOk(chg, ids, nCol, a, lvl);
      if |a| >= mxSample { iMin := FindMin(a, nCol); }
    }

    /** sampleInsert: keep a sample, in place of the worst one if there is no room, unless its group
        is represented already.  What is kept afterwards is in order for one level fewer. */
    method SampleInsert(s: Sample, nEqZero: nat, ghost lvl: nat)
      requires NewOk(chg, ids, nCol, s, nEqZero)
      requires lvl == if s.isPSample then nEqZero else nEqZero + 1
      requires SamplesOk(lvl) && 0 < mxSample
      requires if s.isPSample then Periodic(a) + 1 < mxSample
               && forall k :: 0 <= k < |a| ==> Row(a[k]) < Row(s) else Covered(chg, a, lvl)
      modifies this`a, this`iMin, this`nMaxEqZero
      ensures (forall k :: 0 <= k < |old(a)| ==> |old(a)[k].anEq| == nCol && old(a)[k].iCol < nCol)
              && DropsOnlyWorst(old(a), a, nCol)
      ensures SamplesOk(nEqZero) && |s.anEq| == nCol > nEqZero && Inserted(old(a), old(iMin), mxSample, s, nEqZero, a)
      ensures Periodic(a) == old(Periodic(a)) + (if s.isPSample then 1 else 0)
      ensures nMaxEqZero >= nEqZero && nMaxEqZero >= old(nMaxEqZero)
      ensures nMaxEqZero == nEqZero || nMaxEqZero == old(nMaxEqZero)
    {
      hide KeptOk, AllOk, Periodic, CandidateOk, SampleOk, Inserted, BestSharerAt, Evicted, Shares, IsWorst, Covered,
        DropsOnlyWorst, NewOk, NoZeroFrom, ZeroFirst;
      ghost var a0, m0 := a, iMin;
      NewShape(chg, ids, nCol, s, nEqZero);
      NoZeroFromMore(a, nCol, nMaxEqZero, if nEqZero > nMaxEqZero then nEqZero else nMaxEqZero);
      if nEqZero > nMaxEqZero { nMaxEqZero := nEqZero; }
      LengthsOk(chg, ids, nCol, a, lvl);
      AllOkWeaken(chg, ids, nCol, a, lvl, nEqZero);
      if !s.isPSample {
        var done := UseSharer(s, nEqZero);
        if done {
          InsertedDropsWorst(a0, m0, mxSample, s, nEqZero, a, nCol);
          return;
        }
      }
      NewKept(chg, ids, nCol, s, nEqZero);
      InsertedNew(a0, m0, mxSample, s, nEqZero);
      AddSample(ZeroFirst(s, nEqZero), nEqZero);
      InsertedDropsWorst(a0, m0, mxSample, s, nEqZero, a, nCol);
    }

    /** If the group of s is represented already, its best sample is upgraded, unless a periodic sample
        represents it. */
    method UseSharer(s: Sample, i: nat) returns (done: bool)
      requires NewOk(chg, ids, nCol, s, i) && !s.isPSample && SamplesOk(i + 1) && nMaxEqZero >= i
               && Covered(chg, a, i + 1)
      modifies this`a, this`iMin
      ensures |s.anEq| == nCol > i
              && (done ==>
                SamplesOk(i) && Periodic(a) == old(Periodic(a)) && Inserted(old(a), old(iMin), mxSample, s, i, a))
      ensures !done ==>
                a == old(a) && iMin == old(iMin)
                && (forall k :: 0 <= k < |a| ==> a[k].anLt != [] && Row(a[k]) < Row(s)) && forall k :: !Shares(a, i, k)
    {
      hide KeptOk, AllOk, Periodic, CandidateOk, SampleOk, Inserted, BestSharerAt, IsWorst, Covered;
      NewShape(chg, ids, nCol, s, i);
      LengthsOk(chg, ids, nCol, a, i + 1);
      AllOkWeaken(chg, ids, nCol, a, i + 1, i);
      var sharer := FindSharer(chg, ids, nCol, a, s, i);
      match sharer
      case PeriodicSharer =>
        InsertedNothing(a, iMin, mxSample, s, i);
        done := true;
      case BestSharer(k) =>
        SharesAt(a, i, nCol, k);
        InsertedUpgrade(a, iMin, mxSample, s, i, k);
        KeptAt(chg, ids, nCol, a, i + 1, k);
        NotPassedOver(chg, ids, nCol, a, s, i, k);
        Upgraded(chg, ids, nCol, a[k], s, i);
        ReplaceSample(k, Upgrade(a[k], s), i);
        done := true;
      case NoSharer =>
        done := false;
    }

    /** The candidates of all columns but the last. */
    ghost predicate BestOk()
      reads this
    {
      |aBest| == nCol && forall i :: 0 <= i < nCol - 1 ==>
        CandidateOk(chg, ids, nCol, aBest[i], i) && InLargest(chg, aBest[i], i)
    }

    /** The sampling period leaves room for samples that are not periodic. */
    ghost predicate ParametersOk() {
      nCol > 0 && mxSample > 0 && nPSample > 0 && IsPeriod(nPSample, nEst, mxSample)
    }

    /** Between two calls of stat_push. */
    ghost predicate Valid()
      reads this
    {
      && ParametersOk() && nRow == |chg| == |ids| <= nEst && Columns(chg, nCol)
      && |current.anEq| == |current.anLt| == |current.anDLt| == nCol && current.iCol < nCol && !current.isPSample
      && |aBest| == nCol && (forall i :: 0 <= i < nCol ==> |aBest[i].anEq| == nCol)
      && SamplesOk(nCol - 1) && Ranked(nCol - 1) && Periodic(a) == Quota(nRow, nPSample)
         && PeriodicKept(a, nRow, nPSample)
      && (nRow > 0 ==> CurrentOk(chg, ids, nCol, current) && BestOk())
      && (nRow == 0 ==> a == [] && forall j :: 0 <= j < nCol ==> current.anLt[j] == 0 == current.anDLt[j])
      && (nRow == 0 ==> forall i, j :: 0 <= i < nCol && 0 <= j < nCol ==> aBest[i].anEq[j] == 0)
    }

    /** stat_init. */
    constructor (nCol: nat, mxSample: nat, nEst: nat, seed: nat)
      requires nCol > 0 && mxSample > 0
      ensures Valid() && nRow == 0 && a == [] && chg == [] && ids == []
      ensures this.nCol == nCol && this.mxSample == mxSample && this.nEst == nEst
      ensures IsPeriod(nPSample, nEst, mxSample)
    {
      this.nCol, this.mxSample, this.nEst := nCol, mxSample, nEst;
      nPSample := nEst / (mxSample / 3 + 1) + 1;
      PeriodIsLeast(nEst, mxSample);
      var zeros := seq(nCol, _ => 0);
      var blank := Sample(zeros, zeros, zeros, 0, false, 0, 0);
      nRow, current, aBest, a := 0, blank, seq(nCol, i requires 0 <= i < nCol => blank.(iCol := i)), [];
      iMin, nMaxEqZero, chg, ids := 0, 0, [], [];
      iPrn := seed;
    }

    /** The levels below which kept samples may be open shrinks; nothing else changes. */
    lemma SamplesWeaken(lvl: nat, lvl': nat)
      requires SamplesOk(lvl) && lvl' <= lvl
      ensures SamplesOk(lvl')
    {
      AllOkWeaken(chg, ids, nCol, a, lvl, lvl');
    }

    /** The first part of stat_push: bring the counters up to the new row. */
    method NextRow(iChng: nat, rowid: int)
      requires Valid() && iChng < nCol && nRow < nEst
      modifies this
      ensures ParametersOk() && nRow == old(nRow) + 1 <= nEst
      ensures chg == old(chg) + [iChng] && ids == old(ids) + [rowid] && nRow == |chg| == |ids| && Columns(chg, nCol)
      ensures CurrentOk(chg, ids, nCol, current) && !current.isPSample && KeepsPeriodic(old(a), a)
      ensures iPrn == NextPrn(old(iPrn)) && current.iHash == iPrn
      ensures SamplesOk(nCol - 1) && Ranked(nCol - 1) && Periodic(a) == Quota(nRow - 1, nPSample)
      ensures forall k :: 0 <= k < |a| ==> a[k].anLt != [] && Row(a[k]) < nRow - 1
      ensures |aBest| == nCol && forall i :: 0 <= i < nCol ==> |aBest[i].anEq| == nCol
      ensures old(nRow) > 0 ==> forall i :: 0 <= i < nCol - 1 ==>
                CandidateOk(old(chg), old(ids), nCol, aBest[i], i) && InLargest(old(chg), aBest[i], i)
      ensures old(nRow) == 0 ==> forall i, j :: 0 <= i < nCol && 0 <= j < nCol ==> aBest[i].anEq[j] == 0
    {
      hide KeptOk, AllOk, CurrentOk, SampleOk, CandidateOk, Periodic, Start, Before, Count, Open, ParametersOk,
        NextPrn, InLargest, KeepsPeriodic, Covered, AllSettled, IsWorst;
      KeepsSame(a);
      iPrn := NextPrn(iPrn);
      if nRow == 0 {
        current := current.(anEq := seq(nCol, _ => 1), rowid := rowid, iHash := iPrn);
        FirstRow(nCol, iChng, rowid, current);
        EmptyOk([iChng], [rowid], nCol, nCol - 1);
        EmptyRanked(iChng, nCol, mxSample);
        assert chg + [iChng] == [iChng] && ids + [rowid] == [rowid];
      } else {
        SamplePushPrevious(iChng);
        RowsBefore(chg, ids, nCol, a, iChng);
        CloseLevels(chg, ids, nCol, a, iChng, rowid);
        AllSettledRow(chg, nCol, a, mxSample, iChng);
        CoveredAtTop(chg + [iChng], ids + [rowid], nCol, a, nCol - 1);
        AdvanceOk(chg, ids, nCol, current, iChng, rowid, iPrn);
        current := Advance(current, iChng, rowid, iPrn);
      }
      chg, ids := chg + [iChng], ids + [rowid];
      nRow := nRow + 1;
    }

    /** The middle part of stat_push: every nPSample-th row is kept as a periodic sample. */
    method TakePeriodic()
      requires ParametersOk() && 0 < nRow == |chg| == |ids| <= nEst && Columns(chg, nCol)
      requires CurrentOk(chg, ids, nCol, current) && !current.isPSample
      requires SamplesOk(nCol - 1) && Ranked(nCol - 1) && Periodic(a) == Quota(nRow - 1, nPSample)
      requires forall k :: 0 <= k < |a| ==> a[k].anLt != [] && Row(a[k]) < nRow - 1
      modifies this`a, this`iMin, this`nMaxEqZero, this`current
      ensures CurrentOk(chg, ids, nCol, current) && !current.isPSample
      ensures SamplesOk(nCol - 1) && Ranked(nCol - 1) && Periodic(a) == Quota(nRow, nPSample)
      ensures PeriodicTaken(old(a), a, nRow - 1, nPSample)
    {
      hide KeptOk, AllOk, CurrentOk, NewOk, Periodic, Quota, IsPeriod, Inserted, KeepsPeriodic, AddsPeriodic, Covered,
        AllSettled, IsWorst, DropsOnlyWorst;
      KeepsSame(a);
      CurrentShape(chg, ids, nCol, current);
      var nLt := current.anLt[nCol - 1];
      PeriodicRows(nRow - 1, nPSample);
      FewPeriodicRows(nRow, nEst, mxSample, nPSample);
      if Quota(nLt, nPSample) != Quota(nLt + 1, nPSample) {
        PeriodicIsNew(chg, ids, nCol, current);
        current := current.(isPSample := true, iCol := 0);
        ghost var a0, m0 := a, iMin;
        if |a| == mxSample { WorstIsNotPeriodic(a, iMin, nCol); }
        SampleInsert(current, nCol - 1, nCol - 1);
        InsertedKeeps(a0, m0, mxSample, current, nCol - 1, a);
        AllSettledInserted(chg, ids, nCol, a0, m0, mxSample, current, nCol - 1, nCol - 1, a);
        CoveredAtTop(chg, ids, nCol, a, nCol - 1);
        current := current.(isPSample := false);
      }
    }

    /** The last part of stat_push: the new row becomes the candidate of every column whose group it
        starts, or in whose group it is better than the candidate so far. */
    method UpdateBest(iChng: nat, rowid: int, ghost chg0: seq<nat>, ghost ids0: seq<int>)
      requires chg == chg0 + [iChng] && ids == ids0 + [rowid]
      requires CurrentOk(chg, ids, nCol, current) && !current.isPSample
      requires |aBest| == nCol && forall i :: 0 <= i < nCol ==> |aBest[i].anEq| == nCol
      requires chg0 != [] ==> forall i :: 0 <= i < nCol - 1 ==>
                 CandidateOk(chg0, ids0, nCol, aBest[i], i) && InLargest(chg0, aBest[i], i)
      requires chg0 == [] ==> forall i, j :: 0 <= i < nCol && 0 <= j < nCol ==> aBest[i].anEq[j] == 0
      modifies this`aBest, this`current
      ensures BestOk() && forall i :: 0 <= i < nCol ==> |aBest[i].anEq| == nCol
      ensures CurrentOk(chg, ids, nCol, current) && !current.isPSample
    {
      hide CurrentOk, SampleOk, CandidateOk, InLargest;
      CurrentShape(chg, ids, nCol, current);
      ghost var best0 := aBest;
      var i := 0;
      while i < nCol - 1
        invariant 0 <= i <= nCol - 1 && |aBest| == nCol && forall k :: 0 <= k < nCol ==> |aBest[k].anEq| == nCol
        invariant forall k :: 0 <= k < i ==> CandidateOk(chg, ids, nCol, aBest[k], k) && InLargest(chg, aBest[k], k)
        invariant forall k :: i <= k < nCol ==> aBest[k] == best0[k]
        invariant CurrentOk(chg, ids, nCol, current) && !current.isPSample && |current.anEq| == nCol
        invariant forall j :: 0 <= j < nCol ==> current.anEq[j] >= 1
      {
        RecolumnOk(chg, ids, nCol, current, i);
        current := current.(iCol := i);
        if i >= iChng || BetterPost(current, aBest[i], i + 1) {
          CurrentIsCandidate(chg, ids, nCol, current, i);
          CurrentShape(chg, ids, nCol, current);
          if i >= iChng || chg0 == [] {
            LargestAlone(chg0, iChng, current, i);
          } else {
            LargestReplaced(chg0, ids0, nCol, aBest[i], current, i, iChng, rowid);
          }
          aBest := aBest[i := current];
        } else {
          BestStays(chg0, ids0, nCol, aBest[i], current, i, iChng, rowid);
          LargestStays(chg0, ids0, nCol, aBest[i], current, i, iChng, rowid);
        }
        i := i + 1;
      }
    }

    /** stat_push: one more row of the index. */
    method StatPush(iChng: nat, rowid: int)
      requires Valid() && iChng < nCol && nRow < nEst
      modifies this
      ensures Valid() && nRow == old(nRow) + 1
      ensures chg == old(chg) + [iChng] && ids == old(ids) + [rowid]
    {
      hide AllOk, CurrentOk, CandidateOk, NoZeroFrom, Periodic, Quota, IsPeriod, KeepsPeriodic, PeriodicKept,
        IsPeriodic, PeriodicTaken, Covered, AllSettled, IsWorst;
      NextRow(iChng, rowid);
      ghost var a1 := a;
      TakePeriodic();
      PeriodicKeptNext(old(a), a1, a, nRow - 1, nPSample);
      UpdateBest(iChng, rowid, old(chg), old(ids));
      CurrentShape(chg, ids, nCol, current);
    }

    /** One turn of the first loop of samplePushPrevious: offer the best candidate of column i, whose group
        ends here. */
    method OfferBest(i: nat)
      requires i < nCol - 1 && CurrentOk(chg, ids, nCol, current) && BestOk() && SamplesOk(i + 1) && Ranked(i + 1)
               && mxSample > 0
      requires |current.anEq| == nCol && forall k :: 0 <= k < nCol ==> |aBest[k].anEq| == nCol
      modifies this`a, this`iMin, this`nMaxEqZero, this`aBest
      ensures SamplesOk(i) && Ranked(i) && Periodic(a) == old(Periodic(a)) && BestOk() && KeepsPeriodic(old(a), a)
      ensures forall k :: 0 <= k < nCol ==> |aBest[k].anEq| == nCol
      ensures aBest == old(aBest)[i := old(aBest)[i].(anEq := old(aBest)[i].anEq[i := current.anEq[i]])]
    {
      hide KeptOk, AllOk, NoZeroFrom, CurrentOk, SampleOk, Inserted, KeepsPeriodic, Covered, AllSettled, IsWorst,
        DropsOnlyWorst, Better, Evicted, ZeroFirst, Periodic, Count;
      KeepsSame(a);
      CandidateCount(chg, ids, nCol, aBest[i], current, i);
      var best := aBest[i].(anEq := aBest[i].anEq[i := current.anEq[i]]);
      aBest := aBest[i := best];
      LengthsOk(chg, ids, nCol, a, i + 1);
      SamplesWeaken(i + 1, i);
      if |a| == mxSample { WorstIsNotPeriodic(a, iMin, nCol); }
      if |a| < mxSample || Better(best, a[iMin]) {
        ghost var a0, m0 := a, iMin;
        SampleInsert(best, i, i + 1);
        InsertedKeeps(a0, m0, mxSample, best, i, a);
        InsertedRanked(chg, ids, nCol, a0, m0, mxSample, best, i, a);
      } else {
        NotOffered(chg, ids, nCol, a, iMin, mxSample, best, i);
      }
    }

    /** The first loop of samplePushPrevious: offer the best candidate of every column whose group
        ends here. */
    method PushBest(iChng: nat)
      requires Valid() && nRow > 0 && iChng < nCol
      modifies this`a, this`iMin, this`nMaxEqZero, this`aBest
      ensures SamplesOk(iChng) && Ranked(iChng) && Periodic(a) == old(Periodic(a)) && BestOk()
              && KeepsPeriodic(old(a), a)
      ensures forall i :: 0 <= i < nCol ==> |aBest[i].anEq| == nCol
    {
      hide CurrentOk, KeepsPeriodic, Periodic, CandidateOk, AllOk, NoZeroFrom, IsWorst, Covered, AllSettled;
      KeepsSame(a);
      CurrentShape(chg, ids, nCol, current);
      var i := nCol - 1;
      while i > iChng
        invariant iChng <= i <= nCol - 1
        invariant SamplesOk(i) && Ranked(i) && Periodic(a) == old(Periodic(a)) && BestOk() && KeepsPeriodic(old(a), a)
        invariant forall k :: 0 <= k < nCol ==> |aBest[k].anEq| == nCol
      {
        i := i - 1;
        ghost var a0 := a;
        OfferBest(i);
        KeepsTransitive(old(a), a0, a);
      }
    }

    /** samplePushPrevious: the previous row was the last of its group in every column from iChng on. */
    method SamplePushPrevious(iChng: nat)
      requires Valid() && nRow > 0 && iChng < nCol
      modifies this`a, this`iMin, this`nMaxEqZero, this`aBest
      ensures SamplesOk(iChng) && Periodic(a) == old(Periodic(a)) && BestOk() && KeepsPeriodic(old(a), a)
      ensures NoZeroFrom(a, nCol, iChng) && AllSettled(chg, nCol, a, mxSample, iChng) && nMaxEqZero <= iChng
      ensures forall i :: 0 <= i < nCol ==> |aBest[i].anEq| == nCol
    {
      hide KeptOk, AllOk, CurrentOk, SampleOk, KeepsPeriodic, Covered, AllSettled, IsWorst;
      CurrentShape(chg, ids, nCol, current);
      PushBest(iChng);
      if iChng < nMaxEqZero {
        LengthsOk(chg, ids, nCol, a, iChng);
        FillRanks(chg, ids, nCol, a, iChng, current, iChng, iMin, mxSample, iChng);
        FillAllOk(chg, ids, nCol, a, current, iChng);
        FillKeeps(a, current, iChng);
        KeepsTransitive(old(a), a, FillAll(a, current, iChng));
        a := FillAll(a, current, iChng);
        nMaxEqZero := iChng;
      }
    }
  }

  lemma FirstRow(nCol: nat, c: nat, id: int, s: Sample)
    requires nCol > 0 && |s.anEq| == |s.anLt| == |s.anDLt| == nCol && s.iCol < nCol && s.rowid == id
    requires forall j :: 0 <= j < nCol ==> s.anEq[j] == 1 && s.anLt[j] == 0 == s.anDLt[j]
    ensures CurrentOk([c], [id], nCol, s)
  {
  }

  lemma EmptyRanked(c: nat, nCol: nat, mx: nat)
    requires nCol > 0
    ensures Covered([c], [], nCol - 1) && AllSettled([c], nCol, [], mx, nCol - 1)
  {
  }

  lemma EmptyOk(chg: seq<nat>, ids: seq<int>, nCol: nat, lvl: nat)
    ensures AllOk(chg, ids, nCol, [], lvl)
  {
  }

  /** Samples come from rows of the scan. */
  lemma RowsBefore(chg: seq<nat>, ids: seq<int>, nCol: nat, a: seq<Sample>, lvl: nat)
    requires AllOk(chg, ids, nCol, a, lvl)
    ensures forall k :: 0 <= k < |a| ==> a[k].anLt != [] && Row(a[k]) < |chg|
  {
  }

  /** Exactly one row in nPSample is a periodic sample. */
  lemma PeriodicRows(n: nat, p: nat)
    requires p > 0
    ensures Quota(n, p) <= Quota(n + 1, p) <= Quota(n, p) + 1
  {
    var r := DivMod(n, p);
    var q := n / p;
    if r + 1 < p {
      DivUnique(p, q, r + 1);
    } else {
      assert (q + 1) * p == q * p + p;
      DivUnique(p, q + 1, 0);
    }
  }

  /** Fewer than mxSample rows are periodic samples. */
  lemma FewPeriodicRows(n: nat, nEst: nat, mx: nat, p: nat)
    requires n <= nEst && mx > 0 && p > 0 && IsPeriod(p, nEst, mx)
    ensures Quota(n, p) <= mx / 3 && Quota(n, p) < mx
  {
    var m := mx / 3 + 1;
    var r := DivMod(n, p);
    var k := n / p;
    if k >= m { MulMonotone(m, k, p); }
  }

  /** The periodic rows are the last ones of every p. */
  lemma PeriodicEvery(r: nat, p: nat)
    requires p > 0
    ensures IsPeriodic(r, p) <==> (r + 1) % p == 0
  {
    var q, t := r / p, r % p;
    assert r == q * p + t;
    assert (q + 1) * p == q * p + p;
    if t + 1 < p {
      DivUnique(p, q, t + 1);
    } else {
      DivUnique(p, q + 1, 0);
    }
    var t' := DivMod(r + 1, p);
    assert t' == (r + 1) % p;
  }

  lemma PeriodicIsNew(chg: seq<nat>, ids: seq<int>, nCol: nat, s: Sample)
    requires CurrentOk(chg, ids, nCol, s) && Columns(chg, nCol) && nCol > 0
    ensures NewOk(chg, ids, nCol, s.(isPSample := true, iCol := 0), nCol - 1)
    ensures CurrentOk(chg, ids, nCol, s.(isPSample := false, iCol := 0))
  {
    Singleton(chg, |chg| - 1, nCol - 1);
  }

  lemma RecolumnOk(chg: seq<nat>, ids: seq<int>, nCol: nat, s: Sample, i: nat)
    requires CurrentOk(chg, ids, nCol, s) && i < nCol
    ensures CurrentOk(chg, ids, nCol, s.(iCol := i))
  {
  }

  lemma CurrentShape(chg: seq<nat>, ids: seq<int>, nCol: nat, s: Sample)
    requires CurrentOk(chg, ids, nCol, s)
    ensures |s.anEq| == |s.anLt| == |s.anDLt| == nCol > 0 && s.iCol < nCol && Row(s) == |chg| - 1
    ensures forall j :: 0 <= j < nCol ==> s.anEq[j] >= 1
  {
  }
}
