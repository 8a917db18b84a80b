/** Groups of equal prefixes in a scan of an index.

    A scan is described by its change list: chg[q] is the left-most column in which row q differs
    from row q-1.  Two rows agree on columns 0..j exactly when no row between them changes a column
    at or before j. */
module ScanGroups {

  /** First row of the group that agrees with row r on columns 0..j. */
  function Start(chg: seq<nat>, r: nat, j: nat): (s: nat)
    requires r < |chg|
    ensures s <= r
  {
    if r == 0 || chg[r] <= j then r else Start(chg, r - 1, j)
  }

  /** One past the last row, so far, of that group. */
  function End(chg: seq<nat>, r: nat, j: nat): (e: nat)
    requires r < |chg|
    ensures r < e <= |chg|
    decreases |chg| - r
  {
    if r + 1 == |chg| then |chg|
    else if chg[r + 1] <= j then r + 1
    else End(chg, r + 1, j)
  }

  /** Number of groups before that of row r. */
  function Before(chg: seq<nat>, r: nat, j: nat): nat
    requires r < |chg|
  {
    if r == 0 then 0 else Before(chg, r - 1, j) + (if chg[r] <= j then 1 else 0)
  }

  /** Rows in the group so far. */
  function Count(chg: seq<nat>, r: nat, j: nat): (n: nat)
    requires r < |chg|
    ensures n >= 1
  {
    End(chg, r, j) - Start(chg, r, j)
  }

  /** The group still contains the last row of the scan. */
  predicate Open(chg: seq<nat>, r: nat, j: nat)
    requires r < |chg|
  {
    End(chg, r, j) == |chg|
  }

  // ----- How a new row changes the groups

  lemma {:induction false} StartExtend(chg: seq<nat>, c: nat, r: nat, j: nat)
    requires r < |chg|
    ensures Start(chg + [c], r, j) == Start(chg, r, j) && Before(chg + [c], r, j) == Before(chg, r, j)
  {
    if r > 0 { StartExtend(chg, c, r - 1, j); }
  }

  lemma {:induction false} EndExtend(chg: seq<nat>, c: nat, r: nat, j: nat)
    requires r < |chg|
    ensures End(chg + [c], r, j) == if !Open(chg, r, j) then End(chg, r, j) else if c <= j then |chg| else |chg| + 1
    decreases |chg| - r
  {
    var chg' := chg + [c];
    if r + 1 < |chg| {
      assert chg'[r + 1] == chg[r + 1];
      if chg[r + 1] > j { EndExtend(chg, c, r + 1, j); }
    } else if c > j {
      assert End(chg', r + 1, j) == |chg'|;
    }
  }

  /** A new row closes the groups whose column it changes, and adds one row to the others. */
  lemma GroupExtend(chg: seq<nat>, c: nat, r: nat, j: nat)
    requires r < |chg|
    ensures Open(chg + [c], r, j) <==> Open(chg, r, j) && c > j
    ensures Count(chg + [c], r, j) == Count(chg, r, j) + (if Open(chg, r, j) && c > j then 1 else 0)
    ensures Start(chg + [c], r, j) == Start(chg, r, j) && Before(chg + [c], r, j) == Before(chg, r, j)
  {
    StartExtend(chg, c, r, j);
    EndExtend(chg, c, r, j);
  }

  /** The groups of the last row. */
  lemma LastRow(chg: seq<nat>, j: nat)
    requires chg != []
    ensures Open(chg, |chg| - 1, j) && Count(chg, |chg| - 1, j) == |chg| - Start(chg, |chg| - 1, j)
  {
  }

  lemma NewRow(chg: seq<nat>, c: nat, j: nat)
    requires chg != []
    ensures Start(chg + [c], |chg|, j) == if c <= j then |chg| else Start(chg, |chg| - 1, j)
    ensures Before(chg + [c], |chg|, j) == Before(chg, |chg| - 1, j) + (if c <= j then 1 else 0)
  {
    var n := |chg|;
    var chg' := chg + [c];
    assert chg'[n] == c;
    StartExtend(chg, c, n - 1, j);
  }

  /** An open group is that of the last row: the rows from its start on. */
  lemma {:induction false} OpenRows(chg: seq<nat>, r: nat, j: nat)
    requires r < |chg|
    ensures Open(chg, r, j) <==> r >= Start(chg, |chg| - 1, j)
    ensures Open(chg, r, j) ==> Start(chg, r, j) == Start(chg, |chg| - 1, j)
    decreases |chg| - r
  {
    if r + 1 < |chg| {
      OpenRows(chg, r + 1, j);
      if chg[r + 1] <= j { StartAbove(chg, r + 1, |chg| - 1, j); }
    }
  }

  /** A row that changes column j bounds the groups of later rows from below. */
  lemma {:induction false} StartAbove(chg: seq<nat>, q: nat, r: nat, j: nat)
    requires q <= r < |chg| && chg[q] <= j
    ensures q <= Start(chg, r, j)
  {
    if q < r && chg[r] > j { StartAbove(chg, q, r - 1, j); }
  }

  /** Longer prefixes make smaller groups. */
  lemma {:induction false} StartNested(chg: seq<nat>, r: nat, i: nat, j: nat)
    requires r < |chg| && i <= j
    ensures Start(chg, r, i) <= Start(chg, r, j)
  {
    if r > 0 && chg[r] > j { StartNested(chg, r - 1, i, j); }
  }

  lemma {:induction false} EndNested(chg: seq<nat>, r: nat, i: nat, j: nat)
    requires r < |chg| && i <= j
    ensures End(chg, r, j) <= End(chg, r, i)
    decreases |chg| - r
  {
    if r + 1 < |chg| && chg[r + 1] > j { EndNested(chg, r + 1, i, j); }
  }

  lemma Nested(chg: seq<nat>, r: nat, i: nat, j: nat)
    requires r < |chg| && i <= j
    ensures Count(chg, r, j) <= Count(chg, r, i)
    ensures Open(chg, r, j) ==> Open(chg, r, i)
  {
    StartNested(chg, r, i, j);
    EndNested(chg, r, i, j);
  }

  /** When every row changes column j, every group is a single row. */
  lemma Singleton(chg: seq<nat>, r: nat, j: nat)
    requires r < |chg| && forall q :: 0 <= q < |chg| ==> chg[q] <= j
    ensures Start(chg, r, j) == r && Count(chg, r, j) == 1 && (Open(chg, r, j) <==> r == |chg| - 1)
  {
  }
}
