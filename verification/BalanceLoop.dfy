/** The balance loop: balance_quick, balance_nonroot, balance_deeper and the copy of an only child into
    the root, climbing from a modified page towards the root.

    The cursor stack is a list of frames: the pages above the current one, each with the index of the
    child that was followed. */
module BalanceLoop {
  import opened BTreeModel
  import Packing = BalancePacking
  import Rewrite = BalanceRewrite

  /** rootHdr is the room that the file header takes from the root page, if that is page 1. */
  datatype Params = Params(table: bool, usable: nat, rootHdr: nat, bulk: bool)

  ghost predicate ParamsOk(p: Params) { 480 <= p.usable && (p.rootHdr == 0 || p.rootHdr == 100) }

  /** Bytes for cells and their pointers on a page. */
  function Capacity(p: Params, leaf: bool): int { p.usable - (if leaf then 8 else 12) }

  function Room(p: Params, leaf: bool, isRoot: bool): int { Capacity(p, leaf) - (if isRoot then p.rootHdr else 0) }

  function Cost(c: Cell, leaf: bool): nat { if leaf then c.leafCost else c.nodeCost }

  function Costs(cells: seq<Cell>, leaf: bool): (r: seq<nat>) {
    seq(|cells|, i requires 0 <= i < |cells| => Cost(cells[i], leaf))
  }

  function Total(cells: seq<Cell>, leaf: bool): nat {
    if cells == [] then 0 else Total(cells[..|cells| - 1], leaf) + Cost(cells[|cells| - 1], leaf)
  }

  /** Larger payloads spill to overflow pages, so that a table cell fits on a leaf, three index cells fit
      on a leaf and three cells on an interior page, also if that is page 1; the interior cells of a
      table carry only a key, and six of them fit on a page. */
  ghost predicate CellOk(p: Params, c: Cell) {
    && 2 < c.leafCost <= Capacity(p, true) && (!p.table ==> 3 * c.leafCost <= Capacity(p, true))
    && 2 < c.nodeCost && 3 * c.nodeCost <= Capacity(p, false) - p.rootHdr
       && (p.table ==> 6 * c.nodeCost <= Capacity(p, false))
  }

  ghost predicate CellsOk(p: Params, cells: seq<Cell>) { forall i :: 0 <= i < |cells| ==> CellOk(p, cells[i]) }

  /** All leaves lie d levels down, interior pages have one child more than cells, and no page except
      possibly the top one has more cells than fit. */
  ghost predicate SoundBelow(p: Params, t: Tree, d: nat)
    decreases d, 0
  {
    && CellsOk(p, t.cells)
    && match t
       case Leaf(_) => d == 0
       case Node(kids, cells) => d > 0 && |kids| == |cells| + 1 && AllSound(p, kids, d - 1)
  }

  ghost predicate AllSound(p: Params, kids: seq<Tree>, d: nat)
    decreases d, 2
  {
    forall k :: 0 <= k < |kids| ==> Sound(p, kids[k], d)
  }

  ghost predicate Sound(p: Params, t: Tree, d: nat)
    decreases d, 1
  {
    SoundBelow(p, t, d) && Total(t.cells, t.Leaf?) <= Capacity(p, t.Leaf?)
  }

  /** The page and all pages below it hold cells. */
  ghost predicate Filled(t: Tree)
    decreases t, 1
  {
    t.cells != [] && FilledBelow(t)
  }

  /** All pages below the top one hold cells. */
  ghost predicate FilledBelow(t: Tree)
    decreases t, 0
  {
    t.Node? ==> AllFilled(t.kids)
  }

  ghost predicate AllFilled(kids: seq<Tree>) { forall k :: 0 <= k < |kids| ==> Filled(kids[k]) }

  // ----- The cursor stack

  datatype Frame = Frame(kids: seq<Tree>, cells: seq<Cell>, idx: nat)

  function Front<T>(s: seq<T>): seq<T> requires s != [] { s[..|s| - 1] }
  function Last<T>(s: seq<T>): T requires s != [] { s[|s| - 1] }

  ghost predicate FrameSound(p: Params, f: Frame, d: nat) {
    && |f.kids| == |f.cells| + 1 && f.idx < |f.kids| && CellsOk(p, f.cells)
    && forall k :: 0 <= k < |f.kids| && k != f.idx ==> Sound(p, f.kids[k], d)
  }

  ghost predicate StackSound(p: Params, frames: seq<Frame>, d: nat)
    decreases frames
  {
    frames == [] || (FrameSound(p, Last(frames), d) && StackSound(p, Front(frames), d + 1))
  }

  /** A page on the stack fits; when a deletion has replaced one of its cells by a larger one, it may
      be that one cell is too much, the one right of the child that was followed. */
  ghost predicate FrameLoose(p: Params, f: Frame, isRoot: bool) {
    || Total(f.cells, false) <= Room(p, false, isRoot)
    || (!p.bulk && f.idx < |f.cells| && Total(f.cells, false) - Cost(f.cells[f.idx], false) <= Room(p, false, isRoot))
  }

  ghost predicate StackLoose(p: Params, frames: seq<Frame>) {
    forall i :: 0 <= i < |frames| ==> FrameLoose(p, frames[i], i == 0)
  }

  /** All pages beside the followed child, and those below them, hold cells. */
  ghost predicate FrameFilled(f: Frame) { forall k :: 0 <= k < |f.kids| && k != f.idx ==> Filled(f.kids[k]) }

  /** All pages of a tree hold cells, except perhaps the root, the current page and those below it. */
  ghost predicate StackFilled(frames: seq<Frame>) {
    forall i :: 0 <= i < |frames| ==> FrameFilled(frames[i]) && (i > 0 ==> frames[i].cells != [])
  }

  function Fill(f: Frame, t: Tree): Tree { Node(if f.idx < |f.kids| then f.kids[f.idx := t] else f.kids, f.cells) }

  /** The whole tree of a stack and a current page. */
  function Plug(frames: seq<Frame>, t: Tree): Tree
    decreases |frames|
  {
    if frames == [] then t else Plug(Front(frames), Fill(Last(frames), t))
  }

  lemma FillStandsFor(table: bool, f: Frame, t': Tree, t: Tree)
    requires |f.kids| == |f.cells| + 1 && f.idx < |f.kids|
    requires StandsFor(Items(table, t'), Items(table, t))
    ensures StandsFor(Items(table, Fill(f, t')), Items(table, Fill(f, t)))
  {
    hide StandsFor, Items, Forest;
    FillItems(table, f, t');
    FillItems(table, f, t);
    StandsForInside(Items(table, t'), Items(table, t), Forest(table, f.kids[..f.idx], f.cells[..f.idx]),
                    RightOf(table, f.kids[f.idx + 1..], f.cells[f.idx..]));
  }

  lemma FillItems(table: bool, f: Frame, t: Tree)
    requires |f.kids| == |f.cells| + 1 && f.idx < |f.kids|
    ensures Items(table, Fill(f, t)) == Forest(table, f.kids[..f.idx], f.cells[..f.idx]) + Items(table, t)
                                        + RightOf(table, f.kids[f.idx + 1..], f.cells[f.idx..])
  {
    hide Forest;
    assert f.kids[f.idx := t] == f.kids[..f.idx] + [t] + f.kids[f.idx + 1..];
    assert f.cells == f.cells[..f.idx] + [] + f.cells[f.idx..];
    ForestContext(table, f.kids[..f.idx], f.cells[..f.idx], [t], [], f.kids[f.idx + 1..], f.cells[f.idx..]);
    ForestOne(table, t);
  }

  lemma {:induction false} PlugStandsFor(p: Params, frames: seq<Frame>, d: nat, t': Tree, t: Tree)
    requires StackSound(p, frames, d) && StandsFor(Items(p.table, t'), Items(p.table, t))
    ensures StandsFor(Items(p.table, Plug(frames, t')), Items(p.table, Plug(frames, t)))
    decreases |frames|
  {
    hide StandsFor, Items, Fill;
    if frames != [] {
      FillStandsFor(p.table, Last(frames), t', t);
      PlugStandsFor(p, Front(frames), d + 1, Fill(Last(frames), t'), Fill(Last(frames), t));
    }
  }

  // ----- Costs

  lemma {:induction false} TotalConcat(a: seq<Cell>, b: seq<Cell>, leaf: bool)
    ensures Total(a + b, leaf) == Total(a, leaf) + Total(b, leaf)
    decreases |b|
  {
    if b == [] {
      assert a + b == a;
    } else {
      assert (a + b)[..|a + b| - 1] == a + b[..|b| - 1];
      TotalConcat(a, b[..|b| - 1], leaf);
    }
  }

  lemma {:induction false} PrefixTotal(b: seq<Cell>, leaf: bool, j: nat)
    requires j <= |b|
    ensures Packing.Prefix(Costs(b, leaf), j) == Total(b[..j], leaf)
  {
    if j > 0 {
      PrefixTotal(b, leaf, j - 1);
      assert b[..j][..j - 1] == b[..j - 1];
    }
  }

  lemma SliceTotal(b: seq<Cell>, leaf: bool, i: nat, j: nat)
    requires i <= j <= |b|
    ensures Packing.Prefix(Costs(b, leaf), j) - Packing.Prefix(Costs(b, leaf), i) == Total(b[i..j], leaf)
  {
    hide Total, Packing.Prefix;
    PrefixTotal(b, leaf, i);
    PrefixTotal(b, leaf, j);
    assert b[..j] == b[..i] + b[i..j];
    TotalConcat(b[..i], b[i..j], leaf);
  }

  /** At most n cells cost at most n times the largest. */
  lemma {:induction false} TotalBound(cells: seq<Cell>, leaf: bool, n: nat, cap: int)
    requires |cells| <= n <= 3 && cap >= 0 && forall i :: 0 <= i < |cells| ==> 3 * Cost(cells[i], leaf) <= cap
    ensures 3 * Total(cells, leaf) <= n * cap
    decreases n
  {
    if cells != [] { TotalBound(cells[..|cells| - 1], leaf, n - 1, cap); }
  }

  /** How many overflow cells a page can have: one on a leaf; inside, three in an index and four in a
      table. */
  function MostOver(p: Params, leaf: bool): nat { if leaf then 1 else if p.table then 4 else 3 }

  /** All cells but n fit, and n is no more than the possible number of overflow cells. */
  ghost predicate SplitAt(p: Params, cells: seq<Cell>, leaf: bool, at: nat, n: nat, room: int) {
    && at + n <= |cells| && 1 <= n <= MostOver(p, leaf)
    && Total(cells[..at], leaf) + Total(cells[at + n..], leaf) <= room
  }

  ghost predicate NearlyFits(p: Params, cells: seq<Cell>, leaf: bool, room: int) {
    Total(cells, leaf) <= room || exists at, n :: SplitAt(p, cells, leaf, at, n, room)
  }

  // ----- Packing never fails

  /** A packing in which only page j may be too large. */
  ghost predicate FeasibleBut(cost: seq<nat>, usable: int, leafData: bool, cnt: seq<nat>, j: nat) {
    && j < |cnt| && cnt[|cnt| - 1] == |cost|
    && (forall i :: 0 <= i < |cnt| ==> Packing.First(cnt, i, leafData) <= cnt[i] <= |cost|)
    && (forall i :: 0 <= i < |cnt| && i != j ==> Packing.PageSize(cost, cnt, i, leafData) <= usable)
  }

  function Inserted(cnt: seq<nat>, j: nat, x: nat): (r: seq<nat>)
    requires j < |cnt|
    ensures |r| == |cnt| + 1 && r[j] == x && r[|cnt|] == cnt[|cnt| - 1]
    ensures forall i :: 0 <= i < j ==> r[i] == cnt[i]
    ensures forall i :: j < i <= |cnt| ==> r[i] == cnt[i - 1]
  {
    cnt[..j] + [x] + cnt[j..]
  }

  /** The page that page i of cnt becomes when page j is cut in two, for i other than j. */
  lemma PageElsewhere(cost: seq<nat>, leafData: bool, cnt: seq<nat>, j: nat, x: nat, i: nat)
    requires j < |cnt| && i < |cnt| && i != j
    ensures var i', cnt' := if i < j then i else i + 1, Inserted(cnt, j, x);
            && cnt'[i'] == cnt[i] && Packing.First(cnt', i', leafData) == Packing.First(cnt, i, leafData)
            && Packing.PageSize(cost, cnt', i', leafData) == Packing.PageSize(cost, cnt, i, leafData)
  {
    hide Packing.Prefix, Inserted;
  }

  /** Cutting a page in two. */
  lemma InsertCut(cost: seq<nat>, usable: int, leafData: bool, cnt: seq<nat>, j: nat, x: nat)
    requires FeasibleBut(cost, usable, leafData, cnt, j)
    requires Packing.First(cnt, j, leafData) <= x && Packing.After(x, leafData) <= cnt[j]
    requires Packing.Prefix(cost, x) - Packing.Prefix(cost, Packing.First(cnt, j, leafData)) <= usable
    ensures FeasibleBut(cost, usable, leafData, Inserted(cnt, j, x), j + 1)
    ensures Packing.PageSize(cost, Inserted(cnt, j, x), j + 1, leafData)
            == Packing.Prefix(cost, cnt[j]) - Packing.Prefix(cost, Packing.After(x, leafData))
    ensures Packing.First(Inserted(cnt, j, x), j + 1, leafData) == Packing.After(x, leafData)
            && Inserted(cnt, j, x)[j + 1] == cnt[j]
  {
    hide Packing.First, Packing.PageSize, Packing.Prefix, Inserted;
    var cnt' := Inserted(cnt, j, x);
    SizeAt(cost, leafData, cnt, j, x);
    FirstAt(cnt, leafData, j, x);
    forall i | 0 <= i < |cnt'|
      ensures Packing.First(cnt', i, leafData) <= cnt'[i] <= |cost|
      ensures i != j + 1 ==> Packing.PageSize(cost, cnt', i, leafData) <= usable
    {
      if i < j {
        PageElsewhere(cost, leafData, cnt, j, x, i);
      } else if i > j + 1 {
        PageElsewhere(cost, leafData, cnt, j, x, i - 1);
      }
    }
  }

  lemma FirstAt(cnt: seq<nat>, leafData: bool, j: nat, x: nat)
    requires j < |cnt|
    ensures Packing.First(Inserted(cnt, j, x), j, leafData) == Packing.First(cnt, j, leafData)
    ensures Packing.First(Inserted(cnt, j, x), j + 1, leafData) == Packing.After(x, leafData)
  {
  }

  lemma SizeAt(cost: seq<nat>, leafData: bool, cnt: seq<nat>, j: nat, x: nat)
    requires j < |cnt|
    ensures Packing.PageSize(cost, Inserted(cnt, j, x), j, leafData)
            == Packing.Prefix(cost, x) - Packing.Prefix(cost, Packing.First(cnt, j, leafData))
    ensures Packing.PageSize(cost, Inserted(cnt, j, x), j + 1, leafData)
            == Packing.Prefix(cost, cnt[j]) - Packing.Prefix(cost, Packing.After(x, leafData))
  {
    hide Packing.Prefix;
    FirstAt(cnt, leafData, j, x);
  }

  /** The old pages are a packing, too. */
  ghost predicate OldPages(b: seq<Cell>, leafData: bool, group: seq<Tree>, cnt: seq<nat>) {
    && |cnt| == |group| > 0 && cnt[|cnt| - 1] == |b|
    && forall x :: 0 <= x < |cnt| ==> OldPage(b, leafData, group, cnt, x)
  }

  ghost predicate OldPage(b: seq<Cell>, leafData: bool, group: seq<Tree>, cnt: seq<nat>, x: nat)
    requires x < |cnt| && |cnt| <= |group|
  {
    Packing.First(cnt, x, leafData) <= cnt[x] <= |b| && b[Packing.First(cnt, x, leafData)..cnt[x]] == group[x].cells
  }

  lemma OldIsFeasibleBut(b: seq<Cell>, leaf: bool, leafData: bool, cap: int, group: seq<Tree>, cnt: seq<nat>, j: nat)
    requires OldPages(b, leafData, group, cnt) && j < |group|
    requires forall k :: 0 <= k < |group| && k != j ==> Total(group[k].cells, leaf) <= cap
    ensures FeasibleBut(Costs(b, leaf), cap, leafData, cnt, j)
  {
    hide Packing.Prefix, Packing.First, Total;
    forall x | 0 <= x < |cnt|
      ensures Packing.First(cnt, x, leafData) <= cnt[x] <= |b|
      ensures x != j ==> Packing.PageSize(Costs(b, leaf), cnt, x, leafData) <= cap
    {
      assert OldPage(b, leafData, group, cnt, x);
      SliceTotal(b, leaf, Packing.First(cnt, x, leafData), cnt[x]);
    }
  }

  /** How many pages a group of siblings can gain: two for table leaves, otherwise one. */
  function MostNew(leafData: bool): nat { if leafData then 2 else 1 }

  /** If one page of a group nearly fits and the others fit, a few more pages are enough; for three
      siblings that are at most five in all. */
  lemma FivePagesEnough(p: Params, b: seq<Cell>, leaf: bool, leafData: bool, group: seq<Tree>, cnt: seq<nat>, j: nat)
    requires OldPages(b, leafData, group, cnt) && j < |group| && ParamsOk(p) && CellsOk(p, b)
             && leafData == (leaf && p.table)
    requires forall k :: 0 <= k < |group| && k != j ==> Total(group[k].cells, leaf) <= Capacity(p, leaf)
    requires NearlyFits(p, group[j].cells, leaf, Capacity(p, leaf))
    ensures exists other ::
              Packing.Feasible(Costs(b, leaf), Capacity(p, leaf), leafData, other)
              && |other| <= |group| + MostNew(leafData)
  {
    hide Packing.Prefix, Total, CellOk, CellsOk;
    var cap, cost := Capacity(p, leaf), Costs(b, leaf);
    OldIsFeasibleBut(b, leaf, leafData, cap, group, cnt, j);
    assert OldPage(b, leafData, group, cnt, j);
    var s := Packing.First(cnt, j, leafData);
    if Total(group[j].cells, leaf) <= cap {
      SliceTotal(b, leaf, s, cnt[j]);
      assert Packing.Feasible(cost, cap, leafData, cnt);
    } else {
      var at, n :| SplitAt(p, group[j].cells, leaf, at, n, cap);
      if leafData {
        SplitInThree(p, b, group[j].cells, cnt, j, at);
      } else {
        SplitInTwo(p, b, leaf, group[j].cells, cnt, j, at, n);
      }
    }
  }

  /** A table leaf with one cell too many: what is before the cell, the cell, and what is after it. */
  lemma SplitInThree(p: Params, b: seq<Cell>, cells: seq<Cell>, cnt: seq<nat>, j: nat, at: nat)
    requires CellsOk(p, b) && FeasibleBut(Costs(b, true), Capacity(p, true), true, cnt, j)
    requires b[Packing.First(cnt, j, true)..cnt[j]] == cells && SplitAt(p, cells, true, at, 1, Capacity(p, true))
    ensures exists other :: Packing.Feasible(Costs(b, true), Capacity(p, true), true, other) && |other| <= |cnt| + 2
  {
    hide Packing.Prefix, Packing.First, Packing.PageSize, Total, CellOk, CellsOk, Inserted;
    var cap, cost := Capacity(p, true), Costs(b, true);
    var s, e := Packing.First(cnt, j, true), cnt[j];
    var x := s + at;
    SliceTotal(b, true, s, x);
    assert b[s..x] == cells[..at];
    InsertCut(cost, cap, true, cnt, j, x);
    var cnt1 := Inserted(cnt, j, x);
    SliceTotal(b, true, x + 1, e);
    assert b[x + 1..e] == cells[at + 1..];
    OneFits(p, b, x);
    InsertCut(cost, cap, true, cnt1, j + 1, x + 1);
    assert Packing.Feasible(cost, cap, true, Inserted(cnt1, j + 1, x + 1));
  }

  lemma OneFits(p: Params, b: seq<Cell>, x: nat)
    requires CellsOk(p, b) && x < |b|
    ensures Packing.Prefix(Costs(b, true), x + 1) - Packing.Prefix(Costs(b, true), x) <= Capacity(p, true)
  {
    assert CellOk(p, b[x]);
  }

  /** Any other page with a few cells too many: one of these can be the divider between two pages. */
  lemma SplitInTwo(p: Params, b: seq<Cell>, leaf: bool, cells: seq<Cell>, cnt: seq<nat>, j: nat, at: nat, n: nat)
    requires ParamsOk(p) && CellsOk(p, b) && !(leaf && p.table)
             && FeasibleBut(Costs(b, leaf), Capacity(p, leaf), false, cnt, j)
    requires b[Packing.First(cnt, j, false)..cnt[j]] == cells && SplitAt(p, cells, leaf, at, n, Capacity(p, leaf))
    ensures exists other :: Packing.Feasible(Costs(b, leaf), Capacity(p, leaf), false, other) && |other| <= |cnt| + 1
  {
    hide Packing.Prefix, Packing.First, Packing.PageSize, Total, CellOk, CellsOk, Inserted;
    var cap, cost := Capacity(p, leaf), Costs(b, leaf);
    var s, e := Packing.First(cnt, j, false), cnt[j];
    SliceTotal(b, leaf, s, s + at);
    assert b[s..s + at] == cells[..at];
    SliceTotal(b, leaf, s + at + n, e);
    assert b[s + at + n..e] == cells[at + n..];
    var x := FindDivider(p, b, leaf, s, at, n, e);
    InsertCut(cost, cap, false, cnt, j, x);
    assert Packing.Feasible(cost, cap, false, Inserted(cnt, j, x));
  }

  /** The divider: the last of the n cells if the others fit on the left, else the first if the others
      fit on the right, else the one in the middle. */
  lemma FindDivider(p: Params, b: seq<Cell>, leaf: bool, s: nat, at: nat, n: nat, e: nat) returns (x: nat)
    requires ParamsOk(p) && CellsOk(p, b) && !(leaf && p.table) && 1 <= n <= MostOver(p, leaf) && s + at + n <= e <= |b|
    requires var cost := Costs(b, leaf);
             Packing.Prefix(cost, s + at) - Packing.Prefix(cost, s) + Packing.Prefix(cost, e)
                 - Packing.Prefix(cost, s + at + n) <= Capacity(p, leaf)
    ensures s + at <= x < s + at + n
    ensures var cost := Costs(b, leaf);
            && Packing.Prefix(cost, x) - Packing.Prefix(cost, s) <= Capacity(p, leaf)
            && Packing.Prefix(cost, e) - Packing.Prefix(cost, x + 1) <= Capacity(p, leaf)
  {
    hide Packing.Prefix, Costs, CellsOk;
    var cost, cap, f := Costs(b, leaf), Capacity(p, leaf), s + at;
    Packing.PrefixMonotone(cost, s, f);
    Packing.PrefixMonotone(cost, f + n, e);
    CellStep(p, b, leaf, f);
    if n > 1 { CellStep(p, b, leaf, f + 1); }
    if n > 2 { CellStep(p, b, leaf, f + 2); }
    if n > 3 { CellStep(p, b, leaf, f + 3); }
    x := if Packing.Prefix(cost, f + n - 1) - Packing.Prefix(cost, s) <= cap then f + n - 1
         else if Packing.Prefix(cost, e) - Packing.Prefix(cost, f + 1) <= cap then f
         else f + 1;
  }

  lemma CellStep(p: Params, b: seq<Cell>, leaf: bool, i: nat)
    requires CellsOk(p, b) && !(leaf && p.table) && ParamsOk(p) && i < |b|
    ensures var c := Packing.Prefix(Costs(b, leaf), i + 1) - Packing.Prefix(Costs(b, leaf), i);
            0 <= c && 3 * c <= Capacity(p, leaf) && (p.table ==> 6 * c <= Capacity(p, leaf))
  {
    assert CellOk(p, b[i]);
    assert Costs(b, leaf)[i] == Cost(b[i], leaf);
  }

  // ----- balance_nonroot

  /** Up to three siblings take part, in bulk mode two: the page, the one left of it if there is one, and the
      one right of it if there is one; at either end of the row two on the same side. */
  ghost predicate SiblingsChosen(nCell: nat, idx: nat, bulk: bool, nx: nat, n: nat) {
    && nx <= idx <= nx + n <= nCell && n == (if nCell < 2 then nCell else if bulk then 1 else 2)
    && (idx > 0 ==> nx < idx) && (!bulk && idx < nCell ==> idx < nx + n)
  }

  /** Which siblings take part: dividers nx up to nx + n, and the children around them. */
  method ChooseSiblings(nCell: nat, idx: nat, bulk: bool) returns (nx: nat, n: nat)
    requires idx <= nCell
    ensures nx <= idx <= nx + n <= nCell && n <= 2
    ensures SiblingsChosen(nCell, idx, bulk, nx, n)
  {
    if nCell < 2 {
      nx, n := 0, nCell;
    } else {
      var bBulk := if bulk then 1 else 0;
      nx := if idx == 0 then 0 else if idx == nCell then nCell - 2 + bBulk else idx - 1;
      n := 2 - bBulk;
    }
  }

  function From<T>(s: seq<T>, i: nat): seq<T> { if i <= |s| then s[i..] else [] }

  method LoadCells(leafData: bool, group: seq<Tree>, divs: seq<Cell>) returns (b: seq<Cell>, cnt: seq<nat>)
    requires |group| == |divs| + 1
    ensures b == GatherCells(leafData, group, divs) && OldPages(b, leafData, group, cnt)
  {
    hide GatherCells, OldPage;
    GatherNone(leafData);
    b, cnt := [], [];
    var i := 0;
    assert From(group, 0) == group && From(divs, 0) == divs;
    while i < |group|
      invariant 0 <= i <= |group| && |cnt| == i
      invariant GatherCells(leafData, group, divs) == b + GatherCells(leafData, From(group, i), From(divs, i))
      invariant i < |group| ==> |b| == Packing.First(cnt, i, leafData)
      invariant i == |group| ==> |b| == cnt[i - 1]
      invariant forall x :: 0 <= x < i ==> OldPage(b, leafData, group, cnt, x)
    {
      ghost var b0, cnt0 := b, cnt;
      var d := if i < |divs| && !leafData then [divs[i]] else [];
      b, cnt := b + group[i].cells, cnt + [|b + group[i].cells|];
      b := b + d;
      LoadStep(leafData, group, divs, b0, b, i);
      forall x | 0 <= x < i + 1 ensures OldPage(b, leafData, group, cnt, x) {
        OldPageGrows(leafData, group, b0, cnt0, b, cnt, x);
      }
      i := i + 1;
    }
    assert From(group, i) == [] && From(divs, i) == [] && b + [] == b;
  }

  lemma GatherNone(leafData: bool)
    ensures GatherCells(leafData, [], []) == []
  {
  }

  lemma LoadStep(leafData: bool, group: seq<Tree>, divs: seq<Cell>, b: seq<Cell>, b': seq<Cell>, i: nat)
    requires |group| == |divs| + 1 && i < |group|
    requires b' == b + group[i].cells + (if i < |divs| && !leafData then [divs[i]] else [])
    ensures b + GatherCells(leafData, From(group, i), From(divs, i))
            == b' + GatherCells(leafData, From(group, i + 1), From(divs, i + 1))
  {
    var g, ds := From(group, i), From(divs, i);
    assert g[1..] == From(group, i + 1) && Rest(ds) == From(divs, i + 1);
    assert g[0] == group[i] && (ds == [] <==> i == |divs|);
    var m, rest := if i < |divs| && !leafData then [divs[i]] else [],
        GatherCells(leafData, From(group, i + 1), From(divs, i + 1));
    assert GatherCells(leafData, g, ds) == group[i].cells + m + rest;
    Associate(b, group[i].cells + m, rest);
    Associate(b, group[i].cells, m);
  }

  lemma OldPageGrows(leafData: bool, group: seq<Tree>, b: seq<Cell>, cnt: seq<nat>, b': seq<Cell>, cnt': seq<nat>,
                     x: nat)
    requires |cnt| < |group| && x <= |cnt| && |b| == Packing.First(cnt, |cnt|, leafData)
    requires x < |cnt| ==> OldPage(b, leafData, group, cnt, x)
    requires |b'| >= |b + group[|cnt|].cells| && b'[..|b + group[|cnt|].cells|] == b + group[|cnt|].cells
    requires cnt' == cnt + [|b + group[|cnt|].cells|]
    ensures OldPage(b', leafData, group, cnt', x)
  {
    var f := Packing.First(cnt', x, leafData);
    var bg := b + group[|cnt|].cells;
    assert f == Packing.First(cnt, x, leafData);
    SliceOfPrefix(b', bg, f, cnt'[x]);
    if x < |cnt| { SliceOfPrefix(bg, b, f, cnt[x]); }
  }

  lemma SliceOfPrefix<T>(s: seq<T>, t: seq<T>, i: nat, j: nat)
    requires i <= j <= |t| <= |s| && s[..|t|] == t
    ensures s[i..j] == t[i..j]
  {
    forall k | i <= k < j ensures s[k] == t[k] { assert s[..|t|][k] == s[k]; }
  }

  /** Every page of a packing fits. */
  ghost predicate Fitting(cost: seq<nat>, cap: int, leafData: bool, start: nat, cnt: seq<nat>)
    decreases cnt
  {
    && cnt != [] && Packing.Prefix(cost, cnt[0]) - Packing.Prefix(cost, start) <= cap
    && (|cnt| == 1 || Fitting(cost, cap, leafData, Next(cnt[0], leafData), cnt[1..]))
  }

  lemma {:induction false} GoodIsCuts(cost: seq<nat>, cap: int, leafData: bool, cnt: seq<nat>, i: nat)
    requires Packing.GoodPacking(cost, cap, leafData, cnt) && i < |cnt|
    ensures Cuts(|cost|, leafData, Packing.First(cnt, i, leafData), cnt[i..])
    ensures Fitting(cost, cap, leafData, Packing.First(cnt, i, leafData), cnt[i..])
    decreases |cnt| - i
  {
    hide Packing.GoodPacking, Packing.First, Packing.Prefix;
    var s := cnt[i..];
    assert s[0] == cnt[i] && |s| == |cnt| - i;
    GoodAt(cost, cap, leafData, cnt, i);
    if i < |cnt| - 1 {
      assert s[1..] == cnt[i + 1..];
      GoodIsCuts(cost, cap, leafData, cnt, i + 1);
    }
  }

  lemma GoodAt(cost: seq<nat>, cap: int, leafData: bool, cnt: seq<nat>, i: nat)
    requires Packing.GoodPacking(cost, cap, leafData, cnt) && i < |cnt|
    ensures Packing.First(cnt, i, leafData) < cnt[i]
            && Packing.Prefix(cost, cnt[i]) - Packing.Prefix(cost, Packing.First(cnt, i, leafData)) <= cap
    ensures if i == |cnt| - 1 then cnt[i] == |cost|
            else cnt[i] < |cost| && Packing.First(cnt, i + 1, leafData) == Next(cnt[i], leafData)
  {
    hide Packing.Prefix;
    assert Packing.PageSize(cost, cnt, i, leafData) <= cap;
    if i < |cnt| - 1 { assert Packing.First(cnt, i + 1, leafData) < cnt[i + 1]; }
  }

  lemma {:induction false} LeafPagesSound(p: Params, b: seq<Cell>, leafData: bool, start: nat, cnt: seq<nat>)
    requires CellsOk(p, b) && Cuts(|b|, leafData, start, cnt)
             && Fitting(Costs(b, true), Capacity(p, true), leafData, start, cnt)
    ensures AllSound(p, LeafPages(b, leafData, start, cnt), 0) && CellsOk(p, NewDividers(b, leafData, start, cnt))
    decreases cnt
  {
    hide Total, CellOk, Packing.Prefix;
    SliceTotal(b, true, start, cnt[0]);
    SliceOk(p, b, start, cnt[0]);
    assert Sound(p, Leaf(b[start..cnt[0]]), 0);
    if |cnt| > 1 {
      LeafPagesSound(p, b, leafData, Next(cnt[0], leafData), cnt[1..]);
      DividerOk(p, b[if leafData then cnt[0] - 1 else cnt[0]]);
    }
  }

  lemma SliceOk(p: Params, b: seq<Cell>, i: nat, j: nat)
    requires CellsOk(p, b) && i <= j <= |b|
    ensures CellsOk(p, b[i..j])
  {
  }

  lemma DividerOk(p: Params, c: Cell)
    requires CellOk(p, c)
    ensures CellOk(p, Divider(c))
  {
  }

  lemma {:induction false} NodePagesSound(p: Params, b: seq<Cell>, kids: seq<Tree>, start: nat, cnt: seq<nat>, d: nat)
    requires CellsOk(p, b) && Cuts(|b|, false, start, cnt)
             && Fitting(Costs(b, false), Capacity(p, false), false, start, cnt)
    requires |kids| == |b| + 1 && AllSound(p, kids, d)
    ensures AllSound(p, NodePages(b, kids, start, cnt), d + 1) && CellsOk(p, NewDividers(b, false, start, cnt))
    decreases cnt
  {
    hide Total, CellOk, Packing.Prefix;
    SliceTotal(b, false, start, cnt[0]);
    SliceOk(p, b, start, cnt[0]);
    SomeSound(p, kids, d, start, cnt[0] + 1);
    assert Sound(p, Node(kids[start..cnt[0] + 1], b[start..cnt[0]]), d + 1);
    if |cnt| > 1 { NodePagesSound(p, b, kids, cnt[0] + 1, cnt[1..], d); }
  }

  lemma SomeSound(p: Params, kids: seq<Tree>, d: nat, i: nat, j: nat)
    requires AllSound(p, kids, d) && i <= j <= |kids|
    ensures AllSound(p, kids[i..j], d)
  {
    hide Sound;
  }

  /** What is gathered from sound siblings. */
  lemma {:induction false} GatherSound(p: Params, leafData: bool, group: seq<Tree>, divs: seq<Cell>, d: nat)
    requires CellsOk(p, divs) && forall k :: 0 <= k < |group| ==> SoundBelow(p, group[k], d)
    ensures CellsOk(p, GatherCells(leafData, group, divs))
    ensures d > 0 ==> AllNodes(group) && AllSound(p, GatherKids(group), d - 1)
  {
    hide CellOk, Sound;
    if group != [] {
      GatherSound(p, leafData, group[1..], Rest(divs), d);
      assert SoundBelow(p, group[0], d);
    }
  }

  lemma CostsOk(p: Params, b: seq<Cell>, leaf: bool, leafData: bool)
    requires ParamsOk(p) && CellsOk(p, b) && leafData == (leaf && p.table)
    ensures |Costs(b, leaf)| == |b|
    ensures forall j :: 0 <= j < |b| ==> 2 < Costs(b, leaf)[j] <= Capacity(p, leaf)
    ensures leafData || Packing.TwoFit(Costs(b, leaf), Capacity(p, leaf))
  {
    assert forall j :: 0 <= j < |b| ==> CellOk(p, b[j]) && Costs(b, leaf)[j] == Cost(b[j], leaf);
  }

  lemma GoodNotEmpty(cost: seq<nat>, cap: int, leafData: bool, cnt: seq<nat>)
    requires Packing.GoodPacking(cost, cap, leafData, cnt)
    ensures cnt != [] && forall i :: 0 <= i < |cnt| ==> Packing.First(cnt, i, leafData) < cnt[i]
  {
    hide Packing.Feasible;
    assert Packing.Feasible(cost, cap, leafData, cnt) ==> cnt != [] by { NotNone(cost, cap, leafData, cnt); }
  }

  lemma NotNone(cost: seq<nat>, cap: int, leafData: bool, cnt: seq<nat>)
    ensures Packing.Feasible(cost, cap, leafData, cnt) ==> cnt != []
  {
  }

  /** The cells do not fit on fewer than n pages. */
  ghost predicate Fewest(p: Params, b: seq<Cell>, leaf: bool, n: nat) {
    forall other ::
      Packing.Feasible(Costs(b, leaf), Capacity(p, leaf), leaf && p.table, other) ==> n <= |other|
  }

  lemma FewestPages(p: Params, b: seq<Cell>, leaf: bool, n: nat)
    requires n == 1 || forall other ::
               Packing.Feasible(Costs(b, leaf), Capacity(p, leaf), leaf && p.table, other) ==> n <= |other|
    ensures Fewest(p, b, leaf, n)
  {
  }

  /** Deals out gathered cells to as few pages as possible, none of them empty.  This never reports
      corruption. */
  method DealOut(p: Params, leaf: bool, b: seq<Cell>, cntOld: seq<nat>, ghost group: seq<Tree>, ghost j: nat)
    returns (ok: bool, cnt: seq<nat>)
    requires ParamsOk(p) && CellsOk(p, b) && OldPages(b, leaf && p.table, group, cntOld) && j < |group| <= 3
    requires forall k :: 0 <= k < |group| && k != j ==> Total(group[k].cells, leaf) <= Capacity(p, leaf)
    requires NearlyFits(p, group[j].cells, leaf, Capacity(p, leaf))
    ensures ok && |cnt| <= |group| + MostNew(leaf && p.table) && Cuts(|b|, leaf && p.table, 0, cnt)
            && Fitting(Costs(b, leaf), Capacity(p, leaf), leaf && p.table, 0, cnt)
    ensures Fewest(p, b, leaf, |cnt|) && (b == [] ==> |cnt| == 1)
    ensures b != [] ==> forall i :: 0 <= i < |cnt| ==> Packing.First(cnt, i, leaf && p.table) < cnt[i]
  {
    hide Packing.GoodPacking, Packing.Feasible, Packing.TwoFit, NearlyFits, SplitAt, Total, CellsOk, Packing.PageSize;
    var leafData, cost := leaf && p.table, Costs(b, leaf);
    forall x | 0 <= x < |cntOld| ensures cntOld[x] <= |b| { assert OldPage(b, leafData, group, cntOld, x); }
    if b == [] { FewestPages(p, b, leaf, 1); return true, [0]; }
    CostsOk(p, b, leaf, leafData);
    FivePagesEnough(p, b, leaf, leafData, group, cntOld, j);
    var szOld := seq(|cntOld|, i requires 0 <= i < |cntOld| => Packing.PageSize(cost, cntOld, i, leafData));
    var rc, sz;
    rc, cnt, sz := Packing.Pack(cost, Capacity(p, leaf), leafData, p.bulk, cntOld, szOld, |cntOld|);
    if rc.PackCorrupt? { return false, []; }
    FewestPages(p, b, leaf, |cnt|);
    GoodNotEmpty(cost, Capacity(p, leaf), leafData, cnt);
    GoodIsCuts(cost, Capacity(p, leaf), leafData, cnt, 0);
    assert cnt[0..] == cnt;
    ok := true;
  }

  // ----- The pages that are dealt out are the pages that the rewrite loop writes

  /** The schedule of the rewriting; a page that is new has no old cells. */
  function PlanOf(nCell: nat, cntOld: seq<nat>, cnt: seq<nat>, leafData: bool): Rewrite.Plan {
    var pad := if |cnt| > |cntOld| then |cnt| - |cntOld| else 0;
    Rewrite.Plan(nCell, |cntOld|, |cnt|, cntOld + seq(pad, _ => nCell), cnt, leafData)
  }

  lemma {:induction false} CutsAscend(n: nat, leafData: bool, start: nat, cnt: seq<nat>, i: nat, j: nat)
    requires Cuts(n, leafData, start, cnt) && i <= j < |cnt|
    ensures cnt[i] <= cnt[j] <= n && (if i == 0 then start else Next(cnt[i - 1], leafData)) <= cnt[i]
    decreases cnt
  {
    if |cnt| > 1 {
      var tail := cnt[1..];
      if i > 0 {
        CutsAscend(n, leafData, Next(cnt[0], leafData), tail, i - 1, j - 1);
      } else if j > 0 {
        CutsAscend(n, leafData, Next(cnt[0], leafData), tail, 0, j - 1);
      }
    }
  }

  lemma {:induction false} OldAscend(b: seq<Cell>, leafData: bool, group: seq<Tree>, cnt: seq<nat>, i: nat, j: nat)
    requires OldPages(b, leafData, group, cnt) && i <= j < |cnt|
    ensures cnt[i] <= cnt[j] <= |b|
    decreases j
  {
    assert OldPage(b, leafData, group, cnt, j);
    if i < j { OldAscend(b, leafData, group, cnt, i, j - 1); }
  }

  /** A packing of the cells of old pages is a valid schedule. */
  lemma PlanIsValid(b: seq<Cell>, leafData: bool, group: seq<Tree>, cntOld: seq<nat>, cnt: seq<nat>)
    requires OldPages(b, leafData, group, cntOld) && Cuts(|b|, leafData, 0, cnt)
    ensures PlanOf(|b|, cntOld, cnt, leafData).Valid()
  {
    hide OldPage, Cuts;
    var plan := PlanOf(|b|, cntOld, cnt, leafData);
    CutsNotEmpty(|b|, leafData, 0, cnt);
    forall i, j | 0 <= i <= j < |plan.cntOld| ensures plan.cntOld[i] <= plan.cntOld[j] <= |b| {
      if j < |cntOld| { OldAscend(b, leafData, group, cntOld, i, j); } else if i < |cntOld| {
        OldAscend(b, leafData, group, cntOld, i, i);
      }
    }
    forall i, j | 0 <= i <= j < |cnt| ensures cnt[i] <= cnt[j] <= |b| { CutsAscend(|b|, leafData, 0, cnt, i, j); }
    forall i | 0 <= i < |cnt| ensures Packing.First(cnt, i, leafData) <= cnt[i] {
      CutsAscend(|b|, leafData, 0, cnt, i, i);
    }
  }

  lemma CutsNotEmpty(n: nat, leafData: bool, start: nat, cnt: seq<nat>)
    requires Cuts(n, leafData, start, cnt)
    ensures cnt != []
  {
  }

  /** Page i of a packing holds the slice of cells up to cnt[i]. */
  lemma {:induction false} LeafSlice(b: seq<Cell>, leafData: bool, start: nat, cnt: seq<nat>, i: nat)
    requires Cuts(|b|, leafData, start, cnt) && i < |cnt|
    ensures var f := if i == 0 then start else Next(cnt[i - 1], leafData);
            f <= cnt[i] <= |b| && LeafPages(b, leafData, start, cnt)[i] == Leaf(b[f..cnt[i]])
    decreases cnt
  {
    if i > 0 { LeafSlice(b, leafData, Next(cnt[0], leafData), cnt[1..], i - 1); }
  }

  lemma {:induction false} NodeSlice(b: seq<Cell>, kids: seq<Tree>, start: nat, cnt: seq<nat>, i: nat)
    requires Cuts(|b|, false, start, cnt) && |kids| == |b| + 1 && i < |cnt|
    ensures var f := if i == 0 then start else cnt[i - 1] + 1;
            f <= cnt[i] <= |b| && NodePages(b, kids, start, cnt)[i] == Node(kids[f..cnt[i] + 1], b[f..cnt[i]])
    decreases cnt
  {
    if i > 0 { NodeSlice(b, kids, cnt[0] + 1, cnt[1..], i - 1); }
  }

  /** Every page as written is made of intact cells, those of the page as dealt out. */
  ghost predicate WrittenAs(written: seq<seq<Rewrite.Read<Cell>>>, pages: seq<Tree>) {
    |written| == |pages| && forall i :: 0 <= i < |pages| ==> written[i] == IntactCells(pages[i].cells)
  }

  ghost function IntactCells(cells: seq<Cell>): seq<Rewrite.Read<Cell>> {
    seq(|cells|, i requires 0 <= i < |cells| => Rewrite.Intact(cells[i]))
  }

  lemma SlicesWritten(b: seq<Cell>, plan: Rewrite.Plan, written: seq<seq<Rewrite.Read<Cell>>>, pages: seq<Tree>)
    requires plan.Valid() && |b| == plan.nCell && |written| == plan.nNew == |pages|
    requires forall i :: 0 <= i < plan.nNew ==> Rewrite.IsSlice(plan, b, i, written[i])
    requires forall i :: 0 <= i < plan.nNew ==>
               && Packing.First(plan.cntNew, i, plan.leafData) <= plan.cntNew[i] <= |b|
               && pages[i].cells == b[Packing.First(plan.cntNew, i, plan.leafData)..plan.cntNew[i]]
    ensures WrittenAs(written, pages)
  {
    hide Packing.First, Rewrite.IsSlice, Rewrite.Plan.Valid, IntactCells;
    forall i | 0 <= i < |pages| ensures written[i] == IntactCells(pages[i].cells) {
      SliceWritten(b, plan, i, written[i], pages[i].cells);
    }
  }

  lemma SliceWritten(b: seq<Cell>, plan: Rewrite.Plan, i: nat, page: seq<Rewrite.Read<Cell>>, cells: seq<Cell>)
    requires plan.Valid() && |b| == plan.nCell && i < plan.nNew && Rewrite.IsSlice(plan, b, i, page)
    requires Packing.First(plan.cntNew, i, plan.leafData) <= plan.cntNew[i] <= |b|
    requires cells == b[Packing.First(plan.cntNew, i, plan.leafData)..plan.cntNew[i]]
    ensures page == IntactCells(cells)
  {
    hide Packing.First;
    var f := Packing.First(plan.cntNew, i, plan.leafData);
    forall k | 0 <= k < |cells| ensures page[k] == Rewrite.Intact(cells[k]) { assert cells[k] == b[f + k]; }
  }

  /** Writes the pages of a packing in the order of the rewrite loop. */
  method WritePages(b: seq<Cell>, leafData: bool, cntOld: seq<nat>, cnt: seq<nat>, ghost group: seq<Tree>,
                    ghost pages: seq<Tree>)
    returns (order: seq<nat>, ghost written: seq<seq<Rewrite.Read<Cell>>>)
    requires OldPages(b, leafData, group, cntOld) && Cuts(|b|, leafData, 0, cnt) && |pages| == |cnt|
    requires forall i ::
               0 <= i < |cnt| ==>
                 Packing.First(cnt, i, leafData) <= cnt[i] <= |b|
                 && pages[i].cells == b[Packing.First(cnt, i, leafData)..cnt[i]]
    ensures WrittenAs(written, pages) && OnceEach(order, |pages|)
  {
    hide OldPages, Cuts, Rewrite.IsSlice, Rewrite.NoneTooEarly;
    PlanIsValid(b, leafData, group, cntOld, cnt);
    var plan := PlanOf(|b|, cntOld, cnt, leafData);
    order, written := Rewrite.RewriteSiblings(plan, b);
    SlicesWritten(b, plan, written, pages);
  }

  ghost predicate OnceEach(order: seq<nat>, n: nat) {
    |order| == n && forall i :: 0 <= i < n ==> multiset(order)[i] == 1
  }

  /** If no page below a group of siblings is empty, that stays so; and the new siblings hold cells unless
      there are none. */
  ghost predicate KeepsFilled(group: seq<Tree>, pages: seq<Tree>) {
    && ((forall k :: 0 <= k < |group| ==> FilledBelow(group[k])) ==>
          forall i :: 0 <= i < |pages| ==> FilledBelow(pages[i]))
    && (forall k, i :: 0 <= k < |group| && group[k].cells != [] && 0 <= i < |pages| ==> pages[i].cells != [])
    && (|group| == 1 && group[0].cells == [] ==> |pages| == 1 && pages[0].cells == [])
  }

  lemma LeavesFilled(b: seq<Cell>, leafData: bool, cnt: seq<nat>)
    requires Cuts(|b|, leafData, 0, cnt)
    ensures var pages := LeafPages(b, leafData, 0, cnt); forall i :: 0 <= i < |pages| ==> FilledBelow(pages[i])
  {
    hide Cuts, LeafPages;
    forall i | 0 <= i < |cnt| ensures FilledBelow(LeafPages(b, leafData, 0, cnt)[i]) {
      LeafSlice(b, leafData, 0, cnt, i);
    }
  }

  lemma NodesFilled(group: seq<Tree>, b: seq<Cell>, cnt: seq<nat>)
    requires Cuts(|b|, false, 0, cnt) && AllNodes(group) && |GatherKids(group)| == |b| + 1
    requires forall k :: 0 <= k < |group| ==> FilledBelow(group[k])
    ensures var pages := NodePages(b, GatherKids(group), 0, cnt); forall i :: 0 <= i < |pages| ==> FilledBelow(pages[i])
  {
    hide Cuts, NodePages, GatherKids, Filled;
    var kids := GatherKids(group);
    GatherFilled(group);
    forall i | 0 <= i < |cnt| ensures FilledBelow(NodePages(b, kids, 0, cnt)[i]) { NodeSlice(b, kids, 0, cnt, i); }
  }

  lemma {:induction false} GatherFilled(group: seq<Tree>)
    requires AllNodes(group) && forall k :: 0 <= k < |group| ==> FilledBelow(group[k])
    ensures AllFilled(GatherKids(group))
  {
    hide Filled;
    if group != [] {
      GatherFilled(group[1..]);
      assert FilledBelow(group[0]) && AllFilled(group[0].kids);
      assert GatherKids(group) == group[0].kids + GatherKids(group[1..]);
    }
  }

  lemma PagesFilled(leafData: bool, group: seq<Tree>, b: seq<Cell>, cntOld: seq<nat>, cnt: seq<nat>,
                    pages: seq<Tree>)
    requires OldPages(b, leafData, group, cntOld) && |pages| == |cnt| && (b == [] ==> |cnt| == 1)
    requires b != [] ==> forall i :: 0 <= i < |cnt| ==> Packing.First(cnt, i, leafData) < cnt[i]
    requires forall i :: 0 <= i < |cnt| ==>
               Packing.First(cnt, i, leafData) <= cnt[i] <= |b|
               && pages[i].cells == b[Packing.First(cnt, i, leafData)..cnt[i]]
    requires (forall k :: 0 <= k < |group| ==> FilledBelow(group[k])) ==>
               forall i :: 0 <= i < |pages| ==> FilledBelow(pages[i])
    ensures KeepsFilled(group, pages)
  {
    hide FilledBelow;
    forall k, i | 0 <= k < |group| && group[k].cells != [] && 0 <= i < |pages| ensures pages[i].cells != [] {
      assert OldPage(b, leafData, group, cntOld, k);
    }
    if |group| == 1 {
      assert OldPage(b, leafData, group, cntOld, 0);
      assert Packing.First(cntOld, 0, leafData) == 0 && b[0..|b|] == b;
    }
  }

  /** Rewrites a group of siblings and the cells between them. */
  method Redistribute(p: Params, group: seq<Tree>, divs: seq<Cell>, ghost j: nat, ghost d: nat)
    returns (ok: bool, pages: seq<Tree>, newDivs: seq<Cell>, order: seq<nat>,
        ghost written: seq<seq<Rewrite.Read<Cell>>>)
    requires ParamsOk(p) && j < |group| == |divs| + 1 <= 3 && CellsOk(p, divs)
    requires forall k :: 0 <= k < |group| ==> SoundBelow(p, group[k], d)
    requires forall k :: 0 <= k < |group| && k != j ==> Total(group[k].cells, d == 0) <= Capacity(p, d == 0)
    requires NearlyFits(p, group[j].cells, d == 0, Capacity(p, d == 0))
    ensures ok && |pages| == |newDivs| + 1 <= |group| + MostNew(d == 0 && p.table) && AllSound(p, pages, d)
            && CellsOk(p, newDivs)
    ensures StandsFor(Forest(p.table, pages, newDivs), Forest(p.table, group, divs))
    ensures WrittenAs(written, pages) && OnceEach(order, |pages|)
    ensures Fewest(p, GatherCells(d == 0 && p.table, group, divs), d == 0, |pages|)
    ensures KeepsFilled(group, pages)
  {
    hide NearlyFits, Total, CellsOk, StandsFor, Forest, Sound, GatherCells, LeafPages, NodePages, NewDividers, Cuts,
      Fitting, OldPages, Costs, WrittenAs, OnceEach, Fewest, KeepsFilled, FilledBelow;
    var leaf := group[0].Leaf?;
    assert forall k :: 0 <= k < |group| ==> SoundBelow(p, group[k], d);
    assert leaf == (d == 0) && forall k :: 0 <= k < |group| ==> group[k].Leaf? == leaf;
    var leafData := leaf && p.table;
    var b, cntOld := LoadCells(leafData, group, divs);
    GatherSound(p, leafData, group, divs, d);
    var cnt;
    ok, cnt := DealOut(p, leaf, b, cntOld, group, j);
    newDivs := NewDividers(b, leafData, 0, cnt);
    if leaf {
      pages := LeafPages(b, leafData, 0, cnt);
      LeafPagesSound(p, b, leafData, 0, cnt);
      LeavesStandFor(p.table, group, divs, b, cnt);
      forall i | 0 <= i < |cnt|
        ensures Packing.First(cnt, i, leafData) <= cnt[i] <= |b|
                && pages[i].cells == b[Packing.First(cnt, i, leafData)..cnt[i]]
      {
        LeafSlice(b, leafData, 0, cnt, i);
      }
      assert forall i :: 0 <= i < |pages| ==> FilledBelow(pages[i]) by { LeavesFilled(b, leafData, cnt); }
    } else {
      var kids := GatherKids(group);
      GatherNodes(p.table, group, divs);
      pages := NodePages(b, kids, 0, cnt);
      NodePagesSound(p, b, kids, 0, cnt, d - 1);
      NodePagesItems(p.table, b, kids, 0, cnt);
      assert kids[0..] == kids && b[0..] == b;
      StandsForItself(Forest(p.table, group, divs));
      forall i | 0 <= i < |cnt|
        ensures Packing.First(cnt, i, leafData) <= cnt[i] <= |b|
                && pages[i].cells == b[Packing.First(cnt, i, leafData)..cnt[i]]
      {
        NodeSlice(b, kids, 0, cnt, i);
      }
      if forall k :: 0 <= k < |group| ==> FilledBelow(group[k]) { NodesFilled(group, b, cnt); }
    }
    PagesFilled(leafData, group, b, cntOld, cnt, pages);
    order, written := WritePages(b, leafData, cntOld, cnt, group, pages);
  }

  lemma StandsForItself(f: seq<Item>)
    ensures StandsFor(f, f)
  {
  }

  lemma ThreeParts<T>(s: seq<T>, i: nat, j: nat)
    requires i <= j <= |s|
    ensures s == s[..i] + s[i..j] + s[j..]
  {
  }

  /** The parent of a rewritten group nearly fits. */
  lemma ParentNearlyFits(p: Params, f: Frame, isRoot: bool, nx: nat, n: nat, newDivs: seq<Cell>)
    requires nx + n <= |f.cells| && |newDivs| <= MostOver(p, false) && FrameLoose(p, f, isRoot)
    requires !p.bulk && f.idx < |f.cells| ==> nx <= f.idx < nx + n
    ensures NearlyFits(p, f.cells[..nx] + newDivs + f.cells[nx + n..], false, Room(p, false, isRoot))
  {
    hide Total;
    var c1, c2 := f.cells[..nx], f.cells[nx + n..];
    var room, cells := Room(p, false, isRoot), c1 + newDivs + c2;
    RestFits(p, f, isRoot, nx, n);
    if newDivs == [] {
      TotalConcat(c1, c2, false);
      assert cells == c1 + c2;
    } else {
      assert cells[..nx] == c1 && cells[nx + |newDivs|..] == c2;
      assert SplitAt(p, cells, false, nx, |newDivs|, room);
    }
  }

  lemma {:induction false} TotalAtLeast(cells: seq<Cell>, leaf: bool, i: nat)
    requires i < |cells|
    ensures Cost(cells[i], leaf) <= Total(cells, leaf)
    decreases |cells|
  {
    if i < |cells| - 1 { TotalAtLeast(cells[..|cells| - 1], leaf, i); }
  }

  // ----- How many overflow cells a parent can get

  /** The dividers that go to the overflow array when they are inserted one by one into a page whose other
      cells cost base: the first that does not fit, and all after it. */
  function Overflowed(base: nat, divs: seq<Cell>, room: int): (n: nat)
    ensures n <= |divs|
    decreases divs
  {
    if divs == [] then 0 else if base + divs[0].nodeCost > room then |divs|
        else Overflowed(base + divs[0].nodeCost, divs[1..], room)
  }

  /** There are overflow cells exactly if the page has more cells than fit. */
  lemma {:induction false} OverflowedIff(base: nat, divs: seq<Cell>, room: int)
    requires base <= room
    ensures Overflowed(base, divs, room) > 0 <==> base + Total(divs, false) > room
    decreases divs
  {
    if divs != [] {
      assert divs == [divs[0]] + divs[1..] && [divs[0]][..0] == [];
      TotalConcat([divs[0]], divs[1..], false);
      assert Total([divs[0]], false) == divs[0].nodeCost;
      if base + divs[0].nodeCost <= room { OverflowedIff(base + divs[0].nodeCost, divs[1..], room); }
    }
  }

  /** Inserts the new dividers into the parent one by one, between the cells c1 and c2.  A cell that does not
      fit goes to the overflow array, and so do all cells after it. */
  method InsertDividers(c1: seq<Cell>, divs: seq<Cell>, c2: seq<Cell>, room: int) returns (cells: seq<Cell>, nOver: nat)
    ensures cells == c1 + divs + c2 && nOver == Overflowed(Total(c1, false) + Total(c2, false), divs, room)
  {
    hide Total;
    var used: nat := Total(c1, false) + Total(c2, false);
    cells, nOver := c1 + c2, 0;
    assert divs[0..] == divs;
    for i := 0 to |divs|
      invariant cells == c1 + divs[..i] + c2 && nOver <= i
      invariant nOver > 0 ==> Overflowed(Total(c1, false) + Total(c2, false), divs, room) == |divs| - i + nOver
      invariant nOver == 0 ==>
                  Overflowed(Total(c1, false) + Total(c2, false), divs, room) == Overflowed(used, divs[i..], room)
    {
      assert divs[i..][0] == divs[i] && divs[i..][1..] == divs[i + 1..];
      assert divs[..i + 1] == divs[..i] + [divs[i]];
      cells := cells[..|c1| + i] + [divs[i]] + cells[|c1| + i..];
      if nOver > 0 || used + divs[i].nodeCost > room { nOver := nOver + 1; } else { used := used + divs[i].nodeCost; }
    }
    assert divs[..|divs|] == divs;
  }

  /** The parent has lost n cells from nx on and got the dividers divs, of which nOver are overflow cells:
      some exactly if its cells cost more than it has room for, and at most three, except that there are
      four exactly if three table leaves have become five and already the first divider does not fit. */
  ghost predicate DividersInserted(p: Params, f: Frame, isRoot: bool, node: Tree, nx: nat, n: nat, divs: seq<Cell>,
                                   nOver: nat) {
    && nx + n <= |f.cells| && node.cells == f.cells[..nx] + divs + f.cells[nx + n..] && |divs| <= MostOver(p, false)
    && OverflowRight(p, f.cells[..nx], divs, f.cells[nx + n..], Room(p, false, isRoot), nOver)
  }

  ghost predicate OverflowRight(p: Params, c1: seq<Cell>, divs: seq<Cell>, c2: seq<Cell>, room: int, nOver: nat) {
    var base := Total(c1, false) + Total(c2, false);
    && base <= room && (nOver > 0 <==> Total(c1 + divs + c2, false) > room)
    && (nOver <= 3 <==> !(p.table && |divs| == 4 && base + divs[0].nodeCost > room))
  }

  lemma OverflowCount(p: Params, c1: seq<Cell>, divs: seq<Cell>, c2: seq<Cell>, room: int)
    requires |divs| <= MostOver(p, false) && Total(c1, false) + Total(c2, false) <= room
    ensures OverflowRight(p, c1, divs, c2, room, Overflowed(Total(c1, false) + Total(c2, false), divs, room))
  {
    hide Total, Overflowed;
    var base := Total(c1, false) + Total(c2, false);
    ThreeUnlessFour(p, base, divs, room);
    OverflowedIff(base, divs, room);
    TotalThree(c1, divs, c2, false);
  }

  lemma TotalThree(a: seq<Cell>, b: seq<Cell>, c: seq<Cell>, leaf: bool)
    ensures Total(a + b + c, leaf) == Total(a, leaf) + Total(b, leaf) + Total(c, leaf)
  {
    TotalConcat(a + b, c, leaf);
    TotalConcat(a, b, leaf);
  }

  lemma ThreeUnlessFour(p: Params, base: nat, divs: seq<Cell>, room: int)
    requires |divs| <= MostOver(p, false)
    ensures Overflowed(base, divs, room) <= 3 <==> !(p.table && |divs| == 4 && base + divs[0].nodeCost > room)
  {
  }

  /** The cells that the parent keeps fit. */
  lemma RestFits(p: Params, f: Frame, isRoot: bool, nx: nat, n: nat)
    requires nx + n <= |f.cells| && FrameLoose(p, f, isRoot) && (!p.bulk && f.idx < |f.cells| ==> nx <= f.idx < nx + n)
    ensures Total(f.cells[..nx], false) + Total(f.cells[nx + n..], false) <= Room(p, false, isRoot)
  {
    hide Total;
    var c1, divs, c2 := f.cells[..nx], f.cells[nx..nx + n], f.cells[nx + n..];
    ThreeParts(f.cells, nx, nx + n);
    TotalConcat(c1 + divs, c2, false);
    TotalConcat(c1, divs, false);
    if Total(f.cells, false) > Room(p, false, isRoot) {
      assert divs[f.idx - nx] == f.cells[f.idx];
      TotalAtLeast(divs, false, f.idx - nx);
    }
  }

  ghost predicate SamePlace(p: Params, node: Tree, f: Frame, page: Tree) {
    StandsFor(Items(p.table, node), Items(p.table, Fill(f, page)))
  }

  /** The parent with its rewritten group: its new dividers, and its children. */
  ghost predicate GroupRewritten(p: Params, f: Frame, page: Tree, isRoot: bool, d: nat, node: Tree, nx: nat, n: nat,
                                 newDivs: seq<Cell>, nOver: nat) {
    && f.idx < |f.kids| == |f.cells| + 1 && SiblingsChosen(|f.cells|, f.idx, p.bulk, nx, n)
    && Fewest(p, GatherCells(d == 0 && p.table, f.kids[f.idx := page][nx..nx + n + 1], f.cells[nx..nx + n]), d == 0,
              |newDivs| + 1)
    && DividersInserted(p, f, isRoot, node, nx, n, newDivs, nOver) && OthersStay(f, node, nx, n, |newDivs| + 1)
  }

  /** The siblings outside of the group stay as they are. */
  ghost predicate OthersStay(f: Frame, node: Tree, nx: nat, n: nat, nNew: nat) {
    && nx + n < |f.kids| && node.Node? && |node.kids| == |f.kids| - (n + 1) + nNew && nx + nNew <= |node.kids|
    && node.kids[..nx] == f.kids[..nx] && node.kids[nx + nNew..] == f.kids[nx + n + 1..]
  }

  /** No page below the parent is empty, or its only child is an empty page. */
  ghost predicate NodeFilled(node: Tree) {
    FilledBelow(node) || (node.Node? && node.cells == [] && |node.kids| == 1 && node.kids[0].cells == []
                          && FilledBelow(node.kids[0]))
  }

  /** What Redistribute promises for the group of a page. */
  ghost predicate GroupRedone(p: Params, f: Frame, page: Tree, d: nat, nx: nat, n: nat, pages: seq<Tree>,
                              newDivs: seq<Cell>) {
    && f.idx < |f.kids| == |f.cells| + 1 && SiblingsChosen(|f.cells|, f.idx, p.bulk, nx, n)
    && |pages| == |newDivs| + 1 && |newDivs| <= MostOver(p, false) && AllSound(p, pages, d) && CellsOk(p, newDivs)
    && var group, divs := f.kids[f.idx := page][nx..nx + n + 1], f.cells[nx..nx + n];
    && StandsFor(Forest(p.table, pages, newDivs), Forest(p.table, group, divs)) && KeepsFilled(group, pages)
    && Fewest(p, GatherCells(d == 0 && p.table, group, divs), d == 0, |pages|)
  }

  lemma GroupIs(p: Params, f: Frame, page: Tree, d: nat, nx: nat, n: nat, pages: seq<Tree>, newDivs: seq<Cell>)
    requires f.idx < |f.kids| == |f.cells| + 1 && SiblingsChosen(|f.cells|, f.idx, p.bulk, nx, n)
    requires |pages| == |newDivs| + 1 <= n + 1 + MostNew(d == 0 && p.table) && AllSound(p, pages, d)
             && CellsOk(p, newDivs)
    requires var group, divs := f.kids[f.idx := page][nx..nx + n + 1], f.cells[nx..nx + n];
             && StandsFor(Forest(p.table, pages, newDivs), Forest(p.table, group, divs)) && KeepsFilled(group, pages)
             && Fewest(p, GatherCells(d == 0 && p.table, group, divs), d == 0, |pages|)
    ensures GroupRedone(p, f, page, d, nx, n, pages, newDivs)
  {
    hide StandsFor, Forest, KeepsFilled, Fewest, GatherCells, AllSound, CellsOk;
  }

  lemma FrameShape(p: Params, f: Frame, d: nat)
    requires FrameSound(p, f, d)
    ensures f.idx < |f.kids| == |f.cells| + 1
  {
  }

  function ParentWith(f: Frame, nx: nat, n: nat, pages: seq<Tree>, newDivs: seq<Cell>): Tree
    requires nx + n <= |f.cells| && |f.kids| == |f.cells| + 1
  {
    Node(f.kids[..nx] + pages + f.kids[nx + n + 1..], f.cells[..nx] + newDivs + f.cells[nx + n..])
  }

  lemma GroupSound(p: Params, f: Frame, page: Tree, d: nat, nx: nat, n: nat, pages: seq<Tree>, newDivs: seq<Cell>)
    requires FrameSound(p, f, d) && GroupRedone(p, f, page, d, nx, n, pages, newDivs)
    ensures SamePlace(p, ParentWith(f, nx, n, pages, newDivs), f, page)
            && SoundBelow(p, ParentWith(f, nx, n, pages, newDivs), d + 1)
  {
    hide Total, CellsOk, StandsFor, Forest, Sound, SoundBelow, AllSound, SamePlace, KeepsFilled, GatherCells, Fewest;
    var kids := f.kids[f.idx := page];
    assert kids[..nx] == f.kids[..nx] && kids[nx + n + 1..] == f.kids[nx + n + 1..];
    ParentSound(p, f, page, nx, n, d, pages, newDivs);
  }

  lemma GroupFilled(p: Params, f: Frame, page: Tree, d: nat, nx: nat, n: nat, pages: seq<Tree>, newDivs: seq<Cell>)
    requires GroupRedone(p, f, page, d, nx, n, pages, newDivs) && FrameFilled(f) && FilledBelow(page)
    ensures var node := ParentWith(f, nx, n, pages, newDivs);
            if f.cells == [] then NodeFilled(node) else FilledBelow(node)
  {
    hide CellsOk, StandsFor, Forest, AllSound, FrameFilled, FilledBelow, KeepsFilled, GatherCells, Fewest, NodeFilled;
    var kids := f.kids[f.idx := page];
    assert kids[..nx] == f.kids[..nx] && kids[nx + n + 1..] == f.kids[nx + n + 1..];
    ParentKids(p, f, page, nx, n, pages, ParentWith(f, nx, n, pages, newDivs));
  }

  lemma GroupDone(p: Params, f: Frame, page: Tree, isRoot: bool, d: nat, nx: nat, n: nat, pages: seq<Tree>,
                  newDivs: seq<Cell>, nOver: nat)
    requires FrameLoose(p, f, isRoot) && GroupRedone(p, f, page, d, nx, n, pages, newDivs)
    requires nOver == Overflowed(Total(f.cells[..nx], false) + Total(f.cells[nx + n..], false), newDivs,
                                 Room(p, false, isRoot))
    ensures NearlyFits(p, ParentWith(f, nx, n, pages, newDivs).cells, false, Room(p, false, isRoot))
    ensures GroupRewritten(p, f, page, isRoot, d, ParentWith(f, nx, n, pages, newDivs), nx, n, newDivs, nOver)
  {
    hide NearlyFits, Total, CellsOk, StandsFor, Forest, AllSound, FrameLoose, OverflowRight, Overflowed,
      FrameFilled, FilledBelow, KeepsFilled, GatherCells, Fewest, OthersStay;
    ParentCells(p, f, isRoot, nx, n, newDivs);
    OthersKept(f, ParentWith(f, nx, n, pages, newDivs), nx, n, pages);
  }

  /** Rewrites a page and its siblings, and puts the new dividers into the parent. */
  method RewriteGroup(p: Params, f: Frame, page: Tree, isRoot: bool, ghost d: nat)
    returns (ok: bool, node: Tree, nOver: nat, ghost nx: nat, ghost n: nat, ghost newDivs: seq<Cell>)
    requires ParamsOk(p) && FrameSound(p, f, d) && SoundBelow(p, page, d) && FrameLoose(p, f, isRoot)
    requires NearlyFits(p, page.cells, d == 0, Capacity(p, d == 0))
    ensures ok && SamePlace(p, node, f, page) && SoundBelow(p, node, d + 1)
    ensures NearlyFits(p, node.cells, false, Room(p, false, isRoot)) && (f.cells == [] ==> |node.cells| <= 3)
    ensures GroupRewritten(p, f, page, isRoot, d, node, nx, n, newDivs, nOver)
    ensures FrameFilled(f) && FilledBelow(page) ==> if f.cells == [] then NodeFilled(node) else FilledBelow(node)
  {
    hide NearlyFits, SplitAt, Total, CellsOk, StandsFor, Forest, Sound, SoundBelow, AllSound, FrameLoose, FrameSound,
      OverflowRight, Overflowed, SamePlace, WrittenAs, OnceEach, FrameFilled, FilledBelow, KeepsFilled, GatherCells,
      Fewest, NodeFilled, GroupRewritten, GroupRedone;
    FrameShape(p, f, d);
    var nxDiv, nDiv := ChooseSiblings(|f.cells|, f.idx, p.bulk);
    nx, n := nxDiv, nDiv;
    var group, divs := f.kids[f.idx := page][nxDiv..nxDiv + nDiv + 1], f.cells[nxDiv..nxDiv + nDiv];
    ghost var j := f.idx - nx;
    GroupOf(p, f, page, nx, n, d);
    var pages, dividers, order;
    ghost var written;
    ok, pages, dividers, order, written := Redistribute(p, group, divs, j, d);
    newDivs := dividers;
    var cells';
    cells', nOver := InsertDividers(f.cells[..nxDiv], dividers, f.cells[nxDiv + nDiv..], Room(p, false, isRoot));
    node := Node(f.kids[..nxDiv] + pages + f.kids[nxDiv + nDiv + 1..], cells');
    GroupIs(p, f, page, d, nx, n, pages, newDivs);
    GroupSound(p, f, page, d, nx, n, pages, newDivs);
    GroupDone(p, f, page, isRoot, d, nx, n, pages, newDivs, nOver);
    if FrameFilled(f) && FilledBelow(page) { GroupFilled(p, f, page, d, nx, n, pages, newDivs); }
  }

  /** Balances a page with its siblings.  The result takes the place of the parent: a page one level
      higher that nearly fits, or, if the parent is the root and has lost its last cell, its only child,
      which is left where it is only if it does not fit on the root. */
  method BalanceNonroot(p: Params, f: Frame, page: Tree, isRoot: bool, ghost d: nat)
    returns (ok: bool, node: Tree, nOver: nat, ghost d': nat, ghost parent: Tree, ghost nx: nat, ghost n: nat,
        ghost newDivs: seq<Cell>)
    requires ParamsOk(p) && FrameSound(p, f, d) && SoundBelow(p, page, d) && FrameLoose(p, f, isRoot)
    requires NearlyFits(p, page.cells, d == 0, Capacity(p, d == 0))
    ensures ok && SamePlace(p, node, f, page)
    ensures SoundBelow(p, node, d')
    ensures || (d' == d + 1 && NearlyFits(p, node.cells, false, Room(p, false, isRoot))
            && (f.cells == [] ==> |node.cells| <= 3))
            || (isRoot && d' == d && Total(node.cells, node.Leaf?) <= Room(p, node.Leaf?, true))
    ensures GroupRewritten(p, f, page, isRoot, d, parent, nx, n, newDivs, nOver)
    ensures if isRoot && parent.cells == [] && |parent.kids| == 1
                 && Total(parent.kids[0].cells, d == 0) <= Room(p, d == 0, true)
            then d' == d && node == parent.kids[0] else d' == d + 1 && node == parent
    ensures FrameFilled(f) && FilledBelow(page) && (f.cells == [] ==> isRoot) ==> FilledBelow(node)
  {
    hide NearlyFits, SplitAt, Total, CellsOk, StandsFor, Forest, Sound, SoundBelow, AllSound, FrameLoose,
      FrameSound, OverflowRight, Overflowed, SamePlace, FrameFilled, FilledBelow, NodeFilled, GatherCells, Fewest,
      GroupRewritten;
    ok, node, nOver, nx, n, newDivs := RewriteGroup(p, f, page, isRoot, d);
    parent, d' := node, d + 1;
    ChildFacts(p, node, d);
    if isRoot && node.cells == []
       && p.rootHdr <= Capacity(p, node.kids[0].Leaf?) - Total(node.kids[0].cells, node.kids[0].Leaf?)
    {
      OnlyChild(p, f, page, node.kids, node.cells, d);
      ChildFilled(node);
      node, d' := node.kids[0], d;
    }
  }

  lemma ChildFilled(node: Tree)
    requires node.Node? && node.kids != []
    ensures NodeFilled(node) || FilledBelow(node) ==> FilledBelow(node.kids[0])
  {
    assert FilledBelow(node) ==> AllFilled(node.kids);
  }

  lemma ChildFacts(p: Params, node: Tree, d: nat)
    requires ParamsOk(p) && SoundBelow(p, node, d + 1)
    ensures node.Node? && |node.kids| == |node.cells| + 1 && node.kids[0].Leaf? == (d == 0)
    ensures NodeFilled(node)
            && (node.cells != [] || p.rootHdr > Capacity(p, d == 0) - Total(node.kids[0].cells, d == 0))
            ==> FilledBelow(node)
  {
    hide FilledBelow, CellsOk;
    assert Sound(p, node.kids[0], d);
    SoundTop(p, node.kids[0], d);
    LeafAtBottom(p, node.kids[0], d);
  }

  lemma LeafAtBottom(p: Params, t: Tree, d: nat)
    requires SoundBelow(p, t, d)
    ensures t.Leaf? == (d == 0)
  {
  }

  /** If no page below the parent was empty, except perhaps the modified one, none is afterwards. */
  lemma ParentFilled(p: Params, f: Frame, page: Tree, nx: nat, n: nat, pages: seq<Tree>, node: Tree)
    requires ParentOf(p, f, page, nx, n, pages, node)
    requires KeepsFilled(f.kids[f.idx := page][nx..nx + n + 1], pages)
    requires FrameFilled(f) && FilledBelow(page)
    ensures n == 0 && page.cells == [] ==>
              |node.kids| == 1 && node.cells == [] && node.kids[0].cells == [] && FilledBelow(node.kids[0])
    ensures n > 0 || page.cells != [] ==> AllFilled(node.kids)
  {
    hide FilledBelow;
    var kids := f.kids[f.idx := page];
    var group := kids[nx..nx + n + 1];
    forall k | 0 <= k < |group| ensures FilledBelow(group[k]) && (nx + k != f.idx ==> Filled(group[k])) {
      if nx + k != f.idx { assert Filled(f.kids[nx + k]); }
    }
    assert group[f.idx - nx] == page;
    if n > 0 {
      var k := if f.idx == nx then 1 else 0;
      assert group[k].cells != [];
    }
  }

  ghost predicate ParentOf(p: Params, f: Frame, page: Tree, nx: nat, n: nat, pages: seq<Tree>, node: Tree) {
    && |f.kids| == |f.cells| + 1 && nx <= f.idx <= nx + n <= |f.cells| && (n == 0 ==> f.cells == [])
    && node.Node? && node.kids == f.kids[f.idx := page][..nx] + pages + f.kids[f.idx := page][nx + n + 1..]
    && |node.kids| == |node.cells| + 1
  }

  lemma ParentKids(p: Params, f: Frame, page: Tree, nx: nat, n: nat, pages: seq<Tree>, node: Tree)
    requires ParentOf(p, f, page, nx, n, pages, node)
    requires KeepsFilled(f.kids[f.idx := page][nx..nx + n + 1], pages)
    ensures FrameFilled(f) && FilledBelow(page) ==> if f.cells == [] then NodeFilled(node) else FilledBelow(node)
  {
    hide FrameFilled, KeepsFilled, Filled;
    if FrameFilled(f) && FilledBelow(page) { ParentFilled(p, f, page, nx, n, pages, node); }
  }

  lemma OthersKept(f: Frame, node: Tree, nx: nat, n: nat, pages: seq<Tree>)
    requires nx + n < |f.kids| && node.Node? && node.kids == f.kids[..nx] + pages + f.kids[nx + n + 1..]
    ensures OthersStay(f, node, nx, n, |pages|)
  {
  }

  /** What the parent's cells cost, and how many of them overflow. */
  lemma ParentCells(p: Params, f: Frame, isRoot: bool, nx: nat, n: nat, newDivs: seq<Cell>)
    requires nx + n <= |f.cells| && |newDivs| <= MostOver(p, false) && FrameLoose(p, f, isRoot)
    requires !p.bulk && f.idx < |f.cells| ==> nx <= f.idx < nx + n
    ensures NearlyFits(p, f.cells[..nx] + newDivs + f.cells[nx + n..], false, Room(p, false, isRoot))
    ensures OverflowRight(p, f.cells[..nx], newDivs, f.cells[nx + n..], Room(p, false, isRoot),
                          Overflowed(Total(f.cells[..nx], false) + Total(f.cells[nx + n..], false), newDivs,
                              Room(p, false, isRoot)))
  {
    hide Total, NearlyFits, OverflowRight, Overflowed, FrameLoose;
    RestFits(p, f, isRoot, nx, n);
    ParentNearlyFits(p, f, isRoot, nx, n, newDivs);
    OverflowCount(p, f.cells[..nx], newDivs, f.cells[nx + n..], Room(p, false, isRoot));
  }

  /** A root without cells stands for its only child. */
  lemma OnlyChild(p: Params, f: Frame, page: Tree, kids: seq<Tree>, cells: seq<Cell>, d: nat)
    requires SoundBelow(p, Node(kids, cells), d + 1) && SamePlace(p, Node(kids, cells), f, page) && cells == []
    ensures SamePlace(p, kids[0], f, page) && SoundBelow(p, kids[0], d)
    ensures Total(kids[0].cells, kids[0].Leaf?) <= Capacity(p, kids[0].Leaf?)
  {
    hide StandsFor, Forest, Sound, Total, CellsOk;
    assert kids == [kids[0]];
    ForestOne(p.table, kids[0]);
    assert Sound(p, kids[0], d);
    SoundTop(p, kids[0], d);
  }

  lemma SoundTop(p: Params, t: Tree, d: nat)
    requires Sound(p, t, d)
    ensures SoundBelow(p, t, d) && Total(t.cells, t.Leaf?) <= Capacity(p, t.Leaf?)
  {
  }

  lemma GroupOf(p: Params, f: Frame, page: Tree, nx: nat, n: nat, d: nat)
    requires FrameSound(p, f, d) && nx <= f.idx <= nx + n <= |f.cells| && SoundBelow(p, page, d)
    ensures CellsOk(p, f.cells[nx..nx + n])
    ensures var group, j := f.kids[f.idx := page][nx..nx + n + 1], f.idx - nx;
            && group[j] == page && (forall k :: 0 <= k < |group| ==> SoundBelow(p, group[k], d))
            && (forall k :: 0 <= k < |group| && k != j ==> Total(group[k].cells, d == 0) <= Capacity(p, d == 0))
  {
    hide Sound, SoundBelow, Total, CellOk;
    var group, j := f.kids[f.idx := page][nx..nx + n + 1], f.idx - nx;
    forall k | 0 <= k < |group| && k != j ensures Sound(p, group[k], d) { assert group[k] == f.kids[nx + k]; }
    GroupFits(p, group, j, d);
  }

  lemma GroupFits(p: Params, group: seq<Tree>, j: nat, d: nat)
    requires j < |group| && SoundBelow(p, group[j], d)
             && forall k :: 0 <= k < |group| && k != j ==> Sound(p, group[k], d)
    ensures forall k :: 0 <= k < |group| ==> SoundBelow(p, group[k], d)
    ensures forall k :: 0 <= k < |group| && k != j ==> Total(group[k].cells, d == 0) <= Capacity(p, d == 0)
  {
    hide Total, CellsOk;
    forall k | 0 <= k < |group|
      ensures SoundBelow(p, group[k], d) && (k != j ==> Total(group[k].cells, d == 0) <= Capacity(p, d == 0))
    {
      if k != j { assert Sound(p, group[k], d); SoundTop(p, group[k], d); }
    }
  }

  /** The parent with its rewritten group. */
  lemma ParentSound(p: Params, f: Frame, page: Tree, nx: nat, n: nat, d: nat, pages: seq<Tree>, newDivs: seq<Cell>)
    requires FrameSound(p, f, d) && nx <= f.idx <= nx + n <= |f.cells| && |pages| == |newDivs| + 1
    requires AllSound(p, pages, d) && CellsOk(p, newDivs)
    requires var kids := f.kids[f.idx := page];
             StandsFor(Forest(p.table, pages, newDivs), Forest(p.table, kids[nx..nx + n + 1], f.cells[nx..nx + n]))
    ensures var kids := f.kids[f.idx := page];
            var node := Node(kids[..nx] + pages + kids[nx + n + 1..], f.cells[..nx] + newDivs + f.cells[nx + n..]);
            SoundBelow(p, node, d + 1) && SamePlace(p, node, f, page)
  {
    hide StandsFor, Forest, Sound, Total, CellOk;
    var kids := f.kids[f.idx := page];
    var kids', cells' := kids[..nx] + pages + kids[nx + n + 1..], f.cells[..nx] + newDivs + f.cells[nx + n..];
    KidsSound(p, f, page, nx, n, d, pages);
    ThreeOk(p, f.cells, nx, n, newDivs);
    RowStandsFor(p.table, kids, f.cells, nx, n, pages, newDivs);
  }

  lemma ThreeOk(p: Params, cells: seq<Cell>, nx: nat, n: nat, newDivs: seq<Cell>)
    requires CellsOk(p, cells) && CellsOk(p, newDivs) && nx + n <= |cells|
    ensures CellsOk(p, cells[..nx] + newDivs + cells[nx + n..])
  {
    hide CellOk;
  }

  lemma KidsSound(p: Params, f: Frame, page: Tree, nx: nat, n: nat, d: nat, pages: seq<Tree>)
    requires FrameSound(p, f, d) && nx <= f.idx <= nx + n <= |f.cells| && AllSound(p, pages, d)
    ensures var kids := f.kids[f.idx := page]; AllSound(p, kids[..nx] + pages + kids[nx + n + 1..], d)
  {
    hide Sound, CellsOk;
    var kids := f.kids[f.idx := page];
    assert kids[..nx] == f.kids[..nx] && kids[nx + n + 1..] == f.kids[nx + n + 1..];
    assert AllSound(p, f.kids[..nx], d) && AllSound(p, f.kids[nx + n + 1..], d);
  }

  lemma RowStandsFor(table: bool, kids: seq<Tree>, cells: seq<Cell>, nx: nat, n: nat, pages: seq<Tree>,
                     newDivs: seq<Cell>)
    requires |kids| == |cells| + 1 && nx + n <= |cells| && |pages| == |newDivs| + 1
    requires StandsFor(Forest(table, pages, newDivs), Forest(table, kids[nx..nx + n + 1], cells[nx..nx + n]))
    ensures StandsFor(Forest(table, kids[..nx] + pages + kids[nx + n + 1..], cells[..nx] + newDivs + cells[nx + n..]),
            Forest(table, kids, cells))
  {
    hide StandsFor, Forest;
    var k1, c1, k2, c2 := kids[..nx], cells[..nx], kids[nx + n + 1..], cells[nx + n..];
    var k, c := kids[nx..nx + n + 1], cells[nx..nx + n];
    ThreeParts(kids, nx, nx + n + 1);
    ThreeParts(cells, nx, nx + n);
    ForestContext(table, k1, c1, k, c, k2, c2);
    ForestContext(table, k1, c1, pages, newDivs, k2, c2);
    StandsForInside(Forest(table, pages, newDivs), Forest(table, k, c), Forest(table, k1, c1), RightOf(table, k2, c2));
  }

  // ----- balance_quick and balance_deeper

  /** Moves the last cell of the last table leaf to a new page right of it. */
  method BalanceQuick(p: Params, f: Frame, page: Tree, isRoot: bool) returns (node: Tree)
    requires p.table && FrameSound(p, f, 0) && SoundBelow(p, page, 0) && FrameLoose(p, f, isRoot)
    requires f.idx == |f.cells| && |page.cells| >= 2
             && SplitAt(p, page.cells, true, |page.cells| - 1, 1, Capacity(p, true))
    ensures SamePlace(p, node, f, page)
    ensures SoundBelow(p, node, 1) && NearlyFits(p, node.cells, false, Room(p, false, isRoot))
            && |node.cells| == |f.cells| + 1
    ensures LastMoved(f, page.cells[..|page.cells| - 1], page.cells[|page.cells| - 1], node)
    ensures FrameFilled(f) ==> FilledBelow(node)
  {
    hide StandsFor, Forest, Total, CellOk, FrameLoose, NearlyFits, FrameFilled;
    var n := |page.cells| - 1;
    var left, right := Leaf(page.cells[..n]), Leaf([page.cells[n]]);
    var d := Divider(page.cells[n - 1]);
    node := Node(f.kids[..f.idx] + [left, right], f.cells + [d]);
    QuickStandsFor(page.cells, left, right, d);
    QuickSound(p, page.cells, n);
    ForestOne(true, page);
    var kids := f.kids[f.idx := page];
    assert kids[f.idx..f.idx + 1] == [page] && f.cells[f.idx..f.idx] == [];
    assert f.cells[..f.idx] + [d] + f.cells[f.idx..] == f.cells + [d];
    assert kids[..f.idx] + [left, right] + kids[f.idx + 1..] == f.kids[..f.idx] + [left, right];
    ParentSound(p, f, page, f.idx, 0, 0, [left, right], [d]);
    ParentNearlyFits(p, f, isRoot, f.idx, 0, [d]);
    if FrameFilled(f) { QuickFilled(f, left, right, node); }
  }

  /** The last leaf keeps its cells but the last, which has a page of its own; the key before it divides
      the two. */
  ghost predicate LastMoved(f: Frame, kept: seq<Cell>, last: Cell, node: Tree) {
    && kept != [] && f.idx <= |f.kids| && node.Node?
    && node.kids == f.kids[..f.idx] + [Leaf(kept), Leaf([last])]
    && node.cells == f.cells + [kept[|kept| - 1].(data := 0)]
  }

  lemma QuickFilled(f: Frame, left: Tree, right: Tree, node: Tree)
    requires FrameFilled(f) && f.idx + 1 == |f.kids| && node.Node? && node.kids == f.kids[..f.idx] + [left, right]
    requires left.Leaf? && right.Leaf? && left.cells != [] && right.cells != []
    ensures FilledBelow(node)
  {
    assert Filled(left) && Filled(right);
  }

  lemma QuickSound(p: Params, cells: seq<Cell>, n: nat)
    requires CellsOk(p, cells) && 1 <= n == |cells| - 1 && SplitAt(p, cells, true, n, 1, Capacity(p, true))
    ensures AllSound(p, [Leaf(cells[..n]), Leaf([cells[n]])], 0) && CellsOk(p, [Divider(cells[n - 1])])
  {
    assert CellOk(p, cells[n]) && CellOk(p, cells[n - 1]);
    assert [cells[n]][..0] == [];
    assert Total([cells[n]], true) == cells[n].leafCost;
    assert Sound(p, Leaf(cells[..n]), 0) && Sound(p, Leaf([cells[n]]), 0);
  }

  lemma QuickStandsFor(cells: seq<Cell>, left: Tree, right: Tree, d: Cell)
    requires |cells| >= 2 && left == Leaf(cells[..|cells| - 1]) && right == Leaf([cells[|cells| - 1]])
             && d == Divider(cells[|cells| - 2])
    ensures StandsFor(Forest(true, [left, right], [d]), Forest(true, [Leaf(cells)], []))
  {
    hide StandsFor, Forest;
    var n := |cells| - 1;
    var cnt := [n, |cells|];
    assert cnt[1..] == [|cells|];
    assert Cuts(|cells|, true, n, cnt[1..]) && Cuts(|cells|, true, 0, cnt);
    assert LeafPages(cells, true, n, cnt[1..]) == [right] by { assert cells[n..|cells|] == [cells[n]]; }
    assert LeafPages(cells, true, 0, cnt) == [left, right];
    assert NewDividers(cells, true, n, cnt[1..]) == [] && NewDividers(cells, true, 0, cnt) == [d];
    assert GatherCells(true, [Leaf(cells)][1..], []) == [] && cells + [] + [] == cells;
    LeavesStandFor(true, [Leaf(cells)], [], cells, cnt);
  }

  /** Moves the root page into a new only child. */
  function BalanceDeeper(root: Tree): (f: Frame)
    ensures f.kids == [root] && f.cells == [] && f.idx == 0
    ensures Plug([f], root) == Node([root], []) && forall table :: Items(table, Fill(f, root)) == Items(table, root)
  {
    var f := Frame([root], [], 0);
    assert [root][0 := root] == [root] && Front([f]) == [];
    assert forall table :: Items(table, Node([root], [])) == Items(table, root) by {
      forall table ensures Items(table, Node([root], [])) == Items(table, root) { ForestOne(table, root); }
    }
    f
  }

  // ----- The loop

  /** What the loop keeps.  over says that the current page holds overflow cells; on a leaf that is one
      cell, at position at. */
  ghost predicate LoopState(p: Params, frames: seq<Frame>, focus: Tree, d: nat, over: bool, at: nat) {
    && SoundBelow(p, focus, d) && StackSound(p, frames, d) && StackLoose(p, frames)
    && (!over ==> Total(focus.cells, d == 0) <= Room(p, d == 0, frames == []))
    && (over ==> Overfull(p, focus, d, at, Capacity(p, d == 0)))
    && (over && (|frames| == 1 ==> p.rootHdr == 0) ==> Total(focus.cells, d == 0) > Room(p, d == 0, frames == []))
  }

  /** The overflow cells are one cell of a leaf, or a few of an interior page. */
  ghost predicate Overfull(p: Params, focus: Tree, d: nat, at: nat, room: int) {
    NearlyFits(p, focus.cells, d == 0, room) && (d == 0 ==> SplitAt(p, focus.cells, true, at, 1, room))
  }

  /** The loop after the step at one page: the result of the step takes the place of the parent. */
  lemma ClimbState(p: Params, frames: seq<Frame>, focus: Tree, d: nat, node: Tree, d': nat)
    requires frames != [] && StackSound(p, frames, d) && StackLoose(p, frames)
             && SamePlace(p, node, Last(frames), focus)
    requires SoundBelow(p, node, d')
    requires var isRoot := |frames| == 1;
             || (d' == d + 1 && NearlyFits(p, node.cells, false, Room(p, false, isRoot)))
             || (isRoot && d' == d && Total(node.cells, node.Leaf?) <= Room(p, node.Leaf?, true))
    ensures var over := Total(node.cells, node.Leaf?) > Room(p, node.Leaf?, |frames| == 1);
            LoopState(p, Front(frames), node, d', over, 0) && (over ==> d' == d + 1)
    ensures StandsFor(Items(p.table, Plug(Front(frames), node)), Items(p.table, Plug(frames, focus)))
  {
    hide StandsFor, Items, Sound, Total, StackSound;
    assert node.Leaf? == (d' == 0);
    FrontState(p, frames, d);
    if |frames| == 1 { EmptyStack(p, Front(frames), d'); }
    var room := Room(p, false, |frames| == 1);
    if d' == d + 1 { NearlyFitsMore(p, node.cells, false, room, Capacity(p, false)); }
    PlugStandsFor(p, Front(frames), d + 1, node, Fill(Last(frames), focus));
    assert Plug(frames, focus) == Plug(Front(frames), Fill(Last(frames), focus));
  }

  lemma EmptyStack(p: Params, frames: seq<Frame>, d: nat)
    requires frames == []
    ensures StackSound(p, frames, d)
  {
  }

  lemma FrontState(p: Params, frames: seq<Frame>, d: nat)
    requires frames != [] && StackSound(p, frames, d) && StackLoose(p, frames)
    ensures FrameSound(p, Last(frames), d) && StackSound(p, Front(frames), d + 1)
    ensures FrameLoose(p, Last(frames), |frames| == 1) && StackLoose(p, Front(frames))
  {
    hide FrameSound, FrameLoose;
    assert Last(frames) == frames[|frames| - 1];
    assert forall i :: 0 <= i < |frames| - 1 ==> Front(frames)[i] == frames[i];
  }

  lemma NearlyFitsMore(p: Params, cells: seq<Cell>, leaf: bool, room: int, room': int)
    requires NearlyFits(p, cells, leaf, room) && room <= room'
    ensures NearlyFits(p, cells, leaf, room')
  {
    hide Total;
    if Total(cells, leaf) > room {
      var at, n :| SplitAt(p, cells, leaf, at, n, room);
      assert SplitAt(p, cells, leaf, at, n, room');
    }
  }

  /** A page with at least one overflow cell has two cells. */
  lemma TwoCells(p: Params, cells: seq<Cell>)
    requires ParamsOk(p) && CellsOk(p, cells)
    ensures Total(cells, true) > Capacity(p, true) ==> |cells| >= 2
  {
    if |cells| == 1 { assert CellOk(p, cells[0]) && cells[..0] == []; }
  }

  lemma FewCellsFit(p: Params, cells: seq<Cell>)
    requires ParamsOk(p) && CellsOk(p, cells) && |cells| <= 3
    ensures Total(cells, false) <= Room(p, false, true)
  {
    assert forall i :: 0 <= i < |cells| ==> CellOk(p, cells[i]);
    TotalBound(cells, false, 3, Capacity(p, false) - p.rootHdr);
  }

  /** One round of the loop at a page other than the root. */
  method BalanceStep(p: Params, frames: seq<Frame>, focus: Tree, over: bool, at: nat, ghost d: nat)
    returns (ok: bool, node: Tree, ghost d': nat)
    requires ParamsOk(p) && frames != [] && LoopState(p, frames, focus, d, over, at)
    ensures ok && SamePlace(p, node, Last(frames), focus) && SoundBelow(p, node, d')
    ensures var over' := Total(node.cells, node.Leaf?) > Room(p, node.Leaf?, |frames| == 1);
            LoopState(p, Front(frames), node, d', over', 0) && (over' ==> d' == d + 1)
    ensures StandsFor(Items(p.table, Plug(Front(frames), node)), Items(p.table, Plug(frames, focus)))
    ensures d' == d + 1 || (|frames| == 1 && d' == d)
    ensures Last(frames).cells == [] && |frames| == 1 ==> Total(node.cells, node.Leaf?) <= Room(p, node.Leaf?, true)
    ensures if Appended(p, Last(frames), focus, |frames| == 1, over, at)
            then LastMoved(Last(frames), focus.cells[..at], focus.cells[at], node)
            else Rebalanced(p, Last(frames), focus, |frames| == 1, d, node, d')
    ensures StackFilled(frames) && FilledBelow(focus) ==> FilledBelow(node) && StackFilled(Front(frames))
  {
    hide StandsFor, Items, Sound, Total, StackSound, FrameLoose, NearlyFits, SplitAt, SamePlace, CellsOk, Plug,
      FrameFilled, FilledBelow, LastMoved, GroupRewritten;
    var f, isRoot := Last(frames), |frames| == 1;
    FrontState(p, frames, d);
    var parentIsPage1 := isRoot && p.rootHdr == 100;
    if p.table && focus.Leaf? && over && at == |focus.cells| - 1 && !parentIsPage1 && f.idx == |f.cells| {
      TwoCells(p, focus.cells);
      node := BalanceQuick(p, f, focus, isRoot);
      ok, d' := true, 1;
    } else {
      FitsIsNearly(p, focus.cells, d == 0, Capacity(p, d == 0));
      var nOver;
      ghost var parent, nx, n, newDivs;
      ok, node, nOver, d', parent, nx, n, newDivs := BalanceNonroot(p, f, focus, isRoot, d);
    }
    ClimbState(p, frames, focus, d, node, d');
    if f.cells == [] && isRoot && d' == d + 1 { FewCellsFit(p, node.cells); }
    assert StackFilled(frames) ==> FrameFilled(f) && (!isRoot ==> f.cells != []);
  }

  /** The overflow cell is the last entry of a table, and the parent is not page 1. */
  ghost predicate Appended(p: Params, f: Frame, focus: Tree, isRoot: bool, over: bool, at: nat) {
    && over && p.table && focus.Leaf? && at + 1 == |focus.cells| && f.idx == |f.cells| && (isRoot ==> p.rootHdr == 0)
  }

  /** The page has been balanced with its siblings. */
  ghost predicate Rebalanced(p: Params, f: Frame, page: Tree, isRoot: bool, d: nat, node: Tree, d': nat) {
    exists parent, nx, n, newDivs, nOver ::
      && GroupRewritten(p, f, page, isRoot, d, parent, nx, n, newDivs, nOver)
      && if isRoot && parent.cells == [] && |parent.kids| == 1
            && Total(parent.kids[0].cells, d == 0) <= Room(p, d == 0, true)
         then d' == d && node == parent.kids[0] else d' == d + 1 && node == parent
  }

  lemma FitsIsNearly(p: Params, cells: seq<Cell>, leaf: bool, room: int)
    ensures Total(cells, leaf) <= room ==> NearlyFits(p, cells, leaf, room)
  {
  }

  /** A page needs balancing if it holds overflow cells or, unless it is the root, if more than two thirds
      of the usable bytes are free. */
  ghost predicate NeedsWork(p: Params, page: Tree, isRoot: bool) {
    || Total(page.cells, page.Leaf?) > Room(p, page.Leaf?, isRoot)
    || (!isRoot && Capacity(p, page.Leaf?) - Total(page.cells, page.Leaf?) > p.usable * 2 / 3)
  }

  /** The pages visited, upward from the modified one: each needs balancing, except the last one, and each
      takes the place of the parent of the one before it.  An overfull root is visited again after it has
      been pushed down. */
  ghost predicate Climbed(p: Params, frames0: seq<Frame>, path: seq<Tree>) {
    && 1 <= |path| <= |frames0| + 2
    && (forall i :: 0 <= i < |path| - 1 ==> NeedsWork(p, path[i], i == |frames0|))
    && (forall i :: 0 <= i < |path| - 1 && i < |frames0| ==>
          SamePlace(p, path[i + 1], frames0[|frames0| - 1 - i], path[i]))
  }

  lemma ClimbedOn(p: Params, frames0: seq<Frame>, path: seq<Tree>, node: Tree)
    requires Climbed(p, frames0, path) && |path| <= |frames0| + 1
    requires NeedsWork(p, path[|path| - 1], |path| - 1 == |frames0|)
    requires |path| <= |frames0| ==> SamePlace(p, node, frames0[|frames0| - |path|], path[|path| - 1])
    ensures Climbed(p, frames0, path + [node])
  {
    hide NeedsWork, SamePlace;
  }

  /** The current page is the last one on the path. */
  ghost predicate AtEnd(frames0: seq<Frame>, path: seq<Tree>, frames: seq<Frame>, focus: Tree, deeper: bool) {
    && path != [] && path[|path| - 1] == focus
    && (if deeper then |path| + |frames| == |frames0| + 2 else |path| + |frames| == |frames0| + 1)
  }

  /** Balances a modified page, then its ancestors as far as necessary.  Whatever the modification, the
      tree keeps its entries and its order, all leaves stay at one depth, and the pages that were
      visited no longer hold overflow cells.  The loop visits exactly the pages that need it: it stops at
      the first page that does not, and then no page of the tree is empty, except perhaps the root, if
      only the modified page could be.  Corruption is never reported, the root is pushed down at most
      once and balance_quick is called at most once. */
  method Balance(p: Params, frames0: seq<Frame>, focus0: Tree, at0: nat, ghost d0: nat)
    returns (ok: bool, frames: seq<Frame>, focus: Tree, ghost d: nat, ghost path: seq<Tree>)
    requires ParamsOk(p) && SoundBelow(p, focus0, d0) && StackSound(p, frames0, d0) && StackLoose(p, frames0)
    requires var room := Room(p, d0 == 0, frames0 == []);
             Total(focus0.cells, d0 == 0) > room ==> Overfull(p, focus0, d0, at0, room)
    ensures ok && StandsFor(Items(p.table, Plug(frames, focus)), Items(p.table, Plug(frames0, focus0)))
    ensures SoundBelow(p, focus, d) && Total(focus.cells, focus.Leaf?) <= Room(p, focus.Leaf?, frames == [])
    ensures |frames| <= |frames0| && frames == frames0[..|frames|] && StackSound(p, frames, d)
    ensures frames != [] ==> |frames| + d == |frames0| + d0
    ensures |frames0| + d0 - 1 <= |frames| + d <= |frames0| + d0 + 1
    ensures !NeedsWork(p, focus, frames == [])
    ensures Climbed(p, frames0, path) && path[0] == focus0
    ensures AtEnd(frames0, path, frames, focus, false) || (frames == [] && AtEnd(frames0, path, frames, focus, true))
    ensures StackFilled(frames0) && FilledBelow(focus0) ==>
              StackFilled(frames) && FilledBelow(focus) && (frames != [] ==> focus.cells != [])
  {
    hide StandsFor, Items, Sound, SoundBelow, Total, StackSound, FrameLoose, NearlyFits, SplitAt, CellsOk, Plug,
      FrameSound, Climbed, SamePlace, StackFilled, FilledBelow, LastMoved, Rebalanced, Appended, NeedsWork, LoopState;
    ok, frames, focus, d, path := true, frames0, focus0, d0, [focus0];
    var over, at := Total(focus.cells, focus.Leaf?) > Room(p, focus.Leaf?, frames == []), at0;
    ghost var deeper := false;
    LoopStarts(p, frames, focus, d, over, at);
    ClimbStarts(p, frames0, focus0);
    StandsForItself(Items(p.table, Plug(frames, focus)));
    while true
      invariant ok && LoopState(p, frames, focus, d, over, at)
      invariant StandsFor(Items(p.table, Plug(frames, focus)), Items(p.table, Plug(frames0, focus0)))
      invariant Place(frames0, d0, frames, d, over, deeper)
      invariant over <==> Total(focus.cells, focus.Leaf?) > Room(p, focus.Leaf?, deeper || frames == [])
      invariant Climbed(p, frames0, path) && AtEnd(frames0, path, frames, focus, deeper) && path[0] == focus0
      invariant StackFilled(frames0) && FilledBelow(focus0) ==> StackFilled(frames) && FilledBelow(focus)
      decreases !deeper, |frames|
    {
      if frames == [] {
        if !over { break; }
        deeper, frames := true, [BalanceDeeper(focus)];
        DeeperState(p, focus, d, at);
        DeeperFilled(focus);
      } else if !over && Capacity(p, focus.Leaf?) - Total(focus.cells, focus.Leaf?) <= p.usable * 2 / 3 {
        break;
      } else {
        ghost var before, d1 := Items(p.table, Plug(frames, focus)), d;
        var node;
        VisitNeeded(p, focus, over, deeper);
        ok, node, d := BalanceStep(p, frames, focus, over, at, d);
        ClimbedOn(p, frames0, path, node);
        path := path + [node];
        over := Total(node.cells, node.Leaf?) > Room(p, node.Leaf?, |frames| == 1);
        frames, focus, at := Front(frames), node, 0;
        StandsForTransitive(Items(p.table, Plug(frames, focus)), before, Items(p.table, Plug(frames0, focus0)));
      }
    }
    LoopFacts(p, frames, focus, d, over, at);
    VisitOver(p, focus, frames == []);
  }

  /** Where the loop is: the stack is a part of the first one, until the root is pushed down. */
  ghost predicate Place(frames0: seq<Frame>, d0: nat, frames: seq<Frame>, d: nat, over: bool, deeper: bool) {
    var h0 := |frames0| + d0;
    if deeper then
      if frames == [] then !over && h0 <= d <= h0 + 1
      else |frames| == 1 && Last(frames).cells == [] && over && d == h0
    else
      && |frames| <= |frames0| && frames == frames0[..|frames|] && h0 - 1 <= |frames| + d <= h0
      && (frames != [] || over ==> |frames| + d == h0)
  }

  lemma LoopFacts(p: Params, frames: seq<Frame>, focus: Tree, d: nat, over: bool, at: nat)
    requires LoopState(p, frames, focus, d, over, at)
    ensures SoundBelow(p, focus, d) && StackSound(p, frames, d)
  {
  }

  lemma LoopStarts(p: Params, frames: seq<Frame>, focus: Tree, d: nat, over: bool, at: nat)
    requires SoundBelow(p, focus, d) && StackSound(p, frames, d) && StackLoose(p, frames)
    requires over <==> Total(focus.cells, focus.Leaf?) > Room(p, focus.Leaf?, frames == [])
    requires var room := Room(p, d == 0, frames == []);
             Total(focus.cells, d == 0) > room ==> Overfull(p, focus, d, at, room)
    ensures LoopState(p, frames, focus, d, over, at)
  {
    hide Total, StackSound, StackLoose, Overfull;
    assert focus.Leaf? == (d == 0);
    if over { OverfullMore(p, focus, d, at, Room(p, d == 0, frames == [])); }
  }

  lemma ClimbStarts(p: Params, frames0: seq<Frame>, focus0: Tree)
    ensures Climbed(p, frames0, [focus0])
  {
  }

  lemma VisitNeeded(p: Params, focus: Tree, over: bool, isRoot: bool)
    requires over <==> Total(focus.cells, focus.Leaf?) > Room(p, focus.Leaf?, isRoot)
    requires over || (!isRoot && Capacity(p, focus.Leaf?) - Total(focus.cells, focus.Leaf?) > p.usable * 2 / 3)
    ensures NeedsWork(p, focus, isRoot)
  {
  }

  /** An empty page other than the root needs balancing. */
  lemma VisitOver(p: Params, focus: Tree, isRoot: bool)
    requires ParamsOk(p) && Total(focus.cells, focus.Leaf?) <= Room(p, focus.Leaf?, isRoot)
    requires isRoot || Capacity(p, focus.Leaf?) - Total(focus.cells, focus.Leaf?) <= p.usable * 2 / 3
    ensures !NeedsWork(p, focus, isRoot) && (!isRoot ==> focus.cells != [])
  {
  }

  lemma DeeperFilled(focus: Tree)
    ensures StackFilled([BalanceDeeper(focus)])
  {
    assert BalanceDeeper(focus).idx == 0 && |BalanceDeeper(focus).kids| == 1;
  }

  lemma OverfullMore(p: Params, focus: Tree, d: nat, at: nat, room: int)
    requires Overfull(p, focus, d, at, room) && room <= Capacity(p, d == 0)
    ensures Overfull(p, focus, d, at, Capacity(p, d == 0))
  {
    NearlyFitsMore(p, focus.cells, d == 0, room, Capacity(p, d == 0));
  }

  lemma DeeperState(p: Params, focus: Tree, d: nat, at: nat)
    requires ParamsOk(p) && LoopState(p, [], focus, d, true, at)
    ensures LoopState(p, [BalanceDeeper(focus)], focus, d, true, at)
    ensures Items(p.table, Plug([BalanceDeeper(focus)], focus)) == Items(p.table, focus) && Plug([], focus) == focus
  {
    hide Sound, Items, NearlyFits, SplitAt;
    var f := BalanceDeeper(focus);
    assert Front([f]) == [] && Last([f]) == f;
    assert Total(f.cells, false) == 0;
    assert FrameLoose(p, f, true) && FrameSound(p, f, d) && StackSound(p, [f], d);
    assert forall i :: 0 <= i < |[f]| ==> [f][i] == f;
  }

  // ----- Whole operations

  /** A tree of depth d none of whose pages holds overflow cells. */
  ghost predicate SoundTree(p: Params, t: Tree, d: nat) {
    SoundBelow(p, t, d) && Total(t.cells, t.Leaf?) <= Room(p, t.Leaf?, true)
  }

  ghost predicate StackFits(p: Params, frames: seq<Frame>) {
    forall i :: 0 <= i < |frames| ==> Total(frames[i].cells, false) <= Room(p, false, i == 0)
  }

  lemma {:induction false} PlugSound(p: Params, frames: seq<Frame>, t: Tree, d: nat)
    requires StackSound(p, frames, d) && StackFits(p, frames)
    requires SoundBelow(p, t, d) && Total(t.cells, t.Leaf?) <= Room(p, t.Leaf?, frames == [])
    ensures SoundTree(p, Plug(frames, t), d + |frames|)
    decreases |frames|
  {
    hide Sound, Total, CellsOk;
    if frames != [] {
      FillSound(p, Last(frames), t, d);
      assert Front(frames) == frames[..|frames| - 1];
      assert forall i :: 0 <= i < |frames| - 1 ==> Front(frames)[i] == frames[i];
      assert StackFits(p, Front(frames));
      PlugSound(p, Front(frames), Fill(Last(frames), t), d + 1);
    }
  }

  /** The visits end at a page at depth k or above that needs no more work. */
  ghost predicate SettledFrom(p: Params, frames: seq<Frame>, k: nat, tree: Tree) {
    exists rest, page ::
      && tree == Plug(rest, page) && |rest| <= k && |rest| <= |frames| && rest == frames[..|rest|]
      && !NeedsWork(p, page, rest == [])
  }

  lemma {:induction false} PlugFilled(frames: seq<Frame>, t: Tree)
    requires StackFilled(frames) && FilledBelow(t) && (frames != [] ==> t.cells != [])
    ensures FilledBelow(Plug(frames, t))
    decreases |frames|
  {
    hide FilledBelow, FrameFilled;
    if frames != [] {
      FillFilled(frames, t);
      PlugFilled(Front(frames), Fill(Last(frames), t));
    }
  }

  lemma FillFilled(frames: seq<Frame>, t: Tree)
    requires frames != [] && StackFilled(frames) && FilledBelow(t) && t.cells != []
    ensures var t' := Fill(Last(frames), t);
            FilledBelow(t') && StackFilled(Front(frames)) && (|frames| > 1 ==> t'.cells != [])
  {
    var f := Last(frames);
    assert f == frames[|frames| - 1] && FrameFilled(f) && Filled(t);
    if f.idx < |f.kids| {
      assert forall k :: 0 <= k < |f.kids| && k != f.idx ==> f.kids[f.idx := t][k] == f.kids[k];
      assert AllFilled(f.kids[f.idx := t]);
    }
    assert forall i :: 0 <= i < |frames| - 1 ==> Front(frames)[i] == frames[i];
  }

  lemma FillSound(p: Params, f: Frame, t: Tree, d: nat)
    requires FrameSound(p, f, d) && SoundBelow(p, t, d) && Total(t.cells, t.Leaf?) <= Capacity(p, t.Leaf?)
    ensures SoundBelow(p, Fill(f, t), d + 1)
  {
    hide Total, CellsOk;
    assert Sound(p, t, d);
    assert AllSound(p, f.kids[f.idx := t], d) by { hide Sound; }
  }

  lemma LeafFilled(p: Params, leaf: Tree)
    requires SoundBelow(p, leaf, 0)
    ensures FilledBelow(leaf)
  {
  }

  /** After an insertion into a leaf: the whole tree is sound again, has the same entries, and is
      sorted if it was; no page becomes empty. */
  method BalanceAfterInsert(p: Params, frames: seq<Frame>, leaf: Tree, at: nat)
    returns (ok: bool, tree: Tree, ghost d: nat)
    requires ParamsOk(p) && SoundBelow(p, leaf, 0) && StackSound(p, frames, 0) && StackFits(p, frames)
    requires var room := Room(p, true, frames == []); Total(leaf.cells, true) > room ==>
               SplitAt(p, leaf.cells, true, at, 1, room)
    ensures ok && SoundTree(p, tree, d) && |frames| - 1 <= d <= |frames| + 1
    ensures InOrder(p.table, tree) == InOrder(p.table, Plug(frames, leaf))
    ensures Sorted(Items(p.table, Plug(frames, leaf))) ==> Sorted(Items(p.table, tree))
    ensures SettledFrom(p, frames, |frames|, tree) && (StackFilled(frames) ==> FilledBelow(tree))
  {
    hide Items, Sound, Total, StackSound, CellsOk, FrameSound, Sorted, Entries, StackFilled, FilledBelow, Climbed,
      NeedsWork, Plug;
    var frames', page;
    ghost var path;
    FitsLoose(p, frames);
    ok, frames', page, d, path := Balance(p, frames, leaf, at, 0);
    tree := Plug(frames', page);
    LeafFilled(p, leaf);
    if StackFilled(frames) { PlugFilled(frames', page); }
    StackFitsFront(p, frames, |frames'|);
    PlugSound(p, frames', page, d);
    d := d + |frames'|;
    StandsForMeans(Items(p.table, tree), Items(p.table, Plug(frames, leaf)));
  }

  lemma StandsForMeans(g: seq<Item>, f: seq<Item>)
    requires StandsFor(g, f)
    ensures Entries(g) == Entries(f) && (Sorted(f) ==> Sorted(g))
  {
    hide Sorted, Entries;
    assert [] + f + [] == f && [] + g + [] == g;
    assert Sorted([] + f + []) ==> Sorted([] + g + []);
  }

  lemma FitsLoose(p: Params, frames: seq<Frame>)
    requires StackFits(p, frames)
    ensures StackLoose(p, frames)
  {
    hide Total;
  }

  lemma StackFitsFront(p: Params, frames: seq<Frame>, n: nat)
    requires StackFits(p, frames) && n <= |frames|
    ensures StackFits(p, frames[..n])
  {
    hide Total;
  }

  /** All pages on the stack fit except perhaps the one at depth k, which is one cell over. */
  ghost predicate StackFitsBut(p: Params, frames: seq<Frame>, k: nat) {
    StackLoose(p, frames) && forall i ::
          0 <= i < |frames| && i != k ==> Total(frames[i].cells, false) <= Room(p, false, i == 0)
  }

  /** Leaving pages that need no more attention, down to the page at depth k. */
  method PopTo(p: Params, frames0: seq<Frame>, page0: Tree, k: nat, ghost d0: nat)
    returns (frames: seq<Frame>, page: Tree, ghost d: nat)
    requires ParamsOk(p) && k < |frames0| && StackSound(p, frames0, d0) && StackFitsBut(p, frames0, k)
    requires SoundBelow(p, page0, d0) && Total(page0.cells, page0.Leaf?) <= Capacity(p, page0.Leaf?)
    ensures frames == frames0[..k] && Plug(frames, page) == Plug(frames0, page0) && StackSound(p, frames, d) && d > 0
            && d + k == d0 + |frames0|
    ensures SoundBelow(p, page, d) && NearlyFits(p, page.cells, false, Room(p, false, k == 0))
    ensures StackFilled(frames0) && FilledBelow(page0) && page0.cells != [] ==> StackFilled(frames) && FilledBelow(page)
  {
    hide Sound, SoundBelow, FrameSound, Total, CellsOk, FrameLoose, NearlyFits, FilledBelow, StackFilled;
    ghost var filled := StackFilled(frames0) && FilledBelow(page0) && page0.cells != [];
    frames, page, d := frames0, page0, d0;
    while |frames| > k + 1
      invariant k + 1 <= |frames| <= |frames0| && frames == frames0[..|frames|]
                && Plug(frames, page) == Plug(frames0, page0)
      invariant StackSound(p, frames, d) && d + |frames| == d0 + |frames0|
      invariant SoundBelow(p, page, d) && Total(page.cells, page.Leaf?) <= Capacity(p, page.Leaf?)
      invariant filled ==> StackFilled(frames) && FilledBelow(page) && page.cells != []
    {
      var f := Last(frames);
      if filled { FillFilled(frames, page); }
      assert f == frames0[|frames| - 1];
      FillSound(p, f, page, d);
      frames, page, d := Front(frames), Fill(f, page), d + 1;
    }
    var f := Last(frames);
    assert f == frames0[k] && FrameLoose(p, f, k == 0);
    FillSound(p, f, page, d);
    LooseIsNearly(p, f, k == 0);
    if filled { FillFilled(frames, page); }
    frames, page, d := Front(frames), Fill(f, page), d + 1;
  }

  lemma LooseIsNearly(p: Params, f: Frame, isRoot: bool)
    requires FrameLoose(p, f, isRoot)
    ensures NearlyFits(p, f.cells, false, Room(p, false, isRoot))
  {
    var room := Room(p, false, isRoot);
    if Total(f.cells, false) > room {
      var c1, c, c2 := f.cells[..f.idx], [f.cells[f.idx]], f.cells[f.idx + 1..];
      assert f.cells == c1 + c + c2;
      TotalConcat(c1 + c, c2, false);
      TotalConcat(c1, c, false);
      assert c[..0] == [] && Total(c, false) == Cost(f.cells[f.idx], false);
      assert SplitAt(p, f.cells, false, f.idx, 1, room);
    }
  }

  /** After a deletion: the leaf that lost a cell is balanced first; if the deleted entry was on an
      interior page, at depth k, whose cell was replaced by one from the leaf, that page is balanced
      next unless the first round has already passed it.  If every page but the root and the leaf held
      a cell, every page of the resulting tree but the root holds one. */
  method BalanceAfterDelete(p: Params, frames: seq<Frame>, leaf: Tree, k: nat)
    returns (ok: bool, tree: Tree, ghost d: nat)
    requires ParamsOk(p) && k <= |frames| && SoundBelow(p, leaf, 0) && StackSound(p, frames, 0)
             && StackFitsBut(p, frames, k)
    requires Total(leaf.cells, true) <= Room(p, true, frames == [])
    ensures ok && SoundTree(p, tree, d) && |frames| - 2 <= d <= |frames| + 2
    ensures InOrder(p.table, tree) == InOrder(p.table, Plug(frames, leaf))
    ensures Sorted(Items(p.table, Plug(frames, leaf))) ==> Sorted(Items(p.table, tree))
    ensures SettledFrom(p, frames, k, tree) && (StackFilled(frames) ==> FilledBelow(tree))
  {
    hide Items, Sound, Total, StackSound, CellsOk, FrameSound, Sorted, Entries, StandsFor, NearlyFits, SplitAt,
      FrameLoose, StackFitsBut, StackFits, StackLoose, Plug, Overfull, StackFilled, FilledBelow, Climbed, NeedsWork;
    var frames1, page;
    ghost var path;
    LooseFront(p, frames, k);
    LeafFilled(p, leaf);
    ok, frames1, page, d, path := Balance(p, frames, leaf, 0, 0);
    ghost var mid := Items(p.table, Plug(frames1, page));
    FitsButFront(p, frames, |frames1|, k);
    if |frames1| > k {
      FrontOfFront(frames, |frames1|, k);
      ghost var d1;
      frames1, page, d1 := PopTo(p, frames1, page, k, d);
      OverfullNode(p, page, d1, Room(p, false, k == 0));
      ok, frames1, page, d, path := Balance(p, frames1, page, 0, d1);
      FitsButFront(p, frames, |frames1|, k);
      FrontOfFront(frames, k, |frames1|);
    }
    StandsForItself(mid);
    tree := Plug(frames1, page);
    if StackFilled(frames) { PlugFilled(frames1, page); }
    PlugSound(p, frames1, page, d);
    d := d + |frames1|;
    StandsForTransitive(Items(p.table, tree), mid, Items(p.table, Plug(frames, leaf)));
    StandsForMeans(Items(p.table, tree), Items(p.table, Plug(frames, leaf)));
  }

  lemma FrontOfFront(frames: seq<Frame>, m: nat, n: nat)
    requires n <= m <= |frames|
    ensures frames[..m][..n] == frames[..n]
  {
  }

  lemma OverfullNode(p: Params, page: Tree, d: nat, room: int)
    requires d > 0 && NearlyFits(p, page.cells, false, room)
    ensures Overfull(p, page, d, 0, room)
  {
  }

  lemma LooseFront(p: Params, frames: seq<Frame>, n: nat)
    requires n <= |frames| && StackFitsBut(p, frames, n)
    ensures StackLoose(p, frames) && StackLoose(p, frames[..n])
  {
    hide FrameLoose, Total;
  }

  lemma FitsButFront(p: Params, frames: seq<Frame>, n: nat, k: nat)
    requires StackFitsBut(p, frames, k) && n <= |frames|
    ensures StackFitsBut(p, frames[..n], k) && (n <= k ==> StackFits(p, frames[..n]))
  {
    hide Total, FrameLoose;
  }
}
