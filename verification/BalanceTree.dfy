/** Balancing seen as a transformation of B-trees.

    A page is a list of cells; an interior page also has one child more than it has cells.  The list
    includes cells that are waiting in the overflow array of the page, so a page "holds overflow
    cells" when its list costs more bytes than the page has.

    In a table tree the entries live in the leaves and interior cells only carry keys.  In an index
    tree every cell is an entry. */
module BTreeModel {

  /** A cell, with the bytes it takes on a leaf and on an interior page, pointer included. */
  datatype Cell = Cell(key: int, data: int, leafCost: nat, nodeCost: nat)

  datatype Tree = Leaf(cells: seq<Cell>) | Node(kids: seq<Tree>, cells: seq<Cell>)

  /** The cell that separates two table leaves: the key of the last cell on the left. */
  function Divider(c: Cell): Cell { c.(data := 0) }

  /** What a scan of the whole tree meets: entries, and in a table tree the separating keys. */
  datatype Item = Entry(cell: Cell) | Sep(cell: Cell)

  function Mark(table: bool, c: Cell): Item { if table then Sep(c) else Entry(c) }

  function Entered(cells: seq<Cell>): seq<Item> { seq(|cells|, i requires 0 <= i < |cells| => Entry(cells[i])) }

  /** The items of a tree, in order. */
  function Items(table: bool, t: Tree): seq<Item>
    decreases t, 1
  {
    match t
    case Leaf(cells) => Entered(cells)
    case Node(kids, cells) => Forest(table, kids, cells)
  }

  /** The items of a row of trees with cells between them. */
  function Forest(table: bool, kids: seq<Tree>, cells: seq<Cell>): seq<Item>
    decreases kids, 0
  {
    if kids == [] then []
    else Items(table, kids[0]) + Between(table, cells) + Forest(table, kids[1..], Rest(cells))
  }

  /** The item that follows a tree in a row. */
  function Between(table: bool, cells: seq<Cell>): seq<Item> {
    if cells == [] then [] else [Mark(table, cells[0])]
  }

  function Rest(cells: seq<Cell>): seq<Cell> { if cells == [] then [] else cells[1..] }

  /** The entries among some items. */
  function Entries(s: seq<Item>): seq<Cell> {
    if s == [] then [] else (if s[0].Entry? then [s[0].cell] else []) + Entries(s[1..])
  }

  /** The entries of a tree, in order. */
  function InOrder(table: bool, t: Tree): seq<Cell> { Entries(Items(table, t)) }

  /** Every key to the left of a separator is at most the separator, and every entry is larger than
      everything to the left of it: this is what makes a search take the right branch. */
  ghost predicate Sorted(s: seq<Item>) { forall i, j :: 0 <= i < j < |s| ==> Before(s[i], s[j]) }

  predicate Before(a: Item, b: Item) { if b.Entry? then a.cell.key < b.cell.key else a.cell.key <= b.cell.key }

  ghost predicate Below(a: seq<Item>, b: seq<Item>) {
    forall i, j :: 0 <= i < |a| && 0 <= j < |b| ==> Before(a[i], b[j])
  }

  lemma SortedConcat(a: seq<Item>, b: seq<Item>)
    ensures Sorted(a + b) <==> Sorted(a) && Sorted(b) && Below(a, b)
  {
    if Sorted(a + b) {
      forall i, j | 0 <= i < j < |a| ensures Before(a[i], a[j]) { assert Before((a + b)[i], (a + b)[j]); }
      forall i, j | 0 <= i < j < |b| ensures Before(b[i], b[j]) { assert Before((a + b)[|a| + i], (a + b)[|a| + j]); }
      forall i, j | 0 <= i < |a| && 0 <= j < |b| ensures Before(a[i], b[j]) {
        assert Before((a + b)[i], (a + b)[|a| + j]);
      }
    }
  }

  lemma {:induction false} EntriesConcat(a: seq<Item>, b: seq<Item>)
    ensures Entries(a + b) == Entries(a) + Entries(b)
  {
    if a == [] {
      assert a + b == b;
    } else {
      assert (a + b)[1..] == a[1..] + b;
      EntriesConcat(a[1..], b);
      var h := if a[0].Entry? then [a[0].cell] else [];
      assert h + (Entries(a[1..]) + Entries(b)) == h + Entries(a[1..]) + Entries(b);
    }
  }

  lemma {:induction false} EntriesEntered(cells: seq<Cell>)
    ensures Entries(Entered(cells)) == cells
  {
    if cells != [] {
      assert Entered(cells)[1..] == Entered(cells[1..]);
      EntriesEntered(cells[1..]);
    }
  }

  // ----- Rows of trees

  lemma {:induction false} ForestConcat(table: bool, k1: seq<Tree>, c1: seq<Cell>, k2: seq<Tree>, c2: seq<Cell>)
    requires |k1| == |c1|
    ensures Forest(table, k1 + k2, c1 + c2) == Forest(table, k1, c1) + Forest(table, k2, c2)
  {
    if k1 == [] {
      assert k1 + k2 == k2 && c1 + c2 == c2;
    } else {
      assert (k1 + k2)[1..] == k1[1..] + k2 && (c1 + c2)[1..] == c1[1..] + c2;
      ForestConcat(table, k1[1..], c1[1..], k2, c2);
    }
  }

  lemma ForestOne(table: bool, t: Tree)
    ensures Forest(table, [t], []) == Items(table, t)
  {
    assert Forest(table, [t][1..], []) == [];
  }

  lemma ForestStep(table: bool, t: Tree, k2: seq<Tree>, c2: seq<Cell>)
    ensures Forest(table, [t] + k2, c2) == Items(table, t) + Between(table, c2) + Forest(table, k2, Rest(c2))
  {
    assert ([t] + k2)[1..] == k2;
  }

  /** A group of siblings followed by the rest of the row. */
  lemma ForestTail(table: bool, kids: seq<Tree>, cells: seq<Cell>, k2: seq<Tree>, c2: seq<Cell>)
    requires |kids| == |cells| + 1 && |k2| == |c2|
    ensures Forest(table, kids + k2, cells + c2)
            == Forest(table, kids, cells) + Between(table, c2) + Forest(table, k2, Rest(c2))
  {
    hide Forest, Items, Between, Rest;
    var t := kids[|cells|];
    ForestLast(table, kids, cells);
    ForestLastTail(table, kids, cells, k2, c2);
    ForestStep(table, t, k2, c2);
    Regroup(Forest(table, kids[..|cells|], cells), Items(table, t), Between(table, c2), Forest(table, k2, Rest(c2)));
  }

  lemma ForestLast(table: bool, kids: seq<Tree>, cells: seq<Cell>)
    requires |kids| == |cells| + 1
    ensures Forest(table, kids, cells) == Forest(table, kids[..|cells|], cells) + Items(table, kids[|cells|])
  {
    hide Forest, Items;
    var k0, t := kids[..|cells|], kids[|cells|];
    assert kids == k0 + [t] && cells == cells + [];
    ForestConcat(table, k0, cells, [t], []);
    ForestOne(table, t);
  }

  lemma ForestLastTail(table: bool, kids: seq<Tree>, cells: seq<Cell>, k2: seq<Tree>, c2: seq<Cell>)
    requires |kids| == |cells| + 1
    ensures Forest(table, kids + k2, cells + c2)
            == Forest(table, kids[..|cells|], cells) + Forest(table, [kids[|cells|]] + k2, c2)
  {
    hide Forest;
    var k0, t := kids[..|cells|], kids[|cells|];
    assert kids + k2 == k0 + ([t] + k2);
    ForestConcat(table, k0, cells, [t] + k2, c2);
  }

  lemma Regroup(a: seq<Item>, b: seq<Item>, c: seq<Item>, d: seq<Item>)
    ensures a + (b + c + d) == a + b + c + d
  {
  }

  lemma Associate<T>(a: seq<T>, b: seq<T>, c: seq<T>)
    ensures a + (b + c) == a + b + c
  {
  }

  /** The items of a row around a group of siblings. */
  lemma ForestContext(table: bool, k1: seq<Tree>, c1: seq<Cell>, kids: seq<Tree>, cells: seq<Cell>, k2: seq<Tree>,
                      c2: seq<Cell>)
    requires |k1| == |c1| && |kids| == |cells| + 1 && |k2| == |c2|
    ensures Forest(table, k1 + kids + k2, c1 + cells + c2)
            == Forest(table, k1, c1) + Forest(table, kids, cells) + RightOf(table, k2, c2)
  {
    hide Forest, Items, Between, Rest;
    Associate(k1, kids, k2);
    Associate(c1, cells, c2);
    ForestConcat(table, k1, c1, kids + k2, cells + c2);
    ForestTail(table, kids, cells, k2, c2);
    var a, b, c, d := Forest(table, k1, c1), Forest(table, kids, cells), Between(table, c2),
        Forest(table, k2, Rest(c2));
    Associate(b, c, d);
    Associate(a, b, c + d);
  }

  function RightOf(table: bool, k2: seq<Tree>, c2: seq<Cell>): seq<Item> {
    Between(table, c2) + Forest(table, k2, Rest(c2))
  }

  // ----- One stretch of items in place of another

  /** Wherever f occurs, g can take its place: same entries, and a sorted whole stays sorted. */
  ghost predicate StandsFor(g: seq<Item>, f: seq<Item>) {
    Entries(g) == Entries(f) && forall x, y :: Sorted(x + f + y) ==> Sorted(x + g + y)
  }

  lemma StandsForInside(g: seq<Item>, f: seq<Item>, l: seq<Item>, r: seq<Item>)
    requires StandsFor(g, f)
    ensures StandsFor(l + g + r, l + f + r)
  {
    hide Sorted, Entries;
    EntriesConcat(l + g, r);
    EntriesConcat(l, g);
    EntriesConcat(l + f, r);
    EntriesConcat(l, f);
    forall x, y | Sorted(x + (l + f + r) + y) ensures Sorted(x + (l + g + r) + y) {
      assert x + (l + f + r) + y == (x + l) + f + (r + y);
      assert x + (l + g + r) + y == (x + l) + g + (r + y);
    }
  }

  lemma StandsForTransitive(h: seq<Item>, g: seq<Item>, f: seq<Item>)
    requires StandsFor(h, g) && StandsFor(g, f)
    ensures StandsFor(h, f)
  {
    hide Sorted, Entries;
    forall x, y | Sorted(x + f + y) ensures Sorted(x + h + y) { assert Sorted(x + g + y); }
  }

  /** Items whose keys all lie among the keys of b, sorted, with the entries b. */
  lemma StandsForSame(g: seq<Item>, f: seq<Item>, b: seq<Cell>)
    requires Entries(f) == b == Entries(g)
    requires Sorted(f) ==> Sorted(g)
    requires b == [] ==> g == []
    requires Sorted(f) && b != [] ==> forall i :: 0 <= i < |g| ==> b[0].key <= g[i].cell.key <= b[|b| - 1].key
    ensures StandsFor(g, f)
  {
    hide Sorted;
    forall x, y | Sorted(x + f + y) ensures Sorted(x + g + y) {
      SortedConcat(x + f, y);
      SortedConcat(x, f);
      BelowAround(g, f, b, x, y);
      SortedConcat(x, g);
      SortedConcat(x + g, y);
    }
  }

  lemma BelowAround(g: seq<Item>, f: seq<Item>, b: seq<Cell>, x: seq<Item>, y: seq<Item>)
    requires Entries(f) == b && Below(x + f, y) && Below(x, f)
    requires b == [] ==> g == []
    requires b != [] ==> forall i :: 0 <= i < |g| ==> b[0].key <= g[i].cell.key <= b[|b| - 1].key
    ensures Below(x, g) && Below(x + g, y)
  {
    assert forall i :: 0 <= i < |x| ==> (x + f)[i] == x[i];
    if b != [] {
      var i, j := EntryAt(f, 0), EntryAt(f, |b| - 1);
      assert (x + f)[|x| + j] == f[j];
      assert forall k :: 0 <= k < |x| ==> Before(x[k], f[i]);
      assert forall k :: 0 <= k < |y| ==> Before(f[j], y[k]);
    }
  }

  /** Where the k-th entry is. */
  ghost function EntryAt(s: seq<Item>, k: nat): (i: nat)
    requires k < |Entries(s)|
    ensures i < |s| && s[i] == Entry(Entries(s)[k])
  {
    if !s[0].Entry? then 1 + EntryAt(s[1..], k) else if k == 0 then 0 else 1 + EntryAt(s[1..], k - 1)
  }

  lemma {:induction false} EntriesSorted(s: seq<Item>)
    requires Sorted(s)
    ensures Sorted(Entered(Entries(s)))
  {
    if s != [] {
      SortedConcat([s[0]], s[1..]);
      assert s == [s[0]] + s[1..];
      EntriesSorted(s[1..]);
      var e := Entries(s[1..]);
      if s[0].Entry? {
        assert Entered(Entries(s)) == [s[0]] + Entered(e);
        forall k | 0 <= k < |e| ensures Before(s[0], Entry(e[k])) {
          var i := EntryAt(s[1..], k);
          assert Before([s[0]][0], s[1..][i]);
        }
        SortedConcat([s[0]], Entered(e));
      } else {
        assert Entries(s) == e;
      }
    }
  }

  // ----- Gathering the cells of siblings

  /** The cells of siblings in one row, with the cells that separate them; in table leaves without. */
  function GatherCells(leafData: bool, kids: seq<Tree>, divs: seq<Cell>): seq<Cell> {
    if kids == [] then []
    else kids[0].cells + (if leafData || divs == [] then [] else [divs[0]])
         + GatherCells(leafData, kids[1..], Rest(divs))
  }

  /** The children of interior siblings in one row. */
  function GatherKids(kids: seq<Tree>): seq<Tree>
    requires forall k :: 0 <= k < |kids| ==> kids[k].Node?
  {
    if kids == [] then [] else kids[0].kids + GatherKids(kids[1..])
  }

  /** What is gathered from leaves are the entries among their items. */
  lemma {:induction false} GatherLeaves(table: bool, kids: seq<Tree>, divs: seq<Cell>)
    requires forall k :: 0 <= k < |kids| ==> kids[k].Leaf?
    ensures Entries(Forest(table, kids, divs)) == GatherCells(table, kids, divs)
  {
    hide Entered;
    if kids != [] {
      GatherLeaves(table, kids[1..], Rest(divs));
      var a, b := Entered(kids[0].cells), Between(table, divs);
      assert Forest(table, kids, divs) == a + b + Forest(table, kids[1..], Rest(divs));
      EntriesConcat(a + b, Forest(table, kids[1..], Rest(divs)));
      EntriesConcat(a, b);
      EntriesEntered(kids[0].cells);
      assert Entries(b) == if table || divs == [] then [] else [divs[0]] by { if divs != [] { EntriesOne(b[0]); } }
    }
  }

  lemma EntriesOne(i: Item)
    ensures Entries([i]) == if i.Entry? then [i.cell] else []
  {
    assert [i][1..] == [];
  }

  ghost predicate AllNodes(kids: seq<Tree>) {
    forall k :: 0 <= k < |kids| ==> kids[k].Node? && |kids[k].kids| == |kids[k].cells| + 1
  }

  /** Interior siblings have the items of the row of all their children. */
  lemma {:induction false} GatherNodes(table: bool, kids: seq<Tree>, divs: seq<Cell>)
    requires |kids| == |divs| + 1 && AllNodes(kids)
    ensures |GatherKids(kids)| == |GatherCells(false, kids, divs)| + 1
    ensures Forest(table, kids, divs) == Forest(table, GatherKids(kids), GatherCells(false, kids, divs))
  {
    var t := kids[0];
    if divs == [] {
      assert kids == [t];
      ForestOne(table, t);
      assert GatherKids(kids[1..]) == [] && t.kids + [] == t.kids;
      assert GatherCells(false, kids[1..], []) == [] && t.cells + [] + [] == t.cells;
    } else {
      GatherNodes(table, kids[1..], divs[1..]);
      var k2, c2 := GatherKids(kids[1..]), GatherCells(false, kids[1..], divs[1..]);
      assert GatherCells(false, kids, divs) == t.cells + ([divs[0]] + c2);
      ForestTail(table, t.kids, t.cells, k2, [divs[0]] + c2);
      assert ([divs[0]] + c2)[1..] == c2;
    }
  }

  // ----- Dealing the cells out again

  /** Where the pages of a packing end: ascending, the last one at the end. */
  ghost predicate Cuts(n: nat, leafData: bool, start: nat, cnt: seq<nat>)
    decreases cnt
  {
    && cnt != [] && start <= cnt[0] <= n
    && (if |cnt| == 1 then cnt[0] == n
        else cnt[0] < n && (leafData ==> start < cnt[0]) && Cuts(n, leafData, Next(cnt[0], leafData), cnt[1..]))
  }

  /** Where the page after a page ending before c starts. */
  function Next(c: nat, leafData: bool): nat { if leafData then c else c + 1 }

  /** The leaf pages of a packing. */
  function LeafPages(b: seq<Cell>, leafData: bool, start: nat, cnt: seq<nat>): (r: seq<Tree>)
    requires Cuts(|b|, leafData, start, cnt)
    ensures |r| == |cnt|
    decreases cnt
  {
    [Leaf(b[start..cnt[0]])] + (if |cnt| == 1 then [] else LeafPages(b, leafData, Next(cnt[0], leafData), cnt[1..]))
  }

  /** The interior pages of a packing: each page takes the children around its cells. */
  function NodePages(b: seq<Cell>, kids: seq<Tree>, start: nat, cnt: seq<nat>): (r: seq<Tree>)
    requires Cuts(|b|, false, start, cnt) && |kids| == |b| + 1
    ensures |r| == |cnt|
    decreases cnt
  {
    [Node(kids[start..cnt[0] + 1], b[start..cnt[0]])]
        + (if |cnt| == 1 then [] else NodePages(b, kids, cnt[0] + 1, cnt[1..]))
  }

  /** The cells that go to the parent. */
  function NewDividers(b: seq<Cell>, leafData: bool, start: nat, cnt: seq<nat>): (r: seq<Cell>)
    requires Cuts(|b|, leafData, start, cnt)
    ensures |r| == |cnt| - 1
    decreases cnt
  {
    if |cnt| == 1 then []
    else [if leafData then Divider(b[cnt[0] - 1]) else b[cnt[0]]]
         + NewDividers(b, leafData, Next(cnt[0], leafData), cnt[1..])
  }

  /** The items of the pages of a packing, page by page. */
  lemma PagesStep(table: bool, page: Tree, pages: seq<Tree>, d: Cell, divs: seq<Cell>)
    ensures Forest(table, [page] + pages, [d] + divs)
            == Items(table, page) + ([Mark(table, d)] + Forest(table, pages, divs))
  {
    hide Forest, Items, Mark;
    ForestStep(table, page, pages, [d] + divs);
    assert Rest([d] + divs) == divs;
    Associate(Items(table, page), [Mark(table, d)], Forest(table, pages, divs));
  }

  /** Index leaves dealt out: the items are the cells. */
  lemma {:induction false} IndexLeavesItems(b: seq<Cell>, start: nat, cnt: seq<nat>)
    requires Cuts(|b|, false, start, cnt)
    ensures Forest(false, LeafPages(b, false, start, cnt), NewDividers(b, false, start, cnt)) == Entered(b[start..])
    decreases cnt
  {
    hide Forest;
    var c := cnt[0];
    if |cnt| == 1 {
      assert b[start..c] == b[start..];
      assert LeafPages(b, false, start, cnt) == [Leaf(b[start..])];
      ForestOne(false, Leaf(b[start..]));
    } else {
      IndexLeavesItems(b, c + 1, cnt[1..]);
      PagesStep(false, Leaf(b[start..c]), LeafPages(b, false, c + 1, cnt[1..]), b[c],
          NewDividers(b, false, c + 1, cnt[1..]));
      SplitEntered(b, start, c);
    }
  }

  lemma SplitEntered(b: seq<Cell>, start: nat, c: nat)
    requires start <= c < |b|
    ensures Entered(b[start..]) == Entered(b[start..c]) + ([Entry(b[c])] + Entered(b[c + 1..]))
  {
  }

  /** Interior pages dealt out: the items of the row of all children. */
  lemma {:induction false} NodePagesItems(table: bool, b: seq<Cell>, kids: seq<Tree>, start: nat, cnt: seq<nat>)
    requires Cuts(|b|, false, start, cnt) && |kids| == |b| + 1
    ensures Forest(table, NodePages(b, kids, start, cnt), NewDividers(b, false, start, cnt))
            == Forest(table, kids[start..], b[start..])
    decreases cnt
  {
    hide Forest;
    var c := cnt[0];
    if |cnt| == 1 {
      assert kids[start..c + 1] == kids[start..] && b[start..c] == b[start..];
      assert NodePages(b, kids, start, cnt) == [Node(kids[start..], b[start..])];
      ForestOne(table, Node(kids[start..], b[start..]));
    } else {
      NodePagesItems(table, b, kids, c + 1, cnt[1..]);
      PagesStep(table, Node(kids[start..c + 1], b[start..c]), NodePages(b, kids, c + 1, cnt[1..]), b[c],
          NewDividers(b, false, c + 1, cnt[1..]));
      SplitRow(table, b, kids, start, c);
    }
  }

  lemma SplitRow(table: bool, b: seq<Cell>, kids: seq<Tree>, start: nat, c: nat)
    requires |kids| == |b| + 1 && start <= c < |b|
    ensures Forest(table, kids[start..], b[start..])
         == Forest(table, kids[start..c + 1], b[start..c])
             + ([Mark(table, b[c])] + Forest(table, kids[c + 1..], b[c + 1..]))
  {
    hide Forest, Mark;
    assert kids[start..] == kids[start..c + 1] + kids[c + 1..] && b[start..] == b[start..c] + b[c..];
    ForestTail(table, kids[start..c + 1], b[start..c], kids[c + 1..], b[c..]);
    assert Rest(b[c..]) == b[c + 1..];
    Associate(Forest(table, kids[start..c + 1], b[start..c]), [Mark(table, b[c])],
        Forest(table, kids[c + 1..], b[c + 1..]));
  }

  /** All keys of g lie between two keys. */
  ghost predicate KeysIn(g: seq<Item>, lo: int, hi: int) { forall i :: 0 <= i < |g| ==> lo <= g[i].cell.key <= hi }

  ghost predicate KeysAscend(b: seq<Cell>) { forall i, j :: 0 <= i < j < |b| ==> b[i].key < b[j].key }

  /** Table leaves dealt out: the entries are the cells, and if these ascend the items are sorted. */
  lemma {:induction false} TableLeavesItems(b: seq<Cell>, start: nat, cnt: seq<nat>)
    requires Cuts(|b|, true, start, cnt)
    ensures var g := Forest(true, LeafPages(b, true, start, cnt), NewDividers(b, true, start, cnt));
            && Entries(g) == b[start..]
            && (start == |b| ==> g == [])
            && (KeysAscend(b) ==> Sorted(g) && (start < |b| ==> KeysIn(g, b[start].key, b[|b| - 1].key)))
    decreases cnt
  {
    hide Forest, Sorted;
    var c := cnt[0];
    var g := Forest(true, LeafPages(b, true, start, cnt), NewDividers(b, true, start, cnt));
    if |cnt| == 1 {
      assert b[start..c] == b[start..];
      assert LeafPages(b, true, start, cnt) == [Leaf(b[start..])];
      ForestOne(true, Leaf(b[start..]));
      EntriesEntered(b[start..]);
      if KeysAscend(b) { EnteredSorted(b, start, |b|); }
    } else {
      TableLeavesItems(b, c, cnt[1..]);
      var g' := Forest(true, LeafPages(b, true, c, cnt[1..]), NewDividers(b, true, c, cnt[1..]));
      PagesStep(true, Leaf(b[start..c]), LeafPages(b, true, c, cnt[1..]), Divider(b[c - 1]),
          NewDividers(b, true, c, cnt[1..]));
      var d := Sep(Divider(b[c - 1]));
      assert g == Entered(b[start..c]) + ([d] + g');
      DealtEntries(b, start, c, d, g');
      if KeysAscend(b) { DealtSorted(b, start, c, d, g'); }
    }
  }

  lemma EnteredSorted(b: seq<Cell>, start: nat, c: nat)
    requires KeysAscend(b) && start <= c <= |b|
    ensures Sorted(Entered(b[start..c])) && (start < c ==> KeysIn(Entered(b[start..c]), b[start].key, b[c - 1].key))
  {
  }

  lemma DealtEntries(b: seq<Cell>, start: nat, c: nat, d: Item, g: seq<Item>)
    requires start <= c <= |b| && d.Sep? && Entries(g) == b[c..]
    ensures Entries(Entered(b[start..c]) + ([d] + g)) == b[start..]
  {
    EntriesConcat(Entered(b[start..c]), [d] + g);
    EntriesConcat([d], g);
    EntriesOne(d);
    EntriesEntered(b[start..c]);
    assert b[start..] == b[start..c] + b[c..];
  }

  lemma OneSorted(d: Item)
    ensures Sorted([d])
  {
  }

  lemma AscendOfSorted(b: seq<Cell>)
    requires Sorted(Entered(b))
    ensures KeysAscend(b)
  {
    forall i, j | 0 <= i < j < |b| ensures b[i].key < b[j].key { assert Before(Entered(b)[i], Entered(b)[j]); }
  }

  /** The items of index leaves are their cells. */
  lemma {:induction false} GatherIndexLeaves(kids: seq<Tree>, divs: seq<Cell>)
    requires forall k :: 0 <= k < |kids| ==> kids[k].Leaf?
    ensures Forest(false, kids, divs) == Entered(GatherCells(false, kids, divs))
  {
    if kids != [] { GatherIndexLeaves(kids[1..], Rest(divs)); }
  }

  lemma DealtSorted(b: seq<Cell>, start: nat, c: nat, d: Item, g: seq<Item>)
    requires KeysAscend(b) && start < c < |b| && d == Sep(Divider(b[c - 1])) && Sorted(g)
             && KeysIn(g, b[c].key, b[|b| - 1].key)
    ensures var r := Entered(b[start..c]) + ([d] + g); Sorted(r) && KeysIn(r, b[start].key, b[|b| - 1].key)
  {
    hide Sorted;
    var e := Entered(b[start..c]);
    EnteredSorted(b, start, c);
    OneSorted(d);
    SortedConcat([d], g);
    SortedConcat(e, [d] + g);
  }

  /** Dealing out the cells of leaves leaves the tree around them with the same entries, and sorted
      if it was. */
  lemma LeavesStandFor(table: bool, kids: seq<Tree>, divs: seq<Cell>, b: seq<Cell>, cnt: seq<nat>)
    requires |kids| == |divs| + 1 && (forall k :: 0 <= k < |kids| ==> kids[k].Leaf?)
    requires b == GatherCells(table, kids, divs) && Cuts(|b|, table, 0, cnt)
    ensures StandsFor(Forest(table, LeafPages(b, table, 0, cnt), NewDividers(b, table, 0, cnt)),
            Forest(table, kids, divs))
  {
    hide Forest, Sorted, Cuts, GatherCells, LeafPages, NewDividers;
    GatherLeaves(table, kids, divs);
    var f, g := Forest(table, kids, divs), Forest(table, LeafPages(b, table, 0, cnt), NewDividers(b, table, 0, cnt));
    assert b[0..] == b;
    if table {
      TableLeavesItems(b, 0, cnt);
      if Sorted(f) {
        EntriesSorted(f);
        AscendOfSorted(b);
      }
      StandsForSame(g, f, b);
    } else {
      IndexLeavesItems(b, 0, cnt);
      GatherIndexLeaves(kids, divs);
    }
  }
}
