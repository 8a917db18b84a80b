/** The order in which balance_nonroot rewrites the sibling pages.

    The new pages are built from pointers into the old ones, so a page must not be rewritten while
    another page still has to be built from its cells. */
module BalanceRewrite {
  import opened BalancePacking

  datatype Read<T> = Intact(cell: T) | Garbage

  /** The boundaries before and after, as balance_nonroot holds them when it starts rewriting: page i
      held the cells up to cntOld[i] and shall hold those up to cntNew[i]. */
  datatype Plan = Plan(nCell: nat, nOld: nat, nNew: nat, cntOld: seq<nat>, cntNew: seq<nat>, leafData: bool) {

    ghost predicate Valid() {
      && 1 <= nOld && 1 <= nNew && |cntOld| >= nOld && |cntOld| >= nNew && |cntNew| == nNew
      && (forall i, j :: 0 <= i <= j < |cntOld| ==> cntOld[i] <= cntOld[j] <= nCell)
      && (forall i :: nOld - 1 <= i < |cntOld| ==> cntOld[i] == nCell)
      && (forall i, j :: 0 <= i <= j < nNew ==> cntNew[i] <= cntNew[j] <= nCell)
      && (forall i :: 0 <= i < nNew ==> First(cntNew, i, leafData) <= cntNew[i])
    }

    /** Cell x was stored on old page p.  Divider cells, and the cells of pages that are new, were not. */
    predicate OnOldPage(p: nat, x: nat)
      requires |cntOld| >= nOld
    {
      p < nOld && First(cntOld, p, leafData) <= x < cntOld[p]
    }

    /** Cells are moving left across the boundary before page p. */
    predicate MovesLeft(p: nat)
      requires 0 < p <= |cntOld| && p <= |cntNew|
    {
      cntOld[p - 1] < cntNew[p - 1]
    }
  }

  /** What a pointer to cell x yields while page `at` is being built: the cell, unless it lies on
      another page that has been rewritten.  (A page may always use its own cells.) */
  ghost function ReadCell<T>(plan: Plan, cells: seq<T>, done: seq<bool>, at: nat, x: nat): Read<T>
    requires plan.Valid() && |cells| == plan.nCell && x < plan.nCell
  {
    if exists p :: 0 <= p < |done| && p != at && done[p] && plan.OnOldPage(p, x) then Garbage else Intact(cells[x])
  }

  /** The page as editPage builds it. */
  ghost function BuildPage<T>(plan: Plan, cells: seq<T>, done: seq<bool>, at: nat): seq<Read<T>>
    requires plan.Valid() && |cells| == plan.nCell && at < plan.nNew
  {
    var first := First(plan.cntNew, at, plan.leafData);
    seq(plan.cntNew[at] - first, i requires 0 <= i < plan.cntNew[at]
        - first => ReadCell(plan, cells, done, at, first + i))
  }

  /** Page p may be rewritten only after every page that takes cells from it. */
  ghost predicate Safe(plan: Plan, done: seq<bool>, at: nat)
    requires plan.Valid() && at < plan.nNew
  {
    forall p, x ::
          0 <= p < |done| && p != at && done[p] && First(plan.cntNew, at, plan.leafData) <= x < plan.cntNew[at] ==>
            !plan.OnOldPage(p, x)
  }

  /** After the downward pass has come to page i: a page above i is done unless cells move left into
      the page before it. */
  ghost predicate DownState(plan: Plan, done: seq<bool>, i: nat)
    requires plan.Valid()
  {
    && |done| == plan.nNew
    && (forall p :: 0 <= p < plan.nNew ==> (done[p] <==> p >= i && p > 0 && !plan.MovesLeft(p)))
  }

  /** On the upward pass: besides, all pages below i are done. */
  ghost predicate UpState(plan: Plan, done: seq<bool>, i: nat)
    requires plan.Valid()
  {
    && |done| == plan.nNew
    && (forall p :: 0 <= p < plan.nNew ==> (done[p] <==> p < i || (p > 0 && !plan.MovesLeft(p))))
  }

  /** The state of the loop before turn i. */
  ghost predicate LoopState(plan: Plan, done: seq<bool>, i: int)
    requires plan.Valid()
  {
    |done| == plan.nNew && if i < 0 then DownState(plan, done, -i + 1) else UpState(plan, done, i)
  }

  /** Page |i| is written on turn i. */
  predicate Writes(plan: Plan, done: seq<bool>, i: int)
    requires |done| == plan.nNew == |plan.cntNew| && |plan.cntOld| >= plan.nNew && -|done| < i < |done|
  {
    !done[if i < 0 then -i else i] && (i >= 0 || plan.cntOld[-i - 1] >= plan.cntNew[-i - 1])
  }

  lemma LoopStart(plan: Plan)
    requires plan.Valid()
    ensures LoopState(plan, seq(plan.nNew, _ => false), 1 - plan.nNew)
  {
  }

  lemma LoopStep(plan: Plan, done: seq<bool>, i: int)
    requires plan.Valid() && 1 - plan.nNew <= i < plan.nNew && LoopState(plan, done, i)
    ensures LoopState(plan, if Writes(plan, done, i) then done[(if i < 0 then -i else i) := true] else done, i + 1)
  {
    hide Plan.Valid;
    Sizes(plan);
    var at := if i < 0 then -i else i;
    var done' := if Writes(plan, done, i) then done[at := true] else done;
    if i < -1 {
      assert DownState(plan, done', -(i + 1) + 1);
    } else {
      assert UpState(plan, done', i + 1);
    }
  }

  lemma LoopSafe(plan: Plan, done: seq<bool>, i: int)
    requires plan.Valid() && 1 - plan.nNew <= i < plan.nNew && LoopState(plan, done, i) && Writes(plan, done, i)
    ensures !done[if i < 0 then -i else i] && Safe(plan, done, if i < 0 then -i else i)
  {
    hide Plan.Valid, Safe;
    Sizes(plan);
    NowSafe(plan, done, i, if i < 0 then -i else i);
  }

  lemma Sizes(plan: Plan)
    requires plan.Valid()
    ensures 1 <= plan.nNew == |plan.cntNew| && |plan.cntOld| >= plan.nNew
  {
  }

  lemma SafeDown(plan: Plan, done: seq<bool>, at: nat)
    requires plan.Valid() && at < plan.nNew && DownState(plan, done, at + 1)
    ensures Safe(plan, done, at)
  {
    forall p, x | 0 <= p < |done| && p != at && done[p] && First(plan.cntNew, at, plan.leafData) <= x < plan.cntNew[at]
      ensures !plan.OnOldPage(p, x)
    {
      assert p > at && plan.cntNew[at] <= plan.cntNew[p - 1] <= plan.cntOld[p - 1];
    }
  }

  lemma SafeUp(plan: Plan, done: seq<bool>, at: nat)
    requires plan.Valid() && at < plan.nNew && UpState(plan, done, at) && !done[at]
    ensures Safe(plan, done, at)
  {
    forall p, x | 0 <= p < |done| && p != at && done[p] && First(plan.cntNew, at, plan.leafData) <= x < plan.cntNew[at]
      ensures !plan.OnOldPage(p, x)
    {
      if p > at {
        assert plan.cntNew[at] <= plan.cntNew[p - 1] <= plan.cntOld[p - 1];
      } else {
        assert plan.MovesLeft(at);
        assert plan.cntOld[p] <= plan.cntOld[at - 1];
      }
    }
  }

  /** A safe page is built from intact cells: it is exactly its slice of the cell array. */
  lemma SafePage<T>(plan: Plan, cells: seq<T>, done: seq<bool>, at: nat)
    requires plan.Valid() && |cells| == plan.nCell && at < plan.nNew && Safe(plan, done, at)
    ensures IsSlice(plan, cells, at, BuildPage(plan, cells, done, at))
  {
    hide First, Plan.OnOldPage;
    var first := First(plan.cntNew, at, plan.leafData);
    var page := BuildPage(plan, cells, done, at);
    forall i | 0 <= i < |page| ensures page[i] == Intact(cells[first + i]) {
      assert page[i] == ReadCell(plan, cells, done, at, first + i);
      assert forall p :: 0 <= p < |done| && p != at && done[p] ==> !plan.OnOldPage(p, first + i);
    }
  }

  /** The page holds cells First..cntNew of the old siblings, unharmed. */
  ghost predicate IsSlice<T>(plan: Plan, cells: seq<T>, at: nat, page: seq<Read<T>>)
    requires plan.Valid() && |cells| == plan.nCell && at < plan.nNew
  {
    var first := First(plan.cntNew, at, plan.leafData);
    |page| == plan.cntNew[at] - first && forall i :: 0 <= i < |page| ==> page[i] == Intact(cells[first + i])
  }

  /** The rewrite loop: i runs from 1-nNew up to nNew-1 and |i| is the page looked at.  Every page is
      written exactly once, and each ends up with its slice of the original cells. */
  method RewriteSiblings<T>(plan: Plan, ghost cells: seq<T>) returns (order: seq<nat>, ghost pages: seq<seq<Read<T>>>)
    requires plan.Valid() && |cells| == plan.nCell
    ensures |pages| == plan.nNew && forall p :: 0 <= p < plan.nNew ==> IsSlice(plan, cells, p, pages[p])
    ensures |order| == plan.nNew && forall p :: 0 <= p < plan.nNew ==> multiset(order)[p] == 1
    ensures NoneTooEarly(plan, order)
  {
    hide IsSlice, Schedule, NoneTooEarly, Plan.Valid, DownState, UpState, Safe, Writes;
    Sizes(plan);
    EmptySchedule(plan);
    LoopStart(plan);
    var nNew := plan.nNew;
    var done := seq(nNew, _ => false);
    pages := seq(nNew, _ => []);
    order := [];
    var i: int := 1 - nNew as int;
    while i < nNew
      invariant 1 - nNew <= i <= nNew && |pages| == nNew && LoopState(plan, done, i)
      invariant forall p :: 0 <= p < nNew && done[p] ==> IsSlice(plan, cells, p, pages[p])
      invariant Schedule(plan, done, order)
    {
      var iPg := if i < 0 then -i else i;
      LoopStep(plan, done, i);
      if Writes(plan, done, i) {
        LoopSafe(plan, done, i);
        pages := WritePage(plan, cells, done, iPg, pages, order);
        done, order := done[iPg := true], order + [iPg];
      }
      i := i + 1;
    }
    AllScheduled(plan, done, order);
  }

  /** When the loop writes a page, the two conditions the code asserts hold, and they suffice. */
  lemma NowSafe(plan: Plan, done: seq<bool>, i: int, at: nat)
    requires plan.Valid() && 1 - plan.nNew <= i < plan.nNew && at == (if i < 0 then -i else i)
    requires if i < 0 then DownState(plan, done, at + 1) && !plan.MovesLeft(at)
             else UpState(plan, done, at) && !done[at]
    ensures Safe(plan, done, at)
    ensures at == 0 || !plan.MovesLeft(at) || done[at - 1]
    ensures at + 1 >= plan.nNew || plan.cntNew[at] >= plan.cntOld[at] || done[at + 1]
  {
    if i < 0 { SafeDown(plan, done, at); } else { SafeUp(plan, done, at); }
  }

  ghost method WritePage<T>(plan: Plan, cells: seq<T>, done: seq<bool>, at: nat, pages: seq<seq<Read<T>>>,
                            order: seq<nat>)
    returns (pages': seq<seq<Read<T>>>)
    requires plan.Valid() && |cells| == plan.nCell && at < plan.nNew && Safe(plan, done, at) && |pages| == plan.nNew
    requires Schedule(plan, done, order) && !done[at]
    requires forall p :: 0 <= p < plan.nNew && done[p] ==> IsSlice(plan, cells, p, pages[p])
    ensures |pages'| == plan.nNew && Schedule(plan, done[at := true], order + [at])
    ensures forall p :: 0 <= p < plan.nNew && done[at := true][p] ==> IsSlice(plan, cells, p, pages'[p])
  {
    hide IsSlice, NoneTooEarly;
    SafePage(plan, cells, done, at);
    ScheduleNext(plan, done, order, at);
    pages' := pages[at := BuildPage(plan, cells, done, at)];
  }

  /** New page q takes a cell from old page p. */
  ghost predicate TakesFrom(plan: Plan, q: nat, p: nat)
    requires plan.Valid() && q < plan.nNew
  {
    q != p && exists x :: First(plan.cntNew, q, plan.leafData) <= x < plan.cntNew[q] && plan.OnOldPage(p, x)
  }

  /** No page is written before a page that takes cells from it. */
  ghost predicate NoneTooEarly(plan: Plan, order: seq<nat>)
    requires plan.Valid()
  {
    forall a, b ::
          0 <= a < b < |order| ==> order[a] < plan.nNew && order[b] < plan.nNew && !TakesFrom(plan, order[b], order[a])
  }

  /** The pages written so far, in order: the done pages, once each, none before a page that needs it. */
  ghost predicate Schedule(plan: Plan, done: seq<bool>, order: seq<nat>)
    requires plan.Valid()
  {
    && |done| == plan.nNew
    && (forall a :: 0 <= a < |order| ==> order[a] < plan.nNew)
    && (forall p :: 0 <= p < plan.nNew ==> multiset(order)[p] == if done[p] then 1 else 0)
    && NoneTooEarly(plan, order)
  }

  lemma EmptySchedule(plan: Plan)
    requires plan.Valid()
    ensures Schedule(plan, seq(plan.nNew, _ => false), [])
  {
  }

  lemma ScheduleNext(plan: Plan, done: seq<bool>, order: seq<nat>, at: nat)
    requires plan.Valid() && Schedule(plan, done, order) && at < plan.nNew && !done[at] && Safe(plan, done, at)
    ensures Schedule(plan, done[at := true], order + [at])
  {
    var order' := order + [at];
    forall a, b | 0 <= a < b < |order'|
      ensures order'[a] < plan.nNew && order'[b] < plan.nNew && !TakesFrom(plan, order'[b], order'[a])
    {
      if b < |order| {
        assert !TakesFrom(plan, order[b], order[a]);
      } else {
        assert order[a] in multiset(order);
        assert done[order[a]];
      }
    }
  }

  lemma AllScheduled(plan: Plan, done: seq<bool>, order: seq<nat>)
    requires plan.Valid() && Schedule(plan, done, order) && LoopState(plan, done, plan.nNew)
    ensures |order| == plan.nNew && forall p :: 0 <= p < plan.nNew ==> done[p] && multiset(order)[p] == 1
    ensures NoneTooEarly(plan, order)
  {
    CountAll(multiset(order), plan.nNew) by {
      forall p | p in multiset(order) ensures p < plan.nNew { var a :| 0 <= a < |order| && order[a] == p; }
    }
    assert |multiset(order)| == |order|;
  }

  lemma {:induction false} CountAll(m: multiset<nat>, n: nat)
    requires (forall p :: 0 <= p < n ==> m[p] == 1) && forall p :: p in m ==> p < n
    ensures |m| == n
  {
    if n == 0 {
      assert m == multiset{};
    } else {
      CountAll(m - multiset{n - 1}, n - 1);
      assert m == (m - multiset{n - 1}) + multiset{n - 1};
    }
  }
}
