/** How connections take the mutexes of the caches they share.

    A connection is used by one thread at a time, so connections stand for threads.  Every step touches
    at most one mutex; steps of different connections interleave freely. */
module BtreeMutex {

  /** A connection's handle on a shared cache; the cache's mutex is named by its address. */
  datatype Btree = Btree(mutex: nat, want: nat, locked: bool)

  /** Where a connection is in sqlite3BtreeEnter: about to try the mutex, releasing later ones, about to
      block on the mutex, taking later ones again. */
  datatype Pc = Idle | Trying(i: nat) | Unlocking(i: nat, j: nat) | Blocking(i: nat) | Relocking(i: nat, j: nat)

  datatype Conn = Conn(trees: seq<Btree>, pc: Pc)

  /** owner is the connection that holds a mutex, db the connection noted in the shared cache. */
  datatype State = State(conns: seq<Conn>, owner: map<nat, nat>, db: map<nat, nat>)

  datatype Action = Enter(i: nat) | Leave(i: nat) | Go

  // ----- Steps

  function Put(s: State, c: nat, t: Conn): State
    requires c < |s.conns|
  {
    s.(conns := s.conns[c := t])
  }

  /** Connection c takes the mutex of its tree i, which is free. */
  function Take(s: State, c: nat, i: nat, pc: Pc): State
    requires c < |s.conns| && i < |s.conns[c].trees|
  {
    var t := s.conns[c];
    var b := t.trees[i];
    State(s.conns[c := Conn(t.trees[i := b.(locked := true)], pc)], s.owner[b.mutex := c], s.db[b.mutex := c])
  }

  function Release(s: State, c: nat, i: nat, want: nat, pc: Pc): State
    requires c < |s.conns| && i < |s.conns[c].trees|
  {
    var t := s.conns[c];
    var b := t.trees[i];
    State(s.conns[c := Conn(t.trees[i := b.(locked := false, want := want)], pc)], s.owner - {b.mutex}, s.db)
  }

  predicate Free(s: State, m: nat) { m !in s.owner }

  /** The mutex that a connection waits for without being able to do anything else. */
  function WaitsAt(t: Conn): (r: int)
    ensures r >= 0 ==> r < |t.trees|
  {
    match t.pc
    case Blocking(i) => if i < |t.trees| then i else -1
    case Relocking(_, j) => if j < |t.trees| && t.trees[j].want > 0 then j else -1
    case _ => -1
  }

  /** The action is possible for connection c. */
  predicate Enabled(s: State, c: nat, a: Action) {
    c < |s.conns| &&
    var t := s.conns[c];
    match a
    case Enter(i) => t.pc == Idle && i < |t.trees|
    case Leave(i) => t.pc == Idle && i < |t.trees| && t.trees[i].want > 0
    case Go =>
      match t.pc
      case Idle => false
      case Trying(i) => i < |t.trees|
      case Unlocking(i, j) => true
      case Blocking(i) => i < |t.trees| && Free(s, t.trees[i].mutex)
      case Relocking(i, j) => WaitsAt(t) >= 0 ==> Free(s, t.trees[WaitsAt(t)].mutex)
  }

  function Next(s: State, c: nat, a: Action): State
    requires Enabled(s, c, a)
  {
    var t := s.conns[c];
    match a
    case Enter(i) =>
      var b := t.trees[i];
      Put(s, c, Conn(t.trees[i := b.(want := b.want + 1)], if b.locked then Idle else Trying(i)))
    case Leave(i) =>
      var b := t.trees[i];
      if b.want == 1 then Release(s, c, i, 0, Idle) else Put(s, c, t.(trees := t.trees[i := b.(want := b.want - 1)]))
    case Go =>
      match t.pc
      case Trying(i) => if Free(s, t.trees[i].mutex) then Take(s, c, i, Idle)
                        else Put(s, c, t.(pc := Unlocking(i, i + 1)))
      case Unlocking(i, j) =>
        if j >= |t.trees| then Put(s, c, t.(pc := Blocking(i)))
        else if t.trees[j].locked then Release(s, c, j, t.trees[j].want, Unlocking(i, j + 1))
        else Put(s, c, t.(pc := Unlocking(i, j + 1)))
      case Blocking(i) => Take(s, c, i, Relocking(i, i + 1))
      case Relocking(i, j) =>
        if j >= |t.trees| then Put(s, c, t.(pc := Idle))
        else if t.trees[j].want > 0 then Take(s, c, j, Relocking(i, j + 1))
        else Put(s, c, t.(pc := Relocking(i, j + 1)))
  }

  // ----- What every step keeps

  /** The handles of a connection are in the order of the addresses of their caches. */
  ghost predicate Sorted(t: Conn) { forall i, j :: 0 <= i < j < |t.trees| ==> t.trees[i].mutex < t.trees[j].mutex }

  /** Whether tree k should be locked at this point. */
  ghost predicate ShouldLock(t: Conn, k: nat)
    requires k < |t.trees|
  {
    t.trees[k].want > 0 &&
    match t.pc
    case Idle => true
    case Trying(i) => k != i
    case Unlocking(i, j) => k < i || k >= j
    case Blocking(i) => k < i
    case Relocking(i, j) => k < j
  }

  ghost predicate ConnOk(t: Conn) {
    && Sorted(t)
    && (forall k :: 0 <= k < |t.trees| ==> (t.trees[k].locked <==> ShouldLock(t, k)))
    && match t.pc
       case Idle => true
       case Trying(i) => i < |t.trees| && t.trees[i].want > 0
       case Unlocking(i, j) => i < |t.trees| && i < j && t.trees[i].want > 0
       case Blocking(i) => i < |t.trees| && t.trees[i].want > 0
       case Relocking(i, j) => i < |t.trees| && i < j
  }

  /** A mutex belongs to the connection that has its tree locked, and that connection is noted in the
      cache. */
  ghost predicate OwnerOk(s: State) {
    && (forall c, k :: 0 <= c < |s.conns| && 0 <= k < |s.conns[c].trees| && s.conns[c].trees[k].locked ==>
          var m := s.conns[c].trees[k].mutex; m in s.owner && s.owner[m] == c && m in s.db && s.db[m] == c)
    && (forall m :: m in s.owner ==> s.owner[m] < |s.conns| && Locks(s.conns[s.owner[m]], m))
  }

  ghost predicate Locks(t: Conn, m: nat) {
    exists k :: 0 <= k < |t.trees| && t.trees[k].mutex == m && t.trees[k].locked
  }

  ghost predicate Inv(s: State) { OwnerOk(s) && forall c :: 0 <= c < |s.conns| ==> ConnOk(s.conns[c]) }

  /** Outside the protocol a tree is locked exactly if a lock on it is wanted. */
  lemma LockedIffWanted(s: State, c: nat, k: nat)
    requires Inv(s) && c < |s.conns| && s.conns[c].pc == Idle && k < |s.conns[c].trees|
    ensures s.conns[c].trees[k].locked <==> s.conns[c].trees[k].want > 0
  {
    assert ConnOk(s.conns[c]);
  }

  /** A connection that waits for a mutex holds only mutexes with smaller addresses. */
  lemma HoldsOnlySmaller(s: State, c: nat, k: nat)
    requires Inv(s) && c < |s.conns| && WaitsAt(s.conns[c]) >= 0 && k < |s.conns[c].trees| && s.conns[c].trees[k].locked
    ensures s.conns[c].trees[k].mutex < s.conns[c].trees[WaitsAt(s.conns[c])].mutex
  {
    assert ConnOk(s.conns[c]);
  }

  lemma PutOwner(s: State, c: nat, t: Conn)
    requires OwnerOk(s) && c < |s.conns| && |t.trees| == |s.conns[c].trees|
    requires forall k ::
               0 <= k < |t.trees| ==>
                 t.trees[k].mutex == s.conns[c].trees[k].mutex && t.trees[k].locked == s.conns[c].trees[k].locked
    ensures OwnerOk(Put(s, c, t))
  {
    var s' := Put(s, c, t);
    forall m | m in s'.owner ensures s'.owner[m] < |s'.conns| && Locks(s'.conns[s'.owner[m]], m) {
      var d := s.owner[m];
      assert Locks(s.conns[d], m);
      var k :| 0 <= k < |s.conns[d].trees| && s.conns[d].trees[k].mutex == m && s.conns[d].trees[k].locked;
      assert s'.conns[d].trees[k].mutex == m && s'.conns[d].trees[k].locked;
    }
  }

  lemma TakeOwner(s: State, c: nat, i: nat, pc: Pc)
    requires OwnerOk(s) && c < |s.conns| && i < |s.conns[c].trees| && Free(s, s.conns[c].trees[i].mutex)
    ensures OwnerOk(Take(s, c, i, pc))
  {
    var s' := Take(s, c, i, pc);
    forall m | m in s'.owner ensures s'.owner[m] < |s'.conns| && Locks(s'.conns[s'.owner[m]], m) {
      if m == s.conns[c].trees[i].mutex {
        assert s'.conns[c].trees[i].mutex == m && s'.conns[c].trees[i].locked;
      } else {
        var d := s.owner[m];
        assert Locks(s.conns[d], m);
        var k :| 0 <= k < |s.conns[d].trees| && s.conns[d].trees[k].mutex == m && s.conns[d].trees[k].locked;
        assert s'.conns[d].trees[k].mutex == m && s'.conns[d].trees[k].locked;
      }
    }
  }

  lemma ReleaseOwner(s: State, c: nat, i: nat, want: nat, pc: Pc)
    requires OwnerOk(s) && c < |s.conns| && i < |s.conns[c].trees| && s.conns[c].trees[i].locked && Sorted(s.conns[c])
    ensures OwnerOk(Release(s, c, i, want, pc))
  {
    var s' := Release(s, c, i, want, pc);
    var m0 := s.conns[c].trees[i].mutex;
    assert s.owner[m0] == c;
    forall m | m in s'.owner ensures s'.owner[m] < |s'.conns| && Locks(s'.conns[s'.owner[m]], m) {
      var d := s.owner[m];
      assert Locks(s.conns[d], m);
      var k :| 0 <= k < |s.conns[d].trees| && s.conns[d].trees[k].mutex == m && s.conns[d].trees[k].locked;
      assert s'.conns[d].trees[k].mutex == m && s'.conns[d].trees[k].locked;
    }
    forall d, k | 0 <= d < |s'.conns| && 0 <= k < |s'.conns[d].trees| && s'.conns[d].trees[k].locked
      ensures var m := s'.conns[d].trees[k].mutex; m in s'.owner && s'.owner[m] == d && m in s'.db && s'.db[m] == d
    {
      assert s.conns[d].trees[k].locked && s'.conns[d].trees[k].mutex == s.conns[d].trees[k].mutex;
      if d == c && k != i { OtherMutex(s.conns[c], i, k); }
    }
  }

  lemma OtherMutex(t: Conn, i: nat, k: nat)
    requires Sorted(t) && i < |t.trees| && k < |t.trees| && i != k
    ensures t.trees[i].mutex != t.trees[k].mutex
  {
    if i < k { assert t.trees[i].mutex < t.trees[k].mutex; } else { assert t.trees[k].mutex < t.trees[i].mutex; }
  }

  /** Every step keeps the invariant. */
  lemma StepKeeps(s: State, c: nat, a: Action)
    requires Inv(s) && Enabled(s, c, a)
    ensures Inv(Next(s, c, a))
  {
    hide OwnerOk, ConnOk;
    var s' := Next(s, c, a);
    assert ConnOk(s.conns[c]);
    StepConn(s, c, a);
    StepOwner(s, c, a);
    forall d | 0 <= d < |s'.conns| ensures ConnOk(s'.conns[d]) { if d != c { assert s'.conns[d] == s.conns[d]; } }
  }

  lemma StepConn(s: State, c: nat, a: Action)
    requires Enabled(s, c, a) && ConnOk(s.conns[c])
    ensures |Next(s, c, a).conns| == |s.conns| && ConnOk(Next(s, c, a).conns[c])
    ensures forall d :: 0 <= d < |s.conns| && d != c ==> Next(s, c, a).conns[d] == s.conns[d]
  {
    hide ConnOk, Sorted;
    var t, t' := s.conns[c], Next(s, c, a).conns[c];
    match a
    case Enter(i) => EnterConn(t, i);
    case Leave(i) => LeaveConn(t, i);
    case Go =>
      match t.pc
      case Trying(i) => if Free(s, t.trees[i].mutex) { LockConn(t, i, Idle); } else { PcConn(t, Unlocking(i, i + 1)); }
      case Unlocking(i, j) => UnlockConn(t);
      case Blocking(i) => LockConn(t, i, Relocking(i, i + 1));
      case Relocking(i, j) =>
        if j >= |t.trees| { PcConn(t, Idle); } else if t.trees[j].want > 0 { LockConn(t, j, Relocking(i, j + 1)); }
            else {
          PcConn(t, Relocking(i, j + 1));
        }
  }

  lemma SortedKept(t: Conn, t': Conn)
    requires Sorted(t) && |t'.trees| == |t.trees|
             && forall k :: 0 <= k < |t.trees| ==> t'.trees[k].mutex == t.trees[k].mutex
    ensures Sorted(t')
  {
  }

  lemma EnterConn(t: Conn, i: nat)
    requires ConnOk(t) && t.pc == Idle && i < |t.trees|
    ensures var b := t.trees[i];
            ConnOk(Conn(t.trees[i := b.(want := b.want + 1)], if b.locked then Idle else Trying(i)))
  {
    hide Sorted;
    var b := t.trees[i];
    SortedKept(t, Conn(t.trees[i := b.(want := b.want + 1)], if b.locked then Idle else Trying(i)));
  }

  lemma LeaveConn(t: Conn, i: nat)
    requires ConnOk(t) && t.pc == Idle && i < |t.trees| && t.trees[i].want > 0
    ensures var b := t.trees[i];
            ConnOk(Conn(t.trees[i := if b.want == 1 then b.(locked := false, want := 0) else b.(want := b.want - 1)],
            Idle))
  {
    hide Sorted;
    var b := t.trees[i];
    SortedKept(t, Conn(t.trees[i := if b.want == 1 then b.(locked := false, want := 0) else b.(want := b.want - 1)],
        Idle));
  }

  lemma LockConn(t: Conn, i: nat, pc: Pc)
    requires ConnOk(t) && i < |t.trees|
    requires match t.pc
             case Trying(k) => i == k && pc == Idle
             case Blocking(k) => i == k && pc == Relocking(i, i + 1)
             case Relocking(k, j) => i == j && t.trees[j].want > 0 && pc == Relocking(k, j + 1)
             case _ => false
    ensures ConnOk(Conn(t.trees[i := t.trees[i].(locked := true)], pc))
  {
    hide Sorted;
    SortedKept(t, Conn(t.trees[i := t.trees[i].(locked := true)], pc));
  }

  lemma PcConn(t: Conn, pc: Pc)
    requires ConnOk(t)
    requires match t.pc
             case Trying(k) => pc == Unlocking(k, k + 1)
             case Relocking(k, j) =>
               if j >= |t.trees| then pc == Idle else t.trees[j].want == 0 && pc == Relocking(k, j + 1)
             case _ => false
    ensures ConnOk(t.(pc := pc))
  {
    hide Sorted;
    SortedKept(t, t.(pc := pc));
  }

  lemma UnlockConn(t: Conn)
    requires ConnOk(t) && t.pc.Unlocking?
    ensures var j, next := t.pc.j, Unlocking(t.pc.i, t.pc.j + 1);
            ConnOk(if j >= |t.trees| then t.(pc := Blocking(t.pc.i))
                   else if t.trees[j].locked
                        then Conn(t.trees[j := t.trees[j].(locked := false, want := t.trees[j].want)], next)
                   else t.(pc := next))
  {
    hide Sorted;
    var j, next := t.pc.j, Unlocking(t.pc.i, t.pc.j + 1);
    SortedKept(t, t.(pc := next));
    SortedKept(t, t.(pc := Blocking(t.pc.i)));
    if j < |t.trees| { SortedKept(t, Conn(t.trees[j := t.trees[j].(locked := false, want := t.trees[j].want)], next)); }
  }

  lemma StepOwner(s: State, c: nat, a: Action)
    requires Enabled(s, c, a) && OwnerOk(s) && ConnOk(s.conns[c])
    ensures OwnerOk(Next(s, c, a))
  {
    hide OwnerOk, Sorted;
    var t := s.conns[c];
    match a
    case Enter(i) =>
      PutOwner(s, c, Next(s, c, a).conns[c]);
    case Leave(i) =>
      if t.trees[i].want == 1 { ReleaseOwner(s, c, i, 0, Idle); } else { PutOwner(s, c, Next(s, c, a).conns[c]); }
    case Go =>
      match t.pc
      case Trying(i) => if Free(s, t.trees[i].mutex) { TakeOwner(s, c, i, Idle); } else {
        PutOwner(s, c, Next(s, c, a).conns[c]);
      }
      case Unlocking(i, j) =>
        if j < |t.trees| && t.trees[j].locked { ReleaseOwner(s, c, j, t.trees[j].want, Unlocking(i, j + 1)); } else {
          PutOwner(s, c, Next(s, c, a).conns[c]);
        }
      case Blocking(i) => TakeOwner(s, c, i, Relocking(i, i + 1));
      case Relocking(i, j) =>
        if j < |t.trees| && t.trees[j].want > 0 { TakeOwner(s, c, j, Relocking(i, j + 1)); } else {
          PutOwner(s, c, Next(s, c, a).conns[c]);
        }
  }

  // ----- Runs

  datatype Move = Move(c: nat, a: Action)

  /** A run: the states after the moves of some interleaving. */
  ghost predicate Run(s: State, moves: seq<Move>)
    decreases moves
  {
    moves == [] || (Enabled(s, moves[0].c, moves[0].a) && Run(Next(s, moves[0].c, moves[0].a), moves[1..]))
  }

  ghost function Final(s: State, moves: seq<Move>): State
    requires Run(s, moves)
    decreases moves
  {
    if moves == [] then s else Final(Next(s, moves[0].c, moves[0].a), moves[1..])
  }

  lemma {:induction false} RunKeeps(s: State, moves: seq<Move>)
    requires Inv(s) && Run(s, moves)
    ensures Inv(Final(s, moves))
    decreases moves
  {
    if moves != [] {
      StepKeeps(s, moves[0].c, moves[0].a);
      RunKeeps(Next(s, moves[0].c, moves[0].a), moves[1..]);
    }
  }

  /** Nothing is locked or wanted at the start. */
  ghost predicate Init(s: State) {
    && s.owner == map[]
    && (forall c :: 0 <= c < |s.conns| ==> s.conns[c].pc == Idle && Sorted(s.conns[c]))
    && (forall c, k ::
         0 <= c < |s.conns| && 0 <= k < |s.conns[c].trees| ==>
           s.conns[c].trees[k].want == 0 && !s.conns[c].trees[k].locked)
  }

  lemma InitOk(s: State)
    requires Init(s)
    ensures Inv(s)
  {
  }

  // ----- Nested entries

  /** How often connection c calls sqlite3BtreeEnter for its tree i. */
  function Entries(moves: seq<Move>, c: nat, i: nat): nat {
    if moves == [] then 0
    else Entries(moves[..|moves| - 1], c, i) + if moves[|moves| - 1] == Move(c, Enter(i)) then 1 else 0
  }

  /** How often it calls sqlite3BtreeLeave. */
  function Exits(moves: seq<Move>, c: nat, i: nat): nat {
    if moves == [] then 0
    else Exits(moves[..|moves| - 1], c, i) + if moves[|moves| - 1] == Move(c, Leave(i)) then 1 else 0
  }

  lemma {:induction false} EntriesFirst(moves: seq<Move>, c: nat, i: nat)
    requires moves != []
    ensures Entries(moves, c, i) == Entries(moves[1..], c, i) + if moves[0] == Move(c, Enter(i)) then 1 else 0
    ensures Exits(moves, c, i) == Exits(moves[1..], c, i) + if moves[0] == Move(c, Leave(i)) then 1 else 0
  {
    var n := |moves| - 1;
    if n > 0 {
      EntriesFirst(moves[..n], c, i);
      assert moves[..n][1..] == moves[1..][..n - 1];
    }
  }

  ghost predicate HasTree(s: State, c: nat, i: nat) { c < |s.conns| && i < |s.conns[c].trees| }

  /** One step changes the count of a handle only if it is a call for that handle. */
  lemma StepCounts(s: State, m: Move, c: nat, i: nat)
    requires Enabled(s, m.c, m.a) && HasTree(s, c, i)
    ensures var s' := Next(s, m.c, m.a);
            && HasTree(s', c, i) && s'.conns[c].trees[i].mutex == s.conns[c].trees[i].mutex
            && s'.conns[c].trees[i].want == s.conns[c].trees[i].want
                   + (if m == Move(c, Enter(i)) then 1 else 0) - (if m == Move(c, Leave(i)) then 1 else 0)
  {
  }

  /** In every run, the count of a handle is the number of its entries that have not been left. */
  lemma {:induction false} WantCounts(s: State, moves: seq<Move>, c: nat, i: nat)
    requires Run(s, moves) && HasTree(s, c, i)
    ensures var s' := Final(s, moves);
            && HasTree(s', c, i) && s'.conns[c].trees[i].mutex == s.conns[c].trees[i].mutex
            && s'.conns[c].trees[i].want == s.conns[c].trees[i].want + Entries(moves, c, i) - Exits(moves, c, i)
    decreases moves
  {
    hide Next, Enabled;
    if moves != [] {
      StepCounts(s, moves[0], c, i);
      WantCounts(Next(s, moves[0].c, moves[0].a), moves[1..], c, i);
      EntriesFirst(moves, c, i);
    }
  }

  /** Whenever a connection is not inside a call, it holds the mutex of a tree exactly if it has entered the
      tree more often than left it: from the first entry to the exit that matches it. */
  lemma HeldUntilMatched(s: State, moves: seq<Move>, c: nat, i: nat)
    requires Init(s) && Run(s, moves) && HasTree(s, c, i)
    ensures var s' := Final(s, moves);
            var m := s.conns[c].trees[i].mutex;
            && HasTree(s', c, i) && Exits(moves, c, i) <= Entries(moves, c, i)
            && (s'.conns[c].pc == Idle ==>
                  (m in s'.owner && s'.owner[m] == c <==> Exits(moves, c, i) < Entries(moves, c, i)))
  {
    InitOk(s);
    RunKeeps(s, moves);
    WantCounts(s, moves, c, i);
    var s' := Final(s, moves);
    var m := s.conns[c].trees[i].mutex;
    assert ConnOk(s'.conns[c]);
    if m in s'.owner && s'.owner[m] == c { assert Locks(s'.conns[c], m); }
  }

  // ----- No deadlock

  /** Connection c is blocked on a mutex that connection d holds. */
  ghost predicate WaitsFor(s: State, c: nat, d: nat) {
    c < |s.conns| && WaitsAt(s.conns[c]) >= 0 &&
    var m := s.conns[c].trees[WaitsAt(s.conns[c])].mutex; m in s.owner && s.owner[m] == d
  }

  /** The address of the mutex that a connection waits for. */
  ghost function WaitsOn(s: State, c: nat): int {
    if c < |s.conns| && WaitsAt(s.conns[c]) >= 0 then s.conns[c].trees[WaitsAt(s.conns[c])].mutex else -1
  }

  /** A connection waits for a larger mutex than the connections that wait for it. */
  lemma WaitsForLarger(s: State, c: nat, d: nat)
    requires Inv(s) && WaitsFor(s, c, d) && WaitsAt(s.conns[d]) >= 0
    ensures WaitsOn(s, c) < WaitsOn(s, d)
  {
    var m := WaitsOn(s, c);
    assert Locks(s.conns[d], m);
    var k :| 0 <= k < |s.conns[d].trees| && s.conns[d].trees[k].mutex == m && s.conns[d].trees[k].locked;
    HoldsOnlySmaller(s, d, k);
  }

  /** A connection inside a call is held up only by a mutex that it wants, does not hold, and that another
      connection holds: it never waits for itself. */
  lemma HeldUpByAnother(s: State, c: nat)
    requires Inv(s) && c < |s.conns| && s.conns[c].pc != Idle && !Enabled(s, c, Go)
    ensures var i := WaitsAt(s.conns[c]);
            && i >= 0 && s.conns[c].trees[i].want > 0 && !s.conns[c].trees[i].locked
            && var m := s.conns[c].trees[i].mutex; m in s.owner && s.owner[m] != c
  {
    var t := s.conns[c];
    assert ConnOk(t);
    var i := WaitsAt(t);
    if i >= 0 {
      var m := t.trees[i].mutex;
      assert forall k :: 0 <= k < |t.trees| && t.trees[k].mutex == m ==> k == i;
      assert m in s.owner && s.owner[m] == c ==> Locks(t, m);
    }
  }

  /** A chain of connections each waiting for the next. */
  ghost predicate Chain(s: State, cs: seq<nat>) {
    |cs| >= 2 && forall i :: 0 <= i < |cs| - 1 ==> WaitsFor(s, cs[i], cs[i + 1])
  }

  lemma {:induction false} ChainClimbs(s: State, cs: seq<nat>, n: nat)
    requires Inv(s) && Chain(s, cs) && 0 < n < |cs| - 1
    ensures WaitsOn(s, cs[0]) < WaitsOn(s, cs[n])
  {
    assert WaitsFor(s, cs[n - 1], cs[n]) && WaitsFor(s, cs[n], cs[n + 1]);
    WaitsForLarger(s, cs[n - 1], cs[n]);
    if n > 1 { ChainClimbs(s, cs, n - 1); }
  }

  /** There is no cycle of waiting connections, in any state of any run. */
  lemma NoCycle(s: State, moves: seq<Move>, cs: seq<nat>)
    requires Init(s) && Run(s, moves) && Chain(Final(s, moves), cs)
    ensures cs[0] != cs[|cs| - 1]
  {
    var s' := Final(s, moves);
    InitOk(s);
    RunKeeps(s, moves);
    var n := |cs| - 1;
    assert WaitsFor(s', cs[0], cs[1]) && WaitsFor(s', cs[n - 1], cs[n]);
    if WaitsAt(s'.conns[cs[n]]) >= 0 {
      WaitsForLarger(s', cs[n - 1], cs[n]);
      if n > 1 { ChainClimbs(s', cs, n - 1); }
    }
  }

  /** Whoever waits, someone on whom it depends is not waiting: it holds a mutex and can go on. */
  lemma {:induction false} SomeoneGoesOn(s: State, c: nat, limit: nat) returns (d: nat)
    requires Inv(s) && c < |s.conns| && WaitsAt(s.conns[c]) >= 0 && !Free(s, WaitsOn(s, c))
    requires forall m :: m in s.owner ==> m < limit
    ensures d < |s.conns| && WaitsOn(s, c) in s.owner
    ensures s.conns[d].pc == Idle || Enabled(s, d, Go)
    ensures exists m :: m in s.owner && s.owner[m] == d && WaitsOn(s, c) <= m
    decreases limit - WaitsOn(s, c)
  {
    d := s.owner[WaitsOn(s, c)];
    assert Locks(s.conns[d], WaitsOn(s, c)) && ConnOk(s.conns[d]);
    if WaitsAt(s.conns[d]) >= 0 && !Free(s, WaitsOn(s, d)) {
      assert WaitsFor(s, c, d);
      WaitsForLarger(s, c, d);
      d := SomeoneGoesOn(s, d, limit);
    }
  }
}
