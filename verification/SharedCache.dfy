/** Table locks and transactions of the handles that share one page cache. */
module SharedCache {

  datatype Trans = None | Read | Write
  datatype Mode = ReadLock | WriteLock
  datatype Lock = Lock(handle: nat, table: nat, mode: Mode)
  datatype Writer = NoWriter | Writer(h: nat)
  datatype Rc = Ok | Locked | Busy

  /** The root page of the schema table, on which every transaction holds a read lock. */
  const MASTER: nat := 1

  predicate Conflict(a: Mode, b: Mode) { a == WriteLock || b == WriteLock }

  /** How many handles have a transaction open. */
  function Active(t: seq<Trans>): nat {
    if t == [] then 0 else Active(t[1..]) + if t[0] == None then 0 else 1
  }

  lemma {:induction false} ActiveUpdate(t: seq<Trans>, h: nat, x: Trans)
    requires h < |t|
    ensures Active(t[h := x]) == Active(t) - (if t[h] == None then 0 else 1) + (if x == None then 0 else 1)
  {
    if h == 0 {
      assert t[h := x][1..] == t[1..];
    } else {
      assert t[h := x][1..] == t[1..][h - 1 := x];
      ActiveUpdate(t[1..], h - 1, x);
    }
  }

  lemma {:induction false} ActiveAtLeast(t: seq<Trans>, h: nat)
    requires h < |t| && t[h] != None
    ensures Active(t) >= 1
    ensures Active(t) == 1 ==> forall g :: 0 <= g < |t| && g != h ==> t[g] == None
    decreases |t|
  {
    if h == 0 {
      NoneActive(t[1..]);
      assert forall g :: 1 <= g < |t| ==> t[g] == t[1..][g - 1];
    } else {
      ActiveAtLeast(t[1..], h - 1);
      assert forall g :: 1 <= g < |t| ==> t[g] == t[1..][g - 1];
    }
  }

  lemma {:induction false} NoneActive(t: seq<Trans>)
    ensures Active(t) == 0 <==> forall g :: 0 <= g < |t| ==> t[g] == None
  {
    if t != [] {
      NoneActive(t[1..]);
      assert forall g :: 1 <= g < |t| ==> t[g] == t[1..][g - 1];
    }
  }

  /** The state of the shared cache: what each handle has open, the list of locks, the writer and the
      flags. */
  datatype State = State(trans: seq<Trans>, locks: seq<Lock>, writer: Writer, exclusive: bool, pending: bool,
      nTransaction: nat, inTransaction: Trans)

  /** A lock belongs to a handle whose transaction allows it, and write locks to the writer. */
  ghost predicate LockOk(s: State, l: Lock) {
    l.handle < |s.trans| && s.trans[l.handle] != None && (l.mode == WriteLock ==> s.writer == Writer(l.handle))
  }

  ghost predicate LocksOk(s: State) {
    && (forall i :: 0 <= i < |s.locks| ==> LockOk(s, s.locks[i]))
    && (forall i, j :: 0 <= i < j < |s.locks| ==> Compatible(s.locks[i], s.locks[j]))
    && (s.exclusive ==> forall i :: 0 <= i < |s.locks| ==> s.writer == Writer(s.locks[i].handle))
  }

  /** At most one lock for a handle and a table, and no conflicts between handles. */
  ghost predicate Compatible(a: Lock, b: Lock) {
    a.table == b.table ==> a.handle != b.handle && !Conflict(a.mode, b.mode)
  }

  ghost predicate Holds(s: State, h: nat, table: nat) {
    exists i :: 0 <= i < |s.locks| && s.locks[i].handle == h && s.locks[i].table == table
  }

  ghost predicate TransOk(s: State) {
    && (forall h :: 0 <= h < |s.trans| ==> (s.trans[h] == Write <==> s.writer == Writer(h)))
    && (s.writer.Writer? ==> s.writer.h < |s.trans|)
    && (forall h :: 0 <= h < |s.trans| && s.trans[h] != None ==> Holds(s, h, MASTER))
    && s.nTransaction == Active(s.trans)
    && (s.inTransaction == Write <==> s.writer.Writer?)
    && (s.inTransaction == None <==> s.nTransaction == 0)
    && (s.exclusive ==> s.writer.Writer?)
    && (s.pending ==> s.writer.Writer? && s.nTransaction >= 2)
  }

  ghost predicate Inv(s: State) { LocksOk(s) && TransOk(s) }

  /** The comparison that the lock query makes is the conflict test, as only the writer asks for write
      locks. */
  lemma ShortcutIsExact(s: State, p: nat, mode: Mode, l: Lock)
    requires Inv(s) && l in s.locks && l.handle != p && (mode == WriteLock ==> s.writer == Writer(p))
    ensures l.mode != mode <==> Conflict(mode, l.mode)
  {
    var i :| 0 <= i < |s.locks| && s.locks[i] == l;
    assert LockOk(s, s.locks[i]);
  }

  /** In exclusive mode no other handle has a transaction open. */
  lemma ExclusiveMeansAlone(s: State, h: nat)
    requires Inv(s) && s.exclusive && h < |s.trans| && s.writer != Writer(h)
    ensures s.trans[h] == None
  {
    assert s.trans[h] != None ==> Holds(s, h, MASTER);
  }

  /** A pending writer waits for another open transaction, so the flag cannot stay set for ever. */
  lemma PendingMeansOthers(s: State)
    requires Inv(s) && s.pending
    ensures exists h :: 0 <= h < |s.trans| && s.writer != Writer(h) && s.trans[h] != None
  {
    var w := s.writer.h;
    if forall h :: 0 <= h < |s.trans| && s.writer != Writer(h) ==> s.trans[h] == None {
      ActiveUpdate(s.trans, w, None);
      NoneActive(s.trans[w := None]);
    }
  }

  // ----- Changes of state

  /** p may ask for the lock: it has a transaction or is about to open one, and only the writer asks to
      write. */
  ghost predicate MayAsk(s: State, p: nat, mode: Mode) {
    p < |s.trans| && (mode == WriteLock ==> s.writer == Writer(p))
  }

  /** Nothing stands in the way of the lock. */
  ghost predicate Grantable(s: State, p: nat, table: nat, mode: Mode) {
    && (s.exclusive ==> s.writer == Writer(p))
    && forall i ::
         0 <= i < |s.locks| && s.locks[i].handle != p && s.locks[i].table == table ==> !Conflict(mode, s.locks[i].mode)
  }

  /** The lock of p on a table, if there is one. */
  ghost predicate LockAt(s: State, k: nat, p: nat, table: nat) {
    k < |s.locks| && s.locks[k].handle == p && s.locks[k].table == table
  }

  lemma PendingOk(s: State, k: nat)
    requires Inv(s) && k < |s.locks| && s.writer.Writer? && s.locks[k].handle != s.writer.h
    ensures Inv(s.(pending := true))
  {
    var s' := s.(pending := true);
    assert LockOk(s, s.locks[k]);
    var w, h := s.writer.h, s.locks[k].handle;
    assert s.trans[w] == Write && s.trans[h] != None;
    ActiveAtLeast(s.trans, w);
    SameLocks(s, s');
  }

  lemma UpgradeOk(s: State, k: nat, p: nat, table: nat)
    requires Inv(s) && LockAt(s, k, p, table) && MayAsk(s, p, WriteLock) && Grantable(s, p, table, WriteLock)
    ensures Inv(s.(locks := s.locks[k := Lock(p, table, WriteLock)]))
  {
    var l := Lock(p, table, WriteLock);
    var s' := s.(locks := s.locks[k := l]);
    forall i | 0 <= i < |s'.locks| ensures LockOk(s', s'.locks[i]) { assert LockOk(s, s.locks[i]); }
    forall i, j | 0 <= i < j < |s'.locks| ensures Compatible(s'.locks[i], s'.locks[j]) {
      assert Compatible(s.locks[i], s.locks[j]);
    }
    forall h | 0 <= h < |s.trans| && s.trans[h] != None ensures Holds(s', h, MASTER) {
      var i :| 0 <= i < |s.locks| && s.locks[i].handle == h && s.locks[i].table == MASTER;
      assert s'.locks[i].handle == h && s'.locks[i].table == MASTER;
    }
  }

  lemma AddLockOk(s: State, l: Lock)
    requires LocksOk(s) && LockOk(s, l) && Grantable(s, l.handle, l.table, l.mode) && !Holds(s, l.handle, l.table)
    ensures LocksOk(s.(locks := [l] + s.locks))
    ensures forall h, t :: Holds(s, h, t) ==> Holds(s.(locks := [l] + s.locks), h, t)
    ensures Holds(s.(locks := [l] + s.locks), l.handle, l.table)
  {
    var s' := s.(locks := [l] + s.locks);
    forall i | 0 <= i < |s'.locks| ensures LockOk(s', s'.locks[i]) { if i > 0 { assert LockOk(s, s.locks[i - 1]); } }
    forall i, j | 0 <= i < j < |s'.locks| ensures Compatible(s'.locks[i], s'.locks[j]) {
      if i > 0 { assert Compatible(s.locks[i - 1], s.locks[j - 1]); } else { assert s'.locks[j] == s.locks[j - 1]; }
    }
    forall h, t | Holds(s, h, t) ensures Holds(s', h, t) {
      var i :| 0 <= i < |s.locks| && s.locks[i].handle == h && s.locks[i].table == t;
      assert s'.locks[i + 1] == s.locks[i];
    }
    assert s'.locks[0] == l;
  }

  /** The locks of all handles but p, in order. */
  function Others(locks: seq<Lock>, p: nat): (r: seq<Lock>) {
    if locks == [] then [] else (if locks[0].handle == p then [] else [locks[0]]) + Others(locks[1..], p)
  }

  lemma {:induction false} OthersIn(locks: seq<Lock>, p: nat, l: Lock)
    ensures l in Others(locks, p) <==> l in locks && l.handle != p
  {
    if locks != [] {
      OthersIn(locks[1..], p, l);
      assert l in locks <==> l == locks[0] || l in locks[1..];
    }
  }

  ghost predicate AllCompatible(locks: seq<Lock>) {
    forall i, j :: 0 <= i < j < |locks| ==> Compatible(locks[i], locks[j])
  }

  lemma {:induction false} OthersCompatible(locks: seq<Lock>, p: nat)
    requires AllCompatible(locks)
    ensures AllCompatible(Others(locks, p))
  {
    if locks != [] {
      var l, rest := locks[0], locks[1..];
      assert forall i :: 0 <= i < |rest| ==> rest[i] == locks[i + 1] && Compatible(l, locks[i + 1]);
      OthersCompatible(rest, p);
      var q := Others(rest, p);
      forall j | 0 <= j < |q| ensures Compatible(l, q[j]) {
        OthersIn(rest, p, q[j]);
        var k :| 0 <= k < |rest| && rest[k] == q[j];
      }
      FrontCompatible(l, q);
      assert [] + q == q;
    }
  }

  lemma FrontCompatible(l: Lock, q: seq<Lock>)
    requires AllCompatible(q) && forall j :: 0 <= j < |q| ==> Compatible(l, q[j])
    ensures AllCompatible([l] + q)
  {
    hide Compatible;
    var r := [l] + q;
    forall i, j | 0 <= i < j < |r| ensures Compatible(r[i], r[j]) {
      var y := q[j - 1];
      assert r[j] == y;
      if i > 0 { assert r[i] == q[i - 1]; }
    }
  }

  lemma OthersAre(locks: seq<Lock>, p: nat)
    requires AllCompatible(locks)
    ensures var r := Others(locks, p);
            && (forall i :: 0 <= i < |r| ==> r[i].handle != p && r[i] in locks)
            && (forall l :: l in locks && l.handle != p ==> l in r)
            && AllCompatible(r)
  {
    hide Others;
    OthersCompatible(locks, p);
    forall l: Lock ensures l in Others(locks, p) <==> l in locks && l.handle != p { OthersIn(locks, p, l); }
  }

  /** The end of a transaction. */
  function Ended(s: State, p: nat): State
    requires p < |s.trans| && s.nTransaction >= 1
  {
    var wasWriter := s.writer == Writer(p);
    State(s.trans[p := None], Others(s.locks, p), if wasWriter then NoWriter else s.writer,
          s.exclusive && !wasWriter, s.pending && !wasWriter && s.nTransaction != 2, s.nTransaction - 1,
          if s.nTransaction == 1 then None else if wasWriter then Read else s.inTransaction)
  }

  lemma EndedOk(s: State, p: nat)
    requires Inv(s) && p < |s.trans| && s.trans[p] != None
    ensures s.nTransaction >= 1 && Inv(Ended(s, p))
  {
    ActiveAtLeast(s.trans, p);
    var s' := Ended(s, p);
    ActiveUpdate(s.trans, p, None);
    EndedLocks(s, p);
    EndedTrans(s, p);
  }

  lemma EndedLocks(s: State, p: nat)
    requires Inv(s) && p < |s.trans| && s.nTransaction >= 1
    ensures LocksOk(Ended(s, p))
  {
    hide Others;
    var s' := Ended(s, p);
    OthersAre(s.locks, p);
    forall i | 0 <= i < |s'.locks|
        ensures LockOk(s', s'.locks[i]) && (s'.exclusive ==> s'.writer == Writer(s'.locks[i].handle)) {
      var l := s'.locks[i];
      var k :| 0 <= k < |s.locks| && s.locks[k] == l;
      assert LockOk(s, s.locks[k]);
    }
  }

  lemma EndedTrans(s: State, p: nat)
    requires Inv(s) && p < |s.trans| && s.trans[p] != None && s.nTransaction >= 1
             && Active(s.trans[p := None]) == s.nTransaction - 1
    ensures TransOk(Ended(s, p))
  {
    hide Others;
    var s' := Ended(s, p);
    OthersAre(s.locks, p);
    forall h | 0 <= h < |s'.trans| && s'.trans[h] != None ensures Holds(s', h, MASTER) {
      assert Holds(s, h, MASTER);
      var i :| 0 <= i < |s.locks| && s.locks[i].handle == h && s.locks[i].table == MASTER;
      assert s.locks[i] in s'.locks;
    }
    if s.nTransaction == 1 { ActiveAtLeast(s.trans, p); }
  }

  /** The writer goes on reading. */
  function Downgraded(s: State, p: nat): State
    requires p < |s.trans|
  {
    if s.writer != Writer(p) then s.(trans := s.trans[p := Read])
    else State(s.trans[p := Read], AllRead(s.locks), NoWriter, false, false, s.nTransaction, Read)
  }

  function AllRead(locks: seq<Lock>): (r: seq<Lock>)
    ensures |r| == |locks| && forall i :: 0 <= i < |r| ==> r[i] == locks[i].(mode := ReadLock)
  {
    seq(|locks|, i requires 0 <= i < |locks| => locks[i].(mode := ReadLock))
  }

  lemma DowngradedOk(s: State, p: nat)
    requires Inv(s) && p < |s.trans| && s.trans[p] != None
    ensures Inv(Downgraded(s, p))
  {
    hide AllRead, LocksOk;
    ActiveUpdate(s.trans, p, Read);
    if s.writer == Writer(p) {
      ActiveAtLeast(s.trans, p);
      DowngradedLocks(s, p);
      DowngradedTrans(s, p);
    } else {
      assert Downgraded(s, p) == s;
    }
  }

  lemma DowngradedLocks(s: State, p: nat)
    requires LocksOk(s) && p < |s.trans| && s.writer == Writer(p)
    ensures LocksOk(Downgraded(s, p))
  {
    hide AllRead;
    var s' := Downgraded(s, p);
    forall i | 0 <= i < |s'.locks| ensures LockOk(s', s'.locks[i]) { assert LockOk(s, s.locks[i]); }
    forall i, j | 0 <= i < j < |s'.locks| ensures Compatible(s'.locks[i], s'.locks[j]) {
      assert Compatible(s.locks[i], s.locks[j]);
    }
  }

  lemma DowngradedTrans(s: State, p: nat)
    requires TransOk(s) && p < |s.trans| && s.writer == Writer(p) && Active(s.trans[p := Read]) == Active(s.trans) >= 1
    ensures TransOk(Downgraded(s, p))
  {
    hide AllRead;
    var s' := Downgraded(s, p);
    forall h | 0 <= h < |s'.trans| && s'.trans[h] != None ensures Holds(s', h, MASTER) {
      assert Holds(s, h, MASTER);
      var i :| 0 <= i < |s.locks| && s.locks[i].handle == h && s.locks[i].table == MASTER;
      assert s'.locks[i].handle == h;
    }
  }

  function Level(t: Trans): nat { match t case None => 0 case Read => 1 case Write => 2 }

  /** A new transaction, or an upgraded one; wrflag is 0 to read, 1 to write, 2 to write exclusively. */
  function Begun(s: State, p: nat, wrflag: nat): State
    requires p < |s.trans|
  {
    var t := if wrflag > 0 then Write else Read;
    var isNew := s.trans[p] == None;
    State(s.trans[p := t], if isNew then [Lock(p, MASTER, ReadLock)] + s.locks else s.locks,
          if wrflag > 0 then Writer(p) else s.writer, if wrflag > 0 then wrflag > 1 else s.exclusive, s.pending,
          if isNew then s.nTransaction + 1 else s.nTransaction, if Level(t) > Level(s.inTransaction) then t
              else s.inTransaction)
  }

  ghost predicate OnlyMine(s: State, p: nat) { forall i :: 0 <= i < |s.locks| ==> s.locks[i].handle == p }

  /** A transaction can begin. */
  ghost predicate CanBegin(s: State, p: nat, wrflag: nat) {
    && !(wrflag > 0 && s.inTransaction == Write) && !s.pending && (wrflag > 1 ==> OnlyMine(s, p))
       && Grantable(s, p, MASTER, ReadLock)
  }

  /** Handle h has a transaction open that is not p's. */
  ghost predicate OtherOpen(s: State, p: nat, h: int) { 0 <= h < |s.trans| && h != p && s.trans[h] != None }

  /** A lock on the schema table that keeps p out. */
  ghost predicate OtherLock(s: State, p: nat, i: int) {
    0 <= i < |s.locks| && s.locks[i].handle != p && s.locks[i].table == MASTER && s.locks[i].mode == WriteLock
  }

  /** Who stands in the way of a transaction: a pending writer, another handle that works exclusively or has
      the schema table locked, another writer if p is to write, and anybody if p is to work exclusively. */
  lemma WhoCanBegin(s: State, p: nat, wrflag: nat)
    requires Inv(s) && p < |s.trans| && s.trans[p] != Write
    ensures CanBegin(s, p, wrflag) <==>
            && !s.pending && !s.exclusive && (forall i :: !OtherLock(s, p, i))
            && (wrflag > 0 ==> forall h :: OtherOpen(s, p, h) ==> s.trans[h] != Write)
            && (wrflag > 1 ==> forall h :: !OtherOpen(s, p, h))
  {
    hide Compatible;
    assert s.writer != Writer(p);
    assert s.inTransaction == Write ==> OtherOpen(s, p, s.writer.h) && s.trans[s.writer.h] == Write;
    forall h | OtherOpen(s, p, h) ensures !OnlyMine(s, p) { assert Holds(s, h, MASTER); }
    forall i | 0 <= i < |s.locks| && s.locks[i].handle != p ensures OtherOpen(s, p, s.locks[i].handle) {
      assert LockOk(s, s.locks[i]);
    }
    assert Grantable(s, p, MASTER, ReadLock) ==> forall i :: !OtherLock(s, p, i);
    if forall i :: !OtherLock(s, p, i) {
      forall i | 0 <= i < |s.locks| && s.locks[i].handle != p && s.locks[i].table == MASTER
        ensures s.locks[i].mode == ReadLock
      {
        assert !OtherLock(s, p, i);
      }
    }
  }

  /** The pending flag stays set until the writer ends or no other transaction is left. */
  lemma PendingStays(s: State, p: nat)
    requires Inv(s) && p < |s.trans| && s.trans[p] != None && s.nTransaction >= 1
    ensures Ended(s, p).pending <==>
            s.pending && s.writer != Writer(p) && exists h: nat :: OtherOpen(s, p, h) && s.writer != Writer(h)
  {
    hide LocksOk, Others;
    if s.pending && s.writer != Writer(p) {
      var w := s.writer.h;
      var t1 := s.trans[p := None];
      ActiveUpdate(s.trans, p, None);
      ActiveUpdate(t1, w, None);
      NoneActive(t1[w := None]);
      assert forall h :: 0 <= h < |s.trans| && h != p && h != w ==> t1[w := None][h] == s.trans[h];
      forall h: nat | OtherOpen(s, p, h) && s.writer != Writer(h) ensures t1[w := None][h] != None { }
      forall h: nat | h < |s.trans| && t1[w := None][h] != None ensures OtherOpen(s, p, h) && s.writer != Writer(h) { }
    }
  }

  lemma BegunOk(s: State, p: nat, wrflag: nat)
    requires Inv(s) && p < |s.trans| && CanBegin(s, p, wrflag) && s.trans[p] != Write
             && (s.trans[p] == Read ==> wrflag > 0)
    ensures Inv(Begun(s, p, wrflag))
  {
    hide Compatible;
    ActiveUpdate(s.trans, p, if wrflag > 0 then Write else Read);
    if wrflag > 0 { BegunWriting(s, p, wrflag); } else { BegunReading(s, p); }
  }

  lemma BegunReading(s: State, p: nat)
    requires Inv(s) && p < |s.trans| && CanBegin(s, p, 0) && s.trans[p] == None
             && Active(s.trans[p := Read]) == Active(s.trans) + 1
    ensures Inv(Begun(s, p, 0))
  {
    hide Compatible;
    var s0 := s.(trans := s.trans[p := Read]);
    forall i | 0 <= i < |s.locks| ensures LockOk(s0, s.locks[i]) && s.locks[i].handle != p {
      assert LockOk(s, s.locks[i]);
    }
    assert LocksOk(s0);
    var s' := Begun(s, p, 0);
    AddLockOk(s0, Lock(p, MASTER, ReadLock));
    var s1 := s0.(locks := [Lock(p, MASTER, ReadLock)] + s0.locks);
    SameLocks(s1, s');
    forall h | 0 <= h < |s'.trans| && s'.trans[h] != None ensures Holds(s', h, MASTER) {
      if h != p { assert Holds(s, h, MASTER); assert Holds(s0, h, MASTER); }
      assert Holds(s1, h, MASTER);
    }
  }

  /** Only the locks, the transactions, the writer and the exclusive flag matter for the locks. */
  lemma SameLocks(s: State, s': State)
    requires LocksOk(s) && s'.locks == s.locks && s'.trans == s.trans && s'.writer == s.writer
             && s'.exclusive == s.exclusive
    ensures LocksOk(s') && forall h, t :: Holds(s', h, t) <==> Holds(s, h, t)
  {
    hide Compatible;
    forall i | 0 <= i < |s'.locks| ensures LockOk(s', s'.locks[i]) { assert LockOk(s, s.locks[i]); }
  }

  lemma BegunWriting(s: State, p: nat, wrflag: nat)
    requires Inv(s) && p < |s.trans| && CanBegin(s, p, wrflag) && s.trans[p] != Write && wrflag > 0
    requires Active(s.trans[p := Write]) == Active(s.trans) + if s.trans[p] == None then 1 else 0
    ensures Inv(Begun(s, p, wrflag))
  {
    hide Compatible;
    var s0 := s.(trans := s.trans[p := Write], writer := Writer(p), exclusive := wrflag > 1);
    forall i | 0 <= i < |s.locks| ensures LockOk(s0, s.locks[i]) && (s.trans[p] == None ==> s.locks[i].handle != p) {
      assert LockOk(s, s.locks[i]);
    }
    assert LocksOk(s0);
    var s' := Begun(s, p, wrflag);
    var l := Lock(p, MASTER, ReadLock);
    var s1 := if s.trans[p] == None then s0.(locks := [l] + s0.locks) else s0;
    if s.trans[p] == None { AddLockOk(s0, l); }
    SameLocks(s1, s');
    forall h | 0 <= h < |s'.trans| && s'.trans[h] != None ensures Holds(s', h, MASTER) {
      if s.trans[h] != None { assert Holds(s, h, MASTER); assert Holds(s0, h, MASTER); }
      assert Holds(s1, h, MASTER);
    }
    ActiveAtLeast(s'.trans, p);
  }

  // ----- The shared cache object

  class BtShared {
    var trans: seq<Trans>
    var locks: seq<Lock>
    var writer: Writer
    var exclusive: bool
    var pending: bool
    var nTransaction: nat
    var inTransaction: Trans

    ghost function St(): State
      reads this
    {
      State(trans, locks, writer, exclusive, pending, nTransaction, inTransaction)
    }

    constructor ()
      ensures St() == State([], [], NoWriter, false, false, 0, None) && Inv(St())
    {
      trans, locks, writer, exclusive, pending, nTransaction, inTransaction := [], [], NoWriter, false, false, 0, None;
    }

    /** A connection opens a handle. */
    method Open() returns (h: nat)
      requires Inv(St())
      modifies this`trans
      ensures Inv(St()) && h == |old(trans)| && trans == old(trans) + [None]
    {
      ghost var s := St();
      h := |trans|;
      OpenOk(s);
      trans := trans + [None];
    }

    /** Whether p may have a lock on a table.  The answer is yes exactly if there is no conflicting lock
        and no other handle works exclusively. */
    method Query(p: nat, table: nat, mode: Mode) returns (rc: Rc)
      requires Inv(St()) && MayAsk(St(), p, mode)
      modifies this`pending
      ensures Inv(St()) && rc != Busy && (rc == Ok <==> Grantable(old(St()), p, table, mode))
      ensures pending == (old(pending) || (rc == Locked && mode == WriteLock))
    {
      hide Compatible, LockOk, TransOk;
      ghost var s := St();
      if exclusive && writer != Writer(p) {
        WriterNotExclusive(s, p, mode);
        return Locked;
      }
      for i := 0 to |locks|
        invariant St() == s && forall k ::
                    0 <= k < i && s.locks[k].handle != p && s.locks[k].table == table ==>
                      !Conflict(mode, s.locks[k].mode)
      {
        if locks[i].handle != p {
          ShortcutIsExact(s, p, mode, locks[i]);
          if locks[i].table == table && locks[i].mode != mode {
            if mode == WriteLock {
              PendingOk(s, i);
              pending := true;
            }
            return Locked;
          }
        }
      }
      return Ok;
    }

    /** Notes a lock that has been found possible; a write lock is never turned into a read lock. */
    method SetLock(p: nat, table: nat, mode: Mode)
      requires Inv(St()) && MayAsk(St(), p, mode) && Grantable(St(), p, table, mode) && trans[p] != None
      modifies this`locks
      ensures Inv(St())
      ensures exists k ::
                0 <= k < |locks| && locks[k].handle == p && locks[k].table == table
                && (mode == WriteLock ==> locks[k].mode == WriteLock)
      ensures forall l :: l in old(locks) && (mode == ReadLock || l.handle != p || l.table != table) ==> l in locks
      ensures forall l :: l in locks ==> l in old(locks) || l == Lock(p, table, mode)
    {
      hide Compatible, TransOk;
      ghost var s := St();
      for i := 0 to |locks|
        invariant St() == s && forall k :: 0 <= k < i ==> !(s.locks[k].handle == p && s.locks[k].table == table)
      {
        if locks[i].table == table && locks[i].handle == p {
          if mode == WriteLock && locks[i].mode == ReadLock {
            assert LockAt(s, i, p, table);
            UpgradeOk(s, i, p, table);
            locks := locks[i := Lock(p, table, WriteLock)];
            assert forall k :: 0 <= k < |locks| && k != i ==> locks[k] == s.locks[k];
          }
          assert locks[i].handle == p && locks[i].table == table && (mode == WriteLock ==> locks[i].mode == WriteLock);
          return;
        }
      }
      AddLockOk(s, Lock(p, table, mode));
      AddTransOk(s, Lock(p, table, mode));
      locks := [Lock(p, table, mode)] + locks;
      assert locks[0] == Lock(p, table, mode);
    }

    /** Asks for a lock and takes it if possible. */
    method LockTable(p: nat, table: nat, write: bool) returns (rc: Rc)
      requires Inv(St()) && p < |trans| && trans[p] != None && (write ==> trans[p] == Write)
      modifies this`locks, this`pending
      ensures Inv(St()) && (rc == Ok <==> Grantable(old(St()), p, table, if write then WriteLock else ReadLock))
      ensures rc != Ok ==> locks == old(locks)
      ensures rc == Ok ==>
                exists k ::
                  0 <= k < |locks| && locks[k].handle == p && locks[k].table == table
                  && (write ==> locks[k].mode == WriteLock)
      ensures forall l :: l in old(locks) && (!write || l.handle != p || l.table != table) ==> l in locks
      ensures forall l :: l in locks ==> l in old(locks) || l == Lock(p, table, if write then WriteLock else ReadLock)
      ensures pending == (old(pending) || (rc == Locked && write))
    {
      rc := Query(p, table, if write then WriteLock else ReadLock);
      if rc == Ok { SetLock(p, table, if write then WriteLock else ReadLock); }
    }

    /** Begins a transaction.  pagerOk says whether the lock on the file could be had. */
    method BeginTrans(p: nat, wrflag: nat, pagerOk: bool) returns (rc: Rc)
      requires Inv(St()) && p < |trans|
      modifies this
      ensures Inv(St())
      ensures var s := old(St());
              if s.trans[p] == Write || (s.trans[p] == Read && wrflag == 0) then rc == Ok && St() == s
              else if !CanBegin(s, p, wrflag) then rc == Locked && St() == s
              else if !pagerOk then rc == Busy && St() == s
              else rc == Ok && St() == Begun(s, p, wrflag)
    {
      hide Compatible, LockOk, TransOk;
      ghost var s := St();
      if trans[p] == Write || (trans[p] == Read && wrflag == 0) { return Ok; }
      if (wrflag > 0 && inTransaction == Write) || pending { return Locked; }
      if wrflag > 1 {
        for i := 0 to |locks|
          invariant St() == s && forall k :: 0 <= k < i ==> s.locks[k].handle == p
        {
          if locks[i].handle != p { return Locked; }
        }
      }
      rc := Query(p, MASTER, ReadLock);
      if rc != Ok { return; }
      if !pagerOk { return Busy; }
      BegunOk(s, p, wrflag);
      if trans[p] == None {
        nTransaction := nTransaction + 1;
        locks := [Lock(p, MASTER, ReadLock)] + locks;
      }
      trans := trans[p := if wrflag > 0 then Write else Read];
      if Level(trans[p]) > Level(inTransaction) { inTransaction := trans[p]; }
      if wrflag > 0 { writer, exclusive := Writer(p), wrflag > 1; }
    }

    /** Drops all locks of p. */
    method ClearAllLocks(p: nat)
      modifies this`locks, this`writer, this`exclusive, this`pending
      ensures locks == Others(old(locks), p)
      ensures if old(writer) == Writer(p) then writer == NoWriter && !exclusive && !pending
              else writer == old(writer) && exclusive == old(exclusive)
                   && pending == (old(pending) && nTransaction != 2)
    {
      var kept, i := [], 0;
      while i < |locks|
        invariant 0 <= i <= |locks| && locks == old(locks) && Others(locks, p) == kept + Others(locks[i..], p)
        invariant writer == old(writer) && exclusive == old(exclusive) && pending == old(pending)
      {
        OthersStep(locks, p, i, kept);
        if locks[i].handle != p { kept := kept + [locks[i]]; }
        i := i + 1;
      }
      locks := kept;
      if writer == Writer(p) {
        writer, exclusive, pending := NoWriter, false, false;
      } else if nTransaction == 2 {
        pending := false;
      }
    }

    /** Turns the locks of the writer into read locks. */
    method DowngradeAllLocks(p: nat)
      modifies this`locks, this`writer, this`exclusive, this`pending
      ensures if old(writer) == Writer(p)
              then writer == NoWriter && !exclusive && !pending && locks == AllRead(old(locks))
              else writer == old(writer) && exclusive == old(exclusive) && pending == old(pending)
                   && locks == old(locks)
    {
      if writer == Writer(p) {
        writer, exclusive, pending := NoWriter, false, false;
        for i := 0 to |locks|
          invariant |locks| == |old(locks)| && writer == NoWriter && !exclusive && !pending
          invariant forall k ::
                      0 <= k < |locks| ==> locks[k] == if k < i then old(locks)[k].(mode := ReadLock) else old(locks)[k]
        {
          locks := locks[i := locks[i].(mode := ReadLock)];
        }
      }
    }

    /** Ends the transaction of p, by commit or rollback; if other statements of the connection are still
        reading, the transaction goes on as a read transaction. */
    method EndTransaction(p: nat, othersReading: bool)
      requires Inv(St()) && p < |trans|
      modifies this
      ensures Inv(St())
      ensures var s := old(St());
              if s.trans[p] == None then St() == s
              else if othersReading then St() == Downgraded(s, p)
              else s.nTransaction >= 1 && St() == Ended(s, p)
    {
      hide Compatible, LockOk, AllRead, Others;
      if trans[p] == None { return; }
      ghost var s := St();
      EndedOk(s, p);
      DowngradedOk(s, p);
      if trans[p] == Write { inTransaction := Read; }
      if othersReading {
        DowngradeAllLocks(p);
        trans := trans[p := Read];
      } else {
        ClearAllLocks(p);
        nTransaction := nTransaction - 1;
        if nTransaction == 0 { inTransaction := None; }
        trans := trans[p := None];
      }
    }
  }

  lemma OpenOk(s: State)
    requires Inv(s)
    ensures Inv(s.(trans := s.trans + [None]))
  {
    hide Compatible;
    var s' := s.(trans := s.trans + [None]);
    ActiveAppend(s.trans);
    forall i | 0 <= i < |s.locks| ensures LockOk(s', s.locks[i]) { assert LockOk(s, s.locks[i]); }
    forall h | 0 <= h < |s'.trans| && s'.trans[h] != None ensures Holds(s', h, MASTER) { assert Holds(s, h, MASTER); }
  }

  lemma {:induction false} ActiveAppend(t: seq<Trans>)
    ensures Active(t + [None]) == Active(t)
  {
    if t != [] {
      assert (t + [None])[1..] == t[1..] + [None];
      ActiveAppend(t[1..]);
    }
  }

  lemma WriterNotExclusive(s: State, p: nat, mode: Mode)
    requires Inv(s) && MayAsk(s, p, mode) && s.writer != Writer(p)
    ensures mode == ReadLock
  {
  }

  lemma AddTransOk(s: State, l: Lock)
    requires TransOk(s) && forall h, t :: Holds(s, h, t) ==> Holds(s.(locks := [l] + s.locks), h, t)
    ensures TransOk(s.(locks := [l] + s.locks))
  {
  }

  lemma OthersStep(locks: seq<Lock>, p: nat, i: nat, kept: seq<Lock>)
    requires i < |locks|
    ensures kept + Others(locks[i..], p) == (if locks[i].handle == p then kept else kept + [locks[i]])
            + Others(locks[i + 1..], p)
  {
    var s := locks[i..];
    assert s[1..] == locks[i + 1..] && s[0] == locks[i];
    if locks[i].handle == p { assert [] + Others(s[1..], p) == Others(s[1..], p); }
  }

  // ----- Whole runs

  datatype Op = OpenHandle | Begin(p: nat, wrflag: nat, pagerOk: bool) | TakeLock(p: nat, table: nat,
      write: bool) | End(p: nat, othersReading: bool)

  /** Any interleaving of calls by any number of handles keeps the invariant. */
  method Run(ops: seq<Op>) returns (b: BtShared)
    ensures fresh(b) && Inv(b.St())
  {
    hide Inv, LocksOk, TransOk;
    b := new BtShared();
    for i := 0 to |ops|
      invariant fresh(b) && Inv(b.St())
    {
      match ops[i]
      case OpenHandle => var h := b.Open();
      case Begin(p, wrflag, pagerOk) => if p < |b.trans| { var rc := b.BeginTrans(p, wrflag, pagerOk); }
      case TakeLock(p, table, write) =>
        if p < |b.trans| && b.trans[p] != None && (write ==> b.trans[p] == Write) {
          var rc := b.LockTable(p, table, write);
        }
      case End(p, othersReading) => if p < |b.trans| { b.EndTransaction(p, othersReading); }
    }
  }

  /** What ending the writer's transaction does to the others: they may read. */
  lemma ReadersReturn(s: State, p: nat, s': State, q: nat)
    requires Inv(s) && s.writer == Writer(p) && s.trans[p] == Write && s.nTransaction >= 1
             && (s' == Ended(s, p) || s' == Downgraded(s, p))
    requires Inv(s') && q < |s'.trans|
    ensures CanBegin(s', q, 0)
  {
    hide Others, AllRead, Compatible, TransOk;
    forall i | 0 <= i < |s'.locks| ensures s'.locks[i].mode == ReadLock { assert LockOk(s', s'.locks[i]); }
  }

  /** A handle p begins to write, and others go on in any way until it ends its transaction.  If p works
      exclusively, no other handle begins a transaction in the meantime, not even to read; if not, others
      may read but not write.  Afterwards every handle may read again.  The result says which of the calls
      of BeginTrans succeed. */
  method RunBesideWriter(b: BtShared, p: nat, wrflag: nat, ops: seq<Op>, othersReading: bool, q: nat)
    returns (rc: Rc, admitted: set<nat>, after: Rc)
    requires Inv(b.St()) && p < |b.trans| && b.trans[p] != Write && wrflag > 0 && q < |b.trans|
    requires forall i :: 0 <= i < |ops| && ops[i].End? ==> ops[i].p != p
    modifies b
    ensures Inv(b.St())
    ensures forall i :: i in admitted ==> i < |ops| && ops[i].Begin?
    ensures rc == Ok ==> forall i :: i in admitted ==> ops[i].p == p || (wrflag == 1 && ops[i].wrflag == 0)
    ensures rc == Ok ==> after == Ok
  {
    hide Inv, LocksOk, TransOk, CanBegin, Begun, Ended, Downgraded;
    admitted, after := {}, Locked;
    rc := BeginWriting(b, p, wrflag);
    if rc != Ok { return; }
    for i := 0 to |ops|
      invariant Inv(b.St()) && Writing(b.St(), p, wrflag > 1) && |b.trans| >= |old(b.trans)|
      invariant forall k :: k in admitted ==>
                  k < i && ops[k].Begin? && (ops[k].p == p || (wrflag == 1 && ops[k].wrflag == 0))
    {
      ghost var s := b.St();
      match ops[i]
      case OpenHandle => var h := b.Open();
      case Begin(h, w, pagerOk) =>
        if h < |b.trans| {
          if h != p { RefusedBeside(s, p, wrflag > 1, h, w); } else { KnownWriter(s, p, wrflag > 1); }
          SameHandles(s, h, w);
          var r := b.BeginTrans(h, w, pagerOk);
          if r == Ok { admitted := admitted + {i}; }
          if h != p { BegunBeside(s, p, wrflag > 1, h); }
        }
      case TakeLock(h, table, write) =>
        if h < |b.trans| && b.trans[h] != None && (write ==> b.trans[h] == Write) {
          var r := b.LockTable(h, table, write);
        }
      case End(h, reading) =>
        if h < |b.trans| {
          EndedBeside(s, p, wrflag > 1, h);
          SameHandles(s, h, 0);
          b.EndTransaction(h, reading);
        }
    }
    ghost var s := b.St();
    KnownWriter(s, p, wrflag > 1);
    SameHandles(s, p, 0);
    b.EndTransaction(p, othersReading);
    ReadersReturn(s, p, b.St(), q);
    after := b.BeginTrans(q, 0, true);
  }

  /** A handle that writes, but not exclusively, leaves room for readers. */
  method ReadBesideWriter(b: BtShared, p: nat, q: nat) returns (rc: Rc, rc': Rc)
    requires Inv(b.St()) && p < |b.trans| && b.trans[p] != Write && q < |b.trans|
    modifies b
    ensures Inv(b.St()) && (rc == Ok ==> rc' == Ok)
  {
    hide Inv, CanBegin;
    ghost var s := b.St();
    rc' := Busy;
    SameHandles(s, p, 1);
    rc := b.BeginTrans(p, 1, true);
    if rc == Ok {
      ReadersRemain(s, p, q);
      rc' := b.BeginTrans(q, 0, true);
    }
  }

  lemma ReadersRemain(s: State, p: nat, q: nat)
    requires Inv(s) && p < |s.trans| && q < |s.trans| && s.trans[p] != Write && CanBegin(s, p, 1)
    ensures var s' := Begun(s, p, 1); s'.trans[q] == None ==> CanBegin(s', q, 0)
  {
    hide Compatible, TransOk;
    var s' := Begun(s, p, 1);
    NoWriteLocks(s, p);
    forall i | 0 <= i < |s'.locks| ensures s'.locks[i].mode == ReadLock {
      if s.trans[p] == None && i > 0 { assert s'.locks[i] == s.locks[i - 1]; }
    }
  }

  /** While nobody writes, there are no write locks. */
  lemma NoWriteLocks(s: State, p: nat)
    requires Inv(s) && p < |s.trans| && s.trans[p] != Write && CanBegin(s, p, 1)
    ensures forall i :: 0 <= i < |s.locks| ==> s.locks[i].mode == ReadLock
  {
    assert s.inTransaction != Write && !s.writer.Writer?;
    forall i | 0 <= i < |s.locks| ensures s.locks[i].mode == ReadLock { assert LockOk(s, s.locks[i]); }
  }

  /** p is the writer, exclusively or not. */
  ghost predicate Writing(s: State, p: nat, alone: bool) {
    p < |s.trans| && s.writer == Writer(p) && s.trans[p] == Write && s.exclusive == alone
  }

  method BeginWriting(b: BtShared, p: nat, wrflag: nat) returns (rc: Rc)
    requires Inv(b.St()) && p < |b.trans| && b.trans[p] != Write && wrflag > 0
    modifies b
    ensures Inv(b.St()) && |b.trans| == |old(b.trans)| && (rc == Ok ==> Writing(b.St(), p, wrflag > 1))
  {
    hide Inv, CanBegin;
    SameHandles(b.St(), p, wrflag);
    rc := b.BeginTrans(p, wrflag, true);
  }

  lemma KnownWriter(s: State, p: nat, alone: bool)
    requires Inv(s) && Writing(s, p, alone)
    ensures s.nTransaction >= 1
  {
    ActiveAtLeast(s.trans, p);
  }

  lemma RefusedBeside(s: State, p: nat, alone: bool, h: nat, w: nat)
    requires Inv(s) && Writing(s, p, alone) && h < |s.trans| && h != p
    ensures s.trans[h] != Write && (alone ==> s.trans[h] == None) && (alone || w > 0 ==> !CanBegin(s, h, w))
  {
    if alone { ExclusiveMeansAlone(s, h); }
    assert OtherOpen(s, h, p);
    WhoCanBegin(s, h, w);
  }

  lemma SameHandles(s: State, p: nat, wrflag: nat)
    requires p < |s.trans|
    ensures |Begun(s, p, wrflag).trans| == |Downgraded(s, p).trans| == |s.trans|
    ensures s.nTransaction >= 1 ==> |Ended(s, p).trans| == |s.trans|
  {
  }

  lemma BegunBeside(s: State, p: nat, alone: bool, h: nat)
    requires Writing(s, p, alone) && h < |s.trans| && h != p
    ensures Writing(Begun(s, h, 0), p, alone)
  {
  }

  lemma EndedBeside(s: State, p: nat, alone: bool, h: nat)
    requires Inv(s) && Writing(s, p, alone) && h < |s.trans| && h != p
    ensures s.nTransaction >= 1 && Writing(Ended(s, h), p, alone) && Writing(Downgraded(s, h), p, alone)
  {
    KnownWriter(s, p, alone);
  }
}
