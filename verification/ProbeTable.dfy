/** The open-addressing table that a bitvec of medium size is kept in: linear probing, 0 marks a free
    slot, and value v is looked for from slot (v - 1) % n on. */
module ProbeTable {

  function Start(v: nat, n: nat): (h: nat)
    requires v > 0 && n > 0
    ensures h < n
  {
    (v - 1) % n
  }

  /** The slot k places after h0. */
  function At(h0: nat, k: nat, n: nat): (h: nat)
    requires h0 < n && k < n
    ensures h < n
  {
    if h0 + k < n then h0 + k else h0 + k - n
  }

  /** How many places after h0 slot h comes. */
  function Dist(h0: nat, h: nat, n: nat): (k: nat)
    requires h0 < n && h < n
    ensures k < n && At(h0, k, n) == h
  {
    if h >= h0 then h - h0 else h + n - h0
  }

  /** No free slot among the k slots from h0 on. */
  ghost predicate Full(slots: seq<nat>, h0: nat, k: nat)
    requires h0 < |slots| && k <= |slots|
  {
    forall m :: 0 <= m < k ==> slots[At(h0, m, |slots|)] != 0
  }

  /** A search for the value in slot h gets to h. */
  ghost predicate Reachable(slots: seq<nat>, h: nat)
    requires h < |slots|
  {
    slots[h] != 0 ==> var h0 := Start(slots[h], |slots|); Full(slots, h0, Dist(h0, h, |slots|))
  }

  /** Every value can be found, and no value occurs twice. */
  ghost predicate TableOk(slots: seq<nat>) {
    && (forall h :: 0 <= h < |slots| ==> Reachable(slots, h))
    && (forall g, h :: 0 <= g < h < |slots| && slots[g] == slots[h] ==> slots[g] == 0)
  }

  function Occupied(slots: seq<nat>): (c: nat)
    ensures c <= |slots|
  {
    if slots == [] then 0 else Occupied(slots[1..]) + if slots[0] == 0 then 0 else 1
  }

  ghost function Values(slots: seq<nat>): set<nat> { set v | v in slots && v != 0 }

  /** A table that is not full has a free slot. */
  ghost function FreeSlot(slots: seq<nat>): (h: nat)
    requires Occupied(slots) < |slots|
    ensures h < |slots| && slots[h] == 0
  {
    if slots[0] == 0 then 0 else 1 + FreeSlot(slots[1..])
  }

  lemma {:induction false} OccupiedUpdate(slots: seq<nat>, h: nat, v: nat)
    requires h < |slots| && slots[h] == 0 && v > 0
    ensures Occupied(slots[h := v]) == Occupied(slots) + 1
  {
    if h == 0 {
      assert slots[h := v][1..] == slots[1..];
    } else {
      assert slots[h := v][1..] == slots[1..][h - 1 := v];
      OccupiedUpdate(slots[1..], h - 1, v);
    }
  }

  lemma {:induction false} OccupiedNone(n: nat)
    ensures Occupied(seq(n, _ => 0)) == 0
  {
    if n > 0 {
      assert seq(n, _ => 0)[1..] == seq(n - 1, _ => 0);
      OccupiedNone(n - 1);
    }
  }

  /** Meeting a free slot shows that the value is absent. */
  lemma AbsentAt(slots: seq<nat>, v: nat, k: nat)
    requires TableOk(slots) && v > 0 && k < |slots|
    requires slots[At(Start(v, |slots|), k, |slots|)] == 0
    requires forall m :: 0 <= m < k ==> slots[At(Start(v, |slots|), m, |slots|)] != v
    ensures v !in slots
  {
    var n, h0 := |slots|, Start(v, |slots|);
    forall h | 0 <= h < n ensures slots[h] != v {
      assert Reachable(slots, h);
      var d := Dist(h0, h, n);
      assert At(h0, d, n) == h;
      assert slots[h] == v ==> Full(slots, h0, d);
    }
  }

  /** Placing an absent value in the first free slot of its search. */
  lemma PlaceOk(slots: seq<nat>, v: nat, k: nat)
    requires TableOk(slots) && v > 0 && v !in slots && k < |slots| && Full(slots, Start(v, |slots|), k)
    requires slots[At(Start(v, |slots|), k, |slots|)] == 0
    ensures var slots' := slots[At(Start(v, |slots|), k, |slots|) := v];
            TableOk(slots') && Values(slots') == Values(slots) + {v} && Occupied(slots') == Occupied(slots) + 1
  {
    var n, h0 := |slots|, Start(v, |slots|);
    var h := At(h0, k, n);
    var slots' := slots[h := v];
    OccupiedUpdate(slots, h, v);
    forall g | 0 <= g < n ensures Reachable(slots', g) {
      assert Reachable(slots, g);
      if g == h { assert Dist(h0, h, n) == k; }
    }
    assert slots'[h] == v;
    forall x ensures x in Values(slots') <==> x in Values(slots) + {v} {
      if x in Values(slots) { var g :| 0 <= g < n && slots[g] == x; assert slots'[g] == x; }
    }
  }

  /** Looks for v: either the slot that holds it, or the first free slot of the search. */
  method Probe(slots: seq<nat>, v: nat) returns (h: nat)
    requires TableOk(slots) && v > 0 && Occupied(slots) < |slots|
    ensures h < |slots| && (slots[h] == v || slots[h] == 0)
    ensures slots[h] == v <==> v in slots
    ensures slots[h] == 0 ==> var slots' := slots[h := v];
              TableOk(slots') && Values(slots') == Values(slots) + {v} && Occupied(slots') == Occupied(slots) + 1
  {
    var n := |slots|;
    ghost var h0, k := Start(v, n), 0;
    ghost var free := FreeSlot(slots);
    h := (v - 1) % n;
    while slots[h] != 0
      invariant k <= Dist(h0, free, n) && h == At(h0, k, n)
      invariant Full(slots, h0, k) && forall m :: 0 <= m < k ==> slots[At(h0, m, n)] != v
      decreases Dist(h0, free, n) - k
    {
      if slots[h] == v { return; }
      h := h + 1;
      if h >= n { h := 0; }
      k := k + 1;
    }
    AbsentAt(slots, v, k);
    PlaceOk(slots, v, k);
  }

  /** The rebuilding of a table without one value. */
  method Remove(was: seq<nat>, v: nat) returns (slots: seq<nat>, nSet: nat)
    requires TableOk(was) && Occupied(was) < |was| && v > 0
    ensures |slots| == |was| && TableOk(slots) && Values(slots) == Values(was) - {v}
    ensures nSet == Occupied(slots) <= Occupied(was)
  {
    var n := |was|;
    slots, nSet := seq(n, _ => 0), 0;
    OccupiedNone(n);
    for j := 0 to n
      invariant |slots| == n && TableOk(slots) && nSet == Occupied(slots) <= Occupied(was[..j]) 
      invariant Values(slots) == Values(was[..j]) - {v}
    {
      TakeStep(was, j);
      if was[j] != 0 && was[j] != v {
        NotBefore(was, j);
        assert forall x :: x in slots && x != 0 ==> x in Values(slots);
        var h := Probe(slots, was[j]);
        nSet := nSet + 1;
        slots := slots[h := was[j]];
      }
    }
    assert was[..n] == was;
  }

  lemma NotBefore(s: seq<nat>, j: nat)
    requires TableOk(s) && j < |s| && s[j] != 0
    ensures s[j] !in Values(s[..j])
  {
  }

  lemma {:induction false} OccupiedConcat(a: seq<nat>, b: seq<nat>)
    ensures Occupied(a + b) == Occupied(a) + Occupied(b)
  {
    if a == [] {
      assert a + b == b;
    } else {
      assert (a + b)[1..] == a[1..] + b;
      OccupiedConcat(a[1..], b);
    }
  }

  lemma TakeStep(s: seq<nat>, j: nat)
    requires j < |s|
    ensures Occupied(s[..j]) + (if s[j] == 0 then 0 else 1) == Occupied(s[..j + 1]) <= Occupied(s)
    ensures Values(s[..j + 1]) == Values(s[..j]) + if s[j] == 0 then {} else {s[j]}
  {
    hide Occupied, Values;
    TakeOccupied(s, j);
    TakeValues(s, j);
  }

  lemma TakeValues(s: seq<nat>, j: nat)
    requires j < |s|
    ensures Values(s[..j + 1]) == Values(s[..j]) + if s[j] == 0 then {} else {s[j]}
  {
    var a := s[..j];
    assert s[..j + 1] == a + [s[j]];
    assert forall v :: v in a + [s[j]] <==> v in a || v == s[j];
  }

  lemma NoValues(s: seq<nat>)
    ensures Values(s[..0]) == {}
  {
  }

  lemma TakeOccupied(s: seq<nat>, j: nat)
    requires j < |s|
    ensures Occupied(s[..j]) + (if s[j] == 0 then 0 else 1) == Occupied(s[..j + 1]) <= Occupied(s)
  {
    hide Occupied;
    var a, b := s[..j + 1], s[j + 1..];
    assert a == s[..j] + [s[j]] && s == a + b;
    OccupiedConcat(s[..j], [s[j]]);
    OccupiedConcat(a, b);
    OccupiedOne(s[j]);
  }

  lemma OccupiedOne(v: nat)
    ensures Occupied([v]) == if v == 0 then 0 else 1
  {
    assert [v][1..] == [];
  }
}
