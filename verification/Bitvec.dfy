/** A set of page numbers between 1 and iSize, kept as a bitmap, a table or an array of smaller sets. */
module BitvecModel {
  import opened ProbeTable
  import opened Arith
  import opened ByteTypes

  /** Sizes of the representations: bytes of a bitmap, slots of a table, sub-sets of an array, and how
      many values a table takes before a collision splits it. */
  datatype Layout = Layout(nElem: nat, nInt: nat, mxHash: nat, nPtr: nat)

  ghost predicate LayoutOk(l: Layout) { l.nElem > 0 && l.nPtr >= 2 && l.mxHash < l.nInt }

  // ----- Bits in bytes

  predicate BitIn(b: bv8, k: nat)
    requires k < 8
  {
    b & (1 << k) != 0
  }

  /** Whether bit i is set; the first bit is bit 1. */
  predicate Bit(bits: seq<bv8>, i: nat)
    requires 1 <= i <= 8 * |bits|
  {
    BitIn(bits[(i - 1) / 8], (i - 1) % 8)
  }

  function WithBit(b: bv8, k: nat): bv8
    requires k < 8
  {
    b | (1 << k)
  }

  function WithoutBit(b: bv8, k: nat): bv8
    requires k < 8
  {
    b & !(1 << k)
  }

  lemma ByteSet(b: bv8, k: nat, l: nat)
    requires k < 8 && l < 8
    ensures BitIn(WithBit(b, k), l) <==> BitIn(b, l) || k == l
    ensures BitIn(WithoutBit(b, k), l) <==> BitIn(b, l) && k != l
  {
    ByteOne(k, l);
  }

  lemma ByteOne(k: nat, l: nat)
    requires k < 8 && l < 8
    ensures ((1 as bv8) << k) & ((1 as bv8) << l) != 0 <==> k == l
  {
  }

  /** The set that a bitmap stands for. */
  ghost function BitmapSet(bits: seq<bv8>, size: nat): set<nat>
    requires size <= 8 * |bits|
  {
    set i: nat | 1 <= i <= size && Bit(bits, i)
  }

  function SetBitOf(bits: seq<bv8>, i: nat): seq<bv8>
    requires 1 <= i <= 8 * |bits|
  {
    bits[(i - 1) / 8 := WithBit(bits[(i - 1) / 8], (i - 1) % 8)]
  }

  function ClearBitOf(bits: seq<bv8>, i: nat): seq<bv8>
    requires 1 <= i <= 8 * |bits|
  {
    bits[(i - 1) / 8 := WithoutBit(bits[(i - 1) / 8], (i - 1) % 8)]
  }

  lemma BitmapUpdate(bits: seq<bv8>, size: nat, i: nat)
    requires 1 <= i <= size <= 8 * |bits|
    ensures BitmapSet(SetBitOf(bits, i), size) == BitmapSet(bits, size) + {i}
    ensures BitmapSet(ClearBitOf(bits, i), size) == BitmapSet(bits, size) - {i}
  {
    hide Bit;
    forall x | 1 <= x <= size
      ensures Bit(SetBitOf(bits, i), x) <==> Bit(bits, x) || x == i
      ensures Bit(ClearBitOf(bits, i), x) <==> Bit(bits, x) && x != i
    {
      BitUpdate(bits, i, x);
    }
  }

  lemma BitUpdate(bits: seq<bv8>, i: nat, x: nat)
    requires 1 <= i <= 8 * |bits| && 1 <= x <= 8 * |bits|
    ensures Bit(SetBitOf(bits, i), x) <==> Bit(bits, x) || x == i
    ensures Bit(ClearBitOf(bits, i), x) <==> Bit(bits, x) && x != i
  {
    hide BitIn, WithBit, WithoutBit;
    ByteSet(bits[(i - 1) / 8], (i - 1) % 8, (x - 1) % 8);
  }

  /** The sub-set that takes i, and the value that i has there. */
  function Bin(i: nat, d: nat): nat
    requires i > 0 && d > 0
  {
    (i - 1) / d
  }

  function Inner(i: nat, d: nat): (k: nat)
    requires i > 0 && d > 0
    ensures 1 <= k <= d
  {
    (i - 1) % d + 1
  }

  lemma SameBin(x: nat, i: nat, d: nat)
    requires x > 0 && i > 0 && d > 0
    ensures Bin(x, d) == Bin(i, d) && Inner(x, d) == Inner(i, d) <==> x == i
  {
  }

  /** How the sub-sets share the range. */
  function Divisor(size: nat, nPtr: nat): (d: nat)
    requires nPtr >= 2
  {
    (size + nPtr - 1) / nPtr
  }

  lemma DivisorRange(size: nat, nPtr: nat, d: nat)
    requires nPtr >= 2 && size >= 2 && size <= d * nPtr <= size + nPtr - 1
    ensures 0 < d < size
  {
    if d >= size {
      MulMonotone(size, d, nPtr);
      assert (size - 1) * (nPtr - 1) == size * nPtr - size - nPtr + 1;
      MulAtLeast(size - 1, nPtr - 1);
    }
  }

  lemma BinInRange(d: nat, nPtr: nat, i: nat)
    requires d > 0 && i < d * nPtr
    ensures i / d < nPtr
  {
    var t := DivMod(i, d);
    if i / d >= nPtr { MulMonotone(nPtr, i / d, d); }
  }

  /** The sub-sets are smaller than the whole, and there are enough of them. */
  lemma DivisorOk(size: nat, nPtr: nat)
    requires nPtr >= 2 && size >= 2
    ensures 0 < Divisor(size, nPtr) < size
    ensures forall i :: 1 <= i <= size ==> Bin(i, Divisor(size, nPtr)) < nPtr
  {
    var d := Divisor(size, nPtr);
    var t := DivMod(size + nPtr - 1, nPtr);
    assert size <= d * nPtr <= size + nPtr - 1;
    DivisorRange(size, nPtr, d);
    forall i | 1 <= i <= size ensures Bin(i, d) < nPtr { BinInRange(d, nPtr, i - 1); }
  }

  /** The part of the structure that is a union in memory. */
  datatype Body = Bitmap(bits: seq<bv8>) | Table(slots: seq<nat>) | Subs(sub: seq<Bitvec?>)

  class Bitvec {
    const lay: Layout
    const iSize: nat
    var nSet: nat
    var iDivisor: nat
    var u: Body
    ghost var Repr: set<Bitvec>

    /** The fields decide which representation is in use. */
    ghost predicate Shape()
      reads this
    {
      && LayoutOk(lay) && iSize < U32
      && (if iSize <= 8 * lay.nElem then u.Bitmap? && iDivisor == 0 && |u.bits| == lay.nElem
          else if iDivisor == 0 then
            && u.Table? && |u.slots| == lay.nInt && TableOk(u.slots) && nSet == Occupied(u.slots) <= lay.nInt - 1
            && (forall v :: v in u.slots ==> v <= iSize)
          else u.Subs? && |u.sub| == lay.nPtr && 0 < iDivisor == Divisor(iSize, lay.nPtr) < iSize)
    }

    /** The sub-sets are valid, own their parts alone, and have the right size. */
    ghost predicate Valid()
      reads this, Repr
      decreases iSize
    {
      && this in Repr && Shape()
      && (u.Subs? ==>
            && (forall b :: 0 <= b < |u.sub| && u.sub[b] != null ==>
                  var q := u.sub[b];
                  q in Repr && q.Repr <= Repr && this !in q.Repr && q.lay == lay && q.iSize == iDivisor && q.Valid())
            && (forall b, c ::
                 0 <= b < c < |u.sub| && u.sub[b] != null && u.sub[c] != null ==> u.sub[b].Repr !! u.sub[c].Repr))
    }

    /** The contents of one sub-set. */
    ghost function Part(b: nat): set<nat>
      requires Valid() && u.Subs? && b < |u.sub|
      reads this, Repr
      decreases iSize, 0
    {
      if u.sub[b] == null then {} else u.sub[b].Contents()
    }

    /** The set. */
    ghost function Contents(): set<nat>
      requires Valid()
      reads this, Repr
      decreases iSize, 1
    {
      match u
      case Bitmap(bits) => BitmapSet(bits, iSize)
      case Table(slots) => Values(slots)
      case Subs(sub) => set x: nat | 1 <= x <= iSize && Bin(x, iDivisor) < |sub|
                        && Inner(x, iDivisor) in Part(Bin(x, iDivisor))
    }

    constructor (l: Layout, size: nat)
      requires LayoutOk(l) && size < U32
      ensures Valid() && fresh(Repr) && lay == l && iSize == size && Contents() == {}
    {
      lay, iSize, nSet, iDivisor := l, size, 0, 0;
      u := if size <= 8 * l.nElem then Bitmap(seq(l.nElem, _ => 0)) else Table(seq(l.nInt, _ => 0));
      Repr := {this};
      new;
      OccupiedNone(l.nInt);
    }

    /** Finds i, by dividing down to a bitmap or a table.  Nothing outside 1..iSize is in the set. */
    method Test(i: nat) returns (r: bool)
      requires Valid() && i < U32
      ensures r <==> i in Contents()
      decreases iSize
    {
      hide TableOk, Occupied, Divisor, Bin, Inner;
      var k := if i == 0 then U32 - 1 else i - 1;
      if k >= iSize { return false; }
      match u
      case Bitmap(bits) =>
        r := Bit(bits, k + 1);
      case Table(slots) =>
        var h := Probe(slots, i);
        r := slots[h] == i;
      case Subs(sub) =>
        DivisorOk(iSize, lay.nPtr);
        var bin := Bin(i, iDivisor);
        var q := sub[bin];
        assert q == null ==> Part(bin) == {};
        if q == null { return false; }
        r := q.Test(Inner(i, iDivisor));
    }
  
    /** Adds i. */
    method Set(i: nat)
      requires Valid() && 1 <= i <= iSize
      modifies Repr
      ensures Valid() && fresh(Repr - old(Repr)) && Contents() == old(Contents()) + {i}
      decreases iSize, 5
    {
      hide Contents, TableOk;
      if u.Bitmap? {
        SetBit(i);
      } else if u.Table? {
        SetTable(i);
      } else {
        SetSub(i);
      }
    }

    method SetBit(i: nat)
      requires Valid() && u.Bitmap? && 1 <= i <= iSize
      modifies this
      ensures Valid() && Repr == old(Repr) && Contents() == old(Contents()) + {i}
    {
      hide Bit, WithBit;
      var bits := u.bits;
      BitmapUpdate(bits, iSize, i);
      u := Bitmap(SetBitOf(bits, i));
    }

    /** Adds i to the table, or turns the table into sub-sets when it is too full. */
    method SetTable(i: nat)
      requires Valid() && u.Table? && 1 <= i <= iSize
      modifies Repr
      ensures Valid() && fresh(Repr - old(Repr)) && Contents() == old(Contents()) + {i}
      ensures u.Table? || u.Subs?
      ensures u.Subs? <==>
                && i !in old(Contents())
                && if old(u.slots)[(i - 1) % lay.nInt] == 0 then old(nSet) >= lay.nInt - 1 else old(nSet) >= lay.mxHash
      decreases iSize, 4
    {
      hide TableOk, Occupied;
      var slots := u.slots;
      var h := Probe(slots, i);
      if slots[h] == i {
        assert i in Values(slots);
        return;
      }
      var first := slots[(i - 1) % lay.nInt];
      if (first == 0 && nSet >= lay.nInt - 1) || (first != 0 && nSet >= lay.mxHash) {
        Split(i);
      } else {
        var slots' := slots[h := i];
        assert forall v :: v in slots' ==> v in slots || v == i;
        assert Occupied(slots') == Occupied(slots) + 1 <= lay.nInt - 1 && TableOk(slots');
        nSet, u := nSet + 1, Table(slots');
      }
    }

    /** Turns the table into an array of sub-sets, and adds i. */
    method Split(i: nat)
      requires Valid() && u.Table? && 1 <= i <= iSize
      modifies Repr
      ensures Valid() && u.Subs? && fresh(Repr - old(Repr)) && Contents() == old(Contents()) + {i}
      decreases iSize, 3
    {
      hide TableOk, Occupied, Bin, Inner, Divisor;
      var values := u.slots;
      EmptySubs();
      SetSub(i);
      AddAll(values);
    }

    /** Adds the values of a former table. */
    method AddAll(values: seq<nat>)
      requires Valid() && u.Subs? && forall v :: v in values ==> v <= iSize
      modifies Repr
      ensures Valid() && u.Subs? && fresh(Repr - old(Repr)) && Contents() == old(Contents()) + Values(values)
      decreases iSize, 2
    {
      hide TableOk, Occupied, Bin, Inner, Divisor, Valid, Contents, Values;
      ghost var start := Contents();
      assert Values(values[..0]) == {} by { NoValues(values); }
      for j := 0 to |values|
        invariant Valid() && fresh(Repr - old(Repr)) && u.Subs?
        invariant Contents() == start + Values(values[..j])
      {
        TakeStep(values, j);
        assert values[j] in values;
        if values[j] != 0 { SetSub(values[j]); }
      }
      assert values[..|values|] == values;
    }

    method EmptySubs()
      requires Valid() && u.Table?
      modifies this
      ensures Valid() && u.Subs? && Repr == old(Repr) && Contents() == {}
    {
      hide TableOk, Occupied, Bin, Inner;
      DivisorOk(iSize, lay.nPtr);
      iDivisor, u := Divisor(iSize, lay.nPtr), Subs(seq(lay.nPtr, _ => null));
      assert forall b :: 0 <= b < |u.sub| ==> Part(b) == {};
    }

    /** Makes sure that the sub-set for a bin exists. */
    method NeedSub(bin: nat)
      requires Valid() && u.Subs? && bin < |u.sub|
      modifies this
      ensures Valid() && u.Subs? && u.sub[bin] != null && fresh(Repr - old(Repr))
      ensures iDivisor == old(iDivisor) && |u.sub| == old(|u.sub|)
      ensures forall b :: 0 <= b < |u.sub| ==> Part(b) == old(Part(b))
    {
      hide TableOk, Occupied, Bit, Divisor, Values, Bin, Inner;
      if u.sub[bin] == null {
        var q := new Bitvec(lay, iDivisor);
        u := Subs(u.sub[bin := q]);
        Repr := Repr + q.Repr;
        assert Valid();
      }
    }

    /** Adds i to the sub-set that it belongs to. */
    method SetSub(i: nat)
      requires Valid() && u.Subs? && 1 <= i <= iSize
      modifies Repr
      ensures Valid() && u.Subs? && fresh(Repr - old(Repr)) && Contents() == old(Contents()) + {i}
      decreases iSize, 1
    {
      hide TableOk, Occupied, Bit, Divisor, Values, Bin, Inner;
      DivisorOk(iSize, lay.nPtr);
      var bin, k := Bin(i, iDivisor), Inner(i, iDivisor);
      NeedSub(bin);
      SetInSub(bin, k);
      forall x | 1 <= x <= iSize ensures x in Contents() <==> x in old(Contents()) || x == i {
        SameBin(x, i, iDivisor);
      }
    }

    method SetInSub(bin: nat, k: nat)
      requires Valid() && u.Subs? && bin < |u.sub| && u.sub[bin] != null && 1 <= k <= iDivisor
      modifies Repr
      ensures Valid() && u.Subs? && fresh(Repr - old(Repr)) && iDivisor == old(iDivisor) && |u.sub| == old(|u.sub|)
      ensures forall b :: 0 <= b < |u.sub| ==> Part(b) == old(Part(b)) + if b == bin then {k} else {}
      decreases iSize, 0
    {
      hide TableOk, Occupied, Bit, Divisor, Values, Bin, Inner;
      var q := u.sub[bin];
      q.Set(k);
      Repr := Repr + q.Repr;
    }
  
    /** Removes i. */
    method Clear(i: nat)
      requires Valid() && 1 <= i <= iSize
      modifies Repr
      ensures Valid() && Repr == old(Repr) && Contents() == old(Contents()) - {i}
      decreases iSize, 1
    {
      hide TableOk, Occupied, Bit, Divisor, Bin, Inner, WithoutBit;
      match u
      case Bitmap(bits) =>
        BitmapUpdate(bits, iSize, i);
        u := Bitmap(ClearBitOf(bits, i));
      case Table(slots) =>
        var slots', n := Remove(slots, i);
        assert forall v :: v in slots' && v != 0 ==> v in Values(slots');
        nSet, u := n, Table(slots');
      case Subs(sub) =>
        DivisorOk(iSize, lay.nPtr);
        var bin := Bin(i, iDivisor);
        if sub[bin] == null {
          assert Part(bin) == {};
          return;
        }
        ClearInSub(bin, Inner(i, iDivisor));
        forall x | 1 <= x <= iSize ensures x in Contents() <==> x in old(Contents()) && x != i {
          SameBin(x, i, iDivisor);
        }
    }

    method ClearInSub(bin: nat, k: nat)
      requires Valid() && u.Subs? && bin < |u.sub| && u.sub[bin] != null && 1 <= k <= iDivisor
      modifies u.sub[bin].Repr
      ensures Valid() && u == old(u) && Repr == old(Repr) && iDivisor == old(iDivisor)
      ensures forall b :: 0 <= b < |u.sub| ==> Part(b) == old(Part(b)) - if b == bin then {k} else {}
      decreases iSize, 0
    {
      hide TableOk, Occupied, Bit, Divisor, Values, Bin, Inner;
      var q := u.sub[bin];
      q.Clear(k);
    }
  }

  /** One call on a bitvec. */
  datatype Op = OpSet(i: nat) | OpClear(i: nat)

  function Replay(ops: seq<Op>): set<nat> {
    if ops == [] then {}
    else
      var s, op := Replay(ops[..|ops| - 1]), ops[|ops| - 1];
      match op case OpSet(i) => s + {i} case OpClear(i) => s - {i}
  }

  /** After any run of calls a test tells exactly the members of the mathematical set. */
  method Run(lay: Layout, size: nat, ops: seq<Op>, i: nat) returns (r: bool)
    requires LayoutOk(lay) && size < U32 && i < U32 && forall k :: 0 <= k < |ops| ==> 1 <= ops[k].i <= size
    ensures r <==> i in Replay(ops)
  {
    var v := new Bitvec(lay, size);
    for k := 0 to |ops|
      invariant v.Valid() && fresh(v.Repr) && v.iSize == size && v.Contents() == Replay(ops[..k])
    {
      assert ops[..k + 1][..k] == ops[..k];
      match ops[k]
      case OpSet(x) => v.Set(x);
      case OpClear(x) => v.Clear(x);
    }
    assert ops[..|ops|] == ops;
    r := v.Test(i);
  }
}
