/** Regions of a page: cells and freeblocks are intervals of bytes. */
module Regions {

  datatype Region = Region(start: nat, size: nat) {
    function End(): nat { start + size }
  }

  ghost predicate Apart(a: Region, b: Region) { a.End() <= b.start || b.End() <= a.start }

  ghost predicate Disjoint(s: seq<Region>) { forall i, j :: 0 <= i < j < |s| ==> Apart(s[i], s[j]) }

  ghost predicate Inside(s: seq<Region>, lo: nat, hi: nat) {
    forall i :: 0 <= i < |s| ==> lo <= s[i].start && s[i].End() <= hi && s[i].size >= 4
  }

  function Sum(s: seq<Region>): (n: nat) { if s == [] then 0 else s[0].size + Sum(s[1..]) }

  /** The numbers from lo up to, not including, hi. */
  ghost function Span(lo: nat, hi: nat): (s: set<nat>)
    ensures forall x :: x in s <==> lo <= x < hi
    decreases hi
  {
    if lo >= hi then {} else Span(lo, hi - 1) + {hi - 1}
  }

  lemma {:induction false} SpanSize(lo: nat, hi: nat)
    requires lo <= hi
    ensures |Span(lo, hi)| == hi - lo
    decreases hi
  {
    if lo < hi {
      SpanSize(lo, hi - 1);
      assert Span(lo, hi) == Span(lo, hi - 1) + {hi - 1};
    } else {
      assert Span(lo, hi) == {};
    }
  }

  ghost function Bytes(s: seq<Region>): set<nat> {
    if s == [] then {} else Span(s[0].start, s[0].End()) + Bytes(s[1..])
  }

  lemma {:induction false} BytesMeaning(s: seq<Region>, x: nat)
    ensures x in Bytes(s) <==> exists i :: 0 <= i < |s| && s[i].start <= x < s[i].End()
  {
    if s != [] {
      BytesMeaning(s[1..], x);
      if x in Bytes(s[1..]) {
        var i :| 0 <= i < |s[1..]| && s[1..][i].start <= x < s[1..][i].End();
        assert s[i + 1] == s[1..][i];
      }
      if i :| 0 <= i < |s| && s[i].start <= x < s[i].End() { if i > 0 { assert s[1..][i - 1] == s[i]; } }
    }
  }

  /** Disjoint regions occupy as many bytes as their sizes say. */
  lemma {:induction false} BytesCount(s: seq<Region>)
    requires Disjoint(s)
    ensures |Bytes(s)| == Sum(s)
  {
    if s != [] {
      BytesCount(s[1..]);
      SpanSize(s[0].start, s[0].End());
      forall x | x in Span(s[0].start, s[0].End()) ensures x !in Bytes(s[1..]) {
        BytesMeaning(s[1..], x);
        assert forall i :: 0 <= i < |s[1..]| ==> s[1..][i] == s[i + 1] && Apart(s[0], s[i + 1]);
      }
    }
  }

  /** So they cannot be larger than the area they lie in. */
  lemma SumBound(s: seq<Region>, lo: nat, hi: nat)
    requires Disjoint(s) && Inside(s, lo, hi) && lo <= hi
    ensures Sum(s) <= hi - lo
  {
    BytesCount(s);
    SpanSize(lo, hi);
    forall x | x in Bytes(s) ensures x in Span(lo, hi) { BytesMeaning(s, x); }
    SubsetSize(Bytes(s), Span(lo, hi));
  }

  lemma {:induction false} SubsetSize(a: set<nat>, b: set<nat>)
    requires a <= b
    ensures |a| <= |b|
  {
    if a != {} {
      var x :| x in a;
      SubsetSize(a - {x}, b - {x});
    }
  }

  /** The bytes of the area that belong to no region number what the sizes leave. */
  lemma LooseBytes(s: seq<Region>, lo: nat, hi: nat)
    requires Disjoint(s) && Inside(s, lo, hi) && lo <= hi
    ensures |Span(lo, hi) - Bytes(s)| == hi - lo - Sum(s)
  {
    BytesCount(s);
    SpanSize(lo, hi);
    forall x | x in Bytes(s) ensures x in Span(lo, hi) { BytesMeaning(s, x); }
    assert Span(lo, hi) == (Span(lo, hi) - Bytes(s)) + Bytes(s);
  }

  lemma {:induction false} SumConcat(a: seq<Region>, b: seq<Region>)
    ensures Sum(a + b) == Sum(a) + Sum(b)
  {
    if a == [] {
      assert a + b == b;
    } else {
      assert (a + b)[1..] == a[1..] + b;
      SumConcat(a[1..], b);
    }
  }

  lemma SumNone()
    ensures Sum([]) == 0
  {
  }

  lemma SumOne(r: Region)
    ensures Sum([r]) == r.size
  {
    assert [r][1..] == [];
  }

  function Without<T>(s: seq<T>, i: nat): seq<T>
    requires i < |s|
  {
    s[..i] + s[i + 1..]
  }

  lemma SumWithout(s: seq<Region>, i: nat)
    requires i < |s|
    ensures Sum(Without(s, i)) == Sum(s) - s[i].size
  {
    hide Sum;
    SumConcat(s[..i], s[i + 1..]);
    assert s == s[..i] + ([s[i]] + s[i + 1..]);
    SumConcat(s[..i], [s[i]] + s[i + 1..]);
    SumConcat([s[i]], s[i + 1..]);
    SumOne(s[i]);
  }

  lemma SumUpdate(s: seq<Region>, i: nat, r: Region)
    requires i < |s|
    ensures Sum(s[i := r]) == Sum(s) - s[i].size + r.size
  {
    hide Sum;
    SumWithout(s, i);
    SumWithout(s[i := r], i);
    assert Without(s[i := r], i) == Without(s, i);
  }
}
