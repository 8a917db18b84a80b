/** Two-byte big-endian integers and block moves in a buffer. */
module PageBytes {
  import opened ByteTypes

  function Get2(d: seq<byte>, a: nat): (v: nat)
    requires a + 2 <= |d|
    ensures v < 0x1_0000
  {
    d[a] as int * 256 + d[a + 1] as int
  }

  /** Only the low 16 bits are stored. */
  function Put2(d: seq<byte>, a: nat, v: nat): (r: seq<byte>)
    requires a + 2 <= |d|
    ensures |r| == |d|
  {
    d[a := v / 256 % 256][a + 1 := v % 256]
  }

  lemma PutGet(d: seq<byte>, a: nat, v: nat)
    requires a + 2 <= |d| && v < 0x1_0000
    ensures Get2(Put2(d, a, v), a) == v
  {
  }

  lemma PutElsewhere(d: seq<byte>, a: nat, v: nat, b: nat)
    requires a + 2 <= |d| && b + 2 <= |d| && (b + 2 <= a || a + 2 <= b)
    ensures Get2(Put2(d, a, v), b) == Get2(d, b)
  {
  }

  /** Overwrites the bytes from a on. */
  function Write(d: seq<byte>, a: nat, s: seq<byte>): (r: seq<byte>)
    requires a + |s| <= |d|
    ensures |r| == |d|
    ensures forall i :: 0 <= i < a || a + |s| <= i < |d| ==> r[i] == d[i]
    ensures forall i :: a <= i < a + |s| ==> r[i] == s[i - a]
  {
    d[..a] + s + d[a + |s|..]
  }

  /** d' differs from d at most within lo..hi. */
  ghost predicate SameOutside(d: seq<byte>, d': seq<byte>, lo: int, hi: int) {
    |d| == |d'| && forall i :: 0 <= i < |d| && (i < lo || hi <= i) ==> d[i] == d'[i]
  }

  lemma GetSame(d: seq<byte>, d': seq<byte>, lo: int, hi: int, a: nat)
    requires SameOutside(d, d', lo, hi) && a + 2 <= |d| && (a + 2 <= lo || hi <= a)
    ensures Get2(d', a) == Get2(d, a)
  {
  }

  lemma SliceSame(d: seq<byte>, d': seq<byte>, lo: int, hi: int, a: nat, b: nat)
    requires SameOutside(d, d', lo, hi) && a <= b <= |d| && (b <= lo || hi <= a)
    ensures d'[a..b] == d[a..b]
  {
  }
}
