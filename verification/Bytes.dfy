/** Bytes, little-endian machine words and in-place overwriting of a byte block. */
module Bytes {
  type Byte = x: int | 0 <= x < 256

  /** A non-null machine address; null is 0. */
  type Addr = x: int | 0 < x < 0x1_0000_0000_0000_0000 witness 1

  const U32_LIMIT := 0x1_0000_0000

  function Pow256(n: nat): (p: nat)
    ensures p >= 1
  {
    if n == 0 then 1 else 256 * Pow256(n - 1)
  }

  /** The value of a word, least significant byte first. */
  function Value(w: seq<Byte>): nat {
    if w == [] then 0 else w[0] as int + 256 * Value(w[1..])
  }

  /** The 32-bit word at an offset. */
  function ReadU32(b: seq<Byte>, off: nat): nat
    requires off + 4 <= |b|
  {
    Value(b[off..off + 4])
  }

  /** The 64-bit word at an offset. */
  function ReadU64(b: seq<Byte>, off: nat): nat
    requires off + 8 <= |b|
  {
    Value(b[off..off + 8])
  }

  ghost function Digits(v: nat, n: nat): (w: seq<Byte>)
    requires v < Pow256(n)
    ensures |w| == n && Value(w) == v
  {
    if n == 0 then [] else
      var rest := Digits(v / 256, n - 1);
      var w: seq<Byte> := [v % 256] + rest;
      assert w[1..] == rest;
      w
  }

  lemma {:induction false} SameValue(x: seq<Byte>, y: seq<Byte>)
    requires |x| == |y| && Value(x) == Value(y)
    ensures x == y
  {
    if x != [] {
      assert x[0] == y[0] && Value(x[1..]) == Value(y[1..]);
      SameValue(x[1..], y[1..]);
      assert x == [x[0]] + x[1..] && y == [y[0]] + y[1..];
    }
  }

  lemma SameValues()
    ensures forall x: seq<Byte>, y: seq<Byte> :: |x| == |y| && Value(x) == Value(y) ==> x == y
  {
    forall x: seq<Byte>, y: seq<Byte> | |x| == |y| && Value(x) == Value(y)
      ensures x == y
    {
      SameValue(x, y);
    }
  }

  lemma WordSizes()
    ensures Pow256(4) == U32_LIMIT && Pow256(8) == 0x1_0000_0000_0000_0000
  {
    assert Pow256(2) == 0x1_0000;
    assert Pow256(4) == 0x1_0000_0000;
    assert Pow256(6) == 0x1_0000_0000_0000;
  }

  /** The 32-bit word that holds v, truncated as static_cast<std::uint32_t> does. */
  function U32Word(v: nat): (w: seq<Byte>)
    ensures |w| == 4 && Value(w) == v % U32_LIMIT
  {
    WordSizes();
    SameValues();
    assert Value(Digits(v % U32_LIMIT, 4)) == v % U32_LIMIT;
    var w: seq<Byte> :| |w| == 4 && Value(w) == v % U32_LIMIT;
    w
  }

  /** The 64-bit word that holds a pointer. */
  function PointerWord(a: Addr): (w: seq<Byte>)
    ensures |w| == 8 && Value(w) == a
  {
    WordSizes();
    SameValues();
    assert Value(Digits(a, 8)) == a;
    var w: seq<Byte> :| |w| == 8 && Value(w) == a;
    w
  }

  /** The block b after memcpy of `bytes` to offset off. */
  function Splice(b: seq<Byte>, off: nat, bytes: seq<Byte>): (r: seq<Byte>)
    requires off + |bytes| <= |b|
    ensures |r| == |b|
  {
    b[..off] + bytes + b[off + |bytes|..]
  }

  /** Overwriting the middle chunk of a block laid out in three chunks. */
  lemma SpliceMiddle(a: seq<Byte>, x: seq<Byte>, c: seq<Byte>, y: seq<Byte>)
    requires |x| == |y|
    ensures Splice(a + x + c, |a|, y) == a + y + c
  {
    var b := a + x + c;
    assert b[..|a|] == a;
    assert b[|a| + |y|..] == c;
  }

  lemma SameSlice(r: seq<Byte>, b: seq<Byte>, lo: nat, hi: nat)
    requires lo <= hi <= |r| && hi <= |b| && forall i :: lo <= i < hi ==> r[i] == b[i]
    ensures r[lo..hi] == b[lo..hi]
  {
    assert forall i :: 0 <= i < hi - lo ==> r[lo..hi][i] == b[lo..hi][i];
  }

  /** Bytes below the overwritten region are kept. */
  lemma SpliceKeepsBelow(b: seq<Byte>, off: nat, bytes: seq<Byte>, lo: nat, hi: nat)
    requires off + |bytes| <= |b| && lo <= hi <= off
    ensures Splice(b, off, bytes)[lo..hi] == b[lo..hi]
  {
    SameSlice(Splice(b, off, bytes), b, lo, hi);
  }

  /** Bytes above the overwritten region are kept. */
  lemma SpliceKeepsAbove(b: seq<Byte>, off: nat, bytes: seq<Byte>, lo: nat, hi: nat)
    requires off + |bytes| <= lo <= hi <= |b|
    ensures Splice(b, off, bytes)[lo..hi] == b[lo..hi]
  {
    SameSlice(Splice(b, off, bytes), b, lo, hi);
  }
}
