/** Byte strings: Python slices, and the little-endian integers of struct formats. */
module Bytes {
  import opened Bits

  type Byte = x: int | 0 <= x < 256
  type Data = seq<Byte>

  function Min(a: int, b: int): int {
    if a < b then a else b
  }

  function Max(a: int, b: int): int {
    if a < b then b else a
  }

  /** b[i:j] for non-negative bounds: out-of-range bounds are clamped. */
  function Slice(b: Data, i: nat, j: nat): (s: Data)
    ensures i <= j <= |b| ==> s == b[i..j]
    ensures |s| == Max(0, Min(j, |b|) - Min(i, |b|))
  {
    var hi := Min(j, |b|);
    var lo := Min(i, hi);
    b[lo..hi]
  }

  function Repeat(v: Byte, n: nat): (s: Data)
    ensures |s| == n
    ensures forall i :: 0 <= i < n ==> s[i] == v
  {
    seq(n, _ => v)
  }

  /** s.ljust(n, v) */
  function Ljust(s: Data, n: nat, v: Byte): (r: Data)
    ensures |r| == Max(|s|, n) && r[..|s|] == s
    ensures forall i :: |s| <= i < |r| ==> r[i] == v
  {
    if n <= |s| then s else s + Repeat(v, n - |s|)
  }

  function Pow256(n: nat): (p: nat)
    ensures p > 0
  {
    if n == 0 then 1 else 256 * Pow256(n - 1)
  }

  /** The little-endian unsigned integer held in b. */
  function FromLe(b: Data): (x: nat)
    ensures x < Pow256(|b|)
  {
    if b == [] then 0 else b[0] + 256 * FromLe(b[1..])
  }

  /** struct.pack of an unsigned field of n bytes; the value must fit. */
  function Le(x: nat, n: nat): (b: Data)
    requires x < Pow256(n)
    ensures |b| == n && FromLe(b) == x
  {
    if n == 0 then []
    else
      var rest := Le(x / 256, n - 1);
      var b: Data := [x % 256] + rest;
      assert b[1..] == rest;
      b
  }

  /** Packing what was unpacked restores the bytes. */
  lemma {:induction false} LeFromLe(b: Data)
    ensures Le(FromLe(b), |b|) == b
  {
    if b != [] {
      LeFromLe(b[1..]);
      assert b == [b[0]] + b[1..];
      assert FromLe(b) / 256 == FromLe(b[1..]) && FromLe(b) % 256 == b[0];
    }
  }

  lemma FromLeFirst(b: Data)
    requires b != []
    ensures FromLe(b) == b[0] as int + 256 * FromLe(b[1..]) && Pow256(|b|) == 256 * Pow256(|b| - 1)
  {
  }

  lemma {:induction false} FromLeConcat(a: Data, b: Data)
    ensures FromLe(a + b) == FromLe(a) + Pow256(|a|) * FromLe(b)
  {
    hide FromLe, Pow256;
    if a == [] {
      assert a + b == b;
      EmptyIsZero();
    } else {
      FromLeConcat(a[1..], b);
      assert (a + b)[1..] == a[1..] + b;
      FromLeFirst(a + b);
      FromLeFirst(a);
      Nested(a[0], FromLe(a[1..]), Pow256(|a| - 1), FromLe(b));
    }
  }

  lemma EmptyIsZero()
    ensures FromLe([]) == 0 && Pow256(0) == 1
  {
  }

  lemma Nested(x: int, f: int, p: int, y: int)
    ensures x + 256 * (f + p * y) == (x + 256 * f) + (256 * p) * y
  {
  }

  /** Three and four bytes written out. */
  lemma FromLe3(w: Data)
    requires |w| == 3
    ensures FromLe(w) == w[0] as int + 0x100 * w[1] as int + 0x1_0000 * w[2] as int
  {
    assert FromLe(w) == w[0] as int + 256 * FromLe(w[1..]);
    assert FromLe(w[1..]) == w[1] as int + 256 * FromLe(w[2..]) by { assert w[1..][1..] == w[2..]; }
    assert FromLe(w[2..]) == w[2] as int + 256 * FromLe(w[3..]) by { assert w[2..][1..] == w[3..]; }
  }

  lemma FromLe4(w: Data)
    requires |w| == 4
    ensures FromLe(w) == w[0] as int + 0x100 * w[1] as int + 0x1_0000 * w[2] as int + 0x100_0000 * w[3] as int
  {
    assert FromLe(w) == w[0] as int + 256 * FromLe(w[1..]);
    FromLe3(w[1..]);
  }

  lemma Pow256Values()
    ensures Pow256(1) == 0x100 && Pow256(2) == 0x1_0000 && Pow256(3) == 0x100_0000
    ensures Pow256(4) == 0x1_0000_0000 && Pow256(8) == 0x1_0000_0000_0000_0000
  {
  }

  /** An n-byte field at offset o. */
  function Field(b: Data, o: nat, n: nat): (x: nat)
    requires o + n <= |b|
    ensures x < Pow256(n)
  {
    FromLe(b[o..o + n])
  }

  /** A GUID as stored: the three numbers of its text form little-endian, then its last eight bytes in order. */
  function Guid(d1: nat, d2: nat, d3: nat, tail: Data): Data {
    [d1 % 256, d1 / 0x100 % 256, d1 / 0x1_0000 % 256, d1 / 0x100_0000 % 256, d2 % 256, d2 / 0x100 % 256,
     d3 % 256, d3 / 0x100 % 256] + tail
  }

  /** align(of, size) */
  function Align(o: nat, size: nat): nat
    requires size > 0
  {
    (o + size - 1) / size * size
  }

  lemma Align8(o: nat)
    ensures o <= Align(o, 8) < o + 8 && Align(o, 8) % 8 == 0
    ensures o % 8 == 0 ==> Align(o, 8) == o
  {
  }

  /** The sum of all bytes; checksums are its residue. */
  function ByteSum(b: Data): nat {
    if b == [] then 0 else b[0] + ByteSum(b[1..])
  }

  /** The sum of the 16-bit little-endian words of b; an odd last byte is ignored. */
  function WordSum(b: Data): nat {
    if |b| < 2 then 0 else Word(b[0], b[1]) + WordSum(b[2..])
  }

  function Word(lo: Byte, hi: Byte): nat {
    lo as int + 256 * hi as int
  }

  lemma {:induction false} WordSumConcat(a: Data, b: Data)
    requires |a| % 2 == 0
    ensures WordSum(a + b) == WordSum(a) + WordSum(b)
  {
    if a == [] {
      assert a + b == b;
    } else {
      WordSumConcat(a[2..], b);
      assert (a + b)[2..] == a[2..] + b;
    }
  }
}
