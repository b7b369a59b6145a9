/** Bytes, bitwise operators on unbounded naturals, and the splice that describes an in-place write. */
module Bytes {

  type byte = x: int | 0 <= x < 256

  /** The first `|w|` cells of `was` overwritten by `w`; what does not fit is dropped. */
  function Overlay(w: seq<byte>, was: seq<byte>): (r: seq<byte>)
    ensures |r| == |was|
  {
    if |w| <= |was| then w + was[|w|..] else w[..|was|]
  }

  lemma OverlayAt(w: seq<byte>, was: seq<byte>, i: nat)
    requires i < |was|
    ensures Overlay(w, was)[i] == if i < |w| then w[i] else was[i]
  {
  }

  /** `buf` with the cells from `off` on overwritten by `data`. */
  function Splice(buf: seq<byte>, off: nat, data: seq<byte>): (r: seq<byte>)
    requires off + |data| <= |buf|
    ensures |r| == |buf|
  {
    buf[..off] + data + buf[off + |data|..]
  }

  /** What is written is there, and the rest is as before. */
  lemma SpliceParts(buf: seq<byte>, off: nat, data: seq<byte>)
    requires off + |data| <= |buf|
    ensures var r := Splice(buf, off, data);
            && r[0..off] == buf[0..off] && r[off..off + |data|] == data
            && r[off + |data|..|r|] == buf[off + |data|..|r|]
  {
  }

  lemma NoSplice(s: seq<byte>, off: nat)
    requires off <= |s|
    ensures Splice(s, off, []) == s
  {
  }

  lemma ReadBack(was: seq<byte>, data: seq<byte>)
    requires |data| <= |was|
    ensures Splice(was, 0, data)[..|data|] == data
  {
  }

  /** The write that `Splice` describes. */
  method WriteAt(a: array<byte>, off: nat, data: seq<byte>)
    requires off + |data| <= a.Length
    modifies a
    ensures a[..] == Splice(old(a[..]), off, data)
  {
    forall i | 0 <= i < |data| {
      a[off + i] := data[i];
    }
  }

  lemma Regroup<T>(a: seq<T>, b: seq<T>, c: seq<T>)
    ensures a + (b + c) == a + b + c
  {
  }

  lemma SliceOfSlice(s: seq<byte>, a: nat, b: nat, c: nat, d: nat)
    requires a <= b <= |s| && c <= d <= b - a
    ensures s[a..b][c..d] == s[a + c..a + d]
  {
    forall k | 0 <= k < d - c
      ensures s[a..b][c..d][k] == s[a + c..a + d][k]
    {
    }
  }

  lemma SlicesAgree(r: seq<byte>, s: seq<byte>, a: nat, b: nat, lo: nat, hi: nat)
    requires a <= lo <= hi <= b <= |r| && b <= |s| && r[a..b] == s[a..b]
    ensures r[lo..hi] == s[lo..hi]
  {
    SliceOfSlice(r, a, b, lo - a, hi - a);
    SliceOfSlice(s, a, b, lo - a, hi - a);
  }

  lemma SliceOfConcat(a: seq<byte>, b: seq<byte>, lo: nat, hi: nat)
    requires lo <= hi <= |a| + |b|
    ensures hi <= |a| ==> (a + b)[lo..hi] == a[lo..hi]
    ensures |a| <= lo ==> (a + b)[lo..hi] == b[lo - |a|..hi - |a|]
  {
  }

  lemma Middle(a: seq<byte>, b: seq<byte>, c: seq<byte>)
    ensures (a + b + c)[|a|..|a| + |b|] == b
  {
    SliceOfConcat(a + b, c, |a|, |a| + |b|);
    SliceOfConcat(a, b, |a|, |a| + |b|);
  }

  /** Two adjacent writes are one write of the concatenation. */
  lemma SpliceAdjacent(buf: seq<byte>, off: nat, a: seq<byte>, b: seq<byte>)
    requires off + |a| + |b| <= |buf|
    ensures Splice(Splice(buf, off, a), off + |a|, b) == Splice(buf, off, a + b)
  {
  }

  /** A write inside an earlier one is the earlier one patched. */
  lemma SplicePatch(buf: seq<byte>, a: seq<byte>, off: nat, w: seq<byte>)
    requires |a| <= |buf| && off + |w| <= |a|
    ensures Splice(Splice(buf, 0, a), off, w) == Splice(buf, 0, Splice(a, off, w))
  {
  }

  /** Overlaying a region in place writes just the part that fits; an empty overlay writes nothing. */
  lemma SpliceOverlay(buf: seq<byte>, off: nat, n: nat, w: seq<byte>)
    requires off + n <= |buf| && |w| <= n
    ensures Splice(buf, off, Overlay(w, buf[off..off + n])) == Splice(buf, off, w)
    ensures Splice(buf, off, buf[off..off + n]) == buf
  {
  }

  // ---------------------------------------------------------------------------
  // Bitwise operators

  function Pow2(k: nat): (r: nat)
    ensures r >= 1
  {
    if k == 0 then 1 else 2 * Pow2(k - 1)
  }

  function BitAnd(x: nat, y: nat): nat
    decreases x
  {
    if x == 0 || y == 0 then 0 else 2 * BitAnd(x / 2, y / 2) + (x % 2) * (y % 2)
  }

  function BitXor(x: nat, y: nat): nat
    decreases x + y
  {
    if x == 0 && y == 0 then 0 else 2 * BitXor(x / 2, y / 2) + (x + y) % 2
  }

  /** Masking with 2^k - 1 takes the remainder by 2^k. */
  lemma {:induction false} MaskIsRemainder(x: nat, k: nat)
    ensures BitAnd(x, Pow2(k) - 1) == x % Pow2(k)
  {
    hide BitAnd;
    if k == 0 {
      ZeroMask(x);
    } else {
      var h := Pow2(k - 1);
      assert Pow2(k) == 2 * h;
      MaskIsRemainder(x / 2, k - 1);
      OddMaskStep(x, h);
      RemainderByHalves(x, h);
    }
  }

  lemma ZeroMask(x: nat)
    ensures BitAnd(x, 0) == 0
  {
  }

  lemma OddMaskStep(x: nat, h: nat)
    requires h >= 1
    ensures BitAnd(x, 2 * h - 1) == 2 * BitAnd(x / 2, h - 1) + x % 2
  {
    assert (2 * h - 1) / 2 == h - 1 && (2 * h - 1) % 2 == 1;
  }

  lemma RemainderByHalves(x: nat, h: nat)
    requires h >= 1
    ensures x % (2 * h) == 2 * ((x / 2) % h) + x % 2
  {
    var q := (x / 2) / h;
    var r := 2 * ((x / 2) % h) + x % 2;
    assert x == 2 * (x / 2) + x % 2;
    assert x / 2 == q * h + (x / 2) % h;
    assert x == q * (2 * h) + r by { assert 2 * (q * h) == q * (2 * h); }
    QuotientUnique(x, 2 * h, q, r);
  }

  lemma QuotientUnique(x: int, d: int, q: int, r: int)
    requires d > 0 && 0 <= r < d && x == q * d + r
    ensures x / d == q && x % d == r
  {
    var n := x / d - q;
    assert n * d == r - x % d;
    assert n >= 1 ==> n * d >= d;
    assert n <= -1 ==> n * d <= -d;
  }

  lemma {:induction false} BitXorBound(x: nat, y: nat, k: nat)
    requires x < Pow2(k) && y < Pow2(k)
    ensures BitXor(x, y) < Pow2(k)
  {
    if k > 0 && (x > 0 || y > 0) {
      BitXorBound(x / 2, y / 2, k - 1);
    }
  }

  lemma {:induction false} BitXorCancel(x: nat, y: nat)
    ensures BitXor(BitXor(x, y), y) == x
    decreases x + y
  {
    hide BitXor;
    BitXorHalves(x, y);
    BitXorHalves(BitXor(x, y), y);
    if x > 0 || y > 0 {
      BitXorCancel(x / 2, y / 2);
    }
  }

  lemma BitXorHalves(x: nat, y: nat)
    ensures BitXor(x, y) / 2 == BitXor(x / 2, y / 2) && BitXor(x, y) % 2 == (x + y) % 2
  {
  }

  function XorByte(a: byte, b: byte): byte
  {
    assert Pow2(8) == 256 by { assert Pow2(4) == 16; }
    BitXorBound(a, b, 8);
    BitXor(a, b)
  }

  /** Each of the eight bits is 1 exactly where the operands differ. */
  lemma XorByteBits(a: byte, b: byte, k: nat)
    requires k < 8
    ensures (XorByte(a, b) / Pow2(k)) % 2 == 1 <==> (a / Pow2(k)) % 2 != (b / Pow2(k)) % 2
  {
    BitOfXor(a, b, k);
  }

  lemma {:induction false} BitOfXor(x: nat, y: nat, k: nat)
    ensures (BitXor(x, y) / Pow2(k)) % 2 == 1 <==> (x / Pow2(k)) % 2 != (y / Pow2(k)) % 2
  {
    hide BitXor;
    BitXorHalves(x, y);
    if k > 0 {
      var h := Pow2(k - 1);
      assert Pow2(k) == 2 * h;
      BitOfXor(x / 2, y / 2, k - 1);
      HalfThenRest(x, h);
      HalfThenRest(y, h);
      HalfThenRest(BitXor(x, y), h);
    }
  }

  lemma HalfThenRest(x: nat, h: nat)
    requires h >= 1
    ensures x / (2 * h) == (x / 2) / h
  {
    var q, r := (x / 2) / h, 2 * ((x / 2) % h) + x % 2;
    assert x == 2 * (x / 2) + x % 2;
    assert x / 2 == q * h + (x / 2) % h;
    assert x == q * (2 * h) + r by { assert 2 * (q * h) == q * (2 * h); }
    QuotientUnique(x, 2 * h, q, r);
  }

  function Xor(a: seq<byte>, b: seq<byte>): (r: seq<byte>)
    requires |a| == |b|
    ensures |r| == |a|
    ensures forall i :: 0 <= i < |r| ==> r[i] == XorByte(a[i], b[i])
  {
    seq(|a|, i requires 0 <= i < |a| => XorByte(a[i], b[i]))
  }

  /** Exclusive-or with a fixed string is its own inverse. */
  lemma XorCancel(a: seq<byte>, b: seq<byte>)
    requires |a| == |b|
    ensures Xor(Xor(a, b), b) == a
  {
    forall i | 0 <= i < |a|
      ensures Xor(Xor(a, b), b)[i] == a[i]
    {
      BitXorCancel(a[i], b[i]);
    }
  }

  lemma {:induction false} BitXorCommutes(x: nat, y: nat)
    ensures BitXor(x, y) == BitXor(y, x)
    decreases x + y
  {
    if x > 0 || y > 0 {
      BitXorCommutes(x / 2, y / 2);
    }
  }

  /** Exclusive-or is injective in each operand. */
  lemma XorInjective(a: seq<byte>, b: seq<byte>, m: seq<byte>)
    requires |a| == |b| == |m|
    ensures Xor(a, m) == Xor(b, m) <==> a == b
    ensures Xor(m, a) == Xor(m, b) <==> a == b
  {
    XorCancel(a, m);
    XorCancel(b, m);
    assert Xor(m, a) == Xor(a, m) by {
      forall i | 0 <= i < |a| ensures Xor(m, a)[i] == Xor(a, m)[i] { BitXorCommutes(a[i], m[i]); }
    }
    assert Xor(m, b) == Xor(b, m) by {
      forall i | 0 <= i < |b| ensures Xor(m, b)[i] == Xor(b, m)[i] { BitXorCommutes(b[i], m[i]); }
    }
  }

  // ---------------------------------------------------------------------------
  // Little-endian numbers

  function FromLe(b: seq<byte>): nat
  {
    if b == [] then 0 else b[0] + 256 * FromLe(b[1..])
  }

  /** The low `n` bytes of `x`, least significant first. */
  function ToLe(x: nat, n: nat): (b: seq<byte>)
    ensures |b| == n
  {
    if n == 0 then [] else [x % 256] + ToLe(x / 256, n - 1)
  }

  function Pow256(n: nat): (r: nat)
    ensures r >= 1
  {
    if n == 0 then 1 else 256 * Pow256(n - 1)
  }

  lemma {:induction false} LeRoundTrip(x: nat, n: nat)
    requires x < Pow256(n)
    ensures FromLe(ToLe(x, n)) == x
  {
    if n > 0 {
      assert x / 256 < Pow256(n - 1);
      LeRoundTrip(x / 256, n - 1);
      assert ToLe(x, n)[1..] == ToLe(x / 256, n - 1);
    }
  }

  /** The words in use, least significant byte first. */
  lemma FromLeWords(b: seq<byte>)
    ensures |b| == 2 ==> FromLe(b) == 0x100 * (b[1] as int) + b[0]
    ensures |b| == 4 ==> FromLe(b) == 0x100_0000 * (b[3] as int) + 0x1_0000 * (b[2] as int) + 0x100 * (b[1] as int) + b[0]
    ensures |b| == 8 ==>
              FromLe(b) == 0x100_0000_0000_0000 * (b[7] as int) + 0x1_0000_0000_0000 * (b[6] as int)
                           + 0x100_0000_0000 * (b[5] as int) + 0x1_0000_0000 * (b[4] as int)
                           + 0x100_0000 * (b[3] as int) + 0x1_0000 * (b[2] as int) + 0x100 * (b[1] as int) + b[0]
  {
    hide FromLe;
    if |b| in {2, 4, 8} {
      FromLeFirst(b);
      FromLeFirst(b[1..]);
      if |b| > 2 {
        FromLeFirst(b[2..]);
        FromLeFirst(b[3..]);
      }
      if |b| > 4 {
        FromLeFirst(b[4..]);
        FromLeFirst(b[5..]);
        FromLeFirst(b[6..]);
        FromLeFirst(b[7..]);
      }
      FromLeNone();
    }
  }

  lemma FromLeFirst(b: seq<byte>)
    requires b != []
    ensures FromLe(b) == b[0] + 256 * FromLe(b[1..])
  {
  }

  lemma FromLeNone()
    ensures FromLe([]) == 0
  {
  }

  /** The field sizes in use. */
  lemma WordSizes()
    ensures Pow256(1) == 0x100 && Pow256(2) == 0x1_0000 && Pow256(4) == 0x1_0000_0000
    ensures Pow256(8) == 0x1_0000_0000_0000_0000
  {
    assert Pow256(2) == 0x1_0000 && Pow256(3) == 0x100_0000 && Pow256(5) == 0x100_0000_0000 && Pow256(7) == 0x100_0000_0000_0000;
  }
}
