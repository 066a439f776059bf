/** Byte strings, fixed-width integer encodings and bitwise exclusive or. */
module Bytes {

  type byte = x: int | 0 <= x < 256

  type bytes = seq<byte>

  datatype Option<+T> = None | Some(value: T)

  datatype Result<+T, +E> = Ok(value: T) | Err(error: E)

  function Zeros(n: nat): (s: bytes)
    ensures |s| == n
    ensures forall i :: 0 <= i < n ==> s[i] == 0
  {
    seq(n, _ => 0)
  }

  lemma ConcatAssociates<T>(a: seq<T>, b: seq<T>, c: seq<T>)
    ensures a + (b + c) == a + b + c
  {
  }

  /** The front and the back of a concatenation, as a recursive function sees them. */
  lemma ConcatHead<T>(a: seq<T>, b: seq<T>)
    requires a != []
    ensures (a + b)[0] == a[0] && (a + b)[1..] == a[1..] + b
  {
  }

  lemma SliceOfSlice<T>(s: seq<T>, from: nat, to: nat, lo: nat, hi: nat)
    requires lo <= hi && from + hi <= to <= |s|
    ensures s[from..to][lo..hi] == s[from + lo..from + hi]
  {
    forall i | 0 <= i < hi - lo ensures s[from..to][lo..hi][i] == s[from + lo..from + hi][i] {
      assert s[from..to][lo + i] == s[from + (lo + i)];
    }
  }

  function Pow256(k: nat): (r: nat)
    ensures r > 0
  {
    if k == 0 then 1 else 256 * Pow256(k - 1)
  }

  lemma Pow256Values()
    ensures Pow256(1) == 0x100
    ensures Pow256(2) == 0x1_0000
    ensures Pow256(3) == 0x100_0000
    ensures Pow256(4) == 0x1_0000_0000
  {
    assert Pow256(1) == 256 * Pow256(0);
    assert Pow256(2) == 256 * Pow256(1);
    assert Pow256(3) == 256 * Pow256(2);
    assert Pow256(4) == 256 * Pow256(3);
  }

  lemma Pow256Eight()
    ensures Pow256(8) == 0x1_0000_0000_0000_0000
  {
    Pow256Values();
    assert Pow256(5) == 256 * Pow256(4);
    assert Pow256(6) == 256 * Pow256(5);
    assert Pow256(7) == 256 * Pow256(6);
    assert Pow256(8) == 256 * Pow256(7);
  }

  // Big endian ------------------------------------------------------------

  function BE(s: bytes): nat {
    if s == [] then 0 else 256 * BE(s[..|s| - 1]) + s[|s| - 1]
  }

  function PutBE(n: nat, k: nat): (s: bytes)
    ensures |s| == k
  {
    if k == 0 then [] else PutBE(n / 256, k - 1) + [n % 256]
  }

  lemma {:induction false} BEOfPut(n: nat, k: nat)
    requires n < Pow256(k)
    ensures BE(PutBE(n, k)) == n
  {
    if k > 0 {
      BEOfPut(n / 256, k - 1);
      var s := PutBE(n, k);
      assert s[..|s| - 1] == PutBE(n / 256, k - 1);
    }
  }

  lemma {:induction false} PutOfBE(s: bytes)
    ensures BE(s) < Pow256(|s|)
    ensures PutBE(BE(s), |s|) == s
  {
    if s != [] {
      var front := s[..|s| - 1];
      PutOfBE(front);
      assert BE(s) / 256 == BE(front) && BE(s) % 256 == s[|s| - 1];
      assert s == front + [s[|s| - 1]];
    }
  }

  lemma BE2(s: bytes)
    requires |s| == 2
    ensures BE(s) == 256 * (s[0] as int) + s[1] as int
  {
    assert s[..1][..0] == [];
    assert BE(s[..1]) == s[0];
  }

  // Little endian ---------------------------------------------------------

  function LE(s: bytes): nat {
    if s == [] then 0 else s[0] + 256 * LE(s[1..])
  }

  function PutLE(n: nat, k: nat): (s: bytes)
    ensures |s| == k
  {
    if k == 0 then [] else [n % 256] + PutLE(n / 256, k - 1)
  }

  lemma {:induction false} LEOfPut(n: nat, k: nat)
    requires n < Pow256(k)
    ensures LE(PutLE(n, k)) == n
  {
    if k > 0 {
      LEOfPut(n / 256, k - 1);
      assert PutLE(n, k)[1..] == PutLE(n / 256, k - 1);
    }
  }

  lemma {:induction false} PutOfLE(s: bytes)
    ensures LE(s) < Pow256(|s|)
    ensures PutLE(LE(s), |s|) == s
  {
    if s != [] {
      PutOfLE(s[1..]);
      assert LE(s) / 256 == LE(s[1..]) && LE(s) % 256 == s[0];
      assert s == [s[0]] + s[1..];
    }
  }

  /** The byte string read back to front. */
  function Reversed(s: bytes): (r: bytes)
    ensures |r| == |s|
    ensures forall i :: 0 <= i < |s| ==> r[i] == s[|s| - 1 - i]
  {
    seq(|s|, i requires 0 <= i < |s| => s[|s| - 1 - i])
  }

  lemma {:induction false} BEOfReversed(s: bytes)
    ensures BE(Reversed(s)) == LE(s)
  {
    if s != [] {
      BEOfReversed(s[1..]);
      var r := Reversed(s);
      assert r[..|r| - 1] == Reversed(s[1..]);
    }
  }

  // Exclusive or ----------------------------------------------------------

  /** Bitwise exclusive or, least significant bit first. */
  function XorNat(a: nat, b: nat): nat
    decreases a + b
  {
    if a == 0 && b == 0 then 0 else (a % 2 + b % 2) % 2 + 2 * XorNat(a / 2, b / 2)
  }

  function Pow2(k: nat): (r: nat)
    ensures r > 0
  {
    if k == 0 then 1 else 2 * Pow2(k - 1)
  }

  lemma {:induction false} XorBound(a: nat, b: nat, k: nat)
    requires a < Pow2(k) && b < Pow2(k)
    ensures XorNat(a, b) < Pow2(k)
  {
    if k > 0 {
      XorBound(a / 2, b / 2, k - 1);
    }
  }

  lemma Pow2Values()
    ensures Pow2(8) == 256
  {
    assert Pow2(4) == 16;
    assert Pow2(8) == 2 * 2 * 2 * 2 * Pow2(4);
  }

  function Xor(a: byte, b: byte): byte {
    XorBound256(a, b);
    XorNat(a, b)
  }

  lemma XorBound256(a: byte, b: byte)
    ensures XorNat(a, b) < 256
  {
    Pow2Values();
    XorBound(a, b, 8);
  }

  lemma XorOfZeros()
    ensures XorNat(0, 0) == 0
  {
  }

  lemma BitCancels(p: nat, q: nat)
    requires p < 2 && q < 2
    ensures ((p + q) % 2 + q) % 2 == p
  {
  }

  lemma {:induction false} XorCancel(a: nat, b: nat)
    ensures XorNat(XorNat(a, b), b) == a
    decreases a + b
  {
    hide *;
    if a == 0 && b == 0 {
      XorOfZeros();
    } else {
      var x, h, bit := XorNat(a, b), XorNat(a / 2, b / 2), (a % 2 + b % 2) % 2;
      XorCancel(a / 2, b / 2);
      XorHalves(a, b, a / 2, b / 2, a % 2, b % 2);
      HalfOfDoubled(h, bit);
      XorHalves(x, b, h, b / 2, bit, b % 2);
      BitCancels(a % 2, b % 2);
    }
  }

  /** Masking two values with one mask gives equal results only for equal values. */
  lemma XorLeftInjective(a: nat, b: nat, m: nat)
    requires XorNat(a, m) == XorNat(b, m)
    ensures a == b
  {
    XorCancel(a, m);
    XorCancel(b, m);
  }

  lemma {:induction false} XorCommutes(a: nat, b: nat)
    ensures XorNat(a, b) == XorNat(b, a)
    decreases a + b
  {
    if a != 0 || b != 0 {
      XorCommutes(a / 2, b / 2);
    }
  }

  /** a shifted left by k bits. */
  function Shifted(a: nat, k: nat): nat {
    if k == 0 then a else 2 * Shifted(a, k - 1)
  }

  lemma ShiftedByte(a: nat)
    ensures Shifted(a, 8) == 256 * a
  {
    assert Shifted(a, 2) == 2 * Shifted(a, 1) == 4 * a;
    assert Shifted(a, 4) == 2 * Shifted(a, 3) == 4 * Shifted(a, 2);
    assert Shifted(a, 6) == 2 * Shifted(a, 5) == 4 * Shifted(a, 4);
    assert Shifted(a, 8) == 2 * Shifted(a, 7) == 4 * Shifted(a, 6);
  }

  /** Exclusive or works digit by digit in every base that is a power of two. */
  lemma {:induction false} XorSplit(k: nat, a: nat, x: nat, b: nat, y: nat)
    requires x < Pow2(k) && y < Pow2(k)
    ensures XorNat(Shifted(a, k) + x, Shifted(b, k) + y) == Shifted(XorNat(a, b), k) + XorNat(x, y)
    decreases k
  {
    if k == 0 {
      assert x == 0 && y == 0;
    } else {
      assert Pow2(k) == 2 * Pow2(k - 1);
      XorSplit(k - 1, a, x / 2, b, y / 2);
      XorSplitStep(Shifted(a, k - 1), x, Shifted(b, k - 1), y, Shifted(XorNat(a, b), k - 1));
      hide XorNat;
      hide Pow2;
    }
  }

  /** In particular byte by byte. */
  lemma XorSplitByte(a: nat, x: byte, b: nat, y: byte)
    ensures XorNat(256 * a + x, 256 * b + y) == 256 * XorNat(a, b) + XorNat(x, y)
  {
    Pow2Values();
    XorSplit(8, a, x, b, y);
    ShiftedByte(a);
    ShiftedByte(b);
    ShiftedByte(XorNat(a, b));
  }

  lemma XorSplitStep(c: nat, x: nat, d: nat, y: nat, e: nat)
    requires XorNat(c + x / 2, d + y / 2) == e + XorNat(x / 2, y / 2)
    ensures XorNat(2 * c + x, 2 * d + y) == 2 * e + XorNat(x, y)
  {
    hide *;
    XorOfDoubled(c, x, d, y);
    XorHalves(x, y, x / 2, y / 2, x % 2, y % 2);
  }

  lemma XorOfDoubled(c: nat, x: nat, d: nat, y: nat)
    ensures XorNat(2 * c + x, 2 * d + y) == (x % 2 + y % 2) % 2 + 2 * XorNat(c + x / 2, d + y / 2)
  {
    hide *;
    HalfOfDoubled(c, x);
    HalfOfDoubled(d, y);
    XorHalves(2 * c + x, 2 * d + y, c + x / 2, d + y / 2, x % 2, y % 2);
  }

  lemma HalfOfDoubled(c: nat, x: nat)
    ensures (2 * c + x) / 2 == c + x / 2 && (2 * c + x) % 2 == x % 2
  {
  }

  /** One unfolding of XorNat, with the halves and low bits named. */
  lemma XorHalves(u: nat, v: nat, uh: nat, vh: nat, ul: nat, vl: nat)
    requires u / 2 == uh && v / 2 == vh && u % 2 == ul && v % 2 == vl
    ensures XorNat(u, v) == (ul + vl) % 2 + 2 * XorNat(uh, vh)
  {
  }

  function XorBytes(a: bytes, b: bytes): (c: bytes)
    requires |a| == |b|
    ensures |c| == |a|
    ensures forall i :: 0 <= i < |a| ==> c[i] == Xor(a[i], b[i])
  {
    seq(|a|, i requires 0 <= i < |a| => Xor(a[i], b[i]))
  }

  lemma {:induction false} XorBytesLE(a: bytes, b: bytes)
    requires |a| == |b|
    ensures LE(XorBytes(a, b)) == XorNat(LE(a), LE(b))
  {
    if a != [] {
      XorBytesLE(a[1..], b[1..]);
      XorSplitByte(LE(a[1..]), a[0], LE(b[1..]), b[0]);
      assert XorBytes(a, b)[1..] == XorBytes(a[1..], b[1..]);
    }
  }
}
