/** Byte-string text: white space, hexadecimal digits and caseless comparison. */
module Text {
  import opened Bytes

  /** The UTF-8 encodings of the code points Go counts as white space. */
  predicate IsSpace(s: bytes) {
    || (|s| == 1 && (9 <= s[0] <= 13 || s[0] == 32))
    || (|s| == 2 && s[0] == 0xC2 && (s[1] == 0x85 || s[1] == 0xA0))
    || s == [0xE1, 0x9A, 0x80]
    || (|s| == 3 && s[0] == 0xE2 && s[1] == 0x80
       && (0x80 <= s[2] <= 0x8A || s[2] == 0xA8 || s[2] == 0xA9 || s[2] == 0xAF))
    || s == [0xE2, 0x81, 0x9F]
    || s == [0xE3, 0x80, 0x80]
  }

  /** Length of the white-space character at the front, or 0. */
  function SpaceAtFront(s: bytes): (n: nat)
    ensures n <= |s|
    ensures n > 0 ==> IsSpace(s[..n])
  {
    if |s| >= 1 && IsSpace(s[..1]) then 1
    else if |s| >= 2 && IsSpace(s[..2]) then 2
    else if |s| >= 3 && IsSpace(s[..3]) then 3
    else 0
  }

  function SpaceAtBack(s: bytes): (n: nat)
    ensures n <= |s|
    ensures n > 0 ==> IsSpace(s[|s| - n..])
  {
    if |s| >= 1 && IsSpace(s[|s| - 1..]) then 1
    else if |s| >= 2 && IsSpace(s[|s| - 2..]) then 2
    else if |s| >= 3 && IsSpace(s[|s| - 3..]) then 3
    else 0
  }

  function TrimSpace(s: bytes): (t: bytes)
    ensures |t| <= |s|
    decreases |s|
  {
    if SpaceAtFront(s) > 0 then TrimSpace(s[SpaceAtFront(s)..])
    else if SpaceAtBack(s) > 0 then TrimSpace(s[..|s| - SpaceAtBack(s)])
    else s
  }

  lemma TrimOfEmpty()
    ensures TrimSpace([]) == []
  {
  }

  predicate Plain(s: bytes) {
    forall i :: 0 <= i < |s| ==> 0x21 <= s[i] <= 0x7e
  }

  lemma PlainIsNotSpace(s: bytes)
    requires s != [] && 0x21 <= s[0] <= 0x7e
    ensures !IsSpace(s)
  {
  }

  lemma PlainFront(s: bytes)
    requires Plain(s)
    ensures SpaceAtFront(s) == 0
  {
    if s != [] {
      assert 0x21 <= s[0] <= 0x7e;
      hide IsSpace;
      hide Plain;
      PlainIsNotSpace(s[..1]);
      if |s| >= 2 {
        PlainIsNotSpace(s[..2]);
      }
      if |s| >= 3 {
        PlainIsNotSpace(s[..3]);
      }
    }
  }

  lemma PlainTail(s: bytes, n: nat)
    requires Plain(s) && 0 < n <= |s|
    ensures !IsSpace(s[|s| - n..])
  {
    var k := |s| - n;
    assert 0x21 <= s[k] <= 0x7e;
    hide *;
    PlainIsNotSpace(s[k..]);
  }

  lemma PlainBack(s: bytes)
    requires Plain(s)
    ensures SpaceAtBack(s) == 0
  {
    hide IsSpace;
    hide Plain;
    if |s| >= 1 {
      PlainTail(s, 1);
    }
    if |s| >= 2 {
      PlainTail(s, 2);
    }
    if |s| >= 3 {
      PlainTail(s, 3);
    }
  }

  lemma PlainIsTrimmed(s: bytes)
    requires Plain(s)
    ensures TrimSpace(s) == s
  {
    PlainFront(s);
    PlainBack(s);
    hide Plain;
    hide SpaceAtFront;
    hide SpaceAtBack;
  }

  function TrimRightZeros(s: bytes): (t: bytes)
    ensures t <= s
    ensures t != [] ==> t[|t| - 1] != 0
  {
    if s != [] && s[|s| - 1] == 0 then TrimRightZeros(s[..|s| - 1]) else s
  }

  lemma {:induction false} TrimRightOfPadded(s: bytes, n: nat)
    requires s != [] && s[|s| - 1] != 0
    ensures TrimRightZeros(s + Zeros(n)) == s
  {
    if n == 0 {
      assert s + Zeros(0) == s;
    } else {
      var t := s + Zeros(n);
      assert t[..|t| - 1] == s + Zeros(n - 1);
      TrimRightOfPadded(s, n - 1);
    }
  }

  // Hexadecimal ------------------------------------------------------------------

  function HexValue(c: byte): (v: int)
    ensures -1 <= v < 16
  {
    if 48 <= c <= 57 then c - 48
    else if 65 <= c <= 70 then c - 55
    else if 97 <= c <= 102 then c - 87
    else -1
  }

  predicate AllHex(s: bytes) {
    forall i :: 0 <= i < |s| ==> HexValue(s[i]) >= 0
  }

  /** hex.DecodeString, None for its errors. */
  function HexDecode(s: bytes): (r: Option<bytes>)
    ensures r.Some? ==> 2 * |r.value| == |s|
  {
    if |s| % 2 == 1 || !AllHex(s) then None
    else Some(seq(|s| / 2, i requires 0 <= i < |s| / 2 => 16 * HexValue(s[2 * i]) + HexValue(s[2 * i + 1])))
  }

  function HexDigit(v: nat): (c: byte)
    requires v < 16
    ensures HexValue(c) == v
  {
    if v < 10 then 48 + v else 87 + v
  }

  /** hex.EncodeToString: lower case, high digit first. */
  function HexEncode(s: bytes): (t: bytes)
    ensures |t| == 2 * |s|
  {
    seq(2 * |s|, i requires 0 <= i < 2 * |s| => HexDigit(if i % 2 == 0 then s[i / 2] / 16 else s[i / 2] % 16))
  }

  function ToLower(c: byte): byte {
    if 65 <= c <= 90 then c + 32 else c
  }

  /** strings.EqualFold, for ASCII text. */
  predicate EqualFold(s: bytes, t: bytes) {
    |s| == |t| && forall i :: 0 <= i < |s| ==> ToLower(s[i]) == ToLower(t[i])
  }

  lemma HexValueFolds(c: byte, d: byte)
    requires HexValue(c) >= 0 && HexValue(d) >= 0
    ensures ToLower(c) == ToLower(d) <==> HexValue(c) == HexValue(d)
  {
  }

  /** The i-th hexadecimal digit of a byte string. */
  function DigitOf(d: bytes, i: nat): nat
    requires i < 2 * |d|
  {
    if i % 2 == 0 then d[i / 2] / 16 else d[i / 2] % 16
  }

  lemma DecodedDigit(s: bytes, i: nat)
    requires HexDecode(s).Some? && i < |s|
    ensures HexValue(s[i]) == DigitOf(HexDecode(s).value, i)
  {
    var k := i / 2;
    assert HexDecode(s).value[k] == 16 * HexValue(s[2 * k]) + HexValue(s[2 * k + 1]);
    assert HexValue(s[2 * k]) >= 0 && HexValue(s[2 * k + 1]) >= 0;
    assert i == 2 * k || i == 2 * k + 1;
  }

  lemma SameDigits(d: bytes, e: bytes)
    requires |d| == |e|
    ensures d == e <==> forall i :: 0 <= i < 2 * |d| ==> DigitOf(d, i) == DigitOf(e, i)
  {
    if forall i :: 0 <= i < 2 * |d| ==> DigitOf(d, i) == DigitOf(e, i) {
      forall k | 0 <= k < |d| ensures d[k] == e[k] {
        assert DigitOf(d, 2 * k) == DigitOf(e, 2 * k);
        assert DigitOf(d, 2 * k + 1) == DigitOf(e, 2 * k + 1);
      }
    }
  }

  /** Caseless equality with an encoding is equality of what is encoded. */
  lemma EqualFoldIsDecoding(s: bytes, d: bytes)
    requires HexDecode(s).Some?
    ensures EqualFold(s, HexEncode(d)) <==> HexDecode(s).value == d
  {
    if |s| == 2 * |d| {
      var t, v := HexEncode(d), HexDecode(s).value;
      SameDigits(v, d);
      forall i | 0 <= i < |s|
        ensures ToLower(s[i]) == ToLower(t[i]) <==> DigitOf(v, i) == DigitOf(d, i)
      {
        DecodedDigit(s, i);
        assert HexValue(t[i]) == DigitOf(d, i);
        HexValueFolds(s[i], t[i]);
      }
      hide DigitOf;
      hide ToLower;
      hide HexEncode;
      hide HexDecode;
    }
  }

  lemma FoldedDigit(c: byte, v: nat)
    requires v < 16 && ToLower(c) == ToLower(HexDigit(v))
    ensures HexValue(c) == v
  {
  }

  /** Decoding, exactly: a string stands for these bytes if it is their encoding but for case. */
  lemma HexDecodeExactly(s: bytes, d: bytes)
    ensures HexDecode(s) == Some(d) <==> EqualFold(s, HexEncode(d))
  {
    if EqualFold(s, HexEncode(d)) {
      forall i | 0 <= i < |s| ensures HexValue(s[i]) >= 0 {
        FoldedDigit(s[i], DigitOf(d, i));
      }
      assert HexDecode(s).Some?;
    }
    hide HexEncode;
    hide EqualFold;
    if HexDecode(s).Some? {
      EqualFoldIsDecoding(s, d);
    }
  }

  // White space, exactly -----------------------------------------------------------

  /** A row of white-space characters. */
  ghost predicate White(s: bytes)
    decreases |s|
  {
    s == [] || exists n :: 0 < n <= |s| && IsSpace(s[..n]) && White(s[n..])
  }

  lemma SpaceThenWhite(space: bytes, tail: bytes)
    requires space != [] && IsSpace(space) && White(tail)
    ensures White(space + tail)
  {
    hide IsSpace;
    var s, n := space + tail, |space|;
    assert s[..n] == space && s[n..] == tail;
  }

  lemma {:induction false} WhiteThenSpace(front: bytes, space: bytes)
    requires space != [] && White(front) && IsSpace(space)
    ensures White(front + space)
    decreases |front|
  {
    hide IsSpace;
    if front == [] {
      assert front + space == space + [];
      SpaceThenWhite(space, []);
    } else {
      var k :| 0 < k <= |front| && IsSpace(front[..k]) && White(front[k..]);
      WhiteThenSpace(front[k..], space);
      SpaceThenWhite(front[..k], front[k..] + space);
      assert front == front[..k] + front[k..];
      ConcatAssociates(front[..k], front[k..], space);
    }
  }

  lemma OuterFront(a: bytes, pre: bytes, mid: bytes, post: bytes)
    ensures a + (pre + mid + post) == (a + pre) + mid + post
  {
  }

  lemma OuterBack(pre: bytes, mid: bytes, post: bytes, z: bytes)
    ensures pre + mid + post + z == pre + mid + (post + z)
  {
  }

  lemma TrimStep(s: bytes)
    ensures TrimSpace(s) == if SpaceAtFront(s) > 0 then TrimSpace(s[SpaceAtFront(s)..])
                            else if SpaceAtBack(s) > 0 then TrimSpace(s[..|s| - SpaceAtBack(s)]) else s
  {
    hide SpaceAtFront;
    hide SpaceAtBack;
  }

  lemma CutAt(s: bytes, n: nat)
    requires n <= |s|
    ensures s == s[..n] + s[n..]
  {
  }

  /** Trimming takes off white space at both ends and all of it. */
  lemma {:induction false} TrimSpaceMeans(s: bytes) returns (pre: bytes, post: bytes)
    ensures s == pre + TrimSpace(s) + post && White(pre) && White(post)
    ensures SpaceAtFront(TrimSpace(s)) == 0 && SpaceAtBack(TrimSpace(s)) == 0
    decreases |s|
  {
    hide IsSpace;
    hide SpaceAtFront;
    hide SpaceAtBack;
    hide TrimSpace;
    TrimStep(s);
    var n, k := SpaceAtFront(s), SpaceAtBack(s);
    if n > 0 {
      CutAt(s, n);
      pre, post := TrimSpaceMeans(s[n..]);
      OuterFront(s[..n], pre, TrimSpace(s), post);
      SpaceThenWhite(s[..n], pre);
      pre := s[..n] + pre;
    } else if k > 0 {
      CutAt(s, |s| - k);
      pre, post := TrimSpaceMeans(s[..|s| - k]);
      OuterBack(pre, TrimSpace(s), post, s[|s| - k..]);
      WhiteThenSpace(post, s[|s| - k..]);
      post := post + s[|s| - k..];
    } else {
      pre, post := [], [];
    }
  }

  lemma {:induction false} TrimRightZerosMeans(s: bytes) returns (n: nat)
    ensures s == TrimRightZeros(s) + Zeros(n)
  {
    if s != [] && s[|s| - 1] == 0 {
      n := TrimRightZerosMeans(s[..|s| - 1]);
      assert Zeros(n + 1) == Zeros(n) + [0];
      n := n + 1;
    } else {
      n := 0;
    }
  }
}
