/** Handshake messages and curve points as bytes. */
module Codec {
  import opened Bytes

  const MESSAGE_HEADER_LEN := 4
  const POINT_LEN := 65
  const BODY_LIMIT := 0x100_0000
  const BUFFER_LIMIT := 2 * 1024 * 1024

  datatype Message = Message(msgType: byte, body: bytes)

  /** encodeHandshakeMsg: one type byte and the low 24 bits of the length, then the body. */
  function Encode(m: Message): (s: bytes)
    ensures |s| == MESSAGE_HEADER_LEN + |m.body|
  {
    [m.msgType] + PutBE(|m.body|, 3) + m.body
  }

  function EncodeAll(ms: seq<Message>): bytes {
    if ms == [] then [] else Encode(ms[0]) + EncodeAll(ms[1..])
  }

  lemma {:induction false} EncodeAllConcat(ms: seq<Message>, ns: seq<Message>)
    ensures EncodeAll(ms + ns) == EncodeAll(ms) + EncodeAll(ns)
  {
    if ms == [] {
      assert ms + ns == ns;
    } else {
      EncodeAllConcat(ms[1..], ns);
      ConcatHead(ms, ns);
      ConcatAssociates(Encode(ms[0]), EncodeAll(ms[1..]), EncodeAll(ns));
      hide Encode;
    }
  }

  lemma EncodeAllAppend(ms: seq<Message>, m: Message)
    ensures EncodeAll(ms + [m]) == EncodeAll(ms) + Encode(m)
  {
    EncodeAllConcat(ms, [m]);
    assert EncodeAll([m]) == Encode(m) + EncodeAll([]);
  }

  /** The length field of an encoding, whatever follows it. */
  lemma EncodedLength(m: Message, rest: bytes)
    requires |m.body| < BODY_LIMIT
    ensures var s := Encode(m) + rest;
            s[0] == m.msgType && BE(s[1..4]) == |m.body|
            && s[4..4 + |m.body|] == m.body && s[4 + |m.body|..] == rest
  {
    var s := Encode(m) + rest;
    assert s[1..4] == PutBE(|m.body|, 3);
    Pow256Values();
    BEOfPut(|m.body|, 3);
  }

  lemma EncodePrefixFree(m: Message, n: Message, x: bytes, y: bytes)
    requires |m.body| < BODY_LIMIT && |n.body| < BODY_LIMIT
    requires Encode(m) + x == Encode(n) + y
    ensures m == n && x == y
  {
    EncodedLength(m, x);
    EncodedLength(n, y);
  }

  predicate ShortBodies(ms: seq<Message>) {
    forall i :: 0 <= i < |ms| ==> |ms[i].body| < BODY_LIMIT
  }

  /** Unique decodability: equal transcripts are transcripts of the same messages. */
  lemma {:induction false} TranscriptDecodes(ms: seq<Message>, ns: seq<Message>)
    requires ShortBodies(ms) && ShortBodies(ns)
    requires EncodeAll(ms) == EncodeAll(ns)
    ensures ms == ns
  {
    if ms == [] || ns == [] {
      assert |EncodeAll(ms)| == 0 <==> ms == [];
      assert |EncodeAll(ns)| == 0 <==> ns == [];
    } else {
      EncodePrefixFree(ms[0], ns[0], EncodeAll(ms[1..]), EncodeAll(ns[1..]));
      TranscriptDecodes(ms[1..], ns[1..]);
      assert ms == [ms[0]] + ms[1..] && ns == [ns[0]] + ns[1..];
    }
  }

  /** The limit matters: the 24-bit length makes these two different lists one transcript. */
  lemma LongBodiesCollide(body: bytes)
    requires |body| == BODY_LIMIT && body[..4] == [7, 0, 0, 0]
    ensures exists ms: seq<Message>, ns: seq<Message> ::
              ms != ns && |ms| == |ns| == 2 && EncodeAll(ms) == EncodeAll(ns)
              && |ms[0].body| == 0 && |ns[0].body| == BODY_LIMIT
  {
    var m, n := Message(1, []), Message(1, body);
    var tail := Message(9, []);
    // The first list reads the long body as a second message with a truncated length.
    var second := Message(7, body[4..] + Encode(tail));
    hide Encode;
    hide EncodeAll;
    TwoMessages(m, second);
    TwoMessages(n, tail);
    LengthWraps(m, n, second, tail);
    var ms, ns := [m, second], [n, tail];
    assert ms[0] == m && ns[0] == n && ms != ns;
    assert EncodeAll(ms) == EncodeAll(ns);
  }

  lemma TwoMessages(m: Message, n: Message)
    ensures EncodeAll([m, n]) == Encode(m) + Encode(n)
  {
    hide Encode;
    assert [m, n][1..] == [n] && [n][1..] == [];
    assert EncodeAll([n]) == Encode(n) + [];
  }

  lemma LengthWraps(m: Message, n: Message, second: Message, tail: Message)
    requires m == Message(1, []) && n.msgType == 1 && |n.body| == BODY_LIMIT && n.body[..4] == [7, 0, 0, 0]
    requires second == Message(7, n.body[4..] + Encode(tail)) && tail == Message(9, [])
    ensures |second.body| == BODY_LIMIT && Encode(m) + Encode(second) == Encode(n) + Encode(tail)
  {
    assert PutBE(0, 3) == [0, 0, 0] && PutBE(BODY_LIMIT, 3) == [0, 0, 0];
    hide PutBE;
    var t := Encode(tail);
    assert |t| == 4;
    assert Encode(m) == [1, 0, 0, 0];
    assert Encode(n) == [1, 0, 0, 0] + n.body;
    assert Encode(second) == [7, 0, 0, 0] + (n.body[4..] + t);
    assert n.body == [7, 0, 0, 0] + n.body[4..];
  }

  // Curve points -------------------------------------------------------------

  datatype Point = Point(x: nat, y: nat)

  /** A big integer's minimal big-endian bytes; zero has none. */
  function MinBytes(n: nat): bytes {
    if n == 0 then [] else MinBytes(n / 256) + [n % 256]
  }

  lemma {:induction false} MinBytesPadded(n: nat, k: nat)
    requires n < Pow256(k)
    ensures |MinBytes(n)| <= k
    ensures Zeros(k - |MinBytes(n)|) + MinBytes(n) == PutBE(n, k)
  {
    if n == 0 {
      PutBEOfZero(k);
    } else {
      MinBytesPadded(n / 256, k - 1);
      var d := MinBytes(n / 256);
      assert Zeros(k - 1 - |d|) + MinBytes(n) == (Zeros(k - 1 - |d|) + d) + [n % 256];
    }
  }

  lemma {:induction false} PutBEOfZero(k: nat)
    ensures PutBE(0, k) == Zeros(k)
  {
    if k > 0 {
      PutBEOfZero(k - 1);
    }
  }

  predicate Coordinate(n: nat) {
    n < Pow256(32)
  }

  function PadLeft32(s: bytes): (r: bytes)
    requires |s| <= 32
    ensures |r| == 32
  {
    Zeros(32 - |s|) + s
  }

  /** encodePublicKeySM2. */
  function EncodePoint(p: Point): (raw: bytes)
    requires Coordinate(p.x) && Coordinate(p.y)
    ensures |raw| == POINT_LEN
  {
    MinBytesPadded(p.x, 32);
    MinBytesPadded(p.y, 32);
    [4] + PadLeft32(MinBytes(p.x)) + PadLeft32(MinBytes(p.y))
  }

  /** decodePublicKeySM2; membership of the curve is a parameter. */
  function DecodePoint(raw: bytes, onCurve: Point -> bool): Option<Point> {
    if |raw| != POINT_LEN || raw[0] != 4 then None
    else
      var p := Point(BE(raw[1..33]), BE(raw[33..65]));
      if onCurve(p) then Some(p) else None
  }

  lemma PointBytes(p: Point)
    requires Coordinate(p.x) && Coordinate(p.y)
    ensures EncodePoint(p) == [4] + PutBE(p.x, 32) + PutBE(p.y, 32)
  {
    hide MinBytes;
    hide Pow256;
    hide PutBE;
    MinBytesPadded(p.x, 32);
    MinBytesPadded(p.y, 32);
  }

  lemma DecodeOfEncodePoint(p: Point, onCurve: Point -> bool)
    requires Coordinate(p.x) && Coordinate(p.y)
    ensures DecodePoint(EncodePoint(p), onCurve) == if onCurve(p) then Some(p) else None
  {
    hide EncodePoint;
    hide Pow256;
    hide PutBE;
    hide BE;
    PointBytes(p);
    BEOfPut(p.x, 32);
    BEOfPut(p.y, 32);
    var raw := EncodePoint(p);
    assert raw[1..33] == PutBE(p.x, 32) && raw[33..65] == PutBE(p.y, 32);
  }

  lemma EncodeOfDecodePoint(raw: bytes, onCurve: Point -> bool)
    requires DecodePoint(raw, onCurve).Some?
    ensures var p := DecodePoint(raw, onCurve).value;
            Coordinate(p.x) && Coordinate(p.y) && EncodePoint(p) == raw
  {
    hide EncodePoint;
    hide Pow256;
    hide PutBE;
    hide BE;
    var p := DecodePoint(raw, onCurve).value;
    PutOfBE(raw[1..33]);
    PutOfBE(raw[33..65]);
    PointBytes(p);
    assert raw == [4] + raw[1..33] + raw[33..65];
  }
}
