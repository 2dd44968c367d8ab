/** UTF-8: the encoder, and the branchless decoder with its block reader. */
module Utf8 {

  /** A decoded code point, its error bits, and the bytes to advance. */
  datatype Point = Point(cp: bv32, error: bv32)

  predicate Scalar(c: bv32) {
    c <= 0x10FFFF && !(0xD800 <= c <= 0xDFFF)
  }

  predicate Scalars(cs: seq<bv32>) {
    forall i :: 0 <= i < |cs| ==> Scalar(cs[i])
  }

  // Encoding.

  function Byte(c: bv32): bv8 {
    (c & 0xFF) as bv8
  }

  function Lead2(c: bv32): bv8 { Byte(0xC0 | (c >> 6)) }

  function Lead3(c: bv32): bv8 { Byte(0xE0 | (c >> 12)) }

  function Lead4(c: bv32): bv8 { Byte(0xF0 | (c >> 18)) }

  function High(c: bv32): bv8 { Byte(0x80 | ((c & 0x3FFFF) >> 12)) }

  function Middle(c: bv32): bv8 { Byte(0x80 | ((c & 0xFFF) >> 6)) }

  function Low(c: bv32): bv8 { Byte(0x80 | (c & 0x3F)) }

  /** The bytes of one code point. */
  function Encode(c: bv32): (bytes: seq<bv8>)
    requires Scalar(c)
  {
    if c < 0x80 then
      [Byte(c)]
    else if c < 0x800 then
      [Lead2(c), Low(c)]
    else if c <= 0xFFFF then
      [Lead3(c), Middle(c), Low(c)]
    else
      [Lead4(c), High(c), Middle(c), Low(c)]
  }

  function EncodeAll(cs: seq<bv32>): seq<bv8>
    requires Scalars(cs)
  {
    if cs == [] then [] else Encode(cs[0]) + EncodeAll(cs[1..])
  }

  lemma {:induction false} EncodeSnoc(cs: seq<bv32>, c: bv32)
    requires Scalars(cs) && Scalar(c)
    ensures EncodeAll(cs + [c]) == EncodeAll(cs) + Encode(c)
  {
    hide Encode, Scalar;
    if cs == [] {
      assert [c][1..] == [];
    } else {
      EncodeSnoc(cs[1..], c);
      assert (cs + [c])[1..] == cs[1..] + [c];
    }
  }

  // Decoding.

  /** The length table, indexed by the five top bits of the first byte; a zero entry still advances by one. */
  function CodePointLength(b: bv8): (len: nat)
    ensures 1 <= len <= 4
  {
    var i := b >> 3;
    var len := if i < 16 then 1 else if i < 24 then 0 else if i < 28 then 2 else if i < 30 then 3 else if i < 31 then 4 else 0;
    if len == 0 then 1 else len
  }

  /** The decoder's tables, by length. */
  function Mask(len: nat): bv8 {
    match len case 1 => 0x7F case 2 => 0x1F case 3 => 0x0F case _ => 0x07
  }

  function Least(len: nat): bv32 {
    match len case 1 => 0 case 2 => 128 case 3 => 2048 case _ => 65536
  }

  function DropUnused(c: bv32, len: nat): bv32 {
    match len case 1 => c >> 18 case 2 => c >> 12 case 3 => c >> 6 case _ => c
  }

  function DropErrors(e: bv32, len: nat): bv32 {
    match len case 1 => e >> 6 case 2 => e >> 4 case 3 => e >> 2 case _ => e
  }

  function Decode(b0: bv8, b1: bv8, b2: bv8, b3: bv8): Point {
    var len := CodePointLength(b0);
    var four := (((b0 & Mask(len)) as bv32) << 18) | (((b1 & 0x3F) as bv32) << 12)
              | (((b2 & 0x3F) as bv32) << 6) | ((b3 & 0x3F) as bv32);
    var c := DropUnused(four, len);
    var overlong: bv32 := if c < Least(len) then 1 << 6 else 0;
    var surrogate: bv32 := if (c >> 11) == 0x1B then 1 << 7 else 0;
    var tooLarge: bv32 := if c > 0x10FFFF then 1 << 8 else 0;
    var e := overlong | surrogate | tooLarge
           | (((b1 & 0xC0) as bv32) >> 2) | (((b2 & 0xC0) as bv32) >> 4) | ((b3 as bv32) >> 6);
    Point(c, DropErrors(e ^ 0x2A, len))
  }

  /** A byte that cannot start a code point. The decoder takes it for one of length one. */
  predicate Stray(b: bv8) {
    0x80 <= b < 0xC0 || b >= 0xF8
  }

  predicate Tail(b: bv8) {
    (b & 0xC0) == 0x80
  }

  /** The code point that two, three or four bytes spell. */
  function Join2(b0: bv8, b1: bv8): bv32 {
    (((b0 & 0x1F) as bv32) << 6) | ((b1 & 0x3F) as bv32)
  }

  function Join3(b0: bv8, b1: bv8, b2: bv8): bv32 {
    (((b0 & 0x0F) as bv32) << 12) | (((b1 & 0x3F) as bv32) << 6) | ((b2 & 0x3F) as bv32)
  }

  function Join4(b0: bv8, b1: bv8, b2: bv8, b3: bv8): bv32 {
    (((b0 & 0x07) as bv32) << 18) | (((b1 & 0x3F) as bv32) << 12) | (((b2 & 0x3F) as bv32) << 6) | ((b3 & 0x3F) as bv32)
  }

  // What each form of the decoder makes of its bytes, and when it accepts them.

  lemma DecodeOne(b0: bv8, b1: bv8, b2: bv8, b3: bv8)
    requires b0 < 0x80
    ensures CodePointLength(b0) == 1 && Decode(b0, b1, b2, b3) == Point(b0 as bv32, 0)
  {
  }

  lemma DecodeTwo(b0: bv8, b1: bv8, b2: bv8, b3: bv8)
    requires 0xC0 <= b0 < 0xE0
    ensures var c := Join2(b0, b1);
            && CodePointLength(b0) == 2 && Decode(b0, b1, b2, b3).cp == c
            && (Decode(b0, b1, b2, b3).error == 0 <==> c >= 0x80 && Tail(b1))
  {
  }

  lemma DecodeThree(b0: bv8, b1: bv8, b2: bv8, b3: bv8)
    requires 0xE0 <= b0 < 0xF0
    ensures var c := Join3(b0, b1, b2);
            && CodePointLength(b0) == 3 && Decode(b0, b1, b2, b3).cp == c
            && (Decode(b0, b1, b2, b3).error == 0 <==> c >= 0x800 && Scalar(c) && Tail(b1) && Tail(b2))
  {
  }

  lemma DecodeFour(b0: bv8, b1: bv8, b2: bv8, b3: bv8)
    requires 0xF0 <= b0 < 0xF8
    ensures var c := Join4(b0, b1, b2, b3);
            && CodePointLength(b0) == 4 && Decode(b0, b1, b2, b3).cp == c
            && (Decode(b0, b1, b2, b3).error == 0 <==> c >= 0x10000 && Scalar(c) && Tail(b1) && Tail(b2) && Tail(b3))
  {
  }

  // Splitting into bytes and joining them are inverse to each other.

  lemma OneByte(c: bv32, b: bv8)
    ensures c < 0x80 ==> Byte(c) < 0x80 && Byte(c) as bv32 == c
    ensures b < 0x80 ==> b as bv32 < 0x80 && Byte(b as bv32) == b && Scalar(b as bv32)
  {
  }

  lemma TwoBytes(c: bv32, b0: bv8, b1: bv8)
    ensures 0x80 <= c < 0x800 ==> 0xC0 <= Lead2(c) < 0xE0 && Tail(Low(c)) && c == Join2(Lead2(c), Low(c))
    ensures 0xC0 <= b0 < 0xE0 && Tail(b1) ==>
              var c := Join2(b0, b1); c < 0x800 && b0 == Lead2(c) && b1 == Low(c) && Scalar(c)
  {
  }

  lemma ThreeBytes(c: bv32, b0: bv8, b1: bv8, b2: bv8)
    ensures 0x800 <= c < 0x10000 ==>
              && 0xE0 <= Lead3(c) < 0xF0 && Tail(Middle(c)) && Tail(Low(c)) && c == Join3(Lead3(c), Middle(c), Low(c))
    ensures 0xE0 <= b0 < 0xF0 && Tail(b1) && Tail(b2) ==>
              var c := Join3(b0, b1, b2); c < 0x10000 && b0 == Lead3(c) && b1 == Middle(c) && b2 == Low(c)
  {
  }

  lemma FourBytes(c: bv32, b0: bv8, b1: bv8, b2: bv8, b3: bv8)
    ensures 0x10000 <= c <= 0x10FFFF ==>
              && 0xF0 <= Lead4(c) < 0xF8 && Tail(High(c)) && Tail(Middle(c)) && Tail(Low(c))
              && c == Join4(Lead4(c), High(c), Middle(c), Low(c))
    ensures 0xF0 <= b0 < 0xF8 && Tail(b1) && Tail(b2) && Tail(b3) ==>
              var c := Join4(b0, b1, b2, b3); b0 == Lead4(c) && b1 == High(c) && b2 == Middle(c) && b3 == Low(c)
  {
  }

  /** The bytes of a scalar value decode to it, whatever follows. */
  lemma DecodeEncoded(c: bv32, x: bv8, y: bv8, z: bv8)
    requires Scalar(c)
    ensures var bytes := Encode(c) + [x, y, z];
            && CodePointLength(bytes[0]) == |Encode(c)| && !Stray(bytes[0])
            && Decode(bytes[0], bytes[1], bytes[2], bytes[3]) == Point(c, 0)
  {
    hide Decode, Byte, CodePointLength, Tail, Join2, Join3, Join4, Lead2, Lead3, Lead4, High, Middle, Low;
    var bytes := Encode(c) + [x, y, z];
    var b0, b1, b2, b3 := bytes[0], bytes[1], bytes[2], bytes[3];
    if c < 0x80 {
      OneByte(c, b0);
      DecodeOne(b0, b1, b2, b3);
    } else if c < 0x800 {
      TwoBytes(c, b0, b1);
      DecodeTwo(b0, b1, b2, b3);
    } else if c <= 0xFFFF {
      ThreeBytes(c, b0, b1, b2);
      DecodeThree(b0, b1, b2, b3);
    } else {
      FourBytes(c, b0, b1, b2, b3);
      DecodeFour(b0, b1, b2, b3);
    }
  }

  /** Unless it starts with a stray byte, a block without error begins with the bytes of the scalar value it decodes to. */
  lemma NoErrorMeansEncoded(b0: bv8, b1: bv8, b2: bv8, b3: bv8)
    requires !Stray(b0) && Decode(b0, b1, b2, b3).error == 0
    ensures var c := Decode(b0, b1, b2, b3).cp;
            Scalar(c) && Encode(c) <= [b0, b1, b2, b3] && |Encode(c)| == CodePointLength(b0)
  {
    hide Decode, Byte, CodePointLength, Tail, Join2, Join3, Join4, Lead2, Lead3, Lead4, High, Middle, Low;
    if b0 < 0x80 {
      DecodeOne(b0, b1, b2, b3);
      OneByte(0, b0);
    } else if b0 < 0xE0 {
      DecodeTwo(b0, b1, b2, b3);
      TwoBytes(0, b0, b1);
    } else if b0 < 0xF0 {
      DecodeThree(b0, b1, b2, b3);
      ThreeBytes(0, b0, b1, b2);
    } else {
      DecodeFour(b0, b1, b2, b3);
      FourBytes(0, b0, b1, b2, b3);
    }
  }

  lemma StrayIsNotReported(b0: bv8, b1: bv8, b2: bv8, b3: bv8)
    requires Stray(b0)
    ensures Decode(b0, b1, b2, b3) == Point((b0 & 0x7F) as bv32, 0) && CodePointLength(b0) == 1
  {
  }

  /** The decoder accepts a block exactly if it starts with a stray byte or with the bytes of a scalar value. */
  lemma AcceptsExactly(b0: bv8, b1: bv8, b2: bv8, b3: bv8)
    ensures Decode(b0, b1, b2, b3).error == 0 <==> Stray(b0) || exists c :: Scalar(c) && Encode(c) <= [b0, b1, b2, b3]
  {
    hide Decode, CodePointLength, Encode, Stray;
    var block := [b0, b1, b2, b3];
    if Stray(b0) {
      StrayIsNotReported(b0, b1, b2, b3);
    } else if Decode(b0, b1, b2, b3).error == 0 {
      NoErrorMeansEncoded(b0, b1, b2, b3);
    }
    forall c | Scalar(c) && Encode(c) <= block
      ensures Decode(b0, b1, b2, b3).error == 0
    {
      DecodePrefix(c, block);
    }
  }

  lemma DecodePrefix(c: bv32, block: seq<bv8>)
    requires Scalar(c) && Encode(c) <= block && |block| == 4
    ensures Decode(block[0], block[1], block[2], block[3]) == Point(c, 0) && CodePointLength(block[0]) == |Encode(c)|
    ensures !Stray(block[0])
  {
    hide Decode, CodePointLength, Lead2, Lead3, Lead4, High, Middle, Low, Byte;
    var rest := block[|Encode(c)|..] + [0, 0, 0];
    DecodeEncoded(c, rest[0], rest[1], rest[2]);
    var bytes := Encode(c) + [rest[0], rest[1], rest[2]];
    assert forall i :: 0 <= i < 4 ==> bytes[i] == block[i];
  }

  // Reading a whole text.

  /** The byte at `p`, with zeros after the end. */
  function At(s: seq<bv8>, p: nat): bv8 {
    if p < |s| then s[p] else 0
  }

  function DecodeAt(s: seq<bv8>, p: nat): Point {
    Decode(At(s, p), At(s, p + 1), At(s, p + 2), At(s, p + 3))
  }

  /** What is read from `p` to the end. */
  function Points(s: seq<bv8>, p: nat): seq<Point>
    decreases |s| - p
  {
    if p >= |s| then [] else [DecodeAt(s, p)] + Points(s, p + CodePointLength(s[p]))
  }

  /** Reads blocks of four bytes as long as they lie within the text, and the rest from a copy with zeros behind it. */
  method ForEachCodepoint(s: seq<bv8>) returns (points: seq<Point>)
    ensures points == Points(s, 0)
  {
    hide *;
    points := [];
    var p := 0;
    if |s| >= 4 {
      var end := |s| - 4 + 1;
      while p < end
        invariant 0 <= p <= |s| && points + Points(s, p) == Points(s, 0)
      {
        BlockWithin(s, p);
        OnePoint(s, p, s[p], s[p + 1], s[p + 2], s[p + 3], points);
        points := points + [Decode(s[p], s[p + 1], s[p + 2], s[p + 3])];
        p := p + CodePointLength(s[p]);
      }
    }
    if p != |s| {
      var rest := ReadTail(s, p);
      points := points + rest;
    } else {
      PointsEnd(s, p);
    }
  }

  /** The last bytes, read from a buffer of seven. */
  method ReadTail(s: seq<bv8>, p: nat) returns (points: seq<Point>)
    requires p < |s| && |s| - p <= 3
    ensures points == Points(s, p)
  {
    hide *;
    points := [];
    var left := |s| - p;
    var buf := new bv8[7](_ => 0);
    for i := 0 to left
      invariant forall j :: 0 <= j < i ==> buf[j] == s[p + j]
      invariant forall j :: i <= j < 7 ==> buf[j] == 0
    {
      buf[i] := s[p + i];
    }
    ghost var padded := buf[..];
    ZerosBehind(s, p, left, padded);
    var q := 0;
    while true
      invariant 0 <= q < left && buf[..] == padded && points + Points(s, p + q) == Points(s, p)
      decreases left - q
    {
      BlockAtTheEnd(s, p, q, padded);
      OnePoint(s, p + q, buf[q], buf[q + 1], buf[q + 2], buf[q + 3], points);
      points := points + [Decode(buf[q], buf[q + 1], buf[q + 2], buf[q + 3])];
      q := q + CodePointLength(buf[q]);
      if q >= left {
        PointsEnd(s, p + q);
        break;
      }
    }
  }

  lemma OnePoint(s: seq<bv8>, p: nat, b0: bv8, b1: bv8, b2: bv8, b3: bv8, points: seq<Point>)
    requires p < |s| && [b0, b1, b2, b3] == Block(s, p)
    ensures points + [Decode(b0, b1, b2, b3)] + Points(s, p + CodePointLength(b0)) == points + Points(s, p)
  {
    hide Decode, CodePointLength;
    var block := Block(s, p);
    assert b0 == block[0] && b1 == block[1] && b2 == block[2] && b3 == block[3];
  }

  predicate Padded(s: seq<bv8>, p: nat, buf: seq<bv8>) {
    forall j {:trigger buf[j]} :: 0 <= j < |buf| ==> buf[j] == At(s, p + j)
  }

  lemma PointsEnd(s: seq<bv8>, p: nat)
    requires p >= |s|
    ensures Points(s, p) == []
  {
  }

  lemma ZerosBehind(s: seq<bv8>, p: nat, left: nat, buf: seq<bv8>)
    requires p + left == |s| && left <= 3 && |buf| == 7
    requires forall j :: 0 <= j < left ==> buf[j] == s[p + j]
    requires forall j :: left <= j < 7 ==> buf[j] == 0
    ensures Padded(s, p, buf)
  {
  }

  lemma BlockWithin(s: seq<bv8>, p: nat)
    requires p + 4 <= |s|
    ensures Block(s, p) == [s[p], s[p + 1], s[p + 2], s[p + 3]]
  {
  }

  /** Seven bytes that start with the rest of the text and go on with zeros stand for every block up to its end. */
  lemma BlockAtTheEnd(s: seq<bv8>, p: nat, q: nat, buf: seq<bv8>)
    requires |buf| == 7 && q < |s| - p <= 3
    requires Padded(s, p, buf)
    ensures Block(s, p + q) == [buf[q], buf[q + 1], buf[q + 2], buf[q + 3]]
  {
  }

  function PointsOf(cs: seq<bv32>): (points: seq<Point>)
    ensures |points| == |cs|
  {
    seq(|cs|, i requires 0 <= i < |cs| => Point(cs[i], 0))
  }

  function Block(s: seq<bv8>, p: nat): seq<bv8> {
    [At(s, p), At(s, p + 1), At(s, p + 2), At(s, p + 3)]
  }

  lemma FirstOfEncoded(bytes: seq<bv8>, rest: seq<bv8>, s: seq<bv8>, p: nat)
    requires p <= |s| && s[p..] == bytes + rest && 1 <= |bytes| <= 4
    ensures p + |bytes| <= |s| && s[p + |bytes|..] == rest && bytes <= Block(s, p)
  {
    var n := |bytes|;
    assert s[p..][n..] == rest;
    assert s[p + n..] == s[p..][n..];
    forall i | 0 <= i < n
      ensures At(s, p + i) == bytes[i]
    {
      assert s[p + i] == s[p..][i];
    }
  }

  /** The first code point of an encoded text. */
  lemma ReadFirst(cs: seq<bv32>, s: seq<bv8>, p: nat)
    requires Scalars(cs) && cs != [] && p <= |s| && s[p..] == EncodeAll(cs)
    ensures var n := |Encode(cs[0])|;
            && 0 < n && p + n <= |s| && s[p + n..] == EncodeAll(cs[1..])
            && DecodeAt(s, p) == Point(cs[0], 0) && CodePointLength(s[p]) == n && !Stray(s[p])
  {
    hide Decode, CodePointLength, Encode, Stray;
    EncodeSize(cs[0]);
    FirstOfEncoded(Encode(cs[0]), EncodeAll(cs[1..]), s, p);
    DecodePrefix(cs[0], Block(s, p));
  }

  /** Encoded scalar values are read back without error and without stray bytes. */
  lemma {:induction false} ReadEncoded(cs: seq<bv32>, s: seq<bv8>, p: nat)
    requires Scalars(cs) && p <= |s| && s[p..] == EncodeAll(cs)
    ensures Points(s, p) == PointsOf(cs) && Clean(s, p)
  {
    hide *;
    if cs == [] {
      NothingToRead(s, p);
    } else {
      ReadFirst(cs, s, p);
      ScalarsTail(cs);
      var next := p + |Encode(cs[0])|;
      ReadEncoded(cs[1..], s, next);
      ReadStep(s, p, next);
      PointsOfFirst(cs);
    }
  }

  lemma NothingToRead(s: seq<bv8>, p: nat)
    requires p <= |s| && s[p..] == EncodeAll([])
    ensures Points(s, p) == PointsOf([]) && Clean(s, p)
  {
    hide DecodeAt, CodePointLength;
    assert |s[p..]| == 0;
  }

  lemma ScalarsTail(cs: seq<bv32>)
    requires cs != [] && Scalars(cs)
    ensures Scalars(cs[1..]) && Scalar(cs[0])
  {
    hide Scalar;
  }

  lemma ReadStep(s: seq<bv8>, p: nat, next: nat)
    requires p < next <= |s| && CodePointLength(s[p]) == next - p && !Stray(s[p]) && DecodeAt(s, p).error == 0 && Clean(s, next)
    ensures Points(s, p) == [DecodeAt(s, p)] + Points(s, next) && Clean(s, p)
  {
    hide DecodeAt, CodePointLength, Stray;
  }

  lemma PointsOfFirst(cs: seq<bv32>)
    requires cs != []
    ensures PointsOf(cs) == [Point(cs[0], 0)] + PointsOf(cs[1..])
  {
  }

  lemma EncodeSize(c: bv32)
    requires Scalar(c)
    ensures 1 <= |Encode(c)| <= 4
    ensures forall i :: 1 <= i < |Encode(c)| ==> Encode(c)[i] != 0
  {
    hide Lead2, Lead3, Lead4;
  }

  /** Reading meets no error and no stray byte. */
  predicate Clean(s: seq<bv8>, p: nat)
    decreases |s| - p
  {
    p >= |s| || (!Stray(s[p]) && DecodeAt(s, p).error == 0 && Clean(s, p + CodePointLength(s[p])))
  }

  function CodePoints(points: seq<Point>): (cs: seq<bv32>)
    ensures |cs| == |points|
  {
    seq(|points|, i requires 0 <= i < |points| => points[i].cp)
  }

  /** A clean block within a text is the encoding of a scalar value, and lies within the text. */
  lemma CleanFirst(s: seq<bv8>, p: nat)
    requires p < |s| && !Stray(s[p]) && DecodeAt(s, p).error == 0
    ensures var c, n := DecodeAt(s, p).cp, CodePointLength(s[p]);
            Scalar(c) && p + n <= |s| && Encode(c) == s[p..p + n]
  {
    hide Decode, CodePointLength, Encode, Stray, Scalar;
    var c, n := DecodeAt(s, p).cp, CodePointLength(s[p]);
    NoErrorMeansEncoded(At(s, p), At(s, p + 1), At(s, p + 2), At(s, p + 3));
    EncodeSize(c);
    PrefixOfBlock(Encode(c), s, p);
  }

  lemma PrefixOfBlock(bytes: seq<bv8>, s: seq<bv8>, p: nat)
    requires p < |s| && 1 <= |bytes| && bytes <= Block(s, p)
    requires forall i :: 1 <= i < |bytes| ==> bytes[i] != 0
    ensures p + |bytes| <= |s| && bytes == s[p..p + |bytes|]
  {
    var n := |bytes|;
    assert bytes[n - 1] == Block(s, p)[n - 1] == At(s, p + n - 1);
    assert forall i :: 0 <= i < n ==> bytes[i] == Block(s, p)[i] == At(s, p + i);
  }

  lemma EncodedFirst(c: bv32, rest: seq<bv32>)
    requires Scalar(c) && Scalars(rest)
    ensures Scalars([c] + rest) && EncodeAll([c] + rest) == Encode(c) + EncodeAll(rest)
  {
    assert ([c] + rest)[1..] == rest;
  }

  lemma CodePointsFirst(s: seq<bv8>, p: nat)
    requires p < |s|
    ensures CodePoints(Points(s, p)) == [DecodeAt(s, p).cp] + CodePoints(Points(s, p + CodePointLength(s[p])))
  {
    hide Decode, DecodeAt, CodePointLength;
  }

  lemma {:induction false} CleanMeansEncoded(s: seq<bv8>, p: nat)
    requires p <= |s| && Clean(s, p)
    ensures var cs := CodePoints(Points(s, p)); Scalars(cs) && s[p..] == EncodeAll(cs)
    decreases |s| - p
  {
    if p == |s| {
      assert s[p..] == [];
    } else {
      var c, n := DecodeAt(s, p).cp, CodePointLength(s[p]);
      assert !Stray(s[p]) && DecodeAt(s, p).error == 0 && Clean(s, p + n);
      hide *;
      CleanFirst(s, p);
      CleanMeansEncoded(s, p + n);
      CodePointsFirst(s, p);
      EncodedFirst(c, CodePoints(Points(s, p + n)));
      SplitAt(s, p, n);
    }
  }

  lemma SplitAt(s: seq<bv8>, p: nat, n: nat)
    requires p + n <= |s|
    ensures s[p..] == s[p..p + n] + s[p + n..]
  {
  }

  /** The texts that are read without error and without stray bytes are exactly the encodings of scalar values, and
      reading gives those back. */
  lemma CleanExactly(s: seq<bv8>)
    ensures Clean(s, 0) <==> exists cs :: Scalars(cs) && s == EncodeAll(cs)
    ensures forall cs :: Scalars(cs) && s == EncodeAll(cs) ==> Points(s, 0) == PointsOf(cs)
  {
    assert s[0..] == s;
    if Clean(s, 0) {
      CleanMeansEncoded(s, 0);
    }
    forall cs | Scalars(cs) && s == EncodeAll(cs)
      ensures Clean(s, 0) && Points(s, 0) == PointsOf(cs)
    {
      ReadEncoded(cs, s, 0);
    }
  }

  /** A lone continuation byte is read as a null character, without an error. */
  lemma LoneContinuationByte()
    ensures Points([0x80], 0) == [Point(0, 0)]
    ensures !exists cs :: Scalars(cs) && [0x80] == EncodeAll(cs)
  {
    StrayIsNotReported(0x80, 0, 0, 0);
    CleanExactly([0x80]);
  }

  /** Examples of section 7 of RFC 3629. */
  lemma StandardExamples()
    ensures Encode(0x41) == [0x41] && Encode(0x391) == [0xCE, 0x91] && Encode(0x2262) == [0xE2, 0x89, 0xA2]
    ensures Encode(0x233B4) == [0xF0, 0xA3, 0x8E, 0xB4]
  {
  }
}
