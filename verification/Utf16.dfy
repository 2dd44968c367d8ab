/** Surrogate pairs: UTF-8 to UTF-16, and UTF-16 or UTF-32 code units to UTF-8. */
module Utf16 {
  import opened Utf8
  import opened Wrappers

  /** A code point as UTF-16 code units. */
  function Split(c: bv32): seq<bv32>
    requires c <= 0x10FFFF
  {
    if c <= 0xFFFF then [c] else [Upper(c), Lower(c)]
  }

  function Upper(c: bv32): bv32 { 0xD800 + ((c - 0x10000) >> 10) }

  function Lower(c: bv32): bv32 { 0xDC00 + ((c - 0x10000) & 0x3FF) }

  predicate CodeSpace(cs: seq<bv32>) {
    forall i :: 0 <= i < |cs| ==> cs[i] <= 0x10FFFF
  }

  function SplitAll(cs: seq<bv32>): seq<bv32>
    requires CodeSpace(cs)
  {
    if cs == [] then [] else Split(cs[0]) + SplitAll(cs[1..])
  }

  lemma {:induction false} SplitSnoc(cs: seq<bv32>, c: bv32)
    requires CodeSpace(cs) && c <= 0x10FFFF
    ensures SplitAll(cs + [c]) == SplitAll(cs) + Split(c)
  {
    hide Split;
    if cs == [] {
      assert [c][1..] == [];
    } else {
      SplitSnoc(cs[1..], c);
      assert (cs + [c])[1..] == cs[1..] + [c];
    }
  }

  predicate HighSurrogate(u: bv32) {
    (u & 0xFC00) == 0xD800
  }

  predicate LowSurrogate(u: bv32) {
    (u & 0xFC00) == 0xDC00
  }

  predicate Surrogate(u: bv32) {
    0xD800 <= u <= 0xDFFF
  }

  /** The rejoining formula, in 32-bit arithmetic. */
  function JoinPair(h: bv32, l: bv32): bv32 {
    (h << 10) + l - 0x35FDC00
  }

  predicate Unit16(u: bv32) {
    u <= 0xFFFF
  }

  lemma JoinSplit(c: bv32)
    requires 0x10000 <= c <= 0x10FFFF
    ensures JoinPair(Upper(c), Lower(c)) == c
  {
  }

  lemma UpperMarks(c: bv32)
    requires 0x10000 <= c <= 0x10FFFF
    ensures Unit16(Upper(c)) && HighSurrogate(Upper(c)) && Surrogate(Upper(c))
  {
  }

  lemma LowerMarks(c: bv32)
    ensures Unit16(Lower(c)) && LowSurrogate(Lower(c))
  {
  }

  /** Rejoining undoes splitting, and splitting undoes rejoining. */
  lemma PairsJoin(c: bv32)
    requires 0x10000 <= c <= 0x10FFFF
    ensures var h, l := Upper(c), Lower(c);
            && Unit16(h) && Unit16(l) && HighSurrogate(h) && LowSurrogate(l) && Surrogate(h) && JoinPair(h, l) == c
  {
    hide *;
    JoinSplit(c);
    UpperMarks(c);
    LowerMarks(c);
  }

  lemma PairsSplit(h: bv32, l: bv32)
    requires Unit16(h) && Unit16(l) && HighSurrogate(h) && LowSurrogate(l)
    ensures var c := JoinPair(h, l); 0x10000 <= c <= 0x10FFFF && Scalar(c) && Upper(c) == h && Lower(c) == l
  {
  }

  // From UTF-8 to UTF-16.

  predicate AllRead(points: seq<Point>) {
    forall i :: 0 <= i < |points| ==> points[i].error == 0
  }

  /** Without an error, even after a stray byte, what the decoder returns is in the code space. */
  lemma ReadInCodeSpace(b0: bv8, b1: bv8, b2: bv8, b3: bv8)
    requires Decode(b0, b1, b2, b3).error == 0
    ensures Decode(b0, b1, b2, b3).cp <= 0x10FFFF
  {
    hide Decode;
    if Stray(b0) {
      StrayIsNotReported(b0, b1, b2, b3);
      assert (b0 & 0x7F) as bv32 <= 0x7F;
    } else {
      NoErrorMeansEncoded(b0, b1, b2, b3);
    }
  }

  lemma {:induction false} PointsInCodeSpace(s: seq<bv8>, p: nat)
    ensures forall i :: 0 <= i < |Points(s, p)| && Points(s, p)[i].error == 0 ==> Points(s, p)[i].cp <= 0x10FFFF
    decreases |s| - p
  {
    hide Decode, CodePointLength;
    if p < |s| {
      PointsInCodeSpace(s, p + CodePointLength(s[p]));
      if DecodeAt(s, p).error == 0 {
        ReadInCodeSpace(At(s, p), At(s, p + 1), At(s, p + 2), At(s, p + 3));
      }
    }
  }

  /** The first `i` points carry no error and have become the code units in the buffer. */
  ghost predicate Converted(points: seq<Point>, i: nat, buffer: seq<bv32>) {
    && i <= |points| && AllRead(points[..i])
    && CodeSpace(CodePoints(points[..i])) && buffer == SplitAll(CodePoints(points[..i]))
  }

  lemma OneMore(points: seq<Point>, i: nat, buffer: seq<bv32>)
    requires i < |points| && Converted(points, i, buffer) && points[i].cp <= 0x10FFFF && points[i].error == 0
    ensures Converted(points, i + 1, buffer + Split(points[i].cp))
  {
    hide Split;
    assert points[..i + 1] == points[..i] + [points[i]];
    assert CodePoints(points[..i + 1]) == CodePoints(points[..i]) + [points[i].cp];
    SplitSnoc(CodePoints(points[..i]), points[i].cp);
  }

  ghost function ToUtf16(points: seq<Point>): Result<seq<bv32>> {
    if AllRead(points) && CodeSpace(CodePoints(points)) then Ok(SplitAll(CodePoints(points)) + [0]) else Error
  }

  /** Stops at the first error; otherwise the code units end with a zero. The value returned by the decoder is taken as
      it is, so a stray byte gives a code unit too. */
  method Utf8ToUtf16(s: seq<bv8>) returns (r: Result<seq<bv32>>)
    ensures r == ToUtf16(Points(s, 0))
  {
    hide *;
    var points := ForEachCodepoint(s);
    PointsInCodeSpace(s, 0);
    var buffer: seq<bv32> := [];
    var i := 0;
    NoneYet(points);
    while i < |points|
      invariant 0 <= i <= |points| && Converted(points, i, buffer)
    {
      if points[i].error != 0 {
        NotAllRead(points, i);
        return Error;
      }
      OneMore(points, i, buffer);
      buffer := PushUnits(buffer, points[i].cp);
      i := i + 1;
    }
    AllConverted(points, buffer);
    return Ok(buffer + [0]);
  }

  method PushUnits(buffer: seq<bv32>, codePoint: bv32) returns (r: seq<bv32>)
    requires codePoint <= 0x10FFFF
    ensures r == buffer + Split(codePoint)
  {
    var cp := codePoint;
    if cp <= 0xFFFF {
      r := buffer + [cp];
    } else {
      cp := cp - 0x10000;
      r := buffer + [0xD800 + (cp >> 10)];
      r := r + [0xDC00 + (cp & 0x3FF)];
      assert r == buffer + Split(codePoint);
    }
  }

  lemma NotAllRead(points: seq<Point>, i: nat)
    requires i < |points| && points[i].error != 0
    ensures ToUtf16(points) == Error
  {
  }

  lemma NoneYet(points: seq<Point>)
    ensures Converted(points, 0, [])
  {
  }

  lemma AllConverted(points: seq<Point>, buffer: seq<bv32>)
    requires Converted(points, |points|, buffer)
    ensures ToUtf16(points) == Ok(buffer + [0])
  {
    assert points[..|points|] == points;
  }

  // From code units to UTF-8.

  /** The code units of scalar values, in UTF-32 or in UTF-16. */
  function Units(cs: seq<bv32>, wide: bool): seq<bv32>
    requires Scalars(cs)
  {
    if wide then cs else SplitAll(cs)
  }

  /** Narrow code units have 16 bits. */
  predicate Fit(units: seq<bv32>, wide: bool) {
    wide || forall i :: 0 <= i < |units| ==> Unit16(units[i])
  }

  /** The scalar value that the first code units stand for, and how many they are. */
  function Head(units: seq<bv32>, wide: bool): (r: Result<(bv32, nat)>)
    requires units != [] && Fit(units, wide)
    ensures r.Ok? ==> Scalar(r.value.0) && 1 <= r.value.1 <= |units|
  {
    if !wide && Surrogate(units[0]) then
      if |units| >= 2 && HighSurrogate(units[0]) && LowSurrogate(units[1]) then
        PairsSplit(units[0], units[1]);
        Ok((JoinPair(units[0], units[1]), 2))
      else Error
    else if Scalar(units[0]) then Ok((units[0], 1))
    else Error
  }

  function Join(units: seq<bv32>, wide: bool): (r: Result<seq<bv32>>)
    requires Fit(units, wide)
    ensures r.Ok? ==> Scalars(r.value)
  {
    if units == [] then Ok([])
    else
      var head := Head(units, wide);
      if head.Ok? then After([head.value.0], Join(units[head.value.1..], wide)) else Error
  }

  function After(done: seq<bv32>, r: Result<seq<bv32>>): Result<seq<bv32>> {
    if r.Ok? then Ok(done + r.value) else Error
  }

  lemma HeadFaithful(units: seq<bv32>, wide: bool, rest: seq<bv32>)
    requires units != [] && Fit(units, wide) && Head(units, wide).Ok? && Scalars(rest)
    ensures var (c, n) := Head(units, wide).value;
            Units([c] + rest, wide) == units[..n] + Units(rest, wide)
  {
    hide Scalar, HighSurrogate, LowSurrogate, Surrogate, JoinPair, Upper, Lower;
    var (c, n) := Head(units, wide).value;
    if !wide {
      InCodeSpace([c]);
      InCodeSpace(rest);
      assert [c][0] <= 0x10FFFF;
      SplitFirst(c, rest);
      if Surrogate(units[0]) {
        PairsSplit(units[0], units[1]);
      } else {
        assert Unit16(units[0]);
      }
    }
  }

  lemma InCodeSpace(cs: seq<bv32>)
    requires Scalars(cs)
    ensures CodeSpace(cs)
  {
  }

  lemma {:induction false} JoinFaithful(units: seq<bv32>, wide: bool)
    requires Fit(units, wide) && Join(units, wide).Ok?
    ensures Units(Join(units, wide).value, wide) == units
  {
    hide Scalar, Head, Units, Unit16, Scalars;
    if units == [] {
      NoUnits(wide);
    } else {
      var (c, n) := Head(units, wide).value;
      JoinFaithful(units[n..], wide);
      HeadFaithful(units, wide, Join(units[n..], wide).value);
      assert units == units[..n] + units[n..];
    }
  }

  lemma NoUnits(wide: bool)
    ensures Units([], wide) == []
  {
  }

  lemma SplitFirst(c: bv32, rest: seq<bv32>)
    requires c <= 0x10FFFF && CodeSpace(rest)
    ensures SplitAll([c] + rest) == Split(c) + SplitAll(rest)
  {
    assert ([c] + rest)[1..] == rest;
  }

  lemma {:induction false} JoinComplete(cs: seq<bv32>, wide: bool)
    requires Scalars(cs)
    ensures Fit(Units(cs, wide), wide) && Join(Units(cs, wide), wide) == Ok(cs)
  {
    hide HighSurrogate, LowSurrogate, Surrogate, JoinPair, Upper, Lower, Unit16;
    if cs == [] {
    } else {
      JoinComplete(cs[1..], wide);
      var c, units := cs[0], Units(cs, wide);
      assert cs == [c] + cs[1..];
      if wide || c <= 0xFFFF {
        NotSurrogate(c);
        assert Head(units, wide) == Ok((c, 1));
        assert units[1..] == Units(cs[1..], wide);
      } else {
        PairsJoin(c);
        assert units[2..] == Units(cs[1..], wide);
      }
    }
  }

  lemma NotSurrogate(c: bv32)
    requires Scalar(c)
    ensures !Surrogate(c) && (c <= 0xFFFF ==> Unit16(c))
  {
  }

  /** Code units stand for scalar values exactly if they are the units of those values. */
  lemma JoinExactly(units: seq<bv32>, wide: bool, cs: seq<bv32>)
    requires Fit(units, wide)
    ensures Join(units, wide) == Ok(cs) <==> Scalars(cs) && units == Units(cs, wide)
  {
    hide Join, Units;
    if Join(units, wide) == Ok(cs) {
      JoinFaithful(units, wide);
    }
    if Scalars(cs) && units == Units(cs, wide) {
      JoinComplete(cs, wide);
    }
  }

  /** Appends the bytes of a code point, unless it is a surrogate or beyond the code space. */
  method Append(str: seq<bv8>, c: bv32) returns (r: Result<seq<bv8>>)
    ensures r == if Scalar(c) then Ok(str + Encode(c)) else Error
  {
    hide Byte;
    if c < 0x80 {
      r := Ok(str + [Byte(c)]);
    } else if c < 0x800 {
      var first := str + [Byte(0xC0 | (c >> 6))];
      r := Ok(first + [Byte(0x80 | (c & 0x3F))]);
      assert r.value == str + Encode(c);
    } else if (c >= 0x800 && c <= 0xD7FF) || (c >= 0xE000 && c <= 0xFFFF) {
      var first := str + [Byte(0xE0 | (c >> 12))];
      var second := first + [Byte(0x80 | ((c & 0xFFF) >> 6))];
      r := Ok(second + [Byte(0x80 | (c & 0x3F))]);
      assert r.value == str + Encode(c);
    } else if c >= 0x10000 && c <= 0x10FFFF {
      var first := str + [Byte(0xF0 | (c >> 18))];
      var second := first + [Byte(0x80 | ((c & 0x3FFFF) >> 12))];
      var third := second + [Byte(0x80 | ((c & 0xFFF) >> 6))];
      r := Ok(third + [Byte(0x80 | (c & 0x3F))]);
      assert r.value == str + Encode(c);
    } else {
      r := Error;
    }
  }

  /** The units before `p` are written. */
  ghost predicate Written(units: seq<bv32>, wide: bool, p: nat, done: seq<bv32>, str: seq<bv8>)
    requires Fit(units, wide)
  {
    && p <= |units| && Scalars(done) && str == EncodeAll(done) && Fit(units[p..], wide)
    && Join(units, wide) == After(done, Join(units[p..], wide))
  }

  lemma NothingWritten(units: seq<bv32>, wide: bool)
    requires Fit(units, wide)
    ensures Written(units, wide, 0, [], [])
  {
    assert units[0..] == units;
    var r := Join(units, wide);
    if r.Ok? {
      assert [] + r.value == r.value;
    }
  }

  /** What happens at `p`, in terms of the units there. */
  lemma WriteNext(units: seq<bv32>, wide: bool, p: nat, done: seq<bv32>, str: seq<bv8>)
    requires Fit(units, wide) && Written(units, wide, p, done, str) && p < |units|
    ensures !wide && Surrogate(units[p]) ==>
              if p + 1 < |units| && HighSurrogate(units[p]) && LowSurrogate(units[p + 1])
              then var c := JoinPair(units[p], units[p + 1]);
                   Scalar(c) && Written(units, wide, p + 2, done + [c], str + Encode(c))
              else Join(units, wide) == Error
    ensures wide || !Surrogate(units[p]) ==>
              if Scalar(units[p])
              then Written(units, wide, p + 1, done + [units[p]], str + Encode(units[p]))
              else Join(units, wide) == Error
  {
    hide Scalar, Encode, EncodeAll, Surrogate, HighSurrogate, LowSurrogate, JoinPair, Unit16;
    var head := Head(units[p..], wide);
    if head.Ok? {
      EncodeSnoc(done, head.value.0);
      assert units[p..][head.value.1..] == units[p + head.value.1..];
      AfterAfter(done, head.value.0, Join(units[p + head.value.1..], wide));
    }
  }

  lemma AfterAfter(done: seq<bv32>, c: bv32, r: Result<seq<bv32>>)
    ensures After(done, After([c], r)) == After(done + [c], r)
  {
    if r.Ok? {
      assert done + ([c] + r.value) == done + [c] + r.value;
    }
  }

  lemma AllWritten(units: seq<bv32>, wide: bool, done: seq<bv32>, str: seq<bv8>)
    requires Fit(units, wide) && Written(units, wide, |units|, done, str)
    ensures Join(units, wide).Ok? && str == EncodeAll(Join(units, wide).value)
  {
    assert done + [] == done;
  }

  /** Writes code units as UTF-8, joining surrogate pairs if the units are narrow. A lone surrogate, and a unit beyond the
      code space, is an error. */
  method DoWrite(units: seq<bv32>, wide: bool) returns (r: Result<seq<bv8>>)
    requires Fit(units, wide)
    ensures r == if Join(units, wide).Ok? then Ok(EncodeAll(Join(units, wide).value)) else Error
  {
    hide *;
    var str: seq<bv8> := [];
    ghost var done: seq<bv32> := [];
    var p := 0;
    NothingWritten(units, wide);
    while p < |units|
      invariant 0 <= p <= |units| && Written(units, wide, p, done, str)
    {
      WriteNext(units, wide, p, done, str);
      var c := units[p];
      if !wide && Surrogate(c) {
        p := p + 1;
        if p == |units| || !HighSurrogate(c) || !LowSurrogate(units[p]) {
          return Error;
        }
        c := JoinPair(c, units[p]);
      }
      var appended := Append(str, c);
      if appended.Error? {
        return Error;
      }
      done, str := done + [c], appended.value;
      p := p + 1;
    }
    AllWritten(units, wide, done, str);
    return Ok(str);
  }

  /** Every text of scalar values makes the trip from UTF-8 to UTF-16 or UTF-32 and back unchanged. */
  lemma TextsMakeTheRoundTrip(cs: seq<bv32>, wide: bool)
    requires Scalars(cs)
    ensures var bytes := EncodeAll(cs);
            && AllRead(Points(bytes, 0)) && CodePoints(Points(bytes, 0)) == cs
            && Fit(Units(cs, wide), wide) && Join(Units(cs, wide), wide) == Ok(cs)
  {
    var bytes := EncodeAll(cs);
    assert bytes[0..] == bytes;
    ReadEncoded(cs, bytes, 0);
    JoinComplete(cs, wide);
    hide *;
    assert CodePoints(PointsOf(cs)) == cs by { CodePointsOfPoints(cs); }
    assert AllRead(PointsOf(cs)) by { CodePointsOfPoints(cs); }
  }

  lemma CodePointsOfPoints(cs: seq<bv32>)
    ensures CodePoints(PointsOf(cs)) == cs && AllRead(PointsOf(cs))
  {
  }

  /** An example of section 5 of RFC 2781. */
  lemma StandardExample()
    ensures Split(0x12345) == [0xD808, 0xDF45] && JoinPair(0xD808, 0xDF45) == 0x12345
  {
  }
}
