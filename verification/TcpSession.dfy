/** Reassembly of packets from a byte stream that arrives in arbitrary pieces. */
module TcpSession {
  type Byte = x: int | 0 <= x < 256

  /** A packet with its header, as it is handed to its handler. */
  type Packet = seq<Byte>

  const MAX_INPUT_SIZE: nat := 512

  const HANDSHAKE: Byte := 0x00
  const PONG: Byte := 0x01
  const WEATHER_STATUS: Byte := 0x02

  datatype ResultType = Good | Bad | Indeterminate

  /** The size of a packed packet by its id, or zero for an unknown id. */
  function SizeByPacketId(id: Byte): (size: nat)
    ensures size <= 30
  {
    if id == HANDSHAKE then 18
    else if id == PONG then 1
    else if id == WEATHER_STATUS then 30
    else 0
  }

  predicate Known(id: Byte) {
    id == HANDSHAKE || id == PONG || id == WEATHER_STATUS
  }

  /** The sizes of the packed fields: the header byte first, then identifiers, measurements and flags. */
  function Fields(id: Byte): seq<nat> {
    if id == HANDSHAKE then [1, 16, 1]
    else if id == PONG then [1]
    else if id == WEATHER_STATUS then [1, 16, 4, 4, 4, 1]
    else []
  }

  function Sum(sizes: seq<nat>): nat {
    if sizes == [] then 0 else sizes[0] + Sum(sizes[1..])
  }

  /** A packet is as long as its fields together; only known packets have a size, which covers at least the header. */
  lemma SizeOfFields(id: Byte)
    ensures SizeByPacketId(id) == Sum(Fields(id)) && (SizeByPacketId(id) > 0 <==> Known(id))
  {
    assert [1, 16, 4, 4, 4, 1][1..] == [16, 4, 4, 4, 1] && [16, 4, 4, 4, 1][1..] == [4, 4, 4, 1];
    assert [4, 4, 4, 1][1..] == [4, 4, 1] && [4, 4, 1][1..] == [4, 1] && [4, 1][1..] == [1] && [1][1..] == [];
    assert [1, 16, 1][1..] == [16, 1] && [16, 1][1..] == [1];
  }

  // The whole stream at once.

  /** The packets of a stream, what is left behind them, and whether it starts with an unknown id. */
  datatype Parsed = Parsed(packets: seq<Packet>, rest: seq<Byte>, bad: bool)

  function Parse(stream: seq<Byte>): Parsed {
    if stream == [] then Parsed([], [], false)
    else
      var size := SizeByPacketId(stream[0]);
      if |stream| < size then Parsed([], stream, false)
      else if !Known(stream[0]) then Parsed([], stream, true)
      else
        var tail := Parse(stream[size..]);
        tail.(packets := [stream[..size]] + tail.packets)
  }

  function Flatten(packets: seq<Packet>): seq<Byte> {
    if packets == [] then [] else packets[0] + Flatten(packets[1..])
  }

  predicate Complete(p: Packet) {
    p != [] && Known(p[0]) && |p| == SizeByPacketId(p[0])
  }

  /** The three cases for the front of a stream. */
  predicate Short(stream: seq<Byte>) {
    stream != [] && |stream| < SizeByPacketId(stream[0])
  }

  predicate Whole(stream: seq<Byte>) {
    stream != [] && Known(stream[0]) && SizeByPacketId(stream[0]) <= |stream|
  }

  predicate Unknown(stream: seq<Byte>) {
    stream != [] && !Known(stream[0])
  }

  lemma ParseCases(stream: seq<Byte>)
    ensures stream == [] ==> Parse(stream) == Parsed([], [], false)
    ensures Short(stream) ==> Parse(stream) == Parsed([], stream, false)
    ensures Unknown(stream) ==> Parse(stream) == Parsed([], stream, true)
    ensures Whole(stream) ==>
              var size := SizeByPacketId(stream[0]);
              0 < size <= |stream| && Parse(stream) == After([stream[..size]], Parse(stream[size..]))
    ensures stream == [] || Short(stream) || Unknown(stream) || Whole(stream)
  {
  }

  lemma FrontOfConcat(first: seq<Byte>, more: seq<Byte>)
    ensures Unknown(first) ==> Unknown(first + more)
    ensures Whole(first) ==>
              var size := SizeByPacketId(first[0]);
              && size <= |first| && Whole(first + more) && (first + more)[0] == first[0]
              && (first + more)[..size] == first[..size] && (first + more)[size..] == first[size..] + more
  {
  }

  /** Every byte is in exactly one packet or left over, every packet is complete, and what is left over is shorter than
      the packet it begins, or begins with an unknown id. */
  lemma {:induction false} ParseIsExact(stream: seq<Byte>)
    ensures var p := Parse(stream);
            && stream == Flatten(p.packets) + p.rest
            && (forall i :: 0 <= i < |p.packets| ==> Complete(p.packets[i]))
            && (p.bad <==> Unknown(p.rest)) && (!p.bad && p.rest != [] ==> Short(p.rest))
  {
    ParseCases(stream);
    hide Parse, Short, Unknown, SizeByPacketId, Known;
    if Whole(stream) {
      var size := SizeByPacketId(stream[0]);
      ParseIsExact(stream[size..]);
      FlattenFirst(stream[..size], Parse(stream[size..]).packets);
      assert stream == stream[..size] + stream[size..];
    }
  }

  lemma FlattenFirst(p: Packet, packets: seq<Packet>)
    ensures Flatten([p] + packets) == p + Flatten(packets)
  {
    assert ([p] + packets)[1..] == packets;
  }

  function After(packets: seq<Packet>, p: Parsed): Parsed {
    p.(packets := packets + p.packets)
  }

  lemma AfterAfter(before: seq<Packet>, packets: seq<Packet>, p: Parsed)
    ensures After(before, After(packets, p)) == After(before + packets, p)
    ensures After([], p) == p && After(before, Parsed([], p.rest, p.bad)) == Parsed(before, p.rest, p.bad)
  {
    assert before + (packets + p.packets) == before + packets + p.packets;
  }

  /** What parsing becomes when more bytes arrive. */
  function Resume(p: Parsed, more: seq<Byte>): Parsed {
    if p.bad then p.(rest := p.rest + more) else After(p.packets, Parse(p.rest + more))
  }

  /** Parsing can stop anywhere and go on from what was left over when more arrives. */
  lemma {:induction false} ParseInPieces(first: seq<Byte>, more: seq<Byte>)
    ensures Parse(first + more) == Resume(Parse(first), more)
  {
    ParseCases(first);
    ParseCases(first + more);
    FrontOfConcat(first, more);
    AfterAfter([], [], Parse(first + more));
    hide Parse, Short, Unknown, Whole, SizeByPacketId, Known, After;
    if Whole(first) {
      var size := SizeByPacketId(first[0]);
      var tail := Parse(first[size..]);
      ParseInPieces(first[size..], more);
      ResumeAfter([first[..size]], tail, more);
    } else if first == [] {
      assert first + more == more;
    }
  }

  lemma ResumeAfter(packets: seq<Packet>, p: Parsed, more: seq<Byte>)
    ensures Resume(After(packets, p), more) == After(packets, Resume(p, more))
  {
    hide Parse;
    AfterAfter(packets, p.packets, Parse(p.rest + more));
  }

  lemma TakeDrop(before: seq<Byte>, view: seq<Byte>, n: nat)
    requires n <= |view|
    ensures before + view == before + view[..n] + view[n..] && (n == 0 ==> view[n..] == view)
  {
  }

  lemma SliceOfPrefix(s: seq<Byte>, size: nat, from: nat)
    requires from <= size <= |s|
    ensures s[from..size] == s[..size][from..]
  {
  }

  // On the wire.

  /** A packet by its bytes: 18 that begin with 0, the single byte 1, or 30 that begin with 2. */
  predicate OnWire(p: seq<Byte>) {
    (|p| == 18 && p[0] == 0) || (|p| == 1 && p[0] == 1) || (|p| == 30 && p[0] == 2)
  }

  /** What the first byte of a stream says. */
  lemma WireFormat(stream: seq<Byte>)
    requires stream != []
    ensures stream[0] == 0 && |stream| >= 18 ==> Parse(stream) == After([stream[..18]], Parse(stream[18..]))
    ensures stream[0] == 1 ==> Parse(stream) == After([[1]], Parse(stream[1..]))
    ensures stream[0] == 2 && |stream| >= 30 ==> Parse(stream) == After([stream[..30]], Parse(stream[30..]))
    ensures (stream[0] == 0 && |stream| < 18) || (stream[0] == 2 && |stream| < 30) ==> Parse(stream) == Parsed([], stream, false)
    ensures stream[0] >= 3 ==> Parse(stream) == Parsed([], stream, true)
  {
    ParseCases(stream);
    if stream[0] == 1 {
      assert stream[..1] == [1];
    }
  }

  /** A stream splits in one way only into packets and a rest that no packet begins. */
  ghost predicate Splits(stream: seq<Byte>, packets: seq<Packet>, rest: seq<Byte>) {
    && stream == Flatten(packets) + rest
    && (forall i :: 0 <= i < |packets| ==> OnWire(packets[i]))
    && (forall n :: 0 <= n <= |rest| ==> !OnWire(rest[..n]))
  }

  lemma SplitsAtFirst(stream: seq<Byte>, packets: seq<Packet>, rest: seq<Byte>)
    requires packets != [] && Splits(stream, packets, rest)
    ensures OnWire(packets[0]) && |packets[0]| <= |stream| && stream[..|packets[0]|] == packets[0]
    ensures Splits(stream[|packets[0]|..], packets[1..], rest)
  {
    var p, tail := packets[0], packets[1..];
    assert stream == p + (Flatten(tail) + rest);
    hide OnWire;
    assert stream[|p|..] == Flatten(tail) + rest;
  }

  lemma {:induction false} SplitsInOneWay(stream: seq<Byte>, packets: seq<Packet>, rest: seq<Byte>)
    requires Splits(stream, packets, rest)
    ensures packets == Parse(stream).packets && rest == Parse(stream).rest
    decreases |packets|
  {
    if packets == [] {
      assert Flatten(packets) + rest == rest;
      NothingWhole(rest);
    } else {
      var p := packets[0];
      SplitsAtFirst(stream, packets, rest);
      SplitsInOneWay(stream[|p|..], packets[1..], rest);
      WireFormat(stream);
      assert packets == [p] + packets[1..];
    }
  }

  lemma NothingWhole(stream: seq<Byte>)
    requires forall n :: 0 <= n <= |stream| ==> !OnWire(stream[..n])
    ensures Parse(stream).packets == [] && Parse(stream).rest == stream
  {
    ParseCases(stream);
    if stream != [] {
      WireFormat(stream);
      hide Parse;
      assert |stream| >= 18 ==> !OnWire(stream[..18]);
      assert !OnWire(stream[..1]);
      assert |stream| >= 30 ==> !OnWire(stream[..30]);
    }
  }

  /** Parsing finds that way, and stops for good exactly at a byte above 2. */
  lemma SplitsExactly(stream: seq<Byte>, packets: seq<Packet>, rest: seq<Byte>)
    ensures Splits(stream, packets, rest) <==> packets == Parse(stream).packets && rest == Parse(stream).rest
    ensures Parse(stream).bad <==> Parse(stream).rest != [] && Parse(stream).rest[0] >= 3
  {
    var p := Parse(stream);
    ParseIsExact(stream);
    forall i | 0 <= i < |p.packets|
      ensures OnWire(p.packets[i])
    {
    }
    forall n | 0 <= n <= |p.rest|
      ensures !OnWire(p.rest[..n])
    {
      RestHasNone(p.rest, n);
    }
    assert Splits(stream, p.packets, p.rest);
    if Splits(stream, packets, rest) {
      SplitsInOneWay(stream, packets, rest);
    }
  }

  lemma RestHasNone(rest: seq<Byte>, n: nat)
    requires n <= |rest| && (rest == [] || Unknown(rest) || Short(rest))
    ensures !OnWire(rest[..n])
  {
  }

  // The session.

  /** What the session waits for: bytes for its buffer from `offset` on, or nothing any more. */
  datatype Read = Waiting(offset: nat, size: nat) | Closed

  class Session {
    const input: array<Byte>
    var numBytesLeft: nat
    var reading: Read
    var handled: seq<Packet>
    ghost var received: seq<Byte>
    ghost var consumed: seq<Byte>
    ghost var bad: bool

    ghost predicate Conserved()
      reads this, input
    {
      && input.Length == MAX_INPUT_SIZE && numBytesLeft <= input.Length
      && received == consumed + input[..numBytesLeft]
    }

    /** Between two events: exactly the packets of the bytes received so far have been handled, and if the session still
        reads, there is room for at least one more byte behind the pending ones. */
    ghost predicate Valid()
      reads this, input
    {
      && Conserved()
      && Parse(received) == Parsed(handled, input[..numBytesLeft], bad)
      && (bad ==> reading == Closed)
      && (reading.Waiting? ==> reading.offset == numBytesLeft && reading.size == input.Length - numBytesLeft > 0)
    }

    constructor ()
      ensures Valid() && fresh(input) && received == [] && handled == [] && !bad && reading == Closed
    {
      input := new Byte[MAX_INPUT_SIZE](_ => 0);
      numBytesLeft := 0;
      reading := Closed;
      handled := [];
      received := [];
      consumed := [];
      bad := false;
    }

    method DoReadPacketHeader()
      requires input.Length == MAX_INPUT_SIZE
      modifies this`reading
      ensures reading == Waiting(0, MAX_INPUT_SIZE)
    {
      reading := Waiting(0, input.Length);
    }

    /** After the handshake was sent. */
    method Run()
      requires Valid() && received == []
      modifies this`reading
      ensures Valid() && reading == Waiting(0, 512)
    {
      DoReadPacketHeader();
    }

    /** A failed read ends the session. */
    method OnReadError()
      requires Valid() && reading.Waiting?
      modifies this`reading
      ensures Valid() && reading == Closed
    {
      reading := Closed;
    }

    /** The read puts its bytes behind the pending ones. */
    method Fill(chunk: seq<Byte>)
      requires numBytesLeft + |chunk| <= input.Length
      modifies input
      ensures input[..numBytesLeft + |chunk|] == old(input[..numBytesLeft]) + chunk
    {
      ghost var pending := input[..numBytesLeft];
      for i := 0 to |chunk|
        invariant forall j :: 0 <= j < numBytesLeft ==> input[j] == pending[j]
        invariant forall j :: 0 <= j < i ==> input[numBytesLeft + j] == chunk[j]
      {
        input[numBytesLeft + i] := chunk[i];
      }
      assert forall j {:trigger (pending + chunk)[j]} :: numBytesLeft <= j < numBytesLeft + |chunk| ==>
          input[j] == input[numBytesLeft + (j - numBytesLeft)] == chunk[j - numBytesLeft];
    }

    /** Some bytes have been read into the free part of the buffer. */
    method OnRead(chunk: seq<Byte>)
      requires Valid() && reading.Waiting? && 0 < |chunk| <= reading.size
      modifies this, input
      ensures Valid() && received == old(received) + chunk
      ensures reading == if bad then Closed else Waiting(numBytesLeft, MAX_INPUT_SIZE - numBytesLeft)
    {
      hide Parse, After;
      ghost var pending := input[..numBytesLeft];
      reading := Closed;
      Fill(chunk);
      ParseInPieces(received, chunk);
      assert received + chunk == consumed + (pending + chunk);
      received := received + chunk;
      // Accumulate the bytes that have been read.
      numBytesLeft := numBytesLeft + |chunk|;
      ParsePacketHeader();
    }

    /** Hands the packet at the front of the buffer to its handler, if it is there. All handlers take it whole, whatever
        they make of its contents. */
    method Handle(id: Byte, size: nat, ghost view: seq<Byte>) returns (status: ResultType, bytesParsed: nat)
      requires 0 < size <= input.Length && id == input[0] && view == input[..size]
      modifies this`handled
      ensures status == Good <==> Whole(view)
      ensures status == Bad <==> Unknown(view)
      ensures status == Indeterminate <==> Short(view)
      ensures status == Good ==> 0 < bytesParsed == SizeByPacketId(view[0]) <= size && handled == old(handled) + [view[..bytesParsed]]
      ensures status != Good ==> bytesParsed == 0 && handled == old(handled)
    {
      var expectedSize := SizeByPacketId(id);
      if size < expectedSize {
        return Indeterminate, 0;
      }
      if id == HANDSHAKE || id == PONG || id == WEATHER_STATUS {
        handled := handled + [input[..expectedSize]];
        assert input[..expectedSize] == view[..expectedSize];
        return Good, expectedSize;
      }
      return Bad, 0;
    }

    /** Moves `length` bytes from `source` to the front. The ranges may overlap. */
    method Move(source: nat, length: nat)
      requires source + length <= input.Length
      modifies input
      ensures input[..length] == old(input[source..source + length])
    {
      ghost var view := input[source..source + length];
      for i := 0 to length
        invariant forall j :: 0 <= j < i ==> input[j] == view[j]
        invariant forall j :: i <= j < length ==> input[source + j] == view[j]
      {
        input[i] := input[source + i];
      }
    }

    /** Handles the packet at the front of the buffer and removes it. */
    method HandleFront() returns (status: ResultType)
      requires Conserved() && numBytesLeft > 0 && Parse(received) == After(handled, Parse(input[..numBytesLeft]))
      modifies this`numBytesLeft, this`handled, this`consumed, input
      ensures Conserved() && Parse(received) == After(handled, Parse(input[..numBytesLeft]))
      ensures status == Good ==> numBytesLeft < old(numBytesLeft)
      ensures status == Bad ==> Unknown(input[..numBytesLeft])
      ensures status == Indeterminate ==> Short(input[..numBytesLeft])
    {
      hide Parse, After, SizeByPacketId, Known, Whole, Short, Unknown;
      ghost var view := input[..numBytesLeft];
      ParseCases(view);
      var id := input[0];
      var bytesParsed;
      status, bytesParsed := Handle(id, numBytesLeft, view);
      AfterAfter(old(handled), [view[..bytesParsed]], Parse(view[bytesParsed..]));
      consumed := consumed + view[..bytesParsed];
      Move(bytesParsed, numBytesLeft - bytesParsed);
      TakeDrop(old(consumed), view, bytesParsed);
      SliceOfPrefix(old(input[..]), old(numBytesLeft), bytesParsed);
      numBytesLeft := numBytesLeft - bytesParsed;
    }

    /** Handles all complete packets in the buffer. */
    method ParsePacketHeader()
      requires Conserved() && numBytesLeft > 0 && reading == Closed && !bad
      requires Parse(received) == After(handled, Parse(input[..numBytesLeft]))
      modifies this, input
      ensures Valid() && received == old(received)
      ensures reading == if bad then Closed else Waiting(numBytesLeft, MAX_INPUT_SIZE - numBytesLeft)
    {
      hide Parse, After, Short, Unknown;
      while numBytesLeft > 0
        invariant Conserved() && numBytesLeft > 0 && reading == Closed && !bad && received == old(received)
        invariant Parse(received) == After(handled, Parse(input[..numBytesLeft]))
        decreases numBytesLeft
      {
        var status := HandleFront();
        ParseCases(input[..numBytesLeft]);
        AfterAfter(handled, [], Parse(input[..numBytesLeft]));
        match status
        case Good =>
          if numBytesLeft > 0 {
            continue;
          }
          assert input[..numBytesLeft] == [];
          DoReadPacketHeader();
          return;
        case Bad =>
          bad := true;
          return;
        case Indeterminate =>
          ShortFits(input[..numBytesLeft]);
          reading := Waiting(numBytesLeft, input.Length - numBytesLeft);
          return;
      }
    }
  }

  lemma ShortFits(stream: seq<Byte>)
    requires Short(stream)
    ensures |stream| < 30
  {
  }

  // Many reads.

  function Concat(chunks: seq<seq<Byte>>): seq<Byte> {
    if chunks == [] then [] else chunks[0] + Concat(chunks[1..])
  }

  /** However the stream is cut into reads, as long as each brings something and fits the buffer, the packets handled are
      those of the whole stream. After an unknown id nothing more is read. */
  method Deliver(stream: seq<Byte>, sizes: seq<nat>) returns (handled: seq<Packet>, taken: nat, closed: bool)
    requires forall i :: 0 <= i < |sizes| ==> sizes[i] > 0
    ensures taken <= |stream| && handled == Parse(stream[..taken]).packets
    ensures closed ==> Parse(stream[..taken]).bad
    ensures closed || taken == |stream| ==> handled == Parse(stream).packets
    ensures |sizes| >= |stream| ==> closed || taken == |stream|
  {
    hide Parse, SizeByPacketId;
    var session := new Session();
    ParseCases([]);
    session.Run();
    taken := 0;
    var i := 0;
    while i < |sizes| && taken < |stream| && session.reading.Waiting?
      invariant 0 <= i <= |sizes| && i <= taken <= |stream|
      invariant session.Valid() && session.received == stream[..taken] && fresh(session) && fresh(session.input)
      invariant session.reading == Closed <==> session.bad
    {
      var size := sizes[i];
      if size > |stream| - taken {
        size := |stream| - taken;
      }
      if size > session.reading.size {
        size := session.reading.size;
      }
      session.OnRead(stream[taken..taken + size]);
      assert stream[..taken + size] == stream[..taken] + stream[taken..taken + size];
      taken := taken + size;
      i := i + 1;
    }
    handled, closed := session.handled, session.reading == Closed;
    ParseInPieces(stream[..taken], stream[taken..]);
    assert stream[..taken] + stream[taken..] == stream;
    assert taken == |stream| ==> stream[..taken] == stream;
  }
}
