/** The outgoing messages of a session: one write at a time, the others wait in order. */
module WriteQueue {
  class Session {
    var queue: seq<string>
    /** The buffers of the asynchronous writes that have been started and not yet completed. */
    var inFlight: seq<string>
    var failed: bool
    var written: seq<string>
    ghost var requests: seq<string>

    ghost predicate Valid()
      reads this
    {
      && written + queue == requests
      && |inFlight| <= 1
      && (inFlight != [] <==> queue != [] && !failed)
      && (inFlight != [] ==> inFlight[0] == queue[0])
      && (failed ==> queue != [])
    }

    constructor ()
      ensures Valid() && requests == [] && !failed
    {
      queue, inFlight, failed, written, requests := [], [], false, [], [];
    }

    method AsyncWrite()
      requires queue != []
      modifies this`inFlight
      ensures inFlight == old(inFlight) + [queue[0]]
    {
      inFlight := inFlight + [queue[0]];
    }

    /** Always added to the queue, and written at once only if nothing was waiting. */
    method WriteRequest(request: string)
      requires Valid()
      modifies this
      ensures Valid() && requests == old(requests) + [request] && queue == old(queue) + [request]
      ensures failed == old(failed) && written == old(written)
    {
      requests := requests + [request];
      queue := queue + [request];
      assert written + queue == requests;
      if |queue| > 1 {
        return;
      }
      AsyncWrite();
    }

    /** The completion of the write that was started first. After an error the queue is left alone, and nothing is ever
        written again. */
    method OnWrite(error: bool)
      requires Valid() && inFlight != []
      modifies this
      ensures Valid() && requests == old(requests) && failed == error
      ensures error ==> queue == old(queue) && written == old(written) && inFlight == []
      ensures !error ==> queue == old(queue)[1..] && written == old(written) + [old(queue)[0]]
    {
      assert queue == [queue[0]] + queue[1..];
      var message := inFlight[0];
      inFlight := inFlight[1..];
      if error {
        failed := true;
        return;
      }
      written := written + [message];
      queue := queue[1..];
      if queue != [] {
        AsyncWrite();
      }
    }
  }

  // All interleavings.

  datatype Event = Request(text: string) | Completed | Failed

  /** The messages requested, in order. */
  function Requests(events: seq<Event>): seq<string> {
    if events == [] then []
    else
      var last := events[|events| - 1];
      Requests(events[..|events| - 1]) + (if last.Request? then [last.text] else [])
  }

  /** Without any queue: how many messages have been written, and whether a write has failed. A completion counts when
      fewer messages have been written than requested and no write has failed. */
  datatype Progress = Progress(written: nat, failed: bool)

  function Counted(events: seq<Event>): (p: Progress)
    ensures p.written <= |Requests(events)| && (p.failed ==> p.written < |Requests(events)|)
  {
    if events == [] then Progress(0, false)
    else
      var before, last := Counted(events[..|events| - 1]), events[|events| - 1];
      if last.Request? || before.failed || before.written == |Requests(events[..|events| - 1])| then before
      else if last.Completed? then before.(written := before.written + 1)
      else before.(failed := true)
  }

  /** Whatever requests and completions come in whatever order, as long as only writes that were started complete: the
      messages written and the queue are the requests in order, at most one write is under way, it is that of the first
      message in the queue, and there is one exactly if something waits and no write has failed. */
  method Run(events: seq<Event>) returns (written: seq<string>, queue: seq<string>, inFlight: seq<string>, failed: bool)
    ensures written + queue == Requests(events)
    ensures |inFlight| <= 1 && (inFlight != [] <==> queue != [] && !failed) && (inFlight != [] ==> inFlight[0] == queue[0])
    ensures Progress(|written|, failed) == Counted(events)
  {
    var session := new Session();
    var i := 0;
    while i < |events|
      invariant 0 <= i <= |events| && session.Valid() && fresh(session)
      invariant session.requests == Requests(events[..i])
      invariant Progress(|session.written|, session.failed) == Counted(events[..i])
    {
      assert events[..i + 1][..i] == events[..i];
      match events[i] {
        case Request(text) => session.WriteRequest(text);
        case Completed =>
          if session.inFlight != [] {
            session.OnWrite(false);
          }
        case Failed =>
          if session.inFlight != [] {
            session.OnWrite(true);
          }
      }
      i := i + 1;
    }
    assert events[..|events|] == events;
    written, queue, inFlight, failed := session.written, session.queue, session.inFlight, session.failed;
  }

  /** Without failures everything gets written: completions alone empty the queue. */
  method Drain(session: Session)
    requires session.Valid()
    modifies session
    ensures session.Valid() && session.requests == old(session.requests) && session.failed == old(session.failed)
    ensures if session.failed then session.written == old(session.written) else session.written == session.requests
    ensures session.inFlight == []
  {
    while session.inFlight != []
      invariant session.Valid() && session.requests == old(session.requests) && session.failed == old(session.failed)
      invariant session.failed ==> session.written == old(session.written)
      decreases |session.queue|
    {
      session.OnWrite(false);
    }
  }
}
