/** Format strings: replacement fields, and the two scanners that split a format string into literal text and fields. */
module FormatString {
  import opened Decimal
  import opened IntegerText
  import opened Wrappers

  /** What the handler is told, in order. Literal text is recorded character by character, so that it does not matter in
      which pieces it arrives. */
  datatype Event =
    | Text(c: char)
    | AutoId
    | IndexId(index: int)
    | NameId(name: seq<char>)
    | Field(at: nat)
    | Specs(at: nat)
    | Fail(message: string)

  /** A handler may throw on any event but text, depending on all it has been told. It says how many characters a format
      specifier takes, or throws while parsing it. */
  datatype Handler = Handler(throws: seq<Event> -> bool, specs: (seq<Event>, seq<char>) -> Option<nat>)

  /** Scanning goes on at a position, or an exception ended it. */
  datatype Outcome = Going(log: seq<Event>, at: nat) | Stopped(log: seq<Event>)

  function Texts(s: seq<char>): (log: seq<Event>)
    ensures |log| == |s|
  {
    seq(|s|, i requires 0 <= i < |s| => Text(s[i]))
  }

  function Tell(log: seq<Event>, e: Event, at: nat, h: Handler): Outcome {
    if e.Fail? || h.throws(log + [e]) then Stopped(log + [e]) else Going(log + [e], at)
  }

  // Replacement fields.

  predicate IsNameStart(c: char) {
    'a' <= c <= 'z' || 'A' <= c <= 'Z' || c == '_'
  }

  predicate IsNamePart(c: char) {
    IsNameStart(c) || IsDigit(c)
  }

  function DigitsEnd(s: seq<char>, p: nat): (end: nat)
    requires p <= |s|
    ensures p <= end <= |s|
    decreases |s| - p
  {
    if p < |s| && IsDigit(s[p]) then DigitsEnd(s, p + 1) else p
  }

  function NameEnd(s: seq<char>, p: nat): (end: nat)
    requires p <= |s|
    ensures p <= end <= |s|
    decreases |s| - p
  {
    if p < |s| && IsNamePart(s[p]) then NameEnd(s, p + 1) else p
  }

  /** The argument id at `p`: none, a number, or a name. */
  function ArgId(s: seq<char>, p: nat, log: seq<Event>, h: Handler): (o: Outcome)
    requires p < |s|
    ensures o.Going? ==> p <= o.at <= |s|
  {
    var c := s[p];
    if c == '}' || c == ':' then Tell(log, AutoId, p, h)
    else if IsDigit(c) then
      var end := if c == '0' then p + 1 else DigitsEnd(s, p);
      var index := if c == '0' then 0 else ParsedInt(s[p..end], INT_MAX);
      if end == |s| || (s[end] != '}' && s[end] != ':')
      then Tell(log, Fail("invalid format string"), end, h)
      else Tell(log, IndexId(index), end, h)
    else if !IsNameStart(c) then Tell(log, Fail("invalid format string"), p, h)
    else Tell(log, NameId(s[p..NameEnd(s, p + 1)]), NameEnd(s, p + 1), h)
  }

  /** The format specifier at `p`, up to its closing brace. */
  function SpecsField(s: seq<char>, p: nat, log: seq<Event>, h: Handler): (o: Outcome)
    requires p <= |s|
    ensures o.Going? ==> p < o.at <= |s|
  {
    var told := log + [Specs(p)];
    match h.specs(told, s[p..])
    case None => Stopped(told)
    case Some(n) =>
      var end := if n <= |s| - p then p + n else |s|;
      if end == |s| || s[end] != '}'
      then Tell(told, Fail("unknown format specifier"), |s|, h)
      else Going(told, end + 1)
  }

  /** What comes behind the id of a field. */
  function Behind(s: seq<char>, at: nat, log: seq<Event>, h: Handler): (o: Outcome)
    requires at <= |s|
    ensures o.Going? ==> at < o.at <= |s|
  {
    if at < |s| && s[at] == '}' then Tell(log, Field(at), at + 1, h)
    else if at < |s| && s[at] == ':' then SpecsField(s, at + 1, log, h)
    else Tell(log, Fail("missing '}' in format string"), |s|, h)
  }

  /** The replacement field, or doubled brace, that starts at `p`. */
  function ReplacementField(s: seq<char>, p: nat, log: seq<Event>, h: Handler): (o: Outcome)
    requires p < |s|
    ensures o.Going? ==> p < o.at <= |s|
  {
    if p + 1 == |s| then Tell(log, Fail("invalid format string"), |s|, h)
    else if s[p + 1] == '}' then
      var o := Tell(log, AutoId, p + 1, h);
      if o.Stopped? then o else Tell(o.log, Field(p + 1), p + 2, h)
    else if s[p + 1] == '{' then Going(log + [Text('{')], p + 2)
    else
      var o := ArgId(s, p + 1, log, h);
      if o.Stopped? then o else Behind(s, o.at, o.log, h)
  }

  method ParseName(s: seq<char>, begin: nat) returns (it: nat)
    requires begin < |s|
    ensures it == NameEnd(s, begin + 1)
  {
    it := begin;
    while true
      invariant begin <= it < |s| && NameEnd(s, it + 1) == NameEnd(s, begin + 1)
      decreases |s| - it
    {
      it := it + 1;
      if it == |s| || !(IsNameStart(s[it]) || '0' <= s[it] <= '9') {
        break;
      }
    }
  }

  lemma {:induction false} DigitsEndIs(s: seq<char>, p: nat, end: nat)
    requires p <= end <= |s| && AllDigits(s[p..end]) && (end < |s| ==> !IsDigit(s[end]))
    ensures DigitsEnd(s, p) == end
    decreases end - p
  {
    if p < end {
      assert s[p] == s[p..end][0];
      assert s[p + 1..end] == s[p..end][1..];
      DigitsEndIs(s, p + 1, end);
    }
  }

  method ParseArgId(s: seq<char>, begin: nat, log: seq<Event>, h: Handler) returns (o: Outcome)
    requires begin < |s|
    ensures o == ArgId(s, begin, log, h)
  {
    var c := s[begin];
    if c != '}' && c != ':' {
      if '0' <= c <= '9' {
        var index := 0;
        var p := begin;
        if c != '0' {
          index, p := ParseNonnegativeInt(s, begin, INT_MAX);
          DigitsEndIs(s, begin, p);
        } else {
          p := p + 1;
        }
        if p == |s| || (s[p] != '}' && s[p] != ':') {
          return Stopped(log + [Fail("invalid format string")]);
        }
        return Tell(log, IndexId(index), p, h);
      }
      if !IsNameStart(c) {
        return Stopped(log + [Fail("invalid format string")]);
      }
      var it := ParseName(s, begin);
      return Tell(log, NameId(s[begin..it]), it, h);
    }
    return Tell(log, AutoId, begin, h);
  }

  method ParseReplacementField(s: seq<char>, p: nat, log: seq<Event>, h: Handler) returns (o: Outcome)
    requires p < |s|
    ensures o == ReplacementField(s, p, log, h)
  {
    var begin := p + 1;
    if begin == |s| {
      return Stopped(log + [Fail("invalid format string")]);
    }
    if s[begin] == '}' {
      o := Tell(log, AutoId, begin, h);
      if o.Going? {
        o := Tell(o.log, Field(begin), begin + 1, h);
      }
      return;
    }
    if s[begin] == '{' {
      return Going(log + [Text('{')], begin + 1);
    }
    o := ParseArgId(s, begin, log, h);
    if o.Stopped? {
      return;
    }
    begin := o.at;
    var c := if begin != |s| then s[begin] else '\0';
    if c == '}' {
      return Tell(o.log, Field(begin), begin + 1, h);
    } else if c == ':' {
      return SpecsField(s, begin + 1, o.log, h);
    } else {
      return Stopped(o.log + [Fail("missing '}' in format string")]);
    }
  }

  // Scanning.

  const UNMATCHED: string := "unmatched '}' in format string"

  /** What scanning from `p` on tells the handler, when the text from `begin` on has not been passed on yet. */
  function Scan(s: seq<char>, begin: nat, p: nat, log: seq<Event>, h: Handler): seq<Event>
    requires begin <= p <= |s|
    decreases |s| - p
  {
    if p == |s| then log + Texts(s[begin..])
    else if s[p] == '{' then
      var o := ReplacementField(s, p, log + Texts(s[begin..p]), h);
      if o.Stopped? then o.log else Scan(s, o.at, o.at, o.log, h)
    else if s[p] == '}' then
      if p + 1 == |s| || s[p + 1] != '}'
      then log + [Fail(UNMATCHED)]
      else Scan(s, p + 2, p + 2, log + Texts(s[begin..p + 1]), h)
    else Scan(s, begin, p + 1, log, h)
  }

  /** One character at a time. */
  method ScanSmall(s: seq<char>, h: Handler) returns (log: seq<Event>)
    ensures log == Scan(s, 0, 0, [], h)
  {
    hide ReplacementField;
    log := [];
    var begin: nat, p: nat := 0, 0;
    while p != |s|
      invariant begin <= p <= |s| && Scan(s, begin, p, log, h) == Scan(s, 0, 0, [], h)
      decreases |s| - p
    {
      var c := s[p];
      p := p + 1;
      if c == '{' {
        log := log + Texts(s[begin..p - 1]);
        var o := ParseReplacementField(s, p - 1, log, h);
        if o.Stopped? {
          return o.log;
        }
        log, p := o.log, o.at;
        begin := p;
      } else if c == '}' {
        if p == |s| || s[p] != '}' {
          return log + [Fail(UNMATCHED)];
        }
        log := log + Texts(s[begin..p]);
        p := p + 1;
        begin := p;
      }
    }
    log := log + Texts(s[begin..]);
  }

  method Find(s: seq<char>, first: nat, last: nat, value: char) returns (found: bool, out: nat)
    requires first <= last <= |s|
    ensures first <= out <= last && (forall i :: first <= i < out ==> s[i] != value)
    ensures if found then out < last && s[out] == value else out == last
  {
    out := first;
    while out != last
      invariant first <= out <= last && forall i :: first <= i < out ==> s[i] != value
    {
      if s[out] == value {
        return true, out;
      }
      out := out + 1;
    }
    found := false;
  }

  lemma {:induction false} SkipText(s: seq<char>, begin: nat, p: nat, to: nat, log: seq<Event>, h: Handler)
    requires begin <= p <= to <= |s|
    requires forall i :: p <= i < to ==> s[i] != '{' && s[i] != '}'
    ensures Scan(s, begin, p, log, h) == Scan(s, begin, to, log, h)
    decreases |s| - p
  {
    if p < to {
      SkipText(s, begin, p + 1, to, log, h);
    }
  }

  /** Passes on the text up to a field or to the end, looking for closing braces only. */
  method Write(s: seq<char>, first: nat, pend: nat, log: seq<Event>, h: Handler) returns (o: Outcome)
    requires first <= pend <= |s| && (pend < |s| ==> s[pend] == '{')
    requires forall i :: first <= i < pend ==> s[i] != '{'
    ensures Scan(s, first, first, log, h) == if o.Stopped? then o.log else Scan(s, pend, pend, o.log, h)
    ensures o.Going? ==> o.at == pend
  {
    hide ReplacementField;
    if first == pend {
      return Going(log, pend);
    }
    var pbegin, told := first, log;
    while true
      invariant first <= pbegin <= pend && Scan(s, pbegin, pbegin, told, h) == Scan(s, first, first, log, h)
      decreases pend - pbegin
    {
      var found, p := Find(s, pbegin, pend, '}');
      SkipText(s, pbegin, pbegin, p, told, h);
      if !found {
        FlushHere(s, pbegin, pend, told, h);
        return Going(told + Texts(s[pbegin..pend]), pend);
      }
      p := p + 1;
      if p == pend || s[p] != '}' {
        return Stopped(told + [Fail(UNMATCHED)]);
      }
      told := told + Texts(s[pbegin..p]);
      pbegin := p + 1;
    }
  }

  /** At a field and at the end, the text before is passed on in any case. */
  lemma FlushHere(s: seq<char>, begin: nat, p: nat, log: seq<Event>, h: Handler)
    requires begin <= p <= |s| && (p < |s| ==> s[p] == '{')
    ensures Scan(s, begin, p, log, h) == Scan(s, p, p, log + Texts(s[begin..p]), h)
  {
    hide ReplacementField;
    var told := log + Texts(s[begin..p]);
    assert told + Texts(s[p..p]) == told;
    if p == |s| {
      assert s[begin..] == s[begin..p] && s[p..] == s[p..p];
    }
  }

  /** Looking for opening braces first, and for closing braces in the text before each. */
  method ScanLarge(s: seq<char>, h: Handler) returns (log: seq<Event>)
    ensures log == Scan(s, 0, 0, [], h)
  {
    hide ReplacementField;
    log := [];
    var begin: nat := 0;
    while begin != |s|
      invariant begin <= |s| && Scan(s, begin, begin, log, h) == Scan(s, 0, 0, [], h)
      decreases |s| - begin
    {
      var p := begin;
      if s[begin] != '{' {
        var found;
        found, p := Find(s, begin + 1, |s|, '{');
        if !found {
          var o := Write(s, begin, |s|, log, h);
          EndOfScan(s, o.log, h);
          return o.log;
        }
      }
      var o := Write(s, begin, p, log, h);
      if o.Stopped? {
        return o.log;
      }
      FlushHere(s, p, p, o.log, h);
      assert o.log + Texts(s[p..p]) == o.log;
      o := ParseReplacementField(s, p, o.log, h);
      if o.Stopped? {
        return o.log;
      }
      log, begin := o.log, o.at;
    }
    EndOfScan(s, log, h);
  }

  lemma EndOfScan(s: seq<char>, log: seq<Event>, h: Handler)
    ensures Scan(s, |s|, |s|, log, h) == log
  {
    assert log + Texts(s[|s|..]) == log;
  }

  /** Short strings take the simple loop, long ones the searches. Both mean the same. */
  method ParseFormatString(s: seq<char>, h: Handler) returns (log: seq<Event>)
    ensures log == Scan(s, 0, 0, [], h)
  {
    if |s| < 32 {
      log := ScanSmall(s, h);
    } else {
      log := ScanLarge(s, h);
    }
  }

  // What scanning means.

  /** Text with its braces doubled. */
  function Escape(text: seq<char>): seq<char> {
    if text == [] then []
    else (if text[0] == '{' then "{{" else if text[0] == '}' then "}}" else [text[0]]) + Escape(text[1..])
  }

  /** The argument that a field asks for. */
  datatype Id = Automatic | Indexed(index: nat) | Named(name: seq<char>)

  /** A format string as its author means it: text, and fields with or without a format specifier. */
  datatype Piece = Literal(text: seq<char>) | Replace(id: Id, spec: Option<seq<char>>)

  function RenderId(id: Id): seq<char> {
    match id
    case Automatic => []
    case Indexed(index) => DecimalText(index)
    case Named(name) => name
  }

  function RenderSpec(spec: Option<seq<char>>): seq<char> {
    if spec.None? then "}" else ":" + spec.value + "}"
  }

  function RenderPiece(piece: Piece): seq<char> {
    match piece
    case Literal(text) => Escape(text)
    case Replace(id, spec) => "{" + RenderId(id) + RenderSpec(spec)
  }

  function Render(pieces: seq<Piece>): seq<char> {
    if pieces == [] then [] else RenderPiece(pieces[0]) + Render(pieces[1..])
  }

  /** Indices that do not fit an int are all replaced by the largest one. */
  function IdEvent(id: Id): Event {
    match id
    case Automatic => AutoId
    case Indexed(index) => IndexId(if index <= INT_MAX then index else INT_MAX)
    case Named(name) => NameId(name)
  }

  /** What the handler should be told about a piece that starts at `at`. */
  function PieceEvents(piece: Piece, at: nat): seq<Event> {
    match piece
    case Literal(text) => Texts(text)
    case Replace(id, spec) =>
      var end := at + 1 + |RenderId(id)|;
      [IdEvent(id), if spec.None? then Field(end) else Specs(end + 1)]
  }

  function Events(pieces: seq<Piece>, at: nat): seq<Event> {
    if pieces == [] then [] else PieceEvents(pieces[0], at) + Events(pieces[1..], at + |RenderPiece(pieces[0])|)
  }

  /** Letters, underscores and, behind the first character, digits. */
  predicate ValidName(name: seq<char>) {
    name != [] && forall i :: 0 <= i < |name| ==>
                    'a' <= name[i] <= 'z' || 'A' <= name[i] <= 'Z' || name[i] == '_' || (i > 0 && '0' <= name[i] <= '9')
  }

  /** The handler takes exactly this specifier when a closing brace follows it. */
  ghost predicate Delimits(h: Handler, spec: seq<char>) {
    forall log, rest :: h.specs(log, spec + ("}" + rest)) == Some(|spec|)
  }

  ghost predicate ValidPiece(piece: Piece, h: Handler) {
    piece.Replace? ==> (piece.id.Named? ==> ValidName(piece.id.name)) && (piece.spec.Some? ==> Delimits(h, piece.spec.value))
  }

  /** All that has been passed on at `p`, and the text that is pending there. */
  function Passed(s: seq<char>, begin: nat, p: nat, log: seq<Event>): seq<Event>
    requires begin <= p <= |s|
  {
    log + Texts(s[begin..p])
  }

  lemma PassOne(s: seq<char>, begin: nat, p: nat, log: seq<Event>)
    requires begin <= p < |s|
    ensures Passed(s, begin, p + 1, log) == Passed(s, begin, p, log) + [Text(s[p])]
  {
    assert s[begin..p + 1] == s[begin..p] + [s[p]];
    assert Texts(s[begin..p] + [s[p]]) == Texts(s[begin..p]) + [Text(s[p])];
  }

  lemma NonePending(s: seq<char>, p: nat, log: seq<Event>)
    requires p <= |s|
    ensures Passed(s, p, p, log) == log
  {
  }

  /** One step over a character, or over a doubled brace. */
  lemma StepOverText(s: seq<char>, begin: nat, p: nat, log: seq<Event>, h: Handler, c: char) returns (begin': nat, p': nat, log': seq<Event>)
    requires begin <= p < |s| && s[p] == c && (c == '{' || c == '}' ==> p + 1 < |s| && s[p + 1] == c)
    ensures p' == (if c == '{' || c == '}' then p + 2 else p + 1) && begin' <= p' <= |s|
    ensures Scan(s, begin, p, log, h) == Scan(s, begin', p', log', h)
    ensures Passed(s, begin', p', log') == Passed(s, begin, p, log) + [Text(c)]
  {
    hide ArgId, SpecsField, Tell;
    PassOne(s, begin, p, log);
    if c == '{' {
      begin', p', log' := p + 2, p + 2, Passed(s, begin, p, log) + [Text('{')];
      NonePending(s, p', log');
    } else if c == '}' {
      begin', p', log' := p + 2, p + 2, Passed(s, begin, p + 1, log);
      NonePending(s, p', log');
    } else {
      begin', p', log' := begin, p + 1, log;
    }
  }

  lemma {:induction false} StepOverEscaped(s: seq<char>, begin: nat, p: nat, log: seq<Event>, h: Handler, text: seq<char>)
    returns (begin': nat, log': seq<Event>)
    requires begin <= p <= |s| && Escape(text) <= s[p..]
    ensures p + |Escape(text)| <= |s| && begin' <= p + |Escape(text)|
    ensures Scan(s, begin, p, log, h) == Scan(s, begin', p + |Escape(text)|, log', h)
    ensures Passed(s, begin', p + |Escape(text)|, log') == Passed(s, begin, p, log) + Texts(text)
    decreases |text|
  {
    hide Scan, ReplacementField, Passed, Escape;
    if text == [] {
      NoText();
      begin', log' := begin, log;
    } else {
      EscapedFirst(s, p, text);
      var b1, p1, l1 := StepOverText(s, begin, p, log, h, text[0]);
      begin', log' := StepOverEscaped(s, b1, p1, l1, h, text[1..]);
      Associate(Passed(s, begin, p, log), [Text(text[0])], Texts(text[1..]));
      assert Texts(text) == [Text(text[0])] + Texts(text[1..]);
    }
  }

  lemma NoText()
    ensures Escape([]) == [] && Texts([]) == []
  {
  }

  lemma EscapedFirst(s: seq<char>, p: nat, text: seq<char>)
    requires text != [] && p <= |s| && Escape(text) <= s[p..]
    ensures var c := text[0];
            var p1 := if c == '{' || c == '}' then p + 2 else p + 1;
            && p1 <= |s| && s[p] == c && (c == '{' || c == '}' ==> s[p + 1] == c)
            && Escape(text[1..]) <= s[p1..] && |Escape(text)| == p1 - p + |Escape(text[1..])|
  {
    var c := text[0];
    assert Escape(text)[0] == s[p..][0] == s[p];
    var n := if c == '{' || c == '}' then 2 else 1;
    if n == 2 {
      assert Escape(text)[1] == s[p..][1] == s[p + 1];
    }
    assert Escape(text)[n..] == Escape(text[1..]);
    assert s[p..][n..] == s[p + n..];
  }

  ghost predicate NeverThrows(h: Handler) {
    forall log :: !h.throws(log)
  }

  lemma {:induction false} FirstDigit(n: nat)
    ensures |DecimalText(n)| > 0 && (DecimalText(n)[0] == '0' <==> n == 0) && (n == 0 ==> DecimalText(n) == "0")
  {
    if n < 10 {
    } else {
      FirstDigit(n / 10);
    }
  }

  lemma {:induction false} NameEndIs(s: seq<char>, p: nat, end: nat)
    requires p <= end <= |s| && (forall i :: p <= i < end ==> IsNamePart(s[i])) && (end < |s| ==> !IsNamePart(s[end]))
    ensures NameEnd(s, p) == end
    decreases |s| - p
  {
    if p < end {
      NameEndIs(s, p + 1, end);
    }
  }

  lemma SliceAt(s: seq<char>, p: nat, t: seq<char>)
    requires p + |t| <= |s| && s[p..p + |t|] == t
    ensures forall i :: 0 <= i < |t| ==> s[p + i] == t[i]
  {
    forall i | 0 <= i < |t|
      ensures s[p + i] == t[i]
    {
      assert s[p..p + |t|][i] == s[p + i];
    }
  }

  lemma NumberIsRead(s: seq<char>, p: nat, log: seq<Event>, h: Handler, index: nat)
    requires var end := p + |DecimalText(index)|;
             end < |s| && s[p..end] == DecimalText(index) && (s[end] == '}' || s[end] == ':')
    requires NeverThrows(h)
    ensures ArgId(s, p, log, h) == Going(log + [IdEvent(Indexed(index))], p + |DecimalText(index)|)
  {
    hide Number, DigitCount, DecimalText, ParsedInt;
    var text := DecimalText(index);
    DecimalTextIsNumber(index);
    FirstDigit(index);
    SliceAt(s, p, text);
    assert s[p + 0] == text[0];
    if text[0] == '0' {
      ZeroIsOneDigit(index);
    } else {
      DigitsEndIs(s, p, p + |text|);
      FormatThenParse(index, INT_MAX);
    }
  }

  lemma ZeroIsOneDigit(index: nat)
    requires DecimalText(index)[0] == '0'
    ensures index == 0 && |DecimalText(index)| == 1
  {
    FirstDigit(index);
  }

  lemma NameIsRead(s: seq<char>, p: nat, log: seq<Event>, h: Handler, name: seq<char>)
    requires p + |name| < |s| && s[p..p + |name|] == name && (s[p + |name|] == '}' || s[p + |name|] == ':')
    requires ValidName(name) && NeverThrows(h)
    ensures ArgId(s, p, log, h) == Going(log + [NameId(name)], p + |name|)
  {
    SliceAt(s, p, name);
    assert s[p + 0] == name[0];
    forall i | p + 1 <= i < p + |name|
      ensures IsNamePart(s[i])
    {
      assert s[p + (i - p)] == name[i - p];
    }
    NameEndIs(s, p + 1, p + |name|);
  }

  lemma IdIsRead(s: seq<char>, p: nat, log: seq<Event>, h: Handler, id: Id)
    requires var end := p + |RenderId(id)|; end < |s| && s[p..end] == RenderId(id) && (s[end] == '}' || s[end] == ':')
    requires (id.Named? ==> ValidName(id.name)) && NeverThrows(h)
    ensures ArgId(s, p, log, h) == Going(log + [IdEvent(id)], p + |RenderId(id)|)
    ensures id != Automatic ==> s[p] != '{' && s[p] != '}' && s[p] != ':'
  {
    hide DecimalText, DigitsEnd, NameEnd, ParsedInt;
    match id
    case Automatic =>
    case Indexed(index) =>
      NumberIsRead(s, p, log, h, index);
      NumberStarts(s, p, index);
    case Named(name) =>
      NameIsRead(s, p, log, h, name);
      SliceAt(s, p, name);
      assert s[p + 0] == name[0];
  }

  lemma NumberStarts(s: seq<char>, p: nat, index: nat)
    requires p + |DecimalText(index)| <= |s| && s[p..p + |DecimalText(index)|] == DecimalText(index)
    ensures p < |s| && IsDigit(s[p])
  {
    hide Number, DigitCount, DecimalText;
    DecimalTextIsNumber(index);
    FirstDigit(index);
    SliceAt(s, p, DecimalText(index));
    assert s[p + 0] == DecimalText(index)[0];
  }

  /** The end of a field, from the place behind its id. */
  lemma SpecIsRead(s: seq<char>, at: nat, log: seq<Event>, h: Handler, spec: seq<char>)
    requires at <= |s| && RenderSpec(Some(spec)) <= s[at..] && Delimits(h, spec)
    ensures at + |spec| + 2 <= |s| && SpecsField(s, at + 1, log, h) == Going(log + [Specs(at + 1)], at + |spec| + 2)
  {
    PartsOfSpec(s, at, spec);
    hide RenderSpec;
  }

  lemma PartsOfSpec(s: seq<char>, at: nat, spec: seq<char>)
    requires at <= |s| && RenderSpec(Some(spec)) <= s[at..]
    ensures at + |spec| + 2 <= |s| && s[at] == ':' && s[at + 1 + |spec|] == '}'
    ensures s[at + 1..] == spec + ("}" + s[at + |spec| + 2..])
  {
    var n := |spec|;
    var whole := RenderSpec(Some(spec));
    assert whole[0] == ':' && whole[n + 1] == '}' && whole[1..n + 1] == spec;
    assert s[at..][0] == s[at] && s[at..][n + 1] == s[at + 1 + n];
    assert s[at..][1..n + 1] == s[at + 1..at + 1 + n];
    assert whole[1..n + 1] == s[at..][1..n + 1];
    assert s[at + 1..] == s[at + 1..at + 1 + n] + ([s[at + 1 + n]] + s[at + n + 2..]);
  }

  /** What comes behind the id of a field. */
  lemma BehindId(s: seq<char>, p: nat, log: seq<Event>, h: Handler, at: nat, event: Event)
    requires p < at < |s| && NeverThrows(h) && !event.Fail? && ArgId(s, p + 1, log, h) == Going(log + [event], at)
    requires s[p + 1] != '{' && (s[p + 1] == '}' ==> at == p + 1 && event == AutoId)
    ensures s[at] == '}' ==> ReplacementField(s, p, log, h) == Going(log + [event, Field(at)], at + 1)
    ensures s[at] == ':' ==> ReplacementField(s, p, log, h) == SpecsField(s, at + 1, log + [event], h)
  {
    hide ArgId, SpecsField;
    TwoEvents(log, event, Field(at));
  }

  lemma FieldOf(s: seq<char>, p: nat, log: seq<Event>, h: Handler, piece: Piece)
    requires p <= |s| && piece.Replace? && RenderPiece(piece) <= s[p..] && ValidPiece(piece, h) && NeverThrows(h)
    ensures p < |s| && s[p] == '{' && ReplacementField(s, p, log, h) == Going(log + PieceEvents(piece, p), p + |RenderPiece(piece)|)
  {
    hide *;
    var id, spec, at := piece.id, piece.spec, p + 1 + |RenderId(piece.id)|;
    PieceIs(piece, h, p);
    PartsOfField(s, p, RenderId(id), RenderSpec(spec));
    SpecStarts(spec);
    FirstOfRest(s, at, RenderSpec(spec));
    IdIsRead(s, p + 1, log, h, id);
    AutomaticIsEmpty();
    NeverFails(id);
    BehindId(s, p, log, h, at, IdEvent(id));
    if spec.Some? {
      SpecIsRead(s, at, log + [IdEvent(id)], h, spec.value);
      TwoEvents(log, IdEvent(id), Specs(at + 1));
    }
  }

  lemma PieceIs(piece: Piece, h: Handler, p: nat)
    requires piece.Replace? && ValidPiece(piece, h)
    ensures RenderPiece(piece) == "{" + RenderId(piece.id) + RenderSpec(piece.spec)
    ensures piece.id.Named? ==> ValidName(piece.id.name)
    ensures piece.spec.Some? ==> Delimits(h, piece.spec.value)
    ensures var end := p + 1 + |RenderId(piece.id)|;
            PieceEvents(piece, p) == [IdEvent(piece.id), if piece.spec.None? then Field(end) else Specs(end + 1)]
  {
  }

  lemma FirstOfRest(s: seq<char>, at: nat, tail: seq<char>)
    requires at <= |s| && tail != [] && tail <= s[at..]
    ensures at < |s| && s[at] == tail[0]
  {
    assert s[at..][0] == s[at];
  }

  lemma TwoEvents(log: seq<Event>, a: Event, b: Event)
    ensures log + [a] + [b] == log + [a, b]
  {
  }

  lemma NeverFails(id: Id)
    ensures !IdEvent(id).Fail?
  {
  }

  lemma AutomaticIsEmpty()
    ensures RenderId(Automatic) == [] && IdEvent(Automatic) == AutoId
  {
  }

  lemma SpecStarts(spec: Option<seq<char>>)
    ensures spec.None? ==> RenderSpec(spec) == "}"
    ensures spec.Some? ==> |RenderSpec(spec)| == |spec.value| + 2 && RenderSpec(spec)[0] == ':'
  {
  }

  lemma PartsOfField(s: seq<char>, p: nat, id: seq<char>, tail: seq<char>)
    requires p <= |s| && "{" + id + tail <= s[p..]
    ensures p + 1 + |id| + |tail| <= |s| && s[p] == '{' && s[p + 1..p + 1 + |id|] == id && tail <= s[p + 1 + |id|..]
  {
    var whole := "{" + id + tail;
    assert s[p] == s[p..][0] == whole[0];
    assert whole[1..1 + |id|] == id && whole[1 + |id|..] == tail;
    assert s[p..][1..1 + |id|] == s[p + 1..p + 1 + |id|];
    assert s[p..][1 + |id|..] == s[p + 1 + |id|..];
    assert whole[1..1 + |id|] == s[p..][1..1 + |id|];
    assert whole[1 + |id|..] <= s[p..][1 + |id|..];
  }

  lemma StepOverPiece(s: seq<char>, begin: nat, p: nat, log: seq<Event>, h: Handler, piece: Piece)
    returns (begin': nat, log': seq<Event>)
    requires begin <= p <= |s| && RenderPiece(piece) <= s[p..] && ValidPiece(piece, h) && NeverThrows(h)
    ensures var next := p + |RenderPiece(piece)|;
            && begin' <= next <= |s| && Scan(s, begin, p, log, h) == Scan(s, begin', next, log', h)
            && Passed(s, begin', next, log') == Passed(s, begin, p, log) + PieceEvents(piece, p)
  {
    hide ReplacementField, PieceEvents, RenderPiece;
    if piece.Literal? {
      LiteralPiece(piece.text, p);
      hide Scan, Passed;
      begin', log' := StepOverEscaped(s, begin, p, log, h, piece.text);
    } else {
      var passed := Passed(s, begin, p, log);
      FieldOf(s, p, passed, h, piece);
      begin', log' := p + |RenderPiece(piece)|, passed + PieceEvents(piece, p);
      NonePending(s, begin', log');
    }
  }

  lemma LiteralPiece(text: seq<char>, at: nat)
    ensures RenderPiece(Literal(text)) == Escape(text) && PieceEvents(Literal(text), at) == Texts(text)
  {
  }

  lemma {:induction false} ScanRendered(s: seq<char>, begin: nat, p: nat, log: seq<Event>, h: Handler, pieces: seq<Piece>)
    requires begin <= p <= |s| && s[p..] == Render(pieces) && NeverThrows(h)
    requires forall i :: 0 <= i < |pieces| ==> ValidPiece(pieces[i], h)
    ensures Scan(s, begin, p, log, h) == Passed(s, begin, p, log) + Events(pieces, p)
    decreases |pieces|
  {
    hide *;
    if pieces == [] {
      NoPieces(s, begin, p, log, h);
    } else {
      var piece, rest := pieces[0], pieces[1..];
      FirstPiece(pieces, p);
      DropPrefix(s, p, RenderPiece(piece), Render(rest));
      var b, l := StepOverPiece(s, begin, p, log, h, piece);
      var next := p + |RenderPiece(piece)|;
      ScanRendered(s, b, next, l, h, rest);
      Associate(Passed(s, begin, p, log), PieceEvents(piece, p), Events(rest, next));
    }
  }

  lemma NoPieces(s: seq<char>, begin: nat, p: nat, log: seq<Event>, h: Handler)
    requires begin <= p <= |s| && s[p..] == Render([])
    ensures Scan(s, begin, p, log, h) == Passed(s, begin, p, log) + Events([], p)
  {
    assert s[begin..p] == s[begin..];
  }

  lemma FirstPiece(pieces: seq<Piece>, p: nat)
    requires pieces != []
    ensures Render(pieces) == RenderPiece(pieces[0]) + Render(pieces[1..])
    ensures Events(pieces, p) == PieceEvents(pieces[0], p) + Events(pieces[1..], p + |RenderPiece(pieces[0])|)
  {
  }

  lemma Associate(a: seq<Event>, b: seq<Event>, c: seq<Event>)
    ensures a + b + c == a + (b + c)
  {
  }

  lemma DropPrefix(s: seq<char>, p: nat, a: seq<char>, b: seq<char>)
    requires p <= |s| && s[p..] == a + b
    ensures p + |a| <= |s| && a <= s[p..] && s[p + |a|..] == b
  {
    assert s[p..][|a|..] == b;
  }

  /** Escaped text and fields with any ids and specifiers, in any order, are read as what they are meant to be. */
  lemma RenderedIsRead(pieces: seq<Piece>, h: Handler)
    requires NeverThrows(h) && forall i :: 0 <= i < |pieces| ==> ValidPiece(pieces[i], h)
    ensures Scan(Render(pieces), 0, 0, [], h) == Events(pieces, 0)
  {
    var s := Render(pieces);
    assert s[0..] == s;
    ScanRendered(s, 0, 0, [], h, pieces);
    assert Passed(s, 0, 0, []) == [];
    assert [] + Events(pieces, 0) == Events(pieces, 0);
  }

  ghost predicate LooksForBrace(h: Handler) {
    forall log, rest :: h.specs(log, rest) == Some(FirstBrace(rest))
  }

  /** Every specifier without a closing brace is delimited by a handler that looks for the brace. */
  lemma BraceDelimits(h: Handler, spec: seq<char>)
    requires '}' !in spec && LooksForBrace(h)
    ensures Delimits(h, spec)
  {
    forall log: seq<Event>, rest: seq<char>
      ensures h.specs(log, spec + ("}" + rest)) == Some(|spec|)
    {
      BraceBehind(spec, rest);
    }
  }

  function FirstBrace(s: seq<char>): nat {
    if s == [] || s[0] == '}' then 0 else 1 + FirstBrace(s[1..])
  }

  lemma {:induction false} BraceBehind(spec: seq<char>, rest: seq<char>)
    requires '}' !in spec
    ensures FirstBrace(spec + ("}" + rest)) == |spec|
  {
    if spec == [] {
    } else {
      BraceBehind(spec[1..], rest);
      assert (spec + ("}" + rest))[1..] == spec[1..] + ("}" + rest);
    }
  }

  // What is refused.

  ghost predicate NoFail(log: seq<Event>) {
    forall i :: 0 <= i < |log| ==> !log[i].Fail?
  }

  ghost predicate AllValid(pieces: seq<Piece>, h: Handler) {
    forall i :: 0 <= i < |pieces| ==> ValidPiece(pieces[i], h)
  }

  /** A run of digits that does not begin with zero is the decimal text of its number. */
  lemma {:induction false} TextOfNumber(t: seq<char>)
    requires t != [] && AllDigits(t) && t[0] != '0'
    ensures Number(t) > 0 && DecimalText(Number(t)) == t
  {
    hide Number, DecimalText;
    var front, c := t[..|t| - 1], t[|t| - 1];
    assert t == front + [c];
    NumberSnoc(front, c);
    if front == [] {
      NoNumber();
      TextOfDigit(c);
    } else {
      TextOfNumber(front);
      TextSnoc(Number(front), c);
    }
  }

  lemma TextOfDigit(c: char)
    requires IsDigit(c)
    ensures DecimalText(Digit(c)) == [c]
  {
  }

  lemma TextSnoc(n: nat, c: char)
    requires n > 0 && IsDigit(c)
    ensures DecimalText(n * 10 + Digit(c)) == DecimalText(n) + [c]
  {
    var m := n * 10 + Digit(c);
    assert m / 10 == n && m % 10 == Digit(c);
  }

  lemma NoNumber()
    ensures Number([]) == 0
  {
  }

  lemma {:induction false} DigitsUpTo(s: seq<char>, p: nat)
    requires p <= |s|
    ensures AllDigits(s[p..DigitsEnd(s, p)])
    ensures p < |s| && IsDigit(s[p]) ==> DigitsEnd(s, p) > p
    decreases |s| - p
  {
    if p < |s| && IsDigit(s[p]) {
      DigitsUpTo(s, p + 1);
      assert s[p..DigitsEnd(s, p)] == [s[p]] + s[p + 1..DigitsEnd(s, p)];
    }
  }

  lemma {:induction false} NameUpTo(s: seq<char>, p: nat)
    requires p <= |s|
    ensures forall i :: p <= i < NameEnd(s, p) ==> IsNamePart(s[i])
    decreases |s| - p
  {
    if p < |s| && IsNamePart(s[p]) {
      NameUpTo(s, p + 1);
    }
  }

  /** An accepted argument id is the text of an index or of a name, or nothing. */
  lemma IdIsRendered(s: seq<char>, p: nat, log: seq<Event>, h: Handler) returns (id: Id)
    requires p < |s| && ArgId(s, p, log, h).Going?
    ensures s[p..ArgId(s, p, log, h).at] == RenderId(id) && (id.Named? ==> ValidName(id.name))
    ensures ArgId(s, p, log, h).log == log + [IdEvent(id)]
  {
    hide DecimalText, Number, DigitsEnd, NameEnd, ParsedInt, DigitCount;
    var c, at := s[p], ArgId(s, p, log, h).at;
    if c == '}' || c == ':' {
      id := Automatic;
    } else if c == '0' {
      id := Indexed(0);
      FirstDigit(0);
    } else if IsDigit(c) {
      var text := s[p..DigitsEnd(s, p)];
      DigitsUpTo(s, p);
      TextOfNumber(text);
      FormatThenParse(Number(text), INT_MAX);
      id := Indexed(Number(text));
    } else {
      NameUpTo(s, p + 1);
      id := Named(s[p..at]);
    }
  }

  lemma {:induction false} BraceIsFirst(s: seq<char>)
    ensures FirstBrace(s) <= |s| && '}' !in s[..FirstBrace(s)] && (FirstBrace(s) < |s| ==> s[FirstBrace(s)] == '}')
  {
    if s == [] || s[0] == '}' {
    } else {
      BraceIsFirst(s[1..]);
      var n := FirstBrace(s[1..]);
      assert s[..1 + n] == [s[0]] + s[1..][..n];
    }
  }

  /** An accepted format specifier ends at its closing brace. */
  lemma SpecIsRendered(s: seq<char>, p: nat, log: seq<Event>, h: Handler) returns (spec: seq<char>)
    requires 0 < p <= |s| && s[p - 1] == ':' && LooksForBrace(h) && SpecsField(s, p, log, h).Going?
    ensures s[p - 1..SpecsField(s, p, log, h).at] == RenderSpec(Some(spec)) && Delimits(h, spec)
  {
    hide FirstBrace;
    var rest := s[p..];
    BraceIsFirst(rest);
    var n := FirstBrace(rest);
    assert h.specs(log + [Specs(p)], rest) == Some(n);
    spec := s[p..p + n];
    assert rest[..n] == spec;
    BraceDelimits(h, spec);
    assert s[p - 1..p + n + 1] == ":" + spec + "}";
  }

  lemma AcceptedField(s: seq<char>, p: nat, log: seq<Event>, h: Handler)
    requires p < |s| && ReplacementField(s, p, log, h).Going?
    ensures p + 1 < |s|
    ensures var at := ReplacementField(s, p, log, h).at;
            if s[p + 1] == '}' || s[p + 1] == '{' then at == p + 2
            else
              var o := ArgId(s, p + 1, log, h);
              && o.Going? && o.at < |s|
              && ((s[o.at] == '}' && at == o.at + 1)
                  || (s[o.at] == ':' && SpecsField(s, o.at + 1, o.log, h) == ReplacementField(s, p, log, h)))
  {
    hide ArgId, SpecsField;
  }

  /** An accepted field is the text of a field. */
  lemma FieldIsRendered(s: seq<char>, p: nat, log: seq<Event>, h: Handler) returns (piece: Piece)
    requires p < |s| && s[p] == '{' && LooksForBrace(h) && ReplacementField(s, p, log, h).Going?
    ensures p < ReplacementField(s, p, log, h).at <= |s|
    ensures s[p..ReplacementField(s, p, log, h).at] == RenderPiece(piece) && ValidPiece(piece, h)
  {
    hide *;
    var end := ReplacementField(s, p, log, h).at;
    AcceptedField(s, p, log, h);
    if s[p + 1] == '{' {
      piece := Literal("{");
      LiteralIs('{', h);
      assert s[p..end] == "{{";
    } else if s[p + 1] == '}' {
      piece := Replace(Automatic, None);
      AutomaticIsEmpty();
      FieldText(Automatic, None, h);
      assert s[p..end] == "{" + [] + "}";
    } else {
      var o := ArgId(s, p + 1, log, h);
      var id := IdIsRendered(s, p + 1, log, h);
      ThreeSlices(s, p, p + 1, o.at, end);
      if s[o.at] == '}' {
        piece := Replace(id, None);
        FieldText(id, None, h);
        assert s[o.at..end] == "}";
      } else {
        var spec := SpecIsRendered(s, o.at + 1, o.log, h);
        piece := Replace(id, Some(spec));
        FieldText(id, Some(spec), h);
      }
      assert s[p..p + 1] == "{";
    }
  }

  lemma FieldText(id: Id, spec: Option<seq<char>>, h: Handler)
    ensures RenderPiece(Replace(id, spec)) == "{" + RenderId(id) + RenderSpec(spec) && (spec.None? ==> RenderSpec(spec) == "}")
    ensures (id.Named? ==> ValidName(id.name)) && (spec.Some? ==> Delimits(h, spec.value)) ==> ValidPiece(Replace(id, spec), h)
  {
  }

  lemma ThreeSlices(s: seq<char>, a: nat, b: nat, c: nat, d: nat)
    requires a <= b <= c <= d <= |s|
    ensures s[a..d] == s[a..b] + s[b..c] + s[c..d]
  {
  }

  lemma OneEscaped(c: char)
    ensures Escape([c]) == if c == '{' || c == '}' then [c, c] else [c]
  {
    assert [c][1..] == [];
  }

  /** A field that is not accepted ends with an error. */
  lemma FieldStops(s: seq<char>, p: nat, log: seq<Event>, h: Handler)
    requires p < |s| && NeverThrows(h) && LooksForBrace(h) && ReplacementField(s, p, log, h).Stopped?
    ensures !NoFail(ReplacementField(s, p, log, h).log)
  {
    hide FirstBrace, DigitsEnd, NameEnd, ParsedInt;
    var stopped := ReplacementField(s, p, log, h).log;
    assert stopped != [] && stopped[|stopped| - 1].Fail?;
  }

  lemma {:induction false} ReadIsRendered(s: seq<char>, begin: nat, p: nat, log: seq<Event>, h: Handler) returns (pieces: seq<Piece>)
    requires begin <= p <= |s| && NeverThrows(h) && LooksForBrace(h) && NoFail(Scan(s, begin, p, log, h))
    ensures AllValid(pieces, h) && s[p..] == Render(pieces)
    decreases |s| - p
  {
    hide ReplacementField, NoFail, NeverThrows, LooksForBrace, ValidPiece, RenderPiece, Render;
    NoneRendered();
    if p == |s| {
      pieces := [];
    } else {
      var piece, next, rest;
      if s[p] == '{' {
        var told := log + Texts(s[begin..p]);
        var o := ReplacementField(s, p, told, h);
        if o.Stopped? {
          FieldStops(s, p, told, h);
        }
        piece := FieldIsRendered(s, p, told, h);
        next := o.at;
        rest := ReadIsRendered(s, next, next, o.log, h);
      } else if s[p] == '}' {
        UnmatchedFails(log);
        piece, next := Literal("}"), p + 2;
        rest := ReadIsRendered(s, next, next, log + Texts(s[begin..p + 1]), h);
        LiteralIs('}', h);
        assert s[p..next] == "}}";
      } else {
        piece, next := Literal([s[p]]), p + 1;
        rest := ReadIsRendered(s, begin, next, log, h);
        LiteralIs(s[p], h);
      }
      pieces := [piece] + rest;
      OneMorePiece(piece, rest, h);
      assert s[p..] == s[p..next] + s[next..];
    }
  }

  lemma NoneRendered()
    ensures Render([]) == []
  {
  }

  lemma UnmatchedFails(log: seq<Event>)
    ensures !NoFail(log + [Fail(UNMATCHED)])
  {
    assert (log + [Fail(UNMATCHED)])[|log|].Fail?;
  }

  lemma LiteralIs(c: char, h: Handler)
    ensures RenderPiece(Literal([c])) == (if c == '{' || c == '}' then [c, c] else [c]) && ValidPiece(Literal([c]), h)
  {
    OneEscaped(c);
  }

  lemma OneMorePiece(piece: Piece, rest: seq<Piece>, h: Handler)
    ensures Render([piece] + rest) == RenderPiece(piece) + Render(rest)
    ensures ValidPiece(piece, h) && AllValid(rest, h) ==> AllValid([piece] + rest, h)
  {
    assert ([piece] + rest)[1..] == rest;
    hide Render, RenderPiece, ValidPiece;
  }

  lemma {:induction false} EventsDoNotFail(pieces: seq<Piece>, at: nat)
    ensures NoFail(Events(pieces, at))
  {
    hide *;
    if pieces == [] {
      NoEvents(at);
    } else {
      var next := at + |RenderPiece(pieces[0])|;
      FirstPiece(pieces, at);
      EventsDoNotFail(pieces[1..], next);
      PieceDoesNotFail(pieces[0], at);
      NoFailConcat(PieceEvents(pieces[0], at), Events(pieces[1..], next));
    }
  }

  lemma NoEvents(at: nat)
    ensures Events([], at) == [] && NoFail([])
  {
  }

  lemma PieceDoesNotFail(piece: Piece, at: nat)
    ensures NoFail(PieceEvents(piece, at))
  {
    hide RenderId;
  }

  lemma NoFailConcat(a: seq<Event>, b: seq<Event>)
    ensures NoFail(a + b) <==> NoFail(a) && NoFail(b)
  {
    if NoFail(a + b) {
      assert forall i :: 0 <= i < |a| ==> a[i] == (a + b)[i];
      assert forall i :: 0 <= i < |b| ==> b[i] == (a + b)[|a| + i];
    }
  }

  /** A format string is read without an error exactly if it is put together from escaped text and fields. */
  lemma ReadExactly(s: seq<char>, h: Handler)
    requires NeverThrows(h) && LooksForBrace(h)
    ensures NoFail(Scan(s, 0, 0, [], h)) <==> exists pieces :: AllValid(pieces, h) && s == Render(pieces)
  {
    hide Scan, NoFail, NeverThrows, LooksForBrace, Render, ValidPiece;
    if NoFail(Scan(s, 0, 0, [], h)) {
      var pieces := ReadIsRendered(s, 0, 0, [], h);
      assert s[0..] == s;
    }
    if pieces: seq<Piece> :| AllValid(pieces, h) && s == Render(pieces) {
      RenderedIsRead(pieces, h);
      EventsDoNotFail(pieces, 0);
    }
  }

  /** Without opening braces: exactly the escaped texts are read without an error, whatever the handler. */
  lemma PlainExactly(s: seq<char>, h: Handler)
    requires '{' !in s
    ensures NoFail(Scan(s, 0, 0, [], h)) <==> exists text :: s == Escape(text)
  {
    hide Scan, NoFail, Escape;
    assert s[0..] == s;
    if NoFail(Scan(s, 0, 0, [], h)) {
      var text := PlainIsEscaped(s, 0, 0, [], h);
    }
    if text: seq<char> :| s == Escape(text) {
      var b, l := StepOverEscaped(s, 0, 0, [], h, text);
      ScanAtEnd(s, b, l, h);
      assert Passed(s, 0, 0, []) + Texts(text) == Texts(text);
      TextsDoNotFail(text);
    }
  }

  lemma {:induction false} PlainIsEscaped(s: seq<char>, begin: nat, p: nat, log: seq<Event>, h: Handler)
    returns (text: seq<char>)
    requires begin <= p <= |s| && '{' !in s && NoFail(Scan(s, begin, p, log, h))
    ensures s[p..] == Escape(text)
    decreases |s| - p
  {
    hide ReplacementField, NoFail;
    NoText();
    if p == |s| {
      text := [];
    } else if s[p] == '}' {
      UnmatchedFails(log);
      text := PlainIsEscaped(s, p + 2, p + 2, log + Texts(s[begin..p + 1]), h);
      assert s[p..] == "}}" + s[p + 2..];
      text := ['}'] + text;
    } else {
      text := PlainIsEscaped(s, begin, p + 1, log, h);
      assert s[p..] == [s[p]] + s[p + 1..];
      text := [s[p]] + text;
    }
  }

  lemma ScanAtEnd(s: seq<char>, begin: nat, log: seq<Event>, h: Handler)
    requires begin <= |s|
    ensures Scan(s, begin, |s|, log, h) == Passed(s, begin, |s|, log)
  {
    assert s[begin..] == s[begin..|s|];
  }

  /** An error ends the scan. */
  lemma {:induction false} OnlyLastFails(s: seq<char>, begin: nat, p: nat, log: seq<Event>, h: Handler)
    requires begin <= p <= |s| && NoFail(log)
    ensures var all := Scan(s, begin, p, log, h); all == [] || NoFail(all[..|all| - 1])
    decreases |s| - p
  {
    hide ReplacementField, NoFail;
    TextsDoNotFail(s[begin..]);
    TextsDoNotFail(s[begin..p]);
    NoFailConcat(log, Texts(s[begin..]));
    NoFailConcat(log, Texts(s[begin..p]));
    if p == |s| {
      AllButLast(log + Texts(s[begin..]));
    } else if s[p] == '{' {
      var told := log + Texts(s[begin..p]);
      FieldFailsLast(s, p, told, h);
      var o := ReplacementField(s, p, told, h);
      if o.Going? {
        OnlyLastFails(s, o.at, o.at, o.log, h);
      }
    } else if s[p] == '}' {
      if p + 1 == |s| || s[p + 1] != '}' {
        assert (log + [Fail(UNMATCHED)])[..|log|] == log;
      } else {
        TextsDoNotFail(s[begin..p + 1]);
        NoFailConcat(log, Texts(s[begin..p + 1]));
        OnlyLastFails(s, p + 2, p + 2, log + Texts(s[begin..p + 1]), h);
      }
    } else {
      OnlyLastFails(s, begin, p + 1, log, h);
    }
  }

  lemma TextsDoNotFail(text: seq<char>)
    ensures NoFail(Texts(text))
  {
  }

  lemma AllButLast(log: seq<Event>)
    ensures NoFail(log) && log != [] ==> NoFail(log[..|log| - 1])
  {
  }

  lemma FieldFailsLast(s: seq<char>, p: nat, log: seq<Event>, h: Handler)
    requires p < |s| && NoFail(log)
    ensures var o := ReplacementField(s, p, log, h);
            if o.Going? then NoFail(o.log) else o.log == [] || NoFail(o.log[..|o.log| - 1])
  {
    hide ArgId, Behind;
    if p + 1 < |s| {
      IdFailsLast(s, p + 1, log, h);
      var o := ArgId(s, p + 1, log, h);
      if o.Going? {
        BehindFailsLast(s, o.at, o.log, h);
      }
    }
  }

  lemma IdFailsLast(s: seq<char>, p: nat, log: seq<Event>, h: Handler)
    requires p < |s| && NoFail(log)
    ensures var o := ArgId(s, p, log, h);
            if o.Going? then NoFail(o.log) else o.log == [] || NoFail(o.log[..|o.log| - 1])
  {
    hide DigitsEnd, NameEnd, ParsedInt;
  }

  lemma BehindFailsLast(s: seq<char>, at: nat, log: seq<Event>, h: Handler)
    requires at <= |s| && NoFail(log)
    ensures var o := Behind(s, at, log, h);
            if o.Going? then NoFail(o.log) else o.log == [] || NoFail(o.log[..|o.log| - 1])
  {
  }

  /** Text without braces in front of a closing brace that is not doubled. */
  lemma LoneClosingBrace(text: seq<char>, rest: seq<char>, h: Handler)
    requires '{' !in text && '}' !in text && (rest == [] || rest[0] != '}')
    ensures Scan(text + "}" + rest, 0, 0, [], h) == [Fail("unmatched '}' in format string")]
  {
    hide ReplacementField;
    var s := text + "}" + rest;
    assert s[..|text|] == text && s[|text|] == '}' && s[|text| + 1..] == rest;
    SkipText(s, 0, 0, |text|, [], h);
  }

  /** A field that ends too early, or goes on with something else behind its id: after an index the id is refused, after a
      name the closing brace is missed. */
  lemma UnfinishedField(id: Id, tail: seq<char>, h: Handler)
    requires NeverThrows(h) && id != Automatic && (id.Named? ==> ValidName(id.name))
    requires tail == [] || (tail[0] != '}' && tail[0] != ':' && !IsNamePart(tail[0]))
    ensures Scan("{" + RenderId(id) + tail, 0, 0, [], h) ==
            if id.Named? then [NameId(id.name), Fail("missing '}' in format string")] else [Fail("invalid format string")]
  {
    hide DecimalText, DigitsEnd, NameEnd, ParsedInt, Scan, ValidName, ArgId, Behind, ReplacementField;
    var s, at := "{" + RenderId(id) + tail, 1 + |RenderId(id)|;
    assert s[1..at] == RenderId(id) && s[at..] == tail;
    assert at < |s| ==> s[at] == tail[0];
    StartOfField(s, h);
    if id.Named? {
      NameStarts(s, id.name, at);
      NameUnfinished(s, at, h);
    } else {
      IndexStarts(s, id.index, at);
      IndexUnfinished(s, at, h);
    }
  }

  lemma IndexUnfinished(s: seq<char>, at: nat, h: Handler)
    requires 1 < at <= |s| && IsDigit(s[1]) && (at == if s[1] == '0' then 2 else DigitsEnd(s, 1))
    requires at < |s| ==> s[at] != '}' && s[at] != ':'
    ensures ReplacementField(s, 0, [], h) == Stopped([Fail("invalid format string")])
  {
    hide DigitsEnd, ParsedInt, Behind;
  }

  lemma NameUnfinished(s: seq<char>, at: nat, h: Handler)
    requires 1 < at <= |s| && IsNameStart(s[1]) && at == NameEnd(s, 2) && NeverThrows(h)
    requires at < |s| ==> s[at] != '}' && s[at] != ':'
    ensures ReplacementField(s, 0, [], h) == Stopped([NameId(s[1..at]), Fail("missing '}' in format string")])
  {
    hide NameEnd;
  }

  lemma NameStarts(s: seq<char>, name: seq<char>, at: nat)
    requires at == 1 + |name| <= |s| && s[1..at] == name && ValidName(name) && (at < |s| ==> !IsNamePart(s[at]))
    ensures |s| > 1 && IsNameStart(s[1]) && at == NameEnd(s, 2)
  {
    SliceAt(s, 1, name);
    assert s[1 + 0] == name[0];
    forall i | 2 <= i < at
      ensures IsNamePart(s[i])
    {
      assert s[1 + (i - 1)] == name[i - 1];
    }
    NameEndIs(s, 2, at);
  }

  lemma StartOfField(s: seq<char>, h: Handler)
    requires s != [] && s[0] == '{'
    ensures ReplacementField(s, 0, [], h).Stopped? ==> Scan(s, 0, 0, [], h) == ReplacementField(s, 0, [], h).log
  {
    assert [] + Texts(s[0..0]) == [];
    hide ReplacementField;
  }

  lemma IndexStarts(s: seq<char>, index: nat, at: nat)
    requires at == 1 + |DecimalText(index)| <= |s| && s[1..at] == DecimalText(index) && (at < |s| ==> !IsDigit(s[at]))
    ensures at > 1 && IsDigit(s[1]) && at == if s[1] == '0' then 2 else DigitsEnd(s, 1)
  {
    hide DecimalText, DigitsEnd, Number, DigitCount;
    DecimalTextIsNumber(index);
    FirstDigit(index);
    SliceAt(s, 1, DecimalText(index));
    assert s[1 + 0] == DecimalText(index)[0];
    if s[1] == '0' {
      ZeroIsOneDigit(index);
    } else {
      DigitsEndIs(s, 1, at);
    }
  }

  /** A field that begins with none of the characters an id may begin with, or that nothing follows. */
  lemma NoField(tail: seq<char>, h: Handler)
    requires tail == [] || (tail[0] != '}' && tail[0] != ':' && tail[0] != '{' && !IsNamePart(tail[0]))
    ensures Scan("{" + tail, 0, 0, [], h) == [Fail("invalid format string")]
  {
    var s := "{" + tail;
    StartOfField(s, h);
    assert |s| > 1 ==> s[1] == tail[0];
  }

  /** A format specifier without its closing brace. */
  lemma UnfinishedSpec(id: Id, spec: seq<char>, h: Handler)
    requires NeverThrows(h) && LooksForBrace(h) && (id.Named? ==> ValidName(id.name)) && '}' !in spec
    ensures Scan("{" + RenderId(id) + ":" + spec, 0, 0, [], h) ==
            [IdEvent(id), Specs(|RenderId(id)| + 2), Fail("unknown format specifier")]
  {
    hide DecimalText, DigitsEnd, NameEnd, ParsedInt, Scan, ArgId, FirstBrace, RenderId, ValidName;
    var s, at := "{" + RenderId(id) + ":" + spec, 1 + |RenderId(id)|;
    assert s[1..at] == RenderId(id) && s[at] == ':' && s[at + 1..] == spec;
    StartOfField(s, h);
    AutomaticIsEmpty();
    IdIsRead(s, 1, [], h, id);
    BraceIsFirst(spec);
    assert FirstBrace(spec) == |spec|;
    assert h.specs([IdEvent(id)] + [Specs(at + 1)], spec) == Some(|spec|);
    NeverFails(id);
  }

  // Handlers that throw.

  predicate Throwable(e: Event) {
    e.AutoId? || e.IndexId? || e.NameId? || e.Field?
  }

  function Quiet(h: Handler): Handler {
    h.(throws := (log: seq<Event>) => false)
  }

  /** The handler has not thrown on any of the first `count` events. */
  ghost predicate Unthrown(log: seq<Event>, count: int, h: Handler) {
    forall n {:trigger log[..n]} :: 0 < n <= count && n <= |log| && Throwable(log[n - 1]) ==> !h.throws(log[..n])
  }

  /** `all` up to the first event on which the handler throws, that one included. */
  ghost predicate CutByThrow(told: seq<Event>, all: seq<Event>, h: Handler) {
    && told <= all && Unthrown(told, |told| - 1, h)
    && (told != all ==> told != [] && Throwable(told[|told| - 1]) && h.throws(told))
  }

  lemma UnthrownSnoc(log: seq<Event>, e: Event, h: Handler)
    requires Unthrown(log, |log|, h)
    ensures Unthrown(log + [e], |log|, h)
    ensures (Throwable(e) && h.throws(log + [e])) || Unthrown(log + [e], |log| + 1, h)
  {
    var all := log + [e];
    forall n {:trigger all[..n]} | 0 < n <= |log|
      ensures all[..n] == log[..n] && all[n - 1] == log[n - 1]
    {
    }
    assert all[..|all|] == all;
  }

  /** A step of the scan, with the handler and with one that is told the same but never throws. */
  ghost predicate SameStep(o: Outcome, quiet: Outcome, log: seq<Event>, h: Handler) {
    if o.Going? then quiet == o && log <= o.log && Unthrown(o.log, |o.log|, h)
    else && log <= o.log && CutByThrow(o.log, quiet.log, h)
         && (quiet.Going? ==> o.log != [] && Throwable(o.log[|o.log| - 1]) && h.throws(o.log))
  }

  lemma TellStep(log: seq<Event>, e: Event, at: nat, h: Handler)
    requires Unthrown(log, |log|, h) && (e.Fail? || Throwable(e))
    ensures SameStep(Tell(log, e, at, h), Tell(log, e, at, Quiet(h)), log, h)
  {
    hide Unthrown;
    UnthrownSnoc(log, e, h);
  }

  lemma SpecsStep(s: seq<char>, p: nat, log: seq<Event>, h: Handler)
    requires p <= |s| && Unthrown(log, |log|, h)
    ensures SameStep(SpecsField(s, p, log, h), SpecsField(s, p, log, Quiet(h)), log, h)
  {
    hide Unthrown;
    var told := log + [Specs(p)];
    UnthrownSnoc(log, Specs(p), h);
    UnthrownSnoc(told, Fail("unknown format specifier"), h);
  }

  lemma IdStep(s: seq<char>, p: nat, log: seq<Event>, h: Handler)
    requires p < |s| && Unthrown(log, |log|, h)
    ensures SameStep(ArgId(s, p, log, h), ArgId(s, p, log, Quiet(h)), log, h)
  {
    hide Tell, SameStep, DigitsEnd, NameEnd, ParsedInt, Unthrown;
    forall e: Event, at: nat | e.Fail? || Throwable(e)
      ensures SameStep(Tell(log, e, at, h), Tell(log, e, at, Quiet(h)), log, h)
    {
      TellStep(log, e, at, h);
    }
  }

  /** The second step of two, after the first went on. */
  lemma ThenStep(log: seq<Event>, mid: seq<Event>, o: Outcome, quiet: Outcome, h: Handler)
    requires log <= mid && SameStep(o, quiet, mid, h)
    ensures SameStep(o, quiet, log, h)
  {
    hide CutByThrow, Unthrown;
  }

  lemma StoppedStep(log: seq<Event>, o: Outcome, quiet: Outcome, later: Outcome, h: Handler)
    requires o.Stopped? && SameStep(o, quiet, log, h)
    requires if quiet.Stopped? then later == quiet else quiet.log <= later.log
    ensures SameStep(o, later, log, h)
  {
    hide Unthrown;
  }

  lemma TextStep(log: seq<Event>, text: seq<char>, h: Handler)
    requires Unthrown(log, |log|, h)
    ensures Unthrown(log + Texts(text), |log + Texts(text)|, h)
  {
    var all := log + Texts(text);
    forall n {:trigger all[..n]} | 0 < n <= |all| && Throwable(all[n - 1])
      ensures !h.throws(all[..n])
    {
      assert all[..n] == log[..n];
    }
  }

  lemma FieldStep(s: seq<char>, p: nat, log: seq<Event>, h: Handler)
    requires p < |s| && Unthrown(log, |log|, h)
    ensures SameStep(ReplacementField(s, p, log, h), ReplacementField(s, p, log, Quiet(h)), log, h)
  {
    hide ArgId, SpecsField, Tell, SameStep, Unthrown, Texts;
    if p + 1 == |s| {
      TellStep(log, Fail("invalid format string"), |s|, h);
    } else if s[p + 1] == '{' {
      BraceStep(log, p + 2, h);
    } else if s[p + 1] == '}' {
      TellStep(log, AutoId, p + 1, h);
      var o, quiet := Tell(log, AutoId, p + 1, h), Tell(log, AutoId, p + 1, Quiet(h));
      StepMeans(o, quiet, log, h);
      if o.Going? {
        TellStep(o.log, Field(p + 1), p + 2, h);
        ThenStep(log, o.log, ReplacementField(s, p, log, h), ReplacementField(s, p, log, Quiet(h)), h);
      } else if quiet.Going? {
        LogKept(quiet.log, Field(p + 1), p + 2, Quiet(h));
        StoppedStep(log, o, quiet, ReplacementField(s, p, log, Quiet(h)), h);
      }
    } else {
      IdStep(s, p + 1, log, h);
      var o, quiet := ArgId(s, p + 1, log, h), ArgId(s, p + 1, log, Quiet(h));
      StepMeans(o, quiet, log, h);
      if o.Going? {
        BehindIdStep(s, o.at, o.log, h);
        ThenStep(log, o.log, ReplacementField(s, p, log, h), ReplacementField(s, p, log, Quiet(h)), h);
      } else if quiet.Going? {
        BehindIdKept(s, quiet.at, quiet.log, Quiet(h));
        StoppedStep(log, o, quiet, ReplacementField(s, p, log, Quiet(h)), h);
      }
    }
  }

  lemma StepMeans(o: Outcome, quiet: Outcome, log: seq<Event>, h: Handler)
    requires SameStep(o, quiet, log, h)
    ensures if o.Going? then quiet == o && log <= o.log && Unthrown(o.log, |o.log|, h) else log <= o.log
  {
    hide Unthrown, CutByThrow;
  }

  lemma BraceStep(log: seq<Event>, at: nat, h: Handler)
    requires Unthrown(log, |log|, h)
    ensures SameStep(Going(log + [Text('{')], at), Going(log + [Text('{')], at), log, h)
  {
    hide Unthrown;
    UnthrownSnoc(log, Text('{'), h);
  }

  lemma LogKept(log: seq<Event>, e: Event, at: nat, h: Handler)
    ensures log <= Tell(log, e, at, h).log
  {
  }

  lemma BehindIdStep(s: seq<char>, at: nat, log: seq<Event>, h: Handler)
    requires at <= |s| && Unthrown(log, |log|, h)
    ensures SameStep(Behind(s, at, log, h), Behind(s, at, log, Quiet(h)), log, h)
  {
    hide SpecsField, Tell, SameStep, Unthrown;
    if at < |s| && s[at] == ':' {
      SpecsStep(s, at + 1, log, h);
    } else {
      TellStep(log, Field(at), at + 1, h);
      TellStep(log, Fail("missing '}' in format string"), |s|, h);
    }
  }

  lemma BehindIdKept(s: seq<char>, at: nat, log: seq<Event>, h: Handler)
    requires at <= |s|
    ensures log <= Behind(s, at, log, h).log
  {
  }

  lemma {:induction false} ScanKeeps(s: seq<char>, begin: nat, p: nat, log: seq<Event>, h: Handler)
    requires begin <= p <= |s|
    ensures log <= Scan(s, begin, p, log, h)
    decreases |s| - p
  {
    hide ReplacementField, Texts;
    if p == |s| {
    } else if s[p] == '{' {
      var told := log + Texts(s[begin..p]);
      FieldKeeps(s, p, told, h);
      var o := ReplacementField(s, p, told, h);
      if o.Going? {
        ScanKeeps(s, o.at, o.at, o.log, h);
      }
    } else if s[p] == '}' {
      if p + 1 < |s| && s[p + 1] == '}' {
        ScanKeeps(s, p + 2, p + 2, log + Texts(s[begin..p + 1]), h);
      }
    } else {
      ScanKeeps(s, begin, p + 1, log, h);
    }
  }

  lemma FieldKeeps(s: seq<char>, p: nat, log: seq<Event>, h: Handler)
    requires p < |s|
    ensures log <= ReplacementField(s, p, log, h).log
  {
    hide ArgId, Behind;
    if p + 1 < |s| {
      IdKept(s, p + 1, log, h);
      var o := ArgId(s, p + 1, log, h);
      if o.Going? {
        BehindIdKept(s, o.at, o.log, h);
      }
    }
  }

  lemma IdKept(s: seq<char>, p: nat, log: seq<Event>, h: Handler)
    requires p < |s|
    ensures log <= ArgId(s, p, log, h).log
  {
    hide DigitsEnd, NameEnd, ParsedInt;
  }

  lemma {:induction false} ScanIsCut(s: seq<char>, begin: nat, p: nat, log: seq<Event>, h: Handler)
    requires begin <= p <= |s| && Unthrown(log, |log|, h)
    ensures CutByThrow(Scan(s, begin, p, log, h), Scan(s, begin, p, log, Quiet(h)), h)
    decreases |s| - p
  {
    hide ReplacementField, Texts, Unthrown, CutByThrow, SameStep, Quiet;
    TextStep(log, s[begin..], h);
    TextStep(log, s[begin..p], h);
    if p == |s| {
      AllTold(log + Texts(s[begin..]), h);
    } else if s[p] == '{' {
      var told := log + Texts(s[begin..p]);
      FieldStep(s, p, told, h);
      var o, quiet := ReplacementField(s, p, told, h), ReplacementField(s, p, told, Quiet(h));
      StepMeans(o, quiet, told, h);
      if o.Going? {
        ScanIsCut(s, o.at, o.at, o.log, h);
      } else {
        if quiet.Going? {
          ScanKeeps(s, quiet.at, quiet.at, quiet.log, Quiet(h));
        }
        CutHere(told, o, quiet, Scan(s, begin, p, log, Quiet(h)), h);
      }
    } else if s[p] == '}' {
      if p + 1 == |s| || s[p + 1] != '}' {
        UnthrownSnoc(log, Fail(UNMATCHED), h);
        AllTold(log + [Fail(UNMATCHED)], h);
      } else {
        TextStep(log, s[begin..p + 1], h);
        ScanIsCut(s, p + 2, p + 2, log + Texts(s[begin..p + 1]), h);
      }
    } else {
      ScanIsCut(s, begin, p + 1, log, h);
    }
  }

  lemma AllTold(log: seq<Event>, h: Handler)
    requires Unthrown(log, |log|, h)
    ensures CutByThrow(log, log, h)
  {
  }

  lemma CutHere(log: seq<Event>, o: Outcome, quiet: Outcome, all: seq<Event>, h: Handler)
    requires o.Stopped? && SameStep(o, quiet, log, h)
    requires if quiet.Stopped? then all == quiet.log else quiet.log <= all
    ensures CutByThrow(o.log, all, h)
  {
    hide Unthrown;
  }

  /** Every handler is told what one that never throws would be told, up to the first event on which it throws. */
  lemma FirstThrowStops(s: seq<char>, h: Handler)
    ensures CutByThrow(Scan(s, 0, 0, [], h), Scan(s, 0, 0, [], Quiet(h)), h) && NeverThrows(Quiet(h))
  {
    hide Scan;
    ScanIsCut(s, 0, 0, [], h);
  }
}
