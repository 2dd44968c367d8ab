/** Decimal integers with locale-dependent digit grouping: one loop computes the size, another writes from the right. */
module Grouping {
  import opened Powers
  import opened Decimal
  import opened IntegerText

  const CHAR_MAX: int := 127

  /** The size of the `k`th group from the right. The last entry of the grouping string repeats. */
  function GroupAt(groups: seq<int>, k: nat): int
    requires |groups| > 0
  {
    if k < |groups| then groups[k] else groups[|groups| - 1]
  }

  /** Whether a group of this size ends; otherwise it takes all the remaining digits. */
  predicate Ends(size: int) {
    size > 0 && size != CHAR_MAX
  }

  /** The digits with separators, starting at group `k` from the right. */
  function Grouped(ds: seq<char>, groups: seq<int>, k: nat, separator: char): (text: seq<char>)
    requires |groups| > 0
    ensures |text| == |ds| + Separators(|ds|, groups, k)
    decreases |ds|
  {
    var g := GroupAt(groups, k);
    if !Ends(g) || |ds| <= g
    then ds
    else Grouped(ds[..|ds| - g], groups, k + 1, separator) + [separator] + ds[|ds| - g..]
  }

  function Separators(n: nat, groups: seq<int>, k: nat): nat
    requires |groups| > 0
    decreases n
  {
    var g := GroupAt(groups, k);
    if !Ends(g) || n <= g then 0 else 1 + Separators(n - g, groups, k + 1)
  }

  // What the text promises.

  function Without(text: seq<char>, separator: char): seq<char> {
    if text == [] then []
    else if text[|text| - 1] == separator then Without(text[..|text| - 1], separator)
    else Without(text[..|text| - 1], separator) + [text[|text| - 1]]
  }

  lemma {:induction false} WithoutConcat(s: seq<char>, t: seq<char>, separator: char)
    ensures Without(s + t, separator) == Without(s, separator) + Without(t, separator)
  {
    if t == [] {
      assert s + t == s;
    } else {
      WithoutConcat(s, t[..|t| - 1], separator);
      assert (s + t)[..|s + t| - 1] == s + t[..|t| - 1];
    }
  }

  lemma {:induction false} WithoutNone(s: seq<char>, separator: char)
    requires separator !in s
    ensures Without(s, separator) == s
  {
    if s == [] {
    } else {
      WithoutNone(s[..|s| - 1], separator);
    }
  }

  lemma GroupedIs(ds: seq<char>, groups: seq<int>, k: nat, separator: char)
    requires |groups| > 0
    ensures var g := GroupAt(groups, k);
            if !Ends(g) || |ds| <= g
            then Grouped(ds, groups, k, separator) == ds
            else
              && 0 < g
              && Grouped(ds, groups, k, separator)
                 == Grouped(ds[..|ds| - g], groups, k + 1, separator) + [separator] + ds[|ds| - g..]
  {
  }

  lemma Halves(ds: seq<char>, n: nat, separator: char)
    requires n <= |ds| && separator !in ds
    ensures ds[..n] + ds[n..] == ds && separator !in ds[..n] && separator !in ds[n..]
    ensures Without([separator], separator) == []
  {
    assert [separator][..0] == [];
  }

  lemma Associate(a: seq<char>, b: seq<char>, c: seq<char>)
    ensures a + b + c == a + (b + c) && a + [] == a
  {
  }

  /** Deleting the separators gives back the digits. */
  lemma {:induction false} SeparatorsDelete(ds: seq<char>, groups: seq<int>, k: nat, separator: char)
    requires |groups| > 0 && separator !in ds
    ensures Without(Grouped(ds, groups, k, separator), separator) == ds
    decreases |ds|
  {
    hide *;
    GroupedIs(ds, groups, k, separator);
    var g := GroupAt(groups, k);
    if !Ends(g) || |ds| <= g {
      WithoutNone(ds, separator);
    } else {
      var n := |ds| - g;
      Halves(ds, n, separator);
      SeparatorsDelete(ds[..n], groups, k + 1, separator);
      var left := Grouped(ds[..n], groups, k + 1, separator);
      WithoutConcat(left + [separator], ds[n..], separator);
      WithoutConcat(left, [separator], separator);
      WithoutNone(ds[n..], separator);
      Associate(ds[..n], [], []);
    }
  }

  /** The pieces between separators, from left to right. */
  function Pieces(text: seq<char>, separator: char): (ps: seq<seq<char>>)
    ensures |ps| > 0
  {
    if text == [] then [[]]
    else
      var ps := Pieces(text[..|text| - 1], separator);
      var c := text[|text| - 1];
      if c == separator then ps + [[]] else ps[..|ps| - 1] + [ps[|ps| - 1] + [c]]
  }

  lemma {:induction false} PiecesNone(s: seq<char>, separator: char)
    requires separator !in s
    ensures Pieces(s, separator) == [s]
  {
    if s == [] {
    } else {
      PiecesNone(s[..|s| - 1], separator);
      assert s[..|s| - 1] + [s[|s| - 1]] == s;
    }
  }

  lemma {:induction false} LastPiece(left: seq<char>, right: seq<char>, separator: char)
    requires separator !in right
    ensures Pieces(left + [separator] + right, separator) == Pieces(left, separator) + [right]
  {
    var text := left + [separator] + right;
    if right == [] {
      assert text[..|text| - 1] == left;
    } else {
      LastPiece(left, right[..|right| - 1], separator);
      assert text[..|text| - 1] == left + [separator] + right[..|right| - 1];
      assert right[..|right| - 1] + [right[|right| - 1]] == right;
    }
  }

  /** Counted from the right, every piece but the leftmost is exactly one group long, and the leftmost is no longer than
      its group, unless that group takes all the rest. */
  ghost predicate FollowGrouping(ps: seq<seq<char>>, groups: seq<int>, k: nat)
    requires |ps| > 0 && |groups| > 0
  {
    && (forall j {:trigger ps[j]} :: 0 < j < |ps| ==> FullGroup(ps[j], GroupAt(groups, k + |ps| - 1 - j)))
    && |ps[0]| > 0
    && (Ends(GroupAt(groups, k + |ps| - 1)) ==> |ps[0]| <= GroupAt(groups, k + |ps| - 1))
  }

  predicate FullGroup(piece: seq<char>, size: int) {
    Ends(size) && |piece| == size
  }

  lemma OneMoreGroup(ps: seq<seq<char>>, piece: seq<char>, groups: seq<int>, k: nat)
    requires |ps| > 0 && |groups| > 0 && FollowGrouping(ps, groups, k + 1) && FullGroup(piece, GroupAt(groups, k))
    ensures FollowGrouping(ps + [piece], groups, k)
  {
    hide GroupAt, FullGroup;
    var all := ps + [piece];
    forall j {:trigger all[j]} | 0 < j < |all|
      ensures FullGroup(all[j], GroupAt(groups, k + |all| - 1 - j))
    {
      if j < |ps| {
        assert all[j] == ps[j];
        assert k + |all| - 1 - j == k + 1 + |ps| - 1 - j;
      }
    }
    assert k + |all| - 1 == k + 1 + |ps| - 1;
  }

  lemma LeftmostFollows(ds: seq<char>, groups: seq<int>, k: nat)
    requires |groups| > 0 && ds != [] && (!Ends(GroupAt(groups, k)) || |ds| <= GroupAt(groups, k))
    ensures FollowGrouping([ds], groups, k)
  {
    hide GroupAt;
  }

  lemma FullGroupIs(ds: seq<char>, n: nat, g: int)
    requires Ends(g) && 0 < g < |ds| && n == |ds| - g
    ensures FullGroup(ds[n..], g)
  {
  }

  lemma {:induction false} PiecesFollowGrouping(ds: seq<char>, groups: seq<int>, k: nat, separator: char)
    requires |groups| > 0 && ds != [] && separator !in ds
    ensures FollowGrouping(Pieces(Grouped(ds, groups, k, separator), separator), groups, k)
    decreases |ds|
  {
    hide *;
    GroupedIs(ds, groups, k, separator);
    var g := GroupAt(groups, k);
    if !Ends(g) || |ds| <= g {
      PiecesNone(ds, separator);
      LeftmostFollows(ds, groups, k);
    } else {
      var n := |ds| - g;
      Halves(ds, n, separator);
      PiecesFollowGrouping(ds[..n], groups, k + 1, separator);
      var left := Grouped(ds[..n], groups, k + 1, separator);
      LastPiece(left, ds[n..], separator);
      FullGroupIs(ds, n, g);
      OneMoreGroup(Pieces(left, separator), ds[n..], groups, k);
    }
  }

  /** What is written for a number reads back as that number, grouped as the locale asks. */
  lemma LocalizedTextReadsBack(value: nat, groups: seq<int>, separator: char)
    requires |groups| > 0 && !IsDigit(separator)
    ensures var text := Grouped(DecimalText(value), groups, 0, separator);
            && Without(text, separator) == DecimalText(value) && Number(DecimalText(value)) == value
            && FollowGrouping(Pieces(text, separator), groups, 0)
  {
    DecimalTextIsNumber(value);
    SeparatorsDelete(DecimalText(value), groups, 0, separator);
    PiecesFollowGrouping(DecimalText(value), groups, 0, separator);
  }

  /** The lengths of the pieces from the right, by the bytes of the grouping: an entry of zero, below zero or 127 takes all
      the digits that are left, any other one that many, and the last one again and again. */
  lemma PieceLengths(ds: seq<char>, groups: seq<int>, separator: char)
    requires |groups| > 0 && ds != [] && separator !in ds
    ensures var ps := Pieces(Grouped(ds, groups, 0, separator), separator);
            var last := groups[|groups| - 1];
            && (forall j {:trigger ps[j]} :: 0 < j < |ps| ==>
                 var t := |ps| - 1 - j;
                 var entry := if t < |groups| then groups[t] else last;
                 0 < entry != 127 && |ps[j]| == entry)
            && var entry := if |ps| - 1 < |groups| then groups[|ps| - 1] else last;
               |ps[0]| > 0 && (0 < entry != 127 ==> |ps[0]| <= entry)
  {
    hide Grouped, Pieces;
    PiecesFollowGrouping(ds, groups, 0, separator);
  }

  // The two loops.

  /** Past the last entry, the remaining separators are counted by a division. */
  lemma {:induction false} RepeatedGroups(n: nat, groups: seq<int>, k: nat)
    requires |groups| > 0 && k >= |groups| && Ends(groups[|groups| - 1]) && n > 0
    ensures Separators(n, groups, k) == (n - 1) / groups[|groups| - 1]
    decreases n
  {
    var g := groups[|groups| - 1];
    if n > g {
      RepeatedGroups(n - g, groups, k + 1);
      DivModUnique(n - 1, g, (n - g - 1) / g + 1, (n - g - 1) % g) by {
        DivModParts(n - g - 1, g);
      }
    } else {
      DivModUnique(n - 1, g, 0, n - 1);
    }
  }

  lemma DivModParts(n: nat, g: nat)
    requires g > 0
    ensures n == n / g * g + n % g
    ensures n + g == (n / g + 1) * g + n % g
  {
  }

  method SizeOfGrouped(numDigits: nat, groups: seq<int>) returns (size: nat)
    requires numDigits > 0 && |groups| > 0
    ensures size == numDigits + Separators(numDigits, groups, 0)
  {
    size := numDigits;
    var n: nat := numDigits;
    var group := 0;
    while group < |groups| && n > groups[group] && groups[group] > 0 && groups[group] != CHAR_MAX
      invariant group <= |groups| && n > 0 && numDigits <= size
      invariant size + Separators(n, groups, group) == numDigits + Separators(numDigits, groups, 0)
      invariant group > 0 ==> Ends(groups[group - 1])
    {
      size := size + 1;
      n := n - groups[group];
      group := group + 1;
    }
    if group == |groups| {
      RepeatedGroups(n, groups, group);
      size := size + (n - 1) / groups[|groups| - 1];
    }
  }

  /** The rightmost group appears unchanged at the right end. */
  lemma GroupedEnd(ds: seq<char>, groups: seq<int>, k: nat, separator: char, c: nat)
    requires |groups| > 0 && c < |ds| && (Ends(GroupAt(groups, k)) ==> c < GroupAt(groups, k))
    ensures var text := Grouped(ds, groups, k, separator);
            |text| >= |ds| && text[|text| - 1 - c] == ds[|ds| - 1 - c]
  {
  }

  lemma NextIndex(index: nat, g: nat)
    requires g > 0
    ensures (index + 1) % g == if index % g == g - 1 then 0 else index % g + 1
  {
    var q := index / g;
    assert index == q * g + index % g;
    if index % g == g - 1 {
      DivModUnique(index + 1, g, q + 1, 0);
    } else {
      DivModUnique(index + 1, g, q, index % g + 1);
    }
  }

  /** Writes digits and separators from the right into a buffer of exactly the computed size, and the sign in front.
      Without a separator there is nothing to do here, and a locale that has one has a grouping. */
  method WriteIntLocalized(value: nat, prefix: nat, groups: seq<int>, separator: char) returns (ok: bool, text: seq<char>)
    requires value < 0x1_0000_0000_0000_0000_0000_0000_0000_0000
    requires separator != '\0' ==> |groups| > 0
    ensures ok <==> separator != '\0'
    ensures ok && prefix == 0 ==> text == Grouped(DecimalText(value), groups, 0, separator)
    ensures ok && prefix != 0 ==> text == [(prefix % 256) as char] + Grouped(DecimalText(value), groups, 0, separator)
  {
    if separator == '\0' {
      return false, [];
    }
    hide DecimalText, DigitCount, Number, Pow;
    var numDigits := CountDigitsFallback(value);
    var size := SizeOfGrouped(numDigits, groups);
    AtMost39Digits(value);
    var digits := new char[40];
    var out := FormatDecimal(digits, value, numDigits);
    ghost var ds := DecimalText(value);
    assert |ds| == numDigits && forall i :: 0 <= i < numDigits ==> digits[i] == ds[i];
    if prefix != 0 {
      size := size + 1;
    }
    var buffer := new char[size];
    var p := WriteGroups(digits, numDigits, buffer, groups, separator, if prefix != 0 then 1 else 0, ds);
    if prefix != 0 {
      buffer[p] := (prefix % 256) as char;
    }
    text := buffer[..];
    ok := true;
  }

  // Signed numbers.

  /** What a number that is not negative shows in front. */
  datatype Sign = Nothing | Minus | Plus | Space

  function PrefixOf(c: char): nat {
    0x0100_0000 + c as int
  }

  datatype Width = Bits32 | Bits64 | Bits128 {
    function Range(): nat {
      match this
      case Bits32 => 0x1_0000_0000
      case Bits64 => 0x1_0000_0000_0000_0000
      case Bits128 => 0x1_0000_0000_0000_0000_0000_0000_0000_0000
    }

    function Wrap(n: int): nat {
      match this
      case Bits32 => n % 0x1_0000_0000
      case Bits64 => n % 0x1_0000_0000_0000_0000
      case Bits128 => n % 0x1_0000_0000_0000_0000_0000_0000_0000_0000
    }
  }

  /** Magnitude and prefix of a number, the magnitude in wrapping arithmetic. */
  function MakeWriteIntArg(value: int, width: Width, sign: Sign): (nat, nat) {
    var absValue: int := width.Wrap(value);
    if value < 0 then (width.Wrap(-absValue), PrefixOf('-'))
    else (absValue,
          match sign
          case Nothing => 0
          case Minus => 0
          case Plus => PrefixOf('+')
          case Space => PrefixOf(' '))
  }

  lemma MagnitudeIsRight(value: int, width: Width, sign: Sign)
    requires 0 <= 2 * value + width.Range() && value < width.Range()
    ensures MakeWriteIntArg(value, width, sign).0 == if value < 0 then -value else value
  {
    hide Width.Wrap, Width.Range;
    if value < 0 {
      WrapIs(width, value, value + width.Range(), -1);
      WrapIs(width, -(value + width.Range()), -value, -1);
    } else {
      WrapIs(width, value, value, 0);
    }
  }

  lemma WrapIs(width: Width, n: int, r: int, q: int)
    requires 0 <= r < width.Range() && n == q * width.Range() + r
    ensures width.Wrap(n) == r
  {
    DivModUnique(n, width.Range(), q, r);
  }

  /** A signed number as a reader takes it: a sign or not, and digits in groups. */
  function ReadSigned(text: seq<char>, separator: char): int {
    if text != [] && text[0] == '-' then -Number(Without(text[1..], separator))
    else if text != [] && (text[0] == '+' || text[0] == ' ') then Number(Without(text[1..], separator))
    else Number(Without(text, separator))
  }

  /** Writes a number with its sign; what is written reads back as that number. */
  method WriteSigned(value: int, width: Width, sign: Sign, groups: seq<int>, separator: char) returns (ok: bool, text: seq<char>)
    requires 0 <= 2 * value + width.Range() && value < width.Range()
    requires separator != '\0' ==> |groups| > 0
    ensures ok <==> separator != '\0'
    ensures ok ==> text != [] && (text[0] == '-' <==> value < 0)
    ensures ok ==> (text[0] == '+' <==> value >= 0 && sign == Plus) && (text[0] == ' ' <==> value >= 0 && sign == Space)
    ensures ok && !IsDigit(separator) ==> ReadSigned(text, separator) == value
  {
    MagnitudeIsRight(value, width, sign);
    hide DecimalText, Grouped, Number, Without;
    var arg := MakeWriteIntArg(value, width, sign);
    ok, text := WriteIntLocalized(arg.0, arg.1, groups, separator);
    if ok {
      DigitInFront(arg.0, groups, separator);
      ReadsBack(text, arg.0, arg.1, groups, separator);
    }
  }

  lemma ReadsBack(text: seq<char>, value: nat, prefix: nat, groups: seq<int>, separator: char)
    requires |groups| > 0 && prefix in {0, PrefixOf('-'), PrefixOf('+'), PrefixOf(' ')}
    requires text == (if prefix == 0 then [] else [(prefix % 256) as char]) + Grouped(DecimalText(value), groups, 0, separator)
    ensures !IsDigit(separator) ==> ReadSigned(text, separator) == if prefix == PrefixOf('-') then 0 - value else value
  {
    hide DecimalText, Grouped, Number, Without, Pieces, FollowGrouping, DigitCount;
    DigitInFront(value, groups, separator);
    SignAndBody(text, prefix, Grouped(DecimalText(value), groups, 0, separator), separator);
    if !IsDigit(separator) {
      LocalizedTextReadsBack(value, groups, separator);
    }
  }

  lemma SignAndBody(text: seq<char>, prefix: nat, body: seq<char>, separator: char)
    requires prefix in {0, PrefixOf('-'), PrefixOf('+'), PrefixOf(' ')} && body != [] && IsDigit(body[0])
    requires text == (if prefix == 0 then [] else [(prefix % 256) as char]) + body
    ensures ReadSigned(text, separator) ==
            if prefix == PrefixOf('-') then -Number(Without(body, separator)) else Number(Without(body, separator))
  {
    hide Number, Without;
    assert text == body || text[1..] == body;
  }

  lemma {:induction false} FirstStays(ds: seq<char>, groups: seq<int>, k: nat, separator: char)
    requires |groups| > 0 && ds != []
    ensures Grouped(ds, groups, k, separator) != [] && Grouped(ds, groups, k, separator)[0] == ds[0]
    decreases |ds|
  {
    hide *;
    GroupedIs(ds, groups, k, separator);
    var g := GroupAt(groups, k);
    if Ends(g) && |ds| > g {
      FirstStays(ds[..|ds| - g], groups, k + 1, separator);
    }
  }

  lemma DigitInFront(value: nat, groups: seq<int>, separator: char)
    requires |groups| > 0
    ensures var body := Grouped(DecimalText(value), groups, 0, separator); body != [] && IsDigit(body[0])
  {
    hide Grouped, Number, DecimalText;
    DecimalTextIsNumber(value);
    FirstStays(DecimalText(value), groups, 0, separator);
  }

  lemma AtMost39Digits(n: nat)
    requires n < 0x1_0000_0000_0000_0000_0000_0000_0000_0000
    ensures 0 < |DecimalText(n)| == DigitCount(n) <= 39
  {
    DecimalTextIsNumber(n);
    DigitCountBounds(n);
    PowersOf10();
    hide Pow;
    PowAdd(10, 19, 20);
    if DigitCount(n) > 39 {
      PowMono(10, 39, DigitCount(n) - 1);
    }
  }

  /** Where the writing loop is: the next digit is number `i` and goes to `at`. It belongs to group `k`, which ends before
      digit `e`; digits `e` and up are done. */
  datatype Place = Place(k: nat, e: nat, i: nat, at: nat)

  /** `group` and `digitIndex` point at the place in the grouping, and the text up to `at` is grouped from group `k` on. */
  ghost predicate Here(text: seq<char>, ds: seq<char>, groups: seq<int>, separator: char, here: Place, group: nat, digitIndex: nat)
    requires |groups| > 0
  {
    && here.i < here.e <= |ds|
    && InGroup(groups, here.k, group, digitIndex, here.e - here.i - 1)
    && Grouped(ds[..here.e], groups, here.k, separator) <= text
    && here.at + (here.e - here.i) == |Grouped(ds[..here.e], groups, here.k, separator)|
  }

  ghost predicate InGroup(groups: seq<int>, k: nat, group: nat, digitIndex: nat, c: nat)
    requires |groups| > 0
  {
    && group == (if k < |groups| then k else |groups| - 1)
    && (Ends(GroupAt(groups, k)) ==> digitIndex % GroupAt(groups, k) == c < GroupAt(groups, k))
  }

  lemma StartHere(ds: seq<char>, groups: seq<int>, separator: char)
    requires |groups| > 0 && |ds| > 0
    ensures var text := Grouped(ds, groups, 0, separator);
            |text| > 0 && Here(text, ds, groups, separator, Place(0, |ds|, |ds| - 1, |text| - 1), 0, 0)
  {
    assert ds[..|ds|] == ds;
  }

  lemma DigitGoesHere(text: seq<char>, ds: seq<char>, groups: seq<int>, separator: char, here: Place, group: nat, digitIndex: nat)
    requires |groups| > 0 && Here(text, ds, groups, separator, here, group, digitIndex)
    ensures here.i <= here.at < |text| && here.i < |ds| && text[here.at] == ds[here.i] && (here.i == 0 ==> here.at == 0)
  {
    GroupedEnd(ds[..here.e], groups, here.k, separator, here.e - here.i - 1);
  }

  /** A full group with digits left over: its separator comes next. */
  lemma SeparatorGoesHere(text: seq<char>, ds: seq<char>, groups: seq<int>, separator: char, k: nat, e: nat, i: nat)
    requires |groups| > 0 && i < e <= |ds| && Ends(GroupAt(groups, k)) && e - i == GroupAt(groups, k) && i > 0
    requires Grouped(ds[..e], groups, k, separator) <= text
    ensures var upper := Grouped(ds[..i], groups, k + 1, separator);
            && |Grouped(ds[..e], groups, k, separator)| == |upper| + 1 + (e - i)
            && upper <= text && |upper| < |text| && text[|upper|] == separator
  {
    assert ds[..e][..i] == ds[..i];
    assert ds[..e][i..] == ds[i..e];
    var upper := Grouped(ds[..i], groups, k + 1, separator);
    assert Grouped(ds[..e], groups, k, separator) == upper + [separator] + ds[i..e];
  }

  /** Moves past one digit; `full` says that it closed its group. */
  method NextDigit(groups: seq<int>, group: nat, digitIndex: nat,
                   ghost text: seq<char>, ghost ds: seq<char>, ghost separator: char, ghost here: Place)
    returns (full: bool, group': nat, digitIndex': nat, ghost next: Place)
    requires |groups| > 0 && Here(text, ds, groups, separator, here, group, digitIndex) && here.i > 0
    ensures Here(text, ds, groups, separator, next, group', digitIndex')
    ensures next.i == here.i - 1 && next.at == here.at - if full then 2 else 1
    ensures full ==> 0 < here.at <= |text| && text[here.at - 1] == separator
  {
    hide Grouped, Separators;
    DigitGoesHere(text, ds, groups, separator, here, group, digitIndex);
    full, group', digitIndex' := false, group, digitIndex;
    next := here.(i := here.i - 1, at := here.at - 1);
    if groups[group] <= 0 {
      return;
    }
    NextIndex(digitIndex, groups[group]);
    digitIndex' := digitIndex + 1;
    if digitIndex' % groups[group] != 0 || groups[group] == CHAR_MAX {
      return;
    }
    full := true;
    if group + 1 != |groups| {
      digitIndex' := 0;
      group' := group + 1;
    }
    SeparatorGoesHere(text, ds, groups, separator, here.k, here.e, here.i);
    next := Place(here.k + 1, here.i, here.i - 1, here.at - 2);
  }

  /** The writing loop. */
  method WriteGroups(digits: array<char>, numDigits: nat, buffer: array<char>, groups: seq<int>, separator: char,
                     ghost first: nat, ghost ds: seq<char>)
    returns (p: int)
    requires |groups| > 0 && 0 < numDigits == |ds| <= digits.Length && digits != buffer
    requires forall i :: 0 <= i < numDigits ==> digits[i] == ds[i]
    requires buffer.Length == first + |Grouped(ds, groups, 0, separator)|
    modifies buffer
    ensures p == first - 1
    ensures forall j :: 0 <= j < |Grouped(ds, groups, 0, separator)| ==> buffer[first + j] == Grouped(ds, groups, 0, separator)[j]
  {
    hide *;
    ghost var text := Grouped(ds, groups, 0, separator);
    ghost var here := Place(0, numDigits, numDigits - 1, |text| - 1);
    StartHere(ds, groups, separator);
    var digitIndex: nat, group: nat := 0, 0;
    p := buffer.Length - 1;
    var i := numDigits - 1;
    while i > 0
      invariant Here(text, ds, groups, separator, here, group, digitIndex)
      invariant 0 <= i == here.i && p == first + here.at
      invariant forall j :: here.at < j < |text| ==> buffer[first + j] == text[j]
    {
      DigitGoesHere(text, ds, groups, separator, here, group, digitIndex);
      buffer[p] := digits[i];
      p := p - 1;
      i := i - 1;
      var full;
      full, group, digitIndex, here := NextDigit(groups, group, digitIndex, text, ds, separator, here);
      if full {
        buffer[p] := separator;
        p := p - 1;
      }
    }
    DigitGoesHere(text, ds, groups, separator, here, group, digitIndex);
    buffer[p] := digits[0];
    p := p - 1;
  }
}
