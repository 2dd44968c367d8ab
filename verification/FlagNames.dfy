/** Names of flag values: single-bit names joined by bars, and the way back. */
module FlagNames {
  import opened Wrappers

  datatype Entry = Entry(value: bv64, name: string)

  type CharEqual = (char, char) -> bool

  predicate OneBit(v: bv64) {
    v != 0 && v & (v - 1) == 0
  }

  function And(a: bv64, b: bv64): bv64 { a & b }

  function Or(a: bv64, b: bv64): bv64 { a | b }

  // Comparing and finding.

  predicate Same(lhs: string, rhs: string, equal: CharEqual) {
    |lhs| == |rhs| && forall i :: 0 <= i < |lhs| ==> equal(lhs[i], rhs[i])
  }

  method CmpEqual(lhs: string, rhs: string, equal: CharEqual) returns (r: bool)
    ensures r <==> Same(lhs, rhs, equal)
  {
    if |lhs| != |rhs| {
      return false;
    }
    for i := 0 to |lhs|
      invariant forall j :: 0 <= j < i ==> equal(lhs[j], rhs[j])
    {
      if !equal(lhs[i], rhs[i]) {
        return false;
      }
    }
    return true;
  }

  /** The first bar, or the end. */
  function FirstBar(s: string): (d: nat)
    ensures d <= |s| && '|' !in s[..d] && (d < |s| ==> s[d] == '|')
  {
    if s == [] || s[0] == '|' then 0
    else
      var d := FirstBar(s[1..]);
      assert s[..1 + d] == [s[0]] + s[1..][..d];
      1 + d
  }

  method Find(s: string, c: char) returns (r: Option<nat>)
    requires c == '|'
    ensures r == if FirstBar(s) < |s| then Some(FirstBar(s)) else None
  {
    for i := 0 to |s|
      invariant c !in s[..i]
    {
      if s[i] == c {
        BarIs(s, i);
        return Some(i);
      }
    }
    BarIs(s, |s|);
    return None;
  }

  lemma BarIs(s: string, d: nat)
    requires d <= |s| && '|' !in s[..d] && (d < |s| ==> s[d] == '|')
    ensures FirstBar(s) == d
  {
    var e := FirstBar(s);
    assert forall i :: 0 <= i < e ==> s[i] == s[..e][i];
    assert forall i :: 0 <= i < d ==> s[i] == s[..d][i];
  }

  // From a value to its name.

  predicate Has(v: bv64, e: Entry) {
    And(v, e.value) != 0
  }

  /** The flags of the first `i` entries that `v` has. */
  function Covered(table: seq<Entry>, v: bv64, i: nat): bv64
    requires i <= |table|
  {
    if i == 0 then 0 else Or(Covered(table, v, i - 1), if Has(v, table[i - 1]) then table[i - 1].value else 0)
  }

  /** The flags of the first `i` entries. */
  function Union(table: seq<Entry>, i: nat): bv64
    requires i <= |table|
  {
    if i == 0 then 0 else Or(Union(table, i - 1), table[i - 1].value)
  }

  function Glue(left: string, right: string): string {
    if left == "" then right else if right == "" then left else left + "|" + right
  }

  /** The names of the flags that `v` has, from entry `i` on. */
  function Joined(table: seq<Entry>, v: bv64, i: nat): string
    requires i <= |table|
    decreases |table| - i
  {
    if i == |table| then ""
    else if Has(v, table[i]) then Glue(table[i].name, Joined(table, v, i + 1))
    else Joined(table, v, i + 1)
  }

  function NameOf(table: seq<Entry>, v: bv64): string {
    var check := Covered(table, v, |table|);
    if check != 0 && check == v then Joined(table, v, 0) else ""
  }

  /** An enumerator always has a name. */
  method EnumName(table: seq<Entry>, value: bv64) returns (name: string)
    requires forall i :: 0 <= i < |table| ==> table[i].name != ""
    ensures name == NameOf(table, value)
  {
    hide And, Or;
    name := "";
    var checkValue: bv64 := 0;
    for i := 0 to |table|
      invariant checkValue == Covered(table, value, i) && Glue(name, Joined(table, value, i)) == Joined(table, value, 0)
    {
      var v := table[i].value;
      OrZero(checkValue);
      if And(value, v) != 0 {
        GlueAssoc(name, table[i].name, Joined(table, value, i + 1));
        checkValue := Or(checkValue, v);
        var n := table[i].name;
        GlueIs(name, n);
        if name != "" {
          name := name + "|";
        }
        name := name + n;
      }
    }
    if checkValue != 0 && checkValue == value {
      return name;
    }
    return "";
  }

  lemma GlueIs(name: string, n: string)
    requires n != ""
    ensures Glue(name, n) == if name != "" then name + "|" + n else name + n
  {
  }

  lemma GlueAssoc(a: string, b: string, c: string)
    ensures Glue(a, Glue(b, c)) == Glue(Glue(a, b), c)
  {
    if a != "" && b != "" && c != "" {
      assert a + "|" + (b + "|" + c) == a + "|" + b + "|" + c;
    }
  }

  // From a name to its value.

  /** The first entry with this name. */
  function Lookup(table: seq<Entry>, s: string, equal: CharEqual, i: nat): (r: nat)
    requires i <= |table|
    ensures i <= r <= |table| && (r < |table| ==> Same(s, table[r].name, equal))
    ensures forall j :: i <= j < r ==> !Same(s, table[j].name, equal)
    decreases |table| - i
  {
    if i == |table| || Same(s, table[i].name, equal) then i else Lookup(table, s, equal, i + 1)
  }

  function CastFrom(table: seq<Entry>, s: string, equal: CharEqual, result: bv64): Option<bv64>
    decreases |s|
  {
    if s == "" then if result == 0 then None else Some(result)
    else
      var d := FirstBar(s);
      var i := Lookup(table, s[..d], equal, 0);
      if i == |table| || table[i].value == 0 then None
      else CastFrom(table, if d == |s| then "" else s[d + 1..], equal, Or(result, table[i].value))
  }

  function Cast(table: seq<Entry>, s: string, equal: CharEqual): Option<bv64> {
    CastFrom(table, s, equal, 0)
  }

  /** The value of the first entry with this name, or zero. */
  method FindValue(table: seq<Entry>, s: string, equal: CharEqual) returns (f: bv64)
    ensures var k := Lookup(table, s, equal, 0); f == if k == |table| then 0 else table[k].value
  {
    hide Same;
    ghost var k := Lookup(table, s, equal, 0);
    var i := 0;
    while i < |table|
      invariant 0 <= i <= k
    {
      var same := CmpEqual(s, table[i].name, equal);
      if same {
        return table[i].value;
      }
      i := i + 1;
    }
    return 0;
  }

  method EnumCast(table: seq<Entry>, text: string, equal: CharEqual) returns (r: Option<bv64>)
    ensures r == Cast(table, text, equal)
  {
    hide *;
    CastStart(table, text, equal);
    var value := text;
    var result: bv64 := 0;
    while value != ""
      invariant CastFrom(table, value, equal, result) == Cast(table, text, equal)
      decreases |value|
    {
      var d := Find(value, '|');
      var s := if d.None? then value else value[..d.value];
      CastUnfold(table, value, equal, result);
      var f := FindValue(table, s, equal);
      if f == 0 {
        return None;
      }
      result := Or(result, f);
      value := if d.None? then "" else value[d.value + 1..];
    }
    CastEnd(table, equal, result);
    if result == 0 {
      return None;
    } else {
      return Some(result);
    }
  }

  lemma CastStart(table: seq<Entry>, s: string, equal: CharEqual)
    ensures Cast(table, s, equal) == CastFrom(table, s, equal, 0)
  {
  }

  lemma CastEnd(table: seq<Entry>, equal: CharEqual, result: bv64)
    ensures CastFrom(table, "", equal, result) == if result == 0 then None else Some(result)
  {
  }

  lemma CastUnfold(table: seq<Entry>, s: string, equal: CharEqual, result: bv64)
    requires s != ""
    ensures var d := FirstBar(s);
            var i := Lookup(table, s[..d], equal, 0);
            && s[..|s|] == s
            && CastFrom(table, s, equal, result) ==
               if i == |table| || table[i].value == 0 then None
               else CastFrom(table, if d == |s| then "" else s[d + 1..], equal, Or(result, table[i].value))
  {
    hide Or, Lookup, FirstBar, Same;
  }

  // The way there and back.

  /** Single bits; names that are not empty, have no bar, and are told apart by the comparison, which knows every
      character to equal itself. */
  ghost predicate ValidTable(table: seq<Entry>, equal: CharEqual) {
    && (forall i :: 0 <= i < |table| ==> OneBit(table[i].value) && table[i].name != "" && '|' !in table[i].name)
    && (forall i, j :: 0 <= i < j < |table| ==> !Same(table[j].name, table[i].name, equal))
    && (forall c :: equal(c, c))
  }

  lemma LookupName(table: seq<Entry>, equal: CharEqual, i: nat)
    requires ValidTable(table, equal) && i < |table|
    ensures Lookup(table, table[i].name, equal, 0) == i
  {
    assert Same(table[i].name, table[i].name, equal);
  }

  lemma Meet(v: bv64, a: bv64)
    requires OneBit(a)
    ensures And(v, a) == a || And(v, a) == 0
  {
  }

  lemma Distribute(v: bv64, u: bv64, a: bv64)
    ensures And(v, Or(u, a)) == Or(And(v, u), And(v, a))
  {
    hide *;
    BitsOfLeft(v, u, a);
    BitsOfRight(v, u, a);
    BitsDistribute(v, u, a);
  }

  lemma BitsOfLeft(v: bv64, u: bv64, a: bv64)
    ensures And(v, Or(u, a)) == v & (u | a)
  {
  }

  lemma BitsOfRight(v: bv64, u: bv64, a: bv64)
    ensures Or(And(v, u), And(v, a)) == (v & u) | (v & a)
  {
  }

  lemma BitsDistribute(v: bv64, u: bv64, a: bv64)
    ensures v & (u | a) == (v & u) | (v & a)
  {
  }

  lemma OrZero(u: bv64)
    ensures Or(u, 0) == u && And(0, u) == 0 && And(u, 0) == 0
  {
  }

  /** The flags found are those of the value that are in the table. */
  lemma {:induction false} CoveredIs(table: seq<Entry>, equal: CharEqual, v: bv64, i: nat)
    requires ValidTable(table, equal) && i <= |table|
    ensures Covered(table, v, i) == And(v, Union(table, i))
  {
    hide And, Or, OneBit;
    OrZero(v);
    if i == 0 {
    } else {
      CoveredIs(table, equal, v, i - 1);
      Meet(v, table[i - 1].value);
      Distribute(v, Union(table, i - 1), table[i - 1].value);
    }
  }

  lemma CastStep(table: seq<Entry>, equal: CharEqual, i: nat, rest: string, result: bv64)
    requires ValidTable(table, equal) && i < |table|
    ensures CastFrom(table, Glue(table[i].name, rest), equal, result) == CastFrom(table, rest, equal, Or(result, table[i].value))
  {
    hide Or, Same, Lookup;
    var name := table[i].name;
    var s := Glue(name, rest);
    LookupName(table, equal, i);
    assert s[..|name|] == name;
    BarIs(s, |name|);
    if rest != "" {
      assert s[|name| + 1..] == rest;
    }
  }

  lemma {:induction false} CastJoined(table: seq<Entry>, equal: CharEqual, v: bv64, i: nat)
    requires ValidTable(table, equal) && i <= |table|
    ensures CastFrom(table, Joined(table, v, i), equal, Covered(table, v, i))
         == CastFrom(table, "", equal, Covered(table, v, |table|))
    decreases |table| - i
  {
    hide And, Or, OneBit, Has, CastFrom, ValidTable, Glue;
    if i == |table| {
    } else {
      CastJoined(table, equal, v, i + 1);
      if Has(v, table[i]) {
        CastStep(table, equal, i, Joined(table, v, i + 1), Covered(table, v, i));
      } else {
        OrZero(Covered(table, v, i));
      }
    }
  }

  lemma {:induction false} JoinedNonempty(table: seq<Entry>, equal: CharEqual, v: bv64, i: nat)
    requires ValidTable(table, equal) && i <= |table| && Covered(table, v, i) != Covered(table, v, |table|)
    ensures Joined(table, v, i) != ""
    decreases |table| - i
  {
    hide And, Or, OneBit, Has;
    if Has(v, table[i]) {
    } else {
      OrZero(Covered(table, v, i));
      JoinedNonempty(table, equal, v, i + 1);
    }
  }

  /** A value has a name exactly if it is a nonempty union of flags, and then its name is read back as that value. */
  lemma NamesAreReadBack(table: seq<Entry>, equal: CharEqual, v: bv64)
    requires ValidTable(table, equal)
    ensures NameOf(table, v) != "" <==> v != 0 && And(v, Union(table, |table|)) == v
    ensures NameOf(table, v) != "" ==> Cast(table, NameOf(table, v), equal) == Some(v)
  {
    hide And, Or, OneBit, Has, Joined, ValidTable, Union;
    CoveredIs(table, equal, v, |table|);
    CastJoined(table, equal, v, 0);
    if Covered(table, v, |table|) != 0 {
      JoinedNonempty(table, equal, v, 0);
    }
  }

  predicate Within(a: bv64, u: bv64) {
    And(a, u) == a
  }

  lemma Absorb(r: bv64, u: bv64, a: bv64)
    ensures Within(r, u) && Within(a, u) ==> Within(Or(r, a), u)
  {
  }

  lemma Inside(u: bv64, a: bv64, b: bv64)
    ensures Within(a, Or(u, a)) && (Within(b, u) ==> Within(b, Or(u, a)))
  {
  }

  lemma {:induction false} FlagInUnion(table: seq<Entry>, i: nat, n: nat)
    requires i < n <= |table|
    ensures Within(table[i].value, Union(table, n))
  {
    hide Within, Or;
    Inside(Union(table, n - 1), table[n - 1].value, table[i].value);
    if i < n - 1 {
      FlagInUnion(table, i, n - 1);
    }
  }

  lemma {:induction false} CastInUnion(table: seq<Entry>, s: string, equal: CharEqual, result: bv64)
    requires Within(result, Union(table, |table|)) && CastFrom(table, s, equal, result).Some?
    ensures var r := CastFrom(table, s, equal, result).value; r != 0 && Within(r, Union(table, |table|))
    decreases |s|
  {
    hide Within, Or, Union, Lookup, FirstBar;
    if s != "" {
      var d := FirstBar(s);
      var i := Lookup(table, s[..d], equal, 0);
      FlagInUnion(table, i, |table|);
      Absorb(result, Union(table, |table|), table[i].value);
      CastInUnion(table, if d == |s| then "" else s[d + 1..], equal, Or(result, table[i].value));
    }
  }

  /** Whatever text is accepted, its value has a name, which means the same. */
  lemma ReadValuesHaveNames(table: seq<Entry>, equal: CharEqual, s: string)
    requires ValidTable(table, equal) && Cast(table, s, equal).Some?
    ensures var name := NameOf(table, Cast(table, s, equal).value);
            name != "" && Cast(table, name, equal) == Cast(table, s, equal)
  {
    OrZero(Union(table, |table|));
    CastInUnion(table, s, equal, 0);
    NamesAreReadBack(table, equal, Cast(table, s, equal).value);
  }

  /** A bar at the end is not noticed. */
  lemma {:induction false} TrailingBar(table: seq<Entry>, s: string, equal: CharEqual, result: bv64)
    requires s != "" && s[|s| - 1] != '|'
    ensures CastFrom(table, s + "|", equal, result) == CastFrom(table, s, equal, result)
    decreases |s|
  {
    hide Or, Lookup, FirstBar;
    var d := FirstBar(s);
    var t := s + "|";
    assert t[..d] == s[..d];
    BarIs(t, d);
    if d == |s| {
      assert t[d + 1..] == "";
    } else {
      assert t[d + 1..] == s[d + 1..] + "|";
      var i := Lookup(table, s[..d], equal, 0);
      if i < |table| {
        TrailingBar(table, s[d + 1..], equal, Or(result, table[i].value));
      }
    }
  }

  // Which texts are accepted.

  /** The pieces between bars. */
  function Pieces(s: string): (ps: seq<string>)
    ensures |ps| > 0
    decreases |s|
  {
    var d := FirstBar(s);
    if d == |s| then [s] else [s[..d]] + Pieces(s[d + 1..])
  }

  /** The text without a bar at its end. */
  function WithoutFinalBar(s: string): string {
    if s != "" && s[|s| - 1] == '|' then s[..|s| - 1] else s
  }

  predicate Named(table: seq<Entry>, s: string, equal: CharEqual) {
    exists i :: 0 <= i < |table| && Same(s, table[i].name, equal)
  }

  predicate AllNamed(table: seq<Entry>, ps: seq<string>, equal: CharEqual) {
    forall i :: 0 <= i < |ps| ==> Named(table, ps[i], equal)
  }

  lemma NamedIsFound(table: seq<Entry>, s: string, equal: CharEqual)
    ensures Named(table, s, equal) <==> Lookup(table, s, equal, 0) < |table|
  {
  }

  lemma FirstNamed(table: seq<Entry>, p: string, ps: seq<string>, equal: CharEqual)
    ensures AllNamed(table, [p] + ps, equal) <==> Named(table, p, equal) && AllNamed(table, ps, equal)
  {
    var all := [p] + ps;
    assert all[0] == p && forall i :: 0 <= i < |ps| ==> all[i + 1] == ps[i];
  }

  lemma OrNotZero(a: bv64, b: bv64)
    requires b != 0
    ensures Or(a, b) != 0
  {
  }

  /** How a text that goes on behind its first bar splits. */
  lemma PiecesStep(s: string)
    requires FirstBar(s) + 1 < |s|
    ensures var d := FirstBar(s); Pieces(WithoutFinalBar(s)) == [s[..d]] + Pieces(WithoutFinalBar(s[d + 1..]))
  {
    var d := FirstBar(s);
    var t := WithoutFinalBar(s);
    hide FirstBar, Pieces, WithoutFinalBar;
    BarBefore(s, d);
    BarIs(t, d);
    PiecesIs(t);
  }

  lemma BarBefore(s: string, d: nat)
    requires d + 1 < |s| && '|' !in s[..d] && s[d] == '|'
    ensures var t := WithoutFinalBar(s);
            && d < |t| && t[..d] == s[..d] && t[d] == '|' && t[d + 1..] == WithoutFinalBar(s[d + 1..])
  {
  }

  lemma PiecesIs(s: string)
    ensures var d := FirstBar(s); Pieces(s) == if d == |s| then [s] else [s[..d]] + Pieces(s[d + 1..])
  {
    hide FirstBar;
  }

  /** How a text with no bar, or only one at its end, splits. */
  lemma OnePiece(s: string)
    requires s != "" && FirstBar(s) + 1 >= |s|
    ensures Pieces(WithoutFinalBar(s)) == [s[..FirstBar(s)]]
  {
    var d := FirstBar(s);
    var t := WithoutFinalBar(s);
    hide FirstBar, Pieces, WithoutFinalBar;
    BarBehind(s, d);
    BarIs(t, d);
    PiecesIs(t);
  }

  lemma BarBehind(s: string, d: nat)
    requires s != "" && d <= |s| <= d + 1 && '|' !in s[..d] && (d < |s| ==> s[d] == '|')
    ensures WithoutFinalBar(s) == s[..d] == s[..d][..d]
  {
    if d == |s| {
      assert s[..d] == s;
    }
  }

  lemma CastFirst(table: seq<Entry>, s: string, equal: CharEqual, result: bv64)
    requires ValidTable(table, equal) && s != ""
    ensures var d := FirstBar(s);
            var i := Lookup(table, s[..d], equal, 0);
            if i == |table| then CastFrom(table, s, equal, result) == None
            else
              var rest := if d == |s| then "" else s[d + 1..];
              && CastFrom(table, s, equal, result) == CastFrom(table, rest, equal, Or(result, table[i].value))
              && CastFrom(table, "", equal, Or(result, table[i].value)).Some?
  {
    hide Or, FirstBar, Lookup, Same;
    var i := Lookup(table, s[..FirstBar(s)], equal, 0);
    if i < |table| {
      OrNotZero(result, table[i].value);
    }
  }

  lemma {:induction false} CastFromExactly(table: seq<Entry>, s: string, equal: CharEqual, result: bv64)
    requires ValidTable(table, equal) && s != ""
    ensures CastFrom(table, s, equal, result).Some? <==> AllNamed(table, Pieces(WithoutFinalBar(s)), equal)
    decreases |s|
  {
    hide *;
    var d := FirstBar(s);
    var i := Lookup(table, s[..d], equal, 0);
    CastFirst(table, s, equal, result);
    NamedIsFound(table, s[..d], equal);
    if d + 1 >= |s| {
      OnePiece(s);
      OneNamed(table, s[..d], equal);
      assert d < |s| ==> s[d + 1..] == "";
    } else {
      PiecesStep(s);
      FirstNamed(table, s[..d], Pieces(WithoutFinalBar(s[d + 1..])), equal);
      if i < |table| {
        CastFromExactly(table, s[d + 1..], equal, Or(result, table[i].value));
      }
    }
  }

  lemma OneNamed(table: seq<Entry>, p: string, equal: CharEqual)
    ensures AllNamed(table, [p], equal) <==> Named(table, p, equal)
  {
    assert [p][0] == p;
  }

  /** A text is accepted exactly if, without at most one bar at its end, all its pieces between bars are names. */
  lemma AcceptedExactly(table: seq<Entry>, equal: CharEqual, s: string)
    requires ValidTable(table, equal)
    ensures Cast(table, s, equal).Some? <==> AllNamed(table, Pieces(WithoutFinalBar(s)), equal)
  {
    if s == "" {
      assert Pieces("")[0] == "";
      NoEmptyName(table, equal);
    } else {
      CastFromExactly(table, s, equal, 0);
    }
  }

  lemma NoEmptyName(table: seq<Entry>, equal: CharEqual)
    requires ValidTable(table, equal)
    ensures !Named(table, "", equal)
  {
  }

  /** A name with a bar behind it is read as that name. */
  lemma NameAndBar(table: seq<Entry>, equal: CharEqual, i: nat)
    requires ValidTable(table, equal) && i < |table|
    ensures Cast(table, table[i].name + "|", equal) == Some(table[i].value)
  {
    var name := table[i].name;
    var s := name + "|";
    OrZeroLeft(table[i].value);
    hide Or, Same, Lookup, FirstBar;
    LookupName(table, equal, i);
    assert s[..|name|] == name;
    BarIs(s, |name|);
    assert s[|name| + 1..] == "";
    assert CastFrom(table, "", equal, Or(0, table[i].value)) == Some(table[i].value);
  }

  lemma OrZeroLeft(v: bv64)
    ensures Or(0, v) == v
  {
  }

  /** The flags that the pieces name. */
  function UnionOf(table: seq<Entry>, ps: seq<string>, equal: CharEqual): bv64
    requires AllNamed(table, ps, equal)
  {
    if ps == [] then 0
    else
      NamedIsFound(table, ps[0], equal);
      assert AllNamed(table, ps[1..], equal) by {
        assert forall i :: 0 <= i < |ps[1..]| ==> ps[1..][i] == ps[i + 1];
      }
      Or(table[Lookup(table, ps[0], equal, 0)].value, UnionOf(table, ps[1..], equal))
  }

  lemma UnionOfFirst(table: seq<Entry>, p: string, ps: seq<string>, equal: CharEqual)
    requires AllNamed(table, [p] + ps, equal)
    ensures Lookup(table, p, equal, 0) < |table| && AllNamed(table, ps, equal)
    ensures UnionOf(table, [p] + ps, equal) == Or(table[Lookup(table, p, equal, 0)].value, UnionOf(table, ps, equal))
    ensures UnionOf(table, [], equal) == 0
  {
    FirstNamed(table, p, ps, equal);
    NamedIsFound(table, p, equal);
    assert ([p] + ps)[1..] == ps && ([p] + ps)[0] == p;
    hide Or, Lookup, Named;
  }

  lemma OrAssoc(r: bv64, a: bv64, b: bv64)
    ensures Or(Or(r, a), b) == Or(r, Or(a, b)) && Or(a, 0) == a
  {
  }

  lemma {:induction false} CastFromValue(table: seq<Entry>, s: string, equal: CharEqual, result: bv64)
    requires ValidTable(table, equal) && s != "" && AllNamed(table, Pieces(WithoutFinalBar(s)), equal)
    ensures CastFrom(table, s, equal, result) == Some(Or(result, UnionOf(table, Pieces(WithoutFinalBar(s)), equal)))
    decreases |s|
  {
    hide *;
    var d := FirstBar(s);
    CastFirst(table, s, equal, result);
    if d + 1 >= |s| {
      OnePiece(s);
      assert [s[..d]] + [] == [s[..d]];
      UnionOfFirst(table, s[..d], [], equal);
      assert d < |s| ==> s[d + 1..] == "";
      var v := table[Lookup(table, s[..d], equal, 0)].value;
      OrAssoc(result, v, 0);
      CastEnd(table, equal, Or(result, v));
    } else {
      PiecesStep(s);
      var rest := Pieces(WithoutFinalBar(s[d + 1..]));
      UnionOfFirst(table, s[..d], rest, equal);
      var v := table[Lookup(table, s[..d], equal, 0)].value;
      CastFromValue(table, s[d + 1..], equal, Or(result, v));
      OrAssoc(result, v, UnionOf(table, rest, equal));
    }
  }

  /** The value of an accepted text is the union of the flags that it names, each found as the first entry of that name. */
  lemma ValueIsItsNames(table: seq<Entry>, equal: CharEqual, s: string)
    requires ValidTable(table, equal) && AllNamed(table, Pieces(WithoutFinalBar(s)), equal)
    ensures Cast(table, s, equal) == Some(UnionOf(table, Pieces(WithoutFinalBar(s)), equal))
  {
    if s == "" {
      assert Pieces("")[0] == "";
      NoEmptyName(table, equal);
    } else {
      CastFromValue(table, s, equal, 0);
      OrZeroLeft(UnionOf(table, Pieces(WithoutFinalBar(s)), equal));
    }
  }

  // What a name looks like.

  /** The names of the flags that `v` has, in the order of the table, from entry `i` on. */
  function NamesIn(table: seq<Entry>, v: bv64, i: nat): seq<string>
    requires i <= |table|
    decreases |table| - i
  {
    if i == |table| then []
    else (if Has(v, table[i]) then [table[i].name] else []) + NamesIn(table, v, i + 1)
  }

  lemma GluedPieces(name: string, rest: string)
    requires name != "" && '|' !in name
    ensures Glue(name, rest) != ""
    ensures Pieces(Glue(name, rest)) == [name] + if rest == "" then [] else Pieces(rest)
  {
    var s := Glue(name, rest);
    hide FirstBar, Pieces;
    assert s[..|name|] == name;
    BarIs(s, |name|);
    PiecesIs(s);
    if rest != "" {
      assert s[|name| + 1..] == rest;
    }
  }

  lemma {:induction false} JoinedPieces(table: seq<Entry>, v: bv64, i: nat)
    requires i <= |table| && forall j :: 0 <= j < |table| ==> table[j].name != "" && '|' !in table[j].name
    ensures if Joined(table, v, i) == "" then NamesIn(table, v, i) == [] else Pieces(Joined(table, v, i)) == NamesIn(table, v, i)
    decreases |table| - i
  {
    hide Has, Glue, Pieces;
    if i == |table| {
    } else {
      JoinedPieces(table, v, i + 1);
      GluedPieces(table[i].name, Joined(table, v, i + 1));
    }
  }

  /** A name is the names of exactly the flags that the value has, in the order of the table, with one bar between two. */
  lemma NameIsItsFlags(table: seq<Entry>, equal: CharEqual, v: bv64)
    requires ValidTable(table, equal) && NameOf(table, v) != ""
    ensures Pieces(NameOf(table, v)) == NamesIn(table, v, 0)
  {
    hide Has, Joined, Covered;
    JoinedPieces(table, v, 0);
  }

  lemma OtherBit(a: bv64, b: bv64)
    requires OneBit(a) && OneBit(b)
    ensures And(a, b) != 0 <==> a == b
  {
  }

  lemma {:induction false} OnlyName(table: seq<Entry>, equal: CharEqual, k: nat, i: nat)
    requires ValidTable(table, equal) && k < |table| && i <= |table|
    requires forall j :: 0 <= j < |table| && j != k ==> table[j].value != table[k].value
    ensures NamesIn(table, table[k].value, i) == if i <= k then [table[k].name] else []
    decreases |table| - i
  {
    hide And, OneBit, Same;
    if i == |table| {
    } else {
      OtherBit(table[k].value, table[i].value);
      OnlyName(table, equal, k, i + 1);
    }
  }

  /** A single flag has its own name. */
  lemma FlagHasItsName(table: seq<Entry>, equal: CharEqual, k: nat)
    requires ValidTable(table, equal) && k < |table|
    requires forall j :: 0 <= j < |table| && j != k ==> table[j].value != table[k].value
    ensures NameOf(table, table[k].value) == table[k].name
  {
    var v := table[k].value;
    FlagInUnion(table, k, |table|);
    NamesAreReadBack(table, equal, v);
    NameIsItsFlags(table, equal, v);
    OnlyName(table, equal, k, 0);
    hide *;
    OnePieceOnly(NameOf(table, v), table[k].name);
  }

  lemma OnePieceOnly(s: string, piece: string)
    ensures Pieces(s) == [piece] ==> s == piece
  {
    hide FirstBar;
    var d := FirstBar(s);
    if d < |s| {
      assert |Pieces(s)| == 1 + |Pieces(s[d + 1..])|;
    }
  }
}
