/** Usage patterns of command lines, and their expansion into one flat disjunction by a worklist. */
module Docopt {
  import opened Powers

  /** The tips of a pattern. Values are kept by their printed form, which is what the program compares. */
  datatype Tip =
    | Argument(name: string, value: string)
    | Command(name: string, value: string)
    | Option(short: string, long: string, argcount: nat, value: string)

  datatype Pattern =
    | Leaf(tip: Tip)
    | Required(children: seq<Pattern>)
    | Optional(children: seq<Pattern>)
    | OptionsShortcut(children: seq<Pattern>)
    | Either(children: seq<Pattern>)
    | OneOrMore(children: seq<Pattern>)

  type Tips = multiset<Tip>

  // The disjunctive normal form, by recursion.

  function Cross(xs: seq<Tips>, ys: seq<Tips>): seq<Tips> {
    if xs == [] then [] else Each(xs[0], ys) + Cross(xs[1..], ys)
  }

  function Each(x: Tips, ys: seq<Tips>): (zs: seq<Tips>)
    ensures |zs| == |ys| && forall i :: 0 <= i < |ys| ==> zs[i] == x + ys[i]
  {
    seq(|ys|, i requires 0 <= i < |ys| => x + ys[i])
  }

  /** The alternatives of a pattern. */
  function Dnf(p: Pattern): seq<Tips>
    decreases p
  {
    match p
    case Leaf(tip) => [multiset{tip}]
    case Either(children) => DnfAny(children)
    case OneOrMore(children) => Cross(DnfAll(children), DnfAll(children))
    case Required(children) => DnfAll(children)
    case Optional(children) => DnfAll(children)
    case OptionsShortcut(children) => DnfAll(children)
  }

  function DnfAll(ps: seq<Pattern>): seq<Tips>
    decreases ps
  {
    if ps == [] then [multiset{}] else Cross(Dnf(ps[0]), DnfAll(ps[1..]))
  }

  function DnfAny(ps: seq<Pattern>): seq<Tips>
    decreases ps
  {
    if ps == [] then [] else Dnf(ps[0]) + DnfAny(ps[1..])
  }

  // The laws that the rewriting steps rest on.

  lemma EachEach(x: Tips, y: Tips, zs: seq<Tips>)
    ensures Each(x, Each(y, zs)) == Each(x + y, zs)
  {
    forall i | 0 <= i < |zs|
      ensures x + (y + zs[i]) == x + y + zs[i]
    {
    }
  }

  lemma EachConcat(x: Tips, ys: seq<Tips>, zs: seq<Tips>)
    ensures Each(x, ys + zs) == Each(x, ys) + Each(x, zs)
  {
  }

  lemma EachOfNothing(ys: seq<Tips>)
    ensures Each(multiset{}, ys) == ys
  {
    forall i | 0 <= i < |ys|
      ensures multiset{} + ys[i] == ys[i]
    {
    }
  }

  lemma CrossFirst(xs: seq<Tips>, ys: seq<Tips>)
    ensures Cross([], ys) == []
    ensures xs != [] ==> Cross(xs, ys) == Each(xs[0], ys) + Cross(xs[1..], ys)
  {
    hide Each;
  }

  lemma Associate<T>(a: seq<T>, b: seq<T>, c: seq<T>)
    ensures a + b + c == a + (b + c)
    ensures [] + a == a
  {
  }

  lemma TailOfConcat<T>(a: seq<T>, b: seq<T>)
    requires a != []
    ensures (a + b)[0] == a[0] && (a + b)[1..] == a[1..] + b
  {
  }

  lemma {:induction false} CrossConcat(xs: seq<Tips>, ys: seq<Tips>, zs: seq<Tips>)
    ensures Cross(xs + ys, zs) == Cross(xs, zs) + Cross(ys, zs)
  {
    hide *;
    CrossFirst(xs, zs);
    if xs == [] {
      Associate(ys, [], []);
      Associate(Cross(ys, zs), [], []);
    } else {
      CrossConcat(xs[1..], ys, zs);
      TailOfConcat(xs, ys);
      CrossFirst(xs + ys, zs);
      Associate(Each(xs[0], zs), Cross(xs[1..], zs), Cross(ys, zs));
    }
  }

  lemma CrossSingle(x: Tips, ys: seq<Tips>)
    ensures Cross([x], ys) == Each(x, ys)
  {
    assert Cross([x][1..], ys) == [];
  }

  /** `Each(x, -)` moves into either side of a product. */
  lemma {:induction false} EachLeft(x: Tips, ys: seq<Tips>, zs: seq<Tips>)
    ensures Cross(Each(x, ys), zs) == Each(x, Cross(ys, zs))
  {
    if ys == [] {
    } else {
      EachLeft(x, ys[1..], zs);
      assert Each(x, ys)[1..] == Each(x, ys[1..]);
      EachEach(x, ys[0], zs);
      EachConcat(x, Each(ys[0], zs), Cross(ys[1..], zs));
    }
  }

  lemma {:induction false} EachRight(x: Tips, ys: seq<Tips>, zs: seq<Tips>)
    ensures Cross(ys, Each(x, zs)) == Each(x, Cross(ys, zs))
  {
    if ys == [] {
    } else {
      EachRight(x, ys[1..], zs);
      EachEach(ys[0], x, zs);
      EachEach(x, ys[0], zs);
      assert ys[0] + x == x + ys[0];
      EachConcat(x, Each(ys[0], zs), Cross(ys[1..], zs));
    }
  }

  lemma {:induction false} CrossAssoc(xs: seq<Tips>, ys: seq<Tips>, zs: seq<Tips>)
    ensures Cross(xs, Cross(ys, zs)) == Cross(Cross(xs, ys), zs)
  {
    if xs == [] {
    } else {
      CrossAssoc(xs[1..], ys, zs);
      CrossConcat(Each(xs[0], ys), Cross(xs[1..], ys), zs);
      EachLeft(xs[0], ys, zs);
    }
  }

  lemma {:induction false} DnfAllConcat(ps: seq<Pattern>, qs: seq<Pattern>)
    ensures DnfAll(ps + qs) == Cross(DnfAll(ps), DnfAll(qs))
  {
    if ps == [] {
      assert ps + qs == qs;
      CrossSingle(multiset{}, DnfAll(qs));
      EachOfNothing(DnfAll(qs));
    } else {
      DnfAllConcat(ps[1..], qs);
      assert (ps + qs)[1..] == ps[1..] + qs;
      CrossAssoc(Dnf(ps[0]), DnfAll(ps[1..]), DnfAll(qs));
    }
  }

  predicate AllLeaves(ps: seq<Pattern>) {
    forall i :: 0 <= i < |ps| ==> ps[i].Leaf?
  }

  /** The tips of a group of leaves. */
  function TipsOf(ps: seq<Pattern>): Tips
    requires AllLeaves(ps)
  {
    if ps == [] then multiset{} else multiset{ps[0].tip} + TipsOf(ps[1..])
  }

  lemma {:induction false} LeavesAreOneAlternative(ps: seq<Pattern>)
    requires AllLeaves(ps)
    ensures DnfAll(ps) == [TipsOf(ps)]
  {
    if ps == [] {
    } else {
      LeavesAreOneAlternative(ps[1..]);
      CrossSingle(multiset{ps[0].tip}, DnfAll(ps[1..]));
    }
  }

  // The three ways to rewrite a group at its first branch.

  /** Moving a branch in front of the leaves before it changes nothing. */
  lemma BranchFirst(leaves: seq<Pattern>, p: Pattern, rest: seq<Pattern>)
    requires AllLeaves(leaves)
    ensures DnfAll(leaves + [p] + rest) == Cross(Dnf(p), DnfAll(leaves + rest))
  {
    hide Dnf, DnfAll, Cross, Each;
    LeavesAreOneAlternative(leaves);
    var l := TipsOf(leaves);
    assert leaves + [p] + rest == leaves + ([p] + rest);
    DnfAllConcat(leaves, [p] + rest);
    DnfAllConcat([p], rest);
    DnfAllConcat(leaves, rest);
    DnfAllSingle(p);
    CrossSingle(l, DnfAll(rest));
    CrossSingle(l, Cross(Dnf(p), DnfAll(rest)));
    EachRight(l, Dnf(p), DnfAll(rest));
  }

  lemma DnfAllSingle(p: Pattern)
    ensures DnfAll([p]) == Dnf(p)
  {
    assert DnfAll([p][1..]) == [multiset{}];
    CrossOne(Dnf(p));
  }

  lemma {:induction false} CrossOne(xs: seq<Tips>)
    ensures Cross(xs, [multiset{}]) == xs
  {
    if xs == [] {
    } else {
      CrossOne(xs[1..]);
      assert xs[0] + multiset{} == xs[0];
      assert Each(xs[0], [multiset{}]) == [xs[0]];
      assert [xs[0]] + xs[1..] == xs;
    }
  }

  /** All the alternatives of a worklist, in any order. */
  function Total(groups: seq<seq<Pattern>>): multiset<Tips> {
    if groups == [] then multiset{} else multiset(DnfAll(groups[0])) + Total(groups[1..])
  }

  lemma TotalFirst(groups: seq<seq<Pattern>>, g: seq<Pattern>)
    ensures Total([]) == multiset{} && Total([g]) == multiset(DnfAll(g))
    ensures groups != [] ==> Total(groups) == multiset(DnfAll(groups[0])) + Total(groups[1..])
  {
    hide DnfAll;
    assert [g][1..] == [];
  }

  lemma AssociateBags<T>(a: multiset<T>, b: multiset<T>, c: multiset<T>)
    ensures a + b + c == a + (b + c)
    ensures multiset{} + a == a
  {
  }

  lemma {:induction false} TotalSnoc(groups: seq<seq<Pattern>>, g: seq<Pattern>)
    ensures Total(groups + [g]) == Total(groups) + multiset(DnfAll(g))
  {
    hide *;
    TotalFirst(groups, g);
    if groups == [] {
      Associate([g], [], []);
      AssociateBags(multiset(DnfAll(g)), multiset{}, multiset{});
    } else {
      TotalSnoc(groups[1..], g);
      TailOfConcat(groups, [g]);
      TotalFirst(groups + [g], g);
      AssociateBags(multiset(DnfAll(groups[0])), Total(groups[1..]), multiset(DnfAll(g)));
    }
  }

  // The termination measure.

  /** A bound on the work in a pattern: a group of patterns multiplies, a disjunction adds. */
  function Work(p: Pattern): (w: nat)
    ensures w >= 1
    decreases p
  {
    match p
    case Leaf(_) => 1
    case Either(children) => 1 + WorkAny(children)
    case OneOrMore(children) => 1 + WorkAll(children) * WorkAll(children)
    case Required(children) => 1 + WorkAll(children)
    case Optional(children) => 1 + WorkAll(children)
    case OptionsShortcut(children) => 1 + WorkAll(children)
  }

  function WorkAll(ps: seq<Pattern>): (w: nat)
    ensures w >= 1
    decreases ps
  {
    if ps == [] then 1 else Product(Work(ps[0]), WorkAll(ps[1..]))
  }

  function Product(a: nat, b: nat): (c: nat)
    requires a >= 1 && b >= 1
    ensures c == a * b && c >= 1
  {
    a * b
  }

  function WorkAny(ps: seq<Pattern>): nat
    decreases ps
  {
    if ps == [] then 0 else Work(ps[0]) + WorkAny(ps[1..])
  }

  lemma {:induction false} WorkConcat(ps: seq<Pattern>, qs: seq<Pattern>)
    ensures WorkAll(ps + qs) == WorkAll(ps) * WorkAll(qs)
  {
    if ps == [] {
      assert ps + qs == qs;
    } else {
      WorkConcat(ps[1..], qs);
      assert (ps + qs)[1..] == ps[1..] + qs;
      hide Work;
      MulAssoc(Work(ps[0]), WorkAll(ps[1..]), WorkAll(qs));
    }
  }

  function WorkLeft(groups: seq<seq<Pattern>>): nat {
    if groups == [] then 0 else WorkAll(groups[0]) + WorkLeft(groups[1..])
  }

  lemma {:induction false} WorkLeftSnoc(groups: seq<seq<Pattern>>, g: seq<Pattern>)
    ensures WorkLeft(groups + [g]) == WorkLeft(groups) + WorkAll(g)
  {
    if groups == [] {
    } else {
      WorkLeftSnoc(groups[1..], g);
      assert (groups + [g])[1..] == groups[1..] + [g];
    }
  }

  lemma WorkFirst(c: Pattern, rest: seq<Pattern>)
    ensures WorkAll([c] + rest) == Work(c) * WorkAll(rest)
    ensures DnfAll([c] + rest) == Cross(Dnf(c), DnfAll(rest))
  {
    assert ([c] + rest)[1..] == rest;
  }

  lemma WorkOfBranch(leaves: seq<Pattern>, p: Pattern, rest: seq<Pattern>)
    ensures WorkAll(leaves + [p] + rest) == Work(p) * WorkAll(leaves + rest)
  {
    hide Work, WorkAll;
    var l, w, r := WorkAll(leaves), Work(p), WorkAll(rest);
    WorkConcat(leaves + [p], rest);
    WorkConcat(leaves, [p]);
    WorkConcat(leaves, rest);
    WorkOne(p);
    MulSwap(l, w, r);
    MulAssoc(w, l, r);
    assert w * l == l * w;
  }

  lemma WorkOne(p: Pattern)
    ensures WorkAll([p]) == Work(p)
  {
    assert WorkAll([p][1..]) == 1;
  }

  // The worklist.

  /** Where the first branch of a group is, or the end if there is none. */
  method FindBranch(group: seq<Pattern>) returns (at: nat)
    ensures at <= |group| && AllLeaves(group[..at]) && (at < |group| ==> !group[at].Leaf?)
  {
    at := 0;
    while at < |group| && group[at].Leaf?
      invariant at <= |group| && forall i :: 0 <= i < at ==> group[i].Leaf?
    {
      at := at + 1;
    }
  }

  /** Removes the first element that equals `p`. */
  method Remove(group: seq<Pattern>, p: Pattern) returns (rest: seq<Pattern>, at: nat)
    requires p in group
    ensures at < |group| && group[at] == p && p !in group[..at] && rest == group[..at] + group[at + 1..]
  {
    var i := 0;
    while group[i] != p
      invariant i < |group| && p !in group[..i]
      invariant p in group[i..]
      decreases |group| - i
    {
      assert group[i..] == [group[i]] + group[i + 1..];
      i := i + 1;
    }
    at := i;
    rest := group[..i] + group[i + 1..];
  }

  /** Puts one group for every child of a disjunction at the end of the worklist. */
  method Distribute(groups: seq<seq<Pattern>>, children: seq<Pattern>, rest: seq<Pattern>) returns (longer: seq<seq<Pattern>>)
    ensures Total(longer) == Total(groups) + multiset(Cross(DnfAny(children), DnfAll(rest)))
    ensures WorkLeft(longer) == WorkLeft(groups) + WorkAny(children) * WorkAll(rest)
  {
    hide Dnf, DnfAll, Work, WorkAll, Each, Total, WorkLeft;
    longer := groups;
    var i := 0;
    while i < |children|
      invariant 0 <= i <= |children|
      invariant Total(longer) + multiset(Cross(DnfAny(children[i..]), DnfAll(rest)))
             == Total(groups) + multiset(Cross(DnfAny(children), DnfAll(rest)))
      invariant WorkLeft(longer) + WorkAny(children[i..]) * WorkAll(rest)
             == WorkLeft(groups) + WorkAny(children) * WorkAll(rest)
    {
      DistributeOne(longer, children[i..], rest);
      assert children[i..][1..] == children[i + 1..];
      longer := longer + [[children[i]] + rest];
      i := i + 1;
    }
  }

  lemma AnyFirst(ps: seq<Pattern>)
    requires ps != []
    ensures DnfAny(ps) == Dnf(ps[0]) + DnfAny(ps[1..]) && WorkAny(ps) == Work(ps[0]) + WorkAny(ps[1..])
  {
    hide Dnf, Work;
  }

  lemma BagOfConcat<T>(a: seq<T>, b: seq<T>)
    ensures multiset(a + b) == multiset(a) + multiset(b)
  {
  }

  lemma DistributeOne(groups: seq<seq<Pattern>>, children: seq<Pattern>, rest: seq<Pattern>)
    requires children != []
    ensures Total(groups + [[children[0]] + rest]) + multiset(Cross(DnfAny(children[1..]), DnfAll(rest)))
         == Total(groups) + multiset(Cross(DnfAny(children), DnfAll(rest)))
    ensures WorkLeft(groups + [[children[0]] + rest]) + WorkAny(children[1..]) * WorkAll(rest)
         == WorkLeft(groups) + WorkAny(children) * WorkAll(rest)
  {
    hide *;
    var c := children[0];
    AnyFirst(children);
    TotalSnoc(groups, [c] + rest);
    WorkLeftSnoc(groups, [c] + rest);
    WorkFirst(c, rest);
    CrossConcat(Dnf(c), DnfAny(children[1..]), DnfAll(rest));
    BagOfConcat(Cross(Dnf(c), DnfAll(rest)), Cross(DnfAny(children[1..]), DnfAll(rest)));
    AssociateBags(Total(groups), multiset(Cross(Dnf(c), DnfAll(rest))), multiset(Cross(DnfAny(children[1..]), DnfAll(rest))));
    Split(Work(c), WorkAny(children[1..]), WorkAll(rest));
  }

  lemma Split(a: nat, b: nat, c: nat)
    ensures (a + b) * c == a * c + b * c
  {
  }

  /** The groups that are done, as the bags of their tips. */
  function Bags(groups: seq<seq<Pattern>>): (bags: seq<Tips>)
    requires forall i :: 0 <= i < |groups| ==> AllLeaves(groups[i])
    ensures |bags| == |groups|
  {
    seq(|groups|, i requires 0 <= i < |groups| => TipsOf(groups[i]))
  }

  /** Done groups and groups in the worklist together hold the alternatives of the pattern. */
  ghost predicate Conserved(pattern: Pattern, result: seq<seq<Pattern>>, groups: seq<seq<Pattern>>) {
    && (forall i :: 0 <= i < |result| ==> AllLeaves(result[i]))
    && multiset(Bags(result)) + Total(groups) == multiset(Dnf(pattern))
  }

  lemma Finish(pattern: Pattern, result: seq<seq<Pattern>>, groups: seq<seq<Pattern>>)
    requires groups != [] && AllLeaves(groups[0]) && Conserved(pattern, result, groups)
    ensures Conserved(pattern, result + [groups[0]], groups[1..])
  {
    hide Dnf, DnfAll, TipsOf, AllLeaves;
    LeavesAreOneAlternative(groups[0]);
    assert Bags(result + [groups[0]]) == Bags(result) + [TipsOf(groups[0])];
  }

  /** A group with its branch, unless that is a disjunction, replaced by what is under it. */
  lemma UnfoldKeeps(child: Pattern, rest: seq<Pattern>, unfolded: seq<Pattern>)
    requires !child.Leaf? && !child.Either?
    requires unfolded == if child.OneOrMore? then child.children + child.children + rest else child.children + rest
    ensures DnfAll(unfolded) == Cross(Dnf(child), DnfAll(rest))
    ensures WorkAll(unfolded) < Work(child) * WorkAll(rest)
  {
    hide DnfAll, WorkAll, Cross;
    var cs := child.children;
    if child.OneOrMore? {
      DnfAllConcat(cs + cs, rest);
      DnfAllConcat(cs, cs);
      WorkConcat(cs + cs, rest);
      WorkConcat(cs, cs);
    } else {
      DnfAllConcat(cs, rest);
      WorkConcat(cs, rest);
    }
    Split(1, Work(child) - 1, WorkAll(rest));
  }

  lemma FirstGroup(groups: seq<seq<Pattern>>)
    requires groups != []
    ensures Total(groups) == multiset(DnfAll(groups[0])) + Total(groups[1..])
    ensures WorkLeft(groups) == WorkAll(groups[0]) + WorkLeft(groups[1..])
    ensures WorkLeft(groups[1..]) < WorkLeft(groups)
  {
  }

  /** The branch that is removed is the first one: an equal element before it would be a branch too. */
  lemma TakeBranch(group: seq<Pattern>, at: nat, first: nat, rest: seq<Pattern>)
    requires at < |group| && AllLeaves(group[..at]) && !group[at].Leaf?
    requires first < |group| && group[first] == group[at] && group[at] !in group[..first]
    requires rest == group[..first] + group[first + 1..]
    ensures DnfAll(group) == Cross(Dnf(group[at]), DnfAll(rest))
    ensures WorkAll(group) == Work(group[at]) * WorkAll(rest)
  {
    hide Dnf, DnfAll, Cross, Work, WorkAll;
    assert forall i :: 0 <= i < at ==> group[i] == group[..at][i];
    assert forall i :: 0 <= i < first ==> group[i] == group[..first][i];
    assert first == at;
    assert group == group[..at] + [group[at]] + group[at + 1..];
    BranchFirst(group[..at], group[at], group[at + 1..]);
    WorkOfBranch(group[..at], group[at], group[at + 1..]);
  }

  lemma AnyIsDnf(child: Pattern, rest: seq<Pattern>)
    requires child.Either?
    ensures Dnf(child) == DnfAny(child.children)
    ensures WorkAny(child.children) * WorkAll(rest) < Work(child) * WorkAll(rest)
  {
    hide WorkAll, WorkAny;
    Split(1, WorkAny(child.children), WorkAll(rest));
  }

  lemma SameTotal(pattern: Pattern, result: seq<seq<Pattern>>, groups: seq<seq<Pattern>>, changed: seq<seq<Pattern>>)
    requires Conserved(pattern, result, groups) && Total(groups) == Total(changed)
    ensures Conserved(pattern, result, changed)
  {
  }

  lemma Start(pattern: Pattern)
    ensures Conserved(pattern, [], [[pattern]])
  {
    DnfAllSingle(pattern);
    assert Total([[pattern]][1..]) == multiset{};
  }

  function AsPattern(groups: seq<seq<Pattern>>): Pattern {
    Either(seq(|groups|, i requires 0 <= i < |groups| => Required(groups[i])))
  }

  /** A disjunction of groups of leaves. */
  predicate Flat(p: Pattern) {
    p.Either? && forall i :: 0 <= i < |p.children| ==> p.children[i].Required? && AllLeaves(p.children[i].children)
  }

  function Groups(p: Pattern): (bags: seq<Tips>)
    requires Flat(p)
    ensures |bags| == |p.children|
  {
    seq(|p.children|, i requires 0 <= i < |p.children| => TipsOf(p.children[i].children))
  }

  lemma Done(pattern: Pattern, result: seq<seq<Pattern>>)
    requires Conserved(pattern, result, [])
    ensures Flat(AsPattern(result)) && multiset(Groups(AsPattern(result))) == multiset(Dnf(pattern))
  {
    assert Groups(AsPattern(result)) == Bags(result);
  }

  /** Expands a pattern until only groups of tips are left. They are its alternatives. */
  method Transform(pattern: Pattern) returns (r: Pattern)
    ensures Flat(r) && multiset(Groups(r)) == multiset(Dnf(pattern))
  {
    hide *;
    var result: seq<seq<Pattern>> := [];
    var groups := [[pattern]];
    Start(pattern);
    while groups != []
      invariant Conserved(pattern, result, groups)
      decreases WorkLeft(groups)
    {
      ghost var before := groups;
      FirstGroup(groups);
      var children := groups[0];
      groups := groups[1..];
      var at := FindBranch(children);
      if at < |children| {
        var child := children[at];
        var rest;
        ghost var first;
        rest, first := Remove(children, child);
        TakeBranch(children, at, first, rest);
        if child.Either? {
          AnyIsDnf(child, rest);
          groups := Distribute(groups, child.children, rest);
        } else {
          var unfolded;
          if child.OneOrMore? {
            unfolded := child.children + child.children + rest;
          } else {
            unfolded := child.children + rest;
          }
          UnfoldKeeps(child, rest, unfolded);
          TotalSnoc(groups, unfolded);
          WorkLeftSnoc(groups, unfolded);
          groups := groups + [unfolded];
        }
        SameTotal(pattern, result, before, groups);
      } else {
        assert children[..at] == children;
        Finish(pattern, result, before);
        result := result + [children];
      }
    }
    Done(pattern, result);
    r := AsPattern(result);
  }

  // What the expansion is for: finding tips that can occur more than once.

  datatype Most = Most(count: nat) | Nothing

  /** The most often that a tip occurs in an alternative, if there is any. */
  function MostIn(alternatives: seq<Tips>, tip: Tip): Most {
    if alternatives == [] then Nothing else Larger(Most(alternatives[0][tip]), MostIn(alternatives[1..], tip))
  }

  function Larger(a: Most, b: Most): Most {
    if a.Nothing? then b else if b.Nothing? then a else if a.count < b.count then b else a
  }

  function Plus(a: Most, b: Most): Most {
    if a.Nothing? || b.Nothing? then Nothing else Most(a.count + b.count)
  }

  /** The same, by the shape of the pattern. */
  function MostOften(p: Pattern, tip: Tip): Most
    decreases p
  {
    match p
    case Leaf(t) => Most(if t == tip then 1 else 0)
    case Either(children) => MostAny(children, tip)
    case OneOrMore(children) => Plus(MostAll(children, tip), MostAll(children, tip))
    case Required(children) => MostAll(children, tip)
    case Optional(children) => MostAll(children, tip)
    case OptionsShortcut(children) => MostAll(children, tip)
  }

  function MostAll(ps: seq<Pattern>, tip: Tip): Most
    decreases ps
  {
    if ps == [] then Most(0) else Plus(MostOften(ps[0], tip), MostAll(ps[1..], tip))
  }

  function MostAny(ps: seq<Pattern>, tip: Tip): Most
    decreases ps
  {
    if ps == [] then Nothing else Larger(MostOften(ps[0], tip), MostAny(ps[1..], tip))
  }

  lemma {:induction false} MostInConcat(xs: seq<Tips>, ys: seq<Tips>, tip: Tip)
    ensures MostIn(xs + ys, tip) == Larger(MostIn(xs, tip), MostIn(ys, tip))
  {
    if xs == [] {
      assert xs + ys == ys;
    } else {
      MostInConcat(xs[1..], ys, tip);
      assert (xs + ys)[1..] == xs[1..] + ys;
    }
  }

  lemma {:induction false} MostInEach(x: Tips, ys: seq<Tips>, tip: Tip)
    ensures MostIn(Each(x, ys), tip) == Plus(Most(x[tip]), MostIn(ys, tip))
  {
    if ys == [] {
    } else {
      MostInEach(x, ys[1..], tip);
      assert Each(x, ys)[1..] == Each(x, ys[1..]);
    }
  }

  lemma {:induction false} MostInCross(xs: seq<Tips>, ys: seq<Tips>, tip: Tip)
    ensures MostIn(Cross(xs, ys), tip) == Plus(MostIn(xs, tip), MostIn(ys, tip))
  {
    if xs == [] {
    } else {
      MostInCross(xs[1..], ys, tip);
      MostInEach(xs[0], ys, tip);
      MostInConcat(Each(xs[0], ys), Cross(xs[1..], ys), tip);
    }
  }

  lemma MostOfPattern(p: Pattern, tip: Tip)
    ensures p.Leaf? ==> MostIn(Dnf(p), tip) == MostOften(p, tip)
    ensures p.Either? ==> Dnf(p) == DnfAny(p.children) && MostOften(p, tip) == MostAny(p.children, tip)
    ensures p.OneOrMore? ==>
              && Dnf(p) == Cross(DnfAll(p.children), DnfAll(p.children))
              && MostOften(p, tip) == Plus(MostAll(p.children, tip), MostAll(p.children, tip))
    ensures p.Required? || p.Optional? || p.OptionsShortcut? ==>
              Dnf(p) == DnfAll(p.children) && MostOften(p, tip) == MostAll(p.children, tip)
  {
    hide Cross, DnfAll, DnfAny, MostAll, MostAny;
    if p.Leaf? {
      assert Dnf(p)[1..] == [];
    }
  }

  lemma {:induction false} MostOftenIs(p: Pattern, tip: Tip)
    ensures MostIn(Dnf(p), tip) == MostOften(p, tip)
    decreases p
  {
    hide *;
    MostOfPattern(p, tip);
    match p
    case Leaf(t) =>
    case Either(children) =>
      MostAnyIs(children, tip);
    case OneOrMore(children) =>
      MostAllIs(children, tip);
      MostInCross(DnfAll(children), DnfAll(children), tip);
    case Required(children) =>
      MostAllIs(children, tip);
    case Optional(children) =>
      MostAllIs(children, tip);
    case OptionsShortcut(children) =>
      MostAllIs(children, tip);
  }

  lemma {:induction false} MostAllIs(ps: seq<Pattern>, tip: Tip)
    ensures MostIn(DnfAll(ps), tip) == MostAll(ps, tip)
    decreases ps
  {
    if ps == [] {
      assert DnfAll(ps)[1..] == [];
    } else {
      MostOftenIs(ps[0], tip);
      MostAllIs(ps[1..], tip);
      MostInCross(Dnf(ps[0]), DnfAll(ps[1..]), tip);
    }
  }

  lemma {:induction false} MostAnyIs(ps: seq<Pattern>, tip: Tip)
    ensures MostIn(DnfAny(ps), tip) == MostAny(ps, tip)
    decreases ps
  {
    if ps == [] {
    } else {
      MostOftenIs(ps[0], tip);
      MostAnyIs(ps[1..], tip);
      MostInConcat(Dnf(ps[0]), DnfAny(ps[1..]), tip);
    }
  }

  lemma {:induction false} MostInBounds(bags: seq<Tips>, tip: Tip, n: nat)
    ensures (exists b :: b in bags && b[tip] > n) <==> (MostIn(bags, tip).Most? && MostIn(bags, tip).count > n)
  {
    if bags == [] {
    } else {
      MostInBounds(bags[1..], tip, n);
      assert bags == [bags[0]] + bags[1..];
    }
  }

  /** A tip is found more than once in some group of the expansion exactly if the pattern lets it occur more than once. */
  lemma RepeatsFound(pattern: Pattern, r: Pattern, tip: Tip)
    requires Flat(r) && multiset(Groups(r)) == multiset(Dnf(pattern))
    ensures (exists g :: g in Groups(r) && g[tip] > 1) <==>
            (MostOften(pattern, tip).Most? && MostOften(pattern, tip).count > 1)
  {
    MostOftenIs(pattern, tip);
    MostInBounds(Dnf(pattern), tip, 1);
    hide *;
    forall g
      ensures g in Groups(r) <==> g in Dnf(pattern)
    {
      assert g in Groups(r) <==> g in multiset(Groups(r));
    }
  }

  // What the documentation shows.

  lemma EachOfTwo(x: Tips, y: Tips, z: Tips)
    ensures Each(x, [y, z]) == [x + y, x + z] && Each(x, [y]) == [x + y]
  {
    var two, one := Each(x, [y, z]), Each(x, [y]);
    assert two == [two[0], two[1]] && one == [one[0]];
  }

  lemma CrossOfTwo(a: Tips, b: Tips, ys: seq<Tips>)
    ensures Cross([a, b], ys) == Each(a, ys) + Each(b, ys) && Cross([a], ys) == Each(a, ys)
  {
    hide Each;
    assert [a, b][1..] == [b] && [b][1..] == [] && [a][1..] == [];
    assert Cross([b], ys) == Each(b, ys) + [] && Cross([a], ys) == Each(a, ys) + [];
  }

  lemma AnyOfTwo(p: Pattern, q: Pattern)
    ensures DnfAny([p, q]) == Dnf(p) + Dnf(q)
  {
    hide Dnf;
    assert [p, q][1..] == [q] && [q][1..] == [];
    assert DnfAny([q]) == Dnf(q) + [];
  }

  lemma AllOfTwo(p: Pattern, q: Pattern)
    ensures DnfAll([p, q]) == Cross(Dnf(p), Dnf(q))
  {
    DnfAllSingle(q);
    hide Dnf, Cross;
    assert [p, q][1..] == [q];
  }

  lemma Unfolded(p: Pattern, q: Pattern, a: Tip)
    ensures Dnf(Leaf(a)) == [multiset{a}] && Dnf(Either([p, q])) == DnfAny([p, q]) && Dnf(Required([p, q])) == DnfAll([p, q])
    ensures Dnf(Optional([p])) == DnfAll([p]) && Dnf(OptionsShortcut([p])) == DnfAll([p])
    ensures Dnf(OneOrMore([p])) == Cross(DnfAll([p]), DnfAll([p]))
  {
    hide DnfAll, DnfAny, Cross;
  }

  lemma EitherOfLeaves(a: Tip, b: Tip)
    ensures Dnf(Either([Leaf(a), Leaf(b)])) == [multiset{a}, multiset{b}]
  {
    hide *;
    Unfolded(Leaf(a), Leaf(b), a);
    Unfolded(Leaf(a), Leaf(b), b);
    AnyOfTwo(Leaf(a), Leaf(b));
    assert [multiset{a}] + [multiset{b}] == [multiset{a}, multiset{b}];
  }

  /** ((-a | -b) (-c | -d)) stands for four groups, [-a] for (-a), and (-a...) for (-a -a). */
  lemma DocumentedExamples(a: Tip, b: Tip, c: Tip, d: Tip)
    ensures Dnf(Required([Either([Leaf(a), Leaf(b)]), Either([Leaf(c), Leaf(d)])])) ==
            [multiset{a} + multiset{c}, multiset{a} + multiset{d}, multiset{b} + multiset{c}, multiset{b} + multiset{d}]
    ensures Dnf(Optional([Leaf(a)])) == [multiset{a}] && Dnf(OptionsShortcut([Leaf(a)])) == [multiset{a}]
    ensures Dnf(OneOrMore([Leaf(a)])) == [multiset{a} + multiset{a}]
  {
    hide *;
    var left, right := Either([Leaf(a), Leaf(b)]), Either([Leaf(c), Leaf(d)]);
    var w, x, y, z := multiset{a}, multiset{b}, multiset{c}, multiset{d};
    EitherOfLeaves(a, b);
    EitherOfLeaves(c, d);
    Unfolded(left, right, a);
    AllOfTwo(left, right);
    CrossOfTwo(w, x, [y, z]);
    EachOfTwo(w, y, z);
    EachOfTwo(x, y, z);
    Unfolded(Leaf(a), Leaf(a), a);
    DnfAllSingle(Leaf(a));
    CrossOfTwo(w, w, [w]);
    EachOfTwo(w, w, w);
  }
}
