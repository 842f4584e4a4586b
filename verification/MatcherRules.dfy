// The rules of an integration and their flat form (frontend/src/components/MatcherRules.tsx):
// rows tagged with a group, the rows of a group joined by "and", the groups by "or".
module MatcherRules {
  import opened Text

  datatype Op = Equals | Prefix | Suffix | Contains | Regex | NotEquals | NotContains | Exists | NotExists

  predicate Valueless(op: Op) {
    op.Exists? || op.NotExists?
  }

  const SERVICE := "service.name"

  datatype Cond = Cond(attribute: string, op: Op, value: string)

  datatype Combine = Any | All

  datatype Rule = Rule(serviceOp: Op, service: string, combine: Combine, attrs: seq<Cond>, descendants: bool)

  /** One row of the flat form. A server that predates members sends rows without one. */
  datatype Matcher = Matcher(cond: Cond, group: int, descendants: bool, member: Option<int>)

  // ---- rules to rows -----------------------------------------------------

  function TrimCond(a: Cond): Cond {
    Cond(Trim(JsSpace, a.attribute), a.op, Trim(JsSpace, a.value))
  }

  predicate CompleteCond(a: Cond) {
    a.attribute != "" && (a.value != "" || Valueless(a.op))
  }

  /** The conditions that are complete once trimmed. */
  function ValidConds(attrs: seq<Cond>): seq<Cond> {
    if attrs == [] then []
    else
      var a := TrimCond(attrs[0]);
      (if CompleteCond(a) then [a] else []) + ValidConds(attrs[1..])
  }

  /** A condition somebody typed is kept if, trimmed, it names an attribute and has a value or an
      operator that needs none. */
  predicate Typed(a: Cond) {
    Trim(JsSpace, a.attribute) != ""
    && (Trim(JsSpace, a.value) != "" || a.op == Exists || a.op == NotExists)
  }

  function Trimming(a: Cond): Cond {
    Cond(Trim(JsSpace, a.attribute), a.op, Trim(JsSpace, a.value))
  }

  /** Exactly the conditions that are kept survive, trimmed, each as often as it was typed and in the
      order in which it was. */
  lemma {:induction false} ValidCondsAre(attrs: seq<Cond>) returns (at: seq<nat>)
    ensures Selected(ValidConds(attrs), at, attrs, Typed, Trimming)
  {
    at := [];
    if attrs == [] {
      hide Typed, Trimming;
    } else {
      hide *;
      var n := |attrs| - 1;
      at := ValidCondsAre(attrs[..n]);
      ValidCondsLast(attrs);
      assert attrs == attrs[..n] + [attrs[n]];
      SelectedSnoc(ValidConds(attrs[..n]), at, attrs[..n], Typed, Trimming, attrs[n]);
      if Typed(attrs[n]) {
        at := at + [n];
      } else {
        assert ValidConds(attrs[..n]) + [] == ValidConds(attrs[..n]);
      }
    }
  }

  lemma ValidCond(a: Cond)
    ensures CompleteCond(TrimCond(a)) <==> Typed(a)
    ensures TrimCond(a) == Trimming(a)
  {
    hide Trim;
  }

  lemma {:induction false} ValidCondsLast(attrs: seq<Cond>)
    requires attrs != []
    ensures var n := |attrs| - 1;
            ValidConds(attrs)
            == ValidConds(attrs[..n]) + if Typed(attrs[n]) then [Trimming(attrs[n])] else []
  {
    var n := |attrs| - 1;
    ValidCond(attrs[0]);
    hide TrimCond, CompleteCond, Typed, Trimming;
    if n > 0 {
      ValidCondsLast(attrs[1..]);
      assert attrs[1..][..n - 1] == attrs[..n][1..];
      var one := if Typed(attrs[0]) then [Trimming(attrs[0])] else [];
      Regroup(one, ValidConds(attrs[..n][1..]), if Typed(attrs[n]) then [Trimming(attrs[n])] else []);
    } else {
      assert attrs[1..] == [] && attrs[..0] == [];
    }
  }

  function ValidAttrs(r: Rule): seq<Cond> {
    ValidConds(r.attrs)
  }

  predicate Complete(r: Rule) {
    Trim(JsSpace, r.service) != ""
  }

  function ServiceCond(r: Rule): Cond {
    Cond(SERVICE, r.serviceOp, Trim(JsSpace, r.service))
  }

  /** The rows of one group: the service's and then the conditions', all with the rule's flag and member. */
  function GroupRows(r: Rule, attrs: seq<Cond>, group: int, member: int): seq<Matcher> {
    [Matcher(ServiceCond(r), group, r.descendants, Some(member))] + CondRows(r, attrs, group, member)
  }

  function CondRows(r: Rule, attrs: seq<Cond>, group: int, member: int): (rows: seq<Matcher>)
    ensures |rows| == |attrs|
    ensures forall i | 0 <= i < |attrs| :: rows[i] == Matcher(attrs[i], group, r.descendants, Some(member))
  {
    if attrs == [] then []
    else [Matcher(attrs[0], group, r.descendants, Some(member))] + CondRows(r, attrs[1..], group, member)
  }

  /** One group for each alternative. */
  function Alternatives(r: Rule, attrs: seq<Cond>, group: int, member: int): (gs: seq<seq<Matcher>>)
    ensures |gs| == |attrs|
    ensures forall i | 0 <= i < |attrs| :: gs[i] == GroupRows(r, [attrs[i]], group + i, member)
  {
    if attrs == [] then []
    else [GroupRows(r, [attrs[0]], group, member)] + Alternatives(r, attrs[1..], group + 1, member)
  }

  /** The groups one complete rule expands into. */
  function RuleGroups(r: Rule, group: int, member: int): seq<seq<Matcher>> {
    var attrs := ValidAttrs(r);
    if attrs == [] || r.combine.All? then [GroupRows(r, attrs, group, member)]
    else Alternatives(r, attrs, group, member)
  }

  /** All groups of all rules, the next free group and member being given. */
  function Expand(rules: seq<Rule>, group: int, member: int): seq<seq<Matcher>>
    decreases |rules|
  {
    if rules == [] then []
    else if !Complete(rules[0]) then Expand(rules[1..], group, member)
    else
      var gs := RuleGroups(rules[0], group, member);
      gs + Expand(rules[1..], group + |gs|, member + 1)
  }

  function Rows(rules: seq<Rule>): seq<Matcher> {
    Flatten(Expand(rules, 0, 0))
  }

  /** Appends the groups of one rule, the alternatives one by one. */
  method PushRule(r: Rule, out: seq<Matcher>, group: int, member: int) returns (out': seq<Matcher>, group': int)
    ensures var gs := RuleGroups(r, group, member);
            out' == out + Flatten(gs) && group' == group + |gs|
  {
    hide *;
    ghost var gs := RuleGroups(r, group, member);
    var attrs := ValidAttrs(r);
    out', group' := out, group;
    if attrs == [] || r.combine.All? {
      SingleGroup(r, group, member);
      out' := out' + GroupRows(r, attrs, group, member);
      group' := group' + 1;
    } else {
      AllAlternatives(r, group, member);
      ghost var alts := Alternatives(r, attrs, group, member);
      assert out + [] == out;
      for i := 0 to |attrs|
        invariant group' == group + i
        invariant out' == out + Flatten(alts[..i])
      {
        hide *;
        AlternativesStep(r, attrs, group, member, i);
        var pair := [Matcher(ServiceCond(r), group', r.descendants, Some(member)),
                     Matcher(attrs[i], group', r.descendants, Some(member))];
        Regroup(out, Flatten(alts[..i]), pair);
        out' := out' + pair;
        group' := group' + 1;
      }
      assert alts[..|attrs|] == gs;
    }
  }

  /** The rows pushed so far and those the rules from `k` on still give. */
  ghost function Total(out: seq<Matcher>, rules: seq<Rule>, k: nat, group: int, member: int): seq<Matcher>
    requires k <= |rules|
  {
    out + Flatten(Expand(rules[k..], group, member))
  }

  /** Expands the rules with a running group and member. */
  method RulesToMatchers(rules: seq<Rule>) returns (out: seq<Matcher>)
    ensures out == Rows(rules)
  {
    hide *;
    out := [];
    var group, member := 0, 0;
    TotalEnds(rules, 0, 0, []);
    for k := 0 to |rules|
      invariant Total(out, rules, k, group, member) == Rows(rules)
    {
      hide *;
      var r := rules[k];
      TotalStep(out, rules, k, group, member);
      if Complete(r) {
        out, group := PushRule(r, out, group, member);
        member := member + 1;
      }
    }
    TotalEnds(rules, group, member, out);
  }

  lemma TotalEnds(rules: seq<Rule>, group: int, member: int, out: seq<Matcher>)
    ensures Total([], rules, 0, 0, 0) == Rows(rules)
    ensures Total(out, rules, |rules|, group, member) == out
  {
    assert rules[0..] == rules && [] + Rows(rules) == Rows(rules);
    assert rules[|rules|..] == [] && out + [] == out;
  }

  lemma TotalStep(out: seq<Matcher>, rules: seq<Rule>, k: nat, group: int, member: int)
    requires k < |rules|
    ensures var gs := RuleGroups(rules[k], group, member);
            Total(out, rules, k, group, member)
            == if Complete(rules[k]) then Total(out + Flatten(gs), rules, k + 1, group + |gs|, member + 1)
               else Total(out, rules, k + 1, group, member)
  {
    hide RuleGroups, Flatten, Complete;
    assert rules[k..][1..] == rules[k + 1..];
    var gs := RuleGroups(rules[k], group, member);
    var rest := Expand(rules[k + 1..], group + |gs|, member + 1);
    FlattenAppend(gs, rest);
    Regroup(out, Flatten(gs), Flatten(rest));
  }

  lemma SingleGroup(r: Rule, group: int, member: int)
    requires ValidAttrs(r) == [] || r.combine.All?
    ensures |RuleGroups(r, group, member)| == 1
    ensures Flatten(RuleGroups(r, group, member)) == GroupRows(r, ValidAttrs(r), group, member)
  {
    var g := GroupRows(r, ValidAttrs(r), group, member);
    assert [g][1..] == [] && g + [] == g;
  }

  lemma AlternativesStep(r: Rule, attrs: seq<Cond>, group: int, member: int, i: nat)
    requires i < |attrs|
    ensures var gs := Alternatives(r, attrs, group, member);
            Flatten(gs[..i + 1]) == Flatten(gs[..i]) + GroupRows(r, [attrs[i]], group + i, member)
    ensures GroupRows(r, [attrs[i]], group + i, member)
         == [Matcher(ServiceCond(r), group + i, r.descendants, Some(member)),
             Matcher(attrs[i], group + i, r.descendants, Some(member))]
  {
    var gs := Alternatives(r, attrs, group, member);
    assert gs[..i + 1] == gs[..i] + [gs[i]];
    FlattenAppend(gs[..i], [gs[i]]);
    assert Flatten([gs[i]]) == gs[i] by { assert [gs[i]][1..] == [] && gs[i] + [] == gs[i]; }
  }

  lemma AllAlternatives(r: Rule, group: int, member: int)
    requires ValidAttrs(r) != [] && r.combine.Any?
    ensures var attrs := ValidAttrs(r);
            var gs := Alternatives(r, attrs, group, member);
            RuleGroups(r, group, member) == gs == gs[..|attrs|] && Flatten(gs[..0]) == []
  {
  }

  // ---- the groups of a list of rows ------------------------------------------

  /** The rows of one group, in order. */
  function RowsOf(rows: seq<Matcher>, group: int): seq<Matcher> {
    if rows == [] then []
    else (if rows[0].group == group then [rows[0]] else []) + RowsOf(rows[1..], group)
  }

  predicate Ascending(xs: seq<int>) {
    forall i, j | 0 <= i < j < |xs| :: xs[i] < xs[j]
  }

  /** A number put in its place, unless it is there. */
  function Insert(x: int, xs: seq<int>): (ys: seq<int>)
    requires Ascending(xs)
    ensures Ascending(ys) && forall y :: y in ys <==> y == x || y in xs
  {
    if xs == [] then [x]
    else if x < xs[0] then [x] + xs
    else if x == xs[0] then xs
    else
      assert forall y :: y in xs <==> y == xs[0] || y in xs[1..];
      var rest := Insert(x, xs[1..]);
      assert forall y | y in rest :: xs[0] < y;
      assert forall i | 0 <= i < |rest| :: rest[i] in rest;
      [xs[0]] + rest
  }

  /** The group numbers of the rows in ascending order, each once. */
  function Ids(rows: seq<Matcher>): (ids: seq<int>)
    ensures Ascending(ids) && forall g :: g in ids <==> exists m :: m in rows && m.group == g
  {
    if rows == [] then []
    else
      assert forall m :: m in rows <==> m == rows[0] || m in rows[1..];
      Insert(rows[0].group, Ids(rows[1..]))
  }

  lemma {:induction false} AscendingUnique(xs: seq<int>, ys: seq<int>)
    requires Ascending(xs) && Ascending(ys) && forall x :: x in xs <==> x in ys
    ensures xs == ys
  {
    forall i | 0 <= i < |ys| ensures ys[i] in xs {
      assert ys[i] in ys;
    }
    assert ys == [] || ys[0] in xs;
    if xs != [] {
      assert xs[0] in xs && xs[0] in ys && ys[0] in ys && ys[0] in xs;
      assert forall x :: x in xs <==> x == xs[0] || x in xs[1..];
      assert forall x :: x in ys <==> x == ys[0] || x in ys[1..];
      AscendingUnique(xs[1..], ys[1..]);
    }
  }

  function GroupList(rows: seq<Matcher>, ids: seq<int>): (gs: seq<seq<Matcher>>)
    ensures |gs| == |ids|
    ensures forall i | 0 <= i < |ids| :: gs[i] == RowsOf(rows, ids[i])
  {
    if ids == [] then [] else [RowsOf(rows, ids[0])] + GroupList(rows, ids[1..])
  }

  /** Some row of the group asks for the spans below as well. */
  predicate Flagged(g: seq<Matcher>) {
    exists m | m in g :: m.descendants
  }

  /** The groups in ascending order of their numbers. */
  function Groups(rows: seq<Matcher>): seq<seq<Matcher>> {
    GroupList(rows, Ids(rows))
  }

  /** Non-empty groups numbered from `first` on. */
  predicate Numbered(gs: seq<seq<Matcher>>, first: int) {
    forall i | 0 <= i < |gs| :: GroupIs(gs[i], first + i)
  }

  predicate GroupIs(g: seq<Matcher>, id: int) {
    g != [] && forall m | m in g :: m.group == id
  }

  lemma NumberedAppend(gs: seq<seq<Matcher>>, hs: seq<seq<Matcher>>, first: int)
    requires Numbered(gs, first) && Numbered(hs, first + |gs|)
    ensures Numbered(gs + hs, first)
  {
    hide GroupIs;
    forall i | 0 <= i < |gs + hs| ensures GroupIs((gs + hs)[i], first + i) {
      if i < |gs| {
        assert GroupIs(gs[i], first + i);
      } else {
        assert GroupIs(hs[i - |gs|], first + |gs| + (i - |gs|));
      }
    }
  }

  lemma NumberedTail(gs: seq<seq<Matcher>>, first: int)
    requires Numbered(gs, first) && gs != []
    ensures GroupIs(gs[0], first) && Numbered(gs[1..], first + 1)
  {
    hide GroupIs;
    forall i | 0 <= i < |gs| - 1 ensures GroupIs(gs[1..][i], first + 1 + i) {
      assert GroupIs(gs[i + 1], first + (i + 1));
    }
  }

  lemma {:induction false} RowsOfAppend(xs: seq<Matcher>, ys: seq<Matcher>, g: int)
    ensures RowsOf(xs + ys, g) == RowsOf(xs, g) + RowsOf(ys, g)
  {
    if xs == [] {
      assert xs + ys == ys;
    } else {
      assert (xs + ys)[1..] == xs[1..] + ys;
      RowsOfAppend(xs[1..], ys, g);
      Regroup(if xs[0].group == g then [xs[0]] else [], RowsOf(xs[1..], g), RowsOf(ys, g));
    }
  }

  lemma {:induction false} RowsOfUniform(xs: seq<Matcher>, g: int, h: int)
    requires forall m | m in xs :: m.group == g
    ensures RowsOf(xs, h) == if g == h then xs else []
  {
    if xs != [] {
      assert xs[0] in xs;
      forall m | m in xs[1..] ensures m.group == g { assert m in xs; }
      RowsOfUniform(xs[1..], g, h);
    }
  }

  lemma {:induction false} RowsOfFlatten(gs: seq<seq<Matcher>>, first: int, g: int)
    requires Numbered(gs, first)
    ensures RowsOf(Flatten(gs), g) == if first <= g < first + |gs| then gs[g - first] else []
  {
    if gs != [] {
      NumberedTail(gs, first);
      RowsOfFlatten(gs[1..], first + 1, g);
      RowsOfAppend(gs[0], Flatten(gs[1..]), g);
      RowsOfUniform(gs[0], first, g);
    }
  }

  lemma {:induction false} GroupsOccur(gs: seq<seq<Matcher>>, first: int, g: int)
    requires Numbered(gs, first)
    ensures (exists m :: m in Flatten(gs) && m.group == g) <==> first <= g < first + |gs|
  {
    if gs != [] {
      NumberedTail(gs, first);
      GroupsOccur(gs[1..], first + 1, g);
      assert gs[0][0] in gs[0];
      assert forall m :: m in Flatten(gs) <==> m in gs[0] || m in Flatten(gs[1..]);
    }
  }

  function Interval(first: int, n: nat): (xs: seq<int>)
    ensures |xs| == n && forall i | 0 <= i < n :: xs[i] == first + i
    decreases n
  {
    if n == 0 then [] else [first] + Interval(first + 1, n - 1)
  }

  lemma IdsOfFlatten(gs: seq<seq<Matcher>>, first: int)
    requires Numbered(gs, first)
    ensures Ids(Flatten(gs)) == Interval(first, |gs|)
  {
    var xs, ys := Ids(Flatten(gs)), Interval(first, |gs|);
    forall x ensures x in xs <==> x in ys {
      GroupsOccur(gs, first, x);
      if first <= x < first + |gs| { assert ys[x - first] == x; }
    }
    AscendingUnique(xs, ys);
  }

  /** Flattening numbered groups loses nothing. */
  lemma GroupsOfFlatten(gs: seq<seq<Matcher>>, first: int)
    requires Numbered(gs, first)
    ensures Groups(Flatten(gs)) == gs
  {
    IdsOfFlatten(gs, first);
    var rows, ids := Flatten(gs), Interval(first, |gs|);
    forall i | 0 <= i < |gs| ensures RowsOf(rows, ids[i]) == gs[i] {
      RowsOfFlatten(gs, first, first + i);
    }
    hide Ids, Flatten, RowsOf, Numbered;
    assert GroupList(rows, ids) == gs;
  }

  /** Every row of a rule's group carries the group, the rule's flag and its member. */
  lemma GroupRowsUniform(r: Rule, attrs: seq<Cond>, group: int, member: int)
    ensures GroupIs(GroupRows(r, attrs, group, member), group)
    ensures forall m | m in GroupRows(r, attrs, group, member) ::
              m.member == Some(member) && m.descendants == r.descendants
  {
    var rows := GroupRows(r, attrs, group, member);
    forall m | m in rows ensures m.group == group && m.member == Some(member) && m.descendants == r.descendants {
      var i :| 0 <= i < |rows| && rows[i] == m;
    }
  }

  lemma RuleGroupsNumbered(r: Rule, group: int, member: int)
    ensures RuleGroups(r, group, member) != [] && Numbered(RuleGroups(r, group, member), group)
  {
    var attrs := ValidAttrs(r);
    GroupRowsUniform(r, attrs, group, member);
    forall i | 0 <= i < |attrs| ensures GroupIs(GroupRows(r, [attrs[i]], group + i, member), group + i) {
      GroupRowsUniform(r, [attrs[i]], group + i, member);
    }
    hide GroupIs, GroupRows, ValidAttrs;
  }

  lemma {:induction false} ExpandNumbered(rules: seq<Rule>, group: int, member: int)
    ensures Numbered(Expand(rules, group, member), group)
    decreases |rules|
  {
    hide Numbered, RuleGroups, Complete;
    if rules == [] {
      NumberedNone(group);
    } else if Complete(rules[0]) {
      var gs := RuleGroups(rules[0], group, member);
      RuleGroupsNumbered(rules[0], group, member);
      ExpandNumbered(rules[1..], group + |gs|, member + 1);
      NumberedAppend(gs, Expand(rules[1..], group + |gs|, member + 1), group);
    } else {
      ExpandNumbered(rules[1..], group, member);
    }
  }

  lemma NumberedNone(first: int)
    ensures Numbered([], first)
  {
  }

  lemma GroupsOfRows(rules: seq<Rule>)
    ensures Groups(Rows(rules)) == Expand(rules, 0, 0)
  {
    ExpandNumbered(rules, 0, 0);
    GroupsOfFlatten(Expand(rules, 0, 0), 0);
  }
}
