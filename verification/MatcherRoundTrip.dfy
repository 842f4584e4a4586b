// Reading rows back into rules (matchersToRules) undoes expanding rules into rows.
module MatcherRoundTrip {
  import opened Text
  import opened MatcherRules

  /** What a group's rule is found by: the member its rows name, else its service condition. */
  datatype Key = ByMember(member: int) | ByService(op: Op, value: string)

  /** The rules read so far, in order of appearance, and those without a service. */
  datatype Reading = Reading(order: seq<Key>, rules: map<Key, Rule>, noService: seq<Rule>)

  function ServiceRow(g: seq<Matcher>): Option<Cond> {
    if g == [] then None
    else if g[0].cond.attribute == SERVICE then Some(g[0].cond)
    else ServiceRow(g[1..])
  }

  function OtherConds(g: seq<Matcher>): seq<Cond> {
    if g == [] then []
    else (if g[0].cond.attribute == SERVICE then [] else [g[0].cond]) + OtherConds(g[1..])
  }

  function MemberOf(g: seq<Matcher>): Option<int> {
    if g == [] then None
    else if g[0].member.Some? then g[0].member
    else MemberOf(g[1..])
  }

  function KeyOf(svc: Cond, member: Option<int>): Key {
    if member.Some? then ByMember(member.value) else ByService(svc.op, svc.value)
  }

  /** A rule with one more group's conditions: a single one is an alternative, several stand together. */
  function AddConds(rule: Rule, attrs: seq<Cond>, descendants: bool): Rule {
    var r := rule.(descendants := rule.descendants || descendants, attrs := rule.attrs + attrs);
    if |attrs| > 1 then r.(combine := All) else r
  }

  function ReadGroup(acc: Reading, g: seq<Matcher>): Reading {
    var svc, attrs := ServiceRow(g), OtherConds(g);
    if svc.None? then
      acc.(noService := acc.noService
                        + [Rule(Equals, "", if |attrs| > 1 then All else Any, attrs, Flagged(g))])
    else
      var key := KeyOf(svc.value, MemberOf(g));
      if key in acc.rules then acc.(rules := acc.rules[key := AddConds(acc.rules[key], attrs, Flagged(g))])
      else
        var blank := Rule(svc.value.op, svc.value.value, Any, [], false);
        acc.(order := acc.order + [key], rules := acc.rules[key := AddConds(blank, attrs, Flagged(g))])
  }

  function ReadAll(acc: Reading, gs: seq<seq<Matcher>>): Reading
    decreases |gs|
  {
    if gs == [] then acc else ReadAll(ReadGroup(acc, gs[0]), gs[1..])
  }

  const NOTHING := Reading([], map[], [])

  predicate WellKeyed(acc: Reading) {
    forall k | k in acc.order :: k in acc.rules
  }

  function RuleList(order: seq<Key>, rules: map<Key, Rule>): seq<Rule>
    requires forall k | k in order :: k in rules
  {
    if order == [] then [] else RuleList(order[..|order| - 1], rules) + [rules[order[|order| - 1]]]
  }

  lemma {:induction false} ReadAllKeyed(acc: Reading, gs: seq<seq<Matcher>>)
    requires WellKeyed(acc)
    ensures WellKeyed(ReadAll(acc, gs))
    decreases |gs|
  {
    if gs != [] {
      ReadAllKeyed(ReadGroup(acc, gs[0]), gs[1..]);
    }
  }

  /** The rules that rows read back as. */
  function RulesFrom(rows: seq<Matcher>): seq<Rule> {
    ReadAllKeyed(NOTHING, Groups(rows));
    var acc := ReadAll(NOTHING, Groups(rows));
    RuleList(acc.order, acc.rules) + acc.noService
  }

  // ---- the loops -------------------------------------------------------------

  lemma RowsOfSnoc(rows: seq<Matcher>, m: Matcher, g: int)
    ensures RowsOf(rows + [m], g) == if m.group == g then RowsOf(rows, g) + [m] else RowsOf(rows, g)
  {
    RowsOfAppend(rows, [m], g);
    assert [m][1..] == [];
    assert RowsOf([m], g) == if m.group == g then [m] else [];
    assert RowsOf(rows, g) + [] == RowsOf(rows, g);
  }

  lemma {:induction false} RowsOfMissing(rows: seq<Matcher>, g: int)
    requires forall m | m in rows :: m.group != g
    ensures RowsOf(rows, g) == []
  {
    if rows != [] {
      assert rows[0] in rows;
      forall m | m in rows[1..] ensures m.group != g { assert m in rows; }
      RowsOfMissing(rows[1..], g);
    }
  }

  predicate Occurs(rows: seq<Matcher>, g: int) {
    exists m :: m in rows && m.group == g
  }

  /** `byGroup` holds the rows of each group that occurs, in order. */
  ghost predicate Buckets(byGroup: map<int, seq<Matcher>>, rows: seq<Matcher>) {
    (forall g :: g in byGroup <==> Occurs(rows, g))
    && forall g | g in byGroup :: byGroup[g] == RowsOf(rows, g)
  }

  lemma BucketStep(byGroup: map<int, seq<Matcher>>, rows: seq<Matcher>, m: Matcher)
    requires Buckets(byGroup, rows)
    ensures Buckets(byGroup[m.group := (if m.group in byGroup then byGroup[m.group] else []) + [m]], rows + [m])
  {
    forall g ensures Occurs(rows + [m], g) <==> g == m.group || Occurs(rows, g) {
      OccursSnoc(rows, m, g);
    }
    forall g ensures RowsOf(rows + [m], g) == if m.group == g then RowsOf(rows, g) + [m] else RowsOf(rows, g) {
      RowsOfSnoc(rows, m, g);
    }
    if m.group !in byGroup {
      assert !Occurs(rows, m.group);
      RowsOfMissing(rows, m.group);
    }
    hide RowsOf, Occurs;
  }

  lemma OccursSnoc(rows: seq<Matcher>, m: Matcher, g: int)
    ensures Occurs(rows + [m], g) <==> g == m.group || Occurs(rows, g)
  {
    assert forall x :: x in rows + [m] <==> x == m || x in rows;
  }

  /** Buckets rows by their group, keeping their order. */
  method Bucket(rows: seq<Matcher>) returns (byGroup: map<int, seq<Matcher>>)
    ensures forall g :: g in byGroup <==> g in Ids(rows)
    ensures forall g | g in byGroup :: byGroup[g] == RowsOf(rows, g)
  {
    byGroup := map[];
    for k := 0 to |rows|
      invariant Buckets(byGroup, rows[..k])
    {
      hide *;
      var m := rows[k];
      assert rows[..k + 1] == rows[..k] + [m];
      BucketStep(byGroup, rows[..k], m);
      byGroup := byGroup[m.group := (if m.group in byGroup then byGroup[m.group] else []) + [m]];
    }
    assert rows[..|rows|] == rows;
  }

  /** Buckets the rows by group and folds the groups, in the order of their numbers, into rules. */
  method MatchersToRules(rows: seq<Matcher>) returns (rules: seq<Rule>)
    ensures rules == RulesFrom(rows)
  {
    var byGroup := Bucket(rows);
    var ids := Ids(rows);
    var order: seq<Key>, ruleMap: map<Key, Rule>, noService: seq<Rule> := [], map[], [];
    ghost var gs := Groups(rows);
    assert gs[0..] == gs;
    ReadAllKeyed(NOTHING, gs);
    for k := 0 to |ids|
      invariant |gs| == |ids|
      invariant ReadAll(Reading(order, ruleMap, noService), gs[k..]) == ReadAll(NOTHING, gs)
    {
      hide RowsOf, Groups, Ids, OtherConds, ServiceRow, MemberOf;
      assert ids[k] in ids;
      var g := byGroup[ids[k]];
      ReadStep(Reading(order, ruleMap, noService), gs, k);
      var svc, attrs, descendants := ServiceRow(g), OtherConds(g), Flagged(g);
      if svc.None? {
        noService := noService + [Rule(Equals, "", if |attrs| > 1 then All else Any, attrs, descendants)];
        continue;
      }
      var key := KeyOf(svc.value, MemberOf(g));
      var rule := Rule(svc.value.op, svc.value.value, Any, [], false);
      if key in ruleMap {
        rule := ruleMap[key];
      } else {
        order := order + [key];
      }
      rule := rule.(descendants := rule.descendants || descendants);
      if |attrs| == 1 {
        rule := rule.(attrs := rule.attrs + attrs);
      } else if |attrs| > 1 {
        rule := rule.(attrs := rule.attrs + attrs, combine := All);
      } else {
        assert rule.attrs + attrs == rule.attrs;
      }
      ruleMap := ruleMap[key := rule];
    }
    return RuleList(order, ruleMap) + noService;
  }

  lemma ReadStep(acc: Reading, gs: seq<seq<Matcher>>, k: nat)
    requires k < |gs|
    ensures ReadAll(acc, gs[k..]) == ReadAll(ReadGroup(acc, gs[k]), gs[k + 1..])
  {
    hide ReadGroup;
    assert gs[k..][1..] == gs[k + 1..];
  }

  // ---- reading back what was expanded -------------------------------------------

  /** The conditions a group can carry beside its service. */
  function NonService(attrs: seq<Cond>): seq<Cond> {
    if attrs == [] then []
    else (if attrs[0].attribute == SERVICE then [] else [attrs[0]]) + NonService(attrs[1..])
  }

  /** What a complete rule comes back as. */
  function ReadBack(r: Rule): Rule {
    var attrs := NonService(ValidAttrs(r));
    Rule(r.serviceOp, Trim(JsSpace, r.service), if r.combine.All? && |attrs| > 1 then All else Any,
         attrs, r.descendants)
  }

  function ReadBacks(rules: seq<Rule>): seq<Rule> {
    if rules == [] then []
    else (if Complete(rules[0]) then [ReadBack(rules[0])] else []) + ReadBacks(rules[1..])
  }

  lemma {:induction false} OtherCondsOfRows(r: Rule, attrs: seq<Cond>, group: int, member: int)
    ensures OtherConds(CondRows(r, attrs, group, member)) == NonService(attrs)
  {
    if attrs != [] {
      OtherCondsOfRows(r, attrs[1..], group, member);
      var rest := CondRows(r, attrs[1..], group, member);
      var row := Matcher(attrs[0], group, r.descendants, Some(member));
      assert ([row] + rest)[1..] == rest;
    }
  }

  lemma GroupRowsRead(r: Rule, attrs: seq<Cond>, group: int, member: int)
    ensures var g := GroupRows(r, attrs, group, member);
            ServiceRow(g) == Some(ServiceCond(r)) && OtherConds(g) == NonService(attrs)
            && MemberOf(g) == Some(member) && Flagged(g) == r.descendants
  {
    var g := GroupRows(r, attrs, group, member);
    var rest := CondRows(r, attrs, group, member);
    assert g[0] == Matcher(ServiceCond(r), group, r.descendants, Some(member)) && g[1..] == rest;
    OtherCondsOfRows(r, attrs, group, member);
    assert [] + OtherConds(rest) == OtherConds(rest);
    GroupRowsUniform(r, attrs, group, member);
    hide GroupRows;
    assert g[0] in g;
  }

  /** Reading one group of a rule's member. */
  lemma ReadGroupRows(acc: Reading, r: Rule, attrs: seq<Cond>, group: int, member: int)
    ensures var key, conds := ByMember(member), NonService(attrs);
            var rule := if key in acc.rules then acc.rules[key]
                        else Rule(r.serviceOp, Trim(JsSpace, r.service), Any, [], false);
            ReadGroup(acc, GroupRows(r, attrs, group, member))
            == Reading(if key in acc.rules then acc.order else acc.order + [key],
                       acc.rules[key := AddConds(rule, conds, r.descendants)], acc.noService)
  {
    GroupRowsRead(r, attrs, group, member);
    hide GroupRows, ServiceRow, OtherConds, MemberOf, Flagged, NonService, AddConds;
  }

  lemma NonServiceHead(attrs: seq<Cond>)
    requires attrs != []
    ensures NonService(attrs) == NonService([attrs[0]]) + NonService(attrs[1..])
    ensures |NonService([attrs[0]])| <= 1
  {
    var a := [attrs[0]];
    assert a[1..] == [];
    assert NonService(a[1..]) == [];
    assert NonService(a) == (if a[0].attribute == SERVICE then [] else [a[0]]) + [];
  }

  /** Reading further alternatives of a rule that has been started. */
  lemma {:induction false} ReadAlternatives(acc: Reading, r: Rule, attrs: seq<Cond>, group: int, member: int)
    requires var key := ByMember(member);
             key in acc.rules && acc.rules[key].descendants == r.descendants
    ensures var key := ByMember(member);
            ReadAll(acc, Alternatives(r, attrs, group, member))
            == acc.(rules := acc.rules[key := acc.rules[key].(attrs := acc.rules[key].attrs + NonService(attrs))])
    decreases |attrs|
  {
    var key := ByMember(member);
    var gs := Alternatives(r, attrs, group, member);
    if attrs == [] {
      assert acc.rules[key].attrs + [] == acc.rules[key].attrs;
    } else {
      var one, rest := NonService([attrs[0]]), NonService(attrs[1..]);
      NonServiceHead(attrs);
      var next := ReadGroup(acc, gs[0]);
      ReadGroupRows(acc, r, [attrs[0]], group, member);
      hide GroupRows, ReadGroup, NonService;
      assert next == acc.(rules := acc.rules[key := acc.rules[key].(attrs := acc.rules[key].attrs + one)]);
      ReadAlternatives(next, r, attrs[1..], group + 1, member);
      Regroup(acc.rules[key].attrs, one, rest);
      assert gs[1..] == Alternatives(r, attrs[1..], group + 1, member);
    }
  }

  /** All groups of a rule whose member is new: one rule appended. */
  ghost predicate AppendsRule(acc: Reading, gs: seq<seq<Matcher>>, key: Key, rule: Rule) {
    ReadAll(acc, gs) == Reading(acc.order + [key], acc.rules[key := rule], acc.noService)
  }

  lemma ReadCons(acc: Reading, g: seq<Matcher>, more: seq<seq<Matcher>>)
    ensures ReadAll(acc, [g] + more) == ReadAll(ReadGroup(acc, g), more)
    ensures ReadAll(acc, [g]) == ReadGroup(acc, g)
  {
    hide ReadGroup;
    assert ([g] + more)[1..] == more && [g][1..] == [];
    assert ReadAll(ReadGroup(acc, g), []) == ReadGroup(acc, g);
  }

  /** The first group of a new member starts its rule. */
  lemma ReadFirst(acc: Reading, r: Rule, attrs: seq<Cond>, group: int, member: int)
    requires ByMember(member) !in acc.rules
    ensures var key, conds := ByMember(member), NonService(attrs);
            var combine := if |conds| > 1 then All else Any;
            var rule := Rule(r.serviceOp, Trim(JsSpace, r.service), combine, conds, r.descendants);
            ReadGroup(acc, GroupRows(r, attrs, group, member))
            == Reading(acc.order + [key], acc.rules[key := rule], acc.noService)
  {
    ReadGroupRows(acc, r, attrs, group, member);
    hide GroupRows, ReadGroup, NonService, Trim;
    assert [] + NonService(attrs) == NonService(attrs);
  }

  lemma ReadSingleGroup(acc: Reading, r: Rule, group: int, member: int)
    requires ByMember(member) !in acc.rules && (ValidAttrs(r) == [] || r.combine.All?)
    ensures AppendsRule(acc, RuleGroups(r, group, member), ByMember(member), ReadBack(r))
  {
    var attrs := ValidAttrs(r);
    var g := GroupRows(r, attrs, group, member);
    assert RuleGroups(r, group, member) == [g];
    ReadCons(acc, g, []);
    ReadFirst(acc, r, attrs, group, member);
    NonServiceKeeps(attrs);
    hide RuleGroups, GroupRows, ReadGroup, ReadAll, NonService, ValidAttrs, Trim;
  }

  lemma ReadFirstAlternative(acc: Reading, r: Rule, a: Cond, group: int, member: int)
    requires ByMember(member) !in acc.rules
    ensures var key := ByMember(member);
            var rule := Rule(r.serviceOp, Trim(JsSpace, r.service), Any, NonService([a]), r.descendants);
            ReadGroup(acc, GroupRows(r, [a], group, member))
            == Reading(acc.order + [key], acc.rules[key := rule], acc.noService)
  {
    ReadFirst(acc, r, [a], group, member);
    NonServiceHead([a]);
    hide GroupRows, ReadGroup, NonService, Trim;
  }

  lemma UpdateTwice(m: map<Key, Rule>, k: Key, x: Rule, y: Rule)
    ensures m[k := x][k := y] == m[k := y]
  {
  }

  lemma ReadSeveralGroups(acc: Reading, r: Rule, group: int, member: int)
    requires ByMember(member) !in acc.rules && ValidAttrs(r) != [] && r.combine.Any?
    ensures AppendsRule(acc, RuleGroups(r, group, member), ByMember(member), ReadBack(r))
  {
    var key, attrs := ByMember(member), ValidAttrs(r);
    var first, more := GroupRows(r, [attrs[0]], group, member), Alternatives(r, attrs[1..], group + 1, member);
    assert RuleGroups(r, group, member) == [first] + more;
    hide RuleGroups, GroupRows, ReadGroup, ReadAll, NonService, ValidAttrs, Trim, Alternatives;
    ReadCons(acc, first, more);
    ReadFirstAlternative(acc, r, attrs[0], group, member);
    var start := Rule(r.serviceOp, Trim(JsSpace, r.service), Any, NonService([attrs[0]]), r.descendants);
    var next := Reading(acc.order + [key], acc.rules[key := start], acc.noService);
    ReadAlternatives(next, r, attrs[1..], group + 1, member);
    NonServiceHead(attrs);
    UpdateTwice(acc.rules, key, start, ReadBack(r));
  }

  lemma ReadRule(acc: Reading, r: Rule, group: int, member: int)
    requires ByMember(member) !in acc.rules
    ensures AppendsRule(acc, RuleGroups(r, group, member), ByMember(member), ReadBack(r))
  {
    hide AppendsRule, RuleGroups, ReadBack;
    if ValidAttrs(r) == [] || r.combine.All? {
      ReadSingleGroup(acc, r, group, member);
    } else {
      ReadSeveralGroups(acc, r, group, member);
    }
  }

  lemma {:induction false} ReadAllAppend(acc: Reading, gs: seq<seq<Matcher>>, hs: seq<seq<Matcher>>)
    ensures ReadAll(acc, gs + hs) == ReadAll(ReadAll(acc, gs), hs)
    decreases |gs|
  {
    hide ReadGroup;
    if gs == [] {
      assert gs + hs == hs;
    } else {
      assert (gs + hs)[1..] == gs[1..] + hs;
      ReadAllAppend(ReadGroup(acc, gs[0]), gs[1..], hs);
    }
  }

  lemma {:induction false} RuleListOther(order: seq<Key>, rules: map<Key, Rule>, key: Key, r: Rule)
    requires (forall k | k in order :: k in rules) && key !in order
    ensures RuleList(order, rules[key := r]) == RuleList(order, rules)
  {
    if order != [] {
      var n := |order| - 1;
      assert order[n] in order;
      forall k | k in order[..n] ensures k in order {}
      RuleListOther(order[..n], rules, key, r);
    }
  }

  lemma RuleListAppend(order: seq<Key>, rules: map<Key, Rule>, key: Key, r: Rule)
    requires (forall k | k in order :: k in rules) && key !in order
    ensures RuleList(order + [key], rules[key := r]) == RuleList(order, rules) + [r]
  {
    RuleListOther(order, rules, key, r);
    assert (order + [key])[..|order|] == order;
  }

  /** Members so far are below the next one. */
  predicate MembersBelow(acc: Reading, member: int) {
    forall k | k in acc.rules :: k.ByMember? && k.member < member
  }

  lemma ReadNone(acc: Reading)
    ensures ReadAll(acc, []) == acc
  {
  }

  lemma {:induction false} ReadExpand(acc: Reading, rules: seq<Rule>, group: int, member: int)
    requires WellKeyed(acc) && MembersBelow(acc, member)
    ensures var out := ReadAll(acc, Expand(rules, group, member));
            WellKeyed(out) && out.noService == acc.noService
            && RuleList(out.order, out.rules) == RuleList(acc.order, acc.rules) + ReadBacks(rules)
    decreases |rules|
  {
    hide RuleGroups, Complete, ReadBack, ReadAll, RuleList;
    if rules == [] {
      ReadNone(acc);
      assert RuleList(acc.order, acc.rules) + [] == RuleList(acc.order, acc.rules);
    } else if Complete(rules[0]) {
      var r, key := rules[0], ByMember(member);
      var gs := RuleGroups(r, group, member);
      var rest := Expand(rules[1..], group + |gs|, member + 1);
      ReadAllAppend(acc, gs, rest);
      ReadRule(acc, r, group, member);
      var mid := Reading(acc.order + [key], acc.rules[key := ReadBack(r)], acc.noService);
      ReadExpand(mid, rules[1..], group + |gs|, member + 1);
      RuleListAppend(acc.order, acc.rules, key, ReadBack(r));
      Regroup(RuleList(acc.order, acc.rules), [ReadBack(r)], ReadBacks(rules[1..]));
    } else {
      ReadExpand(acc, rules[1..], group, member);
      assert [] + ReadBacks(rules[1..]) == ReadBacks(rules[1..]);
    }
  }

  /** Reading back the rows of any rules gives every complete rule, trimmed, in order, without
      the conditions it had on the service name itself. */
  lemma RowsReadBack(rules: seq<Rule>)
    ensures RulesFrom(Rows(rules)) == ReadBacks(rules)
  {
    GroupsOfRows(rules);
    ReadExpand(NOTHING, rules, 0, 0);
    assert [] + ReadBacks(rules) == ReadBacks(rules) == ReadBacks(rules) + [];
  }

  // ---- the round trip --------------------------------------------------------------

  /** A rule as it should come back: complete conditions, trimmed, "all" only over several. */
  function Normal(r: Rule): Rule {
    var attrs := ValidAttrs(r);
    Rule(r.serviceOp, Trim(JsSpace, r.service), if r.combine.All? && |attrs| > 1 then All else Any,
         attrs, r.descendants)
  }

  function Normals(rules: seq<Rule>): seq<Rule> {
    if rules == [] then []
    else (if Complete(rules[0]) then [Normal(rules[0])] else []) + Normals(rules[1..])
  }

  /** No complete condition of a complete rule is on the service name. */
  predicate NoServiceConds(rules: seq<Rule>) {
    forall i | 0 <= i < |rules| :: NoServiceCond(rules[i])
  }

  predicate NoServiceCond(r: Rule) {
    Complete(r) ==> forall a | a in ValidAttrs(r) :: a.attribute != SERVICE
  }

  lemma {:induction false} NonServiceKeeps(attrs: seq<Cond>)
    ensures |NonService(attrs)| <= |attrs|
    ensures NonService(attrs) == attrs <==> forall a | a in attrs :: a.attribute != SERVICE
  {
    if attrs != [] {
      NonServiceKeeps(attrs[1..]);
      assert forall a :: a in attrs <==> a == attrs[0] || a in attrs[1..];
      assert attrs == [attrs[0]] + attrs[1..];
      if attrs[0].attribute != SERVICE {
        assert NonService(attrs)[1..] == NonService(attrs[1..]);
      }
    }
  }

  lemma ReadBackIsNormal(r: Rule)
    requires Complete(r)
    ensures ReadBack(r) == Normal(r) <==> NoServiceCond(r)
  {
    NonServiceKeeps(ValidAttrs(r));
    hide NonService, ValidAttrs, Trim;
  }

  lemma {:induction false} ReadBacksAreNormals(rules: seq<Rule>)
    ensures |ReadBacks(rules)| == |Normals(rules)|
    ensures ReadBacks(rules) == Normals(rules) <==> NoServiceConds(rules)
  {
    if rules != [] {
      ReadBacksAreNormals(rules[1..]);
      NoServiceCondsCons(rules);
      hide ReadBack, Normal, NoServiceCond, NoServiceConds;
      var xs, ys := ReadBacks(rules[1..]), Normals(rules[1..]);
      if Complete(rules[0]) {
        ReadBackIsNormal(rules[0]);
        assert ([ReadBack(rules[0])] + xs)[1..] == xs && ([Normal(rules[0])] + ys)[1..] == ys;
        assert ([ReadBack(rules[0])] + xs)[0] == ReadBack(rules[0]) && ([Normal(rules[0])] + ys)[0] == Normal(rules[0]);
      } else {
        assert [] + xs == xs && [] + ys == ys;
        IncompleteHasNone(rules[0]);
      }
    }
  }

  lemma IncompleteHasNone(r: Rule)
    ensures !Complete(r) ==> NoServiceCond(r)
  {
  }

  lemma NoServiceCondsCons(rules: seq<Rule>)
    requires rules != []
    ensures NoServiceConds(rules) <==> NoServiceCond(rules[0]) && NoServiceConds(rules[1..])
  {
    hide NoServiceCond;
    if NoServiceCond(rules[0]) && NoServiceConds(rules[1..]) {
      forall i | 0 <= i < |rules| ensures NoServiceCond(rules[i]) {
        if i > 0 { assert rules[i] == rules[1..][i - 1]; }
      }
    }
  }

  /** The round trip gives the normalised rules if and only if no complete condition is on the
      service name: such a condition reads back as part of the service and is lost. */
  lemma RoundTripIff(rules: seq<Rule>)
    ensures RulesFrom(Rows(rules)) == Normals(rules) <==> NoServiceConds(rules)
  {
    RowsReadBack(rules);
    ReadBacksAreNormals(rules);
  }

  // ---- what a group says, row by row ------------------------------------------------------

  predicate OnService(m: Matcher) {
    m.cond.attribute == "service.name"
  }

  /** A group's service is that of its first row on the service name. */
  lemma {:induction false} ServiceIsFirst(g: seq<Matcher>)
    ensures ServiceRow(g).None? <==> forall m | m in g :: !OnService(m)
    ensures ServiceRow(g).Some? ==>
              exists i :: 0 <= i < |g| && OnService(g[i]) && ServiceRow(g) == Some(g[i].cond)
                          && forall j | 0 <= j < i :: !OnService(g[j])
  {
    if g != [] && !OnService(g[0]) {
      ServiceIsFirst(g[1..]);
      assert g == [g[0]] + g[1..];
      if ServiceRow(g).Some? {
        var i :| 0 <= i < |g| - 1 && OnService(g[1..][i]) && ServiceRow(g) == Some(g[1..][i].cond)
                 && forall j | 0 <= j < i :: !OnService(g[1..][j]);
        forall j | 0 <= j < i + 1 ensures !OnService(g[j]) {
          if j > 0 { assert g[j] == g[1..][j - 1]; }
        }
        assert OnService(g[i + 1]);
      }
    } else if g != [] {
      assert OnService(g[0]) && g[0] in g;
    }
  }

  /** Its member is the first that its rows name. */
  lemma {:induction false} MemberIsFirst(g: seq<Matcher>)
    ensures MemberOf(g).None? <==> forall m | m in g :: m.member.None?
    ensures MemberOf(g).Some? ==>
              exists i :: 0 <= i < |g| && MemberOf(g) == g[i].member && forall j | 0 <= j < i :: g[j].member.None?
  {
    if g != [] && g[0].member.None? {
      MemberIsFirst(g[1..]);
      assert g == [g[0]] + g[1..];
      if MemberOf(g).Some? {
        var i :| 0 <= i < |g| - 1 && MemberOf(g) == g[1..][i].member && forall j | 0 <= j < i :: g[1..][j].member.None?;
        forall j | 0 <= j < i + 1 ensures g[j].member.None? {
          if j > 0 { assert g[j] == g[1..][j - 1]; }
        }
        assert MemberOf(g) == g[i + 1].member;
      }
    } else if g != [] {
      assert MemberOf(g) == g[0].member && g[0] in g;
    }
  }

  predicate NotOnService(m: Matcher) {
    !OnService(m)
  }

  function CondOf(m: Matcher): Cond {
    m.cond
  }

  /** Its conditions are those of the other rows, in their order. */
  lemma {:induction false} ConditionsAreOthers(g: seq<Matcher>) returns (at: seq<nat>)
    ensures Selected(OtherConds(g), at, g, NotOnService, CondOf)
  {
    at := [];
    if g != [] {
      var n := |g| - 1;
      at := ConditionsAreOthers(g[..n]);
      OtherCondsLast(g);
      hide OtherConds, OnService, Selected, CondOf;
      assert g == g[..n] + [g[n]];
      SelectedSnoc(OtherConds(g[..n]), at, g[..n], NotOnService, CondOf, g[n]);
      if NotOnService(g[n]) {
        at := at + [n];
      } else {
        assert OtherConds(g[..n]) + [] == OtherConds(g[..n]);
      }
    }
  }

  lemma {:induction false} OtherCondsLast(g: seq<Matcher>)
    requires g != []
    ensures var n := |g| - 1;
            OtherConds(g) == OtherConds(g[..n]) + if OnService(g[n]) then [] else [g[n].cond]
  {
    var n := |g| - 1;
    if n > 0 {
      OtherCondsLast(g[1..]);
      assert g[1..][..n - 1] == g[..n][1..];
      assert OnService(g[0]) <==> g[0].cond.attribute == SERVICE;
      hide OnService;
      var one := if OnService(g[0]) then [] else [g[0].cond];
      Regroup(one, OtherConds(g[..n][1..]), if OnService(g[n]) then [] else [g[n].cond]);
    } else {
      assert g[1..] == [] && g[..0] == [];
    }
  }

  // ---- groups without a service ------------------------------------------------------------

  /** The groups without a row on the service name, in order. */
  function Serviceless(gs: seq<seq<Matcher>>): seq<seq<Matcher>> {
    if gs == [] then []
    else Serviceless(gs[..|gs| - 1])
         + if exists m :: m in gs[|gs| - 1] && OnService(m) then [] else [gs[|gs| - 1]]
  }

  function CondsOf(g: seq<Matcher>): (cs: seq<Cond>)
    ensures |cs| == |g| && forall i | 0 <= i < |g| :: cs[i] == g[i].cond
  {
    if g == [] then [] else [g[0].cond] + CondsOf(g[1..])
  }

  lemma {:induction false} ServicelessConds(g: seq<Matcher>)
    requires forall m | m in g :: !OnService(m)
    ensures OtherConds(g) == CondsOf(g)
  {
    if g != [] {
      assert g[0] in g;
      forall m | m in g[1..] ensures !OnService(m) { assert m in g; }
      ServicelessConds(g[1..]);
    }
  }

  /** What such a group is to come back as: it stays visible, with an empty service. */
  function ServicelessRule(g: seq<Matcher>): Rule {
    Rule(Equals, "", if |g| > 1 then All else Any, CondsOf(g), exists m :: m in g && m.descendants)
  }

  function ServicelessRules(gs: seq<seq<Matcher>>): (rs: seq<Rule>)
    ensures |rs| == |gs| && forall i | 0 <= i < |gs| :: rs[i] == ServicelessRule(gs[i])
  {
    if gs == [] then [] else ServicelessRules(gs[..|gs| - 1]) + [ServicelessRule(gs[|gs| - 1])]
  }

  lemma ServicelessGroup(acc: Reading, g: seq<Matcher>)
    ensures ReadGroup(acc, g).noService
         == acc.noService + if exists m :: m in g && OnService(m) then [] else [ServicelessRule(g)]
  {
    ServiceIsFirst(g);
    if forall m | m in g :: !OnService(m) {
      ServicelessConds(g);
    } else {
      assert acc.noService + [] == acc.noService;
    }
    hide ServiceRow, OtherConds, MemberOf;
  }

  lemma {:induction false} ReadServiceless(acc: Reading, gs: seq<seq<Matcher>>)
    ensures ReadAll(acc, gs).noService == acc.noService + ServicelessRules(Serviceless(gs))
    decreases |gs|
  {
    if gs == [] {
      assert acc.noService + [] == acc.noService;
    } else {
      var front, g := gs[..|gs| - 1], gs[|gs| - 1];
      ReadServiceless(acc, front);
      assert gs == front + [g];
      ReadAllAppend(acc, front, [g]);
      ReadCons(ReadAll(acc, front), g, []);
      ServicelessGroup(ReadAll(acc, front), g);
      hide ReadAll, ReadGroup, OnService;
      ServicelessSnoc(front, g);
      var more := if exists m :: m in g && OnService(m) then [] else [ServicelessRule(g)];
      Regroup(acc.noService, ServicelessRules(Serviceless(front)), more);
    }
  }

  lemma ServicelessSnoc(gs: seq<seq<Matcher>>, g: seq<Matcher>)
    ensures ServicelessRules(Serviceless(gs + [g]))
         == ServicelessRules(Serviceless(gs)) + if exists m :: m in g && OnService(m) then [] else [ServicelessRule(g)]
  {
    hide OnService, ServicelessRule;
    assert (gs + [g])[..|gs|] == gs;
    var s := Serviceless(gs);
    if exists m :: m in g && OnService(m) {
      assert s + [] == s;
      assert ServicelessRules(s) + [] == ServicelessRules(s);
    } else {
      assert (s + [g])[..|s|] == s;
    }
  }

  /** Of any rows the groups without a service come back last, in order, each as a rule with an empty
      service and all its conditions, joined by "and" if there are several. */
  lemma ServicelessReadBack(rows: seq<Matcher>) returns (front: seq<Rule>)
    ensures RulesFrom(rows) == front + ServicelessRules(Serviceless(Groups(rows)))
  {
    assert NOTHING.noService == [];
    hide *;
    front := RulesEnd(rows);
    ReadServiceless(NOTHING, Groups(rows));
    var rs := ServicelessRules(Serviceless(Groups(rows)));
    assert [] + rs == rs;
  }

  lemma RulesEnd(rows: seq<Matcher>) returns (front: seq<Rule>)
    ensures RulesFrom(rows) == front + ReadAll(NOTHING, Groups(rows)).noService
  {
    ReadAllKeyed(NOTHING, Groups(rows));
    var acc := ReadAll(NOTHING, Groups(rows));
    front := RuleList(acc.order, acc.rules);
    hide ReadAll, Groups, RuleList;
  }

  // ---- expanding again -----------------------------------------------------------------

  lemma {:induction false} ValidCondsAgain(attrs: seq<Cond>)
    ensures ValidConds(ValidConds(attrs)) == ValidConds(attrs)
  {
    if attrs != [] {
      ValidCondsAgain(attrs[1..]);
      var a, rest := TrimCond(attrs[0]), ValidConds(attrs[1..]);
      TrimIsTrimmed(JsSpace, attrs[0].attribute);
      TrimIsTrimmed(JsSpace, attrs[0].value);
      TrimFixed(JsSpace, a.attribute);
      TrimFixed(JsSpace, a.value);
      hide Trim, Trimmed;
      if CompleteCond(a) {
        assert ([a] + rest)[1..] == rest;
        assert TrimCond(a) == a;
      } else {
        assert [] + rest == rest;
      }
    }
  }

  /** A normalised rule expands into exactly the rule's own groups. */
  lemma NormalExpandsSame(r: Rule, group: int, member: int)
    requires Complete(r)
    ensures Complete(Normal(r)) && RuleGroups(Normal(r), group, member) == RuleGroups(r, group, member)
  {
    var n, attrs := Normal(r), ValidAttrs(r);
    ValidCondsAgain(r.attrs);
    assert ValidAttrs(n) == attrs;
    TrimIsTrimmed(JsSpace, r.service);
    TrimFixed(JsSpace, n.service);
    hide Trim, Trimmed, ValidConds;
    SameRowsSameFlags(n, r, attrs, group, member);
    AlternativesSame(n, r, attrs, group, member);
    if |attrs| == 1 && r.combine.All? {
      assert [attrs[0]] == attrs;
      assert Alternatives(n, attrs, group, member) == [GroupRows(n, attrs, group, member)];
    }
  }

  lemma SameRowsSameFlags(n: Rule, r: Rule, attrs: seq<Cond>, group: int, member: int)
    requires ServiceCond(n) == ServiceCond(r) && n.descendants == r.descendants
    ensures GroupRows(n, attrs, group, member) == GroupRows(r, attrs, group, member)
  {
    hide ServiceCond;
    assert CondRows(n, attrs, group, member) == CondRows(r, attrs, group, member);
  }

  lemma AlternativesSame(n: Rule, r: Rule, attrs: seq<Cond>, group: int, member: int)
    requires ServiceCond(n) == ServiceCond(r) && n.descendants == r.descendants
    ensures Alternatives(n, attrs, group, member) == Alternatives(r, attrs, group, member)
  {
    var xs, ys := Alternatives(n, attrs, group, member), Alternatives(r, attrs, group, member);
    forall i | 0 <= i < |attrs| ensures xs[i] == ys[i] {
      SameRowsSameFlags(n, r, [attrs[i]], group + i, member);
    }
  }

  lemma {:induction false} NormalsExpandSame(rules: seq<Rule>, group: int, member: int)
    ensures Expand(Normals(rules), group, member) == Expand(rules, group, member)
    decreases |rules|
  {
    hide RuleGroups, Complete, Normal;
    if rules != [] {
      if Complete(rules[0]) {
        NormalExpandsSame(rules[0], group, member);
        NormalsExpandSame(rules[1..], group + |RuleGroups(rules[0], group, member)|, member + 1);
        assert Normals(rules)[1..] == Normals(rules[1..]);
      } else {
        NormalsExpandSame(rules[1..], group, member);
        assert [] + Normals(rules[1..]) == Normals(rules[1..]);
      }
    }
  }

  /** What was saved and read back is saved as exactly the same rows. */
  lemma SavingAgainSame(rules: seq<Rule>)
    requires NoServiceConds(rules)
    ensures Rows(RulesFrom(Rows(rules))) == Rows(rules)
  {
    RoundTripIff(rules);
    NormalsExpandSame(rules, 0, 0);
  }
}
