// Rows from a server that predates members: matchersToRules finds their rules by service. When
// reading them and saving them again keeps the groups, and what it does to their meaning when not.
module MatcherOldRows {
  import opened Text
  import opened MatcherRules
  import opened MatcherRoundTrip
  import opened MatcherMeaning

  predicate Memberless(g: seq<Matcher>) {
    forall m | m in g :: m.member == None
  }

  function ServiceConds(g: seq<Matcher>): seq<Cond> {
    if g == [] then []
    else (if g[0].cond.attribute == SERVICE then [g[0].cond] else []) + ServiceConds(g[1..])
  }

  /** A group up to its number, its member and the place of its service among its conditions. */
  datatype Content = Content(services: seq<Cond>, others: seq<Cond>, flag: bool)

  function ContentOf(g: seq<Matcher>): Content {
    Content(ServiceConds(g), OtherConds(g), Flagged(g))
  }

  function Contents(gs: seq<seq<Matcher>>): (cs: seq<Content>)
    ensures |cs| == |gs| && forall i | 0 <= i < |gs| :: cs[i] == ContentOf(gs[i])
  {
    if gs == [] then [] else Contents(gs[..|gs| - 1]) + [ContentOf(gs[|gs| - 1])]
  }

  /** The groups of one service, or those without one, in order. */
  function Of(gs: seq<seq<Matcher>>, svc: Option<Cond>): (xs: seq<seq<Matcher>>)
    ensures forall g :: g in xs <==> g in gs && ServiceRow(g) == svc
  {
    if gs == [] then []
    else
      var n := |gs| - 1;
      assert gs == gs[..n] + [gs[n]];
      Of(gs[..n], svc) + if ServiceRow(gs[n]) == svc then [gs[n]] else []
  }

  /** For every service the same list of groups: nothing is lost, gained or changed but numbers, members
      and the way services interleave. */
  ghost predicate KeepsGroups(gs: seq<seq<Matcher>>, hs: seq<seq<Matcher>>) {
    forall svc :: Contents(Of(gs, svc)) == Contents(Of(hs, svc))
  }

  lemma OfSnoc(gs: seq<seq<Matcher>>, g: seq<Matcher>, svc: Option<Cond>)
    ensures Of(gs + [g], svc) == Of(gs, svc) + if ServiceRow(g) == svc then [g] else []
  {
    assert (gs + [g])[..|gs|] == gs;
  }

  lemma {:induction false} OfAppend(gs: seq<seq<Matcher>>, hs: seq<seq<Matcher>>, svc: Option<Cond>)
    ensures Of(gs + hs, svc) == Of(gs, svc) + Of(hs, svc)
    decreases |hs|
  {
    if hs == [] {
      assert gs + hs == gs;
    } else {
      var n := |hs| - 1;
      assert hs == hs[..n] + [hs[n]] && gs + hs == gs + hs[..n] + [hs[n]];
      hide Of, ServiceRow;
      OfAppend(gs, hs[..n], svc);
      OfSnoc(gs + hs[..n], hs[n], svc);
      OfSnoc(hs[..n], hs[n], svc);
      Regroup(Of(gs, svc), Of(hs[..n], svc), if ServiceRow(hs[n]) == svc then [hs[n]] else []);
    }
  }

  lemma {:induction false} OfUniform(gs: seq<seq<Matcher>>, own: Option<Cond>, svc: Option<Cond>)
    requires forall g | g in gs :: ServiceRow(g) == own
    ensures Of(gs, svc) == if svc == own then gs else []
  {
    if gs != [] {
      var n := |gs| - 1;
      assert gs == gs[..n] + [gs[n]] && gs[n] in gs;
      OfUniform(gs[..n], own, svc);
    }
  }

  lemma ContentsAppend(gs: seq<seq<Matcher>>, hs: seq<seq<Matcher>>)
    ensures Contents(gs + hs) == Contents(gs) + Contents(hs)
  {
  }

  // ---- the rows of a group ---------------------------------------------------------

  lemma {:induction false} ServiceRowFirst(g: seq<Matcher>)
    ensures ServiceRow(g) == if ServiceConds(g) == [] then None else Some(ServiceConds(g)[0])
    ensures forall c | c in ServiceConds(g) :: c.attribute == SERVICE
  {
    if g != [] {
      ServiceRowFirst(g[1..]);
    }
  }

  function ServiceAmong(attrs: seq<Cond>): seq<Cond> {
    if attrs == [] then []
    else (if attrs[0].attribute == SERVICE then [attrs[0]] else []) + ServiceAmong(attrs[1..])
  }

  lemma {:induction false} NonServiceWhole(attrs: seq<Cond>)
    ensures |NonService(attrs)| + |ServiceAmong(attrs)| == |attrs|
    ensures ServiceAmong(attrs) == [] <==> NonService(attrs) == attrs
    ensures ServiceAmong(attrs) == [] <==> forall a | a in attrs :: a.attribute != SERVICE
  {
    if attrs != [] {
      NonServiceWhole(attrs[1..]);
      assert attrs == [attrs[0]] + attrs[1..];
      assert forall a :: a in attrs <==> a == attrs[0] || a in attrs[1..];
    }
  }

  lemma {:induction false} OthersNonService(g: seq<Matcher>)
    ensures forall a | a in OtherConds(g) :: a.attribute != SERVICE
  {
    if g != [] {
      OthersNonService(g[1..]);
    }
  }

  lemma {:induction false} ServiceOfRows(r: Rule, attrs: seq<Cond>, group: int, member: int)
    ensures ServiceConds(CondRows(r, attrs, group, member)) == ServiceAmong(attrs)
  {
    if attrs != [] {
      ServiceOfRows(r, attrs[1..], group, member);
      var rest := CondRows(r, attrs[1..], group, member);
      var row := Matcher(attrs[0], group, r.descendants, Some(member));
      assert ([row] + rest)[1..] == rest;
    }
  }

  /** What a rule's groups hold. */
  function Whole(r: Rule, attrs: seq<Cond>): Content {
    Content([ServiceCond(r)] + ServiceAmong(attrs), NonService(attrs), r.descendants)
  }

  function Alts(r: Rule, attrs: seq<Cond>): (cs: seq<Content>)
    ensures |cs| == |attrs| && forall i | 0 <= i < |attrs| :: cs[i] == Whole(r, [attrs[i]])
  {
    if attrs == [] then [] else [Whole(r, [attrs[0]])] + Alts(r, attrs[1..])
  }

  function RuleContents(r: Rule): seq<Content> {
    var attrs := ValidAttrs(r);
    if attrs == [] || r.combine.All? then [Whole(r, attrs)] else Alts(r, attrs)
  }

  lemma GroupRowsContent(r: Rule, attrs: seq<Cond>, group: int, member: int)
    ensures ContentOf(GroupRows(r, attrs, group, member)) == Whole(r, attrs)
    ensures ServiceRow(GroupRows(r, attrs, group, member)) == Some(ServiceCond(r))
  {
    GroupRowsRead(r, attrs, group, member);
    ServiceOfRows(r, attrs, group, member);
    var g, rest := GroupRows(r, attrs, group, member), CondRows(r, attrs, group, member);
    assert g[1..] == rest && g[0].cond == ServiceCond(r);
  }

  lemma RuleGroupsContents(r: Rule, group: int, member: int)
    ensures Contents(RuleGroups(r, group, member)) == RuleContents(r)
    ensures forall g | g in RuleGroups(r, group, member) :: ServiceRow(g) == Some(ServiceCond(r))
  {
    var attrs, gs := ValidAttrs(r), RuleGroups(r, group, member);
    hide GroupRows, ServiceRow, ServiceCond, ContentOf, Whole, ValidAttrs;
    if attrs == [] || r.combine.All? {
      GroupRowsContent(r, attrs, group, member);
    } else {
      forall i | 0 <= i < |attrs|
        ensures ContentOf(gs[i]) == Whole(r, [attrs[i]]) && ServiceRow(gs[i]) == Some(ServiceCond(r))
      {
        GroupRowsContent(r, [attrs[i]], group + i, member);
      }
    }
  }

  /** What the groups of all rules hold for one service. */
  function RulesContents(rules: seq<Rule>, svc: Option<Cond>): seq<Content> {
    if rules == [] then []
    else
      (if Complete(rules[0]) && Some(ServiceCond(rules[0])) == svc then RuleContents(rules[0]) else [])
      + RulesContents(rules[1..], svc)
  }

  lemma FirstRuleContents(r: Rule, svc: Option<Cond>, group: int, member: int, rest: seq<seq<Matcher>>)
    ensures Contents(Of(RuleGroups(r, group, member) + rest, svc))
         == (if Some(ServiceCond(r)) == svc then RuleContents(r) else []) + Contents(Of(rest, svc))
  {
    hide *;
    var gs := RuleGroups(r, group, member);
    RuleGroupsContents(r, group, member);
    OfUniform(gs, Some(ServiceCond(r)), svc);
    OfAppend(gs, rest, svc);
    ContentsAppend(Of(gs, svc), Of(rest, svc));
    NoContents();
  }

  lemma NoContents()
    ensures Contents([]) == []
  {
  }

  lemma ExpandIs(rules: seq<Rule>, group: int, member: int)
    requires rules != []
    ensures var gs := RuleGroups(rules[0], group, member);
            Expand(rules, group, member)
            == if Complete(rules[0]) then gs + Expand(rules[1..], group + |gs|, member + 1)
               else Expand(rules[1..], group, member)
  {
    hide RuleGroups, Complete;
  }

  lemma RulesContentsIs(rules: seq<Rule>, svc: Option<Cond>)
    requires rules != []
    ensures RulesContents(rules, svc)
         == if !Complete(rules[0]) then RulesContents(rules[1..], svc)
            else (if Some(ServiceCond(rules[0])) == svc then RuleContents(rules[0]) else [])
                 + RulesContents(rules[1..], svc)
  {
    hide Complete, ServiceCond, RuleContents;
    assert [] + RulesContents(rules[1..], svc) == RulesContents(rules[1..], svc);
  }

  lemma {:induction false} ExpandContents(rules: seq<Rule>, svc: Option<Cond>, group: int, member: int)
    ensures Contents(Of(Expand(rules, group, member), svc)) == RulesContents(rules, svc)
    decreases |rules|
  {
    hide *;
    if rules == [] {
      OfNone(svc, group, member);
    } else {
      ExpandIs(rules, group, member);
      RulesContentsIs(rules, svc);
      if Complete(rules[0]) {
        var gs := RuleGroups(rules[0], group, member);
        ExpandContents(rules[1..], svc, group + |gs|, member + 1);
        FirstRuleContents(rules[0], svc, group, member, Expand(rules[1..], group + |gs|, member + 1));
      } else {
        ExpandContents(rules[1..], svc, group, member);
      }
    }
  }

  lemma OfNone(svc: Option<Cond>, group: int, member: int)
    ensures Contents(Of(Expand([], group, member), svc)) == RulesContents([], svc)
  {
  }

  lemma {:induction false} RulesContentsAppend(xs: seq<Rule>, ys: seq<Rule>, svc: Option<Cond>)
    ensures RulesContents(xs + ys, svc) == RulesContents(xs, svc) + RulesContents(ys, svc)
  {
    hide RuleContents, Complete, ServiceCond;
    if xs == [] {
      assert xs + ys == ys;
    } else {
      assert (xs + ys)[1..] == xs[1..] + ys;
      RulesContentsAppend(xs[1..], ys, svc);
      Regroup(if Complete(xs[0]) && Some(ServiceCond(xs[0])) == svc then RuleContents(xs[0]) else [],
              RulesContents(xs[1..], svc), RulesContents(ys, svc));
    }
  }

  lemma {:induction false} IncompleteContents(rules: seq<Rule>, svc: Option<Cond>)
    requires forall r | r in rules :: !Complete(r)
    ensures RulesContents(rules, svc) == []
  {
    if rules != [] {
      assert rules[0] in rules;
      forall r | r in rules[1..] ensures !Complete(r) { assert r in rules; }
      IncompleteContents(rules[1..], svc);
    }
  }

  /** Contents come from a complete rule of that service. */
  lemma {:induction false} ContentsHaveRule(rules: seq<Rule>, svc: Option<Cond>)
    requires RulesContents(rules, svc) != []
    ensures exists r :: r in rules && Complete(r) && Some(ServiceCond(r)) == svc
  {
    hide RuleContents, Complete, ServiceCond;
    if Complete(rules[0]) && Some(ServiceCond(rules[0])) == svc {
      assert rules[0] in rules;
    } else {
      assert [] + RulesContents(rules[1..], svc) == RulesContents(rules[1..], svc);
      ContentsHaveRule(rules[1..], svc);
      var r :| r in rules[1..] && Complete(r) && Some(ServiceCond(r)) == svc;
      assert r in rules;
    }
  }

  // ---- how rows without members are read ----------------------------------------------

  /** The rule that the groups of one service read back as. */
  function RuleOf(svc: Cond, gs: seq<seq<Matcher>>): Rule {
    if gs == [] then Rule(svc.op, svc.value, Any, [], false)
    else AddConds(RuleOf(svc, gs[..|gs| - 1]), OtherConds(gs[|gs| - 1]), Flagged(gs[|gs| - 1]))
  }

  function KeyCond(k: Key): Cond
    requires k.ByService?
  {
    Cond(SERVICE, k.op, k.value)
  }

  predicate DistinctKeys(order: seq<Key>) {
    forall i, j | 0 <= i < j < |order| :: order[i] != order[j]
  }

  predicate ReadsRule(rules: map<Key, Rule>, gs: seq<seq<Matcher>>, k: Key)
    requires k in rules
  {
    k.ByService? && Of(gs, Some(KeyCond(k))) != [] && rules[k] == RuleOf(KeyCond(k), Of(gs, Some(KeyCond(k))))
  }

  predicate HasKey(rules: map<Key, Rule>, g: seq<Matcher>) {
    ServiceRow(g).Some? ==> ByService(ServiceRow(g).value.op, ServiceRow(g).value.value) in rules
  }

  ghost predicate Ordered(order: seq<Key>, rules: map<Key, Rule>) {
    DistinctKeys(order) && forall k :: k in rules <==> k in order
  }

  predicate RulesRead(rules: map<Key, Rule>, gs: seq<seq<Matcher>>) {
    forall k | k in rules :: ReadsRule(rules, gs, k)
  }

  predicate KeysFound(rules: map<Key, Rule>, gs: seq<seq<Matcher>>) {
    forall g | g in gs :: HasKey(rules, g)
  }

  predicate Serviceless(rules: seq<Rule>) {
    forall r | r in rules :: r.service == ""
  }

  /** What has been read from the groups: one rule for each service, and one for each group without. */
  ghost predicate ReadsAs(acc: Reading, gs: seq<seq<Matcher>>) {
    Ordered(acc.order, acc.rules) && RulesRead(acc.rules, gs) && KeysFound(acc.rules, gs) && Serviceless(acc.noService)
  }

  lemma MemberlessRead(g: seq<Matcher>)
    requires Memberless(g)
    ensures MemberOf(g) == None
  {
    if g != [] {
      assert g[0] in g;
      MemberlessRead(g[1..]);
    }
  }

  lemma KeyOfService(g: seq<Matcher>)
    requires ServiceRow(g).Some?
    ensures ServiceRow(g).value.attribute == SERVICE
    ensures var c := ServiceRow(g).value; KeyCond(ByService(c.op, c.value)) == c
  {
    ServiceRowFirst(g);
  }

  lemma SameServiceSameKey(j: Key, k: Key)
    requires j.ByService? && k.ByService?
    ensures KeyCond(j) == KeyCond(k) <==> j == k
  {
  }

  lemma RuleOfSnoc(svc: Cond, gs: seq<seq<Matcher>>, g: seq<Matcher>)
    ensures RuleOf(svc, gs + [g]) == AddConds(RuleOf(svc, gs), OtherConds(g), Flagged(g))
    ensures RuleOf(svc, []) == Rule(svc.op, svc.value, Any, [], false)
  {
    assert (gs + [g])[..|gs|] == gs;
  }

  /** Another group leaves the rules of the other services alone. */
  lemma OtherRuleRead(rules: map<Key, Rule>, gs: seq<seq<Matcher>>, g: seq<Matcher>, k: Key)
    requires k in rules && ReadsRule(rules, gs, k) && ServiceRow(g) != Some(KeyCond(k))
    ensures ReadsRule(rules, gs + [g], k)
  {
    OfSnoc(gs, g, Some(KeyCond(k)));
    assert Of(gs, Some(KeyCond(k))) + [] == Of(gs, Some(KeyCond(k)));
    hide Of, RuleOf;
  }

  lemma GroupHasKey(rules: map<Key, Rule>, g: seq<Matcher>, k: Key)
    requires HasKey(rules, g) && k.ByService? && ServiceRow(g) == Some(KeyCond(k))
    ensures k in rules
  {
  }

  lemma OwnRuleRead(acc: Reading, gs: seq<seq<Matcher>>, g: seq<Matcher>, k: Key)
    requires ReadsAs(acc, gs) && k.ByService? && ServiceRow(g) == Some(KeyCond(k)) && MemberOf(g) == None
    ensures var next := ReadGroup(acc, g);
            k in next.rules && ReadsRule(next.rules, gs + [g], k)
            && next == Reading(if k in acc.rules then acc.order else acc.order + [k],
                               acc.rules[k := next.rules[k]], acc.noService)
  {
    var mine := Of(gs, Some(KeyCond(k)));
    OfSnoc(gs, g, Some(KeyCond(k)));
    RuleOfSnoc(KeyCond(k), mine, g);
    if mine != [] {
      assert mine[0] in mine;
      GroupHasKey(acc.rules, mine[0], k);
    }
    assert mine == [] ==> mine + [g] == [g];
    hide Of, RuleOf, OtherConds, Flagged;
  }

  lemma RuleElsewhere(rules: map<Key, Rule>, key: Key, rule: Rule, gs: seq<seq<Matcher>>, g: seq<Matcher>, k: Key)
    requires k in rules && ReadsRule(rules, gs, k) && k != key && key.ByService? && ServiceRow(g) == Some(KeyCond(key))
    ensures ReadsRule(rules[key := rule], gs + [g], k)
  {
    SameServiceSameKey(k, key);
    OtherRuleRead(rules, gs, g, k);
    hide Of, RuleOf, ServiceRow;
  }

  lemma ReadOldRules(rules: map<Key, Rule>, gs: seq<seq<Matcher>>, g: seq<Matcher>, key: Key, rule: Rule)
    requires RulesRead(rules, gs)
    requires key.ByService? && ServiceRow(g) == Some(KeyCond(key))
    requires ReadsRule(rules[key := rule], gs + [g], key)
    ensures RulesRead(rules[key := rule], gs + [g])
  {
    hide ReadsRule, ServiceRow;
    var after := rules[key := rule];
    forall k | k in after ensures ReadsRule(after, gs + [g], k) {
      if k != key {
        RuleElsewhere(rules, key, rule, gs, g, k);
      }
    }
  }

  lemma ReadOldKeys(rules: map<Key, Rule>, key: Key, rule: Rule, gs: seq<seq<Matcher>>, g: seq<Matcher>)
    requires KeysFound(rules, gs) && key.ByService? && ServiceRow(g) == Some(KeyCond(key))
    ensures KeysFound(rules[key := rule], gs + [g])
  {
    hide ServiceRow;
    forall x | x in gs + [g] ensures HasKey(rules[key := rule], x) {
      if x in gs { assert HasKey(rules, x); }
    }
  }

  lemma OrderedInsert(order: seq<Key>, rules: map<Key, Rule>, key: Key, rule: Rule)
    requires Ordered(order, rules)
    ensures Ordered(if key in rules then order else order + [key], rules[key := rule])
  {
    if key !in rules {
      forall i | 0 <= i < |order| ensures order[i] != key { assert order[i] in order; }
    }
  }

  lemma ReadOldService(acc: Reading, gs: seq<seq<Matcher>>, g: seq<Matcher>, key: Key)
    requires ReadsAs(acc, gs) && MemberOf(g) == None && key.ByService? && ServiceRow(g) == Some(KeyCond(key))
    ensures ReadsAs(ReadGroup(acc, g), gs + [g])
  {
    var next := ReadGroup(acc, g);
    OwnRuleRead(acc, gs, g, key);
    hide ReadGroup, Of, RuleOf, ReadsRule, HasKey, ServiceRow, Ordered, RulesRead, KeysFound, Serviceless;
    ReadOldRules(acc.rules, gs, g, key, next.rules[key]);
    ReadOldKeys(acc.rules, key, next.rules[key], gs, g);
    OrderedInsert(acc.order, acc.rules, key, next.rules[key]);
  }

  lemma ReadOldBare(acc: Reading, gs: seq<seq<Matcher>>, g: seq<Matcher>)
    requires ReadsAs(acc, gs) && ServiceRow(g).None?
    ensures ReadsAs(ReadGroup(acc, g), gs + [g])
  {
    forall k | k in acc.rules ensures ReadsRule(acc.rules, gs + [g], k) {
      assert ReadsRule(acc.rules, gs, k);
      OtherRuleRead(acc.rules, gs, g, k);
    }
    hide Of, RuleOf, ReadsRule;
    forall x | x in gs + [g] ensures HasKey(acc.rules, x) {
      if x in gs { assert HasKey(acc.rules, x); }
    }
  }

  lemma ReadOldGroup(acc: Reading, gs: seq<seq<Matcher>>, g: seq<Matcher>)
    requires ReadsAs(acc, gs) && MemberOf(g) == None
    ensures ReadsAs(ReadGroup(acc, g), gs + [g])
  {
    hide ReadsAs, ReadGroup;
    if ServiceRow(g).None? {
      ReadOldBare(acc, gs, g);
    } else {
      KeyOfService(g);
      ReadOldService(acc, gs, g, ByService(ServiceRow(g).value.op, ServiceRow(g).value.value));
    }
  }

  lemma {:induction false} ReadOld(gs: seq<seq<Matcher>>)
    requires forall g | g in gs :: MemberOf(g) == None
    ensures ReadsAs(ReadAll(NOTHING, gs), gs)
  {
    if gs == [] {
      ReadNone(NOTHING);
    } else {
      var n := |gs| - 1;
      assert gs == gs[..n] + [gs[n]] && gs[n] in gs;
      ReadOld(gs[..n]);
      ReadAllAppend(NOTHING, gs[..n], [gs[n]]);
      hide ReadsAs, ReadGroup;
      ReadCons(ReadAll(NOTHING, gs[..n]), gs[n], []);
      ReadOldGroup(ReadAll(NOTHING, gs[..n]), gs[..n], gs[n]);
    }
  }

  // ---- the groups of one service --------------------------------------------------------

  predicate Several(gs: seq<seq<Matcher>>) {
    exists g :: g in gs && |OtherConds(g)| > 1
  }

  predicate AnyFlagged(gs: seq<seq<Matcher>>) {
    exists g :: g in gs && Flagged(g)
  }

  /** All conditions of the groups beside the service. */
  function AllOthers(gs: seq<seq<Matcher>>): seq<Cond> {
    if gs == [] then [] else AllOthers(gs[..|gs| - 1]) + OtherConds(gs[|gs| - 1])
  }

  lemma {:induction false} RuleOfIs(svc: Cond, gs: seq<seq<Matcher>>)
    ensures RuleOf(svc, gs)
         == Rule(svc.op, svc.value, if Several(gs) then All else Any, AllOthers(gs), AnyFlagged(gs))
  {
    if gs != [] {
      var n := |gs| - 1;
      RuleOfIs(svc, gs[..n]);
      hide OtherConds, Flagged;
      assert gs == gs[..n] + [gs[n]];
      assert forall g :: g in gs <==> g in gs[..n] || g == gs[n];
    }
  }

  lemma {:induction false} AllOthersMember(gs: seq<seq<Matcher>>, a: Cond)
    ensures a in AllOthers(gs) <==> exists g :: g in gs && a in OtherConds(g)
  {
    if gs != [] {
      var n := |gs| - 1;
      AllOthersMember(gs[..n], a);
      assert a in AllOthers(gs) <==> a in AllOthers(gs[..n]) || a in OtherConds(gs[n]);
      hide OtherConds, AllOthers;
      assert gs == gs[..n] + [gs[n]];
      if g :| g in gs && a in OtherConds(g) {
        assert g in gs[..n] || g == gs[n];
      }
      if g :| g in gs[..n] && a in OtherConds(g) {
        assert g in gs;
      }
      assert gs[n] in gs;
    }
  }

  /** With at most one condition each, there are as many conditions as groups exactly if each has one. */
  lemma {:induction false} OneEach(gs: seq<seq<Matcher>>)
    requires forall g | g in gs :: |OtherConds(g)| <= 1
    ensures |AllOthers(gs)| <= |gs|
    ensures |AllOthers(gs)| == |gs| ==>
              forall i | 0 <= i < |gs| :: |OtherConds(gs[i])| == 1 && OtherConds(gs[i]) == [AllOthers(gs)[i]]
    ensures (forall g | g in gs :: |OtherConds(g)| == 1) ==> |AllOthers(gs)| == |gs|
  {
    if gs != [] {
      var n := |gs| - 1;
      assert gs == gs[..n] + [gs[n]] && gs[n] in gs;
      forall g | g in gs[..n] ensures g in gs {}
      OneEach(gs[..n]);
      hide OtherConds;
    }
  }

  lemma {:induction false} ValidCondsShort(attrs: seq<Cond>)
    ensures |ValidConds(attrs)| <= |attrs|
  {
    if attrs != [] {
      ValidCondsShort(attrs[1..]);
    }
  }

  lemma {:induction false} ValidCondsAppend(xs: seq<Cond>, ys: seq<Cond>)
    ensures ValidConds(xs + ys) == ValidConds(xs) + ValidConds(ys)
  {
    hide TrimCond, CompleteCond;
    if xs == [] {
      assert xs + ys == ys;
    } else {
      assert (xs + ys)[1..] == xs[1..] + ys;
      ValidCondsAppend(xs[1..], ys);
      var a := TrimCond(xs[0]);
      Regroup(if CompleteCond(a) then [a] else [], ValidConds(xs[1..]), ValidConds(ys));
    }
  }

  predicate ValidCond(a: Cond) {
    ValidConds([a]) == [a]
  }

  /** Trimmed and complete conditions, one by one and together. */
  lemma {:induction false} ValidEach(attrs: seq<Cond>)
    ensures ValidConds(attrs) == attrs <==> forall i | 0 <= i < |attrs| :: ValidCond(attrs[i])
  {
    if attrs != [] {
      var n := |attrs| - 1;
      var xs, ys := ValidConds(attrs[..n]), ValidConds([attrs[n]]);
      hide TrimCond, CompleteCond;
      ValidEach(attrs[..n]);
      assert attrs == attrs[..n] + [attrs[n]];
      ValidCondsAppend(attrs[..n], [attrs[n]]);
      ValidCondsShort(attrs[..n]);
      ValidCondsShort([attrs[n]]);
      assert ValidCond(attrs[n]) <==> ys == [attrs[n]];
      hide ValidConds, ValidCond;
      AppendSame(xs, ys, attrs[..n], [attrs[n]]);
      assert forall i | 0 <= i < n :: attrs[..n][i] == attrs[i];
    } else {
      assert ValidConds([]) == [];
    }
  }

  lemma AppendSame<T>(xs: seq<T>, ys: seq<T>, cs: seq<T>, bs: seq<T>)
    requires |xs| <= |cs| && |ys| <= |bs|
    ensures xs + ys == cs + bs <==> xs == cs && ys == bs
  {
    if xs + ys == cs + bs {
      assert |xs| == |cs|;
      assert (xs + ys)[..|xs|] == xs && (cs + bs)[..|xs|] == cs;
      assert (xs + ys)[|xs|..] == ys && (cs + bs)[|xs|..] == bs;
    }
  }

  predicate ValidOthers(gs: seq<seq<Matcher>>) {
    forall g | g in gs :: ValidConds(OtherConds(g)) == OtherConds(g)
  }

  lemma {:induction false} AllOthersValid(gs: seq<seq<Matcher>>)
    requires ValidOthers(gs)
    ensures ValidConds(AllOthers(gs)) == AllOthers(gs)
  {
    if gs != [] {
      var n := |gs| - 1;
      assert gs == gs[..n] + [gs[n]] && gs[n] in gs;
      AllOthersValid(gs[..n]);
      ValidCondsAppend(AllOthers(gs[..n]), OtherConds(gs[n]));
      hide OtherConds, ValidConds;
    } else {
      assert ValidConds([]) == [];
    }
  }

  lemma AllOthersNonService(gs: seq<seq<Matcher>>)
    ensures NonService(AllOthers(gs)) == AllOthers(gs) && ServiceAmong(AllOthers(gs)) == []
  {
    forall a | a in AllOthers(gs) ensures a.attribute != SERVICE {
      AllOthersMember(gs, a);
      var g :| g in gs && a in OtherConds(g);
      OthersNonService(g);
    }
    NonServiceWhole(AllOthers(gs));
  }

  predicate TrimmedService(svc: Cond) {
    svc.attribute == SERVICE && Trim(JsSpace, svc.value) == svc.value && svc.value != ""
  }

  predicate ServedBy(gs: seq<seq<Matcher>>, svc: Cond) {
    gs != [] && forall g | g in gs :: ServiceRow(g) == Some(svc)
  }

  /** One group, or only groups with exactly one condition and all with one flag. */
  predicate FitsTogether(gs: seq<seq<Matcher>>) {
    |gs| == 1 || forall g, h | g in gs && h in gs :: |OtherConds(g)| == 1 && Flagged(g) == Flagged(h)
  }

  predicate OneService(gs: seq<seq<Matcher>>) {
    forall g | g in gs :: |ServiceConds(g)| == 1
  }

  predicate Fits(gs: seq<seq<Matcher>>) {
    OneService(gs) && ValidOthers(gs) && FitsTogether(gs)
  }

  lemma ServiceCondOf(svc: Cond, gs: seq<seq<Matcher>>)
    requires TrimmedService(svc)
    ensures ServiceCond(RuleOf(svc, gs)) == svc && Complete(RuleOf(svc, gs))
  {
    RuleOfIs(svc, gs);
    hide RuleOf, Trim;
  }

  lemma OnlyService(g: seq<Matcher>, svc: Cond)
    requires ServiceRow(g) == Some(svc)
    ensures ServiceConds(g) == [svc] <==> |ServiceConds(g)| == 1
    ensures ServiceConds(g) != []
  {
    ServiceRowFirst(g);
  }

  lemma SingleOf(g: seq<Matcher>)
    ensures AllOthers([g]) == OtherConds(g)
    ensures (AnyFlagged([g]) <==> Flagged(g)) && (Several([g]) <==> |OtherConds(g)| > 1)
  {
    assert [g][..0] == [] && [] + OtherConds(g) == OtherConds(g);
    assert g in [g];
  }

  /** What a service's only group comes back as. */
  lemma SingleRead(svc: Cond, g: seq<Matcher>)
    requires TrimmedService(svc)
    ensures var attrs := ValidConds(OtherConds(g));
            RuleContents(RuleOf(svc, [g])) == [Content([svc] + ServiceAmong(attrs), NonService(attrs), Flagged(g))]
  {
    var r, attrs := RuleOf(svc, [g]), ValidConds(OtherConds(g));
    RuleOfIs(svc, [g]);
    SingleOf(g);
    ServiceCondOf(svc, [g]);
    ValidCondsShort(OtherConds(g));
    assert ValidAttrs(r) == attrs && r.descendants == Flagged(g);
    hide RuleOf, ValidConds, ServiceCond, OtherConds, Flagged, NonService, ServiceAmong;
    assert |attrs| == 1 ==> attrs == [attrs[0]];
    assert RuleContents(r) == [Whole(r, attrs)];
  }

  /** It is the same if it has one service row, and trimmed and complete conditions. */
  lemma SingleKept(svc: Cond, g: seq<Matcher>)
    requires TrimmedService(svc) && ServiceRow(g) == Some(svc)
    ensures RuleContents(RuleOf(svc, [g])) == Contents([g]) <==> Fits([g])
  {
    var others := OtherConds(g);
    var attrs := ValidConds(others);
    SingleRead(svc, g);
    OnlyService(g, svc);
    OthersNonService(g);
    NonServiceWhole(others);
    NonServiceWhole(attrs);
    ValidCondsShort(others);
    SingleFits(g);
    assert Contents([g]) == [ContentOf(g)];
    hide RuleOf, RuleContents, Contents, ValidConds, ServiceConds, OtherConds, NonService, ServiceAmong, Flagged, Fits;
    SameContent(svc, ServiceConds(g), ServiceAmong(attrs), others, attrs, NonService(attrs));
  }

  lemma SingleFits(g: seq<Matcher>)
    ensures Fits([g]) <==> |ServiceConds(g)| == 1 && ValidConds(OtherConds(g)) == OtherConds(g)
  {
    hide ServiceConds, ValidConds, OtherConds;
    assert g in [g];
  }

  lemma SameContent(svc: Cond, services: seq<Cond>, among: seq<Cond>,
                    others: seq<Cond>, attrs: seq<Cond>, non: seq<Cond>)
    requires |non| + |among| == |attrs| <= |others| && (among == [] <==> non == attrs)
    requires services == [svc] <==> |services| == 1
    requires attrs == others ==> among == []
    ensures [svc] + among == services && non == others <==> |services| == 1 && attrs == others
  {
    if non == others {
      assert |among| == 0;
    }
    assert [svc] + [] == [svc];
  }

  // ---- several groups of one service -------------------------------------------------------

  lemma AltsOf(svc: Cond, gs: seq<seq<Matcher>>)
    requires TrimmedService(svc) && !Several(gs) && ValidConds(AllOthers(gs)) != []
    ensures var attrs, r := ValidConds(AllOthers(gs)), RuleOf(svc, gs);
            RuleContents(r) == Alts(r, attrs)
            && forall i | 0 <= i < |attrs| ::
                 Alts(r, attrs)[i] == Content([svc] + ServiceAmong([attrs[i]]), NonService([attrs[i]]), AnyFlagged(gs))
  {
    RuleOfIs(svc, gs);
    ServiceCondOf(svc, gs);
    hide RuleOf, ValidConds, ServiceCond, NonService, ServiceAmong, Several, AnyFlagged, AllOthers;
  }

  lemma OneOther(a: Cond)
    ensures |NonService([a])| == 1 ==> NonService([a]) == [a] && ServiceAmong([a]) == []
    ensures a.attribute != SERVICE ==> NonService([a]) == [a] && ServiceAmong([a]) == []
  {
    assert [a][1..] == [];
  }

  lemma FitOne(svc: Cond, g: seq<Matcher>, a: Cond)
    requires ServiceRow(g) == Some(svc) && |ServiceConds(g)| == 1 && OtherConds(g) == [a]
    ensures ContentOf(g) == Content([svc] + ServiceAmong([a]), NonService([a]), Flagged(g))
  {
    OnlyService(g, svc);
    OthersNonService(g);
    assert a in OtherConds(g);
    OneOther(a);
    hide ServiceConds, OtherConds, ServiceAmong, NonService, Flagged, ServiceRow;
    assert [svc] + [] == [svc];
  }

  lemma SameFlag(gs: seq<seq<Matcher>>, g: seq<Matcher>)
    requires g in gs && forall x, y | x in gs && y in gs :: Flagged(x) == Flagged(y)
    ensures AnyFlagged(gs) == Flagged(g)
  {
    hide Flagged;
  }

  lemma FitsIs(gs: seq<seq<Matcher>>)
    requires |gs| >= 2 && Fits(gs)
    ensures ValidOthers(gs) && forall g | g in gs :: |ServiceConds(g)| == 1 && |OtherConds(g)| == 1
    ensures forall x, y | x in gs && y in gs :: Flagged(x) == Flagged(y)
    ensures !Several(gs)
  {
    hide ServiceConds, OtherConds, Flagged;
  }

  lemma FitCounts(gs: seq<seq<Matcher>>)
    requires |gs| >= 2 && Fits(gs)
    ensures ValidConds(AllOthers(gs)) == AllOthers(gs) && |AllOthers(gs)| == |gs| && !Several(gs)
  {
    FitsIs(gs);
    hide *;
    OneEach(gs);
    AllOthersValid(gs);
  }

  lemma FitAt(svc: Cond, gs: seq<seq<Matcher>>, i: nat)
    requires ServedBy(gs, svc) && |gs| >= 2 && Fits(gs) && i < |gs| && i < |AllOthers(gs)|
    ensures var a := AllOthers(gs)[i];
            ContentOf(gs[i]) == Content([svc] + ServiceAmong([a]), NonService([a]), AnyFlagged(gs))
  {
    assert gs[i] in gs;
    FitsIs(gs);
    FitCounts(gs);
    OneEach(gs);
    assert ServiceRow(gs[i]) == Some(svc);
    hide *;
    FitOne(svc, gs[i], AllOthers(gs)[i]);
    SameFlag(gs, gs[i]);
  }

  lemma SeveralFit(svc: Cond, gs: seq<seq<Matcher>>)
    requires TrimmedService(svc) && |gs| >= 2 && ServedBy(gs, svc) && Fits(gs)
    ensures RuleContents(RuleOf(svc, gs)) == Contents(gs)
  {
    hide *;
    FitCounts(gs);
    AltsOf(svc, gs);
    var cs := RuleContents(RuleOf(svc, gs));
    forall i | 0 <= i < |gs| ensures cs[i] == Contents(gs)[i] {
      FitAt(svc, gs, i);
    }
  }

  lemma SeveralKept(svc: Cond, gs: seq<seq<Matcher>>)
    requires TrimmedService(svc) && |gs| >= 2 && ServedBy(gs, svc)
    requires RuleContents(RuleOf(svc, gs)) == Contents(gs)
    ensures Fits(gs)
  {
    var attrs, cs := ValidConds(AllOthers(gs)), RuleContents(RuleOf(svc, gs));
    SeveralNeedAlts(svc, gs);
    AltsOf(svc, gs);
    ValidCondsShort(AllOthers(gs));
    OneEach(gs);
    ValidCondsAgain(AllOthers(gs));
    ValidEach(attrs);
    forall i | 0 <= i < |gs|
      ensures |ServiceConds(gs[i])| == 1 && ValidConds(OtherConds(gs[i])) == OtherConds(gs[i])
              && |OtherConds(gs[i])| == 1 && Flagged(gs[i]) == AnyFlagged(gs)
    {
      hide RuleOf, RuleContents, ValidConds, ServiceRow, ServiceConds, OtherConds, NonService, ServiceAmong,
           AllOthers, Flagged, AnyFlagged, Alts;
      assert ContentOf(gs[i]) == cs[i];
      OneOther(attrs[i]);
      assert OtherConds(gs[i]) == [attrs[i]];
      assert ValidCond(attrs[i]);
    }
    hide *;
    EachFits(gs);
  }

  lemma EachFits(gs: seq<seq<Matcher>>)
    requires forall i | 0 <= i < |gs| ::
               |ServiceConds(gs[i])| == 1 && ValidConds(OtherConds(gs[i])) == OtherConds(gs[i])
               && |OtherConds(gs[i])| == 1 && Flagged(gs[i]) == AnyFlagged(gs)
    ensures Fits(gs)
  {
    hide ServiceConds, ValidConds, OtherConds, Flagged, AnyFlagged;
    forall g | g in gs
      ensures |ServiceConds(g)| == 1 && ValidConds(OtherConds(g)) == OtherConds(g)
              && |OtherConds(g)| == 1 && Flagged(g) == AnyFlagged(gs)
    {
      var i :| 0 <= i < |gs| && gs[i] == g;
    }
  }

  /** One group cannot stand for several. */
  lemma SeveralNeedAlts(svc: Cond, gs: seq<seq<Matcher>>)
    requires |gs| >= 2 && RuleContents(RuleOf(svc, gs)) == Contents(gs)
    ensures !Several(gs) && ValidConds(AllOthers(gs)) != [] && |ValidConds(AllOthers(gs))| == |gs|
    ensures forall g | g in gs :: |OtherConds(g)| <= 1
  {
    RuleOfIs(svc, gs);
    hide RuleOf, ValidConds, Whole, AnyFlagged, AllOthers;
  }

  /** The groups of one service come back as they were if and only if they fit together. */
  lemma ServiceKeptIff(svc: Cond, gs: seq<seq<Matcher>>)
    requires TrimmedService(svc) && ServedBy(gs, svc)
    ensures RuleContents(RuleOf(svc, gs)) == Contents(gs) <==> Fits(gs)
  {
    hide RuleContents, RuleOf, Contents, Fits, TrimmedService;
    if |gs| == 1 {
      assert gs == [gs[0]] && gs[0] in gs;
      SingleKept(svc, gs[0]);
    } else if Fits(gs) {
      SeveralFit(svc, gs);
    } else if RuleContents(RuleOf(svc, gs)) == Contents(gs) {
      SeveralKept(svc, gs);
    }
  }

  // ---- all services ---------------------------------------------------------------------------

  /** The groups after reading rows and saving what was read. */
  function Saved(rows: seq<Matcher>): seq<seq<Matcher>> {
    Groups(Rows(RulesFrom(rows)))
  }

  /** The rules found by service have the trimmed services of their keys. */
  ghost predicate GoodKeys(order: seq<Key>, rules: map<Key, Rule>) {
    forall k | k in order :: k.ByService? && k in rules && Complete(rules[k]) && ServiceCond(rules[k]) == KeyCond(k)
  }

  lemma OneRuleContents(r: Rule, svc: Option<Cond>)
    ensures RulesContents([r], svc) == if Complete(r) && Some(ServiceCond(r)) == svc then RuleContents(r) else []
  {
    hide Complete, ServiceCond, RuleContents;
    assert [r][1..] == [];
    var c := if Complete(r) && Some(ServiceCond(r)) == svc then RuleContents(r) else [];
    assert RulesContents([r], svc) == c + [];
  }

  lemma RuleListSnoc(order: seq<Key>, last: Key, rules: map<Key, Rule>, svc: Option<Cond>)
    requires GoodKeys(order + [last], rules)
    ensures GoodKeys(order, rules) && last in rules && last.ByService? && forall k | k in order + [last] :: k in rules
    ensures RulesContents(RuleList(order + [last], rules), svc)
         == RulesContents(RuleList(order, rules), svc)
            + if svc == Some(KeyCond(last)) then RuleContents(rules[last]) else []
  {
    assert last in order + [last];
    forall k | k in order ensures k in order + [last] {}
    assert (order + [last])[..|order|] == order;
    RulesContentsAppend(RuleList(order, rules), [rules[last]], svc);
    OneRuleContents(rules[last], svc);
    hide RuleContents, RulesContents, Complete, ServiceCond;
  }

  lemma {:induction false} RuleListContents(order: seq<Key>, rules: map<Key, Rule>, svc: Option<Cond>)
    requires GoodKeys(order, rules) && DistinctKeys(order)
    ensures (forall k | k in order :: k in rules)
    ensures (forall k | k in order :: svc != Some(KeyCond(k))) ==> RulesContents(RuleList(order, rules), svc) == []
    ensures forall k | k in order && svc == Some(KeyCond(k)) ::
              RulesContents(RuleList(order, rules), svc) == RuleContents(rules[k])
  {
    if order != [] {
      var n := |order| - 1;
      var front, last := order[..n], order[n];
      assert order == front + [last];
      RuleListSnoc(front, last, rules, svc);
      RuleListContents(front, rules, svc);
      hide RuleContents, RulesContents, RuleList, GoodKeys;
      forall k | k in front ensures k in order && k != last {
        var i :| 0 <= i < n && order[i] == k;
      }
    }
  }

  lemma MemberlessGroups(rows: seq<Matcher>)
    requires Memberless(rows)
    ensures forall g | g in Groups(rows) :: MemberOf(g) == None
  {
    forall g | g in Groups(rows) ensures MemberOf(g) == None {
      var i :| 0 <= i < |Groups(rows)| && Groups(rows)[i] == g;
      RowsOfMembers(rows, Ids(rows)[i]);
      MemberlessRead(g);
    }
  }

  lemma {:induction false} RowsOfMembers(rows: seq<Matcher>, id: int)
    ensures forall m | m in RowsOf(rows, id) :: m in rows
  {
    if rows != [] {
      RowsOfMembers(rows[1..], id);
    }
  }

  /** What was read, and what the saved groups hold of each service. */
  lemma SavedContents(rows: seq<Matcher>, svc: Option<Cond>) returns (acc: Reading)
    requires Memberless(rows)
    ensures acc == ReadAll(NOTHING, Groups(rows)) && ReadsAs(acc, Groups(rows)) && WellKeyed(acc)
    ensures Contents(Of(Saved(rows), svc)) == RulesContents(RuleList(acc.order, acc.rules), svc)
  {
    acc := ReadAll(NOTHING, Groups(rows));
    MemberlessGroups(rows);
    ReadOld(Groups(rows));
    ReadAllKeyed(NOTHING, Groups(rows));
    var listed := RuleList(acc.order, acc.rules);
    GroupsOfRows(RulesFrom(rows));
    ExpandContents(RulesFrom(rows), svc, 0, 0);
    RulesContentsAppend(listed, acc.noService, svc);
    ServicelessIncomplete(acc.noService);
    IncompleteContents(acc.noService, svc);
    hide Groups, Rows, Expand, RulesContents, ReadAll, RuleList, Contents, Of, ReadsAs, WellKeyed;
    assert RulesFrom(rows) == listed + acc.noService;
    assert RulesContents(listed, svc) + [] == RulesContents(listed, svc);
  }

  lemma ServicelessIncomplete(rules: seq<Rule>)
    requires Serviceless(rules)
    ensures forall r | r in rules :: !Complete(r)
  {
    TrimFixed(JsSpace, "");
  }

  predicate ServiceTrimmed(g: seq<Matcher>) {
    ServiceRow(g).Some? ==> TrimmedService(ServiceRow(g).value)
  }

  predicate ServicesTrimmed(gs: seq<seq<Matcher>>) {
    forall g | g in gs :: ServiceTrimmed(g)
  }

  lemma ReadsRuleIs(rules: map<Key, Rule>, gs: seq<seq<Matcher>>, k: Key) returns (g: seq<Matcher>)
    requires k in rules && ReadsRule(rules, gs, k)
    ensures k.ByService? && g in gs && ServiceRow(g) == Some(KeyCond(k)) && Of(gs, Some(KeyCond(k))) != []
    ensures rules[k] == RuleOf(KeyCond(k), Of(gs, Some(KeyCond(k))))
  {
    g := Of(gs, Some(KeyCond(k)))[0];
    assert g in Of(gs, Some(KeyCond(k)));
  }

  lemma TrimmedKeys(acc: Reading, gs: seq<seq<Matcher>>)
    requires ReadsAs(acc, gs) && ServicesTrimmed(gs)
    ensures GoodKeys(acc.order, acc.rules)
  {
    hide RuleOf, Of, ServiceCond, Complete, TrimmedService, ServiceRow, ReadsRule;
    forall k | k in acc.order
      ensures k.ByService? && k in acc.rules && Complete(acc.rules[k]) && ServiceCond(acc.rules[k]) == KeyCond(k)
    {
      var g := ReadsRuleIs(acc.rules, gs, k);
      assert ServiceTrimmed(g);
      ServiceCondOf(KeyCond(k), Of(gs, Some(KeyCond(k))));
    }
  }

  /** With trimmed services each service's groups come back as one rule's, and nothing else comes back. */
  lemma SavedOf(rows: seq<Matcher>, svc: Option<Cond>)
    requires Memberless(rows) && ServicesTrimmed(Groups(rows))
    ensures var mine := Of(Groups(rows), svc);
            Contents(Of(Saved(rows), svc))
            == if svc.Some? && mine != [] then RuleContents(RuleOf(svc.value, mine)) else []
  {
    var gs, mine := Groups(rows), Of(Groups(rows), svc);
    var acc := SavedContents(rows, svc);
    TrimmedKeys(acc, gs);
    RuleListContents(acc.order, acc.rules, svc);
    hide Groups, Saved, ReadAll, RuleContents, RulesContents, RuleList, Contents;
    if svc.Some? && mine != [] {
      assert mine[0] in mine;
      KeyOfService(mine[0]);
      var key := ByService(svc.value.op, svc.value.value);
      GroupHasKey(acc.rules, mine[0], key);
      hide Of, RuleOf;
      var g := ReadsRuleIs(acc.rules, gs, key);
    } else {
      hide Of, RuleOf, ReadsRule;
      forall k | k in acc.order ensures svc != Some(KeyCond(k)) {
        var g := ReadsRuleIs(acc.rules, gs, k);
      }
    }
  }

  /** Every group has a trimmed service, and the groups of each service fit together. */
  predicate Survives(gs: seq<seq<Matcher>>) {
    forall g | g in gs :: SurvivesIn(g, gs)
  }

  predicate SurvivesIn(g: seq<Matcher>, gs: seq<seq<Matcher>>) {
    ServiceRow(g).Some? && TrimmedService(ServiceRow(g).value) && Fits(Of(gs, ServiceRow(g)))
  }

  lemma ServedOf(gs: seq<seq<Matcher>>, g: seq<Matcher>)
    requires g in gs && ServiceRow(g).Some?
    ensures ServedBy(Of(gs, ServiceRow(g)), ServiceRow(g).value)
  {
    assert g in Of(gs, ServiceRow(g));
  }

  lemma SurvivorsKept(rows: seq<Matcher>, svc: Option<Cond>)
    requires Memberless(rows) && Survives(Groups(rows))
    ensures Contents(Of(Groups(rows), svc)) == Contents(Of(Saved(rows), svc))
  {
    var gs, mine := Groups(rows), Of(Groups(rows), svc);
    forall g | g in gs ensures ServiceTrimmed(g) { assert SurvivesIn(g, gs); }
    hide Groups, Saved, RuleContents, RuleOf, Fits, TrimmedService;
    SavedOf(rows, svc);
    if mine != [] {
      assert mine[0] in mine && SurvivesIn(mine[0], gs);
      ServedOf(gs, mine[0]);
      ServiceKeptIff(svc.value, mine);
    }
  }

  lemma KeptIsTrimmed(rows: seq<Matcher>, g: seq<Matcher>)
    requires Memberless(rows) && g in Groups(rows)
    requires Contents(Of(Groups(rows), ServiceRow(g))) == Contents(Of(Saved(rows), ServiceRow(g)))
    ensures ServiceRow(g).Some? && TrimmedService(ServiceRow(g).value)
  {
    var svc := ServiceRow(g);
    assert g in Of(Groups(rows), svc);
    var acc := SavedContents(rows, svc);
    hide Groups, Saved, ReadAll, RuleContents, ServiceRow;
    ContentsHaveRule(RuleList(acc.order, acc.rules), svc);
    hide RulesContents, RuleList;
    var r :| r in RuleList(acc.order, acc.rules) && Complete(r) && Some(ServiceCond(r)) == svc;
    TrimIsTrimmed(JsSpace, r.service);
    TrimFixed(JsSpace, Trim(JsSpace, r.service));
  }

  lemma KeptFits(rows: seq<Matcher>, g: seq<Matcher>)
    requires Memberless(rows) && g in Groups(rows) && ServicesTrimmed(Groups(rows)) && ServiceRow(g).Some?
    requires Contents(Of(Groups(rows), ServiceRow(g))) == Contents(Of(Saved(rows), ServiceRow(g)))
    ensures Fits(Of(Groups(rows), ServiceRow(g)))
  {
    assert ServiceTrimmed(g);
    hide Groups, Saved, RuleContents, RuleOf, Fits, TrimmedService;
    SavedOf(rows, ServiceRow(g));
    ServedOf(Groups(rows), g);
    ServiceKeptIff(ServiceRow(g).value, Of(Groups(rows), ServiceRow(g)));
  }

  /** Reading rows without members and saving them again keeps every service's groups if and only if
      every group has exactly one service row, trimmed and not empty, its other conditions are
      trimmed and complete, and each service has one group only, or only groups with exactly one
      condition and all with the same flag. */
  lemma OldRowsSurviveIff(rows: seq<Matcher>)
    requires Memberless(rows)
    ensures KeepsGroups(Groups(rows), Saved(rows)) <==> Survives(Groups(rows))
  {
    var gs := Groups(rows);
    hide Groups, Saved, Contents, Of, Fits, TrimmedService, ServiceRow;
    if Survives(gs) {
      forall svc ensures Contents(Of(gs, svc)) == Contents(Of(Saved(rows), svc)) {
        SurvivorsKept(rows, svc);
      }
    } else if KeepsGroups(gs, Saved(rows)) {
      forall g | g in gs ensures ServiceRow(g).Some? && ServiceTrimmed(g) && TrimmedService(ServiceRow(g).value) {
        KeptIsTrimmed(rows, g);
      }
      forall g | g in gs ensures SurvivesIn(g, gs) {
        KeptFits(rows, g);
      }
    }
  }
}
