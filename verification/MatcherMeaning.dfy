// The flat form means what the rules mean: span by span for rules joined by "or",
// trace by trace for rules that must all hold within one trace.
module MatcherMeaning {
  import opened Text
  import opened MatcherRules

  /** Spans by id, with what each satisfies, the trace it is in and its parent there. */
  datatype Telemetry = Telemetry(spans: set<int>, holds: (Cond, int) -> bool,
                                 trace: int -> int, parent: map<int, int>)

  /** A parent link does not leave the trace. */
  predicate WellFormed(t: Telemetry) {
    forall s | s in t.parent :: t.trace(t.parent[s]) == t.trace(s)
  }

  function Ancestor(t: Telemetry, s: int, n: nat): Option<int>
    decreases n
  {
    if n == 0 then Some(s)
    else if s in t.parent then Ancestor(t, t.parent[s], n - 1)
    else None
  }

  /** `s` is `a` or sits somewhere below it. */
  ghost predicate AtOrBelow(t: Telemetry, a: int, s: int) {
    exists n: nat :: Ancestor(t, s, n) == Some(a)
  }

  /** Below a span is whatever has it, or something below it, for a parent. */
  lemma AtOrBelowIff(t: Telemetry, a: int, s: int)
    ensures AtOrBelow(t, a, s) <==> s == a || (s in t.parent && AtOrBelow(t, a, t.parent[s]))
  {
    if s == a {
      assert Ancestor(t, s, 0) == Some(a);
    }
    if n: nat :| Ancestor(t, s, n) == Some(a) && s != a {
      assert Ancestor(t, t.parent[s], n - 1) == Some(a);
    }
    if s in t.parent && AtOrBelow(t, a, t.parent[s]) {
      var n: nat :| Ancestor(t, t.parent[s], n) == Some(a);
      assert Ancestor(t, s, n + 1) == Some(a);
    }
  }

  lemma {:induction false} AncestorTrace(t: Telemetry, s: int, n: nat)
    requires WellFormed(t) && Ancestor(t, s, n).Some?
    ensures t.trace(Ancestor(t, s, n).value) == t.trace(s)
    decreases n
  {
    if n > 0 {
      AncestorTrace(t, t.parent[s], n - 1);
    }
  }

  // ---- what a rule means ---------------------------------------------------

  /** The service, and its conditions joined the way the rule says. */
  predicate RuleHolds(t: Telemetry, r: Rule, s: int) {
    var attrs := ValidAttrs(r);
    t.holds(ServiceCond(r), s)
    && (attrs == []
        || if r.combine.All? then forall a | a in attrs :: t.holds(a, s)
           else exists a | a in attrs :: t.holds(a, s))
  }

  /** The same said of the rule as it was typed: the span is of the service, and satisfies every, or some,
      condition that is kept; a rule with none that is kept asks for the service alone. */
  lemma RuleHoldsAsTyped(t: Telemetry, r: Rule, s: int)
    ensures RuleHolds(t, r, s)
       <==> t.holds(Cond("service.name", r.serviceOp, Trim(JsSpace, r.service)), s)
            && ((forall a | a in r.attrs :: !Typed(a))
                || if r.combine == All then forall a | a in r.attrs && Typed(a) :: t.holds(Trimming(a), s)
                   else exists a :: a in r.attrs && Typed(a) && t.holds(Trimming(a), s))
  {
    var attrs := ValidAttrs(r);
    var at := ValidCondsAre(r.attrs);
    hide Trim, Typed, ValidConds;
    forall a | a in r.attrs && Typed(a) ensures Trimming(a) in attrs {
      var k :| 0 <= k < |r.attrs| && r.attrs[k] == a;
      var i :| 0 <= i < |at| && at[i] == k;
      assert attrs[i] == Trimming(a);
    }
    forall x | x in attrs ensures exists a :: a in r.attrs && Typed(a) && Trimming(a) == x {
      var i :| 0 <= i < |attrs| && attrs[i] == x;
      assert r.attrs[at[i]] in r.attrs;
    }
    if attrs != [] {
      assert attrs[0] in attrs;
    }
  }

  /** The spans a rule takes: those that satisfy it and, when it says so, those below them. */
  ghost predicate RuleTakes(t: Telemetry, r: Rule, s: int) {
    RuleHolds(t, r, s)
    || (r.descendants && exists a :: a in t.spans && RuleHolds(t, r, a) && AtOrBelow(t, a, s))
  }

  ghost predicate RulesTake(t: Telemetry, rules: seq<Rule>, s: int) {
    exists r :: r in rules && Complete(r) && RuleTakes(t, r, s)
  }

  /** Some span of the trace satisfies the rule. */
  predicate RuleMet(t: Telemetry, r: Rule, tr: int) {
    exists s :: s in t.spans && t.trace(s) == tr && RuleHolds(t, r, s)
  }

  predicate RulesMet(t: Telemetry, rules: seq<Rule>, tr: int) {
    forall r | r in rules && Complete(r) :: RuleMet(t, r, tr)
  }

  // ---- what the flat form means ------------------------------------------------

  predicate GroupHolds(t: Telemetry, g: seq<Matcher>, s: int) {
    forall m | m in g :: t.holds(m.cond, s)
  }

  ghost predicate GroupTakes(t: Telemetry, g: seq<Matcher>, s: int) {
    GroupHolds(t, g, s)
    || (Flagged(g) && exists a :: a in t.spans && GroupHolds(t, g, a) && AtOrBelow(t, a, s))
  }

  ghost predicate GroupsTake(t: Telemetry, gs: seq<seq<Matcher>>, s: int) {
    exists g :: g in gs && GroupTakes(t, g, s)
  }

  predicate GroupMet(t: Telemetry, g: seq<Matcher>, tr: int) {
    exists s :: s in t.spans && t.trace(s) == tr && GroupHolds(t, g, s)
  }

  /** The group belongs to the member of its rows. */
  predicate OfMember(g: seq<Matcher>, member: int) {
    exists m :: m in g && m.member == Some(member)
  }

  /** One group of the member is met. */
  predicate MemberMet(t: Telemetry, gs: seq<seq<Matcher>>, member: int, tr: int) {
    exists g :: g in gs && OfMember(g, member) && GroupMet(t, g, tr)
  }

  ghost predicate HasMember(gs: seq<seq<Matcher>>, member: int) {
    exists g :: g in gs && OfMember(g, member)
  }

  ghost predicate MembersMet(t: Telemetry, gs: seq<seq<Matcher>>, tr: int) {
    forall member | HasMember(gs, member) :: MemberMet(t, gs, member, tr)
  }

  // ---- one rule and its groups ----------------------------------------------------

  lemma {:induction false} CondRowsHold(t: Telemetry, r: Rule, attrs: seq<Cond>, group: int, member: int, s: int)
    ensures GroupHolds(t, CondRows(r, attrs, group, member), s) <==> forall a | a in attrs :: t.holds(a, s)
  {
    if attrs != [] {
      CondRowsHold(t, r, attrs[1..], group, member, s);
      HoldsCons(t, Matcher(attrs[0], group, r.descendants, Some(member)), CondRows(r, attrs[1..], group, member), s);
      assert forall a :: a in attrs <==> a == attrs[0] || a in attrs[1..];
    }
  }

  lemma HoldsCons(t: Telemetry, m: Matcher, rest: seq<Matcher>, s: int)
    ensures GroupHolds(t, [m] + rest, s) <==> t.holds(m.cond, s) && GroupHolds(t, rest, s)
  {
    assert forall x :: x in [m] + rest <==> x == m || x in rest;
  }

  lemma GroupRowsHold(t: Telemetry, r: Rule, attrs: seq<Cond>, group: int, member: int, s: int)
    ensures GroupHolds(t, GroupRows(r, attrs, group, member), s)
       <==> t.holds(ServiceCond(r), s) && forall a | a in attrs :: t.holds(a, s)
  {
    hide GroupHolds, ServiceCond;
    CondRowsHold(t, r, attrs, group, member, s);
    HoldsCons(t, Matcher(ServiceCond(r), group, r.descendants, Some(member)), CondRows(r, attrs, group, member), s);
  }

  lemma AlternativesHold(t: Telemetry, r: Rule, attrs: seq<Cond>, group: int, member: int, s: int)
    requires attrs != []
    ensures (t.holds(ServiceCond(r), s) && exists a | a in attrs :: t.holds(a, s))
       <==> exists g :: g in Alternatives(r, attrs, group, member) && GroupHolds(t, g, s)
  {
    var gs := Alternatives(r, attrs, group, member);
    hide GroupRows, GroupHolds, ServiceCond, Alternatives;
    forall i | 0 <= i < |attrs|
      ensures GroupHolds(t, gs[i], s) <==> t.holds(ServiceCond(r), s) && t.holds(attrs[i], s)
    {
      PairHolds(t, r, attrs[i], group + i, member, s);
    }
    if a :| t.holds(ServiceCond(r), s) && a in attrs && t.holds(a, s) {
      var i :| 0 <= i < |attrs| && attrs[i] == a;
      assert gs[i] in gs;
    }
    if g :| g in gs && GroupHolds(t, g, s) {
      var i :| 0 <= i < |gs| && gs[i] == g;
      assert attrs[i] in attrs;
    }
  }

  lemma PairHolds(t: Telemetry, r: Rule, a: Cond, group: int, member: int, s: int)
    ensures GroupHolds(t, GroupRows(r, [a], group, member), s) <==> t.holds(ServiceCond(r), s) && t.holds(a, s)
  {
    GroupRowsHold(t, r, [a], group, member, s);
    hide GroupRows, GroupHolds, ServiceCond;
    assert a in [a];
  }

  /** A span satisfies a rule exactly when it satisfies one of the rule's groups. */
  lemma RuleGroupsHold(t: Telemetry, r: Rule, group: int, member: int, s: int)
    ensures RuleHolds(t, r, s) <==> exists g :: g in RuleGroups(r, group, member) && GroupHolds(t, g, s)
  {
    hide ValidAttrs, ServiceCond, GroupHolds, GroupRows;
    var attrs, gs := ValidAttrs(r), RuleGroups(r, group, member);
    if attrs == [] || r.combine.All? {
      GroupRowsHold(t, r, attrs, group, member, s);
      assert gs[0] in gs;
    } else {
      AlternativesHold(t, r, attrs, group, member, s);
    }
  }

  lemma UniformGroup(g: seq<Matcher>, descendants: bool, member: int)
    requires g != [] && forall m | m in g :: m.member == Some(member) && m.descendants == descendants
    ensures Flagged(g) == descendants && forall m :: OfMember(g, m) <==> m == member
  {
    assert g[0] in g;
  }

  lemma GroupRowsFlag(r: Rule, attrs: seq<Cond>, group: int, member: int)
    ensures var g := GroupRows(r, attrs, group, member);
            Flagged(g) == r.descendants && forall m :: OfMember(g, m) <==> m == member
  {
    GroupRowsUniform(r, attrs, group, member);
    hide GroupRows;
    UniformGroup(GroupRows(r, attrs, group, member), r.descendants, member);
  }

  lemma RuleGroupsFlag(r: Rule, group: int, member: int)
    ensures forall g | g in RuleGroups(r, group, member) :: Flagged(g) == r.descendants
    ensures forall g, m | g in RuleGroups(r, group, member) :: OfMember(g, m) <==> m == member
  {
    hide GroupRows, ValidAttrs, Flagged, OfMember;
    var attrs, gs := ValidAttrs(r), RuleGroups(r, group, member);
    forall g | g in gs
      ensures Flagged(g) == r.descendants && forall m :: OfMember(g, m) <==> m == member
    {
      var i :| 0 <= i < |gs| && gs[i] == g;
      if attrs == [] || r.combine.All? {
        GroupRowsFlag(r, attrs, group, member);
      } else {
        GroupRowsFlag(r, [attrs[i]], group + i, member);
      }
    }
  }

  /** The spans a rule takes are the spans its groups take. */
  lemma RuleGroupsTake(t: Telemetry, r: Rule, group: int, member: int, s: int)
    ensures RuleTakes(t, r, s) <==> GroupsTake(t, RuleGroups(r, group, member), s)
  {
    hide RuleGroups, RuleHolds, GroupHolds, Flagged, AtOrBelow;
    var gs := RuleGroups(r, group, member);
    RuleGroupsHold(t, r, group, member, s);
    RuleGroupsFlag(r, group, member);
    if RuleTakes(t, r, s) && !RuleHolds(t, r, s) {
      var a :| a in t.spans && RuleHolds(t, r, a) && AtOrBelow(t, a, s);
      RuleGroupsHold(t, r, group, member, a);
      var g :| g in gs && GroupHolds(t, g, a);
      assert GroupTakes(t, g, s);
    }
    if g :| g in gs && GroupTakes(t, g, s) {
      if !GroupHolds(t, g, s) {
        var a :| a in t.spans && GroupHolds(t, g, a) && AtOrBelow(t, a, s);
        RuleGroupsHold(t, r, group, member, a);
      }
    }
  }

  // ---- all rules ---------------------------------------------------------------------

  lemma TakeAppend(t: Telemetry, gs: seq<seq<Matcher>>, hs: seq<seq<Matcher>>, s: int)
    ensures GroupsTake(t, gs + hs, s) <==> GroupsTake(t, gs, s) || GroupsTake(t, hs, s)
  {
    hide GroupTakes;
    if g :| g in gs + hs && GroupTakes(t, g, s) {
      assert g in gs || g in hs;
    }
    if g :| g in gs && GroupTakes(t, g, s) {
      assert g in gs + hs;
    }
    if g :| g in hs && GroupTakes(t, g, s) {
      assert g in gs + hs;
    }
  }

  lemma RulesTakeCons(t: Telemetry, rules: seq<Rule>, s: int)
    requires rules != []
    ensures RulesTake(t, rules, s)
       <==> (Complete(rules[0]) && RuleTakes(t, rules[0], s)) || RulesTake(t, rules[1..], s)
  {
    hide Complete, RuleTakes;
    if r :| r in rules && Complete(r) && RuleTakes(t, r, s) {
      assert r == rules[0] || r in rules[1..];
    }
    if r :| r in rules[1..] && Complete(r) && RuleTakes(t, r, s) {
      assert r in rules;
    }
    assert rules[0] in rules;
  }

  lemma {:induction false} ExpandTakes(t: Telemetry, rules: seq<Rule>, group: int, member: int, s: int)
    ensures GroupsTake(t, Expand(rules, group, member), s) <==> RulesTake(t, rules, s)
    decreases |rules|
  {
    hide RuleGroups, RuleTakes, GroupTakes, GroupsTake, RulesTake, Complete;
    if rules == [] {
      NothingTakes(t, s);
    } else {
      RulesTakeCons(t, rules, s);
      if Complete(rules[0]) {
        var gs := RuleGroups(rules[0], group, member);
        ExpandTakes(t, rules[1..], group + |gs|, member + 1, s);
        RuleGroupsTake(t, rules[0], group, member, s);
        TakeAppend(t, gs, Expand(rules[1..], group + |gs|, member + 1), s);
      } else {
        ExpandTakes(t, rules[1..], group, member, s);
      }
    }
  }

  lemma NothingTakes(t: Telemetry, s: int)
    ensures !GroupsTake(t, [], s) && !RulesTake(t, [], s)
  {
  }

  /** Joined by "or": a span belongs to the flat form exactly when a complete rule takes it. */
  lemma UnionMeansRules(t: Telemetry, rules: seq<Rule>, s: int)
    ensures GroupsTake(t, Groups(Rows(rules)), s) <==> RulesTake(t, rules, s)
  {
    GroupsOfRows(rules);
    ExpandTakes(t, rules, 0, 0, s);
  }

  // ---- within one trace ----------------------------------------------------------------

  lemma RuleGroupsMet(t: Telemetry, r: Rule, group: int, member: int, tr: int)
    ensures RuleMet(t, r, tr) <==> MemberMet(t, RuleGroups(r, group, member), member, tr)
  {
    hide RuleGroups, RuleHolds, GroupHolds, OfMember;
    var gs := RuleGroups(r, group, member);
    RuleGroupsFlag(r, group, member);
    if RuleMet(t, r, tr) {
      var s :| s in t.spans && t.trace(s) == tr && RuleHolds(t, r, s);
      RuleGroupsHold(t, r, group, member, s);
      var g :| g in gs && GroupHolds(t, g, s);
      assert GroupMet(t, g, tr);
    }
    if g :| g in gs && OfMember(g, member) && GroupMet(t, g, tr) {
      var s :| s in t.spans && t.trace(s) == tr && GroupHolds(t, g, s);
      RuleGroupsHold(t, r, group, member, s);
    }
  }

  lemma {:induction false} ExpandMembers(rules: seq<Rule>, group: int, member: int)
    ensures forall g, m | g in Expand(rules, group, member) && OfMember(g, m) :: member <= m
    decreases |rules|
  {
    hide RuleGroups, OfMember, Complete;
    if rules != [] {
      if Complete(rules[0]) {
        var gs := RuleGroups(rules[0], group, member);
        RuleGroupsFlag(rules[0], group, member);
        ExpandMembers(rules[1..], group + |gs|, member + 1);
      } else {
        ExpandMembers(rules[1..], group, member);
      }
    }
  }

  /** The gate over a rule's groups followed by the groups of later members. */
  lemma MetAppend(t: Telemetry, gs: seq<seq<Matcher>>, hs: seq<seq<Matcher>>, member: int, tr: int)
    requires gs != [] && forall g, m | g in gs :: OfMember(g, m) <==> m == member
    requires forall h, m | h in hs && OfMember(h, m) :: member < m
    ensures MembersMet(t, gs + hs, tr) <==> MemberMet(t, gs, member, tr) && MembersMet(t, hs, tr)
  {
    hide OfMember, GroupMet;
    assert gs[0] in gs && gs[0] in gs + hs;
    assert HasMember(gs + hs, member);
    forall m ensures MemberMet(t, gs + hs, m, tr) <==> MemberMet(t, gs, m, tr) || MemberMet(t, hs, m, tr) {
      MemberMetAppend(t, gs, hs, m, tr);
    }
    assert !MemberMet(t, hs, member, tr);
    if MembersMet(t, gs + hs, tr) {
      forall m | HasMember(hs, m) ensures MemberMet(t, hs, m, tr) {
        var h :| h in hs && OfMember(h, m);
        assert h in gs + hs;
        assert HasMember(gs + hs, m);
      }
    }
    if MemberMet(t, gs, member, tr) && MembersMet(t, hs, tr) {
      forall m | HasMember(gs + hs, m) ensures MemberMet(t, gs + hs, m, tr) {
        var g :| g in gs + hs && OfMember(g, m);
        if g in hs { assert HasMember(hs, m); }
      }
    }
  }

  lemma MemberMetAppend(t: Telemetry, gs: seq<seq<Matcher>>, hs: seq<seq<Matcher>>, m: int, tr: int)
    ensures MemberMet(t, gs + hs, m, tr) <==> MemberMet(t, gs, m, tr) || MemberMet(t, hs, m, tr)
  {
    hide OfMember, GroupMet;
    if g :| g in gs + hs && OfMember(g, m) && GroupMet(t, g, tr) {
      assert g in gs || g in hs;
    }
    if g :| g in gs && OfMember(g, m) && GroupMet(t, g, tr) {
      assert g in gs + hs;
    }
    if g :| g in hs && OfMember(g, m) && GroupMet(t, g, tr) {
      assert g in gs + hs;
    }
  }

  lemma RulesMetCons(t: Telemetry, rules: seq<Rule>, tr: int)
    requires rules != []
    ensures RulesMet(t, rules, tr)
       <==> (Complete(rules[0]) ==> RuleMet(t, rules[0], tr)) && RulesMet(t, rules[1..], tr)
  {
    hide Complete, RuleMet;
    assert forall r :: r in rules <==> r == rules[0] || r in rules[1..];
  }

  lemma {:induction false} ExpandMet(t: Telemetry, rules: seq<Rule>, group: int, member: int, tr: int)
    ensures MembersMet(t, Expand(rules, group, member), tr) <==> RulesMet(t, rules, tr)
    decreases |rules|
  {
    hide RuleGroups, RuleMet, MemberMet, MembersMet, RulesMet, Complete, OfMember;
    if rules == [] {
      NothingMet(t, tr);
    } else {
      RulesMetCons(t, rules, tr);
      if Complete(rules[0]) {
        var gs := RuleGroups(rules[0], group, member);
        ExpandMet(t, rules[1..], group + |gs|, member + 1, tr);
        RuleGroupsMet(t, rules[0], group, member, tr);
        RuleGroupsFlag(rules[0], group, member);
        RuleGroupsNumbered(rules[0], group, member);
        ExpandMembers(rules[1..], group + |gs|, member + 1);
        MetAppend(t, gs, Expand(rules[1..], group + |gs|, member + 1), member, tr);
      } else {
        ExpandMet(t, rules[1..], group, member, tr);
      }
    }
  }

  lemma NothingMet(t: Telemetry, tr: int)
    ensures MembersMet(t, [], tr) && RulesMet(t, [], tr)
  {
  }

  /** Within one trace: it has a met group for every member exactly when every complete
      rule is satisfied by some span of it. */
  lemma TraceMeansRules(t: Telemetry, rules: seq<Rule>, tr: int)
    ensures MembersMet(t, Groups(Rows(rules)), tr) <==> RulesMet(t, rules, tr)
  {
    GroupsOfRows(rules);
    ExpandMet(t, rules, 0, 0, tr);
  }

  // ---- the query as the backend builds it -------------------------------------------------

  ghost predicate SeveralMembers(gs: seq<seq<Matcher>>) {
    exists a, b :: a != b && HasMember(gs, a) && HasMember(gs, b)
  }

  /** The span predicate of the backend: without groups no clause, which keeps every span; else the
      union of the groups, and for "all" the gate over the span's trace - which it leaves out when
      there are fewer than two members. */
  ghost predicate QueryTakes(t: Telemetry, gs: seq<seq<Matcher>>, all: bool, s: int) {
    gs == [] || (GroupsTake(t, gs, s) && (all && SeveralMembers(gs) ==> MembersMet(t, gs, t.trace(s))))
  }

  lemma {:induction false} ExpandNone(rules: seq<Rule>, group: int, member: int)
    ensures Expand(rules, group, member) == [] <==> forall r | r in rules :: !Complete(r)
    decreases |rules|
  {
    hide RuleGroups, Complete;
    if rules != [] {
      assert forall r :: r in rules <==> r == rules[0] || r in rules[1..];
      if Complete(rules[0]) {
        RuleGroupsNumbered(rules[0], group, member);
      } else {
        ExpandNone(rules[1..], group, member);
      }
    }
  }

  /** A group that takes a span is met in the span's trace. */
  lemma TakenIsMet(t: Telemetry, g: seq<Matcher>, s: int)
    requires WellFormed(t) && s in t.spans && GroupTakes(t, g, s)
    ensures GroupMet(t, g, t.trace(s))
  {
    hide GroupHolds, Flagged;
    if !GroupHolds(t, g, s) {
      var a :| a in t.spans && GroupHolds(t, g, a) && AtOrBelow(t, a, s);
      var n: nat :| Ancestor(t, s, n) == Some(a);
      AncestorTrace(t, s, n);
    }
  }

  /** Leaving the gate out for a single member changes nothing. */
  lemma SingleMemberGate(t: Telemetry, gs: seq<seq<Matcher>>, s: int)
    requires WellFormed(t) && s in t.spans && GroupsTake(t, gs, s) && !SeveralMembers(gs)
    requires forall g | g in gs :: exists m :: OfMember(g, m)
    ensures MembersMet(t, gs, t.trace(s))
  {
    hide OfMember, GroupMet, GroupTakes;
    var g :| g in gs && GroupTakes(t, g, s);
    TakenIsMet(t, g, s);
    var m :| OfMember(g, m);
    assert HasMember(gs, m);
  }

  lemma {:induction false} ExpandHasMembers(rules: seq<Rule>, group: int, member: int)
    ensures forall g | g in Expand(rules, group, member) :: exists m :: OfMember(g, m)
    decreases |rules|
  {
    hide RuleGroups, OfMember, Complete;
    if rules != [] {
      if Complete(rules[0]) {
        var gs := RuleGroups(rules[0], group, member);
        RuleGroupsFlag(rules[0], group, member);
        ExpandHasMembers(rules[1..], group + |gs|, member + 1);
        forall g | g in gs ensures exists m :: OfMember(g, m) {
          assert OfMember(g, member);
        }
      } else {
        ExpandHasMembers(rules[1..], group, member);
      }
    }
  }

  /** The editor and the query agree: what the backend selects from the submitted rows is what
      the rules say, for either way of combining them - and everything if no rule is complete. */
  lemma QueryMeansRules(t: Telemetry, rules: seq<Rule>, all: bool, s: int)
    requires WellFormed(t) && s in t.spans
    ensures QueryTakes(t, Groups(Rows(rules)), all, s)
       <==> (forall r | r in rules :: !Complete(r))
            || (RulesTake(t, rules, s) && (all ==> RulesMet(t, rules, t.trace(s))))
  {
    ExpandNone(rules, 0, 0);
    UnionMeansRules(t, rules, s);
    TraceMeansRules(t, rules, t.trace(s));
    GroupsOfRows(rules);
    ExpandHasMembers(rules, 0, 0);
    hide Groups, Rows, GroupsTake, RulesTake, MembersMet, RulesMet, SeveralMembers, OfMember, Expand, Complete;
    var gs := Groups(Rows(rules));
    if GroupsTake(t, gs, s) && !SeveralMembers(gs) {
      SingleMemberGate(t, gs, s);
    }
  }
}
