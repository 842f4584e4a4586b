// Rows without members in the backend's query, before and after reading and saving them: every
// group is a member of its own before, and every service is one member after.
module MatcherOldQuery {
  import opened Text
  import opened MatcherRules
  import opened MatcherRoundTrip
  import opened MatcherMeaning
  import opened MatcherOldRows
  import opened MatcherOldMeaning

  predicate AllMet(t: Telemetry, gs: seq<seq<Matcher>>, tr: int) {
    forall g | g in gs :: GroupMet(t, g, tr)
  }

  /** The backend's span predicate for groups without a member: each is given one of its own, so "all"
      asks for every group within the span's trace, from two groups on. */
  ghost predicate OldQueryTakes(t: Telemetry, gs: seq<seq<Matcher>>, all: bool, s: int) {
    gs == [] || (GroupsTake(t, gs, s) && (all && |gs| >= 2 ==> AllMet(t, gs, t.trace(s))))
  }

  /** Leaving the gate out for one group changes nothing. */
  lemma OldGate(t: Telemetry, gs: seq<seq<Matcher>>, s: int)
    requires WellFormed(t) && s in t.spans && gs != []
    ensures OldQueryTakes(t, gs, true, s) <==> GroupsTake(t, gs, s) && AllMet(t, gs, t.trace(s))
  {
    hide GroupMet, GroupTakes;
    if GroupsTake(t, gs, s) && |gs| == 1 {
      var g :| g in gs && GroupTakes(t, g, s);
      TakenIsMet(t, g, s);
      assert gs == [gs[0]] && g == gs[0];
    }
  }

  // ---- holding, by content ---------------------------------------------------------------

  predicate ContentHolds(t: Telemetry, c: Content, s: int) {
    (forall x | x in c.services :: t.holds(x, s)) && (forall x | x in c.others :: t.holds(x, s))
  }

  lemma HoldsByContent(t: Telemetry, g: seq<Matcher>, s: int)
    ensures GroupHolds(t, g, s) <==> ContentHolds(t, ContentOf(g), s)
  {
    forall c ensures HasCond(g, c) <==> c in ServiceConds(g) || c in OtherConds(g) {
      CondsSplit(g, c);
    }
    hide ServiceConds, OtherConds, Flagged;
    assert GroupHolds(t, g, s) <==> forall c | HasCond(g, c) :: t.holds(c, s);
  }

  predicate SomeHolds(t: Telemetry, cs: seq<Content>, s: int) {
    exists c :: c in cs && ContentHolds(t, c, s)
  }

  lemma RuleHoldsByContent(t: Telemetry, r: Rule, s: int)
    ensures RuleHolds(t, r, s) <==> SomeHolds(t, RuleContents(r), s)
  {
    var gs := RuleGroups(r, 0, 0);
    RuleGroupsHold(t, r, 0, 0, s);
    RuleGroupsContents(r, 0, 0);
    hide RuleGroups, RuleContents, RuleHolds, GroupHolds, ContentHolds, ContentOf;
    if g :| g in gs && GroupHolds(t, g, s) {
      HoldsByContent(t, g, s);
      InContents(gs, ContentOf(g));
    }
    if c :| c in RuleContents(r) && ContentHolds(t, c, s) {
      InContents(gs, c);
      var g :| g in gs && ContentOf(g) == c;
      HoldsByContent(t, g, s);
    }
  }

  // ---- the rules that are read ---------------------------------------------------------------

  lemma {:induction false} RuleListMember(order: seq<Key>, rules: map<Key, Rule>, r: Rule)
    requires forall k | k in order :: k in rules
    ensures r in RuleList(order, rules) <==> exists k :: k in order && rules[k] == r
  {
    if order != [] {
      var n := |order| - 1;
      assert order == order[..n] + [order[n]];
      assert forall k :: k in order <==> k in order[..n] || k == order[n];
      RuleListMember(order[..n], rules, r);
    }
  }

  /** The rule that the groups of `g`'s service are read as. */
  function RuleFor(gs: seq<seq<Matcher>>, g: seq<Matcher>): Rule
    requires ServiceRow(g).Some?
  {
    RuleOf(ServiceRow(g).value, Of(gs, ServiceRow(g)))
  }

  lemma ReadKeyOf(acc: Reading, gs: seq<seq<Matcher>>, g: seq<Matcher>) returns (k: Key)
    requires ReadsAs(acc, gs) && g in gs && ServiceRow(g).Some?
    ensures k in acc.order && k in acc.rules && acc.rules[k] == RuleFor(gs, g)
  {
    KeyOfService(g);
    k := ByService(ServiceRow(g).value.op, ServiceRow(g).value.value);
    assert HasKey(acc.rules, g);
    hide Of, RuleOf, ServiceRow;
    var x := ReadsRuleIs(acc.rules, gs, k);
  }

  /** The complete rules read from rows with trimmed services are those of the services. */
  lemma CompleteRules(rows: seq<Matcher>)
    requires Memberless(rows) && ServicesTrimmed(Groups(rows))
    ensures forall r | r in RulesFrom(rows) && Complete(r) ::
              exists g :: g in Groups(rows) && ServiceRow(g).Some? && r == RuleFor(Groups(rows), g)
    ensures forall g | g in Groups(rows) && ServiceRow(g).Some? ::
              RuleFor(Groups(rows), g) in RulesFrom(rows) && Complete(RuleFor(Groups(rows), g))
  {
    var gs := Groups(rows);
    var acc := SavedContents(rows, None);
    TrimmedKeys(acc, gs);
    var listed := RuleList(acc.order, acc.rules);
    assert RulesFrom(rows) == listed + acc.noService;
    ServicelessIncomplete(acc.noService);
    hide Groups, RulesFrom, ReadAll, RuleList, Complete, RuleFor, ServiceRow, GoodKeys;
    forall r | r in RulesFrom(rows) && Complete(r)
      ensures exists g :: g in gs && ServiceRow(g).Some? && r == RuleFor(gs, g)
    {
      RuleListMember(acc.order, acc.rules, r);
      var k :| k in acc.order && acc.rules[k] == r;
      var g := KeyRuleFor(acc, gs, k);
    }
    forall g | g in gs && ServiceRow(g).Some? ensures RuleFor(gs, g) in RulesFrom(rows) && Complete(RuleFor(gs, g)) {
      var k := ReadKeyOf(acc, gs, g);
      RuleListMember(acc.order, acc.rules, RuleFor(gs, g));
      GoodKeyComplete(acc.order, acc.rules, k);
    }
  }

  lemma GoodKeyComplete(order: seq<Key>, rules: map<Key, Rule>, k: Key)
    requires GoodKeys(order, rules) && k in order
    ensures k in rules && Complete(rules[k])
  {
  }

  lemma KeyRuleFor(acc: Reading, gs: seq<seq<Matcher>>, k: Key) returns (g: seq<Matcher>)
    requires ReadsAs(acc, gs) && k in acc.order
    ensures g in gs && ServiceRow(g).Some? && k in acc.rules && acc.rules[k] == RuleFor(gs, g)
  {
    assert ReadsRule(acc.rules, gs, k);
    hide Of, RuleOf, ServiceRow, ReadsRule;
    g := ReadsRuleIs(acc.rules, gs, k);
  }

  /** Within one trace the saved rows ask for each service once. */
  ghost predicate ServicesMet(t: Telemetry, gs: seq<seq<Matcher>>, tr: int) {
    forall g | g in gs && ServiceRow(g).Some? :: RuleMet(t, RuleFor(gs, g), tr)
  }

  predicate HasService(gs: seq<seq<Matcher>>) {
    exists g :: g in gs && ServiceRow(g).Some?
  }

  lemma SavedRulesMet(rows: seq<Matcher>, t: Telemetry, tr: int)
    requires Memberless(rows) && ServicesTrimmed(Groups(rows))
    ensures RulesMet(t, RulesFrom(rows), tr) <==> ServicesMet(t, Groups(rows), tr)
    ensures (forall r | r in RulesFrom(rows) :: !Complete(r)) <==> !HasService(Groups(rows))
  {
    CompleteRules(rows);
    hide Groups, RulesFrom, RuleFor, RuleMet, Complete, ServiceRow;
    var gs := Groups(rows);
    if ServicesMet(t, gs, tr) {
      forall r | r in RulesFrom(rows) && Complete(r) ensures RuleMet(t, r, tr) {
        var g :| g in gs && ServiceRow(g).Some? && r == RuleFor(gs, g);
      }
    }
  }

  /** The backend's query over the saved rows. */
  lemma SavedQuery(rows: seq<Matcher>, t: Telemetry, all: bool, s: int)
    requires Memberless(rows) && ServicesTrimmed(Groups(rows)) && WellFormed(t) && s in t.spans
    ensures QueryTakes(t, Saved(rows), all, s)
       <==> !HasService(Groups(rows))
            || (GroupsTake(t, Saved(rows), s) && (all ==> ServicesMet(t, Groups(rows), t.trace(s))))
  {
    QueryMeansRules(t, RulesFrom(rows), all, s);
    UnionMeansRules(t, RulesFrom(rows), s);
    SavedRulesMet(rows, t, t.trace(s));
    hide Groups, Rows, RulesFrom, QueryTakes, GroupsTake, RulesTake, RulesMet, ServicesMet, Complete, HasService;
  }

  // ---- joined by "or" -----------------------------------------------------------------------------

  /** Joined by "or" saving never widens the query of tidy rows, as long as some group has a service. */
  lemma AnyQueryNarrows(rows: seq<Matcher>, t: Telemetry, s: int)
    requires Memberless(rows) && Tidy(Groups(rows)) && HasService(Groups(rows)) && WellFormed(t) && s in t.spans
    requires QueryTakes(t, Saved(rows), false, s)
    ensures OldQueryTakes(t, Groups(rows), false, s)
  {
    TidyTrimmed(Groups(rows));
    hide Groups, Saved, Tidy, ServicesTrimmed, GroupsTake, QueryTakes, HasService;
    SavedQuery(rows, t, false, s);
    SavingNarrows(rows, t, s);
  }

  /** And it keeps the query if no group is narrowed. */
  lemma AnyQueryKept(rows: seq<Matcher>, t: Telemetry, s: int)
    requires Memberless(rows) && Tidy(Groups(rows)) && KeepsMeaning(Groups(rows)) && WellFormed(t) && s in t.spans
    ensures OldQueryTakes(t, Groups(rows), false, s) <==> QueryTakes(t, Saved(rows), false, s)
  {
    TidyTrimmed(Groups(rows));
    ServicedIffAny(Groups(rows));
    hide Groups, Saved, Tidy, ServicesTrimmed, GroupsTake, QueryTakes, HasService, KeepsMeaning;
    SavedQuery(rows, t, false, s);
    SavingKeepsMeaning(rows, t, s);
  }

  lemma ServicedIffAny(gs: seq<seq<Matcher>>)
    requires KeepsMeaning(gs)
    ensures HasService(gs) <==> gs != []
  {
    hide ServiceRow, NotNarrowed;
    if gs != [] {
      assert gs[0] in gs;
    }
  }

  /** If no group has a service nothing is saved, and the query without a clause takes every span. */
  lemma ServicelessQueryTakesAll(rows: seq<Matcher>, t: Telemetry, all: bool, s: int)
    requires Memberless(rows) && !HasService(Groups(rows)) && WellFormed(t) && s in t.spans
    ensures QueryTakes(t, Saved(rows), all, s)
  {
    assert ServicesTrimmed(Groups(rows));
    hide Groups, Saved, GroupsTake, QueryTakes, HasService;
    SavedQuery(rows, t, all, s);
  }

  // ---- within one trace -------------------------------------------------------------------------------

  /** The groups of each service ask for the same conditions. */
  predicate Uniform(mine: seq<seq<Matcher>>) {
    forall g, h | g in mine && h in mine :: forall a | a in OtherConds(g) :: a in OtherConds(h)
  }

  predicate ServicesUniform(gs: seq<seq<Matcher>>) {
    forall g | g in gs :: ServiceRow(g).Some? && Uniform(Of(gs, ServiceRow(g)))
  }

  lemma UniformNotNarrowed(mine: seq<seq<Matcher>>, g: seq<Matcher>)
    requires Uniform(mine) && g in mine
    ensures NotNarrowed(g, mine)
  {
    forall a | a in AllOthers(mine) ensures a in OtherConds(g) {
      AllOthersMember(mine, a);
    }
    if AllOthers(mine) != [] {
      assert AllOthers(mine)[0] in AllOthers(mine);
    }
  }

  lemma UniformKeepsMeaning(gs: seq<seq<Matcher>>)
    requires ServicesUniform(gs)
    ensures KeepsMeaning(gs)
  {
    hide Uniform, NotNarrowed;
    forall g | g in gs ensures ServiceRow(g).Some? && NotNarrowed(g, Of(gs, ServiceRow(g))) {
      UniformNotNarrowed(Of(gs, ServiceRow(g)), g);
    }
  }

  /** In a uniform service whatever comes back asks for the same as any of its groups. */
  lemma UniformHolds(t: Telemetry, svc: Cond, mine: seq<seq<Matcher>>, g: seq<Matcher>, s: int)
    requires TidyService(mine, svc) && Uniform(mine) && g in mine
    ensures RuleHolds(t, RuleOf(svc, mine), s) <==> GroupHolds(t, g, s)
  {
    var r := RuleOf(svc, mine);
    RuleHoldsByContent(t, r, s);
    HoldsByContent(t, g, s);
    UniformNotNarrowed(mine, g);
    CoveredIff(svc, mine, g);
    if SomeHolds(t, RuleContents(r), s) {
      UniformBack(t, svc, mine, g, s);
    }
    hide RuleHolds, GroupHolds, RuleOf, RuleContents, ContentOf, TidyService, NotNarrowed, Uniform, ContentHolds,
         ContentCovers;
    if ContentHolds(t, ContentOf(g), s) {
      var c :| c in RuleContents(r) && ContentCovers(c, ContentOf(g));
      CoveredHolds(t, c, ContentOf(g), s);
    }
  }

  lemma CoveredHolds(t: Telemetry, x: Content, y: Content, s: int)
    requires ContentCovers(x, y) && ContentHolds(t, y, s)
    ensures ContentHolds(t, x, s)
  {
  }

  lemma UniformBack(t: Telemetry, svc: Cond, mine: seq<seq<Matcher>>, g: seq<Matcher>, s: int)
    requires TidyService(mine, svc) && Uniform(mine) && g in mine && SomeHolds(t, RuleContents(RuleOf(svc, mine)), s)
    ensures ContentHolds(t, ContentOf(g), s)
  {
    hide RuleOf, RuleContents, ContentOf, TidyService, Uniform, ContentHolds, ContentCovers;
    var c :| c in RuleContents(RuleOf(svc, mine)) && ContentHolds(t, c, s);
    var g' := ComesFrom(svc, mine, c);
    CoveredHolds(t, ContentOf(g'), c, s);
    SameAsks(t, svc, mine, g', g, s);
  }

  lemma SameAsks(t: Telemetry, svc: Cond, mine: seq<seq<Matcher>>, g: seq<Matcher>, h: seq<Matcher>, s: int)
    requires TidyService(mine, svc) && Uniform(mine) && g in mine && h in mine && ContentHolds(t, ContentOf(g), s)
    ensures ContentHolds(t, ContentOf(h), s)
  {
    TidyMember(svc, mine, g);
    TidyMember(svc, mine, h);
    hide TidyService, OtherConds, AnyFlagged, AllOthers, Several;
  }

  lemma UniformMet(t: Telemetry, gs: seq<seq<Matcher>>, g: seq<Matcher>, tr: int)
    requires Tidy(gs) && ServicesUniform(gs) && g in gs && ServiceRow(g).Some?
    ensures RuleMet(t, RuleFor(gs, g), tr) <==> GroupMet(t, g, tr)
  {
    TidyOf(gs, g);
    assert g in Of(gs, ServiceRow(g)) && Uniform(Of(gs, ServiceRow(g)));
    hide Tidy, ServicesUniform, Uniform, TidyService, RuleOf, Of, RuleHolds, GroupHolds, ServiceRow;
    forall s ensures RuleHolds(t, RuleFor(gs, g), s) <==> GroupHolds(t, g, s) {
      UniformHolds(t, ServiceRow(g).value, Of(gs, ServiceRow(g)), g, s);
    }
  }

  /** Within one trace saving keeps the query of tidy rows, for all telemetry, if every group has a
      service and the groups of each service ask for the same conditions - as one group does. */
  lemma AllQueryKept(rows: seq<Matcher>, t: Telemetry, s: int)
    requires Memberless(rows) && Tidy(Groups(rows)) && ServicesUniform(Groups(rows)) && WellFormed(t) && s in t.spans
    ensures OldQueryTakes(t, Groups(rows), true, s) <==> QueryTakes(t, Saved(rows), true, s)
  {
    var gs, tr := Groups(rows), t.trace(s);
    TidyTrimmed(gs);
    UniformKeepsMeaning(gs);
    ServicedIffAny(gs);
    forall g | g in gs ensures RuleMet(t, RuleFor(gs, g), tr) <==> GroupMet(t, g, tr) {
      UniformMet(t, gs, g, tr);
    }
    assert forall g | g in gs :: ServiceRow(g).Some?;
    hide Groups, Saved, Tidy, ServicesTrimmed, GroupsTake, QueryTakes, HasService, KeepsMeaning, ServicesUniform,
         RuleMet, RuleFor, GroupMet, ServiceRow;
    SavedQuery(rows, t, true, s);
    SavingKeepsMeaning(rows, t, s);
    if gs != [] {
      OldGate(t, gs, s);
    }
  }

  lemma OneGroupEach(gs: seq<seq<Matcher>>)
    requires forall g | g in gs :: ServiceRow(g).Some? && |Of(gs, ServiceRow(g))| == 1
    ensures ServicesUniform(gs)
  {
    hide ServiceRow, OtherConds, Of;
    forall g | g in gs ensures Uniform(Of(gs, ServiceRow(g))) {
      OneIsUniform(Of(gs, ServiceRow(g)));
    }
  }

  lemma OneIsUniform(mine: seq<seq<Matcher>>)
    requires |mine| == 1
    ensures Uniform(mine)
  {
    hide OtherConds;
    assert mine == [mine[0]];
  }

  // ---- and only then, for conditions that are read independently ---------------------------------------

  /** Three spans of one trace: 0 has exactly what `g` asks for, 1 below it has nothing, and 2 everything. */
  function NarrowWitness(g: seq<Matcher>): Telemetry {
    Telemetry({0, 1, 2}, (c, s) => s == 2 || (s == 0 && HasCond(g, c)), s => 0, map[1 := 0])
  }

  lemma NarrowAncestors(g: seq<Matcher>)
    ensures WellFormed(NarrowWitness(g)) && AtOrBelow(NarrowWitness(g), 0, 1)
    ensures forall a | AtOrBelow(NarrowWitness(g), a, 0) :: a == 0
    ensures forall a | AtOrBelow(NarrowWitness(g), a, 1) :: a == 0 || a == 1
  {
    var t := NarrowWitness(g);
    assert Ancestor(t, 0, 0) == Some(0) && Ancestor(t, 1, 1) == Some(0);
    forall a | AtOrBelow(t, a, 0) ensures a == 0 {
      var n: nat :| Ancestor(t, 0, n) == Some(a);
    }
    forall a | AtOrBelow(t, a, 1) ensures a == 0 || a == 1 {
      var n: nat :| Ancestor(t, 1, n) == Some(a);
      assert n > 0 ==> Ancestor(t, 0, n - 1) == Some(a);
    }
  }

  lemma NarrowHolds(g: seq<Matcher>, h: seq<Matcher>)
    requires h != []
    ensures GroupHolds(NarrowWitness(g), g, 0) && !GroupHolds(NarrowWitness(g), h, 1)
    ensures GroupHolds(NarrowWitness(g), h, 0) <==> forall m | m in h :: HasCond(g, m.cond)
    ensures GroupHolds(NarrowWitness(g), h, 2)
  {
    assert h[0] in h;
  }

  /** A narrowed group loses a span within one trace as well. */
  lemma NarrowedQuery(gs: seq<seq<Matcher>>, hs: seq<seq<Matcher>>, g: seq<Matcher>) returns (t: Telemetry, s: int)
    requires g in gs && !Covered(g, hs) && (forall x | x in gs :: x != []) && forall h | h in hs :: h != []
    ensures WellFormed(t) && s in t.spans && OldQueryTakes(t, gs, true, s) && !GroupsTake(t, hs, s)
  {
    t := NarrowWitness(g);
    s := if Flagged(g) then 1 else 0;
    NarrowAncestors(g);
    NarrowHolds(g, g);
    assert GroupTakes(t, g, s);
    forall x | x in gs ensures GroupMet(t, x, t.trace(s)) {
      NarrowHolds(g, x);
    }
    forall h | h in hs ensures !GroupTakes(t, h, s) {
      NarrowHolds(g, h);
      assert !Covers(h, g);
    }
    hide GroupHolds, AtOrBelow, GroupMet;
  }

  /** Two spans of one trace: 0 has one service and one condition, 1 has everything but the service. */
  function WideWitness(svc: Cond, a: Cond): Telemetry {
    Telemetry({0, 1}, (c, s) => if s == 0 then c == svc || c == a else c != svc, s => 0, map[])
  }

  lemma WideOthers(t: Telemetry, svc: Cond, a: Cond, own: Cond, mine: seq<seq<Matcher>>)
    requires t == WideWitness(svc, a) && own != svc && svc.attribute == SERVICE && TidyService(mine, own)
    ensures RuleMet(t, RuleOf(own, mine), 0)
  {
    var r := RuleOf(own, mine);
    var g := mine[0];
    assert g in mine;
    TidyContents(own, mine);
    var c := RuleContents(r)[0];
    assert c in RuleContents(r);
    var x := ComesFrom(own, mine, c);
    forall o | o in c.others ensures o.attribute != SERVICE {
      TidyOthers(own, mine, c, o);
    }
    assert c.services == [own];
    RuleHoldsByContent(t, r, 1);
    hide RuleContents, RuleOf, RuleHolds, TidyService, AllOthers, Several, AnyFlagged, ContentOf;
    assert ContentHolds(t, c, 1);
    assert RuleHolds(t, r, 1);
  }

  lemma TidyOthers(svc: Cond, mine: seq<seq<Matcher>>, c: Content, o: Cond)
    requires TidyService(mine, svc) && c in RuleContents(RuleOf(svc, mine)) && o in c.others
    ensures o.attribute != SERVICE
  {
    TidyContents(svc, mine);
    var cs := RuleContents(RuleOf(svc, mine));
    var i :| 0 <= i < |cs| && cs[i] == c;
    assert o in AllOthers(mine);
    AllOthersNonService(mine);
    NonServiceWhole(AllOthers(mine));
    hide RuleContents, RuleOf, TidyService, AllOthers, Several, AnyFlagged;
  }

  /** A single condition of a service whose groups have one each is an alternative of its own. */
  lemma WideOwn(t: Telemetry, svc: Cond, a: Cond, mine: seq<seq<Matcher>>)
    requires t == WideWitness(svc, a) && TidyService(mine, svc) && !Several(mine) && a in AllOthers(mine)
    ensures RuleHolds(t, RuleOf(svc, mine), 0)
  {
    var r, attrs := RuleOf(svc, mine), AllOthers(mine);
    TidyContents(svc, mine);
    RuleHoldsByContent(t, r, 0);
    WideContent(svc, a, AnyFlagged(mine));
    hide RuleContents, RuleOf, RuleHolds, TidyService, AllOthers, Several, AnyFlagged, ContentHolds, WideWitness;
    var i :| 0 <= i < |attrs| && attrs[i] == a;
    var c := RuleContents(r)[i];
    assert c in RuleContents(r) && c == Content([svc], [a], AnyFlagged(mine));
  }

  lemma WideContent(svc: Cond, a: Cond, flag: bool)
    ensures ContentHolds(WideWitness(svc, a), Content([svc], [a], flag), 0)
  {
  }

  lemma WideUnmet(t: Telemetry, svc: Cond, a: Cond, mine: seq<seq<Matcher>>, h: seq<Matcher>)
    requires t == WideWitness(svc, a) && TidyService(mine, svc) && h in mine
    requires OtherConds(h) != [] && a !in OtherConds(h)
    ensures !GroupMet(t, h, 0)
  {
    var b := OtherConds(h)[0];
    assert b in OtherConds(h);
    CondsSplit(h, b);
    TidyMember(svc, mine, h);
    assert svc.attribute == SERVICE && b != svc && b != a;
    hide TidyService, OtherConds, AllOthers, AnyFlagged, Several, GroupHolds, ContentOf;
    assert svc in ContentOf(h).services && b in ContentOf(h).others;
    forall s | s in t.spans ensures !GroupHolds(t, h, s) {
      HoldsByContent(t, h, s);
      assert !t.holds(if s == 0 then b else svc, s);
    }
  }

  /** What makes a service that is not narrowed uneven: single conditions, and two of them different. */
  lemma UnevenService(svc: Cond, mine: seq<seq<Matcher>>)
    returns (a: Cond, g: seq<Matcher>, h: seq<Matcher>)
    requires TidyService(mine, svc) && !Uniform(mine) && forall x | x in mine :: NotNarrowed(x, mine)
    ensures g in mine && h in mine && a in OtherConds(g) && a !in OtherConds(h)
    ensures !Several(mine) && a in AllOthers(mine) && OtherConds(h) != []
  {
    hide TidyService, OtherConds, AllOthers, Several;
    var x, y :| x in mine && y in mine && !forall o | o in OtherConds(x) :: o in OtherConds(y);
    g, h := x, y;
    a :| a in OtherConds(g) && a !in OtherConds(h);
    assert NotNarrowed(h, mine);
    AllOthersMember(mine, a);
  }

  lemma ServiceApart(gs: seq<seq<Matcher>>, g: seq<Matcher>, svc: Cond)
    requires Tidy(gs) && g in gs && ServiceRow(g).Some? && ServiceRow(g).value != svc
    ensures TidyService(Of(gs, ServiceRow(g)), ServiceRow(g).value)
  {
    TidyOf(gs, g);
  }

  /** Within one trace the alternatives of one service widen the query: of a service whose groups have
      single conditions, two of them different, the saved rows ask for one where the rows asked for all. */
  lemma AllQueryWidens(rows: seq<Matcher>, g0: seq<Matcher>) returns (t: Telemetry, s: int)
    requires Memberless(rows) && Tidy(Groups(rows)) && KeepsMeaning(Groups(rows))
    requires g0 in Groups(rows) && !Uniform(Of(Groups(rows), ServiceRow(g0)))
    ensures WellFormed(t) && s in t.spans
    ensures !OldQueryTakes(t, Groups(rows), true, s) && QueryTakes(t, Saved(rows), true, s)
  {
    var gs := Groups(rows);
    assert ServiceRow(g0).Some?;
    var svc, mine := ServiceRow(g0).value, Of(gs, ServiceRow(g0));
    TidyTrimmed(gs);
    TidyOf(gs, g0);
    ServicedIffAny(gs);
    NoneNarrowed(gs, g0);
    hide Groups, Saved, Tidy, ServicesTrimmed, KeepsMeaning, HasService, TidyService, NotNarrowed, Uniform,
         QueryTakes, GroupsTake, RuleHolds, RuleOf, Several, AllOthers, OtherConds, ServiceRow, Of;
    var a, g, h := UnevenService(svc, mine);
    t, s := WideWitness(svc, a), 0;
    WideOwn(t, svc, a, mine);
    WideUnmet(t, svc, a, mine, h);
    WideMet(gs, g0, svc, a);
    WideTaken(rows, t, g0);
    OfMembers(gs, g0, g, h);
    SavedQuery(rows, t, true, 0);
    WideRefused(t, gs, h);
  }

  lemma NoneNarrowed(gs: seq<seq<Matcher>>, g: seq<Matcher>)
    requires KeepsMeaning(gs) && g in gs
    ensures forall x | x in Of(gs, ServiceRow(g)) :: NotNarrowed(x, Of(gs, ServiceRow(g)))
  {
    hide NotNarrowed, ServiceRow;
    forall x | x in Of(gs, ServiceRow(g)) ensures NotNarrowed(x, Of(gs, ServiceRow(g))) {
      assert x in gs && ServiceRow(x) == ServiceRow(g);
    }
  }

  lemma OfMembers(gs: seq<seq<Matcher>>, g0: seq<Matcher>, g: seq<Matcher>, h: seq<Matcher>)
    requires g in Of(gs, ServiceRow(g0)) && h in Of(gs, ServiceRow(g0))
    ensures g in gs && h in gs
  {
  }

  lemma WideRefused(t: Telemetry, gs: seq<seq<Matcher>>, h: seq<Matcher>)
    requires WellFormed(t) && 0 in t.spans && t.trace(0) == 0 && h in gs && !GroupMet(t, h, 0)
    ensures !OldQueryTakes(t, gs, true, 0)
  {
    OldGate(t, gs, 0);
    hide GroupMet, GroupsTake;
  }

  lemma WideMet(gs: seq<seq<Matcher>>, g0: seq<Matcher>, svc: Cond, a: Cond)
    requires Tidy(gs) && g0 in gs && ServiceRow(g0) == Some(svc)
    requires RuleHolds(WideWitness(svc, a), RuleOf(svc, Of(gs, ServiceRow(g0))), 0)
    ensures ServicesMet(WideWitness(svc, a), gs, 0)
  {
    var t := WideWitness(svc, a);
    KeyOfService(g0);
    hide Tidy, RuleHolds, RuleOf, Of, ServiceRow;
    forall g | g in gs && ServiceRow(g).Some? ensures RuleMet(t, RuleFor(gs, g), 0) {
      if ServiceRow(g) == Some(svc) {
        assert RuleHolds(t, RuleFor(gs, g), 0);
      } else {
        ServiceApart(gs, g, svc);
        WideOthers(t, svc, a, ServiceRow(g).value, Of(gs, ServiceRow(g)));
      }
    }
  }

  lemma WideTaken(rows: seq<Matcher>, t: Telemetry, g0: seq<Matcher>)
    requires Memberless(rows) && ServicesTrimmed(Groups(rows)) && g0 in Groups(rows) && ServiceRow(g0).Some?
    requires RuleHolds(t, RuleOf(ServiceRow(g0).value, Of(Groups(rows), ServiceRow(g0))), 0)
    ensures GroupsTake(t, Saved(rows), 0)
  {
    CompleteRules(rows);
    var r := RuleFor(Groups(rows), g0);
    assert r in RulesFrom(rows) && Complete(r);
    UnionMeansRules(t, RulesFrom(rows), 0);
    hide Groups, RulesFrom, GroupsTake, RuleHolds, Complete, RuleFor, ServiceRow;
    assert RuleTakes(t, r, 0);
  }

  /** Without a service left, and something asked for before: a span that has nothing. */
  lemma NothingSavedWidens(rows: seq<Matcher>) returns (t: Telemetry, s: int)
    requires Memberless(rows) && Groups(rows) != [] && !HasService(Groups(rows))
    ensures WellFormed(t) && s in t.spans
    ensures !OldQueryTakes(t, Groups(rows), true, s) && QueryTakes(t, Saved(rows), true, s)
  {
    t, s := Telemetry({0}, (c, s) => false, s => 0, map[]), 0;
    ServicelessQueryTakesAll(rows, t, true, 0);
    forall g | g in Groups(rows) ensures !GroupTakes(t, g, 0) {
      GroupsNonEmpty(rows, g);
      assert g[0] in g;
    }
    hide Groups, Saved, GroupTakes, QueryTakes;
  }

  /** Within one trace the query is kept for all telemetry, conditions being read independently, only if
      every group has a service and the groups of each service ask for the same conditions. */
  lemma AllQueryChanges(rows: seq<Matcher>) returns (t: Telemetry, s: int)
    requires Memberless(rows) && Tidy(Groups(rows)) && !ServicesUniform(Groups(rows))
    ensures WellFormed(t) && s in t.spans
    ensures OldQueryTakes(t, Groups(rows), true, s) <==> !QueryTakes(t, Saved(rows), true, s)
  {
    var gs := Groups(rows);
    TidyTrimmed(gs);
    hide Groups, Saved, Tidy, ServicesTrimmed, Uniform, NotNarrowed, QueryTakes, OldQueryTakes, GroupsTake, Of,
         ServiceRow;
    var g :| g in gs && !(ServiceRow(g).Some? && Uniform(Of(gs, ServiceRow(g))));
    if !HasService(gs) {
      t, s := NothingSavedWidens(rows);
    } else if KeepsMeaning(gs) {
      t, s := AllQueryWidens(rows, g);
    } else {
      var x :| x in gs && !(ServiceRow(x).Some? && NotNarrowed(x, Of(gs, ServiceRow(x))));
      SavedCoverIff(rows, x);
      forall h | h in Saved(rows) ensures h != [] {
        var g' := SavedComesFrom(rows, h);
        SomeServiceSomeRow(h);
      }
      forall y | y in gs ensures y != [] { GroupsNonEmpty(rows, y); }
      t, s := NarrowedQuery(gs, Saved(rows), x);
      SavedQuery(rows, t, true, s);
    }
  }

  lemma SomeServiceSomeRow(h: seq<Matcher>)
    requires ServiceRow(h).Some?
    ensures h != []
  {
  }
}
