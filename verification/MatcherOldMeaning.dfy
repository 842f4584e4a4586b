// What reading and saving rows without members does to the spans they take.
module MatcherOldMeaning {
  import opened Text
  import opened MatcherRules
  import opened MatcherRoundTrip
  import opened MatcherMeaning
  import opened MatcherOldRows

  // ---- when one list of groups takes all that another takes ----------------------------------------

  predicate HasCond(g: seq<Matcher>, c: Cond) {
    exists m :: m in g && m.cond == c
  }

  /** `h` asks for nothing that `g` does not ask for, and for the spans below if `g` does. */
  predicate Covers(h: seq<Matcher>, g: seq<Matcher>) {
    (forall m | m in h :: HasCond(g, m.cond)) && (Flagged(g) ==> Flagged(h))
  }

  predicate Covered(g: seq<Matcher>, hs: seq<seq<Matcher>>) {
    exists h :: h in hs && Covers(h, g)
  }

  lemma CoverHolds(t: Telemetry, h: seq<Matcher>, g: seq<Matcher>, s: int)
    requires Covers(h, g) && GroupHolds(t, g, s)
    ensures GroupHolds(t, h, s)
  {
  }

  lemma CoveredTaken(t: Telemetry, gs: seq<seq<Matcher>>, hs: seq<seq<Matcher>>, s: int)
    requires (forall g | g in gs :: Covered(g, hs)) && GroupsTake(t, gs, s)
    ensures GroupsTake(t, hs, s)
  {
    var g :| g in gs && GroupTakes(t, g, s);
    assert Covered(g, hs);
    var h :| h in hs && Covers(h, g);
    if GroupHolds(t, g, s) {
      CoverHolds(t, h, g, s);
    } else {
      var a :| a in t.spans && GroupHolds(t, g, a) && AtOrBelow(t, a, s);
      CoverHolds(t, h, g, a);
    }
    assert GroupTakes(t, h, s);
  }

  /** A span 0 that has exactly what `g` asks for, and a span 1 below it that has nothing. */
  function Witness(g: seq<Matcher>): Telemetry {
    Telemetry({0, 1}, (c, s) => s == 0 && HasCond(g, c), s => 0, map[1 := 0])
  }

  lemma WitnessAncestors(g: seq<Matcher>)
    ensures WellFormed(Witness(g)) && AtOrBelow(Witness(g), 0, 1)
    ensures forall a | AtOrBelow(Witness(g), a, 0) :: a == 0
  {
    var t := Witness(g);
    assert Ancestor(t, 0, 0) == Some(0) && Ancestor(t, 1, 1) == Some(0);
    forall a | AtOrBelow(t, a, 0) ensures a == 0 {
      var n: nat :| Ancestor(t, 0, n) == Some(a);
    }
  }

  lemma WitnessHolds(g: seq<Matcher>, h: seq<Matcher>)
    requires h != []
    ensures GroupHolds(Witness(g), g, 0) && !GroupHolds(Witness(g), h, 1)
    ensures GroupHolds(Witness(g), h, 0) <==> forall m | m in h :: HasCond(g, m.cond)
  {
    assert h[0] in h;
  }

  /** A group that nothing covers takes a span that the others do not. */
  lemma UncoveredLost(gs: seq<seq<Matcher>>, hs: seq<seq<Matcher>>, g: seq<Matcher>) returns (t: Telemetry, s: int)
    requires g in gs && g != [] && !Covered(g, hs) && forall h | h in hs :: h != []
    ensures WellFormed(t) && s in t.spans && GroupsTake(t, gs, s) && !GroupsTake(t, hs, s)
  {
    t := Witness(g);
    s := if Flagged(g) then 1 else 0;
    WitnessAncestors(g);
    WitnessHolds(g, g);
    assert GroupTakes(t, g, s);
    forall h | h in hs ensures !GroupTakes(t, h, s) {
      WitnessHolds(g, h);
      assert !Covers(h, g);
    }
    hide GroupHolds, AtOrBelow;
  }

  /** Both lists take the same spans, in all telemetry. */
  ghost predicate SameSpans(gs: seq<seq<Matcher>>, hs: seq<seq<Matcher>>) {
    forall t: Telemetry, s: int | WellFormed(t) && s in t.spans :: GroupsTake(t, gs, s) <==> GroupsTake(t, hs, s)
  }

  predicate CoverEachOther(gs: seq<seq<Matcher>>, hs: seq<seq<Matcher>>) {
    (forall g | g in gs :: Covered(g, hs)) && forall h | h in hs :: Covered(h, gs)
  }

  /** Comparing rows decides whether two lists of groups take the same spans. */
  lemma SameSpansIff(gs: seq<seq<Matcher>>, hs: seq<seq<Matcher>>)
    requires (forall g | g in gs :: g != []) && forall h | h in hs :: h != []
    ensures SameSpans(gs, hs) <==> CoverEachOther(gs, hs)
  {
    hide Covered, GroupsTake, WellFormed;
    if CoverEachOther(gs, hs) {
      forall t: Telemetry, s: int | WellFormed(t) && s in t.spans
        ensures GroupsTake(t, gs, s) <==> GroupsTake(t, hs, s)
      {
        if GroupsTake(t, gs, s) { CoveredTaken(t, gs, hs, s); }
        if GroupsTake(t, hs, s) { CoveredTaken(t, hs, gs, s); }
      }
    } else if g :| g in gs && !Covered(g, hs) {
      var t, s := UncoveredLost(gs, hs, g);
    } else {
      var h :| h in hs && !Covered(h, gs);
      var t, s := UncoveredLost(hs, gs, h);
    }
  }

  // ---- what saving does to the meaning -----------------------------------------------------------

  /** Trimmed and complete rows, one service row a group, and one flag a service. Groups without a
      service may be among them. */
  predicate Tidy(gs: seq<seq<Matcher>>) {
    (forall g | g in gs && ServiceRow(g).Some? :: TidyGroup(g))
    && forall g, h | g in gs && h in gs && ServiceRow(g).Some? && ServiceRow(g) == ServiceRow(h) ::
         Flagged(g) == Flagged(h)
  }

  predicate TidyGroup(g: seq<Matcher>) {
    ServiceTrimmed(g) && |ServiceConds(g)| == 1 && ValidConds(OtherConds(g)) == OtherConds(g)
  }

  /** The conditions of the group are all of its service's if one of them stands for several, and
      else it has one if any group of its service has. */
  predicate NotNarrowed(g: seq<Matcher>, mine: seq<seq<Matcher>>) {
    if Several(mine) then forall a | a in AllOthers(mine) :: a in OtherConds(g)
    else AllOthers(mine) == [] || OtherConds(g) != []
  }

  predicate KeepsMeaning(gs: seq<seq<Matcher>>) {
    forall g | g in gs :: ServiceRow(g).Some? && NotNarrowed(g, Of(gs, ServiceRow(g)))
  }

  predicate ContentCovers(x: Content, y: Content) {
    (forall c | c in x.services :: c in y.services)
    && (forall c | c in x.others :: c in y.others)
    && (y.flag ==> x.flag)
  }

  lemma {:induction false} CondsSplit(g: seq<Matcher>, c: Cond)
    ensures HasCond(g, c) <==> c in ServiceConds(g) || c in OtherConds(g)
    ensures c in ServiceConds(g) ==> c.attribute == SERVICE
    ensures c in OtherConds(g) ==> c.attribute != SERVICE
  {
    if g != [] {
      CondsSplit(g[1..], c);
      assert forall m :: m in g <==> m == g[0] || m in g[1..];
    }
  }

  lemma CoversIsContent(h: seq<Matcher>, g: seq<Matcher>)
    ensures Covers(h, g) <==> ContentCovers(ContentOf(h), ContentOf(g))
  {
    forall c ensures (HasCond(h, c) <==> c in ServiceConds(h) || c in OtherConds(h))
                  && (HasCond(g, c) <==> c in ServiceConds(g) || c in OtherConds(g)) {
      CondsSplit(h, c);
      CondsSplit(g, c);
    }
    forall c ensures (c in ServiceConds(h) || c in ServiceConds(g) ==> c.attribute == SERVICE)
                  && (c in OtherConds(h) || c in OtherConds(g) ==> c.attribute != SERVICE) {
      CondsSplit(h, c);
      CondsSplit(g, c);
    }
    hide ServiceConds, OtherConds, Flagged;
    assert (forall m | m in h :: HasCond(g, m.cond)) <==> forall c | HasCond(h, c) :: HasCond(g, c);
  }

  predicate TidyService(gs: seq<seq<Matcher>>, svc: Cond) {
    TrimmedService(svc) && ServedBy(gs, svc) && OneService(gs) && ValidOthers(gs)
    && forall g, h | g in gs && h in gs :: Flagged(g) == Flagged(h)
  }

  lemma TidyOf(gs: seq<seq<Matcher>>, g: seq<Matcher>)
    requires Tidy(gs) && g in gs && ServiceRow(g).Some?
    ensures TidyService(Of(gs, ServiceRow(g)), ServiceRow(g).value)
  {
    ServedOf(gs, g);
    assert TidyGroup(g);
    forall h | h in Of(gs, ServiceRow(g)) ensures TidyGroup(h) {}
    hide ServiceConds, OtherConds, Flagged, ValidConds, TrimmedService;
  }

  /** What the groups of a tidy service come back as. */
  lemma TidyContents(svc: Cond, gs: seq<seq<Matcher>>)
    requires TidyService(gs, svc)
    ensures var attrs, cs := AllOthers(gs), RuleContents(RuleOf(svc, gs));
            if attrs == [] || Several(gs) then cs == [Content([svc], attrs, AnyFlagged(gs))]
            else |cs| == |attrs|
                 && forall i | 0 <= i < |attrs| :: cs[i] == Content([svc], [attrs[i]], AnyFlagged(gs))
  {
    var attrs, r := AllOthers(gs), RuleOf(svc, gs);
    AllOthersValid(gs);
    AllOthersNonService(gs);
    RuleOfIs(svc, gs);
    ServiceCondOf(svc, gs);
    NonServiceWhole(attrs);
    assert ValidAttrs(r) == attrs;
    hide RuleOf, ServiceCond, ValidConds, AllOthers, Several, AnyFlagged, ServedBy, OneService, ValidOthers, Flagged;
    assert [svc] + [] == [svc];
    if attrs == [] || r.combine.All? {
      assert RuleContents(r) == [Whole(r, attrs)];
    } else {
      forall i | 0 <= i < |attrs| ensures Alts(r, attrs)[i] == Content([svc], [attrs[i]], AnyFlagged(gs)) {
        assert attrs[i] in attrs;
        OneOther(attrs[i]);
      }
    }
  }

  lemma TidyMember(svc: Cond, gs: seq<seq<Matcher>>, g: seq<Matcher>)
    requires TidyService(gs, svc) && g in gs
    ensures ContentOf(g) == Content([svc], OtherConds(g), AnyFlagged(gs))
    ensures forall a | a in OtherConds(g) :: a in AllOthers(gs)
    ensures !Several(gs) ==> |OtherConds(g)| <= 1
  {
    assert ServiceRow(g) == Some(svc);
    OnlyService(g, svc);
    SameFlag(gs, g);
    forall a | a in OtherConds(g) ensures a in AllOthers(gs) {
      AllOthersMember(gs, a);
    }
    hide OtherConds, ServiceConds, AllOthers, Flagged;
  }

  lemma ComesFromOne(svc: Cond, gs: seq<seq<Matcher>>, a: Cond) returns (g: seq<Matcher>)
    requires TidyService(gs, svc) && !Several(gs) && a in AllOthers(gs)
    ensures g in gs && ContentOf(g) == Content([svc], [a], AnyFlagged(gs))
  {
    AllOthersMember(gs, a);
    g :| g in gs && a in OtherConds(g);
    TidyMember(svc, gs, g);
    hide OtherConds, AllOthers, AnyFlagged, Several, TidyService;
    assert OtherConds(g) == [a];
  }

  /** Whatever comes back asks for at least what some group of the service asked for. */
  lemma ComesFrom(svc: Cond, gs: seq<seq<Matcher>>, c: Content) returns (g: seq<Matcher>)
    requires TidyService(gs, svc) && c in RuleContents(RuleOf(svc, gs))
    ensures g in gs && ContentCovers(ContentOf(g), c)
  {
    assert gs != [];
    hide *;
    var attrs, cs := AllOthers(gs), RuleContents(RuleOf(svc, gs));
    TidyContents(svc, gs);
    var i :| 0 <= i < |cs| && cs[i] == c;
    if attrs == [] || Several(gs) {
      g := gs[0];
      TidyMember(svc, gs, g);
      FewerCovered(svc, OtherConds(g), attrs, AnyFlagged(gs));
    } else {
      g := ComesFromOne(svc, gs, attrs[i]);
      FewerCovered(svc, [attrs[i]], [attrs[i]], AnyFlagged(gs));
    }
  }

  lemma FewerCovered(svc: Cond, few: seq<Cond>, many: seq<Cond>, flag: bool)
    requires forall a | a in few :: a in many
    ensures ContentCovers(Content([svc], few, flag), Content([svc], many, flag))
  {
  }

  lemma AltCovers(svc: Cond, attrs: seq<Cond>, others: seq<Cond>, flag: bool, cs: seq<Content>)
    requires attrs != [] && |others| <= 1 && forall a | a in others :: a in attrs
    requires |cs| == |attrs| && forall i | 0 <= i < |attrs| :: cs[i] == Content([svc], [attrs[i]], flag)
    ensures others != [] <==> exists c :: c in cs && ContentCovers(c, Content([svc], others, flag))
  {
    var g := Content([svc], others, flag);
    if others != [] {
      assert others[0] in others;
      var i :| 0 <= i < |attrs| && attrs[i] == others[0];
      assert cs[i] in cs && ContentCovers(cs[i], g);
    }
    if c :| c in cs && ContentCovers(c, g) {
      var i :| 0 <= i < |cs| && cs[i] == c;
      assert attrs[i] in c.others;
    }
  }

  lemma WholeCovers(c: Content, g: Content)
    requires c.services == g.services && c.flag == g.flag
    ensures ContentCovers(c, g) <==> forall a | a in c.others :: a in g.others
    ensures (exists x :: x in [c] && ContentCovers(x, g)) <==> ContentCovers(c, g)
  {
    assert c in [c];
  }

  /** A group is covered by what comes back of its service exactly when it is not narrowed. */
  lemma CoveredIff(svc: Cond, gs: seq<seq<Matcher>>, g: seq<Matcher>)
    requires TidyService(gs, svc) && g in gs
    ensures NotNarrowed(g, gs)
       <==> exists c :: c in RuleContents(RuleOf(svc, gs)) && ContentCovers(c, ContentOf(g))
  {
    var attrs, cs := AllOthers(gs), RuleContents(RuleOf(svc, gs));
    TidyContents(svc, gs);
    TidyMember(svc, gs, g);
    hide OtherConds, AllOthers, RuleOf, RuleContents, AnyFlagged, Several, ContentOf, ContentCovers, TidyService;
    if attrs == [] || Several(gs) {
      WholeCovers(cs[0], ContentOf(g));
    } else {
      AltCovers(svc, attrs, OtherConds(g), AnyFlagged(gs), cs);
    }
  }

  lemma InContents(gs: seq<seq<Matcher>>, c: Content)
    ensures c in Contents(gs) <==> exists g :: g in gs && ContentOf(g) == c
  {
    hide ContentOf;
    if c in Contents(gs) {
      var i :| 0 <= i < |gs| && Contents(gs)[i] == c;
      assert gs[i] in gs;
    }
    if g :| g in gs && ContentOf(g) == c {
      var i :| 0 <= i < |gs| && gs[i] == g;
      assert Contents(gs)[i] in Contents(gs);
    }
  }

  lemma TidyTrimmed(gs: seq<seq<Matcher>>)
    requires Tidy(gs)
    ensures ServicesTrimmed(gs)
  {
    forall g | g in gs ensures ServiceTrimmed(g) {
      if ServiceRow(g).Some? { assert TidyGroup(g); }
    }
  }

  /** Every saved group comes from a group of its service that asks for no more. */
  lemma SavedComesFrom(rows: seq<Matcher>, h: seq<Matcher>) returns (g: seq<Matcher>)
    requires Memberless(rows) && Tidy(Groups(rows)) && h in Saved(rows)
    ensures g in Groups(rows) && Covers(g, h) && ServiceRow(h).Some?
  {
    var gs, svc := Groups(rows), ServiceRow(h);
    TidyTrimmed(gs);
    hide Groups, Saved, RuleContents, RuleOf, ContentCovers, Covers, Tidy, ServicesTrimmed, ServiceRow;
    SavedOf(rows, svc);
    assert h in Of(Saved(rows), svc);
    InContents(Of(Saved(rows), svc), ContentOf(h));
    var mine := Of(gs, svc);
    assert mine[0] in mine;
    TidyOf(gs, mine[0]);
    g := ComesFrom(svc.value, mine, ContentOf(h));
    CoversIsContent(g, h);
  }

  lemma CoverHasService(h: seq<Matcher>, g: seq<Matcher>)
    requires Covers(h, g) && ServiceRow(h).Some?
    ensures ServiceRow(g).Some?
  {
    CoversIsContent(h, g);
    ServiceRowFirst(h);
    ServiceRowFirst(g);
    hide ServiceRow, ServiceConds, OtherConds, Flagged, Covers;
    assert ServiceConds(h)[0] in ServiceConds(h);
  }

  /** A group is covered by the saved groups exactly when it has a service and is not narrowed. */
  lemma SavedCoverIff(rows: seq<Matcher>, g: seq<Matcher>)
    requires Memberless(rows) && Tidy(Groups(rows)) && g in Groups(rows)
    ensures Covered(g, Saved(rows)) <==> ServiceRow(g).Some? && NotNarrowed(g, Of(Groups(rows), ServiceRow(g)))
  {
    if ServiceRow(g).Some? {
      ServicedCoverIff(rows, g);
    } else if h :| h in Saved(rows) && Covers(h, g) {
      var g' := SavedComesFrom(rows, h);
      CoverHasService(h, g);
    }
  }

  lemma OneServiceRow(gs: seq<seq<Matcher>>, g: seq<Matcher>)
    requires Tidy(gs) && g in gs && ServiceRow(g).Some?
    ensures |ServiceConds(g)| == 1
  {
    assert TidyGroup(g);
  }

  lemma SameServiceCovers(h: seq<Matcher>, g: seq<Matcher>)
    requires ContentCovers(ContentOf(h), ContentOf(g)) && ServiceRow(h).Some? && |ServiceConds(g)| == 1
    ensures ServiceRow(h) == ServiceRow(g)
  {
    ServiceRowFirst(h);
    ServiceRowFirst(g);
    hide ServiceRow, ServiceConds, OtherConds, Flagged;
    assert ServiceConds(h)[0] in ServiceConds(h);
  }

  lemma ServicedCoverIff(rows: seq<Matcher>, g: seq<Matcher>)
    requires Memberless(rows) && Tidy(Groups(rows)) && g in Groups(rows) && ServiceRow(g).Some?
    ensures Covered(g, Saved(rows)) <==> NotNarrowed(g, Of(Groups(rows), ServiceRow(g)))
  {
    var gs, svc := Groups(rows), ServiceRow(g);
    var mine := Of(gs, svc);
    TidyTrimmed(gs);
    hide Groups, Saved, RuleContents, RuleOf, ContentCovers, Covers, Tidy, ServicesTrimmed, ServiceRow, NotNarrowed;
    assert g in mine;
    TidyOf(gs, g);
    SavedOf(rows, svc);
    CoveredIff(svc.value, mine, g);
    if NotNarrowed(g, mine) {
      var c :| c in RuleContents(RuleOf(svc.value, mine)) && ContentCovers(c, ContentOf(g));
      InContents(Of(Saved(rows), svc), c);
      var h :| h in Of(Saved(rows), svc) && ContentOf(h) == c;
      CoversIsContent(h, g);
      assert h in Saved(rows);
    }
    if h :| h in Saved(rows) && Covers(h, g) {
      var g' := SavedComesFrom(rows, h);
      CoversIsContent(h, g);
      OneServiceRow(gs, g);
      SameServiceCovers(h, g);
      assert h in Of(Saved(rows), svc);
      InContents(Of(Saved(rows), svc), ContentOf(h));
    }
  }

  /** Saving never widens the union of tidy rows' groups: a span that the saved groups take was taken
      before. The query that joins groups within one trace is compared in MatcherOldQuery. */
  lemma SavingNarrows(rows: seq<Matcher>, t: Telemetry, s: int)
    requires Memberless(rows) && Tidy(Groups(rows)) && GroupsTake(t, Saved(rows), s)
    ensures GroupsTake(t, Groups(rows), s)
  {
    hide Groups, Saved, Tidy, GroupsTake;
    forall h | h in Saved(rows) ensures Covered(h, Groups(rows)) {
      var g := SavedComesFrom(rows, h);
    }
    CoveredTaken(t, Saved(rows), Groups(rows), s);
  }

  /** Saving keeps what the union of tidy rows' groups takes, for all telemetry, if every group has a
      service and is not narrowed. */
  lemma SavingKeepsMeaning(rows: seq<Matcher>, t: Telemetry, s: int)
    requires Memberless(rows) && Tidy(Groups(rows)) && KeepsMeaning(Groups(rows))
    ensures GroupsTake(t, Groups(rows), s) <==> GroupsTake(t, Saved(rows), s)
  {
    hide Groups, Saved, Tidy, GroupsTake, NotNarrowed;
    if GroupsTake(t, Saved(rows), s) {
      SavingNarrows(rows, t, s);
    }
    if GroupsTake(t, Groups(rows), s) {
      forall g | g in Groups(rows) ensures Covered(g, Saved(rows)) {
        SavedCoverIff(rows, g);
      }
      CoveredTaken(t, Groups(rows), Saved(rows), s);
    }
  }

  /** And only then, for conditions that are read independently: else there is telemetry with a span that
      the rows take and the saved rows do not. Conditions of which one implies another may hide the loss. */
  lemma SavingLosesSpans(rows: seq<Matcher>) returns (t: Telemetry, s: int)
    requires Memberless(rows) && Tidy(Groups(rows)) && !KeepsMeaning(Groups(rows))
    ensures WellFormed(t) && s in t.spans && GroupsTake(t, Groups(rows), s) && !GroupsTake(t, Saved(rows), s)
  {
    hide Groups, Saved, Tidy, GroupsTake, NotNarrowed, Covers;
    var g :| g in Groups(rows) && !(ServiceRow(g).Some? && NotNarrowed(g, Of(Groups(rows), ServiceRow(g))));
    SavedCoverIff(rows, g);
    forall h | h in Saved(rows) ensures h != [] {
      var g' := SavedComesFrom(rows, h);
    }
    GroupsNonEmpty(rows, g);
    t, s := UncoveredLost(Groups(rows), Saved(rows), g);
  }

  lemma GroupsNonEmpty(rows: seq<Matcher>, g: seq<Matcher>)
    requires g in Groups(rows)
    ensures g != []
  {
    var i :| 0 <= i < |Groups(rows)| && Groups(rows)[i] == g;
    var id := Ids(rows)[i];
    assert id in Ids(rows);
    var m :| m in rows && m.group == id;
    RowsOfHas(rows, m);
    hide RowsOf, Ids;
  }

  lemma {:induction false} RowsOfHas(rows: seq<Matcher>, m: Matcher)
    requires m in rows
    ensures m in RowsOf(rows, m.group)
  {
    if m != rows[0] {
      RowsOfHas(rows[1..], m);
    }
  }

  /** Whatever groups the rows have: mixed flags, several services in one, incomplete conditions. Their
      union takes the spans of the saved groups' union in all telemetry, conditions being read
      independently, exactly when each group of either list is covered by one of the other. */
  lemma SavedSameSpansIff(rows: seq<Matcher>)
    ensures SameSpans(Groups(rows), Saved(rows)) <==> CoverEachOther(Groups(rows), Saved(rows))
  {
    var gs, hs := Groups(rows), Saved(rows);
    forall g | g in gs ensures g != [] { GroupsNonEmpty(rows, g); }
    forall h | h in hs ensures h != [] { GroupsNonEmpty(Rows(RulesFrom(rows)), h); }
    hide Groups, Saved;
    SameSpansIff(gs, hs);
  }

  // ---- two groups of one service, with different conditions ---------------------------------------

  function OldRow(cond: Cond, group: int): Matcher {
    Matcher(cond, group, false, None)
  }

  lemma {:induction false} OldConds(attrs: seq<Cond>, g: seq<Matcher>, group: int)
    requires forall a | a in attrs :: a.attribute != SERVICE
    requires |g| == |attrs| && forall i | 0 <= i < |attrs| :: g[i] == OldRow(attrs[i], group)
    ensures OtherConds(g) == attrs
  {
    if attrs != [] {
      assert attrs[0] in attrs;
      OldConds(attrs[1..], g[1..], group);
      assert attrs == [attrs[0]] + attrs[1..];
    }
  }

  lemma OldGroupRead(svc: Cond, attrs: seq<Cond>, g: seq<Matcher>, group: int)
    requires svc.attribute == SERVICE && forall a | a in attrs :: a.attribute != SERVICE
    requires |g| == |attrs| + 1 && g[0] == OldRow(svc, group)
    requires forall i | 0 <= i < |attrs| :: g[i + 1] == OldRow(attrs[i], group)
    ensures ServiceRow(g) == Some(svc) && OtherConds(g) == attrs && MemberOf(g) == None && !Flagged(g)
  {
    OldConds(attrs, g[1..], group);
    assert [] + OtherConds(g[1..]) == OtherConds(g[1..]);
    MemberlessRead(g);
  }

  lemma OldPairRead(svc: Cond, xs: seq<Cond>, ys: seq<Cond>, g0: seq<Matcher>, g1: seq<Matcher>)
    requires svc.attribute == SERVICE
    requires ServiceRow(g0) == ServiceRow(g1) == Some(svc) && MemberOf(g0) == MemberOf(g1) == None
    requires OtherConds(g0) == xs && OtherConds(g1) == ys && !Flagged(g0) && !Flagged(g1)
    requires |xs| <= 1
    ensures ReadAll(NOTHING, [g0, g1])
         == Reading([] + [ByService(svc.op, svc.value)],
                    map[][ByService(svc.op, svc.value) :=
                            Rule(svc.op, svc.value, if |ys| > 1 then All else Any, xs + ys, false)], [])
  {
    var key := ByService(svc.op, svc.value);
    var first := Reading([] + [key], map[][key := Rule(svc.op, svc.value, Any, xs, false)], []);
    hide ServiceRow, OtherConds, MemberOf, Flagged, ReadAll;
    assert [] + xs == xs;
    assert ReadGroup(NOTHING, g0) == first;
    ReadCons(NOTHING, g0, [g1]);
    ReadCons(first, g1, []);
    assert [g0] + [g1] == [g0, g1];
  }

  lemma OldPair(svc: Cond, xs: seq<Cond>, ys: seq<Cond>, g0: seq<Matcher>, g1: seq<Matcher>)
    requires svc.attribute == SERVICE && GroupIs(g0, 0) && GroupIs(g1, 1)
    requires ServiceRow(g0) == ServiceRow(g1) == Some(svc) && MemberOf(g0) == MemberOf(g1) == None
    requires OtherConds(g0) == xs && OtherConds(g1) == ys && !Flagged(g0) && !Flagged(g1)
    requires |xs| <= 1
    ensures RulesFrom(Flatten([g0, g1])) == [Rule(svc.op, svc.value, if |ys| > 1 then All else Any, xs + ys, false)]
  {
    var rule := Rule(svc.op, svc.value, if |ys| > 1 then All else Any, xs + ys, false);
    var key := ByService(svc.op, svc.value);
    GroupsOfFlatten([g0, g1], 0);
    OldPairRead(svc, xs, ys, g0, g1);
    RuleListAppend([], map[], key, rule);
    hide Groups, Flatten, ReadAll, ServiceRow, OtherConds, MemberOf, Flagged;
    assert RuleList([], map[]) == [];
    assert [] + [key] == [key] && [rule] + [] == [rule];
  }

  /** "a, or b and c" of one service comes back as "a and b and c". */
  lemma OldAlternativesMerge(svc: Cond, a: Cond, b: Cond, c: Cond)
    requires svc.attribute == SERVICE
    requires a.attribute != SERVICE && b.attribute != SERVICE && c.attribute != SERVICE
    ensures RulesFrom(Flatten([[OldRow(svc, 0), OldRow(a, 0)], [OldRow(svc, 1), OldRow(b, 1), OldRow(c, 1)]]))
         == [Rule(svc.op, svc.value, All, [a, b, c], false)]
  {
    var g0, g1 := [OldRow(svc, 0), OldRow(a, 0)], [OldRow(svc, 1), OldRow(b, 1), OldRow(c, 1)];
    OldGroupRead(svc, [a], g0, 0);
    OldGroupRead(svc, [b, c], g1, 1);
    assert [a] + [b, c] == [a, b, c];
    hide ServiceRow, OtherConds, MemberOf, Flagged, RulesFrom, Flatten;
    OldPair(svc, [a], [b, c], g0, g1);
  }

  /** "the service, or the service with a" comes back as "the service with a". */
  lemma BareAlternativeLost(svc: Cond, a: Cond)
    requires svc.attribute == SERVICE && a.attribute != SERVICE
    ensures RulesFrom(Flatten([[OldRow(svc, 0)], [OldRow(svc, 1), OldRow(a, 1)]]))
         == [Rule(svc.op, svc.value, Any, [a], false)]
  {
    var g0, g1 := [OldRow(svc, 0)], [OldRow(svc, 1), OldRow(a, 1)];
    OldGroupRead(svc, [], g0, 0);
    OldGroupRead(svc, [a], g1, 1);
    assert [] + [a] == [a];
    hide ServiceRow, OtherConds, MemberOf, Flagged, RulesFrom, Flatten;
    OldPair(svc, [], [a], g0, g1);
  }
}
