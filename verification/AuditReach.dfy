// The tables that runs reach, with any clock at all: what the conditions of AuditTamper
// and AuditPrune say of them.
module AuditReach {
  import opened Text
  import opened Framing
  import CanonicalJson
  import opened AuditChain
  import opened AuditRuns
  import opened AuditTamper
  import opened AuditPrune

  /** The payload column keeps its document up to order, and a prune cuts off a front of the
      organization's rows. Nothing is asked of the stamps themselves. */
  ghost predicate CutsFront(env: Env, w: World, ev: Event) {
    match ev
    case Recorded(e, stored, _) =>
      CanonicalJson.Reordered(env.codec, CanonicalJson.CanonicalTree(env.codec, e.metadata), stored)
    case Pruned(org, cutoff) => PrefixCut(OrgRows(w.db.rows, org), cutoff)
    case RolledBack => true
  }

  ghost predicate CutsFronts(env: Env, w: World, evs: seq<Event>)
    decreases |evs|
  {
    evs == [] || (CutsFront(env, w, evs[0]) && CutsFronts(env, Step(env, w, evs[0]), evs[1..]))
  }

  ghost predicate Linked(env: Env, w: World) {
    forall org :: OrgLinked(env, w, org)
  }

  lemma StepKeepsLinked(env: Env, w: World, ev: Event)
    requires CanonicalJson.StableNumbers(env.codec)
    requires Linked(env, w) && CutsFront(env, w, ev)
    ensures Linked(env, Step(env, w, ev))
  {
    var w' := Step(env, w, ev);
    forall org ensures OrgLinked(env, w', org) {
      assert OrgLinked(env, w, org);
      hide OrgLinked;
      match ev {
        case Recorded(e, stored, now) =>
          NewRowIntact(env, w.db, e, stored, now);
          RecordKeepsLinked(env, w, w', NewRow(env, w.db, e, stored, now), org);
        case Pruned(o, cutoff) =>
          if o == org {
            var n := PruneKeepsLinked(env, w, w', org, cutoff);
          } else {
            PruneKeepsOthers(env, w, o, cutoff, org);
          }
        case RolledBack =>
      }
    }
  }

  lemma {:induction false} RunKeepsLinked(env: Env, w: World, evs: seq<Event>)
    requires CanonicalJson.StableNumbers(env.codec)
    requires Linked(env, w) && CutsFronts(env, w, evs)
    ensures Linked(env, Run(env, w, evs))
    decreases |evs|
  {
    hide Linked, Step, CutsFront;
    if evs != [] {
      StepKeepsLinked(env, w, evs[0]);
      RunKeepsLinked(env, Step(env, w, evs[0]), evs[1..]);
    }
  }

  /** Safety without a clock: from any database of legacy rows, after any run whose prunes each cut
      off a front, a check of any organization answers OK - however the stamps raced. */
  lemma ChainSafeWithoutClock(env: Env, db: Db, evs: seq<Event>, org: string)
    requires CanonicalJson.StableNumbers(env.codec)
    requires AllLegacy(db) && CutsFronts(env, World(db, db.rows), evs)
    ensures var w := Run(env, World(db, db.rows), evs);
            var res := Check(env, Seed(w.db, org), OrgRows(w.db.rows, org));
            res.ok && res.checked + res.legacy == |OrgRows(w.db.rows, org)|
  {
    var w0 := World(db, db.rows);
    forall o ensures OrgLinked(env, w0, o) {
      LegacyLinked(env, db, o);
    }
    RunKeepsLinked(env, w0, evs);
    assert OrgLinked(env, Run(env, w0, evs), org);
    LinkedVerifies(env, Run(env, w0, evs), org);
    hide Run;
  }

  // ---- legacy rows come first -----------------------------------------------------------

  ghost predicate HistoriesLegacyFirst(w: World) {
    forall org :: LegacyFirst(OrgRows(w.all, org))
  }

  lemma LegacyFirstSnoc(rows: seq<Row>, r: Row)
    requires LegacyFirst(rows) && r.hash != ""
    ensures LegacyFirst(rows + [r])
  {
  }

  lemma StepLegacyFirst(env: Env, w: World, ev: Event)
    requires HexDigest(env.sha) && HistoriesLegacyFirst(w)
    ensures HistoriesLegacyFirst(Step(env, w, ev))
  {
    if ev.Recorded? {
      var r := NewRow(env, w.db, ev.entry, ev.stored, ev.now);
      assert |r.hash| == 64;
      hide NewRow, HexDigest, LegacyFirst;
      forall org ensures LegacyFirst(OrgRows(w.all + [r], org)) {
        OrgRowsAppend(w.all, [r], org);
        OrgRowsOfOne(r, org);
        assert OrgRows(w.all, org) + [] == OrgRows(w.all, org);
        LegacyFirstSnoc(OrgRows(w.all, org), r);
      }
    }
  }

  /** Over every run whatsoever, each organization's legacy rows come before its hashed rows. */
  lemma {:induction false} RunLegacyFirst(env: Env, w: World, evs: seq<Event>)
    requires HexDigest(env.sha) && HistoriesLegacyFirst(w)
    ensures HistoriesLegacyFirst(Run(env, w, evs))
    decreases |evs|
  {
    hide HistoriesLegacyFirst, Step, HexDigest;
    if evs != [] {
      StepLegacyFirst(env, w, evs[0]);
      RunLegacyFirst(env, Step(env, w, evs[0]), evs[1..]);
    }
  }

  lemma AllLegacyFirst(db: Db)
    requires AllLegacy(db)
    ensures HistoriesLegacyFirst(World(db, db.rows))
  {
    forall org ensures LegacyFirst(OrgRows(db.rows, org)) {
      OrgRowsAreOfOrg(db.rows, org);
    }
  }

  lemma LegacyFirstSuffix(history: seq<Row>, c: nat)
    requires c <= |history| && LegacyFirst(history)
    ensures LegacyFirst(history[c..])
  {
  }

  /** What every reachable table satisfies: the organization's rows are intact after their seed, its
      legacy rows come first, and its hashes are distinct and differ from the seed. */
  lemma ReachableTables(env: Env, db: Db, evs: seq<Event>, org: string)
    requires HexDigest(env.sha) && CanonicalJson.StableNumbers(env.codec)
    requires AllLegacy(db) && CutsFronts(env, World(db, db.rows), evs)
    requires var history := OrgRows(Run(env, World(db, db.rows), evs).all, org); NoCollision(env, history, history)
    ensures var w := Run(env, World(db, db.rows), evs);
            var rows, seed := OrgRows(w.db.rows, org), Seed(w.db, org);
            Intact(env, seed, rows) && LegacyFirst(rows) && Fresh(seed, rows)
  {
    var w0 := World(db, db.rows);
    var w := Run(env, w0, evs);
    forall o ensures OrgLinked(env, w0, o) {
      LegacyLinked(env, db, o);
    }
    RunKeepsLinked(env, w0, evs);
    AllLegacyFirst(db);
    RunLegacyFirst(env, w0, evs);
    hide Run, HexDigest, Fresh, LegacyFirst;
    assert OrgLinked(env, w, org);
    LinkedVerifies(env, w, org);
    var history := OrgRows(w.all, org);
    var c: nat :| SuffixOf(w.db, org, history, c);
    ChainFresh(env, history, c);
    LegacyFirstSuffix(history, c);
    assert Seed(w.db, org) == Predecessor("", history, c);
  }

  /** The next prune, whatever the stamps: it leaves a log that checks if and only if it cuts off a
      front, or a surviving legacy row shields it. So the first prune that does neither is the one
      after which a log nobody touched is reported. */
  lemma NextPruneChecksIff(env: Env, db: Db, evs: seq<Event>, org: string, cutoff: int)
    requires HexDigest(env.sha) && CanonicalJson.StableNumbers(env.codec)
    requires AllLegacy(db) && CutsFronts(env, World(db, db.rows), evs)
    requires var history := OrgRows(Run(env, World(db, db.rows), evs).all, org); NoCollision(env, history, history)
    ensures var w := Run(env, World(db, db.rows), evs);
            var rows, db' := OrgRows(w.db.rows, org), PruneStep(w.db, org, cutoff);
            Check(env, Seed(db', org), OrgRows(db'.rows, org)).ok
            <==> PrefixCut(rows, cutoff) || LegacyShieldedCut(rows, cutoff)
  {
    ReachableTables(env, db, evs, org);
    PrunedTablesCheckIff(env, Run(env, World(db, db.rows), evs).db, org, cutoff);
  }

  // ---- whole runs, with any prunes ---------------------------------------------------------

  /** The payload columns keep their documents, up to order. Nothing else is asked of a run. */
  ghost predicate PayloadsKept(env: Env, evs: seq<Event>) {
    forall i | 0 <= i < |evs| && evs[i].Recorded? ::
      CanonicalJson.Reordered(env.codec, CanonicalJson.CanonicalTree(env.codec, evs[i].entry.metadata), evs[i].stored)
  }

  /** The prune cuts off a front of the organization's rows, or a surviving legacy row shields it. */
  predicate PruneFits(db: Db, org: string, cutoff: int) {
    PrefixCut(OrgRows(db.rows, org), cutoff) || LegacyShieldedCut(OrgRows(db.rows, org), cutoff)
  }

  /** Every prune of the organization fits when it happens. */
  predicate PrunesFit(env: Env, w: World, evs: seq<Event>, org: string)
    decreases |evs|
  {
    evs == []
    || ((evs[0].Pruned? && evs[0].org == org ==> PruneFits(w.db, org, evs[0].cutoff))
        && PrunesFit(env, Step(env, w, evs[0]), evs[1..], org))
  }

  ghost predicate CheckedOk(env: Env, w: World, org: string) {
    Check(env, Seed(w.db, org), OrgRows(w.db.rows, org)).ok
  }

  /** A check of the organization answers OK before the run, after it and at every point of it. */
  ghost predicate AlwaysOk(env: Env, w: World, evs: seq<Event>, org: string)
    decreases |evs|
  {
    CheckedOk(env, w, org) && (evs == [] || AlwaysOk(env, Step(env, w, evs[0]), evs[1..], org))
  }

  /** The organization's rows are the end of a chain of recorded rows that starts from nothing, and the
      seed is the hash before them or has a legacy row after it, which makes it irrelevant. */
  ghost predicate StandsOn(env: Env, w: World, org: string, h: seq<Row>, c: nat) {
    c <= |h| && OrgRows(w.db.rows, org) == h[c..]
    && Intact(env, "", h) && LegacyFirst(h) && Within(h, OrgRows(w.all, org))
    && (Seed(w.db, org) == Predecessor("", h, c) || (c < |h| && h[c].hash == ""))
  }

  predicate Within(xs: seq<Row>, ys: seq<Row>) {
    forall x | x in xs :: x in ys
  }

  ghost predicate Stands(env: Env, w: World, org: string) {
    exists h: seq<Row>, c: nat :: StandsOn(env, w, org, h, c)
  }

  lemma LegacyFrontIntact(env: Env, p: string, q: string, rows: seq<Row>)
    requires rows != [] && rows[0].hash == "" && Intact(env, p, rows)
    ensures Intact(env, q, rows)
  {
    assert rows == [rows[0]] + rows[1..];
    IntactCons(env, p, rows[0], rows[1..]);
    IntactCons(env, q, rows[0], rows[1..]);
  }

  lemma CollisionFreeWithin(env: Env, xs: seq<Row>, ys: seq<Row>)
    requires NoCollision(env, ys, ys) && Within(xs, ys)
    ensures NoCollision(env, xs, xs)
  {
    hide RowHash, RowParts, Frame;
  }

  /** What holds wherever the rows stand on a chain. */
  lemma StandingTables(env: Env, w: World, org: string)
    requires HexDigest(env.sha) && Stands(env, w, org)
    requires NoCollision(env, OrgRows(w.all, org), OrgRows(w.all, org))
    ensures var rows, seed := OrgRows(w.db.rows, org), Seed(w.db, org);
            Intact(env, seed, rows) && LegacyFirst(rows) && Fresh(seed, rows)
  {
    hide HexDigest, NoCollision, Intact, Predecessor;
    var h, c: nat :| StandsOn(env, w, org, h, c);
    CollisionFreeWithin(env, h, OrgRows(w.all, org));
    ChainFresh(env, h, c);
    LegacyFirstSuffix(h, c);
    IntactDrop(env, "", h, c);
    if Seed(w.db, org) != Predecessor("", h, c) {
      LegacyFrontIntact(env, Predecessor("", h, c), Seed(w.db, org), h[c..]);
    }
  }

  lemma StandsOwnRow(env: Env, w: World, w': World, r: Row, org: string)
    requires Stands(env, w, org) && r.who.org == org && r.hash != ""
    requires w'.db.rows == w.db.rows + [r] && w'.db.anchors == w.db.anchors && w'.all == w.all + [r]
    requires RowIntact(env, ChainHead(w.db, org), r)
    ensures Stands(env, w', org)
  {
    OrgRowsAppend(w.db.rows, [r], org);
    OrgRowsAppend(w.all, [r], org);
    OrgRowsOfOne(r, org);
    hide RowIntact, Intact, LegacyFirst, OrgRows, ChainHead;
    var h, c: nat :| StandsOn(env, w, org, h, c);
    HeadOf(env, w, org, h, c);
    IntactAppend(env, "", h, r);
    LegacyFirstSnoc(h, r);
    assert (h + [r])[c..] == h[c..] + [r];
    PredecessorSnoc(h, r, c);
    hide Predecessor;
    assert StandsOn(env, w', org, h + [r], c);
  }

  lemma StandsOtherRow(env: Env, w: World, w': World, r: Row, org: string)
    requires Stands(env, w, org) && r.who.org != org
    requires w'.db.rows == w.db.rows + [r] && w'.db.anchors == w.db.anchors && w'.all == w.all + [r]
    ensures Stands(env, w', org)
  {
    OrgRowsAppend(w.db.rows, [r], org);
    OrgRowsAppend(w.all, [r], org);
    OrgRowsOfOne(r, org);
    hide Intact, LegacyFirst, OrgRows, Predecessor;
    assert OrgRows(w.db.rows, org) + [] == OrgRows(w.db.rows, org);
    assert OrgRows(w.all, org) + [] == OrgRows(w.all, org);
    var h, c: nat :| StandsOn(env, w, org, h, c);
    assert StandsOn(env, w', org, h, c);
  }

  lemma StandsRecord(env: Env, w: World, e: Entry, stored: CanonicalJson.Tree, now: int, org: string)
    requires HexDigest(env.sha) && CanonicalJson.StableNumbers(env.codec)
    requires CanonicalJson.Reordered(env.codec, CanonicalJson.CanonicalTree(env.codec, e.metadata), stored)
    requires Stands(env, w, org)
    ensures Stands(env, Step(env, w, Recorded(e, stored, now)), org)
  {
    var r, w' := NewRow(env, w.db, e, stored, now), Step(env, w, Recorded(e, stored, now));
    NewRowIntact(env, w.db, e, stored, now);
    assert r.hash != "" && r.who == e.who by { assert |r.hash| == 64; }
    hide NewRow, HexDigest, RowIntact, Stands, ChainHead;
    if e.who.org == org {
      StandsOwnRow(env, w, w', r, org);
    } else {
      StandsOtherRow(env, w, w', r, org);
    }
  }

  lemma PredecessorSnoc(h: seq<Row>, r: Row, c: nat)
    requires c <= |h|
    ensures Predecessor("", h + [r], c) == Predecessor("", h, c)
    ensures c < |h| ==> (h + [r])[c] == h[c]
  {
  }

  lemma HeadOf(env: Env, w: World, org: string, h: seq<Row>, c: nat)
    requires StandsOn(env, w, org, h, c)
    ensures ChainHead(w.db, org) == Predecessor("", h, |h|)
  {
    hide Intact, LegacyFirst;
    var rows := OrgRows(w.db.rows, org);
    if c < |h| {
      assert rows[|rows| - 1] == h[|h| - 1];
    }
  }

  lemma StandsFrontCut(env: Env, w: World, org: string, cutoff: int)
    requires Stands(env, w, org) && PrefixCut(OrgRows(w.db.rows, org), cutoff)
    ensures Stands(env, Step(env, w, Pruned(org, cutoff)), org)
  {
    hide Intact, LegacyFirst, PrefixCut, PruneStep, Older, Newer;
    var h, c: nat :| StandsOn(env, w, org, h, c);
    var rows, w' := OrgRows(w.db.rows, org), Step(env, w, Pruned(org, cutoff));
    var n := PrefixCutSplits(rows, cutoff);
    PruneStepShape(w.db, org, cutoff, rows, n);
    assert h[c..][n..] == h[c + n..];
    if n > 0 {
      assert rows[n - 1] == h[c + n - 1];
    }
    assert StandsOn(env, w', org, h, c + n);
  }

  lemma {:induction false} NewerLegacyFirst(rows: seq<Row>, cutoff: int)
    requires LegacyFirst(rows)
    ensures LegacyFirst(Newer(rows, cutoff))
  {
    if rows != [] {
      LegacyFirstSuffix(rows, 1);
      NewerLegacyFirst(rows[1..], cutoff);
      NewerOf(rows[1..], cutoff);
      LegacyFirstCons(rows[0], rows[1..], Newer(rows[1..], cutoff));
      hide LegacyFirst;
      assert rows == [rows[0]] + rows[1..];
      assert [] + Newer(rows[1..], cutoff) == Newer(rows[1..], cutoff);
    }
  }

  lemma LegacyFirstCons(r: Row, rest: seq<Row>, some: seq<Row>)
    requires LegacyFirst([r] + rest) && LegacyFirst(some) && forall k | 0 <= k < |some| :: some[k] in rest
    ensures LegacyFirst([r] + some)
  {
    var all := [r] + some;
    forall i, j | 0 <= i < j < |all| && all[j].hash == "" ensures all[i].hash == "" {
      assert some[j - 1] in rest;
      var m :| 0 <= m < |rest| && rest[m] == some[j - 1];
      assert ([r] + rest)[m + 1].hash == "" && ([r] + rest)[0] == r;
      if i > 0 { assert some[i - 1].hash == ""; }
    }
  }

  /** The first row that survives a shielded cut is a legacy row. */
  lemma ShieldInFront(rows: seq<Row>, cutoff: int)
    requires LegacyFirst(rows) && LegacyShieldedCut(rows, cutoff)
    ensures Newer(rows, cutoff) != [] && Newer(rows, cutoff)[0].hash == ""
  {
    var i :| 0 <= i < |rows| && rows[i].hash == "" && cutoff <= rows[i].at;
    var f := FirstSurvivor(rows, cutoff);
    assert f <= i;
  }

  lemma StandsShielded(env: Env, w: World, org: string, cutoff: int)
    requires HexDigest(env.sha) && Stands(env, w, org)
    requires NoCollision(env, OrgRows(w.all, org), OrgRows(w.all, org))
    requires LegacyShieldedCut(OrgRows(w.db.rows, org), cutoff)
    ensures Stands(env, Step(env, w, Pruned(org, cutoff)), org)
  {
    var rows, w' := OrgRows(w.db.rows, org), Step(env, w, Pruned(org, cutoff));
    var left := Newer(rows, cutoff);
    StandingTables(env, w, org);
    PruneKeepsChainIff(env, Seed(w.db, org), rows, cutoff);
    SeedAfterPrune(w.db, org, cutoff);
    ShieldInFront(rows, cutoff);
    NewerLegacyFirst(rows, cutoff);
    RowsWithin(env, w, org);
    NewerWithin(rows, cutoff, OrgRows(w.all, org));
    hide Intact, LegacyFirst, LegacyShieldedCut, PruneStep, HexDigest, NoCollision, Newer, OrgRows, Seed, Within;
    LegacyFrontIntact(env, SeedAfter(Seed(w.db, org), rows, cutoff), "", left);
    assert left[0..] == left;
    assert StandsOn(env, w', org, left, 0);
  }

  lemma RowsWithin(env: Env, w: World, org: string)
    requires Stands(env, w, org)
    ensures Within(OrgRows(w.db.rows, org), OrgRows(w.all, org))
  {
    hide Intact, LegacyFirst;
    var h, c: nat :| StandsOn(env, w, org, h, c);
    assert forall x | x in h[c..] :: x in h;
  }

  lemma NewerWithin(rows: seq<Row>, cutoff: int, all: seq<Row>)
    requires Within(rows, all)
    ensures Within(Newer(rows, cutoff), all)
  {
    NewerOf(rows, cutoff);
    var left := Newer(rows, cutoff);
    forall x | x in left ensures x in all {
      var k :| 0 <= k < |left| && left[k] == x;
    }
  }

  lemma StandsOtherPrune(env: Env, w: World, o: string, cutoff: int, org: string)
    requires o != org && Stands(env, w, org)
    ensures Stands(env, Step(env, w, Pruned(o, cutoff)), org)
  {
    hide Intact, LegacyFirst;
    var h, c: nat :| StandsOn(env, w, org, h, c);
    OrgRowsOfDelete(w.db.rows, o, cutoff, org);
    assert StandsOn(env, Step(env, w, Pruned(o, cutoff)), org, h, c);
  }

  lemma {:induction false} AllGrows(env: Env, w: World, evs: seq<Event>, org: string)
    ensures Within(OrgRows(w.all, org), OrgRows(Run(env, w, evs).all, org))
    decreases |evs|
  {
    if evs != [] {
      var w' := Step(env, w, evs[0]);
      AllGrows(env, w', evs[1..], org);
      if evs[0].Recorded? {
        OrgRowsAppend(w.all, [NewRow(env, w.db, evs[0].entry, evs[0].stored, evs[0].now)], org);
      }
      hide NewRow, OrgRows;
    }
  }

  /** One step after which the rows still stand on a chain. */
  lemma StandsStep(env: Env, w: World, ev: Event, org: string)
    requires HexDigest(env.sha) && CanonicalJson.StableNumbers(env.codec) && Stands(env, w, org)
    requires NoCollision(env, OrgRows(w.all, org), OrgRows(w.all, org)) && PayloadsKept(env, [ev])
    requires ev.Pruned? && ev.org == org ==> PruneFits(w.db, org, ev.cutoff)
    ensures Stands(env, Step(env, w, ev), org)
  {
    assert ev == [ev][0];
    hide Stands, HexDigest, NoCollision, Step, PrefixCut, LegacyShieldedCut;
    match ev {
      case Recorded(e, stored, now) => StandsRecord(env, w, e, stored, now, org);
      case Pruned(o, cutoff) =>
        if o != org {
          StandsOtherPrune(env, w, o, cutoff, org);
        } else if PrefixCut(OrgRows(w.db.rows, org), cutoff) {
          StandsFrontCut(env, w, org, cutoff);
        } else {
          StandsShielded(env, w, org, cutoff);
        }
      case RolledBack => StandsRolledBack(env, w, org);
    }
  }

  lemma StandsRolledBack(env: Env, w: World, org: string)
    requires Stands(env, w, org)
    ensures Stands(env, Step(env, w, RolledBack), org)
  {
    hide Stands;
  }

  lemma StandingOk(env: Env, w: World, org: string)
    requires HexDigest(env.sha) && Stands(env, w, org)
    requires NoCollision(env, OrgRows(w.all, org), OrgRows(w.all, org))
    ensures CheckedOk(env, w, org)
  {
    StandingTables(env, w, org);
    CheckOk(env, Seed(w.db, org), OrgRows(w.db.rows, org));
    hide Intact;
  }

  /** A prune that does not fit is what a check reports. */
  lemma UnfitPruneReported(env: Env, w: World, org: string, cutoff: int)
    requires HexDigest(env.sha) && Stands(env, w, org)
    requires NoCollision(env, OrgRows(w.all, org), OrgRows(w.all, org))
    requires !PruneFits(w.db, org, cutoff)
    ensures !CheckedOk(env, Step(env, w, Pruned(org, cutoff)), org)
  {
    StandingTables(env, w, org);
    PrunedTablesCheckIff(env, w.db, org, cutoff);
    hide Intact, PruneStep;
  }

  lemma PayloadsKeptCons(env: Env, evs: seq<Event>)
    requires PayloadsKept(env, evs) && evs != []
    ensures PayloadsKept(env, [evs[0]]) && PayloadsKept(env, evs[1..])
  {
  }

  lemma {:induction false} StandingRun(env: Env, w: World, evs: seq<Event>, org: string)
    requires HexDigest(env.sha) && CanonicalJson.StableNumbers(env.codec) && PayloadsKept(env, evs)
    requires Stands(env, w, org)
    requires var all := OrgRows(Run(env, w, evs).all, org); NoCollision(env, all, all)
    ensures AlwaysOk(env, w, evs, org) <==> PrunesFit(env, w, evs, org)
    decreases |evs|
  {
    hide Stands, HexDigest, NoCollision, PayloadsKept, Step, PruneFits, CheckedOk, Within;
    AllGrows(env, w, evs, org);
    CollisionFreeWithin(env, OrgRows(w.all, org), OrgRows(Run(env, w, evs).all, org));
    StandingOk(env, w, org);
    if evs != [] {
      PayloadsKeptCons(env, evs);
      if evs[0].Pruned? && evs[0].org == org && !PruneFits(w.db, org, evs[0].cutoff) {
        UnfitPruneReported(env, w, org, evs[0].cutoff);
      } else {
        StandsStep(env, w, evs[0], org);
        StandingRun(env, Step(env, w, evs[0]), evs[1..], org);
      }
    }
  }

  /** Over whole runs, with any stamps and any prunes of any organizations: a check of an organization
      answers OK at every point if and only if each prune of it, when it happens, cuts off a front of its
      rows or is shielded by a legacy row that survives it. */
  lemma AlwaysOkIff(env: Env, db: Db, evs: seq<Event>, org: string)
    requires HexDigest(env.sha) && CanonicalJson.StableNumbers(env.codec)
    requires AllLegacy(db) && PayloadsKept(env, evs)
    requires var all := OrgRows(Run(env, World(db, db.rows), evs).all, org); NoCollision(env, all, all)
    ensures AlwaysOk(env, World(db, db.rows), evs, org) <==> PrunesFit(env, World(db, db.rows), evs, org)
  {
    var w, h := World(db, db.rows), OrgRows(db.rows, org);
    LegacyLinked(env, db, org);
    AllLegacyFirst(db);
    assert h[0..] == h;
    assert StandsOn(env, w, org, h, 0);
    hide Run, Intact, LegacyFirst, HexDigest, NoCollision;
    StandingRun(env, w, evs, org);
  }

  // ---- two recorders race --------------------------------------------------------------------

  const NEW_DB := Db([], map[], 0)

  /** Two entries of one organization recorded in a new database, the second with the earlier stamp,
      and a prune at a cutoff between the stamps: the first entry, which nobody touched, is reported
      as a link mismatch. */
  lemma RacingRecordersBreakChain(env: Env, e: Entry, f: Entry, at: int, earlier: int, cutoff: int)
    requires HexDigest(env.sha) && e.who.org == f.who.org && earlier < cutoff <= at
    ensures var org := e.who.org;
            var db1 := RecordStep(env, NEW_DB, e, CanonicalJson.CanonicalTree(env.codec, e.metadata), at);
            var db2 := RecordStep(env, db1, f, CanonicalJson.CanonicalTree(env.codec, f.metadata), earlier);
            var db3 := PruneStep(db2, org, cutoff);
            Located(Check(env, Seed(db3, org), OrgRows(db3.rows, org)), db1.rows[0].id, LINK)
  {
    var org := e.who.org;
    var a := NewRow(env, NEW_DB, e, CanonicalJson.CanonicalTree(env.codec, e.metadata), at);
    var db1 := Db([a], map[], 1);
    var b := NewRow(env, db1, f, CanonicalJson.CanonicalTree(env.codec, f.metadata), earlier);
    var db2 := Db([a, b], map[], 2);
    assert [] + [a] == [a] && [a] + [b] == [a, b];
    assert |b.hash| == 64 && a.prev == "";
    OrgRowsOfOne(a, org);
    OrgRowsOfOne(b, org);
    OrgRowsAppend([a], [b], org);
    assert OrgRows(db2.rows, org) == [a, b];
    assert a.hash != "" by { assert |a.hash| == 64; }
    hide HexDigest, NewRow;
    SeedAfterPrune(db2, org, cutoff);
    LaterDeleted(a, b, cutoff);
    WrongSeedReported(env, b.hash, a);
    hide OrgRows, PruneStep, Seed;
  }

  lemma WrongSeedReported(env: Env, seed: string, a: Row)
    requires a.hash != "" && a.prev != seed
    ensures Located(Check(env, seed, [a]), a.id, LINK)
  {
    assert !IntactAt(env, seed, [a], 0);
    assert FirstBroken(env, seed, [a], 0) by { assert [a][..0] == []; }
    BrokenAt(env, seed, [a], 0);
  }

  lemma LaterDeleted(a: Row, b: Row, cutoff: int)
    requires b.at < cutoff <= a.at
    ensures SeedAfter("", [a, b], cutoff) == b.hash && Newer([a, b], cutoff) == [a]
  {
    assert [a, b][1..] == [b] && [b][1..] == [];
    assert Older([], cutoff) == [] && Newer([], cutoff) == [];
    assert Older([b], cutoff) == [b] + [] && Newer([b], cutoff) == [] + [];
    assert Older([a, b], cutoff) == [] + [b] && Newer([a, b], cutoff) == [a] + [];
  }
}
