// Safety of the audit chain over whole runs: any interleaving, across
// organizations, of recording and pruning with any cutoffs.
module AuditRuns {
  import opened Text
  import opened Framing
  import CanonicalJson
  import opened AuditChain

  /** One committed transaction, or one that rolled back. Each runs under the
      org's advisory lock, so transactions of one org are atomic steps. */
  datatype Event =
    | Recorded(entry: Entry, stored: CanonicalJson.Tree, now: int)
    | Pruned(org: string, cutoff: int)
    | RolledBack

  /** The tables, and beside them every row ever inserted, which pruning does not touch. */
  datatype World = World(db: Db, all: seq<Row>)

  function Step(env: Env, w: World, ev: Event): World {
    match ev
    case Recorded(e, stored, now) =>
      World(RecordStep(env, w.db, e, stored, now), w.all + [NewRow(env, w.db, e, stored, now)])
    case Pruned(org, cutoff) => World(PruneStep(w.db, org, cutoff), w.all)
    case RolledBack => w
  }

  function Run(env: Env, w: World, evs: seq<Event>): World
    decreases |evs|
  {
    if evs == [] then w else Run(env, Step(env, w, evs[0]), evs[1..])
  }

  /** The payload column keeps the document it was given, up to the order of its
      members, and the stamp is not older than the org's newest row. The code does
      not enforce the second: it takes the stamp before it takes the lock. */
  ghost predicate Timely(env: Env, w: World, ev: Event) {
    ev.Recorded? ==>
      var rows := OrgRows(w.db.rows, ev.entry.who.org);
      CanonicalJson.Reordered(env.codec, CanonicalJson.CanonicalTree(env.codec, ev.entry.metadata), ev.stored)
      && (rows != [] ==> rows[|rows| - 1].at <= ev.now)
  }

  ghost predicate TimelyRun(env: Env, w: World, evs: seq<Event>)
    decreases |evs|
  {
    evs == [] || (Timely(env, w, evs[0]) && TimelyRun(env, Step(env, w, evs[0]), evs[1..]))
  }

  predicate Sorted(rows: seq<Row>) {
    forall i, j | 0 <= i < j < |rows| :: rows[i].at <= rows[j].at
  }

  /** The table holds exactly the org's history from some row on, and the anchor
      is exactly the row before: pruning forgets rows but nothing the walk needs. */
  ghost predicate SuffixOf(db: Db, org: string, history: seq<Row>, c: nat) {
    c <= |history|
    && OrgRows(db.rows, org) == history[c..]
    && (c == 0 ==> org !in db.anchors)
    && (c > 0 ==> org in db.anchors && db.anchors[org] == Anchor(history[c - 1].id, history[c - 1].hash))
  }

  /** The history is intact and the tables hold an end of it. */
  ghost predicate OrgLinked(env: Env, w: World, org: string) {
    var history := OrgRows(w.all, org);
    Intact(env, "", history) && exists c: nat :: SuffixOf(w.db, org, history, c)
  }

  ghost predicate OrgSound(env: Env, w: World, org: string) {
    OrgLinked(env, w, org) && Sorted(OrgRows(w.db.rows, org))
  }

  ghost predicate Sound(env: Env, w: World) {
    (forall org :: OrgSound(env, w, org)) && IdsAscend(w.db)
  }

  predicate IdsAscend(db: Db) {
    (forall r | r in db.rows :: r.id < db.nextId) && Ascend(db.rows)
  }

  /** Whatever rows the database has are legacy rows, never pruned. */
  predicate AllLegacy(db: Db) {
    db.anchors == map[] && forall r | r in db.rows :: r.hash == ""
  }

  /** A database upgraded to chaining, its rows in order of id and of time. */
  ghost predicate Upgraded(db: Db) {
    AllLegacy(db)
    && IdsAscend(db)
    && (forall org :: Sorted(OrgRows(db.rows, org)))
  }

  lemma LegacyLinked(env: Env, db: Db, org: string)
    requires AllLegacy(db)
    ensures OrgLinked(env, World(db, db.rows), org)
  {
    var history := OrgRows(db.rows, org);
    OrgRowsAreOfOrg(db.rows, org);
    assert history[0..] == history;
    assert SuffixOf(db, org, history, 0);
  }

  lemma UpgradedSound(env: Env, db: Db)
    requires Upgraded(db)
    ensures Sound(env, World(db, db.rows))
  {
    forall org ensures OrgSound(env, World(db, db.rows), org) {
      LegacyLinked(env, db, org);
    }
  }

  // ---- pruning cuts a prefix off a sorted log -----------------------------

  predicate Ascend(rows: seq<Row>) {
    forall i, j | 0 <= i < j < |rows| :: rows[i].id < rows[j].id
  }

  lemma AscendCons(r: Row, rest: seq<Row>)
    ensures Ascend([r] + rest) <==> Ascend(rest) && forall x | x in rest :: r.id < x.id
  {
    var all := [r] + rest;
    if Ascend(all) {
      forall x | x in rest ensures r.id < x.id {
        var i :| 0 <= i < |rest| && rest[i] == x;
        assert all[0].id < all[i + 1].id;
      }
      forall i, j | 0 <= i < j < |rest| ensures rest[i].id < rest[j].id {
        assert all[i + 1] == rest[i] && all[j + 1] == rest[j];
      }
    }
  }

  lemma {:induction false} DeleteKeepsIdOrder(rows: seq<Row>, org: string, cutoff: int)
    requires Ascend(rows)
    ensures var d := Delete(rows, org, cutoff);
            (forall r | r in d :: r in rows) && Ascend(d)
  {
    if rows != [] {
      var r, rest := rows[0], rows[1..];
      assert rows == [r] + rest;
      AscendCons(r, rest);
      DeleteKeepsIdOrder(rest, org, cutoff);
      AscendCons(r, Delete(rest, org, cutoff));
      hide Ascend;
      assert [] + Delete(rest, org, cutoff) == Delete(rest, org, cutoff);
      assert forall x :: x in rows <==> x == r || x in rest;
    }
  }

  // ---- the steps keep soundness --------------------------------------------

  lemma RecordLinks(env: Env, w: World, org: string, c: nat)
    requires SuffixOf(w.db, org, OrgRows(w.all, org), c)
    ensures var history := OrgRows(w.all, org);
            ChainHead(w.db, org) == Predecessor("", history, |history|)
  {
    var history := OrgRows(w.all, org);
    if c < |history| {
      var rows := history[c..];
      assert rows[|rows| - 1] == history[|history| - 1];
    }
  }

  /** The row that Record inserts is intact after the org's newest row or anchor. */
  lemma NewRowIntact(env: Env, db: Db, e: Entry, stored: CanonicalJson.Tree, now: int)
    requires CanonicalJson.StableNumbers(env.codec)
    requires CanonicalJson.Reordered(env.codec, CanonicalJson.CanonicalTree(env.codec, e.metadata), stored)
    ensures RowIntact(env, ChainHead(db, e.who.org), NewRow(env, db, e, stored, now))
  {
    CanonicalJson.PayloadSurvivesStorage(env.codec, e.metadata, stored);
  }

  lemma OrgRowsOfOne(r: Row, org: string)
    ensures OrgRows([r], org) == if r.who.org == org then [r] else []
  {
    assert [r][1..] == [];
  }

  lemma RecordKeepsLinked(env: Env, w: World, w': World, r: Row, org: string)
    requires OrgLinked(env, w, org)
    requires w'.db.rows == w.db.rows + [r] && w'.db.anchors == w.db.anchors && w'.all == w.all + [r]
    requires r.who.org == org ==> RowIntact(env, ChainHead(w.db, org), r)
    ensures OrgLinked(env, w', org)
    ensures OrgRows(w'.db.rows, org) == OrgRows(w.db.rows, org) + if r.who.org == org then [r] else []
  {
    var history, rows := OrgRows(w.all, org), OrgRows(w.db.rows, org);
    var c: nat :| SuffixOf(w.db, org, history, c);
    OrgRowsAppend(w.all, [r], org);
    OrgRowsAppend(w.db.rows, [r], org);
    OrgRowsOfOne(r, org);
    if r.who.org == org {
      RecordLinks(env, w, org, c);
      IntactAppend(env, "", history, r);
      assert (history + [r])[c..] == rows + [r];
      AnchorKept(history, r, c);
      assert SuffixOf(w'.db, org, history + [r], c);
    } else {
      assert history + [] == history && rows + [] == rows;
      assert SuffixOf(w'.db, org, history, c);
    }
  }

  lemma RecordKeepsOrg(env: Env, w: World, w': World, r: Row, org: string)
    requires OrgSound(env, w, org)
    requires w'.db.rows == w.db.rows + [r] && w'.db.anchors == w.db.anchors && w'.all == w.all + [r]
    requires r.who.org == org ==> RowIntact(env, ChainHead(w.db, org), r)
    requires r.who.org == org ==> Sorted(OrgRows(w.db.rows, org) + [r])
    ensures OrgSound(env, w', org)
  {
    RecordKeepsLinked(env, w, w', r, org);
    assert OrgRows(w.db.rows, org) + [] == OrgRows(w.db.rows, org);
    hide OrgLinked, RowIntact;
  }

  lemma AnchorKept(history: seq<Row>, r: Row, c: nat)
    requires c <= |history|
    ensures c > 0 ==> (history + [r])[c - 1] == history[c - 1]
  {
  }

  lemma SortedAppend(rows: seq<Row>, r: Row)
    requires Sorted(rows) && (rows != [] ==> rows[|rows| - 1].at <= r.at)
    ensures Sorted(rows + [r])
  {
  }

  lemma IdsAscendInsert(db: Db, r: Row)
    requires IdsAscend(db) && r.id == db.nextId
    ensures IdsAscend(Db(db.rows + [r], db.anchors, db.nextId + 1))
  {
    assert forall i | 0 <= i < |db.rows| :: db.rows[i] in db.rows;
  }

  lemma InsertKeeps(env: Env, w: World, w': World, r: Row)
    requires Sound(env, w)
    requires w' == World(Db(w.db.rows + [r], w.db.anchors, w.db.nextId + 1), w.all + [r])
    requires r.id == w.db.nextId && RowIntact(env, ChainHead(w.db, r.who.org), r)
    requires var rows := OrgRows(w.db.rows, r.who.org); rows != [] ==> rows[|rows| - 1].at <= r.at
    ensures Sound(env, w')
  {
    hide *;
    SoundIs(env, w);
    IdsAscendInsert(w.db, r);
    SortedOrg(env, w, r.who.org);
    SortedAppend(OrgRows(w.db.rows, r.who.org), r);
    forall org ensures OrgSound(env, w', org) {
      RecordKeepsOrg(env, w, w', r, org);
    }
    SoundOrgs(env, w');
  }

  lemma SoundIs(env: Env, w: World)
    requires Sound(env, w)
    ensures IdsAscend(w.db) && forall org :: OrgSound(env, w, org)
  {
  }

  lemma SortedOrg(env: Env, w: World, org: string)
    requires OrgSound(env, w, org)
    ensures Sorted(OrgRows(w.db.rows, org))
  {
  }

  lemma SoundOrgs(env: Env, w: World)
    requires IdsAscend(w.db) && forall org :: OrgSound(env, w, org)
    ensures Sound(env, w)
  {
  }

  lemma RecordKeeps(env: Env, w: World, e: Entry, stored: CanonicalJson.Tree, now: int)
    requires CanonicalJson.StableNumbers(env.codec)
    requires Sound(env, w) && Timely(env, w, Recorded(e, stored, now))
    ensures Sound(env, Step(env, w, Recorded(e, stored, now)))
  {
    NewRowIntact(env, w.db, e, stored, now);
    InsertKeeps(env, w, Step(env, w, Recorded(e, stored, now)), NewRow(env, w.db, e, stored, now));
  }

  lemma PruneStepShape(db: Db, org: string, cutoff: int, cur: seq<Row>, n: nat)
    requires cur == OrgRows(db.rows, org) && n <= |cur|
    requires Older(cur, cutoff) == cur[..n] && Newer(cur, cutoff) == cur[n..]
    ensures var db' := PruneStep(db, org, cutoff);
            OrgRows(db'.rows, org) == cur[n..]
            && db'.anchors == if n == 0 then db.anchors
                              else db.anchors[org := Anchor(cur[n - 1].id, cur[n - 1].hash)]
  {
    OrgRowsOfDelete(db.rows, org, cutoff, org);
    hide OrgRows, Older, Newer, Delete;
  }

  lemma SortedSuffix(rows: seq<Row>, n: nat)
    requires n <= |rows| && Sorted(rows)
    ensures Sorted(rows[n..])
  {
  }

  lemma SuffixIs(db: Db, org: string, history: seq<Row>, c: nat)
    requires SuffixOf(db, org, history, c)
    ensures c <= |history| && OrgRows(db.rows, org) == history[c..]
  {
  }

  lemma SuffixShrinks(db: Db, org: string, history: seq<Row>, c: nat, n: nat, db': Db)
    requires SuffixOf(db, org, history, c) && c + n <= |history|
    requires OrgRows(db'.rows, org) == history[c..][n..]
    requires db'.anchors == if n == 0 then db.anchors
                            else db.anchors[org := Anchor(history[c..][n - 1].id, history[c..][n - 1].hash)]
    ensures SuffixOf(db', org, history, c + n)
  {
    assert history[c..][n..] == history[c + n..];
  }

  lemma PruneKeepsLinked(env: Env, w: World, w': World, org: string, cutoff: int) returns (n: nat)
    requires OrgLinked(env, w, org) && PrefixCut(OrgRows(w.db.rows, org), cutoff)
    requires w' == World(PruneStep(w.db, org, cutoff), w.all)
    ensures OrgLinked(env, w', org)
    ensures n <= |OrgRows(w.db.rows, org)| && OrgRows(w'.db.rows, org) == OrgRows(w.db.rows, org)[n..]
  {
    hide PruneStep, Intact, PrefixCut, Older, Newer, OrgRows, SuffixOf;
    var history, cur := OrgRows(w.all, org), OrgRows(w.db.rows, org);
    var c: nat :| SuffixOf(w.db, org, history, c);
    SuffixIs(w.db, org, history, c);
    n := PrefixCutSplits(cur, cutoff);
    PruneStepShape(w.db, org, cutoff, cur, n);
    SuffixShrinks(w.db, org, history, c, n, w'.db);
  }

  lemma PruneKeepsOrg(env: Env, w: World, w': World, org: string, cutoff: int)
    requires OrgSound(env, w, org)
    requires w' == World(PruneStep(w.db, org, cutoff), w.all)
    ensures OrgSound(env, w', org)
  {
    assert PrefixCut(OrgRows(w.db.rows, org), cutoff);
    hide PruneStep, Intact, Sorted, PrefixCut, OrgRows, OrgLinked;
    var n := PruneKeepsLinked(env, w, w', org, cutoff);
    SortedSuffix(OrgRows(w.db.rows, org), n);
  }

  lemma PruneKeepsOthers(env: Env, w: World, org: string, cutoff: int, o: string)
    requires o != org && OrgLinked(env, w, o)
    ensures OrgLinked(env, Step(env, w, Pruned(org, cutoff)), o)
    ensures OrgRows(Step(env, w, Pruned(org, cutoff)).db.rows, o) == OrgRows(w.db.rows, o)
  {
    var history := OrgRows(w.all, o);
    var c: nat :| SuffixOf(w.db, o, history, c);
    OrgRowsOfDelete(w.db.rows, org, cutoff, o);
    assert SuffixOf(Step(env, w, Pruned(org, cutoff)).db, o, history, c);
  }

  lemma PruneKeeps(env: Env, w: World, org: string, cutoff: int)
    requires Sound(env, w)
    ensures Sound(env, Step(env, w, Pruned(org, cutoff)))
  {
    forall o ensures OrgSound(env, Step(env, w, Pruned(org, cutoff)), o) {
      assert OrgSound(env, w, o);
      if o == org {
        PruneKeepsOrg(env, w, Step(env, w, Pruned(org, cutoff)), org, cutoff);
      } else {
        PruneKeepsOthers(env, w, org, cutoff, o);
      }
    }
    DeleteKeepsIdOrder(w.db.rows, org, cutoff);
  }

  lemma {:induction false} RunKeeps(env: Env, w: World, evs: seq<Event>)
    requires CanonicalJson.StableNumbers(env.codec)
    requires Sound(env, w) && TimelyRun(env, w, evs)
    ensures Sound(env, Run(env, w, evs))
    decreases |evs|
  {
    if evs != [] {
      match evs[0] {
        case Recorded(e, stored, now) => RecordKeeps(env, w, e, stored, now);
        case Pruned(org, cutoff) => PruneKeeps(env, w, org, cutoff);
        case RolledBack =>
      }
      RunKeeps(env, Step(env, w, evs[0]), evs[1..]);
    }
  }

  lemma LinkedVerifies(env: Env, w: World, org: string)
    requires OrgLinked(env, w, org)
    ensures Intact(env, Seed(w.db, org), OrgRows(w.db.rows, org))
  {
    var history := OrgRows(w.all, org);
    var c: nat :| SuffixOf(w.db, org, history, c);
    IntactDrop(env, "", history, c);
  }

  /** The main safety result. From an upgraded or empty database, after any run
      whose stamps are timely, checking any org answers OK, with every row of
      the org counted as checked or as legacy; and the rows still there are the
      end of everything ever recorded, whatever was pruned in between. */
  lemma ChainSafeOverRuns(env: Env, db: Db, evs: seq<Event>, org: string)
    requires CanonicalJson.StableNumbers(env.codec)
    requires Upgraded(db) && TimelyRun(env, World(db, db.rows), evs)
    ensures var w := Run(env, World(db, db.rows), evs);
            var res := Check(env, Seed(w.db, org), OrgRows(w.db.rows, org));
            res.ok && res.checked + res.legacy == |OrgRows(w.db.rows, org)|
            && res.firstBrokenId == 0 && res.detail == ""
            && exists c: nat :: SuffixOf(w.db, org, OrgRows(w.all, org), c)
  {
    var w0 := World(db, db.rows);
    UpgradedSound(env, db);
    RunKeeps(env, w0, evs);
    var w := Run(env, w0, evs);
    assert OrgSound(env, w, org);
    LinkedVerifies(env, w, org);
  }

  /** Verify's answer does not depend on how often and with what cutoffs the log
      was pruned, except for the rows that are no longer there: the surviving
      rows are intact after their anchor exactly because the whole history is. */
  lemma SurvivorsAreHistory(env: Env, db: Db, evs: seq<Event>, org: string)
    requires CanonicalJson.StableNumbers(env.codec)
    requires Upgraded(db) && TimelyRun(env, World(db, db.rows), evs)
    ensures var w := Run(env, World(db, db.rows), evs);
            var rows, history := OrgRows(w.db.rows, org), OrgRows(w.all, org);
            |rows| <= |history| && history[|history| - |rows|..] == rows
            && Intact(env, "", history) && ChainHead(w.db, org) == Predecessor("", history, |history|)
  {
    UpgradedSound(env, db);
    RunKeeps(env, World(db, db.rows), evs);
    var w := Run(env, World(db, db.rows), evs);
    assert OrgSound(env, w, org);
    hide Run, Sound, TimelyRun, Upgraded, Sorted, ChainHead;
    var c: nat :| SuffixOf(w.db, org, OrgRows(w.all, org), c);
    RecordLinks(env, w, org, c);
  }
}
