// The audit store over its two tables: Record, Verify, Prune and pruneOrg of
// ee/audit/store.go, each proved against the steps and the report it specifies.
module AuditStore {
  import opened Text
  import opened Framing
  import CanonicalJson
  import opened AuditChain

  lemma {:induction false} DeleteCounts(rows: seq<Row>, org: string, cutoff: int)
    ensures |Delete(rows, org, cutoff)| + |Older(OrgRows(rows, org), cutoff)| == |rows|
  {
    if rows != [] {
      DeleteCounts(rows[1..], org, cutoff);
      var rest := OrgRows(rows[1..], org);
      assert ([rows[0]] + rest)[1..] == rest && [] + rest == rest;
    }
  }

  /** What a prune at `cutoff` does to one org, seen through that org's rows and anchor. */
  ghost predicate PrunedOrg(before: Db, after: Db, org: string, cutoff: int) {
    var step := PruneStep(before, org, cutoff);
    OrgRows(after.rows, org) == OrgRows(step.rows, org)
    && (org in after.anchors <==> org in step.anchors)
    && (org in after.anchors ==> after.anchors[org] == step.anchors[org])
  }

  ghost predicate SameOrg(before: Db, after: Db, org: string) {
    OrgRows(after.rows, org) == OrgRows(before.rows, org)
    && (org in after.anchors <==> org in before.anchors)
    && (org in after.anchors ==> after.anchors[org] == before.anchors[org])
  }

  lemma PruneStepPerOrg(db: Db, org: string, cutoff: int, o: string)
    ensures o != org ==> SameOrg(db, PruneStep(db, org, cutoff), o)
  {
    OrgRowsOfDelete(db.rows, org, cutoff, o);
  }

  /** A prune of an org reads nothing but that org. */
  lemma PruneStepLocal(a: Db, b: Db, c: Db, org: string, cutoff: int)
    requires SameOrg(a, b, org) && c == PruneStep(b, org, cutoff)
    ensures PrunedOrg(a, c, org, cutoff)
  {
    OrgRowsOfDelete(a.rows, org, cutoff, org);
    OrgRowsOfDelete(b.rows, org, cutoff, org);
  }

  /** Where a transaction of pruneOrg meets an error: before or at the lock, at the lookup of the last
      old row, or at the delete, the anchor or the commit. */
  datatype Fault = NoFault | BeginFails | LookupFails | WriteFails

  /** Errors that end the transaction. A failed lookup does not: it is taken for "nothing old". */
  predicate Aborts(fault: Fault) {
    fault.BeginFails? || fault.WriteFails?
  }

  /** What a transaction that did not abort did: nothing if its lookup failed, else the prune. */
  ghost predicate TurnTaken(before: Db, after: Db, org: string, cutoff: int, faults: string -> Fault) {
    if faults(org).LookupFails? then SameOrg(before, after, org) else PrunedOrg(before, after, org, cutoff)
  }

  /** The state of Prune after its first `k` transactions. */
  ghost predicate PrunedUpTo(before: Db, now: Db, orgs: seq<string>, k: nat, cutoff: int, faults: string -> Fault)
    requires k <= |orgs|
  {
    (forall i | 0 <= i < k :: !Aborts(faults(orgs[i])) && TurnTaken(before, now, orgs[i], cutoff, faults))
    && (forall org | org !in orgs[..k] :: SameOrg(before, now, org))
  }

  lemma SameOrgTurn(before: Db, mid: Db, after: Db, org: string, cutoff: int, faults: string -> Fault)
    requires TurnTaken(before, mid, org, cutoff, faults) && SameOrg(mid, after, org)
    ensures TurnTaken(before, after, org, cutoff, faults)
  {
    hide PruneStep;
  }

  lemma StartOf(db: Db, orgs: seq<string>, cutoff: int, faults: string -> Fault)
    ensures PrunedUpTo(db, db, orgs, 0, cutoff, faults)
  {
    PruneStart(db);
  }

  lemma PruneStart(db: Db)
    ensures forall org :: SameOrg(db, db, org)
  {
  }

  /** The step of one transaction, as its fault lets it happen. */
  function FaultyStep(db: Db, org: string, cutoff: int, fault: Fault): Db {
    if fault.LookupFails? then db else PruneStep(db, org, cutoff)
  }

  /** Each org with an older row, once. */
  ghost predicate Listed(orgs: seq<string>, rows: seq<Row>, cutoff: int) {
    (forall i, j | 0 <= i < j < |orgs| :: orgs[i] != orgs[j])
    && forall org :: org in orgs <==> Older(OrgRows(rows, org), cutoff) != []
  }

  lemma PruneProgress(before: Db, mid: Db, orgs: seq<string>, k: nat, cutoff: int, faults: string -> Fault)
    requires k < |orgs| && PrunedUpTo(before, mid, orgs, k, cutoff, faults)
    requires Listed(orgs, before.rows, cutoff)
    ensures !Aborts(faults(orgs[k])) ==>
              PrunedUpTo(before, FaultyStep(mid, orgs[k], cutoff, faults(orgs[k])), orgs, k + 1, cutoff, faults)
    ensures Older(OrgRows(mid.rows, orgs[k]), cutoff) != []
  {
    var after := FaultyStep(mid, orgs[k], cutoff, faults(orgs[k]));
    assert orgs[k] !in orgs[..k];
    if !faults(orgs[k]).LookupFails? {
      PruneStepLocal(before, mid, after, orgs[k], cutoff);
    }
    forall org | org != orgs[k] ensures SameOrg(mid, after, org) {
      PruneStepPerOrg(mid, orgs[k], cutoff, org);
    }
    assert TurnTaken(before, after, orgs[k], cutoff, faults);
    assert orgs[k] in orgs;
    SameOrgOlder(before, mid, orgs[k], cutoff);
    hide PruneStep, OrgRows, SameOrg, PrunedOrg, TurnTaken;
    assert orgs[..k + 1] == orgs[..k] + [orgs[k]];
    forall i | 0 <= i < k + 1 ensures TurnTaken(before, after, orgs[i], cutoff, faults) {
      if i < k {
        SameOrgTurn(before, mid, after, orgs[i], cutoff, faults);
      }
    }
    forall org | org !in orgs[..k + 1] ensures SameOrg(before, after, org) {
      SameOrgTwice(before, mid, after, org);
    }
  }

  lemma SameOrgTwice(before: Db, mid: Db, after: Db, org: string)
    requires SameOrg(before, mid, org) && SameOrg(mid, after, org)
    ensures SameOrg(before, after, org)
  {
  }

  lemma PruneStopped(before: Db, now: Db, orgs: seq<string>, k: nat, cutoff: int, faults: string -> Fault)
    requires k < |orgs| && PrunedUpTo(before, now, orgs, k, cutoff, faults)
    requires Listed(orgs, before.rows, cutoff)
    ensures SameOrg(before, now, orgs[k]) && Older(OrgRows(before.rows, orgs[k]), cutoff) != []
    ensures forall org :: PrunedOrg(before, now, org, cutoff) || SameOrg(before, now, org)
  {
    assert orgs[k] !in orgs[..k] && orgs[k] in orgs;
    forall org ensures PrunedOrg(before, now, org, cutoff) || SameOrg(before, now, org) {
      if i :| 0 <= i < k && orgs[i] == org {
        assert TurnTaken(before, now, orgs[i], cutoff, faults);
      } else {
        assert org !in orgs[..k];
      }
    }
  }

  lemma PruneComplete(before: Db, now: Db, orgs: seq<string>, cutoff: int, faults: string -> Fault)
    requires PrunedUpTo(before, now, orgs, |orgs|, cutoff, faults)
    requires Listed(orgs, before.rows, cutoff)
    ensures forall org :: TurnTaken(before, now, org, cutoff, faults)
  {
    forall org ensures TurnTaken(before, now, org, cutoff, faults) {
      if org in orgs {
        var i :| 0 <= i < |orgs| && orgs[i] == org;
      } else {
        assert org !in orgs[..|orgs|];
        UntouchedIsPruned(before, now, org, cutoff);
        UntouchedTurn(before, now, org, cutoff, faults);
      }
    }
  }

  lemma TurnsPrunedOrSame(before: Db, now: Db, cutoff: int, faults: string -> Fault)
    requires forall org :: TurnTaken(before, now, org, cutoff, faults)
    ensures forall org :: PrunedOrg(before, now, org, cutoff) || SameOrg(before, now, org)
  {
    hide PrunedOrg, SameOrg;
    forall org ensures PrunedOrg(before, now, org, cutoff) || SameOrg(before, now, org) {
      assert TurnTaken(before, now, org, cutoff, faults);
    }
  }

  lemma PruneDone(before: Db, now: Db, orgs: seq<string>, cutoff: int, faults: string -> Fault)
    requires PrunedUpTo(before, now, orgs, |orgs|, cutoff, faults)
    requires Listed(orgs, before.rows, cutoff)
    ensures forall org :: TurnTaken(before, now, org, cutoff, faults)
    ensures forall org :: PrunedOrg(before, now, org, cutoff) || SameOrg(before, now, org)
    ensures forall org | !faults(org).NoFault? :: SameOrg(before, now, org)
    ensures forall org | Aborts(faults(org)) :: Older(OrgRows(before.rows, org), cutoff) == []
  {
    PruneComplete(before, now, orgs, cutoff, faults);
    BlockedSame(before, now, orgs, |orgs|, cutoff, faults);
    TurnsPrunedOrSame(before, now, cutoff, faults);
    hide PrunedOrg, SameOrg, TurnTaken, Older, OrgRows;
  }

  lemma UntouchedTurn(before: Db, now: Db, org: string, cutoff: int, faults: string -> Fault)
    requires SameOrg(before, now, org) && Older(OrgRows(before.rows, org), cutoff) == []
    ensures TurnTaken(before, now, org, cutoff, faults)
  {
    UntouchedIsPruned(before, now, org, cutoff);
  }

  lemma UntouchedIsPruned(db: Db, after: Db, org: string, cutoff: int)
    requires SameOrg(db, after, org) && Older(OrgRows(db.rows, org), cutoff) == []
    ensures PrunedOrg(db, after, org, cutoff)
  {
  }

  /** Some row of the org is older than the cutoff. */
  predicate HasOlder(rows: seq<Row>, org: string, cutoff: int) {
    exists r :: r in rows && r.who.org == org && r.at < cutoff
  }

  lemma {:induction false} OlderMember(rows: seq<Row>, org: string, cutoff: int)
    ensures HasOlder(rows, org, cutoff) <==> Older(OrgRows(rows, org), cutoff) != []
  {
    if rows != [] {
      OlderMember(rows[1..], org, cutoff);
      var rest := OrgRows(rows[1..], org);
      assert forall r :: r in rows <==> r == rows[0] || r in rows[1..];
      assert HasOlder(rows, org, cutoff)
             <==> (rows[0].who.org == org && rows[0].at < cutoff) || HasOlder(rows[1..], org, cutoff);
      OrgRowsCons(rows[0], rows[1..], org);
      assert [rows[0]] + rows[1..] == rows;
      assert ([rows[0]] + rest)[1..] == rest;
    }
  }

  lemma BlockedSame(before: Db, now: Db, orgs: seq<string>, k: nat, cutoff: int, faults: string -> Fault)
    requires k <= |orgs| && PrunedUpTo(before, now, orgs, k, cutoff, faults)
    ensures forall org | !faults(org).NoFault? :: SameOrg(before, now, org)
  {
    hide SameOrg, PrunedOrg;
    forall org | !faults(org).NoFault? ensures SameOrg(before, now, org) {
      if i :| 0 <= i < k && orgs[i] == org {
        assert TurnTaken(before, now, orgs[i], cutoff, faults);
      } else {
        assert org !in orgs[..k];
      }
    }
  }

  lemma SameOrgOlder(before: Db, mid: Db, org: string, cutoff: int)
    requires SameOrg(before, mid, org)
    ensures Older(OrgRows(mid.rows, org), cutoff) == Older(OrgRows(before.rows, org), cutoff)
  {
  }

  class Store {
    const env: Env
    var rows: seq<Row>
    var anchors: map<string, Anchor>
    var nextId: nat

    function Tables(): Db
      reads this
    {
      Db(rows, anchors, nextId)
    }

    constructor (env: Env, db: Db)
      ensures this.env == env && Tables() == db
    {
      this.env := env;
      rows, anchors, nextId := db.rows, db.anchors, db.nextId;
    }

    /** Appends one entry. `stored` is the payload as its JSONB column will return
        it; `fault` stands for an error of any statement of the transaction. */
    method Record(e: Entry, stored: CanonicalJson.Tree, now: int, fault: bool) returns (ok: bool)
      modifies this
      ensures ok <==> !fault
      ensures Tables() == if ok then RecordStep(env, old(Tables()), e, stored, now) else old(Tables())
      // The entry as it was given, whatever a step is made of.
      ensures ok ==> |rows| == |old(rows)| + 1 && rows[..|old(rows)|] == old(rows)
      ensures ok ==> var r := rows[|old(rows)|];
                     r.id == old(nextId) && r.who == e.who && r.payload == stored && r.at == now
    {
      var payload := CanonicalJson.CanonicalMetadata(env.codec, e.metadata);
      if fault {
        return false;
      }
      var prev := "";
      var mine := OrgRows(rows, e.who.org);
      if mine != [] {
        prev := mine[|mine| - 1].hash;
      } else if e.who.org in anchors {
        prev := anchors[e.who.org].lastHash;
      }
      var hash := ChainHash(env.sha, Parts(env, prev, e.who, payload, now));
      rows := rows + [Row(nextId, e.who, stored, now, hash, prev)];
      nextId := nextId + 1;
      return true;
    }

    /** Walks one org's rows from the oldest, deriving every hash and link again. */
    method Verify(org: string) returns (res: VerifyResult)
      ensures Reports(env, Seed(Tables(), org), OrgRows(rows, org), res)
      ensures !res.ok ==> res.detail in {"chain link mismatch", "content hash mismatch"}
    {
      ghost var seed := Seed(Tables(), org);
      var prev := if org in anchors then anchors[org].lastHash else "";
      var mine := OrgRows(rows, org);
      res := VerifyResult(true, 0, 0, 0, "");
      for k := 0 to |mine|
        invariant prev == Predecessor(seed, mine, k)
        invariant Intact(env, seed, mine[..k])
        invariant res == VerifyResult(true, Hashed(mine[..k]), res.legacy, 0, "")
        invariant res.checked + res.legacy == k
      {
        var r := mine[k];
        WalkStep(seed, mine, k);
        if r.hash == "" {
          res := res.(legacy := res.legacy + 1);
          prev := "";
        } else {
          if r.prev != prev {
            res := res.(ok := false, firstBrokenId := r.id, detail := LINK);
            FirstBrokenReports(seed, mine, k, res);
            return;
          }
          var want := ChainHash(env.sha, RowParts(env, r));
          if want != r.hash {
            res := res.(ok := false, firstBrokenId := r.id, detail := CONTENT);
            FirstBrokenReports(seed, mine, k, res);
            return;
          }
          res := res.(checked := res.checked + 1);
          prev := r.hash;
        }
      }
      assert mine[..|mine|] == mine;
    }

    lemma WalkStep(seed: string, mine: seq<Row>, k: nat)
      requires k < |mine| && Intact(env, seed, mine[..k])
      ensures Intact(env, seed, mine[..k + 1]) <==> IntactAt(env, seed, mine, k)
      ensures Hashed(mine[..k + 1]) == Hashed(mine[..k]) + if mine[k].hash == "" then 0 else 1
    {
      hide RowHash;
      assert mine[..k + 1] == mine[..k] + [mine[k]];
      assert mine[..k + 1][..k] == mine[..k];
      assert Predecessor(seed, mine[..k], k) == Predecessor(seed, mine, k);
      IntactAppend(env, seed, mine[..k], mine[k]);
    }

    lemma FirstBrokenReports(seed: string, mine: seq<Row>, k: nat, res: VerifyResult)
      requires k < |mine| && Intact(env, seed, mine[..k]) && !IntactAt(env, seed, mine, k)
      requires res == VerifyResult(false, Hashed(mine[..k]), res.legacy, mine[k].id,
                                   if mine[k].prev != Predecessor(seed, mine, k) then LINK else CONTENT)
      requires res.checked + res.legacy == k
      ensures Reports(env, seed, mine, res)
    {
      assert FirstBroken(env, seed, mine, k);
    }

    /** Deletes one org's rows older than the cutoff and anchors the newest of them. */
    method PruneOrg(org: string, cutoff: int, fault: Fault) returns (ok: bool, removed: nat)
      modifies this
      ensures Older(OrgRows(old(Tables()).rows, org), cutoff) != [] ==> (ok <==> !Aborts(fault))
      ensures Older(OrgRows(old(Tables()).rows, org), cutoff) == [] ==> (ok <==> !fault.BeginFails?)
      ensures Tables() == if ok then FaultyStep(old(Tables()), org, cutoff, fault) else old(Tables())
      ensures removed + |rows| == old(|rows|)
    {
      if fault.BeginFails? {
        return false, 0;
      }
      var gone := Older(OrgRows(rows, org), cutoff);
      if fault.LookupFails? || gone == [] {
        return true, 0;
      }
      if fault.WriteFails? {
        return false, 0;
      }
      var last := gone[|gone| - 1];
      DeleteCounts(rows, org, cutoff);
      removed := |rows|;
      rows := Delete(rows, org, cutoff);
      removed := removed - |rows|;
      anchors := anchors[org := Anchor(last.id, last.hash)];
      return true, removed;
    }

    /** SELECT DISTINCT organization_id FROM audit_log WHERE occurred_at < cutoff. */
    method OrgsWithOlder(cutoff: int) returns (orgs: seq<string>)
      ensures Listed(orgs, rows, cutoff)
    {
      orgs := [];
      for k := 0 to |rows|
        invariant forall i, j | 0 <= i < j < |orgs| :: orgs[i] != orgs[j]
        invariant forall i | 0 <= i < k && rows[i].at < cutoff :: rows[i].who.org in orgs
        invariant forall org | org in orgs :: HasOlder(rows, org, cutoff)
      {
        if rows[k].at < cutoff && rows[k].who.org !in orgs {
          assert rows[k] in rows;
          orgs := orgs + [rows[k].who.org];
        }
      }
      forall org ensures org in orgs <==> Older(OrgRows(rows, org), cutoff) != [] {
        OlderMember(rows, org, cutoff);
      }
    }

    /** Prunes every org that has older rows, one transaction each, each with its fault if any; the
        first transaction that aborts ends the call. `listed` is false if the orgs cannot be read. */
    method Prune(cutoff: int, listed: bool, faults: string -> Fault) returns (ok: bool, total: nat)
      modifies this
      ensures total + |rows| == old(|rows|)
      ensures ok <==> listed && forall org | Aborts(faults(org)) :: Older(OrgRows(old(rows), org), cutoff) == []
      // Success: every org is pruned, or its lookup failed and it is as it was.
      ensures ok ==> forall org :: TurnTaken(old(Tables()), Tables(), org, cutoff, faults)
      ensures forall org :: PrunedOrg(old(Tables()), Tables(), org, cutoff) || SameOrg(old(Tables()), Tables(), org)
      ensures !listed ==> Tables() == old(Tables())
      ensures forall org | !faults(org).NoFault? :: SameOrg(old(Tables()), Tables(), org)
    {
      total := 0;
      PruneStart(Tables());
      if !listed {
        return false, 0;
      }
      ghost var before := Tables();
      assert before.rows == rows;
      hide *;
      var orgs := OrgsWithOlder(cutoff);
      StartOf(before, orgs, cutoff, faults);
      for k := 0 to |orgs|
        invariant total + |rows| == |before.rows|
        invariant PrunedUpTo(before, Tables(), orgs, k, cutoff, faults)
      {
        PruneProgress(before, Tables(), orgs, k, cutoff, faults);
        var committed, n := PruneOrg(orgs[k], cutoff, faults(orgs[k]));
        if !committed {
          PruneStopped(before, Tables(), orgs, k, cutoff, faults);
          BlockedSame(before, Tables(), orgs, k, cutoff, faults);
          return false, total;
        }
        total := total + n;
      }
      PruneDone(before, Tables(), orgs, cutoff, faults);
      return true, total;
    }
  }
}
