// The audit log as a value: its rows, its pruning anchors, the steps that
// change them and the walk that checks them (ee/audit/store.go).
module AuditChain {
  import opened Text
  import opened Framing
  import CanonicalJson

  /** The parts of the world the log leans on: SHA-256 in hex, the calendar and the JSON text codecs. */
  datatype Env = Env(sha: string -> string, clock: int -> string, codec: CanonicalJson.Codec)

  /** The hashed columns that are stored as they were given. */
  datatype Who = Who(org: string, actor: Option<string>, name: string, email: string,
                     action: string, targetType: string, targetId: string, ip: string)

  /** One audit record to write. */
  datatype Entry = Entry(who: Who, metadata: CanonicalJson.Metadata)

  /** One row of audit_log. `hash` is entry_hash, empty for a row that predates chaining. */
  datatype Row = Row(id: nat, who: Who, payload: CanonicalJson.Tree, at: int, hash: string, prev: string)

  /** One row of audit_chain_anchor. */
  datatype Anchor = Anchor(lastId: nat, lastHash: string)

  /** The two tables and the id sequence. Rows stand in the order of their ids. */
  datatype Db = Db(rows: seq<Row>, anchors: map<string, Anchor>, nextId: nat)

  // ---- hashing -----------------------------------------------------------

  /** The eleven parts that are hashed, in order. */
  function Parts(env: Env, prev: string, who: Who, payloadText: string, at: int): seq<string> {
    [prev, who.org, if who.actor.Some? then who.actor.value else "", who.name, who.email,
     who.action, who.targetType, who.targetId, payloadText, who.ip, Stamp(env.clock, at)]
  }

  function RowParts(env: Env, r: Row): seq<string> {
    Parts(env, r.prev, r.who, CanonicalJson.RederivedPayload(env.codec, r.payload), r.at)
  }

  function RowHash(env: Env, r: Row): string {
    env.sha(Frame(RowParts(env, r)))
  }

  /** What is used of SHA-256 without any claim about collisions: its shape. */
  ghost predicate HexDigest(sha: string -> string) {
    forall s :: |sha(s)| == 64 && forall i | 0 <= i < 64 :: sha(s)[i] in "0123456789abcdef"
  }

  lemma DigestShape(env: Env, r: Row)
    requires HexDigest(env.sha)
    ensures RowHash(env, r) != "" && Clean(RowHash(env, r))
  {
    var h := RowHash(env, r);
    assert |h| == 64;
    forall i | 0 <= i < |h| ensures h[i] != SEP {
      assert h[i] in "0123456789abcdef";
    }
  }

  // ---- reading the tables --------------------------------------------------

  function OrgRows(rows: seq<Row>, org: string): seq<Row> {
    if rows == [] then []
    else (if rows[0].who.org == org then [rows[0]] else []) + OrgRows(rows[1..], org)
  }

  function Older(rows: seq<Row>, cutoff: int): seq<Row> {
    if rows == [] then []
    else (if rows[0].at < cutoff then [rows[0]] else []) + Older(rows[1..], cutoff)
  }

  function Newer(rows: seq<Row>, cutoff: int): seq<Row> {
    if rows == [] then []
    else (if rows[0].at < cutoff then [] else [rows[0]]) + Newer(rows[1..], cutoff)
  }

  /** DELETE ... WHERE organization_id = org AND occurred_at < cutoff. */
  function Delete(rows: seq<Row>, org: string, cutoff: int): seq<Row> {
    if rows == [] then []
    else (if rows[0].who.org == org && rows[0].at < cutoff then [] else [rows[0]]) + Delete(rows[1..], org, cutoff)
  }

  lemma {:induction false} OrgRowsAppend(rows: seq<Row>, more: seq<Row>, org: string)
    ensures OrgRows(rows + more, org) == OrgRows(rows, org) + OrgRows(more, org)
  {
    if rows == [] {
      assert rows + more == more;
    } else {
      assert (rows + more)[1..] == rows[1..] + more;
      OrgRowsAppend(rows[1..], more, org);
    }
  }

  lemma {:induction false} OrgRowsOfDelete(rows: seq<Row>, org: string, cutoff: int, o: string)
    ensures OrgRows(Delete(rows, org, cutoff), o)
         == if o == org then Newer(OrgRows(rows, org), cutoff) else OrgRows(rows, o)
  {
    if rows != [] {
      var r, rest := rows[0], rows[1..];
      OrgRowsOfDelete(rest, org, cutoff, o);
      OrgRowsCons(r, Delete(rest, org, cutoff), o);
      NewerCons(r, OrgRows(rest, org), cutoff);
      assert [] + Delete(rest, org, cutoff) == Delete(rest, org, cutoff);
      assert [] + OrgRows(rest, o) == OrgRows(rest, o);
    }
  }

  lemma OrgRowsCons(r: Row, rest: seq<Row>, org: string)
    ensures OrgRows([r] + rest, org) == if r.who.org == org then [r] + OrgRows(rest, org) else OrgRows(rest, org)
  {
    assert ([r] + rest)[1..] == rest;
  }

  lemma NewerCons(r: Row, rest: seq<Row>, cutoff: int)
    ensures Newer([r] + rest, cutoff) == if r.at < cutoff then Newer(rest, cutoff) else [r] + Newer(rest, cutoff)
  {
    assert ([r] + rest)[1..] == rest;
  }

  lemma {:induction false} OrgRowsAreOfOrg(rows: seq<Row>, org: string)
    ensures forall r | r in OrgRows(rows, org) :: r.who.org == org && r in rows
  {
    if rows != [] {
      OrgRowsAreOfOrg(rows[1..], org);
    }
  }

  /** No row older than the cutoff stands behind one that is not. */
  predicate PrefixCut(rows: seq<Row>, cutoff: int) {
    forall i, j | 0 <= i < j < |rows| && rows[j].at < cutoff :: rows[i].at < cutoff
  }

  lemma {:induction false} PrefixCutSplits(rows: seq<Row>, cutoff: int) returns (n: nat)
    requires PrefixCut(rows, cutoff)
    ensures n <= |rows| && Older(rows, cutoff) == rows[..n] && Newer(rows, cutoff) == rows[n..]
  {
    if rows == [] {
      n := 0;
    } else if rows[0].at < cutoff {
      var m := PrefixCutSplits(rows[1..], cutoff);
      n := m + 1;
      assert rows[..n] == [rows[0]] + rows[1..][..m];
    } else {
      NoneOlder(rows, cutoff);
      n := 0;
    }
  }

  lemma {:induction false} NoneOlder(rows: seq<Row>, cutoff: int)
    requires forall r | r in rows :: cutoff <= r.at
    ensures Older(rows, cutoff) == [] && Newer(rows, cutoff) == rows
  {
    if rows != [] {
      assert rows[0] in rows;
      forall r | r in rows[1..] ensures cutoff <= r.at { assert r in rows; }
      NoneOlder(rows[1..], cutoff);
    }
  }

  /** Where an org's walk starts: the hash its pruning anchor kept, else "". */
  function Seed(db: Db, org: string): string {
    if org in db.anchors then db.anchors[org].lastHash else ""
  }

  /** The hash the next entry links to: the newest row's, else the anchor's, else "". */
  function ChainHead(db: Db, org: string): string {
    var rows := OrgRows(db.rows, org);
    if rows != [] then rows[|rows| - 1].hash else Seed(db, org)
  }

  // ---- steps ---------------------------------------------------------------

  /** The row that recording `e` at `now` inserts; `stored` is the payload as its column keeps it. */
  function NewRow(env: Env, db: Db, e: Entry, stored: CanonicalJson.Tree, now: int): Row {
    var prev := ChainHead(db, e.who.org);
    var parts := Parts(env, prev, e.who, CanonicalJson.CanonicalMetadata(env.codec, e.metadata), now);
    Row(db.nextId, e.who, stored, now, env.sha(Frame(parts)), prev)
  }

  function RecordStep(env: Env, db: Db, e: Entry, stored: CanonicalJson.Tree, now: int): Db {
    Db(db.rows + [NewRow(env, db, e, stored, now)], db.anchors, db.nextId + 1)
  }

  function PruneStep(db: Db, org: string, cutoff: int): Db {
    var gone := Older(OrgRows(db.rows, org), cutoff);
    if gone == [] then db
    else
      var last := gone[|gone| - 1];
      Db(Delete(db.rows, org, cutoff), db.anchors[org := Anchor(last.id, last.hash)], db.nextId)
  }

  // ---- what a sound chain is -------------------------------------------------

  function Predecessor(seed: string, rows: seq<Row>, k: nat): string
    requires k <= |rows|
  {
    if k == 0 then seed else rows[k - 1].hash
  }

  /** A row is as it was written after a row with hash `prev`. A legacy row cannot be checked;
      its empty hash is also what the row after it links to. */
  predicate RowIntact(env: Env, prev: string, r: Row) {
    r.hash == "" || (r.prev == prev && r.hash == RowHash(env, r))
  }

  predicate Intact(env: Env, seed: string, rows: seq<Row>) {
    forall k: nat | k < |rows| :: IntactAt(env, seed, rows, k)
  }

  predicate IntactAt(env: Env, seed: string, rows: seq<Row>, k: nat)
    requires k < |rows|
  {
    RowIntact(env, Predecessor(seed, rows, k), rows[k])
  }

  function Hashed(rows: seq<Row>): nat {
    if rows == [] then 0
    else Hashed(rows[..|rows| - 1]) + (if rows[|rows| - 1].hash == "" then 0 else 1)
  }

  lemma {:induction false} HashedBound(rows: seq<Row>)
    ensures Hashed(rows) <= |rows|
  {
    if rows != [] { HashedBound(rows[..|rows| - 1]); }
  }

  const LINK := "chain link mismatch"
  const CONTENT := "content hash mismatch"

  datatype VerifyResult = VerifyResult(ok: bool, checked: nat, legacy: nat, firstBrokenId: nat, detail: string)

  predicate FirstBroken(env: Env, seed: string, rows: seq<Row>, k: nat) {
    k < |rows| && !IntactAt(env, seed, rows, k) && Intact(env, seed, rows[..k])
  }

  /** What a check of the rows from `seed` has to answer. */
  ghost predicate Reports(env: Env, seed: string, rows: seq<Row>, res: VerifyResult) {
    if Intact(env, seed, rows) then
      res == VerifyResult(true, Hashed(rows), res.legacy, 0, "") && res.checked + res.legacy == |rows|
    else
      exists k: nat :: FirstBroken(env, seed, rows, k)
        && res == VerifyResult(false, Hashed(rows[..k]), res.legacy, rows[k].id,
                               if rows[k].prev != Predecessor(seed, rows, k) then LINK else CONTENT)
        && res.checked + res.legacy == k
  }

  /** The answer is determined. */
  lemma ReportsDetermined(env: Env, seed: string, rows: seq<Row>, a: VerifyResult, b: VerifyResult)
    requires Reports(env, seed, rows, a) && Reports(env, seed, rows, b)
    ensures a == b
  {
    if !Intact(env, seed, rows) {
      forall j: nat, k: nat | FirstBroken(env, seed, rows, j) && FirstBroken(env, seed, rows, k) ensures j == k {
        if j < k {
          BrokenNotBefore(env, seed, rows, j, k);
        } else if k < j {
          BrokenNotBefore(env, seed, rows, k, j);
        }
      }
    }
  }

  /** The answer to a check of the rows from `seed`. */
  ghost function Check(env: Env, seed: string, rows: seq<Row>): (res: VerifyResult)
    ensures Reports(env, seed, rows, res)
  {
    ReportExists(env, seed, rows);
    var res :| Reports(env, seed, rows, res);
    res
  }

  /** A result meets the report's description if and only if it is the answer. */
  lemma CheckIsTheReport(env: Env, seed: string, rows: seq<Row>, res: VerifyResult)
    ensures Reports(env, seed, rows, res) <==> res == Check(env, seed, rows)
  {
    if Reports(env, seed, rows, res) {
      ReportsDetermined(env, seed, rows, res, Check(env, seed, rows));
    }
    hide Reports;
  }

  lemma {:induction false} BrokenExists(env: Env, seed: string, rows: seq<Row>) returns (k: nat)
    requires !Intact(env, seed, rows)
    ensures FirstBroken(env, seed, rows, k)
    decreases |rows|
  {
    var n := |rows| - 1;
    var front := rows[..n];
    assert rows == front + [rows[n]];
    IntactAppend(env, seed, front, rows[n]);
    hide Intact, RowIntact;
    if Intact(env, seed, front) {
      k := n;
      assert Predecessor(seed, front, n) == Predecessor(seed, rows, n);
    } else {
      k := BrokenExists(env, seed, front);
      assert front[..k] == rows[..k] && front[k] == rows[k];
      assert Predecessor(seed, front, k) == Predecessor(seed, rows, k);
    }
  }

  lemma ReportExists(env: Env, seed: string, rows: seq<Row>)
    ensures exists res :: Reports(env, seed, rows, res)
  {
    if Intact(env, seed, rows) {
      HashedBound(rows);
      assert Reports(env, seed, rows, VerifyResult(true, Hashed(rows), |rows| - Hashed(rows), 0, ""));
    } else {
      var k := BrokenExists(env, seed, rows);
      HashedBound(rows[..k]);
      hide Intact;
      assert Reports(env, seed, rows,
                     VerifyResult(false, Hashed(rows[..k]), k - Hashed(rows[..k]), rows[k].id,
                                  if rows[k].prev != Predecessor(seed, rows, k) then LINK else CONTENT));
    }
  }

  lemma BrokenNotBefore(env: Env, seed: string, rows: seq<Row>, j: nat, k: nat)
    requires j < k <= |rows| && Intact(env, seed, rows[..k])
    ensures IntactAt(env, seed, rows, j)
  {
    assert IntactAt(env, seed, rows[..k], j);
    assert rows[..k][j] == rows[j];
    assert Predecessor(seed, rows[..k], j) == Predecessor(seed, rows, j);
  }

  lemma IntactAppend(env: Env, seed: string, rows: seq<Row>, r: Row)
    ensures Intact(env, seed, rows + [r])
       <==> Intact(env, seed, rows) && RowIntact(env, Predecessor(seed, rows, |rows|), r)
  {
    var all := rows + [r];
    forall k | 0 <= k <= |rows|
      ensures Predecessor(seed, all, k) == Predecessor(seed, rows, k)
      ensures k < |rows| ==> all[k] == rows[k]
    {
    }
    if Intact(env, seed, rows) && RowIntact(env, Predecessor(seed, rows, |rows|), r) {
      forall k: nat | k < |all| ensures IntactAt(env, seed, all, k) {
        if k < |rows| {
          assert IntactAt(env, seed, rows, k);
        }
      }
    }
    if Intact(env, seed, all) {
      assert IntactAt(env, seed, all, |rows|);
      forall k | 0 <= k < |rows| ensures IntactAt(env, seed, rows, k) {
        assert IntactAt(env, seed, all, k);
      }
    }
  }

  lemma IntactCons(env: Env, p: string, x: Row, xs: seq<Row>)
    ensures Intact(env, p, [x] + xs) <==> RowIntact(env, p, x) && Intact(env, x.hash, xs)
  {
    var all := [x] + xs;
    if Intact(env, p, all) {
      assert IntactAt(env, p, all, 0);
      forall k: nat | k < |xs| ensures IntactAt(env, x.hash, xs, k) {
        assert IntactAt(env, p, all, k + 1);
      }
    }
    if RowIntact(env, p, x) && Intact(env, x.hash, xs) {
      forall k: nat | k < |all| ensures IntactAt(env, p, all, k) {
        if k > 0 {
          assert IntactAt(env, x.hash, xs, k - 1);
        }
      }
    }
  }

  lemma IntactDrop(env: Env, seed: string, rows: seq<Row>, c: nat)
    requires c <= |rows| && Intact(env, seed, rows)
    ensures Intact(env, Predecessor(seed, rows, c), rows[c..])
  {
    forall k | 0 <= k < |rows| - c
      ensures IntactAt(env, Predecessor(seed, rows, c), rows[c..], k)
    {
      assert IntactAt(env, seed, rows, c + k);
    }
  }

  lemma IntactTake(env: Env, seed: string, rows: seq<Row>, c: nat)
    requires c <= |rows| && Intact(env, seed, rows)
    ensures Intact(env, seed, rows[..c])
  {
    forall k | 0 <= k < c ensures IntactAt(env, seed, rows[..c], k) {
      assert IntactAt(env, seed, rows, k);
    }
  }
}
