// Repairing a broken chain: scripts/audit-rechain.py walks every org's rows like
// Verify, recomputes each hash from the stored row and rewrites what differs.
module AuditRechain {
  import opened Text
  import opened Framing
  import CanonicalJson
  import opened AuditChain
  import AuditTamper
  import ScriptJson

  /** UPDATE audit_log SET entry_hash = hash, prev_hash = prev WHERE id = id. */
  datatype Update = Update(id: nat, hash: string, prev: string)

  function PatchRow(r: Row, us: seq<Update>): Row
    decreases |us|
  {
    if us == [] then r
    else PatchRow(if us[0].id == r.id then r.(hash := us[0].hash, prev := us[0].prev) else r, us[1..])
  }

  /** The table after the updates of the script's one transaction. */
  function Apply(rows: seq<Row>, us: seq<Update>): seq<Row> {
    if rows == [] then [] else [PatchRow(rows[0], us)] + Apply(rows[1..], us)
  }

  /** The hashed columns as the script's query names them, an absent actor as "". */
  datatype Line = Line(actor: string, name: string, email: string, action: string,
                       ttype: string, tid: string, payload: CanonicalJson.Tree, ip: string, at: int)

  function Queried(r: Row): Line {
    Line(match r.who.actor case None => "" case Some(id) => id,
         r.who.name, r.who.email, r.who.action, r.who.targetType, r.who.targetId, r.payload, r.who.ip, r.at)
  }

  /** The parts the script hashes, with its own order of columns and its own print of the time. */
  function ScriptParts(env: Env, prev: string, r: Row): seq<string> {
    var l := Queried(r);
    [prev, r.who.org, l.actor, l.name, l.email, l.action, l.ttype, l.tid,
     CanonicalJson.RederivedPayload(env.codec, l.payload), l.ip, ScriptStamp(env.clock, l.at)]
  }

  /** The same parts with the payload text as Python writes it. */
  function PythonParts(env: Env, py: CanonicalJson.Codec, prev: string, r: Row): seq<string> {
    ScriptParts(env, prev, r)[8 := ScriptJson.ScriptPayload(py, r.payload)]
  }

  /** Python's text makes no difference where strings, and the numbers of this payload, print alike. */
  lemma PythonPartsAgree(env: Env, py: CanonicalJson.Codec, prev: string, r: Row)
    requires ScriptJson.QuoteAlike(py, env.codec) && ScriptJson.NumbersAlike(py, env.codec, r.payload)
    requires CanonicalJson.Decodes(env.codec, r.payload)
    ensures PythonParts(env, py, prev, r) == ScriptParts(env, prev, r)
  {
    ScriptJson.ScriptPayloadAgrees(py, env.codec, r.payload);
  }

  function Want(env: Env, prev: string, r: Row): string {
    env.sha(Frame(ScriptParts(env, prev, r)))
  }

  /** The script and the store hash a row alike. */
  lemma WantIsRowHash(env: Env, prev: string, r: Row)
    ensures forall h :: Want(env, prev, r) == RowHash(env, r.(prev := prev, hash := h))
    ensures r.prev == prev ==> Want(env, prev, r) == RowHash(env, r)
  {
    StampsAgree(env.clock, r.at);
    forall h ensures Want(env, prev, r) == RowHash(env, r.(prev := prev, hash := h)) {
      assert ScriptParts(env, prev, r) == RowParts(env, r.(prev := prev, hash := h));
    }
    if r.prev == prev {
      assert ScriptParts(env, prev, r) == RowParts(env, r);
    }
  }

  /** So does the hash over the payload text that Python itself prints. */
  lemma PythonHashIsRowHash(env: Env, py: CanonicalJson.Codec, prev: string, r: Row)
    requires ScriptJson.QuoteAlike(py, env.codec) && ScriptJson.NumbersAlike(py, env.codec, r.payload)
    requires CanonicalJson.Decodes(env.codec, r.payload)
    ensures forall h :: env.sha(Frame(PythonParts(env, py, prev, r))) == RowHash(env, r.(prev := prev, hash := h))
  {
    PythonPartsAgree(env, py, prev, r);
    WantIsRowHash(env, prev, r);
    hide PythonParts, ScriptParts, RowHash, Frame;
  }

  lemma WantShape(env: Env, prev: string, r: Row)
    requires HexDigest(env.sha)
    ensures Want(env, prev, r) != "" && Clean(Want(env, prev, r))
  {
    WantIsRowHash(env, prev, r);
    DigestShape(env, r.(prev := prev, hash := ""));
  }

  /** The updates the walk collects from one org's rows. */
  function Updates(env: Env, prev: string, rows: seq<Row>): seq<Update>
    decreases |rows|
  {
    if rows == [] then []
    else
      var r := rows[0];
      if r.hash == "" then Updates(env, "", rows[1..])
      else
        var want := Want(env, prev, r);
        (if want != r.hash then [Update(r.id, want, prev)] else []) + Updates(env, want, rows[1..])
  }

  /** The org's rows once its updates are applied. */
  function Rechained(env: Env, prev: string, rows: seq<Row>): (out: seq<Row>)
    ensures |out| == |rows|
    decreases |rows|
  {
    if rows == [] then []
    else
      var r := rows[0];
      if r.hash == "" then [r] + Rechained(env, "", rows[1..])
      else
        var want := Want(env, prev, r);
        [if want != r.hash then r.(hash := want, prev := prev) else r] + Rechained(env, want, rows[1..])
  }

  lemma UpdatesStep(env: Env, prev: string, rows: seq<Row>, k: nat)
    requires k < |rows|
    ensures Updates(env, prev, rows[k..])
         == if rows[k].hash == "" then Updates(env, "", rows[k + 1..])
            else (if Want(env, prev, rows[k]) != rows[k].hash
                  then [Update(rows[k].id, Want(env, prev, rows[k]), prev)] else [])
                 + Updates(env, Want(env, prev, rows[k]), rows[k + 1..])
  {
    hide Want;
    assert rows[k..][1..] == rows[k + 1..];
  }

  /** The walk over one org's rows. */
  method RechainOrg(env: Env, seed: string, rows: seq<Row>) returns (updates: seq<Update>)
    ensures updates == Updates(env, seed, rows)
  {
    updates := [];
    var prev := seed;
    ghost var all, todo := Updates(env, seed, rows), Updates(env, seed, rows[0..]);
    assert rows[0..] == rows;
    for k := 0 to |rows|
      invariant todo == Updates(env, prev, rows[k..])
      invariant all == updates + todo
    {
      hide Want, Updates;
      var r := rows[k];
      UpdatesStep(env, prev, rows, k);
      if r.hash == "" {
        prev := "";
        todo := Updates(env, "", rows[k + 1..]);
      } else {
        var want := Want(env, prev, r);
        todo := Updates(env, want, rows[k + 1..]);
        if want != r.hash {
          Regroup(updates, [Update(r.id, want, prev)], todo);
          updates := updates + [Update(r.id, want, prev)];
        } else {
          assert [] + todo == todo;
        }
        prev := want;
      }
    }
  }

  lemma AllUpdatesStep(env: Env, db: Db, orgs: seq<string>, k: nat)
    requires k < |orgs|
    ensures AllUpdates(env, db, orgs[k..])
         == Updates(env, Seed(db, orgs[k]), OrgRows(db.rows, orgs[k])) + AllUpdates(env, db, orgs[k + 1..])
  {
    hide Updates, OrgRows;
    assert orgs[k..][1..] == orgs[k + 1..];
  }

  /** The whole script: every org in turn, all updates collected. */
  method Rechain(env: Env, db: Db, orgs: seq<string>) returns (updates: seq<Update>)
    ensures updates == AllUpdates(env, db, orgs)
  {
    updates := [];
    ghost var all, todo := AllUpdates(env, db, orgs), AllUpdates(env, db, orgs[0..]);
    assert orgs[0..] == orgs;
    for k := 0 to |orgs|
      invariant todo == AllUpdates(env, db, orgs[k..])
      invariant all == updates + todo
    {
      AllUpdatesStep(env, db, orgs, k);
      hide Updates, OrgRows, AllUpdates;
      var mine := RechainOrg(env, Seed(db, orgs[k]), OrgRows(db.rows, orgs[k]));
      todo := AllUpdates(env, db, orgs[k + 1..]);
      Regroup(updates, mine, todo);
      updates := updates + mine;
    }
  }

  function AllUpdates(env: Env, db: Db, orgs: seq<string>): seq<Update> {
    if orgs == [] then []
    else Updates(env, Seed(db, orgs[0]), OrgRows(db.rows, orgs[0])) + AllUpdates(env, db, orgs[1..])
  }

  // ---- applying the updates gives the rechained rows -------------------------

  predicate DistinctIds(rows: seq<Row>) {
    forall i, j | 0 <= i < j < |rows| :: rows[i].id != rows[j].id
  }

  lemma {:induction false} PatchMiss(r: Row, us: seq<Update>)
    requires forall u | u in us :: u.id != r.id
    ensures PatchRow(r, us) == r
  {
    if us != [] {
      assert us[0] in us;
      PatchMiss(r, us[1..]);
    }
  }

  lemma {:induction false} PatchAppend(r: Row, us: seq<Update>, vs: seq<Update>)
    ensures PatchRow(r, us + vs) == PatchRow(PatchRow(r, us), vs)
    decreases |us|
  {
    if us == [] {
      assert us + vs == vs;
    } else {
      assert (us + vs)[1..] == us[1..] + vs;
      PatchAppend(if us[0].id == r.id then r.(hash := us[0].hash, prev := us[0].prev) else r, us[1..], vs);
    }
  }

  lemma {:induction false} UpdateIds(env: Env, prev: string, rows: seq<Row>)
    ensures forall u | u in Updates(env, prev, rows) :: exists i :: 0 <= i < |rows| && rows[i].id == u.id
    decreases |rows|
  {
    hide Want;
    if rows != [] {
      var next := if rows[0].hash == "" then "" else Want(env, prev, rows[0]);
      UpdateIds(env, next, rows[1..]);
      forall u | u in Updates(env, prev, rows) ensures exists i :: 0 <= i < |rows| && rows[i].id == u.id {
        if u in Updates(env, next, rows[1..]) {
          var i :| 0 <= i < |rows[1..]| && rows[1..][i].id == u.id;
          assert rows[i + 1].id == u.id;
        } else {
          assert rows[0].id == u.id;
        }
      }
    }
  }

  lemma {:induction false} ApplyAppend(rows: seq<Row>, us: seq<Update>, vs: seq<Update>)
    ensures Apply(rows, us + vs) == Apply(Apply(rows, us), vs)
  {
    if rows != [] {
      PatchAppend(rows[0], us, vs);
      ApplyAppend(rows[1..], us, vs);
      assert Apply(rows, us)[1..] == Apply(rows[1..], us);
    }
  }

  lemma {:induction false} ApplyMiss(rows: seq<Row>, us: seq<Update>)
    requires forall u, r | u in us && r in rows :: u.id != r.id
    ensures Apply(rows, us) == rows
  {
    if rows != [] {
      assert rows[0] in rows;
      PatchMiss(rows[0], us);
      forall u, r | u in us && r in rows[1..] ensures u.id != r.id { assert r in rows; }
      ApplyMiss(rows[1..], us);
    }
  }

  lemma ApplyOthers(r: Row, rest: seq<Row>, later: seq<Update>)
    requires forall u | u in later :: u.id != r.id
    ensures Apply([r] + rest, later) == [r] + Apply(rest, later)
  {
    PatchMiss(r, later);
    assert ([r] + rest)[1..] == rest;
  }

  /** The first row's own update does not reach the rest. */
  lemma ApplyFirst(r: Row, rest: seq<Row>, u: Update, later: seq<Update>)
    requires u.id == r.id && (forall x | x in rest :: x.id != r.id) && forall v | v in later :: v.id != r.id
    ensures Apply([r] + rest, [u] + later) == [r.(hash := u.hash, prev := u.prev)] + Apply(rest, later)
  {
    var patched := r.(hash := u.hash, prev := u.prev);
    PatchOne(r, u);
    ApplyAppend([r] + rest, [u], later);
    assert ([r] + rest)[1..] == rest;
    ApplyMiss(rest, [u]);
    ApplyOthers(patched, rest, later);
  }

  lemma PatchOne(r: Row, u: Update)
    requires u.id == r.id
    ensures PatchRow(r, [u]) == r.(hash := u.hash, prev := u.prev)
  {
  }

  lemma LaterMiss(env: Env, next: string, rows: seq<Row>)
    requires DistinctIds(rows) && rows != []
    ensures forall x | x in rows[1..] :: x.id != rows[0].id
    ensures forall u | u in Updates(env, next, rows[1..]) :: u.id != rows[0].id
  {
    hide Updates;
    var rest := rows[1..];
    UpdateIds(env, next, rest);
    forall x | x in rest ensures x.id != rows[0].id {
      var i :| 0 <= i < |rest| && rest[i] == x;
      assert rows[i + 1] == x;
    }
    forall u | u in Updates(env, next, rest) ensures u.id != rows[0].id {
      var i :| 0 <= i < |rest| && rest[i].id == u.id;
      assert rest[i] in rest;
    }
  }

  /** The updates of an org's rows, run against those rows, rechain them. */
  lemma {:induction false} ApplyUpdates(env: Env, prev: string, rows: seq<Row>)
    requires DistinctIds(rows)
    ensures Apply(rows, Updates(env, prev, rows)) == Rechained(env, prev, rows)
    decreases |rows|
  {
    hide Want;
    if rows != [] {
      hide Apply;
      var r, rest := rows[0], rows[1..];
      var next := if r.hash == "" then "" else Want(env, prev, r);
      LaterMiss(env, next, rows);
      ApplyUpdates(env, next, rest);
      assert rows == [r] + rest;
      if r.hash != "" && next != r.hash {
        ApplyFirst(r, rest, Update(r.id, next, prev), Updates(env, next, rest));
      } else {
        ApplyOthers(r, rest, Updates(env, next, rest));
        assert [] + Updates(env, next, rest) == Updates(env, next, rest);
      }
    }
  }

  // ---- what the repair changes -------------------------------------------------

  lemma {:induction false} RechainedKeepsRows(env: Env, prev: string, rows: seq<Row>, k: nat)
    requires k < |rows|
    ensures var r := Rechained(env, prev, rows)[k];
            r == rows[k].(hash := r.hash, prev := r.prev)
            && (rows[k].hash == "" ==> r == rows[k])
            && (r.hash == rows[k].hash ==> r == rows[k])
    decreases |rows|
  {
    hide Want;
    if k > 0 {
      RechainedKeepsRows(env, if rows[0].hash == "" then "" else Want(env, prev, rows[0]), rows[1..], k - 1);
    }
  }

  /** Nothing but entry_hash and prev_hash changes, and a row keeps its link unless it gets a new hash. */
  lemma RepairChangesOnlyHashes(env: Env, prev: string, rows: seq<Row>, k: nat)
    requires k < |rows|
    ensures var r := Rechained(env, prev, rows)[k];
            r.id == rows[k].id && r.who == rows[k].who && r.payload == rows[k].payload && r.at == rows[k].at
            && (rows[k].hash == "" ==> r == rows[k])
            && (r.hash == rows[k].hash ==> r.prev == rows[k].prev)
  {
    RechainedKeepsRows(env, prev, rows, k);
  }

  /** A chain that checks is left alone: no update is issued. */
  lemma {:induction false} IntactLeftAlone(env: Env, seed: string, rows: seq<Row>)
    requires Intact(env, seed, rows)
    ensures Updates(env, seed, rows) == [] && Rechained(env, seed, rows) == rows
    decreases |rows|
  {
    hide Want, RowHash;
    if rows != [] {
      var r, rest := rows[0], rows[1..];
      assert rows == [r] + rest;
      IntactCons(env, seed, r, rest);
      WantIsRowHash(env, seed, r);
      IntactLeftAlone(env, r.hash, rest);
    }
  }

  /** Running the script again after it was applied issues no update, whatever the rows were. */
  lemma {:induction false} SecondRunIdle(env: Env, seed: string, rows: seq<Row>)
    requires HexDigest(env.sha)
    ensures Updates(env, seed, Rechained(env, seed, rows)) == []
    decreases |rows|
  {
    hide HexDigest, RowHash, Want;
    if rows != [] {
      var r, rest := rows[0], rows[1..];
      var next := if r.hash == "" then "" else Want(env, seed, r);
      SecondRunIdle(env, next, rest);
      var out := Rechained(env, seed, rows);
      assert out[1..] == Rechained(env, next, rest);
      if r.hash != "" {
        WantShape(env, seed, r);
        var r' := r.(hash := next, prev := seed);
        WantIsRowHash(env, seed, r);
        WantIsRowHash(env, seed, r');
        assert out[0] == r || out[0] == r';
      }
    }
  }

  // ---- when the repaired chain checks --------------------------------------------

  /** The recomputed hash of row `k`. */
  function Recomputed(env: Env, seed: string, rows: seq<Row>, k: nat): string
    requires k < |rows|
  {
    Rechained(env, seed, rows)[k].hash
  }

  function RecomputedLink(env: Env, seed: string, rows: seq<Row>, k: nat): string
    requires k < |rows|
  {
    if k == 0 then seed else Recomputed(env, seed, rows, k - 1)
  }

  /** No row that already carries its recomputed hash carries a link other than the recomputed one. */
  ghost predicate KeptLinksRight(env: Env, seed: string, rows: seq<Row>) {
    forall k: nat | k < |rows| :: KeptLinkRight(env, seed, rows, k)
  }

  predicate KeptLinkRight(env: Env, seed: string, rows: seq<Row>, k: nat)
    requires k < |rows|
  {
    rows[k].hash != "" && Recomputed(env, seed, rows, k) == rows[k].hash ==>
      rows[k].prev == RecomputedLink(env, seed, rows, k)
  }

  lemma RecomputedTail(env: Env, seed: string, rows: seq<Row>)
    requires rows != []
    ensures var next := if rows[0].hash == "" then "" else Want(env, seed, rows[0]);
            Recomputed(env, seed, rows, 0) == next
            && forall k: nat | k < |rows| - 1 ::
                 Recomputed(env, next, rows[1..], k) == Recomputed(env, seed, rows, k + 1)
                 && RecomputedLink(env, next, rows[1..], k) == RecomputedLink(env, seed, rows, k + 1)
  {
    hide ScriptParts;
  }

  lemma KeptLinksCons(env: Env, seed: string, rows: seq<Row>)
    requires rows != []
    ensures var next := if rows[0].hash == "" then "" else Want(env, seed, rows[0]);
            KeptLinksRight(env, seed, rows)
            <==> KeptLinkRight(env, seed, rows, 0) && KeptLinksRight(env, next, rows[1..])
  {
    var next := if rows[0].hash == "" then "" else Want(env, seed, rows[0]);
    RecomputedTail(env, seed, rows);
    hide Want, Recomputed, RecomputedLink;
    if KeptLinksRight(env, seed, rows) {
      forall k: nat | k < |rows| - 1 ensures KeptLinkRight(env, next, rows[1..], k) {
        assert KeptLinkRight(env, seed, rows, k + 1);
      }
    }
    if KeptLinkRight(env, seed, rows, 0) && KeptLinksRight(env, next, rows[1..]) {
      forall k: nat | k < |rows| ensures KeptLinkRight(env, seed, rows, k) {
        if k > 0 {
          assert KeptLinkRight(env, next, rows[1..], k - 1);
        }
      }
    }
  }

  /** The repaired chain checks exactly when every row left as it was had the right link:
      the script compares hashes only, and writes the link only with a new hash. */
  lemma {:induction false} RepairVerifiesIff(env: Env, seed: string, rows: seq<Row>)
    requires HexDigest(env.sha)
    ensures Intact(env, seed, Rechained(env, seed, rows)) <==> KeptLinksRight(env, seed, rows)
    decreases |rows|
  {
    if rows != [] {
      var r, rest := rows[0], rows[1..];
      var next := if r.hash == "" then "" else Want(env, seed, r);
      var out := Rechained(env, seed, rows);
      RepairVerifiesIff(env, next, rest);
      KeptLinksCons(env, seed, rows);
      RecomputedTail(env, seed, rows);
      assert out == [out[0]] + Rechained(env, next, rest);
      IntactCons(env, seed, out[0], Rechained(env, next, rest));
      RepairedHead(env, seed, rows);
    }
  }

  lemma RepairedHead(env: Env, seed: string, rows: seq<Row>)
    requires HexDigest(env.sha) && rows != []
    ensures var r := Rechained(env, seed, rows)[0];
            r.hash == (if rows[0].hash == "" then "" else Want(env, seed, rows[0]))
            && (RowIntact(env, seed, r) <==> KeptLinkRight(env, seed, rows, 0))
  {
    var r := rows[0];
    WantIsRowHash(env, seed, r);
    WantShape(env, seed, r);
    hide RowHash, Want, HexDigest;
    if r.hash != "" && Want(env, seed, r) != r.hash {
      var r' := r.(prev := seed, hash := Want(env, seed, r));
      assert Rechained(env, seed, rows)[0] == r';
      assert RowIntact(env, seed, r');
    }
  }

  /** The rows as an older build wrote them: each linked to the row before it and hashed with
      some payload text of its own, canonical or not. */
  ghost predicate WrittenWith(env: Env, seed: string, rows: seq<Row>, texts: seq<string>) {
    |texts| == |rows|
    && forall k: nat | k < |rows| :: WrittenAt(env, seed, rows, texts[k], k)
  }

  ghost predicate WrittenAt(env: Env, seed: string, rows: seq<Row>, text: string, k: nat)
    requires k < |rows|
  {
    rows[k].hash != "" ==>
      rows[k].prev == Predecessor(seed, rows, k)
      && rows[k].hash == env.sha(WrittenFrame(env, rows[k], text))
  }

  function WrittenFrame(env: Env, r: Row, text: string): string {
    Frame(Parts(env, r.prev, r.who, text, r.at))
  }

  function RecomputedFrame(env: Env, seed: string, rows: seq<Row>, k: nat): string
    requires k < |rows|
  {
    Frame(ScriptParts(env, RecomputedLink(env, seed, rows, k), rows[k]))
  }

  /** SHA-256 separates what was hashed for a row from what the script hashes for it. */
  ghost predicate NoCollisionInRepair(env: Env, seed: string, rows: seq<Row>, texts: seq<string>)
    requires |texts| == |rows|
  {
    forall k: nat | k < |rows| ::
      env.sha(WrittenFrame(env, rows[k], texts[k])) == env.sha(RecomputedFrame(env, seed, rows, k)) ==>
        WrittenFrame(env, rows[k], texts[k]) == RecomputedFrame(env, seed, rows, k)
  }

  lemma {:induction false} RecomputedIsWant(env: Env, seed: string, rows: seq<Row>, k: nat)
    requires k < |rows| && rows[k].hash != ""
    ensures Recomputed(env, seed, rows, k) == env.sha(RecomputedFrame(env, seed, rows, k))
    decreases |rows|
  {
    if k > 0 {
      var next := if rows[0].hash == "" then "" else Want(env, seed, rows[0]);
      RecomputedTail(env, seed, rows);
      RecomputedIsWant(env, next, rows[1..], k - 1);
    }
  }

  lemma {:induction false} RecomputedClean(env: Env, seed: string, rows: seq<Row>, k: nat)
    requires HexDigest(env.sha) && k < |rows|
    ensures Clean(Recomputed(env, seed, rows, k))
    decreases |rows|
  {
    hide Want, RowHash, HexDigest;
    var next := if rows[0].hash == "" then "" else Want(env, seed, rows[0]);
    RecomputedTail(env, seed, rows);
    WantShape(env, seed, rows[0]);
    if k > 0 {
      RecomputedClean(env, next, rows[1..], k - 1);
    }
  }

  lemma RecomputedLinkClean(env: Env, seed: string, rows: seq<Row>, k: nat)
    requires HexDigest(env.sha) && Clean(seed) && k < |rows|
    ensures Clean(RecomputedLink(env, seed, rows, k))
  {
    if k > 0 {
      RecomputedClean(env, seed, rows, k - 1);
    }
  }

  lemma WrittenLinkClean(env: Env, seed: string, rows: seq<Row>, texts: seq<string>, k: nat)
    requires HexDigest(env.sha) && Clean(seed) && k < |rows| && rows[k].hash != ""
    requires WrittenWith(env, seed, rows, texts)
    ensures Clean(rows[k].prev)
  {
    assert WrittenAt(env, seed, rows, texts[k], k);
    if k > 0 {
      assert WrittenAt(env, seed, rows, texts[k - 1], k - 1);
      DigestClean(env.sha, WrittenFrame(env, rows[k - 1], texts[k - 1]));
    }
    hide HexDigest;
  }

  lemma DigestClean(sha: string -> string, s: string)
    requires HexDigest(sha)
    ensures Clean(sha(s))
  {
    var h := sha(s);
    assert |h| == 64;
    forall i | 0 <= i < |h| ensures h[i] != SEP {
      assert h[i] in "0123456789abcdef";
    }
  }

  lemma UnchangedLinkRight(env: Env, seed: string, rows: seq<Row>, texts: seq<string>, k: nat)
    requires HexDigest(env.sha) && Clean(seed) && k < |rows|
    requires WrittenWith(env, seed, rows, texts) && NoCollisionInRepair(env, seed, rows, texts)
    ensures KeptLinkRight(env, seed, rows, k)
  {
    hide HexDigest, Rechained, Frame, Stamp, ScriptStamp, Recomputed, RecomputedLink;
    assert WrittenAt(env, seed, rows, texts[k], k);
    if rows[k].hash != "" {
      WrittenLinkClean(env, seed, rows, texts, k);
    }
    if rows[k].hash != "" && Recomputed(env, seed, rows, k) == rows[k].hash {
      RecomputedIsWant(env, seed, rows, k);
      var link := RecomputedLink(env, seed, rows, k);
      RecomputedLinkClean(env, seed, rows, k);
      var written := Parts(env, rows[k].prev, rows[k].who, texts[k], rows[k].at);
      var again := ScriptParts(env, link, rows[k]);
      assert Frame(written) == Frame(again);
      FramesLink(written, again);
    }
  }

  lemma FramesLink(xs: seq<string>, ys: seq<string>)
    requires xs != [] && ys != [] && Clean(xs[0]) && Clean(ys[0]) && Frame(xs) == Frame(ys)
    ensures xs[0] == ys[0]
  {
    CleanHeadsAgree(xs[0], Frame(xs[1..]), ys[0], Frame(ys[1..]));
  }

  /** Repair correctness: rows linked when they were written, but hashed over payload text that
      need not be canonical, check once the script's updates are applied. */
  lemma RepairVerifies(env: Env, seed: string, rows: seq<Row>, texts: seq<string>)
    requires HexDigest(env.sha) && Clean(seed) && DistinctIds(rows)
    requires WrittenWith(env, seed, rows, texts) && NoCollisionInRepair(env, seed, rows, texts)
    ensures Intact(env, seed, Apply(rows, Updates(env, seed, rows)))
  {
    forall k: nat | k < |rows| ensures KeptLinkRight(env, seed, rows, k) {
      UnchangedLinkRight(env, seed, rows, texts, k);
    }
    RepairVerifiesIff(env, seed, rows);
    ApplyUpdates(env, seed, rows);
  }

  /** Damage the script cannot see: when only a row's prev_hash was altered, it reports the chain
      as consistent and issues nothing, and Verify still answers a link mismatch at that row. */
  lemma LinkOnlyDamageNotRepaired(env: Env, seed: string, rows: seq<Row>, k: nat, bad: string)
    requires Intact(env, seed, rows) && k < |rows| && rows[k].hash != "" && bad != rows[k].prev
    ensures Updates(env, seed, rows[k := rows[k].(prev := bad)]) == []
    ensures AuditTamper.Located(Check(env, seed, rows[k := rows[k].(prev := bad)]), rows[k].id, LINK)
  {
    UpdatesIgnoreLink(env, seed, rows, k, bad);
    IntactLeftAlone(env, seed, rows);
    var r := rows[k].(prev := bad);
    assert IntactAt(env, seed, rows, k);
    AuditTamper.OverwriteHere(env, seed, rows, k, r);
    AuditTamper.BrokenAt(env, seed, rows[k := r], k);
  }

  lemma {:induction false} UpdatesIgnoreLink(env: Env, seed: string, rows: seq<Row>, k: nat, bad: string)
    requires k < |rows|
    ensures Updates(env, seed, rows[k := rows[k].(prev := bad)]) == Updates(env, seed, rows)
    decreases |rows|
  {
    var rows' := rows[k := rows[k].(prev := bad)];
    assert Want(env, seed, rows'[0]) == Want(env, seed, rows[0]);
    hide Want;
    if k > 0 {
      UpdatesIgnoreLink(env, if rows[0].hash == "" then "" else Want(env, seed, rows[0]), rows[1..], k - 1, bad);
      assert rows'[1..] == rows[1..][k - 1 := rows[k].(prev := bad)];
    } else {
      assert rows'[1..] == rows[1..];
    }
  }

  // ---- the whole table -----------------------------------------------------------

  lemma PatchKeepsWho(r: Row, us: seq<Update>)
    ensures PatchRow(r, us).who == r.who && PatchRow(r, us).id == r.id
    decreases |us|
  {
    if us != [] {
      PatchKeepsWho(if us[0].id == r.id then r.(hash := us[0].hash, prev := us[0].prev) else r, us[1..]);
    }
  }

  lemma {:induction false} OrgRowsOfApply(rows: seq<Row>, us: seq<Update>, org: string)
    ensures OrgRows(Apply(rows, us), org) == Apply(OrgRows(rows, org), us)
  {
    if rows != [] {
      PatchKeepsWho(rows[0], us);
      OrgRowsOfApply(rows[1..], us, org);
      OrgRowsCons(PatchRow(rows[0], us), Apply(rows[1..], us), org);
      var rest := OrgRows(rows[1..], org);
      assert [] + rest == rest && ([rows[0]] + rest)[1..] == rest;
    }
  }

  lemma {:induction false} AllUpdatesIds(env: Env, db: Db, orgs: seq<string>)
    ensures forall u | u in AllUpdates(env, db, orgs) :: exists r :: r in db.rows && r.id == u.id && r.who.org in orgs
  {
    if orgs != [] {
      var mine := OrgRows(db.rows, orgs[0]);
      UpdateIds(env, Seed(db, orgs[0]), mine);
      OrgRowsAreOfOrg(db.rows, orgs[0]);
      AllUpdatesIds(env, db, orgs[1..]);
      hide Updates;
      forall u | u in AllUpdates(env, db, orgs)
        ensures exists r :: r in db.rows && r.id == u.id && r.who.org in orgs
      {
        if u in Updates(env, Seed(db, orgs[0]), mine) {
          var i :| 0 <= i < |mine| && mine[i].id == u.id;
          assert mine[i] in mine;
        } else {
          var r :| r in db.rows && r.id == u.id && r.who.org in orgs[1..];
        }
      }
    }
  }

  lemma {:induction false} OrgRowsDistinct(rows: seq<Row>, org: string)
    requires DistinctIds(rows)
    ensures DistinctIds(OrgRows(rows, org))
  {
    if rows != [] {
      OrgRowsDistinct(rows[1..], org);
      OrgRowsAreOfOrg(rows[1..], org);
      forall r | r in rows[1..] ensures r.id != rows[0].id {
        var i :| 0 <= i < |rows[1..]| && rows[1..][i] == r;
        assert rows[i + 1] == r;
      }
    }
  }

  lemma OtherRowOtherId(rows: seq<Row>, a: Row, b: Row)
    requires DistinctIds(rows) && a in rows && b in rows && a != b
    ensures a.id != b.id
  {
  }

  /** One org's rows after all orgs' updates: the updates of other orgs pass it by. */
  lemma {:induction false} ApplyAllUpdates(env: Env, db: Db, orgs: seq<string>, org: string)
    requires DistinctIds(db.rows) && org in orgs
    requires forall i, j | 0 <= i < j < |orgs| :: orgs[i] != orgs[j]
    ensures Apply(OrgRows(db.rows, org), AllUpdates(env, db, orgs))
         == Rechained(env, Seed(db, org), OrgRows(db.rows, org))
  {
    var mine, rows := OrgRows(db.rows, org), OrgRows(db.rows, orgs[0]);
    var first, rest := Updates(env, Seed(db, orgs[0]), rows), AllUpdates(env, db, orgs[1..]);
    OrgRowsAreOfOrg(db.rows, org);
    OrgRowsAreOfOrg(db.rows, orgs[0]);
    ApplyAppend(mine, first, rest);
    if org == orgs[0] {
      OrgRowsDistinct(db.rows, org);
      ApplyUpdates(env, Seed(db, org), mine);
      AllUpdatesIds(env, db, orgs[1..]);
      var out := Rechained(env, Seed(db, org), mine);
      forall u, r | u in rest && r in out ensures u.id != r.id {
        var k :| 0 <= k < |out| && out[k] == r;
        RechainedKeepsRows(env, Seed(db, org), mine, k);
        assert mine[k] in mine && org !in orgs[1..];
        var x :| x in db.rows && x.id == u.id && x.who.org in orgs[1..];
        OtherRowOtherId(db.rows, x, mine[k]);
      }
      ApplyMiss(out, rest);
    } else {
      UpdateIds(env, Seed(db, orgs[0]), rows);
      forall u, r | u in first && r in mine ensures u.id != r.id {
        var i :| 0 <= i < |rows| && rows[i].id == u.id;
        assert rows[i] in rows;
        OtherRowOtherId(db.rows, rows[i], r);
      }
      ApplyMiss(mine, first);
      ApplyAllUpdates(env, db, orgs[1..], org);
    }
  }

  /** After the script's transaction every org it visited checks, if its rows were linked when
      they were written. */
  lemma RechainRepairsEveryOrg(env: Env, db: Db, orgs: seq<string>, org: string, texts: seq<string>)
    requires HexDigest(env.sha) && DistinctIds(db.rows) && org in orgs
    requires forall i, j | 0 <= i < j < |orgs| :: orgs[i] != orgs[j]
    requires Clean(Seed(db, org)) && WrittenWith(env, Seed(db, org), OrgRows(db.rows, org), texts)
    requires NoCollisionInRepair(env, Seed(db, org), OrgRows(db.rows, org), texts)
    ensures Intact(env, Seed(db, org), OrgRows(Apply(db.rows, AllUpdates(env, db, orgs)), org))
  {
    var mine := OrgRows(db.rows, org);
    OrgRowsOfApply(db.rows, AllUpdates(env, db, orgs), org);
    ApplyAllUpdates(env, db, orgs, org);
    OrgRowsDistinct(db.rows, org);
    RepairVerifies(env, Seed(db, org), mine, texts);
    ApplyUpdates(env, Seed(db, org), mine);
  }
}
