// What the audit chain proves to somebody who checks it: which changes are
// reported, where, and what two chains with the same end must share.
module AuditTamper {
  import opened Text
  import opened Framing
  import opened AuditChain
  import CanonicalJson
  import CanonicalText

  /** SHA-256 separates the rows at hand: no two of them collide. */
  ghost predicate NoCollision(env: Env, xs: seq<Row>, ys: seq<Row>) {
    forall x, y | x in xs && y in ys && RowHash(env, x) == RowHash(env, y) ::
      Frame(RowParts(env, x)) == Frame(RowParts(env, y))
  }

  predicate AllHashed(rows: seq<Row>) {
    forall k | 0 <= k < |rows| :: rows[k].hash != ""
  }

  /** Rows written before chaining shipped come before all others. */
  predicate LegacyFirst(rows: seq<Row>) {
    forall i, j | 0 <= i < j < |rows| && rows[j].hash == "" :: rows[i].hash == ""
  }

  /** A hashed row's link is a digest or empty, so it holds no separator. */
  lemma IntactLinkClean(env: Env, seed: string, rows: seq<Row>, k: nat)
    requires HexDigest(env.sha) && Clean(seed) && Intact(env, seed, rows)
    requires k < |rows| && rows[k].hash != ""
    ensures Clean(rows[k].prev)
  {
    assert IntactAt(env, seed, rows, k);
    if k > 0 {
      assert IntactAt(env, seed, rows, k - 1);
      if rows[k - 1].hash != "" {
        DigestShape(env, rows[k - 1]);
      }
    }
  }

  /** The link is the first thing hashed, so equal frames name equal predecessors,
      whatever the other fields contain. */
  lemma EqualFramesEqualLinks(env: Env, x: Row, y: Row)
    requires Clean(x.prev) && Clean(y.prev)
    requires Frame(RowParts(env, x)) == Frame(RowParts(env, y))
    ensures x.prev == y.prev
  {
    var xs, ys := RowParts(env, x), RowParts(env, y);
    CleanHeadsAgree(xs[0], Frame(xs[1..]), ys[0], Frame(ys[1..]));
  }

  /** Equal digests of two intact rows name one predecessor, in whatever logs they stand. */
  lemma EqualHashesEqualLinks(env: Env, sx: string, xs: seq<Row>, i: nat, sy: string, ys: seq<Row>, j: nat)
    requires HexDigest(env.sha) && Clean(sx) && Clean(sy) && NoCollision(env, xs, ys)
    requires Intact(env, sx, xs) && Intact(env, sy, ys)
    requires i < |xs| && j < |ys| && xs[i].hash == ys[j].hash != ""
    ensures Frame(RowParts(env, xs[i])) == Frame(RowParts(env, ys[j]))
    ensures Predecessor(sx, xs, i) == Predecessor(sy, ys, j)
  {
    IntactLinkClean(env, sx, xs, i);
    IntactLinkClean(env, sy, ys, j);
    assert IntactAt(env, sx, xs, i);
    assert IntactAt(env, sy, ys, j);
    assert xs[i] in xs && ys[j] in ys;
    EqualFramesEqualLinks(env, xs[i], ys[j]);
  }

  // ---- hashes are distinct ---------------------------------------------------

  lemma {:induction false} HashesDistinct(env: Env, rows: seq<Row>, i: nat, j: nat)
    requires HexDigest(env.sha) && NoCollision(env, rows, rows)
    requires Intact(env, "", rows) && LegacyFirst(rows)
    requires i < j < |rows| && rows[i].hash != ""
    ensures rows[i].hash != rows[j].hash
  {
    if rows[i].hash == rows[j].hash {
      EqualHashesEqualLinks(env, "", rows, i, "", rows, j);
      assert rows[j - 1].hash != "";
      if i > 0 && rows[i - 1].hash != "" {
        HashesDistinct(env, rows, i - 1, j - 1);
      }
      assert false;
    }
  }

  /** No two hashed rows share a hash, and none has the hash the walk starts from - which a legacy
      row in front makes irrelevant. */
  predicate Fresh(seed: string, rows: seq<Row>) {
    (forall i, j | 0 <= i < j < |rows| && rows[i].hash != "" :: rows[i].hash != rows[j].hash)
    && (rows != [] && rows[0].hash != "" ==>
          forall i | 0 <= i < |rows| && rows[i].hash != "" :: rows[i].hash != seed)
  }

  /** A chain that starts from nothing is fresh, and so is what pruning leaves of it. */
  lemma ChainFresh(env: Env, history: seq<Row>, c: nat)
    requires HexDigest(env.sha) && NoCollision(env, history, history)
    requires Intact(env, "", history) && LegacyFirst(history) && c <= |history|
    ensures Fresh(Predecessor("", history, c), history[c..])
  {
    forall i, j | 0 <= i < j < |history| && history[i].hash != "" ensures history[i].hash != history[j].hash {
      HashesDistinct(env, history, i, j);
    }
  }

  // ---- one hash, one history -----------------------------------------------------

  /** The actor's id as text; an absent actor has the empty one. */
  function ActorText(who: Who): string {
    if who.actor.Some? then who.actor.value else ""
  }

  /** Two rows say the same: the same members in the payload, whatever their order, and the same in
      every other hashed column. The id is the table's own business. */
  predicate SameContent(c: CanonicalJson.Codec, x: Row, y: Row) {
    x.prev == y.prev && x.at == y.at
    && x.who.org == y.who.org && ActorText(x.who) == ActorText(y.who)
    && x.who.name == y.who.name && x.who.email == y.who.email && x.who.action == y.who.action
    && x.who.targetType == y.who.targetType && x.who.targetId == y.who.targetId && x.who.ip == y.who.ip
    && CanonicalText.Members(c, x.payload) == CanonicalText.Members(c, y.payload)
  }

  predicate SameRecord(c: CanonicalJson.Codec, x: Row, y: Row) {
    SameContent(c, x, y) && x.hash == y.hash
  }

  /** What is hashed of two rows is equal exactly when the rows say the same. */
  lemma SamePartsIff(env: Env, x: Row, y: Row)
    requires ClockText(env.clock) && CanonicalText.JsonTexts(env.codec) && InRange(x.at) && InRange(y.at)
    ensures RowParts(env, x) == RowParts(env, y) <==> SameContent(env.codec, x, y)
  {
    var xs, ys := RowParts(env, x), RowParts(env, y);
    CanonicalText.PayloadTextIff(env.codec, x.payload, y.payload);
    hide CanonicalText.Members, CanonicalText.JsonTexts, CanonicalJson.RederivedPayload;
    if xs == ys {
      assert xs[0] == ys[0] && xs[1] == ys[1] && xs[2] == ys[2] && xs[3] == ys[3] && xs[4] == ys[4] && xs[5] == ys[5];
      assert xs[6] == ys[6] && xs[7] == ys[7] && xs[8] == ys[8] && xs[9] == ys[9] && xs[10] == ys[10];
      StampInjective(env.clock, x.at, y.at);
    }
    hide Stamp, ClockText;
  }

  lemma EqualFramesSameRecord(env: Env, x: Row, y: Row)
    requires ClockText(env.clock) && CanonicalText.JsonTexts(env.codec)
    requires AllClean(RowParts(env, x)) && InRange(x.at) && InRange(y.at)
    requires Frame(RowParts(env, x)) == Frame(RowParts(env, y)) && x.hash == y.hash
    ensures SameRecord(env.codec, x, y)
  {
    CleanFrameDecodes(RowParts(env, x), RowParts(env, y));
    SamePartsIff(env, x, y);
  }

  /** How many rows up to `i`, and with it, are hashed without a break. */
  function HashedRun(rows: seq<Row>, i: nat): nat
    requires i < |rows|
  {
    if rows[i].hash == "" then 0
    else if i == 0 then 1
    else 1 + HashedRun(rows, i - 1)
  }

  lemma {:induction false} HashedRunIs(rows: seq<Row>, i: nat)
    requires i < |rows|
    ensures HashedRun(rows, i) <= i + 1
    ensures forall m | i - HashedRun(rows, i) < m <= i :: rows[m].hash != ""
    ensures HashedRun(rows, i) <= i ==> rows[i - HashedRun(rows, i)].hash == ""
  {
    if rows[i].hash != "" && i > 0 {
      HashedRunIs(rows, i - 1);
    }
  }

  /** A hash in common makes the hashes before it common. */
  lemma LinkBack(env: Env, sx: string, xs: seq<Row>, i: nat, sy: string, ys: seq<Row>, j: nat)
    requires HexDigest(env.sha) && Clean(sx) && Clean(sy) && NoCollision(env, xs, ys)
    requires Intact(env, sx, xs) && Intact(env, sy, ys)
    requires 0 < i < |xs| && 0 < j < |ys| && xs[i].hash == ys[j].hash != ""
    ensures xs[i - 1].hash == ys[j - 1].hash
  {
    EqualHashesEqualLinks(env, sx, xs, i, sy, ys, j);
    hide Intact, NoCollision, HexDigest;
  }

  /** And all before them, as far back as the first log is hashed without a break and the second has rows. */
  lemma {:induction false} HashesBack(env: Env, sx: string, xs: seq<Row>, i: nat,
                                      sy: string, ys: seq<Row>, j: nat, d: nat)
    requires HexDigest(env.sha) && Clean(sx) && Clean(sy) && NoCollision(env, xs, ys)
    requires Intact(env, sx, xs) && Intact(env, sy, ys)
    requires i < |xs| && j < |ys| && xs[i].hash == ys[j].hash
    requires d < HashedRun(xs, i) && d <= j
    ensures d <= i && xs[i - d].hash == ys[j - d].hash != ""
    decreases d
  {
    hide Intact, NoCollision, HexDigest, Clean;
    if d > 0 {
      LinkBack(env, sx, xs, i, sy, ys, j);
      HashesBack(env, sx, xs, i - 1, sy, ys, j - 1, d - 1);
    }
  }

  /** Two logs that check, each from an anchor of its own, and that have one hash in common, hold the
      same records up to it, row by row backwards, as far as the one is hashed without a break and the
      other has rows. Only that row of the one log need be free of the separator. */
  lemma OneHashOneHistory(env: Env, sx: string, xs: seq<Row>, i: nat, sy: string, ys: seq<Row>, j: nat, d: nat)
    requires HexDigest(env.sha) && ClockText(env.clock) && CanonicalText.JsonTexts(env.codec)
    requires Clean(sx) && Clean(sy) && NoCollision(env, xs, ys)
    requires Intact(env, sx, xs) && Intact(env, sy, ys)
    requires i < |xs| && j < |ys| && xs[i].hash == ys[j].hash
    requires d < HashedRun(xs, i) && d <= j && d <= i
    requires AllClean(RowParts(env, xs[i - d])) && InRange(xs[i - d].at) && InRange(ys[j - d].at)
    ensures SameRecord(env.codec, xs[i - d], ys[j - d])
  {
    hide Intact, RowParts, AllClean, NoCollision, HexDigest, ClockText, CanonicalText.JsonTexts;
    HashesBack(env, sx, xs, i, sy, ys, j, d);
    EqualHashesEqualLinks(env, sx, xs, i - d, sy, ys, j - d);
    EqualFramesSameRecord(env, xs[i - d], ys[j - d]);
  }

  /** In logs that start from nothing the rows hashed without a break are equally many. */
  lemma {:induction false} SameHashSameRun(env: Env, xs: seq<Row>, i: nat, ys: seq<Row>, j: nat)
    requires HexDigest(env.sha) && NoCollision(env, xs, ys)
    requires Intact(env, "", xs) && Intact(env, "", ys)
    requires i < |xs| && j < |ys| && xs[i].hash == ys[j].hash
    ensures HashedRun(xs, i) == HashedRun(ys, j)
  {
    if xs[i].hash != "" {
      EqualHashesEqualLinks(env, "", xs, i, "", ys, j);
      hide Intact, NoCollision, HexDigest;
      if i > 0 && j > 0 {
        SameHashSameRun(env, xs, i - 1, ys, j - 1);
      }
    }
  }

  lemma EmptyClean()
    ensures Clean("")
  {
  }

  /** Tamper evidence: whoever kept one hash of an unpruned log has a witness for every entry hashed
      without a break up to it. Any other log that checks and contains that hash has the same records
      before it, row by row, and before them it has nothing or a row without a hash. It need not have
      them at the same place: rows without a hash can stand in front. */
  lemma HashCommitsToHistory(env: Env, xs: seq<Row>, i: nat, ys: seq<Row>, j: nat, k: nat)
    requires HexDigest(env.sha) && ClockText(env.clock) && CanonicalText.JsonTexts(env.codec)
    requires NoCollision(env, xs, ys)
    requires Intact(env, "", xs) && Intact(env, "", ys)
    requires i < |xs| && j < |ys| && xs[i].hash == ys[j].hash
    requires k <= i && i - k < HashedRun(xs, i)
    requires AllClean(RowParts(env, xs[k])) && InRange(xs[k].at)
    requires i - k <= j ==> InRange(ys[j - (i - k)].at)
    ensures i - k <= j && SameRecord(env.codec, xs[k], ys[j - (i - k)])
    ensures HashedRun(xs, i) == HashedRun(ys, j) <= j + 1
    ensures j == HashedRun(ys, j) - 1 || ys[j - HashedRun(ys, j)].hash == ""
  {
    hide *;
    SameHashSameRun(env, xs, i, ys, j);
    HashedRunIs(ys, j);
    assert xs[i - (i - k)] == xs[k];
    EmptyClean();
    OneHashOneHistory(env, "", xs, i, "", ys, j, i - k);
  }

  // ---- where a change is reported --------------------------------------------------

  predicate Located(res: VerifyResult, id: nat, detail: string) {
    !res.ok && res.firstBrokenId == id && res.detail == detail
  }

  lemma BrokenAt(env: Env, seed: string, rows: seq<Row>, k: nat)
    requires FirstBroken(env, seed, rows, k)
    ensures var res := Check(env, seed, rows);
            Located(res, rows[k].id, if rows[k].prev != Predecessor(seed, rows, k) then LINK else CONTENT)
            && res.checked + res.legacy == k
  {
    var expected := VerifyResult(false, Hashed(rows[..k]), k - Hashed(rows[..k]), rows[k].id,
                                 if rows[k].prev != Predecessor(seed, rows, k) then LINK else CONTENT) by {
      HashedBound(rows[..k]);
    }
    assert !Intact(env, seed, rows);
    assert Reports(env, seed, rows, expected);
    ReportsDetermined(env, seed, rows, Check(env, seed, rows), expected);
  }

  /** The hash the walk carries past `front`. */
  function Reached(seed: string, front: seq<Row>): string {
    Predecessor(seed, front, |front|)
  }

  /** A log is intact exactly when its front is and the rest is intact after it. */
  lemma {:induction false} IntactSplit(env: Env, seed: string, front: seq<Row>, tail: seq<Row>)
    ensures Intact(env, seed, front + tail) <==> Intact(env, seed, front) && Intact(env, Reached(seed, front), tail)
    decreases |tail|
  {
    hide RowIntact;
    if tail == [] {
      assert front + tail == front;
    } else {
      var n := |tail| - 1;
      var all := front + tail[..n];
      assert front + tail == all + [tail[n]] && tail == tail[..n] + [tail[n]];
      IntactSplit(env, seed, front, tail[..n]);
      IntactAppend(env, seed, all, tail[n]);
      IntactAppend(env, Reached(seed, front), tail[..n], tail[n]);
      assert Predecessor(seed, all, |all|) == Predecessor(Reached(seed, front), tail[..n], n);
    }
  }

  /** The first broken row of a tail after an intact front. */
  lemma TailBroken(env: Env, seed: string, front: seq<Row>, tail: seq<Row>, j: nat)
    requires Intact(env, seed, front) && FirstBroken(env, Reached(seed, front), tail, j)
    ensures FirstBroken(env, seed, front + tail, |front| + j)
    ensures Predecessor(seed, front + tail, |front| + j) == Predecessor(Reached(seed, front), tail, j)
  {
    hide RowIntact;
    IntactSplit(env, seed, front, tail[..j]);
    assert (front + tail)[..|front| + j] == front + tail[..j];
  }

  /** Another row before the rest of a log: the next row sees only its hash. */
  lemma IntactPair(env: Env, p: string, r: Row, r': Row, rest: seq<Row>)
    requires rest != [] && Intact(env, r.hash, rest) && RowIntact(env, p, r')
    ensures Intact(env, p, [r'] + rest) <==> rest[0].hash == "" || r'.hash == r.hash
  {
    assert rest == [rest[0]] + rest[1..];
    IntactCons(env, r.hash, rest[0], rest[1..]);
    IntactCons(env, p, r', rest);
    IntactCons(env, r'.hash, rest[0], rest[1..]);
    hide Intact, RowHash;
  }

  // ---- one row overwritten ------------------------------------------------------------

  /** The row behind `k` does not tell that the hash before it changed to `h`. */
  predicate NextUnmoved(rows: seq<Row>, k: nat, h: string)
    requires k < |rows|
  {
    k + 1 == |rows| || rows[k + 1].hash == "" || h == rows[k].hash
  }

  lemma OverwriteSplit(env: Env, seed: string, rows: seq<Row>, k: nat, r: Row)
    requires Intact(env, seed, rows) && k < |rows|
    ensures var front, rest := rows[..k], rows[k + 1..];
            rows[k := r] == front + ([r] + rest) && Reached(seed, front) == Predecessor(seed, rows, k)
            && Intact(env, seed, front) && Intact(env, rows[k].hash, rest)
  {
    IntactTake(env, seed, rows, k);
    IntactDrop(env, seed, rows, k + 1);
  }

  lemma OverwriteHere(env: Env, seed: string, rows: seq<Row>, k: nat, r: Row)
    requires Intact(env, seed, rows) && k < |rows| && !RowIntact(env, Predecessor(seed, rows, k), r)
    ensures FirstBroken(env, seed, rows[k := r], k)
    ensures Predecessor(seed, rows[k := r], k) == Predecessor(seed, rows, k)
  {
    OverwriteSplit(env, seed, rows, k, r);
    assert rows[k := r][..k] == rows[..k];
  }

  lemma OverwriteNext(env: Env, seed: string, rows: seq<Row>, k: nat, r: Row)
    requires Intact(env, seed, rows) && k < |rows| && RowIntact(env, Predecessor(seed, rows, k), r)
    requires !NextUnmoved(rows, k, r.hash)
    ensures FirstBroken(env, seed, rows[k := r], k + 1)
    ensures rows[k + 1].prev != Predecessor(seed, rows[k := r], k + 1)
  {
    OverwriteSplit(env, seed, rows, k, r);
    assert IntactAt(env, seed, rows, k + 1);
    IntactAppend(env, seed, rows[..k], r);
    assert rows[k := r][..k + 1] == rows[..k] + [r];
  }

  lemma OverwriteUnseen(env: Env, seed: string, rows: seq<Row>, k: nat, r: Row)
    requires Intact(env, seed, rows) && k < |rows| && RowIntact(env, Predecessor(seed, rows, k), r)
    requires NextUnmoved(rows, k, r.hash)
    ensures Intact(env, seed, rows[k := r])
  {
    OverwriteSplit(env, seed, rows, k, r);
    var front, rest := rows[..k], rows[k + 1..];
    hide RowIntact, Intact;
    IntactSplit(env, seed, front, [r] + rest);
    if rest == [] {
      IntactAppend(env, Reached(seed, front), [], r);
      IntactCons(env, Reached(seed, front), r, rest);
    } else {
      IntactPair(env, Reached(seed, front), rows[k], r, rest);
    }
  }

  /** What becomes of overwriting any row of any sound log with any other row. It goes unseen if and
      only if the new row is unhashed or a consistent forgery, and the row behind it is missing,
      unhashed or finds the hash it links to. Otherwise it is reported at the row itself, as a link or
      a content mismatch, or, if the row itself passes, at the row behind it as a link mismatch. */
  lemma OverwriteLocated(env: Env, seed: string, rows: seq<Row>, k: nat, r: Row)
    requires Intact(env, seed, rows) && k < |rows|
    ensures var res, prev := Check(env, seed, rows[k := r]), Predecessor(seed, rows, k);
            (res.ok <==> RowIntact(env, prev, r) && NextUnmoved(rows, k, r.hash))
            && (r.hash != "" && r.prev != prev ==> Located(res, r.id, LINK))
            && (r.hash != "" && r.prev == prev && r.hash != RowHash(env, r) ==> Located(res, r.id, CONTENT))
            && (RowIntact(env, prev, r) && !NextUnmoved(rows, k, r.hash) ==> Located(res, rows[k + 1].id, LINK))
  {
    hide RowHash, Intact;
    if !RowIntact(env, Predecessor(seed, rows, k), r) {
      OverwriteHere(env, seed, rows, k, r);
      BrokenAt(env, seed, rows[k := r], k);
    } else if !NextUnmoved(rows, k, r.hash) {
      OverwriteNext(env, seed, rows, k, r);
      BrokenAt(env, seed, rows[k := r], k + 1);
    } else {
      OverwriteUnseen(env, seed, rows, k, r);
    }
  }

  /** The same for a hashed row of a log whose legacy rows come first: unseen if and only if the new
      row is unhashed and the last, or a consistent forgery that is the last or keeps the hash. */
  lemma HashedOverwriteUnseenIff(env: Env, seed: string, rows: seq<Row>, k: nat, r: Row)
    requires Intact(env, seed, rows) && LegacyFirst(rows) && k < |rows| && rows[k].hash != ""
    ensures Check(env, seed, rows[k := r]).ok
       <==> (r.hash == "" && k + 1 == |rows|)
            || (r.hash != "" && r.prev == rows[k].prev && r.hash == RowHash(env, r)
                && (k + 1 == |rows| || r.hash == rows[k].hash))
  {
    hide RowHash;
    OverwriteLocated(env, seed, rows, k, r);
    assert IntactAt(env, seed, rows, k);
    hide Intact;
  }

  /** Legacy rows vouch for nothing: overwriting one with any unhashed row goes unseen. */
  lemma LegacyOverwriteUnseen(env: Env, seed: string, rows: seq<Row>, k: nat, r: Row)
    requires Intact(env, seed, rows) && k < |rows| && rows[k].hash == "" && r.hash == ""
    ensures Check(env, seed, rows[k := r]).ok
  {
    OverwriteLocated(env, seed, rows, k, r);
    hide Intact;
  }

  // ---- rows replaced, inserted or taken out ---------------------------------------------

  /** `mid` in place of the rows between `a` and `b`. */
  function Spliced(rows: seq<Row>, a: nat, mid: seq<Row>, b: nat): seq<Row>
    requires a <= |rows| && b <= |rows|
  {
    rows[..a] + mid + rows[b..]
  }

  /** The row at `b`, if any, is unhashed or finds the hash it links to. */
  predicate Joined(seed: string, rows: seq<Row>, b: nat, h: string)
    requires b <= |rows|
  {
    b == |rows| || rows[b].hash == "" || h == Predecessor(seed, rows, b)
  }

  lemma JoinedIntact(env: Env, seed: string, rows: seq<Row>, b: nat, h: string)
    requires Intact(env, seed, rows) && b <= |rows|
    ensures Intact(env, h, rows[b..]) <==> Joined(seed, rows, b, h)
    ensures !Joined(seed, rows, b, h) ==> FirstBroken(env, h, rows[b..], 0) && rows[b].prev != h
  {
    var rest := rows[b..];
    if rest != [] {
      assert IntactAt(env, seed, rows, b);
      IntactDrop(env, seed, rows, b);
      assert rest == [rest[0]] + rest[1..];
      IntactCons(env, Predecessor(seed, rows, b), rest[0], rest[1..]);
      IntactCons(env, h, rest[0], rest[1..]);
      if !Joined(seed, rows, b, h) {
        assert !IntactAt(env, h, rest, 0);
        assert rest[..0] == [];
      }
    }
  }

  lemma ReachedThrough(seed: string, front: seq<Row>, mid: seq<Row>)
    ensures Reached(seed, front + mid) == Reached(Reached(seed, front), mid)
  {
  }

  /** Whatever is put in place of whatever stretch of a sound log - rows overwritten, removed, inserted
      or a whole end replaced - goes unseen if and only if the new rows check by themselves from the hash
      before them and the row behind them is missing, unhashed or links to the hash they end in.
      Otherwise the first new row that does not check is reported as it would be alone, or the row
      behind as a link mismatch. */
  lemma SpliceUnseenIff(env: Env, seed: string, rows: seq<Row>, a: nat, mid: seq<Row>, b: nat)
    requires Intact(env, seed, rows) && a <= |rows| && b <= |rows|
    ensures var p, res := Predecessor(seed, rows, a), Check(env, seed, Spliced(rows, a, mid, b));
            var alone := Check(env, p, mid);
            (res.ok <==> alone.ok && Joined(seed, rows, b, Reached(p, mid)))
            && (!alone.ok ==> Located(res, alone.firstBrokenId, alone.detail))
            && (alone.ok && !Joined(seed, rows, b, Reached(p, mid)) ==> Located(res, rows[b].id, LINK))
  {
    var p, front, rest := Predecessor(seed, rows, a), rows[..a], rows[b..];
    IntactTake(env, seed, rows, a);
    IntactSplit(env, seed, front, mid);
    IntactSplit(env, seed, front + mid, rest);
    ReachedThrough(seed, front, mid);
    JoinedIntact(env, seed, rows, b, Reached(p, mid));
    assert Reached(seed, front) == p;
    CheckOk(env, p, mid);
    CheckOk(env, seed, front + mid + rest);
    if !Intact(env, p, mid) {
      MidReported(env, seed, front, mid, rest);
    } else if !Joined(seed, rows, b, Reached(p, mid)) {
      hide Intact, RowIntact;
      TailBroken(env, seed, front + mid, rest, 0);
      BrokenAt(env, seed, front + mid + rest, |front + mid|);
      assert (front + mid + rest)[|front + mid|] == rows[b];
    }
    hide Intact, RowIntact, FirstBroken, Joined;
  }

  lemma CheckOk(env: Env, seed: string, rows: seq<Row>)
    ensures Check(env, seed, rows).ok <==> Intact(env, seed, rows)
  {
    hide Intact;
  }

  function Detail(seed: string, rows: seq<Row>, k: nat): string
    requires k < |rows|
  {
    if rows[k].prev != Predecessor(seed, rows, k) then LINK else CONTENT
  }

  lemma TailReported(env: Env, seed: string, front: seq<Row>, tail: seq<Row>, j: nat)
    requires Intact(env, seed, front) && FirstBroken(env, Reached(seed, front), tail, j)
    ensures Located(Check(env, seed, front + tail), tail[j].id, Detail(Reached(seed, front), tail, j))
  {
    TailBroken(env, seed, front, tail, j);
    hide Intact, FirstBroken, Predecessor, Reached, Located;
    BrokenAt(env, seed, front + tail, |front| + j);
  }

  lemma MidReported(env: Env, seed: string, front: seq<Row>, mid: seq<Row>, rest: seq<Row>)
    requires Intact(env, seed, front) && !Intact(env, Reached(seed, front), mid)
    ensures var alone := Check(env, Reached(seed, front), mid);
            Located(Check(env, seed, front + mid + rest), alone.firstBrokenId, alone.detail)
  {
    var p := Reached(seed, front);
    var j := BrokenExists(env, p, mid);
    BrokenStays(env, p, mid, rest, j);
    assert j < |mid| && (mid + rest)[j] == mid[j] && Detail(p, mid + rest, j) == Detail(p, mid, j);
    hide Intact, FirstBroken, Predecessor, Reached;
    BrokenAt(env, p, mid, j);
    TailReported(env, seed, front, mid + rest, j);
    Regroup(front, mid, rest);
  }

  lemma BrokenStays(env: Env, p: string, mid: seq<Row>, rest: seq<Row>, j: nat)
    requires FirstBroken(env, p, mid, j)
    ensures FirstBroken(env, p, mid + rest, j) && Predecessor(p, mid + rest, j) == Predecessor(p, mid, j)
  {
    hide RowIntact;
    assert (mid + rest)[..j] == mid[..j];
  }

  /** Inserting rows goes unseen if and only if they check by themselves and end in the hash they
      started from, or nothing hashed follows. */
  lemma InsertionUnseenIff(env: Env, seed: string, rows: seq<Row>, a: nat, mid: seq<Row>)
    requires Intact(env, seed, rows) && a <= |rows|
    ensures var p := Predecessor(seed, rows, a);
            Check(env, seed, rows[..a] + mid + rows[a..]).ok
            <==> Intact(env, p, mid) && (a == |rows| || rows[a].hash == "" || Reached(p, mid) == p)
  {
    SpliceUnseenIff(env, seed, rows, a, mid, a);
    CheckOk(env, Predecessor(seed, rows, a), mid);
    hide Intact;
  }

  // ---- an end replaced, a front put before ------------------------------------------------

  /** Rows without a hash in front of an unpruned log are never seen: they count as legacy. */
  lemma ForgedFrontUnseen(env: Env, rows: seq<Row>, forged: seq<Row>)
    requires Intact(env, "", rows) && forall r | r in forged :: r.hash == ""
    ensures var res := Check(env, "", forged + rows);
            res.ok && res.checked == Hashed(rows) && res.checked + res.legacy == |forged| + |rows|
  {
    UnhashedIntact(env, "", forged);
    IntactSplit(env, "", forged, rows);
    HashedAppend(forged, rows);
    assert Reached("", forged) == "" by {
      if forged != [] { assert forged[|forged| - 1] in forged; }
    }
    hide Intact, Hashed;
  }

  lemma {:induction false} UnhashedIntact(env: Env, p: string, rows: seq<Row>)
    requires forall r | r in rows :: r.hash == ""
    ensures Intact(env, p, rows) && Hashed(rows) == 0
  {
    if rows != [] {
      var n := |rows| - 1;
      assert rows[n] in rows && rows == rows[..n] + [rows[n]];
      forall r | r in rows[..n] ensures r.hash == "" { assert r in rows; }
      UnhashedIntact(env, p, rows[..n]);
      IntactAppend(env, p, rows[..n], rows[n]);
    }
  }

  lemma {:induction false} HashedAppend(xs: seq<Row>, ys: seq<Row>)
    ensures Hashed(xs + ys) == Hashed(xs) + Hashed(ys)
    decreases |ys|
  {
    if ys == [] {
      assert xs + ys == xs;
    } else {
      var n := |ys| - 1;
      HashedAppend(xs, ys[..n]);
      assert (xs + ys)[..|xs| + n] == xs + ys[..n];
    }
  }

  /** Replacing any end of a sound log by any other rows goes unseen if and only if the new rows
      check by themselves from the hash before them. */
  lemma EndReplacedUnseenIff(env: Env, seed: string, rows: seq<Row>, k: nat, forged: seq<Row>)
    requires Intact(env, seed, rows) && k <= |rows|
    ensures Check(env, seed, rows[..k] + forged).ok <==> Intact(env, Predecessor(seed, rows, k), forged)
  {
    IntactTake(env, seed, rows, k);
    IntactSplit(env, seed, rows[..k], forged);
    hide Intact;
    assert Reached(seed, rows[..k]) == Predecessor(seed, rows, k);
  }

  /** A row without a hash counts as legacy wherever it stands, so any end of a sound log can be
      replaced by any rows whose hashes are cleared, and the check still answers OK. The one trace
      is in the counts: the rows in front are checked, the others are called legacy. */
  lemma ClearedEndUnseen(env: Env, seed: string, rows: seq<Row>, k: nat, forged: seq<Row>)
    requires Intact(env, seed, rows) && k <= |rows|
    requires forall r | r in forged :: r.hash == ""
    ensures var res := Check(env, seed, rows[..k] + forged);
            res.ok && res.checked == Hashed(rows[..k]) && res.checked + res.legacy == k + |forged|
  {
    UnhashedIntact(env, Predecessor(seed, rows, k), forged);
    EndReplacedUnseenIff(env, seed, rows, k, forged);
    HashedAppend(rows[..k], forged);
    hide Intact;
  }

  /** A log cut off at its end still checks. */
  lemma TruncationUndetected(env: Env, seed: string, rows: seq<Row>, n: nat)
    requires Intact(env, seed, rows) && n <= |rows|
    ensures var res := Check(env, seed, rows[..n]); res.ok && res.checked + res.legacy == n
  {
    IntactTake(env, seed, rows, n);
  }

  // ---- one row edited ------------------------------------------------------------------------

  /** Changing anything of a hashed row but its hash and link is unseen if and only if the frame
      that is hashed stays the same; else it is reported at that row as a content mismatch. */
  lemma EditUnseenIff(env: Env, seed: string, rows: seq<Row>, k: nat, r: Row)
    requires Intact(env, seed, rows) && k < |rows| && rows[k].hash != ""
    requires NoCollision(env, [rows[k]], [r])
    requires r.id == rows[k].id && r.hash == rows[k].hash && r.prev == rows[k].prev
    ensures var res, same := Check(env, seed, rows[k := r]), Frame(RowParts(env, r)) == Frame(RowParts(env, rows[k]));
            (same ==> res.ok) && (!same ==> Located(res, r.id, CONTENT))
  {
    assert IntactAt(env, seed, rows, k);
    assert rows[k] in [rows[k]] && r in [r];
    OverwriteLocated(env, seed, rows, k, r);
    hide Intact, RowParts, Frame;
  }

  /** Of a row whose fields are free of the separator every edit of what is hashed is reported, at
      that row, and nothing else is: whatever the other rows hold. */
  lemma PartsEditDetected(env: Env, seed: string, rows: seq<Row>, k: nat, r: Row)
    requires Intact(env, seed, rows) && k < |rows| && rows[k].hash != "" && AllClean(RowParts(env, rows[k]))
    requires NoCollision(env, [rows[k]], [r])
    requires r.id == rows[k].id && r.hash == rows[k].hash && r.prev == rows[k].prev
    ensures var res, same := Check(env, seed, rows[k := r]), RowParts(env, r) == RowParts(env, rows[k]);
            (same ==> res.ok) && (!same ==> Located(res, r.id, CONTENT))
  {
    EditUnseenIff(env, seed, rows, k, r);
    if Frame(RowParts(env, r)) == Frame(RowParts(env, rows[k])) {
      CleanFrameDecodes(RowParts(env, rows[k]), RowParts(env, r));
    }
    hide Intact, NoCollision, RowParts, Frame;
  }

  /** So an edit goes unseen exactly when the row still says the same: of the payload any change of any
      member or array item, at any depth, is reported, and no reordering of members is. */
  lemma EditDetected(env: Env, seed: string, rows: seq<Row>, k: nat, r: Row)
    requires Intact(env, seed, rows) && k < |rows| && rows[k].hash != "" && AllClean(RowParts(env, rows[k]))
    requires NoCollision(env, [rows[k]], [r])
    requires r.id == rows[k].id && r.hash == rows[k].hash && r.prev == rows[k].prev
    requires ClockText(env.clock) && CanonicalText.JsonTexts(env.codec) && InRange(rows[k].at) && InRange(r.at)
    ensures var res := Check(env, seed, rows[k := r]);
            if SameContent(env.codec, r, rows[k]) then res.ok else Located(res, r.id, CONTENT)
  {
    PartsEditDetected(env, seed, rows, k, r);
    SamePartsIff(env, r, rows[k]);
    hide Intact, NoCollision, RowParts, AllClean, SameContent, CanonicalText.JsonTexts, ClockText;
  }

  // ---- one row removed -------------------------------------------------------------------------

  function Without(rows: seq<Row>, k: nat): seq<Row>
    requires k < |rows|
  {
    rows[..k] + rows[k + 1..]
  }

  /** Taking any row out of any sound log is unseen if and only if it was the last, a legacy row
      comes next, or the rows on both sides of the gap fit; else it is reported behind the gap. */
  lemma RemovalUnseenIff(env: Env, seed: string, rows: seq<Row>, k: nat)
    requires Intact(env, seed, rows) && k < |rows|
    ensures var res, unmoved := Check(env, seed, Without(rows, k)), NextUnmoved(rows, k, Predecessor(seed, rows, k));
            (unmoved ==> res.ok) && (!unmoved ==> Located(res, rows[k + 1].id, LINK))
  {
    OverwriteSplit(env, seed, rows, k, rows[k]);
    var front, rest := rows[..k], rows[k + 1..];
    IntactSplit(env, seed, front, rest);
    if rest != [] {
      assert rest == [rest[0]] + rest[1..];
      IntactCons(env, rows[k].hash, rest[0], rest[1..]);
      IntactCons(env, Reached(seed, front), rest[0], rest[1..]);
      if !NextUnmoved(rows, k, Predecessor(seed, rows, k)) {
        assert FirstBroken(env, Reached(seed, front), rest, 0) by { assert rest[..0] == []; }
        TailBroken(env, seed, front, rest, 0);
        BrokenAt(env, seed, front + rest, k);
      }
    }
    hide Intact, RowIntact;
  }

  /** In a log whose legacy rows come first and whose hashes are distinct, removing a hashed row is
      reported, at its successor, unless it was the last. Removing a legacy row is never reported in a
      log that starts from nothing. */
  lemma RemovalDetectedIff(env: Env, seed: string, rows: seq<Row>, k: nat)
    requires Intact(env, seed, rows) && LegacyFirst(rows) && Fresh(seed, rows) && k < |rows|
    ensures var res := Check(env, seed, Without(rows, k));
            (rows[k].hash != "" ==> (res.ok <==> k + 1 == |rows|)
                                    && (k + 1 < |rows| ==> Located(res, rows[k + 1].id, LINK)))
            && (rows[k].hash == "" ==> (res.ok <==> k > 0 || seed == "" || k + 1 == |rows| || rows[k + 1].hash == ""))
  {
    RemovalUnseenIff(env, seed, rows, k);
    hide Intact, Without;
  }
}
