// Pruning deletes by time but anchors by id (ee/audit/store.go:258-277), while
// Record stamps the time before it takes the lock. When the two orders disagree
// a prune can break a sound chain; this module says exactly when.
module AuditPrune {
  import opened Text
  import opened AuditChain
  import opened AuditTamper

  /** Where the walk over the survivors starts. */
  function SeedAfter(seed: string, rows: seq<Row>, cutoff: int): string {
    var gone := Older(rows, cutoff);
    if gone == [] then seed else gone[|gone| - 1].hash
  }

  lemma SeedAfterPrune(db: Db, org: string, cutoff: int)
    ensures var db' := PruneStep(db, org, cutoff);
            Seed(db', org) == SeedAfter(Seed(db, org), OrgRows(db.rows, org), cutoff)
            && OrgRows(db'.rows, org) == Newer(OrgRows(db.rows, org), cutoff)
  {
    OrgRowsOfDelete(db.rows, org, cutoff, org);
    if Older(OrgRows(db.rows, org), cutoff) == [] {
      NothingOlder(OrgRows(db.rows, org), cutoff);
    }
  }

  lemma {:induction false} NothingOlder(rows: seq<Row>, cutoff: int)
    requires Older(rows, cutoff) == []
    ensures Newer(rows, cutoff) == rows
  {
    if rows != [] {
      assert rows[0].at >= cutoff;
      NothingOlder(rows[1..], cutoff);
    }
  }

  /** A legacy row survives, and among the hashed rows only an end is deleted. */
  predicate LegacyShieldedCut(rows: seq<Row>, cutoff: int) {
    (exists i :: 0 <= i < |rows| && rows[i].hash == "" && cutoff <= rows[i].at)
    && SuffixCut(rows, cutoff)
  }

  predicate SuffixCut(rows: seq<Row>, cutoff: int) {
    forall i, j | 0 <= i < j < |rows| && rows[i].hash != "" && rows[i].at < cutoff :: rows[j].at < cutoff
  }

  // ---- walking the survivors ------------------------------------------------

  lemma {:induction false} NewerAppend(xs: seq<Row>, ys: seq<Row>, cutoff: int)
    ensures Newer(xs + ys, cutoff) == Newer(xs, cutoff) + Newer(ys, cutoff)
  {
    if xs == [] {
      assert xs + ys == ys;
    } else {
      assert (xs + ys)[1..] == xs[1..] + ys;
      NewerAppend(xs[1..], ys, cutoff);
      Regroup(if xs[0].at < cutoff then [] else [xs[0]], Newer(xs[1..], cutoff), Newer(ys, cutoff));
    }
  }

  lemma {:induction false} FirstSurvivor(rows: seq<Row>, cutoff: int) returns (f: nat)
    requires exists i :: 0 <= i < |rows| && cutoff <= rows[i].at
    ensures f < |rows| && cutoff <= rows[f].at && (forall i | 0 <= i < f :: rows[i].at < cutoff)
    ensures Newer(rows, cutoff) != [] && Newer(rows, cutoff)[0] == rows[f]
  {
    if cutoff <= rows[0].at {
      f := 0;
    } else {
      var i :| 0 <= i < |rows| && cutoff <= rows[i].at;
      assert cutoff <= rows[1..][i - 1].at;
      var g := FirstSurvivor(rows[1..], cutoff);
      f := g + 1;
    }
  }

  lemma {:induction false} LastDeleted(rows: seq<Row>, cutoff: int) returns (d: nat)
    requires exists i :: 0 <= i < |rows| && rows[i].at < cutoff
    ensures d < |rows| && rows[d].at < cutoff && (forall i | d < i < |rows| :: cutoff <= rows[i].at)
    ensures var gone := Older(rows, cutoff); gone != [] && gone[|gone| - 1] == rows[d]
  {
    var rest := rows[1..];
    if i :| 0 <= i < |rest| && rest[i].at < cutoff {
      var e := LastDeleted(rest, cutoff);
      d := e + 1;
      var tail := Older(rest, cutoff);
      var gone := Older(rows, cutoff);
      assert gone[|gone| - 1] == tail[|tail| - 1];
    } else {
      d := 0;
      forall r | r in rest ensures cutoff <= r.at {}
      NoneOlder(rest, cutoff);
    }
  }

  lemma {:induction false} AllDeleted(rows: seq<Row>, cutoff: int)
    requires forall i | 0 <= i < |rows| :: rows[i].at < cutoff
    ensures Newer(rows, cutoff) == []
  {
    if rows != [] {
      AllDeleted(rows[1..], cutoff);
    }
  }

  /** Behind a surviving row the survivors of a hashed chain check exactly when only an end is deleted. */
  lemma {:induction false} HashedTail(env: Env, q: string, rows: seq<Row>, cutoff: int)
    requires Intact(env, q, rows) && AllHashed(rows) && Fresh(q, rows)
    ensures Intact(env, q, Newer(rows, cutoff)) <==> SuffixCut(rows, cutoff)
    decreases |rows|
  {
    hide RowHash, Fresh;
    if rows != [] {
      var x, rest := rows[0], rows[1..];
      assert rows == [x] + rest;
      IntactCons(env, q, x, rest);
      if cutoff <= x.at {
        FreshTail(q, rows);
        HashedTail(env, x.hash, rest, cutoff);
        IntactCons(env, q, x, Newer(rest, cutoff));
        SuffixCutTail(rows, cutoff);
      } else if exists i :: 0 <= i < |rows| && cutoff <= rows[i].at {
        BrokenAfterGap(env, q, rows, cutoff);
      } else {
        AllDeleted(rows, cutoff);
      }
    }
  }

  lemma FreshTail(q: string, rows: seq<Row>)
    requires Fresh(q, rows) && AllHashed(rows) && rows != []
    ensures Fresh(rows[0].hash, rows[1..])
  {
  }

  lemma SuffixCutTail(rows: seq<Row>, cutoff: int)
    requires rows != [] && cutoff <= rows[0].at
    ensures SuffixCut(rows, cutoff) <==> SuffixCut(rows[1..], cutoff)
  {
    if SuffixCut(rows[1..], cutoff) {
      forall i, j | 0 <= i < j < |rows| && rows[i].hash != "" && rows[i].at < cutoff ensures rows[j].at < cutoff {
        assert rows[1..][i - 1] == rows[i] && rows[1..][j - 1] == rows[j];
      }
    }
  }

  lemma BrokenAfterGap(env: Env, q: string, rows: seq<Row>, cutoff: int)
    requires Intact(env, q, rows) && AllHashed(rows) && Fresh(q, rows)
    requires rows != [] && rows[0].at < cutoff && exists i :: 0 <= i < |rows| && cutoff <= rows[i].at
    ensures !Intact(env, q, Newer(rows, cutoff)) && !SuffixCut(rows, cutoff)
  {
    var f := FirstSurvivor(rows, cutoff);
    assert IntactAt(env, q, rows, f);
    var left := Newer(rows, cutoff);
    assert !IntactAt(env, q, left, 0);
  }

  // ---- the exact condition ----------------------------------------------------

  lemma {:induction false} LegacySplit(rows: seq<Row>) returns (m: nat)
    requires LegacyFirst(rows)
    ensures m <= |rows| && (forall i | 0 <= i < |rows| :: rows[i].hash == "" <==> i < m)
  {
    m := 0;
    while m < |rows| && rows[m].hash == ""
      invariant m <= |rows| && forall i | 0 <= i < m :: rows[i].hash == ""
    {
      m := m + 1;
    }
  }

  /** Survivors that begin with a legacy row: the walk reaches the hashed rows with "". */
  lemma ShieldedWalk(env: Env, p: string, legacy: seq<Row>, hashed: seq<Row>)
    requires legacy != [] && forall i | 0 <= i < |legacy| :: legacy[i].hash == ""
    ensures Intact(env, p, legacy + hashed) <==> Intact(env, "", hashed)
    decreases |legacy|
  {
    assert legacy + hashed == [legacy[0]] + (legacy[1..] + hashed);
    IntactCons(env, p, legacy[0], legacy[1..] + hashed);
    if |legacy| > 1 {
      ShieldedWalk(env, "", legacy[1..], hashed);
    } else {
      assert legacy[1..] + hashed == hashed;
    }
  }

  lemma SuffixCutOfHashed(rows: seq<Row>, m: nat, cutoff: int)
    requires m <= |rows| && (forall i | 0 <= i < m :: rows[i].hash == "")
    ensures SuffixCut(rows, cutoff) <==> SuffixCut(rows[m..], cutoff)
  {
    if SuffixCut(rows[m..], cutoff) {
      forall i, j | 0 <= i < j < |rows| && rows[i].hash != "" && rows[i].at < cutoff ensures rows[j].at < cutoff {
        assert rows[m..][i - m] == rows[i] && rows[m..][j - m] == rows[j];
      }
    }
  }

  lemma HashedPart(env: Env, seed: string, rows: seq<Row>, m: nat)
    requires Intact(env, seed, rows) && Fresh(seed, rows)
    requires 0 < m <= |rows| && forall i | 0 <= i < |rows| :: rows[i].hash == "" <==> i < m
    ensures Intact(env, "", rows[m..]) && AllHashed(rows[m..]) && Fresh("", rows[m..])
  {
    IntactDrop(env, seed, rows, m);
    hide Intact;
    assert Predecessor(seed, rows, m) == "";
  }

  lemma ShieldedCase(env: Env, seed: string, rows: seq<Row>, cutoff: int, i: nat, p: string)
    requires Intact(env, seed, rows) && LegacyFirst(rows) && Fresh(seed, rows)
    requires i < |rows| && rows[i].hash == "" && cutoff <= rows[i].at
    ensures Intact(env, p, Newer(rows, cutoff)) <==> SuffixCut(rows, cutoff)
  {
    var m := LegacySplit(rows);
    var legacy, hashed := rows[..m], rows[m..];
    assert rows == legacy + hashed;
    HashedPart(env, seed, rows, m);
    hide *;
    NewerAppend(legacy, hashed, cutoff);
    assert legacy[i] == rows[i];
    var f := FirstSurvivor(legacy, cutoff);
    NewerOf(legacy, cutoff);
    ShieldedWalk(env, p, Newer(legacy, cutoff), Newer(hashed, cutoff));
    HashedTail(env, "", hashed, cutoff);
    SuffixCutOfHashed(rows, m, cutoff);
  }

  lemma {:induction false} NewerOf(rows: seq<Row>, cutoff: int)
    ensures forall k | 0 <= k < |Newer(rows, cutoff)| :: Newer(rows, cutoff)[k] in rows
  {
    if rows != [] {
      NewerOf(rows[1..], cutoff);
    }
  }

  lemma UnshieldedCase(env: Env, seed: string, rows: seq<Row>, cutoff: int)
    requires Intact(env, seed, rows) && LegacyFirst(rows) && Fresh(seed, rows)
    requires forall i | 0 <= i < |rows| && rows[i].hash == "" :: rows[i].at < cutoff
    requires !PrefixCut(rows, cutoff)
    ensures !Intact(env, SeedAfter(seed, rows, cutoff), Newer(rows, cutoff))
  {
    var i, j :| 0 <= i < j < |rows| && rows[j].at < cutoff && cutoff <= rows[i].at;
    var f := FirstSurvivor(rows, cutoff);
    var d := LastDeleted(rows, cutoff);
    assert f <= i && j <= d;
    assert rows[f].hash != "" && rows[d].hash != "";
    assert IntactAt(env, seed, rows, f);
    assert rows[f].prev == Predecessor(seed, rows, f) != rows[d].hash;
    assert !IntactAt(env, rows[d].hash, Newer(rows, cutoff), 0);
  }

  /** Pruning a sound log at `cutoff` leaves a log that checks if and only if no deleted
      row stands behind a surviving one - or a surviving legacy row stands in front and
      the deleted hashed rows are an end of the log. */
  lemma PruneKeepsChainIff(env: Env, seed: string, rows: seq<Row>, cutoff: int)
    requires Intact(env, seed, rows) && LegacyFirst(rows) && Fresh(seed, rows)
    ensures Intact(env, SeedAfter(seed, rows, cutoff), Newer(rows, cutoff))
       <==> PrefixCut(rows, cutoff) || LegacyShieldedCut(rows, cutoff)
  {
    hide RowHash, Fresh, Intact;
    if PrefixCut(rows, cutoff) {
      var n := PrefixCutSplits(rows, cutoff);
      IntactDrop(env, seed, rows, n);
      assert SeedAfter(seed, rows, cutoff) == Predecessor(seed, rows, n);
    } else if i :| 0 <= i < |rows| && rows[i].hash == "" && cutoff <= rows[i].at {
      ShieldedCase(env, seed, rows, cutoff, i, SeedAfter(seed, rows, cutoff));
    } else {
      UnshieldedCase(env, seed, rows, cutoff);
    }
  }

  /** The same of the tables: what a check of the org answers after the prune. */
  lemma PrunedTablesCheckIff(env: Env, db: Db, org: string, cutoff: int)
    requires var rows := OrgRows(db.rows, org);
             Intact(env, Seed(db, org), rows) && LegacyFirst(rows) && Fresh(Seed(db, org), rows)
    ensures var rows, db' := OrgRows(db.rows, org), PruneStep(db, org, cutoff);
            Check(env, Seed(db', org), OrgRows(db'.rows, org)).ok
            <==> PrefixCut(rows, cutoff) || LegacyShieldedCut(rows, cutoff)
  {
    SeedAfterPrune(db, org, cutoff);
    PruneKeepsChainIff(env, Seed(db, org), OrgRows(db.rows, org), cutoff);
    hide Intact, PruneStep, LegacyShieldedCut, PrefixCut, Fresh;
  }
}
