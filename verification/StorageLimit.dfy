// Refusing ingest at the storage limit (StorageLimit.Stopped in pkg/clickhouse/storage.go),
// over whole runs of readings. The resume fraction 0.98 is compared exactly.
module StorageLimit {

  /** Whether ingest is refused at this usage, given whether it was refused before. */
  predicate Stopped(limit: nat, usage: nat, wasStopped: bool) {
    if limit == 0 then false
    else if usage >= limit then true
    else wasStopped && 100 * usage >= 98 * limit
  }

  /** Whether ingest is refused after the readings, starting from accepting. */
  predicate StoppedAfter(limit: nat, readings: seq<nat>) {
    readings != []
    && Stopped(limit, readings[|readings| - 1], StoppedAfter(limit, readings[..|readings| - 1]))
  }

  /** The limit was reached at reading `k` and usage has not fallen below the resume point since. */
  predicate HeldSince(limit: nat, readings: seq<nat>, k: nat) {
    k < |readings| && readings[k] >= limit
    && forall j | k <= j < |readings| :: 100 * readings[j] >= 98 * limit
  }

  lemma HeldSnoc(limit: nat, readings: seq<nat>, k: nat)
    requires readings != [] && k < |readings| - 1
    ensures HeldSince(limit, readings, k)
       <==> HeldSince(limit, readings[..|readings| - 1], k) && 100 * readings[|readings| - 1] >= 98 * limit
  {
    var n := |readings| - 1;
    var front := readings[..n];
    if HeldSince(limit, front, k) && 100 * readings[n] >= 98 * limit {
      forall j | k <= j < |readings| ensures 100 * readings[j] >= 98 * limit {
        if j < n { assert front[j] == readings[j]; }
      }
    }
    if HeldSince(limit, readings, k) {
      forall j | k <= j < n ensures 100 * front[j] >= 98 * limit {
        assert front[j] == readings[j];
      }
    }
  }

  /** Ingest is refused after a run exactly when some reading reached the limit and every later
      one stayed at or above the resume point. */
  lemma {:induction false} StoppedIffHeld(limit: nat, readings: seq<nat>)
    requires limit > 0
    ensures StoppedAfter(limit, readings) <==> exists k :: HeldSince(limit, readings, k)
    decreases |readings|
  {
    if readings != [] {
      var n := |readings| - 1;
      var front := readings[..n];
      StoppedIffHeld(limit, front);
      forall k: nat | k < n ensures HeldSince(limit, readings, k)
                                    <==> HeldSince(limit, front, k) && 100 * readings[n] >= 98 * limit {
        HeldSnoc(limit, readings, k);
      }
      if readings[n] >= limit {
        assert HeldSince(limit, readings, n);
      } else if StoppedAfter(limit, front) {
        var k :| HeldSince(limit, front, k);
        assert HeldSince(limit, readings, k) <==> 100 * readings[n] >= 98 * limit;
      }
    }
  }

  /** Without a limit nothing is ever refused. */
  lemma NoLimitNeverStops(readings: seq<nat>)
    ensures !StoppedAfter(0, readings)
  {
  }

  function Distance(a: nat, b: nat): nat {
    if a < b then b - a else a - b
  }

  /** How far usage has moved in all. */
  function Movement(readings: seq<nat>): nat {
    if |readings| < 2 then 0
    else Movement(readings[..|readings| - 1]) + Distance(readings[|readings| - 1], readings[|readings| - 2])
  }

  /** How often ingest changed between accepting and refusing. */
  function Flips(limit: nat, readings: seq<nat>): nat {
    if readings == [] then 0
    else
      var front := readings[..|readings| - 1];
      Flips(limit, front) + if StoppedAfter(limit, readings) == StoppedAfter(limit, front) then 0 else 1
  }

  /** What usage has moved since the last flip, counted towards the next one. */
  function Credit(limit: nat, usage: nat, stopped: bool): nat {
    if stopped then (if usage < limit then 100 * (limit - usage) else 0)
    else if 100 * usage > 98 * limit then 100 * usage - 98 * limit else 0
  }

  lemma {:induction false} MovementPaysFlips(limit: nat, readings: seq<nat>)
    requires limit > 0 && readings != []
    ensures var flips := Flips(limit, readings);
            flips == 0 ==> !StoppedAfter(limit, readings)
    ensures var flips := Flips(limit, readings);
            flips > 0 ==> 100 * Movement(readings)
                          >= 2 * limit * (flips - 1)
                             + Credit(limit, readings[|readings| - 1], StoppedAfter(limit, readings))
    decreases |readings|
  {
    var n := |readings| - 1;
    var front := readings[..n];
    if n == 0 {
      assert Flips(limit, front) == 0;
    } else {
      MovementPaysFlips(limit, front);
      var was, now := StoppedAfter(limit, front), StoppedAfter(limit, readings);
      assert now == Stopped(limit, readings[n], was);
      OneReading(limit, front[n - 1], readings[n], was, Flips(limit, front), Movement(front));
      hide StoppedAfter, Credit, Stopped;
      assert Movement(readings) == Movement(front) + Distance(readings[n], front[n - 1]);
    }
  }

  lemma OneReading(limit: nat, prior: nat, usage: nat, was: bool, flips: nat, moved: nat)
    requires limit > 0 && (flips == 0 ==> !was)
    requires flips > 0 ==> 100 * moved >= 2 * limit * (flips - 1) + Credit(limit, prior, was)
    ensures var now := Stopped(limit, usage, was);
            var flips' := flips + if now == was then 0 else 1;
            (flips' == 0 ==> !now)
            && (flips' > 0 ==>
                  100 * (moved + Distance(usage, prior)) >= 2 * limit * (flips' - 1) + Credit(limit, usage, now))
  {
    var now := Stopped(limit, usage, was);
    if flips > 0 && now != was {
      assert 2 * limit * flips == 2 * limit * (flips - 1) + 2 * limit;
    }
  }

  /** Hovering at the limit cannot flip ingest for free: every flip after the first costs a movement
      of usage of at least a fiftieth of the limit. */
  lemma FlipsBounded(limit: nat, readings: seq<nat>)
    requires limit > 0 && readings != []
    ensures 2 * limit * (Flips(limit, readings) - 1) <= 100 * Movement(readings)
  {
    MovementPaysFlips(limit, readings);
  }
}
