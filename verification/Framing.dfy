// The byte string that is hashed for one audit entry: chainHash of
// ee/audit/store.go, and chain_hash and rfc3339nano of scripts/audit-rechain.py.
module Framing {
  import opened Text

  const SEP: char := '\U{001F}'

  /** What the hasher has been fed once all parts are written, each closed by the separator. */
  function Frame(parts: seq<string>): string {
    if parts == [] then "" else parts[0] + [SEP] + Frame(parts[1..])
  }

  predicate Clean(s: string) {
    SEP !in s
  }

  predicate AllClean(parts: seq<string>) {
    forall i | 0 <= i < |parts| :: Clean(parts[i])
  }

  lemma {:induction false} FrameAppend(xs: seq<string>, ys: seq<string>)
    ensures Frame(xs + ys) == Frame(xs) + Frame(ys)
  {
    if xs == [] {
      assert xs + ys == ys;
    } else {
      assert (xs + ys)[1..] == xs[1..] + ys;
      FrameAppend(xs[1..], ys);
    }
  }

  /** The hasher loop: what reaches the digest is the frame of the parts. */
  method ChainHash(sha: string -> string, parts: seq<string>) returns (digest: string)
    ensures digest == sha(Frame(parts))
  {
    var written := "";
    for i := 0 to |parts|
      invariant written == Frame(parts[..i])
    {
      assert parts[..i + 1] == parts[..i] + [parts[i]];
      FrameAppend(parts[..i], [parts[i]]);
      assert Frame([parts[i]]) == parts[i] + [SEP];
      written := written + parts[i];
      written := written + [SEP];
    }
    assert parts[..|parts|] == parts;
    return sha(written);
  }

  // ---- when a frame can be read back -------------------------------------

  function Separators(s: string): nat {
    if s == "" then 0 else (if s[0] == SEP then 1 else 0) + Separators(s[1..])
  }

  lemma {:induction false} SeparatorsAppend(s: string, t: string)
    ensures Separators(s + t) == Separators(s) + Separators(t)
  {
    if s == "" {
      assert s + t == t;
    } else {
      assert (s + t)[1..] == s[1..] + t;
      SeparatorsAppend(s[1..], t);
    }
  }

  lemma {:induction false} NoSeparators(s: string)
    ensures Separators(s) == 0 <==> Clean(s)
  {
    if s != "" {
      NoSeparators(s[1..]);
      assert s == [s[0]] + s[1..];
    }
  }

  /** A frame holds one separator for each part, and no more exactly when every part is clean. */
  lemma {:induction false} FrameSeparators(parts: seq<string>)
    ensures Separators(Frame(parts)) >= |parts|
    ensures Separators(Frame(parts)) == |parts| <==> AllClean(parts)
  {
    if parts != [] {
      FrameSeparators(parts[1..]);
      SeparatorsAppend(parts[0] + [SEP], Frame(parts[1..]));
      SeparatorsAppend(parts[0], [SEP]);
      assert Separators([SEP]) == 1;
      NoSeparators(parts[0]);
      assert AllClean(parts) <==> Clean(parts[0]) && AllClean(parts[1..]);
    }
  }

  /** Clean heads before the first separator agree. */
  lemma CleanHeadsAgree(a: string, x: string, b: string, y: string)
    requires Clean(a) && Clean(b)
    requires a + [SEP] + x == b + [SEP] + y
    ensures a == b && x == y
  {
    var s := a + [SEP] + x;
    assert s[|a|] == SEP && (b + [SEP] + y)[|b|] == SEP;
    assert forall i | 0 <= i < |b| :: (b + [SEP] + y)[i] == b[i];
    assert s[..|a|] == a && (b + [SEP] + y)[..|b|] == b;
    assert s[|a| + 1..] == x && (b + [SEP] + y)[|b| + 1..] == y;
  }

  lemma {:induction false} CleanFramesInjective(xs: seq<string>, ys: seq<string>)
    requires |xs| == |ys| && AllClean(xs) && AllClean(ys)
    requires Frame(xs) == Frame(ys)
    ensures xs == ys
  {
    if xs != [] {
      CleanHeadsAgree(xs[0], Frame(xs[1..]), ys[0], Frame(ys[1..]));
      CleanFramesInjective(xs[1..], ys[1..]);
      assert xs == [xs[0]] + xs[1..] && ys == [ys[0]] + ys[1..];
    }
  }

  /** A record of clean parts is the only record of its length with its frame. */
  lemma CleanFrameDecodes(xs: seq<string>, ys: seq<string>)
    requires |xs| == |ys| && AllClean(xs)
    requires Frame(xs) == Frame(ys)
    ensures xs == ys
  {
    FrameSeparators(xs);
    FrameSeparators(ys);
    CleanFramesInjective(xs, ys);
  }

  /** A separator inside a part can be read as the end of that part instead. */
  lemma UncleanFrameCollides(xs: seq<string>, i: nat) returns (ys: seq<string>)
    requires 2 <= |xs| && i < |xs| && !Clean(xs[i])
    ensures |ys| == |xs| && ys != xs && Frame(ys) == Frame(xs)
  {
    var p :| 0 <= p < |xs[i]| && xs[i][p] == SEP;
    var head, tail := xs[i][..p], xs[i][p + 1..];
    assert xs[i] == head + [SEP] + tail;
    if i + 1 < |xs| {
      var mid := [head, tail + [SEP] + xs[i + 1]];
      ys := xs[..i] + mid + xs[i + 2..];
      assert xs == xs[..i] + [xs[i], xs[i + 1]] + xs[i + 2..];
      FrameOfPair(xs[i], xs[i + 1]);
      FrameOfPair(mid[0], mid[1]);
      assert xs[i] + [SEP] + xs[i + 1] + [SEP] == mid[0] + [SEP] + mid[1] + [SEP];
      FrameAround(xs[..i], [xs[i], xs[i + 1]], xs[i + 2..]);
      FrameAround(xs[..i], mid, xs[i + 2..]);
      assert ys[i] == head && |head| < |xs[i]|;
    } else {
      var mid := [xs[i - 1] + [SEP] + head, tail];
      ys := xs[..i - 1] + mid;
      assert xs == xs[..i - 1] + [xs[i - 1], xs[i]] + [];
      assert ys == xs[..i - 1] + mid + [];
      FrameOfPair(xs[i - 1], xs[i]);
      FrameOfPair(mid[0], mid[1]);
      assert xs[i - 1] + [SEP] + xs[i] + [SEP] == mid[0] + [SEP] + mid[1] + [SEP];
      FrameAround(xs[..i - 1], [xs[i - 1], xs[i]], []);
      FrameAround(xs[..i - 1], mid, []);
      assert ys[i] == tail && |tail| < |xs[i]|;
    }
  }

  lemma FrameOfPair(a: string, b: string)
    ensures Frame([a, b]) == a + [SEP] + b + [SEP] == a + "\U{001F}" + b + "\U{001F}"
  {
    assert [a, b][1..] == [b];
    assert Frame([b]) == b + [SEP] && [SEP] == "\U{001F}";
  }

  lemma FrameAround(xs: seq<string>, mid: seq<string>, zs: seq<string>)
    ensures Frame(xs + mid + zs) == Frame(xs) + Frame(mid) + Frame(zs)
  {
    FrameAppend(xs + mid, zs);
    FrameAppend(xs, mid);
  }

  // ---- timestamps ----------------------------------------------------------

  predicate Digits(s: string) {
    forall i | 0 <= i < |s| :: '0' <= s[i] <= '9'
  }

  function DigitChar(d: nat): char
    requires d < 10
  {
    '0' + d as char
  }

  /** `n` in decimal, padded with zeros to `width` digits, higher digits dropped. */
  function Decimal(n: nat, width: nat): (s: string)
    ensures |s| == width && Digits(s)
  {
    if width == 0 then "" else Decimal(n / 10, width - 1) + [DigitChar(n % 10)]
  }

  function Pow10(w: nat): (p: nat)
    ensures p >= 1
  {
    if w == 0 then 1 else 10 * Pow10(w - 1)
  }

  lemma {:induction false} DecimalInjective(a: nat, b: nat, width: nat)
    requires a < Pow10(width) && b < Pow10(width) && Decimal(a, width) == Decimal(b, width)
    ensures a == b
  {
    if width != 0 {
      var x, y := Decimal(a / 10, width - 1), Decimal(b / 10, width - 1);
      assert (x + [DigitChar(a % 10)])[..width - 1] == x && (y + [DigitChar(b % 10)])[..width - 1] == y;
      assert (x + [DigitChar(a % 10)])[width - 1] == (y + [DigitChar(b % 10)])[width - 1];
      DecimalInjective(a / 10, b / 10, width - 1);
    }
  }

  function IsZero(c: char): bool { c == '0' }

  /** The fraction after its trailing zeros are dropped, with its point; nothing for a whole second. */
  function Fraction(digits: string): string {
    var f := TrimRight(IsZero, digits);
    if f == "" then "" else "." + f
  }

  /** Go's RFC3339Nano fraction: nine digits of nanoseconds, trimmed. */
  function GoFraction(nanos: nat): string {
    Fraction(Decimal(nanos, 9))
  }

  /** The script's fraction: the six digits of to_char's US field, trimmed. */
  function ScriptFraction(micros: nat): string {
    Fraction(Decimal(micros, 6))
  }

  /** A time stored with microseconds prints the same from Go and from the script. */
  lemma FractionsAgree(micros: nat)
    requires micros < 1_000_000
    ensures GoFraction(micros * 1000) == ScriptFraction(micros)
  {
    var n := micros * 1000;
    assert n / 10 == micros * 100 && n % 10 == 0;
    assert (micros * 100) / 10 == micros * 10 && (micros * 100) % 10 == 0;
    assert (micros * 10) / 10 == micros && (micros * 10) % 10 == 0;
    var d := Decimal(micros, 6);
    assert Decimal(micros * 10, 7) == d + ['0'];
    assert Decimal(micros * 100, 8) == d + ['0'] + ['0'];
    assert Decimal(n, 9) == d + ['0'] + ['0'] + ['0'];
    TrimOneZero(d);
    TrimOneZero(d + ['0']);
    TrimOneZero(d + ['0'] + ['0']);
  }

  lemma TrimOneZero(s: string)
    ensures TrimRight(IsZero, s + ['0']) == TrimRight(IsZero, s)
  {
    assert (s + ['0'])[..|s|] == s;
  }

  /** Dropping trailing zeros loses nothing when the width is known. */
  lemma {:induction false} TrimZerosInjective(a: string, b: string)
    requires |a| == |b| && TrimRight(IsZero, a) == TrimRight(IsZero, b)
    ensures a == b
  {
    TrimRightSplits(IsZero, a);
    TrimRightSplits(IsZero, b);
    var t := TrimRight(IsZero, a);
    forall i | 0 <= i < |a| ensures a[i] == b[i] {
      if i < |t| {
        assert a[i] == a[..|t|][i] && b[i] == b[..|t|][i];
      } else {
        assert a[i] == a[|t|..][i - |t|] && b[i] == b[|t|..][i - |t|];
      }
    }
  }

  lemma FractionInjective(a: nat, b: nat)
    requires a < 1_000_000 && b < 1_000_000 && ScriptFraction(a) == ScriptFraction(b)
    ensures a == b
  {
    var x, y := TrimRight(IsZero, Decimal(a, 6)), TrimRight(IsZero, Decimal(b, 6));
    if x != "" {
      assert ("." + x)[1..] == x;
    }
    if y != "" {
      assert ("." + y)[1..] == y;
    }
    TrimZerosInjective(Decimal(a, 6), Decimal(b, 6));
    assert Pow10(6) == 1_000_000 by {
      assert Pow10(1) == 10 && Pow10(2) == 100 && Pow10(3) == 1000 && Pow10(4) == 10000;
    }
    DecimalInjective(a, b, 6);
  }

  /** The seconds from 1970 to the end of year 9999, which RFC 3339 prints in 19 characters. */
  const LAST_SECOND := 253_402_300_800

  predicate InRange(at: int) {
    0 <= at < LAST_SECOND * 1_000_000
  }

  /** How a calendar clock prints whole seconds in UTC. The calendar itself is a parameter. */
  ghost predicate ClockText(clock: int -> string) {
    (forall s | 0 <= s < LAST_SECOND :: |clock(s)| == 19 && Clean(clock(s)))
    && (forall s, t | 0 <= s < LAST_SECOND && 0 <= t < LAST_SECOND && clock(s) == clock(t) :: s == t)
  }

  /** A stored time, in microseconds, as RFC3339Nano prints it. */
  function Stamp(clock: int -> string, at: int): string {
    clock(at / 1_000_000) + GoFraction(at % 1_000_000 * 1000) + "Z"
  }

  /** The same time as the repair script prints it. */
  function ScriptStamp(clock: int -> string, at: int): string {
    clock(at / 1_000_000) + ScriptFraction(at % 1_000_000) + "Z"
  }

  lemma StampsAgree(clock: int -> string, at: int)
    ensures Stamp(clock, at) == ScriptStamp(clock, at)
  {
    FractionsAgree(at % 1_000_000);
  }

  /** The least number of digits that says how many millionths, with a point before them; none for none. */
  predicate Millionths(s: string, micros: nat) {
    if s == "" then micros == 0
    else s[0] == '.' && 2 <= |s| <= 7 && Digits(s[1..]) && s[|s| - 1] != '0'
         && Denoted(s[1..]) * Pow10(7 - |s|) == micros
  }

  /** The number that a text of digits denotes. */
  function Denoted(s: string): nat
    requires Digits(s)
  {
    if s == "" then 0 else Denoted(s[..|s| - 1]) * 10 + (s[|s| - 1] as int - '0' as int)
  }

  lemma {:induction false} DecimalDenotes(n: nat, width: nat)
    requires n < Pow10(width)
    ensures Denoted(Decimal(n, width)) == n
  {
    if width > 0 {
      DecimalDenotes(n / 10, width - 1);
      var s := Decimal(n, width);
      assert s[..|s| - 1] == Decimal(n / 10, width - 1);
    }
  }

  lemma {:induction false} DenotedPadded(s: string, n: nat)
    requires Digits(s) && n <= |s| && forall i | |s| - n <= i < |s| :: s[i] == '0'
    ensures Denoted(s) == Denoted(s[..|s| - n]) * Pow10(n)
  {
    if n == 0 {
      assert s[..|s|] == s;
    } else {
      var t, u := s[..|s| - 1], s[..|s| - n];
      assert t[..|t| - (n - 1)] == u;
      assert Denoted(s) == Denoted(t) * 10 && Pow10(n) == 10 * Pow10(n - 1);
      hide Denoted, Pow10;
      DenotedPadded(t, n - 1);
      TenTimes(Denoted(u), Pow10(n - 1));
    }
  }

  lemma TenTimes(v: int, p: int)
    ensures v * p * 10 == v * (10 * p)
  {
  }

  /** A stored time is printed as its whole second, the shortest fraction and "Z" (section 5.6 of RFC 3339). */
  lemma StampText(clock: int -> string, at: int) returns (fraction: string)
    ensures Stamp(clock, at) == clock(at / 1_000_000) + fraction + "Z" && Millionths(fraction, at % 1_000_000)
  {
    var micros := at % 1_000_000;
    FractionsAgree(micros);
    fraction := ScriptFraction(micros);
    var d := Decimal(micros, 6);
    var f := TrimRight(IsZero, d);
    TrimRightSplits(IsZero, d);
    assert Pow10(2) == 100 && Pow10(4) == 10_000 && Pow10(6) == 1_000_000;
    DecimalDenotes(micros, 6);
    forall i | |f| <= i < 6 ensures d[i] == '0' {
      assert d[i] == d[|f|..][i - |f|];
    }
    DenotedPadded(d, 6 - |f|);
    if f != "" {
      assert ("." + f)[1..] == f && ("." + f)[|f|] == f[|f| - 1];
      forall i | 0 <= i < |f| ensures '0' <= f[i] <= '9' { assert f[i] == d[i]; }
    }
  }

  lemma StampClean(clock: int -> string, at: int)
    requires ClockText(clock) && InRange(at)
    ensures Clean(Stamp(clock, at))
  {
    var d := Decimal(at % 1_000_000 * 1000, 9);
    TrimRightSplits(IsZero, d);
    var f := TrimRight(IsZero, d);
    forall i | 0 <= i < |f| ensures f[i] != SEP { assert f[i] == d[i]; }
  }

  /** Trimming the fraction keeps distinct times distinct. */
  lemma StampInjective(clock: int -> string, a: int, b: int)
    requires ClockText(clock) && InRange(a) && InRange(b) && Stamp(clock, a) == Stamp(clock, b)
    ensures a == b
  {
    var s, t := Stamp(clock, a), Stamp(clock, b);
    assert s[..19] == clock(a / 1_000_000) && t[..19] == clock(b / 1_000_000);
    var fa, fb := GoFraction(a % 1_000_000 * 1000), GoFraction(b % 1_000_000 * 1000);
    assert s[19..|s| - 1] == fa && t[19..|t| - 1] == fb;
    FractionsAgree(a % 1_000_000);
    FractionsAgree(b % 1_000_000);
    FractionInjective(a % 1_000_000, b % 1_000_000);
  }
}
