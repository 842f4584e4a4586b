// Time-based one-time passwords (pkg/totp/totp.go): section 5.3 of RFC 4226 and
// sections 4.2 and 5.2 of RFC 6238.
module Totp {
  import opened Text
  import opened Framing
  import opened Base64Url

  type Mac = m: seq<Byte> | |m| == 20 witness seq(20, _ => 0)

  /** HMAC-SHA-1 of a message under a key, and the key that a trimmed secret stands for in base 32. */
  datatype Crypto = Crypto(hmac: (seq<Byte>, seq<Byte>) -> Mac, key: string -> Option<seq<Byte>>)

  const PERIOD := 30
  const DIGITS: nat := 6
  const SHOWN := 1_000_000
  const U32 := 0x1_0000_0000
  const U64 := 0x1_0000_0000_0000_0000

  // ---- machine words ----------------------------------------------------------------

  function Pow2(n: nat): (p: nat)
    ensures p >= 1
  {
    if n == 0 then 1 else 2 * Pow2(n - 1)
  }

  /** Bitwise or. */
  function Or(a: nat, b: nat): nat {
    if a == 0 then b
    else if b == 0 then a
    else 2 * Or(a / 2, b / 2) + (if a % 2 == 1 || b % 2 == 1 then 1 else 0)
  }

  /** Bitwise and. */
  function And(a: nat, b: nat): nat {
    if a == 0 || b == 0 then 0
    else 2 * And(a / 2, b / 2) + (if a % 2 == 1 && b % 2 == 1 then 1 else 0)
  }

  /** A shift to the left in an unsigned 32-bit word. */
  function Shift(x: nat, n: nat): nat {
    x * Pow2(n) % U32
  }

  /** A word whose low bits are clear takes in those bits by oring. */
  lemma {:induction false} OrFills(high: nat, low: nat, n: nat)
    requires low < Pow2(n)
    ensures Or(high * Pow2(n), low) == high * Pow2(n) + low
  {
    if n > 0 && high > 0 && low > 0 {
      OrFills(high, low / 2, n - 1);
      var a, h := high * Pow2(n), high * Pow2(n - 1);
      assert a == 2 * h by { Doubled(high, Pow2(n - 1)); }
      Positive(high, Pow2(n));
    }
  }

  /** Or and and share the bits of both numbers between them. */
  lemma {:induction false} OrAnd(a: nat, b: nat)
    ensures Or(a, b) + And(a, b) == a + b
  {
    if a > 0 && b > 0 {
      OrAnd(a / 2, b / 2);
    }
  }

  lemma Doubled(x: int, p: int)
    ensures x * (2 * p) == 2 * (x * p)
  {
  }

  lemma Positive(x: nat, p: nat)
    requires x > 0 && p > 0
    ensures x * p > 0
  {
  }

  /** The low part of a number. */
  function Low(x: nat, p: nat): nat
    requires p >= 1
  {
    x % p
  }

  lemma {:induction false} MaskIsLow(x: nat, n: nat, m: nat)
    requires m == Pow2(n)
    ensures And(x, m - 1) == Low(x, m)
  {
    if n > 0 {
      var p := Pow2(n - 1);
      assert m == 2 * p;
      hide And, Low, Pow2;
      MaskIsLow(x / 2, n - 1, p);
      AndOnes(x, p);
      LowHalves(x, p);
    }
  }

  lemma LowHalves(x: nat, p: nat)
    requires p >= 1
    ensures Low(x, 2 * p) == 2 * Low(x / 2, p) + x % 2
  {
    ModHalves(x, p);
  }

  /** Masking with n ones keeps the low n bits. */
  lemma MaskIsMod(x: nat, n: nat)
    ensures And(x, Pow2(n) - 1) == x % Pow2(n)
  {
    MaskIsLow(x, n, Pow2(n));
    hide And, Pow2;
  }

  lemma AndOnes(x: nat, p: nat)
    requires p >= 1
    ensures And(x, 2 * p - 1) == 2 * And(x / 2, p - 1) + x % 2
  {
    assert (2 * p - 1) / 2 == p - 1;
  }

  lemma ModHalves(x: nat, p: nat)
    requires p >= 1
    ensures x % (2 * p) == 2 * (x / 2 % p) + x % 2
  {
    var q, r := x / 2 / p, x / 2 % p;
    var low := 2 * r + x % 2;
    assert x == 2 * (q * p + r) + x % 2;
    Doubled(q, p);
    assert x == q * (2 * p) + low && low < 2 * p;
    RemainderUnique(x, 2 * p, q, low);
  }

  lemma RemainderUnique(x: nat, m: nat, q: nat, r: nat)
    requires x == q * m + r && r < m
    ensures x / m == q && x % m == r
  {
    var d: int := x / m - q;
    assert x == x / m * m + x % m;
    assert d * m == r - x % m;
    MultipleGrows(d, m);
  }

  lemma MultipleGrows(d: int, m: int)
    requires m > 0
    ensures d >= 1 ==> d * m >= m
    ensures d <= -1 ==> d * m <= -m
  {
  }

  // ---- bytes ------------------------------------------------------------------

  /** The number that bytes spell, the most significant one first. */
  function BigEndian(bs: seq<Byte>): nat {
    if bs == [] then 0 else BigEndian(bs[..|bs| - 1]) * 256 + bs[|bs| - 1]
  }

  /** The low `n` bytes of a number, the most significant one first. */
  function Bytes(v: nat, n: nat): (bs: seq<Byte>)
    ensures |bs| == n
  {
    if n == 0 then [] else Bytes(v / 256, n - 1) + [v % 256]
  }

  function Pow256(n: nat): nat {
    if n == 0 then 1 else 256 * Pow256(n - 1)
  }

  /** A counter that fits its width can be read back from its bytes. */
  lemma {:induction false} BytesReadBack(v: nat, n: nat)
    requires v < Pow256(n)
    ensures BigEndian(Bytes(v, n)) == v
  {
    if n > 0 {
      BytesReadBack(v / 256, n - 1);
      var bs := Bytes(v, n);
      assert bs[..|bs| - 1] == Bytes(v / 256, n - 1);
    }
  }

  lemma FourBytes(bs: seq<Byte>)
    requires |bs| == 4
    ensures BigEndian(bs) == (bs[0] as int) * 0x100_0000 + (bs[1] as int) * 0x1_0000 + (bs[2] as int) * 0x100 + bs[3]
  {
    var b3, b2, b1 := bs[..3], bs[..2], bs[..1];
    assert b3[..2] == b2 && b2[..1] == b1 && b1[..0] == [];
    assert BigEndian(b1) == bs[0];
    assert BigEndian(b2) == BigEndian(b1) * 256 + bs[1];
    assert BigEndian(b3) == BigEndian(b2) * 256 + bs[2];
  }

  /** binary.BigEndian.PutUint64. */
  method PutUint64(buf: array<Byte>, v: nat)
    requires buf.Length == 8 && v < U64
    modifies buf
    ensures buf[..] == Bytes(v, 8)
  {
    buf[0] := v / 0x100_0000_0000_0000;
    buf[1] := v / 0x1_0000_0000_0000 % 256;
    buf[2] := v / 0x100_0000_0000 % 256;
    buf[3] := v / 0x1_0000_0000 % 256;
    buf[4] := v / 0x100_0000 % 256;
    buf[5] := v / 0x1_0000 % 256;
    buf[6] := v / 0x100 % 256;
    buf[7] := v % 256;
    EightBytes(v);
    assert buf[..] == [buf[0], buf[1], buf[2], buf[3], buf[4], buf[5], buf[6], buf[7]];
  }

  lemma EightBytes(v: nat)
    requires v < U64
    ensures Bytes(v, 8)
         == [v / 0x100_0000_0000_0000, v / 0x1_0000_0000_0000 % 256, v / 0x100_0000_0000 % 256,
             v / 0x1_0000_0000 % 256, v / 0x100_0000 % 256, v / 0x1_0000 % 256, v / 0x100 % 256, v % 256]
  {
    hide Bytes;
    TwoBytes(v, 6);
    TwoBytes(v / 0x1_0000, 4);
    TwoBytes(v / 0x1_0000 / 0x1_0000, 2);
    TwoBytes(v / 0x1_0000 / 0x1_0000 / 0x1_0000, 0);
    Quotients(v);
    NoBytes(v / 0x1_0000 / 0x1_0000 / 0x1_0000 / 0x1_0000);
  }

  lemma NoBytes(v: nat)
    ensures Bytes(v, 0) == []
  {
  }

  lemma Quotients(v: nat)
    requires v < U64
    ensures v / 0x1_0000 / 0x1_0000 == v / 0x1_0000_0000
    ensures v / 0x1_0000 / 0x1_0000 / 0x1_0000 == v / 0x1_0000_0000_0000
    ensures v / 0x1_0000 / 0x100 == v / 0x100_0000
    ensures v / 0x1_0000_0000 / 0x100 == v / 0x100_0000_0000
    ensures v / 0x1_0000_0000_0000 / 0x100 % 256 == v / 0x100_0000_0000_0000
  {
  }

  lemma TwoBytes(v: nat, n: nat)
    ensures Bytes(v, n + 2) == Bytes(v / 0x1_0000, n) + [v / 0x100 % 256, v % 256]
  {
    assert Bytes(v, n + 2) == Bytes(v / 256, n + 1) + [v % 256];
    assert v / 256 / 256 == v / 0x1_0000;
  }

  // ---- truncation ----------------------------------------------------------------

  /** The dynamic truncation of RFC 4226: the four bytes from where the low half of the last byte
      points, as a big-endian number without its top bit. */
  function DynamicTruncation(mac: Mac): (v: nat)
    ensures v < 0x8000_0000
  {
    var offset := mac[19] % 16;
    BigEndian(mac[offset..offset + 4]) % 0x8000_0000
  }

  /** The truncation as it is computed, with masks, shifts and ors; no index leaves the MAC. */
  function Truncate(mac: Mac): nat {
    MaskIsMod(mac[|mac| - 1], 4);
    MaskTables();
    var offset := And(mac[|mac| - 1], 0x0f);
    Or(Or(Or(Shift(And(mac[offset], 0x7f), 24), Shift(mac[offset + 1], 16)), Shift(mac[offset + 2], 8)),
       mac[offset + 3])
  }

  lemma MaskTables()
    ensures Pow2(4) == 16 && Pow2(7) == 128 && Pow2(8) == 256 && Pow2(16) == 0x1_0000 && Pow2(24) == 0x100_0000
  {
    assert Pow2(4) == 16;
    assert Pow2(8) == 256;
    assert Pow2(12) == 0x1000;
    assert Pow2(16) == 0x1_0000;
    assert Pow2(20) == 0x10_0000;
  }

  lemma TruncateIsDynamic(mac: Mac)
    ensures Truncate(mac) == DynamicTruncation(mac)
  {
    hide And, Or, Shift, BigEndian, Pow2;
    MaskTables();
    MaskIsMod(mac[19], 4);
    WordAt(mac, mac[19] % 16);
  }

  lemma WordAt(mac: Mac, offset: nat)
    requires offset < 16
    ensures Or(Or(Or(Shift(And(mac[offset], 0x7f), 24), Shift(mac[offset + 1], 16)), Shift(mac[offset + 2], 8)),
               mac[offset + 3])
         == BigEndian(mac[offset..offset + 4]) % 0x8000_0000
  {
    hide And, Or, Shift, BigEndian, Pow2;
    var bs := mac[offset..offset + 4];
    FourBytes(bs);
    MaskTables();
    MaskIsMod(bs[0], 7);
    WordOfBytes(bs[0] % 128, bs[1], bs[2], bs[3]);
    TopBitDropped(bs[0], (bs[1] as int) * 0x1_0000 + (bs[2] as int) * 0x100 + bs[3]);
  }

  lemma TopBitDropped(first: nat, rest: nat)
    requires first < 256 && rest < 0x100_0000
    ensures (first * 0x100_0000 + rest) % 0x8000_0000 == first % 128 * 0x100_0000 + rest
  {
    RemainderUnique(first * 0x100_0000 + rest, 0x8000_0000, first / 128, first % 128 * 0x100_0000 + rest);
  }

  lemma WordOfBytes(b0: nat, b1: Byte, b2: Byte, b3: Byte)
    requires b0 < 128
    ensures Or(Or(Or(Shift(b0, 24), Shift(b1, 16)), Shift(b2, 8)), b3)
         == b0 * 0x100_0000 + b1 * 0x1_0000 + b2 * 0x100 + b3
  {
    MaskTables();
    hide Or, Pow2;
    OrFills(b0, b1 * 0x1_0000, 24);
    OrFills(b0 * 256 + b1, b2 * 0x100, 16);
    OrFills((b0 * 256 + b1) * 256 + b2, b3, 8);
  }

  // ---- the printed code ----------------------------------------------------------

  /** The shortest decimal text of a number. */
  function Plain(n: nat): (s: string)
    ensures s != ""
  {
    (if n < 10 then "" else Plain(n / 10)) + [DigitChar(n % 10)]
  }

  function Zeros(n: nat): string {
    if n == 0 then "" else ['0'] + Zeros(n - 1)
  }

  /** Sprintf with "%0*d": zeros before the number up to the width, and never fewer digits than it has. */
  function Padded(n: nat, width: nat): string {
    if |Plain(n)| >= width then Plain(n) else Zeros(width - |Plain(n)|) + Plain(n)
  }

  lemma {:induction false} PaddedFits(n: nat, width: nat)
    requires width > 0 && n < Pow10(width)
    ensures |Plain(n)| <= width && Padded(n, width) == Decimal(n, width)
  {
    if n < 10 {
      DecimalOfDigit(n, width);
    } else {
      PaddedFits(n / 10, width - 1);
      PaddedStep(n, width);
      assert Decimal(n, width) == Decimal(n / 10, width - 1) + [DigitChar(n % 10)];
    }
  }

  lemma PaddedStep(n: nat, width: nat)
    requires n >= 10 && width > 0 && |Plain(n / 10)| <= width - 1
    ensures |Plain(n)| <= width && Padded(n, width) == Padded(n / 10, width - 1) + [DigitChar(n % 10)]
  {
    var front, last := Plain(n / 10), [DigitChar(n % 10)];
    assert Plain(n) == front + last;
    hide Plain, Zeros;
    Regroup(Zeros(width - |Plain(n)|), front, last);
    assert |Plain(n)| == width ==> Zeros(0) + front == front by { NoZeros(); }
  }

  lemma NoZeros()
    ensures Zeros(0) == ""
  {
  }

  lemma {:induction false} DecimalOfDigit(n: nat, width: nat)
    requires width > 0 && n < 10
    ensures Decimal(n, width) == Zeros(width - 1) + [DigitChar(n)]
  {
    if width > 1 {
      DecimalOfDigit(0, width - 1);
      ZerosEnd(width - 1);
    } else {
      assert Decimal(0, 0) == "";
    }
  }

  lemma {:induction false} ZerosEnd(n: nat)
    requires n > 0
    ensures Zeros(n) == Zeros(n - 1) + ['0']
  {
    if n > 1 {
      ZerosEnd(n - 1);
    }
  }

  lemma Million()
    ensures Pow10(DIGITS) == SHOWN
  {
    assert Pow10(2) == 100 && Pow10(4) == 10_000;
  }

  // ---- codes -------------------------------------------------------------------

  /** The secret is readable base 32. */
  predicate HasKey(c: Crypto, secret: string) {
    c.key(Trim(GoSpace, secret)).Some?
  }

  /** What the code for a counter is: the truncated MAC of the counter's eight bytes, to six digits. */
  function CodeOf(c: Crypto, secret: string, counter: nat): Option<string> {
    var key := c.key(Trim(GoSpace, secret));
    if key.None? then None
    else Some(Decimal(DynamicTruncation(c.hmac(key.value, Bytes(counter, 8))) % SHOWN, DIGITS))
  }

  /** Every code is six digits and denotes the truncated value modulo a million. */
  lemma CodeShape(c: Crypto, secret: string, counter: nat)
    requires HasKey(c, secret)
    ensures var code := CodeOf(c, secret, counter).value;
            var mac := c.hmac(c.key(Trim(GoSpace, secret)).value, Bytes(counter, 8));
            |code| == 6 && Digits(code) && Denoted(code) == Truncate(mac) % 1_000_000
  {
    var mac := c.hmac(c.key(Trim(GoSpace, secret)).value, Bytes(counter, 8));
    TruncateIsDynamic(mac);
    Million();
    hide DynamicTruncation, Truncate;
    DecimalDenotes(DynamicTruncation(mac) % SHOWN, DIGITS);
  }

  /** The code that is current `d` periods away from `t`. */
  function CodeNear(c: Crypto, secret: string, t: int, d: int): Option<string> {
    CodeOf(c, secret, Unsigned(Quotient(t) + d))
  }

  lemma CodeIfKey(c: Crypto, secret: string, counter: nat)
    ensures CodeOf(c, secret, counter).Some? <==> HasKey(c, secret)
  {
  }

  lemma CodeLength(c: Crypto, secret: string, counter: nat)
    ensures CodeOf(c, secret, counter).Some? ==> |CodeOf(c, secret, counter).value| == DIGITS
  {
  }

  lemma DigitsTrimmed(s: string)
    requires Digits(s)
    ensures Trimmed(GoSpace, s)
  {
  }

  lemma CodeTrims(c: Crypto, secret: string, counter: nat, pre: string, post: string)
    requires HasKey(c, secret)
    requires AllSpace(GoSpace, pre) && AllSpace(GoSpace, post)
    ensures CodeOf(c, secret, counter) == Some(Trim(GoSpace, pre + CodeOf(c, secret, counter).value + post))
  {
    var code := CodeOf(c, secret, counter).value;
    CodeShape(c, secret, counter);
    hide *;
    DigitsTrimmed(code);
    TrimPadded(GoSpace, pre, code, post);
  }

  method Code(c: Crypto, secret: string, counter: nat) returns (code: Option<string>)
    requires counter < U64
    ensures code == CodeOf(c, secret, counter)
  {
    var key := c.key(Trim(GoSpace, secret));
    if key.None? {
      return None;
    }
    var buf := new Byte[8];
    PutUint64(buf, counter);
    var sum := c.hmac(key.value, buf[..]);
    TruncateIsDynamic(sum);
    Million();
    hide Truncate, DynamicTruncation, Padded, Decimal;
    var val := Truncate(sum);
    PaddedFits(val % SHOWN, DIGITS);
    return Some(Padded(val % SHOWN, DIGITS));
  }

  /** Go's division, towards zero. */
  function Quotient(t: int): int {
    if t >= 0 then t / PERIOD else -(-t / PERIOD)
  }

  /** uint64 of a signed number. */
  function Unsigned(n: int): (u: nat)
    ensures u < U64
  {
    n % U64
  }

  method Generate(c: Crypto, secret: string, t: int) returns (code: Option<string>)
    ensures code == CodeOf(c, secret, Unsigned(Quotient(t)))
  {
    code := Code(c, secret, Unsigned(Quotient(t)));
  }

  /** The trimmed input is the code of the counter at `t`, of the one before or of the one after. */
  predicate Accepted(c: Crypto, secret: string, input: string, t: int) {
    exists d | -1 <= d <= 1 :: CodeNear(c, secret, t, d) == Some(Trim(GoSpace, input))
  }

  method Validate(c: Crypto, secret: string, input: string, t: int) returns (ok: bool)
    ensures ok <==> Accepted(c, secret, input, t)
  {
    hide Trim, Decimal, DynamicTruncation, Unsigned, Quotient, CodeOf, HasKey;
    var text := Trim(GoSpace, input);
    if |text| != DIGITS {
      forall d | -1 <= d <= 1 ensures CodeNear(c, secret, t, d) != Some(text) {
        CodeLength(c, secret, Unsigned(Quotient(t) + d));
      }
      return false;
    }
    var counter := Quotient(t);
    var offsets := [0, -1, 1];
    for i := 0 to |offsets|
      invariant forall j | 0 <= j < i :: CodeNear(c, secret, t, offsets[j]) != Some(text)
    {
      var want := Code(c, secret, Unsigned(counter + offsets[i]));
      if want.None? {
        CodeIfKey(c, secret, Unsigned(counter + offsets[i]));
        forall d | -1 <= d <= 1 ensures CodeNear(c, secret, t, d).None? {
          CodeIfKey(c, secret, Unsigned(counter + d));
        }
        return false;
      }
      if want.value == text {
        assert CodeNear(c, secret, t, offsets[i]) == Some(text);
        return true;
      }
    }
    assert offsets[0] == 0 && offsets[1] == -1 && offsets[2] == 1;
    return false;
  }

  // ---- the clock skew that is tolerated ------------------------------------------------

  /** From 1970 on a counter stands for the thirty seconds that it numbers; before, division towards zero
      gives those up to its own. */
  lemma QuotientIs(t: int)
    ensures t >= 0 ==> 30 * Quotient(t) <= t < 30 * Quotient(t) + 30
    ensures t <= 0 ==> 30 * Quotient(t) - 30 < t <= 30 * Quotient(t)
  {
  }

  lemma NearTimesNearCounters(t: int, u: int)
    requires -30 <= t - u <= 30
    ensures -1 <= Quotient(u) - Quotient(t) <= 1
  {
  }

  /** A code is accepted at any time within a period of the one it was generated at, with any
      white space typed around it. */
  lemma GeneratedAccepted(c: Crypto, secret: string, t: int, u: int, pre: string, post: string)
    requires HasKey(c, secret)
    requires -30 <= t - u <= 30
    requires AllSpace(GoSpace, pre) && AllSpace(GoSpace, post)
    ensures CodeOf(c, secret, Unsigned(Quotient(u))).Some?
    ensures Accepted(c, secret, pre + CodeOf(c, secret, Unsigned(Quotient(u))).value + post, t)
  {
    hide CodeOf, Trim, Unsigned, Quotient;
    CodeIfKey(c, secret, Unsigned(Quotient(u)));
    CodeTrims(c, secret, Unsigned(Quotient(u)), pre, post);
    NearTimesNearCounters(t, u);
    var d := Quotient(u) - Quotient(t);
    assert Quotient(t) + d == Quotient(u);
    assert CodeNear(c, secret, t, d) == CodeOf(c, secret, Unsigned(Quotient(u)));
  }

  /** A code two periods old, or older, is accepted only when six digits happen to repeat: some
      counter in the window, sent to the MAC as other bytes, has the same code. */
  lemma StaleOnlyByRepeat(c: Crypto, secret: string, t: int, u: int) returns (d: int)
    requires HasKey(c, secret)
    requires 0 <= u && u + 60 <= t < U64
    requires Accepted(c, secret, CodeOf(c, secret, Unsigned(Quotient(u))).value, t)
    ensures -1 <= d <= 1
    ensures var was, now := Unsigned(Quotient(u)), Unsigned(Quotient(t) + d);
            Bytes(was, 8) != Bytes(now, 8) && CodeOf(c, secret, now) == CodeOf(c, secret, was)
  {
    var was := Unsigned(Quotient(u));
    var code := CodeOf(c, secret, was).value;
    d := WindowHit(c, secret, code, t);
    var now := Unsigned(Quotient(t) + d);
    FarTimesOtherCounters(t, u, d);
    hide CodeOf, Trim, Unsigned, Quotient;
    CodeIfKey(c, secret, was);
    CodeTrims(c, secret, was, "", "");
    assert "" + code + "" == code;
    Pow256Of8();
    BytesReadBack(was, 8);
    BytesReadBack(now, 8);
  }

  lemma WindowHit(c: Crypto, secret: string, input: string, t: int) returns (d: int)
    requires Accepted(c, secret, input, t)
    ensures -1 <= d <= 1 && CodeOf(c, secret, Unsigned(Quotient(t) + d)) == Some(Trim(GoSpace, input))
  {
    hide CodeOf, Trim, Unsigned, Quotient;
    d :| -1 <= d <= 1 && CodeNear(c, secret, t, d) == Some(Trim(GoSpace, input));
  }

  lemma FarTimesOtherCounters(t: int, u: int, d: int)
    requires 0 <= u && u + 2 * PERIOD <= t < U64 && -1 <= d <= 1
    ensures Unsigned(Quotient(u)) != Unsigned(Quotient(t) + d)
  {
  }

  lemma Pow256Of8()
    ensures Pow256(8) == U64
  {
    assert Pow256(2) == 0x1_0000 && Pow256(4) == 0x1_0000_0000 && Pow256(6) == 0x1_0000_0000_0000;
  }
}
