// Unpadded base64url (section 5 of RFC 4648) as Go's RawURLEncoding writes and reads it.
module Base64Url {
  import opened Text

  type Byte = b: int | 0 <= b < 256

  type Sextet = n: int | 0 <= n < 64

  function EncodeChar(n: Sextet): char {
    if n < 26 then 'A' + n as char
    else if n < 52 then 'a' + (n - 26) as char
    else if n < 62 then '0' + (n - 52) as char
    else if n == 62 then '-'
    else '_'
  }

  function DecodeChar(c: char): Option<Sextet> {
    if 'A' <= c <= 'Z' then Some((c as int) - ('A' as int))
    else if 'a' <= c <= 'z' then Some((c as int) - ('a' as int) + 26)
    else if '0' <= c <= '9' then Some((c as int) - ('0' as int) + 52)
    else if c == '-' then Some(62)
    else if c == '_' then Some(63)
    else None
  }

  predicate InAlphabet(c: char) {
    DecodeChar(c).Some?
  }

  // The bits of three bytes as four sextets.
  function S0(a: Byte): Sextet { (a as int) / 4 }
  function S1(a: Byte, b: Byte): Sextet { (a as int) % 4 * 16 + (b as int) / 16 }
  function S2(b: Byte, c: Byte): Sextet { (b as int) % 16 * 4 + (c as int) / 64 }
  function S3(c: Byte): Sextet { (c as int) % 64 }

  // The bits of four sextets as three bytes.
  function B0(n0: Sextet, n1: Sextet): Byte { (n0 as int) * 4 + (n1 as int) / 16 }
  function B1(n1: Sextet, n2: Sextet): Byte { (n1 as int) % 16 * 16 + (n2 as int) / 4 }
  function B2(n2: Sextet, n3: Sextet): Byte { (n2 as int) % 4 * 64 + (n3 as int) }

  function Encode(bs: seq<Byte>): string {
    if |bs| == 0 then ""
    else if |bs| == 1 then [EncodeChar(S0(bs[0])), EncodeChar(S1(bs[0], 0))]
    else if |bs| == 2 then [EncodeChar(S0(bs[0])), EncodeChar(S1(bs[0], bs[1])), EncodeChar(S2(bs[1], 0))]
    else
      [EncodeChar(S0(bs[0])), EncodeChar(S1(bs[0], bs[1])), EncodeChar(S2(bs[1], bs[2])), EncodeChar(S3(bs[2]))]
      + Encode(bs[3..])
  }

  /** Go's decoder passes over line breaks wherever they stand. */
  function DropBreaks(s: string): string {
    if s == "" then "" else (if s[0] == '\r' || s[0] == '\n' then [] else [s[0]]) + DropBreaks(s[1..])
  }

  function Sextets(s: string): Option<seq<Sextet>> {
    if s == "" then Some([])
    else
      var rest := Sextets(s[1..]);
      if DecodeChar(s[0]).None? || rest.None? then None else Some([DecodeChar(s[0]).value] + rest.value)
  }

  /** Four sextets give three bytes; bits left over at the end are ignored; one sextet alone is an error. */
  function Pack(ns: seq<Sextet>): Option<seq<Byte>> {
    if |ns| == 0 then Some([])
    else if |ns| == 1 then None
    else if |ns| == 2 then Some([B0(ns[0], ns[1])])
    else if |ns| == 3 then Some([B0(ns[0], ns[1]), B1(ns[1], ns[2])])
    else
      var rest := Pack(ns[4..]);
      if rest.None? then None
      else Some([B0(ns[0], ns[1]), B1(ns[1], ns[2]), B2(ns[2], ns[3])] + rest.value)
  }

  function Decode(s: string): Option<seq<Byte>> {
    var ns := Sextets(DropBreaks(s));
    if ns.None? then None else Pack(ns.value)
  }

  // ---- the round trip ---------------------------------------------------------

  lemma EncodedChar(n: Sextet)
    ensures DecodeChar(EncodeChar(n)) == Some(n)
  {
  }

  function Unpack(bs: seq<Byte>): seq<Sextet> {
    if |bs| == 0 then []
    else if |bs| == 1 then [S0(bs[0]), S1(bs[0], 0)]
    else if |bs| == 2 then [S0(bs[0]), S1(bs[0], bs[1]), S2(bs[1], 0)]
    else [S0(bs[0]), S1(bs[0], bs[1]), S2(bs[1], bs[2]), S3(bs[2])] + Unpack(bs[3..])
  }

  function Chars(ns: seq<Sextet>): (s: string)
    ensures |s| == |ns| && forall i | 0 <= i < |ns| :: s[i] == EncodeChar(ns[i])
  {
    if ns == [] then "" else [EncodeChar(ns[0])] + Chars(ns[1..])
  }

  lemma CharsOfFour(a: Sextet, b: Sextet, c: Sextet, d: Sextet, rest: seq<Sextet>)
    ensures Chars([a, b, c, d] + rest) == [EncodeChar(a), EncodeChar(b), EncodeChar(c), EncodeChar(d)] + Chars(rest)
  {
    hide EncodeChar;
    var ns, s := [a, b, c, d] + rest, Chars([a, b, c, d] + rest);
    forall i | 0 <= i < |rest| ensures s[i + 4] == Chars(rest)[i] {
      assert ns[i + 4] == rest[i];
    }
  }

  lemma {:induction false} EncodeIsChars(bs: seq<Byte>)
    ensures Encode(bs) == Chars(Unpack(bs))
  {
    hide S0, S1, S2, S3, EncodeChar;
    if |bs| >= 3 {
      EncodeIsChars(bs[3..]);
      CharsOfFour(S0(bs[0]), S1(bs[0], bs[1]), S2(bs[1], bs[2]), S3(bs[2]), Unpack(bs[3..]));
    }
  }

  lemma SextetsCons(c: char, n: Sextet, t: string, ns: seq<Sextet>)
    requires DecodeChar(c) == Some(n) && Sextets(t) == Some(ns)
    ensures Sextets([c] + t) == Some([n] + ns)
  {
    hide DecodeChar;
    assert ([c] + t)[1..] == t;
  }

  lemma DropBreaksCons(c: char, t: string)
    requires c != '\r' && c != '\n'
    ensures DropBreaks([c] + t) == [c] + DropBreaks(t)
  {
    assert ([c] + t)[1..] == t;
  }

  lemma {:induction false} CharsDecode(ns: seq<Sextet>)
    ensures Sextets(DropBreaks(Chars(ns))) == Some(ns)
  {
    if ns != [] {
      var c, rest := EncodeChar(ns[0]), Chars(ns[1..]);
      assert c != '\r' && c != '\n';
      assert Chars(ns) == [c] + rest;
      hide EncodeChar, DecodeChar, Chars, Sextets, DropBreaks;
      CharsDecode(ns[1..]);
      EncodedChar(ns[0]);
      DropBreaksCons(c, rest);
      SextetsCons(c, ns[0], DropBreaks(rest), ns[1..]);
      assert [ns[0]] + ns[1..] == ns;
    }
  }

  lemma Quantum(a: Byte, b: Byte, c: Byte)
    ensures B0(S0(a), S1(a, b)) == a && B1(S1(a, b), S2(b, c)) == b && B2(S2(b, c), S3(c)) == c
  {
  }

  lemma {:induction false} PackUnpack(bs: seq<Byte>)
    ensures Pack(Unpack(bs)) == Some(bs)
  {
    hide S0, S1, S2, S3, B0, B1, B2;
    if |bs| == 1 {
      Quantum(bs[0], 0, 0);
      assert bs == [bs[0]];
    } else if |bs| == 2 {
      Quantum(bs[0], bs[1], 0);
      assert bs == [bs[0], bs[1]];
    } else if |bs| >= 3 {
      PackUnpack(bs[3..]);
      Quantum(bs[0], bs[1], bs[2]);
      assert Unpack(bs)[4..] == Unpack(bs[3..]);
      assert bs == [bs[0], bs[1], bs[2]] + bs[3..];
    }
  }

  /** Decoding undoes encoding for every byte string. */
  lemma DecodeEncode(bs: seq<Byte>)
    ensures Decode(Encode(bs)) == Some(bs)
  {
    EncodeIsChars(bs);
    CharsDecode(Unpack(bs));
    PackUnpack(bs);
  }

  /** The characters of the encoding in the order of their values (table 2 of RFC 4648). */
  const ALPHABET := Letters('A', 26) + Letters('a', 26) + Letters('0', 10) + "-_"

  /** Consecutive characters. */
  function Letters(first: char, n: nat): (s: string)
    requires first <= 'z' && n <= 26
    ensures |s| == n && forall i | 0 <= i < n :: s[i] == first + i as char
  {
    seq(n, i requires 0 <= i < n => first + i as char)
  }

  lemma AlphabetIs(n: Sextet)
    ensures EncodeChar(n) == ALPHABET[n]
  {
  }

  /** The characters that the decoder does not pass over. */
  function Kept(s: string): string {
    if s == "" then "" else Kept(s[..|s| - 1]) + if s[|s| - 1] in "\r\n" then "" else [s[|s| - 1]]
  }

  lemma {:induction false} DropBreaksSnoc(s: string, c: char)
    ensures DropBreaks(s + [c]) == DropBreaks(s) + if c in "\r\n" then "" else [c]
  {
    if s == "" {
      assert (s + [c])[1..] == "";
    } else {
      assert (s + [c])[1..] == s[1..] + [c];
      DropBreaksSnoc(s[1..], c);
      Regroup(if s[0] in "\r\n" then "" else [s[0]], DropBreaks(s[1..]), if c in "\r\n" then "" else [c]);
    }
  }

  lemma {:induction false} DropBreaksKeeps(s: string)
    ensures DropBreaks(s) == Kept(s)
  {
    if s != "" {
      DropBreaksKeeps(s[..|s| - 1]);
      DropBreaksSnoc(s[..|s| - 1], s[|s| - 1]);
      assert s == s[..|s| - 1] + [s[|s| - 1]];
    }
  }

  lemma DecodedChar(c: char)
    ensures InAlphabet(c) <==> c in ALPHABET
    ensures InAlphabet(c) ==> EncodeChar(DecodeChar(c).value) == c
  {
    if InAlphabet(c) {
      var n := DecodeChar(c).value;
      assert EncodeChar(n) == c;
      AlphabetIs(n);
    }
    if c in ALPHABET {
      var n :| 0 <= n < 64 && ALPHABET[n] == c;
      AlphabetIs(n);
      EncodedChar(n);
    }
  }

  lemma {:induction false} SextetsAre(s: string)
    ensures Sextets(s).Some? <==> forall c | c in s :: c in ALPHABET
    ensures Sextets(s).Some? ==> Chars(Sextets(s).value) == s
  {
    if s != "" {
      SextetsAre(s[1..]);
      DecodedChar(s[0]);
      assert s == [s[0]] + s[1..];
      hide DecodeChar, EncodeChar;
    }
  }

  lemma {:induction false} PackedSome(ns: seq<Sextet>)
    ensures Pack(ns).Some? <==> |ns| % 4 != 1
  {
    if |ns| >= 4 {
      PackMore(ns);
      hide *;
      PackedSome(ns[4..]);
      FourMore(|ns| - 4);
    } else {
      PackFew(ns);
    }
  }

  lemma PackFew(ns: seq<Sextet>)
    requires |ns| < 4
    ensures Pack(ns).Some? <==> |ns| != 1
  {
    hide B0, B1, B2;
  }

  lemma PackMore(ns: seq<Sextet>)
    requires |ns| >= 4
    ensures Pack(ns).Some? <==> Pack(ns[4..]).Some?
  {
    hide B0, B1, B2;
  }

  /** What is decoded spells the text again, but for the bits of the last character that make no byte. */
  predicate SameButLast(s: string, t: string) {
    |s| == |t| && forall i | 0 <= i < |s| - (if |s| % 4 == 0 then 0 else 1) :: s[i] == t[i]
  }

  predicate SameSextets(ns: seq<Sextet>, ms: seq<Sextet>) {
    |ns| == |ms| && forall i | 0 <= i < |ns| - (if |ns| % 4 == 0 then 0 else 1) :: ns[i] == ms[i]
  }

  lemma Regained(a: Sextet, b: Sextet, c: Sextet, d: Sextet)
    ensures S0(B0(a, b)) == a && S1(B0(a, b), B1(b, c)) == b && S2(B1(b, c), B2(c, d)) == c && S3(B2(c, d)) == d
    ensures S1(B0(a, b), 0) / 16 == b / 16 && S2(B1(b, c), 0) / 4 == c / 4
  {
  }

  lemma PackIs(ns: seq<Sextet>)
    requires |ns| >= 4 && Pack(ns).Some?
    ensures Pack(ns[4..]).Some?
    ensures Pack(ns).value == [B0(ns[0], ns[1]), B1(ns[1], ns[2]), B2(ns[2], ns[3])] + Pack(ns[4..]).value
  {
    hide B0, B1, B2;
  }

  lemma UnpackTriple(a: Byte, b: Byte, c: Byte, rest: seq<Byte>)
    ensures Unpack([a, b, c] + rest) == [S0(a), S1(a, b), S2(b, c), S3(c)] + Unpack(rest)
  {
    hide S0, S1, S2, S3;
    assert ([a, b, c] + rest)[3..] == rest;
  }

  lemma SameMore(a: Sextet, b: Sextet, c: Sextet, d: Sextet, ns: seq<Sextet>, ms: seq<Sextet>)
    requires SameSextets(ns, ms)
    ensures SameSextets([a, b, c, d] + ns, [a, b, c, d] + ms)
  {
    var xs, ys := [a, b, c, d] + ns, [a, b, c, d] + ms;
    FourMore(|ns|);
    forall i | 0 <= i < |xs| - (if |xs| % 4 == 0 then 0 else 1) ensures xs[i] == ys[i] {
      if i >= 4 { assert xs[i] == ns[i - 4] && ys[i] == ms[i - 4]; }
    }
  }

  lemma FourMore(n: nat)
    ensures (n + 4) % 4 == n % 4
  {
  }

  lemma UnpackMore(ns: seq<Sextet>)
    requires |ns| >= 4 && Pack(ns).Some? && Pack(ns[4..]).Some?
    requires SameSextets(Unpack(Pack(ns[4..]).value), ns[4..])
    ensures SameSextets(Unpack(Pack(ns).value), ns)
  {
    hide *;
    PackIs(ns);
    UnpackTriple(B0(ns[0], ns[1]), B1(ns[1], ns[2]), B2(ns[2], ns[3]), Pack(ns[4..]).value);
    Regained(ns[0], ns[1], ns[2], ns[3]);
    SameMore(ns[0], ns[1], ns[2], ns[3], Unpack(Pack(ns[4..]).value), ns[4..]);
    assert ns == [ns[0], ns[1], ns[2], ns[3]] + ns[4..];
  }

  lemma {:induction false} UnpackPack(ns: seq<Sextet>)
    requires Pack(ns).Some?
    ensures SameSextets(Unpack(Pack(ns).value), ns)
  {
    if |ns| >= 4 {
      PackMore(ns);
      UnpackPack(ns[4..]);
      UnpackMore(ns);
    } else if |ns| == 2 {
      Regained(ns[0], ns[1], 0, 0);
    } else if |ns| == 3 {
      Regained(ns[0], ns[1], ns[2], 0);
    }
  }

  /** A text decodes exactly when, its line breaks aside, it keeps to the alphabet and no single
      character is left over after its groups of four; and then to bytes that are written as it is. */
  lemma DecodeIff(s: string)
    ensures Decode(s).Some? <==> (forall c | c in Kept(s) :: c in ALPHABET) && |Kept(s)| % 4 != 1
    ensures Decode(s).Some? ==> SameButLast(Encode(Decode(s).value), Kept(s))
  {
    DropBreaksKeeps(s);
    SextetsAre(Kept(s));
    if Sextets(Kept(s)).Some? {
      var ns := Sextets(Kept(s)).value;
      PackedSome(ns);
      if Pack(ns).Some? {
        UnpackPack(ns);
        EncodeIsChars(Pack(ns).value);
      }
    }
    hide Pack, Unpack, Sextets, Encode;
  }

  /** The encoded text keeps to the alphabet, so it holds neither a point nor white space. */
  lemma EncodeInAlphabet(bs: seq<Byte>)
    ensures forall i | 0 <= i < |Encode(bs)| :: InAlphabet(Encode(bs)[i])
  {
    EncodeIsChars(bs);
    forall n: Sextet ensures InAlphabet(EncodeChar(n)) {
      EncodedChar(n);
    }
    hide EncodeChar, InAlphabet;
  }
}
