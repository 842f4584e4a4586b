// License tokens and their hot reload (pkg/license/license.go, ee/cmd/sluicio-license/main.go).
module License {
  import opened Text
  import opened Base64Url

  datatype Claims = Claims(licenseId: string, customer: string, plan: string, entitlements: seq<string>,
                           maxRetentionDays: int, maxIntegrations: int,
                           issuedAt: int, notBefore: int, expiresAt: int)

  /** Ed25519 against the embedded public key, the JSON of the claims and the words of the errors. */
  datatype Keys = Keys(accepts: (seq<Byte>, seq<Byte>) -> bool,
                       marshal: Claims -> seq<Byte>, unmarshal: seq<Byte> -> Option<Claims>,
                       words: Error -> string)

  /** What went wrong, with the text that the words of the error depend on. */
  datatype Error =
    | NotOurs | Malformed | BadPayloadText(text: string) | BadSignatureText(text: string)
    | BadSignature | BadJson(payload: seq<Byte>)
    | Unreadable(why: string) | Empty

  function Message(k: Keys, e: Error): string {
    "license: " + k.words(e)
  }

  datatype Verdict = Valid(claims: Claims) | Invalid(error: Error)

  const TOKEN_PREFIX := "sluicio_lic_"

  // ---- the token ---------------------------------------------------------------

  /** strings.SplitN(s, ".", 2): the text before the first point and all that follows it. */
  function SplitAtPoint(s: string): Option<(string, string)> {
    if s == "" then None
    else if s[0] == '.' then Some(("", s[1..]))
    else
      var r := SplitAtPoint(s[1..]);
      if r.None? then None else Some(([s[0]] + r.value.0, r.value.1))
  }

  /** The claims of a token, if its signature holds; expiry is not looked at here. */
  function Verify(k: Keys, text: string): Verdict {
    var token := Trim(GoSpace, text);
    if !(TOKEN_PREFIX <= token) then Invalid(NotOurs)
    else
      var parts := SplitAtPoint(token[|TOKEN_PREFIX|..]);
      if parts.None? then Invalid(Malformed)
      else
        var payload := Decode(parts.value.0);
        if payload.None? then Invalid(BadPayloadText(parts.value.0))
        else
          var sig := Decode(parts.value.1);
          if sig.None? then Invalid(BadSignatureText(parts.value.1))
          else if !k.accepts(payload.value, sig.value) then Invalid(BadSignature)
          else
            var claims := k.unmarshal(payload.value);
            if claims.None? then Invalid(BadJson(payload.value)) else Valid(claims.value)
  }

  function TokenText(payload: seq<Byte>, sig: seq<Byte>): string {
    TOKEN_PREFIX + (Encode(payload) + ("." + Encode(sig)))
  }

  /** Signs the claims with `sign` and prints the token only if a cell would accept it. */
  method Mint(k: Keys, sign: seq<Byte> -> seq<Byte>, claims: Claims) returns (token: Option<string>)
    ensures token.Some? ==> Verify(k, token.value).Valid?
    ensures token.Some? <==> k.accepts(k.marshal(claims), sign(k.marshal(claims)))
                             && k.unmarshal(k.marshal(claims)).Some?
    ensures token.Some? && k.unmarshal(k.marshal(claims)) == Some(claims) ==> Verify(k, token.value) == Valid(claims)
  {
    var payload := k.marshal(claims);
    var sig := sign(payload);
    var text := TOKEN_PREFIX + (Encode(payload) + ("." + Encode(sig)));
    TokenVerdict(k, payload, sig, "", "");
    assert text == TokenText(payload, sig);
    hide Verify, Encode, TokenText;
    assert "" + text + "" == text;
    if Verify(k, text).Invalid? {
      return None;
    }
    return Some(text);
  }

  lemma {:induction false} SplitFirstPoint(a: string, b: string)
    requires '.' !in a
    ensures SplitAtPoint(a + ("." + b)) == Some((a, b))
  {
    var s := a + ("." + b);
    if a == "" {
      assert s[1..] == b;
    } else {
      assert s[1..] == a[1..] + ("." + b);
      SplitFirstPoint(a[1..], b);
      assert [a[0]] + a[1..] == a;
    }
  }

  lemma AlphabetPlain()
    ensures forall c | InAlphabet(c) :: !GoSpace(c) && c != '.'
    ensures !GoSpace('s') && !GoSpace('.')
  {
  }

  lemma TokenTrimmed(payload: seq<Byte>, sig: seq<Byte>)
    ensures var e, f := Encode(payload), Encode(sig);
            '.' !in e && Trimmed(GoSpace, TokenText(payload, sig))
  {
    EncodeInAlphabet(payload);
    EncodeInAlphabet(sig);
    var e, f := Encode(payload), Encode(sig);
    hide Encode;
    AlphabetPlain();
    hide InAlphabet, DecodeChar, GoSpace;
    var token := TokenText(payload, sig);
    var n := |token| - 1;
    assert token[0] == 's';
    assert token[n] == ("." + f)[|f|];
    if f != "" { assert token[n] == f[|f| - 1]; }
  }

  /** What verifying says of any payload and signature in token form, with any space around it. */
  lemma TokenVerdict(k: Keys, payload: seq<Byte>, sig: seq<Byte>, pre: string, post: string)
    requires AllSpace(GoSpace, pre) && AllSpace(GoSpace, post)
    ensures Verify(k, pre + TokenText(payload, sig) + post)
         == if !k.accepts(payload, sig) then Invalid(BadSignature)
            else if k.unmarshal(payload).None? then Invalid(BadJson(payload))
            else Valid(k.unmarshal(payload).value)
  {
    TokenTrimmed(payload, sig);
    var token := TokenText(payload, sig);
    TrimPadded(GoSpace, pre, token, post);
    SplitFirstPoint(Encode(payload), Encode(sig));
    DecodeEncode(payload);
    DecodeEncode(sig);
    hide Trim, Encode, Decode, SplitAtPoint;
    var body := Encode(payload) + ("." + Encode(sig));
    assert TOKEN_PREFIX <= token && token[|TOKEN_PREFIX|..] == body;
  }

  /** The text is a token of these two parts: the prefix, a part without a point, a point and the rest. */
  predicate TokenParts(token: string, payload: string, sig: string) {
    token == "sluicio_lic_" + (payload + ("." + sig)) && '.' !in payload
  }

  lemma {:induction false} SplitIs(s: string)
    ensures SplitAtPoint(s).None? <==> '.' !in s
    ensures SplitAtPoint(s).Some? ==>
              var r := SplitAtPoint(s).value; s == r.0 + ("." + r.1) && '.' !in r.0
  {
    if s != "" {
      assert s == [s[0]] + s[1..];
      if s[0] != '.' {
        SplitIs(s[1..]);
        if SplitAtPoint(s[1..]).Some? {
          var r := SplitAtPoint(s[1..]).value;
          Regroup([s[0]], r.0, "." + r.1);
        }
      }
    }
  }

  lemma TokenShape(token: string)
    ensures TOKEN_PREFIX <= token && '.' in token[|TOKEN_PREFIX|..]
       <==> exists p, q :: TokenParts(token, p, q)
    ensures forall p, q | TokenParts(token, p, q) ::
              TOKEN_PREFIX <= token && SplitAtPoint(token[|TOKEN_PREFIX|..]) == Some((p, q))
  {
    forall p, q | TokenParts(token, p, q)
      ensures TOKEN_PREFIX <= token && SplitAtPoint(token[|TOKEN_PREFIX|..]) == Some((p, q))
      ensures '.' in token[|TOKEN_PREFIX|..]
    {
      var body := p + ("." + q);
      assert token[|TOKEN_PREFIX|..] == body && body[|p|] == '.';
      SplitFirstPoint(p, q);
    }
    if TOKEN_PREFIX <= token && '.' in token[|TOKEN_PREFIX|..] {
      var body := token[|TOKEN_PREFIX|..];
      SplitIs(body);
      var r := SplitAtPoint(body).value;
      assert token == "sluicio_lic_" + (r.0 + ("." + r.1));
      assert TokenParts(token, r.0, r.1);
    }
  }

  /** Both parts decode, the key accepts the signature and the payload is the JSON of the claims. */
  predicate Signed(k: Keys, payload: string, sig: string, claims: Claims) {
    Decode(payload).Some? && Decode(sig).Some?
    && k.accepts(Decode(payload).value, Decode(sig).value)
    && k.unmarshal(Decode(payload).value) == Some(claims)
  }

  /** No text at all is taken for a license unless it is, inside its white space, a token whose
      signature the key accepts and whose payload says those claims; and every such text is. */
  lemma VerifyValidIff(k: Keys, text: string, claims: Claims)
    ensures Verify(k, text) == Valid(claims)
       <==> exists p, q :: TokenParts(Trim(GoSpace, text), p, q) && Signed(k, p, q, claims)
  {
    var token := Trim(GoSpace, text);
    TokenShape(token);
    hide Trim, Decode, SplitAtPoint;
    if Verify(k, text) == Valid(claims) {
      var r := SplitAtPoint(token[|TOKEN_PREFIX|..]).value;
      SplitIs(token[|TOKEN_PREFIX|..]);
      assert token == "sluicio_lic_" + (r.0 + ("." + r.1));
      assert TokenParts(token, r.0, r.1) && Signed(k, r.0, r.1, claims);
    }
  }

  lemma PartsVerdict(k: Keys, text: string, p: string, q: string)
    requires TokenParts(Trim(GoSpace, text), p, q)
    ensures Decode(p).None? ==> Verify(k, text) == Invalid(BadPayloadText(p))
    ensures Decode(p).Some? && Decode(q).None? ==> Verify(k, text) == Invalid(BadSignatureText(q))
    ensures Decode(p).Some? && Decode(q).Some? && !k.accepts(Decode(p).value, Decode(q).value) ==>
              Verify(k, text) == Invalid(BadSignature)
    ensures Decode(p).Some? && Decode(q).Some? && k.accepts(Decode(p).value, Decode(q).value) ==>
              var claims := k.unmarshal(Decode(p).value);
              Verify(k, text) == if claims.None? then Invalid(BadJson(Decode(p).value)) else Valid(claims.value)
  {
    TokenShape(Trim(GoSpace, text));
    hide Trim, Decode, SplitAtPoint;
  }

  /** The error that every other text gets: it is no license of ours without the prefix, malformed
      without a point after it, and of a token of two parts the first thing that is wrong is told. */
  lemma VerifyErrors(k: Keys, text: string)
    ensures var token := Trim(GoSpace, text);
            (Verify(k, text) == Invalid(NotOurs) <==> !("sluicio_lic_" <= token))
            && (Verify(k, text) == Invalid(Malformed)
                <==> "sluicio_lic_" <= token && forall p, q :: !TokenParts(token, p, q))
  {
    var token := Trim(GoSpace, text);
    TokenShape(token);
    if TOKEN_PREFIX <= token {
      SplitIs(token[|TOKEN_PREFIX|..]);
    }
    hide Trim, Decode, SplitAtPoint;
  }

  /** Signing with the key that matches, and JSON that reads back, make every token verify to the
      claims it was minted for, with any white space around it. */
  lemma MintedVerifies(k: Keys, sign: seq<Byte> -> seq<Byte>, claims: Claims, pre: string, post: string)
    requires forall m :: k.accepts(m, sign(m))
    requires k.unmarshal(k.marshal(claims)) == Some(claims)
    requires AllSpace(GoSpace, pre) && AllSpace(GoSpace, post)
    ensures var payload := k.marshal(claims);
            Verify(k, pre + TokenText(payload, sign(payload)) + post) == Valid(claims)
  {
    TokenVerdict(k, k.marshal(claims), sign(k.marshal(claims)), pre, post);
  }

  /** Verifying looks only at the token inside its white space. */
  lemma VerifyTrims(k: Keys, text: string)
    ensures Verify(k, Trim(GoSpace, text)) == Verify(k, text)
  {
    TrimIsTrimmed(GoSpace, text);
    TrimFixed(GoSpace, Trim(GoSpace, text));
    hide Trim, Decode, SplitAtPoint;
  }

  // ---- hot reload over a run -----------------------------------------------------------

  /** The license in force and the text of the file it was last read from. */
  datatype Held = Held(claims: Option<Claims>, lastToken: string)

  /** What reading the file gives: its contents, or why it cannot be read. */
  datatype File = Contents(text: string) | Missing(why: string)

  datatype Outcome = Unchanged | Changed | Problem(error: Error)

  /** One look at the file. */
  function Reload(k: Keys, h: Held, file: File): (Held, Outcome) {
    if file.Missing? then (h, Problem(Unreadable(file.why)))
    else
      var tok := Trim(GoSpace, file.text);
      if tok == "" then (h, Problem(Empty))
      else if tok == h.lastToken then (h, Unchanged)
      else
        match Verify(k, tok)
        case Invalid(e) => (h, Problem(e))
        case Valid(claims) => (Held(Some(claims), tok), Changed)
  }

  function Held0(k: Keys, h: Held, files: seq<File>): Held {
    if files == [] then h
    else Reload(k, Held0(k, h, files[..|files| - 1]), files[|files| - 1]).0
  }

  function OutcomeAt(k: Keys, h: Held, files: seq<File>, i: nat): Outcome
    requires i < |files|
  {
    Reload(k, Held0(k, h, files[..i]), files[i]).1
  }

  /** The remembered text is empty or is a token for the license in force. */
  predicate Coherent(k: Keys, h: Held) {
    h.lastToken == ""
    || (h.claims.Some? && Verify(k, h.lastToken) == Valid(h.claims.value) && Trimmed(GoSpace, h.lastToken))
  }

  /** The license of one file's contents. */
  function LicenseIn(k: Keys, file: File): Option<Claims> {
    if file.Missing? || Trim(GoSpace, file.text) == "" then None
    else match Verify(k, Trim(GoSpace, file.text))
         case Invalid(_) => None
         case Valid(claims) => Some(claims)
  }

  /** The license of the last contents that held a valid one, else the one before the run. */
  function LatestValid(k: Keys, before: Option<Claims>, files: seq<File>): Option<Claims> {
    if files == [] then before
    else
      var last := LicenseIn(k, files[|files| - 1]);
      if last.Some? then last else LatestValid(k, before, files[..|files| - 1])
  }

  lemma ReloadKeeps(k: Keys, h: Held, file: File)
    requires Coherent(k, h)
    ensures var r := Reload(k, h, file).0;
            Coherent(k, r)
            && r.claims == (if LicenseIn(k, file).Some? then LicenseIn(k, file) else h.claims)
  {
    if file.Contents? {
      TrimIsTrimmed(GoSpace, file.text);
    }
    hide Verify, Trim, Trimmed;
  }

  /** Over any sequence of file contents - missing, empty, half written, wrong key, renewed - the
      license in force is that of the latest valid token read, and the remembered text is empty or
      verifies to it. A failed look never takes a working license away. */
  lemma {:induction false} InForceIsLatestValid(k: Keys, h: Held, files: seq<File>)
    requires Coherent(k, h)
    ensures Coherent(k, Held0(k, h, files))
    ensures Held0(k, h, files).claims == LatestValid(k, h.claims, files)
  {
    hide Coherent, Reload, LicenseIn;
    if files != [] {
      InForceIsLatestValid(k, h, files[..|files| - 1]);
      ReloadKeeps(k, Held0(k, h, files[..|files| - 1]), files[|files| - 1]);
    }
  }

  /** A file that was taken over, or was as remembered, is left alone from then on until it changes. */
  lemma TakenOnce(k: Keys, h: Held, file: File)
    requires !Reload(k, h, file).1.Problem?
    ensures Reload(k, Reload(k, h, file).0, file) == (Reload(k, h, file).0, Unchanged)
  {
    hide Verify, Trim;
  }

  datatype Report = Report(tick: nat, outcome: Outcome)

  /** A tick is reported if it changed the license, or failed with other words than the tick before it. */
  predicate Reported(k: Keys, h: Held, files: seq<File>, i: nat)
    requires i < |files|
  {
    var o := OutcomeAt(k, h, files, i);
    o.Changed? || (o.Problem? && (i == 0 || !SameProblem(k, OutcomeAt(k, h, files, i - 1), o)))
  }

  predicate SameProblem(k: Keys, o: Outcome, o': Outcome) {
    o.Problem? && o'.Problem? && Message(k, o.error) == Message(k, o'.error)
  }

  function Reports(k: Keys, h: Held, files: seq<File>, n: nat): seq<Report>
    requires n <= |files|
  {
    if n == 0 then []
    else Reports(k, h, files, n - 1)
         + if Reported(k, h, files, n - 1) then [Report(n - 1, OutcomeAt(k, h, files, n - 1))] else []
  }

  lemma Held0Step(k: Keys, h: Held, files: seq<File>, i: nat)
    requires i < |files|
    ensures Held0(k, h, files[..i + 1]) == Reload(k, Held0(k, h, files[..i]), files[i]).0
    ensures OutcomeAt(k, h, files, i) == Reload(k, Held0(k, h, files[..i]), files[i]).1
  {
    hide Reload;
    assert files[..i + 1][..i] == files[..i];
  }

  lemma ReportsStep(k: Keys, h: Held, files: seq<File>, i: nat)
    requires i < |files|
    ensures Reports(k, h, files, i + 1)
         == Reports(k, h, files, i) + if Reported(k, h, files, i) then [Report(i, OutcomeAt(k, h, files, i))] else []
  {
    hide Reported, OutcomeAt;
  }

  /** The watcher's variables before tick `i`. */
  ghost predicate Watching(k: Keys, h: Held, files: seq<File>, i: nat, held: Held, reports: seq<Report>,
                           lastErr: string)
    requires i <= |files|
  {
    held == Held0(k, h, files[..i]) && reports == Reports(k, h, files, i) && lastErr == LastError(k, h, files, i)
  }

  /** The words of the problem at the tick before `i`, or none. */
  function LastError(k: Keys, h: Held, files: seq<File>, i: nat): string
    requires i <= |files|
  {
    if i > 0 && OutcomeAt(k, h, files, i - 1).Problem? then Message(k, OutcomeAt(k, h, files, i - 1).error) else ""
  }

  lemma WatchStart(k: Keys, h: Held, files: seq<File>)
    ensures Watching(k, h, files, 0, h, [], "")
  {
    assert files[..0] == [];
  }

  lemma ReportedIff(k: Keys, h: Held, files: seq<File>, i: nat)
    requires i < |files|
    ensures var o := OutcomeAt(k, h, files, i);
            Reported(k, h, files, i) <==> o.Changed? || (o.Problem? && Message(k, o.error) != LastError(k, h, files, i))
  {
    hide OutcomeAt;
    var o := OutcomeAt(k, h, files, i);
    assert o.Problem? ==> Message(k, o.error) != "";
    hide Message;
  }

  /** In terms of the words of the errors: a tick is reported unless nothing came of it or it failed in the
      words in which the tick before it failed. */
  lemma ReportedWords(k: Keys, h: Held, files: seq<File>, i: nat)
    requires i < |files|
    ensures var o := OutcomeAt(k, h, files, i);
            !Reported(k, h, files, i)
            <==> o.Unchanged? || (o.Problem? && i > 0 && OutcomeAt(k, h, files, i - 1).Problem?
                                  && k.words(OutcomeAt(k, h, files, i - 1).error) == k.words(o.error))
  {
    hide OutcomeAt;
    if i > 0 {
      var o, o' := OutcomeAt(k, h, files, i - 1), OutcomeAt(k, h, files, i);
      if o.Problem? && o'.Problem? {
        var x, y := Message(k, o.error), Message(k, o'.error);
        assert x[9..] == k.words(o.error) && y[9..] == k.words(o'.error);
      }
    }
  }

  lemma WatchNext(k: Keys, h: Held, files: seq<File>, i: nat, held: Held, reports: seq<Report>, lastErr: string,
                  after: Held, o: Outcome)
    requires i < |files| && Watching(k, h, files, i, held, reports, lastErr) && (after, o) == Reload(k, held, files[i])
    ensures Watching(k, h, files, i + 1, after,
                     if o.Changed? || (o.Problem? && Message(k, o.error) != lastErr) then reports + [Report(i, o)]
                     else reports,
                     if o.Problem? then Message(k, o.error) else "")
  {
    Held0Step(k, h, files, i);
    ReportsStep(k, h, files, i);
    ReportedIff(k, h, files, i);
    hide Held0, Reports, Reload, Message, Reported, OutcomeAt;
    assert reports + [] == reports;
  }

  lemma WatchStep(k: Keys, h: Held, files: seq<File>, i: nat, held: Held, reports: seq<Report>, lastErr: string,
                  after: Held, changed: bool, error: Option<Error>)
    requires i < |files| && Watching(k, h, files, i, held, reports, lastErr) && (error.Some? ==> !changed)
    requires (after, if error.Some? then Problem(error.value) else if changed then Changed else Unchanged)
          == Reload(k, held, files[i])
    ensures error.Some? && Message(k, error.value) == lastErr ==>
              Watching(k, h, files, i + 1, after, reports, lastErr)
    ensures error.Some? && Message(k, error.value) != lastErr ==>
              Watching(k, h, files, i + 1, after, reports + [Report(i, Problem(error.value))], Message(k, error.value))
    ensures error.None? && !changed ==> Watching(k, h, files, i + 1, after, reports, "")
    ensures error.None? && changed ==> Watching(k, h, files, i + 1, after, reports + [Report(i, Changed)], "")
  {
    var o := if error.Some? then Problem(error.value) else if changed then Changed else Unchanged;
    hide *;
    WatchNext(k, h, files, i, held, reports, lastErr, after, o);
  }

  class Manager {
    const keys: Keys
    var claims: Option<Claims>
    var filePath: string
    var lastToken: string

    constructor (keys: Keys)
      ensures this.keys == keys && claims == None && filePath == "" && lastToken == ""
    {
      this.keys := keys;
      claims, filePath, lastToken := None, "", "";
    }

    function State(): Held
      reads this
    {
      Held(claims, lastToken)
    }

    /** Verifies a token and stores its claims; on an error nothing changes. */
    method Load(token: string) returns (error: Option<Error>)
      modifies this`claims
      ensures Loaded(old(claims), token, claims, error)
    {
      match Verify(keys, token) {
        case Invalid(e) => return Some(e);
        case Valid(c) =>
          claims := Some(c);
          return None;
      }
    }

    predicate Loaded(before: Option<Claims>, token: string, after: Option<Claims>, error: Option<Error>) {
      match Verify(keys, token)
      case Invalid(e) => after == before && error == Some(e)
      case Valid(c) => after == Some(c) && error == None
    }

    /** Loads from the inline key, else from the file named by `path`, whose reading gives `file`. */
    method LoadFromEnv(key: string, path: string, file: File) returns (error: Option<Error>)
      modifies this`claims, this`filePath, this`lastToken
      ensures Trim(GoSpace, key) != "" ==>
                Loaded(old(claims), Trim(GoSpace, key), claims, error)
                && lastToken == old(lastToken) && filePath == old(filePath)
      ensures Trim(GoSpace, key) == "" && Trim(GoSpace, path) != "" ==> filePath == Trim(GoSpace, path)
      ensures Trim(GoSpace, key) == "" && Trim(GoSpace, path) != "" && file.Missing? ==>
                State() == old(State()) && error == Some(Unreadable(file.why))
      ensures Trim(GoSpace, key) == "" && Trim(GoSpace, path) != "" && file.Contents? ==>
                Loaded(old(claims), file.text, claims, error)
                && lastToken == (if error.Some? then old(lastToken) else Trim(GoSpace, file.text))
      ensures Trim(GoSpace, key) == "" && Trim(GoSpace, path) == "" ==>
                State() == old(State()) && filePath == old(filePath) && error == None
      // Whichever way a new manager starts, watching the file may begin from here.
      ensures old(lastToken) == "" ==> Coherent(keys, State())
    {
      hide Verify, Trim, Trimmed;
      var tok := Trim(GoSpace, key);
      if tok != "" {
        error := Load(tok);
        return;
      }
      var p := Trim(GoSpace, path);
      if p != "" {
        filePath := p;
        if file.Missing? {
          return Some(Unreadable(file.why));
        }
        error := Load(file.text);
        if error.Some? {
          return;
        }
        lastToken := Trim(GoSpace, file.text);
        TrimIsTrimmed(GoSpace, file.text);
        VerifyTrims(keys, file.text);
        return None;
      }
      return None;
    }

    /** Reads the file again and loads it if its text changed. */
    method ReloadFromFile(file: File) returns (changed: bool, error: Option<Error>)
      modifies this`claims, this`lastToken
      ensures filePath == "" ==> State() == old(State()) && !changed && error == None
      ensures filePath != "" ==>
                (State(), if error.Some? then Problem(error.value) else if changed then Changed else Unchanged)
                == Reload(keys, old(State()), file)
      ensures error.Some? ==> !changed
    {
      if filePath == "" {
        return false, None;
      }
      if file.Missing? {
        return false, Some(Unreadable(file.why));
      }
      var tok := Trim(GoSpace, file.text);
      if tok == "" {
        return false, Some(Empty);
      }
      if tok == lastToken {
        return false, None;
      }
      error := Load(tok);
      if error.Some? {
        return false, error;
      }
      lastToken := tok;
      return true, None;
    }

    /** The watcher's loop over the contents found at each tick, with what it reports. The words of
        the last error are remembered as text, "" standing for none. */
    method WatchFile(files: seq<File>) returns (reports: seq<Report>)
      modifies this`claims, this`lastToken
      ensures filePath == "" ==> reports == [] && State() == old(State())
      ensures filePath != "" ==> reports == Reports(keys, old(State()), files, |files|)
                                 && State() == Held0(keys, old(State()), files)
    {
      reports := [];
      if filePath == "" {
        return;
      }
      ghost var h := State();
      var lastErr := "";
      WatchStart(keys, h, files);
      for i := 0 to |files|
        invariant Watching(keys, h, files, i, State(), reports, lastErr)
      {
        hide Reload, Watching, Message;
        ghost var held := State();
        var changed, error := ReloadFromFile(files[i]);
        WatchStep(keys, h, files, i, held, reports, lastErr, State(), changed, error);
        if error.Some? {
          if Message(keys, error.value) == lastErr {
            continue;
          }
          lastErr := Message(keys, error.value);
        } else {
          lastErr := "";
          if !changed {
            continue;
          }
        }
        reports := reports + [Report(i, if error.Some? then Problem(error.value) else Changed)];
      }
      assert files[..|files|] == files;
    }
  }

  // ---- when a license is in force -----------------------------------------------------------

  const SECOND: int := 1_000_000_000
  const GRACE: int := 14 * 24 * 3600 * SECOND

  /** Within [not_before, expires_at + grace]; times in nanoseconds, claims in seconds, zero for none. */
  predicate InForce(c: Claims, now: int) {
    (c.notBefore == 0 || c.notBefore * SECOND <= now)
    && (c.expiresAt == 0 || now <= c.expiresAt * SECOND + GRACE)
  }

  function Entitled(claims: Option<Claims>, feature: string, now: int): bool {
    if claims.None? then false
    else
      var c := claims.value;
      if c.notBefore != 0 && now < c.notBefore * SECOND then false
      else if c.expiresAt != 0 && now > c.expiresAt * SECOND + GRACE then false
      else feature in c.entitlements
  }

  function MaxIntegrations(claims: Option<Claims>, now: int): int {
    if claims.None? then 0
    else
      var c := claims.value;
      if c.notBefore != 0 && now < c.notBefore * SECOND then 0
      else if c.expiresAt != 0 && now > c.expiresAt * SECOND + GRACE then 0
      else c.maxIntegrations
  }

  datatype Warning = NoWarning | GraceOver | InGracePeriod | ExpiresSoon | NotYetValid

  datatype Status = Status(licensed: bool, expired: bool, inGrace: bool, features: map<string, bool>, warning: Warning)

  /** Fills in the status read-model case by case. */
  method StatusOf(claims: Option<Claims>, all: seq<string>, now: int) returns (st: Status)
    // The case analysis agrees with the two questions the rest of the product asks.
    ensures st.licensed <==> claims.Some? && InForce(claims.value, now)
    // Within fourteen days of the expiry, in nanoseconds.
    ensures st.licensed <==>
              claims.Some?
              && (claims.value.notBefore == 0 || claims.value.notBefore * 1_000_000_000 <= now)
              && (claims.value.expiresAt == 0
                  || now <= claims.value.expiresAt * 1_000_000_000 + 1_209_600_000_000_000)
    ensures forall f | f in all :: f in st.features && (st.features[f] <==> Entitled(claims, f, now))
    ensures forall f | f in all :: st.features[f] <==> st.licensed && f in claims.value.entitlements
    ensures MaxIntegrations(claims, now) == if st.licensed then claims.value.maxIntegrations else 0
    ensures claims.Some? ==> (st.licensed <==> !st.warning.GraceOver? && !st.warning.NotYetValid?)
    ensures claims.Some? && claims.value.expiresAt != 0 ==>
              (st.expired <==> now > claims.value.expiresAt * SECOND)
              && (st.inGrace <==> st.expired && now <= claims.value.expiresAt * SECOND + GRACE)
    ensures claims.None? || claims.value.expiresAt == 0 ==> !st.expired && !st.inGrace
    // The warning: not yet valid before anything else, else as the expiry is fourteen days off or past.
    ensures st.warning.NotYetValid? <==>
              claims.Some? && claims.value.notBefore != 0 && now < claims.value.notBefore * 1_000_000_000
    ensures !st.warning.NotYetValid? && claims.Some? && claims.value.expiresAt != 0 ==>
              var late := now - claims.value.expiresAt * 1_000_000_000;
              (st.warning.GraceOver? <==> late > 1_209_600_000_000_000)
              && (st.warning.InGracePeriod? <==> 0 < late <= 1_209_600_000_000_000)
              && (st.warning.ExpiresSoon? <==> -1_209_600_000_000_000 < late <= 0)
  {
    st := Status(false, false, false, map f | f in all :: Entitled(claims, f, now), NoWarning);
    if claims.None? {
      return;
    }
    var c := claims.value;
    if c.expiresAt != 0 {
      var exp := c.expiresAt * SECOND;
      if now > exp + GRACE {
        st := st.(expired := true, warning := GraceOver);
      } else if now > exp {
        st := st.(expired := true, inGrace := true, warning := InGracePeriod);
      } else if now > exp - 14 * 24 * 3600 * SECOND {
        st := st.(warning := ExpiresSoon);
      }
    }
    st := st.(licensed := !(st.expired && !st.inGrace));
    if c.notBefore != 0 && now < c.notBefore * SECOND {
      st := st.(licensed := false, warning := NotYetValid);
    }
  }
}
