// The payload text of the repair script (go_json in scripts/audit-rechain.py): Python's JSON with
// five characters replaced in the finished text, against the store's own text.
module ScriptJson {
  import opened Text
  import opened CanonicalJson

  /** s.replace(c, with). */
  function Replace(c: char, with: string, s: string): string {
    if s == "" then "" else (if s[0] == c then with else [s[0]]) + Replace(c, with, s[1..])
  }

  /** The script's five replacements, one after the other, over the whole text. */
  function Escaped(s: string): string {
    Replace('\U{2029}', "\\u2029", Replace('\U{2028}', "\\u2028",
      Replace('>', "\\u003e", Replace('<', "\\u003c", Replace('&', "\\u0026", s)))))
  }

  /** json.dumps with sorted keys and no spaces, and the replacements. `py` is Python's printing of
      one string and one number. */
  function GoJson(py: Codec, t: Tree): string {
    Escaped(Print(py, Write(Read(py, t))))
  }

  /** What the script hashes for a payload column. */
  function ScriptPayload(py: Codec, stored: Tree): string {
    if stored.TObject? && stored.fields != [] then GoJson(py, stored) else "{}"
  }

  /** One string prints alike once the five characters are replaced. */
  ghost predicate QuoteAlike(py: Codec, go: Codec) {
    forall s :: Escaped(py.quote(s)) == go.quote(s)
  }

  /** So does each number of the document. It does not for every number: Python keeps 1.0 as it is. */
  predicate NumbersAlike(py: Codec, go: Codec, t: Tree)
    decreases t
  {
    match t
    case TNumber(text) => Escaped(py.number(text)) == go.number(text)
    case TArray(items) => forall i | 0 <= i < |items| :: NumbersAlike(py, go, items[i])
    case TObject(fields) => forall i | 0 <= i < |fields| :: NumbersAlike(py, go, fields[i].value)
    case _ => true
  }

  // ---- replacing in a whole text is replacing in its parts ----------------------------

  lemma {:induction false} ReplaceAppend(c: char, with: string, s: string, t: string)
    ensures Replace(c, with, s + t) == Replace(c, with, s) + Replace(c, with, t)
  {
    if s == "" {
      assert s + t == t;
    } else {
      assert (s + t)[1..] == s[1..] + t;
      ReplaceAppend(c, with, s[1..], t);
      Regroup(if s[0] == c then with else [s[0]], Replace(c, with, s[1..]), Replace(c, with, t));
    }
  }

  lemma ReplaceOne(c: char, with: string, d: char)
    ensures Replace(c, with, [d]) == if d == c then with else [d]
  {
    assert [d][1..] == "";
  }

  lemma EscapedAppend(s: string, t: string)
    ensures Escaped(s + t) == Escaped(s) + Escaped(t)
  {
    hide Replace;
    var s1, t1 := Replace('&', "\\u0026", s), Replace('&', "\\u0026", t);
    var s2, t2 := Replace('<', "\\u003c", s1), Replace('<', "\\u003c", t1);
    var s3, t3 := Replace('>', "\\u003e", s2), Replace('>', "\\u003e", t2);
    var s4, t4 := Replace('\U{2028}', "\\u2028", s3), Replace('\U{2028}', "\\u2028", t3);
    ReplaceAppend('&', "\\u0026", s, t);
    ReplaceAppend('<', "\\u003c", s1, t1);
    ReplaceAppend('>', "\\u003e", s2, t2);
    ReplaceAppend('\U{2028}', "\\u2028", s3, t3);
    ReplaceAppend('\U{2029}', "\\u2029", s4, t4);
  }

  lemma EscapedThree(a: string, b: string, c: string)
    ensures Escaped(a + b + c) == Escaped(a) + Escaped(b) + Escaped(c)
  {
    EscapedAppend(a + b, c);
    EscapedAppend(a, b);
  }

  predicate Untouched(s: string) {
    forall i | 0 <= i < |s| :: s[i] !in "&<>\U{2028}\U{2029}"
  }

  lemma {:induction false} ReplaceUntouched(c: char, with: string, s: string)
    requires c !in s
    ensures Replace(c, with, s) == s
  {
    if s != "" {
      ReplaceUntouched(c, with, s[1..]);
    }
  }

  /** The characters of JSON's own syntax are none of the five. */
  lemma EscapedSyntax(s: string)
    requires Untouched(s)
    ensures Escaped(s) == s
  {
    ReplaceUntouched('&', "\\u0026", s);
    ReplaceUntouched('<', "\\u003c", s);
    ReplaceUntouched('>', "\\u003e", s);
    ReplaceUntouched('\U{2028}', "\\u2028", s);
    ReplaceUntouched('\U{2029}', "\\u2029", s);
  }

  predicate IsFive(d: char, w: string) {
    (d == '&' && w == "\\u0026") || (d == '<' && w == "\\u003c") || (d == '>' && w == "\\u003e")
    || (d == '\U{2028}' && w == "\\u2028") || (d == '\U{2029}' && w == "\\u2029")
  }

  /** What happens to `s` in the replacement of `c`, if it is still the character `d` or already its escape. */
  lemma ReplaceAny(c: char, with: string, d: char, w: string, s: string)
    requires Untouched(w) && c in "&<>\U{2028}\U{2029}" && (s == [d] || s == w)
    ensures Replace(c, with, s) == if s == w then w else if c == d then with else [d]
  {
    if s == w {
      ReplaceUntouched(c, with, w);
    } else {
      ReplaceOne(c, with, d);
    }
  }

  /** One after the other the replacements do what they say: the five characters become the escapes that
      Go's encoder writes, and no other character changes. */
  lemma EscapedChar(d: char, w: string)
    ensures IsFive(d, w) ==> Escaped([d]) == w
    ensures d !in "&<>\U{2028}\U{2029}" ==> Escaped([d]) == [d]
  {
    if IsFive(d, w) {
      assert Untouched(w);
      hide Replace, Untouched;
      var s1 := Replace('&', "\\u0026", [d]);
      var s2 := Replace('<', "\\u003c", s1);
      var s3 := Replace('>', "\\u003e", s2);
      var s4 := Replace('\U{2028}', "\\u2028", s3);
      ReplaceAny('&', "\\u0026", d, w, [d]);
      ReplaceAny('<', "\\u003c", d, w, s1);
      ReplaceAny('>', "\\u003e", d, w, s2);
      ReplaceAny('\U{2028}', "\\u2028", d, w, s3);
      ReplaceAny('\U{2029}', "\\u2029", d, w, s4);
    } else if d !in "&<>\U{2028}\U{2029}" {
      EscapedSyntax([d]);
    }
  }

  // ---- the two readings differ in the text of numbers only --------------------------------

  ghost predicate Alike(v: Value, w: Value)
    decreases v
  {
    match v
    case Number(text) => w.Number? && Escaped(text) == w.text
    case Array(items) => w.Array? && |items| == |w.items| && forall i | 0 <= i < |items| :: Alike(items[i], w.items[i])
    case Object(members) =>
      w.Object? && members.Keys == w.members.Keys && forall k | k in members :: Alike(members[k], w.members[k])
    case _ => w == v
  }

  predicate FieldsAlike(py: Codec, go: Codec, fields: seq<Field>) {
    forall i | 0 <= i < |fields| :: NumbersAlike(py, go, fields[i].value)
  }

  lemma {:induction false} ReadAlike(py: Codec, go: Codec, t: Tree)
    requires NumbersAlike(py, go, t)
    ensures Alike(Read(py, t), Read(go, t))
    decreases t, 1
  {
    match t {
      case TArray(items) =>
        forall i | 0 <= i < |items| ensures Alike(Read(py, items[i]), Read(go, items[i])) {
          ReadAlike(py, go, items[i]);
        }
      case TObject(fields) =>
        assert FieldsAlike(py, go, fields);
        ReadFieldsAlike(py, go, fields);
      case _ =>
    }
  }

  lemma {:induction false} ReadFieldsAlike(py: Codec, go: Codec, fields: seq<Field>)
    requires FieldsAlike(py, go, fields)
    ensures var m, n := ReadFields(py, fields), ReadFields(go, fields);
            m.Keys == n.Keys && forall k | k in m :: Alike(m[k], n[k])
    decreases fields, 0
  {
    hide Alike, Read, NumbersAlike;
    if fields != [] {
      ReadFieldsAlike(py, go, fields[..|fields| - 1]);
      ReadAlike(py, go, fields[|fields| - 1].value);
    }
  }

  // ---- printing ----------------------------------------------------------------------------

  lemma EscapedInside(open: string, s: string, close: string, t: string)
    requires Untouched(open) && Untouched(close) && Escaped(s) == t
    ensures Escaped(open + s + close) == open + t + close
  {
    EscapedThree(open, s, close);
    EscapedSyntax(open);
    EscapedSyntax(close);
    hide Escaped;
  }

  lemma PrintLeaf(c: Codec, v: Value)
    ensures v.Null? ==> Print(c, Write(v)) == "null"
    ensures v.Bool? ==> Print(c, Write(v)) == if v.b then "true" else "false"
    ensures v.Number? ==> Print(c, Write(v)) == v.text
    ensures v.String? ==> Print(c, Write(v)) == c.quote(v.s)
  {
    hide PrintItems, PrintFields, WriteItems, WriteMembers;
  }

  lemma LeafAlike(py: Codec, go: Codec, v: Value, w: Value)
    requires QuoteAlike(py, go) && Alike(v, w) && !v.Array? && !v.Object?
    ensures Escaped(Print(py, Write(v))) == Print(go, Write(w))
  {
    PrintLeaf(py, v);
    PrintLeaf(go, w);
    hide Escaped, Print, Write;
    if v.Null? || v.Bool? {
      EscapedSyntax(Print(py, Write(v)));
    }
  }

  lemma PrintWrite(c: Codec, v: Value)
    ensures v.Array? ==> Print(c, Write(v)) == "[" + PrintItems(c, WriteItems(v.items)) + "]"
    ensures v.Object? ==> Print(c, Write(v)) == "{" + PrintFields(c, WriteMembers(v, v.members.Keys)) + "}"
  {
    hide PrintItems, PrintFields, WriteItems, WriteMembers;
  }

  lemma {:induction false} PrintsAlike(py: Codec, go: Codec, v: Value, w: Value)
    requires QuoteAlike(py, go) && Alike(v, w)
    ensures Escaped(Print(py, Write(v))) == Print(go, Write(w))
    decreases v, 2, 0
  {
    hide Escaped, QuoteAlike, Print, Write;
    PrintWrite(py, v);
    PrintWrite(go, w);
    if v.Array? {
      ItemsAlike(py, go, v.items, w.items);
      EscapedInside("[", PrintItems(py, WriteItems(v.items)), "]", PrintItems(go, WriteItems(w.items)));
    } else if v.Object? {
      MembersAlike(py, go, v, w, v.members.Keys);
      EscapedInside("{", PrintFields(py, WriteMembers(v, v.members.Keys)), "}",
                    PrintFields(go, WriteMembers(w, v.members.Keys)));
    } else {
      LeafAlike(py, go, v, w);
    }
  }

  lemma {:induction false} ItemsAlike(py: Codec, go: Codec, vs: seq<Value>, ws: seq<Value>)
    requires QuoteAlike(py, go) && |vs| == |ws| && forall i | 0 <= i < |vs| :: Alike(vs[i], ws[i])
    ensures Escaped(PrintItems(py, WriteItems(vs))) == PrintItems(go, WriteItems(ws))
    decreases vs, 1, 0
  {
    if vs == [] {
      EscapedSyntax("");
    } else {
      PrintsAlike(py, go, vs[0], ws[0]);
      ItemsAlike(py, go, vs[1..], ws[1..]);
      var comma := if |vs| == 1 then "" else ",";
      assert WriteItems(vs)[1..] == WriteItems(vs[1..]) && WriteItems(ws)[1..] == WriteItems(ws[1..]);
      EscapedThree(Print(py, Write(vs[0])), comma, PrintItems(py, WriteItems(vs[1..])));
      EscapedSyntax(comma);
      hide Print, Write, Escaped, Alike;
    }
  }

  lemma {:induction false} MembersAlike(py: Codec, go: Codec, v: Value, w: Value, keys: set<string>)
    requires QuoteAlike(py, go) && v.Object? && Alike(v, w) && keys <= v.members.Keys
    ensures w.Object? && keys <= w.members.Keys
    ensures |WriteMembers(v, keys)| == |WriteMembers(w, keys)|
    ensures Escaped(PrintFields(py, WriteMembers(v, keys))) == PrintFields(go, WriteMembers(w, keys))
    decreases v, 0, keys
  {
    if keys == {} {
      EscapedSyntax("");
    } else {
      var k := LeastKey(keys);
      PrintsAlike(py, go, v.members[k], w.members[k]);
      MembersAlike(py, go, v, w, keys - {k});
      FieldAlike(py, go, k, Write(v.members[k]), Write(w.members[k]),
                 WriteMembers(v, keys - {k}), WriteMembers(w, keys - {k}));
    }
  }

  function FieldText(quoted: string, value: string, last: bool, rest: string): string {
    quoted + ":" + value + (if last then "" else ",") + rest
  }

  lemma FieldsText(c: Codec, f: Field, rest: seq<Field>)
    ensures PrintFields(c, [f] + rest)
         == FieldText(c.quote(f.key), Print(c, f.value), rest == [], PrintFields(c, rest))
  {
    assert ([f] + rest)[1..] == rest;
    hide Print;
  }

  lemma EscapedField(quoted: string, value: string, last: bool, rest: string)
    ensures Escaped(FieldText(quoted, value, last, rest))
         == FieldText(Escaped(quoted), Escaped(value), last, Escaped(rest))
  {
    var comma := if last then "" else ",";
    var head := quoted + ":" + value;
    assert FieldText(quoted, value, last, rest) == head + comma + rest;
    assert FieldText(Escaped(quoted), Escaped(value), last, Escaped(rest))
        == Escaped(quoted) + ":" + Escaped(value) + comma + Escaped(rest);
    assert Untouched(comma) && Untouched(":");
    hide *;
    EscapedThree(quoted, ":", value);
    EscapedThree(head, comma, rest);
    EscapedSyntax(":");
    EscapedSyntax(comma);
  }

  lemma FieldAlike(py: Codec, go: Codec, k: string, a: Tree, b: Tree, fs: seq<Field>, gs: seq<Field>)
    requires QuoteAlike(py, go) && |fs| == |gs|
    requires Escaped(Print(py, a)) == Print(go, b) && Escaped(PrintFields(py, fs)) == PrintFields(go, gs)
    ensures Escaped(PrintFields(py, [Field(k, a)] + fs)) == PrintFields(go, [Field(k, b)] + gs)
  {
    assert Escaped(py.quote(k)) == go.quote(k);
    hide *;
    FieldsText(py, Field(k, a), fs);
    FieldsText(go, Field(k, b), gs);
    EscapedField(py.quote(k), Print(py, a), fs == [], PrintFields(py, fs));
  }

  /** Replacing the five characters in the finished text gives the store's text for every document whose
      numbers Python prints as Go does: the script's comment that they occur inside strings only is right. */
  lemma GoJsonAgrees(py: Codec, go: Codec, t: Tree)
    requires QuoteAlike(py, go) && NumbersAlike(py, go, t)
    ensures GoJson(py, t) == Print(go, Write(Read(go, t)))
  {
    ReadAlike(py, go, t);
    PrintsAlike(py, go, Read(py, t), Read(go, t));
  }

  /** So the script hashes the payload text that Verify derives. */
  lemma ScriptPayloadAgrees(py: Codec, go: Codec, stored: Tree)
    requires QuoteAlike(py, go) && NumbersAlike(py, go, stored) && Decodes(go, stored)
    ensures ScriptPayload(py, stored) == RederivedPayload(go, stored)
  {
    GoJsonAgrees(py, go, stored);
    hide GoJson, Print, Write, Read;
  }
}
