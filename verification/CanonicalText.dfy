// The payload text determines the payload: no two decoded values are printed alike, so what the hash
// covers is everything the decoder sees of the column.
module CanonicalText {
  import opened CanonicalJson

  predicate NumberChar(c: char) {
    '0' <= c <= '9' || c in "+-.eE"
  }

  /** A text made of the characters of JSON's numbers (section 6 of RFC 8259). */
  predicate NumberText(s: string) {
    s != "" && forall i | 0 <= i < |s| :: NumberChar(s[i])
  }

  /** A quoted text starts with a quotation mark and ends at the first one that is not escaped, so none
      is the beginning of another; different strings differ when quoted; numbers look like numbers. */
  ghost predicate JsonTexts(c: Codec) {
    (forall s :: c.quote(s) != "" && c.quote(s)[0] == '"')
    && (forall s, t | c.quote(s) <= c.quote(t) :: s == t)
    && (forall s | c.fits(s) :: NumberText(c.number(s)))
  }

  /** Every number in the document is printed as a number. */
  predicate Printable(t: Tree)
    decreases t
  {
    match t
    case TNumber(text) => NumberText(text)
    case TArray(items) => forall i | 0 <= i < |items| :: Printable(items[i])
    case TObject(fields) => forall i | 0 <= i < |fields| :: Printable(fields[i].value)
    case _ => true
  }

  // ---- where one text ends and the next begins --------------------------------------

  /** Nothing follows, or what separates or closes. */
  predicate Stops(s: string) {
    s == "" || s[0] in ",]}"
  }

  lemma {:induction false} NumbersEnd(a: string, x: string, b: string, y: string)
    requires forall i | 0 <= i < |a| :: NumberChar(a[i])
    requires forall i | 0 <= i < |b| :: NumberChar(b[i])
    requires Stops(x) && Stops(y) && a + x == b + y
    ensures a == b && x == y
  {
    StopsOrNot(a, x);
    StopsOrNot(b, y);
    if a != "" && b != "" {
      assert (a + x)[0] == a[0] && (b + y)[0] == b[0];
      assert (a + x)[1..] == a[1..] + x && (b + y)[1..] == b[1..] + y;
      NumbersEnd(a[1..], x, b[1..], y);
    }
  }

  lemma StopsOrNot(a: string, x: string)
    requires Stops(x) && forall i | 0 <= i < |a| :: NumberChar(a[i])
    ensures a == "" ==> a + x == x
    ensures Stops(a + x) <==> a == ""
  {
    if a != "" {
      assert (a + x)[0] == a[0];
    } else {
      assert a + x == x;
    }
  }

  lemma PrefixesOfOne(a: string, x: string, b: string, y: string)
    requires a + x == b + y
    ensures a <= b || b <= a
    ensures |a| == |b| ==> a == b && x == y
  {
    var whole := a + x;
    assert whole[..|a|] == a && whole[..|b|] == b;
    assert whole[|a|..] == x && whole[|b|..] == y;
  }

  lemma QuotesEnd(c: Codec, s: string, x: string, t: string, y: string)
    requires JsonTexts(c) && c.quote(s) + x == c.quote(t) + y
    ensures s == t && x == y
  {
    PrefixesOfOne(c.quote(s), x, c.quote(t), y);
  }

  // ---- printing is injective, whatever follows -----------------------------------------

  /** The kinds of documents start differently, and none starts by closing. */
  lemma PrintStarts(c: Codec, t: Tree)
    requires JsonTexts(c) && Printable(t)
    ensures var p := Print(c, t);
            p != "" && p[0] !in ",]}"
            && (t.TNull? <==> p[0] == 'n') && (t.TBool? ==> p[0] == if t.b then 't' else 'f')
            && (t.TNumber? <==> NumberChar(p[0])) && (t.TText? <==> p[0] == '"')
            && (t.TArray? <==> p[0] == '[') && (t.TObject? <==> p[0] == '{')
  {
  }

  lemma {:induction false} PrintInjective(c: Codec, t: Tree, x: string, u: Tree, y: string)
    requires JsonTexts(c) && Printable(t) && Printable(u) && Stops(x) && Stops(y)
    requires Print(c, t) + x == Print(c, u) + y
    ensures t == u && x == y
    decreases t, 1
  {
    PrintStarts(c, t);
    PrintStarts(c, u);
    var p, q := Print(c, t), Print(c, u);
    assert (p + x)[0] == p[0] && (q + y)[0] == q[0];
    match t {
      case TNull => PrefixesOfOne(p, x, q, y);
      case TBool(_) => PrefixesOfOne(p, x, q, y);
      case TNumber(a) => NumbersEnd(a, x, u.text, y);
      case TText(s) => QuotesEnd(c, s, x, u.s, y);
      case TArray(items) =>
        Unbracket("[", PrintItems(c, items), "]", x);
        Unbracket("[", PrintItems(c, u.items), "]", y);
        hide Printable, Print, JsonTexts;
        ItemsInjective(c, items, x, u.items, y);
      case TObject(fields) =>
        Unbracket("{", PrintFields(c, fields), "}", x);
        Unbracket("{", PrintFields(c, u.fields), "}", y);
        hide Printable, Print, JsonTexts;
        FieldsInjective(c, fields, x, u.fields, y);
    }
  }

  lemma Unbracket(open: string, inner: string, close: string, rest: string)
    requires |open| == 1
    ensures (open + inner + close + rest)[1..] == inner + (close + rest)
  {
  }

  function ItemsTail(c: Codec, items: seq<Tree>, x: string): string
    requires items != []
  {
    if |items| == 1 then "]" + x else "," + (PrintItems(c, items[1..]) + ("]" + x))
  }

  lemma ItemsText(c: Codec, items: seq<Tree>, x: string)
    requires items != []
    ensures PrintItems(c, items) + ("]" + x) == Print(c, items[0]) + ItemsTail(c, items, x)
  {
    hide Print;
  }

  lemma {:induction false} ItemsInjective(c: Codec, items: seq<Tree>, x: string, others: seq<Tree>, y: string)
    requires JsonTexts(c) && (forall i | 0 <= i < |items| :: Printable(items[i]))
    requires forall i | 0 <= i < |others| :: Printable(others[i])
    requires PrintItems(c, items) + ("]" + x) == PrintItems(c, others) + ("]" + y)
    ensures items == others && x == y
    decreases items, 0
  {
    ItemsStart(c, items, x);
    ItemsStart(c, others, y);
    hide Printable, JsonTexts, Print, PrintItems;
    if items == [] {
      PrefixesOfOne("]", x, "]", y);
    } else {
      ItemsText(c, items, x);
      ItemsText(c, others, y);
      var tail, tail' := ItemsTail(c, items, x), ItemsTail(c, others, y);
      PrintInjective(c, items[0], tail, others[0], tail');
      assert items == [items[0]] + items[1..] && others == [others[0]] + others[1..];
      assert tail[1..] == tail'[1..] && tail[0] == tail'[0];
      if |items| > 1 {
        ItemsInjective(c, items[1..], x, others[1..], y);
      }
    }
  }

  /** The text of a list starts by closing exactly when the list is empty. */
  lemma ItemsStart(c: Codec, items: seq<Tree>, x: string)
    requires JsonTexts(c) && forall i | 0 <= i < |items| :: Printable(items[i])
    ensures items == [] ==> PrintItems(c, items) + ("]" + x) == "]" + x
    ensures items == [] <==> (PrintItems(c, items) + ("]" + x))[0] == ']'
  {
    if items == [] {
      assert PrintItems(c, items) + ("]" + x) == "]" + x;
    } else {
      ItemsText(c, items, x);
      PrintStarts(c, items[0]);
      hide Printable, JsonTexts, Print, ItemsTail, PrintItems;
      assert (Print(c, items[0]) + ItemsTail(c, items, x))[0] == Print(c, items[0])[0];
    }
  }

  function FieldsTail(c: Codec, fields: seq<Field>, x: string): string
    requires fields != []
  {
    if |fields| == 1 then "}" + x else "," + (PrintFields(c, fields[1..]) + ("}" + x))
  }

  lemma FieldsText(c: Codec, fields: seq<Field>, x: string)
    requires fields != []
    ensures PrintFields(c, fields) + ("}" + x)
         == c.quote(fields[0].key) + (":" + (Print(c, fields[0].value) + FieldsTail(c, fields, x)))
  {
    hide Print;
  }

  lemma {:induction false} FieldsInjective(c: Codec, fields: seq<Field>, x: string, others: seq<Field>, y: string)
    requires JsonTexts(c) && (forall i | 0 <= i < |fields| :: Printable(fields[i].value))
    requires forall i | 0 <= i < |others| :: Printable(others[i].value)
    requires PrintFields(c, fields) + ("}" + x) == PrintFields(c, others) + ("}" + y)
    ensures fields == others && x == y
    decreases fields, 0
  {
    FieldsStart(c, fields, x);
    FieldsStart(c, others, y);
    hide Printable, Print, PrintFields;
    if fields == [] {
      PrefixesOfOne("}", x, "}", y);
    } else {
      var f, g, tail, tail' := fields[0], others[0], FieldsTail(c, fields, x), FieldsTail(c, others, y);
      FieldsText(c, fields, x);
      FieldsText(c, others, y);
      QuotesEnd(c, f.key, ":" + (Print(c, f.value) + tail), g.key, ":" + (Print(c, g.value) + tail'));
      assert (":" + (Print(c, f.value) + tail))[1..] == (":" + (Print(c, g.value) + tail'))[1..];
      PrintInjective(c, f.value, tail, g.value, tail');
      assert fields == [f] + fields[1..] && others == [g] + others[1..];
      assert tail[1..] == tail'[1..] && tail[0] == tail'[0];
      if |fields| > 1 {
        FieldsInjective(c, fields[1..], x, others[1..], y);
      }
    }
  }

  lemma FieldsStart(c: Codec, fields: seq<Field>, x: string)
    requires JsonTexts(c)
    ensures fields == [] ==> PrintFields(c, fields) + ("}" + x) == "}" + x
    ensures fields == [] <==> (PrintFields(c, fields) + ("}" + x))[0] == '}'
  {
    if fields == [] {
      assert PrintFields(c, fields) + ("}" + x) == "}" + x;
    } else {
      FieldsText(c, fields, x);
      assert c.quote(fields[0].key)[0] == '"';
      hide JsonTexts, PrintFields, FieldsTail;
    }
  }

  // ---- from the text to the value ------------------------------------------------------

  /** The codec that leaves number texts as they are: with it every printable value settles. */
  function Plain(c: Codec): Codec {
    Codec(s => NumberText(s), s => s, c.quote)
  }

  lemma {:induction false} DecodedPrints(c: Codec, t: Tree)
    requires Decodes(Plain(c), t)
    ensures Printable(t)
    decreases t
  {
    match t {
      case TArray(items) =>
        forall i | 0 <= i < |items| ensures Printable(items[i]) { DecodedPrints(c, items[i]); }
      case TObject(fields) =>
        forall i | 0 <= i < |fields| ensures Printable(fields[i].value) { DecodedPrints(c, fields[i].value); }
      case _ =>
    }
  }

  lemma ValuePrints(c: Codec, t: Tree)
    requires JsonTexts(c) && Decodes(c, t)
    ensures Printable(Write(Read(c, t))) && Read(Plain(c), Write(Read(c, t))) == Read(c, t)
  {
    ReadSettlesIn(c, Plain(c), t);
    WriteDecodes(Plain(c), Read(c, t));
    DecodedPrints(c, Write(Read(c, t)));
    ReadWrite(Plain(c), Read(c, t));
  }

  /** Two documents that decode are printed alike after decoding exactly when they decode to one value. */
  lemma TextDeterminesValue(c: Codec, t: Tree, u: Tree)
    requires JsonTexts(c) && Decodes(c, t) && Decodes(c, u)
    ensures Print(c, Write(Read(c, t))) == Print(c, Write(Read(c, u))) <==> Read(c, t) == Read(c, u)
  {
    ValuePrints(c, t);
    ValuePrints(c, u);
    var a, b := Write(Read(c, t)), Write(Read(c, u));
    hide Printable, JsonTexts, Read, Write, Print, Decodes, Plain;
    if Print(c, a) == Print(c, b) {
      PrintInjective(c, a, "", b, "");
    }
  }

  /** The members a payload column stands for: none unless it holds an object that decodes. */
  function Members(c: Codec, stored: Tree): Value {
    if stored.TObject? && Decodes(c, stored) then Read(c, stored) else Object(map[])
  }

  /** The payload texts of two columns are equal exactly when the columns stand for the same members,
      with the same values at every depth. */
  lemma PayloadTextIff(c: Codec, stored: Tree, other: Tree)
    requires JsonTexts(c)
    ensures RederivedPayload(c, stored) == RederivedPayload(c, other) <==> Members(c, stored) == Members(c, other)
  {
    PayloadOfMembers(c, stored);
    PayloadOfMembers(c, other);
    var t := if stored.TObject? && Decodes(c, stored) then stored else TObject([]);
    var u := if other.TObject? && Decodes(c, other) then other else TObject([]);
    TextDeterminesValue(c, t, u);
    WriteOfEmpty(c);
    hide Read, Write, Print, JsonTexts, RederivedPayload;
  }

  lemma PayloadOfMembers(c: Codec, stored: Tree)
    ensures RederivedPayload(c, stored) == Print(c, Write(Members(c, stored)))
  {
    WriteOfEmpty(c);
    if stored.TObject? && stored.fields == [] {
      assert stored == TObject([]);
    }
    hide Read, Write, Print;
  }

  /** The text that is hashed when an entry is written determines its metadata likewise. */
  lemma MetadataTextIff(c: Codec, m: Metadata, n: Metadata)
    requires JsonTexts(c) && Kept(c, m) && Kept(c, n)
    ensures CanonicalMetadata(c, m) == CanonicalMetadata(c, n)
       <==> Read(c, TObject(m.fields)) == Read(c, TObject(n.fields))
  {
    TextDeterminesValue(c, TObject(m.fields), TObject(n.fields));
    hide Read, Write, Print, JsonTexts;
  }
}
