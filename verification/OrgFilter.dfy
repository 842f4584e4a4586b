// The tenant filter (pkg/clickhouse/orgfilter.go): a predicate quoted into a map literal,
// with the organization quoted into the predicate, against a reader of both.
module OrgFilter {
  import opened Text

  const TABLES: seq<string> := ["traces", "logs", "metrics"]

  const QUOTE: char := '\''
  const BACKSLASH: char := '\\'

  // ---- writing ---------------------------------------------------------------

  /** strings.ReplaceAll(s, "'", "''"). */
  function DoubleQuotes(s: string): string {
    if s == "" then ""
    else (if s[0] == QUOTE then [QUOTE, QUOTE] else [s[0]]) + DoubleQuotes(s[1..])
  }

  /** The replacer that doubles backslashes and quotes in one pass. */
  function Escape(s: string): string {
    if s == "" then ""
    else (if s[0] == BACKSLASH then [BACKSLASH, BACKSLASH]
          else if s[0] == QUOTE then [QUOTE, QUOTE] else [s[0]]) + Escape(s[1..])
  }

  const PREFIX := "OrganizationId = "

  const Q: string := [QUOTE]

  function OrgCond(org: string): string {
    PREFIX + (Q + (DoubleQuotes(org) + Q))
  }

  /** The predicate put on every table; none when there is nothing to filter on. */
  function Predicate(org: string, extra: string): Option<string> {
    if org == "" && extra == "" then None
    else if extra == "" then Some(OrgCond(org))
    else if org == "" then Some("(" + extra + ")")
    else Some(OrgCond(org) + (" AND " + ("(" + extra + ")")))
  }

  function Quoted(s: string): string {
    Q + (Escape(s) + Q)
  }

  function Part(table: string, inner: string): string {
    Q + (table + (Q + (":" + Quoted(inner))))
  }

  /** The value of the additional_table_filters setting; none leaves the context unchanged. */
  method WithTableFilter(org: string, extra: string) returns (setting: Option<string>)
    ensures setting.None? <==> org == "" && extra == ""
    ensures setting.Some? ==> setting.value == MapText(Entries(Predicate(org, extra).value))
  {
    var conds: seq<string> := [];
    if org != "" {
      conds := conds + [PREFIX + (Q + (DoubleQuotes(org) + Q))];
    }
    if extra != "" {
      conds := conds + ["(" + extra + ")"];
    }
    if |conds| == 0 {
      return None;
    }
    var inner := Join(conds, " AND ");
    JoinTwo(conds);
    if |conds| == 2 {
      Regroup(conds[0], " AND ", conds[1]);
    }
    assert inner == Predicate(org, extra).value;
    var quoted := Q + (Escape(inner) + Q);
    var parts: seq<string> := [];
    for k := 0 to |TABLES|
      invariant |parts| == k && forall i | 0 <= i < k :: parts[i] == Part(TABLES[i], inner)
    {
      parts := parts + [Q + (TABLES[k] + (Q + (":" + quoted)))];
    }
    assert parts == PartsOf(Entries(inner));
    return Some("{" + Join(parts, ",") + "}");
  }

  /** WithOrgFilter is WithTableFilter without a predicate of the caller's. */
  method WithOrgFilter(org: string) returns (setting: Option<string>)
    ensures setting.None? <==> org == ""
    ensures setting.Some? ==> setting.value == MapText(Entries(OrgCond(org)))
  {
    setting := WithTableFilter(org, "");
  }

  lemma JoinTwo(conds: seq<string>)
    requires 1 <= |conds| <= 2
    ensures Join(conds, " AND ") == if |conds| == 1 then conds[0] else conds[0] + " AND " + conds[1]
  {
  }

  datatype Entry = Entry(table: string, filter: string)

  /** One entry for each telemetry table, all with the same predicate. */
  function Entries(inner: string): seq<Entry> {
    [Entry("traces", inner), Entry("logs", inner), Entry("metrics", inner)]
  }

  function PartsOf(es: seq<Entry>): (parts: seq<string>)
    ensures |parts| == |es| && forall i | 0 <= i < |es| :: parts[i] == Part(es[i].table, es[i].filter)
  {
    if es == [] then [] else [Part(es[0].table, es[0].filter)] + PartsOf(es[1..])
  }

  function MapText(es: seq<Entry>): string {
    "{" + Join(PartsOf(es), ",") + "}"
  }

  // ---- reading ------------------------------------------------------------------

  datatype Read = Read(value: string, rest: string)

  /** The value of a quoted literal whose opening quote has been passed, and the text after its
      closing quote. A doubled quote is a quote; a backslash and the character after it stand
      for one character, which `unescape` gives. */
  function ReadLiteral(unescape: char -> char, s: string): Option<Read>
    decreases |s|
  {
    if s == "" then None
    else if s[0] == QUOTE && !(|s| > 1 && s[1] == QUOTE) then Some(Read("", s[1..]))
    else if s[0] == QUOTE then Prepend(QUOTE, ReadLiteral(unescape, s[2..]))
    else if s[0] == BACKSLASH then
      if |s| == 1 then None else Prepend(unescape(s[1]), ReadLiteral(unescape, s[2..]))
    else Prepend(s[0], ReadLiteral(unescape, s[1..]))
  }

  function Prepend(c: char, r: Option<Read>): Option<Read> {
    if r.None? then None else Some(Read([c] + r.value.value, r.value.rest))
  }

  function ReadQuoted(unescape: char -> char, s: string): Option<Read> {
    if s != "" && s[0] == QUOTE then ReadLiteral(unescape, s[1..]) else None
  }

  /** The entries of a map literal from the first key on, up to and with the closing brace. */
  function ReadEntries(unescape: char -> char, s: string): Option<seq<Entry>>
    decreases |s|
  {
    var key := ReadQuoted(unescape, s);
    if key.None? || key.value.rest == "" || key.value.rest[0] != ':' then None
    else
      var value := ReadQuoted(unescape, key.value.rest[1..]);
      if value.None? then None
      else if value.value.rest == "}" then Some([Entry(key.value.value, value.value.value)])
      else if value.value.rest == "" || value.value.rest[0] != ',' then None
      else
        ReadShrinks(unescape, s[1..]);
        ReadShrinks(unescape, key.value.rest[1..][1..]);
        var more := ReadEntries(unescape, value.value.rest[1..]);
        if more.None? then None else Some([Entry(key.value.value, value.value.value)] + more.value)
  }

  function ReadMap(unescape: char -> char, s: string): Option<seq<Entry>> {
    if s != "" && s[0] == '{' then ReadEntries(unescape, s[1..]) else None
  }

  lemma {:induction false} ReadShrinks(unescape: char -> char, s: string)
    ensures ReadLiteral(unescape, s).Some? ==> |ReadLiteral(unescape, s).value.rest| < |s|
    decreases |s|
  {
    if s != "" {
      if s[0] == QUOTE || s[0] == BACKSLASH {
        if |s| > 1 { ReadShrinks(unescape, s[2..]); }
      } else {
        ReadShrinks(unescape, s[1..]);
      }
    }
  }

  // ---- the outer layer ------------------------------------------------------------

  /** A reader that knows the one escape the writer uses. */
  ghost predicate ReadsBackslash(unescape: char -> char) {
    unescape(BACKSLASH) == BACKSLASH
  }

  /** One step of reading through a text that starts with a doubled or an ordinary character. */
  lemma ReadDoubled(unescape: char -> char, c: char, tail: string)
    requires c == QUOTE || (c == BACKSLASH && ReadsBackslash(unescape))
    ensures ReadLiteral(unescape, [c, c] + tail) == Prepend(c, ReadLiteral(unescape, tail))
  {
    assert ([c, c] + tail)[2..] == tail;
  }

  lemma ReadOrdinary(unescape: char -> char, c: char, tail: string)
    requires c != QUOTE && c != BACKSLASH
    ensures ReadLiteral(unescape, [c] + tail) == Prepend(c, ReadLiteral(unescape, tail))
  {
    assert ([c] + tail)[1..] == tail;
  }

  lemma ReadClosing(unescape: char -> char, rest: string)
    requires rest == "" || rest[0] != QUOTE
    ensures ReadLiteral(unescape, Q + rest) == Some(Read("", rest))
  {
    assert (Q + rest)[1..] == rest;
  }

  /** An escaped text reads back as itself, and the reading stops at its closing quote. */
  lemma {:induction false} EscapedReadsBack(unescape: char -> char, s: string, rest: string)
    requires ReadsBackslash(unescape) && (rest == "" || rest[0] != QUOTE)
    ensures ReadLiteral(unescape, Escape(s) + (Q + rest)) == Some(Read(s, rest))
  {
    if s == "" {
      ReadClosing(unescape, rest);
      assert "" + (Q + rest) == Q + rest;
    } else {
      var c, tail := s[0], Escape(s[1..]) + (Q + rest);
      EscapedReadsBack(unescape, s[1..], rest);
      if c == BACKSLASH || c == QUOTE {
        ReadDoubled(unescape, c, tail);
        Regroup([c, c], Escape(s[1..]), Q + rest);
      } else {
        ReadOrdinary(unescape, c, tail);
        Regroup([c], Escape(s[1..]), Q + rest);
      }
      hide ReadLiteral;
      assert [c] + s[1..] == s;
    }
  }

  predicate Plain(s: string) {
    forall i | 0 <= i < |s| :: s[i] != QUOTE && s[i] != BACKSLASH
  }

  lemma {:induction false} PlainEscape(s: string)
    requires Plain(s)
    ensures Escape(s) == s && DoubleQuotes(s) == s
  {
    if s != "" {
      PlainEscape(s[1..]);
    }
  }

  lemma QuotedReadsBack(unescape: char -> char, s: string, rest: string)
    requires ReadsBackslash(unescape) && (rest == "" || rest[0] != QUOTE)
    ensures ReadQuoted(unescape, Quoted(s) + rest) == Some(Read(s, rest))
  {
    EscapedReadsBack(unescape, s, rest);
    hide ReadLiteral, Escape;
    Regroup(Escape(s), Q, rest);
    Regroup(Q, Escape(s) + Q, rest);
    var body := Escape(s) + (Q + rest);
    assert Quoted(s) + rest == Q + body;
    assert (Q + body)[1..] == body;
  }

  lemma PartShape(e: Entry, rest: string)
    requires Plain(e.table)
    ensures Part(e.table, e.filter) + rest == Quoted(e.table) + (":" + (Quoted(e.filter) + rest))
  {
    PlainEscape(e.table);
    hide Escape;
    var t, v := e.table, Quoted(e.filter);
    hide Quoted;
    Regroup(Q, t + (Q + (":" + v)), rest);
    Regroup(t, Q + (":" + v), rest);
    Regroup(Q, ":" + v, rest);
    Regroup(":", v, rest);
    Regroup(t, Q, ":" + (v + rest));
    Regroup(Q, t + Q, ":" + (v + rest));
    assert Quoted(t) == Q + (t + Q) by { QuotedPlain(t); }
  }

  lemma QuotedPlain(t: string)
    requires Plain(t)
    ensures Quoted(t) == Q + (t + Q)
  {
    PlainEscape(t);
  }

  /** One key and value, followed by a comma or the closing brace. */
  lemma EntryReadsBack(unescape: char -> char, e: Entry, rest: string)
    requires ReadsBackslash(unescape) && Plain(e.table) && rest != "" && rest[0] != QUOTE
    ensures var tail := Quoted(e.filter) + rest;
            ReadQuoted(unescape, Part(e.table, e.filter) + rest) == Some(Read(e.table, ":" + tail))
            && ReadQuoted(unescape, tail) == Some(Read(e.filter, rest))
  {
    PartShape(e, rest);
    QuotedReadsBack(unescape, e.table, ":" + (Quoted(e.filter) + rest));
    QuotedReadsBack(unescape, e.filter, rest);
  }

  lemma LastEntryReads(unescape: char -> char, e: Entry)
    requires ReadsBackslash(unescape) && Plain(e.table)
    ensures ReadEntries(unescape, Part(e.table, e.filter) + "}") == Some([e])
  {
    EntryReadsBack(unescape, e, "}");
    hide ReadQuoted, Part, Quoted;
    var tail := Quoted(e.filter) + "}";
    assert (":" + tail)[1..] == tail;
  }

  lemma NextEntryReads(unescape: char -> char, e: Entry, more: string, es: seq<Entry>)
    requires ReadsBackslash(unescape) && Plain(e.table) && ReadEntries(unescape, more) == Some(es)
    ensures ReadEntries(unescape, Part(e.table, e.filter) + ("," + more)) == Some([e] + es)
  {
    EntryReadsBack(unescape, e, "," + more);
    hide ReadQuoted, Part, Quoted;
    var tail := Quoted(e.filter) + ("," + more);
    assert (":" + tail)[1..] == tail;
    assert ("," + more)[1..] == more && ("," + more)[0] == ',' && "}"[0] == '}';
  }

  lemma {:induction false} EntriesReadBack(unescape: char -> char, es: seq<Entry>)
    requires ReadsBackslash(unescape) && es != [] && forall e | e in es :: Plain(e.table)
    ensures ReadEntries(unescape, Join(PartsOf(es), ",") + "}") == Some(es)
  {
    var e, parts := es[0], PartsOf(es);
    assert e in es;
    if |es| == 1 {
      LastEntryReads(unescape, e);
      hide ReadEntries, Part;
      assert Join(parts, ",") == Part(e.table, e.filter) && es == [e];
    } else {
      var rest := Join(PartsOf(es[1..]), ",");
      EntriesReadBack(unescape, es[1..]);
      NextEntryReads(unescape, e, rest + "}", es[1..]);
      hide ReadEntries, Part;
      assert parts[1..] == PartsOf(es[1..]);
      var p := Part(e.table, e.filter);
      Regroup(p, ",", rest);
      Regroup(p, "," + rest, "}");
      Regroup(",", rest, "}");
      assert [e] + es[1..] == es;
    }
  }

  /** The setting reads back as exactly the three telemetry tables, each with the predicate as
      it was before quoting, whatever characters the predicate contains. */
  lemma SettingReadsBack(unescape: char -> char, inner: string)
    requires ReadsBackslash(unescape)
    ensures ReadMap(unescape, MapText(Entries(inner))) == Some(Entries(inner))
  {
    var es := Entries(inner);
    EntriesReadBack(unescape, es);
    hide ReadEntries, PartsOf, Join;
    var body := Join(PartsOf(es), ",");
    Regroup("{", body, "}");
    assert ("{" + (body + "}"))[1..] == body + "}";
  }

  // ---- the inner layer ------------------------------------------------------------------

  lemma {:induction false} DoubledReadsBack(unescape: char -> char, org: string, rest: string)
    requires BACKSLASH !in org && (rest == "" || rest[0] != QUOTE)
    ensures ReadLiteral(unescape, DoubleQuotes(org) + (Q + rest)) == Some(Read(org, rest))
  {
    if org == "" {
      ReadClosing(unescape, rest);
      assert "" + (Q + rest) == Q + rest;
    } else {
      var c, tail := org[0], DoubleQuotes(org[1..]) + (Q + rest);
      DoubledReadsBack(unescape, org[1..], rest);
      if c == QUOTE {
        ReadDoubled(unescape, c, tail);
        Regroup([c, c], DoubleQuotes(org[1..]), Q + rest);
      } else {
        ReadOrdinary(unescape, c, tail);
        Regroup([c], DoubleQuotes(org[1..]), Q + rest);
      }
      hide ReadLiteral;
      assert [c] + org[1..] == org;
    }
  }

  /** What a value costs to write: every quote takes two characters, and the literal ends with one. */
  lemma {:induction false} ReadCost(unescape: char -> char, s: string)
    ensures var r := ReadLiteral(unescape, s);
            r.Some? ==> |s| - |r.value.rest| >= |DoubleQuotes(r.value.value)| + 1
    decreases |s|
  {
    if s != "" {
      if s[0] == QUOTE && !(|s| > 1 && s[1] == QUOTE) {
      } else if s[0] == QUOTE {
        ReadCost(unescape, s[2..]);
        PrependCost(QUOTE, ReadLiteral(unescape, s[2..]));
      } else if s[0] == BACKSLASH {
        if |s| > 1 {
          ReadCost(unescape, s[2..]);
          PrependCost(unescape(s[1]), ReadLiteral(unescape, s[2..]));
        }
      } else {
        ReadCost(unescape, s[1..]);
        PrependCost(s[0], ReadLiteral(unescape, s[1..]));
      }
    }
  }

  lemma PrependCost(c: char, r: Option<Read>)
    ensures r.Some? ==> |DoubleQuotes(Prepend(c, r).value.value)|
                        == |DoubleQuotes(r.value.value)| + if c == QUOTE then 2 else 1
  {
    if r.Some? {
      assert ([c] + r.value.value)[1..] == r.value.value;
    }
  }

  lemma ReadBackslash(unescape: char -> char, tail: string)
    requires tail != ""
    ensures ReadLiteral(unescape, [BACKSLASH] + tail) == Prepend(unescape(tail[0]), ReadLiteral(unescape, tail[1..]))
  {
    assert ([BACKSLASH] + tail)[2..] == tail[1..];
  }

  /** With a backslash in it the literal never reads back: the backslash swallows a character, and
      what is left is too short to spell the rest of the organization. */
  lemma {:induction false} BackslashLost(unescape: char -> char, org: string, rest: string)
    requires BACKSLASH in org
    ensures ReadLiteral(unescape, DoubleQuotes(org) + (Q + rest)) != Some(Read(org, rest))
  {
    var c, tail := org[0], DoubleQuotes(org[1..]) + (Q + rest);
    assert org == [c] + org[1..];
    if c == BACKSLASH {
      ReadBackslash(unescape, tail);
      ReadCost(unescape, tail[1..]);
      Regroup([c], DoubleQuotes(org[1..]), Q + rest);
      hide ReadLiteral;
      assert ReadLiteral(unescape, tail[1..]) != Some(Read(org[1..], rest));
      PrependOther(unescape(tail[0]), c, org[1..], rest, ReadLiteral(unescape, tail[1..]));
    } else {
      BackslashLost(unescape, org[1..], rest);
      PrependOther(c, c, org[1..], rest, ReadLiteral(unescape, tail));
      if c == QUOTE {
        ReadDoubled(unescape, c, tail);
        Regroup([c, c], DoubleQuotes(org[1..]), Q + rest);
      } else {
        ReadOrdinary(unescape, c, tail);
        Regroup([c], DoubleQuotes(org[1..]), Q + rest);
      }
    }
  }

  lemma PrependOther(d: char, head: char, value: string, rest: string, r: Option<Read>)
    requires r != Some(Read(value, rest))
    ensures Prepend(d, r) != Some(Read([head] + value, rest))
  {
    if r.Some? {
      assert ([d] + r.value.value)[1..] == r.value.value && ([head] + value)[1..] == value;
    }
  }

  /** What follows the organization's literal in the predicate. */
  function AfterOrg(extra: string): string {
    if extra == "" then "" else " AND " + ("(" + extra + ")")
  }

  lemma PredicateShape(org: string, extra: string)
    requires org != ""
    ensures Predicate(org, extra).Some?
    ensures Predicate(org, extra).value == PREFIX + (Q + (DoubleQuotes(org) + (Q + AfterOrg(extra))))
  {
    var d, after := DoubleQuotes(org), AfterOrg(extra);
    hide DoubleQuotes;
    Regroup(d, Q, after);
    Regroup(Q, d + Q, after);
    Regroup(PREFIX, Q + (d + Q), after);
    if extra == "" {
      assert Q + "" == Q;
    }
  }

  /** The organization a reader finds in a predicate, and the text after it. */
  function ReadOrg(unescape: char -> char, text: string): Option<Read> {
    if "OrganizationId = " <= text then ReadQuoted(unescape, text[17..]) else None
  }

  lemma ReadOrgLiteral(unescape: char -> char, literal: string)
    ensures ReadOrg(unescape, PREFIX + (Q + literal)) == ReadLiteral(unescape, literal)
  {
    hide ReadLiteral;
    var text := PREFIX + (Q + literal);
    assert PREFIX <= text && text[|PREFIX|..] == Q + literal;
    assert (Q + literal)[1..] == literal;
  }

  /** Both layers undo, for every predicate of the caller's, if and only if the organization has no
      backslash: the setting reads back as the predicate on each table, and that predicate reads
      back as this organization followed by the caller's own condition, unaltered. */
  lemma BothLayersUndoIff(unescape: char -> char, org: string, extra: string)
    requires ReadsBackslash(unescape) && org != ""
    ensures var inner := Predicate(org, extra).value;
            ReadMap(unescape, MapText(Entries(inner))) == Some(Entries(inner))
            && (ReadOrg(unescape, inner) == Some(Read(org, AfterOrg(extra))) <==> '\\' !in org)
  {
    SettingReadsBack(unescape, Predicate(org, extra).value);
    PredicateShape(org, extra);
    ReadOrgLiteral(unescape, DoubleQuotes(org) + (Q + AfterOrg(extra)));
    if BACKSLASH in org {
      BackslashLost(unescape, org, AfterOrg(extra));
    } else {
      AfterOrgPlain(extra);
      DoubledReadsBack(unescape, org, AfterOrg(extra));
    }
    hide *;
  }

  /** A predicate of the caller's alone reaches each of the three tables in parentheses and otherwise as it
      was given, whatever characters it contains. */
  lemma CallerAloneReadsBack(unescape: char -> char, extra: string)
    requires ReadsBackslash(unescape) && extra != ""
    ensures Predicate("", extra).Some?
    ensures ReadMap(unescape, MapText(Entries(Predicate("", extra).value)))
         == Some([Entry("traces", "(" + extra + ")"), Entry("logs", "(" + extra + ")"),
                  Entry("metrics", "(" + extra + ")")])
  {
    SettingReadsBack(unescape, Predicate("", extra).value);
    hide ReadMap, MapText;
  }

  /** So does an organization alone: its condition is the column's name, an equals sign and the literal. */
  lemma OrgAloneReadsBack(unescape: char -> char, org: string)
    requires ReadsBackslash(unescape) && org != ""
    ensures Predicate(org, "").Some?
    ensures var cond := "OrganizationId = '" + (DoubleQuotes(org) + "'");
            ReadMap(unescape, MapText(Entries(Predicate(org, "").value)))
            == Some([Entry("traces", cond), Entry("logs", cond), Entry("metrics", cond)])
  {
    SettingReadsBack(unescape, Predicate(org, "").value);
    hide ReadMap, MapText, DoubleQuotes;
    assert Predicate(org, "").value == "OrganizationId = " + ("'" + (DoubleQuotes(org) + "'"));
    Regroup("OrganizationId = ", "'", DoubleQuotes(org) + "'");
    assert "OrganizationId = " + "'" == "OrganizationId = '";
  }

  lemma AfterOrgPlain(extra: string)
    ensures AfterOrg(extra) == "" || AfterOrg(extra)[0] != QUOTE
  {
  }
}
