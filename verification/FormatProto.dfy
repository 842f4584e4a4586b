// The protobuf re-indenter (formatProto in frontend/src/components/CodeEditor.tsx).
module FormatProto {
  import opened Text

  // ---- lines ----------------------------------------------------------------

  /** content.split(/\r?\n/): a carriage return goes with the line feed after it. */
  function SplitLines(s: string): (lines: seq<string>)
    ensures lines != []
    decreases |s|
  {
    if s == "" then [""]
    else if s[0] == '\n' then [""] + SplitLines(s[1..])
    else if |s| > 1 && s[0] == '\r' && s[1] == '\n' then [""] + SplitLines(s[2..])
    else
      var rest := SplitLines(s[1..]);
      [[s[0]] + rest[0]] + rest[1..]
  }

  /** lines.join("\n") + "\n". */
  function JoinLines(lines: seq<string>): string {
    Join(lines, "\n") + "\n"
  }

  /** A line that joining and splitting leaves whole. */
  predicate Whole(l: string) {
    '\n' !in l && (l == "" || l[|l| - 1] != '\r')
  }

  lemma {:induction false} SplitNoFeeds(s: string)
    ensures forall i | 0 <= i < |SplitLines(s)| :: '\n' !in SplitLines(s)[i]
    decreases |s|
  {
    if s != "" {
      if s[0] == '\n' {
        SplitNoFeeds(s[1..]);
      } else if |s| > 1 && s[0] == '\r' && s[1] == '\n' {
        SplitNoFeeds(s[2..]);
      } else {
        SplitNoFeeds(s[1..]);
      }
    }
  }

  lemma {:induction false} SplitWholeLine(l: string, s: string)
    requires Whole(l)
    ensures SplitLines(l + "\n" + s) == [l] + SplitLines(s)
    decreases |l|
  {
    var all := l + "\n" + s;
    if l == "" {
      assert all[1..] == s;
    } else {
      var tail := l[1..];
      assert all[1..] == tail + "\n" + s;
      assert all[0] == l[0] && l[0] in l;
      if |l| == 1 {
        assert all[1] == '\n';
      } else {
        assert all[1] == l[1] && l[1] in l;
        assert tail[|tail| - 1] == l[|l| - 1];
      }
      SplitWholeLine(tail, s);
      var rest := SplitLines(all[1..]);
      assert rest == [tail] + SplitLines(s);
      assert rest[0] == tail && rest[1..] == SplitLines(s);
      assert [l[0]] + tail == l;
    }
  }

  /** A line may end in a carriage return and a line feed as well, and the last one in nothing. */
  lemma {:induction false} SplitOtherEnds(l: string, s: string)
    requires '\n' !in l
    ensures SplitLines(l + "\r\n" + s) == [l] + SplitLines(s)
    ensures SplitLines(l) == [l]
    decreases |l|
  {
    var all := l + "\r\n" + s;
    if l == "" {
      assert all[0] == '\r' && all[1] == '\n' && all[2..] == s;
    } else {
      var tail := l[1..];
      assert all[0] == l[0] && l[0] in l && all[1..] == tail + "\r\n" + s;
      assert all[1] != '\n' by { if |l| > 1 { assert all[1] == l[1] && l[1] in l; } else { assert all[1] == '\r'; } }
      assert |l| > 1 ==> l[1] in l;
      SplitOtherEnds(tail, s);
      var rest := SplitLines(all[1..]);
      assert rest[0] == tail && rest[1..] == SplitLines(s);
      assert [l[0]] + tail == l;
    }
  }

  /** Splitting what was joined gives the lines and the empty one after the last feed. */
  lemma {:induction false} SplitJoined(lines: seq<string>)
    requires forall i | 0 <= i < |lines| :: Whole(lines[i])
    ensures SplitLines(JoinLines(lines)) == if lines == [] then ["", ""] else lines + [""]
  {
    assert SplitLines("") == [""];
    if |lines| <= 1 {
      var l := if lines == [] then "" else lines[0];
      SplitWholeLine(l, "");
      assert l + "\n" + "" == JoinLines(lines);
    } else {
      SplitJoined(lines[1..]);
      SplitWholeLine(lines[0], JoinLines(lines[1..]));
      assert lines[0] + "\n" + JoinLines(lines[1..]) == JoinLines(lines);
      assert lines == [lines[0]] + lines[1..];
    }
  }

  // ---- the two parts of the format ---------------------------------------------

  function TrimAll(lines: seq<string>): (ts: seq<string>)
    ensures |ts| == |lines| && forall i | 0 <= i < |lines| :: ts[i] == Trim(JsSpace, lines[i])
  {
    if lines == [] then [] else [Trim(JsSpace, lines[0])] + TrimAll(lines[1..])
  }

  /** Runs of blank lines become one, none stands in front. */
  function Squeeze(ts: seq<string>): seq<string> {
    if ts == [] then []
    else
      var front, t := Squeeze(ts[..|ts| - 1]), ts[|ts| - 1];
      if t == "" && (front == [] || front[|front| - 1] == "") then front else front + [t]
  }

  function DropBlankEnd(ls: seq<string>): seq<string> {
    if ls != [] && ls[|ls| - 1] == "" then DropBlankEnd(ls[..|ls| - 1]) else ls
  }

  function Count(c: char, t: string): nat {
    if t == "" then 0 else (if t[0] == c then 1 else 0) + Count(c, t[1..])
  }

  function Balance(t: string): int {
    Count('{', t) - Count('}', t)
  }

  function Max0(n: int): nat {
    if n > 0 then n else 0
  }

  /** The running depth, never below zero. */
  function NextDepth(depth: nat, t: string): nat {
    Max0(depth + Balance(t))
  }

  /** A line that starts by closing a block stands at the block's own depth. */
  function EffectiveDepth(depth: nat, t: string): nat {
    if t != "" && t[0] == '}' then Max0(depth - 1) else depth
  }

  function Pad(n: nat): string {
    if n == 0 then "" else "  " + Pad(n - 1)
  }

  function IndentLine(depth: nat, t: string): string {
    if t == "" then "" else Pad(EffectiveDepth(depth, t)) + t
  }

  /** The depth after the given lines. */
  function DepthAfter(ts: seq<string>): nat {
    if ts == [] then 0 else NextDepth(DepthAfter(ts[..|ts| - 1]), ts[|ts| - 1])
  }

  function Indent(ts: seq<string>): (ls: seq<string>)
    ensures |ls| == |ts|
  {
    if ts == [] then []
    else Indent(ts[..|ts| - 1]) + [IndentLine(DepthAfter(ts[..|ts| - 1]), ts[|ts| - 1])]
  }

  /** The lines of a text as they matter to the format: trimmed, blanks collapsed. */
  function Normal(content: string): seq<string> {
    DropBlankEnd(Squeeze(TrimAll(SplitLines(content))))
  }

  function Format(content: string): string {
    JoinLines(Indent(Normal(content)))
  }

  // ---- the loop --------------------------------------------------------------------

  lemma BlankKeepsDepth(ts: seq<string>)
    ensures DepthAfter(ts + [""]) == DepthAfter(ts)
  {
    assert (ts + [""])[..|ts|] == ts;
  }

  lemma IndentSnoc(ts: seq<string>, t: string)
    ensures Indent(ts + [t]) == Indent(ts) + [IndentLine(DepthAfter(ts), t)]
    ensures DepthAfter(ts + [t]) == NextDepth(DepthAfter(ts), t)
  {
    assert (ts + [t])[..|ts|] == ts;
  }

  lemma {:induction false} IndentBlank(ts: seq<string>)
    ensures forall i | 0 <= i < |ts| :: Indent(ts)[i] == "" <==> ts[i] == ""
  {
    if ts != [] {
      IndentBlank(ts[..|ts| - 1]);
    }
  }

  /** The variables of the loop before line `k`. */
  ghost predicate Running(lines: seq<string>, k: nat, out: seq<string>, depth: nat, lastBlank: bool)
    requires k <= |lines|
  {
    var kept := Squeeze(TrimAll(lines)[..k]);
    out == Indent(kept) && depth == DepthAfter(kept)
    && (out != [] ==> (lastBlank <==> out[|out| - 1] == ""))
  }

  lemma BlankStep(lines: seq<string>, k: nat, out: seq<string>, depth: nat, lastBlank: bool)
    requires k < |lines| && Running(lines, k, out, depth, lastBlank) && Trim(JsSpace, lines[k]) == ""
    ensures Running(lines, k + 1, if !lastBlank && |out| > 0 then out + [""] else out, depth, true)
  {
    var kept := Squeeze(TrimAll(lines)[..k]);
    SqueezeStep(lines, k);
    IndentSnoc(kept, "");
    IndentBlank(kept);
    BlankKeepsDepth(kept);
    PaddedLine(DepthAfter(kept), "");
    hide Squeeze, TrimAll, Indent, DepthAfter, Trim, IndentLine, NextDepth;
  }

  lemma LineStep(lines: seq<string>, k: nat, out: seq<string>, depth: nat, lastBlank: bool)
    requires k < |lines| && Running(lines, k, out, depth, lastBlank) && Trim(JsSpace, lines[k]) != ""
    ensures var t := Trim(JsSpace, lines[k]);
            Running(lines, k + 1, out + [Pad(EffectiveDepth(depth, t)) + t], NextDepth(depth, t), false)
  {
    var kept, t := Squeeze(TrimAll(lines)[..k]), Trim(JsSpace, lines[k]);
    SqueezeStep(lines, k);
    IndentSnoc(kept, t);
    PaddedLine(depth, t);
    hide Squeeze, TrimAll, Indent, DepthAfter, Trim, IndentLine, NextDepth, EffectiveDepth;
  }

  lemma RunningEnds(lines: seq<string>, out: seq<string>, depth: nat, lastBlank: bool)
    ensures Running(lines, 0, [], 0, false)
    ensures Running(lines, |lines|, out, depth, lastBlank) ==> out == Indent(Squeeze(TrimAll(lines)))
  {
    assert TrimAll(lines)[..0] == [] && TrimAll(lines)[..|lines|] == TrimAll(lines);
  }

  /** Re-indents line by line, then drops what is blank at the end. */
  method FormatText(content: string) returns (r: string)
    ensures r == Format(content)
  {
    var lines := SplitLines(content);
    var depth := 0;
    var out: seq<string> := [];
    var lastBlank := false;
    RunningEnds(lines, out, depth, lastBlank);
    for k := 0 to |lines|
      invariant Running(lines, k, out, depth, lastBlank)
    {
      hide *;
      var trimmed := Trim(JsSpace, lines[k]);
      if trimmed == "" {
        BlankStep(lines, k, out, depth, lastBlank);
        if !lastBlank && |out| > 0 {
          out := out + [""];
        }
        lastBlank := true;
        continue;
      }
      LineStep(lines, k, out, depth, lastBlank);
      lastBlank := false;
      out := out + [Pad(EffectiveDepth(depth, trimmed)) + trimmed];
      depth := NextDepth(depth, trimmed);
    }
    RunningEnds(lines, out, depth, lastBlank);
    out := DropBlanks(out, Squeeze(TrimAll(lines)));
    return JoinLines(out);
  }

  /** while the last line is blank, pop it. */
  method DropBlanks(lines: seq<string>, ghost ts: seq<string>) returns (out: seq<string>)
    requires lines == Indent(ts)
    ensures out == Indent(DropBlankEnd(ts))
  {
    out := lines;
    ghost var kept := ts;
    while out != [] && out[|out| - 1] == ""
      invariant out == Indent(kept) && DropBlankEnd(kept) == DropBlankEnd(ts)
      decreases |out|
    {
      IndentBlank(kept);
      out := out[..|out| - 1];
      kept := kept[..|kept| - 1];
    }
    IndentBlank(kept);
  }

  lemma PaddedLine(depth: nat, t: string)
    ensures t != "" ==> IndentLine(depth, t) == Pad(EffectiveDepth(depth, t)) + t != ""
    ensures IndentLine(depth, "") == ""
  {
  }

  /** What one more line makes of the lines kept so far. */
  function Keep(kept: seq<string>, t: string): seq<string> {
    if t == "" && (kept == [] || kept[|kept| - 1] == "") then kept else kept + [t]
  }

  lemma SqueezeStep(lines: seq<string>, k: nat)
    requires k < |lines|
    ensures Squeeze(TrimAll(lines)[..k + 1]) == Keep(Squeeze(TrimAll(lines)[..k]), Trim(JsSpace, lines[k]))
  {
    hide *;
    TakeOneMore(TrimAll(lines), k);
    SqueezeSnoc(TrimAll(lines)[..k], TrimAll(lines)[k]);
  }

  lemma TakeOneMore(ts: seq<string>, k: nat)
    requires k < |ts|
    ensures ts[..k + 1] == ts[..k] + [ts[k]]
  {
  }

  lemma SqueezeSnoc(ts: seq<string>, t: string)
    ensures Squeeze(ts + [t]) == Keep(Squeeze(ts), t)
  {
    assert (ts + [t])[..|ts|] == ts;
  }

  // ---- no blank line in front, at the end or doubled ----------------------------------

  predicate SingleBlanks(ls: seq<string>) {
    (ls != [] ==> ls[0] != "")
    && forall i | 0 < i < |ls| && ls[i] == "" :: ls[i - 1] != ""
  }

  predicate TidyBlanks(ls: seq<string>) {
    SingleBlanks(ls) && (ls != [] ==> ls[|ls| - 1] != "")
  }

  lemma {:induction false} SqueezeSingle(ts: seq<string>)
    ensures SingleBlanks(Squeeze(ts))
  {
    if ts != [] {
      SqueezeSingle(ts[..|ts| - 1]);
    }
  }

  lemma {:induction false} DropTidy(ls: seq<string>)
    requires SingleBlanks(ls)
    ensures TidyBlanks(DropBlankEnd(ls))
    ensures DropBlankEnd(ls) == ls || (ls != [] && ls[|ls| - 1] == "" && DropBlankEnd(ls) == ls[..|ls| - 1])
  {
    if ls != [] && ls[|ls| - 1] == "" {
      DropTidy(ls[..|ls| - 1]);
    }
  }

  lemma NormalTidy(content: string)
    ensures TidyBlanks(Normal(content))
  {
    SqueezeSingle(TrimAll(SplitLines(content)));
    DropTidy(Squeeze(TrimAll(SplitLines(content))));
  }

  // ---- every line with something on it survives ------------------------------------------

  function NonBlank(ls: seq<string>): seq<string> {
    if ls == [] then []
    else NonBlank(ls[..|ls| - 1]) + if ls[|ls| - 1] == "" then [] else [ls[|ls| - 1]]
  }

  lemma NonBlankSnoc(ls: seq<string>, t: string)
    ensures NonBlank(ls + [t]) == NonBlank(ls) + if t == "" then [] else [t]
  {
    assert (ls + [t])[..|ls|] == ls;
  }

  lemma {:induction false} SqueezeKeeps(ts: seq<string>)
    ensures NonBlank(Squeeze(ts)) == NonBlank(ts)
  {
    if ts != [] {
      var front, t := ts[..|ts| - 1], ts[|ts| - 1];
      SqueezeKeeps(front);
      NonBlankSnoc(Squeeze(front), t);
      hide NonBlank;
      assert ts == front + [t];
      NonBlankSnoc(front, t);
      assert NonBlank(front) + [] == NonBlank(front);
    }
  }

  lemma {:induction false} DropKeeps(ls: seq<string>)
    ensures NonBlank(DropBlankEnd(ls)) == NonBlank(ls)
  {
    if ls != [] && ls[|ls| - 1] == "" {
      DropKeeps(ls[..|ls| - 1]);
    }
  }

  lemma NormalKeeps(content: string)
    ensures NonBlank(Normal(content)) == NonBlank(TrimAll(SplitLines(content)))
  {
    SqueezeKeeps(TrimAll(SplitLines(content)));
    DropKeeps(Squeeze(TrimAll(SplitLines(content))));
  }

  // ---- formatting what was formatted ----------------------------------------------------

  predicate AllTrimmed(ts: seq<string>) {
    forall i | 0 <= i < |ts| :: Trimmed(JsSpace, ts[i]) && '\n' !in ts[i]
  }

  lemma TrimmedLine(l: string)
    requires '\n' !in l
    ensures Trimmed(JsSpace, Trim(JsSpace, l)) && '\n' !in Trim(JsSpace, l)
  {
    TrimIsTrimmed(JsSpace, l);
    var pre, post := TrimSplits(JsSpace, l);
    hide Trim;
    var t := Trim(JsSpace, l);
    forall i | 0 <= i < |t| ensures t[i] != '\n' {
      assert l[|pre| + i] == t[i];
    }
  }

  lemma {:induction false} SqueezeTrimmed(ts: seq<string>)
    requires AllTrimmed(ts)
    ensures AllTrimmed(Squeeze(ts))
  {
    if ts != [] {
      SqueezeTrimmed(ts[..|ts| - 1]);
      hide Trimmed;
      var front, t := Squeeze(ts[..|ts| - 1]), ts[|ts| - 1];
      assert Squeeze(ts) == front || Squeeze(ts) == front + [t];
    }
  }

  lemma {:induction false} DropTrimmed(ls: seq<string>)
    requires AllTrimmed(ls)
    ensures AllTrimmed(DropBlankEnd(ls))
  {
    if ls != [] && ls[|ls| - 1] == "" {
      DropTrimmed(ls[..|ls| - 1]);
    }
  }

  lemma NormalTrimmed(content: string)
    ensures AllTrimmed(Normal(content))
  {
    var lines := SplitLines(content);
    SplitNoFeeds(content);
    forall i | 0 <= i < |lines| ensures Trimmed(JsSpace, TrimAll(lines)[i]) && '\n' !in TrimAll(lines)[i] {
      TrimmedLine(lines[i]);
    }
    SqueezeTrimmed(TrimAll(lines));
    DropTrimmed(Squeeze(TrimAll(lines)));
  }

  lemma {:induction false} PadSpaces(n: nat)
    ensures AllSpace(JsSpace, Pad(n)) && '\n' !in Pad(n)
  {
    if n > 0 {
      PadSpaces(n - 1);
    }
  }

  /** Trimming an indented line gives the line. */
  lemma IndentLineTrims(depth: nat, t: string)
    requires Trimmed(JsSpace, t) && '\n' !in t
    ensures Trim(JsSpace, IndentLine(depth, t)) == t && Whole(IndentLine(depth, t))
  {
    var pad := Pad(EffectiveDepth(depth, t));
    PadSpaces(EffectiveDepth(depth, t));
    TrimFixed(JsSpace, t);
    TrimPadded(JsSpace, pad, t, "");
    assert pad + t + "" == pad + t;
    hide Trim, Pad;
    if t != "" {
      assert (pad + t)[|pad + t| - 1] == t[|t| - 1];
      assert JsSpace('\r');
    }
  }

  lemma {:induction false} IndentTrims(ts: seq<string>)
    requires AllTrimmed(ts)
    ensures TrimAll(Indent(ts)) == ts
    ensures forall i | 0 <= i < |ts| :: Whole(Indent(ts)[i])
  {
    if ts != [] {
      var n := |ts| - 1;
      IndentTrims(ts[..n]);
      IndentLineTrims(DepthAfter(ts[..n]), ts[n]);
      hide *;
      IndentLast(ts);
      TrimAllOf(Indent(ts[..n]), IndentLine(DepthAfter(ts[..n]), ts[n]));
      assert ts == ts[..n] + [ts[n]];
      var front := Indent(ts[..n]);
      forall i | 0 <= i < |ts| ensures Whole(Indent(ts)[i]) {
        if i < n { assert Indent(ts)[i] == front[i]; }
      }
    }
  }

  lemma IndentLast(ts: seq<string>)
    requires ts != []
    ensures Indent(ts) == Indent(ts[..|ts| - 1]) + [IndentLine(DepthAfter(ts[..|ts| - 1]), ts[|ts| - 1])]
  {
  }

  lemma TrimAllOf(ls: seq<string>, l: string)
    ensures TrimAll(ls + [l]) == TrimAll(ls) + [Trim(JsSpace, l)]
  {
    hide Trim;
  }

  lemma TrimAllSnoc(ls: seq<string>)
    ensures TrimAll(ls + [""]) == TrimAll(ls) + [""]
  {
    TrimFixed(JsSpace, "");
  }

  lemma {:induction false} SqueezeFixed(ts: seq<string>)
    requires SingleBlanks(ts)
    ensures Squeeze(ts) == ts
  {
    if ts != [] {
      SqueezeFixed(ts[..|ts| - 1]);
    }
  }

  /** The empty line that the last feed leaves behind is dropped again. */
  lemma TidyAgain(ts: seq<string>)
    requires TidyBlanks(ts)
    ensures DropBlankEnd(Squeeze(ts + [""])) == ts
  {
    SqueezeFixed(ts);
    assert (ts + [""])[..|ts|] == ts;
    if ts != [] {
      assert Squeeze(ts + [""]) == ts + [""];
      assert DropBlankEnd(ts + [""]) == DropBlankEnd(ts);
    }
  }

  /** The formatted text has the lines it was formatted from. */
  lemma NormalOfFormat(content: string)
    ensures Normal(Format(content)) == Normal(content)
  {
    var ts := Normal(content);
    NormalTidy(content);
    NormalTrimmed(content);
    IndentTrims(ts);
    SplitJoined(Indent(ts));
    TidyAgain(ts);
    hide Trim, SplitLines, Indent;
    if ts == [] {
      BlankTextNormal();
    } else {
      TrimAllSnoc(Indent(ts));
    }
  }

  lemma BlankTextNormal()
    ensures DropBlankEnd(Squeeze(TrimAll(["", ""]))) == []
  {
    TrimFixed(JsSpace, "");
    hide Trim;
    assert TrimAll(["", ""]) == ["", ""];
    assert ["", ""][..1] == [""] && [""][..0] == [];
    assert Squeeze([""]) == [];
  }

  /** Formatting is idempotent on every text. */
  lemma FormatIdempotent(content: string)
    ensures Format(Format(content)) == Format(content)
  {
    NormalOfFormat(content);
  }

  /** Formatting keeps the trimmed non-blank lines of every text, in order, and leaves no blank
      line in front, at the end or next to another. */
  lemma FormatKeepsLines(content: string)
    ensures NonBlank(TrimAll(SplitLines(Format(content)))) == NonBlank(TrimAll(SplitLines(content)))
    ensures TidyBlanks(Normal(Format(content)))
    ensures SplitLines(Format(content)) == if Normal(content) == [] then ["", ""] else Indent(Normal(content)) + [""]
  {
    NormalOfFormat(content);
    NormalKeeps(content);
    NormalKeeps(Format(content));
    NormalTidy(content);
    NormalTrimmed(content);
    IndentTrims(Normal(content));
    SplitJoined(Indent(Normal(content)));
  }

  // ---- the depth in closed form -------------------------------------------------------------

  /** The blocks that the lines open, less those they close, without any floor. */
  function Sum(ts: seq<string>): int {
    if ts == [] then 0
    else Sum(ts[..|ts| - 1]) + multiset(ts[|ts| - 1])['{'] - multiset(ts[|ts| - 1])['}']
  }

  lemma {:induction false} CountIsMultiplicity(c: char, t: string)
    ensures Count(c, t) == multiset(t)[c]
  {
    if t != "" {
      CountIsMultiplicity(c, t[1..]);
      assert t == [t[0]] + t[1..];
      assert multiset(t) == multiset{t[0]} + multiset(t[1..]);
    }
  }

  lemma BalanceIs(t: string)
    ensures Balance(t) + multiset(t)['}'] == multiset(t)['{']
  {
    CountIsMultiplicity('{', t);
    CountIsMultiplicity('}', t);
  }

  /** The least such sum after any number of the lines, none included. */
  function Least(ts: seq<string>): int {
    if ts == [] then 0
    else if Sum(ts) < Least(ts[..|ts| - 1]) then Sum(ts)
    else Least(ts[..|ts| - 1])
  }

  lemma {:induction false} LeastIsLeast(ts: seq<string>)
    ensures forall k | 0 <= k <= |ts| :: Least(ts) <= Sum(ts[..k])
    ensures exists k :: 0 <= k <= |ts| && Least(ts) == Sum(ts[..k])
  {
    assert ts[..|ts|] == ts;
    if ts == [] {
      assert Sum(ts[..0]) == 0;
    } else {
      var front := ts[..|ts| - 1];
      LeastIsLeast(front);
      forall k | 0 <= k <= |ts| ensures Least(ts) <= Sum(ts[..k]) {
        if k < |ts| { assert front[..k] == ts[..k]; }
      }
      var k :| 0 <= k <= |front| && Least(front) == Sum(front[..k]);
      assert front[..k] == ts[..k];
    }
  }

  /** A sum floored at every step is the plain sum less the deepest point below zero it has reached. */
  lemma {:induction false} DepthClosedForm(ts: seq<string>)
    ensures DepthAfter(ts) == Sum(ts) - Least(ts)
    ensures Least(ts) <= 0
  {
    if ts != [] {
      DepthClosedForm(ts[..|ts| - 1]);
      BalanceIs(ts[|ts| - 1]);
      hide Balance;
    }
  }

  lemma {:induction false} PadIs(n: nat)
    ensures Pad(n) == seq(2 * n, _ => ' ')
  {
    if n > 0 {
      PadIs(n - 1);
    }
  }

  /** Each line of the result stands at the depth of the lines before it, two spaces for each block that
      is open there, or for each but one if the line starts by closing. */
  lemma {:induction false} IndentedAt(ts: seq<string>, k: nat)
    requires k < |ts|
    ensures var depth: nat := Sum(ts[..k]) - Least(ts[..k]);
            var blocks: nat := if ts[k] != "" && ts[k][0] == '}' && depth > 0 then depth - 1 else depth;
            Indent(ts)[k] == if ts[k] == "" then "" else seq(2 * blocks, _ => ' ') + ts[k]
    decreases |ts|
  {
    var n := |ts| - 1;
    DepthClosedForm(ts[..k]);
    PadIs(EffectiveDepth(DepthAfter(ts[..k]), ts[k]));
    if k < n {
      IndentedAt(ts[..n], k);
      assert ts[..n][..k] == ts[..k];
    }
  }
}
