// String operations that the modelled code takes from its standard libraries.
module Text {

  datatype Option<T> = None | Some(value: T)

  /** `s` without its leading characters that satisfy `space`. */
  function TrimLeft(space: char -> bool, s: string): string {
    if s != "" && space(s[0]) then TrimLeft(space, s[1..]) else s
  }

  function TrimRight(space: char -> bool, s: string): string {
    if s != "" && space(s[|s| - 1]) then TrimRight(space, s[..|s| - 1]) else s
  }

  function Trim(space: char -> bool, s: string): string {
    TrimRight(space, TrimLeft(space, s))
  }

  predicate Trimmed(space: char -> bool, s: string) {
    s == "" || (!space(s[0]) && !space(s[|s| - 1]))
  }

  predicate AllSpace(space: char -> bool, s: string) {
    forall i | 0 <= i < |s| :: space(s[i])
  }

  lemma {:induction false} TrimLeftSplits(space: char -> bool, s: string)
    ensures var t := TrimLeft(space, s);
            |t| <= |s| && s[|s| - |t|..] == t && AllSpace(space, s[..|s| - |t|]) && (t == "" || !space(t[0]))
  {
    if s != "" && space(s[0]) {
      TrimLeftSplits(space, s[1..]);
      var t := TrimLeft(space, s);
      assert s[..|s| - |t|] == [s[0]] + s[1..][..|s| - 1 - |t|];
    }
  }

  lemma {:induction false} TrimRightSplits(space: char -> bool, s: string)
    ensures var t := TrimRight(space, s);
            |t| <= |s| && s[..|t|] == t && AllSpace(space, s[|t|..]) && (t == "" || !space(t[|t| - 1]))
  {
    if s != "" && space(s[|s| - 1]) {
      TrimRightSplits(space, s[..|s| - 1]);
      var t := TrimRight(space, s);
      assert s[..|s| - 1][..|t|] == s[..|t|];
      assert s[|t|..] == s[..|s| - 1][|t|..] + [s[|s| - 1]];
    } else {
      assert s[..|s|] == s;
    }
  }

  lemma TrimIsTrimmed(space: char -> bool, s: string)
    ensures Trimmed(space, Trim(space, s))
  {
    var l := TrimLeft(space, s);
    TrimLeftSplits(space, s);
    var t := TrimRight(space, l);
    TrimRightSplits(space, l);
    if t != "" {
      assert l[..|t|][0] == l[0];
    }
  }

  /** Trimming removes a run of spaces at each end and nothing else. */
  lemma TrimSplits(space: char -> bool, s: string) returns (pre: string, post: string)
    ensures s == pre + Trim(space, s) + post
    ensures AllSpace(space, pre) && AllSpace(space, post)
  {
    hide TrimLeft, TrimRight;
    var l := TrimLeft(space, s);
    TrimLeftSplits(space, s);
    var t := TrimRight(space, l);
    TrimRightSplits(space, l);
    pre, post := s[..|s| - |l|], l[|t|..];
    assert l == l[..|t|] + l[|t|..];
    assert s == s[..|s| - |l|] + s[|s| - |l|..];
    assert s == pre + t + post;
  }

  lemma {:induction false} TrimLeftPadded(space: char -> bool, pad: string, t: string)
    requires AllSpace(space, pad) && Trimmed(space, t)
    ensures TrimLeft(space, pad + t) == t
  {
    if pad == "" {
      assert pad + t == t;
    } else {
      assert (pad + t)[1..] == pad[1..] + t;
      TrimLeftPadded(space, pad[1..], t);
    }
  }

  lemma {:induction false} TrimRightPadded(space: char -> bool, t: string, pad: string)
    requires AllSpace(space, pad) && Trimmed(space, t)
    ensures TrimRight(space, t + pad) == t
  {
    if pad == "" {
      assert t + pad == t;
    } else {
      assert (t + pad)[..|t + pad| - 1] == t + pad[..|pad| - 1];
      TrimRightPadded(space, t, pad[..|pad| - 1]);
    }
  }

  /** A trimmed text is what trimming finds between any padding. */
  lemma TrimPadded(space: char -> bool, pre: string, t: string, post: string)
    requires AllSpace(space, pre) && AllSpace(space, post) && Trimmed(space, t)
    ensures Trim(space, pre + t + post) == t
  {
    if t == "" {
      assert pre + t + post == (pre + post) + "";
      TrimLeftPadded(space, pre + post, "");
    } else {
      var tp := t + post;
      assert pre + t + post == pre + tp;
      TrimLeftToFirst(space, pre, tp);
      TrimRightPadded(space, t, post);
    }
  }

  lemma {:induction false} TrimLeftToFirst(space: char -> bool, pad: string, t: string)
    requires AllSpace(space, pad) && t != "" && !space(t[0])
    ensures TrimLeft(space, pad + t) == t
  {
    if pad == "" {
      assert pad + t == t;
    } else {
      assert (pad + t)[1..] == pad[1..] + t;
      TrimLeftToFirst(space, pad[1..], t);
    }
  }

  lemma TrimFixed(space: char -> bool, t: string)
    requires Trimmed(space, t)
    ensures Trim(space, t) == t
  {
    TrimPadded(space, "", t, "");
    assert "" + t + "" == t;
  }

  /** The white space of ECMAScript's String.prototype.trim. */
  function JsSpace(c: char): bool {
    c in "\t\n\U{000B}\U{000C}\r \U{00A0}\U{1680}\U{2028}\U{2029}\U{202F}\U{205F}\U{3000}\U{FEFF}"
    || '\U{2000}' <= c <= '\U{200A}'
  }

  /** The white space of Go's strings.TrimSpace. */
  function GoSpace(c: char): bool {
    c in "\t\n\U{000B}\U{000C}\r \U{0085}\U{00A0}\U{1680}\U{2028}\U{2029}\U{202F}\U{205F}\U{3000}"
    || '\U{2000}' <= c <= '\U{200A}'
  }

  /** The same by code point: the line terminators, the byte order mark and the characters that Unicode
      calls spaces. */
  lemma JsSpaceCodes(c: char)
    ensures JsSpace(c) <==> 9 <= c as int <= 13 || 0x2000 <= c as int <= 0x200A
                            || c as int in {0x20, 0xA0, 0x1680, 0x2028, 0x2029, 0x202F, 0x205F, 0x3000, 0xFEFF}
  {
  }

  /** Go trims the next-line control character and not the byte order mark. */
  lemma GoSpaceCodes(c: char)
    ensures GoSpace(c) <==> (JsSpace(c) || c as int == 0x85) && c as int != 0xFEFF
  {
  }

  function Join(parts: seq<string>, sep: string): string {
    if parts == [] then ""
    else if |parts| == 1 then parts[0]
    else parts[0] + sep + Join(parts[1..], sep)
  }

  /** `ys` is what `f` makes of those elements of `xs` that are kept, each as often and in the order in
      which it occurs: `at` says where each was. */
  ghost predicate Selected<T, U>(ys: seq<U>, at: seq<nat>, xs: seq<T>, keep: T -> bool, f: T -> U) {
    |ys| == |at| && (forall i, j | 0 <= i < j < |at| :: at[i] < at[j])
    && (forall i | 0 <= i < |at| :: at[i] < |xs| && keep(xs[at[i]]) && ys[i] == f(xs[at[i]]))
    && forall k: nat | k < |xs| && keep(xs[k]) :: k in at
  }

  lemma SelectedSnoc<T, U>(ys: seq<U>, at: seq<nat>, xs: seq<T>, keep: T -> bool, f: T -> U, x: T)
    requires Selected(ys, at, xs, keep, f)
    ensures keep(x) ==> Selected(ys + [f(x)], at + [|xs|], xs + [x], keep, f)
    ensures !keep(x) ==> Selected(ys, at, xs + [x], keep, f)
  {
    assert forall k | k in at :: k in at + [|xs|];
    assert (at + [|xs|])[|at|] == |xs|;
  }

  /** Concatenation of a list of lists. */
  function Flatten<T>(xss: seq<seq<T>>): seq<T> {
    if xss == [] then [] else xss[0] + Flatten(xss[1..])
  }

  lemma {:induction false} FlattenAppend<T>(xss: seq<seq<T>>, yss: seq<seq<T>>)
    ensures Flatten(xss + yss) == Flatten(xss) + Flatten(yss)
  {
    if xss == [] {
      assert xss + yss == yss;
    } else {
      assert (xss + yss)[1..] == xss[1..] + yss;
      FlattenAppend(xss[1..], yss);
    }
  }

  lemma Regroup<T>(xs: seq<T>, ys: seq<T>, zs: seq<T>)
    ensures xs + (ys + zs) == xs + ys + zs
  {
  }
}
