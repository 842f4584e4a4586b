// What the hashed frame says about one audit record: ten strings and a time
// (chainHash in ee/audit/store.go).
module AuditFraming {
  import opened Text
  import opened Framing
  import opened AuditChain
  import opened AuditTamper
  import CanonicalJson

  /** The ten parts of a record that are strings. */
  function Strings(prev: string, who: Who, payloadText: string): seq<string> {
    [prev, who.org, if who.actor.Some? then who.actor.value else "", who.name, who.email,
     who.action, who.targetType, who.targetId, payloadText, who.ip]
  }

  lemma PartsSplit(env: Env, prev: string, who: Who, payloadText: string, at: int)
    ensures Parts(env, prev, who, payloadText, at) == Strings(prev, who, payloadText) + [Stamp(env.clock, at)]
  {
  }

  lemma CleanAppend(xs: seq<string>, ys: seq<string>)
    ensures AllClean(xs + ys) <==> AllClean(xs) && AllClean(ys)
  {
    if AllClean(xs + ys) {
      forall i | 0 <= i < |xs| ensures Clean(xs[i]) { assert Clean((xs + ys)[i]); }
      forall i | 0 <= i < |ys| ensures Clean(ys[i]) { assert Clean((xs + ys)[|xs| + i]); }
    }
  }

  /** A record in another arrangement of its strings. */
  function Arranged(ys: seq<string>): Who
    requires |ys| == 10
  {
    Who(ys[1], Some(ys[2]), ys[3], ys[4], ys[5], ys[6], ys[7], ys[9])
  }

  lemma SameTime(env: Env, a: int, b: int, xs: seq<string>, ys: seq<string>)
    requires ClockText(env.clock) && InRange(a) && InRange(b)
    requires xs + [Stamp(env.clock, a)] == ys + [Stamp(env.clock, b)]
    ensures xs == ys && a == b
  {
    var all := xs + [Stamp(env.clock, a)];
    assert all[..|all| - 1] == xs && (ys + [Stamp(env.clock, b)])[..|all| - 1] == ys;
    assert all[|all| - 1] == (ys + [Stamp(env.clock, b)])[|all| - 1];
    StampInjective(env.clock, a, b);
  }

  /** Some other record, of ten strings and a time in range like this one, is hashed over the same bytes. */
  ghost predicate Confusable(env: Env, prev: string, who: Who, payloadText: string, at: int) {
    exists prev', who', text', at' ::
      InRange(at') && SameFrame(env, prev, who, payloadText, at, prev', who', text', at')
      && (Strings(prev', who', text') != Strings(prev, who, payloadText) || at' != at)
  }

  predicate SameFrame(env: Env, prev: string, who: Who, text: string, at: int,
                      prev': string, who': Who, text': string, at': int)
  {
    Frame(Parts(env, prev', who', text', at')) == Frame(Parts(env, prev, who, text, at))
  }

  lemma UncleanConfusable(env: Env, prev: string, who: Who, payloadText: string, at: int)
    requires InRange(at) && !AllClean(Strings(prev, who, payloadText))
    ensures Confusable(env, prev, who, payloadText, at)
  {
    var xs := Strings(prev, who, payloadText);
    var i :| 0 <= i < |xs| && !Clean(xs[i]);
    var ys := UncleanFrameCollides(xs, i);
    var who' := Arranged(ys);
    assert Strings(ys[0], who', ys[8]) == ys;
    PartsSplit(env, prev, who, payloadText, at);
    PartsSplit(env, ys[0], who', ys[8], at);
    FrameAppend(xs, [Stamp(env.clock, at)]);
    FrameAppend(ys, [Stamp(env.clock, at)]);
    hide Frame, Strings, Parts, Stamp;
    assert SameFrame(env, prev, who, payloadText, at, ys[0], who', ys[8], at);
  }

  /** The frame tells a record from every other if and only if none of its ten strings holds the
      separator; the time never needs the condition. */
  lemma RecordUnambiguousIff(env: Env, prev: string, who: Who, payloadText: string, at: int)
    requires ClockText(env.clock) && InRange(at)
    ensures !Confusable(env, prev, who, payloadText, at) <==> AllClean(Strings(prev, who, payloadText))
  {
    var xs := Strings(prev, who, payloadText);
    if AllClean(xs) {
      StampClean(env.clock, at);
      CleanAppend(xs, [Stamp(env.clock, at)]);
      forall prev', who', text', at' |
        InRange(at') && SameFrame(env, prev, who, payloadText, at, prev', who', text', at')
        ensures Strings(prev', who', text') == xs && at' == at
      {
        hide Frame, Strings, Stamp, AllClean, ClockText;
        PartsSplit(env, prev, who, payloadText, at);
        PartsSplit(env, prev', who', text', at');
        CleanFrameDecodes(Parts(env, prev, who, payloadText, at), Parts(env, prev', who', text', at'));
        SameTime(env, at', at, Strings(prev', who', text'), xs);
      }
    } else {
      UncleanConfusable(env, prev, who, payloadText, at);
    }
  }

  /** The text fields that stand side by side in the record. */
  function TextFields(who: Who): seq<string> {
    [who.name, who.email, who.action, who.targetType, who.targetId]
  }

  function WithTextFields(who: Who, fs: seq<string>): Who
    requires |fs| == 5
  {
    who.(name := fs[0], email := fs[1], action := fs[2], targetType := fs[3], targetId := fs[4])
  }

  lemma FrameOfRow(env: Env, prev: string, who: Who, payloadText: string, at: int)
    ensures var head := [prev, who.org, if who.actor.Some? then who.actor.value else ""];
            var tail := [payloadText, who.ip, Stamp(env.clock, at)];
            Frame(Parts(env, prev, who, payloadText, at)) == Frame(head) + Frame(TextFields(who)) + Frame(tail)
  {
    var head := [prev, who.org, if who.actor.Some? then who.actor.value else ""];
    var tail := [payloadText, who.ip, Stamp(env.clock, at)];
    assert Parts(env, prev, who, payloadText, at) == head + TextFields(who) + tail;
    FrameAround(head, TextFields(who), tail);
  }

  /** Two records of eleven fields that are hashed over the same bytes: an actor's name swallows the
      separator and the beginning of the e-mail address. */
  lemma RecordsCollide(env: Env, prev: string, who: Who, payloadText: string, at: int, a: string, b: string, c: string)
    ensures var who0, who1 := who.(name := a + [SEP] + b, email := c), who.(name := a, email := b + [SEP] + c);
            who0 != who1
            && Frame(Parts(env, prev, who0, payloadText, at)) == Frame(Parts(env, prev, who1, payloadText, at))
  {
    var who0, who1 := who.(name := a + [SEP] + b, email := c), who.(name := a, email := b + [SEP] + c);
    var rest := [who.action, who.targetType, who.targetId];
    assert TextFields(who0) == [a + [SEP] + b, c] + rest && TextFields(who1) == [a, b + [SEP] + c] + rest;
    FrameAppend([a + [SEP] + b, c], rest);
    FrameAppend([a, b + [SEP] + c], rest);
    FrameOfPair(a + [SEP] + b, c);
    FrameOfPair(a, b + [SEP] + c);
    assert a + [SEP] + b + [SEP] + c + [SEP] == a + [SEP] + (b + [SEP] + c) + [SEP];
    FrameOfRow(env, prev, who0, payloadText, at);
    FrameOfRow(env, prev, who1, payloadText, at);
    assert |who0.name| > |who1.name|;
  }

  /** What this costs: a hashed row with a separator in one of its text fields can be rewritten, hash
      and link and everything else kept, and the check does not notice. */
  lemma SeparatorHidesEdit(env: Env, seed: string, rows: seq<Row>, k: nat) returns (r: Row)
    requires Intact(env, seed, rows) && k < |rows| && rows[k].hash != "" && !AllClean(TextFields(rows[k].who))
    ensures r == rows[k].(who := r.who) && TextFields(r.who) != TextFields(rows[k].who)
    ensures Check(env, seed, rows[k := r]).ok
  {
    var x := rows[k];
    var xs := TextFields(x.who);
    var i :| 0 <= i < |xs| && !Clean(xs[i]);
    var ys := UncleanFrameCollides(xs, i);
    r := x.(who := WithTextFields(x.who, ys));
    assert TextFields(r.who) == ys;
    var text := CanonicalJson.RederivedPayload(env.codec, x.payload);
    FrameOfRow(env, x.prev, x.who, text, x.at);
    FrameOfRow(env, r.prev, r.who, text, r.at);
    assert RowHash(env, r) == RowHash(env, x);
    assert IntactAt(env, seed, rows, k);
    hide Intact, RowHash, Frame;
    OverwriteLocated(env, seed, rows, k, r);
  }
}
