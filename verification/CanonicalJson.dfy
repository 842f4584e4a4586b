// The canonical payload of an audit entry: what ee/audit hashes when it
// writes an entry and what it derives again from the JSONB column.
module CanonicalJson {
  import opened Text

  /** A JSON document as it stands on the wire: the members of an object come in an order. */
  datatype Tree =
    | TNull
    | TBool(b: bool)
    | TNumber(text: string)
    | TText(s: string)
    | TArray(items: seq<Tree>)
    | TObject(fields: seq<Field>)

  datatype Field = Field(key: string, value: Tree)

  /** What decoding into an untyped Go value yields: the members of an object are a map. */
  datatype Value =
    | Null
    | Bool(b: bool)
    | Number(text: string)
    | String(s: string)
    | Array(items: seq<Value>)
    | Object(members: map<string, Value>)

  /** The text codecs the model leaves to the libraries: whether a number is within float64, the
      text it has after passing through one, and the quoted form of a string. */
  datatype Codec = Codec(fits: string -> bool, number: string -> string, quote: string -> string)

  // ---- decoding and encoding -------------------------------------------

  /** json.Unmarshal into an untyped value succeeds: every number fits. */
  predicate Decodes(c: Codec, t: Tree)
    decreases t
  {
    match t
    case TNumber(text) => c.fits(text)
    case TArray(items) => forall i | 0 <= i < |items| :: Decodes(c, items[i])
    case TObject(fields) => forall i | 0 <= i < |fields| :: Decodes(c, fields[i].value)
    case _ => true
  }

  /** What it gives then. Of several members with one key the last counts. */
  function Read(c: Codec, t: Tree): Value
    decreases t, 1
  {
    match t
    case TNull => Null
    case TBool(b) => Bool(b)
    case TNumber(text) => Number(c.number(text))
    case TText(s) => String(s)
    case TArray(items) => Array(ReadItems(c, items))
    case TObject(fields) => Object(ReadFields(c, fields))
  }

  function ReadItems(c: Codec, items: seq<Tree>): (vs: seq<Value>)
    ensures |vs| == |items|
    ensures forall i | 0 <= i < |items| :: vs[i] == Read(c, items[i])
    decreases items, 0
  {
    if items == [] then [] else [Read(c, items[0])] + ReadItems(c, items[1..])
  }

  function ReadFields(c: Codec, fields: seq<Field>): map<string, Value>
    decreases fields, 0
  {
    if fields == [] then map[]
    else
      var last := fields[|fields| - 1];
      ReadFields(c, fields[..|fields| - 1])[last.key := Read(c, last.value)]
  }

  /** Go orders the keys of a marshalled map by their bytes. */
  predicate Before(a: string, b: string) {
    if b == "" then false
    else if a == "" then true
    else a[0] < b[0] || (a[0] == b[0] && Before(a[1..], b[1..]))
  }

  predicate Least(k: string, ks: set<string>) {
    k in ks && forall j | j in ks && j != k :: Before(k, j)
  }

  /** The keys have their first `n` characters in common, and then one ends or has the smaller character. */
  predicate SmallerAt(a: string, b: string, n: nat) {
    n <= |a| && n < |b| && a[..n] == b[..n] && (n == |a| || (a[n] as int) < b[n] as int)
  }

  lemma SmallerAtStep(a: string, b: string, n: nat)
    requires a != "" && b != ""
    ensures n > 0 ==> (SmallerAt(a, b, n) <==> a[0] == b[0] && SmallerAt(a[1..], b[1..], n - 1))
  {
    if 0 < n <= |a| && n < |b| {
      assert a[..n] == [a[0]] + a[1..][..n - 1] && b[..n] == [b[0]] + b[1..][..n - 1];
      assert a[..n][0] == a[0] && b[..n][0] == b[0] && a[..n][1..] == a[1..][..n - 1];
      assert b[..n][1..] == b[1..][..n - 1];
    }
  }

  lemma {:induction false} BeforeIs(a: string, b: string)
    ensures Before(a, b) <==> exists n: nat :: SmallerAt(a, b, n)
  {
    if a == "" || b == "" {
      assert b != "" ==> SmallerAt(a, b, 0);
    } else {
      BeforeIs(a[1..], b[1..]);
      forall n: nat ensures n > 0 ==> (SmallerAt(a, b, n) <==> a[0] == b[0] && SmallerAt(a[1..], b[1..], n - 1)) {
        SmallerAtStep(a, b, n);
      }
      assert SmallerAt(a, b, 0) <==> a[0] < b[0];
      hide SmallerAt;
      if a[0] == b[0] && Before(a[1..], b[1..]) {
        var n: nat :| SmallerAt(a[1..], b[1..], n);
        assert SmallerAt(a, b, n + 1);
      }
    }
  }

  lemma {:induction false} BeforeTotal(a: string, b: string)
    requires a != b
    ensures Before(a, b) || Before(b, a)
  {
    if a != "" && b != "" && a[0] == b[0] {
      assert a == [a[0]] + a[1..] && b == [b[0]] + b[1..];
      BeforeTotal(a[1..], b[1..]);
    }
  }

  lemma {:induction false} BeforeAsymmetric(a: string, b: string)
    requires Before(a, b)
    ensures !Before(b, a)
  {
    if a != "" && a[0] == b[0] {
      BeforeAsymmetric(a[1..], b[1..]);
    }
  }

  lemma {:induction false} BeforeTransitive(a: string, b: string, c: string)
    requires Before(a, b) && Before(b, c)
    ensures Before(a, c)
  {
    if a != "" && a[0] == b[0] && b[0] == c[0] {
      BeforeTransitive(a[1..], b[1..], c[1..]);
    }
  }

  lemma {:induction false} LeastExists(ks: set<string>)
    requires ks != {}
    ensures exists k :: Least(k, ks)
    decreases ks
  {
    var a :| a in ks;
    if ks == {a} {
      assert Least(a, ks);
    } else {
      LeastExists(ks - {a});
      var m :| Least(m, ks - {a});
      BeforeTotal(a, m);
      if Before(m, a) {
        assert Least(m, ks);
      } else {
        forall j | j in ks && j != a ensures Before(a, j) {
          if j != m { BeforeTransitive(a, m, j); }
        }
        assert Least(a, ks);
      }
    }
  }

  lemma LeastUnique(ks: set<string>)
    ensures forall j, k | Least(j, ks) && Least(k, ks) :: j == k
  {
    forall j, k | Least(j, ks) && Least(k, ks) ensures j == k {
      if j != k { BeforeAsymmetric(j, k); }
    }
  }

  function LeastKey(ks: set<string>): (k: string)
    requires ks != {}
    ensures Least(k, ks)
  {
    LeastExists(ks);
    LeastUnique(ks);
    var k :| k in ks && Least(k, ks);
    k
  }

  /** json.Marshal of an untyped value: the members of an object in key order. */
  function Write(v: Value): Tree
    decreases v, 1, 0
  {
    match v
    case Null => TNull
    case Bool(b) => TBool(b)
    case Number(text) => TNumber(text)
    case String(s) => TText(s)
    case Array(items) => TArray(WriteItems(items))
    case Object(members) => TObject(WriteMembers(v, members.Keys))
  }

  function WriteItems(items: seq<Value>): (ts: seq<Tree>)
    ensures |ts| == |items|
    ensures forall i | 0 <= i < |items| :: ts[i] == Write(items[i])
    decreases items, 0, 0
  {
    if items == [] then [] else [Write(items[0])] + WriteItems(items[1..])
  }

  function WriteMembers(v: Value, keys: set<string>): seq<Field>
    requires v.Object? && keys <= v.members.Keys
    decreases v, 0, keys
  {
    if keys == {} then []
    else
      var k := LeastKey(keys);
      [Field(k, Write(v.members[k]))] + WriteMembers(v, keys - {k})
  }

  // ---- the round trip through the encoder -------------------------------

  /** Every number in the value fits and has a text that a float64 gives back. */
  ghost predicate Settled(c: Codec, v: Value)
    decreases v
  {
    match v
    case Number(text) => c.fits(text) && c.number(text) == text
    case Array(items) => forall i | 0 <= i < |items| :: Settled(c, items[i])
    case Object(members) => forall k | k in members :: Settled(c, members[k])
    case _ => true
  }

  /** Formatting what was parsed from formatted text changes nothing more. */
  ghost predicate StableNumbers(c: Codec) {
    forall s | c.fits(s) :: c.fits(c.number(s)) && c.number(c.number(s)) == c.number(s)
  }

  /** What `c` makes of a number is a number that `d` leaves as it is. */
  ghost predicate SettlesIn(c: Codec, d: Codec) {
    forall s | c.fits(s) :: d.fits(c.number(s)) && d.number(c.number(s)) == c.number(s)
  }

  lemma ReadSettles(c: Codec, t: Tree)
    requires StableNumbers(c) && Decodes(c, t)
    ensures Settled(c, Read(c, t))
  {
    ReadSettlesIn(c, c, t);
  }

  lemma {:induction false} ReadSettlesIn(c: Codec, d: Codec, t: Tree)
    requires SettlesIn(c, d) && Decodes(c, t)
    ensures Settled(d, Read(c, t))
    decreases t, 1
  {
    match t {
      case TArray(items) =>
        forall i | 0 <= i < |items| ensures Settled(d, Read(c, items[i])) {
          ReadSettlesIn(c, d, items[i]);
        }
      case TObject(fields) => ReadFieldsSettle(c, d, fields);
      case _ =>
    }
  }

  lemma {:induction false} ReadFieldsSettle(c: Codec, d: Codec, fields: seq<Field>)
    requires SettlesIn(c, d) && FieldsDecode(c, fields)
    ensures forall k | k in ReadFields(c, fields) :: Settled(d, ReadFields(c, fields)[k])
    decreases fields, 0
  {
    if fields != [] {
      ReadFieldsSettle(c, d, fields[..|fields| - 1]);
      ReadSettlesIn(c, d, fields[|fields| - 1].value);
    }
  }

  /** Decoding what the encoder wrote gives the value back, whatever its shape. */
  lemma {:induction false} ReadWrite(c: Codec, v: Value)
    requires Settled(c, v)
    ensures Read(c, Write(v)) == v
    decreases v, 1, 0
  {
    match v {
      case Array(items) =>
        forall i | 0 <= i < |items| ensures Read(c, Write(items[i])) == items[i] {
          ReadWrite(c, items[i]);
        }
        assert ReadItems(c, WriteItems(items)) == items;
      case Object(members) =>
        ReadWriteMembers(c, v, members.Keys, []);
        SameMembers(c, v, WriteMembers(v, members.Keys));
      case _ =>
    }
  }

  lemma SameMembers(c: Codec, v: Value, fields: seq<Field>)
    requires v.Object?
    requires var m := ReadFields(c, [] + fields);
             m.Keys == v.members.Keys && forall k | k in v.members :: m[k] == v.members[k]
    ensures ReadFields(c, fields) == v.members
  {
    assert [] + fields == fields;
  }

  lemma ReadFieldsSnoc(c: Codec, done: seq<Field>, f: Field)
    ensures ReadFields(c, done + [f]) == ReadFields(c, done)[f.key := Read(c, f.value)]
    ensures done == [] ==> ReadFields(c, done) == map[]
  {
    assert (done + [f])[..|done|] == done;
  }

  /** `m` is `d` overwritten at `keys` with the members of `v`. */
  predicate Overwrites(m: map<string, Value>, d: map<string, Value>, v: Value, keys: set<string>)
    requires v.Object? && keys <= v.members.Keys
  {
    m.Keys == d.Keys + keys
    && (forall k | k in keys :: m[k] == v.members[k])
    && (forall k | k in d && k !in keys :: m[k] == d[k])
  }

  lemma OverwritesOne(m: map<string, Value>, d: map<string, Value>, v: Value, keys: set<string>, k: string)
    requires v.Object? && keys <= v.members.Keys && k in keys
    requires Overwrites(m, d[k := v.members[k]], v, keys - {k})
    ensures Overwrites(m, d, v, keys)
  {
  }

  lemma {:induction false} ReadWriteMembers(c: Codec, v: Value, keys: set<string>, done: seq<Field>)
    requires v.Object? && keys <= v.members.Keys && Settled(c, v)
    ensures Overwrites(ReadFields(c, done + WriteMembers(v, keys)), ReadFields(c, done), v, keys)
    decreases v, 0, keys
  {
    if keys == {} {
      assert done + WriteMembers(v, keys) == done;
    } else {
      var k := LeastKey(keys);
      var f := Field(k, Write(v.members[k]));
      ReadWrite(c, v.members[k]);
      ReadFieldsSnoc(c, done, f);
      assert done + WriteMembers(v, keys) == (done + [f]) + WriteMembers(v, keys - {k});
      hide Read, Write, Settled, Least, ReadFields, WriteMembers, Overwrites;
      ReadWriteMembers(c, v, keys - {k}, done + [f]);
      OverwritesOne(ReadFields(c, done + WriteMembers(v, keys)), ReadFields(c, done), v, keys, k);
    }
  }

  // ---- what the JSONB column may do to a document ------------------------

  predicate DistinctKeys(fields: seq<Field>) {
    forall i, j | 0 <= i < j < |fields| :: fields[i].key != fields[j].key
  }

  /** No object in the document has two members with one key. */
  ghost predicate WellFormed(t: Tree)
    decreases t
  {
    match t
    case TArray(items) => forall i | 0 <= i < |items| :: WellFormed(items[i])
    case TObject(fields) =>
      DistinctKeys(fields) && forall i | 0 <= i < |fields| :: WellFormed(fields[i].value)
    case _ => true
  }

  predicate ItemsDecode(c: Codec, items: seq<Tree>) {
    forall i | 0 <= i < |items| :: Decodes(c, items[i])
  }

  predicate FieldsDecode(c: Codec, fields: seq<Field>) {
    forall i | 0 <= i < |fields| :: Decodes(c, fields[i].value)
  }

  lemma DecodesParts(c: Codec, t: Tree)
    ensures t.TArray? ==> (Decodes(c, t) <==> ItemsDecode(c, t.items))
    ensures t.TObject? ==> (Decodes(c, t) <==> FieldsDecode(c, t.fields))
    ensures t.TNumber? ==> (Decodes(c, t) <==> c.fits(t.text))
    ensures !t.TArray? && !t.TObject? && !t.TNumber? ==> Decodes(c, t)
  {
  }

  lemma FieldsDecodeCons(c: Codec, f: Field, rest: seq<Field>)
    requires Decodes(c, f.value) && FieldsDecode(c, rest)
    ensures FieldsDecode(c, [f] + rest)
  {
    hide Decodes;
  }

  /** A settled value is written as a document that decodes. */
  lemma {:induction false} WriteDecodes(c: Codec, v: Value)
    requires Settled(c, v)
    ensures Decodes(c, Write(v))
    decreases v, 1, 0
  {
    DecodesParts(c, Write(v));
    hide Decodes;
    match v {
      case Array(items) =>
        forall i | 0 <= i < |items| ensures Decodes(c, Write(items[i])) { WriteDecodes(c, items[i]); }
      case Object(members) => WriteMembersDecode(c, v, members.Keys);
      case _ =>
    }
  }

  lemma {:induction false} WriteMembersDecode(c: Codec, v: Value, keys: set<string>)
    requires v.Object? && keys <= v.members.Keys && Settled(c, v)
    ensures FieldsDecode(c, WriteMembers(v, keys))
    decreases v, 0, keys
  {
    hide Decodes, Write;
    if keys != {} {
      var k := LeastKey(keys);
      WriteDecodes(c, v.members[k]);
      WriteMembersDecode(c, v, keys - {k});
      FieldsDecodeCons(c, Field(k, Write(v.members[k])), WriteMembers(v, keys - {k}));
    }
  }

  /** `u` is `t` as the store may return it: the members of any object, at any
      depth, in another order, and a number in another text of the same float. */
  ghost predicate Reordered(c: Codec, t: Tree, u: Tree)
    decreases t
  {
    match t
    case TNumber(text) => u.TNumber? && (c.fits(u.text) <==> c.fits(text)) && c.number(u.text) == c.number(text)
    case TArray(items) =>
      u.TArray? && |u.items| == |items| && forall i | 0 <= i < |items| :: Reordered(c, items[i], u.items[i])
    case TObject(fields) =>
      u.TObject? && |u.fields| == |fields| && DistinctKeys(u.fields)
      && (forall i | 0 <= i < |fields| :: HasTarget(c, fields[i], u.fields))
      && (forall j | 0 <= j < |u.fields| :: HasOrigin(c, fields, u.fields[j]))
    case _ => u == t
  }

  ghost predicate HasTarget(c: Codec, f: Field, gs: seq<Field>)
    decreases f
  {
    exists j :: 0 <= j < |gs| && gs[j].key == f.key && Reordered(c, f.value, gs[j].value)
  }

  ghost predicate HasOrigin(c: Codec, fs: seq<Field>, g: Field)
    decreases fs
  {
    exists i :: 0 <= i < |fs| && g.key == fs[i].key && Reordered(c, fs[i].value, g.value)
  }

  lemma OriginOf(c: Codec, t: Tree, u: Tree, j: nat) returns (i: nat)
    requires t.TObject? && Reordered(c, t, u) && u.TObject? && j < |u.fields|
    ensures i < |t.fields| && Reordered(c, t.fields[i].value, u.fields[j].value)
  {
    assert HasOrigin(c, t.fields, u.fields[j]);
    hide Reordered;
    i :| 0 <= i < |t.fields| && u.fields[j].key == t.fields[i].key
         && Reordered(c, t.fields[i].value, u.fields[j].value);
  }

  lemma SameKind(c: Codec, t: Tree, u: Tree)
    requires Reordered(c, t, u)
    ensures (t.TObject? ==> u.TObject?) && (!t.TObject? && !t.TArray? && Decodes(c, t) ==> Decodes(c, u))
    ensures t.TArray? ==> u.TArray? && |u.items| == |t.items|
                          && forall i | 0 <= i < |t.items| :: Reordered(c, t.items[i], u.items[i])
  {
  }

  /** A document that decodes does so in every order of its members. */
  lemma {:induction false} ReorderedDecodes(c: Codec, t: Tree, u: Tree)
    requires Reordered(c, t, u) && Decodes(c, t)
    ensures Decodes(c, u)
    decreases t
  {
    SameKind(c, t, u);
    DecodesParts(c, t);
    DecodesParts(c, u);
    hide Reordered, Decodes;
    if t.TArray? {
      forall i | 0 <= i < |u.items| ensures Decodes(c, u.items[i]) {
        ReorderedDecodes(c, t.items[i], u.items[i]);
      }
    } else if t.TObject? {
      forall j | 0 <= j < |u.fields| ensures Decodes(c, u.fields[j].value) {
        var i := OriginOf(c, t, u, j);
        ReorderedDecodes(c, t.fields[i].value, u.fields[j].value);
      }
    }
  }

  lemma {:induction false} ReadFieldsOnly(c: Codec, fields: seq<Field>, k: string)
    requires k in ReadFields(c, fields)
    ensures exists i :: 0 <= i < |fields| && fields[i].key == k
  {
    var n := |fields| - 1;
    if k == fields[n].key {
    } else {
      ReadFieldsOnly(c, fields[..n], k);
      var i :| 0 <= i < n && fields[..n][i].key == k;
      assert fields[i].key == k;
    }
  }

  /** Of the members with one key the last counts. */
  lemma {:induction false} LastCounts(c: Codec, fields: seq<Field>, i: nat)
    requires i < |fields| && forall j | i < j < |fields| :: fields[j].key != fields[i].key
    ensures fields[i].key in ReadFields(c, fields) && ReadFields(c, fields)[fields[i].key] == Read(c, fields[i].value)
  {
    var n := |fields| - 1;
    if i < n {
      LastCounts(c, fields[..n], i);
    }
  }

  lemma ReadFieldsValue(c: Codec, fields: seq<Field>, i: nat)
    requires DistinctKeys(fields) && i < |fields|
    ensures fields[i].key in ReadFields(c, fields) && ReadFields(c, fields)[fields[i].key] == Read(c, fields[i].value)
  {
    LastCounts(c, fields, i);
  }

  lemma {:induction false} ReadFieldsSize(c: Codec, fields: seq<Field>)
    requires DistinctKeys(fields)
    ensures |ReadFields(c, fields)| == |fields|
  {
    if fields != [] {
      var n := |fields| - 1;
      ReadFieldsSize(c, fields[..n]);
      if fields[n].key in ReadFields(c, fields[..n]) {
        ReadFieldsOnly(c, fields[..n], fields[n].key);
      }
    }
  }

  /** A set that contains another of the same size is that set. */
  lemma SameSizeSuperset(a: set<string>, b: set<string>)
    requires a <= b && |a| == |b|
    ensures a == b
  {
    if x :| x in b && x !in a {
      assert a <= b - {x};
      SubsetSize(a, b - {x});
    }
  }

  lemma {:induction false} SubsetSize(a: set<string>, b: set<string>)
    requires a <= b
    ensures |a| <= |b|
    decreases a
  {
    if x :| x in a {
      SubsetSize(a - {x}, b - {x});
    }
  }

  ghost predicate HasTwin(c: Codec, f: Field, gs: seq<Field>) {
    exists j :: 0 <= j < |gs| && gs[j].key == f.key && Read(c, f.value) == Read(c, gs[j].value)
  }

  /** Two lists with distinct keys that pair up key by key decode to one map. */
  lemma PairedFieldsReadSame(c: Codec, fs: seq<Field>, gs: seq<Field>)
    requires DistinctKeys(fs) && DistinctKeys(gs) && |fs| == |gs|
    requires forall i | 0 <= i < |fs| :: HasTwin(c, fs[i], gs)
    ensures ReadFields(c, fs) == ReadFields(c, gs)
  {
    var m, n := ReadFields(c, fs), ReadFields(c, gs);
    ReadFieldsSize(c, fs);
    ReadFieldsSize(c, gs);
    forall k | k in m ensures k in n && n[k] == m[k] {
      ReadFieldsOnly(c, fs, k);
      var i :| 0 <= i < |fs| && fs[i].key == k;
      ReadFieldsValue(c, fs, i);
      assert HasTwin(c, fs[i], gs);
      var j :| 0 <= j < |gs| && gs[j].key == fs[i].key && Read(c, fs[i].value) == Read(c, gs[j].value);
      ReadFieldsValue(c, gs, j);
    }
    assert |m.Keys| == |m| && |n.Keys| == |n|;
    SameSizeSuperset(m.Keys, n.Keys);
  }

  /** Reordering is invisible to the decoder. */
  lemma {:induction false} ReorderedReadsSame(c: Codec, t: Tree, u: Tree)
    requires WellFormed(t) && Reordered(c, t, u)
    ensures Read(c, t) == Read(c, u)
    decreases t
  {
    if t.TArray? {
      forall i | 0 <= i < |t.items| ensures Read(c, t.items[i]) == Read(c, u.items[i]) {
        ReorderedReadsSame(c, t.items[i], u.items[i]);
      }
      assert ReadItems(c, t.items) == ReadItems(c, u.items);
    } else if t.TObject? {
      var fs, gs := t.fields, u.fields;
      forall i | 0 <= i < |fs|
        ensures HasTwin(c, fs[i], gs)
      {
        assert HasTarget(c, fs[i], gs);
        var j :| 0 <= j < |gs| && gs[j].key == fs[i].key && Reordered(c, fs[i].value, gs[j].value);
        ReorderedReadsSame(c, fs[i].value, gs[j].value);
      }
      PairedFieldsReadSame(c, fs, gs);
    }
  }

  /** The encoder's documents never repeat a key. */
  lemma {:induction false} WriteWellFormed(v: Value)
    ensures WellFormed(Write(v))
    decreases v, 1, 0
  {
    match v {
      case Array(items) =>
        forall i | 0 <= i < |items| ensures WellFormed(Write(items[i])) { WriteWellFormed(items[i]); }
      case Object(members) => WriteMembersWellFormed(v, members.Keys);
      case _ =>
    }
  }

  lemma {:induction false} WriteMembersWellFormed(v: Value, keys: set<string>)
    requires v.Object? && keys <= v.members.Keys
    ensures var fs := WriteMembers(v, keys);
            |fs| == |keys| && DistinctKeys(fs)
            && (forall i | 0 <= i < |fs| :: fs[i].key in keys && WellFormed(fs[i].value))
            && (forall i, j | 0 <= i < j < |fs| :: Before(fs[i].key, fs[j].key))
    decreases v, 0, keys
  {
    if keys != {} {
      var k := LeastKey(keys);
      WriteWellFormed(v.members[k]);
      WriteMembersWellFormed(v, keys - {k});
    }
  }

  // ---- the canonical text ------------------------------------------------

  /** The bytes of a document. */
  function Print(c: Codec, t: Tree): string
    decreases t, 1
  {
    match t
    case TNull => "null"
    case TBool(b) => if b then "true" else "false"
    case TNumber(text) => text
    case TText(s) => c.quote(s)
    case TArray(items) => "[" + PrintItems(c, items) + "]"
    case TObject(fields) => "{" + PrintFields(c, fields) + "}"
  }

  function PrintItems(c: Codec, items: seq<Tree>): string
    decreases items, 0
  {
    if items == [] then ""
    else Print(c, items[0]) + (if |items| == 1 then "" else ",") + PrintItems(c, items[1..])
  }

  function PrintFields(c: Codec, fields: seq<Field>): string
    decreases fields, 0
  {
    if fields == [] then ""
    else c.quote(fields[0].key) + ":" + Print(c, fields[0].value)
         + (if |fields| == 1 then "" else ",") + PrintFields(c, fields[1..])
  }

  /** The metadata of an entry as json.Marshal sees it: some Go values cannot be
      marshalled at all, the others give an object whose nested structs keep
      their declaration order. An absent or empty map is the empty object. */
  datatype Metadata = Unmarshalable | Fields(fields: seq<Field>)

  /** The metadata marshals, and what it marshals to decodes again. */
  predicate Kept(c: Codec, m: Metadata) {
    m.Fields? && Decodes(c, TObject(m.fields))
  }

  /** What canonicalMetadata returns, as a document. */
  function CanonicalTree(c: Codec, m: Metadata): Tree {
    if Kept(c, m) then Write(Read(c, TObject(m.fields))) else TObject([])
  }

  function CanonicalMetadata(c: Codec, m: Metadata): string {
    Print(c, CanonicalTree(c, m))
  }

  /** What Verify derives from a payload column: "{}" unless it holds an object with members that decodes. */
  function RederivedPayload(c: Codec, stored: Tree): string {
    if stored.TObject? && stored.fields != [] && Decodes(c, stored) then Print(c, Write(Read(c, stored))) else "{}"
  }

  lemma WriteOfEmpty(c: Codec)
    ensures Write(Object(map[])) == TObject([]) && Read(c, TObject([])) == Object(map[])
    ensures Print(c, TObject([])) == "{}"
  {
    assert WriteMembers(Object(map[]), {}) == [];
  }

  lemma CanonicalDecodes(c: Codec, m: Metadata)
    requires StableNumbers(c)
    ensures CanonicalTree(c, m).TObject? && WellFormed(CanonicalTree(c, m)) && Decodes(c, CanonicalTree(c, m))
    ensures Write(Read(c, CanonicalTree(c, m))) == CanonicalTree(c, m)
  {
    WriteOfEmpty(c);
    if Kept(c, m) {
      var v := Read(c, TObject(m.fields));
      ReadSettles(c, TObject(m.fields));
      WriteDecodes(c, v);
      WriteWellFormed(v);
      ReadWrite(c, v);
    }
  }

  /** Canonicalising is idempotent: the canonical document canonicalises to itself. */
  lemma CanonicalIdempotent(c: Codec, m: Metadata)
    requires StableNumbers(c)
    ensures CanonicalTree(c, m).TObject?
    ensures CanonicalTree(c, Fields(CanonicalTree(c, m).fields)) == CanonicalTree(c, m)
  {
    CanonicalDecodes(c, m);
    var t := CanonicalTree(c, m);
    assert t == TObject(t.fields);
  }

  /** What Record hashes is what Verify derives again, for every metadata value
      and for every order in which the column may keep its members. */
  lemma PayloadSurvivesStorage(c: Codec, m: Metadata, stored: Tree)
    requires StableNumbers(c)
    requires Reordered(c, CanonicalTree(c, m), stored)
    ensures RederivedPayload(c, stored) == CanonicalMetadata(c, m)
  {
    WriteOfEmpty(c);
    var t := CanonicalTree(c, m);
    CanonicalDecodes(c, m);
    ReorderedReadsSame(c, t, stored);
    ReorderedDecodes(c, t, stored);
    assert stored.fields == [] <==> t.fields == [];
    hide CanonicalTree, Reordered, Decodes, Read, Write;
  }

  /** Metadata that cannot be marshalled, that does not decode again, or that has no members gives
      "{}", and no other metadata does. */
  lemma CanonicalOfNothing(c: Codec, m: Metadata)
    ensures CanonicalMetadata(c, m) == "{}" <==> m.Unmarshalable? || m.fields == [] || !Decodes(c, TObject(m.fields))
  {
    WriteOfEmpty(c);
    if Kept(c, m) && m.fields != [] {
      var last := m.fields[|m.fields| - 1];
      var members := ReadFields(c, m.fields);
      assert last.key in members;
      assert members.Keys != {};
      WriteMembersWellFormed(Object(members), members.Keys);
      var fs := WriteMembers(Object(members), members.Keys);
      assert fs != [];
      assert |PrintFields(c, fs)| > 0;
    }
  }
}
