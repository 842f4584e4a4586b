// Columns of the flow graph (layout in frontend/src/components/IntegrationFlow.tsx):
// a memoised depth-first search that cuts cycles, against the longest path.
module FlowDepth {

  datatype Edge = Edge(source: string, target: string)

  // ---- paths ---------------------------------------------------------------

  predicate Path(edges: seq<Edge>, p: seq<string>) {
    p != [] && forall i | 0 <= i < |p| - 1 :: Edge(p[i], p[i + 1]) in edges
  }

  predicate PathTo(edges: seq<Edge>, p: seq<string>, name: string) {
    Path(edges, p) && p[|p| - 1] == name
  }

  /** No path of at least one edge comes back to where it began. */
  ghost predicate Acyclic(edges: seq<Edge>) {
    forall p | Path(edges, p) && |p| > 1 :: p[0] != p[|p| - 1]
  }

  /** The longest path that ends at `name` has `d` edges. */
  ghost predicate LongestTo(edges: seq<Edge>, name: string, d: nat) {
    (exists p :: PathTo(edges, p, name) && |p| == d + 1)
    && (forall p | PathTo(edges, p, name) :: |p| <= d + 1)
  }

  lemma PathCons(edges: seq<Edge>, s: string, p: seq<string>)
    requires Path(edges, p) && Edge(s, p[0]) in edges
    ensures Path(edges, [s] + p)
  {
    forall i | 0 <= i < |[s] + p| - 1 ensures Edge(([s] + p)[i], ([s] + p)[i + 1]) in edges {
      if i > 0 { assert Edge(p[i - 1], p[i]) in edges; }
    }
  }

  lemma PathSnoc(edges: seq<Edge>, p: seq<string>, t: string)
    requires Path(edges, p) && Edge(p[|p| - 1], t) in edges
    ensures PathTo(edges, p + [t], t)
  {
    forall i | 0 <= i < |p + [t]| - 1 ensures Edge((p + [t])[i], (p + [t])[i + 1]) in edges {
      if i < |p| - 1 { assert Edge(p[i], p[i + 1]) in edges; }
    }
  }

  lemma PathFront(edges: seq<Edge>, p: seq<string>)
    requires Path(edges, p) && |p| > 1
    ensures PathTo(edges, p[..|p| - 1], p[|p| - 2]) && Edge(p[|p| - 2], p[|p| - 1]) in edges
  {
    var q := p[..|p| - 1];
    forall i | 0 <= i < |q| - 1 ensures Edge(q[i], q[i + 1]) in edges {
      assert Edge(p[i], p[i + 1]) in edges;
    }
    assert Edge(p[|p| - 2], p[|p| - 2 + 1]) in edges;
  }

  /** The sources of the edges into `name`, in order. */
  function Sources(edges: seq<Edge>, name: string): seq<string> {
    if edges == [] then []
    else (if edges[0].target == name then [edges[0].source] else []) + Sources(edges[1..], name)
  }

  lemma {:induction false} SourcesAre(edges: seq<Edge>, name: string)
    ensures forall s :: s in Sources(edges, name) <==> Edge(s, name) in edges
  {
    if edges != [] {
      SourcesAre(edges[1..], name);
      assert forall e :: e in edges <==> e == edges[0] || e in edges[1..];
    }
  }

  /** Names with an edge into them. */
  function Targets(edges: seq<Edge>): set<string> {
    set e | e in edges :: e.target
  }

  function Names(edges: seq<Edge>): set<string> {
    Targets(edges) + set e | e in edges :: e.source
  }

  // ---- the invariants of the memo ----------------------------------------------

  /** Whatever depth is recorded, each smaller positive depth is recorded for some name with an
      edge into it: the names on the way to a deep one are all different. */
  ghost predicate StepClosed(edges: seq<Edge>, depths: map<string, nat>) {
    forall n, v: nat | n in depths && 1 <= v <= depths[n] :: Attained(edges, depths, v)
  }

  predicate Attained(edges: seq<Edge>, depths: map<string, nat>, v: nat) {
    exists m :: m in depths && depths[m] == v && m in Targets(edges)
  }

  ghost predicate AllLongest(edges: seq<Edge>, depths: map<string, nat>) {
    forall n | n in depths :: LongestTo(edges, n, depths[n])
  }

  /** `name` leads to every name being visited. */
  ghost predicate LeadsTo(edges: seq<Edge>, name: string, visiting: set<string>) {
    forall v | v in visiting :: exists p :: PathTo(edges, p, v) && |p| > 1 && p[0] == name
  }

  lemma LeadsToSource(edges: seq<Edge>, s: string, name: string, visiting: set<string>)
    requires LeadsTo(edges, name, visiting) && Edge(s, name) in edges
    ensures LeadsTo(edges, s, visiting + {name})
  {
    forall v | v in visiting + {name} ensures exists p :: PathTo(edges, p, v) && |p| > 1 && p[0] == s {
      if v == name {
        assert PathTo(edges, [s, name], name);
      } else {
        var p :| PathTo(edges, p, v) && |p| > 1 && p[0] == name;
        PathCons(edges, s, p);
        assert PathTo(edges, [s] + p, v);
      }
    }
  }

  lemma NotVisiting(edges: seq<Edge>, name: string, visiting: set<string>)
    requires Acyclic(edges) && LeadsTo(edges, name, visiting)
    ensures name !in visiting
  {
  }

  /** One more than the longest over the sources is the longest to the name. */
  lemma LongestStep(edges: seq<Edge>, name: string, ins: seq<string>, best: nat, depths: map<string, nat>)
    requires ins == Sources(edges, name) && ins != []
    requires AllLongest(edges, depths) && Reached(ins, depths, best)
    ensures LongestTo(edges, name, best + 1)
  {
    SourcesAre(edges, name);
    var i :| 0 <= i < |ins| && depths[ins[i]] == best;
    var q :| PathTo(edges, q, ins[i]) && |q| == best + 1;
    assert ins[i] in ins;
    PathSnoc(edges, q, name);
    assert |q + [name]| == best + 2;
    forall p | PathTo(edges, p, name) ensures |p| <= best + 2 {
      if |p| > 1 {
        PathFront(edges, p);
        var s := p[|p| - 2];
        assert s in ins;
        var j :| 0 <= j < |ins| && ins[j] == s;
        assert |p[..|p| - 1]| <= depths[s] + 1;
      }
    }
  }

  lemma LongestRoot(edges: seq<Edge>, name: string)
    requires Sources(edges, name) == []
    ensures LongestTo(edges, name, 0)
  {
    SourcesAre(edges, name);
    assert PathTo(edges, [name], name);
    forall p | PathTo(edges, p, name) ensures |p| <= 1 {
      if |p| > 1 {
        PathFront(edges, p);
      }
    }
  }

  lemma ClosedInsert(edges: seq<Edge>, depths: map<string, nat>, name: string, d: nat)
    requires StepClosed(edges, depths) && name !in depths
    requires d >= 1 ==> name in Targets(edges)
    requires d >= 2 ==> exists m :: m in depths && depths[m] == d - 1
    ensures StepClosed(edges, depths[name := d])
  {
    var after := depths[name := d];
    forall n, v: nat | n in after && 1 <= v <= after[n] ensures Attained(edges, after, v) {
      if n == name && v == d {
        assert after[name] == v;
      } else {
        if n == name {
          var m :| m in depths && depths[m] == d - 1;
          assert Attained(edges, depths, v);
        } else {
          assert Attained(edges, depths, v);
        }
        var m :| m in depths && depths[m] == v && m in Targets(edges);
        assert after[m] == v;
      }
    }
  }

  /** A step-closed memo stays below the number of names with an edge into them. */
  lemma DepthBound(edges: seq<Edge>, depths: map<string, nat>, n: string)
    requires StepClosed(edges, depths) && n in depths
    ensures depths[n] <= |Targets(edges)|
  {
    CountBelow(edges, depths, depths[n], Targets(edges), n);
  }

  lemma {:induction false} CountBelow(edges: seq<Edge>, depths: map<string, nat>, d: nat, left: set<string>, n: string)
    requires StepClosed(edges, depths) && n in depths && d <= depths[n]
    requires forall m | m in depths && m in Targets(edges) && depths[m] <= d :: m in left
    ensures d <= |left|
    decreases d
  {
    if d > 0 {
      assert Attained(edges, depths, d);
      var m :| m in depths && depths[m] == d && m in Targets(edges);
      CountBelow(edges, depths, d - 1, left - {m}, n);
    }
  }

  // ---- the search ------------------------------------------------------------------

  /** The memo `depths` and the set `visiting` of the names on the way to the current one. */
  class Search {
    const edges: seq<Edge>
    const incoming: map<string, seq<string>>
    var depths: map<string, nat>
    var visiting: set<string>

    /** Groups the edges by their target, every node having an entry. */
    constructor (nodes: seq<string>, edges: seq<Edge>)
      ensures this.edges == edges && depths == map[] && visiting == {}
      ensures forall n | n in incoming :: incoming[n] == Sources(edges, n)
      ensures forall n :: n in incoming <==> n in nodes || n in Targets(edges)
    {
      var into: map<string, seq<string>> := map n | n in nodes :: [];
      for k := 0 to |edges|
        invariant forall n :: n in into <==> n in nodes || n in Targets(edges[..k])
        invariant forall n | n in into :: into[n] == Sources(edges[..k], n)
      {
        var e := edges[k];
        assert edges[..k + 1] == edges[..k] + [e];
        forall n ensures Sources(edges[..k + 1], n)
                      == Sources(edges[..k], n) + if e.target == n then [e.source] else [] {
          SourcesSnoc(edges[..k], e, n);
        }
        if e.target !in into {
          NoSources(edges[..k], e.target);
          into := into[e.target := []];
        }
        into := into[e.target := into[e.target] + [e.source]];
      }
      assert edges[..|edges|] == edges;
      this.edges := edges;
      incoming := into;
      depths := map[];
      visiting := {};
    }

    ghost predicate Valid()
      reads this
    {
      (forall n | n in incoming :: incoming[n] == Sources(edges, n))
      && (forall n | n in Targets(edges) :: n in incoming)
      && StepClosed(edges, depths)
      && (Acyclic(edges) ==> AllLongest(edges, depths))
    }

    /** The depth of a name: remembered if known, 0 if it is being visited, else one more than
        the deepest of its sources. Terminates on every graph. */
    method Depth(name: string) returns (d: nat)
      requires Valid()
      requires Acyclic(edges) ==> LeadsTo(edges, name, visiting)
      modifies this`depths, this`visiting
      ensures Valid() && visiting == old(visiting)
      ensures forall n | n in old(depths) :: n in depths && depths[n] == old(depths[n])
      ensures forall n | n in depths && n in visiting :: n in old(depths)
      ensures name in depths ==> d == depths[name]
      ensures name !in depths ==> name in visiting && d == 0
      decreases Names(edges) + {name} - visiting
    {
      hide StepClosed, AllLongest, LongestTo, LeadsTo, Acyclic, Reached, Sources, Targets, Names;
      if name in depths {
        return depths[name];
      }
      if name in visiting {
        return 0;
      }
      ghost var outer := visiting;
      visiting := visiting + {name};
      var ins := if name in incoming then incoming[name] else [];
      SourcesAre(edges, name);
      InsOf(name, ins);
      ReachedNone(depths);
      assert ins[..0] == [];
      var best := 0;
      for i := 0 to |ins|
        invariant Valid() && visiting == outer + {name}
        invariant forall n | n in old(depths) :: n in depths && depths[n] == old(depths[n])
        invariant forall n | n in depths && n in visiting :: n in old(depths)
        invariant best == 0 || exists m :: m in depths && depths[m] == best
        invariant Acyclic(edges) ==> Reached(ins[..i], depths, best)
      {
        assert ins[i] in ins;
        SourceIsName(edges, ins[i], name);
        if Acyclic(edges) {
          LeadsToSource(edges, ins[i], name, outer);
          NotVisiting(edges, ins[i], visiting);
        }
        ghost var before, prior := depths, best;
        var c := Depth(ins[i]);
        best := if c > best then c else best;
        if Acyclic(edges) {
          ReachedStep(ins, i, before, depths, prior, best);
        }
      }
      assert ins[..|ins|] == ins;
      d := if ins == [] then 0 else best + 1;
      ClosedInsert(edges, depths, name, d);
      if Acyclic(edges) {
        if ins == [] {
          LongestRoot(edges, name);
        } else {
          LongestStep(edges, name, ins, best, depths);
        }
        LongestInsert(edges, depths, name, d);
      }
      visiting := visiting - {name};
      depths := depths[name := d];
    }

    lemma InsOf(name: string, ins: seq<string>)
      requires Valid() && ins == if name in incoming then incoming[name] else []
      ensures ins == Sources(edges, name) && (ins != [] ==> name in Targets(edges))
    {
      if name !in incoming {
        NoSources(edges, name);
      } else if ins != [] {
        SourcesAre(edges, name);
        assert ins[0] in ins;
        assert Edge(ins[0], name) in edges;
      }
    }
  }

  lemma SourceIsName(edges: seq<Edge>, s: string, t: string)
    requires Edge(s, t) in edges
    ensures s in Names(edges)
  {
    var e := Edge(s, t);
    assert e.source == s;
  }

  /** Every one of `ins` is recorded, and the largest depth among them is `best`. */
  ghost predicate Reached(ins: seq<string>, depths: map<string, nat>, best: nat) {
    (forall i | 0 <= i < |ins| :: ins[i] in depths && depths[ins[i]] <= best)
    && (ins == [] ==> best == 0)
    && (ins != [] ==> exists i :: 0 <= i < |ins| && depths[ins[i]] == best)
  }

  lemma ReachedNone(depths: map<string, nat>)
    ensures Reached([], depths, 0)
  {
  }

  lemma ReachedStep(ins: seq<string>, i: nat, before: map<string, nat>, depths: map<string, nat>, prior: nat, best: nat)
    requires i < |ins| && Reached(ins[..i], before, prior)
    requires forall n | n in before :: n in depths && depths[n] == before[n]
    requires ins[i] in depths && best == if depths[ins[i]] > prior then depths[ins[i]] else prior
    ensures Reached(ins[..i + 1], depths, best)
  {
    var xs, ys := ins[..i], ins[..i + 1];
    assert ys == xs + [ins[i]];
    if best == depths[ins[i]] {
      assert ys[i] == ins[i];
    } else {
      var j :| 0 <= j < |xs| && before[xs[j]] == prior;
      assert ys[j] == xs[j];
    }
  }

  lemma LongestInsert(edges: seq<Edge>, depths: map<string, nat>, name: string, d: nat)
    requires AllLongest(edges, depths) && LongestTo(edges, name, d)
    ensures AllLongest(edges, depths[name := d])
  {
  }

  lemma {:induction false} SourcesSnoc(edges: seq<Edge>, e: Edge, n: string)
    ensures Sources(edges + [e], n) == Sources(edges, n) + if e.target == n then [e.source] else []
  {
    if edges == [] {
      assert [e][1..] == [];
    } else {
      assert (edges + [e])[1..] == edges[1..] + [e];
      SourcesSnoc(edges[1..], e, n);
    }
  }

  lemma {:induction false} NoSources(edges: seq<Edge>, n: string)
    requires n !in Targets(edges)
    ensures Sources(edges, n) == []
  {
    if edges != [] {
      assert edges[0] in edges && edges[0].target in Targets(edges);
      assert forall e | e in edges[1..] :: e in edges;
      NoSources(edges[1..], n);
    }
  }
}
