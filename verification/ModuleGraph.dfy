// Modules that depend on each other by name, as in tools/gen_single_header.py: paths,
// cycles, and orders with dependencies first.

module ModuleGraphs {

  /** The dependencies of every known module. */
  type Graph = map<string, seq<string>>

  ghost predicate Edge(g: Graph, a: string, b: string) {
    a in g && b in g[a]
  }

  ghost predicate IsPath(g: Graph, p: seq<string>) {
    forall i :: 0 <= i < |p| - 1 ==> Edge(g, p[i], p[i + 1])
  }

  ghost predicate PathFrom(g: Graph, p: seq<string>, a: string, b: string) {
    |p| >= 2 && p[0] == a && p[|p| - 1] == b && IsPath(g, p)
  }

  /** `a` depends on `b`, directly or through others. */
  ghost predicate Needs(g: Graph, a: string, b: string) {
    exists p :: PathFrom(g, p, a, b)
  }

  ghost predicate Acyclic(g: Graph) {
    forall a :: !Needs(g, a, a)
  }

  ghost predicate AllKnown(g: Graph) {
    forall a, b :: Edge(g, a, b) ==> b in g
  }

  predicate Listed(order: seq<string>, deps: seq<string>) {
    forall d :: d in deps ==> d in order
  }

  ghost predicate NoRepeats(order: seq<string>) {
    forall i, j :: 0 <= i < j < |order| ==> order[i] != order[j]
  }

  /** Every listed module comes after all its dependencies. */
  ghost predicate DependenciesFirst(g: Graph, order: seq<string>) {
    forall i :: 0 <= i < |order| ==> order[i] in g && Listed(order[..i], g[order[i]])
  }

  lemma NeedsEdge(g: Graph, a: string, b: string)
    requires Edge(g, a, b)
    ensures Needs(g, a, b)
  {
    assert PathFrom(g, [a, b], a, b);
  }

  lemma NeedsVia(g: Graph, a: string, b: string, c: string)
    requires Edge(g, a, b) && Needs(g, b, c)
    ensures Needs(g, a, c)
  {
    var p :| PathFrom(g, p, b, c);
    var q := [a] + p;
    forall i | 0 <= i < |q| - 1 ensures Edge(g, q[i], q[i + 1]) {
      if i > 0 { assert Edge(g, p[i - 1], p[i]); }
    }
    assert PathFrom(g, q, a, c);
  }

  lemma {:induction false} NeedsTrans(g: Graph, a: string, b: string, c: string, p: seq<string>)
    requires PathFrom(g, p, a, b) && Needs(g, b, c)
    ensures Needs(g, a, c)
    decreases |p|
  {
    assert Edge(g, p[0], p[1]);
    if |p| == 2 {
      NeedsVia(g, a, b, c);
    } else {
      TailIsPath(g, p, a, b);
      NeedsTrans(g, p[1], b, c, p[1..]);
      NeedsVia(g, a, p[1], c);
    }
  }

  lemma TailIsPath(g: Graph, p: seq<string>, a: string, b: string)
    requires PathFrom(g, p, a, b) && |p| > 2
    ensures PathFrom(g, p[1..], p[1], b)
  {
  }

  /** What is listed with dependencies first contains everything its members need, and
      what a member needs comes before it. */
  lemma {:induction false} NeededComesBefore(g: Graph, order: seq<string>, i: nat, p: seq<string>, b: string)
    requires DependenciesFirst(g, order) && i < |order| && PathFrom(g, p, order[i], b)
    ensures b in order[..i]
    decreases |p|
  {
    assert Edge(g, p[0], p[1]);
    var j :| 0 <= j < i && order[j] == p[1];
    if |p| > 2 {
      TailIsPath(g, p, order[i], b);
      NeededComesBefore(g, order, j, p[1..], b);
      assert order[..j] <= order[..i];
    }
  }

  /** A complete order exists only for an acyclic graph without unknown names. */
  lemma {:induction false} OrderedIsAcyclic(g: Graph, order: seq<string>)
    requires DependenciesFirst(g, order) && NoRepeats(order) && forall a :: a in g ==> a in order
    ensures Acyclic(g) && AllKnown(g)
  {
    forall a ensures !Needs(g, a, a) {
      if Needs(g, a, a) {
        var p :| PathFrom(g, p, a, a);
        assert Edge(g, p[0], p[1]);
        var i :| 0 <= i < |order| && order[i] == a;
        NeededComesBefore(g, order, i, p, a);
      }
    }
    forall a, b | Edge(g, a, b) ensures b in g {
      var i :| 0 <= i < |order| && order[i] == a;
      var j :| 0 <= j < i && order[j] == b;
    }
  }

  /** A dependency that is already on the path from the start closes a cycle. */
  lemma {:induction false} ClosesCycle(g: Graph, path: seq<string>, name: string)
    requires IsPath(g, path + [name]) && name in path
    ensures Needs(g, name, name)
  {
    var i :| 0 <= i < |path| && path[i] == name;
    var p := path[i..] + [name];
    forall k | 0 <= k < |p| - 1 ensures Edge(g, p[k], p[k + 1]) {
      assert Edge(g, (path + [name])[i + k], (path + [name])[i + k + 1]);
    }
    assert PathFrom(g, p, name, name);
  }

  lemma AppendKeepsOrder(g: Graph, order: seq<string>, name: string)
    requires DependenciesFirst(g, order) && name in g && Listed(order, g[name])
    ensures DependenciesFirst(g, order + [name])
  {
    var longer := order + [name];
    forall i | 0 <= i < |longer| ensures longer[i] in g && Listed(longer[..i], g[longer[i]]) {
      if i < |order| { assert longer[..i] == order[..i]; } else { assert longer[..i] == order; }
    }
  }
}
