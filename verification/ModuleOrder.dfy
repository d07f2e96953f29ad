// The depth-first walk of tools/gen_single_header.py, which orders modules and collects
// what one of them needs, and the selection blocks made from it.

module ModuleOrders {
  import opened ModuleGraphs

  datatype Outcome = Done | Cyclic(name: string) | Unknown(name: string)

  /** An error names a module on a cycle or a dependency that does not exist. */
  ghost predicate Justified(g: Graph, o: Outcome) {
    match o
    case Done => true
    case Cyclic(name) => Needs(g, name, name)
    case Unknown(name) => name !in g && exists a :: Edge(g, a, name)
  }

  ghost predicate Members(order: seq<string>, names: set<string>) {
    forall a :: a in order <==> a in names
  }

  lemma FewerLeft(names: set<string>, visiting: set<string>, name: string)
    requires name in names && name !in visiting
    ensures |names - (visiting + {name})| < |names - visiting|
  {
    assert names - (visiting + {name}) == names - visiting - {name};
  }

  class Walk {
    const graph: Graph
    var result: seq<string>
    var visiting: set<string>
    var visited: set<string>

    constructor (graph: Graph)
      ensures this.graph == graph && Valid() && result == [] && visiting == {}
    {
      this.graph, result, visiting, visited := graph, [], {}, {};
    }

    /** What is listed so far is in order, without repeats, and is what was visited. */
    ghost predicate Valid()
      reads this
    {
      && DependenciesFirst(graph, result) && NoRepeats(result) && Members(result, visited)
      && visited !! visiting
    }

    /** The modules listed since `before` are `name` or what it needs. */
    ghost predicate Added(before: seq<string>, name: string)
      reads this
    {
      before <= result && forall i :: |before| <= i < |result| ==> result[i] == name || Needs(graph, name, result[i])
    }

    /** Visits a module reached by `path`, its dependencies before itself. */
    method Visit(name: string, ghost path: seq<string>) returns (o: Outcome)
      requires Valid() && IsPath(graph, path + [name])
      requires path == [] ==> name in graph
      requires forall a :: a in visiting ==> a in path
      modifies this
      ensures Justified(graph, o)
      ensures o.Done? ==> Valid() && visiting == old(visiting) && name in visited && Added(old(result), name)
      decreases |graph.Keys - visiting|, 1
    {
      if name in visited { return Done; }
      if name in visiting {
        ClosesCycle(graph, path, name);
        return Cyclic(name);
      }
      if name !in graph {
        assert Edge(graph, (path + [name])[|path| - 1], (path + [name])[|path|]);
        return Unknown(name);
      }
      o := VisitKnown(name, path);
    }

    method VisitKnown(name: string, ghost path: seq<string>) returns (o: Outcome)
      requires Valid() && IsPath(graph, path + [name])
      requires name in graph && name !in visiting && name !in visited
      requires forall a :: a in visiting ==> a in path
      modifies this
      ensures Justified(graph, o)
      ensures o.Done? ==> Valid() && visiting == old(visiting) && name in visited && Added(old(result), name)
      decreases |graph.Keys - visiting|, 0
    {
      FewerLeft(graph.Keys, visiting, name);
      ghost var outer, before := visiting, result;
      visiting := visiting + {name};
      o := VisitAll(name, path);
      if !o.Done? { return; }
      visiting := visiting - {name};
      assert visiting == outer;
      Conclude(name, before);
    }

    /** Lists a module whose dependencies are all listed. */
    method Conclude(name: string, ghost before: seq<string>)
      requires Valid() && name in graph && name !in visited && name !in visiting && Listed(result, graph[name])
      requires NeededSince(before, name)
      modifies `result, `visited
      ensures Valid() && name in visited && Added(before, name)
    {
      AppendKeepsOrder(graph, result, name);
      visited := visited + {name};
      result := result + [name];
    }

    /** Visits the dependencies of `name` in turn. */
    method VisitAll(name: string, ghost path: seq<string>) returns (o: Outcome)
      requires Valid() && IsPath(graph, path + [name]) && name in graph
      requires forall a :: a in visiting ==> a in path + [name]
      modifies this
      ensures Justified(graph, o)
      ensures o.Done? ==> Valid() && visiting == old(visiting) && Listed(result, graph[name])
      ensures o.Done? ==> NeededSince(old(result), name)
      decreases |graph.Keys - visiting|, 2
    {
      var deps := graph[name];
      ghost var before, outer := result, visiting;
      for i := 0 to |deps|
        invariant Valid() && visiting == outer
        invariant Listed(result, deps[..i]) && NeededSince(before, name)
      {
        ghost var sofar := result;
        Extended(path + [name], name, deps[i]);
        o := Visit(deps[i], path + [name]);
        if !o.Done? { return; }
        MoreNeeded(before, sofar, name, deps[i]);
        assert deps[..i + 1] == deps[..i] + [deps[i]];
      }
      assert deps[..|deps|] == deps;
      return Done;
    }

    ghost predicate NeededSince(before: seq<string>, name: string)
      reads this
    {
      before <= result && forall i :: |before| <= i < |result| ==> Needs(graph, name, result[i])
    }

    lemma Extended(path: seq<string>, name: string, d: string)
      requires path != [] && path[|path| - 1] == name && IsPath(graph, path) && Edge(graph, name, d)
      ensures IsPath(graph, path + [d])
    {
    }

    lemma MoreNeeded(before: seq<string>, sofar: seq<string>, name: string, d: string)
      requires before <= sofar && Added(sofar, d) && Edge(graph, name, d)
      requires forall i :: |before| <= i < |sofar| ==> Needs(graph, name, sofar[i])
      ensures NeededSince(before, name)
    {
      NeedsEdge(graph, name, d);
      forall i | |sofar| <= i < |result| ensures Needs(graph, name, result[i]) {
        if result[i] != d { NeedsVia(graph, name, d, result[i]); }
      }
    }
  }

  /** `a` is one of the given modules, or one of them needs it. */
  ghost predicate Reached(g: Graph, given: seq<string>, a: string) {
    a in given || exists m :: m in given && Needs(g, m, a)
  }

  /** The list holds exactly what the given modules reach. */
  ghost predicate HoldsReached(g: Graph, given: seq<string>, order: seq<string>) {
    forall a :: a in order <==> Reached(g, given, a)
  }

  /** For every number of modules in the order they are given, the result begins with exactly
      these and what they need. */
  ghost predicate AsGiven(g: Graph, modules: seq<string>, order: seq<string>) {
    forall i: nat :: i <= |modules| ==> BeginsWith(g, modules[..i], order)
  }

  ghost predicate BeginsWith(g: Graph, given: seq<string>, order: seq<string>) {
    exists first :: first <= order && HoldsReached(g, given, first)
  }

  lemma ReachesNext(g: Graph, modules: seq<string>, i: nat, before: seq<string>, order: seq<string>)
    requires i < |modules| && HoldsReached(g, modules[..i], before) && before <= order
    requires DependenciesFirst(g, order) && modules[i] in order
    requires forall k :: |before| <= k < |order| ==> order[k] == modules[i] || Needs(g, modules[i], order[k])
    ensures HoldsReached(g, modules[..i + 1], order)
  {
    var m := modules[i];
    assert modules[..i + 1] == modules[..i] + [m];
    forall a | a in order ensures Reached(g, modules[..i + 1], a) {
      var k :| 0 <= k < |order| && order[k] == a;
      if k < |before| { assert Reached(g, modules[..i], before[k]); }
    }
    forall a | Reached(g, modules[..i + 1], a) ensures a in order {
      if !Reached(g, modules[..i], a) && a != m { NeededIsListed(g, order, m, a); }
    }
  }

  lemma NeededIsListed(g: Graph, order: seq<string>, m: string, a: string)
    requires DependenciesFirst(g, order) && m in order && Needs(g, m, a)
    ensures a in order
  {
    var p :| PathFrom(g, p, m, a);
    var i :| 0 <= i < |order| && order[i] == m;
    NeededComesBefore(g, order, i, p, a);
  }

  /** Beginnings of what was listed so far remain beginnings. */
  lemma StaysAsGiven(g: Graph, modules: seq<string>, i: nat, before: seq<string>, order: seq<string>)
    requires i < |modules| && before <= order && AsGiven(g, modules[..i], before)
    requires HoldsReached(g, modules[..i + 1], order)
    ensures AsGiven(g, modules[..i + 1], order)
  {
    var given := modules[..i + 1];
    forall j: nat | j <= |given| ensures BeginsWith(g, given[..j], order) {
      if j <= i {
        assert modules[..i][..j] == given[..j];
        assert BeginsWith(g, modules[..i][..j], before);
      } else {
        assert given[..j] == given;
      }
    }
  }

  /** order_modules: succeeds exactly when no name is unknown and no module needs itself,
      and then lists every module once, its dependencies before it, and otherwise in the
      order they are given. */
  method OrderModules(modules: seq<string>, graph: Graph) returns (o: Outcome, order: seq<string>)
    requires forall a :: a in modules <==> a in graph
    ensures o.Done? <==> Acyclic(graph) && AllKnown(graph)
    ensures o.Done? ==> DependenciesFirst(graph, order) && NoRepeats(order) && forall a :: a in order <==> a in graph
    ensures o.Done? ==> AsGiven(graph, modules, order)
    ensures Justified(graph, o)
  {
    var walk := new Walk(graph);
    order := [];
    assert HoldsReached(graph, modules[..0], walk.result);
    for i := 0 to |modules|
      invariant walk.Valid() && walk.graph == graph && walk.visiting == {}
      invariant forall a :: a in modules[..i] ==> a in walk.visited
      invariant HoldsReached(graph, modules[..i], walk.result) && AsGiven(graph, modules[..i], walk.result)
    {
      ghost var before := walk.result;
      assert modules[i] in modules;
      o := walk.Visit(modules[i], []);
      if !o.Done? {
        FailureIsReal(graph, o);
        return;
      }
      ReachesNext(graph, modules, i, before, walk.result);
      StaysAsGiven(graph, modules, i, before, walk.result);
      assert modules[..i + 1] == modules[..i] + [modules[i]];
    }
    assert modules[..|modules|] == modules;
    o, order := Done, walk.result;
    OrderedIsAcyclic(graph, order);
  }

  lemma FailureIsReal(g: Graph, o: Outcome)
    requires Justified(g, o) && !o.Done?
    ensures !(Acyclic(g) && AllKnown(g))
  {
  }

  /** module_dependency_macros, by module names: exactly what the module needs, directly or
      through others, each once and dependencies first. */
  method DependenciesOf(name: string, graph: Graph) returns (o: Outcome, needed: seq<string>)
    requires name in graph
    ensures Justified(graph, o)
    ensures o.Done? ==> DependenciesFirst(graph, needed) && NoRepeats(needed)
    ensures o.Done? ==> forall a :: a in needed <==> Needs(graph, name, a)
  {
    var walk := new Walk(graph);
    o := walk.VisitAll(name, []);
    needed := walk.result;
    if o.Done? { CollectsAll(graph, name, needed); }
  }

  /** A list with dependencies first that has the direct dependencies has all. */
  lemma CollectsAll(g: Graph, name: string, needed: seq<string>)
    requires name in g && DependenciesFirst(g, needed) && Listed(needed, g[name])
    ensures forall a :: Needs(g, name, a) ==> a in needed
  {
    forall a | Needs(g, name, a) ensures a in needed {
      var p :| PathFrom(g, p, name, a);
      assert Edge(g, p[0], p[1]);
      var i :| 0 <= i < |needed| && needed[i] == p[1];
      if |p| > 2 {
        TailIsPath(g, p, name, a);
        NeededComesBefore(g, needed, i, p[1..], a);
      }
    }
  }

  // ---------- The selection blocks ----------

  /** `#ifdef guard`, the definitions, `#endif`. Modules stand for their macros. */
  datatype Selection = Selection(guard: string, defines: seq<string>)

  ghost function Elements(s: seq<string>): set<string> {
    set a | a in s
  }

  /** What is defined after the preprocessor has read the blocks once, in order. */
  ghost function Enabled(blocks: seq<Selection>, defined: set<string>): set<string> {
    if blocks == [] then defined
    else
      var before := Enabled(blocks[..|blocks| - 1], defined);
      var last := blocks[|blocks| - 1];
      if last.guard in before then before + Elements(last.defines) else before
  }

  ghost predicate Closed(g: Graph, enabled: set<string>) {
    forall a, b :: a in enabled && Edge(g, a, b) ==> b in enabled
  }

  /** One block for every module that needs others; a module without dependencies has none. */
  ghost predicate BlocksFor(g: Graph, blocks: seq<Selection>) {
    && (forall i :: 0 <= i < |blocks| ==> Exact(g, blocks[i]))
    && (forall a :: a in g && g[a] != [] ==> exists i :: 0 <= i < |blocks| && blocks[i].guard == a)
  }

  ghost predicate Exact(g: Graph, b: Selection) {
    forall a :: a in b.defines <==> Needs(g, b.guard, a)
  }

  /** The last part of emit_module_selection, for modules that could be ordered. */
  method EmitSelection(modules: seq<string>, graph: Graph) returns (blocks: seq<Selection>)
    requires (forall a :: a in modules <==> a in graph) && Acyclic(graph) && AllKnown(graph)
    ensures BlocksFor(graph, blocks)
    ensures Guards(blocks) == Dependent(graph, modules)
    ensures forall k :: 0 <= k < |blocks| ==>
              NoRepeats(blocks[k].defines) && DependenciesFirst(graph, blocks[k].defines)
  {
    blocks := [];
    for i := 0 to |modules|
      invariant forall k :: 0 <= k < |blocks| ==> Exact(graph, blocks[k])
      invariant forall k :: 0 <= k < |blocks| ==>
                  NoRepeats(blocks[k].defines) && DependenciesFirst(graph, blocks[k].defines)
      invariant Guards(blocks) == Dependent(graph, modules[..i])
      invariant forall j :: 0 <= j < i && graph[modules[j]] != [] ==> Covered(blocks, modules[j])
    {
      assert modules[i] in modules;
      var o, needed := DependenciesOf(modules[i], graph);
      if !o.Done? { FailureIsReal(graph, o); }
      ghost var before := blocks;
      if needed != [] { blocks := blocks + [Selection(modules[i], needed)]; }
      CoverGrows(graph, modules, before, blocks, i, needed);
      GuardsGrow(graph, modules, before, blocks, i, needed);
    }
    assert modules[..|modules|] == modules;
    forall a | a in graph && graph[a] != [] ensures exists i :: 0 <= i < |blocks| && blocks[i].guard == a {
      var j :| 0 <= j < |modules| && modules[j] == a;
      assert Covered(blocks, modules[j]);
    }
  }

  /** The modules that need others, in the order given. */
  function Dependent(g: Graph, modules: seq<string>): seq<string>
    requires forall a :: a in modules ==> a in g
  {
    if modules == [] then []
    else
      var init, last := modules[..|modules| - 1], modules[|modules| - 1];
      Dependent(g, init) + if g[last] != [] then [last] else []
  }

  function Guards(blocks: seq<Selection>): (guards: seq<string>)
    ensures |guards| == |blocks| && forall i :: 0 <= i < |blocks| ==> guards[i] == blocks[i].guard
  {
    seq(|blocks|, i requires 0 <= i < |blocks| => blocks[i].guard)
  }

  ghost predicate Covered(blocks: seq<Selection>, name: string) {
    exists i :: 0 <= i < |blocks| && blocks[i].guard == name
  }

  lemma CoverGrows(g: Graph, modules: seq<string>, before: seq<Selection>, blocks: seq<Selection>, i: nat,
      needed: seq<string>)
    requires i < |modules| && forall a :: a in modules ==> a in g
    requires blocks == if needed != [] then before + [Selection(modules[i], needed)] else before
    requires forall a :: a in needed <==> Needs(g, modules[i], a)
    requires forall j :: 0 <= j < i && g[modules[j]] != [] ==> Covered(before, modules[j])
    ensures forall j :: 0 <= j <= i && g[modules[j]] != [] ==> Covered(blocks, modules[j])
  {
    forall j | 0 <= j <= i && g[modules[j]] != [] ensures Covered(blocks, modules[j]) {
      if j < i {
        var k :| 0 <= k < |before| && before[k].guard == modules[j];
        assert blocks[k].guard == modules[j];
      } else {
        var d := g[modules[i]][0];
        NeedsEdge(g, modules[i], d);
        assert blocks[|before|].guard == modules[i];
      }
    }
  }

  lemma GuardsGrow(g: Graph, modules: seq<string>, before: seq<Selection>, blocks: seq<Selection>, i: nat,
      needed: seq<string>)
    requires i < |modules| && forall a :: a in modules ==> a in g
    requires blocks == if needed != [] then before + [Selection(modules[i], needed)] else before
    requires forall a :: a in needed <==> Needs(g, modules[i], a)
    requires Guards(before) == Dependent(g, modules[..i])
    ensures Guards(blocks) == Dependent(g, modules[..i + 1])
  {
    var m := modules[i];
    assert modules[..i + 1][..i] == modules[..i] && modules[..i + 1][i] == m;
    if g[m] != [] { NeedsEdge(g, m, g[m][0]); }
    if needed != [] {
      assert needed[0] in needed;
      NeedsDirectly(g, m, needed[0]);
    }
  }

  lemma NeedsDirectly(g: Graph, a: string, b: string)
    requires Needs(g, a, b)
    ensures a in g && g[a] != []
  {
    var p :| PathFrom(g, p, a, b);
    assert Edge(g, p[0], p[1]);
  }

  /** `x` was selected, or something selected needs it. */
  ghost predicate Wanted(g: Graph, selected: set<string>, x: string) {
    x in selected || exists e :: e in selected && Needs(g, e, x)
  }

  lemma {:induction false} EnabledAreWanted(g: Graph, blocks: seq<Selection>, selected: set<string>, x: string)
    requires (forall i :: 0 <= i < |blocks| ==> Exact(g, blocks[i])) && x in Enabled(blocks, selected)
    ensures Wanted(g, selected, x)
    decreases |blocks|
  {
    if blocks != [] {
      var init, last := blocks[..|blocks| - 1], blocks[|blocks| - 1];
      if x in Enabled(init, selected) {
        EnabledAreWanted(g, init, selected, x);
      } else {
        assert Exact(g, last);
        EnabledAreWanted(g, init, selected, last.guard);
        if last.guard !in selected {
          var e :| e in selected && Needs(g, e, last.guard);
          var p :| PathFrom(g, p, e, last.guard);
          NeedsTrans(g, e, last.guard, x, p);
        }
      }
    }
  }

  lemma {:induction false} EnabledGrows(blocks: seq<Selection>, selected: set<string>, i: nat)
    requires i <= |blocks|
    ensures selected <= Enabled(blocks[..i], selected) <= Enabled(blocks, selected)
    decreases |blocks|
  {
    if i == |blocks| {
      assert blocks[..i] == blocks;
      if i > 0 { EnabledGrows(blocks[..i - 1], selected, 0); }
    } else {
      EnabledGrows(blocks[..|blocks| - 1], selected, i);
      assert blocks[..|blocks| - 1][..i] == blocks[..i];
    }
  }

  /** What one pass over the blocks enables is exactly what is wanted, whatever the order
      of the blocks. */
  lemma {:induction false} OnePassSuffices(g: Graph, blocks: seq<Selection>, selected: set<string>, x: string)
    requires BlocksFor(g, blocks)
    ensures x in Enabled(blocks, selected) <==> Wanted(g, selected, x)
  {
    EnabledGrows(blocks, selected, 0);
    if x in Enabled(blocks, selected) { EnabledAreWanted(g, blocks, selected, x); }
    if Wanted(g, selected, x) && x !in selected {
      var e :| e in selected && Needs(g, e, x);
      var p :| PathFrom(g, p, e, x);
      assert Edge(g, p[0], p[1]);
      var i :| 0 <= i < |blocks| && blocks[i].guard == e;
      assert Exact(g, blocks[i]);
      EnabledGrows(blocks, selected, i);
      EnabledGrows(blocks, selected, i + 1);
      assert blocks[..i + 1][..i] == blocks[..i];
    }
  }

  lemma {:induction false} ClosedHasNeeded(g: Graph, closed: set<string>, a: string, b: string, p: seq<string>)
    requires Closed(g, closed) && a in closed && PathFrom(g, p, a, b)
    ensures b in closed
    decreases |p|
  {
    assert Edge(g, p[0], p[1]);
    if |p| > 2 {
      TailIsPath(g, p, a, b);
      ClosedHasNeeded(g, closed, p[1], b, p[1..]);
    }
  }

  /** One pass gives the least set that contains the selection and every dependency of its
      members. */
  lemma {:induction false} OnePassIsLeastClosed(g: Graph, blocks: seq<Selection>, selected: set<string>,
      closed: set<string>)
    requires BlocksFor(g, blocks)
    ensures selected <= Enabled(blocks, selected) && Closed(g, Enabled(blocks, selected))
    ensures selected <= closed && Closed(g, closed) ==> Enabled(blocks, selected) <= closed
  {
    EnabledGrows(blocks, selected, 0);
    forall a, b | a in Enabled(blocks, selected) && Edge(g, a, b) ensures b in Enabled(blocks, selected) {
      OnePassSuffices(g, blocks, selected, a);
      OnePassSuffices(g, blocks, selected, b);
      NeedsEdge(g, a, b);
      if a !in selected {
        var e :| e in selected && Needs(g, e, a);
        var p :| PathFrom(g, p, e, a);
        NeedsTrans(g, e, a, b, p);
      }
    }
    if selected <= closed && Closed(g, closed) {
      forall x | x in Enabled(blocks, selected) ensures x in closed {
        OnePassSuffices(g, blocks, selected, x);
        if x !in selected {
          var e :| e in selected && Needs(g, e, x);
          var p :| PathFrom(g, p, e, x);
          ClosedHasNeeded(g, closed, e, x, p);
        }
      }
    }
  }
}
