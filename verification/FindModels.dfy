/**
 The models a migration touches: every mapped table that can be reached from the
 tables it names along foreign keys, in an order in which a table comes after the
 tables it refers to.
 */
module FindModels {
  import opened Sequences
  import opened Wrappers
  import opened TopologicalSort
  import StableSort

  type Table = string

  /** The mapped tables, each with the tables its foreign keys refer to, column by column. */
  type Schema = map<Table, seq<Table>>

  // ---------------------------------------------------------------------------
  // The tables a migration names

  /** What `find_models` can see of an object of the migration module. */
  datatype PyValue = WithTable(name: Table) | PyList(items: seq<PyValue>) | PyDict(values: seq<PyValue>) | Plain

  function Size(vs: seq<PyValue>): nat
    decreases vs, 0
  {
    if vs == [] then 0 else Size(vs[..|vs| - 1]) + SizeOne(vs[|vs| - 1])
  }

  function SizeOne(v: PyValue): nat
    decreases v, 1
  {
    match v
    case PyList(items) => 1 + Size(items)
    case PyDict(values) => 1 + Size(values)
    case _ => 1
  }

  /** The table names in a value, however deeply nested. */
  ghost predicate Names(v: PyValue, t: Table)
  {
    match v
    case WithTable(name) => t == name
    case PyList(items) => exists i :: 0 <= i < |items| && Names(items[i], t)
    case PyDict(values) => exists i :: 0 <= i < |values| && Names(values[i], t)
    case Plain => false
  }

  ghost predicate NamesAny(vs: seq<PyValue>, t: Table) {
    exists i :: 0 <= i < |vs| && Names(vs[i], t)
  }

  lemma {:induction false} SizeAppend(vs: seq<PyValue>, ws: seq<PyValue>)
    ensures Size(vs + ws) == Size(vs) + Size(ws)
  {
    if ws == [] {
      assert vs + ws == vs;
    } else {
      var n := |ws| - 1;
      SizeAppend(vs, ws[..n]);
      assert (vs + ws)[..|vs| + n] == vs + ws[..n];
    }
  }

  lemma NamesAppend(vs: seq<PyValue>, ws: seq<PyValue>, t: Table)
    ensures NamesAny(vs + ws, t) <==> NamesAny(vs, t) || NamesAny(ws, t)
  {
    if NamesAny(vs, t) {
      var i :| 0 <= i < |vs| && Names(vs[i], t);
      assert Names((vs + ws)[i], t);
    }
    if NamesAny(ws, t) {
      var i :| 0 <= i < |ws| && Names(ws[i], t);
      assert Names((vs + ws)[|vs| + i], t);
    }
  }

  lemma NamesLast(vs: seq<PyValue>, t: Table)
    requires vs != []
    ensures NamesAny(vs, t) <==> NamesAny(vs[..|vs| - 1], t) || Names(vs[|vs| - 1], t)
  {
  }

  /** The first loop: it takes the queue apart from its end and adds every table name to `tables`. */
  method AddNamedTables(values: seq<PyValue>, modified: set<Table>) returns (tables: set<Table>)
    ensures forall t :: t in tables <==> t in modified || NamesAny(values, t)
  {
    var queue := values;
    tables := modified;
    while queue != []
      invariant forall t :: t in modified || NamesAny(values, t) <==> t in tables || NamesAny(queue, t)
      decreases Size(queue)
    {
      var obj, rest := queue[|queue| - 1], queue[..|queue| - 1];
      ghost var before, had := queue, tables;
      assert Size(before) == Size(rest) + SizeOne(obj);
      match obj {
        case WithTable(name) => queue, tables := rest, tables + {name};
        case PyList(items) => queue := rest + items; SizeAppend(rest, items);
        case PyDict(vs) => queue := rest + vs; SizeAppend(rest, vs);
        case Plain => queue := rest;
      }
      forall t
        ensures t in had || NamesAny(before, t) <==> t in tables || NamesAny(queue, t)
      {
        NamesLast(before, t);
        if obj.PyList? { NamesAppend(rest, obj.items, t); }
        if obj.PyDict? { NamesAppend(rest, obj.values, t); }
      }
    }
  }

  // ---------------------------------------------------------------------------
  // Following foreign keys

  /** A chain of foreign keys from a root; every table but the last must be mapped to have any. */
  ghost predicate IsChain(schema: Schema, roots: set<Table>, chain: seq<Table>) {
    && chain != [] && chain[0] in roots
    && forall i :: 0 < i < |chain| ==> Refers(schema, chain[i - 1], chain[i])
  }

  predicate Refers(schema: Schema, t: Table, u: Table) {
    t in schema && u in schema[t]
  }

  ghost predicate Reachable(schema: Schema, roots: set<Table>, t: Table) {
    exists chain :: IsChain(schema, roots, chain) && chain[|chain| - 1] == t
  }

  lemma RootReachable(schema: Schema, roots: set<Table>, t: Table)
    requires t in roots
    ensures Reachable(schema, roots, t)
  {
    assert IsChain(schema, roots, [t]) && [t][0] == t;
  }

  lemma ReferredReachable(schema: Schema, roots: set<Table>, t: Table, u: Table)
    requires Reachable(schema, roots, t) && Refers(schema, t, u)
    ensures Reachable(schema, roots, u)
  {
    var chain :| IsChain(schema, roots, chain) && chain[|chain| - 1] == t;
    var longer := chain + [u];
    forall i | 0 < i < |longer|
      ensures Refers(schema, longer[i - 1], longer[i])
    {
      assert i < |chain| ==> Refers(schema, chain[i - 1], chain[i]);
    }
    assert IsChain(schema, roots, longer) && longer[|longer| - 1] == u;
  }

  /** A set that holds the roots and is closed under foreign keys holds everything reachable. */
  lemma {:induction false} ReachableWithin(schema: Schema, roots: set<Table>, chain: seq<Table>, s: set<Table>)
    requires IsChain(schema, roots, chain) && roots <= s
    requires forall t, u {:trigger Refers(schema, t, u)} :: t in s && Refers(schema, t, u) ==> u in s
    ensures chain[|chain| - 1] in s
  {
    var n := |chain| - 1;
    if n > 0 {
      var shorter := chain[..n];
      forall i | 0 < i < n
        ensures Refers(schema, shorter[i - 1], shorter[i])
      {
        assert Refers(schema, chain[i - 1], chain[i]);
      }
      ReachableWithin(schema, roots, shorter, s);
      assert Refers(schema, chain[n - 1], chain[n]);
    }
  }

  /** The worklist: tables still to look at and tables already seen. */
  ghost predicate Exploring(schema: Schema, roots: set<Table>, tables: set<Table>, seen: set<Table>) {
    && tables * seen == {}
    && roots <= tables + seen
    && (forall t {:trigger Reachable(schema, roots, t)} :: t in tables || t in seen ==> Reachable(schema, roots, t))
    && (forall t, u {:trigger Refers(schema, t, u)} :: t in seen && Refers(schema, t, u) ==> u in tables || u in seen)
  }

  lemma ExploredIsReachable(schema: Schema, roots: set<Table>, seen: set<Table>)
    requires Exploring(schema, roots, {}, seen)
    ensures forall t :: t in seen <==> Reachable(schema, roots, t)
  {
    forall t | Reachable(schema, roots, t)
      ensures t in seen
    {
      var chain :| IsChain(schema, roots, chain) && chain[|chain| - 1] == t;
      ReachableWithin(schema, roots, chain, seen);
    }
  }

  /** Every table that can ever be looked at. */
  function Universe(schema: Schema, roots: set<Table>): set<Table> {
    roots + set t, u | t in schema && u in schema[t] :: u
  }

  lemma ReachableInUniverse(schema: Schema, roots: set<Table>, t: Table)
    requires Reachable(schema, roots, t)
    ensures t in Universe(schema, roots)
  {
    var chain :| IsChain(schema, roots, chain) && chain[|chain| - 1] == t;
    if |chain| > 1 {
      assert Refers(schema, chain[|chain| - 2], chain[|chain| - 1]);
    }
  }

  /** The inner loops: the foreign keys of one model. */
  method AddReferred(referred: seq<Table>, seen: set<Table>, tables: set<Table>) returns (tables': set<Table>)
    ensures forall u :: u in tables' <==> u in tables || (u in referred && u !in seen)
  {
    tables' := tables;
    for i := 0 to |referred|
      invariant forall u :: u in tables' <==> u in tables || (u in referred[..i] && u !in seen)
    {
      assert referred[..i + 1] == referred[..i] + [referred[i]];
      if referred[i] !in seen {
        tables' := tables' + {referred[i]};
      }
    }
    assert referred[..|referred|] == referred;
  }

  lemma ExploringStep(schema: Schema, roots: set<Table>, tables: set<Table>, seen: set<Table>, t: Table,
                      tables': set<Table>)
    requires Exploring(schema, roots, tables, seen) && t in tables
    requires forall u :: u in tables' <==> u in tables - {t} || (Refers(schema, t, u) && u !in seen + {t})
    ensures Exploring(schema, roots, tables', seen + {t})
  {
    forall u | u in tables'
      ensures Reachable(schema, roots, u)
    {
      if u !in tables {
        ReferredReachable(schema, roots, t, u);
      }
    }
  }

  /** The mapped tables among those seen, each once. */
  ghost predicate Collected(schema: Schema, seen: set<Table>, models: seq<Table>) {
    && NoDuplicates(models)
    && forall t {:trigger t in models} :: t in models <==> t in schema && t in seen
  }

  lemma CollectedStep(schema: Schema, seen: set<Table>, models: seq<Table>, t: Table)
    requires Collected(schema, seen, models) && t !in seen
    ensures Collected(schema, seen + {t}, if t in schema then models + [t] else models)
  {
    assert t !in models;
    var models' := if t in schema then models + [t] else models;
    forall u
      ensures u in models' <==> u in schema && u in seen + {t}
    {
      assert t in schema ==> (u in models' <==> u in models || u == t);
    }
  }

  /** The second loop: it ends on every schema, cycles included, and collects each reachable mapped
      table once. */
  method CollectModels(schema: Schema, roots: set<Table>) returns (models: seq<Table>)
    ensures NoDuplicates(models)
    ensures forall t :: t in models <==> t in schema && Reachable(schema, roots, t)
  {
    var tables, seen := roots, {};
    models := [];
    forall t | t in roots
      ensures Reachable(schema, roots, t)
    {
      RootReachable(schema, roots, t);
    }
    while tables != {}
      invariant Exploring(schema, roots, tables, seen)
      invariant Collected(schema, seen, models)
      decreases Universe(schema, roots) - seen
    {
      var table :| table in tables;
      ReachableInUniverse(schema, roots, table);
      CollectedStep(schema, seen, models, table);
      ghost var before := tables;
      tables := tables - {table};
      if table in schema {
        tables := AddReferred(schema[table], seen + {table}, tables);
        models := models + [table];
      }
      ExploringStep(schema, roots, before, seen, table, tables);
      seen := seen + {table};
    }
    ExploredIsReachable(schema, roots, seen);
  }

  // ---------------------------------------------------------------------------
  // Putting the models in order

  /** `TopologicalSorter.add`: the node's predecessors are appended, and become nodes themselves. */
  method AddNode(g: Graph, node: Node, preds: seq<Node>) returns (g': Graph)
    ensures forall n :: n in g' <==> n in g || n == node || n in preds
    ensures node in g' && g'[node] == (if node in g then g[node] else []) + preds
    ensures forall n :: n in g' && n != node ==> g'[n] == if n in g then g[n] else []
  {
    g' := g[node := (if node in g then g[node] else []) + preds];
    for i := 0 to |preds|
      invariant forall n :: n in g' <==> n in g || n == node || n in preds[..i]
      invariant node in g' && g'[node] == (if node in g then g[node] else []) + preds
      invariant forall n :: n in g' && n != node ==> g'[n] == if n in g then g[n] else []
    {
      assert preds[..i + 1] == preds[..i] + [preds[i]];
      if preds[i] !in g' {
        g' := g'[preds[i] := []];
      }
    }
    assert preds[..|preds|] == preds;
  }

  /** The foreign keys of a model that lead to another table. */
  method DependentTables(referred: seq<Table>, table: Table) returns (dependent: seq<Table>)
    ensures forall p :: p in dependent <==> p in referred && p != table
  {
    dependent := [];
    for i := 0 to |referred|
      invariant forall p :: p in dependent <==> p in referred[..i] && p != table
    {
      assert referred[..i + 1] == referred[..i] + [referred[i]];
      if referred[i] != table {
        dependent := dependent + [referred[i]];
      }
    }
    assert referred[..|referred|] == referred;
  }

  predicate DependsOn(schema: Schema, t: Table, p: Table) {
    Refers(schema, t, p) && p != t
  }

  /** The graph the sorter is given: the dependencies of `models`, and no others. */
  ghost predicate IsDependencyGraph(schema: Schema, models: seq<Table>, g: Graph) {
    && Closed(g)
    && (forall m :: m in models ==> m in g)
    && (forall n, p {:trigger DependsOn(schema, n, p)} {:trigger p in g[n]} :: n in g ==>
          (p in g[n] <==> n in models && DependsOn(schema, n, p)))
  }

  method Dependencies(schema: Schema, models: seq<Table>) returns (g: Graph)
    requires NoDuplicates(models) && forall m :: m in models ==> m in schema
    ensures IsDependencyGraph(schema, models, g)
  {
    g := map[];
    for i := 0 to |models|
      invariant IsDependencyGraph(schema, models[..i], g)
    {
      var table := models[i];
      assert models[..i + 1] == models[..i] + [table];
      assert table !in models[..i];
      var dependent := DependentTables(schema[table], table);
      ghost var before := g;
      g := AddNode(g, table, dependent);
      DependenciesStep(schema, models[..i], before, table, dependent, g);
    }
    assert models[..|models|] == models;
  }

  lemma DependenciesStep(schema: Schema, models: seq<Table>, g: Graph, t: Table, dependent: seq<Table>, g': Graph)
    requires IsDependencyGraph(schema, models, g) && t !in models && t in schema
    requires forall p :: p in dependent <==> DependsOn(schema, t, p)
    requires forall n :: n in g' <==> n in g || n == t || n in dependent
    requires t in g' && g'[t] == (if t in g then g[t] else []) + dependent
    requires forall n :: n in g' && n != t ==> g'[n] == if n in g then g[n] else []
    ensures IsDependencyGraph(schema, models + [t], g')
  {
    forall n, p | n in g'
      ensures p in g'[n] <==> n in models + [t] && DependsOn(schema, n, p)
    {
      assert n in models + [t] <==> n in models || n == t;
      assert n in g ==> (p in g[n] <==> n in models && DependsOn(schema, n, p));
    }
    forall n, p | n in g' && p in g'[n]
      ensures p in g'
    {
      assert n in g ==> (p in g[n] <==> n in models && DependsOn(schema, n, p));
    }
  }

  /** Tables to be created that wait for one another in a circle; a table may refer to itself. */
  ghost predicate IsReferenceCycle(schema: Schema, roots: set<Table>, c: seq<Table>) {
    && |c| > 1 && c[0] == c[|c| - 1]
    && (forall i :: 0 <= i < |c| ==> c[i] in schema && Reachable(schema, roots, c[i]))
    && (forall i {:trigger schema[c[i]]} :: 0 < i < |c| ==> DependsOn(schema, c[i], c[i - 1]))
  }

  ghost predicate Orderable(schema: Schema, roots: set<Table>) {
    forall c :: !IsReferenceCycle(schema, roots, c)
  }

  /** A circle: two tables that refer to each other. */
  lemma TwoTablesInACircle()
    ensures !Orderable(map["a" := ["b"], "b" := ["a"]], {"a"})
  {
    var schema: Schema, roots := map["a" := ["b"], "b" := ["a"]], {"a"};
    var a, b := "a", "b";
    assert schema[a][0] == b && schema[b][0] == a;
    RootReachable(schema, roots, a);
    ReferredReachable(schema, roots, a, b);
    var circle := [a, b, a];
    forall i | 0 < i < |circle|
      ensures DependsOn(schema, circle[i], circle[i - 1])
    {
    }
    assert IsReferenceCycle(schema, roots, circle);
  }

  /** No circle: a table that refers to itself alone. */
  lemma SelfReferenceIsNoCircle()
    ensures Orderable(map["a" := ["a"]], {"a"})
  {
    var schema: Schema, roots := map["a" := ["a"]], {"a"};
    forall c
      ensures !IsReferenceCycle(schema, roots, c)
    {
      if |c| > 1 && c[1] in schema {
        assert schema[c[1]] == ["a"] && !DependsOn(schema, c[1], c[0]);
      }
    }
  }

  lemma CycleInGraph(schema: Schema, roots: set<Table>, models: seq<Table>, g: Graph, c: seq<Table>)
    requires IsDependencyGraph(schema, models, g)
    requires forall t :: t in models <==> t in schema && Reachable(schema, roots, t)
    ensures IsCycle(g, c) <==> IsReferenceCycle(schema, roots, c)
  {
    if IsCycle(g, c) {
      forall i | 0 < i < |c|
        ensures DependsOn(schema, c[i], c[i - 1]) && c[i] in models
      {
        assert c[i - 1] in g[c[i]];
      }
      assert c[|c| - 1] in models;
    }
    if IsReferenceCycle(schema, roots, c) {
      forall i | 0 <= i < |c|
        ensures c[i] in g && (i > 0 ==> c[i - 1] in g[c[i]])
      {
        assert c[i] in models;
        assert i > 0 ==> schema[c[i]] == schema[c[i]] && DependsOn(schema, c[i], c[i - 1]);
      }
    }
  }

  lemma OrderableIffAcyclic(schema: Schema, roots: set<Table>, models: seq<Table>, g: Graph)
    requires IsDependencyGraph(schema, models, g)
    requires forall t :: t in models <==> t in schema && Reachable(schema, roots, t)
    ensures Orderable(schema, roots) <==> Acyclic(g)
  {
    forall c
      ensures IsCycle(g, c) <==> IsReferenceCycle(schema, roots, c)
    {
      CycleInGraph(schema, roots, models, g, c);
    }
  }

  /** The sort key of a model. */
  function Position(order: seq<Table>, t: Table): nat {
    if t in order then Index(order, t) else |order|
  }

  function Earlier(order: seq<Table>): (Table, Table) -> bool {
    (t, u) => Position(order, t) <= Position(order, u)
  }

  lemma PositionBefore(order: seq<Table>, j: nat, p: Table)
    requires NoDuplicates(order) && j < |order| && p in order[..j]
    ensures p in order && Position(order, p) < j == Position(order, order[j])
  {
  }

  /** After sorting by position, whatever a model depends on comes before it. */
  lemma SortedByPosition(g: Graph, order: seq<Table>, models: seq<Table>, sorted: seq<Table>, j: nat, p: Table)
    requires IsOrder(g, order) && (forall m :: m in models ==> m in g) && p in models
    requires multiset(sorted) == multiset(models) && StableSort.Ordered(sorted, Earlier(order))
    requires j < |sorted| && sorted[j] in g && p in g[sorted[j]] && p != sorted[j]
    ensures p in sorted[..j]
  {
    var k := Index(order, sorted[j]);
    PositionBefore(order, k, p);
    assert p in multiset(sorted);
    var i :| 0 <= i < |sorted| && sorted[i] == p;
    assert i <= j;
    assert sorted[..j][i] == p;
  }

  lemma PermutationFacts(models: seq<Table>, sorted: seq<Table>)
    requires multiset(sorted) == multiset(models) && NoDuplicates(models)
    ensures NoDuplicates(sorted)
    ensures forall t :: t in sorted <==> t in models
  {
    forall t
      ensures t in sorted <==> t in models
    {
      assert t in multiset(sorted) <==> t in multiset(models);
    }
    forall i, j | 0 <= i < j < |sorted|
      ensures sorted[i] != sorted[j]
    {
      if sorted[i] == sorted[j] {
        CountOnce(models, sorted[i]);
        CountTwice(sorted, i, j);
      }
    }
  }

  lemma CountTwice(s: seq<Table>, i: nat, j: nat)
    requires i < j < |s| && s[i] == s[j]
    ensures multiset(s)[s[i]] >= 2
  {
    assert s == s[..j] + [s[j]] + s[j + 1..];
    assert s[..j][i] == s[i] && s[i] in multiset(s[..j]);
  }

  /** Each reachable mapped table once, and after every other mapped table its foreign keys name. */
  ghost predicate IsCreationOrder(schema: Schema, roots: set<Table>, models: seq<Table>) {
    && NoDuplicates(models)
    && (forall t :: t in models <==> t in schema && Reachable(schema, roots, t))
    && (forall j, t :: 0 <= j < |models| && t in schema && DependsOn(schema, models[j], t) ==> t in models[..j])
  }

  /** From the named tables on; None where the sorter finds a cycle. */
  method OrderedModels(schema: Schema, roots: set<Table>) returns (r: Option<seq<Table>>)
    ensures r.Some? <==> Orderable(schema, roots)
    ensures r.Some? ==> IsCreationOrder(schema, roots, r.value)
  {
    var models := CollectModels(schema, roots);
    var g := Dependencies(schema, models);
    OrderableIffAcyclic(schema, roots, models, g);
    var order := StaticOrder(g);
    if order.None? {
      return None;
    }
    var le := Earlier(order.value);
    var sorted := StableSort.Sorted(models, le);
    StableSort.SortedIsOrdered(models, le);
    PermutationFacts(models, sorted);
    forall j, t | 0 <= j < |sorted| && t in schema && DependsOn(schema, sorted[j], t)
      ensures t in sorted[..j]
    {
      assert sorted[j] in models;
      ReferredReachable(schema, roots, sorted[j], t);
      SortedByPosition(g, order.value, models, sorted, j, t);
    }
    return Some(sorted);
  }

  /** `find_models`: `modified` are the tables its source text names, `values` the migration module's
      own values. */
  method FindModels(schema: Schema, modified: set<Table>, values: seq<PyValue>)
      returns (tables: set<Table>, r: Option<seq<Table>>)
    ensures forall t :: t in tables <==> t in modified || NamesAny(values, t)
    ensures r.Some? <==> Orderable(schema, tables)
    ensures r.Some? ==> IsCreationOrder(schema, tables, r.value)
  {
    tables := AddNamedTables(values, modified);
    r := OrderedModels(schema, tables);
  }
}
