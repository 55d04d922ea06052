// Dependencies between tables by leafref: SortDepTables and GetDepTables of cvl_api.go.
module DepTables {
  import opened Wrappers
  import opened DepGraph
  import opened Text
  import opened YangLists

  // leafRef: for a leaf the paths of its leafrefs, several for a union
  datatype TableInfo = TableInfo(redisTableName: string, keys: seq<string>, leafRef: map<string, seq<string>>)

  type Schema = map<string, TableInfo>

  // getYangListNamesInExpr: the lists a path goes through
  function ListNames(sc: Schema, path: string): set<string> {
    set n | n in sc && (Contains(path, ":" + (n + "_LIST")) || Contains(path, "/" + (n + "_LIST")))
  }

  function RedisTables(sc: Schema): map<string, string> { map n | n in sc :: sc[n].redisTableName }

  // One YANG list for each table, of the same name
  ghost predicate OneList(sc: Schema) {
    forall n :: n in sc ==> ListTable(RedisTables(sc), n) == n
  }

  // A leafref of table a goes through a list of table b
  ghost predicate Refs(sc: Schema, a: string, b: string) {
    a in sc && b in Targets(sc, sc[a].leafRef, sc[a].leafRef.Keys)
  }

  function PathTargets(sc: Schema, path: string): set<string> {
    set n | n in ListNames(sc, path) :: ListTable(RedisTables(sc), n)
  }

  function Targets(sc: Schema, leafRef: map<string, seq<string>>, leaves: set<string>): set<string> {
    set l, i, b | l in leaves && l in leafRef && 0 <= i < |leafRef[l]| && b in PathTargets(sc, leafRef[l][i]) :: b
  }

  // The path goes through the list of n, with or without a prefix in front of it
  ghost predicate Through(path: string, n: string) {
    exists a: string, b: string :: path == a + (":" + n + "_LIST") + b || path == a + ("/" + n + "_LIST") + b
  }

  lemma ThroughList(sc: Schema, path: string, n: string)
    ensures n in ListNames(sc, path) <==> n in sc && Through(path, n)
  {
    assert ":" + (n + "_LIST") == ":" + n + "_LIST" && "/" + (n + "_LIST") == "/" + n + "_LIST";
    ContainsIff(path, ":" + n + "_LIST");
    ContainsIff(path, "/" + n + "_LIST");
  }

  // A leafref of a goes through the list of b
  ghost predicate RefersTo(sc: Schema, a: string, b: string) {
    a in sc && b in sc && exists l, i ::
      l in sc[a].leafRef && 0 <= i < |sc[a].leafRef[l]| && Through(sc[a].leafRef[l][i], b)
  }

  lemma RefsAre(sc: Schema, a: string, b: string)
    requires OneList(sc)
    ensures Refs(sc, a, b) <==> RefersTo(sc, a, b)
  {
    hide ListNames, Through, ListTable;
    if Refs(sc, a, b) {
      var l, i :| l in sc[a].leafRef && 0 <= i < |sc[a].leafRef[l]| && b in PathTargets(sc, sc[a].leafRef[l][i]);
      var n :| n in ListNames(sc, sc[a].leafRef[l][i]) && ListTable(RedisTables(sc), n) == b;
      ThroughList(sc, sc[a].leafRef[l][i], n);
    }
    if RefersTo(sc, a, b) {
      var l, i :| l in sc[a].leafRef && 0 <= i < |sc[a].leafRef[l]| && Through(sc[a].leafRef[l][i], b);
      ThroughList(sc, sc[a].leafRef[l][i], b);
      assert ListTable(RedisTables(sc), b) == b;
      assert b in PathTargets(sc, sc[a].leafRef[l][i]);
    }
  }

  ghost predicate RefPath(sc: Schema, p: seq<string>) {
    p != [] && forall i :: 0 <= i < |p| - 1 ==> Refs(sc, p[i], p[i + 1])
  }

  // b can be reached from a by leafrefs
  ghost predicate Reaches(sc: Schema, a: string, b: string) {
    exists p :: RefPath(sc, p) && p[0] == a && p[|p| - 1] == b
  }

  // The leafrefs have no cycle: each goes to a table of lower rank
  ghost predicate Ranked(sc: Schema, rank: string -> nat) {
    forall a, b :: Refs(sc, a, b) ==> rank(b) < rank(a)
  }

  // The edges of addDepEdges
  predicate DepEdge(sc: Schema, from: string, to: string) {
    from != to && from in sc
    && exists l ::
      l in sc[from].leafRef
      && exists i :: 0 <= i < |sc[from].leafRef[l]| && Contains(sc[from].leafRef[l][i], to + "_LIST")
  }

  ghost predicate DepPath(sc: Schema, tables: set<string>, p: seq<string>) {
    Elems(p) <= tables && forall i :: 0 <= i < |p| - 1 ==> DepEdge(sc, p[i], p[i + 1])
  }

  ghost predicate DepCycle(sc: Schema, tables: set<string>) {
    exists p :: DepPath(sc, tables, p) && |p| > 1 && p[0] == p[|p| - 1]
  }

  // Every table once, each before the tables it refers to
  ghost predicate DepOrder(sc: Schema, tables: set<string>, order: seq<string>) {
    Distinct(order) && Elems(order) == tables && forall i, j :: 0 <= i < j < |order| ==>
      !DepEdge(sc, order[j], order[i])
  }

  // The graph built for some tables
  ghost predicate IsDepGraph(sc: Schema, tables: set<string>, g: Edges<string>) {
    IsGraph(g) && g.Keys == tables && forall a, b :: a in tables && b in tables ==>
      (Edge(g, a, b) <==> DepEdge(sc, a, b))
  }

  lemma SameCycles(sc: Schema, tables: set<string>, g: Edges<string>)
    requires IsDepGraph(sc, tables, g)
    ensures Cyclic(g) <==> DepCycle(sc, tables)
  {
    hide DepEdge;
    if Cyclic(g) {
      var p :| IsPath(g, p) && |p| > 1 && p[0] == p[|p| - 1];
      forall i | 0 <= i < |p| ensures p[i] in tables {
        var k := if i < |p| - 1 then i else 0;
        assert Edge(g, p[k], p[k + 1]);
      }
      forall i | 0 <= i < |p| - 1 ensures DepEdge(sc, p[i], p[i + 1]) { assert Edge(g, p[i], p[i + 1]); }
      assert DepPath(sc, tables, p);
    }
    if DepCycle(sc, tables) {
      var p :| DepPath(sc, tables, p) && |p| > 1 && p[0] == p[|p| - 1];
      forall i | 0 <= i < |p| ensures p[i] in tables { assert p[i] in Elems(p); }
      assert IsPath(g, p);
    }
  }

  lemma SameOrders(sc: Schema, tables: set<string>, g: Edges<string>, order: seq<string>)
    requires IsDepGraph(sc, tables, g) && IsOrder(g, order)
    ensures DepOrder(sc, tables, order)
  {
    hide DepEdge;
    forall i | 0 <= i < |order| ensures order[i] in tables { assert order[i] in Elems(order); }
  }

  // A leafref into another table is an edge, so the order respects every leafref
  lemma RefIsEdge(sc: Schema, a: string, b: string)
    requires OneList(sc) && Refs(sc, a, b) && a != b
    ensures DepEdge(sc, a, b)
  {
    var leafRef := sc[a].leafRef;
    var l, i :| l in leafRef && 0 <= i < |leafRef[l]| && b in PathTargets(sc, leafRef[l][i]);
    var path := leafRef[l][i];
    var n :| n in ListNames(sc, path) && ListTable(RedisTables(sc), n) == b;
    assert n == b;
    if Contains(path, ":" + (n + "_LIST")) {
      ContainsPart(path, n + "_LIST", ':');
    } else {
      ContainsPart(path, n + "_LIST", '/');
    }
  }

  // In a dependency order every table stands before the tables it refers to
  lemma ReferrerFirst(sc: Schema, tables: set<string>, order: seq<string>, i: nat, j: nat)
    requires OneList(sc) && DepOrder(sc, tables, order) && i < |order| && j < |order| && i != j
    requires Refs(sc, order[i], order[j])
    ensures i < j
  {
    RefIsEdge(sc, order[i], order[j]);
  }

  // ---- the closure ----

  ghost function ReachSet(sc: Schema, a: string): set<string> { set b | b in sc.Keys + {a} && Reaches(sc, a, b) }

  ghost function ReachAll(sc: Schema, from: set<string>): set<string> {
    set a, b | a in from && b in ReachSet(sc, a) :: b
  }

  lemma TargetKnown(sc: Schema, a: string, b: string)
    requires OneList(sc) && Refs(sc, a, b)
    ensures b in sc
  {
    var leafRef := sc[a].leafRef;
    var l, i :| l in leafRef && 0 <= i < |leafRef[l]| && b in PathTargets(sc, leafRef[l][i]);
    var n :| n in ListNames(sc, leafRef[l][i]) && ListTable(RedisTables(sc), n) == b;
  }

  lemma ReachKnown(sc: Schema, a: string, b: string)
    requires OneList(sc) && Reaches(sc, a, b)
    ensures b == a || b in sc
    ensures b in ReachSet(sc, a)
  {
    var p :| RefPath(sc, p) && p[0] == a && p[|p| - 1] == b;
    if |p| > 1 {
      assert Refs(sc, p[|p| - 2], p[|p| - 1]);
      TargetKnown(sc, p[|p| - 2], b);
    }
  }

  lemma ReachPrepend(sc: Schema, a: string, c: string, b: string)
    requires Refs(sc, a, c) && Reaches(sc, c, b)
    ensures Reaches(sc, a, b)
  {
    hide Refs;
    var p :| RefPath(sc, p) && p[0] == c && p[|p| - 1] == b;
    var q := [a] + p;
    forall i | 0 <= i < |q| - 1 ensures Refs(sc, q[i], q[i + 1]) { if i > 0 { assert Refs(sc, p[i - 1], p[i]); } }
    assert RefPath(sc, q);
  }

  lemma ReachSplit(sc: Schema, a: string, b: string) returns (c: string)
    requires Reaches(sc, a, b) && a != b
    ensures Refs(sc, a, c) && Reaches(sc, c, b)
  {
    hide Refs;
    var p :| RefPath(sc, p) && p[0] == a && p[|p| - 1] == b;
    c := p[1];
    var q := p[1..];
    assert Refs(sc, p[0], p[1]);
    forall i | 0 <= i < |q| - 1 ensures Refs(sc, q[i], q[i + 1]) { assert Refs(sc, p[i + 1], p[i + 2]); }
    assert RefPath(sc, q);
  }

  // A table reaches those it refers to, and what they reach
  lemma Reached(sc: Schema, a: string, b: string, c: string)
    requires OneList(sc) && a in sc && RefersTo(sc, a, b) && c in ReachSet(sc, b)
    ensures a in ReachSet(sc, a) && b in ReachSet(sc, a) && c in ReachSet(sc, a)
  {
    RefsAre(sc, a, b);
    hide RefersTo, Refs;
    var p :| RefPath(sc, p) && p[0] == b && p[|p| - 1] == c;
    PathFrom(sc, a, [a]);
    PathFrom(sc, a, [a, b]);
    var q := [a] + p;
    assert forall i :: 0 <= i < |p| ==> q[i + 1] == p[i];
    forall i | 0 <= i < |q| - 1 ensures Refs(sc, q[i], q[i + 1]) {
      if i > 0 { assert q[i] == p[i - 1]; }
    }
    PathFrom(sc, a, q);
  }

  lemma ReachedOn(sc: Schema, a: string, b: string, c: string)
    requires OneList(sc) && a in sc && b in ReachSet(sc, a) && RefersTo(sc, b, c)
    ensures c in ReachSet(sc, a)
  {
    RefsAre(sc, b, c);
    assert c in sc;
    hide RefersTo, Refs;
    var p :| RefPath(sc, p) && p[0] == a && p[|p| - 1] == b;
    var q := p + [c];
    forall i | 0 <= i < |q| - 1 ensures Refs(sc, q[i], q[i + 1]) {
      if i < |p| - 1 { assert q[i] == p[i] && q[i + 1] == p[i + 1]; }
    }
    PathFrom(sc, a, q);
  }

  // What an order of the reachable tables holds: the table, and all that a table in it refers to
  lemma HoldsAll(sc: Schema, a: string, order: seq<string>)
    requires OneList(sc) && a in sc && Elems(order) == ReachSet(sc, a)
    ensures a in order && forall b, c :: b in order && RefersTo(sc, b, c) ==> c in order
  {
    hide RefersTo, Refs, OneList;
    PathFrom(sc, a, [a]);
    assert forall x :: x in order <==> x in Elems(order);
    forall b, c | b in order && RefersTo(sc, b, c) ensures c in order { ReachedOn(sc, a, b, c); }
  }

  lemma PathFrom(sc: Schema, a: string, p: seq<string>)
    requires a in sc && RefPath(sc, p) && p[0] == a && p[|p| - 1] in sc
    ensures p[|p| - 1] in ReachSet(sc, a)
  {
    assert Reaches(sc, a, p[|p| - 1]);
  }

  // and no others
  lemma OnlyReached(sc: Schema, a: string, c: string)
    requires OneList(sc) && c in ReachSet(sc, a)
    ensures c == a || exists b :: RefersTo(sc, a, b) && c in ReachSet(sc, b)
  {
    var p :| RefPath(sc, p) && p[0] == a && p[|p| - 1] == c;
    if |p| > 1 {
      RefsAre(sc, a, p[1]);
      hide RefersTo, Refs;
      var q := p[1..];
      assert RefPath(sc, q);
      assert Reaches(sc, p[1], c);
    }
  }

  lemma EdgesAre(sc: Schema, a: string, b: string)
    ensures DepEdge(sc, a, b) <==>
      a != b && a in sc
      && exists l, i, x: string, y: string ::
        l in sc[a].leafRef && 0 <= i < |sc[a].leafRef[l]| && sc[a].leafRef[l][i] == x + (b + "_LIST") + y
  {
    if a in sc {
      forall l, i | l in sc[a].leafRef && 0 <= i < |sc[a].leafRef[l]|
        ensures Contains(sc[a].leafRef[l][i], b + "_LIST")
          <==> exists x: string, y: string :: sc[a].leafRef[l][i] == x + (b + "_LIST") + y
      {
        ContainsIff(sc[a].leafRef[l][i], b + "_LIST");
      }
      hide Contains;
    }
  }

  // What a table reaches is itself and what the targets of its leafrefs reach
  lemma ReachStep(sc: Schema, a: string)
    requires OneList(sc) && a in sc
    ensures ReachSet(sc, a) == {a} + ReachAll(sc, Targets(sc, sc[a].leafRef, sc[a].leafRef.Keys))
  {
    var targets := Targets(sc, sc[a].leafRef, sc[a].leafRef.Keys);
    assert RefPath(sc, [a]);
    assert Reaches(sc, a, a);
    forall b | b in ReachSet(sc, a) && b != a ensures b in ReachAll(sc, targets) {
      var c := ReachSplit(sc, a, b);
      ReachKnown(sc, c, b);
    }
    forall b | b in ReachAll(sc, targets) ensures b in ReachSet(sc, a) {
      var c :| c in targets && b in ReachSet(sc, c);
      ReachPrepend(sc, a, c, b);
      TargetKnown(sc, a, c);
    }
  }

  // ---- the operations ----

  // The targets of the leaves but one more, and of the paths but one more
  lemma OneMoreLeaf(sc: Schema, leafRef: map<string, seq<string>>, leaves: set<string>, l: string)
    requires l in leafRef
    ensures Targets(sc, leafRef, leaves + {l}) == Targets(sc, leafRef, leaves) + SeqTargets(sc, leafRef[l])
  {
    hide PathTargets;
    forall b | b in Targets(sc, leafRef, leaves + {l})
      ensures b in Targets(sc, leafRef, leaves) + SeqTargets(sc, leafRef[l]) {
    }
  }

  function SeqTargets(sc: Schema, paths: seq<string>): set<string> {
    set i, b | 0 <= i < |paths| && b in PathTargets(sc, paths[i]) :: b
  }

  lemma OneMorePath(sc: Schema, paths: seq<string>, i: nat)
    requires i < |paths|
    ensures SeqTargets(sc, paths[..i + 1]) == SeqTargets(sc, paths[..i]) + PathTargets(sc, paths[i])
  {
    hide PathTargets;
    var t := paths[..i + 1];
    assert t[i] == paths[i];
    forall b | b in SeqTargets(sc, paths[..i]) ensures b in SeqTargets(sc, t) {
      var k :| 0 <= k < i && b in PathTargets(sc, paths[..i][k]);
      assert t[k] == paths[..i][k];
    }
    forall b | b in SeqTargets(sc, t) ensures b in SeqTargets(sc, paths[..i]) + PathTargets(sc, paths[i]) {
      var k :| 0 <= k < |t| && b in PathTargets(sc, t[k]);
      if k < i { assert paths[..i][k] == t[k]; }
    }
  }

  class Cvl {
    const tableInfo: Schema

    constructor (tableInfo: Schema)
      ensures this.tableInfo == tableInfo
    {
      this.tableInfo := tableInfo;
    }

    // The edge from one table to another, added once however many leafrefs ask for it
    method AddDepEdge(graph: Graph<string>, from: string, to: string)
      requires graph.Valid() && from in graph.outputs && to in graph.outputs && from != to && from in tableInfo
      requires !Edge(graph.outputs, from, to)
      modifies graph
      ensures graph.Valid()
      ensures graph.outputs ==
        if DepEdge(tableInfo, from, to) then old(graph.outputs)[from := old(graph.outputs)[from] + [to]]
          else old(graph.outputs)
    {
      hide IsGraph, Counts, Distinct, Elems, Contains;
      var dupEdgeCheck: map<string, string> := map[];
      var leafRef := tableInfo[from].leafRef;
      var leaves := leafRef.Keys;
      while leaves != {}
        invariant leaves <= leafRef.Keys && graph.Valid()
        invariant dupEdgeCheck == map[] || dupEdgeCheck == map[from := to]
        invariant graph.outputs ==
          if dupEdgeCheck == map[] then old(graph.outputs)
            else old(graph.outputs)[from := old(graph.outputs)[from] + [to]]
        invariant dupEdgeCheck != map[] <==>
          exists l :: l in leafRef && l !in leaves
            && exists i :: 0 <= i < |leafRef[l]| && Contains(leafRef[l][i], to + "_LIST")
      {
        var l :| l in leaves;
        leaves := leaves - {l};
        var k := 0;
        ghost var before := dupEdgeCheck;
        while k < |leafRef[l]|
          invariant k <= |leafRef[l]| && graph.Valid()
          invariant dupEdgeCheck == map[] || dupEdgeCheck == map[from := to]
          invariant graph.outputs ==
            if dupEdgeCheck == map[] then old(graph.outputs)
              else old(graph.outputs)[from := old(graph.outputs)[from] + [to]]
          invariant dupEdgeCheck != map[] <==>
            before != map[] || exists i :: 0 <= i < k && Contains(leafRef[l][i], to + "_LIST")
        {
          if Contains(leafRef[l][k], to + "_LIST") && !(from in dupEdgeCheck && dupEdgeCheck[from] == to) {
            graph.AddEdge(from, to);
            dupEdgeCheck := dupEdgeCheck[from := to];
          }
          k := k + 1;
        }
      }
    }

    method AddDepEdges(graph: Graph<string>, tableList: seq<string>)
      requires OneList(tableInfo) && Distinct(tableList) && Elems(tableList) <= tableInfo.Keys
      requires graph.Valid() && graph.outputs.Keys == Elems(tableList) && forall a, b :: !Edge(graph.outputs, a, b)
      modifies graph
      ensures graph.Valid() && IsDepGraph(tableInfo, Elems(tableList), graph.outputs)
    {
      hide IsGraph, Counts, DepEdge, OneList, Distinct, Elems;
      var ti := 0;
      while ti < |tableList|
        invariant ti <= |tableList| && graph.Valid() && graph.outputs.Keys == Elems(tableList)
        invariant Added(tableInfo, tableList, graph.outputs, ti, 0)
      {
        var to := tableList[ti];
        var redisTblTo := ListTable(RedisTables(tableInfo), to);
        SameName(tableInfo, tableList, ti);
        var tj := 0;
        while tj < |tableList|
          invariant tj <= |tableList| && graph.Valid() && graph.outputs.Keys == Elems(tableList)
          invariant Added(tableInfo, tableList, graph.outputs, ti, tj)
        {
          var from := tableList[tj];
          SameName(tableInfo, tableList, tj);
          ghost var g := graph.outputs;
          if from != to {
            var redisTblFrom := ListTable(RedisTables(tableInfo), from);
            assert !Edge(graph.outputs, tableList[tj], tableList[ti]);
            hide Added;
            AddDepEdge(graph, redisTblFrom, redisTblTo);
          }
          AddedStep(tableInfo, tableList, g, graph.outputs, ti, tj);
          tj := tj + 1;
        }
        AddedRow(tableInfo, tableList, graph.outputs, ti);
        ti := ti + 1;
      }
      AddedAll(tableInfo, tableList, graph.outputs);
    }

    // The known tables of the list in dependency order; it fails exactly when their dependencies are cyclic
    method SortDepTables(inTableList: seq<string>) returns (r: Result<seq<string>>)
      requires OneList(tableInfo)
      ensures r.Ok? <==> !DepCycle(tableInfo, Elems(inTableList) * tableInfo.Keys)
      ensures r.Ok? ==> DepOrder(tableInfo, Elems(inTableList) * tableInfo.Keys, r.value)
    {
      var tableListMap: set<string> := {};
      var ti := 0;
      while ti < |inTableList|
        invariant ti <= |inTableList| && tableListMap == Elems(inTableList[..ti]) * tableInfo.Keys
      {
        assert Elems(inTableList[..ti + 1]) == Elems(inTableList[..ti]) + {inTableList[ti]};
        if inTableList[ti] in tableInfo { tableListMap := tableListMap + {inTableList[ti]}; }
        ti := ti + 1;
      }
      assert inTableList[..ti] == inTableList;
      r := SortTables(tableListMap);
    }

    method SortTables(tables: set<string>) returns (r: Result<seq<string>>)
      requires OneList(tableInfo) && tables <= tableInfo.Keys
      ensures r.Ok? <==> !DepCycle(tableInfo, tables)
      ensures r.Ok? ==> DepOrder(tableInfo, tables, r.value)
    {
      hide IsGraph, Counts, OneList, DepCycle, DepOrder, IsDepGraph, Cyclic, IsOrder;
      var graph := new Graph<string>();
      var tableList := [];
      var left := tables;
      while left != {}
        invariant left <= tables && graph.Valid() && fresh(graph) && Lists(tableList, tables - left)
        invariant graph.outputs.Keys == tables - left && forall a :: a in graph.outputs ==> graph.outputs[a] == []
      {
        var t :| t in left;
        ListsPush(tableList, tables - left, t);
        hide Lists, Distinct, Elems;
        graph.AddNode(t);
        assert (tables - left) + {t} == tables - (left - {t});
        tableList, left := tableList + [t], left - {t};
      }
      assert tables - left == tables;
      assert forall a, b :: !Edge(graph.outputs, a, b);
      AddDepEdges(graph, tableList);
      SameCycles(tableInfo, tables, graph.outputs);
      var order, ok := graph.Toposort();
      if !ok { return Error; }
      SameOrders(tableInfo, tables, graph.outputs, order);
      r := Ok(order);
    }

    // Marks a table and what its leafrefs reach; no table is looked up before the recursion, so the leafrefs must be
    // acyclic
    method AddDepTables(tableMap: TableMap, tableName: string, ghost rank: string -> nat)
      requires OneList(tableInfo) && Ranked(tableInfo, rank) && tableName in tableInfo
      modifies tableMap
      ensures tableMap.marked == old(tableMap.marked) + ReachSet(tableInfo, tableName)
      decreases rank(tableName)
    {
      hide OneList, ReachSet, ReachAll, Targets, PathTargets, SeqTargets, ListNames;
      tableMap.marked := tableMap.marked + {tableName};
      var leafRef := tableInfo[tableName].leafRef;
      var leaves := leafRef.Keys;
      ghost var reached := {};   // the tables the recursion is called on
      NoTargets(tableInfo, leafRef);
      while leaves != {}
        invariant leaves <= leafRef.Keys && reached == Targets(tableInfo, leafRef, leafRef.Keys - leaves)
        invariant tableMap.marked == old(tableMap.marked) + {tableName} + ReachAll(tableInfo, reached)
      {
        var l :| l in leaves;
        ghost var done := leafRef.Keys - leaves;
        OneMoreLeaf(tableInfo, leafRef, done, l);
        assert done + {l} == leafRef.Keys - (leaves - {l});
        ghost var before := reached;
        var i := 0;
        while i < |leafRef[l]|
          invariant i <= |leafRef[l]| && reached == before + SeqTargets(tableInfo, leafRef[l][..i])
          invariant tableMap.marked == old(tableMap.marked) + {tableName} + ReachAll(tableInfo, reached)
        {
          OneMorePath(tableInfo, leafRef[l], i);
          ghost var before2 := reached;
          var path := leafRef[l][i];
          var names := ListNames(tableInfo, path);
          PathNames(tableInfo, path);
          while names != {}
            invariant names <= ListNames(tableInfo, path) && reached == before2 + (ListNames(tableInfo, path) - names)
            invariant tableMap.marked == old(tableMap.marked) + {tableName} + ReachAll(tableInfo, reached)
          {
            var refTbl :| refTbl in names;
            CalledOn(tableInfo, tableName, l, i, refTbl);
            ghost var marked := tableMap.marked;
            AddDepTables(tableMap, ListTable(RedisTables(tableInfo), refTbl), rank);
            ReachMore(tableInfo, reached, refTbl);
            assert tableMap.marked == old(tableMap.marked) + {tableName} + ReachAll(tableInfo, reached + {refTbl});
            names, reached := names - {refTbl}, reached + {refTbl};
          }
          i := i + 1;
        }
        assert leafRef[l][..i] == leafRef[l];
        leaves := leaves - {l};
      }
      assert leafRef.Keys - leaves == leafRef.Keys;
      ReachStep(tableInfo, tableName);
    }

    // What a table needs, in dependency order
    method GetDepTables(tableName: string, ghost rank: string -> nat) returns (r: Result<seq<string>>)
      requires OneList(tableInfo) && Ranked(tableInfo, rank)
      ensures r.Ok? <==> tableName in tableInfo && !DepCycle(tableInfo, ReachSet(tableInfo, tableName))
      ensures r.Ok? ==> DepOrder(tableInfo, ReachSet(tableInfo, tableName), r.value)
      ensures r.Ok? ==>
        tableName in r.value && forall b, c :: b in r.value && RefersTo(tableInfo, b, c) ==> c in r.value
    {
      if tableName !in tableInfo { return Error; }
      var tableMap := new TableMap();
      AddDepTables(tableMap, tableName, rank);
      r := SortTables(tableMap.marked);
      if r.Ok? { HoldsAll(tableInfo, tableName, r.value); }
    }
  }

  class TableMap {
    var marked: set<string>

    constructor ()
      ensures marked == {}
    {
      marked := {};
    }
  }

  lemma NoTargets(sc: Schema, leafRef: map<string, seq<string>>)
    ensures Targets(sc, leafRef, leafRef.Keys - leafRef.Keys) == {} && ReachAll(sc, {}) == {}
      && SeqTargets(sc, []) == {}
  {
  }

  lemma PathNames(sc: Schema, path: string)
    requires OneList(sc)
    ensures PathTargets(sc, path) == ListNames(sc, path)
  {
    hide Contains;
    forall n | n in ListNames(sc, path) ensures n in PathTargets(sc, path) {
      assert ListTable(RedisTables(sc), n) == n;
    }
  }

  lemma CalledOn(sc: Schema, a: string, l: string, i: nat, n: string)
    requires OneList(sc) && a in sc && l in sc[a].leafRef && i < |sc[a].leafRef[l]|
      && n in ListNames(sc, sc[a].leafRef[l][i])
    ensures ListTable(RedisTables(sc), n) == n && n in sc && Refs(sc, a, n)
  {
    hide Contains;
    PathNames(sc, sc[a].leafRef[l][i]);
  }

  lemma ReachMore(sc: Schema, from: set<string>, n: string)
    ensures ReachAll(sc, from + {n}) == ReachAll(sc, from) + ReachSet(sc, n)
  {
    hide Reaches;
  }

  // The edges between the listed tables that are added when ti and tj are reached
  ghost predicate Added(sc: Schema, tableList: seq<string>, g: Edges<string>, ti: nat, tj: nat) {
    forall i, j :: 0 <= i < |tableList| && 0 <= j < |tableList| ==>
      (Edge(g, tableList[j], tableList[i]) <==>
        DepEdge(sc, tableList[j], tableList[i]) && (i < ti || (i == ti && j < tj)))
  }

  lemma SameName(sc: Schema, tableList: seq<string>, i: nat)
    requires OneList(sc) && i < |tableList| && Elems(tableList) <= sc.Keys
    ensures tableList[i] in sc && tableList[i] in Elems(tableList)
      && ListTable(RedisTables(sc), tableList[i]) == tableList[i]
  {
    assert tableList[i] in Elems(tableList);
  }

  lemma AddedStep(sc: Schema, tableList: seq<string>, g: Edges<string>, h: Edges<string>, ti: nat, tj: nat)
    requires ti < |tableList| && tj < |tableList| && Distinct(tableList) && Added(sc, tableList, g, ti, tj)
    requires var from, to := tableList[tj], tableList[ti];
      from in g && h == if from != to && DepEdge(sc, from, to) then g[from := g[from] + [to]] else g
    ensures Added(sc, tableList, h, ti, tj + 1)
  {
    assert !DepEdge(sc, tableList[ti], tableList[ti]);
    hide DepEdge;
    forall i, j | 0 <= i < |tableList| && 0 <= j < |tableList|
      ensures Edge(h, tableList[j], tableList[i])
        <==> Edge(g, tableList[j], tableList[i]) || (i == ti && j == tj && h != g)
    {
    }
  }

  lemma AddedRow(sc: Schema, tableList: seq<string>, g: Edges<string>, ti: nat)
    requires Added(sc, tableList, g, ti, |tableList|)
    ensures Added(sc, tableList, g, ti + 1, 0)
  {
  }

  lemma AddedAll(sc: Schema, tableList: seq<string>, g: Edges<string>)
    requires Added(sc, tableList, g, |tableList|, 0) && IsGraph(g) && g.Keys == Elems(tableList)
    ensures IsDepGraph(sc, Elems(tableList), g)
  {
    hide DepEdge;
  }
}
