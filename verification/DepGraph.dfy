// The dependency graph of tables and its topological sort (github.com/philopon/go-toposort, Kahn's algorithm).
module DepGraph {
  import opened Wrappers

  type Edges<T(!new,==)> = map<T, seq<T>>

  predicate Edge<T(!new,==)>(g: Edges<T>, a: T, b: T) { a in g && b in g[a] }

  // Every list of targets is free of duplicates and names nodes only
  ghost predicate IsGraph<T(!new)>(g: Edges<T>) {
    forall a :: a in g ==> Distinct(g[a]) && Elems(g[a]) <= g.Keys
  }

  function Preds<T(!new,==)>(g: Edges<T>, b: T): set<T> { set a | a in g && b in g[a] }

  ghost predicate IsPath<T(!new)>(g: Edges<T>, p: seq<T>) {
    p != [] && forall i :: 0 <= i < |p| - 1 ==> Edge(g, p[i], p[i + 1])
  }

  ghost predicate Cyclic<T(!new)>(g: Edges<T>) {
    exists p :: IsPath(g, p) && |p| > 1 && p[0] == p[|p| - 1]
  }

  // Every node once, and no edge from a later to an earlier one
  ghost predicate IsOrder<T(!new)>(g: Edges<T>, order: seq<T>) {
    Distinct(order) && Elems(order) == g.Keys && forall i, j :: 0 <= i < j < |order| ==> !Edge(g, order[j], order[i])
  }

  // ---- orders and cycles ----

  lemma {:induction false} PathForward<T(!new)>(g: Edges<T>, order: seq<T>, p: seq<T>, i: nat) returns (j: nat)
    requires IsOrder(g, order) && IsPath(g, p) && i < |order| && order[i] == p[0] && IsGraph(g)
    requires forall a :: !Edge(g, a, a)
    ensures j < |order| && order[j] == p[|p| - 1] && i + |p| - 1 <= j
  {
    if |p| == 1 { return i; }
    assert Edge(g, p[0], p[1]);
    assert p[1] in Elems(g[p[0]]);
    assert p[1] in Elems(order);
    var k :| 0 <= k < |order| && order[k] == p[1];
    var q := p[1..];
    assert IsPath(g, q) by {
      forall x | 0 <= x < |q| - 1 ensures Edge(g, q[x], q[x + 1]) { assert Edge(g, p[x + 1], p[x + 2]); }
    }
    j := PathForward(g, order, q, k);
  }

  // A graph that has an order has no cycle
  lemma OrderedIsAcyclic<T(!new)>(g: Edges<T>, order: seq<T>)
    requires IsOrder(g, order) && IsGraph(g) && forall a :: !Edge(g, a, a)
    ensures !Cyclic(g)
  {
    if Cyclic(g) {
      var p :| IsPath(g, p) && |p| > 1 && p[0] == p[|p| - 1];
      assert Edge(g, p[0], p[1]);
      assert p[0] in Elems(order);
      var i :| 0 <= i < |order| && order[i] == p[0];
      var j := PathForward(g, order, p, i);
    }
  }

  lemma {:induction false} Pigeons<T(!new)>(s: seq<T>, r: set<T>)
    requires Elems(s) <= r && Distinct(s)
    ensures |s| <= |r|
  {
    if s != [] {
      var t := s[1..];
      assert s[0] in Elems(s);
      forall x | x in t ensures x in Elems(s) && x != s[0] { var i :| 0 <= i < |t| && t[i] == x; assert s[i + 1] == x; }
      Pigeons(t, r - {s[0]});
    }
  }

  lemma Slice<T(!new)>(g: Edges<T>, p: seq<T>, i: nat, j: nat)
    requires IsPath(g, p) && i < j < |p|
    ensures IsPath(g, p[i..j + 1])
  {
    var q := p[i..j + 1];
    forall x | 0 <= x < |q| - 1 ensures Edge(g, q[x], q[x + 1]) { assert Edge(g, p[i + x], p[i + x + 1]); }
  }

  // Every node of r has a predecessor in r
  ghost predicate NoSource<T(!new)>(g: Edges<T>, r: set<T>) {
    forall b :: b in r ==> Preds(g, b) * r != {}
  }

  lemma Extend<T(!new)>(g: Edges<T>, r: set<T>, p: seq<T>) returns (q: seq<T>)
    requires NoSource(g, r) && IsPath(g, p) && Elems(p) <= r
    ensures IsPath(g, q) && Elems(q) <= r && |q| == |p| + 1
  {
    assert p[0] in Elems(p);
    var a :| a in Preds(g, p[0]) * r;
    hide NoSource;
    q := [a] + p;
    forall x | 0 <= x < |q| - 1 ensures Edge(g, q[x], q[x + 1]) { if x > 0 { assert Edge(g, p[x - 1], p[x]); } }
    forall x | x in q ensures x in r { if x != a { assert x in Elems(p); } }
  }

  // Walking backwards inside such a set ends in a cycle
  lemma {:induction false} BackwardWalk<T(!new)>(g: Edges<T>, r: set<T>, p: seq<T>)
    requires NoSource(g, r) && IsPath(g, p) && Elems(p) <= r
    ensures Cyclic(g)
    decreases |r| + 1 - |p|
  {
    if Distinct(p) {
      Pigeons(p, r);
      var q := Extend(g, r, p);
      BackwardWalk(g, r, q);
    } else {
      hide NoSource;
      var i, j :| 0 <= i < j < |p| && p[i] == p[j];
      Slice(g, p, i, j);
      var c := p[i..j + 1];
      assert c[0] == c[|c| - 1];
    }
  }

  lemma StuckIsCyclic<T(!new)>(g: Edges<T>, r: set<T>)
    requires r != {} && NoSource(g, r)
    ensures Cyclic(g)
  {
    hide NoSource;
    var b :| b in r;
    assert IsPath(g, [b]);
    BackwardWalk(g, r, [b]);
  }

  // ---- the graph object ----

  // inputs counts the edges into each node
  ghost predicate Counts<T(!new)>(g: Edges<T>, inputs: map<T, nat>) {
    inputs.Keys == g.Keys && forall m :: m in g ==> inputs[m] == |Preds(g, m)|
  }

  lemma AddedNode<T(!new)>(g: Edges<T>, inputs: map<T, nat>, name: T)
    requires IsGraph(g) && Counts(g, inputs) && name !in g
    ensures IsGraph(g[name := []]) && Counts(g[name := []], inputs[name := 0])
  {
    var h := g[name := []];
    forall a | a in g ensures name !in Elems(g[a]) {}
    assert Preds(h, name) == {};
    assert forall m :: m in g ==> Preds(h, m) == Preds(g, m);
  }

  lemma AddedTarget<T(!new)>(g: Edges<T>, from: T, to: T)
    requires IsGraph(g) && from in g && to in g && !Edge(g, from, to)
    ensures IsGraph(g[from := g[from] + [to]])
  {
    var h := g[from := g[from] + [to]];
    assert Elems(h[from]) == Elems(g[from]) + {to};
    assert Distinct(h[from]);
  }

  lemma AddedEdge<T(!new)>(g: Edges<T>, inputs: map<T, nat>, from: T, to: T)
    requires Counts(g, inputs) && from in g && to in g && !Edge(g, from, to)
    ensures Counts(g[from := g[from] + [to]], inputs[to := inputs[to] + 1])
  {
    var h := g[from := g[from] + [to]];
    assert Preds(h, to) == Preds(g, to) + {from};
    assert forall m :: m in g && m != to ==> Preds(h, m) == Preds(g, m);
    assert |Preds(h, to)| == |Preds(g, to)| + 1;
    hide Preds;
  }

  lemma Prefix<T(!new)>(s: seq<T>, i: nat)
    requires i < |s| && Distinct(s)
    ensures Elems(s[..i + 1]) == Elems(s[..i]) + {s[i]} && s[i] !in Elems(s[..i]) && s[i] in Elems(s)
    ensures Lists(s[..i], Elems(s[..i]))
  {
  }

  lemma Ends<T(!new)>(s: seq<T>)
    ensures Elems(s[..0]) == {} && Elems(s[..|s|]) == Elems(s)
  {
    assert s[..|s|] == s;
  }

  // s lists each member of r once
  ghost predicate Lists<T(!new)>(s: seq<T>, r: set<T>) { Distinct(s) && Elems(s) == r }

  lemma ListsPush<T(!new)>(s: seq<T>, r: set<T>, x: T)
    requires Lists(s, r) && x !in r
    ensures Lists(s + [x], r + {x})
  {
    var t := s + [x];
    forall i, j | 0 <= i < j < |t| ensures t[i] != t[j] { assert t[i] in Elems(s); }
    assert Elems(t) == Elems(s) + {x};
  }

  lemma ListsPop<T(!new)>(s: seq<T>, r: set<T>)
    requires Lists(s, r) && s != []
    ensures s[0] in r && Lists(s[1..], r - {s[0]})
  {
    var t := s[1..];
    assert s == [s[0]] + t;
    forall x ensures x in t <==> x in Elems(s) && x != s[0] {
      if x in t { var i :| 0 <= i < |t| && t[i] == x; assert s[i + 1] == x; }
    }
    assert Elems(t) == Elems(s) - {s[0]};
  }

  // Edges into m that are not yet removed: those from done are, and those from n to cut are
  function Waiting<T(!new,==)>(g: Edges<T>, done: set<T>, n: T, cut: set<T>, m: T): set<T> {
    Preds(g, m) - done - if m in cut then {n} else {}
  }

  // While the edges of n are removed, inputs counts what waits, and the nodes that wait for nothing are done, n or
  // ready
  ghost predicate Removing<T(!new)>(g: Edges<T>, inputs: map<T, nat>, done: set<T>, n: T, cut: set<T>, ready: set<T>) {
    done !! ready && n !in done && n !in ready && n in g && ready <= g.Keys && inputs.Keys == g.Keys
    && forall m :: m in g ==>
      inputs[m] == |Waiting(g, done, n, cut, m)| && (inputs[m] == 0 <==> m in done || m == n || m in ready)
  }

  // The same between two nodes
  ghost predicate Sorting<T(!new)>(g: Edges<T>, inputs: map<T, nat>, done: set<T>, ready: set<T>) {
    done !! ready && done + ready <= g.Keys && inputs.Keys == g.Keys
    && forall m :: m in g ==> inputs[m] == |Preds(g, m) - done| && (inputs[m] == 0 <==> m in done || m in ready)
  }

  // Every node of order comes behind its predecessors
  ghost predicate Behind<T(!new)>(g: Edges<T>, order: seq<T>) {
    forall i :: 0 <= i < |order| ==> Preds(g, order[i]) <= Elems(order[..i])
  }

  lemma TakeFirst<T(!new)>(g: Edges<T>, inputs: map<T, nat>, done: set<T>, n: T, ready: set<T>)
    requires Sorting(g, inputs, done, ready) && n in ready
    ensures Removing(g, inputs, done, n, {}, ready - {n}) && Preds(g, n) <= done && n in g && n !in done
      && done <= g.Keys
  {
    assert Preds(g, n) - done == {};
    forall m | m in g ensures Waiting(g, done, n, {}, m) == Preds(g, m) - done {}
  }

  lemma CutWaits<T(!new)>(g: Edges<T>, done: set<T>, n: T, cut: set<T>, m: T)
    requires Edge(g, n, m) && n !in done && m !in cut
    ensures |Waiting(g, done, n, cut, m)| > 0
      && |Waiting(g, done, n, cut + {m}, m)| == |Waiting(g, done, n, cut, m)| - 1
    ensures forall x :: x != m ==> Waiting(g, done, n, cut + {m}, x) == Waiting(g, done, n, cut, x)
  {
    assert n in Preds(g, m);
    assert n in Waiting(g, done, n, cut, m);
    assert Waiting(g, done, n, cut + {m}, m) == Waiting(g, done, n, cut, m) - {n};
  }

  lemma CutTarget<T(!new)>(g: Edges<T>, inputs: map<T, nat>, done: set<T>, n: T, cut: set<T>, m: T, ready: set<T>)
    requires Removing(g, inputs, done, n, cut, ready) && Edge(g, n, m) && m !in cut && m in g
    ensures m in inputs && inputs[m] > 0 && m !in ready && m !in done && m != n
  {
    CutWaits(g, done, n, cut, m);
    hide Waiting, Edge;
  }

  lemma CutOne<T(!new)>(g: Edges<T>, inputs: map<T, nat>, done: set<T>, n: T, cut: set<T>, m: T, ready: set<T>,
    inputs2: map<T, nat>, ready2: set<T>)
    requires Removing(g, inputs, done, n, cut, ready) && Edge(g, n, m) && m !in cut && m in g
    requires m in inputs && inputs[m] > 0 && m !in ready && m !in done && m != n
    requires inputs2 == inputs[m := inputs[m] - 1] && ready2 == if inputs2[m] == 0 then ready + {m} else ready
    ensures Removing(g, inputs2, done, n, cut + {m}, ready2)
  {
    hide Waiting, Edge, Preds;
    CutWaits(g, done, n, cut, m);
    assert inputs2.Keys == g.Keys;
    forall x | x in g
      ensures inputs2[x] == |Waiting(g, done, n, cut + {m}, x)|
        && (inputs2[x] == 0 <==> x in done || x == n || x in ready2)
    {
      assert x != m ==> (x in ready2 <==> x in ready);
    }
  }

  lemma AllCut<T(!new)>(g: Edges<T>, inputs: map<T, nat>, done: set<T>, n: T, ready: set<T>)
    requires n in g && Removing(g, inputs, done, n, Elems(g[n]), ready) && done <= g.Keys
    ensures Sorting(g, inputs, done + {n}, ready)
  {
    forall m | m in g ensures Waiting(g, done, n, Elems(g[n]), m) == Preds(g, m) - (done + {n}) {}
  }

  lemma StartBehind<T(!new)>(g: Edges<T>)
    ensures Behind(g, []) && Lists<T>([], {})
  {
  }

  lemma NoneLeft<T(!new)>(s: seq<T>, r: set<T>)
    requires Lists(s, r) && s == []
    ensures r == {}
  {
  }

  lemma BehindPush<T(!new)>(g: Edges<T>, order: seq<T>, done: set<T>, n: T)
    requires Behind(g, order) && Lists(order, done) && Preds(g, n) <= done
    ensures Behind(g, order + [n])
  {
    assert (order + [n])[..|order|] == order;
    forall i | 0 <= i < |order| ensures (order + [n])[..i] == order[..i] {}
  }

  lemma SortStart<T(!new)>(g: Edges<T>, inputs: map<T, nat>, ready: set<T>)
    requires Counts(g, inputs) && ready <= g.Keys && forall m :: m in g ==> (inputs[m] == 0 <==> m in ready)
    ensures Sorting(g, inputs, {}, ready)
  {
    forall m | m in g ensures Preds(g, m) - {} == Preds(g, m) {}
  }

  lemma EdgeIndex<T(!new)>(g: Edges<T>, order: seq<T>, i: nat, j: nat)
    requires Behind(g, order) && Distinct(order) && i < |order| && j < |order| && Edge(g, order[j], order[i])
    ensures j < i
  {
    assert order[j] in Preds(g, order[i]);
    var k :| 0 <= k < i && order[k] == order[j];
  }

  lemma BehindIsOrder<T(!new)>(g: Edges<T>, order: seq<T>)
    requires Behind(g, order) && Lists(order, g.Keys) && IsGraph(g)
    ensures IsOrder(g, order) && !Cyclic(g)
  {
    forall i, j | 0 <= i <= j < |order| ensures !Edge(g, order[j], order[i]) {
      if Edge(g, order[j], order[i]) { EdgeIndex(g, order, i, j); assert false; }
    }
    forall a ensures !Edge(g, a, a) {
      if a in Elems(order) { var k :| 0 <= k < |order| && order[k] == a; }
    }
    OrderedIsAcyclic(g, order);
  }

  lemma Stuck<T(!new)>(g: Edges<T>, inputs: map<T, nat>, done: set<T>)
    requires Sorting(g, inputs, done, {}) && done != g.Keys
    ensures Cyclic(g)
  {
    var r := g.Keys - done;
    forall b | b in r ensures Preds(g, b) * r != {} {
      var w := Preds(g, b) - done;
      assert w != {};
      var a :| a in w;
      assert a in Preds(g, b) * r;
    }
    hide Sorting;
    assert NoSource(g, r);
    StuckIsCyclic(g, r);
  }

  lemma SortEnd<T(!new)>(g: Edges<T>, inputs: map<T, nat>, order: seq<T>, done: set<T>)
    requires Sorting(g, inputs, done, {}) && Behind(g, order) && Lists(order, done) && IsGraph(g)
    ensures (forall m :: m in inputs ==> inputs[m] == 0) <==> done == g.Keys
    ensures if done == g.Keys then IsOrder(g, order) && !Cyclic(g) else Cyclic(g)
  {
    assert done != g.Keys ==> g.Keys - done != {};
    hide Behind, Lists, IsGraph, Cyclic, IsOrder;
    if done == g.Keys {
      BehindIsOrder(g, order);
    } else {
      Stuck(g, inputs, done);
    }
  }

  class Graph<T(!new,==)> {
    var nodes: seq<T>
    var outputs: Edges<T>
    var inputs: map<T, nat>

    ghost predicate Valid()
      reads this
    {
      Distinct(nodes) && Elems(nodes) == outputs.Keys && IsGraph(outputs) && Counts(outputs, inputs)
    }

    constructor ()
      ensures Valid() && outputs == map[] && fresh(this)
    {
      nodes, outputs, inputs := [], map[], map[];
    }

    method AddNode(name: T)
      requires Valid() && name !in outputs
      modifies this
      ensures Valid() && outputs == old(outputs)[name := []]
    {
      AddedNode(outputs, inputs, name);
      assert name !in Elems(nodes);
      assert Elems(nodes + [name]) == Elems(nodes) + {name};
      nodes, outputs, inputs := nodes + [name], outputs[name := []], inputs[name := 0];
    }

    method AddEdge(from: T, to: T)
      requires Valid() && from in outputs && to in outputs && !Edge(outputs, from, to)
      modifies this
      ensures Valid() && outputs == old(outputs)[from := old(outputs)[from] + [to]]
    {
      AddedTarget(outputs, from, to);
      AddedEdge(outputs, inputs, from, to);
      assert to in inputs;
      hide Counts, IsGraph, Elems, Distinct;
      outputs, inputs := outputs[from := outputs[from] + [to]], inputs[to := inputs[to] + 1];
    }

    // The nodes without predecessors
    method Sources() returns (ready: seq<T>)
      requires Valid()
      ensures Lists(ready, Elems(ready)) && Elems(ready) <= outputs.Keys
      ensures forall m :: m in outputs ==> (inputs[m] == 0 <==> m in Elems(ready))
    {
      ready := [];
      ghost var todo := {};
      Ends(nodes);
      assert Lists(ready, todo);
      var k := 0;
      while k < |nodes|
        invariant k <= |nodes| && Lists(ready, todo) && todo <= Elems(nodes[..k]) && inputs.Keys == outputs.Keys
        invariant forall m :: m in Elems(nodes[..k]) ==> (inputs[m] == 0 <==> m in todo)
      {
        hide Lists, Elems, Distinct, IsGraph, Counts;
        Prefix(nodes, k);
        if inputs[nodes[k]] == 0 {
          ListsPush(ready, todo, nodes[k]);
          ready, todo := ready + [nodes[k]], todo + {nodes[k]};
        }
        k := k + 1;
      }
    }

    // Removes the edges of n, whose targets join the queue when nothing else is before them
    method RemoveEdges(n: T, ghost done: set<T>, ready0: seq<T>, ghost todo0: set<T>)
      returns (ready: seq<T>, ghost todo: set<T>)
      requires Removing(outputs, inputs, done, n, {}, todo0) && Lists(ready0, todo0) && IsGraph(outputs)
        && done <= outputs.Keys
      modifies this`inputs
      ensures Sorting(outputs, inputs, done + {n}, todo) && Lists(ready, todo)
    {
      hide Sorting, Preds, Lists, Elems, Waiting;
      ready, todo := ready0, todo0;
      assert n in outputs && inputs.Keys == outputs.Keys;
      hide Removing;
      ghost var targets := outputs[n];
      Ends(targets);
      assert Distinct(targets) && Elems(targets) <= outputs.Keys;
      hide IsGraph, Distinct;
      var i := 0;
      while i < |outputs[n]|
        invariant i <= |targets| && Lists(ready, todo) && Removing(outputs, inputs, done, n, Elems(targets[..i]), todo)
      {
        var m := outputs[n][i];
        Prefix(targets, i);
        assert Edge(outputs, n, m);
        CutTarget(outputs, inputs, done, n, Elems(targets[..i]), m, todo);
        ghost var inputs1, todo1 := inputs, todo;
        ListsPush(ready, todo, m);
        inputs := inputs[m := inputs[m] - 1];
        if inputs[m] == 0 { ready, todo := ready + [m], todo + {m}; }
        CutOne(outputs, inputs1, done, n, Elems(targets[..i]), m, todo1, inputs, todo);
        i := i + 1;
      }
      AllCut(outputs, inputs, done, n, todo);
    }

    // The sort consumes the counters; it succeeds exactly on acyclic graphs
    method Toposort() returns (done: seq<T>, ok: bool)
      requires Valid()
      modifies this
      ensures outputs == old(outputs) && (ok <==> !Cyclic(outputs))
      ensures ok ==> IsOrder(outputs, done)
    {
      hide Cyclic, IsOrder, Preds, Elems, Sorting, Removing, Behind, IsGraph, Counts, Lists, Distinct;
      ghost var g := outputs;
      var ready := Sources();
      ghost var todo, sorted := Elems(ready), {};
      SortStart(g, inputs, todo);
      done := [];
      StartBehind(g);
      while ready != []
        invariant Sorting(g, inputs, sorted, todo) && Lists(done, sorted) && Lists(ready, todo) && Behind(g, done)
          && outputs == g
        decreases g.Keys - sorted
      {
        var n := ready[0];
        ListsPop(ready, todo);
        TakeFirst(g, inputs, sorted, n, todo);
        ready, todo := ready[1..], todo - {n};
        ready, todo := RemoveEdges(n, sorted, ready, todo);
        BehindPush(g, done, sorted, n);
        ListsPush(done, sorted, n);
        done, sorted := done + [n], sorted + {n};
      }
      NoneLeft(ready, todo);
      SortEnd(g, inputs, done, sorted);
      ok := forall m :: m in inputs ==> inputs[m] == 0;
    }
  }
}
