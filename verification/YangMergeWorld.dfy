// Two sibling lists under merge, the nodes they own, and the request cache beside them.
module YangMergeWorld {
  import opened YangNodes
  import opened YangTree
  import opened YangMerge
  import opened YangLists
  import opened YangMergeSets

  ghost function Cached(env: Env): set<Node> {
    set t, k | t in env.requestCache && k in env.requestCache[t] && |env.requestCache[t][k]| > 0
      && env.requestCache[t][k][0] != null :: env.requestCache[t][k][0]
  }

  ghost predicate EnvOk(env: Env) {
    forall n :: n in env.leaves ==> !IsListName(n)
  }

  // Kids of a leaf are at most one text; any other kids are elements
  ghost predicate Typed(env: Env, leaf: bool, ts: seq<Tree>)
    decreases ts
  {
    if leaf then |ts| <= 1 && forall t :: t in ts ==> t.nodeType == Text && t.kids == []
    else forall t :: t in ts ==> TypedTree(env, t)
  }

  ghost predicate TypedTree(env: Env, t: Tree)
    decreases t
  {
    t.nodeType != Text && (IsLeafList(t.attr) ==> t.data in env.leaves)
      && (t.id in Cached(env) ==> t.data !in env.leaves)
    && Typed(env, t.data in env.leaves, t.kids)
  }

  // Siblings of one name are all marked as entries of a leaf-list, or none is
  ghost predicate OneKind(ts: seq<Tree>)
    decreases ts
  {
    (forall i, j :: 0 <= i < j < |ts| && ts[i].data == ts[j].data ==>
      (IsLeafList(ts[i].attr) <==> IsLeafList(ts[j].attr)))
    && forall t :: t in ts ==> OneKind(t.kids)
  }

  ghost predicate Gone(R: set<Node>, R1: set<Node>)
    reads R`parent, R`nodeType
  {
    forall y :: y in R - R1 && y.nodeType != Text ==> y.parent == null || y.parent in R - R1
  }

  ghost function Region(p: Node, ds: seq<Tree>, q: Node, ss: seq<Tree>): set<Node> {
    {p, q} + All(ds) + All(ss)
  }

  ghost predicate Closed(env: Env, R: set<Node>)
    reads Cached(env)`parent, Cached(env)`nodeType
  {
    forall y :: y in Cached(env) ==> y.nodeType != Text && (y.parent in R ==> y in R)
  }

  ghost predicate World(env: Env, p: Node, ds: seq<Tree>, q: Node, ss: seq<Tree>)
    reads p, q, All(ds), All(ss), Cached(env)
  {
    Forest(p, ds) && Forest(q, ss) && p != q && p !in All(ss) && q !in All(ds) && All(ds) !! All(ss)
    && p.parent !in Region(p, ds, q, ss) && q.parent !in Region(p, ds, q, ss) && Closed(env, Region(p, ds, q, ss))
  }

  lemma ParentInside(t: Tree)
    requires Rep(t)
    ensures forall y :: y in All(t.kids) && y.nodeType != Text ==> y.parent in Nodes(t)
    decreases t
  {
    forall y | y in All(t.kids) && y.nodeType != Text ensures y.parent in Nodes(t) {
      var i :| 0 <= i < |t.kids| && y in Nodes(t.kids[i]);
      AllMember(t.kids, t.kids[i]);
      if y == t.kids[i].id { assert Ids(t.kids)[i].nodeType != Text; } else { ParentInside(t.kids[i]); }
    }
  }

  lemma Locate(p: Node, ts: seq<Tree>, y: Node) returns (m: nat)
    requires Forest(p, ts) && y in All(ts) && y.nodeType != Text
    ensures m < |ts| && y in Nodes(ts[m]) && (if y == ts[m].id then y.parent == p else y.parent in Nodes(ts[m]))
  {
    m :| 0 <= m < |ts| && y in Nodes(ts[m]);
    if y == ts[m].id { assert Ids(ts)[m].parent == p; } else { ParentInside(ts[m]); }
  }

  lemma OtherNodes(ts: seq<Tree>, i: nat, j: nat)
    requires Sep(ts) && i < |ts| && j < |ts| && i != j
    ensures Nodes(ts[i]) !! Nodes(ts[j])
  {
  }

  lemma KidForest(p: Node, ts: seq<Tree>, j: nat)
    requires Forest(p, ts) && j < |ts|
    ensures Forest(ts[j].id, ts[j].kids)
    ensures ts[j].nodeType != Text ==> ts[j].id.parent == p
    ensures ts[j].id in Nodes(ts[j]) && Nodes(ts[j]) <= All(ts)
  {
    AllMember(ts, ts[j]);
    assert Ids(ts)[j] == ts[j].id;
    assert ts[j] in ts;
  }

  lemma OnlyInside(p: Node, ts: seq<Tree>, j: nat, y: Node, other: set<Node>)
    requires Forest(p, ts) && j < |ts| && y in All(ts) && y.nodeType != Text
    requires other !! {p} + All(ts) && y.parent in Nodes(ts[j]) + other
    ensures y in Nodes(ts[j])
  {
    KidForest(p, ts, j);
    var m := Locate(p, ts, y);
    KidForest(p, ts, m);
    if m != j { OtherNodes(ts, m, j); }
  }

  lemma SubClosed(env: Env, p: Node, ds: seq<Tree>, q: Node, ss: seq<Tree>, j: nat, k: nat)
    requires World(env, p, ds, q, ss) && j < |ds| && k < |ss|
    ensures Closed(env, Nodes(ds[j]) + Nodes(ss[k]))
  {
    hide Sep, Chain, Rep, Nodes, Ids;
    KidForest(p, ds, j); KidForest(q, ss, k);
    var d, s := Nodes(ds[j]), Nodes(ss[k]);
    forall y | y in Cached(env) && y.parent in d + s ensures y in d + s {
      if y in All(ds) {
        OnlyInside(p, ds, j, y, s);
      } else {
        assert y in All(ss);
        OnlyInside(q, ss, k, y, d);
      }
    }
  }

  lemma SubWorld(env: Env, p: Node, ds: seq<Tree>, q: Node, ss: seq<Tree>, j: nat, k: nat)
    requires World(env, p, ds, q, ss) && j < |ds| && k < |ss|
    requires ds[j].nodeType != Text && ss[k].nodeType != Text
    ensures World(env, ds[j].id, ds[j].kids, ss[k].id, ss[k].kids)
  {
    hide Sep, Chain, Rep, Ids;
    KidForest(p, ds, j); KidForest(q, ss, k); SubClosed(env, p, ds, q, ss, j, k);
    assert Region(ds[j].id, ds[j].kids, ss[k].id, ss[k].kids) == Nodes(ds[j]) + Nodes(ss[k]);
  }

  // y is an instance among ds exactly when its parent is p
  lemma CachedIsChild(env: Env, p: Node, ds: seq<Tree>, q: Node, ss: seq<Tree>, y: Node)
    requires World(env, p, ds, q, ss) && y in Cached(env)
    ensures y.parent == p <==> FindId(ds, y) < |ds|
  {
    var i := FindId(ds, y);
    if i < |ds| {
      IdsInAll(ds);
      assert Ids(ds)[i].parent == p;
    }
    if y.parent == p {
      assert y in All(ds) + All(ss);
      if y in All(ds) {
        var m := Locate(p, ds, y);
        AllMember(ds, ds[m]);
      } else {
        var m := Locate(q, ss, y);
        AllMember(ss, ss[m]);
      }
    }
  }
}
