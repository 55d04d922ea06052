// The link operations lifted to trees.
module YangMergeOps {
  import opened YangNodes
  import opened YangTree
  import opened YangMerge
  import opened YangMergeSets
  import opened YangMergeWorld

  lemma IdsConcat(a: seq<Tree>, b: seq<Tree>)
    ensures Ids(a + b) == Ids(a) + Ids(b)
  {
  }

  lemma IdsRemove(ds: seq<Tree>, i: nat)
    requires i < |ds|
    ensures Ids(Remove(ds, i)) == Ids(ds)[..i] + Ids(ds)[i + 1..]
  {
  }

  lemma IdsNotBelow(ts: seq<Tree>, n: Node, t: Tree)
    requires Sep(ts) && n in Ids(ts) && t in ts
    ensures n !in All(t.kids)
  {
    var i :| 0 <= i < |ts| && Ids(ts)[i] == n;
    var j :| 0 <= j < |ts| && ts[j] == t;
    if i != j { OtherNodes(ts, i, j); }
  }

  lemma BelowIsInside(ts: seq<Tree>, t: Tree)
    requires Sep(ts) && t in ts
    ensures t.id in All(ts) && All(t.kids) <= All(ts) && forall n :: n in Ids(ts) ==> n !in All(t.kids)
  {
    AllMember(ts, t);
    forall n | n in Ids(ts) ensures n !in All(t.kids) { IdsNotBelow(ts, n, t); }
  }

  method DetachFrom(node: Node, ghost p: Node, ghost ds: seq<Tree>, ghost i: nat)
    requires Forest(p, ds) && i < |ds| && ds[i].id == node && ds[i].nodeType != Text
    modifies p`firstChild, p`lastChild, Ids(ds)`nextSibling, Ids(ds)`prevSibling, Ids(ds)`parent
    ensures Forest(p, Remove(ds, i)) && Rep(ds[i]) && Links([node]) && node.parent == null
    ensures forall n :: n in Ids(ds) && n != node ==> n.parent == old(n.parent)
  {
    hide Sep, Links, Ends, Parented, NoDup, Rep, All, Nodes, Ids;
    KidForest(p, ds, i);
    IdsInAll(ds);
    RemoveSep(ds, i); IdsRemove(ds, i);
    assert Ids(ds)[i] == node;
    var ok := DetachNode(node, Ids(ds), i);
    forall t | t in ds ensures Rep(t) == old(Rep(t)) {
      BelowIsInside(ds, t);
      assert old(allocated(All(t.kids)));
    }
    assert forall t :: t in Remove(ds, i) ==> t in ds;
  }

  ghost predicate RepAll(ts: seq<Tree>)
    reads All(ts)
  {
    forall t :: t in ts ==> (AllMember(ts, t); Rep(t))
  }

  // AppendSubtree on a sibling list that already represents the trees es
  method AppendForest(p: Node, src: Node, ghost ds: seq<Tree>, ghost es: seq<Tree>)
    requires Forest(p, ds) && RepAll(es) && Sep(es) && All(ds) !! All(es) && p !in All(es)
    requires es != [] && src == es[0].id && Links(Ids(es))
    modifies p`firstChild, p`lastChild, Ids(ds)`nextSibling, Ids(es)`prevSibling, Ids(es)`parent
    ensures Forest(p, ds + es)
  {
    hide Sep, Links, Ends, Parented, NoDup, Rep, All, Nodes;
    IdsInAll(ds); IdsInAll(es);
    AllConcat(ds, es); SepConcat(ds, es); IdsConcat(ds, es);
    var ok := AppendSubtree(p, src, Ids(ds), Ids(es));
    hide Ids;
    forall t | t in ds ensures Rep(t) == old(Rep(t)) {
      BelowIsInside(ds, t);
      assert old(allocated(All(t.kids)));
    }
    forall t | t in es ensures Rep(t) == old(Rep(t)) {
      BelowIsInside(es, t);
      assert old(allocated(All(t.kids)));
    }
  }

  lemma IdsOne(t: Tree)
    ensures Ids([t]) == [t.id]
  {
  }

  lemma WorldParts(env: Env, p: Node, ds: seq<Tree>, q: Node, ss: seq<Tree>)
    requires World(env, p, ds, q, ss)
    ensures Sep(ds) && Sep(ss)
  {
  }

  // A source node without a match moves behind the siblings of the destination
  method MoveToDest(ghost env: Env, dest: Node, srcNode: Node,
                    ghost p: Node, ghost ds: seq<Tree>, ghost q: Node, ghost ss: seq<Tree>, ghost k: nat)
    requires World(env, p, ds, q, ss) && ds != [] && dest == ds[0].id && ds[0].nodeType != Text
    requires k < |ss| && srcNode == ss[k].id && ss[k].nodeType != Text
    modifies p`firstChild, p`lastChild, All(ds)`nextSibling
    modifies q`firstChild, q`lastChild, All(ss)`nextSibling, All(ss)`prevSibling, All(ss)`parent
    ensures World(env, p, ds + [ss[k]], q, Remove(ss, k))
    ensures Region(p, ds + [ss[k]], q, Remove(ss, k)) == Region(p, ds, q, ss)
  {
    hide Sep, Links, Ends, Parented, NoDup, Rep, All, Nodes, Chain, Ids;
    ghost var s := ss[k];
    IdsInAll(ds); IdsInAll(ss);
    KidForest(p, ds, 0); KidForest(q, ss, k); AllOne(s); SepOne(s); IdsOne(s); Split(ss, k); RemoveSep(ss, k);
    AllConcat(ds, [s]);
    DetachFrom(srcNode, q, ss, k);
    assert old(allocated(All(ds))) && old(allocated(Cached(env))) && allocated(All(Remove(ss, k)));
    AppendForest(dest.parent, srcNode, ds, [s]);

    assert Region(p, ds + [s], q, Remove(ss, k)) == Region(p, ds, q, ss);
  }

  // A detached subtree does not point back into what it left
  lemma DetachedGone(env: Env, R: set<Node>, t: Tree)
    requires Rep(t) && t.id.parent == null && Nodes(t) <= R
    ensures Gone(R, R - Nodes(t))
  {
    ParentInside(t);
    assert R - (R - Nodes(t)) == Nodes(t);
  }

  method DetachWorld(ghost env: Env, node: Node, ghost p: Node, ghost ds: seq<Tree>, ghost i: nat, ghost q: Node,
    ghost ss: seq<Tree>)
    requires World(env, p, ds, q, ss) && i < |ds| && ds[i].id == node && ds[i].nodeType != Text
    modifies p`firstChild, p`lastChild, All(ds)`nextSibling, All(ds)`prevSibling, All(ds)`parent
    ensures World(env, p, Remove(ds, i), q, ss)
    ensures Region(p, Remove(ds, i), q, ss) == Region(p, ds, q, ss) - Nodes(ds[i])
    ensures Gone(Region(p, ds, q, ss), Region(p, Remove(ds, i), q, ss))
    ensures node.parent == null && Links([node]) && node !in All(Remove(ds, i))
  {
    hide Sep, Links, Ends, Parented, NoDup, Rep, All, Nodes, Chain, Ids;
    IdsInAll(ds); KidForest(p, ds, i); RemoveSep(ds, i);
    assert old(allocated(All(ds))) && old(allocated(Cached(env))) && old(allocated(All(ss)));
    DetachFrom(node, p, ds, i);
    var R, R1 := Region(p, ds, q, ss), Region(p, Remove(ds, i), q, ss);
    assert R1 == R - Nodes(ds[i]);
    DetachedGone(env, R, ds[i]);
  }

  // addYangNode below a parent: a new last child, with its value as a text
  method AddChild(parent: Node, name: string, value: string, ghost ds: seq<Tree>) returns (node: Node, ghost t: Tree)
    requires Forest(parent, ds)
    modifies parent`firstChild, parent`lastChild, Ids(ds)`nextSibling
    ensures fresh(Nodes(t)) && t.id == node && Forest(parent, ds + [t])
    ensures t.nodeType == Element && t.data == name && t.attr == []
    ensures if value == "" then t.kids == [] else |t.kids| == 1 && t.kids[0] == Tree(t.kids[0].id, Text, value, [], [])
  {
    hide Sep, Linked, Links, Ends, Parented, NoDup, Rep, All, Nodes, Ids;
    IdsInAll(ds);
    assert allocated(All(ds)) && allocated(Ids(ds));
    node := AddYangNode(parent, name, value, Ids(ds));
    forall u | u in ds ensures Rep(u) == old(Rep(u)) {
      BelowIsInside(ds, u);
      assert old(allocated(All(u.kids)));
    }
    t := Tree(node, Element, name, [], if value == "" then [] else [Tree(node.firstChild, Text, value, [], [])]);
    NewTree(t);
    IdsConcat(ds, [t]); IdsOne(t); AllOne(t); SepConcat(ds, [t]); AllConcat(ds, [t]);
    assert All(ds) !! Nodes(t);
  }

  lemma NewTree(t: Tree)
    requires Own(t) && t.nodeType == Element
    requires t.kids == [] ==> t.id.firstChild == null && t.id.lastChild == null
    requires t.kids != [] ==>
      t.kids == [Tree(t.kids[0].id, Text, t.kids[0].data, [], [])] && TextOf(t.id, t.kids[0].id, t.kids[0].data)
    ensures Rep(t) && Sep([t]) && Nodes(t) == if t.kids == [] then {t.id} else {t.id, t.kids[0].id}
  {
    assert t in [t];
    if t.kids == [] {
      assert Ids(t.kids) == [] && All(t.kids) == {};
    } else {
      var k := t.kids[0];
      assert Ids(t.kids) == [k.id] && Ids(k.kids) == [] && All(k.kids) == {};
      AllOne(k);
      assert Rep(k);
    }
    SepOne(t);
    forall u | u in t.kids ensures Sep([u]) { SepOne(u); }
  }
}
