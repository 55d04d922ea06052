// mergeYangData on linked nodes: it refines the merge of trees, and ends in spite of its restart.
module YangMergeRun {
  import opened YangNodes
  import opened YangTree
  import opened YangMerge
  import opened YangLists
  import opened YangMergeSets
  import opened YangMergeWorld
  import opened YangMergeOps
  import opened YangMergeTyped
  import opened YangMergeSearch

  // Replacing child j of p and child k of q by the outcome of merging their subtrees
  lemma Rebuild(env: Env, p: Node, ds: seq<Tree>, q: Node, ss: seq<Tree>, j: nat, k: nat, d: Tree, s: Tree)
    requires Sep(ds) && Sep(ss) && p != q && p !in All(ds) + All(ss) && q !in All(ds) + All(ss) && All(ds) !! All(ss)
    requires j < |ds| && k < |ss| && Sep([d]) && Sep([s]) && Nodes(d) !! Nodes(s)
    requires Nodes(d) + Nodes(s) <= Nodes(ds[j]) + Nodes(ss[k])
    ensures Sep(ds[j := d]) && Sep(ss[k := s]) && All(ds[j := d]) !! All(ss[k := s])
    ensures p !in All(ds[j := d]) + All(ss[k := s]) && q !in All(ds[j := d]) + All(ss[k := s])
    ensures Region(p, ds[j := d], q, ss[k := s]) == Region(p, ds, q, ss) - (Nodes(ds[j]) + Nodes(ss[k]))
      + (Nodes(d) + Nodes(s))
  {
    hide Sep, Nodes, All;
    Split(ds, j); Split(ss, k);
    UpdateSep(ds, j, d); UpdateSep(ss, k, s);
  }

  lemma IdsUpdate(ts: seq<Tree>, j: nat, t: Tree)
    requires j < |ts| && t.id == ts[j].id
    ensures Ids(ts[j := t]) == Ids(ts)
  {
  }

  lemma RepFromForest(t: Tree)
    requires Own(t) && Forest(t.id, t.kids)
    ensures Rep(t) && Sep([t]) && Nodes(t) == {t.id} + All(t.kids)
  {
    SepOne(t);
  }

  // Relates a sibling list before and after the subtrees below child j changed
  lemma NotBelow(ts: seq<Tree>, j: nat, t: Tree)
    requires Sep(ts) && j < |ts| && t in ts
    ensures t == ts[j] || Nodes(t) !! Nodes(ts[j])
    ensures forall n :: n in Ids(ts) ==> n !in All(ts[j].kids)
    ensures t.id in Nodes(t) && All(t.kids) <= Nodes(t) && Nodes(t) <= All(ts)
      && Nodes(ts[j]) == {ts[j].id} + All(ts[j].kids)
  {
    BelowIsInside(ts, ts[j]);
    AllMember(ts, t);
  }

  ghost predicate Mergeable(env: Env, d: Tree, s: Tree) {
    EnvOk(env) && TypedTree(env, d) && TypedTree(env, s) && (d.data in env.leaves <==> s.data in env.leaves)
      && OneKind(s.kids)
  }

  lemma FirstChild(p: Node, ts: seq<Tree>)
    requires Forest(p, ts)
    ensures p.firstChild == HeadId(ts, 0)
  {
    if ts != [] { assert Ids(ts)[0] == ts[0].id; }
  }

  method DetachKids(srcNode: Node, ghost ss: seq<Tree>) returns (subTree: Node?)
    requires Forest(srcNode, ss)
    modifies srcNode`firstChild, srcNode`lastChild, All(ss)`parent
    ensures Forest(srcNode, []) && RepAll(ss) && Links(Ids(ss)) && subTree == HeadId(ss, 0)
  {
    hide Sep, Linked, NoDup, Ends, Parented, Rep, Nodes, All, Ids;
    IdsInAll(ss); FirstChild(srcNode, ss);
    ghost var c := Ids(ss);
    subTree := DetachSubtree(srcNode, c);
    EmptyForest(srcNode);
    forall t | t in ss ensures Rep(t) == old(Rep(t)) {
      BelowIsInside(ss, t);
      assert old(allocated(All(t.kids)));
    }
    hide Links;
  }

  // When one of the two nodes has no children, those of the source move to the destination
  method MoveKids(ghost env: Env, destNode: Node, srcNode: Node, ghost ds: seq<Tree>, ghost ss: seq<Tree>)
    requires World(env, destNode, ds, srcNode, ss) && (ds == [] || ss == [])
    modifies destNode`firstChild, destNode`lastChild, srcNode`firstChild, srcNode`lastChild
    modifies All(ss)`parent, All(ss)`prevSibling
    ensures World(env, destNode, ds + ss, srcNode, [])
    ensures Region(destNode, ds + ss, srcNode, []) == Region(destNode, ds, srcNode, ss)
  {
    hide Sep, Links, Ends, Parented, NoDup, Rep, Chain, Nodes, All, Ids;
    AllConcat(ds, ss); IdsInAll(ss); EmptyForest(srcNode);
    assert ds + [] == ds && [] + ss == ss;
    assert old(allocated(All(ds))) && old(allocated(Cached(env))) && old(allocated(All(ss)));
    var subTree := DetachKids(srcNode, ss);
    if subTree != null {
      AppendForest(destNode, subTree, ds, ss);
    }
  }

  lemma EmptyForest(p: Node)
    ensures All([]) == {} && Ids([]) == [] && Sep([]) && (Chain(p, []) ==> Forest(p, []))
  {
  }

  lemma MergedKids(env: Env, d: Tree, s: Tree)
    requires Mergeable(env, d, s)
    ensures MergeTree(env, d, s).kids ==
      if d.kids == [] || s.kids == [] then d.kids + s.kids
      else if d.data in env.leaves then d.kids[0 := d.kids[0].(data := s.kids[0].data)]
      else MergeFrom(env, d.kids, s.kids, {})
  {
    hide MergeFrom;
    assert d.kids + [] == d.kids;
    assert [] + s.kids == s.kids;
    if d.kids != [] && s.kids != [] {
      assert d.kids[0] in d.kids && s.kids[0] in s.kids;
      assert Typed(env, d.data in env.leaves, d.kids) && Typed(env, s.data in env.leaves, s.kids);
      if d.data !in env.leaves { assert TypedTree(env, d.kids[0]); }
    }
  }

  // The turn of two matching nodes: their child chains are merged, or moved when there is nothing to merge
  method MergeNode(env: Env, destNode: Node, srcNode: Node, ghost d: Tree, ghost s: Tree) returns (ghost sk: seq<Tree>)
    requires World(env, d.id, d.kids, s.id, s.kids) && d.id == destNode && s.id == srcNode && Mergeable(env, d, s)
    modifies destNode`firstChild, destNode`lastChild, srcNode`firstChild, srcNode`lastChild
    modifies (All(d.kids) + All(s.kids))`parent, (All(d.kids) + All(s.kids))`firstChild,
      (All(d.kids) + All(s.kids))`lastChild
    modifies (All(d.kids) + All(s.kids))`prevSibling, (All(d.kids) + All(s.kids))`nextSibling,
      (All(d.kids) + All(s.kids))`data
    ensures World(env, d.id, MergeTree(env, d, s).kids, s.id, sk)
    ensures All(sk) <= All(s.kids)
    ensures Gone(Nodes(d) + Nodes(s), Nodes(MergeTree(env, d, s)) + {s.id} + All(sk))
    decreases s, 0
  {
    hide Sep, Links, Ends, Parented, NoDup, Rep, All, Chain, Ids;
    ghost var dk: seq<Tree>;
    FirstChild(d.id, d.kids); FirstChild(s.id, s.kids);
    var ret;
    ret, dk, sk := MergeYangData(env, destNode.firstChild, srcNode.firstChild, d.id, d.kids, s.id, s.kids,
      d.data in env.leaves);
    if !ret {
      MoveKids(env, destNode, srcNode, d.kids, s.kids);
      sk := [];
      EmptyForest(srcNode);
    }
    MergedKids(env, d, s);
    assert Region(d.id, d.kids, s.id, s.kids) == Nodes(d) + Nodes(s);
    assert Region(d.id, MergeTree(env, d, s).kids, s.id, sk) == Nodes(MergeTree(env, d, s)) + {s.id} + All(sk);
  }

  lemma SubParts(p: Node, ts: seq<Tree>, j: nat)
    requires Forest(p, ts) && j < |ts|
    ensures Rep(ts[j]) && Sep([ts[j]]) && Own(ts[j]) && Nodes(ts[j]) == {ts[j].id} + All(ts[j].kids)
  {
    assert ts[j] in ts;
    SepOne(ts[j]);
  }

  lemma FormForest(p: Node, ts: seq<Tree>)
    requires p !in All(ts) && Sep(ts) && Chain(p, Ids(ts)) && forall i :: 0 <= i < |ts| ==> Rep(ts[i])
    ensures Forest(p, ts)
  {
  }

  // Child j of p and child k of q are merged, seen from the two children
  method MergePair(env: Env, destNode: Node, srcNode: Node,
                   ghost p: Node, ghost ds: seq<Tree>, ghost j: nat, ghost q: Node, ghost ss: seq<Tree>, ghost k: nat)
                     returns (ghost s1: Tree)
    requires World(env, p, ds, q, ss) && j < |ds| && k < |ss| && ds[j].id == destNode && ss[k].id == srcNode
    requires Mergeable(env, ds[j], ss[k])
    modifies destNode`firstChild, destNode`lastChild, srcNode`firstChild, srcNode`lastChild
    modifies (All(ds[j].kids) + All(ss[k].kids))`parent, (All(ds[j].kids) + All(ss[k].kids))`firstChild,
      (All(ds[j].kids) + All(ss[k].kids))`lastChild
    modifies (All(ds[j].kids) + All(ss[k].kids))`prevSibling, (All(ds[j].kids) + All(ss[k].kids))`nextSibling,
      (All(ds[j].kids) + All(ss[k].kids))`data
    ensures var d1 := MergeTree(env, ds[j], ss[k]);
      Rep(d1) && Rep(s1) && Sep([d1]) && Sep([s1]) && d1.id == destNode && s1.id == srcNode && Nodes(d1) !! Nodes(s1)
      && Nodes(d1) + Nodes(s1) <= Nodes(ds[j]) + Nodes(ss[k]) && Nodes(s1) <= Nodes(ss[k])
      && Closed(env, Nodes(d1) + Nodes(s1)) && Gone(Nodes(ds[j]) + Nodes(ss[k]), Nodes(d1) + Nodes(s1))
    decreases ss[k], 1
  {
    hide Sep, Links, Ends, Parented, NoDup, Rep, All, Chain, Ids, Nodes;
    ghost var d, s := ds[j], ss[k];
    ghost var d1 := MergeTree(env, d, s);
    KidForest(p, ds, j); KidForest(q, ss, k); SubParts(p, ds, j); SubParts(q, ss, k);
    MergeTreeSep(env, d, s);
    SubWorld(env, p, ds, q, ss, j, k);
    assert d.id.data == d.data;
    ghost var sk := MergeNode(env, destNode, srcNode, d, s);
    s1 := s.(kids := sk);
    RepFromForest(d1); RepFromForest(s1);
    assert Region(d.id, d1.kids, s.id, sk) == Nodes(d1) + Nodes(s1);
  }

  lemma FormSide(p: Node, ds: seq<Tree>, j: nat, d: Tree)
    requires j < |ds| && d.id == ds[j].id && Rep(d) && Chain(p, Ids(ds)) && forall i :: 0 <= i < |ds| && i != j ==>
      Rep(ds[i])
    requires Sep(ds[j := d]) && p !in All(ds[j := d])
    ensures Forest(p, ds[j := d])
  {
    hide Sep, Links, Ends, Parented, NoDup, Rep, All, Chain, Ids, Nodes;
    IdsUpdate(ds, j, d);
    FormForest(p, ds[j := d]);
  }

  lemma IdIn(t: Tree)
    ensures t.id in Nodes(t)
  {
  }

  // Matching siblings j of p and k of q are merged in place
  method MergeAt(env: Env, destNode: Node, srcNode: Node,
                 ghost p: Node, ghost ds: seq<Tree>, ghost j: nat, ghost q: Node, ghost ss: seq<Tree>, ghost k: nat)
                   returns (ghost s1: Tree)
    requires World(env, p, ds, q, ss) && j < |ds| && k < |ss| && ds[j].id == destNode && ss[k].id == srcNode
    requires Mergeable(env, ds[j], ss[k])
    modifies destNode`firstChild, destNode`lastChild, srcNode`firstChild, srcNode`lastChild
    modifies (All(ds[j].kids) + All(ss[k].kids))`parent, (All(ds[j].kids) + All(ss[k].kids))`firstChild,
      (All(ds[j].kids) + All(ss[k].kids))`lastChild
    modifies (All(ds[j].kids) + All(ss[k].kids))`prevSibling, (All(ds[j].kids) + All(ss[k].kids))`nextSibling,
      (All(ds[j].kids) + All(ss[k].kids))`data
    ensures Forest(p, ds[j := MergeTree(env, ds[j], ss[k])]) && Forest(q, ss[k := s1])
    ensures s1.id == srcNode && Sep([s1]) && Nodes(s1) <= Nodes(ss[k])
      && All(ds[j := MergeTree(env, ds[j], ss[k])]) !! All(ss[k := s1])
    ensures p !in All(ss[k := s1]) && q !in All(ds[j := MergeTree(env, ds[j], ss[k])])
    ensures var S, S1 := Nodes(ds[j]) + Nodes(ss[k]), Nodes(MergeTree(env, ds[j], ss[k])) + Nodes(s1);
      S1 <= S && destNode in S1 && srcNode in S1 && Gone(S, S1)
      && Region(p, ds[j := MergeTree(env, ds[j], ss[k])], q, ss[k := s1]) == Region(p, ds, q, ss) - S + S1
    decreases ss[k], 2
  {
    hide Sep, Links, Ends, Parented, NoDup, Rep, All, Chain, Ids, Nodes, MergeTree;
    ghost var d, s := ds[j], ss[k];
    ghost var d1 := MergeTree(env, d, s);
    KidForest(p, ds, j); KidForest(q, ss, k); 
    IdsInAll(ds); IdsInAll(ss); NotBelow(ds, j, d); NotBelow(ss, k, s);
    s1 := MergePair(env, destNode, srcNode, p, ds, j, q, ss, k);
    Rebuild(env, p, ds, q, ss, j, k, d1, s1);
    SeqIn(Ids(ds)); SeqIn(Ids(ss)); 
    assert Chain(p, Ids(ds)) == old(Chain(p, Ids(ds)));
    assert Chain(q, Ids(ss)) == old(Chain(q, Ids(ss)));
    forall i | 0 <= i < |ds| && i != j ensures Rep(ds[i]) == old(Rep(ds[i])) {
      OtherNodes(ds, i, j); NotBelow(ds, j, ds[i]);
      assert old(allocated(All(ds[i].kids)));
    }
    forall i | 0 <= i < |ss| && i != k ensures Rep(ss[i]) == old(Rep(ss[i])) {
      OtherNodes(ss, i, k); NotBelow(ss, k, ss[i]);
      assert old(allocated(All(ss[i].kids)));
    }
    FormSide(p, ds, j, d1); FormSide(q, ss, k, s1);
    AllOne(d1); AllOne(s1); IdIn(d1); IdIn(s1);
  }

  method MergeInPlace(env: Env, destNode: Node, srcNode: Node,
                      ghost p: Node, ghost ds: seq<Tree>, ghost j: nat, ghost q: Node, ghost ss: seq<Tree>,
                        ghost k: nat) returns (ghost s1: Tree)
    requires World(env, p, ds, q, ss) && j < |ds| && k < |ss| && ds[j].id == destNode && ss[k].id == srcNode
    requires Mergeable(env, ds[j], ss[k])
    modifies (All(ds) + All(ss))`parent, (All(ds) + All(ss))`firstChild, (All(ds) + All(ss))`lastChild
    modifies (All(ds) + All(ss))`prevSibling, (All(ds) + All(ss))`nextSibling, (All(ds) + All(ss))`data
    ensures World(env, p, ds[j := MergeTree(env, ds[j], ss[k])], q, ss[k := s1])
    ensures s1.id == srcNode && Nodes(s1) <= Nodes(ss[k]) && Sep([s1])
    ensures Gone(Region(p, ds, q, ss), Region(p, ds[j := MergeTree(env, ds[j], ss[k])], q, ss[k := s1]))
    decreases ss[k], 3
  {
    hide Sep, Links, Ends, Parented, NoDup, Rep, All, Chain, Ids, Nodes, MergeTree;
    ghost var R, S := Region(p, ds, q, ss), Nodes(ds[j]) + Nodes(ss[k]);
    KidForest(p, ds, j); KidForest(q, ss, k); SubParts(p, ds, j); SubParts(q, ss, k);
    assert old(allocated(Cached(env)));
    s1 := MergeAt(env, destNode, srcNode, p, ds, j, q, ss, k);
    ghost var S1 := Nodes(MergeTree(env, ds[j], ss[k])) + Nodes(s1);
    ghost var R1 := R - S + S1;
    assert R - R1 == S - S1;
    forall y | y in Cached(env) && y.parent in R1 ensures y in R1 {
      if y in All(ds[j].kids) + All(ss[k].kids) {
        assert y in S;
      } else {
        assert y.parent == old(y.parent) && y in R;
      }
    }
  }

  lemma StepRegion(env: Env, ds: seq<Tree>, ss: seq<Tree>, k: nat, gone: set<string>)
    requires Sep(ds) && Sep(ss) && All(ds) !! All(ss) && k < |ss|
    ensures All(Step(env, ds, ss[k], gone).0) <= All(ds) + All(ss)
  {
    hide Sep, All, Nodes, Step;
    Split(ss, k);
    StepSep(env, ds, ss[k], gone);
  }

  lemma UpdateSub(ss: seq<Tree>, k: nat, s: Tree)
    requires Sep(ss) && k < |ss| && Sep([s]) && Nodes(s) <= Nodes(ss[k])
    ensures All(ss[k := s]) <= All(ss)
  {
    hide Sep, All, Nodes;
    Split(ss, k);
    UpdateSep(ss, k, s);
  }

  // destNode == nil: the source node leaves its chain and becomes the last child of dest's parent
  method AppendSrcNode(env: Env, dest: Node, srcNode: Node, deleted: set<string>,
                       ghost p: Node, ghost ds: seq<Tree>, ghost q: Node, ghost ss: seq<Tree>, ghost k: nat)
    returns (next: Node?, deleted1: set<string>, ghost ds1: seq<Tree>, ghost ss1: seq<Tree>, ghost k1: nat)
    requires World(env, p, ds, q, ss) && ds != [] && dest == ds[0].id && k < |ss| && srcNode == ss[k].id
    requires ds[0].nodeType != Text && ss[k].nodeType != Text
    modifies p`firstChild, p`lastChild, q`firstChild, q`lastChild
    modifies (All(ds) + All(ss))`parent, (All(ds) + All(ss))`firstChild, (All(ds) + All(ss))`lastChild
    modifies (All(ds) + All(ss))`prevSibling, (All(ds) + All(ss))`nextSibling, (All(ds) + All(ss))`data
    ensures World(env, p, ds1, q, ss1) && (ds1, deleted1) == Append(ds, ss[k], deleted)
    ensures k1 <= |ss1| && ss1[k1..] == ss[k + 1..] && next == HeadId(ss1, k1) && All(ss1) <= All(ss)
    ensures Gone(Region(p, ds, q, ss), Region(p, ds1, q, ss1))
  {
    hide Sep, Links, Ends, Parented, NoDup, Rep, All, Chain, Ids, Nodes;
    ChainNext(q, ss, k);
    RemoveSep(ss, k);
    next, deleted1, ds1, ss1, k1 := srcNode.nextSibling, deleted, ds + [ss[k]], Remove(ss, k), k;
    MoveToDest(env, dest, srcNode, p, ds, q, ss, k);
    if IsLeafList(srcNode.attr) { deleted1 := deleted + {srcNode.data}; }
  }

  // destNode found: the source node stays in its chain, its children are merged
  method MatchSrcNode(env: Env, destNode: Node, srcNode: Node,
                      ghost p: Node, ghost ds: seq<Tree>, ghost j: nat, ghost q: Node, ghost ss: seq<Tree>,
                        ghost k: nat)
    returns (next: Node?, ghost ds1: seq<Tree>, ghost ss1: seq<Tree>, ghost k1: nat)
    requires World(env, p, ds, q, ss) && j < |ds| && k < |ss| && ds[j].id == destNode && ss[k].id == srcNode
    requires Mergeable(env, ds[j], ss[k])
    modifies p`firstChild, p`lastChild, q`firstChild, q`lastChild
    modifies (All(ds) + All(ss))`parent, (All(ds) + All(ss))`firstChild, (All(ds) + All(ss))`lastChild
    modifies (All(ds) + All(ss))`prevSibling, (All(ds) + All(ss))`nextSibling, (All(ds) + All(ss))`data
    ensures World(env, p, ds1, q, ss1) && ds1 == ds[j := MergeTree(env, ds[j], ss[k])]
    ensures k1 <= |ss1| && ss1[k1..] == ss[k + 1..] && next == HeadId(ss1, k1) && All(ss1) <= All(ss)
    ensures Gone(Region(p, ds, q, ss), Region(p, ds1, q, ss1))
    decreases ss[k], 4
  {
    hide Sep, Links, Ends, Parented, NoDup, Rep, All, Chain, Ids, Nodes, MergeTree;
    ghost var s1 := MergeInPlace(env, destNode, srcNode, p, ds, j, q, ss, k);
    ds1, ss1, k1 := ds[j := MergeTree(env, ds[j], ss[k])], ss[k := s1], k + 1;
    UpdateSub(ss, k, s1);
    ChainNext(q, ss1, k);
    next := srcNode.nextSibling;
  }

  // All destination leaf-lists of that name go, and the search for a destination starts again
  method RestartSrcNode(env: Env, dest: Node, destNode: Node, srcNode: Node, deleted: set<string>,
                        ghost p: Node, ghost ds: seq<Tree>, ghost i: nat, ghost q: Node, ghost ss: seq<Tree>,
                          ghost k: nat)
    returns (next: Node?, deleted1: set<string>, ghost ds1: seq<Tree>, ghost ss1: seq<Tree>, ghost k1: nat)
    requires World(env, p, ds, q, ss) && ds != [] && dest == ds[0].id && k < |ss| && srcNode == ss[k].id
    requires EnvOk(env) && Typed(env, false, ds) && TypedTree(env, ss[k]) && OneKind(ss[k].kids)
    requires 0 < i < |ds| && ds[i].id == destNode && ds[i].data == ss[k].data && ss[k].data !in deleted
      && IsLeafList(ds[i].attr)
    modifies p`firstChild, p`lastChild, q`firstChild, q`lastChild
    modifies (All(ds) + All(ss))`parent, (All(ds) + All(ss))`firstChild, (All(ds) + All(ss))`lastChild
    modifies (All(ds) + All(ss))`prevSibling, (All(ds) + All(ss))`nextSibling, (All(ds) + All(ss))`data
    ensures World(env, p, ds1, q, ss1)
    ensures (ds1, deleted1) == Step(env, DeleteRun(ds, i, ss[k].data), ss[k], deleted + {ss[k].data})
    ensures k1 <= |ss1| && ss1[k1..] == ss[k + 1..] && next == HeadId(ss1, k1) && All(ss1) <= All(ss)
    ensures Gone(Region(p, ds, q, ss), Region(p, ds1, q, ss1))
    decreases ss[k], 5, 1
  {
    hide Sep, Links, Ends, Parented, NoDup, Rep, All, Chain, Ids, Nodes, Step;
    ghost var dr := DeleteRun(ds, i, ss[k].data);
    ghost var R0, R1 := Region(p, ds, q, ss), Region(p, dr, q, ss);
    DeleteRunTyped(env, ds, i, ss[k].data);
    assert dr[0] == dr[..i][0];
    DeleteRunSep(ds, i, ss[k].data);
    StepRegion(env, dr, ss, k, deleted + {ss[k].data});
    ChainNext(q, ss, k);
    var name := srcNode.data;
    DeleteDestLeafList(env, destNode, p, ds, i, q, ss);
    assert allocated(R0) && allocated(R1);
    next, deleted1, ds1, ss1, k1 := MergeSrcNode(env, dest, srcNode, deleted + {name}, p, dr, q, ss, k);
    assert Gone(R0, R1);
    GoneTrans(R0, R1, Region(p, ds1, q, ss1));
  }

  // One turn of the source loop: the source node finds its destination and is merged, or it is appended
  method MergeSrcNode(env: Env, dest: Node, srcNode: Node, deleted: set<string>,
                      ghost p: Node, ghost ds: seq<Tree>, ghost q: Node, ghost ss: seq<Tree>, ghost k: nat)
    returns (next: Node?, deleted1: set<string>, ghost ds1: seq<Tree>, ghost ss1: seq<Tree>, ghost k1: nat)
    requires World(env, p, ds, q, ss) && ds != [] && dest == ds[0].id && k < |ss| && srcNode == ss[k].id
    requires EnvOk(env) && Typed(env, false, ds) && TypedTree(env, ss[k]) && OneKind(ss[k].kids)
      && !Loses(ds, ss[k], deleted)
    modifies p`firstChild, p`lastChild, q`firstChild, q`lastChild
    modifies (All(ds) + All(ss))`parent, (All(ds) + All(ss))`firstChild, (All(ds) + All(ss))`lastChild
    modifies (All(ds) + All(ss))`prevSibling, (All(ds) + All(ss))`nextSibling, (All(ds) + All(ss))`data
    ensures World(env, p, ds1, q, ss1) && (ds1, deleted1) == Step(env, ds, ss[k], deleted)
    ensures k1 <= |ss1| && ss1[k1..] == ss[k + 1..] && next == HeadId(ss1, k1) && All(ss1) <= All(ss)
    ensures Gone(Region(p, ds, q, ss), Region(p, ds1, q, ss1))
    decreases ss[k], 5, if ss[k].data in deleted then 0 else 2
  {
    hide Sep, Links, Ends, Parented, NoDup, Rep, All, Chain, Ids, Nodes, MergeTree;
    ghost var i := FindName(ds, ss[k].data);
    ghost var j := i;
    ChainNext(q, ss, k);
    deleted1 := deleted;
    assert ds[0] in ds;
    var destNode := FindByName(dest, srcNode.data, env, p, ds, q, ss);
    if destNode != null {
      ChainNext(p, ds, i);
      assert ds[i] in ds;
      if IsListName(destNode.data) {
        j := FindId(ds, CachedList(env, ss[k].data, ss[k].attr));
        CachedListIsCached(env, ss[k].data, ss[k].attr);
        KidForest(p, ds, i);
        destNode := CheckIfListNodeExists(env, destNode, srcNode, p, ds, q, ss);
      } else if IsLeafList(destNode.attr) && IsLeafList(srcNode.attr) {
        if srcNode.data !in deleted {
          next, deleted1, ds1, ss1, k1 := RestartSrcNode(env, dest, destNode, srcNode, deleted, p, ds, i, q, ss, k);
          return;
        } else {
          destNode := null;
        }
      }
    }
    if destNode == null {
      next, deleted1, ds1, ss1, k1 := AppendSrcNode(env, dest, srcNode, deleted, p, ds, q, ss, k);
    } else {
      assert ds[j] in ds;
      next, ds1, ss1, k1 := MatchSrcNode(env, destNode, srcNode, p, ds, j, q, ss, k);
    }
  }

  lemma WorldSwap(env: Env, p: Node, ds: seq<Tree>, q: Node, ss: seq<Tree>)
    requires World(env, p, ds, q, ss)
    ensures World(env, q, ss, p, ds) && Region(q, ss, p, ds) == Region(p, ds, q, ss)
  {
    hide Forest, All, Closed;
    assert Region(q, ss, p, ds) == Region(p, ds, q, ss);
  }

  // The search for a destination, when only the deleted cursor is left to look at
  method SearchFromDeleted(dest: Node, srcNode: Node, deleted: set<string>) returns (destNode: Node?)
    requires dest.nextSibling == null
    requires dest.data == srcNode.data ==> IsLeafList(dest.attr) && IsLeafList(srcNode.attr) && srcNode.data in deleted
    ensures destNode == null
  {
    destNode := dest;
    while destNode != null
      invariant destNode == dest || destNode == null
      decreases if destNode == null then 0 else 1
    {
      if destNode.data == srcNode.data {
        assert IsLeafList(destNode.attr) && IsLeafList(srcNode.attr) && srcNode.data in deleted;
        destNode := null;
      } else {
        destNode := destNode.nextSibling;
      }
    }
  }

  // A source node is detached and appended to the parent of the deleted cursor, which is nil
  method LoseOne(env: Env, dest: Node, srcNode: Node, deleted: set<string>,
                 ghost p: Node, ghost ds: seq<Tree>, ghost q: Node, ghost ss: seq<Tree>, ghost k: nat)
    returns (next: Node?, deleted1: set<string>, ghost ss1: seq<Tree>)
    requires World(env, p, ds, q, ss) && k < |ss| && srcNode == ss[k].id && ss[k].nodeType != Text
    requires dest.parent == null && dest !in Region(p, ds, q, ss)
    modifies q`firstChild, q`lastChild, All(ss)`nextSibling, All(ss)`prevSibling, All(ss)`parent
    ensures ss1 == Remove(ss, k) && World(env, p, ds, q, ss1) && next == HeadId(ss, k + 1) && deleted <= deleted1
    ensures Region(p, ds, q, ss1) <= Region(p, ds, q, ss) && All(ss1) <= All(ss)
    ensures Gone(Region(p, ds, q, ss), Region(p, ds, q, ss1)) && dest !in Region(p, ds, q, ss1)
  {
    hide Sep, Links, Ends, Parented, NoDup, Rep, All, Chain, Ids, Nodes;
    ss1, deleted1 := Remove(ss, k), deleted;
    ChainNext(q, ss, k); KidForest(q, ss, k);
    next := srcNode.nextSibling;
    WorldSwap(env, p, ds, q, ss); WorldParts(env, p, ds, q, ss); RemoveSep(ss, k);
    DetachWorld(env, srcNode, q, ss, k, p, ds);
    WorldSwap(env, q, ss1, p, ds);
    if IsLeafList(srcNode.attr) { deleted1 := deleted + {srcNode.data}; }
    assert allocated(All(ds)) && allocated(All(ss1)) && allocated(Cached(env)) && allocated(Region(p, ds, q, ss));
    AppendToNobody(dest.parent, srcNode);
  }

  method AppendToNobody(parent: Node?, srcNode: Node)
    requires parent == null && Links([srcNode])
    modifies srcNode`prevSibling, srcNode`parent
    ensures unchanged(srcNode)
  {
    assert [srcNode][0] == srcNode;
    var ok := AppendSubtree(parent, srcNode, [], [srcNode]);
  }

  // The destination cursor dest is deleted: the search starts from a detached node and finds nothing,
  // and every source node from srcNode on is detached and appended to no parent
  method LoseRest(env: Env, dest: Node, src: Node, deleted: set<string>,
                  ghost p: Node, ghost ds: seq<Tree>, ghost q: Node, ghost ss: seq<Tree>, ghost k: nat)
    returns (ghost ds1: seq<Tree>, ghost ss1: seq<Tree>)
    requires World(env, p, ds, q, ss) && k < |ss| && src == ss[k].id && ds != [] && dest == ds[0].id
    requires Typed(env, false, ds) && (forall i :: k <= i < |ss| ==> TypedTree(env, ss[i])) && OneKind(ss[k..])
    requires Loses(ds, ss[k], deleted)
    modifies p`firstChild, p`lastChild, q`firstChild, q`lastChild
    modifies (All(ds) + All(ss))`parent, (All(ds) + All(ss))`firstChild, (All(ds) + All(ss))`lastChild
    modifies (All(ds) + All(ss))`prevSibling, (All(ds) + All(ss))`nextSibling, (All(ds) + All(ss))`data
    ensures World(env, p, ds1, q, ss1) && ds1 == DeleteRun(ds, 0, ss[k].data) && ss1 == ss[..k]
    ensures All(ss1) <= All(ss) && Region(p, ds1, q, ss1) <= Region(p, ds, q, ss)
    ensures Gone(Region(p, ds, q, ss), Region(p, ds1, q, ss1))
  {
    hide Sep, Links, Ends, Parented, NoDup, Rep, All, Chain, Ids, Nodes, DeleteRun, OneKind, TypedTree, Closed;
    ghost var R0 := Region(p, ds, q, ss);
    ghost var name := ss[k].data;
    Elements(env, ds);
    ChainNext(p, ds, 0); ChainNext(q, ss, k);
    ds1, ss1 := DeleteRun(ds, 0, name), ss;
    DeleteDestLeafList(env, dest, p, ds, 0, q, ss);
    var destLeafListDeleted := deleted + {src.data};
    assert dest.data == name && IsLeafList(dest.attr);
    DeleteRunSep(ds, 0, name);
    var srcNode: Node? := src;
    while srcNode != null
      invariant World(env, p, ds1, q, ss1) && k <= |ss1| <= |ss| && srcNode == HeadId(ss1, k)
      invariant ss1[..k] == ss[..k] && ss1[k..] == ss[|ss| - (|ss1| - k)..] && All(ss1) <= All(ss)
      invariant Gone(R0, Region(p, ds1, q, ss1)) && Region(p, ds1, q, ss1) <= R0
      invariant dest.parent == null && dest.nextSibling == null && dest !in Region(p, ds1, q, ss1)
      invariant dest.data == name && IsLeafList(dest.attr) && name in destLeafListDeleted
      decreases |ss1|
    {
      ghost var m := |ss| - (|ss1| - k);
      assert ss1[k] == ss1[k..][0] == ss[m..][0] == ss[m];
      KindAt(env, ss, k, m);
      ChainNext(q, ss1, k);
      assert allocated(All(ds1)) && allocated(All(ss1)) && allocated(Cached(env)) && allocated(R0);
      var destNode := SearchFromDeleted(dest, srcNode, destLeafListDeleted);
      ghost var s0 := ss1;
      ghost var R1 := Region(p, ds1, q, ss1);
      assert allocated(R0) && allocated(R1);
      RemoveTail(ss, ss1, k);
      srcNode, destLeafListDeleted, ss1 := LoseOne(env, dest, srcNode, destLeafListDeleted, p, ds1, q, ss1, k);
      assert Gone(R0, R1);
      GoneTrans(R0, R1, Region(p, ds1, q, ss1));
    }
    assert ss1 == ss1[..k];
  }

  lemma LoseTail(ss: seq<Tree>, n: nat, ss1: seq<Tree>, k: nat)
    requires n < |ss| && k <= |ss1| && ss1[k..] == ss[n..] && OneKind(ss)
    ensures OneKind(ss1[k..]) && (forall i :: k <= i < |ss1| ==> ss1[i] in ss)
  {
    var t := ss1[k..];
    forall i | 0 <= i < |t| ensures t[i] == ss[n + i] {}
    forall i | k <= i < |ss1| ensures ss1[i] in ss { assert ss1[i] == t[i - k]; }
  }

  lemma Elements(env: Env, ds: seq<Tree>)
    requires Typed(env, false, ds)
    ensures forall t :: t in ds ==> t.nodeType != Text
  {
  }

  lemma KindAt(env: Env, ss: seq<Tree>, k: nat, m: nat)
    requires k <= m < |ss| && OneKind(ss[k..]) && TypedTree(env, ss[m])
    ensures ss[m].nodeType != Text
    ensures ss[m].data == ss[k].data ==> (IsLeafList(ss[m].attr) <==> IsLeafList(ss[k].attr))
  {
    var t := ss[k..];
    assert t[0] == ss[k] && t[m - k] == ss[m];
  }

  lemma RemoveTail(ss: seq<Tree>, ss1: seq<Tree>, k: nat)
    requires k < |ss1| <= |ss| && ss1[..k] == ss[..k] && ss1[k..] == ss[|ss| - (|ss1| - k)..]
    ensures var r := Remove(ss1, k);
      |r| == |ss1| - 1 && r[..k] == ss[..k] && r[k..] == ss[|ss| - (|r| - k)..] && (k < |r| ==> r[k] == ss1[k + 1])
      && HeadId(r, k) == HeadId(ss1, k + 1)
  {
    var r := Remove(ss1, k);
    assert r[k..] == ss1[k + 1..] == ss1[k..][1..];
  }

  method MergeYangData(env: Env, dest: Node?, src: Node?, ghost p: Node, ghost ds: seq<Tree>, ghost q: Node,
    ghost ss: seq<Tree>, ghost leaf: bool)
    returns (ok: bool, ghost ds1: seq<Tree>, ghost ss1: seq<Tree>)
    requires World(env, p, ds, q, ss) && dest == HeadId(ds, 0) && src == HeadId(ss, 0)
    requires EnvOk(env) && Typed(env, leaf, ds) && Typed(env, leaf, ss) && OneKind(ss)
    modifies p`firstChild, p`lastChild, q`firstChild, q`lastChild
    modifies (All(ds) + All(ss))`parent, (All(ds) + All(ss))`firstChild, (All(ds) + All(ss))`lastChild
    modifies (All(ds) + All(ss))`prevSibling, (All(ds) + All(ss))`nextSibling, (All(ds) + All(ss))`data
    ensures World(env, p, ds1, q, ss1)
    ensures ok <==> ds != [] && ss != []
    ensures !ok ==> ds1 == ds && ss1 == ss
    ensures ok ==> ds1 == if leaf then ds[0 := ds[0].(data := ss[0].data)] else MergeFrom(env, ds, ss, {})
    ensures All(ss1) <= All(ss)
    ensures Gone(Region(p, ds, q, ss), Region(p, ds1, q, ss1))
    decreases ss, 1
  {
    hide Sep, Links, Ends, Parented, NoDup, Rep, All, Chain, Ids, Nodes, Step;
    ds1, ss1 := ds, ss;
    if dest == null || src == null { return false, ds1, ss1; }
    assert ds[0] in ds && ss[0] in ss;
    ChainNext(p, ds, 0); ChainNext(q, ss, 0);
    if dest.nodeType == Text && src.nodeType == Text {
      KidForest(p, ds, 0);
      SetText(env, dest, src.data, p, ds, q, ss);
      ds1 := [ds[0].(data := ss[0].data)];
      return true, ds1, ss1;
    }
    ok, ds1, ss1 := MergeChains(env, dest, src, p, ds, q, ss);
  }

  method MergeChains(env: Env, dest: Node, src: Node, ghost p: Node, ghost ds: seq<Tree>, ghost q: Node,
    ghost ss: seq<Tree>)
    returns (ok: bool, ghost ds1: seq<Tree>, ghost ss1: seq<Tree>)
    requires World(env, p, ds, q, ss) && dest == HeadId(ds, 0) && src == HeadId(ss, 0)
    requires EnvOk(env) && Typed(env, false, ds) && Typed(env, false, ss) && OneKind(ss)
    modifies p`firstChild, p`lastChild, q`firstChild, q`lastChild
    modifies (All(ds) + All(ss))`parent, (All(ds) + All(ss))`firstChild, (All(ds) + All(ss))`lastChild
    modifies (All(ds) + All(ss))`prevSibling, (All(ds) + All(ss))`nextSibling, (All(ds) + All(ss))`data
    ensures ok && World(env, p, ds1, q, ss1) && ds1 == MergeFrom(env, ds, ss, {})
    ensures All(ss1) <= All(ss)
    ensures Gone(Region(p, ds, q, ss), Region(p, ds1, q, ss1))
    decreases ss, 0, 1
  {
    hide Sep, Links, Ends, Parented, NoDup, Rep, All, Chain, Ids, Nodes, Step;
    var srcNode: Node? := src;
    var destLeafListDeleted: set<string> := {};
    ds1, ss1 := ds, ss;
    ghost var k: nat, n: nat := 0, 0;
    ghost var R0 := Region(p, ds, q, ss);
    while srcNode != null
      invariant n <= |ss| && Turning(env, p, ds, q, ss, dest, srcNode, destLeafListDeleted, ds1, ss1, k, n)
      invariant Gone(R0, Region(p, ds1, q, ss1))
      decreases |ss| - n
    {
      ghost var R1 := Region(p, ds1, q, ss1);
      assert allocated(R0) && allocated(R1);
      var lost;
      lost, srcNode, destLeafListDeleted, ds1, ss1, k :=
        MergeTurn(env, dest, srcNode, destLeafListDeleted, p, ds, q, ss, ds1, ss1, k, n);
      assert Gone(R0, R1);
      GoneTrans(R0, R1, Region(p, ds1, q, ss1));
      if lost { return true, ds1, ss1; }
      n := n + 1;
    }
    assert ss[n..] == [];
    ok := true;
  }

  // Between two turns of the source loop: k is where the next source node stands in what is left of the source list
  ghost predicate Turning(env: Env, p: Node, ds: seq<Tree>, q: Node, ss: seq<Tree>, dest: Node, srcNode: Node?,
    deleted: set<string>,
                          ds1: seq<Tree>, ss1: seq<Tree>, k: nat, n: nat)
    requires n <= |ss|
    reads p, q, All(ds1), All(ss1), Cached(env)
  {
    World(env, p, ds1, q, ss1) && ds1 != [] && dest == ds1[0].id && Typed(env, false, ds1)
    && k <= |ss1| && ss1[k..] == ss[n..] && srcNode == HeadId(ss1, k)
    && MergeFrom(env, ds, ss, {}) == MergeFrom(env, ds1, ss[n..], deleted)
    && All(ss1) <= All(ss) && All(ds1) <= All(ds) + All(ss)
  }

  // One turn of the source loop, and all that follow it when the cursor is deleted
  method MergeTurn(env: Env, dest: Node, srcNode: Node, deleted: set<string>,
                   ghost p: Node, ghost ds: seq<Tree>, ghost q: Node, ghost ss: seq<Tree>, ghost d0: seq<Tree>,
                     ghost s0: seq<Tree>, ghost k0: nat, ghost n: nat)
    returns (lost: bool, next: Node?, deleted1: set<string>, ghost ds1: seq<Tree>, ghost ss1: seq<Tree>, ghost k1: nat)
    requires n < |ss| && Turning(env, p, ds, q, ss, dest, srcNode, deleted, d0, s0, k0, n)
    requires EnvOk(env) && Typed(env, false, ss) && OneKind(ss)
    modifies p`firstChild, p`lastChild, q`firstChild, q`lastChild
    modifies (All(d0) + All(s0))`parent, (All(d0) + All(s0))`firstChild, (All(d0) + All(s0))`lastChild
    modifies (All(d0) + All(s0))`prevSibling, (All(d0) + All(s0))`nextSibling, (All(d0) + All(s0))`data
    ensures if lost then World(env, p, ds1, q, ss1) && ds1 == MergeFrom(env, ds, ss, {}) && All(ss1) <= All(ss)
      else Turning(env, p, ds, q, ss, dest, next, deleted1, ds1, ss1, k1, n + 1)
    ensures Region(p, ds1, q, ss1) <= Region(p, d0, q, s0)
    ensures Gone(Region(p, d0, q, s0), Region(p, ds1, q, ss1))
    decreases ss, 0, 0
  {
    hide Sep, Links, Ends, Parented, NoDup, Rep, All, Chain, Ids, Nodes, Step, OneKind;
    lost, k1 := false, k0;
    TurnFacts(env, p, ds, q, ss, dest, srcNode, deleted, d0, s0, k0, n);
    ChainNext(p, d0, 0); ChainNext(q, s0, k0);
    if dest.data == srcNode.data && IsLeafList(dest.attr) && IsLeafList(srcNode.attr) && srcNode.data !in deleted {
      LoseTail(ss, n, s0, k0);
      ds1, ss1 := LoseRest(env, dest, srcNode, deleted, p, d0, q, s0, k0);
      return true, null, deleted, ds1, ss1, k0;
    }
    next, deleted1, ds1, ss1, k1 := MergeSrcNode(env, dest, srcNode, deleted, p, d0, q, s0, k0);
  }

  lemma TurnFacts(env: Env, p: Node, ds: seq<Tree>, q: Node, ss: seq<Tree>, dest: Node, srcNode: Node,
    deleted: set<string>,
                  d0: seq<Tree>, s0: seq<Tree>, k0: nat, n: nat)
    requires n < |ss| && Turning(env, p, ds, q, ss, dest, srcNode, deleted, d0, s0, k0, n)
    requires EnvOk(env) && Typed(env, false, ss) && OneKind(ss)
    ensures k0 < |s0| && s0[k0] == ss[n] && s0[k0 + 1..] == ss[n + 1..] && TypedTree(env, ss[n]) && OneKind(ss[n].kids)
    ensures Loses(d0, ss[n], deleted) <==>
      d0[0].data == ss[n].data && IsLeafList(d0[0].attr) && IsLeafList(ss[n].attr) && ss[n].data !in deleted
    ensures MergeFrom(env, ds, ss, {}) ==
      if Loses(d0, ss[n], deleted) then DeleteRun(d0, 0, ss[n].data)
      else MergeFrom(env, Step(env, d0, ss[n], deleted).0, ss[n + 1..], Step(env, d0, ss[n], deleted).1)
    ensures !Loses(d0, ss[n], deleted) ==>
      var d1 := Step(env, d0, ss[n], deleted).0;
      d1 != [] && d1[0].id == d0[0].id && Typed(env, false, d1) && All(d1) <= All(d0) + All(s0)
  {
    TailStep(s0, k0, ss, n);
    assert ss[n] in ss && d0[0] in d0;
    hide Sep, All, Nodes, Forest, Closed, OneKind, Step;
    if !Loses(d0, ss[n], deleted) {
      StepTyped(env, d0, ss[n], deleted);
      WorldParts(env, p, d0, q, s0);
      WorldApart(env, p, d0, q, s0);
      StepRegion(env, d0, s0, k0, deleted);
      assert Step(env, d0, s0[k0], deleted) == Step(env, d0, ss[n], deleted);
    }
  }

  lemma WorldApart(env: Env, p: Node, ds: seq<Tree>, q: Node, ss: seq<Tree>)
    requires World(env, p, ds, q, ss)
    ensures All(ds) !! All(ss)
  {
  }

  lemma TailStep(s0: seq<Tree>, k0: nat, ss: seq<Tree>, n: nat)
    requires k0 <= |s0| && n < |ss| && s0[k0..] == ss[n..]
    ensures k0 < |s0| && s0[k0] == ss[n] && s0[k0 + 1..] == ss[n + 1..]
  {
    assert |s0| - k0 == |ss| - n;
    assert s0[k0] == s0[k0..][0] == ss[n..][0] == ss[n];
    assert s0[k0 + 1..] == s0[k0..][1..] && ss[n..][1..] == ss[n + 1..];
  }

  // A whole document, standing alone
  ghost predicate IsDocument(root: Node, t: Tree)
    reads root, Nodes(t)
  {
    t.id == root && t.nodeType == Document && Rep(t) && Sep([t])
    && root.parent == null && root.prevSibling == null && root.nextSibling == null
  }

  // The outermost activation: root and doc are both unnamed documents, so they match and their children are merged
  method MergeDocuments(env: Env, root: Node, doc: Node, ghost d: Tree, ghost s: Tree)
    requires IsDocument(root, d) && IsDocument(doc, s) && Nodes(d) !! Nodes(s)
    requires EnvOk(env) && Closed(env, Nodes(d) + Nodes(s)) && d.data == s.data == "" && "" !in env.leaves
    requires TypedTree(env, d) && TypedTree(env, s) && OneKind(s.kids)
    modifies root`firstChild, root`lastChild, doc`firstChild, doc`lastChild
    modifies (All(d.kids) + All(s.kids))`parent, (All(d.kids) + All(s.kids))`firstChild,
      (All(d.kids) + All(s.kids))`lastChild
    modifies (All(d.kids) + All(s.kids))`prevSibling, (All(d.kids) + All(s.kids))`nextSibling,
      (All(d.kids) + All(s.kids))`data
    ensures IsDocument(root, MergeTree(env, d, s)) && TypedTree(env, MergeTree(env, d, s))
    ensures Nodes(MergeTree(env, d, s)) <= Nodes(d) + Nodes(s)
  {
    hide Links, Ends, Parented, NoDup, Rep, All, Chain, Ids;
    SepOne(d); SepOne(s);
    assert Forest(d.id, d.kids) && Forest(s.id, s.kids) && Own(d) by { DocForest(root, d); DocForest(doc, s); }
    assert Region(d.id, d.kids, s.id, s.kids) == Nodes(d) + Nodes(s);
    MergeTreeSep(env, d, s); MergeTreeTyped(env, d, s);
    ghost var d1 := MergeTree(env, d, s);
    assert d1.nodeType == d.nodeType && d1.data == d.data && d1.attr == d.attr;
    ghost var sk := MergeNode(env, root, doc, d, s);
    RepFromForest(d1);
  }

  lemma DocForest(root: Node, t: Tree)
    requires IsDocument(root, t)
    ensures Forest(root, t.kids) && Own(t)
  {
    SepOne(t);
  }
}
