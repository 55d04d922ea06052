// The loops of the merge that search and delete.
module YangMergeSearch {
  import opened YangNodes
  import opened YangTree
  import opened YangMerge
  import opened YangLists
  import opened YangMergeSets
  import opened YangMergeWorld
  import opened YangMergeOps
  import opened YangMergeTyped

  ghost function HeadId(ts: seq<Tree>, i: nat): Node?
    requires i <= |ts|
  {
    if i < |ts| then ts[i].id else null
  }

  lemma {:induction false} DeleteRunSub(ds: seq<Tree>, i: nat, name: string)
    requires i <= |ds|
    ensures forall t :: t in DeleteRun(ds, i, name) ==> t in ds
    decreases |ds|
  {
    if i < |ds| && ds[i].data == name { DeleteRunSub(Remove(ds, i), i, name); }
  }

  lemma ChainNext(p: Node, ts: seq<Tree>, i: nat)
    requires Forest(p, ts) && i < |ts|
    ensures ts[i].id.nextSibling == HeadId(ts, i + 1) && ts[i].id.data == ts[i].data && ts[i].id.attr == ts[i].attr
      && ts[i].id.nodeType == ts[i].nodeType
  {
    assert Ids(ts)[i] == ts[i].id;
    assert ts[i] in ts;
  }

  lemma GoneTrans(R0: set<Node>, R1: set<Node>, R2: set<Node>)
    requires R1 <= R0 && R2 <= R1 && Gone(R0, R1) && Gone(R1, R2)
    ensures Gone(R0, R2)
  {
    assert R0 - R2 == (R0 - R1) + (R1 - R2);
  }

  lemma AloneNext(node: Node)
    requires Links([node])
    ensures node.nextSibling == null
  {
    assert [node][0] == node;
  }

  method DeleteDestLeafList(ghost env: Env, dest: Node, ghost p: Node, ghost ds: seq<Tree>, ghost i: nat,
    ghost q: Node, ghost ss: seq<Tree>)
    requires World(env, p, ds, q, ss) && i < |ds| && ds[i].id == dest
    requires forall t :: t in ds ==> t.nodeType != Text
    modifies p`firstChild, p`lastChild, All(ds)`nextSibling, All(ds)`prevSibling, All(ds)`parent
    ensures World(env, p, DeleteRun(ds, i, ds[i].data), q, ss)
    ensures Gone(Region(p, ds, q, ss), Region(p, DeleteRun(ds, i, ds[i].data), q, ss))
    ensures dest.parent == null && dest.nextSibling == null && dest !in Region(p, DeleteRun(ds, i, ds[i].data), q, ss)
  {
    hide Sep, Links, Ends, Parented, NoDup, Rep, All, Nodes, Chain, Ids;
    assert Forest(p, ds) by { WorldForest(env, p, ds, q, ss); }
    ChainNext(p, ds, i);
    assert dest in All(ds) && dest !in {p, q} + All(ss) by { KidForest(p, ds, i); }
    var leafListName := dest.data;
    var node: Node? := dest;
    ghost var cur := ds;
    ghost var R0 := Region(p, ds, q, ss);
    while node != null
      invariant i <= |cur| && node == HeadId(cur, i)
      invariant World(env, p, cur, q, ss) && forall t :: t in cur ==> t.nodeType != Text
      invariant DeleteRun(ds, i, leafListName) == DeleteRun(cur, i, leafListName)
      invariant All(cur) <= All(ds)
      invariant if cur == ds then node == dest else dest !in All(cur) && dest.parent == null && dest.nextSibling == null
      invariant Region(p, cur, q, ss) <= R0 && Gone(R0, Region(p, cur, q, ss))
      decreases |cur|
    {
      WorldForest(env, p, cur, q, ss);
      ChainNext(p, cur, i);
      var tmpNextNode := node.nextSibling;
      if node.data == leafListName {
        label before:
        ghost var R1 := Region(p, cur, q, ss);
        assert allocated(R0) && allocated(R1);
        WorldParts(env, p, cur, q, ss); RemoveSep(cur, i);
        DetachWorld(env, node, p, cur, i, q, ss);
        AloneNext(node);
        assert Gone(R0, R1);
        GoneTrans(R0, R1, Region(p, Remove(cur, i), q, ss));
        cur := Remove(cur, i);
        node := tmpNextNode;
        continue;
      } else {
        break;
      }
    }
  }

  lemma WorldForest(env: Env, p: Node, ds: seq<Tree>, q: Node, ss: seq<Tree>)
    requires World(env, p, ds, q, ss)
    ensures Forest(p, ds) && Forest(q, ss)
  {
  }

  // The cached instance for src, when it hangs below the same parent as dest
  method CheckIfListNodeExists(env: Env, dest: Node, src: Node, ghost p: Node, ghost ds: seq<Tree>, ghost q: Node,
    ghost ss: seq<Tree>)
    returns (yangList: Node?)
    requires World(env, p, ds, q, ss) && dest.parent == p
    ensures World(env, p, ds, q, ss)
    ensures var y := CachedList(env, src.data, src.attr); yangList == if FindId(ds, y) < |ds| then y else null
  {
    hide Sep, Links, Ends, Parented, NoDup, Rep, All, Nodes, Chain, Ids;
    var tableName, redisKey := ListTable(env.tableOf, src.data), AttrVal(src.attr, "key");
    CachedListIsCached(env, src.data, src.attr);
    if tableName == "" || redisKey == "" { return null; }
    if tableName !in env.requestCache || redisKey !in env.requestCache[tableName] { return null; }
    var entry := env.requestCache[tableName][redisKey];
    if |entry| == 0 { return null; }
    yangList := entry[0];
    if yangList == null { return null; }
    CachedIsChild(env, p, ds, q, ss, yangList);
    if yangList.parent == null { return null; }
    if dest.parent == yangList.parent { return yangList; }
    return null;
  }

  // The first of the siblings from dest on that is called name
  method FindByName(dest: Node, name: string, ghost env: Env, ghost p: Node, ghost ds: seq<Tree>, ghost q: Node,
    ghost ss: seq<Tree>)
    returns (destNode: Node?)
    requires World(env, p, ds, q, ss) && dest == HeadId(ds, 0)
    ensures World(env, p, ds, q, ss) && destNode == HeadId(ds, FindName(ds, name))
  {
    hide Sep, Links, Ends, Parented, NoDup, Rep, All, Nodes, Chain, Ids;
    destNode := dest;
    ghost var i := 0;
    assert allocated(All(ds)) && allocated(All(ss)) && allocated(Cached(env));
    while destNode != null
      invariant World(env, p, ds, q, ss)
      invariant i <= |ds| && destNode == HeadId(ds, i)
      invariant forall k :: 0 <= k < i ==> ds[k].data != name
      decreases |ds| - i
    {
      ChainNext(p, ds, i);
      if destNode.data == name { break; }
      destNode := destNode.nextSibling;
      i := i + 1;
    }
  }

  method SetText(ghost env: Env, dest: Node, text: string, ghost p: Node, ghost ds: seq<Tree>, ghost q: Node,
    ghost ss: seq<Tree>)
    requires World(env, p, ds, q, ss) && |ds| == 1 && dest == ds[0].id && ds[0].kids == []
    modifies dest`data
    ensures World(env, p, [ds[0].(data := text)], q, ss)
    ensures Region(p, [ds[0].(data := text)], q, ss) == Region(p, ds, q, ss)
  {
    hide Sep, Links, Ends, Parented, NoDup;
    dest.data := text;
    var t, u := ds[0], ds[0].(data := text);
    assert ds == [t];
    AllOne(t); AllOne(u); SepOne(t); SepOne(u); IdsOne(t); IdsOne(u);
    assert old(Rep(t));
    assert Nodes(t) == Nodes(u);
    assert old(allocated(All(ss))) && old(allocated(Cached(env)));
  }
}
