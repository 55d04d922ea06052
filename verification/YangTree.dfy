// The tree a node stands for, and when a heap of nodes represents it.
module YangTree {
  import opened YangNodes

  datatype Tree = Tree(id: Node, nodeType: NodeType, data: string, attr: seq<Attr>, kids: seq<Tree>)

  ghost function Ids(ts: seq<Tree>): (c: seq<Node>)
    ensures |c| == |ts| && forall i :: 0 <= i < |ts| ==> c[i] == ts[i].id
  {
    seq(|ts|, i requires 0 <= i < |ts| => ts[i].id)
  }

  ghost function Nodes(t: Tree): set<Node>
    decreases t, 1
  {
    {t.id} + All(t.kids)
  }

  ghost function All(ts: seq<Tree>): set<Node>
    decreases ts, 0
  {
    set t, n | t in ts && n in Nodes(t) :: n
  }

  ghost predicate Sep(ts: seq<Tree>)
    decreases ts
  {
    (forall i, j :: 0 <= i < j < |ts| ==> Nodes(ts[i]) !! Nodes(ts[j])) &&
    forall t :: t in ts ==> t.id !in All(t.kids) && Sep(t.kids)
  }

  ghost predicate Own(t: Tree)
    reads t.id`nodeType, t.id`data, t.id`attr
  {
    t.id.nodeType == t.nodeType && t.id.data == t.data && t.id.attr == t.attr
  }

  ghost predicate Rep(t: Tree)
    reads t.id`nodeType, t.id`data, t.id`attr, t.id`firstChild, t.id`lastChild, All(t.kids)
    decreases t
  {
    IdsInAll(t.kids);
    Own(t) && Chain(t.id, Ids(t.kids)) && forall k :: k in t.kids ==> (AllMember(t.kids, k); Rep(k))
  }

  ghost predicate Forest(p: Node, ts: seq<Tree>)
    reads p`firstChild, p`lastChild, All(ts)
  {
    IdsInAll(ts);
    p !in All(ts) && Sep(ts) && Chain(p, Ids(ts)) && forall t :: t in ts ==> (AllMember(ts, t); Rep(t))
  }

  lemma IdsInAll(ts: seq<Tree>)
    ensures forall n :: n in Ids(ts) ==> n in All(ts)
  {
    forall n | n in Ids(ts) ensures n in All(ts) {
      var i :| 0 <= i < |ts| && Ids(ts)[i] == n;
      assert ts[i] in ts && n in Nodes(ts[i]);
    }
  }

  lemma AllMember(ts: seq<Tree>, t: Tree)
    requires t in ts
    ensures Nodes(t) <= All(ts) && All(t.kids) <= All(ts) && t.id in All(ts)
  {
    assert forall n :: n in Nodes(t) ==> n in All(ts);
  }
}
