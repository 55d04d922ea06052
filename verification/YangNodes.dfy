// The nodes of a YANG data tree and their links: attach and detach of cvl_semantics.go.
module YangNodes {
  datatype NodeType = Document | Element | Text
  datatype Attr = Attr(name: string, value: string)
  class Node {
    var parent: Node?
    var firstChild: Node?
    var lastChild: Node?
    var prevSibling: Node?
    var nextSibling: Node?
    var nodeType: NodeType
    var data: string
    var attr: seq<Attr>
    constructor(nodeType: NodeType, data: string)
      ensures this.nodeType == nodeType && this.data == data && attr == []
      ensures parent == null && firstChild == null && lastChild == null && prevSibling == null && nextSibling == null
    {
      this.nodeType, this.data, attr := nodeType, data, [];
      parent, firstChild, lastChild, prevSibling, nextSibling := null, null, null, null, null;
    }
  }

  ghost predicate NoDup(c: seq<Node>) { forall i, j :: 0 <= i < j < |c| ==> c[i] != c[j] }

  ghost function Opt(p: Node?): set<Node> { if p == null then {} else {p} }

  lemma NoDupConcat(c: seq<Node>, e: seq<Node>)
    requires NoDup(c) && NoDup(e) && forall n :: n in e ==> n !in c
    ensures NoDup(c + e)
  {
    forall i, j | 0 <= i < j < |c + e| ensures (c + e)[i] != (c + e)[j] {
      if i < |c| <= j { assert e[j - |c|] in e; }
    }
  }

  lemma NoDupRemove(c: seq<Node>, i: nat)
    requires NoDup(c) && i < |c|
    ensures NoDup(c[..i] + c[i + 1..])
  {
    var d := c[..i] + c[i + 1..];
    assert forall j {:trigger d[j]} :: 0 <= j < |d| ==> d[j] == if j < i then c[j] else c[j + 1];
  }

  // c is a doubly linked run of siblings between before and after
  ghost predicate Linked(c: seq<Node>, before: Node?, after: Node?)
    reads c`nextSibling, c`prevSibling
  {
    (forall i {:trigger c[i].nextSibling} :: 0 <= i < |c| ==>
      c[i].nextSibling == if i + 1 < |c| then c[i + 1] else after) &&
    (forall i {:trigger c[i].prevSibling} :: 0 <= i < |c| ==> c[i].prevSibling == if i > 0 then c[i - 1] else before)
  }

  lemma Join(c: seq<Node>, e: seq<Node>, before: Node?, after: Node?)
    requires Linked(c, before, if e == [] then after else e[0])
    requires Linked(e, if c == [] then before else c[|c| - 1], after)
    ensures Linked(c + e, before, after)
  {
    var d := c + e;
    assert forall i {:trigger d[i]} :: 0 <= i < |d| ==> d[i] == if i < |c| then c[i] else e[i - |c|];
  }

  lemma Part(c: seq<Node>, i: nat)
    requires Linked(c, null, null) && i < |c|
    ensures Linked(c[..i], null, c[i]) && Linked(c[i + 1..], c[i], null)
    ensures c[i].nextSibling == (if i + 1 < |c| then c[i + 1] else null)
      && c[i].prevSibling == (if i > 0 then c[i - 1] else null)
  {
    var d, e := c[..i], c[i + 1..];
    assert forall j {:trigger d[j]} :: 0 <= j < |d| ==> d[j] == c[j];
    assert forall j {:trigger e[j]} :: 0 <= j < |e| ==> e[j] == c[i + 1 + j];
  }

  // c is a nil-terminated doubly linked sibling list
  ghost predicate Links(c: seq<Node>)
    reads c`nextSibling, c`prevSibling
  {
    NoDup(c) && Linked(c, null, null)
  }

  ghost function First(c: seq<Node>): Node? { if c == [] then null else c[0] }

  ghost function Last(c: seq<Node>): Node? { if c == [] then null else c[|c| - 1] }

  ghost predicate Ends(p: Node, c: seq<Node>)
    reads p`firstChild, p`lastChild
  {
    p.firstChild == First(c) && p.lastChild == Last(c)
  }
  ghost predicate Parented(p: Node, c: seq<Node>)
    reads c`parent, c`nodeType
  {
    forall i :: 0 <= i < |c| && c[i].nodeType != Text ==> c[i].parent == p
  }
  ghost predicate Chain(p: Node, c: seq<Node>)
    reads p`firstChild, p`lastChild, c`nextSibling, c`prevSibling, c`parent, c`nodeType
  { p !in c && Links(c) && Ends(p, c) && Parented(p, c) }


  lemma SeqIn(c: seq<Node>)
    ensures forall i {:trigger c[i]} :: 0 <= i < |c| ==> c[i] in c
  {
  }

  lemma FirstLastConcat(a: seq<Node>, b: seq<Node>)
    ensures First(a + b) == (if a == [] then First(b) else First(a))
      && Last(a + b) == (if b == [] then Last(a) else Last(b))
  {
  }

  lemma UnderConcat(p: Node, a: seq<Node>, b: seq<Node>)
    requires p !in a && p !in b && Parented(p, a) && Parented(p, b)
    ensures p !in a + b && Parented(p, a + b)
    ensures First(a + b) == (if a == [] then First(b) else First(a))
      && Last(a + b) == (if b == [] then Last(a) else Last(b))
  {
  }

  // The siblings from src on get dest as their parent
  method SetParents(dest: Node, src: Node?, ghost e: seq<Node>) returns (lastSibling: Node?)
    requires Links(e) && src == First(e)
    modifies e`parent
    ensures forall i :: 0 <= i < |e| ==> e[i].parent == dest
    ensures lastSibling == Last(e)
  {
    lastSibling := null;
    var srcNode: Node? := src;
    ghost var k := 0;
    while srcNode != null
      invariant 0 <= k <= |e|
      invariant srcNode == if k < |e| then e[k] else null
      invariant lastSibling == if k > 0 then e[k - 1] else null
      invariant Links(e)
      invariant forall i :: 0 <= i < k ==> e[i].parent == dest
      decreases |e| - k
    {
      srcNode.parent := dest;
      lastSibling := srcNode;
      srcNode := srcNode.nextSibling;
      k := k + 1;
    }
  }

  // Puts the run e behind the children c
  method LinkBehind(dest: Node, src: Node, lastSibling: Node?, ghost c: seq<Node>, ghost e: seq<Node>)
    requires Chain(dest, c) && Links(e) && src == First(e) && lastSibling == Last(e) && forall n :: n in e ==> n !in c
    requires dest !in e
    modifies dest`firstChild, dest`lastChild, c`nextSibling, e`prevSibling
    ensures Linked(c, null, First(e)) && Linked(e, Last(c), null)
    ensures dest.firstChild == First(c + e) && dest.lastChild == Last(c + e)
  {
    FirstLastConcat(c, e);
    SeqIn(c); SeqIn(e);
    if dest.lastChild == null {
      dest.firstChild := src;
      dest.lastChild := lastSibling;
    } else {
      dest.lastChild.nextSibling := src;
      src.prevSibling := dest.lastChild;
      dest.lastChild := lastSibling;
    }
  }

  lemma LinksOne(node: Node)
    requires node.nextSibling == null && node.prevSibling == null
    ensures Links([node])
  {
  }

  // An element with a text for its value, if it has one
  method CreateNode(parent: Node?, name: string, value: string) returns (node: Node)
    ensures fresh(node) && node.nodeType == Element && node.data == name && node.attr == [] && node.parent == parent
    ensures node.nextSibling == null && node.prevSibling == null
    ensures value == "" ==> node.firstChild == null && node.lastChild == null
    ensures value != "" ==> node.firstChild != null && fresh(node.firstChild) && TextOf(node, node.firstChild, value)
  {
    node := new Node(Element, name);
    node.parent := parent;
    if value != "" {
      var textNode := new Node(Text, value);
      node.firstChild := textNode;
      node.lastChild := textNode;
    }
  }

  // t is the only child of node, a text without a parent pointer
  ghost predicate TextOf(node: Node, t: Node, value: string)
    reads node, t
  {
    t != node && node.firstChild == t && node.lastChild == t && t.nodeType == Text && t.data == value && t.attr == []
    && t.firstChild == null && t.lastChild == null && t.nextSibling == null && t.prevSibling == null
  }

  method AddYangNode(parent: Node?, name: string, value: string, ghost c: seq<Node>) returns (node: Node)
    requires parent != null ==> Chain(parent, c)
    requires parent == null ==> c == []
    modifies Opt(parent)`firstChild, Opt(parent)`lastChild, c`nextSibling
    ensures fresh(node) && node.nodeType == Element && node.data == name && node.attr == [] && node.parent == parent
    ensures value == "" ==> node.firstChild == null && node.lastChild == null
    ensures value != "" ==> node.firstChild != null && fresh(node.firstChild) && TextOf(node, node.firstChild, value)
    ensures parent != null ==> Chain(parent, c + [node])
    ensures parent == null ==> Links([node])
  {
    assert allocated(c);
    node := CreateNode(parent, name, value);
    LinksOne(node);
    if parent == null {
      return;
    }
    NoDupConcat(c, [node]); SeqIn(c);
    LinkBehind(parent, node, node, c, [node]);
    Join(c, [node], null, null);
    UnderConcat(parent, c, [node]);
    hide NoDup, Linked, Parented, First, Last;
  }

  method AppendSubtree(dest: Node?, src: Node?, ghost c: seq<Node>, ghost e: seq<Node>) returns (ok: bool)
    requires Links(e) && src == First(e)
    requires dest != null ==> Chain(dest, c)
    requires dest != null ==> dest !in e && (forall n :: n in e ==> n !in c)
    requires dest == null ==> c == []
    modifies Opt(dest)`firstChild, Opt(dest)`lastChild, c`nextSibling, e`prevSibling, e`parent
    ensures ok == (dest != null && src != null)
    ensures ok ==> Chain(dest, c + e)
    ensures !ok ==> unchanged(c) && unchanged(e) && (dest != null ==> unchanged(dest))
  {
    if dest == null || src == null {
      return false;
    }
    NoDupConcat(c, e);
    SeqIn(c); SeqIn(e);
    var lastSibling := SetParents(dest, src, e);
    LinkBehind(dest, src, lastSibling, c, e);
    Join(c, e, null, null);
    UnderConcat(dest, c, e);
    hide NoDup, Linked, Parented, First, Last;
    ok := true;
  }

  method DetachSubtree(parent: Node, ghost c: seq<Node>) returns (child: Node?)
    requires Chain(parent, c)
    modifies parent`firstChild, parent`lastChild, c`parent
    ensures Chain(parent, []) && Links(c)
    ensures child == First(c)
    ensures forall n :: n in c ==> n.parent == null
  {
    child := parent.firstChild;
    if child != null {
      parent.firstChild := null;
      parent.lastChild := null;
    } else {
      assert c == [];
      return;
    }
    var node := child;
    ghost var k := 0;
    while node != null
      invariant 0 <= k <= |c|
      invariant node == if k < |c| then c[k] else null
      invariant parent.firstChild == null && parent.lastChild == null
      invariant forall i :: 0 <= i < k ==> c[i].parent == null
      invariant Links(c)
      decreases |c| - k
    {
      node.parent := null;
      node := node.nextSibling;
      k := k + 1;
    }
  }

  // The neighbours of the node are linked past it
  method Unlink(node: Node, parent: Node, ghost c: seq<Node>, ghost i: nat)
    requires i < |c| && c[i] == node && Chain(parent, c)
    modifies parent`firstChild, parent`lastChild, c`nextSibling, c`prevSibling
    ensures Linked(c[..i], null, First(c[i + 1..])) && Linked(c[i + 1..], Last(c[..i]), null)
    ensures Ends(parent, c[..i] + c[i + 1..])
  {
    ghost var pre, post := c[..i], c[i + 1..];
    Part(c, i);
    FirstLastConcat(pre, post);
    assert forall j {:trigger c[j]} :: 0 <= j < |c| && j != i ==> c[j] != node;
    if parent.firstChild == node && parent.lastChild == node {
      parent.firstChild := null;
      parent.lastChild := null;
    } else if parent.firstChild == node {
      parent.firstChild := node.nextSibling;
      node.nextSibling.prevSibling := null;
    } else {
      node.prevSibling.nextSibling := node.nextSibling;
      if node.nextSibling != null {
        node.nextSibling.prevSibling := node.prevSibling;
      } else {
        parent.lastChild := node.prevSibling;
      }
    }
  }

  method DetachNode(node: Node?, ghost c: seq<Node>, ghost i: nat) returns (ok: bool)
    requires node != null && node.parent != null ==> i < |c| && c[i] == node && Chain(node.parent, c)
    modifies Opt(if node == null then null else node.parent)`firstChild,
      Opt(if node == null then null else node.parent)`lastChild
    modifies c`nextSibling, c`prevSibling, c`parent
    ensures ok == (node != null)
    ensures node != null && old(node.parent) != null ==>
      Chain(old(node.parent), c[..i] + c[i + 1..]) && Links([node]) && node.parent == null
      && forall n :: n in c && n != node ==> n.parent == old(n.parent)
    ensures node != null && old(node.parent) == null ==> unchanged(c)
  {
    if node == null { return false; }
    var parent := node.parent;
    if parent == null { return true; }
    ghost var pre, post := c[..i], c[i + 1..];
    assert node !in pre && node !in post;
    NoDupRemove(c, i); SeqIn(c); SeqIn(pre); SeqIn(post);
    Unlink(node, parent, c, i);
    node.parent := null;
    node.prevSibling := null;
    node.nextSibling := null;
    Join(pre, post, null, null);
    UnderConcat(parent, pre, post);
    LinksOne(node);
    hide NoDup, Linked, Parented, First, Last;
    ok := true;
  }
}
