// mergeYangData as a function on trees.
module YangMerge {
  import opened YangNodes
  import opened YangTree
  import opened YangLists

  // What the merge looks at outside the two trees
  datatype Env = Env(leaves: set<string>, tableOf: map<string, string>, requestCache: map<string, map<string,
    seq<Node?>>>)

  function AttrVal(attr: seq<Attr>, name: string): string {
    if attr == [] then "" else if attr[0].name == name then attr[0].value else AttrVal(attr[1..], name)
  }

  function CachedList(env: Env, name: string, attr: seq<Attr>): Node? {
    var table, key := ListTable(env.tableOf, name), AttrVal(attr, "key");
    if table == "" || key == "" || table !in env.requestCache || key !in env.requestCache[table]
       || env.requestCache[table][key] == [] then null
    else env.requestCache[table][key][0]
  }

  predicate IsLeafList(attr: seq<Attr>) { |attr| > 0 && attr[0].name == "leaf-list" }

  function FindName(ds: seq<Tree>, name: string): (i: nat)
    ensures i <= |ds| && (i < |ds| ==> ds[i].data == name)
    ensures forall k :: 0 <= k < i ==> ds[k].data != name
  {
    if ds == [] || ds[0].data == name then 0 else 1 + FindName(ds[1..], name)
  }

  ghost function FindId(ds: seq<Tree>, y: Node?): (i: nat)
    ensures i <= |ds| && (i < |ds| ==> ds[i].id == y)
    ensures forall k :: 0 <= k < i ==> ds[k].id != y
  {
    if ds == [] || ds[0].id == y then 0 else 1 + FindId(ds[1..], y)
  }

  function Remove(ds: seq<Tree>, i: nat): seq<Tree>
    requires i < |ds|
  {
    ds[..i] + ds[i + 1..]
  }

  // the run of equally named siblings that starts at i disappears
  function DeleteRun(ds: seq<Tree>, i: nat, name: string): (r: seq<Tree>)
    requires i <= |ds|
    decreases |ds|
  {
    if i < |ds| && ds[i].data == name then DeleteRun(Remove(ds, i), i, name) else ds
  }

  ghost function Append(ds: seq<Tree>, s: Tree, gone: set<string>): (seq<Tree>, set<string>) {
    (ds + [s], if IsLeafList(s.attr) then gone + {s.data} else gone)
  }

  ghost function Step(env: Env, ds: seq<Tree>, s: Tree, gone: set<string>): (seq<Tree>, set<string>)
    decreases s, 1, if s.data in gone then 0 else 1
  {
    var i := FindName(ds, s.data);
    if i == |ds| then Append(ds, s, gone)
    else if IsListName(s.data) then
      var j := FindId(ds, CachedList(env, s.data, s.attr));
      if j == |ds| then Append(ds, s, gone) else (ds[j := MergeTree(env, ds[j], s)], gone)
    else if IsLeafList(ds[i].attr) && IsLeafList(s.attr) then
      if s.data in gone then Append(ds, s, gone)
      else Step(env, DeleteRun(ds, i, s.data), s, gone + {s.data})
    else (ds[i := MergeTree(env, ds[i], s)], gone)
  }

  ghost function MergeTree(env: Env, d: Tree, s: Tree): Tree
    decreases s, 0
  {
    d.(kids :=
      if d.kids == [] then s.kids
      else if s.kids == [] then d.kids
      else if d.kids[0].nodeType == Text && s.kids[0].nodeType == Text then
        d.kids[0 := d.kids[0].(data := s.kids[0].data)]
      else MergeFrom(env, d.kids, s.kids, {}))
  }

  // s deletes the first of the siblings ds, which the search for every later source node starts from
  predicate Loses(ds: seq<Tree>, s: Tree, gone: set<string>) {
    ds != [] && ds[0].data == s.data && !IsListName(s.data) && IsLeafList(ds[0].attr) && IsLeafList(s.attr)
      && s.data !in gone
  }

  // When the first sibling is deleted, s and all source nodes behind it are detached from their parent and go nowhere
  ghost function MergeFrom(env: Env, ds: seq<Tree>, ss: seq<Tree>, gone: set<string>): seq<Tree>
    decreases ss
  {
    if ss == [] then ds
    else if Loses(ds, ss[0], gone) then DeleteRun(ds, 0, ss[0].data)
    else
      var (d1, g1) := Step(env, ds, ss[0], gone);
      MergeFrom(env, d1, ss[1..], g1)
  }
}
