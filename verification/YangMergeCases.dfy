// The merge of single siblings, in terms of their names and attributes and of the request cache.
module YangMergeCases {
  import opened YangNodes
  import opened YangTree
  import opened YangMerge
  import opened YangLists

  // The first attribute called key has this value
  ghost predicate HasKey(attr: seq<Attr>, key: string) {
    exists i :: 0 <= i < |attr| && attr[i].name == "key" && attr[i].value == key
      && forall j :: 0 <= j < i ==> attr[j].name != "key"
  }

  // The list base_LIST belongs to this Redis table: the one its name is mapped to, or the one of its name
  ghost predicate OfTable(env: Env, base: string, table: string) {
    if base in env.tableOf && env.tableOf[base] != "" then table == env.tableOf[base] else table == base
  }

  ghost predicate IsCached(env: Env, table: string, key: string, y: Node) {
    table in env.requestCache && key in env.requestCache[table]
    && env.requestCache[table][key] != [] && env.requestCache[table][key][0] == y
  }

  lemma {:induction false} KeyRead(attr: seq<Attr>, key: string)
    requires HasKey(attr, key)
    ensures AttrVal(attr, "key") == key
  {
    if attr[0].name != "key" {
      var i :| 0 <= i < |attr| && attr[i].name == "key" && attr[i].value == key
        && forall j :: 0 <= j < i ==> attr[j].name != "key";
      var rest := attr[1..];
      assert rest[i - 1] == attr[i] && forall j :: 0 <= j < i - 1 ==> rest[j] == attr[j + 1];
      KeyRead(rest, key);
    }
  }

  lemma {:induction false} NoKeyRead(attr: seq<Attr>)
    requires forall i :: 0 <= i < |attr| ==> attr[i].name != "key"
    ensures AttrVal(attr, "key") == ""
  {
    if attr != [] { NoKeyRead(attr[1..]); }
  }

  // The instance that the request cache holds for a node of a list
  lemma CachedUnder(env: Env, base: string, table: string, attr: seq<Attr>, key: string)
    requires OfTable(env, base, table) && table != "" && HasKey(attr, key) && key != ""
    ensures var y := CachedList(env, base + "_LIST", attr);
      if y == null then forall n: Node :: !IsCached(env, table, key, n) else IsCached(env, table, key, y)
  {
    KeyRead(attr, key);
    ListNamed(env.tableOf, base);
  }

  lemma NotCached(env: Env, name: string, attr: seq<Attr>)
    requires (forall i :: 0 <= i < |attr| ==> attr[i].name != "key") || HasKey(attr, "")
    ensures CachedList(env, name, attr) == null
  {
    if HasKey(attr, "") { KeyRead(attr, ""); } else { NoKeyRead(attr); }
  }

  // A source instance whose cached node is a sibling of that name is merged into it, and into no other
  lemma MergeCached(env: Env, ds: seq<Tree>, s: Tree, j: nat, base: string, table: string, key: string,
    gone: set<string>)
    requires s.data == base + "_LIST" && OfTable(env, base, table) && table != "" && HasKey(s.attr, key) && key != ""
    requires j < |ds| && ds[j].data == s.data && IsCached(env, table, key, ds[j].id)
    requires forall k :: 0 <= k < j ==> ds[k].id != ds[j].id
    ensures MergeFrom(env, ds, [s], gone) == ds[j := MergeTree(env, ds[j], s)]
  {
    CachedUnder(env, base, table, s.attr, key);
    assert IsListName(s.data) by { ListNamed(env.tableOf, base); }
    hide CachedList, ListTable, IsListName, MergeTree;
    assert FindId(ds, CachedList(env, s.data, s.attr)) == j;
    OneSource(env, ds, s, gone);
  }

  // Any other source instance is appended
  lemma MergeUncached(env: Env, ds: seq<Tree>, s: Tree, base: string, table: string, key: string, gone: set<string>)
    requires s.data == base + "_LIST" && OfTable(env, base, table) && table != "" && HasKey(s.attr, key) && key != ""
    requires forall k :: 0 <= k < |ds| ==> !IsCached(env, table, key, ds[k].id)
    ensures MergeFrom(env, ds, [s], gone) == ds + [s]
  {
    CachedUnder(env, base, table, s.attr, key);
    assert IsListName(s.data) by { ListNamed(env.tableOf, base); }
    hide CachedList, ListTable, IsListName;
    assert FindId(ds, CachedList(env, s.data, s.attr)) == |ds|;
    OneSource(env, ds, s, gone);
  }

  lemma OneSource(env: Env, ds: seq<Tree>, s: Tree, gone: set<string>)
    requires IsListName(s.data)
    ensures MergeFrom(env, ds, [s], gone) == Step(env, ds, s, gone).0
  {
    hide Step;
    assert [s][1..] == [];
  }

  // ---- entries of a leaf-list ----

  // Its first attribute says so
  ghost predicate Entry(t: Tree) { t.attr != [] && t.attr[0].name == "leaf-list" && !IsListName(t.data) }

  // Entries behind a key are replaced as a whole by entries of that name
  lemma EntriesReplaced(env: Env, k: Tree, x1: Tree, x2: Tree, y1: Tree, y2: Tree)
    requires Entry(x1) && Entry(x2) && Entry(y1) && Entry(y2)
    requires x1.data == x2.data == y1.data == y2.data != k.data
    ensures MergeFrom(env, [k, x1, x2], [y1, y2], {}) == [k, y1, y2]
  {
    var n := y1.data;
    assert [y1, y2][1..] == [y2] && [y2][1..] == [];
    AllDeleted(k, x1, x2);
    FoundBehind(k, [x1, x2], n);
    FoundBehind(k, [], n);
    FoundBehind(k, [y1], n);
    assert [k] + [x1, x2] == [k, x1, x2] && [k] + [] == [k] && [k] + [y1] == [k, y1] && [k, y1] + [y2] == [k, y1, y2];
    var none: set<string> := {};
    assert none + {n} == {n} && {n} + {n} == {n};
    assert Step(env, [k], y1, {n}) == ([k, y1], {n});
    assert Step(env, [k, x1, x2], y1, none) == Step(env, [k], y1, {n});
    assert Step(env, [k, y1], y2, {n}) == ([k, y1, y2], {n});
    hide Step;
    assert MergeFrom(env, [k, y1], [y2], {n}) == [k, y1, y2];
  }

  lemma AllDeleted(k: Tree, x1: Tree, x2: Tree)
    requires x1.data == x2.data != k.data
    ensures DeleteRun([k, x1, x2], 1, x1.data) == [k]
  {
    assert Remove([k, x1, x2], 1) == [k, x2] && Remove([k, x2], 1) == [k];
    assert DeleteRun([k, x2], 1, x1.data) == DeleteRun([k], 1, x1.data) == [k];
  }

  lemma FoundBehind(k: Tree, xs: seq<Tree>, n: string)
    requires k.data != n && forall i :: 0 <= i < |xs| ==> xs[i].data == n
    ensures FindName([k] + xs, n) == 1
  {
    assert ([k] + xs)[1..] == xs;
  }

  // Otherwise the first sibling of that name is merged with the source
  lemma SingleMerged(env: Env, k: Tree, x: Tree, y: Tree)
    requires x.data == y.data != k.data && !IsListName(y.data) && !(Entry(x) && Entry(y))
    ensures MergeFrom(env, [k, x], [y], {}) == [k, MergeTree(env, x, y)]
  {
    hide MergeTree;
    assert [y][1..] == [];
    FoundBehind(k, [x], y.data);
    assert [k] + [x] == [k, x];
  }
}
