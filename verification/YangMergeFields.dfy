// What a merge means for the fields of a list instance.
module YangMergeFields {
  import opened Wrappers
  import opened YangNodes
  import opened YangTree
  import opened YangMerge
  import opened YangLists

  function Value(t: Tree): string {
    if t.kids == [] then "" else t.kids[0].data
  }

  // The values that a list instance with these children holds under name, in order
  function Values(ts: seq<Tree>, name: string): seq<string> {
    if ts == [] then []
    else (if ts[0].data == name then [Value(ts[0])] else []) + Values(ts[1..], name)
  }

  predicate Named(ts: seq<Tree>, name: string) {
    exists i :: 0 <= i < |ts| && ts[i].data == name
  }

  predicate Texts(kids: seq<Tree>) { forall k :: 0 <= k < |kids| ==> kids[k].nodeType == Text }

  // Children of a list instance as they are generated: leaves, and a name comes more than once only on entries
  // that are marked as a leaf-list. A single entry of a leaf-list may be marked or not: one default value is not.
  ghost predicate Fields(ts: seq<Tree>) {
    (forall i :: 0 <= i < |ts| ==> !IsListName(ts[i].data) && Texts(ts[i].kids))
    && forall i, j :: 0 <= i < j < |ts| && ts[i].data == ts[j].data ==> IsLeafList(ts[i].attr) && IsLeafList(ts[j].attr)
  }

  predicate Marked(ts: seq<Tree>, name: string) {
    exists i :: 0 <= i < |ts| && ts[i].data == name && IsLeafList(ts[i].attr)
  }

  // The entries of a leaf-list stand next to each other
  ghost predicate Adjacent(ts: seq<Tree>, name: string) {
    forall i, j, k :: 0 <= i < j < k < |ts| && ts[i].data == name && ts[k].data == name ==> ts[j].data == name
  }

  lemma {:induction false} ValuesConcat(a: seq<Tree>, b: seq<Tree>, name: string)
    ensures Values(a + b, name) == Values(a, name) + Values(b, name)
  {
    if a == [] {
      assert a + b == b;
    } else {
      assert (a + b)[1..] == a[1..] + b;
      ValuesConcat(a[1..], b, name);
    }
  }

  lemma {:induction false} ValuesAbsent(ts: seq<Tree>, name: string)
    requires forall i :: 0 <= i < |ts| ==> ts[i].data != name
    ensures Values(ts, name) == []
  {
    if ts != [] { ValuesAbsent(ts[1..], name); }
  }

  lemma ValuesSplit(ts: seq<Tree>, i: nat, name: string)
    requires i < |ts|
    ensures Values(ts, name) == Values(ts[..i], name) + (if ts[i].data == name then [Value(ts[i])] else [])
      + Values(ts[i + 1..], name)
  {
    assert ts == ts[..i] + ts[i..] && ts[i..][1..] == ts[i + 1..];
    ValuesConcat(ts[..i], ts[i..], name);
  }

  function Run(ts: seq<Tree>, name: string): (n: nat)
    ensures n <= |ts| && (forall k :: 0 <= k < n ==> ts[k].data == name) && (n < |ts| ==> ts[n].data != name)
  {
    if ts != [] && ts[0].data == name then 1 + Run(ts[1..], name) else 0
  }

  lemma {:induction false} DeleteRunForm(ts: seq<Tree>, i: nat, name: string)
    requires i <= |ts|
    ensures DeleteRun(ts, i, name) == ts[..i] + ts[i..][Run(ts[i..], name)..]
    decreases |ts|
  {
    if i < |ts| && ts[i].data == name {
      var r := Remove(ts, i);
      DeleteRunForm(r, i, name);
      assert r[..i] == ts[..i] && r[i..] == ts[i..][1..];
    } else {
      assert ts == ts[..i] + ts[i..];
    }
  }

  // The part from i to e is cut out
  ghost predicate Cut(ts: seq<Tree>, i: nat, e: nat, r: seq<Tree>) {
    i <= e <= |ts| && r == ts[..i] + ts[e..]
  }

  lemma CutAt(ts: seq<Tree>, i: nat, e: nat, r: seq<Tree>, k: nat)
    requires Cut(ts, i, e, r) && k < |r|
    ensures r[k] == if k < i then ts[k] else ts[k + (e - i)]
  {
  }

  lemma CutKeeps(ts: seq<Tree>, i: nat, e: nat, r: seq<Tree>)
    requires Cut(ts, i, e, r) && Fields(ts)
    ensures Fields(r)
  {
    forall k | 0 <= k < |r| ensures !IsListName(r[k].data) && Texts(r[k].kids) { CutAt(ts, i, e, r, k); }
    forall a, b | 0 <= a < b < |r| && r[a].data == r[b].data ensures IsLeafList(r[a].attr) && IsLeafList(r[b].attr) {
      CutAt(ts, i, e, r, a); CutAt(ts, i, e, r, b);
    }
  }

  lemma CutMarked(ts: seq<Tree>, i: nat, e: nat, r: seq<Tree>, name: string)
    requires Cut(ts, i, e, r) && forall k :: i <= k < e ==> ts[k].data != name
    ensures Marked(r, name) <==> Marked(ts, name)
  {
    if Marked(r, name) {
      var k :| 0 <= k < |r| && r[k].data == name && IsLeafList(r[k].attr);
      CutAt(ts, i, e, r, k);
    }
    if Marked(ts, name) {
      var k :| 0 <= k < |ts| && ts[k].data == name && IsLeafList(ts[k].attr);
      CutAt(ts, i, e, r, if k < i then k else k - (e - i));
    }
  }

  lemma CutAdjacent(ts: seq<Tree>, i: nat, e: nat, r: seq<Tree>, name: string)
    requires Cut(ts, i, e, r) && Adjacent(ts, name)
    ensures Adjacent(r, name)
  {
    forall a, b, c | 0 <= a < b < c < |r| && r[a].data == name && r[c].data == name ensures r[b].data == name {
      CutAt(ts, i, e, r, a); CutAt(ts, i, e, r, b); CutAt(ts, i, e, r, c);
    }
  }

  lemma CutValues(ts: seq<Tree>, i: nat, e: nat, r: seq<Tree>, name: string)
    requires Cut(ts, i, e, r) && forall k :: i <= k < e ==> ts[k].data != name
    ensures Values(r, name) == Values(ts, name)
  {
    hide Values;
    assert ts == ts[..i] + (ts[i..e] + ts[e..]);
    ValuesConcat(ts[..i], ts[i..e] + ts[e..], name); ValuesConcat(ts[i..e], ts[e..], name);
    ValuesConcat(ts[..i], ts[e..], name);
    ValuesAbsent(ts[i..e], name);
  }

  lemma CutRun(ts: seq<Tree>, i: nat, e: nat, r: seq<Tree>, name: string)
    requires Cut(ts, i, e, r) && Adjacent(ts, name) && i < |ts| && ts[i].data == name
      && (e < |ts| ==> ts[e].data != name)
    requires forall k :: 0 <= k < i ==> ts[k].data != name
    ensures !Named(r, name)
  {
    forall k | 0 <= k < |r| ensures r[k].data != name {
      CutAt(ts, i, e, r, k);
    }
  }

  lemma DeleteRunCut(ts: seq<Tree>, i: nat, name: string) returns (e: nat)
    requires i <= |ts|
    ensures Cut(ts, i, e, DeleteRun(ts, i, name)) && (forall k :: i <= k < e ==> ts[k].data == name)
      && (e < |ts| ==> ts[e].data != name)
  {
    var t := ts[i..];
    var n := Run(t, name);
    e := i + n;
    DeleteRunForm(ts, i, name);
    assert t[n..] == ts[e..];
    forall k | i <= k < e ensures ts[k].data == name { assert ts[k] == t[k - i]; }
    if e < |ts| { assert ts[e] == t[n]; }
  }

  // What a deletion of the first run of a name leaves
  lemma DeleteRunFields(ts: seq<Tree>, name: string)
    requires Fields(ts) && FindName(ts, name) < |ts|
    ensures var r := DeleteRun(ts, FindName(ts, name), name);
      Fields(r) && (Adjacent(ts, name) <==> !Named(r, name))
      && (forall n :: n != name ==> Values(r, n) == Values(ts, n) && (Marked(r, n) <==> Marked(ts, n)))
      && (forall n :: Adjacent(ts, n) ==> Adjacent(r, n))
      && (Named(r, name) ==> Marked(r, name))
  {
    hide Fields, Values, Adjacent, Named, Marked, Cut, DeleteRun;
    var i := FindName(ts, name);
    var e := DeleteRunCut(ts, i, name);
    var r := DeleteRun(ts, i, name);
    CutKeeps(ts, i, e, r);
    forall n | n != name ensures Values(r, n) == Values(ts, n) && (Marked(r, n) <==> Marked(ts, n)) {
      CutValues(ts, i, e, r, n);
      CutMarked(ts, i, e, r, n);
    }
    forall n | Adjacent(ts, n) ensures Adjacent(r, n) { CutAdjacent(ts, i, e, r, n); }
    if Adjacent(ts, name) { CutRun(ts, i, e, r, name); } else { CutApart(ts, i, e, r, name); }
    CutRest(ts, i, e, r, name);
  }

  lemma CutApart(ts: seq<Tree>, i: nat, e: nat, r: seq<Tree>, name: string)
    requires Cut(ts, i, e, r) && !Adjacent(ts, name) && (forall k :: i <= k < e ==> ts[k].data == name)
    requires forall k :: 0 <= k < i ==> ts[k].data != name
    ensures Named(r, name)
  {
    var a, b, c :| 0 <= a < b < c < |ts| && ts[a].data == name && ts[c].data == name && ts[b].data != name;
    CutAt(ts, i, e, r, c - (e - i));
  }

  // An entry that survives was one of several, all marked
  lemma CutRest(ts: seq<Tree>, i: nat, e: nat, r: seq<Tree>, name: string)
    requires Cut(ts, i, e, r) && Fields(ts) && i < |ts| && ts[i].data == name && (e < |ts| ==> ts[e].data != name)
    requires forall k :: 0 <= k < i ==> ts[k].data != name
    ensures Named(r, name) ==> Marked(r, name)
  {
    if Named(r, name) {
      var k :| 0 <= k < |r| && r[k].data == name;
      CutAt(ts, i, e, r, k);
    }
  }

  lemma {:induction false} ValuesPresent(ts: seq<Tree>, name: string)
    ensures Values(ts, name) == [] <==> !Named(ts, name)
  {
    if ts == [] {
    } else if ts[0].data == name {
      assert Named(ts, name);
    } else {
      ValuesPresent(ts[1..], name);
      if Named(ts, name) {
        var i :| 0 <= i < |ts| && ts[i].data == name;
        assert ts[1..][i - 1].data == name;
      }
      if Named(ts[1..], name) {
        var i :| 0 <= i < |ts[1..]| && ts[1..][i].data == name;
        assert ts[i + 1].data == name;
      }
    }
  }

  lemma ValuesOne(t: Tree, name: string)
    ensures Values([t], name) == if t.data == name then [Value(t)] else []
  {
    assert [t][1..] == [];
  }

  // Matching leaves take the source's text when there is one
  lemma LeafMerge(env: Env, d: Tree, s: Tree)
    requires Texts(d.kids) && Texts(s.kids)
    ensures var r := MergeTree(env, d, s);
      Texts(r.kids) && r.data == d.data && r.attr == d.attr && Value(r) == if s.kids == [] then Value(d) else Value(s)
  {
    hide MergeFrom;
  }

  // The first entry of a name, and what is behind it
  lemma ValuesFirst(ts: seq<Tree>, name: string)
    requires FindName(ts, name) < |ts|
    ensures var i := FindName(ts, name); Values(ts, name) == [Value(ts[i])] + Values(ts[i + 1..], name)
  {
    var i := FindName(ts, name);
    ValuesSplit(ts, i, name);
    ValuesAbsent(ts[..i], name);
  }

  // ---- one source entry ----

  lemma AppendOther(ds: seq<Tree>, s: Tree)
    requires Fields(ds) && Fields([s]) && (Named(ds, s.data) ==> Marked(ds, s.data) && IsLeafList(s.attr))
    ensures Fields(ds + [s]) && forall n :: Values(ds + [s], n) == Values(ds, n) + if n == s.data then [Value(s)]
      else []
    ensures forall n :: Marked(ds + [s], n) <==> Marked(ds, n) || (n == s.data && IsLeafList(s.attr))
    ensures forall n :: n != s.data && Adjacent(ds, n) ==> Adjacent(ds + [s], n)
  {
    var r := ds + [s];
    assert [s][0] == s && r[|ds|] == s;
    assert forall i {:trigger r[i]} :: 0 <= i < |r| ==> r[i] == if i < |ds| then ds[i] else s;
    forall n ensures Values(r, n) == Values(ds, n) + if n == s.data then [Value(s)] else [] {
      ValuesConcat(ds, [s], n); ValuesOne(s, n);
    }
    forall n ensures Marked(r, n) <==> Marked(ds, n) || (n == s.data && IsLeafList(s.attr)) {
      if Marked(ds, n) {
        var k :| 0 <= k < |ds| && ds[k].data == n && IsLeafList(ds[k].attr);
        assert r[k] == ds[k];
      }
    }
  }

  lemma PutOther(ds: seq<Tree>, i: nat, d: Tree)
    requires Fields(ds) && i < |ds| && d.data == ds[i].data && d.attr == ds[i].attr && Texts(d.kids)
    ensures Fields(ds[i := d])
      && forall n :: (Marked(ds[i := d], n) <==> Marked(ds, n)) && (Adjacent(ds, n) ==> Adjacent(ds[i := d], n))
    ensures forall n :: n != d.data ==> Values(ds[i := d], n) == Values(ds, n)
  {
    var r := ds[i := d];
    assert forall k {:trigger r[k]} {:trigger ds[k]} :: 0 <= k < |r| ==>
      r[k].data == ds[k].data && r[k].attr == ds[k].attr;
    assert r[..i] == ds[..i] && r[i + 1..] == ds[i + 1..];
    forall n | n != d.data ensures Values(r, n) == Values(ds, n) { ValuesSplit(r, i, n); ValuesSplit(ds, i, n); }
  }

  lemma PutFirst(ds: seq<Tree>, i: nat, d: Tree)
    requires i < |ds| && i == FindName(ds, d.data)
    ensures Values(ds, d.data) != [] && Values(ds, d.data) == [Value(ds[i])] + Values(ds, d.data)[1..]
    ensures Values(ds[i := d], d.data) == [Value(d)] + Values(ds, d.data)[1..]
  {
    var r := ds[i := d];
    assert r[..i] == ds[..i] && r[i + 1..] == ds[i + 1..];
    ValuesFirst(ds, d.data);
    ValuesSplit(r, i, d.data);
    assert forall k :: 0 <= k < i ==> r[k] == ds[k];
    ValuesAbsent(r[..i], d.data);
  }

  // Values of which the first takes the text, if there is one
  function FirstTakes(d: seq<string>, text: Option<string>): seq<string>
    requires d != []
  {
    [if text.Some? then text.value else d[0]] + d[1..]
  }

  function TextOfLeaf(s: Tree): Option<string> { if s.kids == [] then None else Some(Value(s)) }

  // What is as it was for every other name, and for the first sibling
  ghost predicate Aside(ds: seq<Tree>, gone: set<string>, r: seq<Tree>, g: set<string>, s: Tree) {
    Fields(r)
    && (forall n :: n != s.data ==>
      Values(r, n) == Values(ds, n) && (Marked(r, n) <==> Marked(ds, n)) && (n in g <==> n in gone)
        && (Adjacent(ds, n) ==> Adjacent(r, n)))
    && (if ds == [] then r == [s] else r != [] && r[0].data == ds[0].data && r[0].attr == ds[0].attr)
  }

  lemma StepNew(env: Env, ds: seq<Tree>, s: Tree, gone: set<string>)
    requires Fields(ds) && Fields([s]) && !Named(ds, s.data)
    ensures var (r, g) := Step(env, ds, s, gone);
      Aside(ds, gone, r, g, s) && Values(r, s.data) == [Value(s)] && (Marked(r, s.data) <==> IsLeafList(s.attr))
      && (s.data in g <==> s.data in gone || IsLeafList(s.attr))
  {
    hide Step, Values, Adjacent, Fields;
    StepAppends(env, ds, s, gone);
    ValuesPresent(ds, s.data);
    assert Marked(ds, s.data) ==> Named(ds, s.data);
    hide Named, Marked;
    AppendOther(ds, s);
    assert [] + [Value(s)] == [Value(s)];
    if ds == [] { assert ds + [s] == [s]; }
  }

  lemma StepAppends(env: Env, ds: seq<Tree>, s: Tree, gone: set<string>)
    requires !Named(ds, s.data)
    ensures Step(env, ds, s, gone) == (ds + [s], if IsLeafList(s.attr) then gone + {s.data} else gone)
  {
    assert FindName(ds, s.data) == |ds|;
  }

  // Where both are marked, the entries are deleted once, up to the first gap, and the source entry is appended
  lemma StepReplace(env: Env, ds: seq<Tree>, s: Tree, gone: set<string>)
    requires Fields(ds) && Fields([s]) && Marked(ds, s.data) && IsLeafList(s.attr) && !Loses(ds, s, gone)
    ensures FindName(ds, s.data) < |ds|
    ensures var (r, g) := Step(env, ds, s, gone);
      Aside(ds, gone, r, g, s) && Marked(r, s.data) && s.data in g
      && Values(r, s.data) ==
        (if s.data in gone then Values(ds, s.data) else Values(DeleteRun(ds, FindName(ds, s.data), s.data), s.data))
          + [Value(s)]
  {
    FirstMarked(ds, s.data);
    assert [s][0] == s;
    hide Values, Adjacent, Fields, DeleteRun;
    if s.data in gone {
      AppendOther(ds, s);
      assert Step(env, ds, s, gone).0 == ds + [s];
    } else {
      DeletedOnce(env, ds, s, gone);
    }
  }

  lemma DeletedOnce(env: Env, ds: seq<Tree>, s: Tree, gone: set<string>)
    requires Fields(ds) && Fields([s]) && Marked(ds, s.data) && IsLeafList(s.attr) && !Loses(ds, s, gone)
      && s.data !in gone
    ensures FindName(ds, s.data) < |ds|
    ensures var (r, g) := Step(env, ds, s, gone);
      Aside(ds, gone, r, g, s) && Marked(r, s.data) && s.data in g
      && Values(r, s.data) == Values(DeleteRun(ds, FindName(ds, s.data), s.data), s.data) + [Value(s)]
  {
    hide Values, Adjacent, DeleteRun;
    var i := FindName(ds, s.data);
    FirstMarked(ds, s.data);
    assert [s][0] == s;
    var r := DeleteRun(ds, i, s.data);
    DeleteRunFields(ds, s.data);
    DeletedHead(ds, s, gone, i);
    if Named(r, s.data) { FirstMarked(r, s.data); }
    hide Fields;
    AppendOther(r, s);
    StepAgain(env, ds, s, gone);
  }

  lemma FirstMarked(ds: seq<Tree>, name: string)
    requires Fields(ds) && Marked(ds, name)
    ensures FindName(ds, name) < |ds| && ds[FindName(ds, name)].data == name && IsLeafList(ds[FindName(ds, name)].attr)
    ensures !IsListName(name) && Named(ds, name)
  {
    var k :| 0 <= k < |ds| && ds[k].data == name && IsLeafList(ds[k].attr);
  }

  lemma DeletedHead(ds: seq<Tree>, s: Tree, gone: set<string>, i: nat)
    requires !Loses(ds, s, gone) && i < |ds| && i == FindName(ds, s.data) && IsLeafList(ds[i].attr)
      && IsLeafList(s.attr) && s.data !in gone
    requires !IsListName(s.data)
    ensures i > 0 && var r := DeleteRun(ds, i, s.data); r != [] && r[0] == ds[0]
  {
    DeleteRunForm(ds, i, s.data);
  }

  lemma StepAgain(env: Env, ds: seq<Tree>, s: Tree, gone: set<string>)
    requires var i := FindName(ds, s.data);
      i < |ds| && IsLeafList(ds[i].attr) && IsLeafList(s.attr) && s.data !in gone && !IsListName(s.data)
    requires var r := DeleteRun(ds, FindName(ds, s.data), s.data); var k := FindName(r, s.data);
      k < |r| ==> IsLeafList(r[k].attr)
    ensures Step(env, ds, s, gone) == (DeleteRun(ds, FindName(ds, s.data), s.data) + [s], gone + {s.data})
  {
    assert gone + {s.data} + {s.data} == gone + {s.data};
  }

  // Otherwise the first entry takes the source's text
  lemma StepPut(env: Env, ds: seq<Tree>, s: Tree, gone: set<string>)
    requires Fields(ds) && Fields([s]) && Named(ds, s.data) && !(Marked(ds, s.data) && IsLeafList(s.attr))
    ensures Values(ds, s.data) != []
    ensures var (r, g) := Step(env, ds, s, gone);
      Aside(ds, gone, r, g, s) && g == gone && (Marked(r, s.data) <==> Marked(ds, s.data))
        && (Adjacent(ds, s.data) ==> Adjacent(r, s.data))
      && Values(r, s.data) == FirstTakes(Values(ds, s.data), TextOfLeaf(s))
  {
    var i := FindName(ds, s.data);
    ValuesPresent(ds, s.data);
    assert [s][0] == s;
    assert i < |ds| && !IsListName(s.data);
    assert IsLeafList(ds[i].attr) ==> Marked(ds, s.data);
    var d := MergeTree(env, ds[i], s);
    LeafMerge(env, ds[i], s);
    assert Step(env, ds, s, gone) == (ds[i := d], gone);
    hide Step, MergeTree, Values, Adjacent, Fields, Value;
    PutOther(ds, i, d);
    PutFirst(ds, i, d);
    assert ds[i].data == s.data;
  }

  // ---- a whole source ----

  // No source entry deletes the first sibling
  ghost predicate Guarded(ds: seq<Tree>, ss: seq<Tree>, gone: set<string>) {
    ds == [] || IsListName(ds[0].data) || !IsLeafList(ds[0].attr) || ds[0].data in gone
    || forall i :: 0 <= i < |ss| ==> !(IsLeafList(ss[i].attr) && ss[i].data == ds[0].data)
  }

  function LastText(ss: seq<Tree>, name: string): Option<string> {
    if ss == [] then None
    else if LastText(ss[1..], name).Some? || ss[0].data != name then LastText(ss[1..], name)
    else TextOfLeaf(ss[0])
  }

  // What a field holds after a merge, from what both sides hold: kept is what is left when the destination's entries
  // are deleted
  function Override(d: seq<string>, marked: bool, gone: bool, kept: seq<string>, s: seq<string>, sMarked: bool,
    text: Option<string>): seq<string> {
    if s == [] then d
    else if d == [] then s
    else if marked && sMarked then (if gone then d else kept) + s
    else FirstTakes(d, text)
  }

  function Merged(ds: seq<Tree>, ss: seq<Tree>, gone: set<string>, kept: seq<string>, n: string): seq<string> {
    Override(Values(ds, n), Marked(ds, n), n in gone, kept, Values(ss, n), Marked(ss, n), LastText(ss, n))
  }

  lemma GuardedStep(env: Env, ds: seq<Tree>, ss: seq<Tree>, gone: set<string>)
    requires ss != [] && Guarded(ds, ss, gone)
    ensures !Loses(ds, ss[0], gone)
    ensures var (r, g) := Step(env, ds, ss[0], gone);
      Aside(ds, gone, r, g, ss[0]) && gone <= g && (IsLeafList(ss[0].attr) && ds == [] ==> ss[0].data in g) ==>
        Guarded(r, ss[1..], g)
  {
    hide Step, Fields, Values, Marked, Adjacent;
  }

  lemma FieldsTail(ss: seq<Tree>)
    requires ss != [] && Fields(ss)
    ensures Fields([ss[0]]) && Fields(ss[1..])
    ensures Values(ss[1..], ss[0].data) != [] ==> IsLeafList(ss[0].attr) && Marked(ss[1..], ss[0].data)
    ensures forall n :: Marked(ss, n) <==> Marked(ss[1..], n) || (n == ss[0].data && IsLeafList(ss[0].attr))
  {
    var rest := ss[1..];
    assert forall i :: 0 <= i < |rest| ==> rest[i] == ss[i + 1];
    ValuesPresent(rest, ss[0].data);
    if Named(rest, ss[0].data) {
      var i :| 0 <= i < |rest| && rest[i].data == ss[0].data;
      assert ss[i + 1] == rest[i];
    }
    forall n ensures Marked(ss, n) <==> Marked(rest, n) || (n == ss[0].data && IsLeafList(ss[0].attr)) {
      if Marked(ss, n) {
        var i :| 0 <= i < |ss| && ss[i].data == n && IsLeafList(ss[i].attr);
        if i > 0 { assert rest[i - 1] == ss[i]; }
      }
      if Marked(rest, n) {
        var i :| 0 <= i < |rest| && rest[i].data == n && IsLeafList(rest[i].attr);
        assert ss[i + 1] == rest[i];
      }
    }
  }

  lemma StepGone(env: Env, ds: seq<Tree>, s: Tree, gone: set<string>)
    ensures gone <= Step(env, ds, s, gone).1
  {
  }

  // Any one step, for any name
  lemma StepFields(env: Env, ds: seq<Tree>, s: Tree, gone: set<string>)
    requires Fields(ds) && Fields([s]) && !Loses(ds, s, gone)
    ensures var (r, g) := Step(env, ds, s, gone);
      Aside(ds, gone, r, g, s) && gone <= g && (IsLeafList(s.attr) && ds == [] ==> s.data in g)
  {
    StepGone(env, ds, s, gone);
    hide Step, Values, Adjacent, Fields;
    if !Named(ds, s.data) {
      StepNew(env, ds, s, gone);
    } else if Marked(ds, s.data) && IsLeafList(s.attr) {
      StepReplace(env, ds, s, gone);
    } else {
      StepPut(env, ds, s, gone);
    }
  }

  // If the entries of n are to be deleted, they are deleted without leaving one
  ghost predicate Clean(ds: seq<Tree>, gone: set<string>, n: string, marked: bool) {
    marked && Marked(ds, n) && n !in gone ==> Adjacent(ds, n)
  }

  lemma StepHere(env: Env, ds: seq<Tree>, s: Tree, gone: set<string>)
    requires Fields(ds) && Fields([s]) && !Loses(ds, s, gone) && Clean(ds, gone, s.data, IsLeafList(s.attr))
    ensures var (r, g), n := Step(env, ds, s, gone), s.data;
      Values(r, n) == Override(Values(ds, n), Marked(ds, n), n in gone, [], [Value(s)], IsLeafList(s.attr),
        TextOfLeaf(s))
      && (Values(ds, n) == [] ==> (Marked(r, n) <==> IsLeafList(s.attr)) && (IsLeafList(s.attr) ==> n in g))
      && (Values(ds, n) != [] ==>
        (Marked(r, n) <==> Marked(ds, n)) && (n in g <==> n in gone || (Marked(ds, n) && IsLeafList(s.attr))))
  {
    var n := s.data;
    ValuesPresent(ds, n);
    hide Step, Values, Adjacent, Fields;
    if !Named(ds, n) {
      StepNew(env, ds, s, gone);
    } else if Marked(ds, n) && IsLeafList(s.attr) {
      StepReplace(env, ds, s, gone);
      if n !in gone {
        DeleteRunFields(ds, n);
        ValuesPresent(DeleteRun(ds, FindName(ds, n), n), n);
      }
    } else {
      StepPut(env, ds, s, gone);
    }
  }

  lemma OverrideStep(d: seq<string>, m: bool, g: bool, v: string, sm: bool, t: Option<string>,
    rest: seq<string>, rm: bool, rt: Option<string>, m1: bool, g1: bool)
    requires (rest != [] ==> sm && rm) && (rest == [] ==> rt == None) && (rest == [] ==> !rm)
    requires d == [] ==> m1 == sm && (sm ==> g1)
    requires d != [] ==> m1 == m && (g1 <==> g || (m && sm))
    ensures Override(Override(d, m, g, [], [v], sm, t), m1, g1, [], rest, rm, rt)
      == Override(d, m, g, [], [v] + rest, sm || rm, if rt.Some? then rt else t)
  {
    assert (d + [v]) + rest == d + ([v] + rest) && [] + [v] == [v] && ([] + [v]) + rest == [] + ([v] + rest);
    if rest == [] { assert [v] + rest == [v]; }
  }

  lemma {:induction false} LastTextNone(ss: seq<Tree>, n: string)
    requires Values(ss, n) == []
    ensures LastText(ss, n) == None && !Marked(ss, n)
  {
    ValuesPresent(ss, n);
    if Marked(ss, n) { assert Named(ss, n); }
    if ss != [] { LastTextNone(ss[1..], n); }
  }

  // The meaning of a merge at the level of one list instance: field by field override.
  // Marked entries are replaced as a whole, in source order; of others the first takes the last text of the source.
  lemma {:induction false} MergeOverrides(env: Env, ds: seq<Tree>, ss: seq<Tree>, gone: set<string>, n: string)
    requires Fields(ds) && Fields(ss) && Guarded(ds, ss, gone) && Clean(ds, gone, n, Marked(ss, n))
    ensures Values(MergeFrom(env, ds, ss, gone), n) == Merged(ds, ss, gone, [], n)
    decreases ss
  {
    if ss != [] {
      var s, rest := ss[0], ss[1..];
      FieldsTail(ss);
      GuardedStep(env, ds, ss, gone);
      StepFields(env, ds, s, gone);
      if n == s.data { StepHere(env, ds, s, gone); }
      hide Step, Values, Fields, Guarded, Marked, Adjacent, Loses;
      var (r, g) := Step(env, ds, s, gone);
      MergedStep(ds, gone, ss, r, g, n);
      MergeOverrides(env, r, rest, g, n);
    }
  }

  lemma MergedStep(ds: seq<Tree>, gone: set<string>, ss: seq<Tree>, r: seq<Tree>, g: set<string>, n: string)
    requires ss != [] && Fields(ss) && Clean(ds, gone, n, Marked(ss, n)) && Aside(ds, gone, r, g, ss[0])
    requires n == ss[0].data ==>
      Values(r, n) == Override(Values(ds, n), Marked(ds, n), n in gone, [], [Value(ss[0])], IsLeafList(ss[0].attr),
        TextOfLeaf(ss[0]))
      && (Values(ds, n) == [] ==> (Marked(r, n) <==> IsLeafList(ss[0].attr)) && (IsLeafList(ss[0].attr) ==> n in g))
      && (Values(ds, n) != [] ==>
        (Marked(r, n) <==> Marked(ds, n)) && (n in g <==> n in gone || (Marked(ds, n) && IsLeafList(ss[0].attr))))
    ensures Merged(r, ss[1..], g, [], n) == Merged(ds, ss, gone, [], n) && Clean(r, g, n, Marked(ss[1..], n))
  {
    FieldsTail(ss);
    var s, rest := ss[0], ss[1..];
    if Values(rest, n) == [] { LastTextNone(rest, n); }
    ValuesPresent(rest, n);
    assert Marked(rest, n) ==> Named(rest, n);
    hide Fields, Marked, Adjacent, Override;
    if n == s.data {
      OverrideStep(Values(ds, n), Marked(ds, n), n in gone, Value(s), IsLeafList(s.attr), TextOfLeaf(s),
        Values(rest, n), Marked(rest, n), LastText(rest, n), Marked(r, n), n in g);
    } else {
      assert [] + Values(rest, n) == Values(rest, n);
    }
  }

  lemma BeforeStep(env: Env, ds: seq<Tree>, ss: seq<Tree>, gone: set<string>, k: nat)
    returns (r: seq<Tree>, rest: seq<Tree>, g: set<string>)
    requires Fields(ds) && Fields(ss) && 0 < k <= |ss| && Guarded(ds, ss[..k], gone)
    ensures rest == ss[1..] && ss[k..] == rest[k - 1..] && (forall i :: 0 <= i < k - 1 ==> rest[i] == ss[i + 1])
    ensures Fields(rest) && Guarded(r, rest[..k - 1], g) && (Guarded(ds, ss, gone) ==> Guarded(r, rest, g))
      && Aside(ds, gone, r, g, ss[0])
    ensures MergeFrom(env, ds, ss, gone) == MergeFrom(env, r, rest, g)
      && MergeFrom(env, ds, ss[..k], gone) == MergeFrom(env, r, rest[..k - 1], g)
  {
    hide Values, Marked, Adjacent;
    rest := ss[1..];
    var head, s := ss[..k], ss[0];
    assert head[0] == s && head[1..] == rest[..k - 1];
    FieldsTail(ss);
    hide Fields, Guarded;
    GuardedStep(env, ds, head, gone);
    StepFields(env, ds, s, gone);
    if Guarded(ds, ss, gone) { GuardedStep(env, ds, ss, gone); }
    hide Loses, Step;
    var next := Step(env, ds, s, gone);
    r, g := next.0, next.1;
  }

  // The source up to the first entry of n leaves the entries of n alone
  lemma {:induction false} BeforeTurn(env: Env, ds: seq<Tree>, ss: seq<Tree>, gone: set<string>, k: nat, n: string)
    returns (g: set<string>)
    requires Fields(ds) && Fields(ss) && k <= |ss| && Guarded(ds, ss[..k], gone) && forall i :: 0 <= i < k ==>
      ss[i].data != n
    ensures var d1 := MergeFrom(env, ds, ss[..k], gone);
      MergeFrom(env, ds, ss, gone) == MergeFrom(env, d1, ss[k..], g)
      && Fields(d1) && Fields(ss[k..]) && (Guarded(ds, ss, gone) ==> Guarded(d1, ss[k..], g))
      && Values(d1, n) == Values(ds, n) && (Marked(d1, n) <==> Marked(ds, n)) && (n in g <==> n in gone)
      && (Adjacent(ds, n) ==> Adjacent(d1, n))
      && (ds != [] ==> d1 != [] && d1[0].data == ds[0].data && d1[0].attr == ds[0].attr)
    decreases k
  {
    if k == 0 {
      g := gone;
      assert ss[..k] == [] && ss[k..] == ss;
    } else {
      hide Step, Values, Fields, Guarded, Marked, Adjacent, Loses;
      var r, rest, g1 := BeforeStep(env, ds, ss, gone, k);
      g := BeforeTurn(env, r, rest, g1, k - 1, n);
    }
  }

  lemma GuardedPart(ds: seq<Tree>, ss: seq<Tree>, gone: set<string>, k: nat)
    requires Guarded(ds, ss, gone) && k <= |ss|
    ensures Guarded(ds, ss[..k], gone)
  {
  }

  lemma MarkedFrom(ss: seq<Tree>, n: string, k: nat)
    requires k <= |ss| && forall i :: 0 <= i < k ==> ss[i].data != n
    ensures Marked(ss[k..], n) <==> Marked(ss, n)
  {
    var tail := ss[k..];
    if Marked(ss, n) {
      var i :| 0 <= i < |ss| && ss[i].data == n && IsLeafList(ss[i].attr);
      assert tail[i - k] == ss[i];
    }
    if Marked(tail, n) {
      var i :| 0 <= i < |tail| && tail[i].data == n && IsLeafList(tail[i].attr);
      assert ss[k + i] == tail[i];
    }
  }

  lemma MarkedFirst(ss: seq<Tree>, n: string)
    requires Fields(ss) && FindName(ss, n) < |ss|
    ensures Marked(ss, n) <==> IsLeafList(ss[FindName(ss, n)].attr)
  {
    var k := FindName(ss, n);
    if Marked(ss, n) {
      var i :| 0 <= i < |ss| && ss[i].data == n && IsLeafList(ss[i].attr);
    }
  }

  lemma FirstTurn(ss: seq<Tree>, n: string)
    requires Fields(ss) && Named(ss, n)
    ensures var k := FindName(ss, n);
      k < |ss| && ss[k].data == n && (forall i :: 0 <= i < k ==> ss[i].data != n)
        && (Marked(ss, n) <==> IsLeafList(ss[k].attr))
      && Values(ss[k..], n) == Values(ss, n) && (Marked(ss[k..], n) <==> Marked(ss, n))
      && LastText(ss[k..], n) == LastText(ss, n)
  {
    var k := FindName(ss, n);
    assert k < |ss| by { var j :| 0 <= j < |ss| && ss[j].data == n; assert k <= j; }
    hide Fields, Values, LastText, Marked, Named;
    MarkedFirst(ss, n);
    MarkedFrom(ss, n, k);
    Skipped(ss, n, k);
  }

  lemma {:induction false} Skipped(ss: seq<Tree>, n: string, k: nat)
    requires k <= |ss| && forall i :: 0 <= i < k ==> ss[i].data != n
    ensures Values(ss[k..], n) == Values(ss, n) && LastText(ss[k..], n) == LastText(ss, n)
  {
    if k > 0 {
      assert forall i :: 0 <= i < k - 1 ==> ss[1..][i] == ss[i + 1];
      assert ss[1..][k - 1..] == ss[k..];
      Skipped(ss[1..], n, k - 1);
    } else {
      assert ss[k..] == ss;
    }
  }

  // Several entries of one name are marked
  lemma {:induction false} SeveralMarked(ts: seq<Tree>, n: string)
    requires Fields(ts) && |Values(ts, n)| > 1
    ensures Marked(ts, n)
  {
    FieldsTail(ts);
    if ts[0].data != n { SeveralMarked(ts[1..], n); }
  }

  lemma {:induction false} OneText(ss: seq<Tree>, n: string)
    requires |Values(ss, n)| == 1 && LastText(ss, n).Some?
    ensures Values(ss, n) == [LastText(ss, n).value]
  {
    if ss[0].data == n {
      LastTextNone(ss[1..], n);
    } else {
      OneText(ss[1..], n);
    }
  }

  // Whether the source's entries of n replace the destination's, which d1 is when the first of them has its turn:
  // there are none; or both are marked and d1's are adjacent; or there is one on either side
  predicate Single(ds: seq<Tree>, ss: seq<Tree>, n: string) {
    |Values(ds, n)| == 1 && |Values(ss, n)| == 1 && (LastText(ss, n).Some? || Values(ds, n) == Values(ss, n))
  }

  ghost predicate Replaces(d1: seq<Tree>, ss: seq<Tree>, n: string) {
    Values(d1, n) == [] || if Marked(d1, n) && Marked(ss, n) then Adjacent(d1, n) else Single(d1, ss, n)
  }

  lemma TakesAll(d: seq<Tree>, s: seq<Tree>, n: string)
    requires Fields(d) && Fields(s) && Values(d, n) != [] && Values(s, n) != [] && !(Marked(d, n) && Marked(s, n))
    ensures FirstTakes(Values(d, n), LastText(s, n)) == Values(s, n) <==> Single(d, s, n)
  {
    var dv, sv, t := Values(d, n), Values(s, n), LastText(s, n);
    if |dv| > 1 { SeveralMarked(d, n); }
    if |sv| > 1 { SeveralMarked(s, n); }
    if |sv| == 1 && t.Some? { OneText(s, n); }
    hide Values, Marked, LastText, Fields;
    assert |FirstTakes(dv, t)| == |dv|;
    if |dv| == 1 && |sv| == 1 {
      assert FirstTakes(dv, t) == [if t.Some? then t.value else dv[0]];
      assert dv == [dv[0]];
    }
  }

  // From the turn of n on, when both sides are marked: what is left of the destination's entries, then the source's
  lemma MarkedTurn(env: Env, d1: seq<Tree>, ss: seq<Tree>, g: set<string>, n: string)
    requires Fields(d1) && Fields(ss) && Guarded(d1, ss, g) && ss != [] && ss[0].data == n && n !in g
    requires Marked(d1, n) && IsLeafList(ss[0].attr)
    ensures Values(MergeFrom(env, d1, ss, g), n) == Values(ss, n) <==> Adjacent(d1, n)
  {
    var s, rest := ss[0], ss[1..];
    FieldsTail(ss);
    ValuesPresent(rest, n);
    assert Values(ss, n) == [Value(s)] + Values(rest, n);
    hide Step, Values, Fields, Guarded, Marked, Adjacent, Loses, Named;
    var kept := MarkedStep(env, d1, ss, g, n);
    var (r, g1) := Step(env, d1, s, g);
    MergeOverrides(env, r, rest, g1, n);
    LongerBy(kept, Values(ss, n), [Value(s)], Values(rest, n));
    if Values(rest, n) != [] { RestMarked(ss, n); } else { assert kept + [Value(s)] + [] == kept + [Value(s)]; }
  }

  // The first source entry deletes, and something is kept unless the entries are adjacent
  lemma MarkedStep(env: Env, d1: seq<Tree>, ss: seq<Tree>, g: set<string>, n: string) returns (kept: seq<string>)
    requires Fields(d1) && Fields(ss) && Guarded(d1, ss, g) && ss != [] && ss[0].data == n && n !in g
    requires Marked(d1, n) && IsLeafList(ss[0].attr)
    ensures var (r, g1) := Step(env, d1, ss[0], g);
      MergeFrom(env, d1, ss, g) == MergeFrom(env, r, ss[1..], g1)
      && Fields(r) && Guarded(r, ss[1..], g1) && Marked(r, n) && n in g1 && Values(r, n) == kept + [Value(ss[0])]
    ensures kept == [] <==> Adjacent(d1, n)
  {
    hide Values, Guarded, Adjacent;
    FieldsTail(ss);
    FirstMarked(d1, n);
    hide Step, Fields, Marked;
    var s, cut := ss[0], DeleteRun(d1, FindName(d1, n), n);
    GuardedStep(env, d1, ss, g);
    hide Loses, DeleteRun;
    StepFields(env, d1, s, g);
    StepReplace(env, d1, s, g);
    DeleteRunFields(d1, n);
    ValuesPresent(cut, n);
    kept := Values(cut, n);
  }

  lemma RestMarked(ss: seq<Tree>, n: string)
    requires Fields(ss) && ss != [] && ss[0].data == n && Values(ss[1..], n) != []
    ensures Marked(ss[1..], n)
  {
    FieldsTail(ss);
  }

  lemma LongerBy(kept: seq<string>, all: seq<string>, v: seq<string>, rest: seq<string>)
    requires all == v + rest
    ensures kept + v + rest == all <==> kept == []
  {
    assert kept + v + rest == kept + all;
    assert kept == [] ==> kept + all == all;
    assert |kept + all| == |kept| + |all|;
  }

  // The source's entries of n are what the merge leaves under n exactly when they replace the destination's at their
  // turn
  lemma ReplacedIff(env: Env, ds: seq<Tree>, ss: seq<Tree>, n: string)
    requires Fields(ds) && Fields(ss) && Guarded(ds, ss, {}) && Named(ss, n)
    ensures var d1 := MergeFrom(env, ds, ss[..FindName(ss, n)], {});
      (Values(MergeFrom(env, ds, ss, {}), n) == Values(ss, n) <==> Replaces(d1, ss, n))
      && Values(d1, n) == Values(ds, n) && (Marked(d1, n) <==> Marked(ds, n)) && (Adjacent(ds, n) ==> Adjacent(d1, n))
  {
    var k := FindName(ss, n);
    FirstTurn(ss, n);
    ValuesPresent(ss, n);
    GuardedPart(ds, ss, {}, k);
    hide Values, Fields, Guarded, Marked, Adjacent, Named, LastText;
    var g := BeforeTurn(env, ds, ss, {}, k, n);
    var d1, tail := MergeFrom(env, ds, ss[..k], {}), ss[k..];
    assert tail[0] == ss[k];
    if Marked(d1, n) && Marked(ss, n) {
      MarkedTurn(env, d1, tail, g, n);
      NoValuesUnmarked(d1, n);
    } else {
      MergeOverrides(env, d1, tail, g, n);
      if Values(d1, n) != [] { TakesAll(d1, tail, n); }
      assert Single(d1, tail, n) <==> Single(d1, ss, n);
    }
  }

  // ---- when the destination's entries are adjacent at their turn ----

  // Between two entries of n stand only entries of names in cuts
  ghost predicate Bridged(ds: seq<Tree>, n: string, cuts: iset<string>) {
    forall i, j, k :: 0 <= i < j < k < |ds| && ds[i].data == n && ds[k].data == n ==>
      ds[j].data == n || ds[j].data in cuts
  }

  // The names whose entries a source deletes
  ghost function Cuts(ds: seq<Tree>, ss: seq<Tree>, gone: set<string>): iset<string> {
    iset m | Marked(ds, m) && m !in gone && Marked(ss, m)
  }

  ghost predicate AdjacentBut(ds: seq<Tree>, gone: set<string>, n: string) {
    forall m :: m != n && m !in gone && Marked(ds, m) ==> Adjacent(ds, m)
  }

  lemma BridgedAppend(ds: seq<Tree>, s: Tree, n: string, c1: iset<string>, c2: iset<string>)
    requires n != s.data && forall m :: m != s.data || Named(ds, m) ==> (m in c1 <==> m in c2)
    ensures Bridged(ds, n, c1) <==> Bridged(ds + [s], n, c2)
  {
    var r := ds + [s];
    assert r[|ds|] == s && forall i {:trigger r[i]} {:trigger ds[i]} :: 0 <= i < |ds| ==> r[i] == ds[i];
    assert forall j :: 0 <= j < |ds| ==> Named(ds, ds[j].data);
  }

  lemma BridgedPut(ds: seq<Tree>, r: seq<Tree>, n: string, c1: iset<string>, c2: iset<string>)
    requires |r| == |ds| && (forall i :: 0 <= i < |ds| ==> r[i].data == ds[i].data) && forall m :: m in c1 <==> m in c2
    ensures Bridged(ds, n, c1) <==> Bridged(r, n, c2)
  {
    assert forall i :: 0 <= i < |ds| ==> ds[i].data == r[i].data;
  }

  lemma BridgedCut(ds: seq<Tree>, i: nat, e: nat, r: seq<Tree>, name: string, n: string, c1: iset<string>,
    c2: iset<string>)
    requires Cut(ds, i, e, r) && (forall k :: i <= k < e ==> ds[k].data == name) && name in c1 && n != name
      && !Named(r, name)
    requires forall m :: m != name ==> (m in c1 <==> m in c2)
    ensures Bridged(ds, n, c1) <==> Bridged(r, n, c2)
  {
    if Bridged(ds, n, c1) {
      forall a, b, c | 0 <= a < b < c < |r| && r[a].data == n && r[c].data == n
        ensures r[b].data == n || r[b].data in c2 {
        var x, y, z := Behind(a, i, e), Behind(b, i, e), Behind(c, i, e);
        CutAt(ds, i, e, r, a); CutAt(ds, i, e, r, b); CutAt(ds, i, e, r, c);
        assert ds[y].data == n || ds[y].data in c1;
      }
    }
    if Bridged(r, n, c2) { BridgedUncut(ds, i, e, r, name, n, c1, c2); }
  }

  lemma BridgedUncut(ds: seq<Tree>, i: nat, e: nat, r: seq<Tree>, name: string, n: string, c1: iset<string>,
    c2: iset<string>)
    requires Cut(ds, i, e, r) && (forall k :: i <= k < e ==> ds[k].data == name) && name in c1 && n != name
    requires (forall m :: m != name ==> (m in c1 <==> m in c2)) && Bridged(r, n, c2)
    ensures Bridged(ds, n, c1)
  {
    forall x, y, z | 0 <= x < y < z < |ds| && ds[x].data == n && ds[z].data == n
      ensures ds[y].data == n || ds[y].data in c1 {
      if ds[y].data != name {
        var a, b, c := Before(x, i, e), Before(y, i, e), Before(z, i, e);
        CutAt(ds, i, e, r, a); CutAt(ds, i, e, r, b); CutAt(ds, i, e, r, c);
        assert r[b].data == n || r[b].data in c2;
      }
    }
  }

  function Behind(k: int, i: int, e: int): int { if k < i then k else k + (e - i) }

  function Before(k: int, i: int, e: int): int { if k < i then k else k - (e - i) }

  lemma BridgedDeleted(ds: seq<Tree>, name: string, s: Tree, n: string, c1: iset<string>, c2: iset<string>)
    requires Fields(ds) && FindName(ds, name) < |ds| && Adjacent(ds, name) && name in c1 && n != name == s.data
    requires forall m :: m != name ==> (m in c1 <==> m in c2)
    ensures Bridged(ds, n, c1) <==> Bridged(DeleteRun(ds, FindName(ds, name), name) + [s], n, c2)
  {
    hide Fields, Adjacent, Bridged, Values, Marked, Cut, DeleteRun;
    DeleteRunFields(ds, name);
    var i := FindName(ds, name);
    var r := DeleteRun(ds, i, name);
    var e := DeleteRunCut(ds, i, name);
    BridgedCut(ds, i, e, r, name, n, c1, c2);
    BridgedAppend(r, s, n, c2, c2);
  }

  // The three ways of a step, in positions
  lemma StepForm(env: Env, ds: seq<Tree>, s: Tree, gone: set<string>)
    requires Fields(ds) && Fields([s]) && !Loses(ds, s, gone)
    ensures var r := Step(env, ds, s, gone).0;
      if !Named(ds, s.data) || (Marked(ds, s.data) && IsLeafList(s.attr) && s.data in gone) then r == ds + [s]
      else if Marked(ds, s.data) && IsLeafList(s.attr) then
        FindName(ds, s.data) < |ds| && r == DeleteRun(ds, FindName(ds, s.data), s.data) + [s]
      else |r| == |ds| && forall i :: 0 <= i < |ds| ==> r[i].data == ds[i].data
  {
    assert [s][0] == s;
    if !Named(ds, s.data) {
      StepAppends(env, ds, s, gone);
    } else if Marked(ds, s.data) && IsLeafList(s.attr) {
      FirstMarked(ds, s.data);
      if s.data !in gone { DeletedForm(env, ds, s, gone); }
    } else {
      PutForm(env, ds, s, gone);
    }
  }

  lemma DeletedForm(env: Env, ds: seq<Tree>, s: Tree, gone: set<string>)
    requires Fields(ds) && Fields([s]) && Marked(ds, s.data) && IsLeafList(s.attr) && !Loses(ds, s, gone)
      && s.data !in gone
    ensures Step(env, ds, s, gone).0 == DeleteRun(ds, FindName(ds, s.data), s.data) + [s]
  {
    FirstMarked(ds, s.data);
    DeleteRunFields(ds, s.data);
    var r := DeleteRun(ds, FindName(ds, s.data), s.data);
    if Named(r, s.data) { FirstMarked(r, s.data); }
    assert [s][0] == s;
    hide Values, Adjacent, Fields, DeleteRun, Marked, Named;
    StepAgain(env, ds, s, gone);
  }

  lemma PutForm(env: Env, ds: seq<Tree>, s: Tree, gone: set<string>)
    requires Fields(ds) && Fields([s]) && Named(ds, s.data) && !(Marked(ds, s.data) && IsLeafList(s.attr))
    ensures var r := Step(env, ds, s, gone).0; |r| == |ds| && forall i :: 0 <= i < |ds| ==> r[i].data == ds[i].data
  {
    var i := FindName(ds, s.data);
    assert [s][0] == s;
    assert IsLeafList(ds[i].attr) ==> Marked(ds, s.data);
    var d := MergeTree(env, ds[i], s);
    LeafMerge(env, ds[i], s);
    assert Step(env, ds, s, gone).0 == ds[i := d];
  }

  // What a step deletes, and what is left to delete
  lemma CutsStep(env: Env, ds: seq<Tree>, ss: seq<Tree>, gone: set<string>)
    requires ss != [] && Fields(ds) && Fields(ss) && !Loses(ds, ss[0], gone)
    ensures var s := ss[0]; var (r, g) := Step(env, ds, s, gone);
      var c1, c2 := Cuts(ds, ss, gone), Cuts(r, ss[1..], g);
      (forall m :: m != s.data ==> (m in c1 <==> m in c2)) && (s.data !in c2)
      && (s.data in c1 <==> Marked(ds, s.data) && IsLeafList(s.attr) && s.data !in gone)
  {
    var s := ss[0];
    FieldsTail(ss);
    StepFields(env, ds, s, gone);
    ValuesPresent(ss[1..], s.data);
    assert Marked(ss[1..], s.data) ==> Named(ss[1..], s.data);
    hide Step, Values, Fields, Marked, Adjacent, Loses, Named;
    StepLeaves(env, ds, s, gone);
  }

  lemma StepLeaves(env: Env, ds: seq<Tree>, s: Tree, gone: set<string>)
    requires Fields(ds) && Fields([s]) && !Loses(ds, s, gone)
    ensures var (r, g) := Step(env, ds, s, gone);
      (Marked(r, s.data) && s.data !in g ==> !(IsLeafList(s.attr)))
      && (Marked(r, s.data) && s.data !in g ==>
        Marked(ds, s.data) && s.data !in gone && (Adjacent(ds, s.data) ==> Adjacent(r, s.data)))
  {
    hide Step, Values, Adjacent, Fields;
    assert Marked(ds, s.data) ==> Named(ds, s.data);
    if !Named(ds, s.data) {
      StepNew(env, ds, s, gone);
    } else if Marked(ds, s.data) && IsLeafList(s.attr) {
      StepReplace(env, ds, s, gone);
    } else {
      StepPut(env, ds, s, gone);
    }
  }

  lemma AdjacentStep(ds: seq<Tree>, gone: set<string>, r: seq<Tree>, g: set<string>, s: Tree, n: string)
    requires AdjacentBut(ds, gone, n) && Aside(ds, gone, r, g, s) && s.data != n
    requires Marked(r, s.data) && s.data !in g ==>
      Marked(ds, s.data) && s.data !in gone && (Adjacent(ds, s.data) ==> Adjacent(r, s.data))
    ensures AdjacentBut(r, g, n)
  {
    hide Values, Fields, Marked, Adjacent;
  }

  lemma BridgedStep(env: Env, ds: seq<Tree>, ss: seq<Tree>, gone: set<string>, n: string)
    requires ss != [] && Fields(ds) && Fields(ss) && !Loses(ds, ss[0], gone) && ss[0].data != n
      && AdjacentBut(ds, gone, n)
    ensures var (r, g) := Step(env, ds, ss[0], gone);
      (Bridged(r, n, Cuts(r, ss[1..], g)) <==> Bridged(ds, n, Cuts(ds, ss, gone))) && AdjacentBut(r, g, n)
  {
    var s := ss[0];
    FieldsTail(ss);
    CutsStep(env, ds, ss, gone);
    hide Values, Fields, Marked, Adjacent, Named, Step, Bridged, Cuts, DeleteRun, Loses;
    StepForm(env, ds, s, gone);
    StepFields(env, ds, s, gone);
    StepLeaves(env, ds, s, gone);
    var (r, g) := Step(env, ds, s, gone);
    var c1, c2 := Cuts(ds, ss, gone), Cuts(r, ss[1..], g);
    AdjacentStep(ds, gone, r, g, s, n);
    hide AdjacentBut, Aside;
    if !Named(ds, s.data) || (Marked(ds, s.data) && IsLeafList(s.attr) && s.data in gone) {
      BridgedAppend(ds, s, n, c1, c2);
    } else if Marked(ds, s.data) && IsLeafList(s.attr) {
      BridgedDeleted(ds, s.data, s, n, c1, c2);
    } else {
      BridgedPut(ds, r, n, c1, c2);
    }
  }

  // The entries of n are adjacent at their turn exactly when all that stood between them has been deleted
  lemma {:induction false} BridgedTurn(env: Env, ds: seq<Tree>, ss: seq<Tree>, gone: set<string>, n: string)
    requires Fields(ds) && Fields(ss) && Guarded(ds, ss, gone) && AdjacentBut(ds, gone, n)
    requires forall i :: 0 <= i < |ss| ==> ss[i].data != n
    ensures Adjacent(MergeFrom(env, ds, ss, gone), n) <==> Bridged(ds, n, Cuts(ds, ss, gone))
    decreases ss
  {
    if ss == [] {
      assert forall m :: !Marked(ss, m);
    } else {
      FieldsTail(ss);
      GuardedStep(env, ds, ss, gone);
      hide Values, Fields, Marked, Adjacent, Step, Bridged, Cuts, DeleteRun, Loses, Guarded, AdjacentBut;
      StepFields(env, ds, ss[0], gone);
      BridgedStep(env, ds, ss, gone, n);
      var (r, g) := Step(env, ds, ss[0], gone);
      BridgedTurn(env, r, ss[1..], g, n);
    }
  }

  // In terms of the destination alone: with the other leaf-lists adjacent, marked entries of the source replace marked
  // entries of the destination exactly when those are adjacent up to leaf-lists that the source replaces before them
  lemma ReplacedIffBridged(env: Env, ds: seq<Tree>, ss: seq<Tree>, n: string)
    requires Fields(ds) && Fields(ss) && Guarded(ds, ss, {}) && AdjacentBut(ds, {}, n) && Marked(ds, n) && Marked(ss, n)
    ensures FindName(ss, n) < |ss|
    ensures Values(MergeFrom(env, ds, ss, {}), n) == Values(ss, n)
      <==> Bridged(ds, n, Cuts(ds, ss[..FindName(ss, n)], {}))
  {
    assert Named(ss, n);
    var k := FindName(ss, n);
    FirstTurn(ss, n);
    GuardedPart(ds, ss, {}, k);
    NoValuesUnmarked(ds, n);
    FieldsPart(ss, k);
    hide Values, Fields, Guarded, Marked, Adjacent, Named, AdjacentBut, Bridged, Cuts;
    ReplacedIff(env, ds, ss, n);
    BridgedTurn(env, ds, ss[..k], {}, n);
  }

  lemma FieldsPart(ss: seq<Tree>, k: nat)
    requires Fields(ss) && k <= |ss|
    ensures Fields(ss[..k])
  {
  }

  lemma NoValuesUnmarked(ds: seq<Tree>, n: string)
    requires Marked(ds, n)
    ensures Values(ds, n) != []
  {
    ValuesPresent(ds, n);
    assert Named(ds, n);
  }

  lemma FirstLoss(ds: seq<Tree>, ss: seq<Tree>, n: string)
    requires Fields(ds) && !Guarded(ds, ss, {}) && n == ds[0].data
    ensures IsLeafList(ds[0].attr) && !IsListName(n) && Named(ss, n) && Marked(ss, n)
    ensures Guarded(ds, ss[..FindName(ss, n)], {})
  {
    var j :| 0 <= j < |ss| && IsLeafList(ss[j].attr) && ss[j].data == n;
  }

  // When a source entry deletes the first sibling, that is all it does, and it is the last source entry that does
  // anything
  lemma CursorLost(env: Env, ds: seq<Tree>, ss: seq<Tree>)
    requires Fields(ds) && Fields(ss) && !Guarded(ds, ss, {})
    ensures Named(ss, ds[0].data)
    ensures var n := ds[0].data; var d1 := MergeFrom(env, ds, ss[..FindName(ss, n)], {});
      MergeFrom(env, ds, ss, {}) == DeleteRun(d1, 0, n) && (Adjacent(ds, n) ==> !Named(MergeFrom(env, ds, ss, {}), n))
  {
    assert ds != [];
    hide Fields, Marked, Adjacent, Named, LastText, Values, Guarded;
    var n := ds[0].data;
    FirstLoss(ds, ss, n);
    FirstTurn(ss, n);
    var k := FindName(ss, n);
    var g := BeforeTurn(env, ds, ss, {}, k, n);
    var d1, tail := MergeFrom(env, ds, ss[..k], {}), ss[k..];
    assert tail[0] == ss[k] && Loses(d1, tail[0], g);
    assert FindName(d1, n) == 0;
    DeleteRunFields(d1, n);
  }

  // The guard is exact: with adjacent leaf-lists, every field is overridden as it should exactly when no source entry
  // deletes the first sibling
  lemma OverridesIffGuarded(env: Env, ds: seq<Tree>, ss: seq<Tree>)
    requires Fields(ds) && Fields(ss) && forall n :: Marked(ds, n) ==> Adjacent(ds, n)
    ensures (forall n :: Values(MergeFrom(env, ds, ss, {}), n) == Merged(ds, ss, {}, [], n)) <==> Guarded(ds, ss, {})
  {
    if Guarded(ds, ss, {}) {
      forall n ensures Values(MergeFrom(env, ds, ss, {}), n) == Merged(ds, ss, {}, [], n) {
        MergeOverrides(env, ds, ss, {}, n);
      }
    } else {
      CursorLost(env, ds, ss);
      var n := ds[0].data;
      assert Marked(ds, n);
      var r := MergeFrom(env, ds, ss, {});
      ValuesPresent(r, n);
      ValuesPresent(ss, n);
      ValuesPresent(ds, n);
      assert Named(ds, n);
      assert Marked(ss, n) by { var i :| 0 <= i < |ss| && IsLeafList(ss[i].attr) && ss[i].data == n; }
      hide Fields, Guarded, Marked, Adjacent, Named, LastText, Values, MergeFrom;
      assert [] + Values(ss, n) == Values(ss, n);
      assert Values(r, n) != Merged(ds, ss, {}, [], n);
    }
  }

  // A leaf-list that holds one default value is not marked: of two source entries only the last survives
  lemma UnmarkedDefault(env: Env, d: Tree, a: Tree, b: Tree, td: Tree, ta: Tree, tb: Tree)
    requires d.data == a.data == b.data && !IsListName(d.data) && !IsLeafList(d.attr) && IsLeafList(a.attr)
      && IsLeafList(b.attr)
    requires d.kids == [td] && a.kids == [ta] && b.kids == [tb] && td.nodeType == ta.nodeType == tb.nodeType == Text
    requires td.data == "d" && ta.data == "1" && tb.data == "2"
    ensures Fields([d]) && Fields([a, b]) && Adjacent([d], d.data)
    ensures Values([a, b], d.data) == ["1", "2"] && Values(MergeFrom(env, [d], [a, b], {}), d.data) == ["2"]
  {
    var ds, ss, n := [d], [a, b], d.data;
    assert ss[1..] == [b] && ss[1..][1..] == [] && ds[1..] == [];
    assert Values([b], n) == ["2"];
    assert LastText([], n) == None && LastText([b], n) == TextOfLeaf(b) == Some("2");
    assert Values(ds, n) == ["d"] && !Marked(ds, n);
    assert Marked(ss, n) by { assert ss[0] == a; }
    MergeOverrides(env, ds, ss, {}, n);
  }
}
