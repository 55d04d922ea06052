// What a merge means for the instances of a list.
module YangMergeInstances {
  import opened YangNodes
  import opened YangTree
  import opened YangMerge
  import opened YangLists

  ghost function IdSet(ts: seq<Tree>): set<Node?> { set i | 0 <= i < |ts| :: ts[i].id }

  // d after every source instance cached under d's node has been merged into it, in source order
  ghost function UpdateOne(env: Env, d: Tree, ss: seq<Tree>): (r: Tree)
    ensures r.id == d.id && r.data == d.data
    decreases ss
  {
    if ss == [] then d
    else UpdateOne(env, if CachedList(env, ss[0].data, ss[0].attr) == d.id then MergeTree(env, d, ss[0]) else d,
      ss[1..])
  }

  ghost function UpdateAll(env: Env, ds: seq<Tree>, ss: seq<Tree>): (r: seq<Tree>)
    ensures |r| == |ds| && forall i :: 0 <= i < |ds| ==> r[i] == UpdateOne(env, ds[i], ss)
  {
    seq(|ds|, i requires 0 <= i < |ds| => UpdateOne(env, ds[i], ss))
  }

  ghost function Unmatched(env: Env, ids: set<Node?>, ss: seq<Tree>): seq<Tree> {
    if ss == [] then []
    else (if CachedList(env, ss[0].data, ss[0].attr) in ids then [] else [ss[0]]) + Unmatched(env, ids, ss[1..])
  }

  ghost predicate ListTrees(ts: seq<Tree>) {
    (forall i :: 0 <= i < |ts| ==> IsListName(ts[i].data) && !IsLeafList(ts[i].attr)) &&
    (forall i, j :: 0 <= i < j < |ts| ==> ts[i].id != ts[j].id)
  }

  // The request cache knows a source instance as no other source instance, and a destination instance under its own
  // list name
  ghost predicate CacheKnows(env: Env, ds: seq<Tree>, ss: seq<Tree>) {
    (forall s, t :: s in ss && t in ss && CachedList(env, s.data, s.attr) == t.id ==> s.id == t.id) &&
    (forall d, s :: d in ds && s in ss && CachedList(env, s.data, s.attr) == d.id ==> d.data == s.data)
  }

  ghost predicate Instances(env: Env, ds: seq<Tree>, ss: seq<Tree>) {
    ListTrees(ds + ss) && CacheKnows(env, ds, ss)
  }

  lemma {:induction false} Untouched(env: Env, d: Tree, ss: seq<Tree>)
    requires forall s :: s in ss ==> CachedList(env, s.data, s.attr) != d.id
    ensures UpdateOne(env, d, ss) == d
  {
    if ss != [] {
      assert ss[0] in ss;
      Untouched(env, d, ss[1..]);
    }
  }

  lemma {:induction false} UnmatchedSame(env: Env, a: set<Node?>, b: set<Node?>, ss: seq<Tree>)
    requires forall s :: s in ss ==> (CachedList(env, s.data, s.attr) in a <==> CachedList(env, s.data, s.attr) in b)
    ensures Unmatched(env, a, ss) == Unmatched(env, b, ss)
  {
    if ss != [] {
      assert ss[0] in ss;
      UnmatchedSame(env, a, b, ss[1..]);
    }
  }

  lemma InstanceStep(env: Env, ds: seq<Tree>, s: Tree, gone: set<string>)
    requires IsListName(s.data) && !IsLeafList(s.attr)
    requires forall d :: d in ds && CachedList(env, s.data, s.attr) == d.id ==> d.data == s.data
    ensures var j := FindId(ds, CachedList(env, s.data, s.attr));
      Step(env, ds, s, gone) == (if j == |ds| then ds + [s] else ds[j := MergeTree(env, ds[j], s)], gone)
  {
    var j := FindId(ds, CachedList(env, s.data, s.attr));
    if j < |ds| { assert ds[j] in ds; }
  }

  // No later source instance is cached as the first one
  lemma FirstIsAlone(env: Env, ds: seq<Tree>, ss: seq<Tree>)
    requires ss != [] && Instances(env, ds, ss)
    ensures forall t :: t in ss[1..] ==> t in ss && CachedList(env, t.data, t.attr) != ss[0].id
  {
    hide CachedList;
    var a := ds + ss;
    forall t | t in ss[1..] ensures t in ss && CachedList(env, t.data, t.attr) != ss[0].id {
      var i :| 0 <= i < |ss[1..]| && ss[1..][i] == t;
      assert a[|ds|] == ss[0] && a[|ds| + i + 1] == ss[i + 1] == t;
      assert ss[0] in ss && t in ss;
    }
  }

  lemma AfterAppend(env: Env, ds: seq<Tree>, ss: seq<Tree>)
    requires ss != [] && Instances(env, ds, ss)
    ensures Instances(env, ds + [ss[0]], ss[1..])
  {
    FirstIsAlone(env, ds, ss);
    hide CachedList, ListTrees;
    var rest := ss[1..];
    assert (ds + [ss[0]]) + rest == ds + ss;
    assert ss[0] in ss && forall t :: t in rest ==> t in ss;
  }

  lemma ListTreesPut(ds: seq<Tree>, ss: seq<Tree>, j: nat, t: Tree)
    requires ss != [] && ListTrees(ds + ss) && j < |ds| && t.id == ds[j].id && t.data == ds[j].data
      && t.attr == ds[j].attr
    ensures ListTrees(ds[j := t] + ss[1..])
  {
    var a, b := ds + ss, ds[j := t] + ss[1..];
    var f := (i: int) => if i < |ds| then i else i + 1;
    assert forall i {:trigger b[i]} :: 0 <= i < |b| ==>
      b[i].id == a[f(i)].id && b[i].data == a[f(i)].data && b[i].attr == a[f(i)].attr;
  }

  lemma AfterPut(env: Env, ds: seq<Tree>, ss: seq<Tree>, j: nat, t: Tree)
    requires ss != [] && Instances(env, ds, ss) && j < |ds| && t.id == ds[j].id && t.data == ds[j].data
      && t.attr == ds[j].attr
    ensures Instances(env, ds[j := t], ss[1..])
  {
    hide CachedList, ListTrees;
    ListTreesPut(ds, ss, j, t);
    var rest, d1 := ss[1..], ds[j := t];
    assert forall t :: t in rest ==> t in ss;
    assert ds[j] in ds;
    assert forall u :: u in d1 ==> u in ds || u == t;
  }

  lemma UpdateStep(env: Env, d: Tree, ss: seq<Tree>)
    requires ss != [] && CachedList(env, ss[0].data, ss[0].attr) != d.id
    ensures UpdateOne(env, d, ss) == UpdateOne(env, d, ss[1..])
  {
  }

  lemma UpdateAppend(env: Env, ds: seq<Tree>, ss: seq<Tree>)
    requires ss != [] && Instances(env, ds, ss) && FindId(ds, CachedList(env, ss[0].data, ss[0].attr)) == |ds|
    ensures UpdateAll(env, ds + [ss[0]], ss[1..]) == UpdateAll(env, ds, ss) + [ss[0]]
  {
    var s, rest := ss[0], ss[1..];
    var d1 := ds + [s];
    assert UpdateOne(env, s, rest) == s by {
      FirstIsAlone(env, ds, ss);
      Untouched(env, s, rest);
    }
    hide UpdateOne, CachedList, Instances, FindId;
    var a, b := UpdateAll(env, d1, rest), UpdateAll(env, ds, ss) + [s];
    forall i | 0 <= i < |d1| ensures a[i] == b[i] {
      if i < |ds| { UpdateStep(env, ds[i], ss); }
    }
  }

  lemma IdSetAppend(ds: seq<Tree>, s: Tree)
    ensures IdSet(ds + [s]) == IdSet(ds) + {s.id}
  {
    var d1 := ds + [s];
    assert d1[|ds|] == s;
    assert forall i :: 0 <= i < |ds| ==> d1[i] == ds[i];
  }

  lemma UnmatchedAppend(env: Env, ds: seq<Tree>, ss: seq<Tree>)
    requires ss != [] && Instances(env, ds, ss) && FindId(ds, CachedList(env, ss[0].data, ss[0].attr)) == |ds|
    ensures Unmatched(env, IdSet(ds), ss) == [ss[0]] + Unmatched(env, IdSet(ds + [ss[0]]), ss[1..])
  {
    var s, rest := ss[0], ss[1..];
    var d1 := ds + [s];
    FirstIsAlone(env, ds, ss);
    IdSetAppend(ds, s);
    assert FindId(ds, CachedList(env, s.data, s.attr)) == |ds| ==> CachedList(env, s.data, s.attr) !in IdSet(ds);
    hide CachedList, IdSet, FindId;
    UnmatchedSame(env, IdSet(ds), IdSet(d1), rest);
  }

  lemma UpdateHit(env: Env, d: Tree, ss: seq<Tree>)
    requires ss != [] && CachedList(env, ss[0].data, ss[0].attr) == d.id
    ensures UpdateOne(env, d, ss) == UpdateOne(env, MergeTree(env, d, ss[0]), ss[1..])
  {
  }

  lemma UpdatePut(env: Env, ds: seq<Tree>, ss: seq<Tree>, j: nat)
    requires ss != [] && Instances(env, ds, ss) && j < |ds| && ds[j].id == CachedList(env, ss[0].data, ss[0].attr)
    ensures UpdateAll(env, ds[j := MergeTree(env, ds[j], ss[0])], ss[1..]) == UpdateAll(env, ds, ss)
    ensures IdSet(ds[j := MergeTree(env, ds[j], ss[0])]) == IdSet(ds)
    ensures Unmatched(env, IdSet(ds), ss) == Unmatched(env, IdSet(ds), ss[1..])
  {
    var t := MergeTree(env, ds[j], ss[0]);
    MergeTreeId(env, ds[j], ss[0]);
    var d1 := ds[j := t];
    forall i | 0 <= i < |ds| && i != j ensures ds[i].id != ds[j].id {
      assert (ds + ss)[i] == ds[i] && (ds + ss)[j] == ds[j];
    }
    hide MergeTree, CachedList, UpdateOne, Instances;
    assert IdSet(d1) == IdSet(ds) by { assert forall i :: 0 <= i < |ds| ==> d1[i].id == ds[i].id; }
    var a, b := UpdateAll(env, d1, ss[1..]), UpdateAll(env, ds, ss);
    forall i | 0 <= i < |ds| ensures a[i] == b[i] {
      if i == j { UpdateHit(env, ds[j], ss); } else { UpdateStep(env, ds[i], ss); }
    }
  }

  lemma MergeTreeId(env: Env, d: Tree, s: Tree)
    ensures var t := MergeTree(env, d, s); t.id == d.id && t.data == d.data && t.attr == d.attr
  {
  }

  lemma StepOf(env: Env, ds: seq<Tree>, ss: seq<Tree>, gone: set<string>)
    requires ss != [] && Instances(env, ds, ss)
    ensures var j := FindId(ds, CachedList(env, ss[0].data, ss[0].attr));
      Step(env, ds, ss[0], gone) == (if j == |ds| then ds + [ss[0]] else ds[j := MergeTree(env, ds[j], ss[0])], gone)
    ensures !Loses(ds, ss[0], gone)
  {
    hide Step, MergeTree, CachedList;
    assert (ds + ss)[|ds|] == ss[0] && ss[0] in ss;
    InstanceStep(env, ds, ss[0], gone);
  }

  lemma InstanceAppend(env: Env, ds: seq<Tree>, ss: seq<Tree>, r: seq<Tree>)
    requires ss != [] && Instances(env, ds, ss) && FindId(ds, CachedList(env, ss[0].data, ss[0].attr)) == |ds|
    requires var d1 := ds + [ss[0]]; r == UpdateAll(env, d1, ss[1..]) + Unmatched(env, IdSet(d1), ss[1..])
    ensures r == UpdateAll(env, ds, ss) + Unmatched(env, IdSet(ds), ss)
  {
    hide Instances, UpdateAll, Unmatched, IdSet, CachedList;
    UpdateAppend(env, ds, ss);
    UnmatchedAppend(env, ds, ss);
  }

  lemma InstancePut(env: Env, ds: seq<Tree>, ss: seq<Tree>, r: seq<Tree>)
    requires ss != [] && Instances(env, ds, ss) && FindId(ds, CachedList(env, ss[0].data, ss[0].attr)) < |ds|
    requires var j := FindId(ds, CachedList(env, ss[0].data, ss[0].attr));
      var d1 := ds[j := MergeTree(env, ds[j], ss[0])];
      r == UpdateAll(env, d1, ss[1..]) + Unmatched(env, IdSet(d1), ss[1..])
    ensures r == UpdateAll(env, ds, ss) + Unmatched(env, IdSet(ds), ss)
  {
    hide Instances, UpdateAll, Unmatched, IdSet, CachedList, MergeTree;
    UpdatePut(env, ds, ss, FindId(ds, CachedList(env, ss[0].data, ss[0].attr)));
  }

  // Matched instances merge in place, all others follow in source order
  lemma {:induction false} MergeInstances(env: Env, ds: seq<Tree>, ss: seq<Tree>, gone: set<string>)
    requires Instances(env, ds, ss)
    ensures MergeFrom(env, ds, ss, gone) == UpdateAll(env, ds, ss) + Unmatched(env, IdSet(ds), ss)
    decreases ss
  {
    if ss == [] {
      assert UpdateAll(env, ds, ss) == ds;
    } else {
      hide Instances, MergeTree, UpdateAll, Unmatched, IdSet, Step, CachedList;
      var j := FindId(ds, CachedList(env, ss[0].data, ss[0].attr));
      StepOf(env, ds, ss, gone);
      var d1 := Step(env, ds, ss[0], gone).0;
      if j == |ds| {
        AfterAppend(env, ds, ss);
        MergeInstances(env, d1, ss[1..], gone);
        InstanceAppend(env, ds, ss, MergeFrom(env, ds, ss, gone));
      } else {
        MergeTreeId(env, ds[j], ss[0]);
        AfterPut(env, ds, ss, j, MergeTree(env, ds[j], ss[0]));
        MergeInstances(env, d1, ss[1..], gone);
        InstancePut(env, ds, ss, MergeFrom(env, ds, ss, gone));
      }
    }
  }
}
