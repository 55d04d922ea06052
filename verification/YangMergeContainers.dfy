// What a merge means for the children of a container.
module YangMergeContainers {
  import opened YangNodes
  import opened YangTree
  import opened YangMerge
  import opened YangLists

  // Children with a name of their own each, none of them an instance of a list or an entry of a leaf-list
  ghost predicate Named(ts: seq<Tree>) {
    (forall i :: 0 <= i < |ts| ==> !IsListName(ts[i].data) && !IsLeafList(ts[i].attr))
    && forall i, j :: 0 <= i < j < |ts| ==> ts[i].data != ts[j].data
  }

  // d with the source child of its name merged into it
  ghost function MergedKid(env: Env, d: Tree, ss: seq<Tree>): Tree {
    var i := FindName(ss, d.data);
    if i < |ss| then MergeTree(env, d, ss[i]) else d
  }

  ghost function MergedKids(env: Env, ds: seq<Tree>, ss: seq<Tree>): (r: seq<Tree>)
    ensures |r| == |ds| && forall i :: 0 <= i < |ds| ==> r[i] == MergedKid(env, ds[i], ss)
  {
    seq(|ds|, i requires 0 <= i < |ds| => MergedKid(env, ds[i], ss))
  }

  // The source children whose name the destination lacks
  function NewKids(ds: seq<Tree>, ss: seq<Tree>): seq<Tree> {
    if ss == [] then [] else (if Has(ds, ss[0].data) then [] else [ss[0]]) + NewKids(ds, ss[1..])
  }

  predicate Has(ts: seq<Tree>, name: string) { exists i :: 0 <= i < |ts| && ts[i].data == name }

  lemma {:induction false} SameNames(ds: seq<Tree>, d1: seq<Tree>, ss: seq<Tree>)
    requires forall s :: s in ss ==> (Has(ds, s.data) <==> Has(d1, s.data))
    ensures NewKids(ds, ss) == NewKids(d1, ss)
  {
    if ss != [] {
      assert ss[0] in ss;
      SameNames(ds, d1, ss[1..]);
    }
  }

  lemma NamedTail(ss: seq<Tree>)
    requires ss != [] && Named(ss)
    ensures Named(ss[1..]) && !Has(ss[1..], ss[0].data)
  {
    var rest := ss[1..];
    assert forall i :: 0 <= i < |rest| ==> rest[i] == ss[i + 1];
  }

  lemma FindHas(ts: seq<Tree>, name: string)
    ensures FindName(ts, name) < |ts| <==> Has(ts, name)
  {
  }

  lemma HasAppend(ds: seq<Tree>, s: Tree, name: string)
    ensures Has(ds + [s], name) <==> Has(ds, name) || s.data == name
  {
    var d1 := ds + [s];
    assert d1[|ds|] == s;
    if i :| 0 <= i < |ds| && ds[i].data == name { assert d1[i] == ds[i]; }
  }

  lemma HasPut(ds: seq<Tree>, i: nat, t: Tree, name: string)
    requires i < |ds| && t.data == ds[i].data
    ensures Has(ds[i := t], name) <==> Has(ds, name)
  {
    var d1 := ds[i := t];
    assert forall k {:trigger d1[k]} {:trigger ds[k]} :: 0 <= k < |ds| ==> d1[k].data == ds[k].data;
  }

  lemma NotIn(ts: seq<Tree>, name: string, t: Tree)
    requires !Has(ts, name) && t in ts
    ensures t.data != name
  {
  }

  lemma KidStep(env: Env, d: Tree, ss: seq<Tree>)
    requires ss != []
    ensures MergedKid(env, d, ss) ==
      if d.data == ss[0].data then MergeTree(env, d, ss[0]) else MergedKid(env, d, ss[1..])
  {
    hide MergeTree;
  }

  lemma KidNone(env: Env, d: Tree, ss: seq<Tree>)
    requires !Has(ss, d.data)
    ensures MergedKid(env, d, ss) == d
  {
    FindHas(ss, d.data);
  }

  lemma NamedAppend(ds: seq<Tree>, s: Tree)
    requires Named(ds) && !IsListName(s.data) && !IsLeafList(s.attr) && !Has(ds, s.data)
    ensures Named(ds + [s])
  {
    var d1 := ds + [s];
    assert forall i :: 0 <= i < |d1| ==> d1[i] == if i < |ds| then ds[i] else s;
  }

  lemma NamedPut(ds: seq<Tree>, i: nat, t: Tree)
    requires Named(ds) && i < |ds| && t.data == ds[i].data && t.attr == ds[i].attr
    ensures Named(ds[i := t])
  {
    var d1 := ds[i := t];
    assert forall k :: 0 <= k < |ds| ==> d1[k].data == ds[k].data && d1[k].attr == ds[k].attr;
  }

  lemma NewStep(ds: seq<Tree>, d1: seq<Tree>, ss: seq<Tree>)
    requires ss != [] && forall s :: s in ss[1..] ==> (Has(ds, s.data) <==> Has(d1, s.data))
    ensures NewKids(ds, ss) == (if Has(ds, ss[0].data) then [] else [ss[0]]) + NewKids(d1, ss[1..])
  {
    SameNames(ds, d1, ss[1..]);
  }

  lemma NewAppend(ds: seq<Tree>, ss: seq<Tree>)
    requires ss != [] && Named(ss) && !Has(ds, ss[0].data)
    ensures NewKids(ds, ss) == [ss[0]] + NewKids(ds + [ss[0]], ss[1..])
  {
    NamedTail(ss);
    hide Named, Has, NewKids;
    forall t | t in ss[1..] ensures Has(ds, t.data) <==> Has(ds + [ss[0]], t.data) {
      HasAppend(ds, ss[0], t.data);
      NotIn(ss[1..], ss[0].data, t);
    }
    NewStep(ds, ds + [ss[0]], ss);
  }

  lemma NewPut(ds: seq<Tree>, ss: seq<Tree>, i: nat, t: Tree)
    requires ss != [] && i < |ds| && ds[i].data == ss[0].data == t.data
    ensures NewKids(ds, ss) == NewKids(ds[i := t], ss[1..])
  {
    assert Has(ds, ss[0].data);
    hide Has, NewKids;
    forall u | u in ss[1..] ensures Has(ds, u.data) <==> Has(ds[i := t], u.data) { HasPut(ds, i, t, u.data); }
    NewStep(ds, ds[i := t], ss);
    assert [] + NewKids(ds[i := t], ss[1..]) == NewKids(ds[i := t], ss[1..]);
  }

  lemma KidsAppend(env: Env, ds: seq<Tree>, ss: seq<Tree>)
    requires ss != [] && Named(ss) && !Has(ds, ss[0].data)
    ensures MergedKids(env, ds + [ss[0]], ss[1..]) == MergedKids(env, ds, ss) + [ss[0]]
  {
    var s, rest := ss[0], ss[1..];
    NamedTail(ss);
    hide MergedKid, Named, Has;
    var a, b := MergedKids(env, ds + [s], rest), MergedKids(env, ds, ss) + [s];
    forall i | 0 <= i < |ds| + 1 ensures a[i] == b[i] {
      if i < |ds| {
        NotIn(ds, s.data, ds[i]);
        KidStep(env, ds[i], ss);
      } else {
        KidNone(env, s, rest);
      }
    }
  }

  lemma KidsPut(env: Env, ds: seq<Tree>, ss: seq<Tree>, i: nat, t: Tree)
    requires ss != [] && Named(ds) && Named(ss) && i < |ds| && ds[i].data == ss[0].data == t.data
    requires t == MergeTree(env, ds[i], ss[0])
    ensures MergedKids(env, ds[i := t], ss[1..]) == MergedKids(env, ds, ss)
  {
    var s, rest := ss[0], ss[1..];
    NamedTail(ss);
    forall k | 0 <= k < |ds| && k != i ensures ds[k].data != s.data {}
    hide MergeTree, MergedKid, Named, Has;
    var a, b := MergedKids(env, ds[i := t], rest), MergedKids(env, ds, ss);
    forall k | 0 <= k < |ds| ensures a[k] == b[k] {
      KidStep(env, ds[k], ss);
      if k == i { KidNone(env, t, rest); }
    }
  }

  lemma MergeTreeName(env: Env, d: Tree, s: Tree)
    ensures var t := MergeTree(env, d, s); t.data == d.data && t.attr == d.attr
  {
  }

  lemma StepOf(env: Env, ds: seq<Tree>, ss: seq<Tree>, gone: set<string>)
    requires ss != [] && Named(ds) && Named(ss)
    ensures !Loses(ds, ss[0], gone)
    ensures var i := FindName(ds, ss[0].data);
      Step(env, ds, ss[0], gone) == (if i == |ds| then ds + [ss[0]] else ds[i := MergeTree(env, ds[i], ss[0])], gone)
  {
    hide MergeTree;
  }

  lemma ContainerAppend(env: Env, ds: seq<Tree>, ss: seq<Tree>)
    requires ss != [] && Named(ds) && Named(ss) && !Has(ds, ss[0].data)
    ensures var d1 := ds + [ss[0]];
      Named(d1)
      && MergedKids(env, d1, ss[1..]) + NewKids(d1, ss[1..]) == MergedKids(env, ds, ss) + NewKids(ds, ss)
  {
    NamedAppend(ds, ss[0]);
    hide Named, Has, MergedKids, NewKids;
    var d1, rest := ds + [ss[0]], ss[1..];
    var a, a1, b, b1 := MergedKids(env, ds, ss), MergedKids(env, d1, rest), NewKids(ds, ss), NewKids(d1, rest);
    assert a1 == a + [ss[0]] by { KidsAppend(env, ds, ss); }
    assert b == [ss[0]] + b1 by { NewAppend(ds, ss); }
    Regroup(a, ss[0], b1);
  }

  lemma Regroup(a: seq<Tree>, x: Tree, b: seq<Tree>)
    ensures (a + [x]) + b == a + ([x] + b)
  {
  }

  lemma ContainerPut(env: Env, ds: seq<Tree>, ss: seq<Tree>, i: nat)
    requires ss != [] && Named(ds) && Named(ss) && i < |ds| && ds[i].data == ss[0].data
    ensures var d1 := ds[i := MergeTree(env, ds[i], ss[0])];
      Named(d1)
      && MergedKids(env, d1, ss[1..]) + NewKids(d1, ss[1..]) == MergedKids(env, ds, ss) + NewKids(ds, ss)
  {
    hide Named, Has, MergeTree, MergedKids, NewKids;
    var t := MergeTree(env, ds[i], ss[0]);
    MergeTreeName(env, ds[i], ss[0]);
    NamedPut(ds, i, t);
    KidsPut(env, ds, ss, i, t);
    NewPut(ds, ss, i, t);
  }

  // Matching children merge in place, all others follow in source order
  lemma {:induction false} MergeContainers(env: Env, ds: seq<Tree>, ss: seq<Tree>, gone: set<string>)
    requires Named(ds) && Named(ss)
    ensures MergeFrom(env, ds, ss, gone) == MergedKids(env, ds, ss) + NewKids(ds, ss)
    decreases ss
  {
    if ss == [] {
      assert MergedKids(env, ds, ss) == ds;
    } else {
      NamedTail(ss);
      StepOf(env, ds, ss, gone);
      FindHas(ds, ss[0].data);
      hide Named, Has, MergeTree, MergedKids, NewKids, Step, Loses;
      var i := FindName(ds, ss[0].data);
      if i == |ds| { ContainerAppend(env, ds, ss); } else { ContainerPut(env, ds, ss, i); }
      MergeContainers(env, Step(env, ds, ss[0], gone).0, ss[1..], gone);
    }
  }
}
