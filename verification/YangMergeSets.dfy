// The merge never uses a node twice.
module YangMergeSets {
  import opened YangNodes
  import opened YangTree
  import opened YangMerge
  import opened YangLists

  lemma AllConcat(a: seq<Tree>, b: seq<Tree>)
    ensures All(a + b) == All(a) + All(b)
  {
    assert forall t :: t in a + b <==> t in a || t in b;
  }

  lemma AllOne(t: Tree)
    ensures All([t]) == Nodes(t)
  {
    assert t in [t];
  }

  lemma SepConcat(a: seq<Tree>, b: seq<Tree>)
    ensures Sep(a + b) <==> Sep(a) && Sep(b) && All(a) !! All(b)
  {
    var c := a + b;
    if Sep(c) {
      forall i, j | 0 <= i < j < |a| ensures Nodes(a[i]) !! Nodes(a[j]) { assert c[i] == a[i] && c[j] == a[j]; }
      forall i, j | 0 <= i < j < |b| ensures Nodes(b[i]) !! Nodes(b[j]) {
        assert c[|a| + i] == b[i] && c[|a| + j] == b[j];
      }
      assert forall t :: t in a ==> t in c;
      assert forall t :: t in b ==> t in c;
      forall s, t | s in a && t in b ensures Nodes(s) !! Nodes(t) {
        var i :| 0 <= i < |a| && s == a[i];
        var j :| 0 <= j < |b| && t == b[j];
        assert c[i] == s && c[|a| + j] == t;
      }
    }
    if Sep(a) && Sep(b) && All(a) !! All(b) {
      forall i, j | 0 <= i < j < |c| ensures Nodes(c[i]) !! Nodes(c[j]) {
        if i < |a| <= j {
          assert c[i] in a && c[j] in b;
          AllMember(a, c[i]); AllMember(b, c[j]);
        } else if i >= |a| {
          assert c[i] == b[i - |a|] && c[j] == b[j - |a|];
        }
      }
    }
  }

  lemma SepOne(t: Tree)
    ensures Sep([t]) <==> t.id !in All(t.kids) && Sep(t.kids)
  {
    assert t in [t];
  }

  lemma Between(a: seq<Tree>, t: Tree, b: seq<Tree>)
    ensures All(a + ([t] + b)) == All(a) + Nodes(t) + All(b)
    ensures Sep(a + ([t] + b)) <==> (Sep(a) && Sep([t]) && Sep(b)
      && All(a) !! Nodes(t) && All(a) !! All(b) && Nodes(t) !! All(b))
  {
    hide Sep, Nodes, All;
    AllConcat(a, [t] + b); AllConcat([t], b); AllOne(t);
    SepConcat(a, [t] + b); SepConcat([t], b);
  }

  lemma Split(ds: seq<Tree>, i: nat)
    requires i < |ds|
    ensures All(ds) == All(ds[..i]) + Nodes(ds[i]) + All(ds[i + 1..])
    ensures Sep(ds) <==> (Sep(ds[..i]) && Sep([ds[i]]) && Sep(ds[i + 1..])
      && All(ds[..i]) !! Nodes(ds[i]) && All(ds[..i]) !! All(ds[i + 1..]) && Nodes(ds[i]) !! All(ds[i + 1..]))
  {
    hide Sep, Nodes, All;
    assert ds == ds[..i] + ([ds[i]] + ds[i + 1..]);
    Between(ds[..i], ds[i], ds[i + 1..]);
  }

  lemma RemoveSep(ds: seq<Tree>, i: nat)
    requires i < |ds| && Sep(ds)
    ensures Sep(Remove(ds, i)) && All(Remove(ds, i)) == All(ds) - Nodes(ds[i])
  {
    hide Sep, Nodes, All;
    Split(ds, i);
    AllConcat(ds[..i], ds[i + 1..]); SepConcat(ds[..i], ds[i + 1..]);
  }

  lemma UpdateSep(ds: seq<Tree>, i: nat, t: Tree)
    requires i < |ds| && Sep(ds) && Sep([t])
    requires Nodes(t) * All(ds) <= Nodes(ds[i])
    ensures Sep(ds[i := t]) && All(ds[i := t]) == All(ds) - Nodes(ds[i]) + Nodes(t)
  {
    hide Sep, Nodes, All;
    Split(ds, i);
    var e := ds[i := t];
    assert e[..i] == ds[..i] && e[i + 1..] == ds[i + 1..];
    Split(e, i);
  }

  lemma {:induction false} DeleteRunSep(ds: seq<Tree>, i: nat, name: string)
    requires i <= |ds| && Sep(ds)
    ensures Sep(DeleteRun(ds, i, name)) && All(DeleteRun(ds, i, name)) <= All(ds)
    decreases |ds|
  {
    if i < |ds| && ds[i].data == name {
      RemoveSep(ds, i);
      DeleteRunSep(Remove(ds, i), i, name);
    }
  }

  lemma {:induction false} StepSep(env: Env, ds: seq<Tree>, s: Tree, gone: set<string>)
    requires Sep(ds) && Sep([s]) && All(ds) !! Nodes(s)
    ensures var d := Step(env, ds, s, gone).0; Sep(d) && All(d) <= All(ds) + Nodes(s)
    decreases s, 1, if s.data in gone then 0 else 1
  {
    hide Sep, Nodes, All;
    AllConcat(ds, [s]); AllOne(s); SepConcat(ds, [s]);
    var i := FindName(ds, s.data);
    if i < |ds| {
      if IsListName(s.data) {
        var j := FindId(ds, CachedList(env, s.data, s.attr));
        if j < |ds| { MergeTreeStepSep(env, ds, j, s); }
      } else if IsLeafList(ds[i].attr) && IsLeafList(s.attr) {
        if s.data !in gone {
          DeleteRunSep(ds, i, s.data);
          StepSep(env, DeleteRun(ds, i, s.data), s, gone + {s.data});
        }
      } else {
        MergeTreeStepSep(env, ds, i, s);
      }
    }
  }

  lemma {:induction false} MergeTreeStepSep(env: Env, ds: seq<Tree>, j: nat, s: Tree)
    requires j < |ds| && Sep(ds) && Sep([s]) && All(ds) !! Nodes(s)
    ensures var d := ds[j := MergeTree(env, ds[j], s)]; Sep(d) && All(d) <= All(ds) + Nodes(s)
    decreases s, 0, 1
  {
    hide Sep, Nodes, All;
    Split(ds, j);
    MergeTreeSep(env, ds[j], s);
    UpdateSep(ds, j, MergeTree(env, ds[j], s));
  }

  lemma {:induction false} MergeTreeSep(env: Env, d: Tree, s: Tree)
    requires Sep([d]) && Sep([s]) && Nodes(d) !! Nodes(s)
    ensures var t := MergeTree(env, d, s);
      Sep([t]) && t.id == d.id && Nodes(t) <= Nodes(d) + All(s.kids) <= Nodes(d) + Nodes(s)
    decreases s, 0, 0
  {
    hide Sep, All;
    SepOne(d); SepOne(s);
    var t := MergeTree(env, d, s);
    SepOne(t);
    if d.kids != [] && s.kids != [] {
      if d.kids[0].nodeType == Text && s.kids[0].nodeType == Text {
        var k := d.kids[0].(data := s.kids[0].data);
        Split(d.kids, 0); SepOne(d.kids[0]); SepOne(k);
        UpdateSep(d.kids, 0, k);
      } else {
        MergeFromSep(env, d.kids, s.kids, {});
      }
    }
  }

  lemma {:induction false} MergeFromSep(env: Env, ds: seq<Tree>, ss: seq<Tree>, gone: set<string>)
    requires Sep(ds) && Sep(ss) && All(ds) !! All(ss)
    ensures var r := MergeFrom(env, ds, ss, gone); Sep(r) && All(r) <= All(ds) + All(ss)
    decreases ss
  {
    hide Sep, Nodes, All;
    if ss != [] && Loses(ds, ss[0], gone) {
      DeleteRunSep(ds, 0, ss[0].data);
    } else if ss != [] {
      Split(ss, 0);
      assert ss[..0] == [];
      StepSep(env, ds, ss[0], gone);
      var (d1, g1) := Step(env, ds, ss[0], gone);
      MergeFromSep(env, d1, ss[1..], g1);
    }
  }
}
