// The merge keeps trees that fit the schema.
module YangMergeTyped {
  import opened YangNodes
  import opened YangTree
  import opened YangMerge
  import opened YangLists
  import opened YangMergeWorld

  lemma CachedListIsCached(env: Env, name: string, attr: seq<Attr>)
    ensures CachedList(env, name, attr) != null ==> CachedList(env, name, attr) in Cached(env)
  {
  }

  lemma {:induction false} DeleteRunTyped(env: Env, ds: seq<Tree>, i: nat, name: string)
    requires i <= |ds| && Typed(env, false, ds)
    ensures var r := DeleteRun(ds, i, name); Typed(env, false, r) && |r| >= i && r[..i] == ds[..i]
    decreases |ds|
  {
    if i < |ds| && ds[i].data == name {
      var e := Remove(ds, i);
      assert e[..i] == ds[..i];
      DeleteRunTyped(env, e, i, name);
    }
  }

  // Merging keeps the schema shape, and the first sibling unless that is deleted
  lemma {:induction false} StepTyped(env: Env, ds: seq<Tree>, s: Tree, gone: set<string>)
    requires EnvOk(env) && ds != [] && Typed(env, false, ds) && TypedTree(env, s) && !Loses(ds, s, gone)
    ensures var d := Step(env, ds, s, gone).0; d != [] && d[0].id == ds[0].id && Typed(env, false, d)
    decreases s, 1, if s.data in gone then 0 else 1
  {
    var i := FindName(ds, s.data);
    if i < |ds| {
      if IsListName(s.data) {
        var y := CachedList(env, s.data, s.attr);
        var j := FindId(ds, y);
        CachedListIsCached(env, s.data, s.attr);
        if j < |ds| { MergeTreeTyped(env, ds[j], s); }
      } else if IsLeafList(ds[i].attr) && IsLeafList(s.attr) {
        if s.data !in gone {
          assert i > 0;
          DeleteRunTyped(env, ds, i, s.data);
          assert DeleteRun(ds, i, s.data)[0] == DeleteRun(ds, i, s.data)[..i][0];
          StepTyped(env, DeleteRun(ds, i, s.data), s, gone + {s.data});
        }
      } else {
        MergeTreeTyped(env, ds[i], s);
      }
    }
  }

  lemma {:induction false} MergeTreeTyped(env: Env, d: Tree, s: Tree)
    requires EnvOk(env) && TypedTree(env, d) && TypedTree(env, s) && (d.data in env.leaves <==> s.data in env.leaves)
    ensures TypedTree(env, MergeTree(env, d, s))
    decreases s, 0
  {
    if d.kids != [] && s.kids != [] {
      assert d.kids[0] in d.kids && s.kids[0] in s.kids;
      if d.data !in env.leaves {
        MergeFromTyped(env, d.kids, s.kids, {});
      }
    }
  }

  lemma {:induction false} MergeFromTyped(env: Env, ds: seq<Tree>, ss: seq<Tree>, gone: set<string>)
    requires EnvOk(env) && ds != [] && Typed(env, false, ds) && forall s :: s in ss ==> TypedTree(env, s)
    ensures Typed(env, false, MergeFrom(env, ds, ss, gone))
    decreases ss
  {
    if ss != [] && Loses(ds, ss[0], gone) {
      DeleteRunTyped(env, ds, 0, ss[0].data);
    } else if ss != [] {
      StepTyped(env, ds, ss[0], gone);
      var (d1, g1) := Step(env, ds, ss[0], gone);
      MergeFromTyped(env, d1, ss[1..], g1);
    }
  }
}
