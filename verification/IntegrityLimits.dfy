// Where the order of tables is not enough: each lemma gives requests between sound stores with an unsound state inside.
module IntegrityLimits {
  import opened Wrappers
  import opened Text
  import opened DepTables
  import opened ConfigDb
  import opened RefIntegrity
  import opened LeafList
  import opened RowPlan

  lemma Plain(value: string, f: string)
    requires !IsList(f)
    ensures Values(f, value) == [value] && FieldName(f) == f
  {
  }

  // A table with one key leaf, which refers to nothing
  predicate OwnKey(sc: Schema, t: string) { t in sc && |sc[t].keys| == 1 && RefTables(sc, t, sc[t].keys[0]) == {} }

  lemma OwnKeyMet(sc: Schema, s: Store, id: RowId)
    requires OwnKey(sc, id.table)
    ensures KeyMet(sc, s.Keys, id)
  {
    hide RefTables;
  }

  // A table whose leaf refers to its own rows: the rows of one table are deleted in any order
  lemma SelfReference(sc: Schema, t: string, leaf: string, a: string, b: string)
    requires OwnKey(sc, t) && RefTables(sc, t, leaf) == {t} && !IsList(leaf) && a != b
    ensures var s: Store := map[RowId(t, a) := map[leaf := b], RowId(t, b) := map[leaf := b]];
      NoDangling(sc, s)
      && !NoDangling(sc, Apply(s, Del(RowId(t, b))))
      && NoDangling(sc, Apply(Apply(s, Del(RowId(t, b))), Del(RowId(t, a))))
  {
    var s: Store := map[RowId(t, a) := map[leaf := b], RowId(t, b) := map[leaf := b]];
    Plain(b, leaf);
    assert Met(sc, s.Keys, t, leaf, b);
    var s1 := Apply(s, Del(RowId(t, b)));
    OwnKeyMet(sc, s, RowId(t, a));
    OwnKeyMet(sc, s, RowId(t, b));
    assert s1 == map[RowId(t, a) := map[leaf := b]];
    assert !Met(sc, s1.Keys, t, leaf, b);
    assert Values(leaf, b)[0] == b;
    assert !FieldMet(sc, s1.Keys, t, leaf, s1[RowId(t, a)][leaf]);
    assert Apply(s1, Del(RowId(t, a))) == map[];
  }

  // Some rows of parent, and one row of child that refers to the key v
  function ParentRows(parent: string, parents: set<string>): set<RowId> { set k | k in parents :: RowId(parent, k) }

  function Family(parent: string, parents: set<string>, child: string, leaf: string, v: string): Store {
    (map id | id in ParentRows(parent, parents) :: map["n" := "1"])[RowId(child, "c") := map[leaf := v]]
  }

  predicate ParentChild(sc: Schema, parent: string, child: string, leaf: string) {
    OwnKey(sc, parent) && OwnKey(sc, child) && RefTables(sc, child, leaf) == {parent} && !IsList(leaf)
    && sc[parent].leafRef == map[] && parent != child && leaf != "NULL"
  }

  lemma FamilyMet(sc: Schema, parent: string, parents: set<string>, child: string, leaf: string, v: string)
    requires ParentChild(sc, parent, child, leaf)
    ensures NoDangling(sc, Family(parent, parents, child, leaf, v)) <==> v in parents
  {
    var s := Family(parent, parents, child, leaf, v);
    var c := RowId(child, "c");
    Plain(v, leaf);
    hide RefTables, Values, FieldName;
    assert Met(sc, s.Keys, child, leaf, v) <==> RowId(parent, v) in s;
    assert RowId(parent, v) in s <==> v in parents;
    assert FieldMet(sc, s.Keys, child, leaf, v) <==> v in parents by { assert Values(leaf, v)[0] == v; }
    assert c in s && s[c] == map[leaf := v] && leaf in s[c];
    hide Met;
    if NoDangling(sc, s) { assert FieldMet(sc, s.Keys, c.table, leaf, s[c][leaf]); }
    forall f | f in s[c] ensures f == leaf {}
    forall id | id in s
      ensures KeyMet(sc, s.Keys, id)
        && (id != c ==> forall f :: f in s[id] ==> FieldMet(sc, s.Keys, id.table, f, s[id][f])) {
      OwnKeyMet(sc, s, id);
      if id != c {
        forall f | f in s[id] ensures FieldMet(sc, s.Keys, id.table, f, s[id][f]) {
          ParentField(sc, s, parent, f, s[id][f]);
        }
      }
    }
  }

  // An update that names nothing but an absent leaf-list deletes its row, before the update of the row that refers to
  // it
  lemma EmptyingUpdate(sc: Schema, parent: string, child: string, leaf: string)
    requires ParentChild(sc, parent, child, leaf)
    ensures var p, c := RowId(parent, "p"), RowId(child, "c");
      var s := Family(parent, {"p", "q"}, child, leaf, "p");
      var first := RowCmds(UPDATE, p, RowOf(s, p), map["l@" := ""]);
      var second := RowCmds(UPDATE, c, RowOf(s, c), map[leaf := "q"]);
      first == [Del(p)] && second == [HMSet(c, map[leaf := "q"])]
      && NoDangling(sc, s) && !NoDangling(sc, Apply(s, first[0]))
      && NoDangling(sc, Apply(Apply(s, first[0]), second[0]))
  {
    hide NoDangling, RefTables, Put, UpdateFields;
    var p, c := RowId(parent, "p"), RowId(child, "c");
    var s := Family(parent, {"p", "q"}, child, leaf, "p");
    EmptyFields(RowOf(s, p));
    PlainFields(RowOf(s, c), leaf);
    FamilyMet(sc, parent, {"p", "q"}, child, leaf, "p");
    FamilyMet(sc, parent, {"q"}, child, leaf, "p");
    FamilyMet(sc, parent, {"q"}, child, leaf, "q");
    FamilyLess(parent, child, leaf);
    FamilyMoved(parent, child, leaf);
  }

  // The delete of a table of which a row is refused reports nothing, and the delete of the row it refers to follows
  method HalfDeleted(sc: Schema, parent: string, child: string, leaf: string, d: DB) returns (first: bool, second: bool)
    requires ParentChild(sc, parent, child, leaf) && d.store == Family(parent, {"p"}, child, leaf, "p")
      && d.txCmds == []
    requires !d.keysFail(d.asked, child) && d.refuses(d.asked + 1, Del(RowId(child, "c")))
    requires !d.refuses(d.asked + 2, Del(RowId(parent, "p")))
    modifies d
    ensures first && second && NoDangling(sc, d.store) && !NoDangling(sc, Replay(d.store, d.txCmds))
  {
    hide NoDangling, RefTables, Put;
    var p, c := RowId(parent, "p"), RowId(child, "c");
    ghost var ids, complete;
    first, ids, complete := d.DeleteTable(child);
    OnlyChild(parent, child, leaf, ids);
    assert ids == [] && d.txCmds == [];
    second := d.DeleteEntry(p);
    assert d.txCmds[..0] == [] && Replay(d.store, d.txCmds) == Apply(d.store, Del(p));
    FamilyMet(sc, parent, {"p"}, child, leaf, "p");
    FamilyMet(sc, parent, {}, child, leaf, "p");
    FamilyEmpty(parent, child, leaf);
  }

  lemma OnlyChild(parent: string, child: string, leaf: string, ids: seq<RowId>)
    requires OfTable(Family(parent, {"p"}, child, leaf, "p"), child, ids) && parent != child
    ensures ids != [] ==> ids[0] == RowId(child, "c")
  {
  }

  lemma FamilyEmpty(parent: string, child: string, leaf: string)
    requires parent != child
    ensures Apply(Family(parent, {"p"}, child, leaf, "p"), Del(RowId(parent, "p"))) ==
      Family(parent, {}, child, leaf, "p")
  {
    var p := RowId(parent, "p");
    var s, t := Family(parent, {"p"}, child, leaf, "p"), Family(parent, {}, child, leaf, "p");
    assert s - {p} == t;
  }

  lemma FamilyLess(parent: string, child: string, leaf: string)
    requires parent != child
    ensures Apply(Family(parent, {"p", "q"}, child, leaf, "p"), Del(RowId(parent, "p"))) ==
      Family(parent, {"q"}, child, leaf, "p")
  {
    var p := RowId(parent, "p");
    assert "p"[0] != "q"[0];
    var s, t := Family(parent, {"p", "q"}, child, leaf, "p"), Family(parent, {"q"}, child, leaf, "p");
    assert s - {p} == t;
  }

  lemma FamilyMoved(parent: string, child: string, leaf: string)
    ensures Apply(Family(parent, {"q"}, child, leaf, "p"), HMSet(RowId(child, "c"), map[leaf := "q"])) ==
      Family(parent, {"q"}, child, leaf, "q")
  {
    var s, c := Family(parent, {"q"}, child, leaf, "p"), RowId(child, "c");
    assert RowOf(s, c) == map[leaf := "p"] && map[leaf := "p"] + map[leaf := "q"] == map[leaf := "q"];
    var r: Row := map[leaf := "q"];
    assert leaf in r && r != map[];
    assert s[c := r] == Family(parent, {"q"}, child, leaf, "q");
  }

  lemma ParentField(sc: Schema, s: Store, t: string, f: string, value: string)
    requires t in sc && sc[t].leafRef == map[]
    ensures FieldMet(sc, s.Keys, t, f, value)
  {
    ParentFree(sc, t);
  }

  lemma ParentFree(sc: Schema, t: string)
    requires t in sc && sc[t].leafRef == map[]
    ensures forall leaf :: RefTables(sc, t, leaf) == {}
  {
  }

  lemma EmptyFields(stored: Row)
    requires stored == map["n" := "1"]
    ensures UpdateFields(stored, WithNull(map["l@" := ""])) == map[]
  {
    var f: Row := map["l@" := ""];
    assert |f| == 1;
    assert "l@"[1..] == "@" && IsList("l@");
    assert "l@" !in stored by { assert |"l@"| != |"n"|; }
    assert List(stored, "l@") == [] && Items("") == [];
  }

  lemma PlainFields(stored: Row, leaf: string)
    requires !IsList(leaf)
    ensures UpdateFields(stored, WithNull(map[leaf := "q"])) == map[leaf := "q"]
  {
    var f: Row := map[leaf := "q"];
    assert |f| == 1;
  }
}
