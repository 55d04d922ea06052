// What it means that no leafref dangles, in terms of the schema's paths and of the stored text.
module IntegrityMeaning {
  import opened Wrappers
  import opened Text
  import opened YangLists
  import opened DepTables
  import opened ConfigDb
  import opened RefIntegrity

  // A path of the leaf goes through the list of n
  ghost predicate Target(sc: Schema, table: string, leaf: string, n: string) {
    table in sc && leaf in sc[table].leafRef && n in sc && exists i ::
      0 <= i < |sc[table].leafRef[leaf]| && Through(sc[table].leafRef[leaf][i], n)
  }

  lemma TargetIs(sc: Schema, table: string, leaf: string, n: string)
    requires OneList(sc)
    ensures n in RefTables(sc, table, leaf) <==> Target(sc, table, leaf, n)
  {
    hide ListNames, Through, ListTable;
    if n in RefTables(sc, table, leaf) {
      var i :| 0 <= i < |sc[table].leafRef[leaf]| && n in PathTargets(sc, sc[table].leafRef[leaf][i]);
      var m :| m in ListNames(sc, sc[table].leafRef[leaf][i]) && ListTable(RedisTables(sc), m) == n;
      ThroughList(sc, sc[table].leafRef[leaf][i], m);
    }
    if Target(sc, table, leaf, n) {
      var i :| 0 <= i < |sc[table].leafRef[leaf]| && Through(sc[table].leafRef[leaf][i], n);
      ThroughList(sc, sc[table].leafRef[leaf][i], n);
      assert n in PathTargets(sc, sc[table].leafRef[leaf][i]);
    }
  }

  // One of the tables the leaf refers to, if there is any, has a row with this key
  ghost predicate Resolved(sc: Schema, s: Store, table: string, leaf: string, value: string) {
    (forall n :: !Target(sc, table, leaf, n)) || exists n :: Target(sc, table, leaf, n) && RowId(n, value) in s
  }

  lemma ResolvedIs(sc: Schema, s: Store, table: string, leaf: string, value: string)
    requires OneList(sc)
    ensures Met(sc, s.Keys, table, leaf, value) <==> Resolved(sc, s, table, leaf, value)
  {
    hide RefTables, Target;
    forall n ensures n in RefTables(sc, table, leaf) <==> Target(sc, table, leaf, n) {
      TargetIs(sc, table, leaf, n);
    }
    if RefTables(sc, table, leaf) != {} { var n :| n in RefTables(sc, table, leaf); }
  }

  // The leaf-list of the leaf, written as the items: every item is resolved
  ghost predicate ItemsResolved(sc: Schema, s: Store, table: string, r: Row, leaf: string) {
    forall items :: ItemsWritten(r, leaf, items) ==> forall i :: 0 <= i < |items| ==>
      Resolved(sc, s, table, leaf, items[i])
  }

  ghost predicate ItemsWritten(r: Row, leaf: string, items: seq<string>) {
    leaf + "@" in r && r[leaf + "@"] == Join(items, ',') && items != [""]
    && forall i :: 0 <= i < |items| ==> ',' !in items[i]
  }

  ghost predicate PartsResolved(sc: Schema, s: Store, id: RowId) {
    id.table in sc ==> forall parts :: PartsWritten(id.key, parts) ==>
      forall i :: 0 <= i < |parts| && i < |sc[id.table].keys| ==>
        Resolved(sc, s, id.table, sc[id.table].keys[i], parts[i])
  }

  ghost predicate PartsWritten(key: string, parts: seq<string>) {
    key == Join(parts, '|') && parts != [] && forall i :: 0 <= i < |parts| ==> '|' !in parts[i]
  }

  // Every leafref of the row: the value of a field, each item of a leaf-list, and each part of the key
  ghost predicate RowResolved(sc: Schema, s: Store, id: RowId)
    requires id in s
  {
    (forall f :: f in s[id] && (f == "" || f[|f| - 1] != '@') ==> Resolved(sc, s, id.table, f, s[id][f]))
    && (forall leaf :: ItemsResolved(sc, s, id.table, s[id], leaf))
    && PartsResolved(sc, s, id)
  }

  lemma PlainFields(sc: Schema, s: Store, id: RowId, f: string)
    requires OneList(sc) && id in s && f in s[id] && (f == "" || f[|f| - 1] != '@')
    ensures FieldMet(sc, s.Keys, id.table, f, s[id][f]) <==> Resolved(sc, s, id.table, f, s[id][f])
  {
    hide Met, Resolved;
    FieldNames(f);
    ResolvedIs(sc, s, id.table, f, s[id][f]);
    assert Values(f, s[id][f])[0] == s[id][f];
  }

  lemma ListFields(sc: Schema, s: Store, table: string, r: Row, leaf: string)
    requires OneList(sc)
    ensures (leaf + "@" in r ==> FieldMet(sc, s.Keys, table, leaf + "@", r[leaf + "@"])) <==>
      ItemsResolved(sc, s, table, r, leaf)
  {
    hide Met, Resolved;
    FieldNames(leaf);
    if leaf + "@" in r {
      var value := r[leaf + "@"];
      var items := Items(value);
      ReadBack(value);
      forall other | ItemsWritten(r, leaf, other) ensures other == items { ItemsJoined(other); }
      forall i | 0 <= i < |items|
        ensures Met(sc, s.Keys, table, leaf, items[i]) <==> Resolved(sc, s, table, leaf, items[i]) {
        ResolvedIs(sc, s, table, leaf, items[i]);
      }
      assert ItemsWritten(r, leaf, items) && Values(leaf + "@", value) == items;
    }
  }

  lemma ReadBack(value: string)
    ensures var items := Items(value);
      value == Join(items, ',') && items != [""] && forall i :: 0 <= i < |items| ==> ',' !in items[i]
  {
    JoinSplit(value, ',');
    SplitParts(value, ',');
  }

  lemma ItemsJoined(items: seq<string>)
    requires items != [""] && forall i :: 0 <= i < |items| ==> ',' !in items[i]
    ensures Items(Join(items, ',')) == items
  {
    if items != [] { SplitJoin(items, ','); }
  }

  lemma KeyParts(sc: Schema, s: Store, id: RowId)
    requires OneList(sc)
    ensures KeyMet(sc, s.Keys, id) <==> PartsResolved(sc, s, id)
  {
    hide Met, Resolved;
    if id.table in sc {
      var keys, parts := sc[id.table].keys, Split(id.key, '|');
      JoinSplit(id.key, '|');
      SplitParts(id.key, '|');
      forall other | PartsWritten(id.key, other) ensures other == parts { SplitJoin(other, '|'); }
      forall i | 0 <= i < |parts| && i < |keys|
        ensures Met(sc, s.Keys, id.table, keys[i], parts[i]) <==> Resolved(sc, s, id.table, keys[i], parts[i]) {
        ResolvedIs(sc, s, id.table, keys[i], parts[i]);
      }
      assert PartsWritten(id.key, parts);
    }
  }

  lemma RowIs(sc: Schema, s: Store, id: RowId)
    requires OneList(sc) && id in s
    ensures RowMet(sc, s.Keys, id, s[id]) <==> RowResolved(sc, s, id)
  {
    hide OneList, KeyMet, FieldMet, Resolved, ItemsResolved, PartsResolved;
    var r := s[id];
    KeyParts(sc, s, id);
    forall f | f in r && (f == "" || f[|f| - 1] != '@')
      ensures FieldMet(sc, s.Keys, id.table, f, r[f]) <==> Resolved(sc, s, id.table, f, r[f])
    {
      PlainFields(sc, s, id, f);
    }
    forall leaf: string
      ensures (leaf + "@" in r ==> FieldMet(sc, s.Keys, id.table, leaf + "@", r[leaf + "@"])) <==>
        ItemsResolved(sc, s, id.table, r, leaf)
    {
      ListFields(sc, s, id.table, r, leaf);
    }
    forall f | f in r && f != "" && f[|f| - 1] == '@'
      ensures ItemsResolved(sc, s, id.table, r, f[..|f| - 1]) <==> FieldMet(sc, s.Keys, id.table, f, r[f])
    {
      assert f == f[..|f| - 1] + "@";
    }
  }

  // No leafref dangles exactly when every leafref names the key of a row of a table that its path goes through
  lemma NoDanglingIff(sc: Schema, s: Store)
    requires OneList(sc)
    ensures NoDangling(sc, s) <==> forall id :: id in s ==> RowResolved(sc, s, id)
  {
    hide OneList, RowMet, RowResolved;
    forall id | id in s ensures RowMet(sc, s.Keys, id, s[id]) <==> RowResolved(sc, s, id) { RowIs(sc, s, id); }
  }
}
