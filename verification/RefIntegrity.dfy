// Referential integrity of a store, and the states a store goes through while tables are written in dependency order.
module RefIntegrity {
  import opened Wrappers
  import opened Text
  import opened DepGraph
  import opened DepTables
  import opened ConfigDb

  function Values(field: string, value: string): seq<string> { if IsList(field) then Items(value) else [value] }

  // The tables a leaf refers to: one of them must hold the value as a key
  function RefTables(sc: Schema, table: string, leaf: string): set<string> {
    if table in sc then Targets(sc, sc[table].leafRef, {leaf}) else {}
  }

  // The value of the leaf names one of the rows
  ghost predicate Met(sc: Schema, rows: set<RowId>, table: string, leaf: string, value: string) {
    RefTables(sc, table, leaf) == {} || exists t :: t in RefTables(sc, table, leaf) && RowId(t, value) in rows
  }

  ghost predicate FieldMet(sc: Schema, rows: set<RowId>, table: string, field: string, value: string) {
    forall i :: 0 <= i < |Values(field, value)| ==> Met(sc, rows, table, FieldName(field), Values(field, value)[i])
  }

  ghost predicate KeyMet(sc: Schema, rows: set<RowId>, id: RowId) {
    id.table in sc ==>
      var keys, parts := sc[id.table].keys, Split(id.key, '|');
      forall i :: 0 <= i < |keys| && i < |parts| ==> Met(sc, rows, id.table, keys[i], parts[i])
  }

  // Every leafref of the row r, in its fields and in its key, names one of the rows
  ghost predicate RowMet(sc: Schema, rows: set<RowId>, id: RowId, r: Row) {
    KeyMet(sc, rows, id) && forall f :: f in r ==> FieldMet(sc, rows, id.table, f, r[f])
  }

  ghost predicate NoDangling(sc: Schema, s: Store) { forall id :: id in s ==> RowMet(sc, s.Keys, id, s[id]) }

  // r holds nothing but fields of a or b
  ghost predicate Between(a: Row, b: Row, r: Row) {
    forall f :: f in r ==> (f in a && a[f] == r[f]) || (f in b && b[f] == r[f])
  }

  // One row on the way from a to b: a row that is there at both ends stays
  ghost predicate OnWay(a: Row, b: Row, r: Row) { Between(a, b, r) && (a != map[] && b != map[] ==> r != map[]) }

  // On the way from s0 to s1: the tables done hold the rows of s1, those still to come hold the rows of s0
  ghost predicate Stage(s0: Store, s1: Store, done: set<string>, todo: set<string>, s: Store) {
    forall id: RowId ::
      (id.table in done ==> RowOf(s, id) == RowOf(s1, id))
      && (id.table in todo ==> RowOf(s, id) == RowOf(s0, id))
      && OnWay(RowOf(s0, id), RowOf(s1, id), RowOf(s, id))
  }

  // Down, a table is done before those it refers to; up, after them
  ghost predicate Ordered(sc: Schema, down: bool, all: set<string>, done: set<string>, todo: set<string>) {
    (forall a, b :: a in all - done - todo && b in all - done - todo ==> a == b)
    && forall a, b :: a in all && b in all && a != b && Refs(sc, a, b) ==>
      if down then (b in done ==> a in done) && (a in todo ==> b in todo)
        else (a in done ==> b in done) && (b in todo ==> a in todo)
  }

  ghost predicate OnlyTables(s0: Store, s1: Store, all: set<string>) {
    forall id: RowId :: id.table !in all ==> RowOf(s0, id) == RowOf(s1, id)
  }

  lemma InRow(s: Store, id: RowId)
    requires Stored(s)
    ensures id in s <==> RowOf(s, id) != map[]
  {
  }

  lemma LeafRefs(sc: Schema, table: string, leaf: string, t: string)
    requires t in RefTables(sc, table, leaf)
    ensures Refs(sc, table, t)
  {
  }

  // ---- when every state on the way is sound ----

  // The end at which a row may refer to no more than what stays: the first one up, the last one down
  function Narrow(down: bool, s0: Store, s1: Store): Store { if down then s1 else s0 }

  function Wide(down: bool, s0: Store, s1: Store): Store { if down then s0 else s1 }

  // The rows that are there while the row id of the narrow end a is: those of both ends, and itself
  ghost function Staying(a: Store, b: Store, id: RowId): set<RowId> { a.Keys * b.Keys + {id} }

  // The rows that are there while the row id of the wide end b is: also those of other tables
  ghost function Ahead(b: Store, a: Store, id: RowId): set<RowId> {
    set y | y in b && (y.table != id.table || y in Staying(a, b, id))
  }

  // Each leafref of the narrow end is met by a row that stays, and each of the wide end by a row of its own end that
  // stays or is in another table
  ghost predicate Covered(sc: Schema, a: Store, b: Store) {
    (forall id :: id in a ==> RowMet(sc, Staying(a, b, id), id, a[id]))
    && forall id :: id in b ==> RowMet(sc, Ahead(b, a, id), id, b[id])
  }

  // Where a row of table may hold fields of both ends
  ghost predicate Mixed(down: bool, all: set<string>, done: set<string>, todo: set<string>, table: string) {
    table in all && table !in if down then done else todo
  }

  lemma StayingThere(s0: Store, s1: Store, done: set<string>, todo: set<string>, s: Store, id: RowId, y: RowId)
    requires Stage(s0, s1, done, todo, s) && Stored(s0) && Stored(s1) && Stored(s) && id in s
      && y in Staying(s0, s1, id)
    ensures y in s
  {
    InRow(s0, y);
    InRow(s1, y);
    InRow(s, y);
  }

  lemma AheadThere(sc: Schema, down: bool, s0: Store, s1: Store, all: set<string>, done: set<string>,
    todo: set<string>, s: Store, table: string, y: RowId)
    requires Stage(s0, s1, done, todo, s) && Ordered(sc, down, all, done, todo) && OnlyTables(s0, s1, all)
    requires Stored(s0) && Stored(s1) && Stored(s) && Refs(sc, table, y.table) && table != y.table
    requires y in Wide(down, s0, s1) && Mixed(down, all, done, todo, table)
    ensures y in s
  {
    var rest, t := all - done - todo, y.table;
    assert table in rest && t in rest ==> table == t;
    assert t in all ==> if down then t in todo else t in done;
    InRow(s0, y);
    InRow(s1, y);
    InRow(s, y);
  }

  // A reference of the row id is met on the way when it is met at the end from which the row has it
  lemma MetStays(sc: Schema, down: bool, s0: Store, s1: Store, all: set<string>, done: set<string>, todo: set<string>,
    s: Store, id: RowId, leaf: string, value: string)
    requires Stage(s0, s1, done, todo, s) && Ordered(sc, down, all, done, todo) && OnlyTables(s0, s1, all)
    requires Stored(s0) && Stored(s1) && Stored(s) && id in s
    requires var a, b := Narrow(down, s0, s1), Wide(down, s0, s1);
      Met(sc, Staying(a, b, id), id.table, leaf, value)
      || (Met(sc, Ahead(b, a, id), id.table, leaf, value) && Mixed(down, all, done, todo, id.table))
    ensures Met(sc, s.Keys, id.table, leaf, value)
  {
    hide Stage, Ordered, OnlyTables, Refs, RefTables, Mixed;
    var a, b := Narrow(down, s0, s1), Wide(down, s0, s1);
    if RefTables(sc, id.table, leaf) != {} {
      if t :| t in RefTables(sc, id.table, leaf) && RowId(t, value) in Staying(a, b, id) {
        StayingThere(s0, s1, done, todo, s, id, RowId(t, value));
      } else {
        var t :| t in RefTables(sc, id.table, leaf) && RowId(t, value) in Ahead(b, a, id);
        LeafRefs(sc, id.table, leaf, t);
        AheadThere(sc, down, s0, s1, all, done, todo, s, id.table, RowId(t, value));
      }
    }
  }

  lemma RowEnds(down: bool, s0: Store, s1: Store, all: set<string>, done: set<string>, todo: set<string>, s: Store,
    id: RowId)
    requires Stage(s0, s1, done, todo, s) && OnlyTables(s0, s1, all) && Stored(s0) && Stored(s1) && Stored(s)
      && id in s
    ensures var a, b := Narrow(down, s0, s1), Wide(down, s0, s1);
      if Mixed(down, all, done, todo, id.table) then (id in a || id in b) && Between(RowOf(a, id), RowOf(b, id), s[id])
      else id in a && Between(RowOf(a, id), RowOf(a, id), s[id])
  {
    InRow(s0, id);
    InRow(s1, id);
    InRow(s, id);
    assert RowOf(s, id) == s[id];
    var f :| f in s[id];
  }

  lemma KeySafe(sc: Schema, down: bool, s0: Store, s1: Store, all: set<string>, done: set<string>, todo: set<string>,
    s: Store, id: RowId)
    requires Stage(s0, s1, done, todo, s) && Ordered(sc, down, all, done, todo) && OnlyTables(s0, s1, all)
    requires Stored(s0) && Stored(s1) && Stored(s) && id in s
    requires Covered(sc, Narrow(down, s0, s1), Wide(down, s0, s1))
    ensures KeyMet(sc, s.Keys, id)
  {
    hide Stage, Ordered, OnlyTables, Refs, RefTables, Mixed, Met, Stored, Staying, Ahead, FieldMet, Split;
    RowEnds(down, s0, s1, all, done, todo, s, id);
    var a, b := Narrow(down, s0, s1), Wide(down, s0, s1);
    assert KeyMet(sc, if id in a then Staying(a, b, id) else Ahead(b, a, id), id);
    hide Covered;
    if id.table in sc {
      var keys, parts := sc[id.table].keys, Split(id.key, '|');
      forall i | 0 <= i < |keys| && i < |parts| ensures Met(sc, s.Keys, id.table, keys[i], parts[i]) {
        MetStays(sc, down, s0, s1, all, done, todo, s, id, keys[i], parts[i]);
      }
    }
  }

  lemma FieldSafe(sc: Schema, down: bool, s0: Store, s1: Store, all: set<string>, done: set<string>, todo: set<string>,
    s: Store, id: RowId, f: string)
    requires Stage(s0, s1, done, todo, s) && Ordered(sc, down, all, done, todo) && OnlyTables(s0, s1, all)
    requires Stored(s0) && Stored(s1) && Stored(s) && id in s && f in s[id]
    requires Covered(sc, Narrow(down, s0, s1), Wide(down, s0, s1))
    ensures FieldMet(sc, s.Keys, id.table, f, s[id][f])
  {
    hide Stage, Ordered, OnlyTables, Refs, RefTables, Mixed, Met, Stored, Staying, Ahead, KeyMet, Values, FieldName;
    RowEnds(down, s0, s1, all, done, todo, s, id);
    var a, b := Narrow(down, s0, s1), Wide(down, s0, s1);
    var v := s[id][f];
    var narrow := f in RowOf(a, id) && RowOf(a, id)[f] == v;
    assert FieldMet(sc, if narrow then Staying(a, b, id) else Ahead(b, a, id), id.table, f, v);
    hide Covered;
    forall i | 0 <= i < |Values(f, v)| ensures Met(sc, s.Keys, id.table, FieldName(f), Values(f, v)[i]) {
      MetStays(sc, down, s0, s1, all, done, todo, s, id, FieldName(f), Values(f, v)[i]);
    }
  }

  // No state between two such ends has a dangling reference
  lemma StageSafe(sc: Schema, down: bool, s0: Store, s1: Store, all: set<string>, done: set<string>, todo: set<string>,
    s: Store)
    requires Stage(s0, s1, done, todo, s) && Ordered(sc, down, all, done, todo) && OnlyTables(s0, s1, all)
    requires Stored(s0) && Stored(s1) && Stored(s) && Covered(sc, Narrow(down, s0, s1), Wide(down, s0, s1))
    ensures NoDangling(sc, s)
  {
    hide Stage, Ordered, OnlyTables, KeyMet, FieldMet, Stored, Covered;
    forall id | id in s ensures RowMet(sc, s.Keys, id, s[id]) {
      KeySafe(sc, down, s0, s1, all, done, todo, s, id);
      forall f | f in s[id] ensures FieldMet(sc, s.Keys, id.table, f, s[id][f]) {
        FieldSafe(sc, down, s0, s1, all, done, todo, s, id, f);
      }
    }
  }

  // Where rows only appear from a to b, and no table that changes refers to itself, the ends decide alone
  lemma EndsSuffice(sc: Schema, a: Store, b: Store, all: set<string>)
    requires NoDangling(sc, a) && NoDangling(sc, b) && a.Keys <= b.Keys && OnlyTables(a, b, all)
    requires Stored(a) && Stored(b) && forall t :: t in all ==> !Refs(sc, t, t)
    ensures Covered(sc, a, b)
  {
    hide Refs, RefTables, KeyMet, FieldMet, Stored, OnlyTables;
    forall id | id in a ensures RowMet(sc, Staying(a, b, id), id, a[id]) {
      assert a.Keys <= Staying(a, b, id);
      RowMore(sc, a.Keys, Staying(a, b, id), id, a[id]);
    }
    forall id | id in b ensures RowMet(sc, Ahead(b, a, id), id, b[id]) {
      forall y | y in b && Refs(sc, id.table, y.table) ensures y in Ahead(b, a, id) {
        if y.table == id.table { OtherTable(a, b, all, y); }
      }
      RowMoreRefs(sc, b.Keys, Ahead(b, a, id), id, b[id]);
    }
  }

  lemma OtherTable(a: Store, b: Store, all: set<string>, y: RowId)
    requires OnlyTables(a, b, all) && Stored(a) && Stored(b) && y.table !in all && y in b
    ensures y in a
  {
    InRow(a, y);
    InRow(b, y);
  }

  // Only the rows of tables that are referred to count
  lemma RowMoreRefs(sc: Schema, rows: set<RowId>, rows2: set<RowId>, id: RowId, r: Row)
    requires RowMet(sc, rows, id, r) && forall y :: y in rows && Refs(sc, id.table, y.table) ==> y in rows2
    ensures RowMet(sc, rows2, id, r)
  {
    hide Refs, RefTables, Values, FieldName, Split;
    forall leaf, value | Met(sc, rows, id.table, leaf, value) ensures Met(sc, rows2, id.table, leaf, value) {
      if RefTables(sc, id.table, leaf) != {} {
        var t :| t in RefTables(sc, id.table, leaf) && RowId(t, value) in rows;
        LeafRefs(sc, id.table, leaf, t);
      }
    }
    hide Met;
  }

  lemma RowMore(sc: Schema, rows: set<RowId>, rows2: set<RowId>, id: RowId, r: Row)
    requires RowMet(sc, rows, id, r) && rows <= rows2
    ensures RowMet(sc, rows2, id, r)
  {
    hide RowMet;
    RowMoreRefs(sc, rows, rows2, id, r);
  }

  // ---- the dependency order gives the stages ----

  lemma OrderDown(sc: Schema, tables: set<string>, order: seq<string>, i: nat, j: nat)
    requires OneList(sc) && DepOrder(sc, tables, order) && i <= j <= |order| && j <= i + 1
    ensures Ordered(sc, true, tables, Elems(order[..i]), Elems(order[j..]))
    ensures Ordered(sc, false, tables, Elems(order[j..]), Elems(order[..i]))
  {
    hide Refs, DepEdge;
    forall a, b | a in tables && b in tables && a != b && Refs(sc, a, b)
      ensures (b in order[..i] ==> a in order[..i]) && (a in order[j..] ==> b in order[j..])
    {
      assert a in Elems(order) && b in Elems(order);
      var x, y :| 0 <= x < |order| && 0 <= y < |order| && order[x] == a && order[y] == b;
      ReferrerFirst(sc, tables, order, x, y);
      Located(order, x, i);
      Located(order, y, i);
      Located(order, x, j);
      Located(order, y, j);
    }
    forall a | a in tables && a !in order[..i] && a !in order[j..] ensures j == i + 1 && a == order[i] {
      assert a in Elems(order);
      var x :| 0 <= x < |order| && order[x] == a;
      Located(order, x, i);
      Located(order, x, j);
    }
  }

  lemma Located(order: seq<string>, x: nat, i: nat)
    requires Distinct(order) && x < |order| && i <= |order|
    ensures (order[x] in order[..i] <==> x < i) && (order[x] in order[i..] <==> x >= i)
  {
    if x < i { assert order[..i][x] == order[x]; } else { assert order[i..][x - i] == order[x]; }
  }
}
