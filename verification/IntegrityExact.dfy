// When the order of tables keeps leafrefs intact: the exact condition over all states of a pass, for any order of rows.
module IntegrityExact {
  import opened Wrappers
  import opened Text
  import opened DepGraph
  import opened DepTables
  import opened ConfigDb
  import opened RefIntegrity
  import opened TablePass
  import opened LeafList
  import opened RowPlan

  // Each leaf refers to one table
  ghost predicate SingleTarget(sc: Schema) {
    forall table, leaf, t, u :: t in RefTables(sc, table, leaf) && u in RefTables(sc, table, leaf) ==> t == u
  }

  // The states of a pass over the tables in this order: its ends, and what lies between two rows of some table. The
  // rows of a table come in any order, so any keys can be left.
  ghost predicate Reached(p: Pass, s1: Store, order: seq<string>, s: Store) {
    s == p.s0 || s == s1
    || exists i, left :: 0 <= i < |order| && At(p, s1, DoneAt(p, order, i), order[i], left, s)
  }

  ghost predicate AllSafe(p: Pass, s1: Store, order: seq<string>) {
    forall s :: Reached(p, s1, order, s) ==> NoDangling(p.sc, s)
  }

  // The row r of id has this leafref, in a field or in its key
  ghost predicate Carries(sc: Schema, id: RowId, r: Row, leaf: string, value: string) {
    InField(r, leaf, value) || InKey(sc, id, leaf, value)
  }

  ghost predicate InField(r: Row, leaf: string, value: string) {
    exists f, i :: f in r && 0 <= i < |Values(f, r[f])| && FieldName(f) == leaf && Values(f, r[f])[i] == value
  }

  ghost predicate InKey(sc: Schema, id: RowId, leaf: string, value: string) {
    id.table in sc
    && var keys, parts := sc[id.table].keys, Split(id.key, '|');
      exists i :: 0 <= i < |keys| && i < |parts| && keys[i] == leaf && parts[i] == value
  }

  lemma CarriedMet(sc: Schema, rows: set<RowId>, id: RowId, r: Row, leaf: string, value: string)
    requires RowMet(sc, rows, id, r) && Carries(sc, id, r, leaf, value)
    ensures Met(sc, rows, id.table, leaf, value)
  {
    hide Met, Values, FieldName, Split;
    if InField(r, leaf, value) {
      var f, i :| f in r && 0 <= i < |Values(f, r[f])| && FieldName(f) == leaf && Values(f, r[f])[i] == value;
      assert FieldMet(sc, rows, id.table, f, r[f]);
    }
  }

  lemma AllCarriedMet(sc: Schema, rows: set<RowId>, id: RowId, r: Row)
    requires forall leaf, value :: Carries(sc, id, r, leaf, value) ==> Met(sc, rows, id.table, leaf, value)
    ensures RowMet(sc, rows, id, r)
  {
    hide Met, Values, FieldName, Split;
    forall f, i | f in r && 0 <= i < |Values(f, r[f])|
      ensures Met(sc, rows, id.table, FieldName(f), Values(f, r[f])[i])
    {
      assert InField(r, FieldName(f), Values(f, r[f])[i]);
      assert Carries(sc, id, r, FieldName(f), Values(f, r[f])[i]);
    }
    if id.table in sc {
      var keys, parts := sc[id.table].keys, Split(id.key, '|');
      forall i | 0 <= i < |keys| && i < |parts| ensures Met(sc, rows, id.table, keys[i], parts[i]) {
        assert InKey(sc, id, keys[i], parts[i]);
        assert Carries(sc, id, r, keys[i], parts[i]);
      }
    }
  }

  // ---- the states ----

  function StateAt(p: Pass, s1: Store, done: set<string>, c: string, left: set<string>): Store {
    map id: RowId | id in p.s0.Keys + s1.Keys
      && RowAt(p, s1, done, c, left, id) != map[] :: RowAt(p, s1, done, c, left, id)
  }

  function RowAt(p: Pass, s1: Store, done: set<string>, c: string, left: set<string>, id: RowId): Row {
    RowOf(if id.table in done || (id.table == c && id.key !in left) then s1 else p.s0, id)
  }

  lemma StateIs(p: Pass, s1: Store, done: set<string>, c: string, left: set<string>)
    ensures At(p, s1, done, c, left, StateAt(p, s1, done, c, left))
  {
    var s := StateAt(p, s1, done, c, left);
    forall id: RowId ensures RowOf(s, id) == RowAt(p, s1, done, c, left, id) {}
  }

  // A row with this leafref, in a state that does not hold the target
  lemma Dangles(p: Pass, s1: Store, order: seq<string>, i: nat, left: set<string>, id: RowId, r: Row, leaf: string,
    y: RowId)
    requires IsPass(p, s1) && SingleTarget(p.sc) && AllSafe(p, s1, order) && i < |order|
    requires Carries(p.sc, id, r, leaf, y.key) && y.table in RefTables(p.sc, id.table, leaf) && r != map[]
    requires RowAt(p, s1, DoneAt(p, order, i), order[i], left, id) == r
    ensures RowAt(p, s1, DoneAt(p, order, i), order[i], left, y) != map[]
  {
    hide Carries, RefTables, RowMet, DoneAt;
    var done, c := DoneAt(p, order, i), order[i];
    var s := StateAt(p, s1, done, c, left);
    StateIs(p, s1, done, c, left);
    assert Reached(p, s1, order, s);
    hide StateAt;
    assert RowOf(s, id) == r && RowOf(s, y) == RowAt(p, s1, done, c, left, y);
    hide RowAt;
    InRow(s, id);
    InRow(s, y);
    CarriedMet(p.sc, s.Keys, id, r, leaf, y.key);
    TargetIn(p.sc, s.Keys, id.table, leaf, y);
  }

  lemma TargetIn(sc: Schema, rows: set<RowId>, table: string, leaf: string, y: RowId)
    requires SingleTarget(sc) && Met(sc, rows, table, leaf, y.key) && y.table in RefTables(sc, table, leaf)
    ensures y in rows
  {
    hide RefTables;
    var t :| t in RefTables(sc, table, leaf) && RowId(t, y.key) in rows;
    assert t == y.table && RowId(y.table, y.key) == y;
  }

  lemma Position(p: Pass, order: seq<string>, t: string) returns (i: nat)
    requires Elems(order) == p.all && t in p.all
    ensures i < |order| && order[i] == t
  {
    i :| 0 <= i < |order| && order[i] == t;
  }

  // What is done at the turn of a table that refers to another
  lemma TargetTurn(p: Pass, order: seq<string>, i: nat, t: string)
    requires OneList(p.sc) && DepOrder(p.sc, p.all, order) && i < |order| && t in p.all
    requires t != order[i] && Refs(p.sc, order[i], t)
    ensures t in DoneAt(p, order, i) <==> !p.down
    ensures order[i] !in DoneAt(p, order, i)
  {
    hide Refs, OneList, DepEdge;
    var j := Position(p, order, t);
    ReferrerFirst(p.sc, p.all, order, i, j);
    Located(order, j, i);
    Located(order, i, i);
    Located(order, j, i + 1);
    Located(order, i, i + 1);
  }

  lemma OwnTurn(p: Pass, order: seq<string>, i: nat)
    requires DepOrder(p.sc, p.all, order) && i < |order|
    ensures order[i] !in DoneAt(p, order, i)
  {
    hide DepEdge;
    Located(order, i, i);
    Located(order, i, i + 1);
  }

  // ---- what soundness of all states says about one leafref ----

  // The row id of the end e has the leafref, and its target is y
  ghost predicate Ref(sc: Schema, e: Store, id: RowId, leaf: string, y: RowId) {
    id in e && Carries(sc, id, e[id], leaf, y.key) && y.table in RefTables(sc, id.table, leaf)
  }

  lemma EndTarget(p: Pass, s1: Store, order: seq<string>, e: Store, id: RowId, leaf: string, y: RowId)
    requires SingleTarget(p.sc) && AllSafe(p, s1, order) && (e == p.s0 || e == s1) && Ref(p.sc, e, id, leaf, y)
    ensures y in e
  {
    hide Carries, RefTables, RowMet, SingleTarget;
    assert Reached(p, s1, order, e);
    CarriedMet(p.sc, e.Keys, id, e[id], leaf, y.key);
    TargetIn(p.sc, e.Keys, id.table, leaf, y);
  }

  lemma SameRow(p: Pass, s1: Store, y: RowId)
    requires IsPass(p, s1) && y.table !in p.all
    ensures y in p.s0 <==> y in s1
    ensures y in p.s0 ==> p.s0[y] == s1[y]
  {
    InRow(p.s0, y);
    InRow(s1, y);
  }

  // At its turn the row id of one end stands where the row y of the other end would be needed
  lemma TurnState(p: Pass, s1: Store, order: seq<string>, id: RowId, leaf: string, y: RowId, wide: bool)
    requires IsPass(p, s1) && OneList(p.sc) && DepOrder(p.sc, p.all, order) && SingleTarget(p.sc)
      && AllSafe(p, s1, order)
    requires var e := if wide then Wide(p.down, p.s0, s1) else Narrow(p.down, p.s0, s1); Ref(p.sc, e, id, leaf, y)
    requires id.table in p.all && y.table in p.all && y != id && (wide ==> id.table == y.table)
    ensures y in if wide then Narrow(p.down, p.s0, s1) else Wide(p.down, p.s0, s1)
  {
    hide Carries, RefTables, RowMet, SingleTarget, NoDangling, At, Refs, AllSafe;
    LeafRefs(p.sc, id.table, leaf, y.table);
    var i := Position(p, order, id.table);
    // whether the row of id is that of s1
    var after := wide != p.down;
    var left := if after then {} else {id.key};
    if id.table == y.table {
      left := if after then {y.key} else {id.key};
      OwnTurn(p, order, i);
    } else {
      TargetTurn(p, order, i, y.table);
    }
    hide DoneAt, DepOrder, OneList;
    var e := if wide then Wide(p.down, p.s0, s1) else Narrow(p.down, p.s0, s1);
    var other := if wide then Narrow(p.down, p.s0, s1) else Wide(p.down, p.s0, s1);
    InRow(e, id);
    InRow(other, y);
    Dangles(p, s1, order, i, left, id, e[id], leaf, y);
  }

  // Each leafref of the narrow end names a row that stays
  lemma NarrowNeeds(p: Pass, s1: Store, order: seq<string>, id: RowId, leaf: string, y: RowId)
    requires IsPass(p, s1) && OneList(p.sc) && DepOrder(p.sc, p.all, order) && SingleTarget(p.sc)
      && AllSafe(p, s1, order)
    requires Ref(p.sc, Narrow(p.down, p.s0, s1), id, leaf, y)
    ensures y in Staying(Narrow(p.down, p.s0, s1), Wide(p.down, p.s0, s1), id)
  {
    hide OneList, DepOrder, SingleTarget, AllSafe, Carries, RefTables;
    var a, b := Narrow(p.down, p.s0, s1), Wide(p.down, p.s0, s1);
    EndTarget(p, s1, order, a, id, leaf, y);
    if y != id {
      if y.table !in p.all {
        SameRow(p, s1, y);
      } else if id.table !in p.all {
        SameRow(p, s1, id);
        EndTarget(p, s1, order, b, id, leaf, y);
      } else {
        TurnState(p, s1, order, id, leaf, y, false);
      }
    }
  }

  // Each leafref of the wide end into the row's own table does too
  lemma WideNeeds(p: Pass, s1: Store, order: seq<string>, id: RowId, leaf: string, y: RowId)
    requires IsPass(p, s1) && OneList(p.sc) && DepOrder(p.sc, p.all, order) && SingleTarget(p.sc)
      && AllSafe(p, s1, order)
    requires Ref(p.sc, Wide(p.down, p.s0, s1), id, leaf, y)
    ensures y in Ahead(Wide(p.down, p.s0, s1), Narrow(p.down, p.s0, s1), id)
  {
    hide OneList, DepOrder, SingleTarget, AllSafe, Carries, RefTables;
    EndTarget(p, s1, order, Wide(p.down, p.s0, s1), id, leaf, y);
    if y != id && y.table == id.table {
      if y.table !in p.all { SameRow(p, s1, y); } else { TurnState(p, s1, order, id, leaf, y, true); }
    }
  }

  // ---- the exact condition ----

  lemma MetBy(sc: Schema, rows: set<RowId>, table: string, leaf: string, value: string)
    requires forall t :: t in RefTables(sc, table, leaf) ==> RowId(t, value) in rows
    ensures Met(sc, rows, table, leaf, value)
  {
    hide RefTables;
    if RefTables(sc, table, leaf) != {} { var t :| t in RefTables(sc, table, leaf); }
  }

  lemma SafeNeeds(p: Pass, s1: Store, order: seq<string>)
    requires IsPass(p, s1) && OneList(p.sc) && DepOrder(p.sc, p.all, order) && SingleTarget(p.sc)
      && AllSafe(p, s1, order)
    ensures Covered(p.sc, Narrow(p.down, p.s0, s1), Wide(p.down, p.s0, s1))
  {
    hide OneList, DepOrder, SingleTarget, AllSafe, Carries, RefTables, Staying, Ahead, IsPass, RowMet, Met;
    var a, b := Narrow(p.down, p.s0, s1), Wide(p.down, p.s0, s1);
    forall id | id in a ensures RowMet(p.sc, Staying(a, b, id), id, a[id]) {
      forall leaf, value | Carries(p.sc, id, a[id], leaf, value)
        ensures Met(p.sc, Staying(a, b, id), id.table, leaf, value) {
        forall t | t in RefTables(p.sc, id.table, leaf) ensures RowId(t, value) in Staying(a, b, id) {
          NarrowNeeds(p, s1, order, id, leaf, RowId(t, value));
        }
        MetBy(p.sc, Staying(a, b, id), id.table, leaf, value);
      }
      AllCarriedMet(p.sc, Staying(a, b, id), id, a[id]);
    }
    forall id | id in b ensures RowMet(p.sc, Ahead(b, a, id), id, b[id]) {
      forall leaf, value | Carries(p.sc, id, b[id], leaf, value)
        ensures Met(p.sc, Ahead(b, a, id), id.table, leaf, value) {
        forall t | t in RefTables(p.sc, id.table, leaf) ensures RowId(t, value) in Ahead(b, a, id) {
          WideNeeds(p, s1, order, id, leaf, RowId(t, value));
        }
        MetBy(p.sc, Ahead(b, a, id), id.table, leaf, value);
      }
      AllCarriedMet(p.sc, Ahead(b, a, id), id, b[id]);
    }
  }

  lemma EndsSafe(sc: Schema, a: Store, b: Store)
    requires Covered(sc, a, b)
    ensures NoDangling(sc, a) && NoDangling(sc, b)
  {
    hide RowMet;
    forall id | id in a ensures RowMet(sc, a.Keys, id, a[id]) { RowMore(sc, Staying(a, b, id), a.Keys, id, a[id]); }
    forall id | id in b ensures RowMet(sc, b.Keys, id, b[id]) { RowMore(sc, Ahead(b, a, id), b.Keys, id, b[id]); }
  }

  lemma CoveredSafe(p: Pass, s1: Store, order: seq<string>)
    requires IsPass(p, s1) && OneList(p.sc) && DepOrder(p.sc, p.all, order)
    requires Covered(p.sc, Narrow(p.down, p.s0, s1), Wide(p.down, p.s0, s1))
    ensures AllSafe(p, s1, order)
  {
    hide OneList, DepOrder, Covered, NoDangling, Ordered;
    EndsSafe(p.sc, Narrow(p.down, p.s0, s1), Wide(p.down, p.s0, s1));
    forall s, i, left | 0 <= i < |order| && At(p, s1, DoneAt(p, order, i), order[i], left, s)
      ensures NoDangling(p.sc, s) {
      TurnAt(p, order, i);
      var done, todo := DoneAt(p, order, i), TodoAt(p, order, i);
      AtStage(p, s1, done, order[i], todo, left, s);
      StageSafe(p.sc, p.down, p.s0, s1, p.all, done, todo, s);
    }
  }

  lemma AtStage(p: Pass, s1: Store, done: set<string>, c: string, todo: set<string>, left: set<string>, s: Store)
    requires Turn(p, done, c, todo) && At(p, s1, done, c, left, s)
    ensures Stage(p.s0, s1, done, todo, s) && Ordered(p.sc, p.down, p.all, done, todo)
  {
    hide Ordered, RowOf, OnWay;
    forall id { WayEnds(RowOf(p.s0, id), RowOf(s1, id)); }
  }

  // No state has a dangling leafref, in any order of rows, exactly when every leafref of the narrow end is met by a row
  // that stays, and every one of the wide end by a row of its own end that stays or is in another table
  lemma IntegrityIff(p: Pass, s1: Store, order: seq<string>)
    requires IsPass(p, s1) && OneList(p.sc) && DepOrder(p.sc, p.all, order) && SingleTarget(p.sc)
    ensures AllSafe(p, s1, order) <==> Covered(p.sc, Narrow(p.down, p.s0, s1), Wide(p.down, p.s0, s1))
  {
    hide IsPass, OneList, DepOrder, SingleTarget, AllSafe, Covered;
    if AllSafe(p, s1, order) { SafeNeeds(p, s1, order); }
    if Covered(p.sc, Narrow(p.down, p.s0, s1), Wide(p.down, p.s0, s1)) { CoveredSafe(p, s1, order); }
  }

  // So for an operation of a request: the condition is over the stores before and behind it
  lemma SoundIff(sc: Schema, op: Opcode, req: Request, store: Store, cmds: seq<Cmd>, order: seq<string>)
    requires Stored(store) && OneList(sc) && DepOrder(sc, req.Keys * sc.Keys, order) && SingleTarget(sc)
    ensures var p := PassOf(sc, op, req, store, cmds);
      AllSafe(p, Planned(sc, op, req, store, p.s0), order) <==> Sound(sc, op, req, store, p.s0)
  {
    hide OneList, DepOrder, SingleTarget, AllSafe, Covered, Planned, Replay;
    PassOfIs(sc, op, req, store, cmds);
    var p := PassOf(sc, op, req, store, cmds);
    IntegrityIff(p, Planned(sc, op, req, store, p.s0), order);
  }
}
