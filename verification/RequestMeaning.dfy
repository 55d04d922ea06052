// What the operations of a request leave of a row.
module RequestMeaning {
  import opened Wrappers
  import opened Text
  import opened DepTables
  import opened ConfigDb
  import opened LeafList
  import opened RowPlan
  import opened RowMeaning
  import opened CommonApp

  // The operation sets the field f of the row
  ghost predicate Sets(sc: Schema, op: Opcode, reqs: map<Opcode, Request>, id: RowId, f: string) {
    op in reqs && id.table in sc && id.table in reqs[op] && id.key in reqs[op][id.table]
    && Asked(reqs[op][id.table][id.key], f)
  }

  lemma SetOrKept(sc: Schema, op: Opcode, reqs: map<Opcode, Request>, store: Store, cur: Store, id: RowId, f: string)
    requires op != DELETE && id !in store
    ensures var a, b := RowOf(cur, id), RowOf(Phase(sc, op, reqs, store, cur), id);
      if Sets(sc, op, reqs, id, f) then f in b && b[f] == AskedValue(reqs[op][id.table][id.key], f)
      else (f in b <==> f in a) && (f in a ==> b[f] == a[f])
  {
    if Sets(sc, op, reqs, id, f) {
      PlannedOver(sc, op, reqs[op], store, cur, id, f);
    } else if op in reqs {
      PlannedRow(sc, op, reqs[op], store, cur, id);
      hide Planned, WithNull, Asked;
      if id.table in sc && id.table in reqs[op] && id.key in reqs[op][id.table] {
        var fields := reqs[op][id.table][id.key];
        AskedFields(fields);
        WrittenTwo(HMSet(id, WithNull(fields)), Del(id), RowOf(cur, id));
      }
    }
  }

  // Creates come before updates and updates before replaces: the last one that sets a field decides
  lemma LastDecides(sc: Schema, reqs: map<Opcode, Request>, store: Store, p1: Store, id: RowId, f: string)
    requires id !in store
    ensures var r := RowOf(AfterDeletes(sc, reqs, store, p1), id);
      if Sets(sc, REPLACE, reqs, id, f) then f in r && r[f] == AskedValue(reqs[REPLACE][id.table][id.key], f)
      else if Sets(sc, UPDATE, reqs, id, f) then f in r && r[f] == AskedValue(reqs[UPDATE][id.table][id.key], f)
      else if Sets(sc, CREATE, reqs, id, f) then f in r && r[f] == AskedValue(reqs[CREATE][id.table][id.key], f)
      else (f in r <==> f in RowOf(p1, id)) && (f in r ==> r[f] == RowOf(p1, id)[f])
  {
    hide Sets, Phase, AskedValue, RowOf;
    var p2 := Phase(sc, CREATE, reqs, store, p1);
    var p3 := Phase(sc, UPDATE, reqs, store, p2);
    SetOrKept(sc, CREATE, reqs, store, p1, id, f);
    SetOrKept(sc, UPDATE, reqs, store, p2, id, f);
    SetOrKept(sc, REPLACE, reqs, store, p3, id, f);
  }

  // ---- deletes, refused or not ----

  // A row whose write was refused: lists with items left stay as they are, and the other fields of the request go
  ghost predicate LeftUnwritten(stored: Row, fields: Row, r: Row) {
    forall f ::
      (f in r <==> f in stored && (f in fields ==> KeepsItems(stored, fields, f))) && (f in r ==> r[f] == stored[f])
  }

  predicate KeepsItems(stored: Row, fields: Row, f: string)
    requires f in fields
  {
    IsList(f) && Items(fields[f]) != [] && Without(List(stored, f), Items(fields[f])) != []
  }

  lemma {:induction false} NothingLeft(v: seq<string>)
    ensures Without([], v) == []
    decreases |v|
  {
    if v != [] { NothingLeft(v[1..]); }
  }

  lemma UnwrittenIs(stored: Row, fields: Row)
    ensures LeftUnwritten(stored, fields, stored - DeleteNames(stored, fields))
  {
    hide Without, Items;
    forall f | f in fields ensures f in DeleteNames(stored, fields) <==> !KeepsItems(stored, fields, f) {
      NothingLeft(Items(fields[f]));
    }
    hide DeleteNames;
    assert forall f :: f in DeleteNames(stored, fields) ==> f in fields by { FieldsAsked(stored, fields); }
  }

  // What becomes of a row by deletes that start on an empty queue: where nothing is refused it is as asked for; rows of
  // a whole table may stay when one of its deletes is refused, and a row whose write is refused just loses the other
  // fields
  lemma DeletesMeaning(app: CommonApp, req: Request, t: Store, id: RowId, from: nat, to: nat)
    requires app.Kept(req, app.d.store, Planned(app.cvl.tableInfo, DELETE, req, app.d.store, app.d.store), t, from, to)
    ensures var stored, r := RowOf(app.d.store, id), RowOf(t, id);
      if id.table !in app.cvl.tableInfo || id.table !in req then r == stored
      else if req[id.table] == map[] then
        r == map[]
        || (r == stored && exists n, k ::
          from <= n < to && RowId(id.table, k) in app.d.store && app.d.refuses(n, Del(RowId(id.table, k))))
      else if id.key !in req[id.table] then r == stored
      else
        var fields := req[id.table][id.key];
        r == RowAfter(DELETE, id, stored, fields)
        || (LeftUnwritten(stored, fields, r) && exists n, w :: from <= n < to && app.d.refuses(n, HMSet(id, w)))
  {
    hide RowAfter, DeleteNames, DeleteWrites, Planned, LeftUnwritten;
    var store := app.d.store;
    PlannedMeaning(app.cvl.tableInfo, DELETE, req, store, id);
    assert app.RowKept(req, store, Planned(app.cvl.tableInfo, DELETE, req, store, store), t, id, from, to);
    if id.table in req && id.key in req[id.table] { UnwrittenIs(RowOf(store, id), req[id.table][id.key]); }
  }

  // What an operation failed for: its tables have no order, it creates a stored row, the keys of a table to delete
  // could not be listed, or a command for a row of the request was refused, each at a question asked meanwhile
  lemma FailingMeaning(app: CommonApp, op: Opcode, req: Request, from: nat, to: nat)
    requires app.Failing(op, req, from, to)
    ensures DepCycle(app.cvl.tableInfo, req.Keys * app.cvl.tableInfo.Keys)
      || (op == CREATE && exists t, k :: t in req && k in req[t] && RowId(t, k) in app.d.store)
      || (op == DELETE && exists t, n :: t in req && req[t] == map[] && from <= n < to && app.d.keysFail(n, t))
      || exists c: Cmd, n ::
        c.id.table in req && c.id.key in req[c.id.table] && from <= n < to && app.d.refuses(n, c)
  {
    hide DepCycle, RowCmds;
    if id :| app.RowRefused(op, req, id, from, to) {
      var c :| c in RowCmds(op, id, RowOf(app.d.store, id), req[id.table][id.key]) && app.d.Refused(from, to, c);
      CmdsWay(op, id, RowOf(app.d.store, id), req[id.table][id.key], map[]);
      assert c.id == id;
    }
  }
}
