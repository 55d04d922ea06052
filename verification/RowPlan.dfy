// What one request writes: the commands for each row, and the store they lead to.
module RowPlan {
  import opened Wrappers
  import opened DepGraph
  import opened DepTables
  import opened ConfigDb
  import opened RefIntegrity
  import opened LeafList
  import opened TablePass

  // Table, key, fields
  type Request = map<string, map<string, Row>>

  // A hash needs a field: NULL stands in when there is no other
  function WithNull(fields: Row): Row {
    if fields == map[] then map["NULL" := "NULL"]
    else if |fields| > 1 && "NULL" in fields then fields - {"NULL"}
    else fields
  }

  function CruCmds(op: Opcode, id: RowId, stored: Row, fields: Row): seq<Cmd>
    requires op != DELETE
  {
    if stored == map[] then [HMSet(id, fields)]
    else match op
      case CREATE => []
      case UPDATE => if UpdateFields(stored, fields) == map[] then [Del(id)]
        else [HMSet(id, UpdateFields(stored, fields))]
      case _ => SetCmds(id, stored, fields)
  }

  function DeleteCmds(id: RowId, stored: Row, fields: Row): seq<Cmd> {
    if fields == map[] then [Del(id)]
    else if stored == map[] then []
    else
      (if DeleteWrites(stored, fields) == map[] then [] else [HMSet(id, DeleteWrites(stored, fields))])
      + if DeleteNames(stored, fields) == {} then [] else [HDel(id, DeleteNames(stored, fields))]
  }

  function RowCmds(op: Opcode, id: RowId, stored: Row, fields: Row): seq<Cmd> {
    if op == DELETE then DeleteCmds(id, stored, fields) else CruCmds(op, id, stored, WithNull(fields))
  }

  // The row a request leaves, when it was cur before the request
  function TargetRow(sc: Schema, op: Opcode, req: Request, store: Store, cur: Store, id: RowId): Row {
    if id.table !in req || id.table !in sc then RowOf(cur, id)
    else if op == DELETE && req[id.table] == map[] then (if id in store then map[] else RowOf(cur, id))
    else if id.key !in req[id.table] then RowOf(cur, id)
    else WrittenAll(RowCmds(op, id, RowOf(store, id), req[id.table][id.key]), RowOf(cur, id))
  }

  function Requested(req: Request): set<RowId> { set t, k | t in req && k in req[t] :: RowId(t, k) }

  function Planned(sc: Schema, op: Opcode, req: Request, store: Store, cur: Store): Store {
    map id | id in cur.Keys + Requested(req)
      && TargetRow(sc, op, req, store, cur, id) != map[] :: TargetRow(sc, op, req, store, cur, id)
  }

  lemma PlannedRow(sc: Schema, op: Opcode, req: Request, store: Store, cur: Store, id: RowId)
    ensures RowOf(Planned(sc, op, req, store, cur), id) == TargetRow(sc, op, req, store, cur, id)
    ensures Stored(Planned(sc, op, req, store, cur))
  {
    if id.table in req && id.key in req[id.table] { assert RowId(id.table, id.key) == id; }
  }

  lemma TwoWay(a: Row, c: Cmd, d: Cmd)
    requires OnWay(a, Written(d, Written(c, a)), Written(c, a))
    ensures RowWay(a, [c, d])
  {
    hide OnWay;
    WrittenTwo(c, d, a);
    WayEnds(a, WrittenAll([c, d], a));
    forall k | 0 <= k <= 2 ensures OnWay(a, WrittenAll([c, d], a), WrittenAll([c, d][..k], a)) {
      assert [c, d][..0] == [] && [c, d][..1] == [c] && [c, d][..2] == [c, d];
    }
  }

  lemma SetWay(id: RowId, stored: Row, fields: Row, a: Row)
    requires fields != map[]
    ensures RowWay(a, SetCmds(id, stored, fields))
  {
    var c, d := HMSet(id, fields), HDel(id, stored.Keys - fields.Keys);
    var f :| f in fields;
    assert f in Written(c, a);
    assert SetCmds(id, stored, fields) == if stored.Keys - fields.Keys == {} then [c] else [c, d];
    hide SetCmds, RowWay;
    if stored.Keys - fields.Keys == {} { ShortWay(a, [c]); } else { TwoWay(a, c, d); }
  }

  lemma WithNullSome(fields: Row)
    ensures WithNull(fields) != map[]
  {
    if |fields| > 1 && "NULL" in fields {
      var others := fields.Keys - {"NULL"};
      assert |others| == |fields.Keys| - 1 && |fields| == |fields.Keys|;
      var f :| f in others;
      assert f in fields - {"NULL"};
    }
  }

  // The commands of a row keep it on its way, whatever it holds before
  lemma CmdsWay(op: Opcode, id: RowId, stored: Row, fields: Row, a: Row)
    ensures var rc := RowCmds(op, id, stored, fields); RowWay(a, rc) && ForRow(rc, id)
  {
    WithNullSome(fields);
    var rc := RowCmds(op, id, stored, fields);
    if |rc| <= 1 {
      ShortWay(a, rc);
    } else {
      hide RowWay, UpdateFields, WithNull, DeleteWrites, DeleteNames;
      if op == DELETE { DeleteWay(id, stored, fields, a); } else { SetWay(id, stored, WithNull(fields), a); }
    }
  }

  lemma DeleteWay(id: RowId, stored: Row, fields: Row, a: Row)
    requires |DeleteCmds(id, stored, fields)| == 2
    ensures RowWay(a, DeleteCmds(id, stored, fields))
  {
    hide RowWay;
    var c, d := HMSet(id, DeleteWrites(stored, fields)), HDel(id, DeleteNames(stored, fields));
    WritesKept(stored, fields);
    hide DeleteWrites, DeleteNames;
    assert DeleteCmds(id, stored, fields) == [c, d];
    var f :| f in c.fields;
    assert f in Written(c, a);
    TwoWay(a, c, d);
  }

  lemma WritesKept(stored: Row, fields: Row)
    ensures DeleteWrites(stored, fields).Keys <= stored.Keys
      && DeleteWrites(stored, fields).Keys !! DeleteNames(stored, fields)
  {
  }

  // Rows are only added, but for an update that brings nothing new
  lemma CruAdds(op: Opcode, id: RowId, stored: Row, fields: Row, a: Row)
    requires op != DELETE && (op == UPDATE && stored != map[] ==> UpdateFields(stored, WithNull(fields)) != map[])
    ensures a != map[] ==> WrittenAll(RowCmds(op, id, stored, fields), a) != map[]
  {
    WithNullSome(fields);
    hide UpdateFields, WithNull, WrittenAll;
    var w := WithNull(fields);
    WrittenTwo(HMSet(id, w), HMSet(id, w), a);
    if stored == map[] {
      Kept(w, a);
    } else if op == UPDATE {
      var u := UpdateFields(stored, w);
      WrittenTwo(HMSet(id, u), HMSet(id, u), a);
      Kept(u, a);
    } else if op == REPLACE {
      SetAdds(id, stored, w, a);
    } else {
      WrittenTwo(Del(id), Del(id), a);
    }
  }

  lemma SetAdds(id: RowId, stored: Row, w: Row, a: Row)
    requires w != map[]
    ensures WrittenAll(SetCmds(id, stored, w), a) != map[]
  {
    var c, d := HMSet(id, w), HDel(id, stored.Keys - w.Keys);
    WrittenTwo(c, d, a);
    assert SetCmds(id, stored, w) == if stored.Keys - w.Keys == {} then [c] else [c, d];
    var f :| f in w;
    assert f in Written(c, a) && f in Written(d, Written(c, a));
  }

  lemma Kept(w: Row, a: Row)
    requires w != map[]
    ensures a + w != map[]
  {
    var f :| f in w;
    assert f in a + w;
  }

  // A delete of what is stored adds no row
  lemma DeleteRemoves(id: RowId, fields: Row)
    ensures WrittenAll(RowCmds(DELETE, id, map[], fields), map[]) == map[]
  {
    WrittenTwo(Del(id), Del(id), map[]);
  }

  // ---- the pass of a request ----

  function PassOf(sc: Schema, op: Opcode, req: Request, store: Store, cmds: seq<Cmd>): Pass {
    Pass(sc, op == DELETE, Replay(store, cmds), store, req.Keys * sc.Keys, |cmds|)
  }

  predicate WholeTable(op: Opcode, req: Request, c: string) { op == DELETE && c in req && req[c] == map[] }

  // The keys of a table whose rows the request can change
  function AskedKeys(op: Opcode, req: Request, store: Store, c: string): set<string>
    requires c in req
  {
    if WholeTable(op, req, c) then set id | id in store && id.table == c :: id.key else req[c].Keys
  }

  lemma {:induction false} ReplayStored(s: Store, cmds: seq<Cmd>)
    requires Stored(s)
    ensures Stored(Replay(s, cmds))
  {
    if cmds != [] {
      ReplayStored(s, cmds[..|cmds| - 1]);
      var t, c := Replay(s, cmds[..|cmds| - 1]), cmds[|cmds| - 1];
      PutRow(t, c.id, Written(c, RowOf(t, c.id)));
    }
  }

  // The commands of a row lead from its row before the pass to its row behind it
  lemma RowFits(sc: Schema, op: Opcode, req: Request, store: Store, cur: Store, id: RowId)
    requires id.table in req && id.table in sc && id.key in req[id.table]
    ensures var rc := RowCmds(op, id, RowOf(store, id), req[id.table][id.key]);
      ForRow(rc, id) && RowWay(RowOf(cur, id), rc)
      && WrittenAll(rc, RowOf(cur, id)) == RowOf(Planned(sc, op, req, store, cur), id)
  {
    PlannedRow(sc, op, req, store, cur, id);
    hide Planned, RowWay, WrittenAll, RowCmds;
    CmdsWay(op, id, RowOf(store, id), req[id.table][id.key], RowOf(cur, id));
  }

  lemma Unasked(sc: Schema, op: Opcode, req: Request, store: Store, cur: Store, id: RowId)
    requires id.table in req && id.table in sc ==> id.key !in AskedKeys(op, req, store, id.table)
    ensures RowOf(Planned(sc, op, req, store, cur), id) == RowOf(cur, id)
  {
    PlannedRow(sc, op, req, store, cur, id);
    hide Planned, WrittenAll;
  }

  lemma Erased(sc: Schema, op: Opcode, req: Request, store: Store, cur: Store, id: RowId)
    requires WholeTable(op, req, id.table) && id.table in sc && id in store
    ensures RowOf(Planned(sc, op, req, store, cur), id) == map[]
  {
    PlannedRow(sc, op, req, store, cur, id);
    hide Planned, WrittenAll;
  }

  lemma PassOfIs(sc: Schema, op: Opcode, req: Request, store: Store, cmds: seq<Cmd>)
    requires Stored(store)
    ensures var p := PassOf(sc, op, req, store, cmds); IsPass(p, Planned(sc, op, req, store, p.s0))
  {
    var p := PassOf(sc, op, req, store, cmds);
    ReplayStored(store, cmds);
    PlannedRow(sc, op, req, store, p.s0, RowId("", ""));
    hide Planned, Replay, Stored, RowOf, WrittenAll, AskedKeys, RowCmds;
    forall id: RowId | id.table !in p.all ensures RowOf(p.s0, id) == RowOf(Planned(sc, op, req, store, p.s0), id) {
      Unasked(sc, op, req, store, p.s0, id);
    }
  }

  // ---- when the ends decide alone ----

  // No update of a stored row comes down to nothing
  ghost predicate NeverEmpties(store: Store, req: Request) {
    forall t, k :: t in req && k in req[t] && RowId(t, k) in store ==>
      UpdateFields(store[RowId(t, k)], WithNull(req[t][k])) != map[]
  }

  // Rows only vanish in a delete, and only appear otherwise
  ghost predicate Directed(op: Opcode, store: Store, cur: Store, req: Request) {
    match op
    case DELETE => cur == store
    case UPDATE => NeverEmpties(store, req)
    case _ => true
  }

  lemma RowDirected(sc: Schema, op: Opcode, req: Request, store: Store, cur: Store, id: RowId)
    requires Directed(op, store, cur, req) && Stored(store)
    ensures var a, b := RowOf(cur, id), RowOf(Planned(sc, op, req, store, cur), id);
      if op == DELETE then b != map[] ==> a != map[] else a != map[] ==> b != map[]
  {
    PlannedRow(sc, op, req, store, cur, id);
    hide Planned, WrittenAll, RowCmds, UpdateFields, WithNull;
    if id.table in req && id.table in sc && id.key in req[id.table] {
      assert RowId(id.table, id.key) == id;
      var fields := req[id.table][id.key];
      if op == DELETE {
        DeleteRemoves(id, fields);
      } else {
        CruAdds(op, id, RowOf(store, id), fields, RowOf(cur, id));
      }
    }
  }

  // Such a request is sound when its ends are and none of its tables refers to itself
  lemma DirectedSound(sc: Schema, op: Opcode, req: Request, store: Store, cmds: seq<Cmd>)
    requires Stored(store) && Directed(op, store, Replay(store, cmds), req)
    requires forall t :: t in req.Keys * sc.Keys ==> !Refs(sc, t, t)
    requires NoDangling(sc, Replay(store, cmds)) && NoDangling(sc, Planned(sc, op, req, store, Replay(store, cmds)))
    ensures Sound(sc, op, req, store, Replay(store, cmds))
  {
    hide NoDangling, Replay, Refs, Planned, Directed, RowOf;
    PassOfIs(sc, op, req, store, cmds);
    var cur := Replay(store, cmds);
    var planned := Planned(sc, op, req, store, cur);
    forall id: RowId ensures if op == DELETE then id in planned ==> id in cur else id in cur ==> id in planned {
      RowDirected(sc, op, req, store, cur, id);
      InRow(cur, id);
      InRow(planned, id);
    }
    SameOutside(cur, planned, req.Keys * sc.Keys);
    EndsSuffice(sc, if op == DELETE then planned else cur, if op == DELETE then cur else planned, req.Keys * sc.Keys);
  }

  lemma SameOutside(a: Store, b: Store, all: set<string>)
    requires OnlyTables(a, b, all)
    ensures OnlyTables(b, a, all)
  {
  }

  // The condition under which no state of the operation has a dangling leafref
  ghost predicate Sound(sc: Schema, op: Opcode, req: Request, store: Store, cur: Store) {
    SoundTo(sc, op, cur, Planned(sc, op, req, store, cur))
  }

  ghost predicate SoundTo(sc: Schema, op: Opcode, cur: Store, end: Store) {
    Covered(sc, Narrow(op == DELETE, cur, end), Wide(op == DELETE, cur, end))
  }
}
