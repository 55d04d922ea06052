// The write path of common_app.go: deletes child first, creates, updates and replaces parent first.
module CommonApp {
  import opened Wrappers
  import opened Text
  import opened DepGraph
  import opened DepTables
  import opened ConfigDb
  import opened RefIntegrity
  import opened LeafList
  import opened TablePass
  import opened RowPlan

  // Stopped: a delete of fields of an absent row ends the whole operation without an error
  datatype Status = Done | Stopped | Failed

  // What becomes of the field f: it stays in the request's row out, or moves to the row writes
  ghost predicate FieldDone(op: Opcode, stored: Row, fields: Row, f: string, out: Row, writes: Row) {
    if op == DELETE then
      (f in out <==> f in DeleteNames(stored, fields))
      && (f in writes <==> f in DeleteWrites(stored, fields))
      && (f in writes ==> writes[f] == DeleteWrites(stored, fields)[f])
    else
      f !in writes
      && (f in out <==> f in UpdateFields(stored, fields))
      && (f in out ==> out[f] == UpdateFields(stored, fields)[f])
  }

  // The fields left are as requested
  ghost predicate Turned(op: Opcode, stored: Row, fields: Row, left: set<string>, out: Row, writes: Row) {
    out.Keys <= fields.Keys && writes.Keys <= fields.Keys
    && forall f :: f in fields ==>
      if f in left then f in out && out[f] == fields[f] && f !in writes
        else FieldDone(op, stored, fields, f, out, writes)
  }

  lemma TurnedStep(op: Opcode, stored: Row, fields: Row, left: set<string>, f: string, out: Row, writes: Row,
    out2: Row, writes2: Row)
    requires Turned(op, stored, fields, left, out, writes) && f in fields
      && FieldDone(op, stored, fields, f, out2, writes2)
    requires out2 - {f} == out - {f} && writes2 - {f} == writes - {f}
    ensures Turned(op, stored, fields, left - {f}, out2, writes2)
  {
    forall g | g != f
      ensures (g in out2 <==> g in out) && (g in out ==> out2[g] == out[g])
      ensures (g in writes2 <==> g in writes) && (g in writes ==> writes2[g] == writes[g])
    {
      assert (g in out2 - {f} <==> g in out2) && (g in out - {f} <==> g in out);
      assert (g in writes2 - {f} <==> g in writes2) && (g in writes - {f} <==> g in writes);
      if g in out { assert (out2 - {f})[g] == (out - {f})[g]; }
      if g in writes { assert (writes2 - {f})[g] == (writes - {f})[g]; }
    }
    hide DeleteNames, DeleteWrites, UpdateFields;
  }

  lemma AllTurned(op: Opcode, stored: Row, fields: Row, out: Row, writes: Row)
    requires Turned(op, stored, fields, {}, out, writes)
    ensures if op == DELETE then out.Keys == DeleteNames(stored, fields) && writes == DeleteWrites(stored, fields)
      else out == UpdateFields(stored, fields) && writes == map[]
  {
    FieldsAsked(stored, fields);
    hide DeleteNames, DeleteWrites, UpdateFields;
    forall f ensures f in fields ==> FieldDone(op, stored, fields, f, out, writes) {}
    if op == DELETE {
      assert writes.Keys == DeleteWrites(stored, fields).Keys;
    } else {
      assert out.Keys == UpdateFields(stored, fields).Keys;
    }
  }

  lemma FieldsAsked(stored: Row, fields: Row)
    ensures DeleteNames(stored, fields) <= fields.Keys && DeleteWrites(stored, fields).Keys <= fields.Keys
    ensures UpdateFields(stored, fields).Keys <= fields.Keys
  {
  }

  // The commands of a row, without the first if that is lost
  function Queued(rc: seq<Cmd>, lost: bool): seq<Cmd> { if lost && rc != [] then rc[1..] else rc }

  class CommonApp {
    const cvl: Cvl
    const d: DB

    constructor (cvl: Cvl, d: DB)
      ensures this.cvl == cvl && this.d == d
    {
      this.cvl, this.d := cvl, d;
    }

    // A command for this row of the request was refused, at one of these questions
    ghost predicate RowRefused(op: Opcode, req: Request, id: RowId, from: nat, to: nat) {
      id.table in req && id.key in req[id.table]
      && exists c :: c in RowCmds(op, id, RowOf(d.store, id), req[id.table][id.key]) && d.Refused(from, to, c)
    }

    // What an operation can fail for: its tables have no order, it creates a stored row, or the environment refuses
    ghost predicate Failing(op: Opcode, req: Request, from: nat, to: nat) {
      DepCycle(cvl.tableInfo, req.Keys * cvl.tableInfo.Keys)
      || (op == CREATE && exists id :: id in Requested(req) && id in d.store)
      || (exists t :: WholeTable(op, req, t) && d.KeysFailed(from, to, t))
      || exists id :: RowRefused(op, req, id, from, to)
    }

    // None of these rows of the table is stored
    predicate Absent(table: string, keys: set<string>) { forall k :: k in keys ==> RowId(table, k) !in d.store }

    // The delete of the row is refused, and its whole table was to go
    ghost predicate DelLost(req: Request, id: RowId, from: nat, to: nat) {
      id in d.store && WholeTable(DELETE, req, id.table) && d.Refused(from, to, Del(id))
    }

    // The write of the items that stay in the leaf-lists of the row is refused
    ghost predicate WriteLost(req: Request, id: RowId, from: nat, to: nat) {
      id.table in cvl.tableInfo && id.table in req && id.key in req[id.table] && req[id.table][id.key] != map[]
      && id in d.store
      && var writes := DeleteWrites(d.store[id], req[id.table][id.key]);
        writes != map[] && d.Refused(from, to, HMSet(id, writes))
    }

    // A refusal inside the table
    ghost predicate TableLost(req: Request, c: string, from: nat, to: nat) {
      exists k :: DelLost(req, RowId(c, k), from, to)
    }

    // What becomes of a row by the deletes: it is as planned, unless a refusal is only logged. Of a whole table the
    // rows may stay, and a row whose write is refused just loses the other fields of the request.
    ghost predicate RowKept(req: Request, cur: Store, planned: Store, t: Store, id: RowId, from: nat, to: nat) {
      RowOf(t, id) == RowOf(planned, id)
      || (TableLost(req, id.table, from, to) && RowOf(t, id) == RowOf(cur, id))
      || (WriteLost(req, id, from, to)
        && RowOf(t, id) == RowOf(cur, id) - DeleteNames(d.store[id], req[id.table][id.key]))
    }

    ghost predicate Kept(req: Request, cur: Store, planned: Store, t: Store, from: nat, to: nat) {
      forall id :: RowKept(req, cur, planned, t, id, from, to)
    }

    // Without a refusal the deletes do what is planned
    lemma NothingKept(req: Request, cur: Store, planned: Store, t: Store, from: nat, to: nat)
      requires Stored(planned) && Stored(t) && Kept(req, cur, planned, t, from, to)
      requires forall id :: !DelLost(req, id, from, to) && !WriteLost(req, id, from, to)
      ensures t == planned
    {
      hide CommonApp.DelLost, CommonApp.WriteLost, RowOf;
      forall id ensures RowOf(t, id) == RowOf(planned, id) { assert RowKept(req, cur, planned, t, id, from, to); }
      SameRows(t, planned);
    }

    lemma Later(op: Opcode, req: Request, from: nat, to: nat, from2: nat, to2: nat)
      requires from2 <= from && to <= to2
      ensures Failing(op, req, from, to) ==> Failing(op, req, from2, to2)
    {
      hide DepCycle, RowCmds, DeleteWrites, WholeTable;
      if Failing(op, req, from, to) { FailingLater(op, req, from, to, from2, to2); }
    }

    lemma LostLater(req: Request, id: RowId, from: nat, to: nat, from2: nat, to2: nat)
      requires from2 <= from && to <= to2
      ensures DelLost(req, id, from, to) ==> DelLost(req, id, from2, to2)
      ensures WriteLost(req, id, from, to) ==> WriteLost(req, id, from2, to2)
    {
      hide DeleteWrites, WholeTable;
    }

    lemma KeptLater(req: Request, cur: Store, planned: Store, t: Store, from: nat, to: nat, to2: nat)
      requires Kept(req, cur, planned, t, from, to) && to <= to2
      ensures Kept(req, cur, planned, t, from, to2)
    {
      hide CommonApp.DelLost, CommonApp.WriteLost, RowOf, DeleteNames;
      forall id ensures RowKept(req, cur, planned, t, id, from, to2) {
        assert RowKept(req, cur, planned, t, id, from, to);
        LostLater(req, id, from, to, from, to2);
        if k :| DelLost(req, RowId(id.table, k), from, to) { LostLater(req, RowId(id.table, k), from, to, from, to2); }
      }
    }

    lemma FailingLater(op: Opcode, req: Request, from: nat, to: nat, from2: nat, to2: nat)
      requires from2 <= from && to <= to2 && Failing(op, req, from, to)
      ensures Failing(op, req, from2, to2)
    {
      hide DepCycle, RowCmds, WholeTable;
      if id :| RowRefused(op, req, id, from, to) { assert RowRefused(op, req, id, from2, to2); }
    }

    // The list of one leaf-list field after the request's items
    method MergeItems(op: Opcode, exst: seq<string>, valueLst: seq<string>) returns (exstLst: seq<string>)
      requires op == UPDATE || op == DELETE
      ensures exstLst == if op == UPDATE then Union(exst, valueLst) else Without(exst, valueLst)
    {
      exstLst := exst;
      var i := 0;
      while i < |valueLst|
        invariant i <= |valueLst|
        invariant op == UPDATE ==> Union(exst, valueLst) == Union(exstLst, valueLst[i..])
        invariant op == DELETE ==> Without(exst, valueLst) == Without(exstLst, valueLst[i..])
      {
        var item := valueLst[i];
        assert valueLst[i..][0] == item && valueLst[i..][1..] == valueLst[i + 1..];
        var found := ContainsItem(exstLst, item);
        if !found {
          RemoveAbsent(exstLst, item);
          if op == UPDATE { exstLst := exstLst + [item]; }
        } else {
          if op == DELETE { exstLst := RemoveElement(exstLst, item); }
        }
        i := i + 1;
      }
    }

    // lost: the write of the remaining items was refused, which is only logged
    method CheckAndProcessLeafList(existingEntry: Row, fields: Row, op: Opcode, id: RowId)
      returns (tblRw: Row, ghost lost: bool)
      requires op == UPDATE || op == DELETE
      modifies d
      ensures op == UPDATE ==>
        !lost && d.txCmds == old(d.txCmds) && d.asked == old(d.asked) && tblRw == UpdateFields(existingEntry, fields)
      ensures op == DELETE ==>
        var writes := DeleteWrites(existingEntry, fields);
        tblRw.Keys == DeleteNames(existingEntry, fields)
        && (lost <==> writes != map[] && d.refuses(old(d.asked), HMSet(id, writes)))
        && d.asked == old(d.asked) + (if writes == map[] then 0 else 1)
        && d.txCmds == old(d.txCmds) + if writes == map[] || lost then [] else [HMSet(id, writes)]
    {
      hide UpdateFields, DeleteWrites, DeleteNames;
      tblRw := fields;
      var mergeTblRw: Row := map[];
      var left := fields.Keys;
      while left != {}
        invariant left <= fields.Keys && Turned(op, existingEntry, fields, left, tblRw, mergeTblRw)
        invariant d.txCmds == old(d.txCmds) && d.asked == old(d.asked)
      {
        var field :| field in left;
        tblRw, mergeTblRw := ProcessField(existingEntry, fields, op, field, tblRw, mergeTblRw, left);
        left := left - {field};
      }
      hide Turned;
      AllTurned(op, existingEntry, fields, tblRw, mergeTblRw);
      lost := false;
      if op == DELETE && mergeTblRw != map[] {
        var ok := d.ModEntry(id, mergeTblRw);
        lost := !ok;
      }
    }

    method ProcessField(existingEntry: Row, fields: Row, op: Opcode, field: string, tblRw0: Row, mergeTblRw0: Row,
      ghost left: set<string>)
      returns (tblRw: Row, mergeTblRw: Row)
      requires op == UPDATE || op == DELETE
      requires field in left && left <= fields.Keys && Turned(op, existingEntry, fields, left, tblRw0, mergeTblRw0)
      ensures Turned(op, existingEntry, fields, left - {field}, tblRw, mergeTblRw)
    {
      tblRw, mergeTblRw := tblRw0, mergeTblRw0;
      hide Union, Without, Split, Join;
      assert fields[field] == tblRw[field] && field !in mergeTblRw;
      if IsList(field) {
        var exstLst := List(existingEntry, field);
        var valueLst := Items(tblRw[field]);
        if exstLst != [] {
          exstLst := MergeItems(op, exstLst, valueLst);
          if op == DELETE && valueLst != [] {
            if exstLst == [] {
              tblRw := tblRw[field := ""];
            } else {
              mergeTblRw := mergeTblRw[field := Join(exstLst, ',')];
              tblRw := tblRw - {field};
            }
          }
        } else if op == UPDATE {
          exstLst := valueLst;
        }
        if op == UPDATE {
          tblRw := if exstLst == [] then tblRw - {field} else tblRw[field := Join(exstLst, ',')];
        }
      }
      assert FieldDone(op, existingEntry, fields, field, tblRw, mergeTblRw);
      hide FieldDone, Turned;
      TurnedStep(op, existingEntry, fields, left, field, tblRw0, mergeTblRw0, tblRw, mergeTblRw);
    }

    // k: how many of the commands of the row were queued
    method CruRow(op: Opcode, id: RowId, tblRw: Row) returns (ok: bool, ghost k: nat)
      requires op != DELETE
      modifies d
      ensures var rc := RowCmds(op, id, RowOf(d.store, id), tblRw);
        k == (if ok then |rc| else 0) && d.txCmds == old(d.txCmds) + rc[..k]
        && (rc == [] <==> op == CREATE && RowOf(d.store, id) != map[])
        && (ok <==> rc != [] && !d.refuses(old(d.asked), rc[0]))
        && d.asked == old(d.asked) + if rc == [] then 0 else 1
    {
      hide UpdateFields, WithNull;
      var fields := WithNull(tblRw);
      WithNullSome(tblRw);
      var existingEntry := d.GetEntry(id);
      ghost var rc := RowCmds(op, id, existingEntry, tblRw);
      if existingEntry == map[] {
        ok := d.CreateEntry(id, fields);
      } else if op == CREATE {
        ok := false;
      } else if op == UPDATE {
        ghost var lost;
        fields, lost := CheckAndProcessLeafList(existingEntry, fields, UPDATE, id);
        ok := d.ModEntry(id, fields);
      } else {
        ok := d.SetEntry(id, fields);
      }
      k := if ok then |rc| else 0;
      assert rc[..|rc|] == rc && rc[..0] == [];
    }

    // lost: the write of the remaining items was refused; k: how many of the other commands were queued
    method DeleteRow(id: RowId, fields: Row) returns (status: Status, ghost k: nat, ghost lost: bool)
      modifies d
      ensures var rc := RowCmds(DELETE, id, RowOf(d.store, id), fields);
        (lost ==> rc != [])
        && k <= |Queued(rc, lost)| && d.txCmds == old(d.txCmds) + Queued(rc, lost)[..k]
        && (status.Done? ==> k == |Queued(rc, lost)|) && (!status.Done? ==> k <= 1 && (lost ==> k == 0))
        && (status.Failed? ==> rc != [] && d.Refused(old(d.asked), d.asked, rc[|rc| - 1]))
      ensures old(d.asked) <= d.asked && (lost ==> old(d.asked) < d.asked)
      ensures status.Stopped? <==> fields != map[] && RowOf(d.store, id) == map[]
      ensures var writes := DeleteWrites(RowOf(d.store, id), fields);
        lost <==>
          fields != map[] && RowOf(d.store, id) != map[] && writes != map[]
          && d.refuses(old(d.asked), HMSet(id, writes))
    {
      hide DeleteWrites, DeleteNames;
      ghost var rc := RowCmds(DELETE, id, RowOf(d.store, id), fields);
      lost, k := false, 0;
      assert rc[..|rc|] == rc && rc[..0] == [];
      if fields == map[] {
        var ok := d.DeleteEntry(id);
        return if ok then Done else Failed, if ok then |rc| else 0, false;
      }
      var existingEntry := d.GetEntry(id);
      if existingEntry == map[] { return Stopped, 0, false; }
      var resTblRw;
      resTblRw, lost := CheckAndProcessLeafList(existingEntry, fields, DELETE, id);
      ghost var qc := Queued(rc, lost);
      ghost var first := if DeleteWrites(existingEntry, fields) == map[] || lost then []
        else [HMSet(id, DeleteWrites(existingEntry, fields))];
      ghost var last := if DeleteNames(existingEntry, fields) == {} then []
        else [HDel(id, DeleteNames(existingEntry, fields))];
      assert qc == first + last && qc[..|first|] == first && qc[..|qc|] == qc;
      status, k := Done, |qc|;
      if resTblRw != map[] {
        var ok := d.DeleteEntryFields(id, resTblRw.Keys);
        if !ok { status, k := Failed, |first|; }
      }
    }

    method SortAsPerTblDeps(req: Request) returns (r: Result<seq<string>>)
      requires OneList(cvl.tableInfo)
      ensures r.Ok? <==> !DepCycle(cvl.tableInfo, req.Keys * cvl.tableInfo.Keys)
      ensures r.Ok? ==> DepOrder(cvl.tableInfo, req.Keys * cvl.tableInfo.Keys, r.value)
    {
      var xfmrTblLst: seq<string> := [];
      var left := req.Keys;
      while left != {}
        invariant left <= req.Keys && Elems(xfmrTblLst) == req.Keys - left
      {
        var tblNm :| tblNm in left;
        assert Elems(xfmrTblLst + [tblNm]) == Elems(xfmrTblLst) + {tblNm};
        xfmrTblLst, left := xfmrTblLst + [tblNm], left - {tblNm};
      }
      assert req.Keys - left == req.Keys;
      r := cvl.SortDepTables(xfmrTblLst);
    }

    // A row that is not written
    lemma RowFails(op: Opcode, req: Request, id: RowId, from: nat, asked: nat, to: nat)
      requires id.table in req && id.key in req[id.table] && from <= asked <= to && Stored(d.store)
      requires var rc := RowCmds(op, id, RowOf(d.store, id), req[id.table][id.key]);
        if rc == [] then op == CREATE && RowOf(d.store, id) != map[] else exists c :: c in rc && d.Refused(asked, to, c)
      ensures Failing(op, req, from, to)
    {
      hide RowCmds, DepCycle;
      var rc := RowCmds(op, id, RowOf(d.store, id), req[id.table][id.key]);
      if rc == [] {
        assert id in d.store && RowId(id.table, id.key) == id;
        assert id in Requested(req);
      } else {
        var c :| c in rc && d.Refused(asked, to, c);
        assert RowRefused(op, req, id, from, to);
      }
    }

    // What a lost write leaves of the row
    lemma LostRow(req: Request, id: RowId, cur: Row, from: nat, asked: nat, to: nat)
      requires id.table in cvl.tableInfo && id.table in req && id.key in req[id.table] && from <= asked < to
        && RowOf(d.store, id) != map[]
      requires var fields := req[id.table][id.key]; var writes := DeleteWrites(RowOf(d.store, id), fields);
        fields != map[] && writes != map[] && d.refuses(asked, HMSet(id, writes))
      ensures WriteLost(req, id, from, to)
      ensures var fields := req[id.table][id.key];
        var qc := Queued(RowCmds(DELETE, id, RowOf(d.store, id), fields), true);
        |qc| <= 1 && ForRow(qc, id) && WrittenAll(qc, cur) == cur - DeleteNames(d.store[id], fields)
    {
      hide DeleteWrites, DeleteNames;
      var fields := req[id.table][id.key];
      var c, names := HMSet(id, DeleteWrites(d.store[id], fields)), DeleteNames(d.store[id], fields);
      WrittenTwo(HDel(id, names), c, cur);
      var rc := RowCmds(DELETE, id, RowOf(d.store, id), fields);
      assert rc == [c] + if names == {} then [] else [HDel(id, names)];
      assert rc[1..] == if names == {} then [] else [HDel(id, names)];
      assert cur - {} == cur;
    }

    // The rows of one table, in any order
    method CruTable(op: Opcode, req: Request, tblNm: string, ghost p: Pass, ghost t: Store, ghost cmds: seq<Cmd>,
      ghost done: set<string>, ghost todo: set<string>)
      returns (ok: bool)
      requires op != DELETE && tblNm in req && Stored(d.store)
      requires p == PassOf(cvl.tableInfo, op, req, d.store, cmds) && t == Planned(p.sc, op, req, d.store, p.s0)
      requires Turn(p, done, tblNm, todo) && AtTables(p, t, done, d.txCmds)
      modifies d
      ensures old(d.txCmds) <= d.txCmds
      ensures if ok then AtTables(p, t, done + {tblNm}, d.txCmds) else Trace(p, t, p.all, d.txCmds)
      ensures old(d.asked) <= d.asked && (!ok ==> Failing(op, req, old(d.asked), d.asked))
      ensures ok && op == CREATE ==> Absent(tblNm, req[tblNm].Keys)
    {
      hide Turn, Here, AtTables, Trace, Replay, WrittenAll, RowCmds, Planned, RowWay, ForRow, RowOf, CommonApp.Failing,
        OnWay;
      TurnFacts(p, done, tblNm, todo);
      var tblVal := req[tblNm];
      var left := tblVal.Keys;
      TableAsked(p.sc, op, req, d.store, p.s0, tblNm);
      TableStart(p, t, done, tblNm, left, d.txCmds);
      while left != {}
        invariant old(d.txCmds) <= d.txCmds && old(d.asked) <= d.asked
        invariant left <= tblVal.Keys && Here(p, t, done, tblNm, left, d.txCmds)
        invariant op == CREATE ==> Absent(tblNm, tblVal.Keys - left)
      {
        var tblKey :| tblKey in left;
        var id := RowId(tblNm, tblKey);
        ghost var before := d.txCmds;
        ghost var rc := RowCmds(op, id, RowOf(d.store, id), tblVal[tblKey]);
        RowFits(p.sc, op, req, d.store, p.s0, id);
        ghost var k, asked := 0, d.asked;
        ok, k := CruRow(op, id, tblVal[tblKey]);
        if !ok {
          if rc != [] { assert rc[0] in rc && d.Refused(asked, d.asked, rc[0]); }
          RowFails(op, req, id, old(d.asked), asked, d.asked);
          assert before + rc[..0] == before;
          TurnWithin(p, done, tblNm, todo);
          Halted(p, t, done, tblNm, left, before);
          return;
        }
        if op == CREATE { InRow(d.store, id); }
        assert rc[..|rc|] == rc;
        RowDone(p, t, done, tblNm, todo, left, before, id, rc);
        left := left - {tblKey};
      }
      TableEnd(p, t, done, tblNm, {}, d.txCmds);
      assert tblVal.Keys - left == tblVal.Keys;
      ok := true;
    }

    // The rows of t that are still to come are as planned
    ghost predicate Coming(planned: Store, t: Store, done: set<string>, c: string, left: set<string>) {
      forall id: RowId :: id.table !in done && (id.table == c ==> id.key in left) ==> RowOf(t, id) == RowOf(planned, id)
    }

    // t is where the deletes lead after the refusals so far
    ghost predicate Aim(req: Request, p: Pass, t: Store, from: nat, asked: nat) {
      IsPass(p, t) && from <= asked && Kept(req, p.s0, Planned(p.sc, DELETE, req, d.store, p.s0), t, from, asked)
    }

    // In the table c, except for the keys left
    ghost predicate Deleting(req: Request, p: Pass, t: Store, done: set<string>, c: string, left: set<string>,
      cmds: seq<Cmd>, from: nat, asked: nat)
    {
      Here(p, t, done, c, left, cmds) && Aim(req, p, t, from, asked)
      && Coming(Planned(p.sc, DELETE, req, d.store, p.s0), t, done, c, left)
    }

    // Between two tables
    ghost predicate Deleted(req: Request, p: Pass, t: Store, done: set<string>, cmds: seq<Cmd>, from: nat, asked: nat) {
      AtTables(p, t, done, cmds) && Aim(req, p, t, from, asked)
      && forall id: RowId :: id.table !in done ==> RowOf(t, id) == RowOf(Planned(p.sc, DELETE, req, d.store, p.s0), id)
    }

    lemma AimLater(req: Request, p: Pass, t: Store, from: nat, asked: nat, asked2: nat)
      requires Aim(req, p, t, from, asked) && asked <= asked2
      ensures Aim(req, p, t, from, asked2) && from <= asked
    {
      hide IsPass, CommonApp.Kept, Planned;
      KeptLater(req, p.s0, Planned(p.sc, DELETE, req, d.store, p.s0), t, from, asked, asked2);
    }

    lemma DeletedStart(req: Request, p: Pass, cmds: seq<Cmd>, from: nat)
      requires |cmds| == p.from && Replay(p.store, cmds) == p.s0
      requires IsPass(p, Planned(p.sc, DELETE, req, d.store, p.s0)) && Ordered(p.sc, p.down, p.all, {}, p.all)
      ensures Deleted(req, p, Planned(p.sc, DELETE, req, d.store, p.s0), {}, cmds, from, from)
    {
      hide Replay, Planned, AtTables, Ordered;
      PassStart(p, Planned(p.sc, DELETE, req, d.store, p.s0), cmds);
    }

    lemma DeletingStart(req: Request, p: Pass, t: Store, done: set<string>, c: string, cmds: seq<Cmd>, from: nat,
      asked: nat)
      requires Deleted(req, p, t, done, cmds, from, asked) && c in req && c !in done
      ensures Deleting(req, p, t, done, c, AskedKeys(DELETE, req, d.store, c), cmds, from, asked)
    {
      hide Replay, Planned, AtTables, AskedKeys, Here, CommonApp.Aim;
      TableAsked(p.sc, DELETE, req, d.store, p.s0, c);
      TableStart(p, t, done, c, AskedKeys(DELETE, req, d.store, c), cmds);
    }

    lemma DeletingEnd(req: Request, p: Pass, t: Store, done: set<string>, c: string, left: set<string>, cmds: seq<Cmd>,
      from: nat, asked: nat)
      requires Deleting(req, p, t, done, c, left, cmds, from, asked)
      requires forall id: RowId :: id.table == c && id.key in left ==> RowOf(p.s0, id) == RowOf(t, id)
      ensures Deleted(req, p, t, done + {c}, cmds, from, asked)
    {
      hide Replay, Planned, AtTables, Here, CommonApp.Aim;
      TableEnd(p, t, done, c, left, cmds);
    }

    // The write of a row is lost: its end changes
    lemma LostWrite(req: Request, p: Pass, t: Store, done: set<string>, c: string, left: set<string>, cmds: seq<Cmd>,
      id: RowId, r: Row, from: nat, asked: nat) returns (t2: Store)
      requires Deleting(req, p, t, done, c, left, cmds, from, asked) && id.table == c && id.key in left && c !in done
      requires c in p.all && WriteLost(req, id, from, asked)
      requires r == RowOf(p.s0, id) - DeleteNames(d.store[id], req[id.table][id.key])
      ensures Here(p, t2, done, c, left, cmds) && Aim(req, p, t2, from, asked) && RowOf(t2, id) == r
      ensures Coming(Planned(p.sc, DELETE, req, d.store, p.s0), t2, done, c, left - {id.key})
    {
      hide Replay, Planned, Trace, DeleteNames, CommonApp.WriteLost, CommonApp.TableLost;
      t2 := Put(t, id, r);
      PutRow(t, id, r);
      hide Put;
      NewEnd(p, t, t2, done, c, left, cmds);
      var planned := Planned(p.sc, DELETE, req, d.store, p.s0);
      hide RowOf, Here;
      forall x ensures RowKept(req, p.s0, planned, t2, x, from, asked) {
        assert RowKept(req, p.s0, planned, t, x, from, asked);
      }
      forall x: RowId | x.table == c && x.key in left - {id.key} ensures x != id {}
    }

    // One more row of the table is done
    lemma DeletingRow(req: Request, p: Pass, t: Store, done: set<string>, c: string, todo: set<string>,
      left: set<string>, cmds: seq<Cmd>, id: RowId, rc: seq<Cmd>, from: nat, asked: nat)
      requires Turn(p, done, c, todo) && Here(p, t, done, c, left, cmds) && Aim(req, p, t, from, asked)
      requires Coming(Planned(p.sc, DELETE, req, d.store, p.s0), t, done, c, left - {id.key})
      requires id.table == c && id.key in left && ForRow(rc, id) && RowWay(RowOf(p.s0, id), rc)
      requires WrittenAll(rc, RowOf(p.s0, id)) == RowOf(t, id)
      ensures Deleting(req, p, t, done, c, left - {id.key}, cmds + rc, from, asked)
    {
      hide Turn, Here, Planned, RowWay, ForRow, WrittenAll, RowOf, CommonApp.Aim, CommonApp.Coming;
      RowDone(p, t, done, c, todo, left, cmds, id, rc);
    }

    lemma ComingRow(planned: Store, t: Store, done: set<string>, c: string, left: set<string>, id: RowId)
      requires Coming(planned, t, done, c, left) && id.table == c && id.key in left && c !in done
      ensures RowOf(t, id) == RowOf(planned, id) && Coming(planned, t, done, c, left - {id.key})
    {
      hide RowOf;
    }

    lemma ComingElse(planned: Store, t: Store, done: set<string>, c: string, left: set<string>)
      requires Coming(planned, t, done, c, left)
      ensures forall id: RowId :: id.table !in done && id.table != c ==> RowOf(t, id) == RowOf(planned, id)
    {
      hide RowOf;
    }

    // The deletes end with a row of which k commands are queued
    lemma DeletingStops(req: Request, p: Pass, t: Store, done: set<string>, c: string, todo: set<string>,
      left: set<string>, cmds: seq<Cmd>, id: RowId, rc: seq<Cmd>, k: nat)
      requires Turn(p, done, c, todo) && Here(p, t, done, c, left, cmds)
      requires id.table == c && id.key in left && ForRow(rc, id) && RowWay(RowOf(p.s0, id), rc)
      requires WrittenAll(rc, RowOf(p.s0, id)) == RowOf(t, id) && k <= |rc| && k <= 1
      ensures Trace(p, t, p.all, cmds + rc[..k])
    {
      hide Turn, Here, Trace, WrittenAll, RowOf, OnWay;
      OnRowWay(RowOf(p.s0, id), rc, k);
      ShortWay(RowOf(p.s0, id), rc[..k]);
      hide RowWay;
      RowPart(p, t, done, c, todo, left, cmds, id, rc[..k]);
    }

    // t: where the deletes lead
    method DeleteTableRows(req: Request, tblNm: string, ghost p: Pass, ghost t0: Store, ghost cmds: seq<Cmd>,
      ghost done: set<string>, ghost todo: set<string>, ghost from: nat)
      returns (status: Status, ghost t: Store)
      requires tblNm in req && Stored(d.store) && p == PassOf(cvl.tableInfo, DELETE, req, d.store, cmds)
      requires Turn(p, done, tblNm, todo) && Deleted(req, p, t0, done, d.txCmds, from, d.asked)
      modifies d
      ensures old(d.txCmds) <= d.txCmds && old(d.asked) <= d.asked
      ensures if status.Done? then Deleted(req, p, t, done + {tblNm}, d.txCmds, from, d.asked)
        else Trace(p, t, p.all, d.txCmds) && Aim(req, p, t, from, d.asked)
      ensures status.Stopped? ==> AbsentFields(req, d.store)
      ensures status.Failed? ==> Failing(DELETE, req, old(d.asked), d.asked)
    {
      hide Turn, Here, AtTables, Trace, Replay, WrittenAll, RowCmds, Planned, RowWay, ForRow, RowOf, CommonApp.Failing,
        DeleteWrites, DeleteNames, CommonApp.Deleted, CommonApp.Aim, CommonApp.Deleting, CommonApp.WriteLost;
      TurnFacts(p, done, tblNm, todo);
      TurnWithin(p, done, tblNm, todo);
      var tblVal := req[tblNm];
      t := t0;
      DeletingStart(req, p, t, done, tblNm, d.txCmds, from, d.asked);
      if tblVal == map[] {
        status, t := WholeTableRows(req, tblNm, p, t, cmds, done, todo, from);
        return;
      }
      var left := tblVal.Keys;
      while left != {}
        invariant old(d.txCmds) <= d.txCmds && old(d.asked) <= d.asked && left <= tblVal.Keys
        invariant Deleting(req, p, t, done, tblNm, left, d.txCmds, from, d.asked)
      {
        var tblKey :| tblKey in left;
        ghost var asked := d.asked;
        status, t := DeleteOne(req, tblNm, tblKey, p, t, cmds, done, todo, left, from);
        if !status.Done? {
          Later(DELETE, req, asked, d.asked, old(d.asked), d.asked);
          return;
        }
        left := left - {tblKey};
      }
      DeletingEnd(req, p, t, done, tblNm, {}, d.txCmds, from, d.asked);
      status := Done;
    }

    method DeleteOne(req: Request, tblNm: string, tblKey: string, ghost p: Pass, ghost t0: Store, ghost cmds: seq<Cmd>,
      ghost done: set<string>, ghost todo: set<string>, ghost left: set<string>, ghost from: nat)
      returns (status: Status, ghost t: Store)
      requires tblNm in req && tblKey in req[tblNm] && tblKey in left && Stored(d.store)
      requires p == PassOf(cvl.tableInfo, DELETE, req, d.store, cmds) && Turn(p, done, tblNm, todo)
      requires Deleting(req, p, t0, done, tblNm, left, d.txCmds, from, d.asked)
      modifies d
      ensures old(d.txCmds) <= d.txCmds && old(d.asked) <= d.asked
      ensures if status.Done? then Deleting(req, p, t, done, tblNm, left - {tblKey}, d.txCmds, from, d.asked)
        else Trace(p, t, p.all, d.txCmds) && Aim(req, p, t, from, d.asked)
      ensures status.Stopped? ==> AbsentFields(req, d.store)
      ensures status.Failed? ==> Failing(DELETE, req, old(d.asked), d.asked)
    {
      hide Turn, Here, Trace, Replay, WrittenAll, RowCmds, Planned, RowWay, ForRow, RowOf, CommonApp.Failing,
        DeleteWrites, DeleteNames, CommonApp.Aim, CommonApp.WriteLost, CommonApp.Coming;
      TurnFacts(p, done, tblNm, todo);
      var id := RowId(tblNm, tblKey);
      ghost var before, asked := d.txCmds, d.asked;
      ghost var planned := Planned(p.sc, DELETE, req, d.store, p.s0);
      ghost var rc := RowCmds(DELETE, id, RowOf(d.store, id), req[tblNm][tblKey]);
      RowFits(p.sc, DELETE, req, d.store, p.s0, id);
      ghost var k, lost;
      status, k, lost := DeleteRow(id, req[tblNm][tblKey]);
      t := t0;
      AimLater(req, p, t, from, asked, d.asked);
      ghost var qc := Queued(rc, lost);
      ghost var r := WrittenAll(qc, RowOf(p.s0, id));
      ComingRow(planned, t0, done, tblNm, left, id);
      if lost {
        LostRow(req, id, RowOf(p.s0, id), from, asked, d.asked);
        ShortWay(RowOf(p.s0, id), qc);
        InRow(d.store, id);
        t := LostWrite(req, p, t0, done, tblNm, left, before, id, r, from, d.asked);
      }
      if status.Done? {
        assert qc[..|qc|] == qc;
        DeletingRow(req, p, t, done, tblNm, todo, left, before, id, qc, from, d.asked);
      } else {
        if status.Failed? { RowFails(DELETE, req, id, asked, asked, d.asked); } else { InRow(d.store, id); }
        DeletingStops(req, p, t, done, tblNm, todo, left, before, id, qc, k);
      }
    }

    method WholeTableRows(req: Request, tblNm: string, ghost p: Pass, ghost t0: Store, ghost cmds: seq<Cmd>,
      ghost done: set<string>, ghost todo: set<string>, ghost from: nat)
      returns (status: Status, ghost t: Store)
      requires tblNm in req && req[tblNm] == map[] && Stored(d.store)
      requires p == PassOf(cvl.tableInfo, DELETE, req, d.store, cmds) && Turn(p, done, tblNm, todo)
      requires Deleting(req, p, t0, done, tblNm, AskedKeys(DELETE, req, d.store, tblNm), d.txCmds, from, d.asked)
      modifies d
      ensures old(d.txCmds) <= d.txCmds && old(d.asked) <= d.asked && !status.Stopped?
      ensures if status.Done? then Deleted(req, p, t, done + {tblNm}, d.txCmds, from, d.asked)
        else Trace(p, t, p.all, d.txCmds) && Aim(req, p, t, from, d.asked)
      ensures status.Failed? ==> Failing(DELETE, req, old(d.asked), d.asked)
    {
      hide Turn, Here, AtTables, Trace, Replay, WrittenAll, RowCmds, Planned, RowOf, Dels, KeysOf, AskedKeys,
        CommonApp.Failing, CommonApp.Deleted, CommonApp.Aim, CommonApp.Coming;
      TurnFacts(p, done, tblNm, todo);
      TurnWithin(p, done, tblNm, todo);
      ComingElse(Planned(p.sc, DELETE, req, d.store, p.s0), t0, done, tblNm, AskedKeys(DELETE, req, d.store, tblNm));
      ghost var before, asked := d.txCmds, d.asked;
      ghost var left := AskedKeys(DELETE, req, d.store, tblNm);
      var ok;
      ghost var ids, complete;
      ok, ids, complete := d.DeleteTable(tblNm);
      t := t0;
      AimLater(req, p, t, from, asked, d.asked);
      TableFails(req, tblNm, ok, complete, from, asked, d.asked);
      if !ok {
        assert before + Dels([]) == before by { DelsNone(d.store, tblNm); }
        Halted(p, t, done, tblNm, left, before);
        status := Failed;
        return;
      }
      t := LostRows(req, p, t0, done, tblNm, before, ids, from, d.asked);
      DelsFit(req, d.store, tblNm, ids);
      DelsTrace(p, t, done, tblNm, todo, left, before, ids);
      TableLeft(req, p, t, done, tblNm, ids, d.txCmds, from, d.asked);
      status := Done;
    }

    // The rows that are not deleted stay
    lemma LostRows(req: Request, p: Pass, t: Store, done: set<string>, c: string, cmds: seq<Cmd>, ids: seq<RowId>,
      from: nat, asked: nat) returns (t2: Store)
      requires WholeTable(DELETE, req, c) && c in p.all && c !in done && c in p.sc
      requires Here(p, t, done, c, AskedKeys(DELETE, req, d.store, c), cmds) && Aim(req, p, t, from, asked)
      requires Coming(Planned(p.sc, DELETE, req, d.store, p.s0), t, done, c, AskedKeys(DELETE, req, d.store, c))
      requires TableLost(req, c, from, asked) || forall id :: id in d.store && id.table == c ==> id in ids
      ensures Here(p, t2, done, c, AskedKeys(DELETE, req, d.store, c), cmds) && Aim(req, p, t2, from, asked)
      ensures forall id: RowId :: id.table != c || id !in d.store ==> RowOf(t2, id) == RowOf(t, id)
      ensures forall id: RowId :: id.table == c && id in d.store ==>
        RowOf(t2, id) == if id in ids then map[] else RowOf(p.s0, id)
    {
      hide Planned, Here, RowOf, AskedKeys, CommonApp.TableLost, CommonApp.Coming, CommonApp.Aim, WithRows;
      var left := AskedKeys(DELETE, req, d.store, c);
      var rows := set id | id in d.store && id.table == c && id !in ids;
      t2 := WithRows(t, p.s0, rows);
      WithRowsIs(t, p.s0, rows);
      ErasedRows(req, p, t, done, c);
      RowsAsked(req, c, rows);
      NewEnd(p, t, t2, done, c, left, cmds);
      AimRows(req, p, t, c, rows, t2, from, asked);
    }

    lemma RowsAsked(req: Request, c: string, rows: set<RowId>)
      requires WholeTable(DELETE, req, c) && forall id :: id in rows ==> id in d.store && id.table == c
      ensures forall id :: id in rows ==> id.table == c && id.key in AskedKeys(DELETE, req, d.store, c)
    {
    }

    lemma ErasedRows(req: Request, p: Pass, t: Store, done: set<string>, c: string)
      requires WholeTable(DELETE, req, c) && c in p.sc && c !in done
      requires Coming(Planned(p.sc, DELETE, req, d.store, p.s0), t, done, c, AskedKeys(DELETE, req, d.store, c))
      ensures forall id: RowId :: id.table == c && id in d.store ==> RowOf(t, id) == map[]
    {
      hide Planned, RowOf;
      forall id: RowId | id.table == c && id in d.store ensures RowOf(t, id) == map[] {
        Erased(p.sc, DELETE, req, d.store, p.s0, id);
      }
    }

    lemma AimRows(req: Request, p: Pass, t: Store, c: string, rows: set<RowId>, t2: Store, from: nat, asked: nat)
      requires Aim(req, p, t, from, asked) && Stored(t2) && (TableLost(req, c, from, asked) || rows == {})
      requires forall id :: RowOf(t2, id) == RowOf(if id in rows then p.s0 else t, id)
      requires forall id :: id in rows ==> id.table == c
      ensures Aim(req, p, t2, from, asked)
    {
      hide Planned, RowOf, CommonApp.TableLost, CommonApp.WriteLost, Stored;
      var planned := Planned(p.sc, DELETE, req, d.store, p.s0);
      forall id ensures RowKept(req, p.s0, planned, t2, id, from, asked) {
        assert RowKept(req, p.s0, planned, t, id, from, asked);
      }
      forall id: RowId | id.table !in p.all ensures RowOf(p.s0, id) == RowOf(t2, id) {}
    }

    lemma TableLeft(req: Request, p: Pass, t: Store, done: set<string>, c: string, ids: seq<RowId>, cmds: seq<Cmd>,
      from: nat, asked: nat)
      requires WholeTable(DELETE, req, c) && c in p.all && OfTable(d.store, c, ids)
      requires Here(p, t, done, c, AskedKeys(DELETE, req, d.store, c) - KeysOf(ids), cmds)
        && Aim(req, p, t, from, asked)
      requires forall id: RowId :: id.table !in done && id.table != c ==>
        RowOf(t, id) == RowOf(Planned(p.sc, DELETE, req, d.store, p.s0), id)
      requires forall id: RowId :: id.table == c && id in d.store && id !in ids ==> RowOf(t, id) == RowOf(p.s0, id)
      ensures Deleted(req, p, t, done + {c}, cmds, from, asked)
    {
      hide Planned, Here, AtTables, CommonApp.Aim, RowOf;
      var left := AskedKeys(DELETE, req, d.store, c) - KeysOf(ids);
      forall id: RowId | id.table == c && id.key in left ensures RowOf(p.s0, id) == RowOf(t, id) {
        var x :| x in d.store && x.table == c && x.key == id.key;
        assert x == id;
        assert id in ids ==> id.key in KeysOf(ids);
      }
      TableEnd(p, t, done, c, left, cmds);
    }

    // A table that is not deleted, or not entirely
    lemma TableFails(req: Request, tblNm: string, ok: bool, complete: bool, from: nat, asked: nat, to: nat)
      requires WholeTable(DELETE, req, tblNm) && from <= asked < to && (!ok ==> d.keysFail(asked, tblNm))
      requires ok && !complete ==> exists id :: id in d.store && id.table == tblNm && d.refuses(to - 1, Del(id))
      ensures (!ok ==> Failing(DELETE, req, asked, to)) && (ok && !complete ==> TableLost(req, tblNm, from, to))
    {
      hide DepCycle, CommonApp.WriteLost, CommonApp.RowRefused;
      if !ok { assert d.KeysFailed(asked, to, tblNm); }
      if ok && !complete {
        var id :| id in d.store && id.table == tblNm && d.refuses(to - 1, Del(id));
        assert RowId(tblNm, id.key) == id;
        assert DelLost(req, id, from, to);
      }
    }

    // Parent first: the dependency order backwards
    method CmnAppCRUCommonDbOpn(op: Opcode, req: Request) returns (ok: bool)
      requires op != DELETE && Stored(d.store) && OneList(cvl.tableInfo)
      modifies d
      ensures var p := PassOf(cvl.tableInfo, op, req, d.store, old(d.txCmds));
        var t := Planned(p.sc, op, req, d.store, p.s0);
        Trace(p, t, p.all, d.txCmds) && (ok ==> Replay(d.store, d.txCmds) == t)
      ensures old(d.txCmds) <= d.txCmds && old(d.asked) <= d.asked
      ensures !ok ==> Failing(op, req, old(d.asked), d.asked)
      ensures ok ==> !DepCycle(cvl.tableInfo, req.Keys * cvl.tableInfo.Keys)
      ensures ok && op == CREATE ==> forall t :: t in req && t in cvl.tableInfo ==> Absent(t, req[t].Keys)
    {
      hide IsPass, Turn, Trace, AtTables, Replay, Planned, OneList, DepOrder, DepCycle, Ordered;
      ghost var cmds := d.txCmds;
      ghost var p := PassOf(cvl.tableInfo, op, req, d.store, cmds);
      ghost var t := Planned(p.sc, op, req, d.store, p.s0);
      PassOfIs(cvl.tableInfo, op, req, d.store, cmds);
      Starts(p, t, cmds);
      var sorted := SortAsPerTblDeps(req);
      if sorted == Error { return false; }
      var resultTblLst := sorted.value;
      WholeOrder(p, resultTblLst);
      var idx: nat := |resultTblLst|;
      while idx > 0
        invariant idx <= |resultTblLst| && old(d.txCmds) <= d.txCmds && old(d.asked) <= d.asked
        invariant AtTables(p, t, Elems(resultTblLst[idx..]), d.txCmds)
        invariant op == CREATE ==> forall c :: c in req && c in Elems(resultTblLst[idx..]) ==> Absent(c, req[c].Keys)
      {
        var tblNm := resultTblLst[idx - 1];
        TurnAt(p, resultTblLst, idx - 1);
        ghost var asked := d.asked;
        ok := CruTable(op, req, tblNm, p, t, cmds, DoneAt(p, resultTblLst, idx - 1), TodoAt(p, resultTblLst, idx - 1));
        Later(op, req, asked, d.asked, old(d.asked), d.asked);
        if !ok { return; }
        idx := idx - 1;
      }
      PassEnd(p, t, d.txCmds);
      ok := true;
    }

    // Child first: the dependency order. t: the store the deletes lead to, as planned but for refusals
    method CmnAppDelDbOpn(req: Request) returns (status: Status, ghost t: Store)
      requires Stored(d.store) && OneList(cvl.tableInfo)
      modifies d
      ensures var p := PassOf(cvl.tableInfo, DELETE, req, d.store, old(d.txCmds));
        IsPass(p, t) && Trace(p, t, p.all, d.txCmds) && (status.Done? ==> Replay(d.store, d.txCmds) == t)
        && Kept(req, p.s0, Planned(p.sc, DELETE, req, d.store, p.s0), t, old(d.asked), d.asked)
      ensures old(d.txCmds) <= d.txCmds && old(d.asked) <= d.asked
      ensures status.Stopped? ==> AbsentFields(req, d.store)
      ensures status.Failed? ==> Failing(DELETE, req, old(d.asked), d.asked)
    {
      hide IsPass, Turn, Trace, AtTables, Replay, Planned, OneList, DepOrder, DepCycle, Ordered, CommonApp.Kept;
      ghost var cmds, from := d.txCmds, d.asked;
      ghost var p := PassOf(cvl.tableInfo, DELETE, req, d.store, cmds);
      t := Planned(p.sc, DELETE, req, d.store, p.s0);
      PassOfIs(cvl.tableInfo, DELETE, req, d.store, cmds);
      Starts(p, t, cmds);
      DeletedStart(req, p, cmds, from);
      var sorted := SortAsPerTblDeps(req);
      if sorted == Error { return Failed, t; }
      var resultTblLst := sorted.value;
      WholeOrder(p, resultTblLst);
      var idx := 0;
      while idx < |resultTblLst|
        invariant idx <= |resultTblLst| && old(d.txCmds) <= d.txCmds && old(d.asked) <= d.asked
        invariant Deleted(req, p, t, Elems(resultTblLst[..idx]), d.txCmds, from, d.asked)
      {
        var tblNm := resultTblLst[idx];
        TurnAt(p, resultTblLst, idx);
        ghost var asked := d.asked;
        status, t := DeleteTableRows(req, tblNm, p, t, cmds, DoneAt(p, resultTblLst, idx),
          TodoAt(p, resultTblLst, idx), from);
        Later(DELETE, req, asked, d.asked, old(d.asked), d.asked);
        if !status.Done? { return; }
        idx := idx + 1;
      }
      PassEnd(p, t, d.txCmds);
      status := Done;
    }

    // One operation of a request, if it is asked for
    method CruPhase(op: Opcode, reqs: map<Opcode, Request>, ghost from: nat, ghost sound: bool) returns (ok: bool)
      requires op != DELETE && Stored(d.store) && OneList(cvl.tableInfo) && from <= |d.txCmds|
      requires sound ==>
        PhaseSound(cvl.tableInfo, op, reqs, d.store, Replay(d.store, d.txCmds))
        && SafeFrom(cvl.tableInfo, d.store, from, d.txCmds)
      modifies d
      ensures old(d.txCmds) <= d.txCmds && (sound ==> SafeFrom(cvl.tableInfo, d.store, from, d.txCmds))
      ensures ok ==>
        Replay(d.store, d.txCmds) == Phase(cvl.tableInfo, op, reqs, d.store, Replay(d.store, old(d.txCmds)))
      ensures op !in reqs ==> d.txCmds == old(d.txCmds)
      ensures old(d.asked) <= d.asked && (!ok ==> op in reqs && Failing(op, reqs[op], old(d.asked), d.asked))
    {
      hide CommonApp.Failing, Trace, Replay, Planned, OneList, AbsentFields, SafeFrom, SoundTo, IsPass, PassOf;
      ok := true;
      if op in reqs {
        PassOfIs(cvl.tableInfo, op, reqs[op], d.store, d.txCmds);
        PassOfFields(cvl.tableInfo, op, reqs[op], d.store, d.txCmds);
        ghost var t := Planned(cvl.tableInfo, op, reqs[op], d.store, Replay(d.store, d.txCmds));
        ok := CmnAppCRUCommonDbOpn(op, reqs[op]);
        if sound { PhaseSafe(cvl.tableInfo, op, reqs[op], d.store, from, old(d.txCmds), t, d.txCmds); }
      }
    }

    // stopped: the deletes ended early on an absent row; the other operations follow all the same.
    // dels: the queue behind the deletes; t: the store they lead to
    method ProcessCommon(reqs: map<Opcode, Request>)
      returns (ok: bool, ghost stopped: bool, ghost t: Store, ghost dels: seq<Cmd>)
      requires Stored(d.store) && OneList(cvl.tableInfo)
      modifies d
      ensures stopped ==> DELETE in reqs && AbsentFields(reqs[DELETE], d.store)
      ensures !ok ==> exists op :: op in reqs && Failing(op, reqs[op], old(d.asked), d.asked)
      ensures old(d.txCmds) <= dels <= d.txCmds
      ensures var p1 := Replay(d.store, old(d.txCmds));
        if DELETE in reqs then
          Kept(reqs[DELETE], p1, Planned(cvl.tableInfo, DELETE, reqs[DELETE], d.store, p1), t, old(d.asked), d.asked)
        else t == p1 && dels == old(d.txCmds)
      ensures ok && !stopped ==> Replay(d.store, dels) == t
      ensures ok ==> Replay(d.store, d.txCmds) == AfterDeletes(cvl.tableInfo, reqs, d.store, Replay(d.store, dels))
      ensures (StartSound(cvl.tableInfo, reqs, Replay(d.store, old(d.txCmds)), t)
          && (dels == d.txCmds || RestSound(cvl.tableInfo, reqs, d.store, Replay(d.store, dels)))) ==>
        SafeFrom(cvl.tableInfo, d.store, |old(d.txCmds)|, d.txCmds)
    {
      hide CommonApp.Failing, CommonApp.Kept, Trace, PassOf, Replay, Phase, OneList, AbsentFields, SafeFrom, Planned,
        PhaseSound, NoDangling, Stored, StartSound, RestSound;
      ghost var from := |d.txCmds|;
      ghost var p1 := Replay(d.store, d.txCmds);
      ok, stopped, t := DelPhase(reqs);
      dels := d.txCmds;
      ghost var asked := d.asked;
      if !ok { return; }
      ghost var sound := StartSound(cvl.tableInfo, reqs, p1, t)
        && RestSound(cvl.tableInfo, reqs, d.store, Replay(d.store, dels));
      ok := CruPhases(reqs, from, sound);
      LaterFails(reqs, ok, old(d.asked), asked, d.asked);
      if DELETE in reqs {
        KeptLater(reqs[DELETE], p1, Planned(cvl.tableInfo, DELETE, reqs[DELETE], d.store, p1), t, old(d.asked), asked,
          d.asked);
      }
    }

    lemma LaterFails(reqs: map<Opcode, Request>, ok: bool, from: nat, asked: nat, to: nat)
      requires from <= asked <= to && (!ok ==> exists op :: op in reqs && Failing(op, reqs[op], asked, to))
      ensures !ok ==> exists op :: op in reqs && Failing(op, reqs[op], from, to)
    {
      hide CommonApp.Failing;
      if !ok {
        var op :| op in reqs && Failing(op, reqs[op], asked, to);
        Later(op, reqs[op], asked, to, from, to);
      }
    }

    method DelPhase(reqs: map<Opcode, Request>) returns (ok: bool, ghost stopped: bool, ghost t: Store)
      requires Stored(d.store) && OneList(cvl.tableInfo)
      modifies d
      ensures old(d.txCmds) <= d.txCmds && old(d.asked) <= d.asked
      ensures var p1 := Replay(d.store, old(d.txCmds));
        if DELETE in reqs then
          Kept(reqs[DELETE], p1, Planned(cvl.tableInfo, DELETE, reqs[DELETE], d.store, p1), t, old(d.asked), d.asked)
        else t == p1 && d.txCmds == old(d.txCmds)
      ensures StartSound(cvl.tableInfo, reqs, Replay(d.store, old(d.txCmds)), t) ==>
        SafeFrom(cvl.tableInfo, d.store, |old(d.txCmds)|, d.txCmds)
      ensures ok && !stopped ==> Replay(d.store, d.txCmds) == t
      ensures stopped ==> DELETE in reqs && AbsentFields(reqs[DELETE], d.store)
      ensures !ok ==> DELETE in reqs && Failing(DELETE, reqs[DELETE], old(d.asked), d.asked)
    {
      hide CommonApp.Failing, CommonApp.Kept, Trace, Replay, Planned, OneList, AbsentFields, SafeFrom, NoDangling,
        SoundTo, IsPass, PassOf;
      ok, stopped, t := true, false, Replay(d.store, d.txCmds);
      ghost var cmds := d.txCmds;
      if NoDangling(cvl.tableInfo, t) { SafeStart(cvl.tableInfo, d.store, cmds); }
      if DELETE in reqs {
        var status;
        PassOfFields(cvl.tableInfo, DELETE, reqs[DELETE], d.store, cmds);
        status, t := CmnAppDelDbOpn(reqs[DELETE]);
        if StartSound(cvl.tableInfo, reqs, Replay(d.store, cmds), t) {
          PhaseSafe(cvl.tableInfo, DELETE, reqs[DELETE], d.store, |cmds|, cmds, t, d.txCmds);
        }
        ok, stopped := !status.Failed?, status.Stopped?;
      }
    }

    // Creates, then updates, then replaces
    method CruPhases(reqs: map<Opcode, Request>, ghost from: nat, ghost sound: bool) returns (ok: bool)
      requires Stored(d.store) && OneList(cvl.tableInfo) && from <= |d.txCmds|
      requires sound ==>
        RestSound(cvl.tableInfo, reqs, d.store, Replay(d.store, d.txCmds))
        && SafeFrom(cvl.tableInfo, d.store, from, d.txCmds)
      modifies d
      ensures old(d.txCmds) <= d.txCmds && (sound ==> SafeFrom(cvl.tableInfo, d.store, from, d.txCmds))
      ensures ok ==>
        Replay(d.store, d.txCmds) == AfterDeletes(cvl.tableInfo, reqs, d.store, Replay(d.store, old(d.txCmds)))
      ensures old(d.asked) <= d.asked
      ensures !ok ==> exists op :: op in reqs && Failing(op, reqs[op], old(d.asked), d.asked)
    {
      hide CommonApp.Failing, Replay, Phase, OneList, SafeFrom, PhaseSound, Stored;
      ok := CruPhase(CREATE, reqs, from, sound);
      if !ok { return; }
      ghost var asked := d.asked;
      ok := CruPhase(UPDATE, reqs, from, sound);
      LaterFails(reqs, ok, old(d.asked), asked, d.asked);
      if !ok { return; }
      asked := d.asked;
      ok := CruPhase(REPLACE, reqs, from, sound);
      LaterFails(reqs, ok, old(d.asked), asked, d.asked);
    }
  }

  // The store after one operation of a request
  function Phase(sc: Schema, op: Opcode, reqs: map<Opcode, Request>, store: Store, cur: Store): Store {
    if op in reqs then Planned(sc, op, reqs[op], store, cur) else cur
  }

  // Creates, then updates, then replaces
  function AfterDeletes(sc: Schema, reqs: map<Opcode, Request>, store: Store, p1: Store): Store {
    var p2 := Phase(sc, CREATE, reqs, store, p1);
    var p3 := Phase(sc, UPDATE, reqs, store, p2);
    Phase(sc, REPLACE, reqs, store, p3)
  }

  ghost predicate PhaseSound(sc: Schema, op: Opcode, reqs: map<Opcode, Request>, store: Store, cur: Store) {
    op in reqs ==> Sound(sc, op, reqs[op], store, cur)
  }

  // The deletes lead from a sound store to t without a dangling leafref on the way
  ghost predicate StartSound(sc: Schema, reqs: map<Opcode, Request>, cur: Store, t: Store) {
    NoDangling(sc, cur) && (DELETE in reqs ==> SoundTo(sc, DELETE, cur, t))
  }

  // So do the other operations, from p1 on
  ghost predicate RestSound(sc: Schema, reqs: map<Opcode, Request>, store: Store, p1: Store) {
    var p2 := Phase(sc, CREATE, reqs, store, p1);
    var p3 := Phase(sc, UPDATE, reqs, store, p2);
    PhaseSound(sc, CREATE, reqs, store, p1) && PhaseSound(sc, UPDATE, reqs, store, p2)
    && PhaseSound(sc, REPLACE, reqs, store, p3)
  }

  // No state behind the first `from` commands has a dangling reference
  ghost predicate SafeFrom(sc: Schema, store: Store, from: nat, cmds: seq<Cmd>) {
    forall n :: from <= n <= |cmds| ==> NoDangling(sc, Replay(store, cmds[..n]))
  }

  lemma SafeStart(sc: Schema, store: Store, cmds: seq<Cmd>)
    requires NoDangling(sc, Replay(store, cmds))
    ensures SafeFrom(sc, store, |cmds|, cmds)
  {
    assert cmds[..|cmds|] == cmds;
  }

  lemma PassOfFields(sc: Schema, op: Opcode, req: Request, store: Store, cmds: seq<Cmd>)
    ensures var p := PassOf(sc, op, req, store, cmds);
      p.sc == sc && p.s0 == Replay(store, cmds) && p.store == store && p.from == |cmds| && p.down == (op == DELETE)
  {
  }

  // One operation adds no unsafe state to those before it
  lemma PhaseSafe(sc: Schema, op: Opcode, req: Request, store: Store, from: nat, before: seq<Cmd>, end: Store,
    after: seq<Cmd>)
    requires var p := PassOf(sc, op, req, store, before); IsPass(p, end) && Trace(p, end, p.all, after)
    requires SoundTo(sc, op, Replay(store, before), end) && before <= after
    requires from <= |before| && SafeFrom(sc, store, from, before)
    ensures SafeFrom(sc, store, from, after)
  {
    hide Replay, NoDangling, Trace, IsPass, Covered;
    forall n | from <= n <= |after| ensures NoDangling(sc, Replay(store, after[..n])) {
      if n <= |before| {
        assert after[..n] == before[..n];
      } else {
        PassSafe(PassOf(sc, op, req, store, before), end, after, n);
      }
    }
  }

  // The request deletes fields of a row that is not stored
  ghost predicate AbsentFields(req: Request, store: Store) {
    exists t, k :: t in req && k in req[t] && req[t][k] != map[] && RowId(t, k) !in store
  }

  lemma TableAsked(sc: Schema, op: Opcode, req: Request, store: Store, cur: Store, c: string)
    requires c in req
    ensures forall id: RowId :: id.table == c && id.key !in AskedKeys(op, req, store, c) ==>
      RowOf(cur, id) == RowOf(Planned(sc, op, req, store, cur), id)
  {
    hide RowOf, AskedKeys, Planned;
    forall id: RowId | id.table == c && id.key !in AskedKeys(op, req, store, c)
      ensures RowOf(cur, id) == RowOf(Planned(sc, op, req, store, cur), id)
    {
      Unasked(sc, op, req, store, cur, id);
    }
  }

  lemma DelsFit(req: Request, store: Store, c: string, ids: seq<RowId>)
    requires WholeTable(DELETE, req, c) && OfTable(store, c, ids)
    ensures forall i :: 0 <= i < |ids| ==>
      ids[i] in store && ids[i].table == c && ids[i].key in AskedKeys(DELETE, req, store, c)
    ensures forall i :: 0 <= i < |ids| ==> ids[i].table == ids[0].table
  {
  }

  lemma Starts(p: Pass, t: Store, cmds: seq<Cmd>)
    requires IsPass(p, t) && |cmds| == p.from && Replay(p.store, cmds) == p.s0
    ensures Ordered(p.sc, p.down, p.all, {}, p.all) && AtTables(p, t, {}, cmds) && Trace(p, t, p.all, cmds)
  {
    hide Replay;
    PassStart(p, t, cmds);
    TraceStart(p, t, cmds);
  }

  lemma TurnWithin(p: Pass, done: set<string>, c: string, todo: set<string>)
    requires Turn(p, done, c, todo)
    ensures done <= p.all
  {
  }

  // t, but for some rows of s
  function WithRows(t: Store, s: Store, rows: set<RowId>): Store {
    map id | id in t.Keys + s.Keys
      && RowOf(if id in rows then s else t, id) != map[] :: RowOf(if id in rows then s else t, id)
  }

  lemma WithRowsIs(t: Store, s: Store, rows: set<RowId>)
    ensures Stored(WithRows(t, s, rows))
    ensures forall id :: RowOf(WithRows(t, s, rows), id) == RowOf(if id in rows then s else t, id)
  {
  }
}
