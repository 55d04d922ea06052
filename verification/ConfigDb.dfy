// The configuration database of a request: a committed store and the commands queued until the transaction commits.
module ConfigDb {
  // A hash without fields does not exist in Redis
  type Row = map<string, string>

  datatype RowId = RowId(table: string, key: string)

  type Store = map<RowId, Row>

  datatype Cmd = HMSet(id: RowId, fields: Row) | HDel(id: RowId, names: set<string>) | Del(id: RowId)

  function RowOf(s: Store, id: RowId): Row { if id in s then s[id] else map[] }

  ghost predicate Stored(s: Store) { forall id :: id in s ==> s[id] != map[] }

  function Written(c: Cmd, r: Row): Row {
    match c
    case HMSet(_, fields) => r + fields
    case HDel(_, names) => r - names
    case Del(_) => map[]
  }

  function WrittenAll(cmds: seq<Cmd>, r: Row): Row {
    if cmds == [] then r else WrittenAll(cmds[1..], Written(cmds[0], r))
  }

  function Put(s: Store, id: RowId, r: Row): Store { if r == map[] then s - {id} else s[id := r] }

  function Apply(s: Store, c: Cmd): Store { Put(s, c.id, Written(c, RowOf(s, c.id))) }

  // The store after the commands, one by one as CommitTx issues them
  function Replay(s: Store, cmds: seq<Cmd>): Store {
    if cmds == [] then s else Apply(Replay(s, cmds[..|cmds| - 1]), cmds[|cmds| - 1])
  }

  lemma ReplayPush(s: Store, cmds: seq<Cmd>, c: Cmd)
    ensures Replay(s, cmds + [c]) == Apply(Replay(s, cmds), c)
  {
    assert (cmds + [c])[..|cmds|] == cmds;
  }

  // The row has the field, with this value
  ghost predicate FieldIs(s: Store, id: RowId, f: string, v: string) { id in s && f in s[id] && s[id][f] == v }

  // One more command: what the fields of the rows are behind it
  lemma OneMore(s: Store, cmds: seq<Cmd>, c: Cmd, id: RowId, f: string, v: string)
    ensures Replay(s, []) == s
    ensures var a, b := Replay(s, cmds), Replay(s, cmds + [c]);
      FieldIs(b, id, f, v)
      <==>
      if c.id != id then FieldIs(a, id, f, v)
      else match c
        case HMSet(_, fields) => if f in fields then v == fields[f] else FieldIs(a, id, f, v)
        case HDel(_, names) => f !in names && FieldIs(a, id, f, v)
        case Del(_) => false
    ensures c.id in Replay(s, cmds + [c]) ==> Replay(s, cmds + [c])[c.id] != map[]
  {
    ReplayPush(s, cmds, c);
    assert Replay(s, []) == s;
    hide Replay;
    var a := Replay(s, cmds);
    var r := RowOf(a, c.id);
    if c.HMSet? && f in c.fields { assert f in r + c.fields && Written(c, r) != map[]; }
    if f in Written(c, r) { assert Written(c, r) != map[]; }
  }

  lemma PutRow(s: Store, id: RowId, r: Row)
    ensures RowOf(Put(s, id, r), id) == r && forall x :: x != id ==> RowOf(Put(s, id, r), x) == RowOf(s, x)
    ensures Stored(s) ==> Stored(Put(s, id, r))
  {
  }

  lemma SameRows(s: Store, t: Store)
    requires Stored(s) && Stored(t) && forall id :: RowOf(s, id) == RowOf(t, id)
    ensures s == t
  {
    forall id ensures id in s <==> id in t { assert RowOf(s, id) == RowOf(t, id); }
    forall id | id in s ensures s[id] == t[id] { assert RowOf(s, id) == RowOf(t, id); }
  }

  // The commands SetEntry queues for a stored row
  function SetCmds(id: RowId, stored: Row, fields: Row): seq<Cmd> {
    [HMSet(id, fields)] + if stored.Keys - fields.Keys == {} then [] else [HDel(id, stored.Keys - fields.Keys)]
  }

  // A write without fields deletes
  function WriteCmd(id: RowId, fields: Row): Cmd { if fields == map[] then Del(id) else HMSet(id, fields) }

  lemma WrittenTwo(a: Cmd, b: Cmd, r: Row)
    ensures WrittenAll([], r) == r && WrittenAll([a], r) == Written(a, r)
      && WrittenAll([a, b], r) == Written(b, Written(a, r))
  {
    assert [a][1..] == [] && [a, b][1..] == [b] && [b][1..] == [];
    assert WrittenAll([b], Written(a, r)) == WrittenAll([], Written(b, Written(a, r)));
    assert WrittenAll([a], r) == WrittenAll([], Written(a, r));
  }

  // A row that is set has the given fields and no other
  lemma SetLeaves(id: RowId, stored: Row, fields: Row)
    ensures WrittenAll(SetCmds(id, stored, fields), stored) == fields
    ensures fields == map[] ==> WrittenAll([Del(id)], stored) == fields
  {
    var c, d := HMSet(id, fields), HDel(id, stored.Keys - fields.Keys);
    WrittenTwo(c, d, stored);
    WrittenTwo(Del(id), d, stored);
    assert SetCmds(id, stored, fields) == if stored.Keys - fields.Keys == {} then [c] else [c, d];
    assert stored + fields - (stored.Keys - fields.Keys) == fields;
    if stored.Keys - fields.Keys == {} {
      assert stored.Keys <= fields.Keys;
      assert stored + fields == fields;
    }
  }

  class DB {
    const store: Store
    // What the environment answers to the n-th question of a transaction: whether validation refuses a write, given by
    // its first command, and whether the keys of a table cannot be listed
    const refuses: (nat, Cmd) -> bool
    const keysFail: (nat, string) -> bool
    var txCmds: seq<Cmd>
    var asked: nat

    constructor (store: Store, refuses: (nat, Cmd) -> bool, keysFail: (nat, string) -> bool)
      ensures this.store == store && this.refuses == refuses && this.keysFail == keysFail && txCmds == [] && asked == 0
    {
      this.store, this.refuses, this.keysFail := store, refuses, keysFail;
      txCmds, asked := [], 0;
    }

    ghost predicate Refused(from: nat, to: nat, c: Cmd) { exists n :: from <= n < to && refuses(n, c) }

    ghost predicate KeysFailed(from: nat, to: nat, table: string) { exists n :: from <= n < to && keysFail(n, table) }

    ghost predicate Accepted(from: nat, ids: seq<RowId>) {
      forall i :: 0 <= i < |ids| ==> !refuses(from + i, Del(ids[i]))
    }

    // Reads see the committed store, not the queue
    function GetEntry(id: RowId): Row { RowOf(store, id) }

    // Validation may refuse any write
    method DoCVL(c: Cmd) returns (ok: bool)
      modifies this
      ensures txCmds == old(txCmds) && asked == old(asked) + 1 && (ok <==> !refuses(old(asked), c))
    {
      ok, asked := !refuses(asked, c), asked + 1;
    }

    method DeleteEntry(id: RowId) returns (ok: bool)
      modifies this
      ensures asked == old(asked) + 1 && (ok <==> !refuses(old(asked), Del(id)))
      ensures txCmds == old(txCmds) + if ok then [Del(id)] else []
    {
      ok := DoCVL(Del(id));
      if ok { txCmds := txCmds + [Del(id)]; }
    }

    method ModEntry(id: RowId, fields: Row) returns (ok: bool)
      modifies this
      ensures asked == old(asked) + 1 && (ok <==> !refuses(old(asked), WriteCmd(id, fields)))
      ensures txCmds == old(txCmds) + if ok then [WriteCmd(id, fields)] else []
    {
      if fields == map[] { ok := DeleteEntry(id); return; }
      ok := DoCVL(HMSet(id, fields));
      if ok { txCmds := txCmds + [HMSet(id, fields)]; }
    }

    method CreateEntry(id: RowId, fields: Row) returns (ok: bool)
      modifies this
      ensures asked == old(asked) + 1 && (ok <==> !refuses(old(asked), WriteCmd(id, fields)))
      ensures txCmds == old(txCmds) + if ok then [WriteCmd(id, fields)] else []
    {
      if fields == map[] { ok := DeleteEntry(id); return; }
      ok := DoCVL(HMSet(id, fields));
      if ok { txCmds := txCmds + [HMSet(id, fields)]; }
    }

    // The row behind the commands has these fields and no other
    method SetEntry(id: RowId, fields: Row) returns (ok: bool)
      modifies this
      ensures asked == old(asked) + 1 && (ok <==> !refuses(old(asked), WriteCmd(id, fields)))
      ensures !ok ==> txCmds == old(txCmds)
      ensures ok ==>
        var cmds := if fields == map[] then [Del(id)] else SetCmds(id, RowOf(store, id), fields);
        txCmds == old(txCmds) + cmds && WrittenAll(cmds, RowOf(store, id)) == fields
    {
      SetLeaves(id, RowOf(store, id), fields);
      if fields == map[] { ok := DeleteEntry(id); return; }
      var complement := GetEntry(id).Keys - fields.Keys;
      ok := DoCVL(HMSet(id, fields));
      if ok {
        txCmds := txCmds + [HMSet(id, fields)];
        if complement != {} { txCmds := txCmds + [HDel(id, complement)]; }
      }
    }

    method DeleteEntryFields(id: RowId, names: set<string>) returns (ok: bool)
      modifies this
      ensures asked == old(asked) + 1 && (ok <==> !refuses(old(asked), HDel(id, names)))
      ensures txCmds == old(txCmds) + if ok then [HDel(id, names)] else []
    {
      ok := DoCVL(HDel(id, names));
      if ok { txCmds := txCmds + [HDel(id, names)]; }
    }

    // A refused delete ends the loop but is not reported: the error variable of the loop hides the one returned
    method DeleteTable(table: string) returns (ok: bool, ghost ids: seq<RowId>, ghost complete: bool)
      modifies this
      ensures ok <==> !keysFail(old(asked), table)
      ensures txCmds == old(txCmds) + Dels(ids) && OfTable(store, table, ids) && (!ok ==> ids == [])
      ensures Accepted(old(asked) + 1, ids)
      ensures complete <==> ok && forall id :: id in store && id.table == table ==> id in ids
      ensures asked == old(asked) + 1 + |ids| + if ok && !complete then 1 else 0
      ensures ok && !complete ==>
        exists id :: id in store && id.table == table && id !in ids && refuses(old(asked) + 1 + |ids|, Del(id))
    {
      hide Dels, OfTable;
      DelsNone(store, table);
      ids, complete := [], false;
      ok, asked := !keysFail(asked, table), asked + 1;
      if !ok { return; }
      var keys := set id | id in store && id.table == table;
      while keys != {}
        invariant forall id :: id in keys <==> id in store && id.table == table && id !in ids
        invariant txCmds == old(txCmds) + Dels(ids) && OfTable(store, table, ids)
        invariant asked == old(asked) + 1 + |ids| && Accepted(old(asked) + 1, ids)
      {
        var id :| id in keys;
        var e := DeleteEntry(id);
        if !e { return; }
        DelsPush(store, table, old(txCmds), ids, id);
        keys, ids := keys - {id}, ids + [id];
      }
      complete := true;
    }
  }

  function Dels(ids: seq<RowId>): seq<Cmd> { seq(|ids|, i requires 0 <= i < |ids| => Del(ids[i])) }

  lemma DelsAt(ids: seq<RowId>, i: nat)
    requires i < |ids|
    ensures |Dels(ids)| == |ids| && Dels(ids)[i] == Del(ids[i])
  {
  }

  lemma DelsNone(s: Store, table: string)
    ensures OfTable(s, table, []) && forall cmds: seq<Cmd> :: cmds + Dels([]) == cmds
  {
  }

  lemma DelsPush(s: Store, table: string, cmds: seq<Cmd>, ids: seq<RowId>, id: RowId)
    requires OfTable(s, table, ids) && id in s && id.table == table && id !in ids
    ensures OfTable(s, table, ids + [id]) && cmds + Dels(ids + [id]) == cmds + Dels(ids) + [Del(id)]
  {
    assert Dels(ids + [id]) == Dels(ids) + [Del(id)];
  }

  ghost predicate OfTable(s: Store, table: string, ids: seq<RowId>) {
    (forall i :: 0 <= i < |ids| ==> ids[i] in s && ids[i].table == table) && forall i, j :: 0 <= i < j < |ids| ==>
      ids[i] != ids[j]
  }
}
