// One pass over the tables of a request: the states it goes through, command by command.
module TablePass {
  import opened Wrappers
  import opened DepGraph
  import opened DepTables
  import opened ConfigDb
  import opened RefIntegrity

  // The pass starts at s0 and queues commands behind the first `from` ones; only the rows of the tables all change
  datatype Pass = Pass(sc: Schema, down: bool, s0: Store, store: Store, all: set<string>, from: nat)

  // s1 is an end of the pass
  ghost predicate IsPass(p: Pass, s1: Store) {
    Stored(p.s0) && Stored(s1) && Stored(p.store) && OnlyTables(p.s0, s1, p.all)
  }

  // Some of the tables within are done
  ghost predicate OnTheWay(p: Pass, s1: Store, within: set<string>, s: Store) {
    Stored(s) && exists done, todo ::
      done <= within && Ordered(p.sc, p.down, p.all, done, todo) && Stage(p.s0, s1, done, todo, s)
  }

  // Every state behind the first commands is on the way to s1
  ghost predicate Trace(p: Pass, s1: Store, within: set<string>, cmds: seq<Cmd>) {
    p.from <= |cmds| && forall n :: p.from <= n <= |cmds| ==> OnTheWay(p, s1, within, Replay(p.store, cmds[..n]))
  }

  // The tables done hold the rows of s1, and so does c except for the keys left
  ghost predicate At(p: Pass, s1: Store, done: set<string>, c: string, left: set<string>, s: Store) {
    Stored(s) && forall id: RowId ::
      RowOf(s, id) == RowOf(if id.table in done || (id.table == c && id.key !in left) then s1 else p.s0, id)
  }

  // The queue leads to that point, and its states lead to the store it reaches
  ghost predicate Here(p: Pass, s1: Store, done: set<string>, c: string, left: set<string>, cmds: seq<Cmd>) {
    Trace(p, Replay(p.store, cmds), done, cmds) && At(p, s1, done, c, left, Replay(p.store, cmds))
  }

  ghost predicate Turn(p: Pass, done: set<string>, c: string, todo: set<string>) {
    Ordered(p.sc, p.down, p.all, done, todo) && c in p.all && c !in done && c !in todo && done !! todo
      && done + todo + {c} == p.all
  }

  lemma TurnFacts(p: Pass, done: set<string>, c: string, todo: set<string>)
    requires Turn(p, done, c, todo)
    ensures c !in done && c in p.all
  {
  }

  // ---- another end ----

  lemma WayTrans(a: Row, t: Row, f: Row, r: Row)
    requires OnWay(a, t, f) && OnWay(a, f, r)
    ensures OnWay(a, t, r)
  {
  }

  lemma WayEnds(a: Row, b: Row)
    ensures OnWay(a, b, a) && OnWay(a, b, b)
  {
  }

  // The states on the way to f are on the way to t when f is, and agrees with t on the tables done
  lemma StageTo(p: Pass, f: Store, t: Store, within: set<string>, s: Store)
    requires OnTheWay(p, f, within, s)
    requires forall id :: OnWay(RowOf(p.s0, id), RowOf(t, id), RowOf(f, id))
    requires forall id: RowId :: id.table in within ==> RowOf(f, id) == RowOf(t, id)
    ensures OnTheWay(p, t, within, s)
  {
    hide Ordered, OnWay, RowOf, Stored;
    var done, todo :| done <= within && Ordered(p.sc, p.down, p.all, done, todo) && Stage(p.s0, f, done, todo, s);
    forall id: RowId
      ensures (id.table in done ==> RowOf(s, id) == RowOf(t, id))
        && (id.table in todo ==> RowOf(s, id) == RowOf(p.s0, id))
        && OnWay(RowOf(p.s0, id), RowOf(t, id), RowOf(s, id))
    {
      WayTrans(RowOf(p.s0, id), RowOf(t, id), RowOf(f, id), RowOf(s, id));
    }
    assert Stage(p.s0, t, done, todo, s);
  }

  lemma TraceTo(p: Pass, f: Store, t: Store, within: set<string>, cmds: seq<Cmd>)
    requires Trace(p, f, within, cmds)
    requires forall id :: OnWay(RowOf(p.s0, id), RowOf(t, id), RowOf(f, id))
    requires forall id: RowId :: id.table in within ==> RowOf(f, id) == RowOf(t, id)
    ensures Trace(p, t, within, cmds)
  {
    hide OnTheWay, OnWay, RowOf, Replay;
    forall n | p.from <= n <= |cmds| ensures OnTheWay(p, t, within, Replay(p.store, cmds[..n])) {
      StageTo(p, f, t, within, Replay(p.store, cmds[..n]));
    }
  }

  lemma TraceWithin(p: Pass, s1: Store, within: set<string>, within2: set<string>, cmds: seq<Cmd>)
    requires Trace(p, s1, within, cmds) && within <= within2
    ensures Trace(p, s1, within2, cmds)
  {
    hide Ordered, Stage, Replay;
  }

  // ---- the commands of one row ----

  // The commands keep a row on its way
  ghost predicate RowWay(a: Row, rc: seq<Cmd>) {
    forall k :: 0 <= k <= |rc| ==> OnWay(a, WrittenAll(rc, a), WrittenAll(rc[..k], a))
  }

  // At most one command cannot leave it
  lemma ShortWay(a: Row, rc: seq<Cmd>)
    requires |rc| <= 1
    ensures RowWay(a, rc)
  {
    forall k | 0 <= k <= |rc| ensures OnWay(a, WrittenAll(rc, a), WrittenAll(rc[..k], a)) {
      assert rc[..k] == [] || rc[..k] == rc;
    }
  }

  ghost predicate ForRow(rc: seq<Cmd>, id: RowId) { forall i :: 0 <= i < |rc| ==> rc[i].id == id }

  lemma {:induction false} WrittenPush(rc: seq<Cmd>, c: Cmd, r: Row)
    ensures WrittenAll(rc + [c], r) == Written(c, WrittenAll(rc, r))
  {
    if rc == [] {
      assert (rc + [c])[1..] == [];
    } else {
      assert (rc + [c])[1..] == rc[1..] + [c];
      WrittenPush(rc[1..], c, Written(rc[0], r));
    }
  }

  lemma PutPut(s: Store, id: RowId, a: Row, b: Row)
    ensures Put(Put(s, id, a), id, b) == Put(s, id, b)
  {
  }

  lemma PutSame(s: Store, id: RowId)
    requires Stored(s)
    ensures Put(s, id, RowOf(s, id)) == s && WrittenAll([], RowOf(s, id)) == RowOf(s, id)
  {
  }

  // They write nothing but their row
  lemma {:induction false} RowReplay(store: Store, cmds: seq<Cmd>, id: RowId, rc: seq<Cmd>)
    requires ForRow(rc, id) && Stored(Replay(store, cmds))
    ensures var s := Replay(store, cmds); Replay(store, cmds + rc) == Put(s, id, WrittenAll(rc, RowOf(s, id)))
  {
    var s := Replay(store, cmds);
    var a := RowOf(s, id);
    if rc == [] {
      assert cmds + rc == cmds;
      PutSame(s, id);
    } else {
      var before, x := rc[..|rc| - 1], rc[|rc| - 1];
      assert cmds + rc == cmds + before + [x] && rc == before + [x] && x.id == id;
      hide Replay, WrittenAll, Written;
      RowReplay(store, cmds, id, before);
      ReplayPush(store, cmds + before, x);
      WrittenPush(before, x, a);
      PutRow(s, id, WrittenAll(before, a));
      PutPut(s, id, WrittenAll(before, a), WrittenAll(rc, a));
    }
  }

  lemma LeftRow(p: Pass, s1: Store, done: set<string>, c: string, left: set<string>, s: Store, id: RowId)
    requires At(p, s1, done, c, left, s) && id.table == c && id.key in left && c !in done
    ensures RowOf(s, id) == RowOf(p.s0, id) && Stored(s)
  {
  }

  // The state s with the row of id on its way to b
  lemma MidRow(p: Pass, s1: Store, done: set<string>, c: string, todo: set<string>, left: set<string>, s: Store,
    id: RowId, b: Row, r: Row)
    requires Turn(p, done, c, todo) && At(p, s1, done, c, left, s) && id.table == c && id.key in left
    requires OnWay(RowOf(p.s0, id), b, r)
    ensures OnTheWay(p, Put(s, id, b), done, Put(s, id, r))
  {
    hide Ordered, OnWay;
    PutRow(s, id, r);
    PutRow(s, id, b);
    hide Put, RowOf;
    var t, u := Put(s, id, b), Put(s, id, r);
    forall x: RowId
      ensures (x.table in done ==> RowOf(u, x) == RowOf(t, x)) && (x.table in todo ==> RowOf(u, x) == RowOf(p.s0, x))
        && OnWay(RowOf(p.s0, x), RowOf(t, x), RowOf(u, x))
    {
      WayEnds(RowOf(p.s0, x), RowOf(s, x));
      if x != id { assert RowOf(u, x) == RowOf(s, x) == RowOf(t, x); }
    }
    assert Stage(p.s0, t, done, todo, u);
  }

  // The row that is written changes the end the states lead to
  lemma Onward(p: Pass, s1: Store, done: set<string>, c: string, left: set<string>, cmds: seq<Cmd>, id: RowId, b: Row)
    requires Here(p, s1, done, c, left, cmds) && id.table == c && id.key in left && c !in done
    ensures Trace(p, Put(Replay(p.store, cmds), id, b), done, cmds)
  {
    hide Trace, At, Replay, OnWay;
    var s := Replay(p.store, cmds);
    LeftRow(p, s1, done, c, left, s, id);
    PutRow(s, id, b);
    var t := Put(s, id, b);
    hide Put, RowOf;
    forall x ensures OnWay(RowOf(p.s0, x), RowOf(t, x), RowOf(s, x)) {
      if x == id { WayEnds(RowOf(p.s0, id), b); } else { WayEnds(RowOf(p.s0, x), RowOf(s, x)); }
    }
    TraceTo(p, s, t, done, cmds);
  }

  // The states of a row's commands lead to the store behind them
  lemma RowTrace(p: Pass, s1: Store, done: set<string>, c: string, todo: set<string>, left: set<string>,
    cmds: seq<Cmd>, id: RowId, rc: seq<Cmd>)
    requires Turn(p, done, c, todo) && Here(p, s1, done, c, left, cmds)
    requires id.table == c && id.key in left && ForRow(rc, id) && RowWay(RowOf(p.s0, id), rc)
    ensures Trace(p, Replay(p.store, cmds + rc), done, cmds + rc)
    ensures Replay(p.store, cmds + rc) == Put(Replay(p.store, cmds), id, WrittenAll(rc, RowOf(p.s0, id)))
  {
    hide Turn, At, RowWay, Replay, WrittenAll, OnWay, OnTheWay, Put, RowOf;
    var s, a := Replay(p.store, cmds), RowOf(p.s0, id);
    TurnFacts(p, done, c, todo);
    LeftRow(p, s1, done, c, left, s, id);
    RowReplay(p.store, cmds, id, rc);
    Onward(p, s1, done, c, left, cmds, id, WrittenAll(rc, a));
    var t := Replay(p.store, cmds + rc);
    forall n | p.from <= n <= |cmds + rc| ensures OnTheWay(p, t, done, Replay(p.store, (cmds + rc)[..n])) {
      if n <= |cmds| {
        assert (cmds + rc)[..n] == cmds[..n];
      } else {
        var k := n - |cmds|;
        assert (cmds + rc)[..n] == cmds + rc[..k];
        RowReplay(p.store, cmds, id, rc[..k]);
        OnRowWay(a, rc, k);
        MidRow(p, s1, done, c, todo, left, s, id, WrittenAll(rc, a), WrittenAll(rc[..k], a));
      }
    }
  }

  lemma OnRowWay(a: Row, rc: seq<Cmd>, k: nat)
    requires RowWay(a, rc) && k <= |rc|
    ensures OnWay(a, WrittenAll(rc, a), WrittenAll(rc[..k], a))
  {
  }

  lemma NextRow(p: Pass, s1: Store, done: set<string>, c: string, left: set<string>, s: Store, id: RowId)
    requires At(p, s1, done, c, left, s) && id.table == c && c !in done
    ensures At(p, s1, done, c, left - {id.key}, Put(s, id, RowOf(s1, id)))
  {
    PutRow(s, id, RowOf(s1, id));
    hide Put, RowOf;
    forall x: RowId | x.table == c && x.key == id.key ensures x == id {}
  }

  // All commands of a row
  lemma RowDone(p: Pass, s1: Store, done: set<string>, c: string, todo: set<string>, left: set<string>,
    cmds: seq<Cmd>, id: RowId, rc: seq<Cmd>)
    requires Turn(p, done, c, todo) && Here(p, s1, done, c, left, cmds)
    requires id.table == c && id.key in left && ForRow(rc, id) && RowWay(RowOf(p.s0, id), rc)
    requires WrittenAll(rc, RowOf(p.s0, id)) == RowOf(s1, id)
    ensures Here(p, s1, done, c, left - {id.key}, cmds + rc)
  {
    hide Trace, At, RowWay, Replay, WrittenAll, ForRow, Put, RowOf;
    RowTrace(p, s1, done, c, todo, left, cmds, id, rc);
    NextRow(p, s1, done, c, left, Replay(p.store, cmds), id);
  }

  // Some commands of a row, and no more of the pass: the states lead to s1 all the same
  lemma RowPart(p: Pass, s1: Store, done: set<string>, c: string, todo: set<string>, left: set<string>,
    cmds: seq<Cmd>, id: RowId, rc: seq<Cmd>)
    requires Turn(p, done, c, todo) && Here(p, s1, done, c, left, cmds)
    requires id.table == c && id.key in left && ForRow(rc, id) && RowWay(RowOf(p.s0, id), rc)
    requires OnWay(RowOf(p.s0, id), RowOf(s1, id), WrittenAll(rc, RowOf(p.s0, id)))
    ensures Trace(p, s1, p.all, cmds + rc)
  {
    hide Trace, RowWay, Replay, WrittenAll, ForRow, OnWay;
    RowTrace(p, s1, done, c, todo, left, cmds, id, rc);
    var s, f := Replay(p.store, cmds), Replay(p.store, cmds + rc);
    PutRow(s, id, WrittenAll(rc, RowOf(p.s0, id)));
    hide Put, RowOf;
    forall x ensures OnWay(RowOf(p.s0, x), RowOf(s1, x), RowOf(f, x)) { WayEnds(RowOf(p.s0, x), RowOf(s1, x)); }
    TraceTo(p, f, s1, done, cmds + rc);
    TraceWithin(p, s1, done, p.all, cmds + rc);
  }

  // The pass ends here: no further row is written
  lemma Halted(p: Pass, s1: Store, done: set<string>, c: string, left: set<string>, cmds: seq<Cmd>)
    requires Here(p, s1, done, c, left, cmds) && done <= p.all
    ensures Trace(p, s1, p.all, cmds)
  {
    hide Trace, Replay, OnWay, RowOf;
    var f := Replay(p.store, cmds);
    forall x ensures OnWay(RowOf(p.s0, x), RowOf(s1, x), RowOf(f, x)) { WayEnds(RowOf(p.s0, x), RowOf(s1, x)); }
    TraceTo(p, f, s1, done, cmds);
    TraceWithin(p, s1, done, p.all, cmds);
  }

  // A row that is still left gets another end
  lemma NewEnd(p: Pass, s1: Store, s2: Store, done: set<string>, c: string, left: set<string>, cmds: seq<Cmd>)
    requires Here(p, s1, done, c, left, cmds)
    requires forall id: RowId :: id.table in done || (id.table == c && id.key !in left) ==>
      RowOf(s2, id) == RowOf(s1, id)
    ensures Here(p, s2, done, c, left, cmds)
  {
    hide Trace, Replay, RowOf;
  }

  // ---- the deletes of a whole table ----

  lemma {:induction false} DelsTrace(p: Pass, s1: Store, done: set<string>, c: string, todo: set<string>,
    left: set<string>, cmds: seq<Cmd>, ids: seq<RowId>)
    requires Turn(p, done, c, todo) && Here(p, s1, done, c, left, cmds)
    requires forall i, j :: 0 <= i < j < |ids| ==> ids[i] != ids[j]
    requires forall i :: 0 <= i < |ids| ==> ids[i].table == c && ids[i].key in left && RowOf(s1, ids[i]) == map[]
    requires forall i :: 0 <= i < |ids| ==> ids[i].table == ids[0].table
    ensures Here(p, s1, done, c, left - KeysOf(ids), cmds + Dels(ids))
    decreases |ids|
  {
    hide Turn, Here, Dels, KeysOf, WrittenAll;
    DelsSplit(cmds, ids, left);
    if ids != [] {
      var id, rest := ids[0], ids[1..];
      DelWay(p, s1, id);
      RowDone(p, s1, done, c, todo, left, cmds, id, [Del(id)]);
      DelsTrace(p, s1, done, c, todo, left - {id.key}, cmds + [Del(id)], rest);
    }
  }

  lemma DelsSplit(cmds: seq<Cmd>, ids: seq<RowId>, left: set<string>)
    requires forall i, j :: 0 <= i < j < |ids| ==> ids[i] != ids[j]
    requires forall i :: 0 <= i < |ids| ==> ids[i].table == ids[0].table
    ensures ids == [] ==> cmds + Dels(ids) == cmds && left - KeysOf(ids) == left
    ensures ids != [] ==>
      cmds + Dels(ids) == cmds + [Del(ids[0])] + Dels(ids[1..])
      && left - KeysOf(ids) == left - {ids[0].key} - KeysOf(ids[1..])
      && forall i :: 0 <= i < |ids[1..]| ==> ids[1..][i] == ids[i + 1] && ids[1..][i].key != ids[0].key
  {
    if ids != [] {
      var rest := ids[1..];
      assert ids == [ids[0]] + rest;
      assert Dels(ids) == [Del(ids[0])] + Dels(rest);
      assert KeysOf(ids) == {ids[0].key} + KeysOf(rest) by {
        forall k | k in KeysOf(ids) ensures k in {ids[0].key} + KeysOf(rest) {
          var i :| 0 <= i < |ids| && ids[i].key == k;
          if i > 0 { assert rest[i - 1].key == k; }
        }
        forall k | k in KeysOf(rest) ensures k in KeysOf(ids) {
          var i :| 0 <= i < |rest| && rest[i].key == k;
          assert ids[i + 1].key == k;
        }
      }
      forall i | 0 <= i < |rest| ensures rest[i] == ids[i + 1] && rest[i].key != ids[0].key {
        assert ids[0] != ids[i + 1];
      }
    }
  }

  function KeysOf(ids: seq<RowId>): set<string> { set i | 0 <= i < |ids| :: ids[i].key }

  lemma DelWay(p: Pass, s1: Store, id: RowId)
    requires RowOf(s1, id) == map[]
    ensures ForRow([Del(id)], id) && WrittenAll([Del(id)], RowOf(p.s0, id)) == RowOf(s1, id)
    ensures RowWay(RowOf(p.s0, id), [Del(id)])
  {
    assert [Del(id)][1..] == [];
    ShortWay(RowOf(p.s0, id), [Del(id)]);
  }

  // ---- the pass from table to table ----

  // Between two tables
  ghost predicate AtTables(p: Pass, s1: Store, done: set<string>, cmds: seq<Cmd>) {
    var s := Replay(p.store, cmds);
    Trace(p, s, done, cmds) && Stored(s)
    && forall id: RowId :: RowOf(s, id) == RowOf(if id.table in done then s1 else p.s0, id)
  }

  lemma PassStart(p: Pass, s1: Store, cmds: seq<Cmd>)
    requires |cmds| == p.from && Replay(p.store, cmds) == p.s0 && Stored(p.s0)
    requires Ordered(p.sc, p.down, p.all, {}, p.all)
    ensures AtTables(p, s1, {}, cmds)
  {
    assert cmds[..|cmds|] == cmds;
    hide Ordered, Replay;
    assert Stage(p.s0, p.s0, {}, p.all, p.s0);
  }

  lemma TraceStart(p: Pass, s1: Store, cmds: seq<Cmd>)
    requires |cmds| == p.from && Replay(p.store, cmds) == p.s0 && Stored(p.s0)
    requires Ordered(p.sc, p.down, p.all, {}, p.all)
    ensures Trace(p, s1, p.all, cmds)
  {
    hide Ordered, Replay, RowOf, OnWay;
    forall id: RowId ensures OnWay(RowOf(p.s0, id), RowOf(s1, id), RowOf(p.s0, id)) {
      WayEnds(RowOf(p.s0, id), RowOf(s1, id));
    }
    assert Stage(p.s0, s1, {}, p.all, p.s0);
    hide Stage;
    assert OnTheWay(p, s1, p.all, p.s0);
    assert cmds[..|cmds|] == cmds;
  }

  // left names the keys of the next table that will change
  lemma TableStart(p: Pass, s1: Store, done: set<string>, c: string, left: set<string>, cmds: seq<Cmd>)
    requires AtTables(p, s1, done, cmds) && c !in done
    requires forall id: RowId :: id.table == c && id.key !in left ==> RowOf(p.s0, id) == RowOf(s1, id)
    ensures Here(p, s1, done, c, left, cmds)
  {
    hide RowOf, Trace, Replay;
  }

  lemma TableEnd(p: Pass, s1: Store, done: set<string>, c: string, left: set<string>, cmds: seq<Cmd>)
    requires Here(p, s1, done, c, left, cmds)
    requires forall id: RowId :: id.table == c && id.key in left ==> RowOf(p.s0, id) == RowOf(s1, id)
    ensures AtTables(p, s1, done + {c}, cmds)
  {
    hide RowOf, Trace, Replay;
    TraceWithin(p, Replay(p.store, cmds), done, done + {c}, cmds);
  }

  lemma PassEnd(p: Pass, s1: Store, cmds: seq<Cmd>)
    requires IsPass(p, s1) && AtTables(p, s1, p.all, cmds)
    ensures Replay(p.store, cmds) == s1 && Trace(p, s1, p.all, cmds)
  {
    hide Replay, Trace;
    SameRows(Replay(p.store, cmds), s1);
  }

  // ---- where the pass stands in the dependency order ----

  // The tables done when the i-th has its turn: down the order child first, or up
  ghost function DoneAt(p: Pass, order: seq<string>, i: nat): set<string>
    requires i < |order|
  {
    if p.down then Elems(order[..i]) else Elems(order[i + 1..])
  }

  ghost function TodoAt(p: Pass, order: seq<string>, i: nat): set<string>
    requires i < |order|
  {
    if p.down then Elems(order[i + 1..]) else Elems(order[..i])
  }

  lemma WholeOrder(p: Pass, order: seq<string>)
    requires Elems(order) == p.all
    ensures Elems(order[..0]) == {} == Elems(order[|order|..])
    ensures Elems(order[..|order|]) == p.all && Elems(order[0..]) == p.all
  {
    assert order[..|order|] == order && order[0..] == order;
  }

  lemma TurnAt(p: Pass, order: seq<string>, i: nat)
    requires OneList(p.sc) && DepOrder(p.sc, p.all, order) && i < |order|
    ensures order[i] in p.all && Turn(p, DoneAt(p, order, i), order[i], TodoAt(p, order, i))
    ensures Elems(order[..i + 1]) == Elems(order[..i]) + {order[i]}
      && Elems(order[i..]) == Elems(order[i + 1..]) + {order[i]}
  {
    hide OneList, Ordered, DepEdge;
    OrderDown(p.sc, p.all, order, i, i + 1);
    assert order[i] in Elems(order);
    Located(order, i, i);
    Located(order, i, i + 1);
    forall x | x in p.all
      ensures (x in order[..i] || x == order[i] || x in order[i + 1..]) && (x in order[..i] ==> x !in order[i + 1..])
      ensures (x in order[..i + 1] <==> x in order[..i] || x == order[i])
        && (x in order[i..] <==> x in order[i + 1..] || x == order[i])
    {
      assert x in Elems(order);
      var k :| 0 <= k < |order| && order[k] == x;
      Located(order, k, i);
      Located(order, k, i + 1);
    }
    assert forall x :: x in order[..i] || x in order[i + 1..] || x in order[..i + 1] || x in order[i..] ==>
      x in Elems(order);
  }

  // No state of a pass between two such ends has a dangling reference
  lemma PassSafe(p: Pass, s1: Store, cmds: seq<Cmd>, n: nat)
    requires IsPass(p, s1) && Trace(p, s1, p.all, cmds) && p.from <= n <= |cmds|
    requires Covered(p.sc, Narrow(p.down, p.s0, s1), Wide(p.down, p.s0, s1))
    ensures NoDangling(p.sc, Replay(p.store, cmds[..n]))
  {
    var s := Replay(p.store, cmds[..n]);
    assert OnTheWay(p, s1, p.all, s);
    hide NoDangling, Ordered, Stage, Replay, Covered;
    var done, todo :| done <= p.all && Ordered(p.sc, p.down, p.all, done, todo) && Stage(p.s0, s1, done, todo, s);
    StageSafe(p.sc, p.down, p.s0, s1, p.all, done, todo, s);
  }
}
