// What one request leaves of a row: the meaning of the commands queued for it.
module RowMeaning {
  import opened Wrappers
  import opened Text
  import opened DepTables
  import opened ConfigDb
  import opened LeafList
  import opened RowPlan

  // The row after the commands of an operation
  function RowAfter(op: Opcode, id: RowId, stored: Row, fields: Row): Row {
    WrittenAll(RowCmds(op, id, stored, fields), stored)
  }

  // The request names nothing but leaf-lists without items, and the row holds none of their items
  predicate NothingNew(stored: Row, w: Row) { forall f :: f in w ==> IsList(f) && w[f] == "" && List(stored, f) == [] }

  lemma ItemsNone(value: string)
    ensures Items(value) == [] <==> value == ""
  {
    JoinSplit(value, ',');
  }

  lemma NothingNewIff(stored: Row, w: Row)
    ensures UpdateFields(stored, w) == map[] <==> NothingNew(stored, w)
  {
    forall f | f in w ensures f !in UpdateFields(stored, w) <==> IsList(f) && w[f] == "" && List(stored, f) == [] {
      var e, v := List(stored, f), Items(w[f]);
      ItemsNone(w[f]);
      UnionMeaning(e, v);
      if e != [] { assert e[0] in Union(e, v); }
    }
    if UpdateFields(stored, w) != map[] { var f :| f in UpdateFields(stored, w); }
  }

  // An update that brings nothing new deletes the row
  lemma UpdateLeaves(id: RowId, stored: Row, fields: Row)
    ensures var r, w := RowAfter(UPDATE, id, stored, fields), WithNull(fields);
      r == if stored == map[] then w else if NothingNew(stored, w) then map[] else stored + UpdateFields(stored, w)
  {
    var w := WithNull(fields);
    NothingNewIff(stored, w);
    hide UpdateFields, WithNull, NothingNew;
    WrittenTwo(Del(id), Del(id), stored);
    WrittenTwo(HMSet(id, w), Del(id), stored);
    WrittenTwo(HMSet(id, UpdateFields(stored, w)), Del(id), stored);
    if stored == map[] { assert stored + w == w; }
  }

  // ---- the placeholder ----

  // r holds what the request asks for and nothing else: of no fields the placeholder, which otherwise is there only
  // when it is the one field of the request
  ghost predicate HoldsRequest(r: Row, fields: Row) {
    if fields == map[] then r == map["NULL" := "NULL"]
    else
      (forall f :: f != "NULL" ==> (f in r <==> f in fields) && (f in fields ==> f in r && r[f] == fields[f]))
      && ("NULL" in r <==> fields.Keys == {"NULL"}) && ("NULL" in r ==> r["NULL"] == fields["NULL"])
  }

  lemma OneField(fields: Row)
    requires fields != map[] && "NULL" in fields
    ensures fields.Keys == {"NULL"} <==> |fields| <= 1
  {
    assert |fields| == |fields.Keys| && fields.Keys == {"NULL"} + (fields.Keys - {"NULL"});
    if fields.Keys == {"NULL"} { assert |fields.Keys| == 1; }
  }

  lemma WithNullHolds(fields: Row)
    ensures HoldsRequest(WithNull(fields), fields)
  {
    if "NULL" in fields { OneField(fields); }
    if fields != map[] && fields.Keys == {"NULL"} { assert "NULL" in fields; }
  }

  // A new row, and one that is replaced, hold the request
  lemma NewRowMeaning(op: Opcode, id: RowId, fields: Row)
    requires op != DELETE
    ensures HoldsRequest(RowAfter(op, id, map[], fields), fields)
  {
    WithNullHolds(fields);
    hide WithNull, HoldsRequest;
    var w := WithNull(fields);
    WrittenTwo(HMSet(id, w), Del(id), map[]);
    assert map[] + w == w;
  }

  lemma ReplacedRowMeaning(id: RowId, stored: Row, fields: Row)
    ensures HoldsRequest(RowAfter(REPLACE, id, stored, fields), fields)
  {
    WithNullHolds(fields);
    hide WithNull, HoldsRequest, RowAfter;
    WholeRow(REPLACE, id, stored, fields);
  }

  // The fields of a request that an update looks at
  ghost predicate Asked(fields: Row, f: string) {
    if fields == map[] then f == "NULL" else f in fields && (f == "NULL" ==> fields.Keys == {"NULL"})
  }

  function AskedValue(fields: Row, f: string): string { if f in fields then fields[f] else "NULL" }

  lemma AskedFields(fields: Row)
    ensures forall f :: Asked(fields, f) <==> f in WithNull(fields)
    ensures forall f :: Asked(fields, f) ==> WithNull(fields)[f] == AskedValue(fields, f)
  {
    WithNullHolds(fields);
    hide WithNull;
  }

  // The request names nothing but leaf-lists without items, and the row holds none of their items
  ghost predicate BringsNothing(stored: Row, fields: Row) {
    forall f :: Asked(fields, f) ==> IsList(f) && AskedValue(fields, f) == "" && List(stored, f) == []
  }

  lemma BringsNothingIs(stored: Row, fields: Row)
    ensures NothingNew(stored, WithNull(fields)) <==> BringsNothing(stored, fields)
  {
    AskedFields(fields);
    hide WithNull, Asked, AskedValue, List, IsList;
  }

  // UPDATE of a stored row that brings something new: a list keeps its items in front of those it lacked; other fields
  // take the value of the request; what the request does not name stays
  lemma UpdateMeaning(id: RowId, stored: Row, fields: Row, f: string)
    requires stored != map[]
    ensures var r := RowAfter(UPDATE, id, stored, fields);
      if BringsNothing(stored, fields) then r == map[]
      else if !Asked(fields, f) then (f in r <==> f in stored) && (f in r ==> r[f] == stored[f])
      else if !IsList(f) then f in r && r[f] == AskedValue(fields, f)
      else
        var e, v := List(stored, f), Items(AskedValue(fields, f));
        e <= List(r, f) && (forall x :: x in List(r, f) <==> x in e || x in v) && List(r, f) == UpdatedList(e, v)
        && (e == [] ==> List(r, f) == v) && (e != [] && Distinct(v) ==> List(r, f) == e + Minus(v, e))
  {
    if Distinct(Items(AskedValue(fields, f))) { UnionOrder(List(stored, f), Items(AskedValue(fields, f))); }
    BringsNothingIs(stored, fields);
    AskedFields(fields);
    hide WithNull, Asked, AskedValue, BringsNothing, NothingNew, RowAfter;
    UpdateLeaves(id, stored, fields);
    UpdatedFields(stored, WithNull(fields), f);
  }

  // The same update again changes nothing exactly when it brings something new to the row it finds first, or to the row
  // it creates
  lemma UpdateTwice(id: RowId, stored: Row, fields: Row)
    ensures var r := RowAfter(UPDATE, id, stored, fields);
      RowAfter(UPDATE, id, r, fields) == r <==> !BringsNothing(if stored == map[] then r else stored, fields)
  {
    BringsNothingIs(stored, fields);
    WithNullSome(fields);
    var r, w := RowAfter(UPDATE, id, stored, fields), WithNull(fields);
    BringsNothingIs(r, fields);
    hide RowAfter, WithNull, BringsNothing;
    UpdateLeaves(id, stored, fields);
    UpdateLeaves(id, r, fields);
    if stored == map[] {
      SameAgain(w);
    } else if !NothingNew(stored, w) {
      NewAgain(stored, w);
      FieldsTwice(stored, w);
    }
  }

  lemma SameAgain(w: Row)
    ensures w + UpdateFields(w, w) == w
  {
    forall f | f in UpdateFields(w, w) ensures UpdateFields(w, w)[f] == w[f] {
      if IsList(f) {
        var v := Items(w[f]);
        UnionOfPart(v, v);
        JoinSplit(w[f], ',');
      }
    }
  }

  // The second time the row holds the items
  lemma NewAgain(stored: Row, w: Row)
    requires stored != map[] && !NothingNew(stored, w)
    ensures var r := stored + UpdateFields(stored, w); r != map[] && !NothingNew(r, w)
  {
    var r := stored + UpdateFields(stored, w);
    var g :| g in stored;
    assert g in r;
    var f :| f in w && !(IsList(f) && w[f] == "" && List(stored, f) == []);
    UpdatedFields(stored, w, f);
    ItemsNone(w[f]);
    if IsList(f) && w[f] == "" { assert List(stored, f)[0] in List(r, f); }
  }

  // A row deleted by an update, and the row that comes of the same update once more
  lemma UpdateEmpties(id: RowId)
    ensures var stored: Row, fields: Row := map["n" := "1"], map["l@" := ""];
      RowAfter(UPDATE, id, stored, fields) == map[] && RowAfter(UPDATE, id, map[], fields) == fields
      && RowAfter(UPDATE, id, fields, fields) == map[]
  {
    var stored: Row, fields: Row := map["n" := "1"], map["l@" := ""];
    assert "n" in stored && "l@" in fields && stored != map[] && fields != map[];
    assert |fields| == 1;
    assert WithNull(fields) == fields;
    assert "l@"[1..] == "@" && IsList("l@");
    assert "l@" !in stored by { assert |"l@"| != |"n"|; }
    assert NothingNew(stored, fields) && NothingNew(fields, fields);
    hide RowAfter, WithNull, NothingNew;
    UpdateLeaves(id, stored, fields);
    UpdateLeaves(id, map[], fields);
    UpdateLeaves(id, fields, fields);
  }

  // CREATE and REPLACE: the row holds the fields of the request and no others; a stored row is not created again
  lemma WholeRow(op: Opcode, id: RowId, stored: Row, fields: Row)
    requires op == CREATE || op == REPLACE
    ensures RowAfter(op, id, stored, fields) == if op == CREATE && stored != map[] then stored else WithNull(fields)
  {
    hide WithNull, SetCmds;
    var w := WithNull(fields);
    SetLeaves(id, stored, w);
    WrittenTwo(HMSet(id, w), Del(id), stored);
    if stored == map[] { assert stored + w == w; }
  }

  lemma DeleteLeaves(id: RowId, stored: Row, fields: Row)
    ensures RowAfter(DELETE, id, stored, fields) == if fields == map[] || stored == map[] then map[]
      else DeletedRow(stored, fields)
  {
    hide DeleteWrites, DeleteNames;
    var writes, names := DeleteWrites(stored, fields), DeleteNames(stored, fields);
    var c, d := HMSet(id, writes), HDel(id, names);
    WrittenTwo(Del(id), d, stored);
    WrittenTwo(c, d, stored);
    WrittenTwo(d, c, stored);
    assert stored + map[] == stored && stored - {} == stored && stored + writes - {} == stored + writes;
    if fields != map[] && stored != map[] {
      assert RowCmds(DELETE, id, stored, fields) == (if writes == map[] then [] else [c]) + if names == {} then []
        else [d];
      assert [] + [d] == [d] && [c] + [d] == [c, d] && [c] + [] == [c];
      if names == {} { assert stored + writes - names == stored + writes; }
      if writes == map[] { assert stored + writes == stored; }
    }
  }

  // DELETE of fields: an item goes for each one asked for, and a list without items goes; other fields go; what the
  // request does not name stays. Only a list left with one empty item is not read back.
  lemma DeleteMeaning(id: RowId, stored: Row, fields: Row, f: string)
    requires fields != map[]
    ensures var r, e := RowAfter(DELETE, id, stored, fields), List(stored, f);
      if f !in fields then (f in r <==> f in stored) && (f in r ==> r[f] == stored[f])
      else
        var v := Items(fields[f]);
        if IsList(f) && v != [] && Without(e, v) != [] then Remaining(e, v, Without(e, v)) && Holds(r, f, Without(e, v))
        else f !in r
  {
    DeleteLeaves(id, stored, fields);
    DeletedFields(stored, fields, f);
    hide RowAfter, DeletedRow, Without, Split;
    if f in fields {
      var e, v := List(stored, f), Items(fields[f]);
      RemainingItems(stored, f, v);
      if e == [] { WithoutNone(v); }
    }
  }

  // u is what stays of the list e when an item goes for each one of v
  ghost predicate Remaining(e: seq<string>, v: seq<string>, u: seq<string>) {
    multiset(u) == multiset(e) - multiset(v) && (Distinct(e) ==> u == Minus(e, v))
  }

  ghost predicate Holds(r: Row, f: string, u: seq<string>) {
    f in r && r[f] == Join(u, ',') && (u != [""] ==> List(r, f) == u)
  }

  lemma {:induction false} WithoutNone(v: seq<string>)
    ensures Without([], v) == []
    decreases |v|
  {
    if v != [] { WithoutNone(v[1..]); }
  }

  lemma RemainingItems(stored: Row, f: string, v: seq<string>)
    ensures var e := List(stored, f); var u := Without(e, v);
      Remaining(e, v, u) && (u != [] && u != [""] ==> Items(Join(u, ',')) == u)
  {
    hide Without, Minus;
    var e := List(stored, f);
    var u := Without(e, v);
    WithoutCounts(e, v);
    if Distinct(e) { WithoutIsMinus(e, v); }
    if f in stored { ItemsShape(stored[f]); }
    forall i | 0 <= i < |u| ensures ',' !in u[i] { assert u[i] in multiset(u); assert u[i] in multiset(e); }
    if u != [] && u != [""] { ListJoin(u); }
  }

  // A list of the row is left with nothing but one empty item
  ghost predicate EmptyItemLeft(stored: Row, fields: Row) {
    exists f :: f in fields && IsList(f) && fields[f] != "" && Minus(List(stored, f), Items(fields[f])) == [""]
  }

  // On lists without duplicates, the same delete again changes nothing, unless a list is left with one empty item: it
  // reads as no list, and the second delete drops the field
  lemma DeleteTwice(id: RowId, stored: Row, fields: Row)
    requires forall f :: f in fields && IsList(f) ==> Distinct(List(stored, f))
    ensures var r := RowAfter(DELETE, id, stored, fields);
      RowAfter(DELETE, id, r, fields) == r <==> !EmptyItemLeft(stored, fields)
  {
    hide RowAfter, Without, Minus, Split, Join;
    var r := RowAfter(DELETE, id, stored, fields);
    var r2 := RowAfter(DELETE, id, r, fields);
    DeleteLeaves(id, stored, fields);
    DeleteLeaves(id, r, fields);
    if fields != map[] {
      if EmptyItemLeft(stored, fields) {
        var f :| f in fields && IsList(f) && fields[f] != "" && Minus(List(stored, f), Items(fields[f])) == [""];
        FieldAgain(id, stored, fields, f);
      } else {
        forall f ensures (f in r2 <==> f in r) && (f in r ==> r2[f] == r[f]) { FieldAgain(id, stored, fields, f); }
      }
    }
  }

  lemma FieldAgain(id: RowId, stored: Row, fields: Row, f: string)
    requires fields != map[] && (f in fields && IsList(f) ==> Distinct(List(stored, f)))
    ensures var r := RowAfter(DELETE, id, stored, fields); var r2 := RowAfter(DELETE, id, r, fields);
      if f in fields && IsList(f) && fields[f] != ""
        && Minus(List(stored, f), Items(fields[f])) == [""] then f in r && f !in r2
      else (f in r2 <==> f in r) && (f in r ==> r2[f] == r[f])
  {
    hide RowAfter, Without, Minus, Split;
    var r := RowAfter(DELETE, id, stored, fields);
    DeleteMeaning(id, stored, fields, f);
    DeleteMeaning(id, r, fields, f);
    if f in fields && IsList(f) {
      var e, v := List(stored, f), Items(fields[f]);
      ItemsNone(fields[f]);
      WithoutIsMinus(e, v);
      MinusAgain(e, v);
      if f in r && Minus(e, v) == [""] {
        assert Join([""], ',') == "";
        WithoutNone(v);
      } else if f in r {
        WithoutIsMinus(List(r, f), v);
      }
    }
  }

  lemma {:induction false} MinusAgain(e: seq<string>, v: seq<string>)
    requires Distinct(e)
    ensures Distinct(Minus(e, v)) && Minus(Minus(e, v), v) == Minus(e, v)
    ensures forall x :: x in Minus(e, v) ==> x in e && x !in v
  {
    if e != [] {
      var t := e[1..];
      MinusAgain(t, v);
      assert e[0] !in t;
      if e[0] in v {
        assert Minus(e, v) == Minus(t, v);
      } else {
        Prepended(e[0], Minus(t, v));
        assert ([e[0]] + Minus(t, v))[1..] == Minus(t, v);
      }
    }
  }

  // A delete undoes an update by the same fields: it leaves what the delete alone would have left
  lemma DeleteAfterUpdate(id: RowId, stored: Row, fields: Row)
    requires forall f :: f in fields && IsList(f) ==> Distinct(List(stored, f))
    ensures var r := RowAfter(UPDATE, id, stored, fields);
      RowAfter(DELETE, id, r, fields)
        == if stored != map[] && BringsNothing(stored, fields) then map[]
          else RowAfter(DELETE, id, stored, fields)
  {
    BringsNothingIs(stored, fields);
    hide RowAfter, WithNull, NothingNew, BringsNothing;
    var r := RowAfter(UPDATE, id, stored, fields);
    UpdateLeaves(id, stored, fields);
    DeleteLeaves(id, r, fields);
    DeleteLeaves(id, stored, fields);
    if fields != map[] && r != map[] {
      var a, b := RowAfter(DELETE, id, r, fields), RowAfter(DELETE, id, stored, fields);
      hide DeletedRow, UpdateFields;
      forall f ensures (f in a <==> f in b) && (f in a ==> a[f] == b[f]) { UndoneField(id, stored, fields, f); }
    }
  }

  lemma UndoneField(id: RowId, stored: Row, fields: Row, f: string)
    requires fields != map[] && (stored == map[] || !BringsNothing(stored, fields))
    requires f in fields && IsList(f) ==> Distinct(List(stored, f))
    ensures var r := RowAfter(UPDATE, id, stored, fields);
      var a, b := RowAfter(DELETE, id, r, fields), RowAfter(DELETE, id, stored, fields);
      (f in a <==> f in b) && (f in a ==> a[f] == b[f])
  {
    hide RowAfter, Without, Minus, Split, NothingNew, BringsNothing;
    var r := RowAfter(UPDATE, id, stored, fields);
    if stored == map[] { UpdateLeaves(id, stored, fields); } else { UpdateMeaning(id, stored, fields, f); }
    DeleteMeaning(id, stored, fields, f);
    DeleteMeaning(id, r, fields, f);
    AskedFields(fields);
    hide WithNull;
    if f in fields && IsList(f) {
      var e, v := List(stored, f), Items(fields[f]);
      UnionMeaning(e, v);
      UnionMinus(e, v, v);
      if e == [] {
        WithoutNone(v);
        WithoutSelf(v);
      } else {
        WithoutIsMinus(e, v);
        WithoutIsMinus(Union(e, v), v);
      }
    }
  }

  lemma WithoutSelf(v: seq<string>)
    ensures Without(v, v) == []
  {
    WithoutCounts(v, v);
    assert |multiset(Without(v, v))| == 0;
  }

  lemma {:induction false} UnionMinus(e: seq<string>, v: seq<string>, w: seq<string>)
    requires forall x :: x in v ==> x in w
    ensures Minus(Union(e, v), w) == Minus(e, w)
    decreases |v|
  {
    if v != [] {
      MinusPush(e, v[0], w);
      UnionMinus(if v[0] in e then e else e + [v[0]], v[1..], w);
    }
  }

  lemma {:induction false} MinusPush(e: seq<string>, x: string, w: seq<string>)
    requires x in w
    ensures Minus(e + [x], w) == Minus(e, w)
  {
    if e == [] {
      assert (e + [x])[1..] == [];
    } else {
      assert (e + [x])[1..] == e[1..] + [x];
      MinusPush(e[1..], x, w);
    }
  }

  // ---- in terms of a request ----

  // What each operation plans for a row, when nothing is queued yet
  lemma PlannedMeaning(sc: Schema, op: Opcode, req: Request, store: Store, id: RowId)
    ensures var r := RowOf(Planned(sc, op, req, store, store), id);
      if id.table !in sc || id.table !in req then r == RowOf(store, id)
      else if op == DELETE && req[id.table] == map[] then r == map[]
      else if id.key !in req[id.table] then r == RowOf(store, id)
      else r == RowAfter(op, id, RowOf(store, id), req[id.table][id.key])
  {
    PlannedRow(sc, op, req, store, store, id);
    hide Planned, WrittenAll, RowCmds;
  }

  // What an operation plans over the queue of those before it: it writes what it works out from the stored row
  lemma PlannedOver(sc: Schema, op: Opcode, req: Request, store: Store, cur: Store, id: RowId, f: string)
    requires op != DELETE && id.table in sc && id.table in req && id.key in req[id.table] && id !in store
    requires Asked(req[id.table][id.key], f)
    ensures var r := RowOf(Planned(sc, op, req, store, cur), id); f in r && r[f] == AskedValue(req[id.table][id.key], f)
  {
    PlannedRow(sc, op, req, store, cur, id);
    AskedFields(req[id.table][id.key]);
    hide Planned, WithNull, Asked;
    var w := WithNull(req[id.table][id.key]);
    WrittenTwo(HMSet(id, w), Del(id), RowOf(cur, id));
  }

  lemma ReplacedOver(sc: Schema, req: Request, store: Store, cur: Store, id: RowId, f: string)
    requires id.table in sc && id.table in req && id.key in req[id.table] && RowOf(store, id) != map[]
    ensures var r, fields := RowOf(Planned(sc, REPLACE, req, store, cur), id), req[id.table][id.key];
      if Asked(fields, f) then f in r && r[f] == AskedValue(fields, f)
      else (f in r <==> f in RowOf(cur, id) && f !in store[id]) && (f in r ==> r[f] == RowOf(cur, id)[f])
  {
    var fields := req[id.table][id.key];
    PlannedRow(sc, REPLACE, req, store, cur, id);
    AskedFields(fields);
    hide Planned, WithNull, Asked;
    var w := WithNull(fields);
    var stored := store[id];
    var c, d := HMSet(id, w), HDel(id, stored.Keys - w.Keys);
    WrittenTwo(c, d, RowOf(cur, id));
    assert SetCmds(id, stored, w) == if stored.Keys - w.Keys == {} then [c] else [c, d];
  }
}
