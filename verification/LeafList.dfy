// Leaf-list fields of a row: checkAndProcessLeafList of common_app.go, contains and removeElement of app_utils.go.
module LeafList {
  import opened Wrappers
  import opened Text
  import opened ConfigDb

  datatype Opcode = CREATE | UPDATE | REPLACE | DELETE

  // ---- lists of items ----

  function RemoveFirst(s: seq<string>, x: string): seq<string> {
    if s == [] then [] else if s[0] == x then s[1..] else [s[0]] + RemoveFirst(s[1..], x)
  }

  // The items of v that e lacks, behind e
  function Union(e: seq<string>, v: seq<string>): seq<string>
    decreases |v|
  {
    if v == [] then e else Union(if v[0] in e then e else e + [v[0]], v[1..])
  }

  // e after one removal for each item of v
  function Without(e: seq<string>, v: seq<string>): seq<string>
    decreases |v|
  {
    if v == [] then e else Without(RemoveFirst(e, v[0]), v[1..])
  }

  // The items of e that are not in v, in their order
  function Minus(e: seq<string>, v: seq<string>): seq<string> {
    if e == [] then [] else (if e[0] in v then [] else [e[0]]) + Minus(e[1..], v)
  }

  lemma {:induction false} UnionMeaning(e: seq<string>, v: seq<string>)
    ensures e <= Union(e, v)
    ensures forall x :: x in Union(e, v) <==> x in e || x in v
    ensures Distinct(e) ==> Distinct(Union(e, v))
    decreases |v|
  {
    if v != [] {
      var e2 := if v[0] in e then e else e + [v[0]];
      UnionMeaning(e2, v[1..]);
      assert v == [v[0]] + v[1..];
    }
  }

  // Without duplicates, the new items come in the order of the request
  lemma {:induction false} UnionOrder(e: seq<string>, v: seq<string>)
    requires Distinct(v)
    ensures Union(e, v) == e + Minus(v, e)
    decreases |v|
  {
    if v != [] {
      var x, t := v[0], v[1..];
      assert x !in t && Distinct(t);
      if x in e {
        UnionOrder(e, t);
      } else {
        UnionOrder(e + [x], t);
        MinusSame(t, e + [x], e);
        assert (e + [x]) + Minus(t, e) == e + ([x] + Minus(t, e));
      }
    }
  }

  lemma {:induction false} MinusSame(e: seq<string>, v: seq<string>, w: seq<string>)
    requires forall x :: x in e ==> (x in v <==> x in w)
    ensures Minus(e, v) == Minus(e, w)
  {
    if e != [] {
      assert forall x :: x in e[1..] ==> x in e;
      assert e[0] in e;
      MinusSame(e[1..], v, w);
    }
  }

  lemma {:induction false} UnionOfPart(e: seq<string>, v: seq<string>)
    requires forall x :: x in v ==> x in e
    ensures Union(e, v) == e
  {
    if v != [] { UnionOfPart(e, v[1..]); }
  }

  lemma UnionTwice(e: seq<string>, v: seq<string>)
    ensures Union(Union(e, v), v) == Union(e, v)
  {
    UnionMeaning(e, v);
    UnionOfPart(Union(e, v), v);
  }

  lemma {:induction false} MinusNone(e: seq<string>)
    ensures Minus(e, []) == e
  {
    if e != [] { MinusNone(e[1..]); assert e == [e[0]] + e[1..]; }
  }

  lemma Prepended(x: string, s: seq<string>)
    requires Distinct(s) && x !in s
    ensures Distinct([x] + s)
  {
  }

  lemma {:induction false} MinusFirst(e: seq<string>, x: string, v: seq<string>)
    requires Distinct(e)
    ensures Minus(RemoveFirst(e, x), v) == Minus(e, [x] + v) && Distinct(RemoveFirst(e, x))
    ensures forall y :: y in RemoveFirst(e, x) ==> y in e
  {
    if e != [] {
      var t := e[1..];
      assert e[0] !in t && Distinct(t);
      if e[0] == x {
        MinusSame(t, v, [x] + v);
      } else {
        MinusFirst(t, x, v);
        var r := RemoveFirst(t, x);
        assert ([e[0]] + r)[1..] == r;
        assert e[0] in [x] + v <==> e[0] in v;
        Prepended(e[0], r);
      }
    }
  }

  // On a list without duplicates the removals leave exactly the items not asked for, in order
  lemma {:induction false} WithoutIsMinus(e: seq<string>, v: seq<string>)
    requires Distinct(e)
    ensures Without(e, v) == Minus(e, v)
    decreases |v|
  {
    if v == [] {
      MinusNone(e);
    } else {
      MinusFirst(e, v[0], v[1..]);
      assert [v[0]] + v[1..] == v;
      WithoutIsMinus(RemoveFirst(e, v[0]), v[1..]);
    }
  }

  lemma {:induction false} RemoveFirstCounts(s: seq<string>, x: string)
    ensures multiset(RemoveFirst(s, x)) == multiset(s) - multiset{x}
  {
    if s != [] {
      assert s == [s[0]] + s[1..];
      if s[0] != x { RemoveFirstCounts(s[1..], x); }
    }
  }

  // On any list, one occurrence goes for each item asked for
  lemma {:induction false} WithoutCounts(e: seq<string>, v: seq<string>)
    ensures multiset(Without(e, v)) == multiset(e) - multiset(v)
    decreases |v|
  {
    if v != [] {
      assert v == [v[0]] + v[1..];
      RemoveFirstCounts(e, v[0]);
      WithoutCounts(RemoveFirst(e, v[0]), v[1..]);
    }
  }

  method ContainsItem(sl: seq<string>, str: string) returns (r: bool)
    ensures r <==> str in sl
  {
    for i := 0 to |sl|
      invariant str !in sl[..i]
    {
      if sl[i] == str { return true; }
    }
    return false;
  }

  lemma {:induction false} RemoveFirstAt(s: seq<string>, i: nat)
    requires i < |s| && s[i] !in s[..i]
    ensures RemoveFirst(s, s[i]) == s[..i] + s[i + 1..]
  {
    if i > 0 {
      assert s[0] == s[..i][0];
      assert s[1..][..i - 1] == s[..i][1..];
      RemoveFirstAt(s[1..], i - 1);
    }
  }

  lemma {:induction false} RemoveAbsent(s: seq<string>, x: string)
    requires x !in s
    ensures RemoveFirst(s, x) == s
  {
    if s != [] { RemoveAbsent(s[1..], x); assert s == [s[0]] + s[1..]; }
  }

  method RemoveElement(sl: seq<string>, str: string) returns (r: seq<string>)
    ensures r == RemoveFirst(sl, str)
  {
    r := sl;
    var i := 0;
    while i < |sl|
      invariant i <= |sl| && r == sl && str !in sl[..i]
    {
      if sl[i] == str {
        RemoveFirstAt(sl, i);
        return sl[..i] + sl[i + 1..];
      }
      i := i + 1;
    }
    RemoveAbsent(sl, str);
  }

  // ---- rows ----

  // Value.GetList
  function List(r: Row, field: string): seq<string> { if field in r then Items(r[field]) else [] }

  function UpdatedList(e: seq<string>, v: seq<string>): seq<string> { if e != [] then Union(e, v) else v }

  // What an update writes to a stored row: an empty list is no field
  function UpdateFields(stored: Row, fields: Row): Row {
    map f | f in fields && (IsList(f) ==> UpdatedList(List(stored, f), Items(fields[f])) != [])
      :: if IsList(f) then Join(UpdatedList(List(stored, f), Items(fields[f])), ',') else fields[f]
  }

  // A list that loses some items but not all is rewritten; every other field of the request is deleted
  predicate Rewritten(stored: Row, fields: Row, f: string)
    requires f in fields
  {
    IsList(f) && List(stored, f) != [] && Items(fields[f]) != [] && Without(List(stored, f), Items(fields[f])) != []
  }

  function DeleteWrites(stored: Row, fields: Row): Row {
    map f | f in fields && Rewritten(stored, fields, f) :: Join(Without(List(stored, f), Items(fields[f])), ',')
  }

  function DeleteNames(stored: Row, fields: Row): set<string> { set f | f in fields && !Rewritten(stored, fields, f) }

  // The row after the delete
  function DeletedRow(stored: Row, fields: Row): Row {
    stored + DeleteWrites(stored, fields) - DeleteNames(stored, fields)
  }

  lemma {:induction false} JoinEmpty(items: seq<string>)
    requires items != [] && Join(items, ',') == ""
    ensures items == [""]
  {
  }

  // Reading back a written list; only the list of one empty item reads as no list
  lemma ListJoin(items: seq<string>)
    requires items != [] && items != [""] && forall i :: 0 <= i < |items| ==> ',' !in items[i]
    ensures Items(Join(items, ',')) == items
  {
    SplitJoin(items, ',');
    if Join(items, ',') == "" { JoinEmpty(items); }
  }

  lemma ItemsShape(value: string)
    ensures Items(value) != [""] && forall i :: 0 <= i < |Items(value)| ==> ',' !in Items(value)[i]
  {
    SplitParts(value, ',');
    JoinSplit(value, ',');
  }

  lemma UpdatedShape(e: seq<string>, v: seq<string>)
    requires e != [""] && v != [""] && (forall x :: x in e ==> ',' !in x) && forall x :: x in v ==> ',' !in x
    ensures var u := UpdatedList(e, v); u != [""] && forall i :: 0 <= i < |u| ==> ',' !in u[i]
  {
    UnionMeaning(e, v);
    var u := UpdatedList(e, v);
    forall i | 0 <= i < |u| ensures ',' !in u[i] { assert u[i] in u; }
  }

  // UPDATE: the old list is a prefix of the new one, whose items are those of both; other fields take the request's
  // value
  lemma UpdatedFields(stored: Row, fields: Row, f: string)
    ensures var r := stored + UpdateFields(stored, fields);
      if f !in fields then (f in r <==> f in stored) && (f in r ==> r[f] == stored[f])
      else if !IsList(f) then f in r && r[f] == fields[f]
      else
        List(stored, f) <= List(r, f)
          && (forall x :: x in List(r, f) <==> x in List(stored, f) || x in Items(fields[f]))
        && List(r, f) == UpdatedList(List(stored, f), Items(fields[f]))
  {
    if f in fields && IsList(f) {
      var e, v := List(stored, f), Items(fields[f]);
      if f in stored { ItemsShape(stored[f]); }
      ItemsShape(fields[f]);
      UpdatedShape(e, v);
      UnionMeaning(e, v);
      var u := UpdatedList(e, v);
      if u != [] { ListJoin(u); }
    }
  }

  // Applying the same update again changes nothing
  lemma FieldsTwice(stored: Row, fields: Row)
    ensures var r := stored + UpdateFields(stored, fields); r + UpdateFields(r, fields) == r
  {
    var r := stored + UpdateFields(stored, fields);
    forall f | f in UpdateFields(r, fields) ensures f in r && UpdateFields(r, fields)[f] == r[f] {
      UpdatedFields(stored, fields, f);
      if IsList(f) {
        UnionTwice(List(stored, f), Items(fields[f]));
        UnionMeaning(Items(fields[f]), Items(fields[f]));
        UnionOfPart(Items(fields[f]), Items(fields[f]));
      }
    }
  }

  // DELETE: a field is rewritten with the remaining items, or dropped
  lemma DeletedFields(stored: Row, fields: Row, f: string)
    ensures var r := DeletedRow(stored, fields);
      if f !in fields then (f in r <==> f in stored) && (f in r ==> r[f] == stored[f])
      else if Rewritten(stored, fields, f) then f in r && r[f] == Join(Without(List(stored, f), Items(fields[f])), ',')
      else f !in r
  {
    hide Without, Items, Join;
  }
}
