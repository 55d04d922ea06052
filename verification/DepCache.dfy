// The temporary cache of dependent entries: fetchDataToTmpCache of cvl_cache.go.
module DepCache {
  import opened Wrappers
  import opened Text

  type Row = map<string, string>

  // ---- field maps ----

  datatype Field = Leaf(value: string) | LeafList(items: seq<string>)

  type FieldMap = map<string, Field>

  function FieldValue(f: string, value: string): Field {
    if IsList(f) then LeafList(Split(value, ',')) else Leaf(value)
  }

  // fm renders the row: NULL is dropped, and x@ becomes the leaf-list x
  ghost predicate Renders(row: Row, fm: FieldMap) {
    (forall f :: f in row && f != "NULL" ==> FieldName(f) in fm)
    && forall n :: n in fm ==>
      exists f :: f in row && f != "NULL" && FieldName(f) == n && fm[n] == FieldValue(f, row[f])
  }

  // No row has a leaf and a leaf-list of one name
  ghost predicate NoClash(row: Row) {
    forall f, g :: f in row && g in row && f != "NULL" && g != "NULL" && FieldName(f) == FieldName(g) ==> f == g
  }

  lemma RendersOnce(row: Row, a: FieldMap, b: FieldMap)
    requires NoClash(row) && Renders(row, a) && Renders(row, b)
    ensures a == b
  {
    forall n ensures n in a <==> n in b {}
    forall n | n in a ensures a[n] == b[n] {}
  }

  // With a leaf and a leaf-list of one name the rendering depends on the order in which the fields are visited
  lemma ClashRenders(row: Row, fm: FieldMap, f: string, g: string)
    requires Renders(row, fm) && f in row && g in row && f != g && f != "NULL" && g != "NULL"
      && FieldName(f) == FieldName(g)
    ensures var n := FieldName(f);
      Renders(row, fm[n := FieldValue(f, row[f])]) && Renders(row, fm[n := FieldValue(g, row[g])])
      && FieldValue(f, row[f]) != FieldValue(g, row[g])
  {
    RendersWith(row, fm, f);
    RendersWith(row, fm, g);
    SameName(f, g);
    hide IsList, FieldName, Renders;
  }

  lemma RendersWith(row: Row, fm: FieldMap, f: string)
    requires Renders(row, fm) && f in row && f != "NULL"
    ensures Renders(row, fm[FieldName(f) := FieldValue(f, row[f])])
  {
    hide IsList, FieldName, FieldValue;
    var fm2 := fm[FieldName(f) := FieldValue(f, row[f])];
    forall n | n in fm2
      ensures exists g :: g in row && g != "NULL" && FieldName(g) == n && fm2[n] == FieldValue(g, row[g]) {
      if n != FieldName(f) { assert n in fm && fm2[n] == fm[n]; }
    }
  }

  lemma Stripped(f: string)
    ensures f == FieldName(f) + if IsList(f) then "@" else ""
  {
  }

  lemma SameName(f: string, g: string)
    requires FieldName(f) == FieldName(g) && f != g
    ensures IsList(f) != IsList(g)
  {
    hide IsList, FieldName;
    Stripped(f);
    Stripped(g);
  }

  method CheckFieldMap(row: Row) returns (fieldMapNew: FieldMap)
    ensures Renders(row, fieldMapNew)
  {
    fieldMapNew := map[];
    var left := row.Keys;
    while left != {}
      invariant left <= row.Keys
      invariant forall f :: f in row && f != "NULL" && f !in left ==> FieldName(f) in fieldMapNew
      invariant forall n :: n in fieldMapNew ==>
        exists f :: f in row && f != "NULL" && FieldName(f) == n && fieldMapNew[n] == FieldValue(f, row[f])
    {
      var field :| field in left;
      if field == "NULL" {
      } else if IsList(field) {
        fieldMapNew := fieldMapNew[FieldName(field) := LeafList(Split(row[field], ','))];
      } else {
        fieldMapNew := fieldMapNew[field := Leaf(row[field])];
      }
      left := left - {field};
    }
  }

  // dest with the fields of src over its own
  method MergeMap(dest: Row, src: Row) returns (merged: Row)
    ensures merged == dest + src
  {
    merged := dest;
    var left := src.Keys;
    while left != {}
      invariant left <= src.Keys && merged.Keys == dest.Keys + (src.Keys - left)
      invariant forall k :: k in merged ==> merged[k] == if k in src && k !in left then src[k] else dest[k]
    {
      var key :| key in left;
      merged := merged[key := src[key]];
      left := left - {key};
    }
  }

  // ---- what an entry should hold ----

  datatype Op = CREATE | UPDATE | DELETE

  datatype Request = Request(op: Op, data: Row)

  // The first create or update of an entry
  function Pending(reqs: seq<Request>): (r: Option<Request>)
    ensures r.Some? ==> r.value.op != DELETE
  {
    if reqs == [] then None else if reqs[0].op != DELETE then Some(reqs[0]) else Pending(reqs[1..])
  }

  // The row behind an entry: the pending create, the pending update over the stored row, or the stored row
  function Source(reqs: seq<Request>, stored: Row): Option<Row> {
    match Pending(reqs)
    case Some(Request(CREATE, data)) => Some(data)
    case Some(Request(_, data)) => if stored == map[] then None else Some(stored + data)
    case None => if stored == map[] then None else Some(stored)
  }

  ghost predicate FirstChange(reqs: seq<Request>, i: nat) {
    i < |reqs| && reqs[i].op != DELETE && forall j :: 0 <= j < i ==> reqs[j].op == DELETE
  }

  lemma {:induction false} PendingFirst(reqs: seq<Request>, i: nat)
    requires FirstChange(reqs, i)
    ensures Pending(reqs) == Some(reqs[i])
  {
    if i > 0 {
      var rest := reqs[1..];
      assert rest[i - 1] == reqs[i] && forall j :: 0 <= j < i - 1 ==> rest[j] == reqs[j + 1];
      PendingFirst(rest, i - 1);
    }
  }

  lemma {:induction false} PendingNone(reqs: seq<Request>)
    requires forall i :: 0 <= i < |reqs| ==> reqs[i].op == DELETE
    ensures Pending(reqs) == None
  {
    if reqs != [] { PendingNone(reqs[1..]); }
  }

  // The row an entry should show: the first create; the first update, if it comes before any create, over the stored
  // row; or the stored row
  ghost predicate Wanted(reqs: seq<Request>, stored: Row, row: Row) {
    (exists i: nat :: FirstChange(reqs, i) && reqs[i].op == CREATE && row == reqs[i].data)
    || (stored != map[]
      && exists i: nat :: FirstChange(reqs, i) && reqs[i].op == UPDATE && Over(stored, reqs[i].data, row))
    || (stored != map[] && row == stored && forall i :: 0 <= i < |reqs| ==> reqs[i].op == DELETE)
  }

  // row has the fields of data, and those of stored that data lacks
  ghost predicate Over(stored: Row, data: Row, row: Row) {
    forall f ::
      if f in data then f in row && row[f] == data[f]
      else (f in row <==> f in stored) && (f in row ==> row[f] == stored[f])
  }

  lemma OverIs(stored: Row, data: Row, row: Row)
    ensures Over(stored, data, row) <==> row == stored + data
  {
  }

  lemma {:induction false} SomeFirst(reqs: seq<Request>) returns (i: nat)
    ensures FirstChange(reqs, i) || forall j :: 0 <= j < |reqs| ==> reqs[j].op == DELETE
  {
    i := 0;
    if reqs != [] && reqs[0].op == DELETE {
      i := SomeFirst(reqs[1..]);
      i := i + 1;
      if FirstChange(reqs[1..], i - 1) {
        assert reqs[1..][i - 1] == reqs[i] && forall j :: 0 <= j < i - 1 ==> reqs[1..][j] == reqs[j + 1];
      } else {
        forall j | 0 <= j < |reqs| ensures reqs[j].op == DELETE { if j > 0 { assert reqs[1..][j - 1] == reqs[j]; } }
      }
    }
  }

  lemma SourceWanted(reqs: seq<Request>, stored: Row, row: Row)
    ensures Source(reqs, stored) == Some(row) <==> Wanted(reqs, stored, row)
  {
    var i := SomeFirst(reqs);
    if FirstChange(reqs, i) {
      PendingFirst(reqs, i);
      forall j: nat | FirstChange(reqs, j) ensures j == i {}
      OverIs(stored, reqs[i].data, row);
    } else {
      PendingNone(reqs);
    }
    hide Pending, Over;
  }

  // What a rendering shows under the name n: the field n, or the items of n@
  ghost predicate Shows(row: Row, fm: FieldMap, n: string) {
    var leaf, list := n in row && n != "NULL" && (n == "" || n[|n| - 1] != '@'), n + "@" in row;
    (n in fm <==> leaf || list)
    && (leaf && !list ==> fm[n] == Leaf(row[n]))
    && (list && !leaf ==> fm[n] == LeafList(Split(row[n + "@"], ',')))
    && (leaf && list ==> fm[n] == Leaf(row[n]) || fm[n] == LeafList(Split(row[n + "@"], ',')))
  }

  lemma NameOf(f: string, n: string)
    ensures FieldName(f) == n <==> f == n + "@" || (f == n && (n == "" || n[|n| - 1] != '@'))
    ensures IsList(n + "@") && (n == "" || n[|n| - 1] != '@' ==> !IsList(n))
  {
    assert (n + "@")[..|n|] == n && (n + "@")[|n|..] == "@";
    if f != "" { assert f[|f| - 1..] == [f[|f| - 1]]; }
    if IsList(f) { assert f == f[..|f| - 1] + "@"; }
    if n != "" { assert n[|n| - 1..] == [n[|n| - 1]]; }
  }

  lemma RenderingShows(row: Row, fm: FieldMap, n: string)
    requires Renders(row, fm)
    ensures Shows(row, fm, n)
  {
    NameOf(n, n);
    NameOf(n + "@", n);
    assert (n + "@")[|n|] == '@' && '@' !in "NULL";
    hide FieldName, IsList;
    if n in fm {
      var f :| f in row && f != "NULL" && FieldName(f) == n && fm[n] == FieldValue(f, row[f]);
      NameOf(f, n);
    }
  }

  datatype Entry = Unfetched | Raw(row: Row) | Fetched(fields: FieldMap)

  type Table = map<string, Entry>

  const MAX_BULK_ENTRIES := 50

  class Cache {
    var tmpDbCache: map<string, Table>
    const requestCache: map<string, map<string, seq<Request>>>
    const store: map<string, map<string, Row>>
    // Which pipeline executions fail, in the order of time
    const pipelineFails: nat -> bool
    // The pipelines executed so far
    var execs: nat

    constructor (requestCache: map<string, map<string, seq<Request>>>, store: map<string, map<string, Row>>,
      pipelineFails: nat -> bool)
      ensures tmpDbCache == map[] && execs == 0
      ensures this.requestCache == requestCache && this.store == store && this.pipelineFails == pipelineFails
    {
      this.requestCache, this.store, this.pipelineFails := requestCache, store, pipelineFails;
      tmpDbCache, execs := map[], 0;
    }

    ghost predicate AllRun(from: nat, to: nat) { forall n :: from <= n < to ==> !pipelineFails(n) }

    function Requests(table: string, key: string): seq<Request> {
      if table in requestCache && key in requestCache[table] then requestCache[table][key] else []
    }

    function Stored(table: string, key: string): Row {
      if table in store && key in store[table] then store[table][key] else map[]
    }

    ghost function SourceOf(table: string, key: string): Option<Row> {
      Source(Requests(table, key), Stored(table, key))
    }

    method AddTableEntryToCache(tableName: string, redisKey: string)
      modifies this
      ensures execs == old(execs)
      ensures tableName == "" || redisKey == "" ==> tmpDbCache == old(tmpDbCache)
      ensures tableName != "" && redisKey != "" ==>
        tmpDbCache == old(tmpDbCache)[tableName :=
          (if tableName in old(tmpDbCache) then old(tmpDbCache)[tableName] else map[])[redisKey := Unfetched]]
    {
      if tableName == "" || redisKey == "" { return; }
      if tableName !in tmpDbCache {
        tmpDbCache := tmpDbCache[tableName := map[redisKey := Unfetched]];
      } else {
        tmpDbCache := tmpDbCache[tableName := tmpDbCache[tableName][redisKey := Unfetched]];
      }
    }

    // The data of the first create or update, and whether it goes over the stored row
    method FetchDataFromRequestCache(tableName: string, key: string) returns (d: Option<Row>, merge: bool)
      ensures match Pending(Requests(tableName, key))
        case None => d == None && !merge
        case Some(Request(op, data)) => d == Some(data) && merge == (op == UPDATE)
    {
      var cfgDataArr := Requests(tableName, key);
      var i := 0;
      while i < |cfgDataArr|
        invariant i <= |cfgDataArr| && Pending(cfgDataArr) == Pending(cfgDataArr[i..])
      {
        if cfgDataArr[i].op == CREATE { return Some(cfgDataArr[i].data), false; }
        if cfgDataArr[i].op == UPDATE { return Some(cfgDataArr[i].data), true; }
        i := i + 1;
      }
      return None, false;
    }

    // The entry holds what it should, or is gone
    ghost predicate Resolved(table: string, k: string, e: Option<Entry>) {
      match SourceOf(table, k)
      case None => e == None
      case Some(row) => e.Some? && e.value.Fetched? && Renders(row, e.value.fields)
    }

    // An entry shows the wanted row, and is gone when there is none
    lemma ResolvedMeaning(table: string, k: string, e: Option<Entry>)
      requires Resolved(table, k, e)
      ensures forall row :: Wanted(Requests(table, k), Stored(table, k), row) ==>
        e.Some? && e.value.Fetched? && forall n :: Shows(row, e.value.fields, n)
      ensures (forall row :: !Wanted(Requests(table, k), Stored(table, k), row)) ==> e == None
    {
      var reqs, stored := Requests(table, k), Stored(table, k);
      forall row ensures Source(reqs, stored) == Some(row) <==> Wanted(reqs, stored, row) {
        SourceWanted(reqs, stored, row);
      }
      hide Source, Wanted, Renders, Shows;
      if SourceOf(table, k).Some? {
        forall n ensures Shows(SourceOf(table, k).value, e.value.fields, n) {
          RenderingShows(SourceOf(table, k).value, e.value.fields, n);
        }
      }
    }

    // What the rounds hand over shows just this
    lemma AnswersMeaning(c0: map<string, Table>, d: map<string, Table>, t: string, k: string, reqs: seq<Request>,
      stored: Row)
      requires Answers(c0, d)
      requires reqs == if t in requestCache && k in requestCache[t] then requestCache[t][k] else []
      requires stored == if t in store && k in store[t] then store[t][k] else map[]
      ensures !Asked(c0, t, k) ==> At2(d, t, k) == None
      ensures Asked(c0, t, k) ==>
        forall row :: Wanted(reqs, stored, row) ==>
          At2(d, t, k).Some? && At2(d, t, k).value.Fetched? && forall n :: Shows(row, At2(d, t, k).value.fields, n)
      ensures Asked(c0, t, k) && (forall row :: !Wanted(reqs, stored, row)) ==> At2(d, t, k) == None
    {
      assert reqs == Requests(t, k) && stored == Stored(t, k);
      hide Wanted, Shows, Cache.Resolved, Cache.Requests, Cache.Stored;
      if Asked(c0, t, k) { ResolvedMeaning(t, k, At2(d, t, k)); }
    }

    // The entry waits for the store, with the data of a pending update
    ghost predicate Sent(table: string, k: string, e: Option<Entry>) {
      match Pending(Requests(table, k))
      case None => e == Some(Unfetched)
      case Some(Request(op, data)) => op == UPDATE && e == Some(Raw(data))
    }

    // Whether fetching the entry reports anything
    predicate Reported(table: string, k: string) {
      Pending(Requests(table, k)).Some? || Stored(table, k) != map[]
    }

    // The entries of a batch, first from the pending requests
    method SendBatch(tableName: string, bulkKeys: seq<string>) returns (mCmd: set<string>, fetched: nat)
      requires tableName in tmpDbCache && Distinct(bulkKeys)
      requires forall k :: k in bulkKeys ==> k in tmpDbCache[tableName] && tmpDbCache[tableName][k] == Unfetched
      modifies this
      ensures execs == old(execs)
      ensures tableName in tmpDbCache && tmpDbCache == old(tmpDbCache)[tableName := tmpDbCache[tableName]]
        && mCmd <= Elems(bulkKeys)
      ensures var t0, t := old(tmpDbCache)[tableName], tmpDbCache[tableName];
        (forall k :: k !in bulkKeys ==> Lookup(t, k) == Lookup(t0, k))
        && forall k :: k in bulkKeys ==>
          if k in mCmd then Sent(tableName, k, Lookup(t, k)) else Resolved(tableName, k, Lookup(t, k))
      ensures forall k :: k in bulkKeys ==> k in mCmd || Pending(Requests(tableName, k)).Some?
      ensures fetched > 0 <==> exists k :: k in bulkKeys && Pending(Requests(tableName, k)).Some?
    {
      hide Cache.Resolved, Cache.Sent, Pending, Cache.Requests;
      mCmd, fetched := {}, 0;
      ghost var t0 := tmpDbCache[tableName];
      var i := 0;
      while i < |bulkKeys|
        invariant i <= |bulkKeys| && execs == old(execs) && mCmd <= Elems(bulkKeys[..i])
        invariant tableName in tmpDbCache && tmpDbCache == old(tmpDbCache)[tableName := tmpDbCache[tableName]]
        invariant forall k :: k !in bulkKeys[..i] ==> Lookup(tmpDbCache[tableName], k) == Lookup(t0, k)
        invariant forall k :: k in bulkKeys[..i] ==>
          if k in mCmd then Sent(tableName, k, Lookup(tmpDbCache[tableName], k))
            else Resolved(tableName, k, Lookup(tmpDbCache[tableName], k))
        invariant forall k :: k in bulkKeys[..i] ==> k in mCmd || Pending(Requests(tableName, k)).Some?
        invariant fetched > 0 <==> exists k :: k in bulkKeys[..i] && Pending(Requests(tableName, k)).Some?
      {
        var dbKey := bulkKeys[i];
        assert bulkKeys[..i + 1] == bulkKeys[..i] + [dbKey];
        assert dbKey !in bulkKeys[..i];
        assert Lookup(tmpDbCache[tableName], dbKey) == Lookup(t0, dbKey);
        fetched, mCmd := SendOne(tableName, dbKey, fetched, mCmd);
        i := i + 1;
      }
      assert bulkKeys[..i] == bulkKeys;
    }

    method SendOne(tableName: string, dbKey: string, fetched0: nat, mCmd0: set<string>)
      returns (fetched: nat, mCmd: set<string>)
      requires tableName in tmpDbCache && dbKey in tmpDbCache[tableName] && tmpDbCache[tableName][dbKey] == Unfetched
      requires dbKey !in mCmd0
      modifies this
      ensures execs == old(execs)
      ensures tableName in tmpDbCache && tmpDbCache == old(tmpDbCache)[tableName := tmpDbCache[tableName]]
      ensures var t0, t := old(tmpDbCache)[tableName], tmpDbCache[tableName];
        (forall k :: k != dbKey ==> Lookup(t, k) == Lookup(t0, k))
          && if dbKey in mCmd then Sent(tableName, dbKey, Lookup(t, dbKey))
          else Resolved(tableName, dbKey, Lookup(t, dbKey))
      ensures mCmd0 <= mCmd <= mCmd0 + {dbKey} && (dbKey in mCmd || Pending(Requests(tableName, dbKey)).Some?)
      ensures fetched == fetched0 + if Pending(Requests(tableName, dbKey)).Some? then 1 else 0
    {
      fetched, mCmd := fetched0, mCmd0;
      var table := tmpDbCache[tableName];
      var entry, mergeNeeded := FetchDataFromRequestCache(tableName, dbKey);
      if entry.Some? {
        fetched := fetched + 1;
        if !mergeNeeded {
          var fieldMap := CheckFieldMap(entry.value);
          tmpDbCache := tmpDbCache[tableName := table[dbKey := Fetched(fieldMap)]];
          return;
        }
        tmpDbCache := tmpDbCache[tableName := table[dbKey := Raw(entry.value)]];
      }
      mCmd := mCmd + {dbKey};
    }

    // The answer of the store for one entry
    method ReceiveOne(tableName: string, key: string, fetched0: nat) returns (fetched: nat)
      requires tableName in tmpDbCache && Sent(tableName, key, Lookup(tmpDbCache[tableName], key))
      modifies this
      ensures execs == old(execs)
      ensures tableName in tmpDbCache && tmpDbCache == old(tmpDbCache)[tableName := tmpDbCache[tableName]]
      ensures var t0, t := old(tmpDbCache)[tableName], tmpDbCache[tableName];
        (forall k :: k != key ==> Lookup(t, k) == Lookup(t0, k)) && Resolved(tableName, key, Lookup(t, key))
      ensures fetched == fetched0 + if Stored(tableName, key) != map[] then 1 else 0
    {
      fetched := fetched0;
      var mapTable := tmpDbCache[tableName];
      var res := Stored(tableName, key);
      if res == map[] {
        tmpDbCache := tmpDbCache[tableName := mapTable - {key}];
        return;
      }
      if mapTable[key].Raw? { res := MergeMap(res, mapTable[key].row); }
      var fieldMap := CheckFieldMap(res);
      tmpDbCache := tmpDbCache[tableName := mapTable[key := Fetched(fieldMap)]];
      fetched := fetched + 1;
    }

    method ReceiveBatch(tableName: string, mCmd: set<string>, fetched0: nat) returns (fetched: nat)
      requires tableName in tmpDbCache && forall k :: k in mCmd ==> Sent(tableName, k, Lookup(tmpDbCache[tableName], k))
      modifies this
      ensures execs == old(execs)
      ensures tableName in tmpDbCache && tmpDbCache == old(tmpDbCache)[tableName := tmpDbCache[tableName]]
      ensures var t0, t := old(tmpDbCache)[tableName], tmpDbCache[tableName];
        forall k :: if k in mCmd then Resolved(tableName, k, Lookup(t, k)) else Lookup(t, k) == Lookup(t0, k)
      ensures fetched > 0 <==> fetched0 > 0 || exists k :: k in mCmd && Stored(tableName, k) != map[]
    {
      hide Cache.Resolved, Cache.Sent;
      fetched := fetched0;
      var left := mCmd;
      ghost var t0 := tmpDbCache[tableName];
      while left != {}
        invariant execs == old(execs)
        invariant left <= mCmd && tableName in tmpDbCache
          && tmpDbCache == old(tmpDbCache)[tableName := tmpDbCache[tableName]]
        invariant forall k :: k in mCmd && k !in left ==> Resolved(tableName, k, Lookup(tmpDbCache[tableName], k))
        invariant forall k :: k !in mCmd || k in left ==> Lookup(tmpDbCache[tableName], k) == Lookup(t0, k)
        invariant fetched > 0 <==> fetched0 > 0 || exists k :: k in mCmd && k !in left && Stored(tableName, k) != map[]
      {
        var key :| key in left;
        fetched := ReceiveOne(tableName, key, fetched);
        left := left - {key};
      }
    }

    // One pipeline execution: the batch is resolved, unless it fails
    method FlushBatch(tableName: string, bulkKeys: seq<string>, fetched0: nat) returns (ok: bool, fetched: nat)
      requires tableName in tmpDbCache && Distinct(bulkKeys)
      requires forall k :: k in bulkKeys ==> k in tmpDbCache[tableName] && tmpDbCache[tableName][k] == Unfetched
      modifies this
      ensures execs == old(execs) + 1 && (ok <==> !pipelineFails(old(execs)))
      ensures tableName in tmpDbCache && tmpDbCache == old(tmpDbCache)[tableName := tmpDbCache[tableName]]
      ensures var t0, t := old(tmpDbCache)[tableName], tmpDbCache[tableName];
        (forall k :: k !in bulkKeys ==> Lookup(t, k) == Lookup(t0, k))
          && (ok ==> forall k :: k in bulkKeys ==> Resolved(tableName, k, Lookup(t, k)))
      ensures if ok then fetched > 0 <==>
        fetched0 > 0 || exists k :: k in bulkKeys && Reported(tableName, k) else fetched == 0
    {
      hide Cache.Resolved, Cache.Sent, Pending, Cache.Requests, Cache.Stored, Cache.Reported, Distinct;
      var mCmd, sent := SendBatch(tableName, bulkKeys);
      ok, execs := !pipelineFails(execs), execs + 1;
      if !ok { return ok, 0; }
      fetched := ReceiveBatch(tableName, mCmd, fetched0 + sent);
      ReportedSplit(tableName, bulkKeys, mCmd);
    }

    lemma ReportedSplit(tableName: string, bulkKeys: seq<string>, mCmd: set<string>)
      requires mCmd <= Elems(bulkKeys) && forall k :: k in bulkKeys ==>
        k in mCmd || Pending(Requests(tableName, k)).Some?
      ensures (exists k :: k in bulkKeys && Reported(tableName, k)) <==>
          (exists k :: k in bulkKeys && Pending(Requests(tableName, k)).Some?)
          || exists k :: k in mCmd && Stored(tableName, k) != map[]
    {
    }

    // Some entries of a table are visited: all but those left. Of these all but the batch being filled are settled:
    // resolved when they were to be fetched, removed when they had been fetched before.
    ghost predicate Settled(table: string, t0: Table, left: set<string>, bulkKeys: seq<string>, t: Table) {
      forall k ::
        if k !in t0 || k in left || k in bulkKeys then Lookup(t, k) == Lookup(t0, k)
        else if t0[k] == Unfetched then Resolved(table, k, Lookup(t, k))
        else Lookup(t, k) == None
    }

    // The batches sent and the one being filled hold each visited entry that is to be fetched once
    ghost predicate Batched(t0: Table, left: set<string>, batches: seq<seq<string>>, bulkKeys: seq<string>) {
      Distinct(Concat(batches) + bulkKeys)
      && (forall k :: k in Concat(batches) + bulkKeys <==> k in t0 && k !in left && t0[k] == Unfetched)
      && forall i :: 0 <= i < |batches| ==> |batches[i]| <= MAX_BULK_ENTRIES
    }

    ghost predicate Progress(table: string, t0: Table, left: set<string>, bulkKeys: seq<string>) {
      exists k :: k in t0 && k !in left && k !in bulkKeys && t0[k] == Unfetched && Reported(table, k)
    }

    // One pass over a table. The entries are visited in any order while they are rewritten and deleted.
    // batches: what went into each pipeline that did not fail
    method FetchTableDataToTmpCache(tableName: string)
      returns (fetched: nat, ghost ok: bool, ghost batches: seq<seq<string>>)
      requires tableName in tmpDbCache
      modifies this
      ensures tableName in tmpDbCache && OnlyTable(old(tmpDbCache), tableName, tmpDbCache)
      ensures execs == old(execs) + |batches| + (if ok then 0 else 1) && AllRun(old(execs), old(execs) + |batches|)
      ensures !ok ==>
        pipelineFails(old(execs) + |batches|)
        && Answered(tableName, old(tmpDbCache)[tableName], batches, tmpDbCache[tableName])
      ensures ok ==>
        var t0 := old(tmpDbCache)[tableName];
        Settled(tableName, t0, {}, [], tmpDbCache[tableName]) && Batched(t0, {}, batches, [])
        && (fetched > 0 <==> Progress(tableName, t0, {}, []))
      ensures !ok ==> fetched == 0
      ensures Narrower(old(tmpDbCache)[tableName], tmpDbCache[tableName])
      ensures forall i :: 0 <= i < |batches| ==> |batches[i]| <= 50 && (i < |batches| - 1 ==> |batches[i]| == 50)
    {
      hide Cache.Settled, Cache.Batched, Cache.Progress, Cache.Resolved, Narrower, Distinct, OnlyTable;
      ghost var t0 := tmpDbCache[tableName];
      SameCache(tmpDbCache, tableName);
      var totalCount := |tmpDbCache[tableName]|;
      ok, batches := true, [];
      PassStart(tableName, t0);
      fetched := 0;
      var bulkCount := 0;
      var bulkKeys: seq<string> := [];
      var left := tmpDbCache[tableName].Keys;
      while left != {}
        invariant tableName in tmpDbCache && OnlyTable(old(tmpDbCache), tableName, tmpDbCache)
        invariant execs == old(execs) + |batches| && AllRun(old(execs), execs)
        invariant forall i :: 0 <= i < |batches| ==>
          |batches[i]| <= 50 && (left != {} || i < |batches| - 1 ==> |batches[i]| == 50)
        invariant left <= t0.Keys && totalCount - bulkCount == |left| && bulkCount >= 0
        invariant if left == {} then bulkKeys == [] else |bulkKeys| == bulkCount % MAX_BULK_ENTRIES
        invariant Settled(tableName, t0, left, bulkKeys, tmpDbCache[tableName]) && Batched(t0, left, batches, bulkKeys)
        invariant fetched > 0 <==> Progress(tableName, t0, left, bulkKeys)
      {
        var dbKey :| dbKey in left;
        Visit(tableName, t0, left, batches, bulkKeys, tmpDbCache[tableName], dbKey);
        left := left - {dbKey};
        if tmpDbCache[tableName][dbKey] != Unfetched {
          OtherTable(old(tmpDbCache), tableName, tmpDbCache, tmpDbCache[tableName] - {dbKey});
          tmpDbCache := tmpDbCache[tableName := tmpDbCache[tableName] - {dbKey}];
          totalCount := totalCount - 1;
          if bulkCount != totalCount { continue; }
        } else {
          bulkKeys := bulkKeys + [dbKey];
          bulkCount := bulkCount + 1;
        }
        if bulkCount != totalCount && bulkCount % MAX_BULK_ENTRIES != 0 { continue; }
        var done;
        ghost var c := tmpDbCache;
        done, fetched := FlushPass(tableName, t0, left, batches, bulkKeys, fetched);
        OnlyTwice(old(tmpDbCache), tableName, c, tmpDbCache);
        if !done {
          ok := false;
          return;
        }
        batches, bulkKeys := batches + [bulkKeys], [];
      }
      PassEnd(tableName, t0, tmpDbCache[tableName]);
    }

    method FlushPass(tableName: string, ghost t0: Table, ghost left: set<string>, ghost batches: seq<seq<string>>,
      bulkKeys: seq<string>, fetched0: nat)
      returns (ok: bool, fetched: nat)
      requires tableName in tmpDbCache && |bulkKeys| <= MAX_BULK_ENTRIES
      requires Settled(tableName, t0, left, bulkKeys, tmpDbCache[tableName]) && Batched(t0, left, batches, bulkKeys)
      requires fetched0 > 0 <==> Progress(tableName, t0, left, bulkKeys)
      modifies this
      ensures execs == old(execs) + 1 && (ok <==> !pipelineFails(old(execs)))
      ensures tableName in tmpDbCache && OnlyTable(old(tmpDbCache), tableName, tmpDbCache)
      ensures ok ==>
        Settled(tableName, t0, left, [], tmpDbCache[tableName]) && Batched(t0, left, batches + [bulkKeys], [])
      ensures ok ==> (fetched > 0 <==> Progress(tableName, t0, left, []))
      ensures !ok ==>
        fetched == 0 && Narrower(t0, tmpDbCache[tableName]) && Answered(tableName, t0, batches, tmpDbCache[tableName])
    {
      hide Cache.Settled, Cache.Batched, Cache.Progress, Cache.Resolved, Narrower, Distinct;
      ghost var t := tmpDbCache[tableName];
      BeforeFlush(tableName, t0, left, batches, bulkKeys, t);
      ok, fetched := FlushBatch(tableName, bulkKeys, fetched0);
      if ok {
        AfterFlush(tableName, t0, left, batches, bulkKeys, t, tmpDbCache[tableName]);
      } else {
        FailedFlush(tableName, t0, left, batches, bulkKeys, t, tmpDbCache[tableName]);
      }
    }

    // All tables once, in any order
    method FetchAllTables() returns (entryToFetch: nat, ghost ok: bool)
      modifies this
      ensures old(execs) <= execs && (ok <==> AllRun(old(execs), execs))
      ensures tmpDbCache.Keys == old(tmpDbCache.Keys)
      ensures forall t :: t in tmpDbCache ==> Narrower(old(tmpDbCache)[t], tmpDbCache[t])
      ensures ok ==> forall t :: t in tmpDbCache ==> Settled(t, old(tmpDbCache)[t], {}, [], tmpDbCache[t])
      ensures entryToFetch > 0 ==> exists t, k :: t in tmpDbCache && Gone(old(tmpDbCache)[t], tmpDbCache[t], k)
      ensures ok ==> (entryToFetch > 0 <==> exists t :: t in tmpDbCache && Progress(t, old(tmpDbCache)[t], {}, []))
    {
      hide Cache.Settled, Cache.Batched, Cache.Progress, Cache.Resolved, Narrower, Gone;
      ghost var c0 := tmpDbCache;
      entryToFetch, ok := 0, true;
      var left := tmpDbCache.Keys;
      while left != {}
        invariant old(execs) <= execs && (ok <==> AllRun(old(execs), execs))
        invariant left <= c0.Keys && tmpDbCache.Keys == c0.Keys && forall t :: t in left ==> tmpDbCache[t] == c0[t]
        invariant forall t :: t in c0 && t !in left ==> Narrower(c0[t], tmpDbCache[t])
        invariant ok ==> forall t :: t in c0 && t !in left ==> Settled(t, c0[t], {}, [], tmpDbCache[t])
        invariant entryToFetch > 0 ==> exists t, k :: t in c0 && t !in left && Gone(c0[t], tmpDbCache[t], k)
        invariant ok ==> (entryToFetch > 0 <==> exists t :: t in c0 && t !in left && Progress(t, c0[t], {}, []))
      {
        var tableName :| tableName in left;
        var fetched;
        ghost var done, batches;
        fetched, done, batches := FetchTableDataToTmpCache(tableName);
        ghost var k := if fetched > 0 then Vanished(tableName, c0[tableName], tmpDbCache[tableName]) else "";
        entryToFetch, ok := entryToFetch + fetched, ok && done;
        left := left - {tableName};
      }
    }

    // A pass that reports progress leaves nothing to fetch in its table, where there was something
    ghost function Vanished(table: string, t0: Table, t: Table): (k: string)
      requires Settled(table, t0, {}, [], t) && Progress(table, t0, {}, [])
      ensures Gone(t0, t, k)
    {
      var k :| k in t0 && t0[k] == Unfetched && Reported(table, k);
      assert Resolved(table, k, Lookup(t, k));
      k
    }

    // Tables without entries go
    method DropEmptyTables()
      modifies this
      ensures execs == old(execs)
      ensures tmpDbCache == map t | t in old(tmpDbCache) && old(tmpDbCache)[t] != map[] :: old(tmpDbCache)[t]
    {
      ghost var c0 := tmpDbCache;
      var left := tmpDbCache.Keys;
      while left != {}
        invariant left <= c0.Keys && execs == old(execs)
        invariant forall t :: t in tmpDbCache <==> t in c0 && (t in left || c0[t] != map[])
        invariant forall t :: t in tmpDbCache ==> tmpDbCache[t] == c0[t]
      {
        var tableName :| tableName in left;
        if tmpDbCache[tableName] == map[] { tmpDbCache := tmpDbCache - {tableName}; }
        left := left - {tableName};
      }
    }

    // What becomes of the entries of the cache c0
    ghost predicate Answers(c0: map<string, Table>, d: map<string, Table>) {
      (forall t :: t in d ==> d[t] != map[])
      && forall t, k :: if Asked(c0, t, k) then Resolved(t, k, At2(d, t, k)) else At2(d, t, k) == None
    }

    ghost predicate NoClashes(c0: map<string, Table>) {
      forall t, k :: Asked(c0, t, k) && SourceOf(t, k).Some? ==> NoClash(SourceOf(t, k).value)
    }

    // The answer does not depend on any order of iteration when no row has a leaf and a leaf-list of one name
    lemma AnswersOnce(c0: map<string, Table>, d: map<string, Table>, d2: map<string, Table>)
      requires Answers(c0, d) && Answers(c0, d2)
      requires NoClashes(c0)
      ensures d == d2
    {
      forall t, k ensures At2(d, t, k) == At2(d2, t, k) {
        if Asked(c0, t, k) && SourceOf(t, k).Some? {
          RendersOnce(SourceOf(t, k).value, At2(d, t, k).value.fields, At2(d2, t, k).value.fields);
        }
      }
      hide Cache.SourceOf, Asked, Renders, NoClash, Cache.Answers;
      SameEntries(d, d2);
      SameEntries(d2, d);
      forall t | t in d ensures d[t] == d2[t] {
        forall k ensures k in d[t] <==> k in d2[t] { assert At2(d, t, k) == At2(d2, t, k); }
        forall k | k in d[t] ensures d[t][k] == d2[t][k] { assert At2(d, t, k) == At2(d2, t, k); }
      }
    }

    // Another rendering of one row gives another answer
    lemma OtherAnswer(c0: map<string, Table>, d: map<string, Table>, t: string, k: string, fm: FieldMap)
      requires Answers(c0, d) && Asked(c0, t, k) && SourceOf(t, k).Some? && Renders(SourceOf(t, k).value, fm)
      requires At2(d, t, k) != Some(Fetched(fm))
      ensures exists d2 :: Answers(c0, d2) && d2 != d
    {
      hide Cache.SourceOf, Renders;
      assert Resolved(t, k, At2(d, t, k));
      var d2 := d[t := d[t][k := Fetched(fm)]];
      forall u | u in d2 ensures d2[u] != map[] { assert u == t ==> k in d2[u]; }
      forall t2, k2 ensures if Asked(c0, t2, k2) then Resolved(t2, k2, At2(d2, t2, k2)) else At2(d2, t2, k2) == None {
        if t2 == t && k2 == k {
          assert At2(d2, t, k) == Some(Fetched(fm));
        } else {
          assert At2(d2, t2, k2) == At2(d, t2, k2);
        }
      }
      assert At2(d2, t, k) != At2(d, t, k);
      assert Answers(c0, d2);
    }

    // There is one answer exactly when no row that is asked for has a leaf and a leaf-list of one name
    lemma OneAnswer(c0: map<string, Table>, d: map<string, Table>)
      requires Answers(c0, d)
      ensures (forall d2 :: Answers(c0, d2) ==> d2 == d) <==> NoClashes(c0)
    {
      if NoClashes(c0) {
        forall d2 | Answers(c0, d2) ensures d2 == d { AnswersOnce(c0, d, d2); }
      } else {
        var t, k :| Asked(c0, t, k) && SourceOf(t, k).Some? && !NoClash(SourceOf(t, k).value);
        var row := SourceOf(t, k).value;
        var f, g :| f in row && g in row && f != "NULL" && g != "NULL" && FieldName(f) == FieldName(g) && f != g;
        assert Resolved(t, k, At2(d, t, k));
        var fm := At2(d, t, k).value.fields;
        hide Cache.SourceOf, Renders, Cache.Answers, At2, FieldName, FieldValue, Asked;
        ClashRenders(row, fm, f, g);
        var n := FieldName(f);
        var a, b := fm[n := FieldValue(f, row[f])], fm[n := FieldValue(g, row[g])];
        assert a[n] != b[n];
        OtherAnswer(c0, d, t, k, if fm == a then b else a);
      }
    }

    lemma SameEntries(d: map<string, Table>, d2: map<string, Table>)
      requires (forall t :: t in d ==> d[t] != map[]) && forall t, k :: At2(d, t, k) == At2(d2, t, k)
      ensures d.Keys <= d2.Keys
    {
      forall t | t in d ensures t in d2 {
        var k :| k in d[t];
        assert At2(d, t, k) == At2(d2, t, k);
      }
    }

    ghost predicate AnyReported(c: map<string, Table>) { exists t :: t in c && Progress(t, c[t], {}, []) }

    // Rounds until nothing is fetched; docs: the cache handed over after each round with progress.
    // Without a pipeline failure there is one such round, and it answers every entry that was asked for.
    method FetchDataToTmpCache() returns (docs: seq<map<string, Table>>, ghost ok: bool)
      modifies this
      ensures old(execs) <= execs && (ok <==> AllRun(old(execs), execs))
      ensures ok ==> tmpDbCache == map[]
      ensures ok ==>
        if AnyReported(old(tmpDbCache)) then |docs| == 1 && Answers(old(tmpDbCache), docs[0]) else docs == []
    {
      hide Cache.Settled, Cache.Batched, Cache.Progress, Cache.Resolved, Narrower, Gone, Cache.Answers, Waiting,
        Cache.AnyReported;
      ghost var c0 := tmpDbCache;
      docs, ok := [], true;
      while true
        invariant old(execs) <= execs && (ok <==> AllRun(old(execs), execs))
        invariant ok && docs == [] ==> tmpDbCache == c0
        invariant ok && docs != [] ==>
          |docs| == 1 && tmpDbCache == docs[0] && Answers(c0, docs[0]) && AnyReported(c0) && Waiting(tmpDbCache) == {}
        decreases Waiting(tmpDbCache)
      {
        ghost var c := tmpDbCache;
        var entryToFetch;
        ghost var done;
        entryToFetch, done := FetchAllTables();
        ghost var c2 := tmpDbCache;
        DropEmptyTables();
        if done { RoundDone(c, c2, tmpDbCache); }
        ok := ok && done;
        if entryToFetch == 0 { break; }
        RoundShrinks(c, c2, tmpDbCache);
        docs := docs + [tmpDbCache];
      }
    }

    lemma RoundDone(c: map<string, Table>, c2: map<string, Table>, d: map<string, Table>)
      requires c2.Keys == c.Keys && d == map t | t in c2 && c2[t] != map[] :: c2[t]
      requires forall t :: t in c ==> Settled(t, c[t], {}, [], c2[t])
      ensures Answers(c, d) && Waiting(d) == {}
      ensures AnyReported(c) <==> exists t :: t in c && Progress(t, c[t], {}, [])
      ensures !AnyReported(c) ==> d == map[]
      ensures Waiting(c) == {} ==> !AnyReported(c)
    {
      hide Cache.Resolved;
      forall t, k | Asked(c, t, k) ensures Resolved(t, k, At2(d, t, k)) { assert At2(d, t, k) == Lookup(c2[t], k); }
      forall t, k | !Asked(c, t, k) ensures At2(d, t, k) == None {
        if t in c { assert At2(d, t, k) == Lookup(c2[t], k); }
      }
      forall t, k | t in d && k in d[t] ensures d[t][k] != Unfetched && AnyReported(c) {
        assert At2(d, t, k) == Some(d[t][k]);
        assert Asked(c, t, k);
        ReportedResolved(t, k, d[t][k]);
      }
      forall t | t in d ensures AnyReported(c) { var k :| k in d[t]; }
      if !AnyReported(c) { assert d.Keys == {}; }
      if AnyReported(c) {
        var t :| t in c && Progress(t, c[t], {}, []);
        var k :| k in c[t] && c[t][k] == Unfetched && Reported(t, k);
        assert (t, k) in Waiting(c);
      }
    }

    lemma ReportedResolved(t: string, k: string, e: Entry)
      requires Resolved(t, k, Some(e))
      ensures e != Unfetched && Reported(t, k)
    {
    }

    lemma RoundShrinks(c: map<string, Table>, c2: map<string, Table>, d: map<string, Table>)
      requires c2.Keys == c.Keys && d == map t | t in c2 && c2[t] != map[] :: c2[t]
      requires forall t :: t in c ==> Narrower(c[t], c2[t])
      requires exists t, k :: t in c && Gone(c[t], c2[t], k)
      ensures Waiting(d) < Waiting(c)
    {
      var t, k :| t in c && Gone(c[t], c2[t], k);
      assert (t, k) in Waiting(c) && (t, k) !in Waiting(d);
    }

    lemma PassStart(table: string, t0: Table)
      ensures Settled(table, t0, t0.Keys, [], t0) && Batched(t0, t0.Keys, [], []) && !Progress(table, t0, t0.Keys, [])
    {
    }

    lemma PassEnd(table: string, t0: Table, t: Table)
      requires Settled(table, t0, {}, [], t)
      ensures Narrower(t0, t)
    {
      forall k | k in t ensures k in t0 && (t[k] == Unfetched ==> t0[k] == Unfetched) {
        assert Lookup(t, k) == Some(t[k]);
      }
    }

    // The next entry is as it was; then it is deleted, or joins the batch
    lemma Visit(table: string, t0: Table, left: set<string>, batches: seq<seq<string>>, bulkKeys: seq<string>,
      t: Table, k: string)
      requires Settled(table, t0, left, bulkKeys, t) && Batched(t0, left, batches, bulkKeys) && k in left
        && left <= t0.Keys
      ensures k in t && t[k] == t0[k]
      ensures t[k] != Unfetched ==>
        Settled(table, t0, left - {k}, bulkKeys, t - {k}) && Batched(t0, left - {k}, batches, bulkKeys)
      ensures t[k] == Unfetched ==>
        Settled(table, t0, left - {k}, bulkKeys + [k], t) && Batched(t0, left - {k}, batches, bulkKeys + [k])
      ensures Progress(table, t0, left, bulkKeys)
        <==> Progress(table, t0, left - {k}, if t[k] == Unfetched then bulkKeys + [k] else bulkKeys)
    {
      assert Lookup(t, k) == Lookup(t0, k);
      hide Cache.Resolved, Cache.Reported;
      var all := Concat(batches) + bulkKeys;
      assert k !in all;
      assert Concat(batches) + (bulkKeys + [k]) == all + [k];
      forall x | x != k ensures Lookup(t - {k}, x) == Lookup(t, x) {}
    }

    lemma BeforeFlush(table: string, t0: Table, left: set<string>, batches: seq<seq<string>>, bulkKeys: seq<string>,
      t: Table)
      requires Settled(table, t0, left, bulkKeys, t) && Batched(t0, left, batches, bulkKeys)
      ensures Distinct(bulkKeys) && forall k :: k in bulkKeys ==> k in t && t[k] == Unfetched
    {
      var all := Concat(batches) + bulkKeys;
      forall i, j | 0 <= i < j < |bulkKeys| ensures bulkKeys[i] != bulkKeys[j] {
        assert all[|Concat(batches)| + i] == bulkKeys[i] && all[|Concat(batches)| + j] == bulkKeys[j];
      }
      forall k | k in bulkKeys ensures k in t && t[k] == Unfetched {
        assert k in all;
        assert Lookup(t, k) == Lookup(t0, k);
      }
    }

    lemma AfterFlush(table: string, t0: Table, left: set<string>, batches: seq<seq<string>>, bulkKeys: seq<string>,
      t: Table, t2: Table)
      requires Settled(table, t0, left, bulkKeys, t) && Batched(t0, left, batches, bulkKeys)
        && |bulkKeys| <= MAX_BULK_ENTRIES
      requires forall k :: if k in bulkKeys then Resolved(table, k, Lookup(t2, k)) else Lookup(t2, k) == Lookup(t, k)
      ensures Settled(table, t0, left, [], t2) && Batched(t0, left, batches + [bulkKeys], [])
      ensures Progress(table, t0, left, [])
        <==> Progress(table, t0, left, bulkKeys) || exists k :: k in bulkKeys && Reported(table, k)
    {
      hide Cache.Resolved, Cache.Reported;
      assert (batches + [bulkKeys])[..|batches|] == batches;
      assert Concat(batches + [bulkKeys]) + [] == Concat(batches) + bulkKeys;
      forall k | k in bulkKeys ensures k in t0 && k !in left && t0[k] == Unfetched {
        assert k in Concat(batches) + bulkKeys;
      }
    }

    // The entries of these batches were to be fetched, and are resolved
    ghost predicate Answered(table: string, t0: Table, batches: seq<seq<string>>, t: Table) {
      Distinct(Concat(batches)) && forall k :: k in Concat(batches) ==>
        k in t0 && t0[k] == Unfetched && Resolved(table, k, Lookup(t, k))
    }

    lemma {:induction false} InBatch(batches: seq<seq<string>>, i: nat, j: nat)
      requires i < |batches| && j < |batches[i]|
      ensures batches[i][j] in Concat(batches)
    {
      var n := |batches| - 1;
      if i < n { InBatch(batches[..n], i, j); }
    }

    lemma {:induction false} BatchOf(batches: seq<seq<string>>, k: string) returns (i: nat, j: nat)
      requires k in Concat(batches)
      ensures i < |batches| && j < |batches[i]| && batches[i][j] == k
    {
      var n := |batches| - 1;
      if k in batches[n] {
        i := n;
        j :| j < |batches[n]| && batches[n][j] == k;
      } else {
        i, j := BatchOf(batches[..n], k);
      }
    }

    lemma {:induction false} OneBatch(batches: seq<seq<string>>, i: nat, j: nat, i2: nat, j2: nat)
      requires Distinct(Concat(batches)) && i < |batches| && j < |batches[i]| && i2 < |batches| && j2 < |batches[i2]|
      requires batches[i][j] == batches[i2][j2]
      ensures i == i2 && j == j2
    {
      var n := |batches| - 1;
      var before := Concat(batches[..n]);
      forall x, y | 0 <= x < |before| && 0 <= y < |batches[n]| ensures before[x] != batches[n][y] {
        assert Concat(batches)[x] == before[x] && Concat(batches)[|before| + y] == batches[n][y];
      }
      if i < n { InBatch(batches[..n], i, j); }
      if i2 < n { InBatch(batches[..n], i2, j2); }
      if i < n && i2 < n {
        forall x, y | 0 <= x < y < |before| ensures before[x] != before[y] {
          assert Concat(batches)[x] == before[x] && Concat(batches)[y] == before[y];
        }
        OneBatch(batches[..n], i, j, i2, j2);
      } else if i == n && i2 == n {
        assert Concat(batches)[|before| + j] == Concat(batches)[|before| + j2];
      }
    }

    // Each entry that is to be fetched goes into one batch, once, and no other entry does
    lemma BatchedMeaning(t0: Table, batches: seq<seq<string>>, k: string)
      requires Batched(t0, {}, batches, [])
      ensures (exists i: nat, j: nat :: i < |batches| && j < |batches[i]| && batches[i][j] == k)
        <==> k in t0 && t0[k] == Unfetched
      ensures forall i: nat, j: nat, i2: nat, j2: nat ::
        (i < |batches| && j < |batches[i]| && i2 < |batches| && j2 < |batches[i2]|
          && batches[i][j] == k == batches[i2][j2]) ==> i == i2 && j == j2
    {
      assert Concat(batches) + [] == Concat(batches);
      hide Concat;
      if k in t0 && t0[k] == Unfetched { var i, j := BatchOf(batches, k); }
      forall i: nat, j: nat | i < |batches| && j < |batches[i]| && batches[i][j] == k ensures k in Concat(batches) {
        InBatch(batches, i, j);
      }
      forall i: nat, j: nat, i2: nat, j2: nat | i < |batches| && j < |batches[i]| && i2 < |batches|
        && j2 < |batches[i2]| && batches[i][j] == k == batches[i2][j2]
        ensures i == i2 && j == j2
      {
        OneBatch(batches, i, j, i2, j2);
      }
    }

    // When a pipeline fails, the entries of the batches before it show the wanted rows all the same
    lemma AnsweredMeaning(table: string, t0: Table, batches: seq<seq<string>>, t: Table, i: nat, j: nat)
      requires Answered(table, t0, batches, t) && i < |batches| && j < |batches[i]|
      ensures var k := batches[i][j];
        k in t0 && t0[k] == Unfetched
        && forall row :: Wanted(Requests(table, k), Stored(table, k), row) ==>
          k in t && t[k].Fetched? && forall n :: Shows(row, t[k].fields, n)
    {
      InBatch(batches, i, j);
      hide Cache.Resolved, Cache.Requests, Cache.Stored, Wanted, Shows, Concat;
      ResolvedMeaning(table, batches[i][j], Lookup(t, batches[i][j]));
    }

    lemma FailedFlush(table: string, t0: Table, left: set<string>, batches: seq<seq<string>>, bulkKeys: seq<string>,
      t: Table, t2: Table)
      requires Settled(table, t0, left, bulkKeys, t) && Batched(t0, left, batches, bulkKeys)
      requires forall k :: k in bulkKeys ==> k in t && t[k] == Unfetched
      requires forall k :: k !in bulkKeys ==> Lookup(t2, k) == Lookup(t, k)
      ensures Narrower(t0, t2) && Answered(table, t0, batches, t2)
    {
      hide Cache.Reported, Cache.Resolved;
      forall k | k in t2 ensures k in t0 && (t2[k] == Unfetched ==> t0[k] == Unfetched) {
        assert Lookup(t2, k) == Some(t2[k]);
        if k in bulkKeys { assert Lookup(t, k) == Lookup(t0, k); }
        else if k in t0 && k !in left && t0[k] == Unfetched { assert Resolved(table, k, Lookup(t, k)); }
      }
      var a := Concat(batches);
      var all := a + bulkKeys;
      assert forall i :: 0 <= i < |a| ==> all[i] == a[i];
      forall k | k in a ensures k in t0 && t0[k] == Unfetched && Resolved(table, k, Lookup(t2, k)) {
        assert k in all;
        var i :| 0 <= i < |a| && a[i] == k;
        assert forall j :: 0 <= j < |bulkKeys| ==> all[|a| + j] == bulkKeys[j];
        assert k !in bulkKeys;
      }
    }
  }

  // Only one table has changed
  ghost predicate OnlyTable(c0: map<string, Table>, table: string, c: map<string, Table>) {
    table in c && c == c0[table := c[table]]
  }

  lemma SameCache(c: map<string, Table>, table: string)
    requires table in c
    ensures OnlyTable(c, table, c)
  {
  }

  lemma OtherTable(c0: map<string, Table>, table: string, c: map<string, Table>, t: Table)
    requires OnlyTable(c0, table, c)
    ensures OnlyTable(c0, table, c[table := t])
  {
  }

  lemma OnlyTwice(c0: map<string, Table>, table: string, c: map<string, Table>, c2: map<string, Table>)
    requires OnlyTable(c0, table, c) && OnlyTable(c, table, c2)
    ensures OnlyTable(c0, table, c2)
  {
  }

  function Concat(batches: seq<seq<string>>): seq<string> {
    if batches == [] then [] else Concat(batches[..|batches| - 1]) + batches[|batches| - 1]
  }

  // Nothing new is to be fetched
  ghost predicate Narrower(t0: Table, t: Table) {
    forall k :: k in t ==> k in t0 && (t[k] == Unfetched ==> t0[k] == Unfetched)
  }

  // k was to be fetched and no longer is
  ghost predicate Gone(t0: Table, t: Table, k: string) {
    k in t0 && t0[k] == Unfetched && (k in t ==> t[k] != Unfetched)
  }

  function At2(c: map<string, Table>, t: string, k: string): Option<Entry> { if t in c then Lookup(c[t], k) else None }

  predicate Asked(c: map<string, Table>, t: string, k: string) { At2(c, t, k) == Some(Unfetched) }

  // The entries still to be fetched
  ghost function Waiting(c: map<string, Table>): set<(string, string)> {
    set t, k | t in c && k in c[t] && c[t][k] == Unfetched :: (t, k)
  }
}
