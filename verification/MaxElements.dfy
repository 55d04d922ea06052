// checkMaxElemConstraint: the element count of a table, kept over a validation session (cvl_syntax.go).
module MaxElements {
  import opened Wrappers

  datatype Op = CREATE | UPDATE | DELETE

  datatype Ret = SUCCESS | FAILURE | SYNTAX_ERROR

  class Session {
    const tableSize: map<string, int>            // the max-elements of each table, -1 for no limit
    const store: map<string, set<string>>        // the keys stored when the session began
    var maxTableElem: map<string, int>
    ghost var planned: map<string, set<string>>  // the keys each table would have after the requests accepted so far

    constructor (tableSize: map<string, int>, store: map<string, set<string>>)
      requires tableSize.Keys == store.Keys && forall t :: t in tableSize ==> tableSize[t] >= -1
      ensures Valid() && planned == store && this.tableSize == tableSize && this.store == store
    {
      this.tableSize, this.store, maxTableElem, planned := tableSize, store, map[], store;
    }

    // The counter is the size the table would have; a table not yet counted is as stored
    ghost predicate Valid()
      reads this
    {
      tableSize.Keys == store.Keys == planned.Keys && maxTableElem.Keys <= planned.Keys
        && (forall t :: t in tableSize ==> tableSize[t] >= -1)
      && (forall t :: t in maxTableElem ==> maxTableElem[t] == |planned[t]| && tableSize[t] != -1)
      && (forall t :: t in planned && t !in maxTableElem && tableSize[t] != -1 ==> planned[t] == store[t])
      && forall t :: t in planned && tableSize[t] != -1 && |store[t]| <= tableSize[t] ==> |planned[t]| <= tableSize[t]
    }

    // counted: whether the store answers when it is asked for the size.
    // A create names an absent key and a delete a present one.
    method CheckMaxElemConstraint(op: Op, table: string, key: string, counted: bool) returns (ret: Ret)
      requires Valid() && table in planned
      requires (op == CREATE ==> key !in planned[table]) && (op == DELETE ==> key in planned[table])
      modifies this
      ensures Valid()
      ensures planned == if ret == SUCCESS then Planned(old(planned), op, table, key) else old(planned)
      ensures ret == FAILURE <==> op != UPDATE && tableSize[table] != -1 && table !in old(maxTableElem) && !counted
      ensures ret == SYNTAX_ERROR <==>
        ret != FAILURE && op == CREATE && tableSize[table] != -1 && |old(planned)[table]| >= tableSize[table]
    {
      ret := SUCCESS;
      if op == UPDATE || tableSize[table] == -1 {
        Plan(op, table, key);
        return;
      }
      if table !in maxTableElem {
        if !counted { return FAILURE; }
        maxTableElem := maxTableElem[table := |store[table]|];
      }
      assert Valid();
      ret := Count(op, table, key);
    }

    method Count(op: Op, table: string, ghost key: string) returns (ret: Ret)
      requires Valid() && table in maxTableElem && op != UPDATE && tableSize[table] != -1
      requires if op == CREATE then key !in planned[table] else key in planned[table]
      modifies this
      ensures Valid() && (ret == SYNTAX_ERROR <==> op == CREATE && |old(planned)[table]| >= tableSize[table])
        && ret != FAILURE
      ensures planned == if ret == SUCCESS then Planned(old(planned), op, table, key) else old(planned)
    {
      var curSize := maxTableElem[table];
      if op == DELETE {
        assert planned[table] != {};
        if curSize > 0 { maxTableElem := maxTableElem[table := curSize - 1]; }
        Plan(op, table, key);
        return SUCCESS;
      }
      if curSize >= tableSize[table] { return SYNTAX_ERROR; }
      curSize := curSize + 1;
      if curSize > tableSize[table] { return SYNTAX_ERROR; }
      maxTableElem := maxTableElem[table := curSize];
      Plan(op, table, key);
      ret := SUCCESS;
    }

    // What the counter says of a table with a limit, which is kept unless the stored table is over it
    lemma CountsKept(t: string)
      requires Valid() && t in planned && tableSize[t] != -1
      ensures |store[t]| <= tableSize[t] ==> |planned[t]| <= tableSize[t]
      ensures if t in maxTableElem then maxTableElem[t] == |planned[t]| else planned[t] == store[t]
    {
    }

    ghost method Plan(op: Op, table: string, key: string)
      requires table in planned
      modifies this`planned
      ensures planned == Planned(old(planned), op, table, key)
    {
      planned := Planned(planned, op, table, key);
    }
  }

  function Planned(planned: map<string, set<string>>, op: Op, table: string, key: string): map<string, set<string>>
    requires table in planned
  {
    match op
    case CREATE => planned[table := planned[table] + {key}]
    case DELETE => planned[table := planned[table] - {key}]
    case UPDATE => planned
  }

  // A create adds the key to its table, a delete takes it out, and nothing else changes
  lemma PlannedKeys(planned: map<string, set<string>>, op: Op, table: string, key: string, t: string, k: string)
    requires table in planned && t in planned
    ensures var after := Planned(planned, op, table, key);
      t in after
      && (k in after[t] <==> if t == table && k == key && op == CREATE then true
        else if t == table && k == key && op == DELETE then false else k in planned[t])
  {
  }
}
