// Names of YANG lists.
module YangLists {
  import opened Text

  const LIST := "_LIST"

  predicate IsListName(name: string) { HasSuffix(name, LIST) }

  // getYangListToRedisTbl: the table of a list, with or without the suffix of the list
  function ListTable(tableOf: map<string, string>, name: string): string {
    var base := if IsListName(name) then name[..|name| - |LIST|] else name;
    if base in tableOf && tableOf[base] != "" then tableOf[base] else base
  }

  // base_LIST names the table that base is mapped to, and its own without a mapping; so does base, if it does not look
  // like a list
  lemma ListNamed(tableOf: map<string, string>, base: string)
    ensures IsListName(base + "_LIST")
    ensures base in tableOf && tableOf[base] != "" ==> ListTable(tableOf, base + "_LIST") == tableOf[base]
    ensures base !in tableOf || tableOf[base] == "" ==> ListTable(tableOf, base + "_LIST") == base
    ensures |base| < 5 || base[|base| - 5..] != "_LIST" ==>
      ListTable(tableOf, base) == ListTable(tableOf, base + "_LIST")
  {
    var name := base + "_LIST";
    assert name[|name| - 5..] == "_LIST" && name[..|name| - 5] == base;
  }
}
