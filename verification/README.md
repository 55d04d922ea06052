# Verified model of the switch-management cores

The repository validates and writes the configuration of a network switch. This project models the parts of it that
carry an algorithm or a protocol, and proves what they are for. `dafny verify dfyconfig.toml` checks all of it.

- **YANG trees** (`YangNodes`, `YangTree`, `YangMerge*`): the linked n-ary tree of the semantic validator, its attach and
  detach operations, and the recursive merge. The merge runs on heap nodes and refines a merge of tree values; theorems about
  the tree values then say what a merge means. A source node moves into the destination, so the source list shrinks as the merge runs.
- **Patterns** (`PatternSyntax`, `PatternGrammar`, `FixYangRegexp`, `PatternText`, `PatternTokens`, `PatternMeaning`, `PatternLimits`, `StringType`): the rewrite of YANG patterns for
  Go's regexp package. Both dialects are lexed into one token language and parsed by one grammar, so that "same meaning" is a theorem
  about languages. The validator above it keeps a cache of compiled patterns.
- **Dependencies and ordered writes** (`DepGraph`, `DepTables`, `ConfigDb`, `RefIntegrity`, `TablePass`, `RowPlan`, `LeafList`,
  `RowMeaning`, `RequestMeaning`, `CommonApp`, `IntegrityMeaning`, `IntegrityExact`, `IntegrityLimits`): the dependency graph of tables, its closure and topological sort, and the deletes, creates,
  updates and replaces that rely on the order. Writes queue commands behind a committed store, as a transaction does; an intermediate
  state is the store after any prefix of the queue.
- **Key odometer** (`KeyOdometer`): the mixed-radix counter over the values of a Redis key.
- **Session cache and counter** (`DepCache`, `MaxElements`): the batched fetch that overlays pending requests on the store, and the
  element counter of a table.
- **Paths** (`PathInfo`, `Numbers`): the path parser with escapes and numbered duplicate names.
- **Subscriptions** (`Subscribe`): three registries and the change-suppressing streams of the subscribers.
- **Spanning tree** (`Stp`): global defaults, the VLANs that follow them, and the cap of 255 instances.
- **ACL rules** (`AclRule`, `AclMeaning`, `Numbers`): the codec between OpenConfig rules and database rows.

Wherever the program iterates over a Go map, the model takes the next key in an arbitrary order (`:|`), and what is proved holds for
every order. What the environment answers is an input: which writes validation refuses (`DB.refuses`), for which tables the keys
cannot be listed (`DB.keysFail`), which pipeline executions fail (`Cache.pipelineFails`), which subscriptions and counts work. The
conditions under which a result is weaker are stated over these inputs and the request. `Wrappers`, `Text` and `YangLists` hold shared types and string functions.

Each method is proved against a function of its inputs. So that a slip made in both cannot pass, what each of these functions gives is
stated once more without naming it: with the literal field names, texts and numbers of the source (`RowMeaning.HoldsRequest`,
`Stp.GlobalField`, `AclMeaning.HasNumber`), field by field, or digit by digit.

## What the code does that its comments and tests do not say

- *Merge.* Where both sides hold a leaf-list and both are marked as one, the source replaces the whole list exactly when the
  destination's entries are adjacent at that turn (`YangMergeFields.ReplacedIff`); in terms of the destination alone, up to leaf-lists that
  the source replaces before (`YangMergeFields.ReplacedIffBridged`). Of separated entries only the first run goes. A leaf-list that
  holds one default value is not marked (`src/cvl/cvl_semantics.go:115-124`): then of several source entries only the last survives
  (`YangMergeFields.UnmarkedDefault`). A source leaf without text leaves the destination's text.
- *Lost nodes.* The recursive merge holds a cursor on the first destination sibling; the comment at `src/cvl/cvl_semantics.go:532-534`
  relies on that being a key. A Redis key with a wrong number of components gives a list node without keys, whose first child can be an
  entry of a leaf-list. A source entry of that leaf-list then deletes the cursor, and every later source node is detached and appended to no
  parent (`YangMergeRun.LoseRest`, `YangMergeFields.CursorLost`). With adjacent leaf-lists the merge overrides every field exactly
  when this does not happen (`YangMergeFields.OverridesIffGuarded`).
- *Patterns.* The output is the anchored pattern exactly for the patterns called `Good`: not empty, no leading `^`, not ending in `$`
  or in a character of several bytes, and no top-level `^` after an escaped `[`. `PatternLimits` says what becomes of the others: the
  empty pattern accepts every string, a leading `^` is lost as a character, a `^` after an escaped `[` becomes an anchor, a trailing `\$`
  leaves the end open, and a last character of several bytes leaves a group unclosed.
- *Ordered writes.* Take the end of an operation at which a row may refer to less: the store before a create, update or replace, the store
  behind a delete. No intermediate state has a dangling leafref, whatever the order of rows, exactly when every leafref of that end
  is met by a row that is stored at both ends or by the referring row itself, and every leafref of the other end is met at that end by
  such a row or by one of another table (`IntegrityExact.SoundIff`, the condition `RowPlan.Sound`). So rows that the request empties must
  not be referred to before (`IntegrityLimits.EmptyingUpdate`), and a leafref into the row's own table needs a row that stays
  (`IntegrityLimits.SelfReference`; `addDepTables` would not end on such a table either). Where rows only appear, or only
  vanish in a delete, and no requested table refers to itself, sound ends suffice (`RowPlan.DirectedSound`).
- *Refusals.* `DeleteTable` reports success when validation refuses one of its deletes, and a refused write of remaining leaf-list items is
  only logged. The deletes then lead to another store than planned: rows of such a table stay, and a row whose write is refused just
  loses the other fields of the request (`CommonApp.Kept`). The states lead to that store, and the condition above applies to
  it; it can fail (`IntegrityLimits.HalfDeleted`). A delete of fields of an absent row ends all deletes without an error
  (`stopped`), and the other operations go on from there.
- *Emptying updates.* An UPDATE that names nothing but leaf-lists that are empty and absent deletes its row, and the same UPDATE once more
  creates it again (`RowMeaning.UpdateEmpties`, `RowMeaning.UpdateTwice`). A DELETE that leaves a leaf-list with one empty item drops
  the field when it is repeated (`RowMeaning.DeleteTwice`).
- *Cache.* A row that has a leaf and a leaf-list of one name (`x` and `x@`) is rendered by whichever field the map yields last
  (`DepCache.ClashRenders`); the answer is the same for every order exactly when no row that is asked for has both (`DepCache.Cache.OneAnswer`). An entry with a pending UPDATE but no stored row is removed.
- *Subscriptions.* A failed start restores `nMap` and `sMap` always, and `stopMap` when nobody was registered under the same channel.
- *ACL rules.* A sequence id is read back exactly when it is at most 65536 or at least 2147549185. Port 0 and a list of unset TCP flags do not
  survive, and a port range needs a dash once written. An assigned protocol number comes back as its name, an unset protocol as the number
  0, and REJECT as DROP (`AclRule.DecodeEncoded`). A row with both forms of one port is read as whichever the map yields last; it has one reading exactly when both give the same port (`AclRule.OneReading`).
- *Paths.* Every predicate is bound to its own numbered name exactly when these names are pairwise distinct (`PathInfo.OwnKeysIff`), as they are
  without `#`. Of predicates `a`, `a#2` and `a` the second `a` is bound to `a#3` (`PathInfo.HashTaken`).
- *Spanning tree.* A VLAN field that was overridden with the current global value is carried along by the next global change
  (`Stp.UpdatedGet`), because the code compares values.

## Model

| member | source | states |
|---|---|---|
| `YangNodes.AddYangNode` | src/cvl/cvl_semantics.go:158-196 | the new node is appended to the child chain, in order, with its value as a text node without parent |
| `YangNodes.AppendSubtree` | src/cvl/cvl_semantics.go:322-347 | the child chain becomes the old children followed by the appended siblings, doubly linked and parented; on failure nothing changes |
| `YangNodes.DetachSubtree` | src/cvl/cvl_semantics.go:350-369 | the parent has no children; the siblings keep their links and lose their parent |
| `YangNodes.DetachNode` | src/cvl/cvl_semantics.go:372-412 | exactly one element leaves the child sequence, wherever it stands, and the rest stays a linked chain |
| `YangMergeOps.DetachFrom` | src/cvl/cvl_semantics.go:372-412 | detaching a child removes exactly its tree from the represented forest, which stays well formed |
| `YangMergeOps.AppendForest` | src/cvl/cvl_semantics.go:322-347 | appending siblings appends their trees to the represented forest |
| `YangMergeOps.AddChild` | src/cvl/cvl_semantics.go:158-196 | adding a node appends one new tree of fresh nodes to the represented forest |
| `YangMergeSearch.DeleteDestLeafList` | src/cvl/cvl_semantics.go:417-436 | removes the run of equally named siblings that starts at the node, and nothing else |
| `YangMergeSearch.CheckIfListNodeExists` | src/cvl/cvl_semantics.go:439-471 | returns the cached list instance exactly when it is one of the destination's siblings |
| `YangMergeSearch.FindByName` | src/cvl/cvl_semantics.go:498-504 | finds the first sibling of the name, or none |
| `YangMergeRun.MergeSrcNode` | src/cvl/cvl_semantics.go:493-578 | one source node, with the restart after a deleted leaf-list, is one step of the merge of trees and ends |
| `YangMergeRun.MergeYangData` | src/cvl/cvl_semantics.go:476-581 | the merge of linked sibling lists ends, keeps both trees well formed and disjoint, and leaves the merge of the trees they stood for |
| `YangMergeRun.MergeDocuments` | src/cvl/cvl_semantics.go:476-581 | merging a document into a document leaves one well-formed document, the merge of the two |
| `YangMergeSets.MergeFromSep` | src/cvl/cvl_semantics.go:476-581 | a merge puts no node into two chains: merged trees share no node and use only nodes of the two inputs |
| `YangMergeTyped.MergeFromTyped` | src/cvl/cvl_semantics.go:476-581 | a merge of trees that fit the schema fits the schema |
| `YangMergeRun.LoseRest` | src/cvl/cvl_semantics.go:417-436 | when the first destination sibling is deleted, its run goes, and every source node from there on is taken off its list and reaches no other |
| `YangMergeFields.LeafMerge` | src/cvl/cvl_semantics.go:484-488 | a matching leaf takes the source's text, and keeps its own when the source has none |
| `YangMergeFields.DeleteRunFields` | src/cvl/cvl_semantics.go:417-436 | the leaf-list is deleted entirely exactly when its entries are adjacent; no other field changes |
| `YangMergeFields.MergeOverrides` | src/cvl/cvl_semantics.go:476-581 | field by field: marked source leaf-lists replace marked ones in source order, any other source field gives its last text to the first entry, the rest stays |
| `YangMergeFields.ReplacedIff` | src/cvl/cvl_semantics.go:532-563 | the whole source list is what the merge leaves under the name exactly when the marks and the adjacency of the destination's entries allow it |
| `YangMergeFields.ReplacedIffBridged` | src/cvl/cvl_semantics.go:532-563 | for marked leaf-lists the condition read off the destination: only entries of leaf-lists replaced before stand between two entries |
| `YangMergeFields.UnmarkedDefault` | src/cvl/cvl_semantics.go:115-124 | over one unmarked default value two source entries leave only the second |
| `YangMergeFields.CursorLost` | src/cvl/cvl_semantics.go:551-563 | a source entry that deletes the first sibling leaves the fields merged so far without that leaf-list, and all later source fields are lost |
| `YangMergeFields.OverridesIffGuarded` | src/cvl/cvl_semantics.go:476-581 | with adjacent leaf-lists every field is overridden exactly when no source entry deletes the first sibling |
| `YangMergeInstances.MergeInstances` | src/cvl/cvl_semantics.go:439-471 | instances known to the request cache merge in place, all others are appended in source order, also when the source's own instances are cached |
| `YangMergeContainers.MergeContainers` | src/cvl/cvl_semantics.go:476-581 | among children with a name of their own each, the matching ones merge in place and the others follow in source order |
| `YangLists.ListNamed` | src/cvl/cvl.go:534-545 | a list of a table names the table it is mapped to, with and without its suffix, and its own name without a mapping |
| `YangMergeCases.CachedUnder` | src/cvl/cvl_semantics.go:439-471 | the instance of a list node is the one that the request cache holds under the mapped table and the key the node reads, for any list of the table |
| `YangMergeCases.MergeCached` | src/cvl/cvl_semantics.go:439-471 | a source instance whose cached node is a destination sibling is merged into that sibling and into no other |
| `YangMergeCases.MergeUncached` | src/cvl/cvl_semantics.go:439-471 | a source instance that is not cached, or not among the siblings, is appended behind them |
| `YangMergeCases.EntriesReplaced` | src/cvl/cvl_semantics.go:532-563 | behind a key, two marked entries are replaced by two source entries, in their order |
| `YangMergeCases.SingleMerged` | src/cvl/cvl_semantics.go:506-530 | an element that is no list and not marked is merged into the sibling of its name |
| `FixYangRegexp.Convert` | ygot-modified-files/string_type.go:148-199 | the loop over runes with byte offsets writes the translation of the pattern |
| `PatternText.PlainText` | ygot-modified-files/string_type.go:148-199 | a pattern without special characters is written between `^(` and `)$` |
| `PatternText.DollarText` | ygot-modified-files/string_type.go:165-169 | a `$` inside the pattern is written with a backslash |
| `PatternText.CaretText` | ygot-modified-files/string_type.go:170-177 | a `^` behind other characters is written with a backslash, unless a `[` stands right before it |
| `PatternText.EscapedText` | ygot-modified-files/string_type.go:165-185 | an escaped character, be it `^` or `$`, is written as it is |
| `PatternText.AnchorText` | ygot-modified-files/string_type.go:155-193 | a leading `^` is not doubled and gets no parentheses, and a final `$` is not doubled |
| `PatternText.GoodIff` | ygot-modified-files/string_type.go:148-199 | a pattern without a `^` behind an escaped bracket is good exactly when it ends in an ASCII character other than `$` and does not start with `^` |
| `PatternTokens.TokensOfFix` | ygot-modified-files/string_type.go:148-199 | what Go reads for the output, token by token, for every pattern made of YANG tokens |
| `PatternTokens.FixIsAnchoring` | ygot-modified-files/string_type.go:148-199 | Go reads the output as the YANG tokens between anchors and parentheses if and only if the pattern is good |
| `PatternMeaning.ParseAnchored` | ygot-modified-files/string_type.go:155-161 | the parentheses keep a top-level alternation inside the anchors |
| `PatternMeaning.AnchoredMeaning` | ygot-modified-files/string_type.go:65-69 | an anchored pattern found anywhere is the pattern matched against the whole string |
| `PatternMeaning.FixKeepsMeaning` | ygot-modified-files/string_type.go:148-199 | for good patterns the output, as Go reads it, accepts exactly the strings the YANG pattern accepts (section 9.4.6 of RFC 6020) |
| `PatternMeaning.CategoryPattern` | ygot-modified-files/string_type.go:148-199 | a category escape is a good pattern and accepts one character of its category |
| `PatternGrammar.RepeatMeaning` | ygot-modified-files/string_type.go:65-69 | a repeated character accepts the runs of it whose length is within the bounds |
| `PatternGrammar.SignTexts` | ygot-modified-files/string_type.go:65-69 | `*`, `+` and `?` are none or more, one or more, and none or one, in both dialects |
| `PatternGrammar.FromTo` | ygot-modified-files/string_type.go:65-69 | bounds in braces are decimal numbers |
| `PatternGrammar.ClassMeaning` | ygot-modified-files/string_type.go:65-69 | a class accepts one character of its ranges and items, a negated one any other |
| `PatternGrammar.ClassText` | ygot-modified-files/string_type.go:65-69 | a class ends at its bracket, and a caret negates it behind the opening bracket only |
| `PatternGrammar.ChoiceText` | ygot-modified-files/string_type.go:65-69 | alternatives reach to the ends of the pattern |
| `PatternGrammar.GroupText` | ygot-modified-files/string_type.go:65-69 | alternatives in a group reach to the ends of the group |
| `PatternGrammar.AnchorTexts` | ygot-modified-files/string_type.go:65-69 | `^` and `$` are anchors in Go and characters in YANG |
| `PatternGrammar.SearchMeaning` | ygot-modified-files/string_type.go:65-69 | Go finds a character anywhere in the value, and between anchors only the value that is that character |
| `PatternLimits.EmptyPattern` | ygot-modified-files/string_type.go:148-199 | the empty pattern is not anchored: the output accepts every string, and not just the empty one |
| `PatternLimits.LeadingCaret` | ygot-modified-files/string_type.go:155-161 | for every pattern with a leading `^` and no top-level alternative, the output accepts what the rest of the pattern accepts, and the pattern accepts that behind a `^` |
| `PatternLimits.StrayCarets` | ygot-modified-files/string_type.go:170-177 | the output accepts what the pattern would accept if each `^` after an escaped bracket were an anchor |
| `PatternLimits.StrayCaret` | ygot-modified-files/string_type.go:170-177 | so the output for an escaped bracket and a `^` accepts nothing |
| `PatternLimits.TrailingDollar` | ygot-modified-files/string_type.go:186-193 | for every pattern that ends in an escaped `$` the output accepts exactly the strings with an accepted prefix |
| `PatternLimits.MultiByteEnd` | ygot-modified-files/string_type.go:186-193 | a pattern whose last rune has several bytes loses its closing parenthesis and does not compile |
| `StringType.Validator.ValidateString` | ygot-modified-files/string_type.go:32-73 | accepts exactly strings within the lengths that every compiled pattern matches, whatever is cached; the cache stays sound |
| `StringType.Validator.ValidateStringSchema` | ygot-modified-files/string_type.go:107-141 | succeeds exactly for sound schemas, marks exactly those as validated, and fills the cache with their patterns |
| `StringType.ValidatesYang` | ygot-modified-files/string_type.go:32-73 | on good patterns the validator accepts exactly the strings whose length is in one of the ranges, if there are any, and which every pattern accepts as a whole |
| `DepGraph.Graph.Toposort` | src/cvl/cvl_api.go:638-644 | Kahn's algorithm gives every node once behind its predecessors, and fails exactly on a cycle |
| `DepGraph.OrderedIsAcyclic` | src/cvl/cvl_api.go:638-644 | a graph with an order has no cycle |
| `DepGraph.StuckIsCyclic` | src/cvl/cvl_api.go:638-644 | a set in which every node has a predecessor contains a cycle |
| `DepTables.Cvl.AddDepEdges` | src/cvl/cvl_api.go:568-608 | an edge for each pair of tables of which one has a leafref path through the other's list, once |
| `DepTables.Cvl.SortDepTables` | src/cvl/cvl_api.go:611-645 | each known table once, no table behind one it refers to; fails exactly when the known tables depend on each other in a cycle |
| `DepTables.ReferrerFirst` | src/cvl/cvl_api.go:568-645 | in such an order every table stands before the tables its leafrefs name |
| `DepTables.RefIsEdge` | src/cvl/cvl.go:410-425 | every leafref into another table is an edge |
| `DepTables.ThroughList` | src/cvl/cvl.go:410-425 | a path goes through the lists of the known tables whose name and suffix stand in it behind a `:` or a `/`, and through no others |
| `DepTables.RefsAre` | src/cvl/cvl_api.go:662-675 | a table refers to another exactly when a path of one of its leafrefs goes through that list |
| `DepTables.EdgesAre` | src/cvl/cvl_api.go:568-608 | an edge needs the other name and its suffix anywhere in a path of the table |
| `DepTables.Cvl.AddDepTables` | src/cvl/cvl_api.go:662-675 | on acyclic leafrefs the recursion without a visited check ends and marks exactly the tables reachable by leafrefs |
| `DepTables.ReachStep` | src/cvl/cvl_api.go:662-675 | what a table reaches is itself and what its targets reach |
| `DepTables.ReachedOn` | src/cvl/cvl_api.go:662-675 | what a reached table refers to is reached |
| `DepTables.OnlyReached` | src/cvl/cvl_api.go:662-675 | and nothing else but the table itself |
| `DepTables.Cvl.GetDepTables` | src/cvl/cvl_api.go:678-710 | the reachable tables in dependency order, with every table that a leafref path of one of them goes through; fails exactly for an unknown table or a cycle among them |
| `ConfigDb.DB.SetEntry` | src/translib/db/db.go:734-800 | queues commands that leave the row with exactly the given fields, or nothing exactly when validation refuses |
| `ConfigDb.DB.DeleteTable` | src/translib/db/db.go:957-984 | queues deletes of distinct stored rows of the table, all of them exactly if none is refused; fails exactly if the keys cannot be listed, so a refusal is not reported |
| `ConfigDb.OneMore` | src/translib/db/db.go:1296-1355 | what each command does to each field of each row: the last write of a field counts, a row without fields is gone |
| `RefIntegrity.StageSafe` | src/translib/common_app.go:445-541 | while tables are done in dependency order no state has a dangling leafref, if the leafrefs of the two ends are met by rows that stay or, at the wider end, of other tables |
| `RefIntegrity.EndsSuffice` | src/translib/common_app.go:445-541 | where rows only appear and no table that changes refers to itself, two ends without dangling leafrefs are enough |
| `RefIntegrity.OrderDown` | src/translib/common_app.go:564-571 | every position in the sorted list is such a stage, downwards for deletes and upwards for the other writes |
| `TablePass.RowTrace` | src/translib/common_app.go:457-533 | every command of a row keeps the states on the way to the store the commands reach |
| `TablePass.PassSafe` | src/translib/common_app.go:445-663 | no state of a pass has a dangling leafref under the condition on its two ends |
| `RowPlan.CmdsWay` | src/translib/common_app.go:463-657 | whatever a row holds, the states of its commands mix its old and new fields only, and a row that is there before and after is never gone in between |
| `RowPlan.DirectedSound` | src/translib/common_app.go:382-412 | deletes that come first, and writes that empty no row, meet the condition when their ends are sound and no requested table refers to itself |
| `CommonApp.CommonApp.CmnAppCRUCommonDbOpn` | src/translib/common_app.go:445-541 | parent first: every state is on the way to the planned store, which the queue reaches in any order of rows; it fails only for a cycle, a create of a stored row or a refused command of the request, and succeeds only if there is no cycle and no row to create is stored |
| `CommonApp.CommonApp.CmnAppDelDbOpn` | src/translib/common_app.go:543-663 | child first: the same for deletes of tables, rows and fields, towards the planned store but for the rows whose delete or write is refused |
| `CommonApp.CommonApp.NothingKept` | src/translib/common_app.go:543-663 | without a refusal the deletes lead to the planned store |
| `CommonApp.CommonApp.ProcessCommon` | src/translib/common_app.go:363-415 | deletes, creates, updates, replaces: the store each of them leads to, the cause of every failure, and no intermediate state with a dangling leafref when the deletes meet the condition towards the store they lead to and the other operations towards theirs |
| `RequestMeaning.LastDecides` | src/translib/common_app.go:382-412 | for a row that is not stored, each field has the value of the last operation that sets it, of creates, updates and replaces in this order |
| `RequestMeaning.DeletesMeaning` | src/translib/common_app.go:543-663 | what deletes leave of each row, refused or not: the row asked for, the whole row where a delete of its table is refused, or the row without the other fields where its write is refused |
| `RequestMeaning.FailingMeaning` | src/translib/common_app.go:445-663 | what an operation failed for, at a question that was asked meanwhile |
| `RowMeaning.PlannedMeaning` | src/translib/common_app.go:445-663 | an operation changes exactly the rows its request names, or all stored rows of a table that is deleted |
| `CommonApp.PhaseSafe` | src/translib/common_app.go:382-412 | an operation that meets the condition adds no unsafe state to those before it, whether or not it ends early |
| `IntegrityExact.IntegrityIff` | src/translib/common_app.go:445-663 | over all orders of rows, no state of a pass has a dangling leafref exactly under the condition on its two ends |
| `IntegrityExact.SoundIff` | src/translib/common_app.go:382-412 | the same for each operation of a request, over the stores before and behind it |
| `IntegrityMeaning.NoDanglingIff` | src/cvl/cvl_semantics.go:1219-1262 | no leafref dangles exactly when each plain field, each item of a leaf-list and each part of a key with a leafref is the key of a row of a table on one of its paths |
| `IntegrityLimits.SelfReference` | src/cvl/cvl_api.go:576-579 | a table that refers to itself can dangle between two sound stores |
| `IntegrityLimits.HalfDeleted` | src/translib/db/db.go:971-979 | a refused delete inside a table delete is not reported, and the delete of the parent row leaves a dangling leafref |
| `IntegrityLimits.EmptyingUpdate` | src/translib/common_app.go:498-506 | an update of nothing but empty, absent leaf-lists deletes its row and leaves a dangling leafref on the way |
| `CommonApp.CommonApp.CheckAndProcessLeafList` | src/translib/common_app.go:673-728 | what is written and what is left to delete, for any order of fields |
| `LeafList.RemoveElement` | src/translib/app_utils.go:209-219 | removes the first occurrence of the item and nothing else |
| `LeafList.ContainsItem` | src/translib/app_utils.go:200-207 | whether the item is in the list |
| `LeafList.UnionMeaning` | src/translib/common_app.go:683-695 | the old list is a prefix of the updated list, whose items are those of both |
| `LeafList.UnionOrder` | src/translib/common_app.go:683-695 | the new items come behind, in the order of the request |
| `LeafList.WithoutIsMinus` | src/translib/common_app.go:683-695 | on a list without duplicates, removing item by item leaves exactly the other items in order |
| `LeafList.WithoutCounts` | src/translib/common_app.go:683-695 | on any list, one occurrence goes for each item asked for |
| `RowMeaning.UpdateMeaning` | src/translib/common_app.go:498-506 | the row behind the commands of an update of a stored row: old items first and new ones behind in order, other requested fields replaced, the rest unchanged; no row when the request brings nothing new |
| `RowMeaning.UpdateTwice` | src/translib/common_app.go:498-506 | the same update again changes nothing exactly when it brings something new to the row it finds first, or to the one it creates |
| `RowMeaning.UpdateEmpties` | src/translib/common_app.go:498-506 | a row that an update deletes, and that the same update creates again |
| `RowMeaning.WholeRow` | src/translib/common_app.go:477-525 | create and replace leave the row of the request, whose fields the next three rows give; a stored row is not created again |
| `RowMeaning.WithNullHolds` | src/translib/common_app.go:473-483 | a request without fields stands for `NULL` with the value `NULL`; otherwise `NULL` is there only as the one field of the request, and the other fields have their requested values |
| `RowMeaning.NewRowMeaning` | src/translib/common_app.go:473-506 | a row that a create, update or replace makes holds just that |
| `RowMeaning.ReplacedRowMeaning` | src/translib/common_app.go:507-525 | so does a row that is replaced |
| `RowMeaning.DeleteMeaning` | src/translib/common_app.go:642-657 | the row behind the commands of a delete: one occurrence gone for each item, the remaining items in order, an emptied or wholly deleted field dropped, the rest unchanged |
| `RowMeaning.DeleteTwice` | src/translib/common_app.go:642-657 | the same delete again changes nothing exactly when no list is left with one empty item |
| `RowMeaning.DeleteAfterUpdate` | src/translib/common_app.go:673-728 | a delete of the same fields undoes an update: it leaves what the delete alone would have left, but for an update that deletes the row |
| `LeafList.ListJoin` | src/translib/db/db.go:1076-1106 | a written list is read back, unless it is the list of one empty item |
| `Text.SplitJoin` | src/translib/db/db.go:1088-1102 | splitting what was joined gives the items back |
| `KeyOdometer.Combinations` | src/cvl/cvl_semantics.go:255-311 | the counter never leaves its lists and emits the Cartesian product of the key values |
| `KeyOdometer.StepAt` | src/cvl/cvl_syntax.go:238-254 | one step moves a position on and resets those behind it |
| `KeyOdometer.RestStep` | src/cvl/cvl_semantics.go:294-311 | a step of the counter goes from each tuple to the next one of the product |
| `KeyOdometer.ProductMember` | src/cvl/cvl_semantics.go:281-287 | a tuple is emitted exactly when each of its values is in the list of its key |
| `KeyOdometer.RankTuple` | src/cvl/cvl_semantics.go:294-311 | the tuple at each combination of positions stands at its mixed-radix place |
| `KeyOdometer.RankOrder` | src/cvl/cvl_semantics.go:294-311 | the places follow the lexicographic order of positions |
| `KeyOdometer.RankOnto` | src/cvl/cvl_semantics.go:294-311 | every place belongs to a combination of positions, so each combination comes exactly once and nothing else comes |
| `KeyOdometer.ProductCount` | src/cvl/cvl_semantics.go:255-258 | as many tuples as the product of the value counts |
| `KeyOdometer.GetRedisToYangKeys` | src/cvl/cvl.go:749-784 | the values each component of a Redis key stands for, with the address appended to keys of INTERFACE; none when the number of components is wrong |
| `KeyOdometer.PartsAt` | src/cvl/cvl.go:766-778 | where every name has one of the two patterns each component gives one part, itself or its comma-separated items |
| `KeyOdometer.KeyPartsAt` | src/cvl/cvl.go:749-784 | the i-th name has the i-th component of the key as its values; the address of an INTERFACE key comes behind its components |
| `KeyOdometer.GenerateTable` | src/cvl/cvl_syntax.go:198-254 | the list nodes of all keys of a table, key by key |
| `KeyOdometer.TableCount` | src/cvl/cvl_syntax.go:198-254 | a table yields the sum over its keys of the product of value counts |
| `KeyOdometer.TableMember` | src/cvl/cvl_syntax.go:198-254 | its list nodes are exactly those whose key leaves pick a value of every part of one of the keys |
| `KeyOdometer.TableInOrder` | src/cvl/cvl_syntax.go:198-254 | the nodes of one key come before those of the next |
| `KeyOdometer.OneKey` | src/cvl/cvl_syntax.go:198-254 | those of one key come in the order of its combinations, each with its own key leaves |
| `DepCache.CheckFieldMap` | src/cvl/cvl.go:787-810 | drops NULL, strips the suffix of leaf-lists and splits them, one of the renderings of the row |
| `DepCache.RendersOnce` | src/cvl/cvl.go:787-810 | a row without a leaf and a leaf-list of one name has one rendering |
| `DepCache.ClashRenders` | src/cvl/cvl.go:787-810 | a row with both has different renderings for different orders |
| `DepCache.RenderingShows` | src/cvl/cvl.go:787-810 | under each name a rendering shows the field of that name, or the items of the field with the suffix `@`, and never `NULL` |
| `DepCache.MergeMap` | src/cvl/cvl.go:813-820 | the source's fields over the destination's |
| `DepCache.Cache.AddTableEntryToCache` | src/cvl/cvl_cache.go:32-44 | the entry is to be fetched; an empty name changes nothing |
| `DepCache.Cache.FetchDataFromRequestCache` | src/cvl/cvl_cache.go:62-85 | the first pending create or update, and whether it goes over the stored row |
| `DepCache.PendingFirst` | src/cvl/cvl_cache.go:62-85 | the request found is the one in front of which only deletes stand |
| `DepCache.SourceWanted` | src/cvl/cvl_cache.go:88-195 | the row of an entry: the data of a first create alone; for a first update its fields, and those of the stored row that it lacks; with deletes only the stored row |
| `DepCache.Cache.FetchTableDataToTmpCache` | src/cvl/cvl_cache.go:88-195 | after a pass every entry holds the pending create, the pending update over the stored row or the stored row, or is gone, and each unfetched key went into one batch of at most 50; it ends early exactly when a pipeline execution fails, with the batches before it settled |
| `DepCache.Cache.BatchedMeaning` | src/cvl/cvl_cache.go:98-146 | each entry that is to be fetched stands in one batch at one place, and no other entry does |
| `DepCache.Cache.AnsweredMeaning` | src/cvl/cvl_cache.go:149-186 | when a pipeline fails, the entries of the batches before it show what they should |
| `DepCache.Cache.AfterFlush` | src/cvl/cvl_cache.go:149-186 | a pipeline settles its batch and nothing else |
| `DepCache.Cache.Visit` | src/cvl/cvl_cache.go:98-121 | an entry is as it was when the iteration reaches it, although the map is rewritten during the iteration |
| `DepCache.Cache.FetchDataToTmpCache` | src/cvl/cvl_cache.go:205-223 | the rounds end because unfetched entries strictly drop with progress; exactly when no executed pipeline fails one round answers every entry and the cache ends empty |
| `DepCache.Cache.AnswersMeaning` | src/cvl/cvl_cache.go:205-223 | every entry that was asked for shows that row, name by name, as the request cache and the store give it; without such a row it is gone |
| `DepCache.Cache.RoundShrinks` | src/cvl/cvl_cache.go:205-223 | a round with progress leaves strictly fewer entries to fetch |
| `DepCache.Cache.OneAnswer` | src/cvl/cvl_cache.go:88-195 | the answer does not depend on the order of iteration exactly when no row that is asked for has a leaf and a leaf-list of one name |
| `MaxElements.Session.CheckMaxElemConstraint` | src/cvl/cvl_syntax.go:32-94 | the counter equals the size the table would have and stays within the limit; a create is refused exactly when the table is full |
| `MaxElements.Session.CountsKept` | src/cvl/cvl_syntax.go:32-94 | the counter of a limited table is the number of its keys, and stays within the limit |
| `MaxElements.PlannedKeys` | src/cvl/cvl_syntax.go:32-94 | a create adds its key, a delete takes it out, and nothing else changes |
| `PathInfo.Reader.ReadUntil` | src/translib/path_utils.go:120-137 | the unescaped text up to the delimiter, and what follows |
| `PathInfo.UntilEscaped` | src/translib/path_utils.go:120-137 | text with escaped delimiters and backslashes is read back exactly |
| `PathInfo.UntilReads` | src/translib/path_utils.go:120-137 | character by character: the delimiter ends the text, and a backslash keeps the next character |
| `PathInfo.ParseReads` | src/translib/path_utils.go:81-118 | a name and a value in brackets are one predicate, any other character is a literal |
| `PathInfo.ParseEscape` | src/translib/path_utils.go:120-137 | a backslash in front of any character of a name or value is left out |
| `PathInfo.RoundTrip` | src/translib/path_utils.go:81-118 | any sequence of bracket-free literals and name/value predicates, written with escapes, is parsed back |
| `PathInfo.FindName` | src/translib/path_utils.go:102-107 | the search for a free numbered name ends and finds the first free one |
| `PathInfo.NumberedFit` | src/translib/path_utils.go:102-107 | a finite map cannot hold all numbered names |
| `PathInfo.NewPathInfo` | src/translib/path_utils.go:81-118 | the parser builds the template and the variables of the pieces it reads |
| `PathInfo.InfoReads` | src/translib/path_utils.go:100-112 | a literal goes into the template, a named predicate as `{}` with its variable, a predicate without a name as nothing |
| `PathInfo.SecondOne` | src/translib/path_utils.go:102-107 | the second predicate of a name is bound to the name with `#2` |
| `PathInfo.TemplateMeaning` | src/translib/path_utils.go:109-112 | one `{}` and one variable of its own for each named predicate, none for an empty name |
| `PathInfo.NeverOverwritten` | src/translib/path_utils.go:100-112 | a later predicate never changes a variable |
| `PathInfo.HashTaken` | src/translib/path_utils.go:100-112 | a name with `#` takes the key of another predicate |
| `PathInfo.OwnKeysIff` | src/translib/path_utils.go:100-112 | every predicate is bound to its own numbered name exactly when these names are pairwise distinct |
| `PathInfo.NoHashDistinct` | src/translib/path_utils.go:100-112 | they are for names without `#` |
| `PathInfo.Bound` | src/translib/path_utils.go:100-112 | the n-th predicate of a name is found under name, or name#n from the second on, when these keys are pairwise distinct |
| `Subscribe.Registry.StartSubscribe` | src/translib/subscribe.go:193-233 | registers every entry under a key of its own and sends the initial round, or restores the maps and sends nothing |
| `Subscribe.Registry.StartDBSubscribe` | src/translib/subscribe.go:95-119 | registers the entries of one database under new keys, or leaves both maps as they were |
| `Subscribe.SubscribeInfo.InitialRound` | src/translib/subscribe.go:214-227 | one message for each entry in order; the last of them and only it says that the sync is complete |
| `Subscribe.Registry.NotificationHandler` | src/translib/subscribe.go:121-155 | a changed payload is sent once to its subscriber and cached; an unknown key notifies nobody; every registry and stream invariant is kept |
| `Subscribe.SubscribeInfo.Notify` | src/translib/subscribe.go:174-191 | sends exactly when the payload changed; `{}` stands for a failed read |
| `Subscribe.Registry.Cleanup` | src/translib/subscribe.go:295-310 | removes the entries of one channel |
| `Subscribe.Registry.StopHandler` | src/translib/subscribe.go:278-310 | exactly one subscriber's entries leave the three maps, and the others stay linked |
| `Subscribe.LinksWith` | src/translib/subscribe.go:95-119 | a new subscriber keeps the three maps describing the same subscriptions |
| `Subscribe.LinksWithout` | src/translib/subscribe.go:295-310 | so does the removal of one |
| `Subscribe.TakenOut` | src/translib/subscribe.go:109-116 | taking new entries out again gives the maps back |
| `Subscribe.ConsecutiveDiffer` | src/translib/subscribe.go:174-191 | in a stream two messages of one entry without a third between them differ |
| `Subscribe.LastAt` | src/translib/subscribe.go:265-276 | the last message of an entry carries what the invariant ties to its cache |
| `Subscribe.StreamMeaning` | src/translib/subscribe.go:193-276 | what a subscriber has been sent at any time: the entries in order, then changes only; the sync flag from the last message of the initial round on; last, for each entry, what was read last |
| `Subscribe.FirstRoundMeaning` | src/translib/subscribe.go:157-227 | the first messages carry the path and the payload of their entries, `{}` where a path cannot be read |
| `Subscribe.WithKeysAt` | src/translib/subscribe.go:95-107 | each new key leads to its entry, and the others lead where they did |
| `Subscribe.WithEntriesAt` | src/translib/subscribe.go:95-107 | the new entries belong to the subscriber, and the others to whom they did |
| `Stp.RunInv` | src/translib/stp_app.go:2038-2128 | in every run STP_VLAN has at most 255 rows, and none while spanning tree is disabled |
| `Stp.FollowersAgree` | src/translib/stp_app.go:2190-2339 | in every run a VLAN field that follows the global value equals it |
| `Stp.AgreementKept` | src/translib/stp_app.go:2190-2212 | any step but an override of the field keeps the agreement |
| `Stp.UpdatedGet` | src/translib/stp_app.go:2201-2203 | a VLAN takes a new global value exactly in the fields where it had the old one |
| `Stp.CreatedRow` | src/translib/stp_app.go:2059-2071 | a created row has the global value in every inherited field, and the other rows stay |
| `Stp.StpApp.EnableStpMode` | src/translib/stp_app.go:2038-2074 | the first 255 VLANs in the natural order get rows |
| `Stp.StpApp.EnableStpOnVlanCreation` | src/translib/stp_app.go:2076-2111 | new VLANs get rows while there is room, and only while enabled |
| `Stp.EnableMeaning` | src/translib/stp_app.go:2038-2074 | enabling gives the first 255 VLANs rows with the global values, true as enabled and the number of the VLAN, but for refused ones; other rows stay |
| `Stp.VlansCreatedMeaning` | src/translib/stp_app.go:2076-2111 | new VLANs get such rows as long as there are fewer than 255 |
| `Stp.StpApp.RemoveStpConfigOnVlanDeletion` | src/translib/stp_app.go:2113-2128 | exactly the rows of the deleted VLANs go |
| `Stp.StpApp.HandleStpGlobalFieldsUpdation` | src/translib/stp_app.go:2248-2280 | the step of a global update, for any order of fields and VLANs |
| `Stp.StpApp.HandleStpGlobalFieldsDeletion` | src/translib/stp_app.go:2282-2339 | the step of a reset of a global node, given by the row below |
| `Stp.GlobalResetMeaning` | src/translib/stp_app.go:2282-2339 | for each node the field of its name has its default (2, 20, 15, 32768, 30, false), the other global fields stay, and a VLAN that agreed in an inherited field has that default; every other VLAN field stays |
| `Stp.GlobalSetMeaning` | src/translib/stp_app.go:2248-2280 | after a global update the fields have the new values; a VLAN takes those in which it agreed, except the root guard timeout and the BPDU filter; every other field stays |
| `Stp.StpApp.HandleVlanFieldsDeletion` | src/translib/stp_app.go:2369-2410 | the step of a reset of a VLAN field to the global value |
| `Stp.VlanResetMeaning` | src/translib/stp_app.go:2369-2410 | the field of the node has the global value, and everything else stays |
| `Stp.VlanDisableMeaning` | src/translib/stp_app.go:2369-2410 | the reset of the enable node writes false, and any other node changes nothing |
| `Stp.ResetFollows` | src/translib/stp_app.go:2369-2410 | a field that is reset follows the global value |
| `Stp.CreationFollows` | src/translib/stp_app.go:2038-2111 | so do the inherited fields of a created row |
| `Stp.FollowsOn` | src/translib/stp_app.go:2190-2212 | until that field of that VLAN is overridden or the row goes |
| `Stp.StpApp.SetVlanFields` | src/translib/stp_app.go:915-931 | the override step: the fields of the row of one VLAN are replaced |
| `Stp.StpApp.DisableStpMode` | src/translib/stp_app.go:2229-2246 | nothing is left of global values and VLAN rows |
| `AclRule.SeqIdRoundTrip` | src/translib/acl_app.go:1320-1321 | a sequence id survives the wrap-around and the clamping exactly in two ranges |
| `AclRule.PriorityReverses` | src/translib/acl_app.go:1320-1321 | up to 65536 the priority does not wrap and reverses the order |
| `AclRule.PriorityOnto` | src/translib/acl_app.go:745-746 | every priority up to 65536 is that of one sequence id |
| `AclRule.GetTransportConfigTcpFlags` | src/translib/acl_app.go:1762-1793 | decodes the flags of the mask in the order of their bits |
| `AclRule.FlagsRoundTrip` | src/translib/acl_app.go:1454-1479 | encoded and decoded, a list of flags gives its set of known flags in bit order |
| `AclRule.FlagsKept` | src/translib/acl_app.go:1454-1479 | a list of flags comes back empty exactly when all of them are unset |
| `AclRule.PortAgain` | src/translib/acl_app.go:1740-1760 | a port field is read and written again unchanged exactly for the ports described |
| `AclRule.ConvertOCAclRuleToInternalAclRule` | src/translib/acl_app.go:1319-1341 | the encoder fills exactly the fields of the rule |
| `AclRule.ConvertInternalToOCAclRuleProperties` | src/translib/acl_app.go:744-825 | the decoder reads the fields in any order; where a row holds two forms of one port, either wins |
| `AclRule.OneReading` | src/translib/acl_app.go:744-825 | a row is read in one way exactly when no port has two forms that give different ports |
| `AclRule.DecodeEncoded` | src/translib/acl_app.go:744-825 | a rule comes back as it was written if and only if sequence id, protocol, ports, flags and action meet their conditions |
| `AclRule.EncodeAgain` | src/translib/acl_app.go:1319-1498 | encode, decode, encode equals encode if and only if sequence id, ports and flags meet their conditions |
| `AclMeaning.EncodedRow` | src/translib/acl_app.go:1319-1498 | sequence id, protocol number, DSCP, addresses and action under their names, with the numbers and texts written |
| `AclMeaning.EncodedPorts` | src/translib/acl_app.go:1424-1452 | ANY and a port number under one name, a range under the other with its first two dots as a dash |
| `AclMeaning.EncodedFlags` | src/translib/acl_app.go:1454-1479 | the flags are a hexadecimal byte written twice around a slash, with bit 0 for FIN up to bit 7 for CWR |
| `AclMeaning.DecodedRow` | src/translib/acl_app.go:744-825 | what is read for each field of a row, and what a row without it gives |
| `AclMeaning.DecodedProtocol` | src/translib/acl_app.go:744-825 | a number of the table reads as its protocol, and any other as itself |
| `AclMeaning.DecodedPort` | src/translib/acl_app.go:1740-1760 | which port a text reads as |
| `AclMeaning.DecodedFlags` | src/translib/acl_app.go:1762-1793 | the flags of the bits of the number in front of the slash, in the order of the bits |
| `Numbers.ParseDecimal` | src/translib/acl_app.go:745-745 | a printed number is parsed back, or clamped to the limit |
| `Numbers.ParseHexByte` | src/translib/acl_app.go:1766-1766 | two hexadecimal digits are parsed back to the byte |
| `Numbers.ParseSigned` | src/translib/acl_app.go:745-745 | a sign in front of a printed number is read |
| `Numbers.ParseMalformed` | src/translib/acl_app.go:1740-1760 | anything but digits behind the sign is no number |
| `Numbers.FirstReplaced` | src/translib/acl_app.go:1432-1432 | the first occurrence is replaced and no other |

## Left out

- Redis, its pipelines and Lua scripts, libyang, the XPath engine, ygot reflection and goyang's checks of length ranges: a store is a map, a fetch is a lookup that may fail, `regexp.MatchString` is a function that decides the language, and length ranges are those of section 9.4.4 of RFC 6020.
- `validateMustExp`, `validateWhenExp`, `validateLeafRef`, `addDepYangData`, `GetDepDataForDelete`, `checkDeleteConstraint`, `moveToYangList`: drivers of the XPath engine, or searches by substring and glob.
- YangMergeRun.MergeYangData: the trees fit the schema, and source siblings of one name are all marked as a leaf-list or none is, as the generators leave them. Instances match only when a Redis key has one combination of key values; leaves hold one text or none.
- YangMergeFields.MergeOverrides: a list instance whose children repeat an unmarked element name, as mapping lists do, is not covered by the field-by-field meaning, only by the refinement.
- Patterns: the classes of escapes and of `.` are shared tables, so differences between the dialects inside them are not modelled, such as categories and blocks known to one of them only; nor are class subtraction, named classes in brackets and Go's limit of 1000 on repetitions.
- `validateStringSlice`, and the nil schema and nil type errors of `validateStringSchema`: single checks before the ones modelled.
- Dependencies: one YANG list for each table, and leafrefs that name the key of a single-key table; a leafref whose path goes through several lists may be met in any of them. `github.com/philopon/go-toposort` is not part of the repository; the model is Kahn's algorithm.
- IntegrityExact.IntegrityIff: the converse is for leafrefs with one target table each; of several targets one may stand in for another on the way.
- CommonApp.CommonApp.CmnAppDelDbOpn: the branch that deletes child tables listed by the transformer (`skipOrdTableChk` false) and the lookup of the module name are not modelled, because the transformer's tables are not part of this model.
- LeafList.RemoveElement: lists are values, so the shift inside the slice and its aliasing are not modelled.
- KeyOdometer.GetRedisToYangKeys: a schema with fewer patterns than keys, or an INTERFACE key that stays too short, on which the program panics, is excluded.
- DepCache.CheckFieldMap: an empty field name, on which the program panics, is rendered as a leaf with an empty name.
- DepCache.Cache.FetchDataToTmpCache: the conversion of each round to YANG is not modelled beyond handing over the cache.
- Subscribe.Registry.NotificationHandler: the termination message of a connection error and `cleanupMap` are not modelled; nor is the reordering of equal timestamps in the priority queue.
- Stp.StpApp.EnableStpMode: only from disabled; creating through the top-level path and `setRpvstVlanDataInDB` for new rows go around the cap and are not modelled. A refused ModEntry, which ends an update half-way, is not modelled either; a refused CreateEntry is.
- AclRule.EncodeAgain: IPv4 rules without an input interface; the interface is written and never read back. IPv6 and layer-2 matches, counters and names are not modelled.
- The wrappers around the transaction, request binding, JSON payloads, the other applications, the command-line actioner, scripts, D-Bus services and packaging.
