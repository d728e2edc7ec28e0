# realm-core query, table-key and replay-header logic in Dafny

This project models five sequential, integer-only parts of realm-core and proves
what each of them computes:

- **The query builder** (`src/realm/query.cpp`). A `Query` keeps a non-empty stack
  of groups. Each group has an optional node tree, a pending-not flag and an
  or-state. `group`, `end_group`, `Not`, `handle_pending_not`, `Or` and `add_node`
  rewrite that stack. The file also holds the int64 boundary rewriting of
  `greater_equal`, `less_equal` and `between`, and `find_best_node`. The
  empty-query edge cases of `find`, `get_description`, `validate` and the
  `&&`/`||`/`!` operators are modelled too.
- **Query execution over clusters** (`src/realm/query.cpp`). `find`,
  `find_all(ConstTableView&, …)` and `do_count` run over a view or over the
  table's clusters. A cluster is its key array, its key offset and the rows where
  each condition holds. `average` is also modelled.
- **The condition engine** (`src/realm/query_engine.cpp`). A child node's
  `find_first_local(s, e)` is modelled as the least row of [s, e) where a fixed
  sequence of booleans holds, else `not_found` (`size_t(-1)`). Against that
  abstraction the model proves four things:
  - the round-robin loop of `ParentNode::find_first` computes the conjunction;
  - `aggregate_local` delivers exactly the conjunction's rows;
  - the `NotNode` known-range cache computes the complement;
  - the linear and hashed needle searches of `StringNode<Equal>` agree.
- **Table key and column bookkeeping** (`src/realm/table.cpp`). This covers:
  - the optimistic and tagged object ids;
  - the collision map, kept as three parallel arrays sorted by (hi, lo);
  - the sequence-number counter;
  - column-key generation and the spec/leaf mapping;
  - the embedded flag;
  - the key list of `batch_erase_rows`;
  - `TableVersions` equality.
- **The replay tool's message parser** (`src/realm/sync/apply_to_state_command.cpp`).
  It parses header lines of space-separated numbers or words ended by a delimiter.
  It then extracts the message body and splits it into changesets by their
  declared sizes, and dispatches on the message-type token. A `string_view` is a
  `string`, and `std::from_chars` is a decimal-digit-prefix reader bounded by the
  width of the target integer.
- **Query metrics** (`src/realm/metrics/query_info.cpp`). This is the mapping from
  aggregate actions to query types, the stored description and the query time.

Row numbers and sizes are `nat`. `size_t(-1)` is the constant `NPOS` = 2^64 − 1,
so comparisons such as `first > end` behave as in C++. Each loop of the source is a
`method` proved against a specification function. That function's properties are
proved as lemmas. Objects that the source updates in place are classes:
`QueryBuilder.Query`, `QueryEngine.NotNode`, `QueryEngine.StringEqualNode`,
`ObjectKeys.KeyTable`, `TableColumns.Table` and `QueryInfo.Info`.

## Model

| member | source | states |
|---|---|---|
| QueryBuilder.Links | src/realm/query.cpp:1863-1870 | a node tree is read as a non-empty chain of conjuncts |
| QueryBuilder.AddChild | src/realm/query.cpp:1863-1870 | adding a child to a tree appends the child's conjuncts after the tree's own |
| QueryBuilder.WithTop | src/realm/query.cpp:1840-1881 | replacing the top group keeps the depth and every group below it |
| QueryBuilder.AddToFrame | src/realm/query.cpp:1840-1871 | per or-state: in the default state the first node becomes the root and later ones become conjuncts; in OrCondition the node becomes a new disjunct and the state becomes OrConditionChildren; in OrConditionChildren the node is ANDed into the last disjunct and the other disjuncts are unchanged |
| QueryBuilder.AddNodeSpec | src/realm/query.cpp:1840-1881 | without a pending not, the node goes into the top group; with one, the stack gets shorter; the result is always a settled non-empty stack |
| QueryBuilder.HandlePendingNotSpec | src/realm/query.cpp:1313-1325 | a pending-not group above the bottom one is closed, so the stack shrinks; a stack with no pending not on top is unchanged |
| QueryBuilder.EndGroupSpec | src/realm/query.cpp:1282-1298 | with at least two groups, the stack shrinks and is left settled; with fewer, it is unchanged |
| QueryBuilder.OrSpec | src/realm/query.cpp:1327-1337 | Or keeps the stack well formed |
| QueryBuilder.OrWraps | src/realm/query.cpp:1327-1337 | on a settled group, Or() without Or children moves the group's tree into a new OrNode as its one disjunct, with Or children keeps the tree; either way the group ends in the OrCondition state and the groups below are kept |
| QueryBuilder.OrAfterNot | src/realm/query.cpp:1327-1337 | Or() straight after Not() closes the Not() group with a NotNode over an OrNode holding an empty disjunct; no group of the stack takes the OrCondition state |
| QueryBuilder.PendingNots | src/realm/query.cpp:1301-1307 | k calls of Not() push k empty pending-not groups |
| QueryBuilder.Push | src/realm/query.cpp:1277-1281 | pushing a group keeps the stack well formed and the groups below it |
| QueryBuilder.SettledFixed | src/realm/query.cpp:1313-1325 | handle_pending_not does nothing on a settled stack |
| QueryBuilder.NotThenAdd | src/realm/query.cpp:1301-1325 | Not() followed by one node is the same as adding a NotNode around that node |
| QueryBuilder.NestedNotsThenAdd | src/realm/query.cpp:1301-1325 | k nested Not() calls followed by one node add that node wrapped in k NotNodes, and return to the depth before the first Not() |
| QueryBuilder.NotsCommute | src/realm/query.cpp:1301-1325 | wrapping in a NotNode then in k more is wrapping in k + 1 |
| QueryBuilder.GroupThenEnd | src/realm/query.cpp:1277-1298 | group(), a tree, then end_group() adds that tree as one node to the enclosing group |
| QueryBuilder.EmptyGroupThenEnd | src/realm/query.cpp:1277-1298 | an empty group that is ended adds nothing, apart from closing a pending not |
| QueryBuilder.GreaterEqualNode | src/realm/query.cpp:639-646 | `>= v` becomes `> v - 1` exactly when v > INT64_MIN; the new bound stays in int64 and holds for exactly the x with x >= v; at INT64_MIN no node is added |
| QueryBuilder.LessEqualNode | src/realm/query.cpp:647-654 | `<= v` becomes `< v + 1` exactly when v < INT64_MAX; the new bound stays in int64 and holds for exactly the x with x <= v; at INT64_MAX no node is added |
| QueryBuilder.BetweenSpec | src/realm/query.cpp:660-667 | between keeps the stack well formed |
| QueryBuilder.BetweenAddsTree | src/realm/query.cpp:660-667 | between adds its bounds to the enclosing group as one node (both chained, one of them, or none) |
| QueryBuilder.BetweenKeepsDepth | src/realm/query.cpp:660-667 | between leaves the depth of a settled stack unchanged |
| QueryBuilder.FindBestNode | src/realm/query.cpp:1000-1006 | the index of the first child of least cost (0 when there are no children) |
| QueryBuilder.Query.constructor | src/realm/query.cpp:75-78 | a new query holds exactly one empty group and no error |
| QueryBuilder.Query.Group | src/realm/query.cpp:1277-1281 | pushes one empty group |
| QueryBuilder.Query.Not | src/realm/query.cpp:1301-1307 | pushes one empty pending-not group |
| QueryBuilder.Query.AddNode | src/realm/query.cpp:1840-1881 | the new stack is AddNodeSpec of the old one and the error code is unchanged |
| QueryBuilder.Query.HandlePendingNot | src/realm/query.cpp:1313-1325 | the new stack is HandlePendingNotSpec of the old one |
| QueryBuilder.Query.EndGroup | src/realm/query.cpp:1282-1298 | with fewer than two groups, the error is "Unbalanced group" and the stack is unchanged; otherwise the stack is EndGroupSpec of the old one |
| QueryBuilder.Query.Or | src/realm/query.cpp:1327-1337 | the new stack is OrSpec of the old one, whose effect OrWraps and OrAfterNot state |
| QueryBuilder.Query.GreaterEqual | src/realm/query.cpp:639-646 | adds GreaterEqualNode's node when there is one, otherwise leaves the stack unchanged |
| QueryBuilder.Query.LessEqual | src/realm/query.cpp:647-654 | adds LessEqualNode's node when there is one, otherwise leaves the stack unchanged |
| QueryBuilder.Query.Between | src/realm/query.cpp:660-667 | the new stack is BetweenSpec of the old one |
| QueryBuilder.Query.Validate | src/realm/query.cpp:1778-1790 | a recorded error wins; with no root the result is "Syntax error"; otherwise it is the root node's own verdict |
| QueryBuilder.Query.Description | src/realm/query.cpp:1792-1803 | "TRUEPREDICATE" without a root; an error exactly when there is a root and a view; otherwise the root's description |
| QueryBuilder.AndQuery | src/realm/query.cpp:1889-1902 | and_query keeps the stack well formed |
| QueryBuilder.AndOp | src/realm/query.cpp:1915-1929 | `&&` with an operand without conditions yields the other operand |
| QueryBuilder.OrOp | src/realm/query.cpp:1904-1913 | `||` keeps the stack well formed |
| QueryBuilder.NegateOp | src/realm/query.cpp:1931-1939 | `!` fails exactly when the query has no conditions |
| QueryBuilder.AndOpChains | src/realm/query.cpp:1915-1929 | `a && b` on two non-empty queries is one group whose root chains a's root and b's root |
| QueryBuilder.OrOpDisjuncts | src/realm/query.cpp:1904-1913 | `a \|\| b` is one group whose root is an OrNode with a's root and b's root as its disjuncts |
| QueryBuilder.NegateOpWraps | src/realm/query.cpp:1931-1939 | `!a` is one group whose root is a NotNode over a's root |
| QueryExec.ClusterKeys | src/realm/query.cpp:1424-1427 | the object keys of a cluster are its key values plus its offset |
| QueryExec.Take | src/realm/query.cpp:1424-1427 | at most n elements, and a prefix of the input |
| QueryExec.Matching | src/realm/query.cpp:1400-1409 | the matching keys of a view are at most as many as the view |
| QueryExec.FindWithoutConditions | src/realm/query.cpp:1348-1358 | with no conditions, find gives the first key of the view or table, and null_key exactly when it is empty |
| QueryExec.FindInView | src/realm/query.cpp:1360-1369 | null_key exactly when no object of the view matches, otherwise the first match |
| QueryExec.MatchingStep | src/realm/query.cpp:1400-1409 | one more view entry adds its key exactly when it matches |
| QueryExec.MatchingPrefix | src/realm/query.cpp:1360-1369 | the matches of a prefix of the view are a prefix of all its matches |
| QueryExec.FindInTable | src/realm/query.cpp:1371-1388 | the cluster traversal returns FirstHit: the first matching row of the first cluster that has one |
| QueryExec.FirstHitIsFirst | src/realm/query.cpp:1371-1388 | FirstHit is null exactly when every cluster misses; otherwise it is the key at the first match of the first cluster that does not miss (FirstHitCluster, FirstKey) |
| QueryExec.FindAllInView | src/realm/query.cpp:1400-1409 | the keys of the matching view entries in [begin, end), in order, truncated to limit; end = npos means the view's size |
| QueryExec.TakeOfPrefix | src/realm/query.cpp:1400-1409 | a prefix that is the whole sequence or is limit long is the limited sequence |
| QueryExec.VisitSpec | src/realm/query.cpp:1416-1435 | one cluster visit adds at most limit keys and keeps begin <= end |
| QueryExec.TakeAppend | src/realm/query.cpp:1416-1435 | limiting a concatenation is limiting its parts in turn |
| QueryExec.WindowSplit | src/realm/query.cpp:1416-1435 | a window over the concatenated clusters lies in the first cluster, crosses into the rest, or lies in the rest |
| QueryExec.TraverseStep | src/realm/query.cpp:1416-1437 | the traversal stops after a cluster when end reaches 0 or the limit is used up, and otherwise continues with the shifted window |
| QueryExec.WindowInFirst | src/realm/query.cpp:1416-1435 | a window inside the first cluster is collected from that cluster alone |
| QueryExec.WindowAcross | src/realm/query.cpp:1416-1435 | a window that crosses the first cluster is its tail followed by the rest of the window |
| QueryExec.WindowAfterFirst | src/realm/query.cpp:1416-1435 | a window beyond the first cluster is the shifted window of the other clusters |
| QueryExec.TraverseWindow | src/realm/query.cpp:1410-1438 | the cluster traversal collects exactly the table keys at positions [begin, end), truncated to limit |
| QueryExec.VisitCluster | src/realm/query.cpp:1416-1435 | the traversal callback computes VisitSpec and asks to stop exactly when end is 0 or the limit is used up |
| QueryExec.FindAllWithoutConditions | src/realm/query.cpp:1410-1438 | with no conditions, find_all gives the table keys at positions [begin, min(end, size)), in cluster order, truncated to limit |
| QueryExec.MatchesGrow | src/realm/query.cpp:1551-1565 | searching a longer range finds at least as many matches |
| QueryExec.CountInCluster | src/realm/query.cpp:1551-1565 | the matches in one cluster, capped at limit |
| QueryExec.CountInTable | src/realm/query.cpp:1551-1565 | the matches in all clusters, capped at limit |
| QueryExec.CountInView | src/realm/query.cpp:1522-1530 | the matching view entries, capped at limit |
| QueryExec.DoCount | src/realm/query.cpp:1505-1568 | never more than limit (so 0 for limit 0); with no conditions, min(size, limit) for the view or the table; with conditions, min(matches, limit) |
| QueryExec.CountIsFindAllLength | src/realm/query.cpp:1505-1530 | the count of a view is the length of its limited find_all |
| QueryExec.Average | src/realm/query.cpp:1219-1236 | 0 when nothing matched; otherwise the value whose product with the count is the sum |
| QueryEngine.FirstMatch | src/realm/query_engine.cpp:41-68 | NPOS or a row of [s, e) where the condition holds, with no such row before it |
| QueryEngine.FirstMatchUnique | src/realm/query_engine.cpp:41-68 | that characterisation determines the first match |
| QueryEngine.FirstMatchSplit | src/realm/query_engine.cpp:412-480 | searching [a, c) is searching [a, b), then [b, c) when nothing was found |
| QueryEngine.FirstMatchWithin | src/realm/query_engine.cpp:412-428 | what the first match of a range says about the first match of a sub-range |
| QueryEngine.Conjunction | src/realm/query_engine.cpp:41-68 | a row is in the conjunction exactly when every condition holds there |
| QueryEngine.FindFirst | src/realm/query_engine.cpp:41-68 | the round-robin loop returns the first row of [start, end) where all children agree, else not_found |
| QueryEngine.Match | src/realm/query_engine.cpp:70-78 | an object matches exactly when every condition holds at its row |
| QueryEngine.Matches | src/realm/query_engine.cpp:80-133 | each listed row lies in [s, e) and satisfies the condition |
| QueryEngine.MatchesSkip | src/realm/query_engine.cpp:80-133 | rows where the condition fails add nothing to the matches |
| QueryEngine.OwnSkip | src/realm/query_engine.cpp:80-133 | a stretch where the node's own test fails holds no own match and no match of the conjunction |
| QueryEngine.Inc | src/realm/query_engine.cpp:80-133 | size_t increment, wrapping npos to 0 |
| QueryEngine.AggregateFromSpec | src/realm/query_engine.cpp:80-133 | aggregate_local delivers exactly the conjunction's rows, in order; it resumes after the local_limit-th own match, at end when the range is exhausted, or at npos when the callback refused a row, having delivered the matches up to that row |
| QueryEngine.AggregateUnfold | src/realm/query_engine.cpp:80-133 | one step of aggregate_local past an own match |
| QueryEngine.AggregateLocalOk | src/realm/query_engine.cpp:80-133 | the result of aggregate_local for a node and its siblings satisfies those promises |
| QueryEngine.ConjunctionImpliesOwn | src/realm/query_engine.cpp:80-133 | the conjunction implies the node's own condition |
| QueryEngine.AggregateLocal | src/realm/query_engine.cpp:80-133 | the loop computes AggregateFrom from the start of its range |
| QueryEngine.OwnStep | src/realm/query_engine.cpp:80-133 | an own match at r adds r to the own matches, and also to the conjunction's matches when every sibling agrees |
| QueryEngine.FirstOfRemaining | src/realm/query_engine.cpp:111-118 | the sibling scan stops at r exactly when every sibling holds at r |
| QueryEngine.Complement | src/realm/query_engine.cpp:368-371 | a NotNode holds at exactly the rows where the wrapped condition fails |
| QueryEngine.CoveredByKnownAsWritten | src/realm/query_engine.cpp:412-428 | the cached match is returned whenever it lies in [start, end], end included |
| QueryEngine.CoveredByKnownReturnsEnd | src/realm/query_engine.cpp:412-428 | known range [0, 2), first match 1, query [0, 1): the code as written returns 1, which is outside the range; the first match is npos |
| QueryEngine.Classify | src/realm/query_engine.cpp:349-366 | the five dispatch cases of NotNode::find_first_local, and what each one says about the two ranges |
| QueryEngine.NotNode.constructor | src/realm/query_engine.cpp:349-480 | a new node has an empty known range and no cached match |
| QueryEngine.NotNode.EvaluateAt | src/realm/query_engine.cpp:368-371 | holds exactly where the wrapped condition fails |
| QueryEngine.NotNode.FindFirstLoop | src/realm/query_engine.cpp:380-388 | the first row of [start, end) where the NotNode holds, else not_found |
| QueryEngine.NotNode.UpdateKnown | src/realm/query_engine.cpp:373-378 | the cache becomes the given range and first match |
| QueryEngine.NotNode.FindFirstCoversKnown | src/realm/query_engine.cpp:390-410 | the answer is the first match, and the cache stays the first match of its range |
| QueryEngine.NotNode.FindFirstCoveredByKnown | src/realm/query_engine.cpp:412-428 | corrected comparison: the answer is the first match in [start, end) |
| QueryEngine.NotNode.FindFirstOverlapLower | src/realm/query_engine.cpp:430-443 | the answer is the first match, and the cache stays the first match of its range |
| QueryEngine.NotNode.FindFirstOverlapUpper | src/realm/query_engine.cpp:445-466 | the answer is the first match, and the cache stays the first match of its range |
| QueryEngine.NotNode.FindFirstNoOverlap | src/realm/query_engine.cpp:468-480 | the answer is the first match, and the cache stays the first match of its range |
| QueryEngine.NotNode.FindFirstLocal | src/realm/query_engine.cpp:349-366 | in every case, the first row of [start, end) where the wrapped condition fails, with the cache invariant kept |
| QueryEngine.InNeedles | src/realm/query_engine.cpp:260-298 | a row holds exactly when its string is one of the needles |
| QueryEngine.FindFirstLinear | src/realm/query_engine.cpp:278-286 | comparing each row with each needle finds the first row holding a needle |
| QueryEngine.FindFirstHashed | src/realm/query_engine.cpp:288-297 | looking each row up in the needle set finds the same first row |
| QueryEngine.LeafFindFirst | src/realm/query_engine.cpp:262-264 | a leaf's own find_first returns a row of [start, end) holding the value with no earlier row in the range holding it, or not_found when no row of the range holds it |
| QueryEngine.InitCosts | src/realm/query_engine.cpp:135-154 | dD is 10; dT is 1 for an enumerated column (even with an index), 0 for an indexed column that is not enumerated, else 10 |
| QueryEngine.StringEqualNode.constructor | src/realm/query_engine.cpp:237-258 | a new node has its column and value and no needles |
| QueryEngine.StringEqualNode.ConsumeCondition | src/realm/query_engine.cpp:237-258 | the needles become the old needles (or the node's own value when there were none) plus the other node's value |
| QueryEngine.StringEqualNode.FindFirstLocal | src/realm/query_engine.cpp:260-298 | the first row of [start, end) holding the value, or one of the needles when there are some; an end of npos means the leaf size |
| QueryEngine.StringEqualNode.Describe | src/realm/query_engine.cpp:300-320 | without needles, the base description; with them, "(c == v1 or c == v2 …)" with one term per entry of the set's iteration order, which holds each needle exactly once, so there are as many terms as needles |
| QueryEngine.DescribeStep | src/realm/query_engine.cpp:309-314 | each loop step appends " or " (none before the first term) and "column == value" |
| QueryEngine.Shown | src/realm/query_engine.cpp:310-313 | the printed value of each needle, in iteration order |
| QueryEngine.DistinctCount | src/realm/query_engine.cpp:309 | an iteration order without repeats over exactly the needles has one entry per needle |
| QueryEngine.Terms | src/realm/query_engine.cpp:300-320 | one "column == value" term per needle |
| ObjectKeys.OptimisticId | src/realm/table.cpp:2816-2825 | the low 62 bits of lo: non-negative, below 2^62, congruent to lo |
| ObjectKeys.TaggedId | src/realm/table.cpp:2827-2831 | bit 62 set over the sequence number: in [2^62, 2^63) and congruent to it |
| ObjectKeys.TaggedIsNotOptimistic | src/realm/table.cpp:2816-2831 | a tagged id never equals an optimistic id |
| ObjectKeys.TaggedIdInjective | src/realm/table.cpp:2827-2831 | distinct sequence numbers give distinct tagged ids |
| ObjectKeys.Signed | src/realm/table.cpp:2904-2909 | a word read as int64 is in the int64 range and congruent to it modulo 2^64 |
| ObjectKeys.FindFrom | src/realm/table.cpp:2835-2862 | the first index at or after from that holds v, or the length |
| ObjectKeys.InsertAt | src/realm/table.cpp:2911-2924 | Array::insert: the element at i, the earlier elements kept, the later ones shifted up |
| ObjectKeys.RemoveAt | src/realm/table.cpp:2972-2974 | Array::erase: the element at i dropped, the others kept in order |
| ObjectKeys.NotBeforeAfter | src/realm/table.cpp:2904-2909 | in the sorted map, every entry after one that is not before a key is also not before it |
| ObjectKeys.InsertKeepsSorted | src/realm/table.cpp:2911-2924 | inserting a new key at its lower bound keeps the map sorted |
| ObjectKeys.RemoveKeepsSorted | src/realm/table.cpp:2951-2980 | removing an entry keeps the map sorted |
| ObjectKeys.KeyTable.constructor | src/realm/table.cpp:2864-2898 | no sequence number and an empty collision map |
| ObjectKeys.KeyTable.AllocateSequenceNumber | src/realm/table.cpp:1776-1784 | returns the stored counter (0 when untagged) and stores the counter + 1 |
| ObjectKeys.KeyTable.LookupRecorded | src/realm/table.cpp:2835-2862 | a key recorded in the collision map maps to its recorded local id |
| ObjectKeys.KeyTable.LookupAbsent | src/realm/table.cpp:2835-2862 | a key absent from the collision map maps to its optimistic id |
| ObjectKeys.KeyTable.GlobalToLocal | src/realm/table.cpp:2835-2862 | on a sorted map, either the key is recorded at some position and the result is that position's local id, or the key is absent and the result is its optimistic id |
| ObjectKeys.KeyTable.LowerBound | src/realm/table.cpp:2904-2909 | the entries before the index are before the key and none from the index on are |
| ObjectKeys.KeyTable.InsertCollision | src/realm/table.cpp:2911-2924 | the key is inserted exactly when the map lacked it, in sorted position, and the map stays sorted with equal-length arrays; the call succeeds exactly when the key was not already recorded with another local id; on success the key looks up to its id; every other entry is kept |
| ObjectKeys.KeyTable.AllocateAfterCollision | src/realm/table.cpp:2864-2931 | the counter advances and the new id is the tagged old counter; the call fails exactly when that counter is 2^62 or more or one of the two keys is already recorded with another id; the incoming key is inserted exactly when the counter is in range and the map lacked it, the colliding key exactly when the call succeeds and the map lacked it; every other entry is kept; on success both keys look up to their ids |
| ObjectKeys.KeyTable.RecordCollision | src/realm/table.cpp:2911-2928 | the incoming key is inserted exactly when the map lacked it, then the colliding key exactly when the first step succeeded and the map lacked it; the call succeeds exactly when neither key is recorded with another id; every other entry is kept; on success both keys look up to their ids |
| ObjectKeys.InsertIf | src/realm/table.cpp:2920-2922 | an insertion made or skipped: one element longer exactly when it is made |
| ObjectKeys.KeyTable.FreeAfterCollision | src/realm/table.cpp:2951-2980 | the first entry with that local id is removed from all three arrays, the others keep their order, and the map stays sorted |
| TableColumns.Width | src/realm/table.cpp:3097-3117 | every spec column's leaf index is below the leaf width |
| TableColumns.LastWithIndex | src/realm/table.cpp:3097-3117 | the last spec column using a leaf, or -1 when none does |
| TableColumns.ColumnMappingInverse | src/realm/table.cpp:3097-3117 | with distinct leaf indices, spec to leaf and leaf to spec are mutually inverse on the used slots |
| TableColumns.Grow | src/realm/table.cpp:3097-3117 | resizing keeps the elements and fills the new slots |
| TableColumns.LeafToSpecOf | src/realm/table.cpp:3097-3117 | the leaf-to-spec map is as wide as the leaves |
| TableColumns.LeafKeysOf | src/realm/table.cpp:3097-3117 | the leaf-to-column-key map is as wide as the leaves |
| TableColumns.PrefixStep | src/realm/table.cpp:3106-3116 | one more spec column widens the leaves to cover its leaf and becomes the last user of that leaf |
| TableColumns.LastBeyondWidth | src/realm/table.cpp:3097-3117 | no spec column uses a leaf beyond the width |
| TableColumns.LeafToSpecStep | src/realm/table.cpp:3106-3116 | one loop step grows the leaf-to-spec map with -1 and records the spec index at its leaf |
| TableColumns.LeafKeysStep | src/realm/table.cpp:3106-3116 | one loop step grows the leaf-to-column-key map with ColKey() and records the key at its leaf |
| TableColumns.InsertUnique | src/realm/table.cpp:1718-1719 | inserting into an increasing list keeps it increasing and adds exactly that key |
| TableColumns.SortUnique | src/realm/table.cpp:1718-1719 | sort then unique: an increasing list with the same elements |
| TableColumns.BatchEraseKeys | src/realm/table.cpp:1706-1720 | the non-null valid input keys, each once, in increasing order |
| TableColumns.VersionsEqual | src/realm/table.cpp:265-276 | equal exactly when the lengths are equal and the versions are pairwise equal |
| TableColumns.FirstFree | src/realm/table.cpp:3128-3135 | the lowest empty leaf slot, else the number of slots |
| TableColumns.FirstFreeIs | src/realm/table.cpp:3128-3135 | that characterisation determines FirstFree |
| TableColumns.Table.constructor | src/realm/table.cpp:3097-3137 | a table with the given top array, embedded flag and leaf keys, and empty index maps |
| TableColumns.Table.GenerateColKey | src/realm/table.cpp:3119-3137 | the new key has the given type and attributes, the tag counter ^ table key, and the lowest empty leaf slot, else the current size |
| TableColumns.Table.BuildColumnMapping | src/realm/table.cpp:3097-3117 | spec to leaf is each column's leaf index; leaf to spec and leaf to column key are the inverse maps, with -1 and ColKey() in unused slots |
| TableColumns.Table.DoSetEmbedded | src/realm/table.cpp:831-845 | pads the top array with 0 up to the flags slot, changes only bit 0 of the flags word to the new flag, and leaves every other slot unchanged |
| TableColumns.Table.SetEmbedded | src/realm/table.cpp:793-845 | true and no change when already in that state; an error exactly in a sync client, a boolean otherwise; true exactly when there is no primary key and, when the table has backlink columns, every object has exactly one parent; then the top array is do_set_embedded's: padded with zeros, only bit 0 of the flags changed; otherwise no change |
| ReplayHeaders.DigitRunFrom | src/realm/sync/apply_to_state_command.cpp:63-73 | from_chars stops at the first non-digit |
| ReplayHeaders.DigitRunDigits | src/realm/sync/apply_to_state_command.cpp:63-73 | every character it passes over is a digit |
| ReplayHeaders.FromChars | src/realm/sync/apply_to_state_command.cpp:63-73 | consumes the digit run; a value is produced only from at least one digit and only below the type's limit |
| ReplayHeaders.FirstSpaceFrom | src/realm/sync/apply_to_state_command.cpp:75-90 | the first whitespace at or after i, or the end |
| ReplayHeaders.FirstSpaceFirst | src/realm/sync/apply_to_state_command.cpp:75-90 | nothing before it is whitespace |
| ReplayHeaders.ScanWord | src/realm/sync/apply_to_state_command.cpp:75-90 | no value exactly when the input has no whitespace; otherwise the word and the rest make up the input, and the rest starts with whitespace |
| ReplayHeaders.ScanWordSpec | src/realm/sync/apply_to_state_command.cpp:75-90 | the word is the maximal whitespace-free prefix |
| ReplayHeaders.Unsets | src/realm/sync/apply_to_state_command.cpp:93-113 | the arguments left unassigned by an early end |
| ReplayHeaders.ScanAsWritten | src/realm/sync/apply_to_state_command.cpp:63-90 | as written: a numeric field always succeeds, and its rest starts right after the maximal digit run; the argument is unset exactly when there are no digits or the value does not fit the type, and otherwise it is the digits' value; a word field fails exactly when the input has no whitespace, and otherwise word + rest is the input with the rest starting at that whitespace |
| ReplayHeaders.ParseElementAsWritten | src/realm/sync/apply_to_state_command.cpp:93-113 | as written: fails on empty input when fields remain; a successful parse gives one argument per field, each unset or of its field's kind, and a strictly shorter rest when there was a field; on well-formed lines it agrees with the corrected parser (AsWrittenAgrees) and completes the round trip (AsWrittenRoundTrip) |
| ReplayHeaders.ScanValue | src/realm/sync/apply_to_state_command.cpp:63-90 | a scanned value fits its field and the rest is no longer than the input |
| ReplayHeaders.ParseElement | src/realm/sync/apply_to_state_command.cpp:93-119 | the corrected header parser never reads past the end of its input |
| ReplayHeaders.ParsedShape | src/realm/sync/apply_to_state_command.cpp:93-119 | a successful parse gives one fitting value per field and consumes at least one character per field |
| ReplayHeaders.FieldThenSpace | src/realm/sync/apply_to_state_command.cpp:105-107 | after a field, a space moves on to the next argument |
| ReplayHeaders.NumberThenSpace | src/realm/sync/apply_to_state_command.cpp:105-107 | a number followed by a space is parsed and the rest goes to the next fields |
| ReplayHeaders.NumberThenDelimiter | src/realm/sync/apply_to_state_command.cpp:108-110 | a number for the last field followed by the end delimiter ends the line, leaving the text after it |
| ReplayHeaders.SpaceEndsLastField | src/realm/sync/apply_to_state_command.cpp:58-61 | a space after the last field also ends the line, without the end delimiter |
| ReplayHeaders.Decimal | src/realm/sync/apply_to_state_command.cpp:63-73 | the decimal text of a number is non-empty and all digits |
| ReplayHeaders.DigitsValuePrefix | src/realm/sync/apply_to_state_command.cpp:63-73 | the value of a digit prefix ignores what follows |
| ReplayHeaders.DecimalValue | src/realm/sync/apply_to_state_command.cpp:63-73 | reading back a number's decimal text gives the number |
| ReplayHeaders.DigitRunOf | src/realm/sync/apply_to_state_command.cpp:63-73 | the digit run of digits followed by a non-digit ends at the non-digit |
| ReplayHeaders.DecimalScan | src/realm/sync/apply_to_state_command.cpp:63-73 | a number in range followed by a non-digit is scanned back exactly |
| ReplayHeaders.Nums | src/realm/sync/apply_to_state_command.cpp:115-119 | the parsed values of a list of numbers |
| ReplayHeaders.NumsCons | src/realm/sync/apply_to_state_command.cpp:115-119 | the values of a list are its head's value followed by its tail's |
| ReplayHeaders.HeaderLineRoundTrip | src/realm/sync/apply_to_state_command.cpp:93-119 | in-range numbers joined by spaces and ended by the delimiter parse back to those numbers, leaving exactly the text after the delimiter |
| ReplayHeaders.AsWrittenAgrees | src/realm/sync/apply_to_state_command.cpp:63-113 | on every input where the corrected parser succeeds, the parser as written gives the same arguments and the same rest |
| ReplayHeaders.AsWrittenRoundTrip | src/realm/sync/apply_to_state_command.cpp:63-119 | the parser as written reads in-range numbers joined by spaces and ended by the delimiter back to those numbers, leaving exactly the text after the delimiter |
| ReplayHeaders.EmptyNumberAccepted | src/realm/sync/apply_to_state_command.cpp:63-73 | as written, a field with no digits is accepted with its argument unset; the corrected parser fails |
| ReplayHeaders.OutOfRangeAccepted | src/realm/sync/apply_to_state_command.cpp:63-73 | as written, a numeric field whose value does not fit its type is accepted with its argument unset; the corrected parser fails |
| ReplayHeaders.NumberAtEndReadsPastEnd | src/realm/sync/apply_to_state_command.cpp:104-105 | as written, a value that ends the input leads to reading an empty view; the corrected parser fails |
| ReplayHeaders.EarlyDelimiterAccepted | src/realm/sync/apply_to_state_command.cpp:108-110 | as written, the end delimiter after the first of two fields ends the line with the second argument unset; the corrected parser fails |
| ReplayHeaders.ParseBody | src/realm/sync/apply_to_state_command.cpp:130-164 | compressed: fails exactly when fewer than compressed_body_size bytes remain or decompression fails, otherwise the rest follows those bytes; uncompressed: fails exactly when fewer than uncompressed_body_size bytes remain, otherwise the body has that size and body + rest is the input |
| ReplayHeaders.NumsOf | src/realm/sync/apply_to_state_command.cpp:115-119 | the numbers held by parsed arguments |
| ReplayHeaders.NumberFields | src/realm/sync/apply_to_state_command.cpp:115-119 | one numeric field per limit |
| ReplayHeaders.NextChangeset | src/realm/sync/apply_to_state_command.cpp:235-257 | one loop iteration consumes a header and exactly changeset_size bytes, so the body view strictly shrinks |
| ReplayHeaders.NextOfEncoded | src/realm/sync/apply_to_state_command.cpp:235-257 | an encoded changeset followed by more text is read back exactly |
| ReplayHeaders.SplitRoundTrip | src/realm/sync/apply_to_state_command.cpp:235-257 | encoded well-formed changesets split back into exactly those changesets |
| ReplayHeaders.PrependAppend | src/realm/sync/apply_to_state_command.cpp:235-257 | pushing changesets one at a time is pushing them all |
| ReplayHeaders.SplitBody | src/realm/sync/apply_to_state_command.cpp:287-311 | the changeset loop computes SplitChangesets of the body |
| ReplayHeaders.ParseIdent | src/realm/sync/apply_to_state_command.cpp:187-199 | an ident message carries its three header values |
| ReplayHeaders.ParseDownload | src/realm/sync/apply_to_state_command.cpp:201-260 | on success (DownloadParsed): eleven header values read by the header parser, the body taken by the declared sizes and compression flag, and the changesets obtained by splitting that body |
| ReplayHeaders.ParseUpload | src/realm/sync/apply_to_state_command.cpp:262-314 | on success (UploadParsed): seven header values read by the header parser, the body taken by the declared sizes and compression flag, and the changesets obtained by splitting that body |
| ReplayHeaders.ParseMessage | src/realm/sync/apply_to_state_command.cpp:166-185 | fails when there is no space-ended token or it is not "download", "upload" or "ident"; otherwise the message has that kind and is what the download, upload or ident parser reads from the text after the token (DownloadParsed, UploadParsed, ParseIdent) |
| QueryInfo.TypeFromAction | src/realm/metrics/query_info.cpp:106-127 | the callback action is the only one mapped to Invalid; ReturnFirst gives Find, FindAll gives FindAll, Count gives Count |
| QueryInfo.ActionOfType | src/realm/metrics/query_info.cpp:106-127 | only Invalid has no action |
| QueryInfo.TypeFromActionRecoverable | src/realm/metrics/query_info.cpp:108-122 | every non-callback action is recovered from its query type |
| QueryInfo.TypeFromActionInjective | src/realm/metrics/query_info.cpp:108-122 | distinct non-callback actions have distinct query types |
| QueryInfo.Info.constructor | src/realm/metrics/query_info.cpp:28-46 | stores the query's description, or the serialisation error's message when describing fails, and no timer |
| QueryInfo.Info.QueryTimeNanoseconds | src/realm/metrics/query_info.cpp:67-73 | 0 without a timer, otherwise the timer's total |

## Left out

- QueryEngine.NotNode.FindFirstLocal: it calls the corrected FindFirstCoveredByKnown, so it differs from the source where the first Findings row does. With a known range [0, 2) whose first match is 1 and a query over [0, 1), the source returns 1 and the model returns not_found.
- The `REALM_MULTITHREAD_QUERY` code in `query.cpp` is left out. It is concurrency code and is disabled.
- Float, double, Timestamp, ObjectId and Decimal128 conditions and aggregates are left out. Only int64 conditions are modelled; `average` is a `real` quotient.
- The costs `m_dD`/`m_dT` are doubles in the source. Here they are natural numbers, which keeps their order.
- Search-index paths are left out: `_search_index_init`, `index_based_aggregate` and the index branch of `find_all`. The search index is not part of this model.
- `ExpressionNode`, `TableView`, descriptor ordering and `Transaction::import_copy_of` are not part of this model.
- The condition-node headers are not part of this model. That covers `ParentNode::add_child`, the `OrNode` and `NotNode` constructors, and each node's own `find_first_local`. A child's search is its row sequence, and `add_child` appends a chain of conjuncts.
- QueryExec.DoCount: with conditions on a table, it counts each cluster's matches with the node's first-match search. It does not go through `aggregate_internal`; `aggregate_local` itself is modelled by QueryEngine.AggregateLocal.
- QueryExec.FindAllWithoutConditions: its precondition requires begin <= end (or end = npos), as the modelled core assumes; the source asserts only begin <= size. With end < begin the source's cluster callback wraps the size_t `end -= e` and collects keys: with two clusters of two objects, begin 3 and end 1, the first visit makes end 2^64 - 1 and the second collects the key at position 3. The view path returns nothing for the same range (QueryExec.FindAllInView).
- The find_all path with conditions over clusters (`aggregate_internal` per cluster) is not modelled. The view path and the no-condition cluster path are.
- QueryBuilder.Query.Or: its precondition excludes a top group already in the OrCondition state. Calling `Or()` twice in a row makes `add_node` use the null root of that group, which is undefined behaviour in the source.
- QueryBuilder.OrSpec, QueryBuilder.AndQuery, QueryBuilder.OrOp and QueryBuilder.BetweenSpec state only well-formedness in their own contracts. What they build is stated by OrWraps and OrAfterNot (Or() on any group), OrOpDisjuncts (`||`), AndOpChains, BetweenAddsTree and BetweenKeepsDepth.
- QueryBuilder.OrSpec: after Not().Or(), `Query::Or` keeps a reference to the top group across `add_node`, whose `handle_pending_not` pops that group, and then writes the OrCondition state through it. That write lands on a destroyed element, which is undefined behaviour. The model writes no state, so the enclosing group stays as `add_node` left it (OrAfterNot).
- Query copy and move and the `QueryGroup` copy constructor are left out. They copy storage and do not change the stack.
- Table storage is left out: the `m_top` slot positions, `RefOrTagged` capacity and the ColKey bit layout. `table.hpp` is not part of this model. A tagged top-array value v is stored as 2v + 1, and the flags slot is a constructor parameter.
- `REALM_EXERCISE_OBJECT_ID_COLLISION` is left out. It is a test build that uses the mask 0xff instead of 2^62 − 1.
- ObjectKeys.KeyTable.FreeAfterCollision: freeing the collision map's storage when it becomes empty is not modelled. An empty map is three empty sequences.
- ObjectKeys.KeyTable.AllocateAfterCollision: where an assertion of the source fails, the model returns None and goes on from the state reached so far. The assertions are a sequence number of 2^62 or more, and a key already recorded with another id.
- Collision-map creation is left out. The three arrays always exist here, so the branch that allocates them is not modelled.
- `get_data_type_name` is left out. It is a lookup table of names.
- The table-key assertion of `TableVersions::operator==` is left out. It is a debug check.
- The cascade deletion in `batch_erase_rows` is left out: `remove_recursive`, `nullify_links` and cluster erasure. Only the key normalisation before it is modelled.
- In the replay tool, `main` is left out: option parsing, file loading, the database and the history.
- `compression::decompress` is an input to ParseBody: the decompressed body, or None when decompression fails.
- `parse_changeset` and logging are left out. Changeset bytes are opaque.
- ReplayHeaders.FromChars reads only unsigned decimals. `std::from_chars` into a signed field (`int`, `int64_t`) also accepts a leading '-', which is not modelled.
- ReplayHeaders.FromChars: the field widths come from `protocol.hpp`, which is not part of this model. Each field is a limit: 2^64 for the unsigned fields, 2^63 for salts, 2^31 for `int`.
- ReplayHeaders.ParseDownload and ReplayHeaders.ParseUpload: the header values are a list of numbers, not the named message fields.
- ReplayHeaders.ParseDownload and ReplayHeaders.ParseUpload: their contracts state what a successful parse consists of, not that every such input succeeds. The splitting and its round trip are stated exactly by SplitBody and SplitRoundTrip.
- The Download and Upload loops share one SplitBody. They differ only in the number of changeset header fields, 6 or 5.
- ReplayHeaders.ParseIdent, ReplayHeaders.ParseDownload, ReplayHeaders.ParseUpload and ReplayHeaders.NextChangeset read header lines with the corrected ParseElement, not with ParseElementAsWritten. Where the source accepts a header line that ends early, they fail. An example is a download line whose newline follows 2 of its 11 fields: the source succeeds with nine fields unassigned, the body sizes among them. Likewise, where a numeric field is empty or its value does not fit its type (a 20-digit session ident or body size), the source accepts the line with that argument unassigned and these parsers fail. The three Findings rows for apply_to_state_command.cpp describe these inputs. These are the only differences: wherever ParseElement succeeds, ParseElementAsWritten gives the same arguments and rest (AsWrittenAgrees).
- ReplayHeaders.ParseIdent states only the shape of its result. The round trip of its header line is HeaderLineRoundTrip.
- `QueryInfo::track` and the metrics timers are left out. They are observability plumbing; the timer is an optional total.
- `src/realm/query/driver.cpp` and `driver.hpp` are left out. They wrap a generated parser whose grammar is not part of this model.

## Findings

| source | as written | input that shows it | evidently intended | confidence | as-written member | corrected member |
|---|---|---|---|---|---|---|
| src/realm/query_engine.cpp:412-428 | `find_first_covered_by_known` returns the cached first match when it is `<= end` | known range [0, 2) with first match 1, query [0, 1) | a cached match at `end` is outside [start, end); the result should be not_found | not executed | QueryEngine.CoveredByKnownReturnsEnd | QueryEngine.NotNode.FindFirstCoveredByKnown |
| src/realm/sync/apply_to_state_command.cpp:63-73 | the `res.ptr == nullptr` guard never fires, because `from_chars` reports failure through `ec`; a field with no digits, or with a value out of the field's range, is accepted and its argument stays unassigned | `" 7\n"` for two numeric fields; `"18446744073709551616\n"` for one 64-bit unsigned field | a field without a value that fits fails the parse | not executed | ReplayHeaders.EmptyNumberAccepted, ReplayHeaders.OutOfRangeAccepted | ReplayHeaders.ParseElement |
| src/realm/sync/apply_to_state_command.cpp:104-105 | `sv.front()` is read after a value without checking that `sv` is non-empty | `"7"` for one numeric field | input that ends right after a value fails the parse | not executed | ReplayHeaders.NumberAtEndReadsPastEnd | ReplayHeaders.ParseElement |
| src/realm/sync/apply_to_state_command.cpp:108-110 | the end delimiter is accepted after any field, leaving the remaining arguments unassigned | `"7\n"` for two numeric fields | the end delimiter is accepted only after the last field | not executed | ReplayHeaders.EarlyDelimiterAccepted | ReplayHeaders.ParseElement |
