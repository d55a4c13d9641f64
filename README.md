# pyhpo: ancestor lookup, minimised graph and OBO loader

This project models the Human Phenotype Ontology helpers of pyhpo in Dafny and proves properties of the model:

- **Ancestor lookup.** `Hpo.get_ancestors` follows the `is_a` links of a term.
- **Minimised graph.** `Hpo.get_min_graph` turns a list of terms into the small node list a front end draws. With one term, the list holds that term and its direct parents. With several terms, each term `h` gets the chain `[h] + get_ancestors(h)` (all direct parents at every hop, following the first one), every id on the chains is counted, and the chains are walked from the least counted term to the most counted one.
- **Counting and sorting helpers.** `counter` and `get_sorted_index` support the minimised graph.
- **OBO loader.** `obo_to_sqlite.py` reads an OBO file line by line into a record with the columns `id, name, def, alt_id, is_a`. Each `[Term]` line writes the record built since the previous `[Term]` line if it is non-empty, and the last record is always written, even when empty.

The SQLite table is replaced on each side:

- **Reading.** A term lookup becomes a map from a term id to its stored `is_a` column (`Hpo.Store`).
- **Writing.** The rows the loader would insert become a sequence, in insertion order.

Acyclicity of the ontology is an assumption in the source, not something it checks. In the model it is the ghost precondition `Hpo.Ranked`: a rank on terms that strictly decreases from a term to its first parent, which is the only edge `get_ancestors` follows.

The files:

- `text.dfy` — the Python `str` operations used. These are `rstrip`, `strip`, `split(c)`, `split(': ', 1)` unpacked into two values, and `join`.
- `obo_loader.dfy` — the loader loop of `main` and `write_to_db`.
- `hpo.dfy` — the term store and `get_ancestors`.
- `hpo_counting.dfy` — `counter` and `get_sorted_index`.
- `hpo_min_graph.dfy` — `get_min_graph`. It has two layers:
  - a functional specification: `Visit` for one pass of the inner loop, `WalkChain` and `WalkStep` for one chain, `WalkAll` for the outer loop, and `MinGraph` for the whole result;
  - the imperative method `GetMinGraph` with the source's loops, proved equal to `MinGraph`.
- `hpo_min_graph_properties.dfy` — what the result of `get_min_graph` guarantees, proved through an invariant of the walk.
- `hpo_scenarios.dfy` — one small sample ontology, with three queries to `MinGraph` worked out by proof.

Behaviour of the code worth knowing, each point with the lemma that proves it about the model:

- **Empty input.** `get_min_graph([])` returns `[]` (see `MinGraphEmpty`).
- **Repeated inputs.** The term at position 0 of a chain is appended without being added to `seen`. A round whose term is not in `seen` when it starts gives that term a new node after the nodes of the earlier rounds (`WalkAllFreshTerm`). So a term listed twice gets a second node unless, by its second round, an earlier walk has put it in `seen` as an ancestor. In that case the round adds no node for it at the head of its chain (`VisitSeenHead`), though it can still emit the term's ancestors and relink the last node. `MinGraphDuplicates` proves the other direction: an id appears twice in the result only if it was requested twice. `MinGraphRepeatedAncestor` shows a round that adds nothing: with the sample ontology below, `get_min_graph(['C', 'A', 'A'])` is `C -> A, A`, with one node for `A` and none for `R`.
- **Equal counts.** An ancestor whose count equals the running count is skipped. In the sample ontology (`R`; `A`, `B` under `R`; `C` under `A`), `get_min_graph(['C', 'B'])` is `C -> R, R, B -> R`: the equal-count ancestor `A` is not emitted (see `MinGraphSkipsEqualCount`).
- **Self link.** The link goes to whatever node is last in `result`, even when that node belongs to an earlier chain. With the same ontology, `get_min_graph(['C', 'A', 'R'])` links `R` to itself: `C -> A, A -> R, R -> R` (see `MinGraphSelfLink`). So the result is not always a forest.
- **All parents listed, first parent followed.** `get_ancestors` lists all direct parents at every hop, but follows only the first one.
- **Single-term branch.** It lists the direct parents without looking them up.

## Model

| member | source | states |
|---|---|---|
| Text.Rstrip | obo_to_sqlite.py:25 | the result is a prefix of the line that does not end in whitespace |
| Text.RstripRemovesSpace | obo_to_sqlite.py:25 | everything `rstrip` removes is whitespace |
| Text.Lstrip | obo_to_sqlite.py:46 | the result is a suffix that does not start with whitespace |
| Text.LstripRemovesSpace | obo_to_sqlite.py:46 | everything the left strip removes is whitespace |
| Text.StripTrimmed | obo_to_sqlite.py:46 | `strip` of a trimmed word followed by whitespace gives the word back |
| Text.Strip | obo_to_sqlite.py:46 | `strip` gives a string no longer than its input that neither starts nor ends with whitespace |
| Text.IndexOf | obo_to_sqlite.py:38 | the first position of a character, and `None` exactly when it is absent |
| Text.Split | Hpo.py:24 | `split` gives at least one piece and no piece contains the separator |
| Text.SplitJoin | obo_to_sqlite.py:61 | splitting a non-empty `join` of separator-free pieces gives the pieces back |
| Text.JoinSplit | Hpo.py:24 | joining the pieces of a `split` gives the string back |
| Text.JoinEmpty | obo_to_sqlite.py:61 | a join is empty exactly for no pieces or the single empty piece |
| Text.IndexOfPrefix | obo_to_sqlite.py:61 | after a separator-free prefix, the first separator is the joining one |
| Text.Join | obo_to_sqlite.py:61 | `sep.join(parts)`; `SplitJoin` and `JoinSplit` state that it and `Split` undo each other |
| Text.FindFrom | obo_to_sqlite.py:34 | a found position lies in the string, at or after the start |
| Text.FindFromFirst | obo_to_sqlite.py:34 | the position found is an occurrence with none before it, and `None` means no occurrence |
| Text.SplitOnce | obo_to_sqlite.py:34 | `split(': ', 1)` unpacked into two values; `SplitOnceCharacterized` states when it succeeds and where it cuts |
| Text.SplitOnceCharacterized | obo_to_sqlite.py:34 | `split(': ', 1)` fails to give two values exactly when `': '` does not occur; otherwise it cuts around the first occurrence |
| Text.SplitOnceAt | obo_to_sqlite.py:34 | a line `a + ': ' + b` with no earlier `': '` unpacks to `(a, b)` |
| OboLoader.JoinColumn | obo_to_sqlite.py:59-63 | an absent list is NULL; otherwise the `;`-join, which splits back to the list when no value contains `;` |
| OboLoader.WriteToDb | obo_to_sqlite.py:57-66 | `id`, `name` and `def` are copied; each list column is NULL exactly when the list is absent, and otherwise the `;`-join splits back to the list |
| OboLoader.QuotedText | obo_to_sqlite.py:38 | `value.split('"')[1]` raises exactly when the value has no `"`; the text kept has no `"` |
| OboLoader.QuotedTextFound | obo_to_sqlite.py:38 | the text kept starts after the first `"` and runs to the next `"` or to the end |
| OboLoader.QuotedTextCharacterized | obo_to_sqlite.py:38 | index 1 exists exactly when there is a `"`, and it holds the text after the first `"` |
| OboLoader.IsAValue | obo_to_sqlite.py:46 | the kept `is_a` value contains no `!` |
| OboLoader.IsAValueCut | obo_to_sqlite.py:46 | the kept value is the text before the first `!` (all of it when there is none), stripped |
| OboLoader.FeedBlankLine | obo_to_sqlite.py:25-27 | a line that is empty after `rstrip` changes nothing |
| OboLoader.FeedTermLine | obo_to_sqlite.py:28-33 | `[Term]` writes the current record only if it is non-empty, then starts an empty one |
| OboLoader.FeedUnsplittableLine | obo_to_sqlite.py:34 | any other line without `': '` raises the unpack error |
| OboLoader.FeedFieldLine | obo_to_sqlite.py:34-50 | a `key: value` line changes only the current record, as the field rules say, and keeps the rows written |
| OboLoader.FieldIdName | obo_to_sqlite.py:35-36 | `id` and `name` are stored verbatim, and a later line overwrites an earlier one |
| OboLoader.FieldDef | obo_to_sqlite.py:37-39 | `def` keeps the text between the first and second `"` |
| OboLoader.FieldDefUnquoted | obo_to_sqlite.py:38 | a `def` without `"` raises IndexError |
| OboLoader.FieldAltId | obo_to_sqlite.py:40-44 | `alt_id` values accumulate in order and the other fields are untouched |
| OboLoader.FieldIsA | obo_to_sqlite.py:45-50 | `is_a` values accumulate in order, each cut at its first `!` and stripped |
| OboLoader.FieldOther | obo_to_sqlite.py:35-50 | keys other than the five columns are ignored |
| OboLoader.FeedLinesErrorSticks | obo_to_sqlite.py:24-50 | once a line raises, the loop has stopped with that error |
| OboLoader.LoadLinesError | obo_to_sqlite.py:24-52 | an error on some line is the result of the whole load |
| OboLoader.LoadNoLines | obo_to_sqlite.py:52 | a file without lines still inserts one row of NULLs |
| OboLoader.LoadTrailingMarker | obo_to_sqlite.py:28-52 | a file ending in `[Term]` ends with a row of NULLs |
| OboLoader.LoadOneTerm | obo_to_sqlite.py:22-66 | one block `[Term]`, `id`, `name`, `is_a: P ! C` inserts exactly the row `(id, name, NULL, NULL, P)` |
| OboLoader.Load | obo_to_sqlite.py:22-52 | the loop over the lines, with its continues and early exits, inserts `LoadLines(lines)` |
| OboLoader.ReadLine | obo_to_sqlite.py:25-50 | the loop body for one line gives the next state or the error raised |
| OboLoader.StoreField | obo_to_sqlite.py:35-50 | the `if key ... elif` chain updates the record as `FeedField` says |
| OboLoader.FeedField | obo_to_sqlite.py:34-50 | the field rules for one `key: value` line fail exactly for a `def` value without `"` |
| OboLoader.FeedLine | obo_to_sqlite.py:25-50 | one line keeps the rows written so far and writes at most one more |
| OboLoader.FeedLines | obo_to_sqlite.py:24-50 | after `n` lines at most `n` rows have been written |
| OboLoader.LoadLines | obo_to_sqlite.py:22-52 | a load that succeeds inserts at least one row (the last record is always written) and at most one per line plus one |
| Hpo.Parents | Hpo.py:23-24 | no parents exactly for a NULL or empty column; otherwise separator-free pieces whose `;`-join is the column |
| Hpo.GetAncestors | Hpo.py:14-29 | the accumulator is a prefix of the result; an error names an id missing from the store |
| Hpo.Ancestors | Hpo.py:14-16 | `get_ancestors(hpo_id)` with the default `result=None`; an error names an id missing from the store |
| Hpo.GetAncestorsAccumulates | Hpo.py:14-25 | running with an accumulator prepends it to the result of the default call |
| Hpo.AncestorsOfRoot | Hpo.py:28-29 | a term without `is_a` has no ancestors |
| Hpo.AncestorsOfMissing | Hpo.py:20-22 | a missing id fails the lookup |
| Hpo.AncestorsUnfold | Hpo.py:23-27 | `anc(T) == parents(T) + anc(parents(T)[0])`: all parents listed, the first one followed |
| Hpo.AncestorsOfOneParent | Hpo.py:23-27 | with one parent `p`, the ancestors are `p` followed by the ancestors of `p` |
| Hpo.ParentsOfLoadedTerm | obo_to_sqlite.py:59-61 | the lookup reads back exactly the `is_a` values the loader joined, when none contains `;` and they are not one empty value |
| Hpo.ParentsOfEmptyIsA | obo_to_sqlite.py:46 | a single `is_a` that strips to nothing is stored as `""`, which reads back as no parents |
| HpoCounting.BumpAllCounts | Hpo.py:116-121 | `inner_counter` over a sequence adds each value's multiplicity and exactly its values as keys |
| HpoCounting.TallyCounts | Hpo.py:113-129 | the keys of `counter(data)` are exactly the values met, and each count is the number of occurrences |
| HpoCounting.FlattenContains | Hpo.py:124-126 | each member of each list of the input is met |
| HpoCounting.FlattenMember | Hpo.py:124-128 | a value met is a member of some list element or is a non-list element |
| HpoCounting.InnerCounter | Hpo.py:116-121 | `inner_counter(e)` adds `e` as a key, raises its count by one and leaves the other counts alone |
| HpoCounting.Bump | Hpo.py:116-121 | what `inner_counter(e)` does to the counts; `InnerCounter` states its effect |
| HpoCounting.Tally | Hpo.py:113-129 | what `counter(data)` returns; `TallyCounts` states its keys and counts |
| HpoCounting.CountEach | Hpo.py:124-126 | the inner loop counts the members of one list on top of the counts so far |
| HpoCounting.Counter | Hpo.py:113-129 | the nested loops compute `Tally(data)`: the keys are the values met, with their numbers of occurrences |
| HpoCounting.Insert | Hpo.py:135 | inserting into the sorted prefix adds exactly the new index |
| HpoCounting.InInsert | Hpo.py:135 | an index is in the result of an insertion exactly when it was in the prefix or is the one inserted |
| HpoCounting.InsertOrdered | Hpo.py:135 | insertion keeps the order by key, then by index |
| HpoCounting.InsertNext | Hpo.py:135 | inserting index `x` into a permutation of `0..x-1` gives a permutation of `0..x` |
| HpoCounting.SortPrefix | Hpo.py:135 | the result is ordered and holds exactly the indices `0..n-1` |
| HpoCounting.OrderedTail | Hpo.py:135 | dropping the first entry keeps the order |
| HpoCounting.OrderedUnique | Hpo.py:135 | two ordered sequences of the same indices are equal |
| HpoCounting.GetSortedIndex | Hpo.py:132-137 | a permutation of the positions, counts non-decreasing, equal counts in input order |
| HpoCounting.SortedIndexUnique | Hpo.py:132-137 | any sequence with those properties is the result of `get_sorted_index`, so stability fixes it |
| HpoMinGraph.AncestorLists | Hpo.py:88-91 | the built list has one chain per term, starting with the term |
| HpoMinGraph.AncestorListsErrorSticks | Hpo.py:88-91 | once a lookup has failed, the list stays failed |
| HpoMinGraph.GroupsCounted | Hpo.py:92 | every id on every chain has a count |
| HpoMinGraph.Relink | Hpo.py:105-106 | only the last node can change, only from no parent to `ancestor`, and ids are kept |
| HpoMinGraph.Visit | Hpo.py:99-109 | one pass keeps `seen` emitted and only grows the result, `seen` and the count; it rewrites only the last node and only from no parent; an ancestor at index > 0 that does not beat the count changes nothing; a raised count is the ancestor's count and the ancestor is then seen |
| HpoMinGraph.WalkChain | Hpo.py:98-109 | the walk of one chain keeps `seen` emitted, and after at least one step the result is non-empty |
| HpoMinGraph.WalkStep | Hpo.py:96-109 | one outer round keeps `seen` emitted |
| HpoMinGraph.WalkAll | Hpo.py:95-109 | the outer loop keeps `seen` emitted |
| HpoMinGraph.GetMinGraph | Hpo.py:44-110 | the method with its loops returns `MinGraph` |
| HpoMinGraph.CollectAncestors | Hpo.py:88-91 | the first loop builds the chains, or stops at the first failed lookup |
| HpoMinGraph.EmitAll | Hpo.py:95-109 | the outer loop over `sorted_index` computes `WalkAll` |
| HpoMinGraph.EmitChain | Hpo.py:96-109 | the inner loop over one chain, with the in-place `is_a` update, computes `WalkStep` |
| HpoMinGraph.SingleTermNodes | Hpo.py:77-86 | the single-term branch gives the term with its parent list, then one parentless node per parent |
| HpoMinGraph.SingleTermGraph | Hpo.py:77-86 | the ids of the single-term result are the term followed by its direct parents, and every node after the first has no parent |
| HpoMinGraph.MinGraph | Hpo.py:44-110 | what `get_min_graph(hpo_list)` returns; an error names an id missing from the store, and the properties of the result are proved in `HpoMinGraphProperties` |
| HpoMinGraph.MinGraphGeneral | Hpo.py:88-110 | the general branch is the walk over the chains, their counts and the sorted index |
| HpoMinGraphProperties.VisitFirst | Hpo.py:100-101 | the term at index 0 keeps the walk invariant |
| HpoMinGraphProperties.VisitLater | Hpo.py:102-109 | an ancestor keeps the walk invariant |
| HpoMinGraphProperties.RelinkSeen | Hpo.py:104-106 | linking to an already seen ancestor keeps the invariant |
| HpoMinGraphProperties.EmitAncestor | Hpo.py:107-109 | emitting an ancestor that is not in `seen` and has no node yet keeps the invariant (`VisitLater` shows that such an ancestor has no node) |
| HpoMinGraphProperties.WalkChainInv | Hpo.py:98-109 | the walk of one chain keeps the invariant |
| HpoMinGraphProperties.ProcessedBelow | Hpo.py:94 | the terms walked before a round have a count no larger than its term's |
| HpoMinGraphProperties.WalkAllInv | Hpo.py:95-109 | the invariant holds after every round of the outer loop |
| HpoMinGraphProperties.AncestorListsOk | Hpo.py:88-91 | a built list holds `[h] + get_ancestors(h)` for every term `h` |
| HpoMinGraphProperties.AncestorListsErr | Hpo.py:88-91 | building fails exactly when some lookup fails, with the error of the first failing term |
| HpoMinGraphProperties.MinGraphWalk | Hpo.py:88-110 | the general branch's result satisfies the walk invariant |
| HpoMinGraphProperties.ChainAncestor | Hpo.py:89-91 | an id after the head of a chain is an ancestor of that chain's term |
| HpoMinGraphProperties.MinGraphCoversInputs | Hpo.py:76-109 | every requested term gets a node |
| HpoMinGraphProperties.WalkCoversInputs | Hpo.py:96-101 | the general branch emits every term it walks |
| HpoMinGraphProperties.MinGraphLinks | Hpo.py:104-108 | in the general branch a node has no parent or a single one, which is a node of the result and an ancestor of some term |
| HpoMinGraphProperties.MinGraphNodesKnown | Hpo.py:96-109 | every node of the general branch is a term or an ancestor of one |
| HpoMinGraphProperties.MinGraphDuplicates | Hpo.py:100-109 | an id appears twice in the result only if it was requested twice |
| HpoMinGraphProperties.MinGraphDistinct | Hpo.py:100-109 | with distinct terms the nodes have distinct ids |
| HpoMinGraphProperties.MinGraphErrors | Hpo.py:79-91 | the single-term branch fails exactly for a missing term; the general branch fails exactly when some lookup fails, with the first error |
| HpoMinGraphProperties.MinGraphEmpty | Hpo.py:76-110 | no terms give no nodes |
| HpoMinGraphProperties.MinGraphSingle | Hpo.py:77-86 | one term gives the term with its parent list, then one parentless node per direct parent |
| HpoMinGraphProperties.SingleTermShape | Hpo.py:78-86 | the single-term result node by node: the term with its parent list, then one parentless node per parent |
| HpoMinGraphProperties.WalkChainKeeps | Hpo.py:105-106 | within one chain, nodes keep their ids and positions, only the node that was last can change, and a written link is never rewritten |
| HpoMinGraphProperties.WalkAllStepKeeps | Hpo.py:96-109 | one outer round keeps what the rounds before emitted and linked |
| HpoMinGraphProperties.VisitSeenHead | Hpo.py:100-104 | at the head of its chain, a term already in `seen` is not appended again, and that pass changes nothing |
| HpoMinGraphProperties.WalkChainFreshHead | Hpo.py:98-109 | a chain whose term is not in `seen` appends a node for the term right after the earlier nodes, and the rest of the walk keeps it there |
| HpoMinGraphProperties.WalkAllFreshTerm | Hpo.py:96-109 | a round whose term is not in `seen` when it starts gives the term a new node right after the nodes of the earlier rounds |
| HpoMinGraphProperties.WalkAllKeeps | Hpo.py:95-109 | across rounds a node keeps its id and position, and its `is_a` is written at most once |
| HpoMinGraphProperties.VisitRecords | Hpo.py:103-109 | one pass keeps the nodes the chain emitted record-breaking |
| HpoMinGraphProperties.WalkChainRecords | Hpo.py:98-109 | one chain walk emits only ids of the chain, with strictly increasing counts no larger than the running count |
| HpoScenarios.SampleAncestors | Hpo.py:14-29 | in a sample ontology with root `R`, `A` and `B` under `R` and `C` under `A`, the ancestors are `[]`, `['R']`, `['R']` and `['A', 'R']` |
| HpoScenarios.MinGraphSkipsEqualCount | Hpo.py:96-109 | `get_min_graph(['C', 'B'])` is `C -> R, R, B -> R`: `A` ties with `C` and is skipped |
| HpoScenarios.MinGraphSelfLink | Hpo.py:105-106 | `get_min_graph(['C', 'A', 'R'])` is `C -> A, A -> R, R -> R`: the root is linked to itself |
| HpoScenarios.MinGraphRepeatedAncestor | Hpo.py:99-109 | `get_min_graph(['C', 'A', 'A'])` is `C -> A, A`: `A` is already seen when it comes up as an input, so it gets no node of its own, and `R` only ties with `A` |

## Left out

- The SQLite connection, the cursors, `SELECT`, `CREATE`/`DROP TABLE`, `INSERT`, commit and close. The lookup is a map; the inserted rows are a sequence.
- Opening the OBO file, `argparse` and the final `print`. These are I/O; the file is a sequence of lines, as iterating the open file gives them, with line endings removed by `rstrip`.
- The existence check on the database file in `Hpo.__init__`. This is filesystem I/O.
- `table_header`. It reads the schema through `PRAGMA`, and as written its three-argument `hasattr` call would raise `TypeError`. The model reads the `is_a` column directly.
- A missing id, where `fetchone()` returns `None` and building the record raises, is modelled as the error `NotFound`. The Python exception type is not modelled.
- A cycle in the first-parent links, which makes `get_ancestors` recurse until the interpreter stops it, is excluded by the `Ranked` precondition instead of being modelled as an error.
- Hpo.GetAncestors: the accumulator list that `result.extend` mutates in place, and a caller's list passed as `result` being changed, are modelled as values. The model gives the returned list only.
- OboLoader.WriteToDb: the in-place rewrite of `rec['is_a']` and `rec['alt_id']` is modelled as a function of the record. The record is discarded or reset right after, so nothing observable is lost.
- HpoCounting.GetSortedIndex: `count[x['val']]` raising `KeyError` for a term without a count is excluded by the `AllCounted` precondition. `get_min_graph` always supplies one.
- Python's `sorted` is modelled by an insertion sort that is proved stable, not by Timsort. The two agree on every input, since a stable sort by key has only one result (`SortedIndexUnique`).
- The `PRIMARY KEY(id, name)` of the table is not modelled. A second block with the same `id` and `name` makes the `INSERT` raise `IntegrityError`, while `LoadLines` returns both rows.
- Strings are sequences of characters. The decoding of the file and Unicode normalisation are not modelled. Whitespace for `strip` is Python's `str.isspace` set.
