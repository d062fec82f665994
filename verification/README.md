# pokemon-comparify in Dafny

This is a model of the logic at the heart of pokemon-comparify, a small tool
that compares the level-up movesets of pokemon in one evolution chain.

- **Aligner.** `align(a, b)` in comparify.py merges two movesets into rows.
  A moveset is a list of `(level, move)` entries. Each row carries an entry
  of `a`, an entry of `b`, or both. It works in three passes:
  - Exact lock: each `b[j]` is locked greedily to the first equal `a[i]` past
    the previous lock.
  - Loose lock: each still-unlocked `b[j]` is locked to the first `a[i]` with
    the same level or the same move. The search runs strictly between the
    first-pass locks before and after that row.
  - Materialise: the rows are built, and skipped `a` entries are emitted as
    left-only rows.
- **Stages and ordering.** `moves_from_evid` in pokemon.py and `extract_moves`
  in dump_evchain.py:
  - group the query rows `(id, name, parent, level, move)` into one moveset
    per run of equal `(id, name, parent)`;
  - compute each pokemon's evolution stage by walking the parent map with a
    memo;
  - stable-sort the movesets by stage.

  `moves_from_pokemonid` returns the first moveset of one pokemon's rows.

Modules:

- `Wrappers`: `Option`, `Result` and `PyError`. `PyError` names the Python
  exceptions the code can raise.
- `Moves`: the entry `(level, move)` and the loose-match test.
- `Comparify`: the aligner, one function per pass. Two layers are used. A
  layout of index slots (`Layout`) is built first, then resolved to entries
  (`Resolve`), so coverage can be stated by index.
- `ComparifyProps`: lemmas that relate the passes. They cover greediness, the
  gap bounds, ordered locks, self-alignment and the crossing example.
- `StableSort`: Python's `list.sort(key=...)`. Keys are computed once per
  element, then a stable sort runs. It is modelled as an insertion sort, and
  the model proves that any stable sort gives the same result.
- `Grouping`: `itertools.groupby` over the rows, the `parents` dictionary and
  the movesets.
- `Stages`: the reference stage function `StageOf`, closure of parent chains,
  and the acyclicity witness `rank`.
- `Pokemon` and `EvChain`: the two programs' nested `stage`, the memo loop,
  the sort keys, the whole functions, and how the two programs compare.

Conventions of the model:

- Python exceptions become `Failure` values:
  - `align` with an empty `b` raises `UnboundLocalError`, because the extras
    loop reads a `j` that was never bound;
  - `moves_from_pokemonid` on no rows raises `IndexError`;
  - `extract_moves` raises `KeyError` on a parent that has no rows.
- The parent recursion terminates only on acyclic parent maps. The functions
  take a ghost `rank` that decreases from child to parent; see "Left out".

## Model

| member | source | states |
|---|---|---|
| Comparify.FirstExact | comparify.py:40-44 | the inner search returns an index at or after the cursor whose entry equals `b[j]` on level and move, and no earlier index from the cursor matches; `None` only when nothing from the cursor matches |
| Comparify.ExactPass | comparify.py:37-46 | one pair per `b[j]`, in order, carrying `j`; every lock is at or past the starting cursor, inside `a`, and pairs equal entries |
| Comparify.ExtrasLoop | comparify.py:47-49 | started at `from`, the extras loop appends `len(b) - from` items and each item is the whole list `b` rather than an index |
| Comparify.LoopVarLast | comparify.py:39 | after `for j in range(lo, len(b))` the loop variable holds `len(b) - 1` when the loop iterated at least once, and keeps its earlier binding (possibly none) otherwise |
| Comparify.ExtrasAppendNothing | comparify.py:39-49 | after the first loop `j` is unbound exactly when `b` is empty; otherwise `j == len(b) - 1`, so the extras loop over `range(j + 1, len(b))` appends nothing |
| Comparify.PrevBound | comparify.py:52-57 | `prev_is[k]` is -1 or the index of some lock before row `k`, and no lock before row `k` is above it |
| Comparify.NextBound | comparify.py:59-65 | `next_is[k]` is `len(a)` or the index of some lock at or after row `k`, and no lock from row `k` on is below it |
| Comparify.FirstLoose | comparify.py:73-76 | the window search returns the first index in `[lo, hi)` whose entry has the same level or the same move, and `None` only when no index in the window does |
| Comparify.LoosePass | comparify.py:67-76 | the second pass keeps length and right indices; first-pass locks are unchanged; a new lock lies strictly between the bounds, matches loosely and is the first such index; a row left unlocked has no loose match in its window |
| Comparify.Intermediate | comparify.py:35-76 | after both passes the alignment has one pair per `b[j]` with right indices `0..len(b)-1` in order, and every lock is below `len(a)` |
| Comparify.Fill | comparify.py:84-86 | the skipped-entry rows from `lo` to `hi` are left-only rows whose indices are exactly `lo..hi-1` |
| Comparify.Layout | comparify.py:78-90 | no materialised row is empty, and every left index is below `len(a)` |
| Comparify.LayoutGapOrdered | comparify.py:80-90 | a row without a `b` index is only ever followed by a row with an `a` index: inside a gap the unlocked `b[j]` rows, appended at once, come before the skipped `a[i]` rows, which are emitted only at the next lock or at the end |
| Comparify.LayoutPairs | comparify.py:80-88 | the rows that carry a `j` are exactly the pairs `(i, j)` or `(None, j)` of the alignment, one each and in order; every other row is a skipped-entry row |
| Comparify.LayoutRights | comparify.py:80-88 | each pair yields exactly one row carrying its right index, so the right indices of the rows are the pairs' right indices in order |
| Comparify.LayoutCovers | comparify.py:78-90 | every index from `prev_i` to `len(a)` appears in the left column, even when a lock moves `prev_i` backwards |
| Comparify.Resolve | comparify.py:82-90 | row `k` holds the entries of `a` and `b` that slot `k` indexes |
| Comparify.ResolveEntries | comparify.py:82-90 | the left entries of the rows are `a` picked at the left indices, and the right entries are `b` picked at the right indices |
| Comparify.AlignSlots | comparify.py:31-92 | failure with `UnboundLocalError` exactly when the first loop leaves `j` unbound, which is exactly when `b` is empty; otherwise the right column is `0..len(b)-1` in order, the rows carrying a `j` are the intermediate alignment's pairs as rows, inside a gap the right-only rows precede the left-only rows, every index of `a` appears on the left, no row is empty, and all indices are valid |
| Comparify.Align | comparify.py:31-92 | failure with `UnboundLocalError` exactly when `b` is empty; otherwise the right entries are exactly `b`, the row carrying `b[j]` holds `a[i]` when the passes locked `j` to `i` and `None` when they left it unlocked, a row without a `b` entry is followed only by a row with an `a` entry, no row is `(None, None)`, and every entry of `a` appears in some row |
| ComparifyProps.ExactPassGreedy | comparify.py:38-46 | each first-pass row is locked to the smallest index past every earlier lock whose entry equals `b[j]`, and is unlocked only when no such index exists |
| ComparifyProps.ExactPassIncreasing | comparify.py:38-44 | first-pass locks are strictly increasing and pair entries equal on level and move |
| ComparifyProps.SecondPassWithinGaps | comparify.py:52-76 | second-pass locks only change rows the first pass left unlocked, pair entries with the same level or move, and lie strictly between every earlier and every later first-pass lock |
| ComparifyProps.LayoutMonotoneLefts | comparify.py:78-90 | with locks in increasing order and at or past `prev_i`, the left column lists every index from `prev_i` to `len(a)` exactly once, in order |
| ComparifyProps.LayoutMonotoneLength | comparify.py:78-90 | with locks in increasing order, the row count is the left entries from `prev_i` plus the pairs minus the locked pairs |
| ComparifyProps.AlignMonotone | comparify.py:78-90 | when the locks after both passes increase, the left column is exactly `a` and there are `len(a) + len(b) - locks` rows |
| ComparifyProps.ExactOnlyKeepsLeftOrder | comparify.py:37-90 | when the second pass locks nothing, the left column is exactly `a` and there are `len(a) + len(b) - exact locks` rows |
| ComparifyProps.SelfAlign | comparify.py:38-44 | aligning a non-empty moveset with itself gives the rows `(a[k], a[k])` in order |
| ComparifyProps.GapExample | comparify.py:80-90 | `a = [(1,x)]` and `b = [(2,z)]` give the rows `(-,z),(x,-)`: the unlocked `b` entry comes before the skipped `a` entry |
| ComparifyProps.CrossingExample | comparify.py:51-90 | because the bounds are never updated, `a = [(1,x),(2,y)]` and `b = [(2,z),(1,w)]` give the rows `(a0,-),(a1,b0),(a0,b1),(a1,-)`, so an entry of `a` can appear twice |
| Grouping.GroupBy | pokemon.py:43-45 | grouping produces non-empty runs with differing neighbours, no more runs than rows and none exactly for no rows; the first group has the first row's key |
| Grouping.GroupByUngroup | pokemon.py:43-45 | expanding the groups gives back the rows, in order |
| Grouping.GroupByUnique | pokemon.py:43-45 | any split of the rows into non-empty runs with differing neighbouring keys is the grouping |
| Grouping.ParentMap | pokemon.py:43-44 | the keys of `parents` are exactly the groups' ids |
| Grouping.ParentMapLast | pokemon.py:43-44 | an id's entry in `parents` is the parent carried by its last group |
| Grouping.KeyOrder | pokemon.py:61 | the iteration order of `parents` lists each group id exactly once |
| Stages.ClosedIffPresent | dump_evchain.py:37-46 | every parent chain from a key stays inside `parents` exactly when every named parent is itself a key |
| Stages.MissingAncestorIsParent | dump_evchain.py:40-46 | when a chain leaves `parents`, the id it fails on is the named parent of some key |
| Pokemon.Stage | pokemon.py:47-59 | the memoised `stage` returns `StageOf`: 0 for `None`, 1 for an id that is not a key, one more than the parent otherwise; the memo stays sound, only grows, and holds the parent's stage afterwards |
| Pokemon.FillStages | pokemon.py:61-62 | the loop keeps every memo entry equal to the true stage and memoises every key it visits |
| Pokemon.AfterFill | pokemon.py:42-62 | after the loop `stages[None] == 0`, and every key of `parents` has `stages[id]` equal to its stage, which is at least 1 |
| Pokemon.SortKeys | pokemon.py:65 | the sort keys are the stages of the movesets' ids, one per moveset, in list order |
| Pokemon.MovesFromEvid | pokemon.py:40-67 | `moves_from_evid` returns exactly the grouped movesets, as many and each as often, only reordered |
| Pokemon.MovesFromEvidSorted | pokemon.py:40-67 | the result is a permutation of the grouped movesets, non-decreasing in stage, and movesets of equal stage keep their grouped order |
| Pokemon.MovesFromPokemonid | pokemon.py:83-87 | `IndexError` exactly when there are no rows; otherwise the first row's id and name, with the tails of the longest prefix of rows that carry the first row's key |
| StableSort.Sort | pokemon.py:65 | the sort's output is ordered by key and a permutation of its input |
| StableSort.SortStable | pokemon.py:65 | for every key, the elements with that key keep their input order |
| StableSort.SortUnique | pokemon.py:65 | any sequence that is sorted and stable with respect to the input equals `Sort` of it |
| StableSort.SortByKey | dump_evchain.py:52 | sorting with keys `f(x)` gives a permutation of the input, non-decreasing in `f`, that keeps the input order among equal `f` |
| EvChain.Stage | dump_evchain.py:37-46 | `stage` succeeds exactly when the parent chain stays inside `parents`, then with the pokemon.py stage; otherwise it fails with `KeyError` on the first missing id, never `ValueError` |
| EvChain.FillStages | dump_evchain.py:48-49 | the loop succeeds exactly when every visited key's chain is closed, then memoises every key soundly; on failure the error is `KeyError` on the missing ancestor of some visited key |
| EvChain.SortKeys | dump_evchain.py:52 | the sort keys exist exactly when every moveset's chain is closed, and are then the true stages |
| EvChain.Extract | dump_evchain.py:48-54 | after grouping, the stage loop and the sort succeed exactly when every named parent is a key of `parents`; a failure is a `KeyError` on a named parent that is not a key; a success is a reordering of the movesets |
| EvChain.ExtractMoves | dump_evchain.py:29-54 | `extract_moves` fails exactly when some pokemon names a parent with no rows, and then with `KeyError` on such a parent |
| EvChain.ExtractMovesAgrees | dump_evchain.py:29-54 | where `extract_moves` succeeds, it returns exactly what `moves_from_evid` returns for the same rows |
| EvChain.StagesAgree | dump_evchain.py:37-46 | on a closed chain, both programs' `stage` give the same value whatever their sound memos hold |

## Left out

- Database access is not modelled. This covers the SQLite connections, the
  queries, the global `_conn`, the `DATABASE` path, `evid_from_pokemonid`
  and `all_pokemon`. The query results are the input sequence `rows`, taken
  in cursor order.
- The ORDER BY semantics are not modelled, including the quoted `'pm.order'`
  literal in dump_evchain.py. Grouping is modelled on whatever order the rows
  arrive in.
- `time_align`, `do_time`, the `__main__` demos, printing and argv handling
  are left out. They are wall-clock timing and command-line plumbing.
- The taxonomy docstring of comparify.py is left out; it has no behaviour.
- comparify.py contains only the three-pass heuristic `align`; no other
  aligner is modelled.
- Cyclic parent maps are excluded. Every stage function requires a `rank`
  that decreases from child to parent. On a cycle pokemon.py always recurses until
  Python 3.1 raises `RuntimeError` (maximum recursion depth exceeded;
  `RecursionError` from Python 3.5 on). `extract_moves` does the same unless
  a `KeyError` from a key visited earlier escapes first. Neither outcome on a
  cyclic map is modelled.
- Dictionary iteration order is not modelled exactly. In Python 3.1 the
  iteration order of a dictionary is arbitrary. `KeyOrder` picks first
  appearance as one possible order, and `FillStages` in both programs is
  proved for any key order. The only order-dependent output is which missing
  parent `extract_moves` reports.
- EvChain.ExtractMoves: a failure is stated as a `KeyError` on some missing
  parent, not a specific one, because which one is reported depends on
  dictionary order.
- The memo writes that pokemon.py makes while computing the sort keys are
  threaded through `SortKeys` and then discarded. They do not affect the
  result.
- Comparify.Align: the model does not claim that each entry of `a` appears
  exactly once. `CrossingExample` shows the code can emit an entry twice.
  The exact-once property is proved only for increasing locks
  (`AlignMonotone`).
