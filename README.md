# Spreadsheet cell graph, in Dafny

This project models the cell-graph consistency engine of a small C++
spreadsheet (`spreadsheet/cell.cpp` and `spreadsheet/sheet.cpp`) and proves
what it promises.

A sheet stores cells by position. Each cell holds Empty content, literal Text
or a Formula with a cache. The sheet keeps two edge maps, both keyed by
position:

- outgoing sets (`r_nodes_`): the cells a formula references;
- incoming sets (`l_nodes_`): the cells that reference it.

An edit (`Cell::Set`) runs in this order:

1. It classifies the text.
2. It searches the incoming edges for a cycle, before anything changes.
3. It unhooks the old edges and hooks the new ones, creating an Empty cell at
   any referenced position that has none.
4. It invalidates the caches of every dependent, pruning the walk at caches
   that are already invalid.

Files:

- `common.dfy` (module `Common`): positions, values, the error kinds and the
  `Option`/`Result`/`Outcome` wrappers that stand for the source's exceptions.
- `cell.dfy` (module `Cells`): the three cell implementations as one datatype
  `Content`, how `Set` classifies its text, text and value of each variant,
  cache state, and the formula read (as written and as intended).
- `graph.dfy` (module `Graph`): walks, reachability, acyclicity and the
  dependents of a cell over an edge map, with the lemmas about them.
- `state.dfy` (module `SheetState`): the storage as a value
  (`map<Position, Option<Content>>`, where `None` is a pointer reset by
  `ClearCell` whose key stays), and the consistency predicate `Linked`:
  - the outgoing and incoming maps are mutual inverses;
  - every edge ends at a stored cell;
  - outgoing sets are exactly the references of the content;
  - null entries have no edges;
  - stored positions are valid;
  - there is no cycle.

  It also defines cache coherence (an invalid cache implies invalid caches in
  every dependent), the state after a commit (`RewiredCells`, `RewiredOut`,
  `RewiredIn`), the outcome of `Set` (`SetVerdict`), the `PrintTexts`
  layout, and the lemmas the sheet relies on.
- `sheet.dfy` (module `Spreadsheet`): class `Sheet`, whose fields are
  `cells`, `outgoing` and `incoming`. Its methods are imperative:
  - the explicit-stack cycle search with its visited set;
  - the recursive cache invalidation, whose termination rests on acyclicity;
  - the unhook and hook loops of `Set`;
  - `SetCell`, `ClearCell`, `GetCell`, `GetValue`, `GetPrintableSize` and
    `PrintTexts`.

  Each method is proved against the state functions of `SheetState`.
  Every operation that edits the sheet as a whole (`Set`, `SetCell`,
  `ClearCell`, `ClearContent`, `Emplace`, `ResetIfUnreferenced`,
  `GetValue`, `Commit` and `Rewire`) keeps `Linked`. The two as-written
  clear operations (`Clear` and `ClearCellAsWritten`) are shown to break
  it. `Unhook`, `Hook` and `HookOne` run partway through a commit and are
  proved against its intermediate states instead. The invalidation walk
  keeps only `WalkReady`, which every linked sheet satisfies. The edits
  keep cache coherence when the sheet was coherent before. `GetValue`
  keeps it when none of the cell's references holds a stale cache.

The formula parser is the `parse` field of a sheet (`None` when
`ParseFormula` throws). The result of `FormulaInterface::Evaluate` is the
`evaluated` parameter of `GetValue`.

Where the description of the system and the code disagree, the model follows
the code:

- A `SetCell` that fails (parse error, invalid reference or cycle) keeps the
  Empty entry it created just before (`spreadsheet/sheet.cpp:21`). It does
  not leave the sheet as it was.
- `ClearCell` keeps the key of an unreferenced cell and only resets the
  pointer.

`Spreadsheet.Sheet.SetCell` states the first. `Spreadsheet.Sheet.ClearCell`
and `Spreadsheet.Sheet.ClearCellAsWritten` state the second.

## Model

| member | source | states |
|---|---|---|
| `Cells.Classify` | spreadsheet/cell.cpp:130-139 | "" gives Empty. Text starting with '=' and longer than one character is a parse error exactly when the parser fails, and otherwise becomes the formula the parser returns for the rest, with an invalid cache. Anything else, the lone "=" included, is Text with its text kept verbatim. |
| `Cells.GetText` | spreadsheet/cell.cpp:65-67 | Empty prints "" and Text prints its text verbatim. A formula prints '=' followed by its canonical expression (partner: `Cells.ReenteredTextIsStable`). |
| `Cells.GetReferencedCells` | spreadsheet/cell.cpp:77-79 | Only a formula references anything, and a formula references exactly its parsed references. |
| `Cells.IsCacheValid` | spreadsheet/cell.cpp:69-71 | Empty and Text always report a valid cache, and a formula reports a valid cache exactly when it holds a value. |
| `Cells.TextValue` | spreadsheet/cell.cpp:33-36 | The value of a text cell is a string equal to the text, with exactly one leading escape sign removed when there is one. |
| `Cells.TextCellValue` | spreadsheet/cell.cpp:26-43 | A freshly classified text cell reports its text verbatim. Its value drops one leading escape sign and otherwise equals the text. |
| `Cells.ReenteredTextIsStable` | spreadsheet/cell.cpp:65-67 | Entering the printed text of any cell again reproduces the same printed text, provided the parser reproduces its own canonical expression. |
| `Cells.InvalidateCache` | spreadsheet/cell.cpp:69-75 | After a reset, the cache is invalid exactly for a formula. Text and references are unchanged, and Empty and Text are left as they were. |
| `Cells.ReadAsWritten` | spreadsheet/cell.cpp:54-63 | As written, a formula's read always returns the fresh evaluation. It fills an empty cache with that evaluation and keeps an existing cache. It costs two evaluations from an empty cache and one otherwise. Empty and Text are read without evaluating. |
| `Cells.ReadAsWrittenIgnoresCache` | spreadsheet/cell.cpp:55-59 | As written, a cached value that differs from the evaluation is not returned, and a read with an empty cache evaluates twice. |
| `Cells.Read` | spreadsheet/cell.cpp:54-63 | A valid cache is returned with no evaluation. An invalid one is filled with the evaluation, which is returned, at the cost of exactly one evaluation. Empty reads "" and Text reads its text value. |
| `Graph.DependentsShrink` | spreadsheet/cell.cpp:118-120 | In an acyclic graph, a cell that references x has strictly fewer dependents than x, and x is not one of them. This is why the recursive invalidation terminates. |
| `Graph.RewireKeepsAcyclic` | spreadsheet/cell.cpp:153-161 | Changing only the outgoing edges of x keeps the graph acyclic when no new target of x reaches x. |
| `Graph.ReachesTransposed` | spreadsheet/cell.cpp:107-109 | A walk along outgoing edges, read backwards, is a walk along incoming edges when the two maps are transposes. |
| `SheetState.DependsIffWalks` | spreadsheet/cell.cpp:97-112 | Over consistent edges, d depends on x exactly when the incoming-edge search from x reaches d (both directions). |
| `SheetState.SetVerdict` | spreadsheet/cell.cpp:131-143 | The outcome of `Set`: a text that fails to parse raises a parse error. A text that parses but references an invalid position raises an invalid-position error. It passes exactly when it parses and every reference is a valid position that does not reach the edited cell. A circular-dependency failure has a reference that reaches the edited cell. |
| `SheetState.SearchVerdict` | spreadsheet/cell.cpp:141-143 | With valid references, the verdict of `Set` is a circular dependency exactly when the search finds a reference. Otherwise it commits content with no valid cache, and none of its references reaches the edited cell. |
| `SheetState.StackDiscipline` | spreadsheet/cell.cpp:100-110 | One pop-visit-push round of the search keeps the invariant that every incoming neighbour of a visited cell is visited or waits on the stack above it. |
| `SheetState.PoppedTwice` | spreadsheet/cell.cpp:101-108 | A cell popped a second time has all its incoming neighbours visited already. |
| `SheetState.SelfReferenceRejected` | spreadsheet/cell.cpp:99-105 | A formula that references its own cell is always rejected, as a circular dependency when its references are valid. |
| `SheetState.MutualReferenceRejected` | spreadsheet/cell.cpp:97-112 | When b already references a, giving a a formula that references b is rejected, as a circular dependency when its references are valid. |
| `SheetState.RepeatSetAccepted` | spreadsheet/cell.cpp:87-112 | Entering at a cell text whose references equal the cell's current outgoing set never fails the cycle check. |
| `SheetState.RewireKeepsLinked` | spreadsheet/cell.cpp:145-161 | Committing content whose references are valid and do not reach the cell keeps every part of the consistency: inverse edge maps, live targets, outgoing sets equal to references, bare null entries, valid keys, and acyclicity. |
| `SheetState.RewireKeepsInverse` | spreadsheet/cell.cpp:147-160 | Unhooking pos from every incoming set and hooking it into those of its new targets keeps the two maps mutual inverses. |
| `SheetState.RewireTargetAt` | spreadsheet/cell.cpp:153-160 | After the commit, every outgoing edge ends at a stored cell whose incoming set holds the edge's source. This includes targets created as Empty. |
| `SheetState.RewireKeepsTargets` | spreadsheet/cell.cpp:153-160 | After the commit, every edge ends at a stored cell with the mirror incoming edge. |
| `SheetState.RewireKeepsRefs` | spreadsheet/cell.cpp:151-159 | After the commit, the edited cell's outgoing set is exactly its new references, and created cells have empty outgoing sets. |
| `SheetState.RewireKeepsNulls` | spreadsheet/cell.cpp:153-158 | After the commit, the three maps share their keys, all of them valid positions, and null entries still have no edges. |
| `SheetState.RewireIdempotent` | spreadsheet/cell.cpp:147-161 | Rewiring a cell twice to the same references gives the same outgoing and incoming sets as rewiring it once. |
| `SheetState.RewireCoherence` | spreadsheet/cell.cpp:145-162 | Before invalidation runs, committing content with no valid cache keeps caches coherent except along the edges into the edited cell. |
| `SheetState.CommitStepCells` | spreadsheet/cell.cpp:154-158 | One round of the hook loop on the storage: the target holds a cell afterwards, and is created as Empty exactly when it had none, either because it was missing or because its pointer was reset. |
| `SheetState.CommitStepOut` | spreadsheet/cell.cpp:159 | One round of the hook loop adds exactly the target to the edited cell's outgoing set. |
| `SheetState.CommitStepIn` | spreadsheet/cell.cpp:160 | One round of the hook loop adds exactly the edited cell to the target's incoming set. |
| `SheetState.UnhookedIn` | spreadsheet/cell.cpp:147-149 | Unhooking before any hook leaves every incoming set without the edited cell. |
| `SheetState.NoSelfEdge` | spreadsheet/cell.cpp:141-161 | A consistent graph has no edge from a cell to itself in either map. |
| `SheetState.InvalidatedOneCell` | spreadsheet/cell.cpp:117 | Resetting one cell's cache keeps coherence except along the edges into that cell. |
| `SheetState.StaleCone` | spreadsheet/cell.cpp:116 | When the walk stops at a cell whose cache is already invalid, every dependent of that cell already holds no valid cache, so pruning loses nothing. |
| `SheetState.WalkStep` | spreadsheet/cell.cpp:118-119 | A step into the incoming set goes to a stored cell with strictly fewer dependents, and none of them is the cell the walk came from. |
| `SheetState.WalkDone` | spreadsheet/cell.cpp:115-122 | Once a cell's cache is reset and the cones of all its direct dependents are cleared, its own cone is cleared and coherence holds along its incoming edges. |
| `SheetState.ResetKeepsLinked` | spreadsheet/cell.cpp:115-122 | Resetting caches changes no edge, so consistency is kept. |
| `SheetState.ResetTrans` | spreadsheet/cell.cpp:118-120 | Cache resets compose: two rounds of resets are again a round of resets. |
| `SheetState.FillKeepsLinked` | spreadsheet/cell.cpp:55-57 | Filling a cell's cache changes no reference, so consistency is kept. |
| `SheetState.FillKeepsCoherent` | spreadsheet/cell.cpp:55-57 | A cache that becomes valid keeps caches coherent when none of the cell's references is stale. |
| `SheetState.ReferencedIff` | spreadsheet/cell.cpp:182-184 | A stored cell's incoming set is non-empty exactly when some outgoing set contains it. |
| `SheetState.CommitEmpty` | spreadsheet/cell.cpp:133-134 | Committing Empty content stores Empty, empties the cell's outgoing set and removes it from every incoming set. Its own incoming set is kept. |
| `SheetState.ResetUnreferenced` | spreadsheet/sheet.cpp:32-34 | Resetting the pointer of an Empty cell that nothing references keeps consistency and coherence, and creates no valid cache. |
| `SheetState.EmplaceKeepsLinked` | spreadsheet/sheet.cpp:19-21 | Giving a position with no cell a new Empty cell with no edges keeps consistency and coherence. An already stored cell is left alone. |
| `SheetState.Emplaced` | spreadsheet/sheet.cpp:19-21 | After emplacing, pos holds a cell and every other entry is unchanged. A stored cell is kept, and a missing or reset one becomes Empty. |
| `SheetState.EmplacedAsWritten` | spreadsheet/sheet.cpp:19-22 | As written, emplacing leaves pos null exactly when its pointer was reset before. |
| `SheetState.EmplacedAsWrittenCanBeNull` | spreadsheet/sheet.cpp:21-22 | As written, after a clear reset the pointer, `SetCell` reaches a null pointer at the position. |
| `SheetState.ClearAsWrittenBreaksLinks` | spreadsheet/cell.cpp:165-168 | With B1 = "=A1", clearing B1 as written breaks consistency both when B1 stays Empty and when its pointer is reset. |
| `SheetState.PrintableSizeUnique` | spreadsheet/sheet.cpp:38-51 | The printable box is determined by the storage alone. |
| `SheetState.LineLayout` | spreadsheet/sheet.cpp:69-75 | When no stored text contains a tab or a newline, a printed row of n fields holds no newline and n - 1 tabs (none when n is 0). |
| `SheetState.GridLayout` | spreadsheet/sheet.cpp:66-78 | When no stored text contains a tab or a newline, the printout of a rows x cols box holds exactly rows newlines and rows * (cols - 1) tabs. |
| `SheetState.GridEndsWithNewline` | spreadsheet/sheet.cpp:76 | A non-empty printout ends with a newline. |
| `Spreadsheet.Sheet.constructor` | spreadsheet/sheet.cpp:104-106 | A new sheet has no cells and no edges, and is consistent and coherent. |
| `Spreadsheet.Sheet.GetCell` | spreadsheet/sheet.cpp:88-97 | Raises exactly on an invalid position. Otherwise it returns the stored cell, and "never stored" and "pointer reset" both read as no cell. |
| `Spreadsheet.Sheet.IsReferenced` | spreadsheet/cell.cpp:182-184 | A cell is referenced exactly when some formula's outgoing set contains it. |
| `Spreadsheet.Sheet.SearchCircularDependency` | spreadsheet/cell.cpp:87-113 | Raises exactly when some reference is an invalid position. Otherwise it answers whether a walk along incoming edges leads from the cell to a reference, the cell itself included. It answers false with no references. |
| `Spreadsheet.Sheet.WalksIntoAny` | spreadsheet/cell.cpp:97-112 | The explicit-stack search with a visited set finds a target exactly when some target is reachable along incoming edges. |
| `Spreadsheet.Sheet.PushUnvisited` | spreadsheet/cell.cpp:107-109 | Only unvisited incoming neighbours are pushed, and all of them are. The stack below is unchanged. |
| `Spreadsheet.Sheet.InvalidateCacheRecursive` | spreadsheet/cell.cpp:115-122 | The walk only resets caches. When forced, or when the cell's cache is valid, the cell ends up with no valid cache. Otherwise nothing changes. It terminates on an acyclic graph. No entry outside the cell's cone (the cell and its dependents) changes. When coherence held beforehand, every dependent ends up with no valid cache and coherence is restored. |
| `Spreadsheet.Sheet.InvalidateDependents` | spreadsheet/cell.cpp:117-121 | Each cell in the incoming set is invalidated in turn. Only caches inside the cell's cone change. When the sheet was coherent before (apart from the cells being walked), the whole cone afterwards has no valid cache and coherence holds again. |
| `Spreadsheet.Sheet.InvalidateChild` | spreadsheet/cell.cpp:118-120 | One round of the loop over the incoming set. Caches change only inside the referencing cell's cone, which lies inside the cell's own. Cones that were already cleared stay cleared. When coherence held beforehand, it still holds and the referencing cell's whole cone has no valid cache. |
| `Spreadsheet.Sheet.Unhook` | spreadsheet/cell.cpp:147-151 | The cell leaves the incoming set of every old target, and its outgoing set becomes empty. |
| `Spreadsheet.Sheet.HookOne` | spreadsheet/cell.cpp:153-160 | One round creates the target as Empty when it has no cell, then records the edge in both maps. |
| `Spreadsheet.Sheet.Hook` | spreadsheet/cell.cpp:153-161 | After the loop, storage, outgoing and incoming sets equal the commit state for the full set of references. |
| `Spreadsheet.Sheet.Rewire` | spreadsheet/cell.cpp:145-161 | Installing the content and rewiring the edges gives exactly the commit state, and keeps consistency. |
| `Spreadsheet.Sheet.Commit` | spreadsheet/cell.cpp:145-162 | The edges are rewired and the cell holds the new content. Other cells differ from the commit state only by reset caches, and only inside the cell's cone. Consistency is kept, and a coherent sheet stays coherent with no valid cache among the cell's dependents. |
| `Spreadsheet.Sheet.Set` | spreadsheet/cell.cpp:130-163 | The outcome is the verdict on the old state. On failure nothing changes. On success the commit state holds, up to caches reset inside the cell's cone. Consistency is kept. When the sheet was coherent before, it stays coherent and no dependent keeps a valid cache. |
| `Spreadsheet.Sheet.Clear` | spreadsheet/cell.cpp:165-168 | As written, the content becomes Empty and nothing else changes. |
| `Spreadsheet.Sheet.SetCell` | spreadsheet/sheet.cpp:16-23 | Raises on an invalid position and changes nothing. Otherwise it emplaces a cell and runs `Set` there. On failure the new Empty entry stays. On success the cell reads back the classified content, and caches differ from the commit state only inside the cell's cone. |
| `Spreadsheet.Sheet.Emplace` | spreadsheet/sheet.cpp:19-21 | A position with no cell gets a new Empty cell with no edges. Consistency and coherence are kept. |
| `Spreadsheet.Sheet.ClearCellAsWritten` | spreadsheet/sheet.cpp:26-36 | As written: raises on an invalid position, does nothing without a cell, otherwise Empty, with the pointer reset when the incoming set is empty. Edges are untouched. |
| `Spreadsheet.Sheet.ClearCell` | spreadsheet/sheet.cpp:26-36 | Raises on an invalid position and does nothing without a cell. Otherwise the cell becomes Empty if referenced and is reset if not. Its outgoing edges are unhooked. Elsewhere only caches change, and only inside the cell's cone. Consistency and coherence are kept. |
| `Spreadsheet.Sheet.ClearContent` | spreadsheet/cell.cpp:165-168 | Clearing empties the cell the way `Set("")` does. The outgoing set is emptied, the cell is unhooked from its targets, and nothing outside the cell's cone changes. When the sheet was coherent before, it stays coherent and no dependent keeps a valid cache. Whether the cell is referenced does not change. |
| `Spreadsheet.Sheet.ResetIfUnreferenced` | spreadsheet/sheet.cpp:32-34 | The pointer is reset exactly when nothing references the cell. The key and edges stay, and consistency and coherence are kept. |
| `Spreadsheet.Sheet.GetValue` | spreadsheet/cell.cpp:170-172 | Returns the intended read of the cell, stores its filled cache, and afterwards the cache is valid. Consistency is kept. |
| `Spreadsheet.Sheet.GetPrintableSize` | spreadsheet/sheet.cpp:38-51 | Every stored non-null cell lies inside the box, and each nonzero side touches one, so the box is (0, 0) exactly when no cell is stored. |
| `Spreadsheet.Sheet.PrintTexts` | spreadsheet/sheet.cpp:66-78 | A printable box exists and the output is its text grid. Each field is the cell's text when the cell is stored, non-null and non-empty, and blank otherwise. |

## Left out

- `Sheet::PrintValues` (`spreadsheet/sheet.cpp:53-65`) is left out. It streams doubles and error tokens to an `std::ostream`, and only the `PrintTexts` layout is modelled.
- The formula internals are outside the model:
  - `ParseFormula` is the `parse` field of a sheet;
  - `GetExpression` and `GetReferencedCells` are the fields of the `Formula` datatype;
  - `Evaluate` is the `evaluated` parameter of `GetValue`.
- Evaluation through the cell lookup, and the arithmetic on doubles, are not modelled. Numbers are reals.
- `Position::IsValid` and `FORMULA_SIGN`/`ESCAPE_SIGN` are defined in headers that are not part of this model. The model uses a 16384 x 16384 box and the characters '=' and apostrophe. Only the concrete example lemmas use the bounds, and only through positions in the first row and the first two columns.
- Cells are identified by position, not by `Cell*`. Memory ownership, `unique_ptr` lifetime and dangling pointers are not represented. The as-written clear is shown to break the consistency relation instead.
- The constructors `TextImpl` and `FormulaImpl` throw `logic_error` on input they are never given by `Set`, so that path is not modelled.
- Where the hook loop calls `sheet_.SetCell(pos, "")` for a missing target, the model puts the Empty cell in place directly. The nested `Set("")` on a fresh cell with no edges has no other effect.
- The iteration order of `std::unordered_set` is unspecified. The loops pick any remaining element, and every contract holds for all orders.
- Spreadsheet.Sheet.GetValue: coherence is only promised when none of the cell's references holds a stale cache. Evaluation would first fill those caches through the cell lookup, which is not modelled.
- SheetState.LineLayout: the tab and newline counts need stored texts without tabs and newlines. The source accepts such text, and each one adds its own characters to the printout.
- SheetState.GridLayout: the same condition as `LineLayout`, for the same reason.
- Spreadsheet.Sheet.GetPrintableSize: requires every stored position to be valid (the class invariant guarantees this). The source does not check it.
- Spreadsheet.Sheet.PrintTexts: requires every stored position to be valid, as `GetPrintableSize` does.
- Spreadsheet.Sheet.SearchCircularDependency: the search is stated over incoming sets keyed by position rather than over `Cell*` pointers. A reference whose entry is missing or null is never met by the walk, as in the source.

## Findings

| source | as written | input that shows it | evidently intended | confidence | as-written member | corrected member |
|---|---|---|---|---|---|---|
| spreadsheet/cell.cpp:54-63 | `FormulaImpl::GetValue` fills an empty cache with one evaluation, then evaluates again and returns the second result. The cache is never returned. | A formula whose cache holds 1 while evaluation now gives 2: the read returns 2. With an empty cache, one read costs two evaluations. | A valid cache is returned as it is, and an invalid one is filled by a single evaluation whose result is returned. | not executed | `Cells.ReadAsWritten`, `Cells.ReadAsWrittenIgnoresCache` | `Cells.Read`, `Spreadsheet.Sheet.GetValue` |
| spreadsheet/cell.cpp:165-168 | `Cell::Clear` replaces the content with Empty but keeps the outgoing edges and leaves dependents' caches valid. `Sheet::ClearCell` then resets the pointer of an unreferenced cell that still sits in its targets' incoming sets. | `SetCell(A1, "5")`, `SetCell(B1, "=A1")`, `ClearCell(B1)`: B1's outgoing set still holds A1 while B1 is Empty or null, and A1's incoming set still holds B1. | Clearing empties the cell the way `Set("")` does, unhooking its edges and invalidating its dependents, and only then resets an unreferenced cell. | not executed | `Spreadsheet.Sheet.ClearCellAsWritten`, `SheetState.ClearAsWrittenBreaksLinks` | `Spreadsheet.Sheet.ClearCell`, `Spreadsheet.Sheet.ClearContent` |
| spreadsheet/sheet.cpp:19-22 | `SetCell` emplaces only when the key is missing, so a key whose pointer `ClearCell` reset is dereferenced as null. The hook loop at `spreadsheet/cell.cpp:154-157` goes the same way. | `SetCell(A1, "5")`, `ClearCell(A1)`, `SetCell(A1, "6")`: `cells.at(A1)` is null. | A position whose pointer was reset gets a new Empty cell, like a missing one. | not executed | `SheetState.EmplacedAsWritten`, `SheetState.EmplacedAsWrittenCanBeNull` | `SheetState.Emplaced`, `Spreadsheet.Sheet.Emplace` |
