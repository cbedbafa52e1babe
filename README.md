# Boggle solver in Dafny

A model of `boggle.rs`, a solver for word-grid puzzles. The solver does three things:

- It parses a grid given as space-separated rows of letters.
- It builds a dictionary from a word list. The dictionary keeps the lowercased words that have at least three letters, all of which occur in the grid. It also keeps an index of every non-empty prefix of those words.
- It runs a flood fill over the grid. The fill extends paths of pairwise 8-adjacent cells that never revisit a cell. It prunes every path whose letters are not a prefix of any dictionary word, and records every path whose letters form a dictionary word.

Modules, one per file:

- `Dictionary` (`dictionary.dfy`): `Dict` is a class whose two set fields `Insert` updates in place.
  - `Valid()` is the class invariant. It says that `prefix` indexes exactly the prefixes of `words`.
  - The constructor establishes it and `Insert`, the only mutator, keeps it.
  - `Contains` and `IsPrefix` are read-only lookups.
- `Grid` (`grid.dfy`): `Split` models `str::split(' ')`, and `Puzzle` is the parsed grid, a value.
  - `FromStr` builds the grid with the nested loops of the source.
  - The source's `assert!` on row lengths becomes an `Err` result.
- `Filtering` (`filter.dfy`): ASCII lowercasing and the acceptance test of `DictBuilder::filter`. `Filter` inserts the candidates one by one into a fresh `Dict`.
- `Paths` (`paths.dfy`): cells, 8-adjacency, simple paths, the word a path spells, and the count of grid cells.
- `Search` (`search.dfy`): `QueueItem`, the neighbour loops (`PushNeighbours`), the seeding loops (`Seed`) and the flood-fill loop (`Search`).
  - A ghost sequence gives, for each queued item, the path it stands for.
  - Termination is shown with a ghost potential: each queued item weighs 10^(cells − visited).
  - `Search` returns exactly the dictionary words along the paths the pruning lets through.
  - When the dictionary's index is exact, that is every dictionary word that some simple 8-adjacent path spells.
- `Solver` (`solver.dfy`): the pipeline of `main` without its I/O. It parses, filters and searches, and it states the end-to-end answer.

## Model

| member | source | states |
|---|---|---|
| Dictionary.Prefixes | boggle.rs:187-193 | the strings insert records for a word are its non-empty leading parts; for the empty word, the empty string alone |
| Dictionary.Dict.constructor | boggle.rs:176-181 | a new dictionary is empty, and its (empty) index is exact |
| Dictionary.Dict.Insert | boggle.rs:184-194 | the word joins `words`; exactly its prefixes join `prefix`; nothing else changes; the exact-index invariant is kept, early exit included |
| Dictionary.Dict.IsPrefix | boggle.rs:202-204 | on a valid dictionary, true exactly for the prefixes of some dictionary word (no false positives, no false negatives) |
| Dictionary.IndexIsPrefixClosed | boggle.rs:187-192 | an exact index is prefix-closed: dropping the last letter of an indexed string of length > 1 gives an indexed string |
| Dictionary.IndexHoldsWords | boggle.rs:186-188 | every word, and every non-empty prefix of every word, is indexed (`words ⊆ prefix`) |
| Dictionary.IndexEmptyString | boggle.rs:189-192 | the empty string is indexed only if the empty word was inserted |
| Dictionary.IndexedPrefixCarriesShorter | boggle.rs:187 | a standalone statement of the fact behind insert's early exit: once some non-empty prefix of a word is indexed, all its shorter non-empty prefixes are indexed too |
| Dictionary.InsertKeepsIndex | boggle.rs:184-194 | adding a word and its prefixes to an exact index gives an exact index |
| Grid.Split | boggle.rs:68 | `split(' ')` yields at least one piece, and no piece holds a space |
| Grid.JoinSplit | boggle.rs:68 | the pieces joined with single spaces give back the string |
| Grid.SplitJoin | boggle.rs:68 | splitting space-free pieces joined with spaces gives back the pieces |
| Grid.CharsOfMembers | boggle.rs:79-82 | a letter is in the recorded set exactly when it stands in some row |
| Grid.Puzzle.Contains | boggle.rs:96-98 | on a parsed grid, true exactly when some cell holds the letter |
| Grid.FromStr | boggle.rs:63-93 | succeeds exactly when all pieces are as long as the first; then rows = pieces, row_size = piece count, col_size = first piece's length, `chars` = letters of the rows; otherwise it names the first piece of a different length |
| Filtering.AsciiLowercase | boggle.rs:220 | same length; no ASCII capital remains; each capital becomes its small letter; every other character is unchanged |
| Filtering.LowercaseIdempotent | boggle.rs:220 | a standalone property of the lowercasing: applying it twice is applying it once |
| Filtering.HasForeignChar | boggle.rs:223 | true exactly when some character of the word is not in the grid's letter set |
| Filtering.AdmittedMembers | boggle.rs:218-227 | a word is kept iff it is the lowercased form of some candidate, has at least 3 letters, and all its letters are in the grid |
| Filtering.AdmittedAreAdmissible | boggle.rs:221-226 | every kept word has at least 3 letters, all in the grid |
| Filtering.Filter | boggle.rs:216-229 | the built dictionary's words are exactly the kept words, and its prefix index is exact |
| Paths.CellsAppend | boggle.rs:145 | extending a path by a cell adds exactly that cell to the visited set |
| Paths.DistinctCellsCount | boggle.rs:140 | a path that never revisits a cell visits as many cells as it is long |
| Paths.AllCellsShape | boggle.rs:105-106 | a cell is a grid cell exactly when it is within bounds; there are row_size × col_size of them |
| Paths.SimplePathBound | boggle.rs:140-145 | no simple path is longer than the grid has cells |
| Paths.SpellPrefix | boggle.rs:144 | the word of a path's prefix is the prefix of the path's word |
| Search.PushNeighbours | boggle.rs:132-148 | queues one extension per cell that is within bounds, within one row and one column of the item, and not visited, and no other; no cell is queued twice; at most 9; the old queue is kept in front |
| Search.TrackedItemShape | boggle.rs:141-146 | a queued item's word is as long as its visited set and its path, never longer than row_size × col_size; its cell is visited; its letters are those of its path's cells in order |
| Search.ExtendTracks | boggle.rs:141-146 | extending an item through an unvisited neighbour gives the item of the extended simple path |
| Search.SeedTracks | boggle.rs:107-114 | a seeded item stands for its one-cell path |
| Search.Seed | boggle.rs:105-117 | the seeds are exactly the one-cell paths of grid cells whose letter is an indexed prefix, each a one-letter item, and no cell is seeded twice; they stand for simple paths, and every path the search can reach starts with a seed |
| Search.ViablePrefixPasses | boggle.rs:126-129 | every proper prefix of a reachable path passed the prefix test |
| Search.PruneKeepsCover | boggle.rs:126-129 | dropping an item whose word is no indexed prefix loses no word |
| Search.ExpandKeepsCover | boggle.rs:131-148 | replacing an item by its extensions loses no word |
| Search.ExpansionLighter | boggle.rs:120-149 | replacing an item by at most nine items, each with one more visited cell, lowers the termination measure |
| Search.PruneStep | boggle.rs:120-129 | a pop that prunes keeps the loop invariant and lowers the measure |
| Search.ExpandStep | boggle.rs:120-148 | a pop that expands keeps the loop invariant and lowers the measure |
| Search.TrackedWordFound | boggle.rs:122-124 | a recorded word is a dictionary word along a reachable path |
| Search.CoverComplete | boggle.rs:120-151 | once the queue is empty, every dictionary word along a reachable path has been recorded |
| Search.SpelledWordIsViable | boggle.rs:109-129 | with an exact index, a simple path that spells a dictionary word passes every prefix test |
| Search.FoundAreSolutions | boggle.rs:101-152 | with an exact index, pruning loses nothing: the words along reachable paths are all dictionary words spelled by any simple 8-adjacent path |
| Search.Search | boggle.rs:101-152 | the answer holds only dictionary words, exactly those along reachable paths; with an exact index, exactly the dictionary words some simple 8-adjacent path spells |
| Solver.Solve | boggle.rs:16-39 | refuses a grid with unequal rows; otherwise the answer is exactly the kept candidates spelled by a simple path, each of at least 3 letters |
| Solver.AdmittedGrows | boggle.rs:216-229 | adding candidate words never removes a kept word |
| Solver.MoreCandidatesMoreAnswers | boggle.rs:101-152 | on a fixed grid, more candidate words never remove an answer |

## Left out

- `main`'s argument handling, usage message, exit code and printing (boggle.rs:12-43) are I/O. `Solver.Solve` takes the grid string and the word list as parameters.
- `DictBuilder::open` and the reading of lines in `filter` (boggle.rs:209-213, 218-219) are file I/O. The candidates are a `seq<string>`.
- Grid.FromStr: the source panics on a row-length mismatch. The model returns `Err(RowLengthMismatch(k))` for the first mismatching row `k`.
- `word.len()` counts UTF-8 bytes (boggle.rs:71, 223), but the model counts characters. The two agree on the ASCII letters the grid is meant to hold.
- `HashSet`, `BTreeSet` and `VecDeque` become Dafny `set` and `seq`. The sorted order in which `BTreeSet` lists the answer is not modelled, because the answer is a set.
- `make_ascii_lowercase` lowercases its string in place. The model computes the lowercased string as a value.
- Dictionary.Dict.Contains is a plain membership test and carries no contract of its own.
- `v.row + 2` in `usize` (boggle.rs:134-135) is modelled with unbounded integers. It cannot overflow for any grid that fits in memory.
- Dictionary.Dict.Insert requires the class invariant `Valid()`. The constructor establishes it and `Insert` keeps it. The model does not describe `Insert` on a `prefix` set that is not an exact index, because no code of the source builds one.
- Search.Search: the flood fill pops from the back, so it explores depth-first. The model keeps that order, but nothing it proves depends on it.
