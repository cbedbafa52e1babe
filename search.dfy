/** The prefix-pruned flood fill that finds the dictionary words in the grid. */
module Search {
  import opened Grid
  import opened Paths
  import opened Dictionary

  /** `QueueItem` of the source: a search path in progress, at cell
      (`row`, `col`), having spelled `word` through the cells `visited`. */
  datatype QueueItem = QueueItem(row: nat, col: nat, word: string, visited: set<Cell>)

  /** The clone-and-extend step of the search: move to `c`, append its letter,
      mark it visited. */
  function Extend(p: Puzzle, v: QueueItem, c: Cell): QueueItem
    requires p.Valid() && InBounds(p, c)
  {
    QueueItem(c.0, c.1, v.word + [CharAt(p, c)], v.visited + {c})
  }

  function Min(a: nat, b: nat): nat {
    if a <= b then a else b
  }

  /** The neighbour loops of `Puzzle::search`. They push onto `queue` one
      extension of `v` for each cell that lies in the grid, in the 3×3 block
      around `v`'s cell, and outside `v.visited`; no other cell is pushed.
      `added` lists the pushed cells in order. */
  method PushNeighbours(p: Puzzle, v: QueueItem, queue: seq<QueueItem>) returns (q: seq<QueueItem>, ghost added: seq<Cell>)
    requires p.Valid()
    ensures |q| == |queue| + |added| && |added| <= 9
    ensures q[..|queue|] == queue
    ensures forall k :: 0 <= k < |added| ==> InBounds(p, added[k]) && q[|queue| + k] == Extend(p, v, added[k])
    ensures forall c: Cell :: c in added <==> InBounds(p, c) && InBlock((v.row, v.col), c) && c !in v.visited
    ensures forall i, j :: 0 <= i < j < |added| ==> added[i] != added[j]
  {
    var loRow := if v.row == 0 then 0 else v.row - 1;
    var loCol := if v.col == 0 then 0 else v.col - 1;
    var hiRow := Min(v.row + 2, p.rowSize);
    var hiCol := Min(v.col + 2, p.colSize);
    q, added := queue, [];
    var row := loRow;
    while row < hiRow
      invariant loRow <= row && (row <= hiRow || row == loRow)
      invariant |q| == |queue| + |added| && |added| <= 3 * (row - loRow)
      invariant q[..|queue|] == queue
      invariant forall k :: 0 <= k < |added| ==> InBounds(p, added[k]) && q[|queue| + k] == Extend(p, v, added[k])
      invariant forall c: Cell :: c in added <==> InBounds(p, c) && InBlock((v.row, v.col), c) && c !in v.visited && c.0 < row
      invariant forall i, j :: 0 <= i < j < |added| ==> added[i] != added[j]
    {
      var col := loCol;
      while col < hiCol
        invariant loCol <= col && (col <= hiCol || col == loCol)
        invariant |q| == |queue| + |added| && |added| <= 3 * (row - loRow) + (col - loCol)
        invariant q[..|queue|] == queue
        invariant forall k :: 0 <= k < |added| ==> InBounds(p, added[k]) && q[|queue| + k] == Extend(p, v, added[k])
        invariant forall c: Cell :: c in added <==>
          InBounds(p, c) && InBlock((v.row, v.col), c) && c !in v.visited && (c.0 < row || (c.0 == row && c.1 < col))
        invariant forall i, j :: 0 <= i < j < |added| ==> added[i] != added[j]
      {
        if (row, col) !in v.visited {
          q := q + [Extend(p, v, (row, col))];
          added := added + [(row, col)];
        }
        col := col + 1;
      }
      row := row + 1;
    }
  }

  /** `v` is the state of the search along `path`: it stands on the path's last
      cell, has visited exactly the path's cells and spelled the path's word. */
  ghost predicate Tracks(p: Puzzle, v: QueueItem, path: Path) {
    && p.Valid()
    && IsSimplePath(p, path)
    && (v.row, v.col) == path[|path| - 1]
    && v.visited == Cells(path)
    && v.word == Spell(p, path)
  }

  /** What a queued item carries: as many letters as visited cells, never
      more than the grid has; its own cell among the visited ones; and the
      letters of the path's cells, in order. */
  lemma TrackedItemShape(p: Puzzle, v: QueueItem, path: Path)
    requires Tracks(p, v, path)
    ensures |v.word| == |v.visited| == |path| <= p.rowSize * p.colSize
    ensures (v.row, v.col) in v.visited
    ensures forall i :: 0 <= i < |path| ==> v.word[i] == p.rows[path[i].0][path[i].1]
  {
    DistinctCellsCount(path);
    SimplePathBound(p, path);
    assert path[|path| - 1] in Cells(path);
  }

  /** A simple path the search gets to: its first letter passed the seeding
      test, and each proper prefix passed the test before it was extended. */
  ghost predicate Viable(p: Puzzle, prefix: set<string>, path: Path) {
    && p.Valid()
    && IsSimplePath(p, path)
    && [CharAt(p, path[0])] in prefix
    && forall j :: 1 <= j < |path| ==> Spell(p, path)[..j] in prefix
  }

  /** What the search reports: the dictionary words along viable paths. */
  ghost function Found(p: Puzzle, words: set<string>, prefix: set<string>): set<string> {
    set w | w in words && exists path :: Viable(p, prefix, path) && Spell(p, path) == w
  }

  /** The answer the solver promises: the dictionary words that some simple
      path of 8-adjacent cells spells. */
  ghost function Solutions(p: Puzzle, words: set<string>): set<string> {
    set w | w in words && Spellable(p, w)
  }

  /** With an exact prefix index, a simple path that spells a word is
      viable: every prefix the search tests on the way is indexed. */
  lemma SpelledWordIsViable(p: Puzzle, words: set<string>, prefix: set<string>, path: Path)
    requires p.Valid() && IsSimplePath(p, path)
    requires Indexes(words, prefix)
    requires Spell(p, path) in words
    ensures Viable(p, prefix, path)
  {
    var w := Spell(p, path);
    forall j | 1 <= j < |path|
      ensures w[..j] in prefix
    {
      assert IsIndexedPrefix(w[..j], w);
    }
    assert IsIndexedPrefix(w[..1], w);
    assert w[..1] == [CharAt(p, path[0])];
  }

  /** With an exact prefix index, pruning loses nothing: the words found along
      viable paths are exactly the words spelled by any simple path. */
  lemma FoundAreSolutions(p: Puzzle, words: set<string>, prefix: set<string>)
    requires p.Valid()
    requires Indexes(words, prefix)
    ensures Found(p, words, prefix) == Solutions(p, words)
  {
    forall w | w in Solutions(p, words)
      ensures w in Found(p, words, prefix)
    {
      var path :| IsSimplePath(p, path) && Spell(p, path) == w;
      SpelledWordIsViable(p, words, prefix, path);
    }
    forall w | w in Found(p, words, prefix)
      ensures w in Solutions(p, words)
    {
      var path :| Viable(p, prefix, path) && Spell(p, path) == w;
      assert IsSimplePath(p, path);
    }
  }

  /** Every queued item stands for a viable path, the one at the same index
      of `paths`. */
  ghost predicate QueueTracks(p: Puzzle, prefix: set<string>, queue: seq<QueueItem>, paths: seq<Path>) {
    && |paths| == |queue|
    && forall i :: 0 <= i < |queue| ==> Tracks(p, queue[i], paths[i]) && Viable(p, prefix, paths[i])
  }

  /** No word is lost: along every viable path, either the path's word is
      already recorded (if it is a word), or some queued path is a prefix of it. */
  ghost predicate Covers(p: Puzzle, words: set<string>, prefix: set<string>, answer: set<string>, paths: seq<Path>) {
    forall path :: Viable(p, prefix, path) ==>
      (Spell(p, path) in words ==> Spell(p, path) in answer) || exists i :: 0 <= i < |paths| && paths[i] <= path
  }

  /** The seeds cover every viable path: each starts with a seeded cell. */
  lemma SeedsCover(p: Puzzle, words: set<string>, prefix: set<string>, paths: seq<Path>)
    requires p.Valid()
    requires forall c: Cell :: InBounds(p, c) && [CharAt(p, c)] in prefix ==> [c] in paths
    ensures Covers(p, words, prefix, {}, paths)
  {
    forall path | Viable(p, prefix, path)
      ensures exists i :: 0 <= i < |paths| && paths[i] <= path
    {
      var i :| 0 <= i < |paths| && paths[i] == [path[0]];
      assert paths[i] == path[..1];
    }
  }

  /** Extending a tracked viable path whose word passed the prefix test by an
      unvisited cell of the block around its end gives a tracked viable path. */
  lemma ExtendTracks(p: Puzzle, prefix: set<string>, v: QueueItem, path: Path, c: Cell)
    requires Tracks(p, v, path) && Viable(p, prefix, path)
    requires v.word in prefix
    requires InBounds(p, c) && InBlock((v.row, v.col), c) && c !in v.visited
    ensures Tracks(p, Extend(p, v, c), path + [c]) && Viable(p, prefix, path + [c])
  {
    var path' := path + [c];
    CellsAppend(path, c);
    var w' := Spell(p, path');
    assert w' == v.word + [CharAt(p, c)];
    forall j | 1 <= j < |path'|
      ensures w'[..j] in prefix
    {
      if j == |path| {
        assert w'[..j] == v.word;
      } else {
        assert w'[..j] == v.word[..j];
      }
    }
  }

  /** Popping a path whose word fails the prefix test keeps the cover: a longer
      viable path through it would have needed its word to pass. */
  lemma PruneKeepsCover(p: Puzzle, words: set<string>, prefix: set<string>, answer: set<string>, answer': set<string>,
                        paths: seq<Path>, path: Path)
    requires Covers(p, words, prefix, answer, paths + [path])
    requires p.Valid() && IsSimplePath(p, path)
    requires answer <= answer'
    requires Spell(p, path) in words ==> Spell(p, path) in answer'
    requires Spell(p, path) !in prefix
    ensures Covers(p, words, prefix, answer', paths)
  {
    forall path' | Viable(p, prefix, path') && Spell(p, path') in words && Spell(p, path') !in answer'
      ensures exists i :: 0 <= i < |paths| && paths[i] <= path'
    {
      var i :| 0 <= i < |paths| + 1 && (paths + [path])[i] <= path';
      if i == |paths| {
        if |path| < |path'| {
          ViablePrefixPasses(p, prefix, path, path');
        } else {
          PrefixOfSameLength(path, path');
        }
        assert false;
      }
      assert paths[i] == (paths + [path])[i];
    }
  }

  /** A proper prefix of a viable path passed the prefix test. */
  lemma ViablePrefixPasses(p: Puzzle, prefix: set<string>, path: Path, path': Path)
    requires Viable(p, prefix, path') && path <= path' && 1 <= |path| < |path'|
    ensures Spell(p, path) in prefix
  {
    assert path'[..|path|] == path;
    SpellPrefix(p, path', |path|);
  }

  lemma PrefixOfSameLength(path: Path, path': Path)
    requires path <= path' && |path'| <= |path|
    ensures path == path'
  {
  }

  /** The cell a simple path takes after its prefix `path` is adjacent to the
      prefix's last cell and not one of its cells. */
  lemma NextCellUnvisited(p: Puzzle, path: Path, path': Path)
    requires IsSimplePath(p, path') && path <= path' && 1 <= |path| < |path'|
    ensures path'[|path|] !in Cells(path)
    ensures Adjacent(path[|path| - 1], path'[|path|])
  {
    var n := |path|;
    forall j | 0 <= j < n
      ensures path[j] != path'[n]
    {
      assert path[j] == path'[j];
    }
    assert path[n - 1] == path'[n - 1];
  }

  /** The paths one step longer than `path`, through the cells `added`. */
  function Children(path: Path, added: seq<Cell>): seq<Path> {
    seq(|added|, k requires 0 <= k < |added| => path + [added[k]])
  }

  /** Popping a path and queueing its extensions through every unvisited cell
      of the block around its end keeps the cover. */
  lemma ExpandKeepsCover(p: Puzzle, words: set<string>, prefix: set<string>, answer: set<string>, answer': set<string>,
                         paths: seq<Path>, path: Path, added: seq<Cell>)
    requires Covers(p, words, prefix, answer, paths + [path])
    requires p.Valid() && IsSimplePath(p, path)
    requires answer <= answer'
    requires Spell(p, path) in words ==> Spell(p, path) in answer'
    requires forall c: Cell :: c in added <==> InBounds(p, c) && InBlock(path[|path| - 1], c) && c !in Cells(path)
    ensures Covers(p, words, prefix, answer', paths + Children(path, added))
  {
    var paths' := paths + Children(path, added);
    forall path' | Viable(p, prefix, path') && Spell(p, path') in words && Spell(p, path') !in answer'
      ensures exists i :: 0 <= i < |paths'| && paths'[i] <= path'
    {
      var i :| 0 <= i < |paths| + 1 && (paths + [path])[i] <= path';
      if i < |paths| {
        assert paths'[i] == paths[i] == (paths + [path])[i];
      } else {
        if |path| == |path'| {
          PrefixOfSameLength(path, path');
          assert false;
        }
        var n := |path|;
        var c := path'[n];
        NextCellUnvisited(p, path, path');
        var k :| 0 <= k < |added| && added[k] == c;
        assert paths'[|paths| + k] == path + [c] == path'[..n + 1];
      }
    }
  }

  function Pow10(e: nat): (r: nat)
    ensures r >= 1
  {
    if e == 0 then 1 else 10 * Pow10(e - 1)
  }

  /** The termination measure of the search: a queued item that has visited
      `d` of the grid's `m` cells weighs 10^(m - d), more than the (at most
      nine) items it can be replaced by. */
  ghost function Weight(m: nat, v: QueueItem): nat {
    if |v.visited| <= m then Pow10(m - |v.visited|) else 0
  }

  ghost function Potential(m: nat, q: seq<QueueItem>): nat {
    if q == [] then 0 else Potential(m, q[..|q| - 1]) + Weight(m, q[|q| - 1])
  }

  lemma {:induction false} PotentialAppend(m: nat, a: seq<QueueItem>, b: seq<QueueItem>)
    ensures Potential(m, a + b) == Potential(m, a) + Potential(m, b)
  {
    if b != [] {
      PotentialAppend(m, a, b[..|b| - 1]);
      assert (a + b)[..|a + b| - 1] == a + b[..|b| - 1];
    } else {
      assert a + b == a;
    }
  }

  lemma {:induction false} PotentialUniform(m: nat, b: seq<QueueItem>, w: nat)
    requires forall i :: 0 <= i < |b| ==> Weight(m, b[i]) == w
    ensures Potential(m, b) == |b| * w
  {
    if b != [] {
      PotentialUniform(m, b[..|b| - 1], w);
    }
  }

  lemma {:induction false} NineTimes(k: nat, x: nat)
    requires k <= 9
    ensures k * x <= 9 * x
  {
    if k > 0 {
      NineTimes(k - 1, x);
    }
  }

  /** Replacing an item by at most nine items that have each visited one more
      cell lowers the potential. */
  lemma ExpansionLighter(m: nat, rest: seq<QueueItem>, v: QueueItem, ext: seq<QueueItem>)
    requires |ext| <= 9
    requires |v.visited| <= m
    requires forall i :: 0 <= i < |ext| ==> |ext[i].visited| == |v.visited| + 1
    requires ext != [] ==> |v.visited| + 1 <= m
    ensures Potential(m, rest + ext) < Potential(m, rest + [v])
  {
    PotentialAppend(m, rest, ext);
    PotentialAppend(m, rest, [v]);
    assert Potential(m, [v]) == Weight(m, v) by {
      assert [v][..0] == [];
    }
    if ext != [] {
      var e := m - |v.visited| - 1;
      assert Weight(m, v) == 10 * Pow10(e);
      assert forall i :: 0 <= i < |ext| ==> Weight(m, ext[i]) == Pow10(e);
      PotentialUniform(m, ext, Pow10(e));
      NineTimes(|ext|, Pow10(e));
    }
  }

  /** A tracked item has visited only cells of the grid. */
  lemma VisitedInGrid(p: Puzzle, v: QueueItem, path: Path)
    requires Tracks(p, v, path)
    ensures v.visited <= AllCells(p)
    ensures |v.visited| <= |AllCells(p)|
  {
    AllCellsShape(p);
    SubsetCard(v.visited, AllCells(p));
  }

  /** A seeded one-cell item stands for its one-cell path. */
  lemma SeedTracks(p: Puzzle, prefix: set<string>, c: Cell)
    requires p.Valid() && InBounds(p, c) && [CharAt(p, c)] in prefix
    ensures Tracks(p, QueueItem(c.0, c.1, [CharAt(p, c)], {c}), [c])
    ensures Viable(p, prefix, [c])
  {
    CellsAppend([], c);
    assert Cells([]) == {};
  }

  /** A word spelled along a tracked viable path is one the search may report. */
  lemma TrackedWordFound(p: Puzzle, words: set<string>, prefix: set<string>, v: QueueItem, path: Path)
    requires Tracks(p, v, path) && Viable(p, prefix, path) && v.word in words
    ensures v.word in Found(p, words, prefix)
  {
  }

  /** When nothing is queued any more, the cover says every word along a
      viable path has been recorded. */
  lemma CoverComplete(p: Puzzle, words: set<string>, prefix: set<string>, answer: set<string>)
    requires answer <= Found(p, words, prefix)
    requires Covers(p, words, prefix, answer, [])
    ensures answer == Found(p, words, prefix)
  {
    forall w | w in Found(p, words, prefix)
      ensures w in answer
    {
      var path :| Viable(p, prefix, path) && Spell(p, path) == w;
    }
  }

  /** The state the search keeps between two pops: the queue tracks viable
      paths, only words along viable paths are recorded, and no word is lost. */
  ghost predicate SearchInvariant(p: Puzzle, words: set<string>, prefix: set<string>, answer: set<string>,
                                  queue: seq<QueueItem>, paths: seq<Path>) {
    && QueueTracks(p, prefix, queue, paths)
    && answer <= Found(p, words, prefix)
    && Covers(p, words, prefix, answer, paths)
  }

  lemma SplitLast<T>(s: seq<T>)
    requires s != []
    ensures s == s[..|s| - 1] + [s[|s| - 1]]
  {
  }

  /** The item popped last stands for the last path, and the rest of the queue
      for the rest of the paths. */
  lemma PopTracks(p: Puzzle, prefix: set<string>, queue: seq<QueueItem>, paths: seq<Path>)
    requires QueueTracks(p, prefix, queue, paths) && queue != []
    ensures Tracks(p, queue[|queue| - 1], paths[|paths| - 1]) && Viable(p, prefix, paths[|paths| - 1])
    ensures QueueTracks(p, prefix, queue[..|queue| - 1], paths[..|paths| - 1])
  {
  }

  /** Popping the last item, recording its word if it is one, and dropping it
      because its word is no indexed prefix keeps the invariant and lowers the
      potential. */
  lemma PruneStep(p: Puzzle, words: set<string>, prefix: set<string>, answer: set<string>, answer': set<string>,
                  queue: seq<QueueItem>, paths: seq<Path>, m: nat)
    requires SearchInvariant(p, words, prefix, answer, queue, paths) && queue != []
    requires m == |AllCells(p)|
    requires answer' == if queue[|queue| - 1].word in words then answer + {queue[|queue| - 1].word} else answer
    requires queue[|queue| - 1].word !in prefix
    ensures SearchInvariant(p, words, prefix, answer', queue[..|queue| - 1], paths[..|paths| - 1])
    ensures Potential(m, queue[..|queue| - 1]) < Potential(m, queue)
  {
    var v, path := queue[|queue| - 1], paths[|paths| - 1];
    PopTracks(p, prefix, queue, paths);
    if v.word in words {
      TrackedWordFound(p, words, prefix, v, path);
    }
    assert paths == paths[..|paths| - 1] + [path];
    PruneKeepsCover(p, words, prefix, answer, answer', paths[..|paths| - 1], path);
    assert queue == queue[..|queue| - 1] + [v];
    VisitedInGrid(p, v, path);
    PotentialAppend(m, queue[..|queue| - 1], [v]);
    assert [v][..0] == [];
  }

  /** One item PushNeighbours queues: the extension of `v` through an unvisited
      cell of the block around it stands for the extended path and has
      visited one more cell, still a cell of the grid. */
  lemma ChildTracks(p: Puzzle, prefix: set<string>, v: QueueItem, path: Path, c: Cell, child: QueueItem, m: nat)
    requires Tracks(p, v, path) && Viable(p, prefix, path) && v.word in prefix
    requires m == |AllCells(p)|
    requires InBounds(p, c) && InBlock((v.row, v.col), c) && c !in v.visited
    requires child == Extend(p, v, c)
    ensures Tracks(p, child, path + [c]) && Viable(p, prefix, path + [c])
    ensures |child.visited| == |v.visited| + 1 <= m
  {
    ExtendTracks(p, prefix, v, path, c);
    VisitedInGrid(p, child, path + [c]);
  }

  /** Two tracked queues one after the other track the paths one after the other. */
  lemma QueueTracksAppend(p: Puzzle, prefix: set<string>, a: seq<QueueItem>, pa: seq<Path>, b: seq<QueueItem>, pb: seq<Path>)
    requires QueueTracks(p, prefix, a, pa) && QueueTracks(p, prefix, b, pb)
    ensures QueueTracks(p, prefix, a + b, pa + pb)
  {
    forall i | 0 <= i < |a + b|
      ensures Tracks(p, (a + b)[i], (pa + pb)[i]) && Viable(p, prefix, (pa + pb)[i])
    {
      if i < |a| {
        assert (a + b)[i] == a[i] && (pa + pb)[i] == pa[i];
      } else {
        assert (a + b)[i] == b[i - |a|] && (pa + pb)[i] == pb[i - |a|];
      }
    }
  }

  /** The items PushNeighbours queues stand for the children of `path`. */
  lemma ExtensionsTrack(p: Puzzle, prefix: set<string>, v: QueueItem, path: Path, ext: seq<QueueItem>, added: seq<Cell>, m: nat)
    requires Tracks(p, v, path) && Viable(p, prefix, path) && v.word in prefix
    requires m == |AllCells(p)|
    requires |ext| == |added|
    requires forall k :: 0 <= k < |added| ==> InBounds(p, added[k]) && ext[k] == Extend(p, v, added[k])
    requires forall c: Cell :: c in added ==> InBounds(p, c) && InBlock((v.row, v.col), c) && c !in v.visited
    ensures QueueTracks(p, prefix, ext, Children(path, added))
  {
    forall k | 0 <= k < |ext|
      ensures Tracks(p, ext[k], Children(path, added)[k]) && Viable(p, prefix, Children(path, added)[k])
    {
      assert added[k] in added;
      ChildTracks(p, prefix, v, path, added[k], ext[k], m);
    }
  }

  /** The queue PushNeighbours leaves stands for the remaining paths followed
      by the children of `path`. */
  lemma ChildrenTrack(p: Puzzle, prefix: set<string>, rest: seq<QueueItem>, restPaths: seq<Path>, v: QueueItem, path: Path,
                      q: seq<QueueItem>, added: seq<Cell>, m: nat)
    requires QueueTracks(p, prefix, rest, restPaths)
    requires Tracks(p, v, path) && Viable(p, prefix, path) && v.word in prefix
    requires m == |AllCells(p)|
    requires |q| == |rest| + |added| && q[..|rest|] == rest
    requires forall k :: 0 <= k < |added| ==> InBounds(p, added[k]) && q[|rest| + k] == Extend(p, v, added[k])
    requires forall c: Cell :: c in added ==> InBounds(p, c) && InBlock((v.row, v.col), c) && c !in v.visited
    ensures QueueTracks(p, prefix, q, restPaths + Children(path, added))
  {
    var ext := q[|rest|..];
    forall k | 0 <= k < |added|
      ensures InBounds(p, added[k]) && ext[k] == Extend(p, v, added[k])
    {
      assert ext[k] == q[|rest| + k];
    }
    ExtensionsTrack(p, prefix, v, path, ext, added, m);
    QueueTracksAppend(p, prefix, rest, restPaths, ext, Children(path, added));
    assert q == rest + ext;
  }

  /** Every item PushNeighbours queues has visited one more cell than `v`. */
  lemma ChildrenDeeper(p: Puzzle, prefix: set<string>, rest: seq<QueueItem>, v: QueueItem, path: Path,
                       q: seq<QueueItem>, added: seq<Cell>, m: nat)
    requires Tracks(p, v, path) && Viable(p, prefix, path) && v.word in prefix
    requires m == |AllCells(p)|
    requires |q| == |rest| + |added|
    requires forall k :: 0 <= k < |added| ==> InBounds(p, added[k]) && q[|rest| + k] == Extend(p, v, added[k])
    requires forall c: Cell :: c in added ==> InBounds(p, c) && InBlock((v.row, v.col), c) && c !in v.visited
    ensures forall i :: |rest| <= i < |q| ==> |q[i].visited| == |v.visited| + 1
    ensures |rest| < |q| ==> |v.visited| + 1 <= m
  {
    forall i | |rest| <= i < |q|
      ensures |q[i].visited| == |v.visited| + 1
    {
      var k := i - |rest|;
      assert added[k] in added;
      ChildTracks(p, prefix, v, path, added[k], q[i], m);
    }
    if |rest| < |q| {
      ChildTracks(p, prefix, v, path, added[0], q[|rest|], m);
    }
  }

  /** Recording the word of a tracked viable path keeps the answer within
      the words the search may report. */
  lemma RecordKeepsFound(p: Puzzle, words: set<string>, prefix: set<string>, answer: set<string>, answer': set<string>,
                         v: QueueItem, path: Path)
    requires answer <= Found(p, words, prefix)
    requires Tracks(p, v, path) && Viable(p, prefix, path)
    requires answer' == if v.word in words then answer + {v.word} else answer
    ensures answer' <= Found(p, words, prefix)
  {
    if v.word in words {
      TrackedWordFound(p, words, prefix, v, path);
    }
  }

  /** Replacing the last item by items that have each visited one more cell
      lowers the potential. */
  lemma QueueLighter(m: nat, rest: seq<QueueItem>, v: QueueItem, q: seq<QueueItem>)
    requires |rest| <= |q| <= |rest| + 9 && q[..|rest|] == rest
    requires |v.visited| <= m
    requires forall i :: |rest| <= i < |q| ==> |q[i].visited| == |v.visited| + 1
    requires |rest| < |q| ==> |v.visited| + 1 <= m
    ensures Potential(m, q) < Potential(m, rest + [v])
  {
    var ext := q[|rest|..];
    forall i | 0 <= i < |ext|
      ensures |ext[i].visited| == |v.visited| + 1
    {
      assert ext[i] == q[|rest| + i];
    }
    ExpansionLighter(m, rest, v, ext);
    assert q == q[..|rest|] + ext;
  }

  /** Queueing the extensions of the popped item lowers the potential. */
  lemma ExpandLighter(p: Puzzle, prefix: set<string>, rest: seq<QueueItem>, v: QueueItem, path: Path,
                      q: seq<QueueItem>, added: seq<Cell>, m: nat)
    requires Tracks(p, v, path) && Viable(p, prefix, path) && v.word in prefix
    requires m == |AllCells(p)|
    requires |q| == |rest| + |added| && |added| <= 9 && q[..|rest|] == rest
    requires forall k :: 0 <= k < |added| ==> InBounds(p, added[k]) && q[|rest| + k] == Extend(p, v, added[k])
    requires forall c: Cell :: c in added ==> InBounds(p, c) && InBlock((v.row, v.col), c) && c !in v.visited
    ensures Potential(m, q) < Potential(m, rest + [v])
  {
    VisitedInGrid(p, v, path);
    ChildrenDeeper(p, prefix, rest, v, path, q, added, m);
    QueueLighter(m, rest, v, q);
  }

  /** Popping the last item, recording its word if it is one, and queueing its
      extensions keeps the invariant and lowers the potential. */
  lemma ExpandStep(p: Puzzle, words: set<string>, prefix: set<string>, answer: set<string>, answer': set<string>,
                   queue: seq<QueueItem>, rest: seq<QueueItem>, v: QueueItem, paths: seq<Path>, m: nat,
                   q: seq<QueueItem>, added: seq<Cell>)
    requires p.Valid()
    requires SearchInvariant(p, words, prefix, answer, queue, paths)
    requires queue != [] && v == queue[|queue| - 1] && rest == queue[..|queue| - 1]
    requires m == |AllCells(p)|
    requires answer' == if v.word in words then answer + {v.word} else answer
    requires v.word in prefix
    requires |q| == |rest| + |added| && |added| <= 9 && q[..|rest|] == rest
    requires forall k :: 0 <= k < |added| ==> InBounds(p, added[k]) && q[|rest| + k] == Extend(p, v, added[k])
    requires forall c: Cell :: c in added <==> InBounds(p, c) && InBlock((v.row, v.col), c) && c !in v.visited
    ensures SearchInvariant(p, words, prefix, answer', q, paths[..|paths| - 1] + Children(paths[|paths| - 1], added))
    ensures Potential(m, q) < Potential(m, queue)
  {
    var path, restPaths := paths[|paths| - 1], paths[..|paths| - 1];
    PopTracks(p, prefix, queue, paths);
    VisitedInGrid(p, v, path);
    RecordKeepsFound(p, words, prefix, answer, answer', v, path);
    SplitLast(paths);
    ExpandKeepsCover(p, words, prefix, answer, answer', restPaths, path, added);
    ChildrenTrack(p, prefix, rest, restPaths, v, path, q, added, m);
    ExpandLighter(p, prefix, rest, v, path, q, added, m);
  }

  /** Once the queue is empty, the answer is complete. */
  lemma SearchDone(p: Puzzle, words: set<string>, prefix: set<string>, answer: set<string>, paths: seq<Path>)
    requires p.Valid()
    requires SearchInvariant(p, words, prefix, answer, [], paths)
    ensures answer == Found(p, words, prefix)
    ensures Indexes(words, prefix) ==> answer == Solutions(p, words)
  {
    CoverComplete(p, words, prefix, answer);
    if Indexes(words, prefix) {
      FoundAreSolutions(p, words, prefix);
    }
  }

  /** The seeding loops of `Puzzle::search`: one single-cell item, row by row,
      for every cell whose letter is an indexed prefix; these items cover
      every viable path. */
  method Seed(p: Puzzle, dict: Dict) returns (queue: seq<QueueItem>, ghost paths: seq<Path>)
    requires p.Valid()
    ensures SearchInvariant(p, dict.words, dict.prefix, {}, queue, paths)
    ensures forall i :: 0 <= i < |queue| ==> |paths[i]| == 1 && |queue[i].word| == 1
    ensures forall c: Cell :: [c] in paths <==> InBounds(p, c) && [CharAt(p, c)] in dict.prefix
    ensures forall i, j :: 0 <= i < j < |paths| ==> paths[i] != paths[j]
  {
    queue, paths := [], [];
    for row := 0 to p.rowSize
      invariant QueueTracks(p, dict.prefix, queue, paths)
      invariant forall i :: 0 <= i < |queue| ==> |paths[i]| == 1 && |queue[i].word| == 1
      invariant forall c: Cell :: [c] in paths <==> InBounds(p, c) && c.0 < row && [CharAt(p, c)] in dict.prefix
      invariant forall i, j :: 0 <= i < j < |paths| ==> paths[i] != paths[j]
    {
      for col := 0 to p.colSize
        invariant QueueTracks(p, dict.prefix, queue, paths)
        invariant forall i :: 0 <= i < |queue| ==> |paths[i]| == 1 && |queue[i].word| == 1
        invariant forall c: Cell :: [c] in paths <==>
          InBounds(p, c) && (c.0 < row || (c.0 == row && c.1 < col)) && [CharAt(p, c)] in dict.prefix
        invariant forall i, j :: 0 <= i < j < |paths| ==> paths[i] != paths[j]
      {
        var word := [p.rows[row][col]];
        if !dict.IsPrefix(word) {
          continue;
        }
        SeedTracks(p, dict.prefix, (row, col));
        queue := queue + [QueueItem(row, col, word, {(row, col)})];
        paths := paths + [[(row, col)]];
      }
    }
    SeedsCover(p, dict.words, dict.prefix, paths);
  }

  /** `Puzzle::search`: the words it returns are exactly the dictionary words
      along viable paths, and, for a dictionary whose prefix set is exact, the
      dictionary words that some simple path of 8-adjacent cells spells. */
  method Search(p: Puzzle, dict: Dict) returns (answer: set<string>)
    requires p.Valid()
    ensures answer <= dict.words
    ensures answer == Found(p, dict.words, dict.prefix)
    ensures dict.Valid() ==> answer == Solutions(p, dict.words)
  {
    answer := {};
    var queue;
    ghost var paths;
    queue, paths := Seed(p, dict);
    ghost var m := |AllCells(p)|;
    while queue != []
      invariant SearchInvariant(p, dict.words, dict.prefix, answer, queue, paths)
      decreases Potential(m, queue)
    {
      var v := queue[|queue| - 1];
      var rest := queue[..|queue| - 1];
      ghost var answer0 := answer;
      if dict.Contains(v.word) {
        answer := answer + {v.word};
      }
      if !dict.IsPrefix(v.word) {
        PruneStep(p, dict.words, dict.prefix, answer0, answer, queue, paths, m);
        queue, paths := rest, paths[..|paths| - 1];
        continue;
      }
      var q;
      ghost var added;
      q, added := PushNeighbours(p, v, rest);
      ExpandStep(p, dict.words, dict.prefix, answer0, answer, queue, rest, v, paths, m, q, added);
      queue, paths := q, paths[..|paths| - 1] + Children(paths[|paths| - 1], added);
    }
    SearchDone(p, dict.words, dict.prefix, answer, paths);
  }
}
