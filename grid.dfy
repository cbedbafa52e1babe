/** The puzzle grid: parsing the space-separated row string into a rectangular
    grid of letters, and the set of letters the grid holds. */
module Grid {

  datatype Option<T> = None | Some(value: T)

  /** The assertion `from_str` makes: every row as long as the first. `row` is
      the index of the first row whose length differs. */
  datatype ParseError = RowLengthMismatch(row: nat)

  datatype Result<T> = Ok(value: T) | Err(error: ParseError)

  /** `str::split(' ')`: the pieces between single spaces. There is always at
      least one piece; two adjacent spaces, or a leading or trailing one, give
      an empty piece. */
  function Split(s: string): (pieces: seq<string>)
    ensures |pieces| >= 1
    ensures forall i :: 0 <= i < |pieces| ==> ' ' !in pieces[i]
  {
    if s == [] then [[]]
    else
      var rest := Split(s[1..]);
      if s[0] == ' ' then [[]] + rest
      else [[s[0]] + rest[0]] + rest[1..]
  }

  /** The pieces put back together with one space between neighbours. */
  function Join(pieces: seq<string>): string
    requires |pieces| >= 1
  {
    if |pieces| == 1 then pieces[0] else pieces[0] + [' '] + Join(pieces[1..])
  }

  /** Splitting loses nothing: the pieces join back into the string. */
  lemma {:induction false} JoinSplit(s: string)
    ensures Join(Split(s)) == s
  {
    if s != [] {
      JoinSplit(s[1..]);
      var rest := Split(s[1..]);
      if s[0] == ' ' {
        assert Split(s)[1..] == rest;
      } else if |rest| == 1 {
        assert Join(Split(s)) == [s[0]] + rest[0];
      } else {
        assert Split(s)[1..] == rest[1..];
        assert Join(rest) == rest[0] + [' '] + Join(rest[1..]);
      }
    }
  }

  /** Splitting a piece without spaces followed by anything. */
  lemma {:induction false} SplitAfterPiece(a: string, t: string)
    requires ' ' !in a
    ensures Split(a + t) == [a + Split(t)[0]] + Split(t)[1..]
  {
    if a != [] {
      assert (a + t)[1..] == a[1..] + t;
      SplitAfterPiece(a[1..], t);
      assert [a[0]] + (a[1..] + Split(t)[0]) == a + Split(t)[0];
    } else {
      assert a + t == t;
      assert a + Split(t)[0] == Split(t)[0];
      assert Split(t) == [Split(t)[0]] + Split(t)[1..];
    }
  }

  /** Joining pieces that hold no space and splitting again gives the pieces back. */
  lemma {:induction false} SplitJoin(pieces: seq<string>)
    requires |pieces| >= 1
    requires forall i :: 0 <= i < |pieces| ==> ' ' !in pieces[i]
    ensures Split(Join(pieces)) == pieces
  {
    if |pieces| == 1 {
      SplitAfterPiece(pieces[0], []);
      assert pieces[0] + [] == pieces[0];
    } else {
      var t := [' '] + Join(pieces[1..]);
      SplitJoin(pieces[1..]);
      assert t[1..] == Join(pieces[1..]);
      assert Split(t) == [[]] + pieces[1..];
      SplitAfterPiece(pieces[0], t);
      assert pieces[0] + t == Join(pieces);
      assert pieces[0] + [] == pieces[0];
    }
  }

  /** The letters of one row. */
  function Letters(row: seq<char>): set<char> {
    set c | c in row
  }

  /** The letters of a sequence of rows. */
  function CharsOf(rows: seq<seq<char>>): set<char> {
    if rows == [] then {} else CharsOf(rows[..|rows| - 1]) + Letters(rows[|rows| - 1])
  }

  /** A letter is in CharsOf exactly when it stands in one of the rows. */
  lemma {:induction false} CharsOfMembers(rows: seq<seq<char>>, c: char)
    ensures c in CharsOf(rows) <==> exists i :: 0 <= i < |rows| && c in rows[i]
  {
    if rows != [] {
      var init := rows[..|rows| - 1];
      CharsOfMembers(init, c);
      if c in CharsOf(init) {
        var i :| 0 <= i < |init| && c in init[i];
        assert rows[i] == init[i];
      }
      if i :| 0 <= i < |rows| - 1 && c in rows[i] {
        assert init[i] == rows[i];
      }
    }
  }

  /** `Puzzle` of the source. It is a value: nothing changes it once built. */
  datatype Puzzle = Puzzle(rows: seq<seq<char>>, chars: set<char>, rowSize: nat, colSize: nat)
  {
    /** The grid `from_str` builds: `rowSize` rows of `colSize` letters each,
        and `chars` the letters they hold. */
    predicate Valid() {
      && |rows| == rowSize
      && (forall r :: 0 <= r < rowSize ==> |rows[r]| == colSize)
      && chars == CharsOf(rows)
    }

    /** `Puzzle::contains`: in a valid grid, whether the letter stands in some cell. */
    predicate Contains(c: char)
      ensures Valid() ==> (Contains(c) <==> exists r, col :: 0 <= r < rowSize && 0 <= col < colSize && rows[r][col] == c)
    {
      CharsOfMembers(rows, c);
      c in chars
    }
  }

  /** All pieces as long as the first. */
  predicate SameLength(pieces: seq<string>)
    requires |pieces| >= 1
  {
    forall i :: 0 <= i < |pieces| ==> |pieces[i]| == |pieces[0]|
  }

  /** `Puzzle::from_str`: the rows are the pieces of `s` between single spaces;
      the assertion that all rows are equally long becomes an error result. */
  method FromStr(s: string) returns (r: Result<Puzzle>)
    ensures r.Ok? <==> SameLength(Split(s))
    ensures r.Ok? ==> r.value.Valid()
    ensures r.Ok? ==> r.value.rows == Split(s) && r.value.rowSize == |Split(s)| && r.value.colSize == |Split(s)[0]|
    ensures r.Err? ==> var k := r.error.row;
      && 0 < k < |Split(s)|
      && |Split(s)[k]| != |Split(s)[0]|
      && forall i :: 0 <= i < k ==> |Split(s)[i]| == |Split(s)[0]|
  {
    var pieces := Split(s);
    var grid: seq<seq<char>> := [];
    var chars: set<char> := {};
    var numRows: nat := 0;
    var numCols: Option<nat> := None;
    for k := 0 to |pieces|
      invariant grid == pieces[..k]
      invariant numRows == k
      invariant numCols.None? <==> k == 0
      invariant numCols.Some? ==> numCols.value == |pieces[0]|
      invariant forall i :: 0 <= i < k ==> |pieces[i]| == |pieces[0]|
      invariant chars == CharsOf(grid)
    {
      var word := pieces[k];
      var len := |word|;
      if numCols.Some? {
        if numCols.value != len {
          return Err(RowLengthMismatch(k));
        }
      } else {
        numCols := Some(len);
      }
      var row: seq<char> := [];
      for j := 0 to |word|
        invariant row == word[..j]
        invariant chars == CharsOf(grid) + Letters(word[..j])
      {
        row := row + [word[j]];
        chars := chars + {word[j]};
        assert word[..j + 1] == word[..j] + [word[j]];
      }
      assert row == word;
      grid := grid + [row];
      assert grid[..|grid| - 1] == pieces[..k];
      numRows := numRows + 1;
    }
    assert grid == pieces;
    r := Ok(Puzzle(grid, chars, numRows, numCols.value));
  }
}
