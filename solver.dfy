/** The solver's pipeline without its command line and file reading: parse the
    grid, filter the candidate words into a dictionary, search the grid. */
module Solver {
  import opened Grid
  import opened Paths
  import opened Filtering
  import opened Search

  /** The grid a well-formed puzzle string describes. */
  function GridOf(s: string): Puzzle
    requires SameLength(Split(s))
  {
    var rows := Split(s);
    Puzzle(rows, CharsOf(rows), |rows|, |rows[0]|)
  }

  /** The words the solver prints for `s` and `candidates`: the lowercased
      candidates of at least three letters, all found in the grid, that some
      simple path of 8-adjacent cells spells. A string with rows of unequal
      length is refused. */
  method Solve(s: string, candidates: seq<string>) returns (r: Result<set<string>>)
    ensures r.Ok? <==> SameLength(Split(s))
    ensures r.Ok? ==> r.value == Solutions(GridOf(s), Admitted(candidates, CharsOf(Split(s))))
    ensures r.Ok? ==> forall w :: w in r.value ==> |w| >= MinWordLength && Spellable(GridOf(s), w)
  {
    var parsed := FromStr(s);
    if parsed.Err? {
      return Err(parsed.error);
    }
    var puzzle := parsed.value;
    var dict := Filter(candidates, puzzle);
    var answer := Search.Search(puzzle, dict);
    AdmittedAreAdmissible(candidates, puzzle.chars);
    return Ok(answer);
  }

  /** One more candidate word never removes an answer. */
  lemma {:induction false} AdmittedGrows(candidates: seq<string>, extra: seq<string>, chars: set<char>)
    ensures Admitted(candidates, chars) <= Admitted(candidates + extra, chars)
  {
    forall w | w in Admitted(candidates, chars)
      ensures w in Admitted(candidates + extra, chars)
    {
      AdmittedMembers(candidates, chars, w);
      var i :| 0 <= i < |candidates| && AsciiLowercase(candidates[i]) == w;
      assert (candidates + extra)[i] == candidates[i];
      AdmittedMembers(candidates + extra, chars, w);
    }
  }

  /** More candidate words give at least the same answers on the same grid. */
  lemma MoreCandidatesMoreAnswers(p: Puzzle, candidates: seq<string>, extra: seq<string>)
    ensures Solutions(p, Admitted(candidates, p.chars)) <= Solutions(p, Admitted(candidates + extra, p.chars))
  {
    AdmittedGrows(candidates, extra, p.chars);
  }
}
