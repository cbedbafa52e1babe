/** Building the dictionary from a word list: each candidate is lowercased,
    and kept only when it has at least three letters, all of them in the grid. */
module Filtering {
  import opened Dictionary
  import opened Grid

  /** The minimum length of a word the solver reports. */
  const MinWordLength := 3

  predicate IsAsciiUpper(c: char) {
    'A' <= c <= 'Z'
  }

  /** ASCII lowercasing of one character. */
  function AsciiLower(c: char): char {
    if IsAsciiUpper(c) then (c as int + 32) as char else c
  }

  /** `make_ascii_lowercase`: no ASCII capital is left, every other character
      is kept as it was, and each capital becomes its small letter. */
  function AsciiLowercase(w: string): (r: string)
    ensures |r| == |w|
    ensures forall i :: 0 <= i < |r| ==> !IsAsciiUpper(r[i])
    ensures forall i :: 0 <= i < |r| && !IsAsciiUpper(w[i]) ==> r[i] == w[i]
    ensures forall i :: 0 <= i < |r| && IsAsciiUpper(w[i]) ==> 'a' <= r[i] <= 'z' && r[i] as int - w[i] as int == 'a' as int - 'A' as int
  {
    seq(|w|, i requires 0 <= i < |w| => AsciiLower(w[i]))
  }

  /** Lowercasing twice is lowercasing once. */
  lemma LowercaseIdempotent(w: string)
    ensures AsciiLowercase(AsciiLowercase(w)) == AsciiLowercase(w)
  {
  }

  /** The `any` test of `filter`: some character of `word` is not in the grid. */
  function HasForeignChar(word: string, puzzle: Puzzle): (r: bool)
    ensures r <==> exists i :: 0 <= i < |word| && word[i] !in puzzle.chars
  {
    if word == [] then false
    else if !puzzle.Contains(word[0]) then true
    else
      var r := HasForeignChar(word[1..], puzzle);
      assert r ==> exists i :: 1 <= i < |word| && word[i] !in puzzle.chars by {
        if r {
          var i :| 0 <= i < |word[1..]| && word[1..][i] !in puzzle.chars;
          assert word[i + 1] !in puzzle.chars;
        }
      }
      r
  }

  /** A lowercased candidate `filter` keeps: long enough, spelled only with
      letters of the grid. */
  predicate Admissible(word: string, chars: set<char>) {
    |word| >= MinWordLength && forall i :: 0 <= i < |word| ==> word[i] in chars
  }

  /** The words `filter` inserts, candidate by candidate. */
  function Admitted(candidates: seq<string>, chars: set<char>): set<string> {
    if candidates == [] then {}
    else
      var word := AsciiLowercase(candidates[|candidates| - 1]);
      Admitted(candidates[..|candidates| - 1], chars) + if Admissible(word, chars) then {word} else {}
  }

  /** A word is admitted exactly when it is the lowercased form of some
      candidate and that form is admissible; nothing else is admitted. */
  lemma {:induction false} AdmittedMembers(candidates: seq<string>, chars: set<char>, w: string)
    ensures w in Admitted(candidates, chars) <==>
      Admissible(w, chars) && exists i :: 0 <= i < |candidates| && AsciiLowercase(candidates[i]) == w
  {
    if candidates != [] {
      var init := candidates[..|candidates| - 1];
      AdmittedMembers(init, chars, w);
      if w in Admitted(init, chars) {
        var i :| 0 <= i < |init| && AsciiLowercase(init[i]) == w;
        assert candidates[i] == init[i];
      }
      if i :| 0 <= i < |candidates| - 1 && AsciiLowercase(candidates[i]) == w {
        assert init[i] == candidates[i];
      }
    }
  }

  /** Every admitted word has at least three letters, all of them in the grid. */
  lemma {:induction false} AdmittedAreAdmissible(candidates: seq<string>, chars: set<char>)
    ensures forall w :: w in Admitted(candidates, chars) ==> Admissible(w, chars)
  {
    if candidates != [] {
      AdmittedAreAdmissible(candidates[..|candidates| - 1], chars);
    }
  }

  /** `DictBuilder::filter` over the candidate words, without the reading of
      the word file. */
  method Filter(candidates: seq<string>, puzzle: Puzzle) returns (filtered: Dict)
    ensures fresh(filtered)
    ensures filtered.Valid()
    ensures filtered.words == Admitted(candidates, puzzle.chars)
  {
    filtered := new Dict();
    for k := 0 to |candidates|
      invariant filtered.Valid()
      invariant filtered.words == Admitted(candidates[..k], puzzle.chars)
    {
      var word := AsciiLowercase(candidates[k]);
      assert candidates[..k + 1][..k] == candidates[..k];
      if |word| < MinWordLength || HasForeignChar(word, puzzle) {
        continue;
      }
      filtered.Insert(word);
    }
    assert candidates[..|candidates|] == candidates;
  }
}
