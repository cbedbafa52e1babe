/** The dictionary index of the solver: the set of accepted words, and the set
    of their prefixes that the grid search consults to prune dead paths. */
module Dictionary {

  /** `s` is recorded in the prefix index on behalf of the word `w`: a leading
      part of `w`, non-empty unless `w` itself is the empty word. */
  predicate IsIndexedPrefix(s: string, w: string) {
    s <= w && (s == [] ==> w == [])
  }

  /** The prefixes that inserting `w` records: every non-empty leading part of
      `w`, from one letter up to `w` itself (just the empty string for an empty `w`). */
  function Prefixes(w: string): (r: set<string>)
    ensures forall s :: s in r <==> IsIndexedPrefix(s, w)
  {
    PrefixesMembers(w);
    if w == [] then {[]} else set k | 1 <= k <= |w| :: w[..k]
  }

  lemma PrefixesMembers(w: string)
    ensures forall s :: s in (if w == [] then {[]} else set k | 1 <= k <= |w| :: w[..k]) <==> IsIndexedPrefix(s, w)
  {
    forall s | IsIndexedPrefix(s, w) && w != []
      ensures s in set k | 1 <= k <= |w| :: w[..k]
    {
      assert s == w[..|s|];
    }
  }

  /** `prefix` indexes exactly the prefixes of `words`: no false positives and no
      false negatives. This is the invariant of a dictionary. */
  ghost predicate Indexes(words: set<string>, prefix: set<string>) {
    && (forall s :: s in prefix ==> exists w :: w in words && IsIndexedPrefix(s, w))
    && (forall w, s :: w in words && IsIndexedPrefix(s, w) ==> s in prefix)
  }

  /** Dropping the last letter of an indexed prefix gives an indexed prefix. */
  ghost predicate PrefixClosed(prefix: set<string>) {
    forall s :: s in prefix && |s| > 1 ==> s[..|s| - 1] in prefix
  }

  /** An index is prefix-closed. */
  lemma IndexIsPrefixClosed(words: set<string>, prefix: set<string>)
    requires Indexes(words, prefix)
    ensures PrefixClosed(prefix)
  {
    forall s | s in prefix && |s| > 1
      ensures s[..|s| - 1] in prefix
    {
      var w :| w in words && IsIndexedPrefix(s, w);
      assert IsIndexedPrefix(s[..|s| - 1], w);
    }
  }

  /** An index holds every word and every non-empty prefix of every word. */
  lemma IndexHoldsWords(words: set<string>, prefix: set<string>)
    requires Indexes(words, prefix)
    ensures words <= prefix
    ensures forall w, k :: w in words && 1 <= k <= |w| ==> w[..k] in prefix
  {
    forall w, k | w in words && 1 <= k <= |w|
      ensures w[..k] in prefix
    {
      assert IsIndexedPrefix(w[..k], w);
    }
  }

  /** An index holds the empty string only when the empty word was inserted. */
  lemma IndexEmptyString(words: set<string>, prefix: set<string>)
    requires Indexes(words, prefix)
    ensures [] in prefix <==> [] in words
  {
    if [] in prefix {
      var w :| w in words && IsIndexedPrefix([], w);
    }
  }

  /** Why Insert may stop at the first prefix it finds already indexed: once
      `word[..j]` is indexed, all its shorter non-empty prefixes are too. */
  lemma {:induction false} IndexedPrefixCarriesShorter(words: set<string>, prefix: set<string>, word: string, j: nat)
    requires Indexes(words, prefix)
    requires 1 <= j <= |word| && word[..j] in prefix
    ensures forall k :: 1 <= k <= j ==> word[..k] in prefix
  {
    var w :| w in words && IsIndexedPrefix(word[..j], w);
    forall k | 1 <= k <= j
      ensures word[..k] in prefix
    {
      assert word[..k] == w[..k];
      assert IsIndexedPrefix(word[..k], w);
    }
  }

  /** Indexing one more word keeps the index exact. */
  lemma InsertKeepsIndex(words: set<string>, prefix: set<string>, w: string)
    requires Indexes(words, prefix)
    ensures Indexes(words + {w}, prefix + Prefixes(w))
  {
  }

  /** `Dict` of the source: `words` and `prefix` are updated in place by Insert. */
  class Dict {
    var words: set<string>
    var prefix: set<string>

    ghost predicate Valid()
      reads this
    {
      Indexes(words, prefix)
    }

    /** `Dict::new`: an empty dictionary. */
    constructor ()
      ensures Valid()
      ensures words == {} && prefix == {}
    {
      words := {};
      prefix := {};
    }

    /** `Dict::insert`: records `word`, then records its prefixes from the
        longest down, dropping one letter at a time, and stops at the first one
        already recorded. */
    method Insert(word: string)
      requires Valid()
      modifies this
      ensures Valid()
      ensures words == old(words) + {word}
      ensures prefix == old(prefix) + Prefixes(word)
    {
      var popWord := word;
      words := words + {word};
      while popWord !in prefix
        invariant words == old(words) + {word}
        invariant popWord <= word
        invariant word != [] ==> popWord != []
        invariant prefix == old(prefix) + Added(word, |popWord|)
        decreases |popWord|
      {
        assert popWord == word[..|popWord|];
        prefix := prefix + {popWord};
        AddedStep(word, |popWord|);
        if popWord != [] {
          popWord := popWord[..|popWord| - 1];
        }
        if popWord == [] {
          assert prefix == old(prefix) + Prefixes(word);
          break;
        }
      }
      InsertSettles(old(words), old(prefix), word, popWord, prefix);
      InsertKeepsIndex(old(words), old(prefix), word);
    }

    /** `Dict::contains`. */
    predicate Contains(word: string)
      reads this
    {
      word in words
    }

    /** `Dict::is_prefix`: in a valid dictionary, true exactly for the indexed
        prefixes of the words. */
    predicate IsPrefix(s: string)
      reads this
      ensures Valid() ==> (IsPrefix(s) <==> exists w :: w in words && IsIndexedPrefix(s, w))
    {
      s in prefix
    }
  }

  /** The prefixes of `word` longer than `n` letters: those Insert's loop has
      recorded once `n` letters are left. */
  function Added(word: string, n: nat): set<string> {
    set k | n < k <= |word| :: word[..k]
  }

  lemma AddedStep(word: string, n: nat)
    requires n <= |word|
    ensures Added(word, n) + {word[..n]} == (if n == 0 then Added(word, 0) + {[]} else Added(word, n - 1))
    ensures n == 0 ==> Added(word, 0) + {[]} == Prefixes([]) + Added(word, 0)
    ensures n == 1 ==> Added(word, 0) == Prefixes(word)
  {
    if n == 1 {
      forall s | s in Prefixes(word) ensures s in Added(word, 0) {
        assert s == word[..|s|];
      }
    }
  }

  /** The state Insert's loop leaves behind, at either of its exits, is the old
      index plus the prefixes of the word. */
  lemma InsertSettles(words: set<string>, prefix: set<string>, word: string, popWord: string, prefix': set<string>)
    requires Indexes(words, prefix)
    requires popWord <= word
    requires prefix' == prefix + Prefixes(word)
          || (popWord in prefix' && prefix' == prefix + Added(word, |popWord|) && (word != [] ==> popWord != []))
    ensures prefix' == prefix + Prefixes(word)
  {
  }
}
