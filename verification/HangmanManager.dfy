/**
 * The candidate manager of "evil hangman": it keeps every dictionary word of
 * the configured length that is consistent with the guesses so far, and on
 * each guess moves to the largest group of candidates sharing a reveal key.
 */
module Hangman {
  import opened Lex
  import opened Patterns
  import opened Partition

  /** The outcome of building a manager: a manager, or the IllegalArgumentException. */
  datatype Construction = Built(manager: HangmanManager) | IllegalArgument

  class HangmanManager {
    /** The live candidate words (a TreeSet<String>). */
    var words: set<string>
    /** The letters guessed so far (a TreeSet<Character>). */
    var guesses: set<char>
    /** The word length. */
    const length: int
    /** The guess budget. */
    const max: int
    /** The display before any guess. */
    const displayPattern: string

    /**
     * The object invariant: a valid configuration, every candidate of the
     * configured length, and every guessed letter sorting all candidates into
     * one group.
     */
    ghost predicate Valid()
      reads this
    {
      length >= 1 && max >= 0 &&
      displayPattern == Blank(length) &&
      (forall w :: w in words ==> |w| == length) &&
      Consistent(words, guesses)
    }

    /** HangmanManager(dictionary, length, max), for a configuration it accepts. */
    constructor (dictionary: seq<string>, length: int, max: int)
      requires length >= 1 && max >= 0
      ensures Valid()
      ensures this.length == length && this.max == max
      ensures words == set w | w in dictionary && |w| == length
      ensures guesses == {}
    {
      var blank := "";
      for i := 0 to length
        invariant blank == Blank(i)
      {
        blank := blank + "- ";
      }
      var found: set<string> := {};
      for i := 0 to |dictionary|
        invariant found == set w | w in dictionary[..i] && |w| == length
      {
        assert dictionary[..i + 1] == dictionary[..i] + [dictionary[i]];
        if |dictionary[i]| == length {
          found := found + {dictionary[i]};
        }
      }
      assert dictionary[..|dictionary|] == dictionary;
      this.length := length;
      this.max := max;
      displayPattern := blank;
      words := found;
      guesses := {};
    }

    /** The constructor including its IllegalArgumentException path. */
    static method Create(dictionary: seq<string>, length: int, max: int) returns (r: Construction)
      ensures r.IllegalArgument? <==> length < 1 || max < 0
      ensures r.Built? ==> fresh(r.manager) && r.manager.Valid()
      ensures r.Built? ==> r.manager.length == length && r.manager.max == max
      ensures r.Built? ==> r.manager.words == set w | w in dictionary && |w| == length
      ensures r.Built? ==> r.manager.guesses == {}
    {
      if length < 1 || max < 0 {
        return IllegalArgument;
      }
      var m := new HangmanManager(dictionary, length, max);
      r := Built(m);
    }

    /** words(): the current candidates, each of the configured length. */
    function Words(): (r: set<string>)
      reads this
      requires Valid()
      ensures forall w :: w in r ==> |w| == length
      ensures Consistent(r, guesses)
    {
      words
    }

    /** guessesLeft(): the budget less the distinct letters guessed; it may go negative. */
    function GuessesLeft(): (r: int)
      reads this
      ensures r <= max
      ensures r == max <==> guesses == {}
      ensures r < 0 <==> |guesses| > max
    {
      max - |guesses|
    }

    /** guesses(): the letters guessed so far, one budget unit each. */
    function Guesses(): (r: set<char>)
      reads this
      ensures |r| == max - GuessesLeft()
    {
      guesses
    }

    /**
     * pattern(): "- " per letter before any guess; afterwards the rendering of
     * the candidates against the guessed letters, the same for every candidate.
     */
    method Pattern() returns (r: string)
      requires Valid()
      ensures guesses == {} ==> r == Blank(length)
      ensures guesses != {} ==> r == Display(words, guesses)
      ensures guesses != {} ==> forall w :: w in words ==> r == Render(w, guesses)
    {
      if guesses != {} {
        r := MakePattern2();
        return;
      }
      r := displayPattern;
    }

    /**
     * record(guess): adds the guess, moves to the largest group of candidates
     * by reveal key (smallest key among ties) and returns how often the guess
     * occurs in that key.
     */
    method Record(guess: char) returns (occ: int)
      requires Valid()
      modifies this
      ensures Valid()
      ensures guesses == old(guesses) + {guess}
      ensures GuessesLeft() == old(GuessesLeft()) - (if guess in old(guesses) then 0 else 1)
      ensures words == Narrow(old(words), guess)
      ensures occ == Occurrences(Chosen(old(words), guess), guess)
      ensures words <= old(words)
      ensures old(words) != {} ==> words != {}
      ensures forall w :: w in words ==> Key(w, guess) == Chosen(old(words), guess)
    {
      guesses := guesses + {guess};
      assert guess in old(guesses) ==> guesses == old(guesses);
      assert guess !in old(guesses) ==> |guesses| == |old(guesses)| + 1;
      var theMap := MakeMap(guess);

      var maxWordPatt := LargestGroupKey(theMap);

      if theMap != map[] {
        ChoiceUnique(theMap, maxWordPatt, Best(theMap));
        NarrowAdoptsLargest(words, guess);
      }
      NarrowShared(words, guess);
      NarrowConsistent(words, old(guesses), guess);

      if maxWordPatt != "" {
        words := words * theMap[maxWordPatt];
      }

      occ := CountOf(maxWordPatt, guess);
    }

    /** makeMap(guess): the current candidates grouped by their reveal key. */
    method MakeMap(guess: char) returns (theMap: Groups)
      ensures theMap == GroupBy(words, guess)
    {
      theMap := map[];
      var rest := words;
      ghost var done: set<string> := {};
      assert GroupBy(done, guess) == map[];
      while rest != {}
        invariant rest <= words && done == words - rest
        invariant theMap == GroupBy(done, guess)
        decreases |rest|
      {
        var word :| word in rest;
        var patt := MakePattern(word, guess);
        GroupByInsert(done, word, guess);
        done := done + {word};
        if patt in theMap {
          theMap := theMap[patt := theMap[patt] + {word}];
        } else {
          theMap := theMap[patt := {word}];
        }
        rest := rest - {word};
      }
      assert done == words;
    }

    /** makePattern(word, c): the reveal key of `word` for the guess `c`. */
    method MakePattern(theWord: string, theChar: char) returns (patt: string)
      ensures patt == Key(theWord, theChar)
    {
      patt := "";
      for i := 0 to |theWord|
        invariant patt == Key(theWord[..i], theChar)
      {
        assert theWord[..i + 1][..i] == theWord[..i];
        if theWord[i] == theChar {
          patt := patt + [theChar, ' '];
        } else {
          patt := patt + "- ";
        }
      }
      assert theWord[..|theWord|] == theWord;
    }

    /**
     * makePattern2(): walks the candidates in ascending order, rendering each
     * against the guessed letters and keeping only the last rendering.
     */
    method MakePattern2() returns (patt: string)
      ensures patt == Display(words, guesses)
      ensures Valid() ==> forall w :: w in words ==> patt == Render(w, guesses)
    {
      patt := "";
      var rest := words;
      ghost var last := "";
      while rest != {}
        invariant rest <= words
        invariant forall d, w :: d in words && d !in rest && w in rest ==> Less(d, w)
        invariant rest == words ==> patt == ""
        invariant rest != words ==>
          last in words && last !in rest && patt == Render(last, guesses) &&
          forall d :: d in words && d !in rest ==> LessEq(d, last)
        decreases |rest|
      {
        LeastExists(rest);
        var theWord :| theWord in rest && forall w :: w in rest ==> LessEq(theWord, w);
        forall d | d in words && d !in rest - {theWord}
          ensures LessEq(d, theWord)
        {
        }
        patt := RenderWord(theWord, guesses);
        last := theWord;
        rest := rest - {theWord};
      }
      if words != {} {
        LessEqAntisymmetric(last, Greatest(words));
      }
      if Valid() {
        forall w | w in words
          ensures patt == Render(w, guesses)
        {
          DisplayAnyCandidate(words, guesses, w);
        }
      }
    }
  }

  /**
   * The body of makePattern2's walk for one word: the letters in order, each
   * followed by the scan of the guessed letters.
   */
  method RenderWord(theWord: string, guesses: set<char>) returns (patt: string)
    ensures patt == Render(theWord, guesses)
  {
    patt := "";
    for i := 0 to |theWord|
      invariant patt == Render(theWord[..i], guesses)
    {
      assert theWord[..i + 1][..i] == theWord[..i];
      var cell := ScanGuesses(theWord[i], guesses);
      patt := patt + cell;
    }
    assert theWord[..|theWord|] == theWord;
  }

  /**
   * The innermost loop of makePattern2 for one letter `ch`: the guessed letters
   * are scanned in turn; a match appends the letter and stops, and "- " is
   * appended when the last guessed letter has been scanned without a match.
   */
  method ScanGuesses(ch: char, guesses: set<char>) returns (cell: string)
    ensures cell == Cell(ch, guesses)
  {
    cell := "";
    var counter := 0;
    var seen: set<char> := {};
    while seen != guesses
      invariant seen <= guesses && counter == |seen|
      invariant ch !in seen
      invariant cell == if seen == guesses && guesses != {} then "- " else ""
      decreases |guesses - seen|
    {
      var theChar :| theChar in guesses - seen;
      counter := counter + 1;
      if ch == theChar {
        cell := cell + [theChar, ' '];
        break;
      } else if ch != theChar && counter == |guesses| {
        CardinalityFills(seen + {theChar}, guesses);
        cell := cell + "- ";
      }
      CardinalityShrinks(seen, theChar, guesses);
      seen := seen + {theChar};
    }
  }

  /**
   * The key walk of record: over the keys in ascending order, a key replaces
   * the best so far only when its group is strictly larger. The result is the
   * largest group's key with ties going to the smallest key, or "" for no key.
   */
  method LargestGroupKey(theMap: Groups) returns (maxWordPatt: string)
    ensures theMap == map[] ==> maxWordPatt == ""
    ensures theMap != map[] ==> IsChoice(theMap, maxWordPatt)
  {
    var maxWordCount := -1;
    maxWordPatt := "";
    var rest := theMap.Keys;
    while rest != {}
      invariant rest <= theMap.Keys
      invariant forall d, k :: d in theMap && d !in rest && k in rest ==> Less(d, k)
      invariant rest == theMap.Keys ==> maxWordCount == -1 && maxWordPatt == ""
      invariant rest != theMap.Keys ==>
        maxWordPatt in theMap && maxWordPatt !in rest && maxWordCount == |theMap[maxWordPatt]| &&
        forall d :: d in theMap && d !in rest ==>
          |theMap[d]| <= maxWordCount && (|theMap[d]| == maxWordCount ==> LessEq(maxWordPatt, d))
      decreases |rest|
    {
      LeastExists(rest);
      var theKey :| theKey in rest && forall k :: k in rest ==> LessEq(theKey, k);
      forall d | d in theMap && d !in rest - {theKey}
        ensures d == theKey || Less(d, theKey)
      {
      }
      if |theMap[theKey]| > maxWordCount {
        maxWordCount := |theMap[theKey]|;
        maxWordPatt := theKey;
      }
      rest := rest - {theKey};
    }
  }

  /** The counting loop at the end of record: how many positions of `s` hold `c`. */
  method CountOf(s: string, c: char) returns (occ: int)
    ensures occ == Occurrences(s, c)
  {
    occ := 0;
    var i := 0;
    while i < |s|
      invariant 0 <= i <= |s|
      invariant occ == Occurrences(s[..i], c)
    {
      assert s[..i + 1][..i] == s[..i];
      if s[i] == c {
        occ := occ + 1;
      }
      i := i + 1;
    }
    assert s[..|s|] == s;
  }

  /** A subset as large as its superset is the whole set. */
  lemma {:induction false} CardinalityFills(a: set<char>, b: set<char>)
    requires a <= b && |a| == |b|
    ensures a == b
    decreases |a|
  {
    if a != {} {
      var x :| x in a;
      CardinalityFills(a - {x}, b - {x});
      assert a == (a - {x}) + {x} && b == (b - {x}) + {x};
    }
  }

  /** Adding a missing element keeps a proper subset's difference shrinking. */
  lemma CardinalityShrinks(a: set<char>, x: char, b: set<char>)
    requires a <= b && x in b && x !in a
    ensures |b - (a + {x})| < |b - a|
  {
    assert b - a == (b - (a + {x})) + {x};
  }
}
