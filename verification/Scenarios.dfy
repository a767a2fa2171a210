/**
 * Concrete guesses worked through the model: which candidates remain and
 * which count is returned for small dictionaries.
 */
module Scenarios {
  import opened Lex
  import opened Patterns
  import opened Partition

  /** The key of a three-letter word, slot by slot. */
  lemma KeyOfThree(x: char, y: char, z: char, c: char)
    ensures Key([x, y, z], c) == Slot(x, c) + Slot(y, c) + Slot(z, c)
  {
    assert [x, y, z][..2] == [x, y];
    assert [x, y][..1] == [x];
    assert [x][..0] == [];
    assert Key([x], c) == Slot(x, c);
    assert Key([x, y], c) == Key([x], c) + Slot(y, c);
    assert Key([x, y, z], c) == Key([x, y], c) + Slot(z, c);
  }

  /** The count of a letter in a three-letter word, letter by letter. */
  lemma OccurrencesOfThree(x: char, y: char, z: char, c: char)
    ensures Occurrences([x, y, z], c) ==
      (if x == c then 1 else 0) + (if y == c then 1 else 0) + (if z == c then 1 else 0)
  {
    assert [x, y, z][..2] == [x, y];
    assert [x, y][..1] == [x];
    assert [x][..0] == [];
  }

  /** The keys of AAA, ABA, ABB and BBB for the guess 'A'. */
  lemma KeysForA()
    ensures Key("AAA", 'A') == "A A A "
    ensures Key("ABA", 'A') == "A - A "
    ensures Key("ABB", 'A') == "A - - "
    ensures Key("BBB", 'A') == "- - - "
  {
    KeyOfThree('A', 'A', 'A', 'A');
    KeyOfThree('A', 'B', 'A', 'A');
    KeyOfThree('A', 'B', 'B', 'A');
    KeyOfThree('B', 'B', 'B', 'A');
  }

  /** No two of AAA, ABA, ABB, BBB share a key for 'A'. */
  lemma KeysForADistinct(ws: set<string>)
    requires ws == {"AAA", "ABA", "ABB", "BBB"}
    ensures forall u, v :: u in ws && v in ws && Key(u, 'A') == Key(v, 'A') ==> u == v
  {
    KeysForA();
    var ks: seq<string> := ["A A A ", "A - A ", "A - - ", "- - - "];
    assert ks[0][2] != ks[2][2] && ks[1][4] != ks[2][4] && ks[0][4] != ks[2][4];
    assert ks[0][0] != ks[3][0] && ks[1][0] != ks[3][0] && ks[2][0] != ks[3][0];
    assert ks[0][2] != ks[1][2];
  }

  /** "- - - ", the key of BBB, is the smallest of the four keys. */
  lemma KeysForALeast(ws: set<string>)
    requires ws == {"AAA", "ABA", "ABB", "BBB"}
    ensures forall w :: w in ws ==> LessEq(Key("BBB", 'A'), Key(w, 'A'))
  {
    KeysForA();
    assert Less("- - - ", "A A A ") && Less("- - - ", "A - A ") && Less("- - - ", "A - - ");
  }

  /**
   * Guessing 'A' against AAA, ABA, ABB, BBB gives four groups of one word;
   * the tie goes to the smallest key "- - - ", leaving BBB with no occurrence.
   */
  lemma AllGroupsTie(ws: set<string>)
    requires ws == {"AAA", "ABA", "ABB", "BBB"}
    ensures Chosen(ws, 'A') == "- - - "
    ensures Narrow(ws, 'A') == {"BBB"}
    ensures Occurrences(Chosen(ws, 'A'), 'A') == 0
  {
    KeysForADistinct(ws);
    KeysForALeast(ws);
    NarrowDistinct(ws, 'A', "BBB");
    KeysForA();
  }

  /**
   * Guessing 'C' against CAT, COT, CUT, CAB sorts every word into "C - - ":
   * nothing is eliminated and one occurrence is reported.
   */
  lemma OneGroup(ws: set<string>)
    requires ws == {"CAT", "COT", "CUT", "CAB"}
    ensures Chosen(ws, 'C') == "C - - "
    ensures Narrow(ws, 'C') == ws
    ensures Occurrences(Chosen(ws, 'C'), 'C') == 1
  {
    KeyOfThree('C', 'A', 'T', 'C');
    KeyOfThree('C', 'O', 'T', 'C');
    KeyOfThree('C', 'U', 'T', 'C');
    KeyOfThree('C', 'A', 'B', 'C');
    NarrowUniform(ws, 'C', "C - - ");
    OccurrencesOfThree('C', 'A', 'T', 'C');
    KeyOccurrences("CAT", 'C');
  }

  /** With no candidate, a guess leaves no candidate and reports no occurrence. */
  lemma NoCandidates(c: char)
    ensures Narrow({}, c) == {}
    ensures Occurrences(Chosen({}, c), c) == 0
  {
  }

  /** Once only DOG is left, guessing D, O, G, Z keeps it. */
  lemma DogStays()
    ensures Play({"DOG"}, "DOGZ") == {"DOG"}
  {
    PlaySingleton("DOG", "DOGZ");
  }

  /** Guessing D, O, G and Z with only DOG left reports 1, 1, 1 and 0. */
  lemma DogCounts(c: char)
    requires c in "DOGZ"
    ensures Occurrences(Chosen({"DOG"}, c), c) == if c == 'Z' then 0 else 1
  {
    NarrowSingleton("DOG", c);
    KeyOccurrences("DOG", c);
    OccurrencesOfThree('D', 'O', 'G', c);
  }
}
