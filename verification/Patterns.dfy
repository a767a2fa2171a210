/**
 * The strings HangmanManager builds: the reveal key of one word for one
 * letter (makePattern), the rendering of one word against every guessed
 * letter (makePattern2), the initial all-hidden display, and the count of a
 * character in a string. Each string holds two characters per letter of the
 * word: the shown character and a separating space.
 */
module Patterns {
  import opened Lex

  /** What makePattern appends for one letter `ch` of the word when `c` is guessed. */
  function Slot(ch: char, c: char): string
  {
    if ch == c then [c, ' '] else "- "
  }

  /** makePattern(w, c): the reveal key of `w` for the guess `c`. */
  function Key(w: string, c: char): (k: string)
    ensures |k| == 2 * |w|
  {
    if w == [] then [] else Key(w[..|w| - 1], c) + Slot(w[|w| - 1], c)
  }

  /**
   * Character 2i of the key is the guess where the word has it and '-'
   * elsewhere; character 2i + 1 is always a space.
   */
  lemma {:induction false} KeyAt(w: string, c: char, j: nat)
    requires j < 2 * |w|
    ensures Key(w, c)[j] == if j % 2 == 1 then ' ' else if w[j / 2] == c then c else '-'
  {
    var n := |w| - 1;
    if j < 2 * n {
      KeyAt(w[..n], c, j);
    }
  }

  /** What makePattern2 appends for one letter `ch` of the word when `gs` have been guessed. */
  function Cell(ch: char, gs: set<char>): string
  {
    if gs == {} then [] else if ch in gs then [ch, ' '] else "- "
  }

  /**
   * makePattern2's rendering of one word: each letter shown if it has been
   * guessed, "- " otherwise; nothing at all when no letter has been guessed
   * (its inner loop over the guessed letters then never runs).
   */
  function Render(w: string, gs: set<char>): (r: string)
    ensures gs == {} ==> r == []
    ensures gs != {} ==> |r| == 2 * |w|
  {
    if w == [] then [] else Render(w[..|w| - 1], gs) + Cell(w[|w| - 1], gs)
  }

  /**
   * With some letter guessed, character 2i of the rendering is the word's
   * letter if guessed and '-' otherwise; character 2i + 1 is a space.
   */
  lemma {:induction false} RenderAt(w: string, gs: set<char>, j: nat)
    requires gs != {} && j < 2 * |w|
    ensures Render(w, gs)[j] == if j % 2 == 1 then ' ' else if w[j / 2] in gs then w[j / 2] else '-'
  {
    var n := |w| - 1;
    if j < 2 * n {
      RenderAt(w[..n], gs, j);
    }
  }

  /** The display before any guess: "- " once per letter. */
  function Blank(n: nat): (b: string)
    ensures |b| == 2 * n
    ensures forall j :: 0 <= j < |b| ==> b[j] == (if j % 2 == 1 then ' ' else '-')
  {
    if n == 0 then [] else Blank(n - 1) + "- "
  }

  /** The number of positions of `s` holding `c`. */
  function Occurrences(s: string, c: char): (n: nat)
    ensures n <= |s|
    ensures n == 0 <==> c !in s
  {
    if s == [] then 0
    else
      assert s == s[..|s| - 1] + [s[|s| - 1]];
      Occurrences(s[..|s| - 1], c) + (if s[|s| - 1] == c then 1 else 0)
  }

  /** The reveal key for `c` is the rendering against the single guessed letter `c`. */
  lemma KeyIsRender(w: string, c: char)
    ensures Key(w, c) == Render(w, {c})
  {
    forall j | 0 <= j < 2 * |w|
      ensures Key(w, c)[j] == Render(w, {c})[j]
    {
      KeyAt(w, c, j);
      RenderAt(w, {c}, j);
    }
  }

  /**
   * For a guess that is neither the placeholder nor the separator, the key
   * holds the guess exactly as often as the word does.
   */
  lemma {:induction false} KeyOccurrences(w: string, c: char)
    requires c != '-' && c != ' '
    ensures Occurrences(Key(w, c), c) == Occurrences(w, c)
  {
    if w != [] {
      var init, last := w[..|w| - 1], w[|w| - 1];
      KeyOccurrences(init, c);
      OccurrencesAppend(Key(init, c), Slot(last, c), c);
      assert Occurrences(Slot(last, c), c) == if last == c then 1 else 0 by {
        var sl := Slot(last, c);
        assert sl[..1][..0] == [];
        assert sl[..1] == [sl[0]];
      }
    }
  }

  /** Counting distributes over concatenation. */
  lemma {:induction false} OccurrencesAppend(a: string, b: string, c: char)
    ensures Occurrences(a + b, c) == Occurrences(a, c) + Occurrences(b, c)
  {
    if b != [] {
      var init := b[..|b| - 1];
      OccurrencesAppend(a, init, c);
      assert (a + b)[..|a + b| - 1] == a + init;
    } else {
      assert a + b == a;
    }
  }

  /**
   * A guess that is not the placeholder is missing from a word exactly when
   * the word's key for it reveals nothing.
   */
  lemma MissIsBlank(w: string, c: char)
    requires c != '-'
    ensures c !in w <==> Key(w, c) == Blank(|w|)
  {
    var k := Key(w, c);
    if c in w {
      var i :| 0 <= i < |w| && w[i] == c;
      KeyAt(w, c, 2 * i);
      assert k[2 * i] == c;
      assert Blank(|w|)[2 * i] == '-';
    } else {
      forall j | 0 <= j < |k|
        ensures k[j] == Blank(|w|)[j]
      {
        KeyAt(w, c, j);
        assert w[j / 2] in w;
      }
    }
  }

  /**
   * Words that every guessed letter sorts into the same group: the state the
   * candidate set keeps after each guess.
   */
  ghost predicate Consistent(ws: set<string>, gs: set<char>)
  {
    forall c, w1, w2 :: c in gs && w1 in ws && w2 in ws ==> Key(w1, c) == Key(w2, c)
  }

  /** Two words with the same key for every guessed letter render the same. */
  lemma RenderAgree(w1: string, w2: string, gs: set<char>)
    requires forall c :: c in gs ==> Key(w1, c) == Key(w2, c)
    ensures Render(w1, gs) == Render(w2, gs)
  {
    if gs != {} {
      var c0 :| c0 in gs;
      assert |Key(w1, c0)| == |Key(w2, c0)|;
      var r1, r2 := Render(w1, gs), Render(w2, gs);
      forall j | 0 <= j < |r1|
        ensures r1[j] == r2[j]
      {
        RenderAt(w1, gs, j);
        RenderAt(w2, gs, j);
        if j % 2 == 0 {
          var x, y := w1[j / 2], w2[j / 2];
          if x in gs {
            KeyAt(w1, x, j);
            KeyAt(w2, x, j);
          }
          if y in gs {
            KeyAt(w1, y, j);
            KeyAt(w2, y, j);
          }
        }
      }
    }
  }

  /**
   * makePattern2 over a whole candidate set: the rendering of the last word
   * in TreeSet order, or "" when there is no word.
   */
  ghost function Display(ws: set<string>, gs: set<char>): string
  {
    if ws == {} then "" else Render(Greatest(ws), gs)
  }

  /**
   * Over a consistent candidate set the display does not depend on which
   * word is rendered: it is the rendering of any candidate.
   */
  lemma DisplayAnyCandidate(ws: set<string>, gs: set<char>, w: string)
    requires Consistent(ws, gs) && w in ws
    ensures Display(ws, gs) == Render(w, gs)
  {
    RenderAgree(Greatest(ws), w, gs);
  }
}
