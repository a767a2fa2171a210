# Evil hangman candidate manager, modelled in Dafny

`HangmanManager` runs the adversarial version of hangman. It never commits to
a secret word. Instead it keeps every dictionary word of the chosen length
that fits the guesses so far. On each guess it sorts those candidates into
groups by their *reveal key*: for each letter, the guess where the word has
it and `-` elsewhere, each followed by a space. It then keeps the largest
group; among groups of equal size it keeps the one whose key is
lexicographically smallest. It reports how often the guess occurs in that
key.

The project has five modules:

- `Lex` (`Lex.dfy`): the order in which Java's `TreeSet<String>` and
  `TreeMap<String, _>` iterate, as defined by `String.compareTo`. This is
  `Less`/`LessEq`, with its order lemmas, the existence of a least and a
  greatest element, and `Greatest`.
- `Patterns` (`Patterns.dfy`): the strings the class builds.
  - `Key` is `makePattern`.
  - `Render` is one word's rendering in `makePattern2`.
  - `Blank` is the display before any guess.
  - `Occurrences` is the count at the end of `record`.
  - `Consistent` and `Display` state what the displayed pattern means.
- `Partition` (`Partition.dfy`): `record` as functions.
  - `GroupBy` is `makeMap`.
  - `IsChoice`/`Best` pick the largest group, with ties going to the smallest key.
  - `Chosen` is `record`'s `maxWordPatt`.
  - `Narrow` is the new candidate set.
  - `Play` applies a sequence of guesses.
- `Hangman` (`HangmanManager.dfy`): the class itself, with fields `words`,
  `guesses`, `length`, `max` and `displayPattern`.
  - Its object invariant `Valid()` holds the configuration bounds and says
    every candidate has the configured length.
  - `Valid()` also says every guessed letter puts all candidates into one
    group (`Consistent`).
  - Each method's loop is proved against the functions above.
  - Where the Java order of iteration matters, the loop takes the least
    remaining element each time. This applies to `record`'s walk over the
    sorted keys and to `makePattern2`'s walk over the sorted words, where
    the last word wins.
  - Where the order does not change the result, the loop takes any
    remaining element. This applies to `makeMap`'s walk over the words and
    to the scan of the guessed letters inside `makePattern2`.
  - Four loops are their own methods so that each proof stays small:
    `record`'s walk over the keys (`LargestGroupKey`), its count
    (`CountOf`) and the body of `makePattern2`'s walk for one word
    (`RenderWord`, `ScanGuesses`).
- `Scenarios` (`Scenarios.dfy`): worked guesses on small dictionaries.

Two behaviours of the code are worth stating outright:

- Guessing `A` on AAA, ABA, ABB, BBB gives the keys `A A A `, `A - A `,
  `A - - ` and `- - - `: a letter other than the guess is always shown as
  `-`. Every group has one word, so the smallest key `- - - ` wins, `BBB`
  remains and the count is 0 (`Scenarios.AllGroupsTie`).
- `pattern()` renders the greatest candidate in `TreeSet` order.
  `DisplayAnyCandidate` proves that every candidate renders the same,
  because the candidates are `Consistent`.

## Model

| member | source | states |
|---|---|---|
| `Lex.LessTotal` | HangmanManager.java:112 | any two distinct strings are ordered one way or the other, so the sorted `TreeMap` keys and `TreeSet` words form a total order |
| `Lex.LessEqAntisymmetric` | HangmanManager.java:112 | two strings, each at most the other, are equal, so a least or greatest element is unique |
| `Lex.LeastExists` | HangmanManager.java:117 | a non-empty set of strings has a least element, which is the next element a sorted walk yields |
| `Lex.GreatestExists` | HangmanManager.java:204 | a non-empty set of strings has a greatest element, which is the last element a sorted walk yields |
| `Lex.Greatest` | HangmanManager.java:204-224 | the word whose rendering `makePattern2` keeps: a member of the set that no member exceeds |
| `Patterns.Key` | HangmanManager.java:175-191 | the reveal key is twice as long as the word |
| `Patterns.KeyAt` | HangmanManager.java:178-188 | character 2i of the key is the guess when the word's letter i is the guess and `-` otherwise; character 2i+1 is a space |
| `Patterns.Render` | HangmanManager.java:204-224 | with no letter guessed the rendering is empty (the inner loop never runs); otherwise it is twice as long as the word |
| `Patterns.RenderAt` | HangmanManager.java:207-222 | character 2i of the rendering is the word's letter i if guessed and `-` otherwise; character 2i+1 is a space |
| `Patterns.KeyIsRender` | HangmanManager.java:175-191 | the reveal key for `c` equals the `makePattern2` rendering against the single guessed letter `c` |
| `Patterns.Blank` | HangmanManager.java:44-45 | the initial display has `-` at every even position and a space at every odd one, two characters per letter |
| `Patterns.Occurrences` | HangmanManager.java:129-132 | the count is at most the string's length, and it is zero exactly when the character does not occur |
| `Patterns.OccurrencesAppend` | HangmanManager.java:129-132 | counting distributes over concatenation |
| `Patterns.KeyOccurrences` | HangmanManager.java:129-132 | for a guess other than `-` and space, the key holds the guess exactly as often as the word does |
| `Patterns.MissIsBlank` | HangmanManager.java:180-187 | a guess other than `-` is absent from the word exactly when the word's key reveals nothing, so it equals the initial display |
| `Patterns.RenderAgree` | HangmanManager.java:200-227 | two words with equal keys for every guessed letter have equal renderings |
| `Patterns.DisplayAnyCandidate` | HangmanManager.java:200-227 | over a consistent candidate set, `makePattern2`'s result (the last word's rendering) is the rendering of every candidate |
| `Partition.GroupByPartition` | HangmanManager.java:145-165 | `makeMap`'s groups partition the words: each word is in the group of its own key and no other, no group is empty, the groups together are the words, and there are no groups exactly when there are no words |
| `Partition.GroupByInsert` | HangmanManager.java:149-162 | adding a word to `makeMap`'s walk either adds it to the existing group of its key or creates the group `{word}` |
| `Partition.ChoiceExists` | HangmanManager.java:114-124 | every non-empty grouping has a key of largest group size that is the smallest among equally large groups |
| `Partition.ChoiceUnique` | HangmanManager.java:114-124 | that key is unique: the tie-break is deterministic |
| `Partition.Best` | HangmanManager.java:114-124 | the chosen key has a group no smaller than any other, and it is no larger than any key with an equally large group |
| `Partition.NarrowAdoptsLargest` | HangmanManager.java:112-127 | over non-empty candidates of positive length, `record` keeps exactly the chosen group: non-empty, inside the old set, at least as large as every group, and chosen over every equally large group by the smaller key |
| `Partition.NarrowShared` | HangmanManager.java:126-127 | after `record(c)` every remaining word has the chosen key for `c` |
| `Partition.NarrowOccurrences` | HangmanManager.java:126-132 | the returned count equals the number of positions holding the guess in every remaining word, for a guess other than `-` and space |
| `Partition.NarrowSingleton` | HangmanManager.java:112-127 | a single candidate always stays, and its own key is the one chosen |
| `Partition.NarrowUniform` | HangmanManager.java:112-127 | a guess that gives every candidate the same key eliminates nothing and chooses that key |
| `Partition.GroupsOfOne` | HangmanManager.java:145-165 | when no two candidates share a key, every group holds exactly one word |
| `Partition.ChosenIsAKey` | HangmanManager.java:117-123 | the chosen key is the key of some candidate |
| `Partition.AloneInGroup` | HangmanManager.java:149-162 | a word whose key no other candidate shares forms a group by itself |
| `Partition.NarrowDistinct` | HangmanManager.java:112-127 | when every candidate has its own key, only the candidate with the smallest key remains |
| `Partition.NarrowConsistent` | HangmanManager.java:108-127 | after `record(c)` every letter guessed so far, `c` included, still puts all candidates into one group |
| `Partition.PlayShrinks` | HangmanManager.java:126-127 | each further guess leaves a subset of the candidates before it, and so no more of them |
| `Partition.PlaySingleton` | HangmanManager.java:126-127 | once one word is left it stays for every later sequence of guesses |
| `Partition.PlayNonEmpty` | HangmanManager.java:126-127 | no sequence of guesses empties a non-empty candidate set of non-empty words |
| `Hangman.HangmanManager.constructor` | HangmanManager.java:28-52 | for `length >= 1` and `max >= 0`: the candidates are exactly the dictionary words of that length, no letter is guessed, the initial display is `- ` per letter, and the invariant holds |
| `Hangman.HangmanManager.Create` | HangmanManager.java:35-36 | construction fails with `IllegalArgument` exactly when `length < 1` or `max < 0`; otherwise it yields a fresh valid manager in the constructor's initial state |
| `Hangman.HangmanManager.Words` | HangmanManager.java:60-63 | every current candidate has the configured length, and the guessed letters keep the candidates in one group |
| `Hangman.HangmanManager.GuessesLeft` | HangmanManager.java:71-74 | the count never exceeds the budget, equals it exactly before any guess, and is negative exactly when more distinct letters were guessed than the budget allows |
| `Hangman.HangmanManager.Guesses` | HangmanManager.java:81-84 | the number of guessed letters is the budget minus the guesses left |
| `Hangman.HangmanManager.Pattern` | HangmanManager.java:92-98 | before any guess it is `- ` once per letter; afterwards it is the greatest candidate's rendering, which equals every candidate's rendering |
| `Hangman.HangmanManager.Record` | HangmanManager.java:108-135 | adds the guess, which lowers the guesses left by one only for a new letter; leaves `Narrow(old words, guess)`, a subset that is non-empty when the old set was and all of whose words share the chosen key; returns the count of the guess in the chosen key; keeps the invariant |
| `Hangman.HangmanManager.MakeMap` | HangmanManager.java:145-165 | the map built by insertion is the partition `GroupBy` of the current words |
| `Hangman.HangmanManager.MakePattern` | HangmanManager.java:175-191 | the string built by `+=` is the reveal key `Key(word, c)` |
| `Hangman.HangmanManager.MakePattern2` | HangmanManager.java:200-227 | the result is the rendering of the greatest candidate, or `""` with no candidate; under the invariant it is the rendering of every candidate |
| `Hangman.RenderWord` | HangmanManager.java:206-223 | one pass of `makePattern2`'s word loop builds the word's rendering |
| `Hangman.ScanGuesses` | HangmanManager.java:209-222 | scanning the guessed letters for one letter of the word appends that letter and a space on a match, `- ` once the last letter fails to match, and nothing with no guessed letter |
| `Hangman.LargestGroupKey` | HangmanManager.java:114-124 | the walk over sorted keys with a strict `>` returns the key of a largest group, the smallest among ties, or `""` for an empty map |
| `Hangman.CountOf` | HangmanManager.java:129-132 | the counting loop returns the number of positions holding the guess |
| `Scenarios.AllGroupsTie` | HangmanManager.java:112-132 | guessing `A` on AAA, ABA, ABB, BBB: every group has one word, the key `- - - ` wins, BBB remains, and the count is 0 |
| `Scenarios.OneGroup` | HangmanManager.java:112-132 | guessing `C` on CAT, COT, CUT, CAB: all share `C - - `, nothing is eliminated, and the count is 1 |
| `Scenarios.NoCandidates` | HangmanManager.java:126-132 | with no candidate a guess leaves none and returns 0 |
| `Scenarios.DogStays` | HangmanManager.java:112-127 | with only DOG left, the guesses D, O, G, Z keep it |
| `Scenarios.DogCounts` | HangmanManager.java:129-132 | with only DOG left, the guesses D, O, G, Z return 1, 1, 1 and 0 |

## Left out

- The driver loop, console I/O and loading the dictionary file are not part of this model. The dictionary is a `seq<string>` given to the constructor.
- `words()` and `guesses()` return the live `TreeSet` objects in Java, so callers could change the manager's state through them. The model returns values and does not model that aliasing.
- `TreeSet` and `TreeMap` are modelled as Dafny `set` and `map`. The `String` collections (the candidate words and the keys of `makeMap`'s result) iterate in the order given by `Lex.Less`; the order of `charsSet`, a `TreeSet<Character>`, is not modelled, and `ScanGuesses` takes any remaining letter because its result does not depend on the order. Their balancing and iterators are library code and are not modelled.
- `IllegalArgumentException` is modelled in two ways: as the constructor's precondition, and as the `IllegalArgument` result of `HangmanManager.Create`. Exception propagation itself is not modelled.
- Java `char` is a UTF-16 code unit and `String.compareTo` compares code units. Dafny `char` is a Unicode scalar value. The two orders differ only between surrogate code units and characters from U+E000 upward, and strings are not normalised or case-folded.
- `Patterns.KeyOccurrences`, `Partition.NarrowOccurrences`: relate the returned count to the word only for guesses other than `-` and space. For those two characters the count is still modelled literally, as the occurrences in the key, as `record` computes it.
- Java `int` is 32-bit. The model uses unbounded integers. `max - charsSet.size()` cannot overflow for `max >= 0`, and the count is at most twice the word length.
- `length`, `max` and `displayPattern` are `const` fields. The Java fields are not `final`, but no method assigns them after construction.
