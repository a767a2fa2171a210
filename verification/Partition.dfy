/**
 * The adversarial step of HangmanManager.record as functions: the candidate
 * words grouped by reveal key (makeMap), the choice of the largest group with
 * ties going to the smallest key, and the candidate set that results.
 */
module Partition {
  import opened Lex
  import opened Patterns

  type Groups = map<string, set<string>>

  /** The distinct reveal keys of the words `ws` for the guess `c`. */
  function KeysOf(ws: set<string>, c: char): set<string>
  {
    set w | w in ws :: Key(w, c)
  }

  /** The words of `ws` whose reveal key for `c` is `k`. */
  function Members(ws: set<string>, c: char, k: string): set<string>
  {
    set w | w in ws && Key(w, c) == k
  }

  /** makeMap(c) over the words `ws`: each reveal key mapped to the words having it. */
  function GroupBy(ws: set<string>, c: char): Groups
  {
    map k | k in KeysOf(ws, c) :: Members(ws, c, k)
  }

  /**
   * The groups partition the words: every word lies in the group of its own
   * key and in no other, no group is empty, and the groups together are `ws`.
   */
  lemma GroupByPartition(ws: set<string>, c: char)
    ensures forall w :: w in ws ==> Key(w, c) in GroupBy(ws, c) && w in GroupBy(ws, c)[Key(w, c)]
    ensures forall k :: k in GroupBy(ws, c) ==> GroupBy(ws, c)[k] != {} && GroupBy(ws, c)[k] <= ws
    ensures forall k, w :: k in GroupBy(ws, c) && w in GroupBy(ws, c)[k] ==> Key(w, c) == k
    ensures ws == {} <==> GroupBy(ws, c) == map[]
  {
    var m := GroupBy(ws, c);
    forall k | k in m
      ensures m[k] != {}
    {
      var w :| w in ws && Key(w, c) == k;
      assert w in m[k];
    }
    assert forall w :: w in ws ==> Key(w, c) in KeysOf(ws, c);
  }

  lemma KeysOfInsert(ws: set<string>, w: string, c: char)
    ensures KeysOf(ws + {w}, c) == KeysOf(ws, c) + {Key(w, c)}
  {
  }

  lemma MembersInsert(ws: set<string>, w: string, c: char, k: string)
    ensures Members(ws + {w}, c, k) == Members(ws, c, k) + (if Key(w, c) == k then {w} else {})
  {
  }

  lemma MembersOutside(ws: set<string>, c: char, k: string)
    requires k !in KeysOf(ws, c)
    ensures Members(ws, c, k) == {}
  {
  }

  /** The groups of `ws` with one more word: that word joins the group of its key, or founds it. */
  lemma GroupByInsert(ws: set<string>, w: string, c: char)
    requires w !in ws
    ensures GroupBy(ws + {w}, c) ==
      var m, k := GroupBy(ws, c), Key(w, c);
      if k in m then m[k := m[k] + {w}] else m[k := {w}]
  {
    var m, k := GroupBy(ws, c), Key(w, c);
    var after := GroupBy(ws + {w}, c);
    var expected := if k in m then m[k := m[k] + {w}] else m[k := {w}];
    GroupByKeysInsert(ws, w, c);
    forall j | j in after
      ensures after[j] == expected[j]
    {
      GroupByGroupInsert(ws, w, c, j);
    }
  }

  lemma GroupByKeysInsert(ws: set<string>, w: string, c: char)
    ensures GroupBy(ws + {w}, c).Keys == GroupBy(ws, c).Keys + {Key(w, c)}
  {
    KeysOfInsert(ws, w, c);
  }

  lemma GroupByGroupInsert(ws: set<string>, w: string, c: char, j: string)
    requires j in GroupBy(ws + {w}, c)
    ensures j != Key(w, c) ==> j in GroupBy(ws, c) && GroupBy(ws + {w}, c)[j] == GroupBy(ws, c)[j]
    ensures j == Key(w, c) && j in GroupBy(ws, c) ==> GroupBy(ws + {w}, c)[j] == GroupBy(ws, c)[j] + {w}
    ensures j == Key(w, c) && j !in GroupBy(ws, c) ==> GroupBy(ws + {w}, c)[j] == {w}
  {
    KeysOfInsert(ws, w, c);
    if j != Key(w, c) {
      MembersInsert(ws, w, c, j);
    } else if j in GroupBy(ws, c) {
      MembersInsert(ws, w, c, j);
    } else {
      MembersInsert(ws, w, c, j);
      MembersOutside(ws, c, j);
    }
  }

  /**
   * `k` is the key record adopts: no group is larger than its group, and every
   * group of the same size has a key no smaller (the first maximum met while
   * walking the keys in ascending order with a strict `>`).
   */
  ghost predicate IsChoice(m: Groups, k: string)
  {
    k in m &&
    (forall j :: j in m ==> |m[j]| <= |m[k]|) &&
    (forall j :: j in m && |m[j]| == |m[k]| ==> LessEq(k, j))
  }

  lemma {:induction false} ChoiceExists(m: Groups)
    requires m != map[]
    ensures exists k :: IsChoice(m, k)
    decreases |m.Keys|
  {
    var k0 :| k0 in m;
    var rest := m - {k0};
    assert forall j :: j in m ==> j == k0 || j in rest;
    if rest == map[] {
      assert IsChoice(m, k0);
    } else {
      assert rest.Keys == m.Keys - {k0};
      ChoiceExists(rest);
      var k1 :| IsChoice(rest, k1);
      if |m[k0]| > |m[k1]| {
        assert IsChoice(m, k0);
      } else if |m[k0]| < |m[k1]| {
        assert IsChoice(m, k1);
      } else if Less(k0, k1) {
        forall j | j in m && |m[j]| == |m[k0]|
          ensures LessEq(k0, j)
        {
          if j != k0 {
            LessEqTransitive(k0, k1, j);
          }
        }
        assert IsChoice(m, k0);
      } else {
        LessTotal(k0, k1);
        assert IsChoice(m, k1);
      }
    }
  }

  /** The tie-break makes the choice unique. */
  lemma ChoiceUnique(m: Groups, a: string, b: string)
    requires IsChoice(m, a) && IsChoice(m, b)
    ensures a == b
  {
    LessEqAntisymmetric(a, b);
  }

  /** The key of the largest group, ties going to the smallest key. */
  ghost function Best(m: Groups): (k: string)
    requires m != map[]
    ensures IsChoice(m, k)
  {
    ChoiceExists(m);
    var k :| IsChoice(m, k);
    k
  }

  /** record's `maxWordPatt`: the chosen key, or "" when there is no candidate. */
  ghost function Chosen(ws: set<string>, c: char): string
  {
    if ws == {} then ""
    else
      GroupByPartition(ws, c);
      Best(GroupBy(ws, c))
  }

  /** The candidate set after record(c): `ws` retaining the chosen group, unless the key is "". */
  ghost function Narrow(ws: set<string>, c: char): set<string>
  {
    var k := Chosen(ws, c);
    if k != "" then ws * GroupBy(ws, c)[k] else ws
  }

  /** The candidate set after the guesses `cs`, in order. */
  ghost function Play(ws: set<string>, cs: seq<char>): set<string>
  {
    if cs == [] then ws else Narrow(Play(ws, cs[..|cs| - 1]), cs[|cs| - 1])
  }

  /**
   * With candidates and no empty word, record adopts exactly the chosen group:
   * a largest group, the smallest key among the largest, non-empty, inside
   * the old set.
   */
  lemma NarrowAdoptsLargest(ws: set<string>, c: char)
    requires ws != {} && forall w :: w in ws ==> w != []
    ensures Chosen(ws, c) in GroupBy(ws, c)
    ensures Narrow(ws, c) == GroupBy(ws, c)[Chosen(ws, c)]
    ensures Narrow(ws, c) != {} && Narrow(ws, c) <= ws
    ensures forall k :: k in GroupBy(ws, c) ==> |GroupBy(ws, c)[k]| <= |Narrow(ws, c)|
    ensures forall k :: k in GroupBy(ws, c) && |GroupBy(ws, c)[k]| == |Narrow(ws, c)| ==>
      LessEq(Chosen(ws, c), k)
  {
    GroupByPartition(ws, c);
    var m, k := GroupBy(ws, c), Chosen(ws, c);
    var w :| w in m[k];
    assert |Key(w, c)| > 0;
  }

  /** Every word left after record(c) has the chosen key. */
  lemma NarrowShared(ws: set<string>, c: char)
    requires forall w :: w in ws ==> w != []
    ensures forall w :: w in Narrow(ws, c) ==> Key(w, c) == Chosen(ws, c)
  {
    if ws != {} {
      NarrowAdoptsLargest(ws, c);
    }
  }

  /**
   * The count record returns is the number of times the guess occurs in every
   * remaining word, when the guess is neither '-' nor ' '.
   */
  lemma NarrowOccurrences(ws: set<string>, c: char)
    requires forall w :: w in ws ==> w != []
    requires c != '-' && c != ' '
    ensures forall w :: w in Narrow(ws, c) ==> Occurrences(Chosen(ws, c), c) == Occurrences(w, c)
  {
    NarrowShared(ws, c);
    forall w | w in Narrow(ws, c)
      ensures Occurrences(Chosen(ws, c), c) == Occurrences(w, c)
    {
      KeyOccurrences(w, c);
    }
  }

  /** A single candidate is never dropped, and its own key is the one reported. */
  lemma NarrowSingleton(w: string, c: char)
    ensures Chosen({w}, c) == Key(w, c)
    ensures Narrow({w}, c) == {w}
  {
    GroupByPartition({w}, c);
    var m := GroupBy({w}, c);
    assert Key(w, c) in m;
    assert forall k :: k in m ==> k == Key(w, c);
  }

  /** A guess that gives every candidate the same key eliminates nothing. */
  lemma NarrowUniform(ws: set<string>, c: char, k: string)
    requires ws != {} && k != []
    requires forall w :: w in ws ==> Key(w, c) == k
    ensures Chosen(ws, c) == k
    ensures Narrow(ws, c) == ws
  {
    GroupByPartition(ws, c);
    var m := GroupBy(ws, c);
    var w :| w in ws;
    assert k in m && m[k] == ws;
    assert forall j :: j in m ==> j == k;
  }

  /** The chosen key is the key of some candidate. */
  lemma ChosenIsAKey(ws: set<string>, c: char) returns (v: string)
    requires ws != {}
    ensures v in ws && Key(v, c) == Chosen(ws, c)
  {
    GroupByPartition(ws, c);
    var m := GroupBy(ws, c);
    assert Chosen(ws, c) == Best(m) && Chosen(ws, c) in m;
    v :| v in m[Chosen(ws, c)];
  }

  /** A word whose key no other candidate shares is alone in its group. */
  lemma AloneInGroup(ws: set<string>, c: char, w0: string)
    requires w0 in ws
    requires forall v :: v in ws && Key(v, c) == Key(w0, c) ==> v == w0
    ensures Key(w0, c) in GroupBy(ws, c) && GroupBy(ws, c)[Key(w0, c)] == {w0}
  {
    GroupByPartition(ws, c);
    var group := GroupBy(ws, c)[Key(w0, c)];
    assert w0 in group;
    assert forall x :: x in group ==> x == w0;
  }

  /** When no two candidates share a key, every group holds exactly one word. */
  lemma GroupsOfOne(ws: set<string>, c: char)
    requires forall u, v :: u in ws && v in ws && Key(u, c) == Key(v, c) ==> u == v
    ensures forall k :: k in GroupBy(ws, c) ==> |GroupBy(ws, c)[k]| == 1
  {
    forall k | k in GroupBy(ws, c)
      ensures |GroupBy(ws, c)[k]| == 1
    {
      var w :| w in ws && Key(w, c) == k;
      AloneInGroup(ws, c, w);
    }
  }

  /**
   * A guess that gives every candidate its own key leaves only the candidate
   * with the smallest key.
   */
  lemma NarrowDistinct(ws: set<string>, c: char, w0: string)
    requires w0 in ws && forall w :: w in ws ==> w != []
    requires forall u, v :: u in ws && v in ws && Key(u, c) == Key(v, c) ==> u == v
    requires forall w :: w in ws ==> LessEq(Key(w0, c), Key(w, c))
    ensures Chosen(ws, c) == Key(w0, c)
    ensures Narrow(ws, c) == {w0}
  {
    var k, chosen := Key(w0, c), Chosen(ws, c);
    var v := ChosenIsAKey(ws, c);
    AloneInGroup(ws, c, w0);
    AloneInGroup(ws, c, v);
    NarrowAdoptsLargest(ws, c);
    LessEqAntisymmetric(k, chosen);
  }

  /** Narrowing keeps every earlier guess's groups intact and adds the new one's. */
  lemma NarrowConsistent(ws: set<string>, gs: set<char>, c: char)
    requires Consistent(ws, gs)
    requires forall w :: w in ws ==> w != []
    ensures Consistent(Narrow(ws, c), gs + {c})
  {
    NarrowShared(ws, c);
  }

  /** Each further guess leaves a subset of the candidates before it. */
  lemma PlayShrinks(ws: set<string>, cs: seq<char>, c: char)
    ensures Play(ws, cs + [c]) <= Play(ws, cs)
    ensures |Play(ws, cs + [c])| <= |Play(ws, cs)|
  {
    assert (cs + [c])[..|cs|] == cs;
    var before := Play(ws, cs);
    assert Narrow(before, c) <= before;
    SubsetCardinality(Narrow(before, c), before);
  }

  /** Once one candidate is left, it stays for every later guess. */
  lemma {:induction false} PlaySingleton(w: string, cs: seq<char>)
    ensures Play({w}, cs) == {w}
  {
    if cs != [] {
      PlaySingleton(w, cs[..|cs| - 1]);
      NarrowSingleton(w, cs[|cs| - 1]);
    }
  }

  /** No sequence of guesses empties a candidate set without empty words. */
  lemma {:induction false} PlayNonEmpty(ws: set<string>, cs: seq<char>)
    requires ws != {} && forall w :: w in ws ==> w != []
    ensures Play(ws, cs) != {} && Play(ws, cs) <= ws
  {
    if cs != [] {
      var before := Play(ws, cs[..|cs| - 1]);
      PlayNonEmpty(ws, cs[..|cs| - 1]);
      NarrowAdoptsLargest(before, cs[|cs| - 1]);
    }
  }

  lemma {:induction false} SubsetCardinality(a: set<string>, b: set<string>)
    requires a <= b
    ensures |a| <= |b|
    decreases |b|
  {
    if a != {} {
      var x :| x in a;
      SubsetCardinality(a - {x}, b - {x});
    }
  }
}
