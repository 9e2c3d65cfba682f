/**
 * The counting stage: `groupingBy(identity(), counting())` over the word
 * sequence, i.e. a map from each distinct word to its number of occurrences.
 */
module Counting {

  /**
   * Counts are built one word at a time, the last word of the sequence
   * added to the counts of the words before it; the result does not depend
   * on that order (CountReorder).
   */
  function Count(ws: seq<string>): (m: map<string, nat>)
    ensures forall w :: w in m <==> w in ws
    ensures forall w :: w in m ==> m[w] == multiset(ws)[w]
  {
    if ws == [] then map[]
    else
      var init, w := ws[..|ws| - 1], ws[|ws| - 1];
      assert ws == init + [w];
      var m := Count(init);
      m[w := (if w in m then m[w] else 0) + 1]
  }

  /** Words with the same occurrences, in any order, get the same counts. */
  lemma CountReorder(a: seq<string>, b: seq<string>)
    requires multiset(a) == multiset(b)
    ensures Count(a) == Count(b)
  {
    forall w ensures w in a <==> w in b {
      assert w in a <==> w in multiset(a);
      assert w in b <==> w in multiset(b);
    }
  }

  /** Every counted word occurs at least once. */
  lemma CountPositive(ws: seq<string>)
    ensures forall w :: w in Count(ws) ==> Count(ws)[w] >= 1
  {
    forall w | w in Count(ws) ensures Count(ws)[w] >= 1 {
      assert w in multiset(ws);
    }
  }
}
