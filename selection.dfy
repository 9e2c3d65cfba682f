/**
 * The selection stage: group the counted words by length, keep for each
 * length the word with the highest count, and list the lengths in ascending
 * order (`groupingBy(length, maxBy(count))`, sorted by key, collected into a
 * `LinkedHashMap`).
 *
 * Several words of one length can share the highest count. IsMaxResult
 * states what the stream promises whichever of them it picks; this model
 * resolves such a tie to the lexicographically smallest of them (IsBest),
 * so the result is a function of the counts alone (LengthResultUnique), and
 * any other choice agrees with it on the lengths and the counts
 * (MaxResultAgrees).
 */
module Selection {
  import opened LexOrder

  /** One row of the result: a word length and the word chosen for it. */
  datatype Entry = Entry(length: nat, word: string)

  /** The distinct lengths of the counted words. */
  function LengthsOf(m: map<string, nat>): set<nat> {
    set w | w in m :: |w|
  }

  /** The counted words of length `n`. */
  function Group(m: map<string, nat>, n: nat): set<string> {
    set w | w in m && |w| == n
  }

  /** `a` ranks at least as high as `b`: a higher count, or the same count and not later in lexicographic order. */
  predicate Outranks(m: map<string, nat>, a: string, b: string)
    requires a in m && b in m
  {
    m[a] > m[b] || (m[a] == m[b] && LexLe(a, b))
  }

  /** `w` belongs to `g` and outranks every word of `g`. */
  predicate IsTop(m: map<string, nat>, g: set<string>, w: string)
    requires g <= m.Keys
  {
    w in g && forall v :: v in g ==> Outranks(m, w, v)
  }

  /** `w` is a counted word of length `n` whose count no word of length `n` exceeds. */
  ghost predicate IsMaximal(m: map<string, nat>, n: nat, w: string) {
    && w in m
    && |w| == n
    && forall v :: v in m && |v| == n ==> m[v] <= m[w]
  }

  /** `w` is the maximal word of length `n` that comes first in lexicographic order. */
  ghost predicate IsBest(m: map<string, nat>, n: nat, w: string) {
    IsTop(m, Group(m, n), w)
  }

  function LengthSet(r: seq<Entry>): set<nat> {
    set e | e in r :: e.length
  }

  predicate StrictlyAscending(r: seq<Entry>) {
    forall i, j :: 0 <= i < j < |r| ==> r[i].length < r[j].length
  }

  /**
   * What the selection stage promises: one entry per distinct length of a
   * counted word and no other, in strictly ascending order of length, each
   * holding a word of that length with the highest count.
   */
  ghost predicate IsLengthResult(m: map<string, nat>, r: seq<Entry>) {
    && StrictlyAscending(r)
    && LengthSet(r) == LengthsOf(m)
    && AllBest(m, r)
  }

  ghost predicate AllBest(m: map<string, nat>, r: seq<Entry>) {
    forall e :: e in r ==> IsBest(m, e.length, e.word)
  }

  /**
   * The promise without the tie-break: one entry per distinct length,
   * ascending, each holding some word of that length with the highest count.
   */
  ghost predicate IsMaxResult(m: map<string, nat>, r: seq<Entry>) {
    && StrictlyAscending(r)
    && LengthSet(r) == LengthsOf(m)
    && forall e :: e in r ==> IsMaximal(m, e.length, e.word)
  }

  lemma OutranksTotal(m: map<string, nat>, a: string, b: string)
    requires a in m && b in m
    ensures Outranks(m, a, b) || Outranks(m, b, a)
  {
    LexLeTotal(a, b);
  }

  lemma OutranksTransitive(m: map<string, nat>, a: string, b: string, c: string)
    requires a in m && b in m && c in m
    requires Outranks(m, a, b) && Outranks(m, b, c)
    ensures Outranks(m, a, c)
  {
    if m[a] == m[b] == m[c] {
      LexLeTransitive(a, b, c);
    }
  }

  lemma OutranksAntisymmetric(m: map<string, nat>)
    ensures forall a, b :: a in m && b in m && Outranks(m, a, b) && Outranks(m, b, a) ==> a == b
  {
    forall a, b | a in m && b in m && Outranks(m, a, b) && Outranks(m, b, a)
      ensures a == b
    {
      LexLeAntisymmetric(a, b);
    }
  }

  /** Every non-empty set of counted words has a word that outranks all the others. */
  lemma {:induction false} TopExists(m: map<string, nat>, g: set<string>)
    requires g != {} && g <= m.Keys
    ensures exists w :: IsTop(m, g, w)
    decreases |g|
  {
    var x :| x in g;
    if g == {x} {
      OutranksTotal(m, x, x);
      assert forall v :: v in g ==> v == x;
      assert IsTop(m, g, x);
    } else {
      var rest := g - {x};
      TopExists(m, rest);
      var y :| IsTop(m, rest, y);
      OutranksTotal(m, x, y);
      if Outranks(m, x, y) {
        forall v | v in g ensures Outranks(m, x, v) {
          if v == x { OutranksTotal(m, x, x); } else { OutranksTransitive(m, x, y, v); }
        }
        assert IsTop(m, g, x);
      } else {
        assert IsTop(m, g, y);
      }
    }
  }

  /** `maxBy(comparingLong(getValue))` over one length group, ties to the lexicographically smallest. */
  function Top(m: map<string, nat>, g: set<string>): (w: string)
    requires g != {} && g <= m.Keys
    ensures w in g && forall v :: v in g ==> Outranks(m, w, v)
  {
    TopExists(m, g);
    TopUnique(m, g);
    var w :| IsTop(m, g, w);
    w
  }

  lemma TopUnique(m: map<string, nat>, g: set<string>)
    requires g <= m.Keys
    ensures forall a, b :: IsTop(m, g, a) && IsTop(m, g, b) ==> a == b
  {
    OutranksAntisymmetric(m);
  }

  predicate IsLeast(s: set<nat>, x: nat) {
    x in s && forall y :: y in s ==> x <= y
  }

  /** Every non-empty finite set of lengths has a least element. */
  lemma {:induction false} LeastExists(s: set<nat>)
    requires s != {}
    ensures exists x :: IsLeast(s, x)
    decreases |s|
  {
    var a :| a in s;
    if s == {a} {
      assert IsLeast(s, a);
    } else {
      LeastExists(s - {a});
      var b :| IsLeast(s - {a}, b);
      var x := if a < b then a else b;
      forall y | y in s ensures x <= y {
        if y != a { assert y in s - {a}; }
      }
      assert IsLeast(s, x);
    }
  }

  lemma LeastUnique(s: set<nat>)
    ensures forall a, b :: IsLeast(s, a) && IsLeast(s, b) ==> a == b
  {
  }

  /** The lengths of `s` in ascending order (the `sorted(comparingByKey())` step). */
  function SortedLengths(s: set<nat>): (r: seq<nat>)
    ensures forall n :: n in r <==> n in s
    ensures forall i, j :: 0 <= i < j < |r| ==> r[i] < r[j]
    decreases |s|
  {
    if s == {} then []
    else
      LeastExists(s);
      LeastUnique(s);
      var x :| IsLeast(s, x);
      var rest := SortedLengths(s - {x});
      assert forall i :: 0 <= i < |rest| ==> x < rest[i] by {
        forall i | 0 <= i < |rest| ensures x < rest[i] {
          assert rest[i] in rest;
        }
      }
      [x] + rest
  }

  lemma GroupNonEmpty(m: map<string, nat>, n: nat)
    requires n in LengthsOf(m)
    ensures Group(m, n) != {} && Group(m, n) <= m.Keys
  {
    var w :| w in m && |w| == n;
    assert w in Group(m, n);
  }

  /** Pairs each length with the top word of its group (the `toMap` step). */
  function Pick(m: map<string, nat>, ns: seq<nat>): (r: seq<Entry>)
    requires forall n :: n in ns ==> n in LengthsOf(m)
    ensures |r| == |ns|
    ensures forall i :: 0 <= i < |r| ==> r[i].length == ns[i] && IsBest(m, ns[i], r[i].word)
  {
    if ns == [] then []
    else
      GroupNonEmpty(m, ns[0]);
      [Entry(ns[0], Top(m, Group(m, ns[0])))] + Pick(m, ns[1..])
  }

  /** The per-length maxima of the counts, by ascending length. */
  function MaxByLength(m: map<string, nat>): (r: seq<Entry>)
    ensures IsLengthResult(m, r)
    ensures IsMaxResult(m, r)
  {
    var ns := SortedLengths(LengthsOf(m));
    var r := Pick(m, ns);
    PickLengths(m, ns);
    LengthResultIsMaxResult(m, r);
    r
  }

  /** The tie-break only narrows the choice: a best word is a maximal word. */
  lemma LengthResultIsMaxResult(m: map<string, nat>, r: seq<Entry>)
    requires IsLengthResult(m, r)
    ensures IsMaxResult(m, r)
  {
    forall e | e in r ensures IsMaximal(m, e.length, e.word) {
      forall v | v in m && |v| == e.length ensures m[v] <= m[e.word] {
        assert v in Group(m, e.length);
      }
    }
  }

  lemma PickLengths(m: map<string, nat>, ns: seq<nat>)
    requires forall n :: n in ns ==> n in LengthsOf(m)
    ensures LengthSet(Pick(m, ns)) == set n | n in ns
    ensures AllBest(m, Pick(m, ns))
  {
    var r := Pick(m, ns);
    forall e | e in r ensures e.length in ns && IsBest(m, e.length, e.word) {
      var i :| 0 <= i < |r| && r[i] == e;
    }
    forall n | n in ns ensures n in LengthSet(r) {
      var i :| 0 <= i < |ns| && ns[i] == n;
      assert r[i] in r;
    }
  }

  /** Two words that are both best for a length are the same word. */
  lemma BestUnique(m: map<string, nat>, n: nat, w1: string, w2: string)
    requires IsBest(m, n, w1) && IsBest(m, n, w2)
    ensures w1 == w2
  {
    OutranksAntisymmetric(m);
  }

  lemma AscendingTail(r: seq<Entry>)
    requires r != [] && StrictlyAscending(r)
    ensures LengthSet(r[1..]) == LengthSet(r) - {r[0].length}
    ensures forall n :: n in LengthSet(r) ==> r[0].length <= n
  {
    forall n | n in LengthSet(r) ensures r[0].length <= n {
      var e :| e in r && e.length == n;
      var i :| 0 <= i < |r| && r[i] == e;
    }
    forall e | e in r[1..] ensures e.length != r[0].length {
      var i :| 1 <= i < |r| && r[i] == e;
    }
    forall e | e in r && e.length != r[0].length ensures e in r[1..] {
      var i :| 0 <= i < |r| && r[i] == e;
    }
  }

  lemma LengthSetEmpty(r: seq<Entry>)
    ensures LengthSet(r) == {} <==> r == []
  {
    if r != [] {
      assert r[0] in r;
      assert r[0].length in LengthSet(r);
    }
  }

  /**
   * Two ascending results over the same set of lengths list the same length
   * at every position.
   */
  lemma {:induction false} LengthsAgree(r1: seq<Entry>, r2: seq<Entry>)
    requires StrictlyAscending(r1) && StrictlyAscending(r2)
    requires LengthSet(r1) == LengthSet(r2)
    ensures |r1| == |r2|
    ensures forall i :: 0 <= i < |r1| ==> r1[i].length == r2[i].length
    decreases |r1|
  {
    LengthSetEmpty(r1);
    LengthSetEmpty(r2);
    if r1 != [] {
      assert r1[0].length in LengthSet(r2) && r2[0].length in LengthSet(r1);
      AscendingTail(r1);
      AscendingTail(r2);
      var t1, t2 := r1[1..], r2[1..];
      assert StrictlyAscending(t1) && StrictlyAscending(t2);
      LengthsAgree(t1, t2);
      forall i | 1 <= i < |r1| ensures r1[i].length == r2[i].length {
        assert r1[i] == t1[i - 1] && r2[i] == t2[i - 1];
      }
    }
  }

  /**
   * The selection result is determined by the counts: any two sequences that
   * meet IsLengthResult for the same counts are equal, so MaxByLength is the
   * one answer, whatever order the counted entries are visited in.
   */
  lemma LengthResultUnique(m: map<string, nat>, r1: seq<Entry>, r2: seq<Entry>)
    requires StrictlyAscending(r1) && StrictlyAscending(r2)
    requires LengthSet(r1) == LengthSet(r2)
    requires AllBest(m, r1) && AllBest(m, r2)
    ensures r1 == r2
  {
    LengthsAgree(r1, r2);
    forall i | 0 <= i < |r1| ensures r1[i] == r2[i] {
      assert r1[i] in r1 && r2[i] in r2;
      BestUnique(m, r1[i].length, r1[i].word, r2[i].word);
    }
  }

  /**
   * Whatever word a tie is resolved to, a result that keeps the promise
   * reports the same lengths in the same order as MaxByLength, with the same
   * counts; only the choice among equally frequent words may differ.
   */
  lemma MaxResultAgrees(m: map<string, nat>, r: seq<Entry>)
    requires IsMaxResult(m, r)
    ensures |r| == |MaxByLength(m)|
    ensures forall i :: 0 <= i < |r| ==>
      && r[i].length == MaxByLength(m)[i].length
      && r[i].word in m && MaxByLength(m)[i].word in m
      && m[r[i].word] == m[MaxByLength(m)[i].word]
  {
    var best := MaxByLength(m);
    LengthsAgree(r, best);
    forall i | 0 <= i < |r|
      ensures r[i].word in m && best[i].word in m && m[r[i].word] == m[best[i].word]
    {
      assert r[i] in r && best[i] in best;
    }
  }

  /** MaxByLength is exactly the sequence that IsLengthResult describes. */
  lemma MaxByLengthCharacterized(m: map<string, nat>, r: seq<Entry>)
    ensures IsLengthResult(m, r) <==> r == MaxByLength(m)
  {
    var best := MaxByLength(m);
    if IsLengthResult(m, r) {
      LengthResultUnique(m, r, best);
    }
  }
}
