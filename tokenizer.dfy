/**
 * The tokenizing stage of the pipeline: split the joined text at every
 * non-letter character, drop fragments shorter than two characters and
 * uppercase the rest.
 */
module Tokenizer {
  import opened Letters

  /**
   * The delimiters of `s`, in the order of `s`: its non-letter characters
   * (DelimsExact, SplitRoundTrip).
   */
  function Delims(s: string): (ds: string)
    ensures forall i :: 0 <= i < |ds| ==> !IsLetter(ds[i])
  {
    if s == [] then []
    else (if IsLetter(s[0]) then [] else [s[0]]) + Delims(s[1..])
  }

  /** Every non-letter of `s` is a delimiter, as often as it occurs in `s`. */
  lemma {:induction false} DelimsExact(s: string)
    ensures forall c :: !IsLetter(c) ==> multiset(Delims(s))[c] == multiset(s)[c]
  {
    if s != [] {
      DelimsExact(s[1..]);
      assert s == [s[0]] + s[1..];
    }
  }

  /**
   * `s.split("(\\P{L})")`: the maximal letter runs between delimiters,
   * including the empty fragments that sit between two adjacent delimiters
   * and at both ends of `s`. (Java drops the trailing empty fragments; that
   * makes no difference once fragments shorter than two are dropped.)
   */
  function Split(s: string): (frags: seq<string>)
    ensures |frags| == |Delims(s)| + 1
    ensures forall f :: f in frags ==> AllLetters(f)
  {
    if s == [] then [[]]
    else
      var rest := Split(s[1..]);
      if IsLetter(s[0]) then
        assert rest[0] in rest;
        assert forall f :: f in rest[1..] ==> f in rest;
        [[s[0]] + rest[0]] + rest[1..]
      else [[]] + rest
  }

  /** Puts the fragments back together with the delimiters between them. */
  function Rejoin(frags: seq<string>, ds: string): string
    requires |frags| == |ds| + 1
  {
    if ds == [] then frags[0]
    else frags[0] + [ds[0]] + Rejoin(frags[1..], ds[1..])
  }

  /** The filter and map steps: keep fragments of length two or more, uppercased. */
  function Words(frags: seq<string>): (ws: seq<string>)
    ensures |ws| <= |frags|
    ensures forall w :: w in ws ==> exists f :: f in frags && |f| >= 2 && w == UpperWord(f)
  {
    if frags == [] then []
    else (if |frags[0]| >= 2 then [UpperWord(frags[0])] else []) + Words(frags[1..])
  }

  /** No fragment of two or more letters is lost: its upper case is among the words. */
  lemma {:induction false} WordsComplete(frags: seq<string>)
    ensures forall f :: f in frags && |f| >= 2 ==> UpperWord(f) in Words(frags)
  {
    if frags != [] {
      WordsComplete(frags[1..]);
      assert forall f :: f in frags ==> f == frags[0] || f in frags[1..];
    }
  }

  /**
   * The word sequence that reaches the counting stage: the uppercased
   * fragments of two or more letters (all of them, by WordsComplete), each
   * of them a word.
   */
  function Tokenize(s: string): (ws: seq<string>)
    ensures forall w :: w in ws ==> IsWord(w)
  {
    Words(Split(s))
  }

  /** Split loses nothing: the fragments and delimiters rebuild the text. */
  lemma {:induction false} SplitRoundTrip(s: string)
    ensures Rejoin(Split(s), Delims(s)) == s
  {
    if s != [] {
      SplitRoundTrip(s[1..]);
      var rest, ds := Split(s[1..]), Delims(s[1..]);
      if IsLetter(s[0]) {
        assert Delims(s) == ds;
        RejoinConsHead(s[0], rest, ds);
        assert [s[0]] + s[1..] == s;
      } else {
        assert Delims(s) == [s[0]] + ds;
        assert Rejoin(Split(s), Delims(s)) == [] + [s[0]] + Rejoin(rest, ds);
        assert [s[0]] + s[1..] == s;
      }
    }
  }

  lemma {:induction false} RejoinConsHead(c: char, frags: seq<string>, ds: string)
    requires |frags| == |ds| + 1
    ensures Rejoin([[c] + frags[0]] + frags[1..], ds) == [c] + Rejoin(frags, ds)
  {
    var g := [[c] + frags[0]] + frags[1..];
    assert g[1..] == frags[1..];
  }

  /** A run of letters is a single fragment with no delimiter. */
  lemma {:induction false} SplitLetters(f: string)
    requires AllLetters(f)
    ensures Split(f) == [f] && Delims(f) == []
  {
    if f != [] {
      SplitLetters(f[1..]);
      assert [f[0]] + f[1..] == f;
    }
  }

  /** Splitting at a delimiter: the fragments on each side stay apart. */
  lemma {:induction false} SplitAround(a: string, d: char, b: string)
    requires !IsLetter(d)
    ensures Split(a + [d] + b) == Split(a) + Split(b)
  {
    var s := a + [d] + b;
    if a == [] {
      assert s[1..] == b;
    } else {
      assert s[0] == a[0] && s[1..] == a[1..] + [d] + b;
      SplitAround(a[1..], d, b);
      var ra, rb := Split(a[1..]), Split(b);
      if IsLetter(a[0]) {
        assert (ra + rb)[0] == ra[0];
        assert (ra + rb)[1..] == ra[1..] + rb;
        assert Split(s) == [[a[0]] + ra[0]] + (ra[1..] + rb);
      } else {
        assert Split(s) == [[]] + (ra + rb);
      }
    }
  }

  lemma {:induction false} DelimsAround(a: string, d: char, b: string)
    requires !IsLetter(d)
    ensures Delims(a + [d] + b) == Delims(a) + [d] + Delims(b)
  {
    var s := a + [d] + b;
    if a == [] {
      assert s[1..] == b;
    } else {
      assert s[0] == a[0] && s[1..] == a[1..] + [d] + b;
      DelimsAround(a[1..], d, b);
    }
  }

  /**
   * The converse of SplitRoundTrip: letter-only fragments joined by
   * delimiters split back into exactly those fragments and delimiters.
   */
  lemma {:induction false} SplitRejoin(frags: seq<string>, ds: string)
    requires |frags| == |ds| + 1
    requires forall f :: f in frags ==> AllLetters(f)
    requires forall i :: 0 <= i < |ds| ==> !IsLetter(ds[i])
    ensures Split(Rejoin(frags, ds)) == frags
    ensures Delims(Rejoin(frags, ds)) == ds
  {
    assert frags[0] in frags;
    SplitLetters(frags[0]);
    if ds != [] {
      assert forall f :: f in frags[1..] ==> f in frags;
      SplitRejoin(frags[1..], ds[1..]);
      SplitRejoinStep(frags, ds);
    }
  }

  lemma SplitRejoinStep(frags: seq<string>, ds: string)
    requires |frags| == |ds| + 1 && ds != []
    requires AllLetters(frags[0]) && !IsLetter(ds[0])
    requires Split(Rejoin(frags[1..], ds[1..])) == frags[1..]
    requires Delims(Rejoin(frags[1..], ds[1..])) == ds[1..]
    ensures Split(Rejoin(frags, ds)) == frags
    ensures Delims(Rejoin(frags, ds)) == ds
  {
    var rest := Rejoin(frags[1..], ds[1..]);
    SplitLetters(frags[0]);
    SplitAround(frags[0], ds[0], rest);
    DelimsAround(frags[0], ds[0], rest);
    assert [frags[0]] + frags[1..] == frags;
    assert [ds[0]] + ds[1..] == ds;
  }

  lemma {:induction false} WordsAppend(p: seq<string>, q: seq<string>)
    ensures Words(p + q) == Words(p) + Words(q)
  {
    if p != [] {
      assert (p + q)[0] == p[0] && (p + q)[1..] == p[1..] + q;
      WordsAppend(p[1..], q);
      var h := if |p[0]| >= 2 then [UpperWord(p[0])] else [];
      assert Words(p + q) == h + Words(p[1..] + q);
    } else {
      assert p + q == q;
    }
  }

  /** Tokenizing across a delimiter is tokenizing each side. */
  lemma TokenizeAround(a: string, d: char, b: string)
    requires !IsLetter(d)
    ensures Tokenize(a + [d] + b) == Tokenize(a) + Tokenize(b)
  {
    SplitAround(a, d, b);
    WordsAppend(Split(a), Split(b));
  }

  /** A run of letters is one word when it has two or more letters, and none otherwise. */
  lemma TokenizeLetters(f: string)
    requires AllLetters(f)
    ensures Tokenize(f) == if |f| >= 2 then [UpperWord(f)] else []
  {
    SplitLetters(f);
  }

  /** The empty text has no words. */
  lemma TokenizeEmpty()
    ensures Tokenize([]) == []
  {
  }
}
