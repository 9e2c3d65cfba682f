/**
 * Worked examples of the whole statistic on small texts, including a tie
 * between two words of one length. Each text is given as its words and the
 * spaces between them.
 *
 * The words enter as parameters pinned down by `requires w1 == "Cat"` and the
 * like rather than as literals: applied to a string literal, Tokenize and
 * Count would be unfolded character by character, which is far too costly.
 */
module Scenarios {
  import opened Letters
  import opened Tokenizer
  import opened Counting
  import opened LexOrder
  import opened Selection
  import opened Fetching
  import opened WordCount

  /** A letter run followed by a space: the run contributes its word, if long enough, before the words of the rest. */
  lemma Spaced(a: string, b: string, s: string)
    requires AllLetters(a) && s == a + " " + b
    ensures Tokenize(s) == (if |a| >= 2 then [UpperWord(a)] else []) + Tokenize(b)
  {
    assert s == a + [' '] + b;
    TokenizeAround(a, ' ', b);
    TokenizeLetters(a);
  }

  lemma LastWord(a: string)
    requires AllLetters(a) && |a| >= 2
    ensures Tokenize(a) == [UpperWord(a)]
  {
    TokenizeLetters(a);
  }

  /** "Cat cat dog" splits into CAT, CAT and DOG. */
  lemma CatCatDogTokens(w1: string, w2: string, w3: string, text: string)
    requires w1 == "Cat" && w2 == "cat" && w3 == "dog"
    requires text == w1 + " " + w2 + " " + w3
    ensures Tokenize(text) == ["CAT", "CAT", "DOG"]
  {
    var tail := w2 + " " + w3;
    assert text == w1 + " " + tail;
    Spaced(w1, tail, text);
    Spaced(w2, w3, tail);
    LastWord(w3);
    assert UpperWord(w1) == "CAT" && UpperWord(w2) == "CAT" && UpperWord(w3) == "DOG";
  }

  lemma CatCatDogCounts(ws: seq<string>)
    requires ws == ["CAT", "CAT", "DOG"]
    ensures Count(ws).Keys == {"CAT", "DOG"} && Count(ws)["CAT"] == 2 && Count(ws)["DOG"] == 1
  {
    assert multiset(ws)["CAT"] == 2 && multiset(ws)["DOG"] == 1;
  }

  lemma CatCatDogResult(m: map<string, nat>)
    requires m.Keys == {"CAT", "DOG"} && m["CAT"] == 2 && m["DOG"] == 1
    ensures MaxByLength(m) == [Entry(3, "CAT")]
  {
    var r := [Entry(3, "CAT")];
    assert LengthsOf(m) == {3} by {
      assert |"CAT"| == 3 && |"DOG"| == 3;
    }
    assert LengthSet(r) == {3};
    LexLeTotal("CAT", "CAT");
    assert IsBest(m, 3, "CAT");
    MaxByLengthCharacterized(m, r);
  }

  /** "Cat cat dog": CAT occurs twice and DOG once, both of length 3, so only CAT is reported. */
  lemma CatCatDog(w1: string, w2: string, w3: string, text: string)
    requires w1 == "Cat" && w2 == "cat" && w3 == "dog"
    requires text == w1 + " " + w2 + " " + w3
    ensures MaxOccurrences(text) == [Entry(3, "CAT")]
  {
    CatCatDogTokens(w1, w2, w3, text);
    CatCatDogCounts(Tokenize(text));
    CatCatDogResult(Count(Tokenize(text)));
  }

  /** "a bb ccc dd" splits into BB, CCC and DD: "a" is too short. */
  lemma TieTokens(w1: string, w2: string, w3: string, w4: string, text: string)
    requires w1 == "a" && w2 == "bb" && w3 == "ccc" && w4 == "dd"
    requires text == w1 + " " + w2 + " " + w3 + " " + w4
    ensures Tokenize(text) == ["BB", "CCC", "DD"]
  {
    var t2 := w2 + " " + w3 + " " + w4;
    assert text == w1 + " " + t2;
    Spaced(w1, t2, text);
    TieTail(w2, w3, w4, t2);
  }

  lemma TieTail(w2: string, w3: string, w4: string, t2: string)
    requires w2 == "bb" && w3 == "ccc" && w4 == "dd"
    requires t2 == w2 + " " + w3 + " " + w4
    ensures Tokenize(t2) == ["BB", "CCC", "DD"]
  {
    var t3 := w3 + " " + w4;
    assert t2 == w2 + " " + t3;
    Spaced(w2, t3, t2);
    Spaced(w3, w4, t3);
    LastWord(w4);
    assert UpperWord(w2) == "BB" && UpperWord(w3) == "CCC" && UpperWord(w4) == "DD";
  }

  lemma TieCounts(ws: seq<string>)
    requires ws == ["BB", "CCC", "DD"]
    ensures Count(ws).Keys == {"BB", "CCC", "DD"}
    ensures Count(ws)["BB"] == 1 && Count(ws)["CCC"] == 1 && Count(ws)["DD"] == 1
  {
    assert multiset(ws)["BB"] == 1 && multiset(ws)["CCC"] == 1 && multiset(ws)["DD"] == 1;
  }

  lemma TieBest(m: map<string, nat>)
    requires m.Keys == {"BB", "CCC", "DD"} && m["BB"] == 1 && m["CCC"] == 1 && m["DD"] == 1
    ensures IsBest(m, 2, "BB") && IsBest(m, 3, "CCC")
  {
    LexLeTotal("BB", "BB");
    LexLeTotal("CCC", "CCC");
    assert LexLe("BB", "DD");
  }

  lemma TieLengths(m: map<string, nat>)
    requires m.Keys == {"BB", "CCC", "DD"}
    ensures LengthsOf(m) == {2, 3}
  {
    assert |"BB"| == 2 && |"CCC"| == 3 && |"DD"| == 2;
  }

  lemma TieResult(m: map<string, nat>)
    requires m.Keys == {"BB", "CCC", "DD"} && m["BB"] == 1 && m["CCC"] == 1 && m["DD"] == 1
    ensures MaxByLength(m) == [Entry(2, "BB"), Entry(3, "CCC")]
  {
    var r := [Entry(2, "BB"), Entry(3, "CCC")];
    TieLengths(m);
    assert LengthSet(r) == {2, 3};
    TieBest(m);
    assert IsLengthResult(m, r);
    MaxByLengthCharacterized(m, r);
  }

  /** "a bb ccc dd": BB and DD tie at length 2 and the lexicographically smaller BB is reported. */
  lemma TieAtLengthTwo(w1: string, w2: string, w3: string, w4: string, text: string)
    requires w1 == "a" && w2 == "bb" && w3 == "ccc" && w4 == "dd"
    requires text == w1 + " " + w2 + " " + w3 + " " + w4
    ensures MaxOccurrences(text) == [Entry(2, "BB"), Entry(3, "CCC")]
  {
    TieTokens(w1, w2, w3, w4, text);
    TieCounts(Tokenize(text));
    TieResult(Count(Tokenize(text)));
  }

  lemma HelloWorldTokens(w1: string, w2: string, text: string)
    requires w1 == "Hello" && w2 == "world" && text == w1 + " " + w2
    ensures Tokenize(text) == ["HELLO", "WORLD"]
  {
    Spaced(w1, w2, text);
    LastWord(w2);
    assert UpperWord(w1) == "HELLO" && UpperWord(w2) == "WORLD";
  }

  /** The words of a page that gave "Hello world" followed by a failed one. */
  lemma HelloWorldJoined(w1: string, w2: string, outs: seq<FutureOutcome>)
    requires w1 == "Hello" && w2 == "world"
    requires outs == [Completed(Fetched(w1 + " " + w2)), Completed(FetchError)]
    ensures Tokenize(Joined(outs)) == ["HELLO", "WORLD"]
  {
    TokenizeJoined(outs);
    assert outs[1..] == [outs[1]];
    FailureTokens(outs[1]);
    assert TokensOfAll(outs) == PieceTokens(outs[0]) + TokensOfAll(outs[1..]);
    HelloWorldTokens(w1, w2, w1 + " " + w2);
  }

  lemma HelloWorldCounts(ws: seq<string>)
    requires ws == ["HELLO", "WORLD"]
    ensures Count(ws).Keys == {"HELLO", "WORLD"} && Count(ws)["HELLO"] == 1 && Count(ws)["WORLD"] == 1
  {
    assert multiset(ws)["HELLO"] == 1 && multiset(ws)["WORLD"] == 1;
  }

  lemma HelloWorldResult(m: map<string, nat>)
    requires m.Keys == {"HELLO", "WORLD"} && m["HELLO"] == 1 && m["WORLD"] == 1
    ensures MaxByLength(m) == [Entry(5, "HELLO")]
  {
    var r := [Entry(5, "HELLO")];
    assert LengthsOf(m) == {5} by {
      assert |"HELLO"| == 5 && |"WORLD"| == 5;
    }
    assert LengthSet(r) == {5};
    LexLeTotal("HELLO", "HELLO");
    assert LexLe("HELLO", "WORLD");
    assert IsBest(m, 5, "HELLO");
    MaxByLengthCharacterized(m, r);
  }

  /**
   * Two URLs, the first giving "Hello world" and the second failing: only
   * the first page counts, and HELLO wins its tie with WORLD at length 5.
   */
  lemma HelloWorldOneFailure(w1: string, w2: string, outs: seq<FutureOutcome>)
    requires w1 == "Hello" && w2 == "world"
    requires outs == [Completed(Fetched(w1 + " " + w2)), Completed(FetchError)]
    ensures MaxOccurrences(Joined(outs)) == [Entry(5, "HELLO")]
  {
    HelloWorldJoined(w1, w2, outs);
    HelloWorldCounts(Tokenize(Joined(outs)));
    HelloWorldResult(Count(Tokenize(Joined(outs))));
  }
}
