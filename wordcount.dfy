/**
 * The whole statistic: join the page texts, tokenize, count, and keep the
 * most frequent word of every length, by ascending length.
 */
module WordCount {
  import opened Letters
  import opened Tokenizer
  import opened Counting
  import opened Selection
  import opened Fetching

  /** The per-length most frequent words of one text. */
  function MaxOccurrences(text: string): (r: seq<Entry>)
    ensures IsLengthResult(Count(Tokenize(text)), r)
  {
    MaxByLength(Count(Tokenize(text)))
  }

  /** The words one URL contributes. */
  function PieceTokens(o: FutureOutcome): seq<string> {
    match o
    case Completed(f) => Tokenize(CallText(f))
    case GetFailed => []
  }

  /** The words of every URL, in URL order. */
  function TokensOfAll(outs: seq<FutureOutcome>): seq<string> {
    if outs == [] then []
    else PieceTokens(outs[0]) + TokensOfAll(outs[1..])
  }

  /** Tokenizing the joined text is tokenizing each page on its own, in order. */
  lemma {:induction false} TokenizeJoined(outs: seq<FutureOutcome>)
    ensures Tokenize(Joined(outs)) == TokensOfAll(outs)
  {
    if outs != [] {
      var first, rest := outs[0], outs[1..];
      TokenizeJoined(rest);
      TokenizePiece(first, Joined(rest));
    }
  }

  /** One URL's piece is tokenized on its own, apart from the text after it. */
  lemma TokenizePiece(o: FutureOutcome, rest: string)
    ensures Tokenize(Piece(o) + rest) == PieceTokens(o) + Tokenize(rest)
  {
    match o {
      case Completed(f) =>
        assert Piece(o) + rest == CallText(f) + [' '] + rest;
        TokenizeAround(CallText(f), ' ', rest);
      case GetFailed =>
        assert Piece(o) + rest == rest;
    }
  }

  lemma {:induction false} TokensOfAllAppend(xs: seq<FutureOutcome>, ys: seq<FutureOutcome>)
    ensures TokensOfAll(xs + ys) == TokensOfAll(xs) + TokensOfAll(ys)
  {
    if xs == [] {
      assert xs + ys == ys;
    } else {
      assert (xs + ys)[0] == xs[0] && (xs + ys)[1..] == xs[1..] + ys;
      TokensOfAllAppend(xs[1..], ys);
    }
  }

  /**
   * `getMaxOccurrencesByLength`: join the texts of the URLs and select, for
   * every word length present, the most frequent word of that length.
   */
  method GetMaxOccurrencesByLength(outs: seq<FutureOutcome>) returns (lengthBased: seq<Entry>)
    ensures IsLengthResult(Count(TokensOfAll(outs)), lengthBased)
    ensures forall e :: e in lengthBased ==> e.length >= 2 && IsWord(e.word) && e.word in TokensOfAll(outs)
  {
    var allText := JoinTexts(outs);
    TokenizeJoined(outs);
    lengthBased := MaxByLength(Count(Tokenize(allText)));
    ResultWords(allText);
  }

  /** Every reported word occurs in the text, is a word, and has the length it is reported under. */
  lemma ResultWords(text: string)
    ensures forall e :: e in MaxOccurrences(text) ==>
      && e.word in Tokenize(text)
      && IsWord(e.word)
      && e.length == |e.word| >= 2
  {
  }

  /** With no URL there is no text and nothing to report. */
  lemma NoUrlsNoResult()
    ensures MaxOccurrences(Joined([])) == []
  {
    LengthSetEmpty(MaxOccurrences(Joined([])));
  }

  /** The order in which the URLs are given does not change the result. */
  lemma UrlOrderIrrelevant(xs: seq<FutureOutcome>, ys: seq<FutureOutcome>)
    ensures MaxOccurrences(Joined(xs + ys)) == MaxOccurrences(Joined(ys + xs))
  {
    TokenizeJoined(xs + ys);
    TokenizeJoined(ys + xs);
    TokensOfAllAppend(xs, ys);
    TokensOfAllAppend(ys, xs);
    CountReorder(TokensOfAll(xs + ys), TokensOfAll(ys + xs));
  }

  /** A URL whose fetch or wait failed adds no word. */
  lemma FailureAddsNoWords(xs: seq<FutureOutcome>, o: FutureOutcome, ys: seq<FutureOutcome>)
    requires o == GetFailed || o == Completed(FetchError)
    ensures Tokenize(Joined(xs + [o] + ys)) == Tokenize(Joined(xs + ys))
  {
    TokenizeJoined(xs + [o] + ys);
    TokenizeJoined(xs + ys);
    FailureDropsOut(xs, o, ys);
  }

  lemma FailureDropsOut(xs: seq<FutureOutcome>, o: FutureOutcome, ys: seq<FutureOutcome>)
    requires o == GetFailed || o == Completed(FetchError)
    ensures TokensOfAll(xs + [o] + ys) == TokensOfAll(xs + ys)
  {
    TokensOfAllAppend(xs + [o], ys);
    TokensOfAllAppend(xs, [o]);
    TokensOfAllAppend(xs, ys);
    FailureTokens(o);
    assert TokensOfAll(xs) + [] == TokensOfAll(xs);
  }

  lemma FailureTokens(o: FutureOutcome)
    requires o == GetFailed || o == Completed(FetchError)
    ensures TokensOfAll([o]) == []
  {
    TokenizeEmpty();
    assert TokensOfAll([o]) == PieceTokens(o) + TokensOfAll([]);
  }

  /** A URL whose fetch or wait failed changes nothing in the result. */
  lemma FailureContributesNothing(xs: seq<FutureOutcome>, o: FutureOutcome, ys: seq<FutureOutcome>)
    requires o == GetFailed || o == Completed(FetchError)
    ensures MaxOccurrences(Joined(xs + [o] + ys)) == MaxOccurrences(Joined(xs + ys))
  {
    FailureAddsNoWords(xs, o, ys);
  }
}
