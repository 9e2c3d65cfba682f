/**
 * Gathering the page texts: one fetch task per URL, whose results are then
 * appended to one text in URL order, each followed by a space.
 *
 * The HTML retrieval itself, the thread pool and the futures are not
 * modelled: each URL is represented by how its task ended.
 */
module Fetching {

  /** What `Jsoup.connect(url).get()` followed by `body().text()` gave for one URL. */
  datatype FetchResult = Fetched(bodyText: string) | FetchError

  /**
   * How `future.get()` ended for one URL: the task's text, or an
   * InterruptedException or ExecutionException raised while waiting.
   */
  datatype FutureOutcome = Completed(result: FetchResult) | GetFailed

  /** The fetch task: the page's body text, or the empty text when the fetch failed. */
  function CallText(f: FetchResult): (t: string)
    ensures f.FetchError? ==> t == []
    ensures f.Fetched? ==> t == f.bodyText
  {
    match f
    case Fetched(t) => t
    case FetchError => ""
  }

  /** What one URL adds to the joined text: its task's text and a space, or nothing when waiting failed. */
  function Piece(o: FutureOutcome): (p: string)
    ensures p == [] <==> o.GetFailed?
    ensures o.Completed? ==> p[..|p| - 1] == CallText(o.result) && p[|p| - 1] == ' '
  {
    match o
    case Completed(f) => CallText(f) + " "
    case GetFailed => ""
  }

  /** The text the joining loop builds, URL by URL in input order. */
  function Joined(outs: seq<FutureOutcome>): (s: string)
    ensures s == [] || s[|s| - 1] == ' '
  {
    if outs == [] then ""
    else Piece(outs[0]) + Joined(outs[1..])
  }

  /** The loop `allText += future.get() + " "` over the futures, in order. */
  method JoinTexts(outs: seq<FutureOutcome>) returns (allText: string)
    ensures allText == Joined(outs)
  {
    allText := "";
    for i := 0 to |outs|
      invariant allText == Joined(outs[..i])
    {
      JoinedStep(outs, i);
      match outs[i] {
        case Completed(f) =>
          allText := allText + CallText(f) + " ";
        case GetFailed =>
      }
    }
    assert outs[..|outs|] == outs;
  }

  lemma JoinedStep(outs: seq<FutureOutcome>, i: nat)
    requires i < |outs|
    ensures Joined(outs[..i + 1]) == Joined(outs[..i]) + Piece(outs[i])
  {
    assert outs[..i + 1] == outs[..i] + [outs[i]];
    JoinedAppend(outs[..i], [outs[i]]);
    assert Joined([outs[i]]) == Piece(outs[i]) + Joined([]);
  }

  /** Joining a list of URLs is joining its two halves one after the other. */
  lemma {:induction false} JoinedAppend(xs: seq<FutureOutcome>, ys: seq<FutureOutcome>)
    ensures Joined(xs + ys) == Joined(xs) + Joined(ys)
  {
    if xs == [] {
      assert xs + ys == ys;
    } else {
      assert (xs + ys)[0] == xs[0] && (xs + ys)[1..] == xs[1..] + ys;
      JoinedAppend(xs[1..], ys);
    }
  }
}
