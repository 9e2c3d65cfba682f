# WordCount — a Dafny model of the per-length word statistic

WordCount reads a list of web page URLs, fetches the visible text of every
page, joins the texts, splits them into words, and reports for every word
length the word of that length that occurs most often, by ascending length.

This project models the computing part of `WordCountMain`:

* **Fetching** — the loop that joins the per-URL texts in URL order, each
  followed by one space (`JoinTexts`, specified by `Joined`). Each URL is
  represented by how its task ended: the page text, a failed fetch (which
  the task turns into the empty text), or a failure while waiting for the
  task (which adds nothing, not even the space).
* **Letters** — the letter test behind `\P{L}` and the per-character upper
  case.
* **Tokenizer** — the split at every non-letter character (`Split`, with its
  delimiters `Delims` and the inverse `Rejoin`), the filter that drops
  fragments shorter than two characters and the upper-casing (`Words`,
  `Tokenize`).
* **Counting** — the occurrence count of every distinct word (`Count`).
* **LexOrder** and **Selection** — grouping the counted words by length,
  keeping the most frequent word per length, and listing the lengths in
  ascending order (`MaxByLength`). `IsLengthResult` states what a correct
  answer is; `LengthResultUnique` shows there is exactly one.
* **WordCount** — the whole pipeline (`GetMaxOccurrencesByLength`,
  `MaxOccurrences`) and its end-to-end properties.
* **Scenarios** — worked examples: "Cat cat dog", "a bb ccc dd", and a page
  "Hello world" followed by a failed URL.

Tie-break: when several words of one length share the highest count, the
Java code returns whichever `maxBy` meets first in a parallel stream over a
`HashMap`, which is not determined. The model picks the lexicographically
smallest of them (by character code). `IsMaxResult` states the promise
without that rule (each listed word has a count no other word of its length
exceeds); `MaxByLength` meets it, and `MaxResultAgrees` shows that any answer
meeting it has the same lengths, in the same order, with the same counts.
The properties that name the chosen word itself (`IsBest`, `Top`,
`LengthResultUnique`) depend on the fixed rule.

## Model

| member | source | states |
|---|---|---|
| Letters.IsLetter | src/main/java/wordCount/WordCountMain.java:39 | among ASCII characters exactly `A`-`Z` and `a`-`z` are letters, so digits, spaces and punctuation are delimiters; no letter lies beyond Latin-1 |
| Letters.Upper | src/main/java/wordCount/WordCountMain.java:47 | a non-letter is left unchanged; a letter stays a letter and is never an ASCII lower-case letter afterwards |
| Letters.UpperIdempotent | src/main/java/wordCount/WordCountMain.java:47 | upper-casing twice changes nothing |
| Letters.UpperWord | src/main/java/wordCount/WordCountMain.java:47 | upper-casing a word keeps its length, and a word of letters becomes a word of upper-case letters |
| Tokenizer.Delims | src/main/java/wordCount/WordCountMain.java:39 | every delimiter is a non-letter character |
| Tokenizer.DelimsExact | src/main/java/wordCount/WordCountMain.java:39-44 | every non-letter of the text is a delimiter, as often as it occurs in the text; with Delims and SplitRoundTrip, the delimiters are exactly the non-letters, in order |
| Tokenizer.Split | src/main/java/wordCount/WordCountMain.java:39-44 | splitting gives one more fragment than there are delimiters, and no fragment contains a non-letter |
| Tokenizer.SplitRoundTrip | src/main/java/wordCount/WordCountMain.java:44 | the fragments rejoined with the delimiters give back the text: the split loses nothing |
| Tokenizer.SplitRejoin | src/main/java/wordCount/WordCountMain.java:44 | letter-only fragments joined by non-letters split back into exactly those fragments and delimiters (the converse round trip) |
| Tokenizer.SplitLetters | src/main/java/wordCount/WordCountMain.java:44 | a text of letters only is one fragment with no delimiter |
| Tokenizer.SplitAround | src/main/java/wordCount/WordCountMain.java:44 | a split across one delimiter is the split of the part before it followed by the split of the part after it |
| Tokenizer.DelimsAround | src/main/java/wordCount/WordCountMain.java:44 | the delimiters across one delimiter are those before it, it, and those after it |
| Tokenizer.Words | src/main/java/wordCount/WordCountMain.java:45-47 | every word kept is the upper case of a fragment of length two or more, and no more words than fragments are kept |
| Tokenizer.WordsComplete | src/main/java/wordCount/WordCountMain.java:46-47 | no fragment of length two or more is dropped: its upper case is among the words |
| Tokenizer.WordsAppend | src/main/java/wordCount/WordCountMain.java:45-47 | filtering and upper-casing fragment lists distributes over concatenation, keeping order |
| Tokenizer.Tokenize | src/main/java/wordCount/WordCountMain.java:39-47 | every token that reaches the count has at least two characters, all letters, all upper case |
| Tokenizer.TokenizeAround | src/main/java/wordCount/WordCountMain.java:39-47 | tokenizing a text with a delimiter in it is tokenizing each side and concatenating |
| Tokenizer.TokenizeLetters | src/main/java/wordCount/WordCountMain.java:44-47 | a letter run is one uppercased word if it has at least two letters, and no word otherwise |
| Tokenizer.TokenizeEmpty | src/main/java/wordCount/WordCountMain.java:44-46 | the empty text yields no word |
| Counting.Count | src/main/java/wordCount/WordCountMain.java:48 | the counted words are exactly the words of the sequence, and each count is the word's number of occurrences |
| Counting.CountReorder | src/main/java/wordCount/WordCountMain.java:45-48 | two word sequences with the same occurrences in any order have the same counts |
| Counting.CountPositive | src/main/java/wordCount/WordCountMain.java:48 | every counted word has a count of at least one |
| LexOrder.LexLeTotal | src/main/java/wordCount/WordCountMain.java:56 | the tie-break order relates every two words |
| LexOrder.LexLeAntisymmetric | src/main/java/wordCount/WordCountMain.java:56 | two words each not after the other are equal, so the tie-break names one word |
| LexOrder.LexLeTransitive | src/main/java/wordCount/WordCountMain.java:56 | the tie-break order is transitive |
| Selection.TopExists | src/main/java/wordCount/WordCountMain.java:56 | every non-empty group of counted words has a word that outranks all others (highest count, then tie-break) |
| Selection.Top | src/main/java/wordCount/WordCountMain.java:54-56 | the chosen word belongs to the group and has a count at least that of every word in it, ties resolved lexicographically |
| Selection.LeastExists | src/main/java/wordCount/WordCountMain.java:58 | every non-empty set of lengths has a least element |
| Selection.SortedLengths | src/main/java/wordCount/WordCountMain.java:57-58 | the sorted lengths hold exactly the given lengths, in strictly ascending order |
| Selection.GroupNonEmpty | src/main/java/wordCount/WordCountMain.java:54-55 | every observed length has at least one counted word |
| Selection.Pick | src/main/java/wordCount/WordCountMain.java:59-63 | each listed length is paired with a counted word of that length with the highest count |
| Selection.PickLengths | src/main/java/wordCount/WordCountMain.java:59-63 | the paired entries carry exactly the listed lengths and each holds a best word |
| Selection.MaxByLength | src/main/java/wordCount/WordCountMain.java:52-63 | the result has one entry per distinct length of a counted word and no other, strictly ascending, each with a counted word of that length whose count is at least that of every other word of that length (IsMaxResult), and among those the lexicographically smallest (IsLengthResult) |
| Selection.LengthResultIsMaxResult | src/main/java/wordCount/WordCountMain.java:56 | a result under the tie-break keeps the tie-free promise: each chosen word has a count no word of its length exceeds |
| Selection.BestUnique | src/main/java/wordCount/WordCountMain.java:56 | for one length at most one word is best under the tie-break |
| Selection.LengthSetEmpty | src/main/java/wordCount/WordCountMain.java:59-63 | a result has no lengths exactly when it has no entries |
| Selection.LengthsAgree | src/main/java/wordCount/WordCountMain.java:57-58 | two ascending results over the same lengths list the same length at every position |
| Selection.AscendingTail | src/main/java/wordCount/WordCountMain.java:57-58 | the first entry of an ascending result has the least length, and the rest hold the other lengths |
| Selection.LengthResultUnique | src/main/java/wordCount/WordCountMain.java:52-63 | two correct results for the same counts are equal: the answer is determined by the counts alone |
| Selection.MaxByLengthCharacterized | src/main/java/wordCount/WordCountMain.java:52-63 | a sequence is a correct per-length result for the counts exactly when it is MaxByLength of them |
| Selection.MaxResultAgrees | src/main/java/wordCount/WordCountMain.java:52-63 | any result that keeps the tie-free promise, whichever maximal word it picks, has the lengths of MaxByLength in the same order and a word with the same count at each |
| Fetching.CallText | src/main/java/wordCount/WordCountMain.java:82-89 | a fetch task gives the page's body text, and the empty text when the fetch failed |
| Fetching.Piece | src/main/java/wordCount/WordCountMain.java:99-104 | one URL adds nothing exactly when waiting for its task failed; otherwise it adds the task's text followed by one space |
| Fetching.Joined | src/main/java/wordCount/WordCountMain.java:97-101 | the joined text is empty or ends with a space |
| Fetching.JoinTexts | src/main/java/wordCount/WordCountMain.java:97-105 | the loop builds exactly the texts of the URLs in input order, each followed by one space, skipping URLs whose wait failed |
| Fetching.JoinedAppend | src/main/java/wordCount/WordCountMain.java:99-101 | joining two URL lists one after the other is concatenating their joined texts |
| WordCount.MaxOccurrences | src/main/java/wordCount/WordCountMain.java:39-63 | the statistic of a text is a correct per-length result for the counts of its words |
| WordCount.TokenizeJoined | src/main/java/wordCount/WordCountMain.java:39-47 | tokenizing the joined text gives the tokens of each page in URL order: the separating spaces never glue words of two pages together |
| WordCount.TokenizePiece | src/main/java/wordCount/WordCountMain.java:99-101 | the text one URL adds, with its trailing space, tokenizes to that page's own words, apart from whatever follows it |
| WordCount.TokensOfAllAppend | src/main/java/wordCount/WordCountMain.java:99-101 | the tokens of two URL lists together are the tokens of the first followed by those of the second |
| WordCount.GetMaxOccurrencesByLength | src/main/java/wordCount/WordCountMain.java:35-67 | the result is the correct per-length result for the counts of all pages' words, and every reported word is a word of the pages, of length at least 2, letters only, upper case |
| WordCount.ResultWords | src/main/java/wordCount/WordCountMain.java:44-61 | every reported word occurs in the text, is a word, and is reported under its own length, which is at least 2 |
| WordCount.NoUrlsNoResult | src/main/java/wordCount/WordCountMain.java:97-101 | with no URL the result is empty |
| WordCount.UrlOrderIrrelevant | src/main/java/wordCount/WordCountMain.java:99-101 | swapping two parts of the URL list does not change the result |
| WordCount.FailureTokens | src/main/java/wordCount/WordCountMain.java:86-104 | a URL whose fetch failed (its text is empty) or whose wait failed (nothing is appended) adds no word |
| WordCount.FailureDropsOut | src/main/java/wordCount/WordCountMain.java:86-104 | the words of a URL list with a failed URL in it are the words of the list without it |
| WordCount.FailureAddsNoWords | src/main/java/wordCount/WordCountMain.java:86-104 | the joined text with a failed URL in it tokenizes to the same words as the joined text without it |
| WordCount.FailureContributesNothing | src/main/java/wordCount/WordCountMain.java:86-104 | a URL whose fetch failed or whose wait failed leaves the result as if it were not in the list |
| Scenarios.CatCatDogTokens | src/main/java/wordCount/WordCountMain.java:44-47 | "Cat cat dog" gives the words CAT, CAT, DOG |
| Scenarios.CatCatDog | src/main/java/wordCount/WordCountMain.java:35-63 | "Cat cat dog" gives length 3: CAT |
| Scenarios.TieTokens | src/main/java/wordCount/WordCountMain.java:44-47 | "a bb ccc dd" gives the words BB, CCC, DD ("a" is too short) |
| Scenarios.HelloWorldOneFailure | src/main/java/wordCount/WordCountMain.java:35-104 | a page "Hello world" followed by a failed URL gives length 5: HELLO (tie with WORLD) |
| Scenarios.TieAtLengthTwo | src/main/java/wordCount/WordCountMain.java:35-63 | "a bb ccc dd" gives length 2: BB (tie with DD) and length 3: CCC |

## Left out

- Reading the URL list from standard input up to the `-` line (WordCountMain.java:111-126): console input. The model starts from one outcome per URL.
- Printing `length L: WORD` (WordCountMain.java:30-31), the "invalid url" notice (line 87) and the stack trace (line 103): console output.
- The HTML fetch and text extraction with Jsoup (lines 83-84): network I/O and a foreign library. Its outcome is an input, `FetchResult`.
- The thread pool of three, the submitted tasks, the futures and the shutdown (lines 70-95, 107): concurrency. Each future's outcome is an input, `FutureOutcome`, in URL order, which is the order the joining loop visits them.
- `parallelStream` (lines 45, 53): the model counts and selects sequentially; the counts do not depend on the order (Counting.CountReorder).
- Letters.IsLetter: recognises the letters of the ASCII and Latin-1 blocks only; letters of other Unicode blocks, which `\P{L}` keeps inside words, are delimiters here.
- Letters.Upper: maps one character to one character and does not depend on the locale; `String.toUpperCase()` follows the default locale and can change the length (`ß` becomes `SS`), and the Latin-1 letters `ß`, `ÿ` and `µ`, whose upper case is not a single Latin-1 character, are left unchanged here.
- Selection.MaxByLength: fixes the tie-break (lexicographically smallest among the most frequent), where the Java code returns whichever maximal entry its parallel `maxBy` meets first; the tie-free promise is IsMaxResult, and Selection.MaxResultAgrees relates every answer that keeps it to this one.
- Tokenizer.Split: keeps the trailing empty fragments that Java's `split` drops; fragments shorter than two characters are removed right after, so the words are the same.
- Counting.Count: counts are unbounded naturals, not Java `long`; an overflow would need more than 2^63 words.
