# project-eulerchain: problem transcription and cache, in Dafny

`main.py` of project-eulerchain fetches a Project Euler problem page, turns it
into a flat markdown-like text, and caches that text on disk before handing it
to a language-model chain. This project models the two parts of `main.py` that
are the program's own logic, and proves properties of them.

- **Transcription** (`scrape_euler_problem`, module `Transcriber`). The input is
  the parsed page: the texts of its `h2` headings and, for every `<p>`, its
  direct children classified by tag (`Node`: text, `a` with an optional
  `href`, `sub`, `sup`, `strong`, `em`, `code`, any other tag).
  - `Transcribe` is the specification. The title is the first heading, then
    `": "`. Then come the markups of the children of every paragraph except
    the last, each paragraph closed by one space. All tabs are removed at the
    end.
  - The Python code fails in two places, and `Transcribe` returns a `Failure`
    for each: `title[0]` with no heading (`NoHeading`), and `sub_element['href']`
    on a link without one (`MissingHref`).
  - `TranscribeDoc` is the nested `+=` loop of the source, proved equal to
    `Transcribe`. Its per-child step is `AppendChild`.
- **Cache key** (module `CacheKey`). `Stem(n)` is `str(n).zfill(4)`, with
  Python's `str` on integers and `zfill`'s sign rule written out. `Key(n)` is
  `Stem(n) + ".txt"`. `ParseKey` reads a file name back; it is the partner for
  the round-trip and injectivity lemmas.
- **Read-through cache** (module `ProblemCache`). `Cache` holds the directory
  as a map from file name to contents. `LoadProblem` returns the file when it
  exists. Otherwise it scrapes (`TranscribeDoc` on `fetch(n)`, where `fetch` is
  a parameter standing for the fetched and parsed page) and stores the text.
  It keeps the invariant `Faithful`: every problem's file holds that problem's
  transcript.

Three behaviours of the code are easy to misread; the model follows the code
in each:
- A comment inside a paragraph is, for the parser, a string whose tag name is
  `None`. The code therefore copies it verbatim, like any text node, so it is
  a `Text` node here.
- A problem number of five digits or more keeps all its digits: `zfill` leaves
  longer strings alone, so 12345 gives `12345.txt` (`LongStem`).
- A page without a heading gives `NoHeading`, because `title[0]` raises
  `IndexError`.

## Model

| member | source | states |
|---|---|---|
| `Transcriber.Transcribe` | main.py:20-56 | fails with NoHeading exactly when the page has no heading; fails with MissingHref exactly when a heading exists and some paragraph other than the last holds a link without `href`; a successful transcript holds no tab |
| `Transcriber.TranscribeDoc` | main.py:20-56 | the nested loops over paragraphs and children return exactly the specified transcript or failure |
| `Transcriber.AppendChild` | main.py:30-54 | the elif chain appends the child's markup, and nothing for an unrecognised tag |
| `Transcriber.Markup` | main.py:30-54 | what one child adds: nothing for an unrecognised tag, at least as many characters as its flattened text for a recognised one, and no tab that its fields do not hold |
| `Transcriber.ParagraphMarkup` | main.py:28-54 | the inner `+=` accumulation over a paragraph's children holds no tab when none of the children's fields does |
| `Transcriber.BodyMarkup` | main.py:26-55 | the outer accumulation over paragraphs adds at least one character per paragraph and, for any paragraph, ends in the closing space |
| `Transcriber.StripTabs` | main.py:56 | `replace("\t", "")` leaves no tab and never lengthens the string; `StripTabsCount` and `StripTabsConcat` pin down that tabs are deleted, not replaced |
| `Transcriber.DropLast` | main.py:24 | `[:-1]` keeps every paragraph but the last, in order, and is empty for an empty list |
| `Transcriber.StripTabsConcat` | main.py:56 | stripping tabs distributes over concatenation |
| `Transcriber.StripTabsUnchanged` | main.py:56 | stripping tabs changes a string exactly when it holds a tab |
| `Transcriber.StripTabsCount` | main.py:56 | stripping deletes every tab and keeps every other character exactly as often as it occurs |
| `Transcriber.StripTabsIdempotent` | main.py:56 | stripping tabs a second time changes nothing |
| `Transcriber.ParagraphConcat` | main.py:28-54 | the markup of a paragraph's children is the markup of any split of them, concatenated |
| `Transcriber.ParagraphStep` | main.py:28-54 | visiting one more child appends that child's markup |
| `Transcriber.MarkupHoldsInner` | main.py:30-54 | a recognised child's markup holds its whole flattened text, with an opening before it and a closing after it |
| `Transcriber.AppendChildMarkup` | main.py:28-54 | appending a child to a paragraph appends that child's markup |
| `Transcriber.AppendText` | main.py:34-36 | a text node is copied verbatim |
| `Transcriber.AppendLink` | main.py:30-33 | a link with an `href` appends `[text](href)` |
| `Transcriber.AppendSub` | main.py:37-39 | a `sub` child appends `<sub>t</sub>` |
| `Transcriber.AppendSup` | main.py:40-42 | a `sup` child appends `<sup>t</sup>` |
| `Transcriber.AppendStrong` | main.py:43-46 | a `strong` child appends `**t**` |
| `Transcriber.AppendEm` | main.py:47-50 | an `em` child appends `*t*` |
| `Transcriber.AppendCode` | main.py:51-54 | a `code` child appends `` `t` `` |
| `Transcriber.TranscribableStep` | main.py:28-33 | a paragraph prefix one child longer can be walked exactly when the shorter one can and the new child is not a link without `href` |
| `Transcriber.BodyStep` | main.py:26-55 | walking one more paragraph appends its markup and one space |
| `Transcriber.BodyTranscribableStep` | main.py:26-33 | one more paragraph can be walked exactly when the earlier ones can and it can |
| `Transcriber.UnrecognisedChildIgnored` | main.py:30-54 | a child with an unrecognised tag adds nothing to its paragraph's markup, wherever it stands |
| `Transcriber.UnrecognisedChildHarmless` | main.py:30-54 | a child with an unrecognised tag never makes the walk fail |
| `Transcriber.UnrecognisedOnlyParagraph` | main.py:28-54 | a paragraph made only of unrecognised tags has empty markup |
| `Transcriber.UnrecognisedOnlyParagraphAddsSpace` | main.py:26-55 | such a paragraph adds exactly one space to the body |
| `Transcriber.LastParagraphIgnored` | main.py:24 | what the last paragraph holds never changes the result |
| `Transcriber.NoBodyParagraphs` | main.py:21-24 | with a heading and at most one paragraph, the transcript is the tab-stripped title and `": "` |
| `Transcriber.TitleLeads` | main.py:21-22 | a transcript is the tab-stripped first heading, `": "`, and the tab-stripped body |
| `Transcriber.LaterHeadingsIgnored` | main.py:21-22 | whether the walk fails and what it returns depend only on whether there is a heading and on the first one; later headings are never read |
| `Transcriber.SingleBodyParagraph` | main.py:24-56 | with a heading and two paragraphs, when the first paragraph holds no link without `href`, the transcript is the tab-stripped title, `": "`, the first paragraph's markup and one space |
| `Transcriber.TabFreeSingleBodyParagraph` | main.py:24-56 | with a heading and two paragraphs, when the first paragraph holds no link without `href` and there is no tab in the title or its children, the transcript is the title, `": "`, that paragraph's markup and one space, unstripped |
| `Transcriber.LinkAndBoldParagraph` | main.py:31-46 | text, a link and bold text become `text[anchor](href)text**bold**` |
| `Transcriber.LinkAndBoldTranscript` | main.py:20-56 | a tab-free page with that paragraph and a footer becomes `title: text[anchor](href)text**bold** ` |
| `Transcriber.ProblemOneTranscript` | main.py:20-56 | the page "Problem 1" with "Find the sum of ", link "multiples" to "/x", " below " and bold "1000" becomes `Problem 1: Find the sum of [multiples](/x) below **1000** ` |
| `Transcriber.OtherKindsParagraph` | main.py:38-54 | `sub`, `sup`, `em` and `code` children become `<sub>t</sub>`, `<sup>t</sup>`, `*t*` and `` `t` `` |
| `Transcriber.OtherKindsTranscript` | main.py:20-56 | a tab-free page with those children becomes the title, `": "`, their markups and one space, whatever the second heading says |
| `CacheKey.NatToString` | main.py:68 | Python's `str` on a non-negative number: at least one digit, all digits, and a leading zero only for zero |
| `CacheKey.IntToString` | main.py:68 | Python's `str` on any integer: at least one character, a leading `-` exactly when negative, and digits for the rest |
| `CacheKey.ZFill` | main.py:68 | `zfill(width)` returns a string of length max(len, width), leaves a long enough string unchanged and keeps a leading sign first |
| `CacheKey.Stem` | main.py:68 | the zero-filled stem has at least four characters |
| `CacheKey.Key` | main.py:69 | the file name is at least eight characters long and ends in `.txt` |
| `CacheKey.ValueOfNatToString` | main.py:68 | the digits `str` writes denote the number |
| `CacheKey.LeadingZerosIgnored` | main.py:68 | zeros added in front of digits keep them digits and do not change what they denote |
| `CacheKey.DigitCount` | main.py:68 | `str(n)` has at most d digits exactly when n < 10^d |
| `CacheKey.StemOfNat` | main.py:68 | for n >= 0 the stem is `str(n)` with zeros in front up to four characters |
| `CacheKey.StemOfNegative` | main.py:68 | for n < 0 the stem is `-`, then zeros, then the digits of -n, four characters at least |
| `CacheKey.ParseKeyOfStem` | main.py:69 | a name is read back through the stem in front of `.txt` |
| `CacheKey.NatStemRoundTrip` | main.py:68 | a non-negative problem number is read back from its zero-padded stem |
| `CacheKey.NegativeStemRoundTrip` | main.py:68 | a negative problem number is read back from its stem, sign before the zeros |
| `CacheKey.StemRoundTrip` | main.py:68 | every problem number is read back from its stem |
| `CacheKey.KeyRoundTrip` | main.py:68-69 | every problem number is read back from its file name |
| `CacheKey.KeyInjective` | main.py:68-69 | two problems never share a cache file |
| `CacheKey.FourDigitStem` | main.py:68 | problems 0 to 9999 get a stem of exactly four digits |
| `CacheKey.LongStem` | main.py:68 | problems from 10000 on keep all their digits, unpadded |
| `CacheKey.ShortStemExamples` | main.py:68 | problem 1 gives `0001` and problem 42 gives `0042` |
| `CacheKey.LongStemExample` | main.py:68 | problem 12345 gives `12345` |
| `CacheKey.NegativeStemExample` | main.py:68 | problem -5 gives `-005`, the sign before the zeros |
| `CacheKey.KeyExample` | main.py:69 | problem 1 is cached in `0001.txt` |
| `ProblemCache.Cache.constructor` | main.py:65 | the cache starts from the directory's current files, with nothing scraped |
| `ProblemCache.Cache.LoadProblem` | main.py:69-76 | on a hit, the file's text is returned and nothing changes. On a miss, the page is scraped once; a successful text is stored under the problem's name and returned, a failure stores nothing. No other file changes. A faithful cache stays faithful and returns the transcript of the page |
| `ProblemCache.LoadTwice` | main.py:71-76 | after a successful load, loading the same problem again returns the same text, and the two loads scrape exactly once when the file was missing and never when it was there; in a faithful cache the two loads always agree |

## Left out

- Fetching the page with `httpx` and its User-Agent header (main.py:8-17) is network I/O. The fetched and parsed page is the `fetch` parameter of `LoadProblem` and the `doc` argument of `Transcribe`.
- Parsing with BeautifulSoup and lxml, and the `get_text()` and `.text` flattening of a child's descendants (main.py:18, 33-54), are library code. Every text field of a `Node` already holds the flattened text, so markup nested inside a child is not modelled.
- The URL built from the problem number (main.py:11) is left out with the fetch.
- Exceptions other than the two modelled failures (transport errors, file errors) are not modelled.
- Creating the cache directory (main.py:65-66) is left out. The real filesystem calls `exists`, `read_text` and `write_text` (main.py:71-76) become a lookup in, and an update of, the `files` map, with no encoding.
- `ProblemCache.Cache.LoadProblem`: `read_text` (main.py:72) reads in text mode with universal newlines, so a stored `\r` or `\r\n` comes back as `\n`. The map of the model returns exactly what was stored, so on a hit the model agrees with the source only for transcripts without `\r`.
- `ProblemCache.LoadTwice`: for the same reason, the two loads give the same text in the source only when the transcript holds no `\r`. The model's `first == second` does not capture the newline translation.
- All `print` diagnostics (main.py:67-68, 74, 82, 87, 92-93) are left out. So is the module-level call `solve_euler_problem(1)` (main.py:93).
- Chunking with `CharacterTextSplitter` (main.py:81-83) is left out. It is library code, and its result is never used.
- Solving with `OpenAI` and `PALChain` (main.py:85-89) is left out as an external service.
- `fetch` is a function, so a page that changes between two scrapes is not captured. `Faithful` relies on this: a file written earlier holds what scraping now would give.
- Concurrent loads of the same problem, and their race on the write, are not modelled.
- `ProblemCache.Cache.constructor` takes any directory contents. Faithfulness of files written by earlier runs or by hand is an assumption stated in `LoadProblem`'s contract, not a property of the constructor.
- The name of an unrecognised tag (`Other`) is carried but never used, as in the source.
