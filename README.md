# MedLit Fetcher: record assembly and classification

MedLit Fetcher searches PubMed for a free-text query. For each search-result
node it builds an article record (title, authors, date, journal, PubMed link,
Vancouver citation, mirror link). It then sorts the records into two lists:
those whose title contains every query word, and the others.

This project models that step in Dafny, from the point where the HTML has
already been parsed. A result node is the `ResultNode` datatype: an optional
title anchor (text and optional `href`), an optional authors span text and
an optional journal-citation span text. The record dictionary is the
`Article` datatype.

- `wrappers.dfy` (`Wrappers`): the `Option` type.
- `ascii_text.dfy` (`AsciiText`): `str.strip()`, `str.lower()`,
  `str.split()` and the `in` substring test, restricted to ASCII.
- `date_pattern.dfy` (`DatePattern`): the date regex
  `\d{4} [A-Za-z]{3} \d{1,2}|\d{4}` as a leftmost-match scanner. `MatchAt` is
  the engine's step at one position: the first alternative is tried first,
  and the day is greedy. `Search` scans the positions from the left.
  `IsFullDate`/`IsYear` describe separately which texts the pattern accepts.
- `partition.dfy` (`Partition`): splitting a sequence by a test. It gives
  the two lists the loop builds, and proves they are an order-preserving
  merge of the input.
- `fetcher.dfy` (`MedlitFetcher`): the placeholder defaults, journal name,
  citation, mirror link, the all-words title test, the `[:max_results]`
  slice, and `FetchArticles`. `FetchArticles` is the loop: it appends each
  record to `matching` or `others`.

Behaviour worth knowing, as the code has it:

- The journal name is `"No journal"` when the publication info is empty.
  A missing journal span gives the info `"No publication info"`. That info
  has no period, so it is also the journal name, and the date is
  `"No date"`. Info starting with `.` gives an empty journal name.
- The sentinel title `"No title"` takes part in classification like any
  other title.
- A negative `max_results` drops nodes from the end, as a Python slice does.
  The only caller passes the default of 10.
- The extracted date is year first: `YYYY Mon D` or `YYYY Mon DD`, else the
  bare year `YYYY`.

## Model

| member | source | states |
|---|---|---|
| AsciiText.StripIsTrimmedSlice | medlit_fetcher.py:20 | `strip()` returns a contiguous slice of its input. Everything removed lies before or after the slice and is whitespace. The slice neither starts nor ends with whitespace. |
| AsciiText.StripIdempotent | medlit_fetcher.py:24 | Stripping an already stripped text changes nothing. |
| AsciiText.LowerAt | medlit_fetcher.py:48 | `lower()` keeps the length and maps each character on its own. |
| AsciiText.LowerIsLower | medlit_fetcher.py:48 | After `lower()` no upper-case letter remains, and lowering twice equals lowering once. |
| AsciiText.SplitTokens | medlit_fetcher.py:48 | Every token of `split()` is non-empty and holds no whitespace. |
| AsciiText.SplitEmptyIffAllSpace | medlit_fetcher.py:48 | `split()` gives no token exactly when the text is empty or all whitespace. |
| AsciiText.SplitToken | medlit_fetcher.py:48 | After any run of whitespace, a token that ends at whitespace or at the end of the text is the first token of `split()`, and the remainder is split on its own. Together with the all-whitespace case this fixes `split()` on every text. |
| AsciiText.SplitJoin | medlit_fetcher.py:48 | Splitting whitespace-free tokens joined by single spaces gives back exactly those tokens. |
| AsciiText.ContainsIff | medlit_fetcher.py:48 | The `in` test holds exactly when the needle occurs at some index of the text. |
| DatePattern.MatchAtSpec | medlit_fetcher.py:29 | At one position, the engine matches exactly when some text starting there is accepted by the pattern, and what it matches is accepted. It prefers the full date to the bare year, and the two-digit day to the one-digit day. |
| DatePattern.Search | medlit_fetcher.py:29 | The search returns the first position at which the engine matches, with that match's length. It returns none only when no position matches. |
| DatePattern.PubDateLeftmost | medlit_fetcher.py:29-30 | The date is the leftmost text the pattern accepts, and the full date when one starts there. It is `"No date"` exactly when no accepted text exists. |
| DatePattern.NoDateIffNoYear | medlit_fetcher.py:29-30 | The date is `"No date"` exactly when the info has no four digits in a row. Otherwise the date is a substring of the info. |
| DatePattern.PubDateExample | medlit_fetcher.py:29-30 | `"J Med. 2021 Mar 5;12(3):100-110."` gives the date `"2021 Mar 5"`. |
| Partition.FilterStep | medlit_fetcher.py:48-51 | Handling one more element appends it to exactly one of the two lists and leaves the other list unchanged. |
| Partition.FilterInterleaves | medlit_fetcher.py:48-51 | The two lists are an order-preserving merge of the input. |
| Partition.InterleavingCounts | medlit_fetcher.py:48-51 | The lengths of the two merged lists add up to the input length, and together they hold the same multiset of elements as the input. |
| Partition.FilterSound | medlit_fetcher.py:48-51 | Every element of the first list passes the test, and no element of the second list does. |
| Partition.FilterPartition | medlit_fetcher.py:48-51 | The lists are merged in order, nothing is lost or repeated, and each list holds only its own kind. |
| Partition.FilterAllPass | medlit_fetcher.py:48-51 | When every element passes the test, the first list is the whole input and the second list is empty. |
| MedlitFetcher.BeforeFirstPeriod | medlit_fetcher.py:32 | `split('.')[0]` is a prefix of the info with no period in it. It is followed by a period or by the end of the info. |
| MedlitFetcher.PeriodCuts | medlit_fetcher.py:32 | For info of the form head + "." + tail, where head has no period, the result is head. |
| MedlitFetcher.NoPeriodKeepsAll | medlit_fetcher.py:32 | Info without a period is kept whole. |
| MedlitFetcher.JournalNameSpec | medlit_fetcher.py:32 | Empty info gives `"No journal"`. Any other info gives its prefix before the first period, or the whole info when it has no period. |
| MedlitFetcher.JournalExample | medlit_fetcher.py:32 | `"J Med. 2021 Mar 5;12(3):100-110."` gives the journal `"J Med"`. |
| MedlitFetcher.PdfUrl | medlit_fetcher.py:36 | `pdf_url` is empty exactly when the link is empty. Otherwise it is the mirror origin followed by the link. |
| MedlitFetcher.AllWordsInIff | medlit_fetcher.py:48 | The `all(...)` over the words holds exactly when each lowercased word occurs in the lowercased title. |
| MedlitFetcher.TitleMatchesIff | medlit_fetcher.py:48 | A title matches exactly when every whitespace token of the query, lowercased, is a substring of the lowercased title. |
| MedlitFetcher.BlankQueryMatches | medlit_fetcher.py:48 | A query that is empty or all whitespace matches every title. |
| MedlitFetcher.Take | medlit_fetcher.py:18 | `[:max_results]` is a prefix of the nodes. Its length is min(n, max_results) for a non-negative bound, and n + max_results, floored at 0, for a negative one. |
| MedlitFetcher.ArticlesOf | medlit_fetcher.py:18-46 | There is one record per processed node, in order, and the k-th record is the one built from the k-th node. |
| MedlitFetcher.FetchArticles | medlit_fetcher.py:15-53 | The loop returns the records of the processed nodes that match, in order, and the records that do not match, in order. Together the two lists hold min(n, max_results) records for a non-negative bound, and n + max_results, floored at 0, for a negative one. |
| MedlitFetcher.FetchArticlesPartition | medlit_fetcher.py:15-53 | The two returned lists are an order-preserving merge of the processed records. Their lengths add up to the number processed, and nothing is lost or repeated. `matching` holds only matching titles and `others` only non-matching ones. |
| MedlitFetcher.BlankQuerySelectsAll | medlit_fetcher.py:48-51 | With an all-whitespace query every record lands in `matching` and `others` is empty. |
| MedlitFetcher.DigitFreeHasNoDate | medlit_fetcher.py:29-30 | Info without digits gives `"No date"`. |
| MedlitFetcher.MissingJournalSpan | medlit_fetcher.py:26-32 | The placeholder info `"No publication info"` gives that same journal name and `"No date"`. |
| MedlitFetcher.ArticleSentinels | medlit_fetcher.py:19-32 | A missing anchor gives the title `"No title"`, an empty link and an empty `pdf_url`. Missing authors give `"No authors"`. A missing journal span gives the journal `"No publication info"` and the date `"No date"`. |
| MedlitFetcher.ArticleSpans | medlit_fetcher.py:23-32 | With an authors span present, the authors are its stripped text. With a journal span present, the journal name and the date are taken from its stripped text. |
| MedlitFetcher.ArticleAnchored | medlit_fetcher.py:19-36 | With an anchor present, the title is the stripped anchor text and the link is the PubMed origin followed by the `href`. `pdf_url` is the mirror origin followed by that link. |
| MedlitFetcher.ArticleCitation | medlit_fetcher.py:34-46 | A record's citation is exactly `authors. title. journal. date.`, built from that record's own fields. Its `pdf_url` is empty exactly when its link is. |
| MedlitFetcher.VancouverExample | medlit_fetcher.py:34 | Authors `"Doe J, Roe A"`, title `"Example Study"`, journal `"J Med"` and date `"2020"` give `"Doe J, Roe A. Example Study. J Med. 2020."`. |

## Left out

- The HTTP request, the percent-encoding and the search URL (medlit_fetcher.py:9-12) are left out. They are network I/O and a library wrapper.
- The BeautifulSoup parse and its class-based `find`/`find_all` selectors (medlit_fetcher.py:13, 18-26) are left out. They are a foreign library. The model takes its results as the `ResultNode` input.
- A processed title anchor without `href` raises `KeyError` in the source (medlit_fetcher.py:21). This is a precondition of `FetchArticles` (`AllHaveHref` on the processed nodes) rather than a modelled error.
- Unicode behaviour is left out. Whitespace is the ASCII characters for which `str.isspace()` holds. Lowercasing maps only `A`-`Z`, and `\d` is `0`-`9`.
- The Streamlit page, the `query` truthiness gate and the rendering loops (medlit_fetcher.py:56-99) are left out. They are presentation and widget state.
