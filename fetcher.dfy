/**
 * Record assembly and classification of `fetch_pubmed_articles`
 * (medlit_fetcher.py), from the point where the HTML has been parsed.
 *
 * Each search-result node is given as what the parser extracted from it:
 * the title anchor (its text and its `href`), the authors span text and the
 * journal-citation span text, each possibly absent. The fetcher keeps the
 * first `max_results` nodes, turns each into an article record with
 * placeholder values for what is missing, and appends the record either to
 * the articles whose title holds every query word or to the others.
 */
module MedlitFetcher {
  import opened Wrappers
  import opened AsciiText
  import opened DatePattern
  import opened Partition

  const PubMedOrigin: string := "https://pubmed.ncbi.nlm.nih.gov"
  const MirrorOrigin: string := "https://sci-hub.se/"

  const NoTitle: string := "No title"
  const NoAuthors: string := "No authors"
  const NoPublicationInfo: string := "No publication info"
  const NoJournal: string := "No journal"

  /** The `docsum-title` anchor: its text and its `href` attribute. */
  datatype Anchor = Anchor(text: string, href: Option<string>)

  /** One `full-docsum` result node, as far as the fetcher reads it. */
  datatype ResultNode = ResultNode(
    titleAnchor: Option<Anchor>,
    authorsSpan: Option<string>,
    journalSpan: Option<string>)

  /** The record dictionary built for each node. */
  datatype Article = Article(
    title: string,
    authors: string,
    date: string,
    journal: string,
    link: string,
    citation: string,
    pdfUrl: string)

  /** A title anchor, when present, carries an `href` (else Python raises KeyError). */
  predicate HasHref(node: ResultNode)
  {
    node.titleAnchor.Some? ==> node.titleAnchor.value.href.Some?
  }

  // ---------------------------------------------------------------- per-record fields

  function TitleOf(node: ResultNode): string
  {
    match node.titleAnchor
    case Some(a) => Strip(a.text)
    case None => NoTitle
  }

  function LinkOf(node: ResultNode): string
    requires HasHref(node)
  {
    match node.titleAnchor
    case Some(a) => PubMedOrigin + a.href.value
    case None => ""
  }

  function AuthorsOf(node: ResultNode): string
  {
    match node.authorsSpan
    case Some(t) => Strip(t)
    case None => NoAuthors
  }

  function PublicationInfo(node: ResultNode): string
  {
    match node.journalSpan
    case Some(t) => Strip(t)
    case None => NoPublicationInfo
  }

  /** `info.split('.')[0]`: the text before the first period, or all of it. */
  function BeforeFirstPeriod(info: string): (r: string)
    ensures |r| <= |info| && r == info[..|r|]
    ensures '.' !in r
    ensures |r| < |info| ==> info[|r|] == '.'
  {
    if info == [] || info[0] == '.' then [] else [info[0]] + BeforeFirstPeriod(info[1..])
  }

  /** `journal_name`: "No journal" for empty publication info. */
  function JournalName(info: string): string
  {
    if info == [] then NoJournal else BeforeFirstPeriod(info)
  }

  /** The Vancouver-style citation string. */
  function Vancouver(authors: string, title: string, journal: string, date: string): string
  {
    authors + ". " + title + ". " + journal + ". " + date + "."
  }

  /** `pdf_url`: the mirror link, empty exactly when the PubMed link is. */
  function PdfUrl(link: string): (u: string)
    ensures u == [] <==> link == []
    ensures link != [] ==>
      (|u| == |MirrorOrigin| + |link| && u[..|MirrorOrigin|] == MirrorOrigin && u[|MirrorOrigin|..] == link)
  {
    if link != [] then MirrorOrigin + link else ""
  }

  /** The record `article_data` built from one node. */
  function BuildArticle(node: ResultNode): Article
    requires HasHref(node)
  {
    var title := TitleOf(node);
    var link := LinkOf(node);
    var authors := AuthorsOf(node);
    var info := PublicationInfo(node);
    var date := PubDate(info);
    var journal := JournalName(info);
    Article(title, authors, date, journal, link, Vancouver(authors, title, journal, date), PdfUrl(link))
  }

  // ---------------------------------------------------------------- classifier

  /** `all(word.lower() in loweredTitle for word in words)`. */
  function AllWordsIn(words: seq<string>, loweredTitle: string): bool
  {
    words == [] || (Contains(Lower(words[0]), loweredTitle) && AllWordsIn(words[1..], loweredTitle))
  }

  /** The all-words policy: every query token, lowercased, is in the lowercased title. */
  predicate TitleMatches(query: string, title: string)
  {
    AllWordsIn(Split(query), Lower(title))
  }

  /** The lowercased word occurs somewhere in the lowercased title. */
  ghost predicate WordInTitle(word: string, title: string)
  {
    exists i :: OccursAt(Lower(word), Lower(title), i)
  }

  lemma {:induction false} AllWordsInIff(words: seq<string>, title: string)
    ensures AllWordsIn(words, Lower(title)) <==>
      forall k :: 0 <= k < |words| ==> WordInTitle(words[k], title)
  {
    if words != [] {
      ContainsIff(Lower(words[0]), Lower(title));
      AllWordsInIff(words[1..], title);
      assert forall k :: 1 <= k < |words| ==> words[k] == words[1..][k - 1];
    }
  }

  /**
   * A title matches exactly when every whitespace token of the query,
   * lowercased, occurs in the lowercased title.
   */
  lemma TitleMatchesIff(query: string, title: string)
    ensures TitleMatches(query, title) <==>
      forall w :: w in Split(query) ==> WordInTitle(w, title)
  {
    var ws := Split(query);
    AllWordsInIff(ws, title);
    if forall w :: w in ws ==> WordInTitle(w, title) {
      assert forall k :: 0 <= k < |ws| ==> ws[k] in ws;
    }
  }

  /** A query with no tokens (empty or all whitespace) matches every title. */
  lemma BlankQueryMatches(query: string, title: string)
    requires AllSpace(query)
    ensures TitleMatches(query, title)
  {
    SplitEmptyIffAllSpace(query);
  }

  // ---------------------------------------------------------------- the loop

  /** Python's `xs[:bound]`; a negative bound counts from the end. */
  function Take<T>(xs: seq<T>, bound: int): (ys: seq<T>)
    ensures |ys| <= |xs| && ys == xs[..|ys|]
    ensures bound >= 0 ==> |ys| == if bound < |xs| then bound else |xs|
    ensures bound < 0 ==> |ys| == if |xs| + bound > 0 then |xs| + bound else 0
  {
    if bound >= 0 then (if bound < |xs| then xs[..bound] else xs)
    else if |xs| + bound > 0 then xs[..|xs| + bound]
    else []
  }

  predicate AllHaveHref(nodes: seq<ResultNode>)
  {
    forall k :: 0 <= k < |nodes| ==> HasHref(nodes[k])
  }

  /** The records built for the given nodes, in order. */
  function ArticlesOf(nodes: seq<ResultNode>): (arts: seq<Article>)
    requires AllHaveHref(nodes)
    ensures |arts| == |nodes|
    ensures forall k :: 0 <= k < |nodes| ==> arts[k] == BuildArticle(nodes[k])
  {
    seq(|nodes|, k requires 0 <= k < |nodes| => BuildArticle(nodes[k]))
  }

  /** The classifier as a test on records, for the partition. */
  function MatchesQuery(query: string): Article -> bool
  {
    (a: Article) => TitleMatches(query, a.title)
  }

  /**
   * The processed part of `fetch_pubmed_articles`: the first `maxResults`
   * nodes, each turned into a record and appended to exactly one of the
   * two lists.
   */
  method FetchArticles(nodes: seq<ResultNode>, query: string, maxResults: int)
    returns (matching: seq<Article>, others: seq<Article>)
    requires AllHaveHref(Take(nodes, maxResults))
    ensures matching == FilterIn(ArticlesOf(Take(nodes, maxResults)), MatchesQuery(query))
    ensures others == FilterOut(ArticlesOf(Take(nodes, maxResults)), MatchesQuery(query))
    ensures |matching| + |others| ==
      if maxResults >= 0 then (if maxResults < |nodes| then maxResults else |nodes|)
      else if |nodes| + maxResults > 0 then |nodes| + maxResults else 0
  {
    matching, others := [], [];
    var batch := Take(nodes, maxResults);
    ghost var arts := ArticlesOf(batch);
    ghost var keep := MatchesQuery(query);
    for i := 0 to |batch|
      invariant matching == FilterIn(arts[..i], keep)
      invariant others == FilterOut(arts[..i], keep)
    {
      var article := BuildArticle(batch[i]);
      FilterStep(arts, i, keep);
      assert keep(article) == TitleMatches(query, article.title);
      if TitleMatches(query, article.title) {
        matching := matching + [article];
      } else {
        others := others + [article];
      }
    }
    assert arts[..|batch|] == arts;
    FilterInterleaves(arts, keep);
    InterleavingCounts(matching, others, arts);
  }

  /**
   * The two lists returned by `FetchArticles` hold exactly the processed
   * records, in input order, the title-matching ones in the first.
   */
  lemma FetchArticlesPartition(nodes: seq<ResultNode>, query: string, maxResults: int)
    requires AllHaveHref(Take(nodes, maxResults))
    ensures var arts := ArticlesOf(Take(nodes, maxResults));
      var matching := FilterIn(arts, MatchesQuery(query));
      var others := FilterOut(arts, MatchesQuery(query));
      && Interleaving(matching, others, arts)
      && |matching| + |others| == |arts|
      && multiset(matching) + multiset(others) == multiset(arts)
      && (forall a :: a in matching ==> TitleMatches(query, a.title))
      && (forall a :: a in others ==> !TitleMatches(query, a.title))
  {
    var arts := ArticlesOf(Take(nodes, maxResults));
    var keep := MatchesQuery(query);
    FilterPartition(arts, keep);
    forall a | a in FilterIn(arts, keep)
      ensures TitleMatches(query, a.title)
    {
      assert keep(a);
    }
    forall a | a in FilterOut(arts, keep)
      ensures !TitleMatches(query, a.title)
    {
      assert !keep(a);
    }
  }

  /** With a query that has no tokens every record lands in `matching`. */
  lemma BlankQuerySelectsAll(arts: seq<Article>, query: string)
    requires AllSpace(query)
    ensures FilterIn(arts, MatchesQuery(query)) == arts
    ensures FilterOut(arts, MatchesQuery(query)) == []
  {
    var keep := MatchesQuery(query);
    forall k | 0 <= k < |arts|
      ensures keep(arts[k])
    {
      BlankQueryMatches(query, arts[k].title);
    }
    FilterAllPass(arts, keep);
  }

  // ---------------------------------------------------------------- record properties

  lemma NoPeriodKeepsAll(info: string)
    requires '.' !in info
    ensures BeforeFirstPeriod(info) == info
  {
  }

  /** The journal name of text with a period is the text before it. */
  lemma PeriodCuts(head: string, tail: string)
    requires '.' !in head
    ensures BeforeFirstPeriod(head + "." + tail) == head
  {
    var info := head + "." + tail;
    var j := BeforeFirstPeriod(info);
    assert info[|head|] == '.';
    assert forall k :: 0 <= k < |head| ==> info[k] == head[k];
    assert |j| == |head|;
    assert info[..|head|] == head;
  }

  /** Text without digits has no date. */
  lemma {:induction false} DigitFreeHasNoDate(s: string)
    requires forall k :: 0 <= k < |s| ==> !IsDigit(s[k])
    ensures PubDate(s) == NoDate
  {
    NoDateIffNoYear(s);
    assert forall j: nat :: !YearAt(s, j);
  }

  /** The placeholder publication info has no period and no year. */
  lemma MissingJournalSpan()
    ensures JournalName(NoPublicationInfo) == NoPublicationInfo
    ensures PubDate(NoPublicationInfo) == NoDate
  {
    var s := NoPublicationInfo;
    assert forall k :: 0 <= k < |s| ==> !IsDigit(s[k]) && s[k] != '.';
    NoPeriodKeepsAll(s);
    DigitFreeHasNoDate(s);
  }

  /**
   * Placeholders: a node without title anchor gets "No title" and empty
   * links; without authors span "No authors"; without journal span the
   * publication info "No publication info", giving that journal name and
   * "No date".
   */
  lemma ArticleSentinels(node: ResultNode)
    requires HasHref(node)
    ensures node.titleAnchor.None? ==>
      BuildArticle(node).title == NoTitle && BuildArticle(node).link == [] && BuildArticle(node).pdfUrl == []
    ensures node.authorsSpan.None? ==> BuildArticle(node).authors == NoAuthors
    ensures node.journalSpan.None? ==>
      BuildArticle(node).journal == NoPublicationInfo && BuildArticle(node).date == NoDate
  {
    if node.journalSpan.None? {
      MissingJournalSpan();
    }
  }

  /**
   * A node with a title anchor gets the stripped anchor text as title, the
   * PubMed origin followed by the `href` as link, and the mirror origin
   * followed by that link as `pdf_url`.
   */
  lemma ArticleAnchored(node: ResultNode)
    requires HasHref(node) && node.titleAnchor.Some?
    ensures var a := BuildArticle(node);
      && a.title == Strip(node.titleAnchor.value.text)
      && a.link == PubMedOrigin + node.titleAnchor.value.href.value
      && a.pdfUrl == MirrorOrigin + a.link
  {
  }

  /**
   * A node with an authors span gets that text stripped as authors; one
   * with a journal span gets the stripped text as publication info, from
   * which the journal name and the date are taken.
   */
  lemma ArticleSpans(node: ResultNode)
    requires HasHref(node)
    ensures node.authorsSpan.Some? ==> BuildArticle(node).authors == Strip(node.authorsSpan.value)
    ensures node.journalSpan.Some? ==>
      && BuildArticle(node).journal == JournalName(Strip(node.journalSpan.value))
      && BuildArticle(node).date == PubDate(Strip(node.journalSpan.value))
  {
  }

  /**
   * The journal name is the publication info up to its first period, all of
   * it when there is none, and "No journal" for empty info.
   */
  lemma JournalNameSpec(info: string)
    ensures info == [] ==> JournalName(info) == NoJournal
    ensures info != [] ==>
      var j := JournalName(info);
      && j == info[..|j|]
      && '.' !in j
      && (|j| == |info| || info[|j|] == '.')
  {
  }

  /** Every record's citation is Vancouver-style, built from its own fields. */
  lemma ArticleCitation(node: ResultNode)
    requires HasHref(node)
    ensures var a := BuildArticle(node);
      && a.citation == Vancouver(a.authors, a.title, a.journal, a.date)
      && (a.pdfUrl == [] <==> a.link == [])
  {
  }

  /** The citation of a worked example, fields joined by ". ". */
  lemma VancouverExample()
    ensures Vancouver("Doe J, Roe A", "Example Study", "J Med", "2020") == "Doe J, Roe A. Example Study. J Med. 2020."
  {
  }

  /** The worked example: the journal name stops at the first period. */
  lemma JournalExample()
    ensures JournalName("J Med. 2021 Mar 5;12(3):100-110.") == "J Med"
  {
    assert "J Med. 2021 Mar 5;12(3):100-110." == "J Med" + "." + " 2021 Mar 5;12(3):100-110.";
    PeriodCuts("J Med", " 2021 Mar 5;12(3):100-110.");
  }
}
