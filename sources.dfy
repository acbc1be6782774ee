/**
 * How the arXiv, Springer, Semantic Scholar and CrossRef clients turn one
 * provider record into a `Paper` (app.mjs). Records are the parsed XML/JSON
 * the providers return; `scrape(url)` is what `scrapeAbstractFromUrl`
 * resolves to for `url` (it never rejects).
 */
module Sources {
  import opened Wrappers
  import opened JsText
  import opened JsValues
  import opened Papers

  // ---------------------------------------------------------------------
  // arXiv (Atom feed through xml2js)
  // ---------------------------------------------------------------------

  datatype ArxivLink = ArxivLink(rel: string, href: string)

  /** One `<entry>`; `links` is `None` when the entry has no `<link>` at all. */
  datatype ArxivEntry = ArxivEntry(
    id: string, title: string, summary: string, published: string,
    authors: seq<string>, links: Option<seq<ArxivLink>>)

  /** The first link whose `rel` is `alternate`. */
  function FirstAlternate(links: seq<ArxivLink>): (r: Option<string>)
    ensures r.Some? ==>
      exists i :: (0 <= i < |links| && links[i].rel == "alternate" && links[i].href == r.value &&
                   forall j :: 0 <= j < i ==> links[j].rel != "alternate")
    ensures r.None? ==> forall j :: 0 <= j < |links| ==> links[j].rel != "alternate"
  {
    if links == [] then None
    else if links[0].rel == "alternate" then Some(links[0].href)
    else
      var r := FirstAlternate(links[1..]);
      if r.Some? then
        ghost var i :| 1 <= i + 1 <= |links| && 0 <= i < |links[1..]| && links[1..][i].rel == "alternate" && links[1..][i].href == r.value
          && forall j :: 0 <= j < i ==> links[1..][j].rel != "alternate";
        assert links[i + 1] == links[1..][i];
        assert forall j :: 1 <= j < i + 1 ==> links[j] == links[1..][j - 1];
        r
      else r
  }

  /** `entry.link ? entry.link.find(alternate)?.$.href : null`. */
  function ArxivLinkValue(links: Option<seq<ArxivLink>>): JsValue {
    match links
    case None => Null
    case Some(ls) =>
      match FirstAlternate(ls)
      case Some(h) => Str(h)
      case None => Undefined
  }

  /** `scrape(link) || 'No abstract available'`. */
  function ScrapedAbstract(scrape: string -> string, link: string): (r: JsValue)
    ensures Truthy(r)
  {
    Or(Str(scrape(link)), Str(NoAbstract))
  }

  function ArxivToPaper(e: ArxivEntry, scrape: string -> string): Paper {
    var link := ArxivLinkValue(e.links);
    var summary := Str(Trim(e.summary));
    var abstractText := if !Truthy(summary) && Truthy(link) then ScrapedAbstract(scrape, link.s) else summary;
    NewPaper(Str(Trim(e.title)), Join(e.authors, ", "), Str(e.published), abstractText,
             Str("arXiv"), Str(e.id), link)
  }

  /**
   * The scraper is consulted only for an entry whose trimmed summary is
   * empty and which has an alternate link; then the abstract is what it
   * returns, or the placeholder.
   */
  lemma ArxivScrapesOnlyBlankSummaries(e: ArxivEntry, s1: string -> string, s2: string -> string)
    ensures Trim(e.summary) != "" ==> ArxivToPaper(e, s1) == ArxivToPaper(e, s2)
    ensures Trim(e.summary) != "" ==> ArxivToPaper(e, s1).abstractText == Str(Trim(e.summary))
    ensures Trim(e.summary) == "" && Truthy(ArxivLinkValue(e.links)) ==>
      ArxivToPaper(e, s1).abstractText == ScrapedAbstract(s1, ArxivLinkValue(e.links).s)
  {
  }

  /** An arXiv paper's abstract is empty only when the summary is blank and there is no alternate link. */
  lemma ArxivAbstractEmpty(e: ArxivEntry, scrape: string -> string)
    ensures !Truthy(ArxivToPaper(e, scrape).abstractText) <==> IsBlank(e.summary) && !Truthy(ArxivLinkValue(e.links))
  {
    TrimFacts(e.summary);
  }

  /** The link is `null` without `<link>` elements and `undefined` when none is `alternate`. */
  lemma ArxivLinkCases(links: Option<seq<ArxivLink>>)
    ensures links.None? ==> ArxivLinkValue(links) == Null
    ensures links.Some? && (forall j :: 0 <= j < |links.value| ==> links.value[j].rel != "alternate") ==>
      ArxivLinkValue(links) == Undefined
    ensures links.Some? && |links.value| > 0 && links.value[0].rel == "alternate" ==>
      ArxivLinkValue(links) == Str(links.value[0].href)
  {
  }

  // ---------------------------------------------------------------------
  // Springer (JSON)
  // ---------------------------------------------------------------------

  /** One record; `creators` lists each creator's `creator` field, `None` when absent. */
  datatype SpringerRecord = SpringerRecord(
    doi: JsValue, title: JsValue, abstractText: JsValue, publicationDate: JsValue,
    creators: Option<seq<JsValue>>, url: JsValue, publicationName: JsValue)

  function AuthorsOf(names: Option<seq<JsValue>>): string {
    match names
    case Some(ns) => JoinValues(ns, ", ")
    case None => ""
  }

  function SpringerToPaper(r: SpringerRecord, scrape: string -> string): Paper {
    var summary := Or(r.abstractText, Str(NoAbstract));
    var link := Or(r.url, Str("https://doi.org/" + ToJsString(r.doi)));
    var abstractText := if !Truthy(summary) && Truthy(link) then ScrapedAbstract(scrape, ToJsString(link)) else summary;
    NewPaper(r.title, AuthorsOf(r.creators), r.publicationDate, abstractText,
             Or(r.publicationName, Str("Springer")), r.doi, link)
  }

  /**
   * The placeholder is put in before the `!summary` test, so the Springer
   * scraper fallback never runs: the paper does not depend on the scraper,
   * its abstract is the record's or the placeholder, and its link and journal
   * are never empty.
   */
  lemma SpringerNeverScrapes(r: SpringerRecord, s1: string -> string, s2: string -> string)
    ensures SpringerToPaper(r, s1) == SpringerToPaper(r, s2)
    ensures SpringerToPaper(r, s1).abstractText == (if Truthy(r.abstractText) then r.abstractText else Str(NoAbstract))
    ensures Truthy(SpringerToPaper(r, s1).link) && Truthy(SpringerToPaper(r, s1).journal)
  {
  }

  // ---------------------------------------------------------------------
  // Semantic Scholar (JSON search hit plus a detail request per hit)
  // ---------------------------------------------------------------------

  datatype ScholarHit = ScholarHit(paperId: JsValue, title: JsValue)

  /** The detail record; `authors` lists each author's `name`. */
  datatype ScholarDetails = ScholarDetails(
    abstractText: JsValue, year: JsValue, authors: Option<seq<JsValue>>,
    venue: JsValue, doi: JsValue, url: JsValue)

  /**
   * `yearDate(year)` is `new Date(year, 0, 1).toISOString()`, which depends on
   * the time zone and is a parameter here.
   */
  function ScholarToPaper(h: ScholarHit, d: ScholarDetails, yearDate: JsValue -> string, scrape: string -> string): Paper {
    var summary := Or(d.abstractText, Str(NoAbstract));
    var link := Or(d.url, Str("https://www.semanticscholar.org/paper/" + ToJsString(h.paperId)));
    var abstractText := if !Truthy(summary) && Truthy(link) then ScrapedAbstract(scrape, ToJsString(link)) else summary;
    var published := if Truthy(d.year) then Str(yearDate(d.year)) else Str(NoDate);
    NewPaper(h.title, AuthorsOf(d.authors), published, abstractText,
             Or(d.venue, Str(NoJournal)), Or(d.doi, Null), link)
  }

  /** Semantic Scholar never scrapes either; every missing field gets its placeholder and a missing DOI is `null`. */
  lemma ScholarNeverScrapes(h: ScholarHit, d: ScholarDetails, yearDate: JsValue -> string, s1: string -> string, s2: string -> string)
    ensures ScholarToPaper(h, d, yearDate, s1) == ScholarToPaper(h, d, yearDate, s2)
    ensures !Truthy(d.abstractText) ==> ScholarToPaper(h, d, yearDate, s1).abstractText == Str(NoAbstract)
    ensures !Truthy(d.year) ==> ScholarToPaper(h, d, yearDate, s1).publicationDate == Str(NoDate)
    ensures !Truthy(d.venue) ==> ScholarToPaper(h, d, yearDate, s1).journal == Str(NoJournal)
    ensures !Truthy(d.doi) ==> ScholarToPaper(h, d, yearDate, s1).doi == Null
  {
  }

  /**
   * `fetchSemanticScholarPapers` after the search: every hit needs its
   * detail request, and `Promise.all` makes one failed detail reject the
   * whole client (here: the first failure in list order).
   */
  function ScholarPapers(hits: seq<ScholarHit>, details: seq<Result<ScholarDetails, string>>,
                         yearDate: JsValue -> string, scrape: string -> string): (r: Result<seq<Paper>, string>)
    requires |details| == |hits|
    ensures r.Ok? <==> forall i :: 0 <= i < |details| ==> details[i].Ok?
    ensures r.Ok? ==>
      && |r.value| == |hits|
      && forall i :: 0 <= i < |hits| ==> r.value[i] == ScholarToPaper(hits[i], details[i].value, yearDate, scrape)
    ensures r.Err? ==> exists i :: 0 <= i < |details| && details[i] == Err(r.error)
  {
    if hits == [] then Ok([])
    else if details[0].Err? then Err(details[0].error)
    else
      var rest := ScholarPapers(hits[1..], details[1..], yearDate, scrape);
      if rest.Err? then
        ghost var i :| 0 <= i < |details[1..]| && details[1..][i] == Err(rest.error);
        assert details[i + 1] == details[1..][i];
        Err(rest.error)
      else
        assert forall i :: 1 <= i < |details| ==> details[i] == details[1..][i - 1];
        Ok([ScholarToPaper(hits[0], details[0].value, yearDate, scrape)] + rest.value)
  }

  // ---------------------------------------------------------------------
  // CrossRef (JSON)
  // ---------------------------------------------------------------------

  datatype CrossRefAuthor = CrossRefAuthor(family: JsValue, given: JsValue)

  /**
   * One item. `published` is `date-parts[0]` when `published` is present,
   * `authors` the `author` array, `containerTitle` the `container-title` array.
   */
  datatype CrossRefItem = CrossRefItem(
    doi: JsValue, title: JsValue, published: Option<seq<JsValue>>,
    authors: Option<seq<CrossRefAuthor>>, containerTitle: Option<seq<JsValue>>)

  /** `${family || ''}${given ? ', ' + given : ''}`. */
  function CrossRefAuthorName(a: CrossRefAuthor): string {
    ToJsString(Or(a.family, Str(""))) + (if Truthy(a.given) then ", " + ToJsString(a.given) else "")
  }

  function CrossRefAuthorNames(as_: seq<CrossRefAuthor>): (r: seq<string>)
    ensures |r| == |as_| && forall i :: 0 <= i < |as_| ==> r[i] == CrossRefAuthorName(as_[i])
  {
    if as_ == [] then [] else [CrossRefAuthorName(as_[0])] + CrossRefAuthorNames(as_[1..])
  }

  /** `xs[0]`, `undefined` for an empty array. */
  function FirstOr(xs: seq<JsValue>): JsValue {
    if xs == [] then Undefined else xs[0]
  }

  function CrossRefToPaper(item: CrossRefItem, scrape: string -> string): Paper {
    var title := if item.title.Arr? then FirstOr(item.title.items) else Or(item.title, Str(NoTitle));
    var published := match item.published
      case Some(parts) => Str(JoinValues(parts, "-"))
      case None => Str(NoDate);
    var authors := match item.authors
      case Some(as_) => CrossRefAuthorNames(as_)
      case None => [];
    var journal := match item.containerTitle
      case Some(ts) => FirstOr(ts)
      case None => Str(NoJournal);
    var link := "https://doi.org/" + ToJsString(item.doi);
    var summary := Str("Abstract not available in CrossRef API");
    var abstractText := if link != "" then ScrapedAbstract(scrape, link) else summary;
    NewPaper(title, Join(authors, ", "), published, abstractText, journal, item.doi, Str(link))
  }

  /** CrossRef always scrapes the DOI landing page: the abstract is the scraper's answer or the placeholder, never CrossRef's own text. */
  lemma CrossRefAlwaysScrapes(item: CrossRefItem, scrape: string -> string)
    ensures CrossRefToPaper(item, scrape).abstractText == ScrapedAbstract(scrape, "https://doi.org/" + ToJsString(item.doi))
    ensures scrape("https://doi.org/" + ToJsString(item.doi)) != "" ==>
      CrossRefToPaper(item, scrape).abstractText == Str(scrape("https://doi.org/" + ToJsString(item.doi)))
  {
  }

  /** Map a list of records, in order. */
  function ArxivPapers(es: seq<ArxivEntry>, scrape: string -> string): (r: seq<Paper>)
    ensures |r| == |es| && forall i :: 0 <= i < |es| ==> r[i] == ArxivToPaper(es[i], scrape)
  {
    if es == [] then [] else [ArxivToPaper(es[0], scrape)] + ArxivPapers(es[1..], scrape)
  }

  function SpringerPapers(rs: seq<SpringerRecord>, scrape: string -> string): (r: seq<Paper>)
    ensures |r| == |rs| && forall i :: 0 <= i < |rs| ==> r[i] == SpringerToPaper(rs[i], scrape)
  {
    if rs == [] then [] else [SpringerToPaper(rs[0], scrape)] + SpringerPapers(rs[1..], scrape)
  }

  function CrossRefPapers(items: seq<CrossRefItem>, scrape: string -> string): (r: seq<Paper>)
    ensures |r| == |items| && forall i :: 0 <= i < |items| ==> r[i] == CrossRefToPaper(items[i], scrape)
  {
    if items == [] then [] else [CrossRefToPaper(items[0], scrape)] + CrossRefPapers(items[1..], scrape)
  }
}
