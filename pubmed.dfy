/**
 * The PubMed client after its search request (`PubMedClient` in app.mjs):
 * `fetchPaperDetails` rebuilds a paper from the efetch XML, and
 * `fetchPubMedPapers` walks the search hits, dropping every id whose detail
 * request failed.
 *
 * The XML is taken as xml2js delivers it; a text node that is absent is
 * the empty string here.
 */
module PubMed {
  import opened Wrappers
  import opened JsText
  import opened JsValues
  import opened Papers
  import Sources

  /** One `AbstractText` entry: a bare string, or an element with text `_` and attribute `Label`. */
  datatype AbstractItem = Text(s: string) | Element(text: string, labelAttr: string)

  /** `Label: text`, the text alone without a label, `''` without text. */
  function AbstractSegment(item: AbstractItem): string {
    match item
    case Text(s) => s
    case Element(text, labelAttr) =>
      if text != "" && labelAttr != "" then labelAttr + ": " + text
      else text
  }

  function AbstractSegments(items: seq<AbstractItem>): (r: seq<string>)
    ensures |r| == |items| && forall i :: 0 <= i < |items| ==> r[i] == AbstractSegment(items[i])
  {
    if items == [] then [] else [AbstractSegment(items[0])] + AbstractSegments(items[1..])
  }

  /** The abstract: the segments joined with newlines. */
  function AbstractOf(items: seq<AbstractItem>): string {
    Join(AbstractSegments(items), "\n")
  }

  predicate NoChar(s: string, c: char) {
    forall j :: 0 <= j < |s| ==> s[j] != c
  }

  /**
   * Splitting the abstract at its newlines gives back one segment per
   * `AbstractText` entry, in order, when no segment holds a newline itself.
   */
  lemma AbstractLines(items: seq<AbstractItem>)
    requires |items| >= 1
    requires forall i :: 0 <= i < |items| ==> NoChar(AbstractSegment(items[i]), '\n')
    ensures Split(AbstractOf(items), {'\n'}) == AbstractSegments(items)
  {
    SplitJoin(AbstractSegments(items), '\n', {'\n'});
  }

  /** A labelled entry reads `Label: text`. */
  lemma LabelledSegment(text: string, labelAttr: string)
    requires text != "" && labelAttr != ""
    ensures StartsWith(AbstractSegment(Element(text, labelAttr)), labelAttr + ": ")
    ensures AbstractSegment(Element(text, labelAttr))[|labelAttr| + 2..] == text
  {
    assert AbstractSegment(Element(text, labelAttr)) == (labelAttr + ": ") + text;
  }

  datatype Author = Author(lastName: string, foreName: string, initials: string)

  /** `Last Fore`, or `Last Initials` only when there is no forename. */
  function AuthorName(a: Author): string {
    a.lastName + (if a.foreName != "" then " " + a.foreName else "")
      + (if a.foreName == "" && a.initials != "" then " " + a.initials else "")
  }

  /**
   * Read back at the space: the last name, then the forename when there is
   * one, else the initials when there are some; the initials never appear
   * beside a forename.
   */
  lemma AuthorNameParts(a: Author)
    requires NoChar(a.lastName, ' ') && NoChar(a.foreName, ' ') && NoChar(a.initials, ' ')
    ensures Split(AuthorName(a), {' '}) ==
      [a.lastName] + (if a.foreName != "" then [a.foreName] else if a.initials != "" then [a.initials] else [])
  {
    var parts := [a.lastName] + (if a.foreName != "" then [a.foreName] else if a.initials != "" then [a.initials] else []);
    if a.foreName != "" {
      assert AuthorName(a) == Join(parts, " ");
    } else if a.initials != "" {
      assert AuthorName(a) == Join(parts, " ");
    } else {
      assert AuthorName(a) == Join(parts, " ");
    }
    SplitJoin(parts, ' ', {' '});
  }

  function AuthorNames(as_: seq<Author>): (r: seq<string>)
    ensures |r| == |as_| && forall i :: 0 <= i < |as_| ==> r[i] == AuthorName(as_[i])
  {
    if as_ == [] then [] else [AuthorName(as_[0])] + AuthorNames(as_[1..])
  }

  datatype PubDate = PubDate(year: string, month: string, day: string)

  /** `Y[-M][-D]`, or the placeholder without a `PubDate` element. */
  function PublishedOf(d: Option<PubDate>): string {
    match d
    case None => NoDate
    case Some(pd) =>
      pd.year + (if pd.month != "" then "-" + pd.month else "") + (if pd.day != "" then "-" + pd.day else "")
  }

  /** Read back at the dashes, the date gives the year and then each part that was present. */
  lemma PublishedParts(pd: PubDate)
    requires NoChar(pd.year, '-') && NoChar(pd.month, '-') && NoChar(pd.day, '-')
    ensures Split(PublishedOf(Some(pd)), {'-'}) ==
      [pd.year] + (if pd.month != "" then [pd.month] else []) + (if pd.day != "" then [pd.day] else [])
  {
    var parts := [pd.year] + (if pd.month != "" then [pd.month] else []) + (if pd.day != "" then [pd.day] else []);
    if pd.month != "" && pd.day != "" {
      assert parts == [pd.year, pd.month, pd.day];
      assert Join(parts[1..], "-") == pd.month + "-" + pd.day;
    } else if pd.month != "" {
      assert parts == [pd.year, pd.month];
    } else if pd.day != "" {
      assert parts == [pd.year, pd.day];
    } else {
      assert parts == [pd.year];
    }
    assert PublishedOf(Some(pd)) == Join(parts, "-");
    SplitJoin(parts, '-', {'-'});
  }

  /** One `ArticleId`: its `IdType` attribute, if any, and its text. */
  datatype ArticleId = ArticleId(idType: Option<string>, value: string)

  /** `articleIdList.find(id => id.$ && id.$.IdType === 'doi')`. */
  function FirstDoi(ids: seq<ArticleId>): (r: Option<nat>)
    ensures r.Some? ==>
      && r.value < |ids| && ids[r.value].idType == Some("doi")
      && forall j :: 0 <= j < r.value ==> ids[j].idType != Some("doi")
    ensures r.None? ==> forall j :: 0 <= j < |ids| ==> ids[j].idType != Some("doi")
  {
    if ids == [] then None
    else if ids[0].idType == Some("doi") then Some(0)
    else
      match FirstDoi(ids[1..])
      case Some(i) =>
        assert forall j :: 1 <= j <= i ==> ids[j] == ids[1..][j - 1];
        Some(i + 1)
      case None => None
  }

  /** `find(...)?._ || null`: only the first DOI entry counts, and an empty one gives `null`. */
  function DoiOf(ids: seq<ArticleId>): JsValue {
    match FirstDoi(ids)
    case Some(i) => if ids[i].value != "" then Str(ids[i].value) else Null
    case None => Null
  }

  /** The DOI is the text of the first entry typed `doi` when that text is non-empty, and `null` otherwise. */
  lemma DoiIsFirstTyped(ids: seq<ArticleId>, i: nat)
    requires i < |ids| && ids[i].idType == Some("doi")
    requires forall j :: 0 <= j < i ==> ids[j].idType != Some("doi")
    ensures DoiOf(ids) == if ids[i].value != "" then Str(ids[i].value) else Null
  {
  }

  /** The `Article` element: `ArticleTitle[0]` (a string, or an object for marked-up titles) and the other fields. */
  datatype Article = Article(title: JsValue, abstractItems: seq<AbstractItem>, authors: seq<Author>,
                             journalTitle: string, pubDate: Option<PubDate>)

  /** A parsed efetch answer: the article, when present, and the `ArticleIdList`. */
  datatype Efetch = Efetch(article: Option<Article>, articleIds: seq<ArticleId>)

  /** What `fetchPaperDetails` resolves to. */
  datatype Details = Details(title: JsValue, abstractText: string, published: string,
                             authors: seq<string>, journal: string, doi: JsValue)

  function PaperDetails(e: Efetch): (d: Details)
    ensures e.article.None? ==> d == Details(Str(NoTitle), NoAbstract, NoDate, [], NoJournal, Null)
    ensures Truthy(d.title) && d.abstractText != "" && d.journal != ""
    ensures e.article.Some? ==> d.doi == DoiOf(e.articleIds) && d.authors == AuthorNames(e.article.value.authors)
    ensures e.article.Some? ==>
      var a := e.article.value;
      && d.title == Or(a.title, Str(NoTitle))
      && d.abstractText == (if AbstractOf(a.abstractItems) != "" then AbstractOf(a.abstractItems) else NoAbstract)
      && d.published == PublishedOf(a.pubDate)
      && d.journal == (if a.journalTitle != "" then a.journalTitle else NoJournal)
  {
    match e.article
    case None => Details(Str(NoTitle), NoAbstract, NoDate, [], NoJournal, Null)
    case Some(a) =>
      var abstractText := AbstractOf(a.abstractItems);
      Details(Or(a.title, Str(NoTitle)),
              if abstractText != "" then abstractText else NoAbstract,
              PublishedOf(a.pubDate),
              AuthorNames(a.authors),
              if a.journalTitle != "" then a.journalTitle else NoJournal,
              DoiOf(e.articleIds))
  }

  /** The article page the client links to. */
  function PubMedLink(id: string): string {
    "https://pubmed.ncbi.nlm.nih.gov/" + id + "/"
  }

  /** The paper built for search hit `id` from its details. */
  function PubMedPaper(id: string, d: Details, scrape: string -> string): Paper {
    var abstractText := Str(if d.abstractText != "" then d.abstractText else NoAbstract);
    var link := Str(PubMedLink(id));
    NewPaper(Or(d.title, Str(NoTitle)), Join(d.authors, ", "),
             Str(if d.published != "" then d.published else NoDate),
             if !Truthy(abstractText) && Truthy(link) then Sources.ScrapedAbstract(scrape, link.s) else abstractText,
             Str(if d.journal != "" then d.journal else NoJournal), Or(d.doi, Null), link)
  }

  /**
   * The abstract placeholder is in place before the `!paper.abstract` test,
   * so PubMed never scrapes; the abstract is the article's, or the placeholder.
   */
  lemma PubMedNeverScrapes(id: string, e: Efetch, s1: string -> string, s2: string -> string)
    ensures PubMedPaper(id, PaperDetails(e), s1) == PubMedPaper(id, PaperDetails(e), s2)
    ensures e.article.Some? && AbstractOf(e.article.value.abstractItems) != "" ==>
      PubMedPaper(id, PaperDetails(e), s1).abstractText == Str(AbstractOf(e.article.value.abstractItems))
    ensures e.article.None? ==>
      var p := PubMedPaper(id, PaperDetails(e), s1);
      p.title == Str(NoTitle) && p.abstractText == Str(NoAbstract) && p.publicationDate == Str(NoDate)
      && p.author == "" && p.journal == Str(NoJournal) && p.doi == Null && p.link == Str(PubMedLink(id))
  {
  }

  /**
   * The paper's title, date and journal come from the article: its title or
   * the placeholder, its `PubDate` read as `Y[-M][-D]` (the placeholder when
   * that is empty), and its journal title or the placeholder.
   */
  lemma PubMedPaperFields(id: string, e: Efetch, scrape: string -> string)
    requires e.article.Some?
    ensures var a := e.article.value;
      var p := PubMedPaper(id, PaperDetails(e), scrape);
      && p.title == Or(a.title, Str(NoTitle))
      && p.publicationDate == Str(if PublishedOf(a.pubDate) != "" then PublishedOf(a.pubDate) else NoDate)
      && p.journal == Str(if a.journalTitle != "" then a.journalTitle else NoJournal)
      && p.doi == Or(DoiOf(e.articleIds), Null) && p.link == Str(PubMedLink(id))
  {
  }

  /** A dated article's paper carries its year, month and day, read back at the dashes. */
  lemma PubMedPaperDate(id: string, e: Efetch, scrape: string -> string, pd: PubDate)
    requires e.article.Some? && e.article.value.pubDate == Some(pd) && pd.year != ""
    requires NoChar(pd.year, '-') && NoChar(pd.month, '-') && NoChar(pd.day, '-')
    ensures var p := PubMedPaper(id, PaperDetails(e), scrape);
      p.publicationDate.Str? && Split(p.publicationDate.s, {'-'}) ==
        [pd.year] + (if pd.month != "" then [pd.month] else []) + (if pd.day != "" then [pd.day] else [])
  {
    PublishedParts(pd);
    PubMedPaperFields(id, e, scrape);
  }

  /** What search hit `id` contributes: its paper, or nothing when `fetchPaperDetails` threw. */
  function HitPaper(id: string, fetched: Option<Efetch>, scrape: string -> string): Option<Paper> {
    match fetched
    case None => None
    case Some(e) => Some(PubMedPaper(id, PaperDetails(e), scrape))
  }

  /** The outcome of every hit, in search order. */
  function HitPapers(ids: seq<string>, fetched: seq<Option<Efetch>>, scrape: string -> string): (r: seq<Option<Paper>>)
    requires |fetched| == |ids|
    ensures |r| == |ids| && forall i :: 0 <= i < |ids| ==> r[i] == HitPaper(ids[i], fetched[i], scrape)
  {
    if ids == [] then [] else [HitPaper(ids[0], fetched[0], scrape)] + HitPapers(ids[1..], fetched[1..], scrape)
  }

  /**
   * The papers `fetchPubMedPapers` returns for the search hits `ids`, where
   * `fetched[i]` is the parsed detail answer for `ids[i]`, `None` when
   * `fetchPaperDetails` threw.
   */
  function PubMedPapers(ids: seq<string>, fetched: seq<Option<Efetch>>, scrape: string -> string): seq<Paper>
    requires |fetched| == |ids|
  {
    Present(HitPapers(ids, fetched, scrape))
  }

  /** One paper per successful detail request: failed ids are dropped, not given placeholders. */
  lemma PubMedPapersCount(ids: seq<string>, fetched: seq<Option<Efetch>>, scrape: string -> string)
    requires |fetched| == |ids|
    ensures |PubMedPapers(ids, fetched, scrape)| == CountPresent(fetched)
  {
    PresentCount(HitPapers(ids, fetched, scrape));
    SameCount(HitPapers(ids, fetched, scrape), fetched);
  }

  /** Removing a hit whose detail request failed changes nothing. */
  lemma PubMedDropsFailed(ids: seq<string>, fetched: seq<Option<Efetch>>, scrape: string -> string, i: nat)
    requires |fetched| == |ids| && i < |ids| && fetched[i].None?
    ensures PubMedPapers(ids, fetched, scrape) ==
      PubMedPapers(ids[..i] + ids[i + 1..], fetched[..i] + fetched[i + 1..], scrape)
  {
    PresentDrop(HitPapers(ids, fetched, scrape), i);
    HitPapersDrop(ids, fetched, scrape, i);
  }

  lemma HitPapersDrop(ids: seq<string>, fetched: seq<Option<Efetch>>, scrape: string -> string, i: nat)
    requires |fetched| == |ids| && i < |ids|
    ensures HitPapers(ids[..i] + ids[i + 1..], fetched[..i] + fetched[i + 1..], scrape)
      == HitPapers(ids, fetched, scrape)[..i] + HitPapers(ids, fetched, scrape)[i + 1..]
  {
  }

  /** When every detail request succeeds, hit `i` becomes paper `i`. */
  lemma {:induction false} PubMedPapersAllFetched(ids: seq<string>, fetched: seq<Option<Efetch>>, scrape: string -> string)
    requires |fetched| == |ids| && forall i :: 0 <= i < |fetched| ==> fetched[i].Some?
    ensures |PubMedPapers(ids, fetched, scrape)| == |ids|
    ensures forall i :: 0 <= i < |ids| ==>
      PubMedPapers(ids, fetched, scrape)[i] == PubMedPaper(ids[i], PaperDetails(fetched[i].value), scrape)
  {
    AllPresent(HitPapers(ids, fetched, scrape));
  }

  /**
   * `fetchPubMedPapers` after the search: visit the hits in order, push the
   * paper of each one whose details arrived and then pause 500 ms; the
   * result is `PubMedPapers`, and the time spent pausing is 500 ms per paper.
   */
  method FetchPubMedPapers(ids: seq<string>, fetched: seq<Option<Efetch>>, scrape: string -> string)
    returns (papers: seq<Paper>, paused: nat)
    requires |fetched| == |ids|
    ensures papers == PubMedPapers(ids, fetched, scrape)
    ensures paused == 500 * |papers|
  {
    papers := [];
    paused := 0;
    ghost var hs := HitPapers(ids, fetched, scrape);
    var i := 0;
    while i < |ids|
      invariant i <= |ids|
      invariant papers == Present(hs[..i])
      invariant paused == 500 * |papers|
    {
      PresentSnoc(hs, i);
      var hit := HitPaper(ids[i], fetched[i], scrape);
      if hit.Some? {
        papers := papers + [hit.value];
        paused := paused + 500;
      }
      i := i + 1;
    }
    assert hs[..i] == hs;
  }
}
