/**
 * The browser page (script.js): which loaded papers are listed, the
 * abstract preview on each card, the order of the "sort" views, and what
 * the detail dialog shows. A card's `data-*` attribute that is missing is
 * read as `""`.
 */
module FrontendScript {
  import opened Wrappers
  import opened JsText
  import opened JsValues
  import opened Papers

  /** The Japanese "could not get the abstract by web scraping" marker the collector may have stored. */
  const ScrapeFailure: string := "ウェブスクレイピングで要旨を取得できませんでした。"

  // ---------------------------------------------------------------------
  // getAbstractPreview
  // ---------------------------------------------------------------------

  /** The default number of sentences a preview shows. */
  const PreviewSentences: nat := 3

  /** The characters `getAbstractPreview` splits an abstract at. */
  const SentenceEnds: set<char> := {'\n', '.'}

  /** `abstract.split(/\n|\./).filter(s => s.trim() !== '')`. */
  function Sentences(text: string): (r: seq<string>)
    ensures forall k :: 0 <= k < |r| ==> Trim(r[k]) != "" && '\n' !in r[k] && '.' !in r[k]
    ensures forall k :: 0 <= k < |r| ==> r[k] in Split(text, SentenceEnds)
    ensures forall p :: p in Split(text, SentenceEnds) && Trim(p) != "" ==> p in r
  {
    var r := NonBlank(Split(text, SentenceEnds));
    assert forall k :: 0 <= k < |r| ==> r[k] in Split(text, SentenceEnds);
    r
  }

  predicate EndsWithEllipsis(s: string) {
    |s| >= 3 && s[|s| - 3..] == "..."
  }

  /**
   * `getAbstractPreview(abstract, lines)`: `''` for an empty abstract;
   * otherwise the first `lines` sentences joined by `'. '`, with `'...'`
   * exactly when sentences were left out. A preview is a single line.
   */
  function AbstractPreview(text: string, lines: nat): (r: string)
    ensures text == "" ==> r == ""
    ensures '\n' !in r
    ensures EndsWithEllipsis(r) <==> |Sentences(text)| > lines
  {
    if text == "" then ""
    else
      var ss := Sentences(text);
      var shown := Join(Take(ss, lines), ". ");
      PreviewFacts(ss, lines);
      shown + (if |ss| > lines then "..." else "")
  }

  /** The joined sentences hold no line break and do not end in a full stop. */
  lemma PreviewFacts(ss: seq<string>, lines: nat)
    requires forall k :: 0 <= k < |ss| ==> Trim(ss[k]) != "" && '\n' !in ss[k] && '.' !in ss[k]
    ensures '\n' !in Join(Take(ss, lines), ". ")
    ensures !EndsWithEllipsis(Join(Take(ss, lines), ". "))
    ensures !EndsWithEllipsis(Join(Take(ss, lines), ". ") + "")
  {
    var parts := Take(ss, lines);
    var j := Join(parts, ". ");
    if '\n' in j {
      JoinChars(parts, ". ", '\n');
    }
    if parts != [] {
      var last := parts[|parts| - 1];
      assert last == ss[|parts| - 1];
      assert last != "";
      JoinLast(parts, ". ");
      assert j[|j| - 1] in last;
    } else {
      assert j == "";
    }
    assert j + "" == j;
  }

  /** A stretch of an abstract between two sentence ends: free of line breaks and full stops. */
  predicate SeparatorFree(s: string) {
    '\n' !in s && '.' !in s
  }

  /** A piece of an abstract the preview shows: not blank, and free of sentence ends. */
  predicate Piece(s: string) {
    Trim(s) != "" && SeparatorFree(s)
  }

  /** Text without a sentence end is one sentence, or none when it is blank. */
  lemma SentencesOfStretch(s: string)
    requires SeparatorFree(s)
    ensures Sentences(s) == if Trim(s) == "" then [] else [s]
  {
    assert forall j :: 0 <= j < |s| ==> s[j] !in SentenceEnds by {
      forall j | 0 <= j < |s| ensures s[j] !in SentenceEnds {
        assert s[j] in s;
      }
    }
    SplitNone(s, SentenceEnds);
  }

  /** Cutting at a line break or a full stop: the sentences before it, then those after it, in order. */
  lemma SentencesAt(a: string, c: char, t: string)
    requires c in SentenceEnds
    ensures Sentences(a + [c] + t) == Sentences(a) + Sentences(t)
  {
    SplitConcat(a, c, t, SentenceEnds);
    NonBlankAppend(Split(a, SentenceEnds), Split(t, SentenceEnds));
  }

  /**
   * Stretches joined by full stops are found again in order, except the
   * blank ones (such as the empty stretch after a closing full stop).
   */
  lemma SentencesOfJoin(ss: seq<string>)
    requires forall k :: 0 <= k < |ss| ==> SeparatorFree(ss[k])
    ensures Sentences(Join(ss, ".")) == NonBlank(ss)
  {
    if ss == [] {
      assert Split("", SentenceEnds) == [""];
      assert Trim("") == "";
    } else {
      forall k, j | 0 <= k < |ss| && 0 <= j < |ss[k]| ensures ss[k][j] !in SentenceEnds {
        assert ss[k][j] in ss[k];
      }
      SplitJoin(ss, '.', SentenceEnds);
    }
  }

  /**
   * The preview of a non-empty abstract made of such stretches: its first
   * `lines` non-blank stretches joined by `'. '`, then `'...'` exactly when
   * non-blank stretches were left out.
   */
  lemma PreviewOfJoin(ss: seq<string>, lines: nat)
    requires forall k :: 0 <= k < |ss| ==> SeparatorFree(ss[k])
    requires Join(ss, ".") != ""
    ensures var shown := NonBlank(ss);
      AbstractPreview(Join(ss, "."), lines) == Join(Take(shown, lines), ". ") + (if |shown| > lines then "..." else "")
  {
    SentencesOfJoin(ss);
  }

  /** A single sentence without a full stop is its own preview. */
  lemma OneSentencePreview(s: string)
    requires Piece(s)
    ensures AbstractPreview(s, PreviewSentences) == s
  {
    PreviewOfJoin([s], PreviewSentences);
    assert s + "" == s;
  }

  /** Four sentences, each closed by a full stop as abstracts usually are, are found again in order. */
  lemma ClosedSentences(a: string, b: string, c: string, d: string)
    requires Piece(a) && Piece(b) && Piece(c) && Piece(d)
    ensures Sentences(a + "." + (b + "." + (c + "." + (d + ".")))) == [a, b, c, d]
  {
    var t3 := d + ".";
    var t2 := c + "." + t3;
    var t1 := b + "." + t2;
    SentencesOfStretch(a);
    SentencesOfStretch(b);
    SentencesOfStretch(c);
    SentencesOfStretch(d);
    SentencesOfStretch("");
    SentencesAt(d, '.', "");
    assert d + ['.'] + "" == t3;
    SentencesAt(c, '.', t3);
    SentencesAt(b, '.', t2);
    SentencesAt(a, '.', t1);
    ListOfFour(a, b, c, d);
  }

  /** A list of four built up one element at a time. */
  lemma ListOfFour<T>(a: T, b: T, c: T, d: T)
    ensures [a] + ([b] + ([c] + ([d] + []))) == [a, b, c, d]
  {
  }

  /**
   * Four sentences, each closed by a full stop: the first three are shown,
   * joined by `'. '`, and an ellipsis marks the fourth.
   */
  lemma FourSentencePreview(a: string, b: string, c: string, d: string)
    requires Piece(a) && Piece(b) && Piece(c) && Piece(d)
    ensures AbstractPreview(a + "." + (b + "." + (c + "." + (d + "."))), PreviewSentences) == a + ". " + (b + ". " + c) + "..."
  {
    var text := a + "." + (b + "." + (c + "." + (d + ".")));
    ClosedSentences(a, b, c, d);
    assert |text| > 0;
    assert Take([a, b, c, d], 3) == [a] + ([b] + [c]);
    JoinCons(b, [c], ". ");
    JoinCons(a, [b] + [c], ". ");
  }

  // ---------------------------------------------------------------------
  // loadPapersData
  // ---------------------------------------------------------------------

  /**
   * A paper the page does not list: its abstract or its translated
   * abstract (each read as `x || ""`) is the scraping-failure marker, or its
   * publication date is on or after the cut-off, which `onOrAfterCutoff`
   * decides.
   */
  predicate Skipped(p: Paper, onOrAfterCutoff: JsValue -> bool) {
    || Or(p.abstractText, Str("")) == Str(ScrapeFailure)
    || Or(p.translatedAbstract, Str("")) == Str(ScrapeFailure)
    || onOrAfterCutoff(p.publicationDate)
  }

  /** The listed papers, in the order of the data. */
  function Listed(data: seq<Paper>, onOrAfterCutoff: JsValue -> bool): (r: seq<Paper>)
    ensures |r| <= |data|
    ensures forall k :: 0 <= k < |r| ==> r[k] in data && !Skipped(r[k], onOrAfterCutoff)
    ensures forall k :: 0 <= k < |data| && !Skipped(data[k], onOrAfterCutoff) ==> data[k] in r
  {
    if data == [] then []
    else if Skipped(data[0], onOrAfterCutoff) then Listed(data[1..], onOrAfterCutoff)
    else [data[0]] + Listed(data[1..], onOrAfterCutoff)
  }

  /** A paper carrying the marker in either abstract field is never listed. */
  lemma MarkerNeverListed(data: seq<Paper>, onOrAfterCutoff: JsValue -> bool)
    ensures forall p :: p in Listed(data, onOrAfterCutoff) ==>
      p.abstractText != Str(ScrapeFailure) && p.translatedAbstract != Str(ScrapeFailure)
  {
  }

  /** Listing two batches is listing each, one after the other: the data's order is kept. */
  lemma {:induction false} ListedAppend(a: seq<Paper>, b: seq<Paper>, onOrAfterCutoff: JsValue -> bool)
    ensures Listed(a + b, onOrAfterCutoff) == Listed(a, onOrAfterCutoff) + Listed(b, onOrAfterCutoff)
  {
    if a != [] {
      assert (a + b)[1..] == a[1..] + b;
      ListedAppend(a[1..], b, onOrAfterCutoff);
    } else {
      assert a + b == b;
    }
  }

  /** Listing is a filter: applying it again changes nothing. */
  lemma {:induction false} ListedIdempotent(data: seq<Paper>, onOrAfterCutoff: JsValue -> bool)
    ensures Listed(Listed(data, onOrAfterCutoff), onOrAfterCutoff) == Listed(data, onOrAfterCutoff)
  {
    if data != [] {
      ListedIdempotent(data[1..], onOrAfterCutoff);
    }
  }

  /** `loadPapersData`: walk the fetched array, skip the papers not to list, push the rest. */
  method LoadPapersData(data: seq<Paper>, onOrAfterCutoff: JsValue -> bool) returns (papers: seq<Paper>)
    ensures papers == Listed(data, onOrAfterCutoff)
  {
    papers := [];
    var i := 0;
    while i < |data|
      invariant i <= |data|
      invariant papers == Listed(data[..i], onOrAfterCutoff)
    {
      assert data[..i + 1] == data[..i] + [data[i]];
      ListedAppend(data[..i], [data[i]], onOrAfterCutoff);
      if !Skipped(data[i], onOrAfterCutoff) {
        papers := papers + [data[i]];
      } else {
        assert papers + [] == papers;
      }
      i := i + 1;
    }
    assert data[..i] == data;
  }

  // ---------------------------------------------------------------------
  // sortPapers
  // ---------------------------------------------------------------------

  /** The orders `sortPapers` knows: as loaded, by journal, newest first, oldest first. */
  datatype SortKind = AsLoaded | ByJournal | NewestFirst | OldestFirst

  /** The `switch` on the sort type: registration and every unknown type keep the loaded order. */
  function SortKindOf(sortType: string): (k: SortKind)
    ensures k == AsLoaded <==> sortType != "journal" && sortType != "publication" && sortType != "archive"
    ensures sortType == "archive" <==> k == OldestFirst
  {
    match sortType
    case "journal" => ByJournal
    case "publication" => NewestFirst
    case "archive" => OldestFirst
    case _ => AsLoaded
  }

  /**
   * `sortPapers`: a copy of the papers, in loaded order or sorted with the
   * comparator the sort type names; `comparatorSort` stands for the
   * `Array.prototype.sort` calls with the journal and date comparators.
   */
  function SortPapers(papers: seq<Paper>, sortType: string, comparatorSort: (SortKind, seq<Paper>) -> seq<Paper>): (r: seq<Paper>)
    ensures SortKindOf(sortType) == AsLoaded ==> r == papers
  {
    var k := SortKindOf(sortType);
    if k == AsLoaded then papers else comparatorSort(k, papers)
  }

  /** The registration view and any unrecognised view list the papers exactly as loaded. */
  lemma RegistrationKeepsLoadedOrder(papers: seq<Paper>, sortType: string, comparatorSort: (SortKind, seq<Paper>) -> seq<Paper>)
    requires sortType == "registration" || sortType !in {"journal", "publication", "archive"}
    ensures SortPapers(papers, sortType, comparatorSort) == papers
  {
  }

  // ---------------------------------------------------------------------
  // openModal
  // ---------------------------------------------------------------------

  /** The dialog title: the original title, followed by the translated one in parentheses when that is not blank. */
  function DisplayTitle(title: string, translatedTitle: string): (r: string)
    ensures StartsWith(r, title)
    ensures r == title <==> IsBlank(translatedTitle)
    ensures !IsBlank(translatedTitle) ==> r[|title|..] == " (" + translatedTitle + ")"
  {
    TrimFacts(translatedTitle);
    if translatedTitle != "" && Trim(translatedTitle) != "" then
      var r := title + " (" + translatedTitle + ")";
      assert r[..|title|] == title;
      r
    else title
  }

  /** The paper link is shown only for a URL that is not empty, not `'#'` and not blank. */
  predicate LinkShown(url: string) {
    url != "" && url != "#" && Trim(url) != ""
  }

  /** The link is shown exactly for a URL other than `'#'` with a character that is not white space. */
  lemma LinkShownIff(url: string)
    ensures LinkShown(url) <==> url != "#" && exists i :: 0 <= i < |url| && !IsSpace(url[i])
  {
    TrimFacts(url);
  }

  const NoTranslation: string := "No translation available"

  /** The dialog's translation text: `translatedAbstract || 'No translation available'`. */
  function TranslationText(translatedAbstract: string): string {
    if translatedAbstract != "" then translatedAbstract else NoTranslation
  }

  /** The translation section is shown for a non-blank translation that differs from the abstract and from the placeholder. */
  predicate TranslationShown(translatedAbstract: string, text: string) {
    translatedAbstract != "" && Trim(translatedAbstract) != ""
    && translatedAbstract != text && translatedAbstract != NoTranslation
  }

  /**
   * When the section is shown, it shows the translation itself, which is
   * not blank and not the abstract; the placeholder text is never shown in
   * a visible section.
   */
  lemma TranslationSectionShowsTranslation(translatedAbstract: string, text: string)
    ensures TranslationShown(translatedAbstract, text) ==>
      TranslationText(translatedAbstract) == translatedAbstract && !IsBlank(translatedAbstract)
      && TranslationText(translatedAbstract) != text
    ensures TranslationText(translatedAbstract) == NoTranslation ==> !TranslationShown(translatedAbstract, text)
  {
    TrimFacts(translatedAbstract);
  }
}
