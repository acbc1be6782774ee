/**
 * The bundled page script (src/index.js): the view state (`appState`), the
 * category filter, the acquisition comparator, and what a sort or filter
 * click leaves visible in the paper grid and among the date headers.
 *
 * A paper card is its `data-*` values; a card or header together with
 * whether its `style.display` is not `'none'` is an `Element` or `Header`.
 * The grid is its children in document order. The comparator sorts other
 * than acquisition compare dates or use `localeCompare`; they are the
 * parameter `sortWith`, given the name of the sorter to use, which gives
 * `None` when the comparator throws.
 */
module FrontendIndex {
  import opened Wrappers
  import opened JsText

  /** `dataset.category`, `dataset.index`, `dataset.date` and `dataset.journal` of a card; `None` for a missing attribute. */
  datatype Card = Card(category: Option<string>, index: string, date: Option<string>, journal: Option<string>)

  datatype Element = Element(card: Card, shown: bool)
  datatype Header = Header(text: string, shown: bool)

  const InitialCategory: string := "教育・労働経済学"

  // ---------------------------------------------------------------------
  // filters and sorters
  // ---------------------------------------------------------------------

  /** `filters.category`: no category or `'all'` accepts every card, otherwise the card's category must be that one. */
  predicate InCategory(card: Card, category: string) {
    category == "" || category == "all" || card.category == Some(category)
  }

  /**
   * `sorters.acquisition`: the difference of the decimal `data-index`
   * values. When either does not parse the difference is `NaN`, which
   * `Array.prototype.sort` treats as `0`.
   */
  function AcquisitionCompare(a: Card, b: Card): int {
    match (ParseInt(a.index), ParseInt(b.index))
    case (Some(x), Some(y)) => x - y
    case _ => 0
  }

  /** Indexes written as decimals order the cards by their numbers, and the comparator is antisymmetric. */
  lemma AcquisitionOrdersByIndex(a: Card, b: Card, m: nat, n: nat)
    requires a.index == NatToString(m) && b.index == NatToString(n)
    ensures AcquisitionCompare(a, b) < 0 <==> m < n
    ensures AcquisitionCompare(a, b) == 0 <==> m == n
    ensures AcquisitionCompare(a, b) == -AcquisitionCompare(b, a)
  {
    ParseIntOfNatToString(m);
    ParseIntOfNatToString(n);
  }

  /** A card whose index does not parse ties with every card. */
  lemma UnparsedIndexTies(a: Card, b: Card)
    requires ParseInt(a.index).None?
    ensures AcquisitionCompare(a, b) == 0 && AcquisitionCompare(b, a) == 0
  {
  }

  /** The sorters that exist. */
  const SorterNames: set<string> := {"registration", "acquisition", "journal", "publication"}

  /** `sorters[currentSortType] || sorters.registration`: an unknown sort type, `'archive'` included, sorts by registration. */
  function SorterName(sortType: Option<string>): (name: string)
    ensures name in SorterNames
    ensures sortType.Some? && sortType.value in SorterNames ==> name == sortType.value
    ensures sortType.None? || sortType.value !in SorterNames ==> name == "registration"
  {
    if sortType.Some? && sortType.value in SorterNames then sortType.value else "registration"
  }

  /** The archive view sorts like the registration view. */
  lemma ArchiveSortsByRegistration()
    ensures SorterName(Some("archive")) == "registration"
  {
  }

  /** The button labels, in the order they are tried, and the sort type each gives. */
  const SortLabels: seq<(string, string)> := [
    ("登録日付順", "registration"), ("取得順", "acquisition"), ("ジャーナル別", "journal"),
    ("出版日別", "publication"), ("アーカイブ", "archive")]

  /** The sort type of the first label the text contains. */
  function FirstLabel(text: string, labels: seq<(string, string)>): (r: Option<string>)
    ensures r.None? <==> forall k :: 0 <= k < |labels| ==> !Includes(text, labels[k].0)
    ensures r.Some? ==>
      exists k :: (0 <= k < |labels| && Includes(text, labels[k].0) && r.value == labels[k].1
                   && forall j :: 0 <= j < k ==> !Includes(text, labels[j].0))
  {
    if labels == [] then None
    else if Includes(text, labels[0].0) then Some(labels[0].1)
    else
      var r := FirstLabel(text, labels[1..]);
      assert forall k :: 1 <= k < |labels| ==> labels[k] == labels[1..][k - 1];
      if r.Some? then
        var k :| 0 <= k < |labels[1..]| && Includes(text, labels[1..][k].0) && r.value == labels[1..][k].1
          && forall j :: 0 <= j < k ==> !Includes(text, labels[1..][j].0);
        assert labels[k + 1] == labels[1..][k];
        r
      else r
  }

  /**
   * The `data-sort-type` a button ends up with: the type of the first label
   * its trimmed text contains, or the value it already had when it
   * contains none.
   */
  function ButtonSortType(existing: Option<string>, text: string): (r: Option<string>)
    ensures FirstLabel(Trim(text), SortLabels).None? ==> r == existing
    ensures FirstLabel(Trim(text), SortLabels).Some? ==> r == FirstLabel(Trim(text), SortLabels)
  {
    match FirstLabel(Trim(text), SortLabels)
    case Some(t) => Some(t)
    case None => existing
  }

  // ---------------------------------------------------------------------
  // What an update leaves in the grid
  // ---------------------------------------------------------------------

  /** The cards of the grid, in order. */
  function Cards(grid: seq<Element>): (r: seq<Card>)
    ensures |r| == |grid| && forall i :: 0 <= i < |grid| ==> r[i] == grid[i].card
  {
    seq(|grid|, i requires 0 <= i < |grid| => grid[i].card)
  }

  /** `papers.filter(paper => filters.category(paper, category))`. */
  function Accepted(cards: seq<Card>, category: string): (r: seq<Card>)
    ensures forall c :: c in r ==> c in cards && InCategory(c, category)
  {
    if cards == [] then []
    else if InCategory(cards[0], category) then [cards[0]] + Accepted(cards[1..], category)
    else Accepted(cards[1..], category)
  }

  /** The cards the filter turns away, in order. */
  function Rejected(cards: seq<Card>, category: string): (r: seq<Card>)
    ensures forall c :: c in r ==> c in cards && !InCategory(c, category)
  {
    if cards == [] then []
    else if InCategory(cards[0], category) then Rejected(cards[1..], category)
    else [cards[0]] + Rejected(cards[1..], category)
  }

  /** The filter splits the cards: together the accepted and the rejected ones are all of them. */
  lemma {:induction false} FilterSplits(cards: seq<Card>, category: string)
    ensures multiset(Accepted(cards, category)) + multiset(Rejected(cards, category)) == multiset(cards)
  {
    if cards != [] {
      FilterSplits(cards[1..], category);
      assert cards == [cards[0]] + cards[1..];
    }
  }

  lemma {:induction false} RejectedAppend(a: seq<Card>, b: seq<Card>, category: string)
    ensures Rejected(a + b, category) == Rejected(a, category) + Rejected(b, category)
  {
    if a != [] {
      assert (a + b)[0] == a[0] && (a + b)[1..] == a[1..] + b;
      RejectedAppend(a[1..], b, category);
      if !InCategory(a[0], category) {
        calc {
          Rejected(a + b, category);
          [a[0]] + Rejected(a[1..] + b, category);
          [a[0]] + (Rejected(a[1..], category) + Rejected(b, category));
        }
      }
    } else {
      assert a + b == b;
    }
  }

  /** `displayPapers`: every card in the archive view, otherwise the accepted ones. */
  function Displayed(cards: seq<Card>, category: string, isArchive: bool): seq<Card> {
    if isArchive then cards else Accepted(cards, category)
  }

  /** The cards left hidden: none in the archive view, otherwise the rejected ones. */
  function Hidden(cards: seq<Card>, category: string, isArchive: bool): seq<Card> {
    if isArchive then [] else Rejected(cards, category)
  }

  function AsElements(cards: seq<Card>, shown: bool): (r: seq<Element>)
    ensures |r| == |cards| && forall i :: 0 <= i < |cards| ==> r[i] == Element(cards[i], shown)
  {
    seq(|cards|, i requires 0 <= i < |cards| => Element(cards[i], shown))
  }

  /**
   * The grid after `updatePapersDisplay`: every card is hidden, then each
   * sorted card is shown and moved to the end, so the hidden cards stay in
   * front in their old order and the sorted ones follow.
   */
  function Arranged(cards: seq<Card>, category: string, isArchive: bool, sorted: seq<Card>): seq<Element> {
    AsElements(Hidden(cards, category, isArchive), false) + AsElements(sorted, true)
  }

  /**
   * The two loops of `updatePapersDisplay` after the sort: every card is
   * hidden, then each sorted card is shown and moved to the end.
   */
  method ArrangeGrid(cards: seq<Card>, category: string, isArchive: bool, sorted: seq<Card>) returns (arranged: seq<Element>)
    ensures arranged == Arranged(cards, category, isArchive, sorted)
  {
    var hidden := HideAll(cards, category, isArchive);
    arranged := ShowSorted(hidden, sorted);
  }

  /** The first loop: the cards that stay hidden keep their order at the front of the grid. */
  method HideAll(cards: seq<Card>, category: string, isArchive: bool) returns (hidden: seq<Element>)
    ensures hidden == AsElements(Hidden(cards, category, isArchive), false)
  {
    hidden := [];
    var i := 0;
    while i < |cards|
      invariant i <= |cards|
      invariant hidden == AsElements(Hidden(cards[..i], category, isArchive), false)
    {
      assert cards[..i + 1] == cards[..i] + [cards[i]];
      RejectedAppend(cards[..i], [cards[i]], category);
      if !isArchive && !InCategory(cards[i], category) {
        hidden := hidden + [Element(cards[i], false)];
      }
      i := i + 1;
    }
    assert cards[..i] == cards;
  }

  /** The second loop: each sorted card is shown and appended, in sorted order. */
  method ShowSorted(front: seq<Element>, sorted: seq<Card>) returns (grid: seq<Element>)
    ensures grid == front + AsElements(sorted, true)
  {
    grid := front;
    var j := 0;
    while j < |sorted|
      invariant j <= |sorted|
      invariant grid == front + AsElements(sorted[..j], true)
    {
      assert sorted[..j + 1] == sorted[..j] + [sorted[j]];
      grid := grid + [Element(sorted[j], true)];
      j := j + 1;
    }
    assert sorted[..j] == sorted;
  }

  /**
   * Whether the sorter `name` certainly throws on the cards `cs`:
   * `registration` calls `dataset.date.replace` on both cards it compares,
   * which throws a TypeError for a card without `data-date`. With two or
   * more cards every card takes part in some comparison; with fewer the
   * comparator is never called.
   */
  predicate SortThrows(name: string, cs: seq<Card>) {
    |cs| >= 2 && name == "registration" && exists c :: c in cs && c.date.None?
  }

  /**
   * Whether the `journal` sorter may throw on `cs`: it calls
   * `dataset.journal.localeCompare` on its first argument only, so a card
   * without `data-journal` throws only when the engine passes it first,
   * which depends on the engine's sort; `localeCompare(undefined)` itself
   * does not throw.
   */
  predicate JournalMayThrow(cs: seq<Card>) {
    |cs| >= 2 && exists c :: c in cs && c.journal.None?
  }

  /** A sort that only reorders when it does not throw. */
  ghost predicate Reorders(sortWith: (string, seq<Card>) -> Option<seq<Card>>) {
    forall name, cs :: sortWith(name, cs).Some? ==> multiset(sortWith(name, cs).value) == multiset(cs)
  }

  /**
   * A sort that throws where the page's sorters do: the registration,
   * acquisition and publication sorts exactly when `SortThrows` says so,
   * the journal sort only where it may.
   */
  ghost predicate ThrowsAsSorters(sortWith: (string, seq<Card>) -> Option<seq<Card>>) {
    forall name, cs :: name in SorterNames ==>
      && (name != "journal" ==> (sortWith(name, cs).None? <==> SortThrows(name, cs)))
      && (name == "journal" && sortWith(name, cs).None? ==> JournalMayThrow(cs))
  }

  /** A sort that keeps the order and throws only where the registration sort must. */
  function KeepOrderUnlessThrows(name: string, cs: seq<Card>): Option<seq<Card>> {
    if SortThrows(name, cs) then None else Some(cs)
  }

  /** The hypotheses about the sort can be met together, so the lemmas that assume them are not vacuous. */
  lemma SortHypothesesMet()
    ensures ThrowsAsSorters(KeepOrderUnlessThrows) && Reorders(KeepOrderUnlessThrows)
  {
  }

  /**
   * After an update exactly the displayed cards are visible: every card in
   * the archive view, otherwise exactly those of the current category; and
   * no card is lost or duplicated.
   */
  lemma ExactlyDisplayedVisible(cards: seq<Card>, category: string, isArchive: bool, sorted: seq<Card>)
    requires multiset(sorted) == multiset(Displayed(cards, category, isArchive))
    ensures var g := Arranged(cards, category, isArchive, sorted);
      forall i :: 0 <= i < |g| ==> (g[i].shown <==> isArchive || InCategory(g[i].card, category))
    ensures multiset(Cards(Arranged(cards, category, isArchive, sorted))) == multiset(cards)
  {
    var hidden := Hidden(cards, category, isArchive);
    var g := Arranged(cards, category, isArchive, sorted);
    forall i | 0 <= i < |g| ensures g[i].shown <==> isArchive || InCategory(g[i].card, category) {
      if i < |hidden| {
        assert g[i].card == hidden[i];
      } else {
        assert g[i].card == sorted[i - |hidden|];
        assert g[i].card in multiset(Displayed(cards, category, isArchive));
      }
    }
    assert Cards(g) == hidden + sorted;
    FilterSplits(cards, category);
    if isArchive {
      assert hidden == [];
    }
  }

  /** The archive view shows every card of the grid. */
  lemma ArchiveShowsAll(cards: seq<Card>, category: string, sorted: seq<Card>)
    requires multiset(sorted) == multiset(cards)
    ensures forall e :: e in Arranged(cards, category, true, sorted) ==> e.shown
  {
    assert Hidden(cards, category, true) == [];
  }

  // ---------------------------------------------------------------------
  // Date headers
  // ---------------------------------------------------------------------

  /** A visible card with a non-empty date. */
  predicate ShownDated(e: Element) {
    e.shown && e.card.date.Some? && e.card.date.value != ""
  }

  /** `visibleDates`: the non-empty dates of the visible cards. */
  function VisibleDates(grid: seq<Element>): set<string> {
    set k | 0 <= k < |grid| && ShownDated(grid[k]) :: grid[k].card.date.value
  }

  /** A header is shown when some visible date contains its trimmed text. */
  predicate HeaderVisible(text: string, dates: set<string>) {
    exists d :: d in dates && Includes(d, Trim(text))
  }

  /** The headers after `updateDateHeaders`. */
  function Headed(headers: seq<Header>, grid: seq<Element>): (r: seq<Header>)
    ensures |r| == |headers|
  {
    seq(|headers|, i requires 0 <= i < |headers| => Header(headers[i].text, HeaderVisible(headers[i].text, VisibleDates(grid))))
  }

  /** A header is shown exactly when a visible card's date contains the header's trimmed text; its text is kept. */
  lemma HeaderRule(headers: seq<Header>, grid: seq<Element>, k: nat)
    requires k < |headers|
    ensures Headed(headers, grid)[k].text == headers[k].text
    ensures Headed(headers, grid)[k].shown <==>
      exists i :: 0 <= i < |grid| && ShownDated(grid[i]) && Includes(grid[i].card.date.value, Trim(headers[k].text))
  {
    var t := Trim(headers[k].text);
    if Headed(headers, grid)[k].shown {
      var d :| d in VisibleDates(grid) && Includes(d, t);
      var i :| 0 <= i < |grid| && ShownDated(grid[i]) && grid[i].card.date.value == d;
    }
    if exists i :: 0 <= i < |grid| && ShownDated(grid[i]) && Includes(grid[i].card.date.value, t) {
      var i :| 0 <= i < |grid| && ShownDated(grid[i]) && Includes(grid[i].card.date.value, t);
      assert grid[i].card.date.value in VisibleDates(grid);
    }
  }

  /** A blank header is shown as soon as any visible card has a date, since every string contains `""`. */
  lemma BlankHeaderShown(text: string, grid: seq<Element>, i: nat)
    requires Trim(text) == "" && i < |grid| && ShownDated(grid[i])
    ensures HeaderVisible(text, VisibleDates(grid))
  {
    var d := grid[i].card.date.value;
    assert d in VisibleDates(grid);
    assert OccursAt(d, "", 0);
  }

  /** Adding one element to the scanned cards adds at most its date. */
  lemma VisibleDatesStep(grid: seq<Element>, i: nat)
    requires i < |grid|
    ensures VisibleDates(grid[..i + 1]) ==
      VisibleDates(grid[..i]) + (if ShownDated(grid[i]) then {grid[i].card.date.value} else {})
  {
    var a := grid[..i];
    var b := grid[..i + 1];
    forall d | d in VisibleDates(b) ensures d in VisibleDates(a) + (if ShownDated(grid[i]) then {grid[i].card.date.value} else {}) {
      var k :| 0 <= k < |b| && ShownDated(b[k]) && b[k].card.date.value == d;
      if k < i {
        assert a[k] == b[k];
      }
    }
    forall d | d in VisibleDates(a) ensures d in VisibleDates(b) {
      var k :| 0 <= k < |a| && ShownDated(a[k]) && a[k].card.date.value == d;
      assert b[k] == a[k];
    }
    if ShownDated(grid[i]) {
      assert b[i] == grid[i];
    }
  }

  /** The first loop of `updateDateHeaders`: the dates of the visible dated cards. */
  method GatherDates(grid: seq<Element>) returns (dates: set<string>)
    ensures dates == VisibleDates(grid)
  {
    dates := {};
    var i := 0;
    while i < |grid|
      invariant i <= |grid|
      invariant dates == VisibleDates(grid[..i])
    {
      VisibleDatesStep(grid, i);
      if ShownDated(grid[i]) {
        dates := dates + {grid[i].card.date.value};
      }
      i := i + 1;
    }
    assert grid[..i] == grid;
  }

  /** The second loop of `updateDateHeaders`: each header is shown exactly when some gathered date contains its trimmed text. */
  method ShowHeaders(headers: seq<Header>, grid: seq<Element>, dates: set<string>) returns (updated: seq<Header>)
    requires dates == VisibleDates(grid)
    ensures updated == Headed(headers, grid)
  {
    updated := [];
    var j := 0;
    while j < |headers|
      invariant j <= |headers|
      invariant updated == Headed(headers, grid)[..j]
    {
      var shown := exists d :: d in dates && Includes(d, Trim(headers[j].text));
      updated := updated + [Header(headers[j].text, shown)];
      j := j + 1;
    }
  }

  // ---------------------------------------------------------------------
  // The page and its state
  // ---------------------------------------------------------------------

  class Page {
    /** `appState`. */
    var sortType: Option<string>
    var category: string
    var isArchive: bool
    /** The paper grid's children and the date headers, with their visibility. */
    var grid: seq<Element>
    var headers: seq<Header>

    /** The page as loaded: the initial view state, every card and header visible. */
    constructor (cards: seq<Card>, headerTexts: seq<string>)
      ensures sortType == Some("registration") && category == InitialCategory && !isArchive
      ensures grid == AsElements(cards, true)
      ensures |headers| == |headerTexts| && forall i :: 0 <= i < |headerTexts| ==> headers[i] == Header(headerTexts[i], true)
    {
      sortType := Some("registration");
      category := InitialCategory;
      isArchive := false;
      grid := AsElements(cards, true);
      headers := seq(|headerTexts|, i requires 0 <= i < |headerTexts| => Header(headerTexts[i], true));
    }

    /** `updateDateHeaders`: gather the visible dates, then show each header some date contains. */
    method UpdateDateHeaders()
      modifies this
      ensures sortType == old(sortType) && category == old(category) && isArchive == old(isArchive) && grid == old(grid)
      ensures headers == Headed(old(headers), grid)
    {
      var dates := GatherDates(grid);
      headers := ShowHeaders(headers, grid, dates);
    }

    /**
     * `updatePapersDisplay`: filter or take all, sort, hide every card, show
     * and move the sorted ones, then the headers. When the comparator throws,
     * the update stops at the sort and the page is left as it was.
     */
    method UpdatePapersDisplay(sortWith: (string, seq<Card>) -> Option<seq<Card>>)
      modifies this
      ensures sortType == old(sortType) && category == old(category) && isArchive == old(isArchive)
      ensures var outcome := sortWith(SorterName(sortType), Displayed(Cards(old(grid)), category, isArchive));
        && (outcome.None? ==> grid == old(grid) && headers == old(headers))
        && (outcome.Some? ==> grid == Arranged(Cards(old(grid)), category, isArchive, outcome.value)
                              && headers == Headed(old(headers), grid))
    {
      var cards := Cards(grid);
      var outcome := sortWith(SorterName(sortType), Displayed(cards, category, isArchive));
      if outcome.None? {
        return;
      }
      var arranged := ArrangeGrid(cards, category, isArchive, outcome.value);
      grid := arranged;
      UpdateDateHeaders();
    }

    /**
     * A sort button click: record the sort type, enter the archive view
     * exactly for `'archive'`, redisplay. The view state is recorded even
     * when the redisplay throws.
     */
    method ClickSort(newSortType: Option<string>, sortWith: (string, seq<Card>) -> Option<seq<Card>>)
      modifies this
      ensures sortType == newSortType && isArchive == (newSortType == Some("archive")) && category == old(category)
      ensures var outcome := sortWith(SorterName(sortType), Displayed(Cards(old(grid)), category, isArchive));
        && (outcome.None? ==> grid == old(grid) && headers == old(headers))
        && (outcome.Some? ==> grid == Arranged(Cards(old(grid)), category, isArchive, outcome.value)
                              && headers == Headed(old(headers), grid))
    {
      sortType := newSortType;
      isArchive := newSortType == Some("archive");
      UpdatePapersDisplay(sortWith);
    }

    /** A category button click: the trimmed button text becomes the category (even when the redisplay throws), then redisplay. */
    method ClickCategory(buttonText: string, sortWith: (string, seq<Card>) -> Option<seq<Card>>)
      modifies this
      ensures category == Trim(buttonText) && sortType == old(sortType) && isArchive == old(isArchive)
      ensures var outcome := sortWith(SorterName(sortType), Displayed(Cards(old(grid)), category, isArchive));
        && (outcome.None? ==> grid == old(grid) && headers == old(headers))
        && (outcome.Some? ==> grid == Arranged(Cards(old(grid)), category, isArchive, outcome.value)
                              && headers == Headed(old(headers), grid))
    {
      category := Trim(buttonText);
      UpdatePapersDisplay(sortWith);
    }
  }

  /**
   * After any redisplay whose sort does not throw, with a sort that only
   * reorders, exactly the displayed cards are visible and no card is lost.
   */
  lemma RedisplayShowsDisplayed(oldGrid: seq<Element>, sortType: Option<string>, category: string, isArchive: bool,
                                sortWith: (string, seq<Card>) -> Option<seq<Card>>)
    requires Reorders(sortWith)
    requires sortWith(SorterName(sortType), Displayed(Cards(oldGrid), category, isArchive)).Some?
    ensures var g := Arranged(Cards(oldGrid), category, isArchive,
                              sortWith(SorterName(sortType), Displayed(Cards(oldGrid), category, isArchive)).value);
      (forall i :: 0 <= i < |g| ==> (g[i].shown <==> isArchive || InCategory(g[i].card, category)))
      && multiset(Cards(g)) == multiset(Cards(oldGrid))
  {
    var displayed := Displayed(Cards(oldGrid), category, isArchive);
    var sorted := sortWith(SorterName(sortType), displayed).value;
    assert multiset(sorted) == multiset(displayed);
    ExactlyDisplayedVisible(Cards(oldGrid), category, isArchive, sorted);
  }

  /**
   * The default view sorts by registration date: its redisplay goes through
   * exactly when at most one card is displayed or every displayed card has
   * a `data-date`; otherwise it throws and the page stays as it was.
   */
  lemma RegistrationNeedsDates(cards: seq<Card>, sortType: Option<string>, category: string, isArchive: bool,
                               sortWith: (string, seq<Card>) -> Option<seq<Card>>)
    requires ThrowsAsSorters(sortWith)
    requires sortType.None? || sortType.value !in SorterNames || sortType == Some("registration")
    ensures var displayed := Displayed(cards, category, isArchive);
      sortWith(SorterName(sortType), displayed).Some? <==>
        |displayed| <= 1 || forall c :: c in displayed ==> c.date.Some?
  {
    assert SorterName(sortType) == "registration";
  }

  /** The journal sort goes through whenever every card has a `data-journal`. */
  lemma JournalSortNeedsNoMore(cs: seq<Card>, sortWith: (string, seq<Card>) -> Option<seq<Card>>)
    requires ThrowsAsSorters(sortWith)
    requires forall c :: c in cs ==> c.journal.Some?
    ensures sortWith("journal", cs).Some?
  {
    assert "journal" in SorterNames;
  }

  /** Acquisition and publication order never throw: `parseInt` and `new Date` accept a missing attribute. */
  lemma IndexAndPublicationSortsSucceed(cs: seq<Card>, sortWith: (string, seq<Card>) -> Option<seq<Card>>)
    requires ThrowsAsSorters(sortWith)
    ensures sortWith("acquisition", cs).Some? && sortWith("publication", cs).Some?
  {
    assert "acquisition" in SorterNames && "publication" in SorterNames;
  }
}
