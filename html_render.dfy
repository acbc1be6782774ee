/**
 * The pure parts of `HTMLGenerator` (app.mjs): `escapeHtml`, the 300-character
 * abstract excerpt on a paper card, and `groupPapersByDate`.
 */
module HtmlRender {
  import opened Wrappers
  import opened JsText
  import opened JsValues
  import opened Papers

  // ---------------------------------------------------------------------
  // escapeHtml
  // ---------------------------------------------------------------------

  /** `s.replace(/c/g, rep)` for a single character `c`. */
  function ReplaceAll<T(==)>(s: seq<T>, c: T, rep: seq<T>): seq<T> {
    if s == [] then [] else (if s[0] == c then rep else [s[0]]) + ReplaceAll(s[1..], c, rep)
  }

  lemma {:induction false} ReplaceAllAppend<T>(a: seq<T>, b: seq<T>, c: T, rep: seq<T>)
    ensures ReplaceAll(a + b, c, rep) == ReplaceAll(a, c, rep) + ReplaceAll(b, c, rep)
  {
    if a == [] {
      assert a + b == b;
    } else {
      var head := if a[0] == c then rep else [a[0]];
      calc {
        ReplaceAll(a + b, c, rep);
      == { assert (a + b)[0] == a[0] && (a + b)[1..] == a[1..] + b; }
        head + ReplaceAll(a[1..] + b, c, rep);
      == { ReplaceAllAppend(a[1..], b, c, rep); }
        head + (ReplaceAll(a[1..], c, rep) + ReplaceAll(b, c, rep));
      }
    }
  }

  /** The five replacements of `escapeHtml`, `&` first so that no entity is escaped again. */
  function ReplaceMarkup(t: string): string {
    ReplaceAll(ReplaceAll(ReplaceAll(ReplaceAll(ReplaceAll(t, '&', "&amp;"), '<', "&lt;"), '>', "&gt;"), '"', "&quot;"), '\'', "&#39;")
  }

  /** The entity a single character becomes. */
  function EscapeChar(c: char): (r: string)
    ensures |r| >= 1 && r[0] == (if c in "&<>\"'" then '&' else c)
  {
    match c
    case '&' => "&amp;"
    case '<' => "&lt;"
    case '>' => "&gt;"
    case '"' => "&quot;"
    case '\'' => "&#39;"
    case _ => [c]
  }

  /** Character-by-character escaping: the result holds no `<`, `>`, `"` or `'`. */
  function EscapeText(s: string): (r: string)
    ensures forall j :: 0 <= j < |r| ==> r[j] != '<' && r[j] != '>' && r[j] != '"' && r[j] != '\''
    ensures |r| >= |s|
  {
    if s == [] then [] else EscapeChar(s[0]) + EscapeText(s[1..])
  }

  lemma ReplaceMarkupAppend(a: string, b: string)
    ensures ReplaceMarkup(a + b) == ReplaceMarkup(a) + ReplaceMarkup(b)
  {
    ReplaceAllAppend(a, b, '&', "&amp;");
    var a1, b1 := ReplaceAll(a, '&', "&amp;"), ReplaceAll(b, '&', "&amp;");
    ReplaceAllAppend(a1, b1, '<', "&lt;");
    var a2, b2 := ReplaceAll(a1, '<', "&lt;"), ReplaceAll(b1, '<', "&lt;");
    ReplaceAllAppend(a2, b2, '>', "&gt;");
    var a3, b3 := ReplaceAll(a2, '>', "&gt;"), ReplaceAll(b2, '>', "&gt;");
    ReplaceAllAppend(a3, b3, '"', "&quot;");
    var a4, b4 := ReplaceAll(a3, '"', "&quot;"), ReplaceAll(b3, '"', "&quot;");
    ReplaceAllAppend(a4, b4, '\'', "&#39;");
  }

  /** A character that does not occur is not replaced. */
  lemma {:induction false} ReplaceAllAbsent<T>(s: seq<T>, c: T, rep: seq<T>)
    requires c !in s
    ensures ReplaceAll(s, c, rep) == s
  {
    if s != [] {
      ReplaceAllAbsent(s[1..], c, rep);
      assert s == [s[0]] + s[1..];
    }
  }

  lemma ReplaceAllOne(c: char, d: char, rep: string)
    ensures ReplaceAll([c], d, rep) == if c == d then rep else [c]
  {
    assert [c][1..] == [];
  }

  /** On one character the five replacements give that character's entity. */
  lemma ReplaceMarkupChar(c: char)
    ensures ReplaceMarkup([c]) == EscapeChar(c)
  {
    ReplaceAllOne(c, '&', "&amp;");
    if c == '&' {
      ReplaceAllAbsent("&amp;", '<', "&lt;");
      ReplaceAllAbsent("&amp;", '>', "&gt;");
      ReplaceAllAbsent("&amp;", '"', "&quot;");
      ReplaceAllAbsent("&amp;", '\'', "&#39;");
    } else {
      ReplaceAllOne(c, '<', "&lt;");
      if c == '<' {
        ReplaceAllAbsent("&lt;", '>', "&gt;");
        ReplaceAllAbsent("&lt;", '"', "&quot;");
        ReplaceAllAbsent("&lt;", '\'', "&#39;");
      } else {
        ReplaceAllOne(c, '>', "&gt;");
        if c == '>' {
          ReplaceAllAbsent("&gt;", '"', "&quot;");
          ReplaceAllAbsent("&gt;", '\'', "&#39;");
        } else {
          ReplaceAllOne(c, '"', "&quot;");
          if c == '"' {
            ReplaceAllAbsent("&quot;", '\'', "&#39;");
          } else {
            ReplaceAllOne(c, '\'', "&#39;");
          }
        }
      }
    }
  }

  /** The ordered replacements are the same as escaping each character on its own. */
  lemma {:induction false} ReplaceMarkupIsEscape(s: string)
    ensures ReplaceMarkup(s) == EscapeText(s)
  {
    if s != [] {
      assert s == [s[0]] + s[1..];
      ReplaceMarkupAppend([s[0]], s[1..]);
      ReplaceMarkupChar(s[0]);
      ReplaceMarkupIsEscape(s[1..]);
    }
  }

  /** The text `escapeHtml` starts from: an array joined with `, `, anything else through `String()`. */
  function HtmlText(v: JsValue): string {
    if v.Arr? then JoinValues(v.items, ", ") else ToJsString(v)
  }

  /** `escapeHtml`: falsy values give `''`; everything else is rendered and escaped. */
  function EscapeHtml(v: JsValue): (r: string)
    ensures !Truthy(v) ==> r == ""
    ensures Truthy(v) ==> r == EscapeText(HtmlText(v))
    ensures forall j :: 0 <= j < |r| ==> r[j] != '<' && r[j] != '>' && r[j] != '"' && r[j] != '\''
  {
    if !Truthy(v) then ""
    else
      ReplaceMarkupIsEscape(HtmlText(v));
      ReplaceMarkup(HtmlText(v))
  }

  /** The character at the start of `s` once decoded, and how many characters encode it. */
  function EntityAt(s: string): (r: (char, nat))
    requires s != []
    ensures 1 <= r.1 <= |s|
  {
    if StartsWith(s, "&amp;") then ('&', 5)
    else if StartsWith(s, "&lt;") then ('<', 4)
    else if StartsWith(s, "&gt;") then ('>', 4)
    else if StartsWith(s, "&quot;") then ('"', 6)
    else if StartsWith(s, "&#39;") then ('\'', 5)
    else (s[0], 1)
  }

  /** Decoding of the five entities `escapeHtml` produces. */
  function Unescape(s: string): string
    decreases |s|
  {
    if s == [] then [] else [EntityAt(s).0] + Unescape(s[EntityAt(s).1..])
  }

  lemma UnescapePlain(c: char, t: string)
    requires c != '&'
    ensures Unescape([c] + t) == [c] + Unescape(t)
  {
    var s := [c] + t;
    assert s[0] == c && s[1..] == t;
  }

  lemma UnescapeAmp(t: string)
    ensures Unescape("&amp;" + t) == "&" + Unescape(t)
  {
    var s := "&amp;" + t;
    assert s[..5] == "&amp;" && s[5..] == t;
  }

  lemma UnescapeLt(t: string)
    ensures Unescape("&lt;" + t) == "<" + Unescape(t)
  {
    var s := "&lt;" + t;
    assert s[1] == 'l' && s[..4] == "&lt;" && s[4..] == t;
  }

  lemma UnescapeGt(t: string)
    ensures Unescape("&gt;" + t) == ">" + Unescape(t)
  {
    var s := "&gt;" + t;
    assert s[1] == 'g' && s[..4] == "&gt;" && s[4..] == t;
  }

  lemma UnescapeQuot(t: string)
    ensures Unescape("&quot;" + t) == "\"" + Unescape(t)
  {
    var s := "&quot;" + t;
    assert s[1] == 'q' && s[..6] == "&quot;" && s[6..] == t;
  }

  lemma UnescapeApos(t: string)
    ensures Unescape("&#39;" + t) == "'" + Unescape(t)
  {
    var s := "&#39;" + t;
    assert s[1] == '#' && s[..5] == "&#39;" && s[5..] == t;
  }

  lemma UnescapeChar(c: char, t: string)
    ensures Unescape(EscapeChar(c) + t) == [c] + Unescape(t)
  {
    match c
    case '&' => UnescapeAmp(t);
    case '<' => UnescapeLt(t);
    case '>' => UnescapeGt(t);
    case '"' => UnescapeQuot(t);
    case '\'' => UnescapeApos(t);
    case _ => UnescapePlain(c, t);
  }

  lemma ConsAppend<T>(s: seq<T>, u: seq<T>)
    requires s != []
    ensures s + u == [s[0]] + (s[1..] + u)
  {
    assert s == [s[0]] + s[1..];
  }

  lemma EscapeTextCons(s: string, t: string)
    requires s != []
    ensures EscapeText(s) + t == EscapeChar(s[0]) + (EscapeText(s[1..]) + t)
  {
  }

  lemma UnescapeEscapeStep(s: string, t: string, rest: string)
    requires s != [] && rest == Unescape(EscapeText(s[1..]) + t)
    requires rest == s[1..] + Unescape(t)
    ensures Unescape(EscapeText(s) + t) == s + Unescape(t)
  {
    EscapeTextCons(s, t);
    UnescapeChar(s[0], EscapeText(s[1..]) + t);
    ConsAppend(s, Unescape(t));
  }

  /** Decoding undoes escaping, whatever follows. */
  lemma {:induction false} UnescapeEscape(s: string, t: string)
    ensures Unescape(EscapeText(s) + t) == s + Unescape(t)
  {
    if s != [] {
      UnescapeEscape(s[1..], t);
      UnescapeEscapeStep(s, t, s[1..] + Unescape(t));
    } else {
      assert EscapeText(s) + t == t;
      assert s + Unescape(t) == Unescape(t);
    }
  }

  /** Escaping a non-empty string loses nothing: decoding gives it back. */
  lemma EscapeHtmlRoundTrip(s: string)
    requires s != ""
    ensures Unescape(EscapeHtml(Str(s))) == s
  {
    UnescapeEscape(s, "");
    assert EscapeText(s) + "" == EscapeText(s);
    assert s + "" == s;
  }

  /** `escapeHtml` of an array joins its items with `, ` first. */
  lemma EscapeHtmlArray(a: string, b: string)
    requires a != "" && b != ""
    ensures Unescape(EscapeHtml(Arr([Str(a), Str(b)]))) == a + ", " + b
  {
    var items := [Str(a), Str(b)];
    assert items[1..] == [Str(b)];
    assert JoinPart(Str(a)) == a && JoinPart(Str(b)) == b;
    assert JoinValues([Str(b)], ", ") == b;
    assert JoinValues(items, ", ") == a + ", " + b;
    UnescapeEscape(a + ", " + b, "");
    assert EscapeText(a + ", " + b) + "" == EscapeText(a + ", " + b);
    assert a + ", " + b + "" == a + ", " + b;
  }

  // ---------------------------------------------------------------------
  // The abstract excerpt on a paper card
  // ---------------------------------------------------------------------

  const ExcerptLength: nat := 300

  /**
   * The card's abstract paragraph: the translated abstract when it is truthy,
   * else the abstract; its first 300 characters escaped, then `...` when it
   * was longer. `None` when that value is not a string, where `substring`
   * throws.
   */
  function CardAbstract(p: Paper): (r: Option<string>)
    ensures r.Some? <==> Or(p.translatedAbstract, p.abstractText).Str?
  {
    match Or(p.translatedAbstract, p.abstractText)
    case Str(s) =>
      Some(EscapeHtml(Str(Take(s, ExcerptLength))) + (if |s| > ExcerptLength then "..." else ""))
    case _ => None
  }

  /**
   * Read back, the card shows the first 300 characters of the preferred
   * abstract, followed by `...` exactly when something was cut.
   */
  lemma CardAbstractText(p: Paper)
    requires Or(p.translatedAbstract, p.abstractText).Str?
    ensures var s := Or(p.translatedAbstract, p.abstractText).s;
      Unescape(CardAbstract(p).value) ==
        if |s| > ExcerptLength then s[..ExcerptLength] + "..." else s
  {
    var s := Or(p.translatedAbstract, p.abstractText).s;
    var t := Take(s, ExcerptLength);
    var tail := if |s| > ExcerptLength then "..." else "";
    assert EscapeHtml(Str(t)) == EscapeText(t);
    UnescapeEscape(t, tail);
    if |s| > ExcerptLength {
      assert Unescape("...") == "..." by {
        assert "..."[1..] == ".." && ".."[1..] == "." && "."[1..] == "";
      }
    } else {
      assert t + "" == t;
    }
  }

  /** A translated abstract takes precedence on the card whenever it is truthy. */
  lemma CardPrefersTranslation(p: Paper, s: string)
    requires p.translatedAbstract == Str(s) && s != ""
    ensures CardAbstract(p) == CardAbstract(p.(abstractText := Undefined))
  {
  }

  // ---------------------------------------------------------------------
  // groupPapersByDate
  // ---------------------------------------------------------------------

  /** `dateKey`: the text before the first `T`. */
  function DateKey(date: string): string {
    Split(date, {'T'})[0]
  }

  /** The key is the longest `T`-free prefix of the date. */
  lemma DateKeyPrefix(day: string, rest: string)
    requires 'T' !in day
    ensures DateKey(day + "T" + rest) == day && DateKey(day) == day
  {
    SplitPrefix(day, "T" + rest, {'T'});
    assert day + "T" + rest == day + ("T" + rest);
    assert ("T" + rest)[1..] == rest;
    SplitPrefix(day, "", {'T'});
    assert day + "" == day;
  }

  /**
   * The date a paper is filed under: its publication date, or `today` (the
   * current date as `YYYY-MM-DD`) when that is falsy. `None` when the date is
   * a truthy non-string, where `split` throws.
   */
  function PaperDay(p: Paper, today: string): (r: Option<string>)
    ensures !Truthy(p.publicationDate) ==> r == Some(DateKey(today))
    ensures p.publicationDate.Str? && p.publicationDate.s != "" ==> r == Some(DateKey(p.publicationDate.s))
    ensures Truthy(p.publicationDate) && !p.publicationDate.Str? ==> r.None?
  {
    match Or(p.publicationDate, Str(today))
    case Str(d) => Some(DateKey(d))
    case _ => None
  }

  predicate AllDated(ps: seq<Paper>, today: string) {
    forall i :: 0 <= i < |ps| ==> PaperDay(ps[i], today).Some?
  }

  /** The papers filed under `day`, in input order. */
  function Filed(ps: seq<Paper>, day: string, today: string): seq<Paper>
  {
    if ps == [] then []
    else Filed(ps[..|ps| - 1], day, today) + (if PaperDay(ps[|ps| - 1], today) == Some(day) then [ps[|ps| - 1]] else [])
  }

  /** The grouping the `forEach` builds, one paper at a time. */
  function Grouping(ps: seq<Paper>, today: string): map<string, seq<Paper>>
    requires AllDated(ps, today)
  {
    if ps == [] then map[]
    else
      var g := Grouping(ps[..|ps| - 1], today);
      var day := PaperDay(ps[|ps| - 1], today).value;
      g[day := (if day in g then g[day] else []) + [ps[|ps| - 1]]]
  }

  /**
   * A day is a key exactly when some paper is filed under it, and its group
   * is the papers filed under it, in input order.
   */
  lemma {:induction false} GroupingIsFiled(ps: seq<Paper>, today: string)
    requires AllDated(ps, today)
    ensures forall day :: day in Grouping(ps, today) ==> Grouping(ps, today)[day] == Filed(ps, day, today) != []
    ensures forall day :: day !in Grouping(ps, today) ==> Filed(ps, day, today) == []
  {
    if ps != [] {
      var init := ps[..|ps| - 1];
      assert AllDated(init, today) by {
        forall i | 0 <= i < |init| ensures PaperDay(init[i], today).Some? {
          assert init[i] == ps[i];
        }
      }
      GroupingIsFiled(init, today);
    }
  }

  /** A paper filed under a day is found in that day's group. */
  lemma {:induction false} FiledMember(ps: seq<Paper>, i: nat, today: string)
    requires i < |ps| && PaperDay(ps[i], today).Some?
    ensures ps[i] in Filed(ps, PaperDay(ps[i], today).value, today)
  {
    if i < |ps| - 1 {
      var init := ps[..|ps| - 1];
      assert init[i] == ps[i];
      FiledMember(init, i, today);
    }
  }

  /** One more paper: it joins the end of its day's group, which is created when missing. */
  lemma GroupingSnoc(ps: seq<Paper>, i: nat, today: string)
    requires i < |ps| && AllDated(ps[..i], today) && PaperDay(ps[i], today).Some?
    ensures AllDated(ps[..i + 1], today)
    ensures var g := Grouping(ps[..i], today);
      var day := PaperDay(ps[i], today).value;
      Grouping(ps[..i + 1], today) == g[day := (if day in g then g[day] else []) + [ps[i]]]
  {
    var prefix := ps[..i + 1];
    assert prefix[..i] == ps[..i] && prefix[i] == ps[i];
  }

  /**
   * `groupPapersByDate`: file each paper under its day, appending to that
   * day's list; `None` when a date throws, which ends the walk.
   */
  method GroupPapersByDate(papers: seq<Paper>, today: string) returns (grouped: Option<map<string, seq<Paper>>>)
    ensures grouped.Some? <==> AllDated(papers, today)
    ensures grouped.Some? ==> grouped.value == Grouping(papers, today)
  {
    var g: map<string, seq<Paper>> := map[];
    var i := 0;
    while i < |papers|
      invariant i <= |papers|
      invariant AllDated(papers[..i], today)
      invariant g == Grouping(papers[..i], today)
    {
      var day := PaperDay(papers[i], today);
      if day.None? {
        return None;
      }
      var key := day.value;
      GroupingSnoc(papers, i, today);
      if key !in g {
        g := g[key := []];
      }
      g := g[key := g[key] + [papers[i]]];
      i := i + 1;
    }
    assert papers[..i] == papers;
    grouped := Some(g);
  }
}
