/**
 * The search strings the clients send (app.mjs): the shared keyword query,
 * arXiv's `abs:`/`ti:` query, Springer's `keyword:` query and PubMed's
 * field-tagged query with its fixed publication-date range. The keywords
 * come from `KEYWORD1` (default `machinelearning`) and `KEYWORD2`
 * (default empty).
 */
module Queries {
  import opened Wrappers
  import opened JsText
  import opened EnvConfig

  const Quote: char := '"'

  /** The two keywords as every client reads them, `.env` first. */
  function Keywords(env: map<string, string>, dotEnv: Option<string>): (string, string) {
    (GetKeywordWithEnvPriority(env, dotEnv, "KEYWORD1", "machinelearning"),
     GetKeywordWithEnvPriority(env, dotEnv, "KEYWORD2", ""))
  }

  /** With no keyword configured anywhere, the query is about machine learning. */
  lemma DefaultKeywords(env: map<string, string>, dotEnv: Option<string>)
    requires "KEYWORD1" !in env && "KEYWORD2" !in env && dotEnv.None?
    ensures Keywords(env, dotEnv) == ("machinelearning", "")
  {
  }

  /** `"s"`: a template literal's quoted interpolation. */
  function Quoted(s: string): string {
    [Quote] + s + [Quote]
  }

  predicate Unquoted(s: string) {
    forall j :: 0 <= j < |s| ==> s[j] != Quote
  }

  /** Splitting at the quotes separates the text before a quoted piece, the piece, and the rest. */
  lemma SplitQuoted(before: string, s: string, rest: string)
    requires Unquoted(before) && Unquoted(s)
    ensures Split(before + Quoted(s) + rest, {Quote}) == [before, s] + Split(rest, {Quote})
  {
    var tail := [Quote] + rest;
    assert before + Quoted(s) + rest == before + ([Quote] + (s + tail));
    assert ([Quote] + (s + tail))[1..] == s + tail;
    assert tail[1..] == rest;
    SplitPrefix(s, tail, {Quote});
    SplitPrefix(before, [Quote] + (s + tail), {Quote});
    assert s + "" == s && before + "" == before;
  }

  /** Text without quotes is one piece. */
  lemma SplitUnquoted(s: string)
    requires Unquoted(s)
    ensures Split(s, {Quote}) == [s]
  {
    SplitPrefix(s, "", {Quote});
    assert s + "" == s;
  }

  /** `getKeywordsQuery`: `"k1"`, or `"k1" OR "k2"` when a second keyword is set. */
  function KeywordsQuery(k1: string, k2: string): string {
    if k2 != "" then Quoted(k1) + " OR " + Quoted(k2) else Quoted(k1)
  }

  /** Read back at the quotes, the query holds exactly the configured keywords. */
  lemma KeywordsQueryParts(k1: string, k2: string)
    requires Unquoted(k1) && Unquoted(k2)
    ensures Split(KeywordsQuery(k1, k2), {Quote}) == if k2 != "" then ["", k1, " OR ", k2, ""] else ["", k1, ""]
  {
    SplitUnquoted("");
    if k2 != "" {
      SplitQuoted(" OR ", k2, "");
      assert " OR " + Quoted(k2) + "" == " OR " + Quoted(k2);
      SplitQuoted("", k1, " OR " + Quoted(k2));
      assert "" + Quoted(k1) + (" OR " + Quoted(k2)) == KeywordsQuery(k1, k2);
    } else {
      SplitQuoted("", k1, "");
      assert "" + Quoted(k1) + "" == KeywordsQuery(k1, k2);
    }
  }

  /** arXiv searches the abstract and the title for the same terms. */
  function ArxivQuery(terms: string): (q: string)
    ensures |q| == 2 * |terms| + 11
    ensures q[..4] == "abs:" && q[4..4 + |terms|] == terms
    ensures q[4 + |terms|..11 + |terms|] == " OR ti:" && q[11 + |terms|..] == terms
  {
    var q := "abs:" + terms + " OR ti:" + terms;
    assert q == "abs:" + (terms + (" OR ti:" + terms));
    q
  }

  /** Springer: `(keyword:"k1")` or `(keyword:"k1" OR keyword:"k2")`. */
  function SpringerQuery(k1: string, k2: string): string {
    if k2 != "" then "(keyword:" + Quoted(k1) + " OR keyword:" + Quoted(k2) + ")"
    else "(keyword:" + Quoted(k1) + ")"
  }

  /** Read back at the quotes, the Springer query holds exactly the configured keywords. */
  lemma SpringerQueryParts(k1: string, k2: string)
    requires Unquoted(k1) && Unquoted(k2)
    ensures Split(SpringerQuery(k1, k2), {Quote}) ==
      if k2 != "" then ["(keyword:", k1, " OR keyword:", k2, ")"] else ["(keyword:", k1, ")"]
  {
    SplitUnquoted(")");
    if k2 != "" {
      SplitQuoted(" OR keyword:", k2, ")");
      SplitQuoted("(keyword:", k1, " OR keyword:" + Quoted(k2) + ")");
      assert "(keyword:" + Quoted(k1) + (" OR keyword:" + Quoted(k2) + ")") == SpringerQuery(k1, k2);
    } else {
      SplitQuoted("(keyword:", k1, ")");
    }
  }

  /** PubMed: the keywords in title or abstract, published from 2023 on. */
  function PubMedQuery(k1: string, k2: string): string {
    if k2 != "" then "(" + Quoted(k1) + "[Title/Abstract] OR " + Quoted(k2) + "[Title/Abstract]) AND (" + PubMedDates
    else "(" + Quoted(k1) + "[Title/Abstract]) AND (" + PubMedDates
  }

  /** The publication-date range every PubMed query ends with. */
  const PubMedDates: string := Quoted("2023") + "[Date - Publication] : " + Quoted("3000") + "[Date - Publication])"

  lemma DateLiteralsUnquoted()
    ensures Unquoted("2023") && Unquoted("3000")
    ensures Unquoted("[Date - Publication] : ") && Unquoted("[Date - Publication])")
    ensures Unquoted("[Title/Abstract]) AND (")
  {
  }

  /** The date range read back at the quotes, after the unquoted text `before` that leads into it. */
  lemma PubMedDatesParts(before: string)
    requires Unquoted(before)
    ensures Split(before + PubMedDates, {Quote}) ==
      [before, "2023", "[Date - Publication] : ", "3000", "[Date - Publication])"]
  {
    DateLiteralsUnquoted();
    var rest := "[Date - Publication] : " + Quoted("3000") + "[Date - Publication])";
    assert Split(rest, {Quote}) == ["[Date - Publication] : ", "3000", "[Date - Publication])"] by {
      SplitUnquoted("[Date - Publication])");
      SplitQuoted("[Date - Publication] : ", "3000", "[Date - Publication])");
    }
    assert PubMedDates == Quoted("2023") + rest;
    SplitQuoted(before, "2023", rest);
    assert before + PubMedDates == before + Quoted("2023") + rest;
  }

  /** The keyword part of a two-keyword PubMed query read back at the quotes, whatever follows it. */
  lemma PubMedTermsParts(k1: string, k2: string, tail: string)
    requires Unquoted(k1) && Unquoted(k2)
    ensures Split("(" + Quoted(k1) + "[Title/Abstract] OR " + Quoted(k2) + tail, {Quote}) ==
      ["(", k1, "[Title/Abstract] OR ", k2] + Split(tail, {Quote})
  {
    var mid := "[Title/Abstract] OR " + Quoted(k2) + tail;
    SplitQuoted("[Title/Abstract] OR ", k2, tail);
    SplitQuoted("(", k1, mid);
    assert "(" + Quoted(k1) + "[Title/Abstract] OR " + Quoted(k2) + tail == "(" + Quoted(k1) + mid;
  }

  /** The pieces between the quotes after the keywords of every PubMed query. */
  const PubMedTail: seq<string> := ["[Title/Abstract]) AND (", "2023", "[Date - Publication] : ", "3000", "[Date - Publication])"]

  /** What follows the keywords in every PubMed query, read back at the quotes. */
  lemma PubMedTailParts()
    ensures Split("[Title/Abstract]) AND (" + PubMedDates, {Quote}) == PubMedTail
  {
    DateLiteralsUnquoted();
    PubMedDatesParts("[Title/Abstract]) AND (");
  }

  /** The one-keyword PubMed query read back at the quotes. */
  lemma PubMedQueryPartsOne(k1: string)
    requires Unquoted(k1)
    ensures Split(PubMedQuery(k1, ""), {Quote}) == ["(", k1] + PubMedTail
  {
    var tail := "[Title/Abstract]) AND (" + PubMedDates;
    PubMedTailParts();
    SplitQuoted("(", k1, tail);
    assert PubMedQuery(k1, "") == "(" + Quoted(k1) + tail;
  }

  /** The two-keyword PubMed query read back at the quotes. */
  lemma PubMedQueryPartsTwo(k1: string, k2: string)
    requires Unquoted(k1) && Unquoted(k2) && k2 != ""
    ensures Split(PubMedQuery(k1, k2), {Quote}) == ["(", k1, "[Title/Abstract] OR ", k2] + PubMedTail
  {
    var tail := "[Title/Abstract]) AND (" + PubMedDates;
    PubMedTailParts();
    PubMedTermsParts(k1, k2, tail);
    assert PubMedQuery(k1, k2) == "(" + Quoted(k1) + "[Title/Abstract] OR " + Quoted(k2) + tail;
  }

  /** Read back at the quotes, the PubMed query holds the keywords and then the 2023 to 3000 range. */
  lemma PubMedQueryParts(k1: string, k2: string)
    requires Unquoted(k1) && Unquoted(k2)
    ensures Split(PubMedQuery(k1, k2), {Quote}) ==
      (if k2 != "" then ["(", k1, "[Title/Abstract] OR ", k2] else ["(", k1]) + PubMedTail
  {
    if k2 != "" {
      PubMedQueryPartsTwo(k1, k2);
    } else {
      PubMedQueryPartsOne(k1);
    }
  }
}
