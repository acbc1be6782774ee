/**
 * `PaperCatcher` (app.mjs): which clients take part, the sequential
 * collection over them, and the hand-over to de-duplication and
 * translation. What each client's fetch produced is the parameter
 * `outcome`: its papers, or `None` when the fetch threw.
 */
module Aggregator {
  import opened Wrappers
  import opened JsText
  import opened EnvConfig
  import opened Papers
  import Translation

  datatype ClientName = Arxiv | SemanticScholar | Springer | PubMed | CrossRef

  /** `process.env[key]` is truthy: set and not empty (blanks count). */
  predicate EnvSet(env: map<string, string>, key: string) {
    key in env && env[key] != ""
  }

  /**
   * The clients the constructor registers, in the order `Object.entries`
   * lists them. Springer needs its variable set in the environment and its
   * own constructor not to throw, which it does when the key resolves to
   * `''`; PubMed needs only its variable set.
   */
  function Roster(env: map<string, string>, dotEnv: Option<string>): (r: seq<ClientName>)
    ensures 3 <= |r| <= 5 && r[0] == Arxiv && r[1] == SemanticScholar && r[|r| - 1] == CrossRef
    ensures Springer in r <==> EnvSet(env, "SPRINGER_API_KEY") && GetEnvWithFallback(env, dotEnv, "SPRINGER_API_KEY", "") != ""
    ensures PubMed in r <==> EnvSet(env, "PUBMED_API_KEY")
    ensures forall m, n :: 0 <= m < n < |r| ==> r[m] != r[n]
  {
    var springer := if EnvSet(env, "SPRINGER_API_KEY") && GetEnvWithFallback(env, dotEnv, "SPRINGER_API_KEY", "") != ""
                    then [Springer] else [];
    var pubmed := if EnvSet(env, "PUBMED_API_KEY") then [PubMed] else [];
    [Arxiv, SemanticScholar] + springer + pubmed + [CrossRef]
  }

  /** A Springer key of blanks only, with nothing usable in `.env`, leaves Springer out even though the variable is set. */
  lemma BlankSpringerKeyLeftOut(env: map<string, string>, dotEnv: Option<string>)
    requires "SPRINGER_API_KEY" in env && env["SPRINGER_API_KEY"] == " "
    requires FileValue(dotEnv, "SPRINGER_API_KEY").None?
    ensures EnvSet(env, "SPRINGER_API_KEY") && Springer !in Roster(env, dotEnv)
  {
    assert IsBlank(env["SPRINGER_API_KEY"]);
  }

  /** A usable Springer key in the environment always brings Springer in. */
  lemma UsableSpringerKeyIn(env: map<string, string>, dotEnv: Option<string>)
    requires "SPRINGER_API_KEY" in env && Usable(env["SPRINGER_API_KEY"])
    ensures Springer in Roster(env, dotEnv)
  {
  }

  /** What each client produced, in roster order. */
  function Outcomes(clients: seq<ClientName>, outcome: ClientName -> Option<seq<Paper>>): seq<Option<seq<Paper>>> {
    seq(|clients|, i requires 0 <= i < |clients| => outcome(clients[i]))
  }

  /** `allPapers` after the loop: the papers of every client that returned, in client order. */
  function Gathered(clients: seq<ClientName>, outcome: ClientName -> Option<seq<Paper>>): seq<Paper> {
    Concat(Present(Outcomes(clients, outcome)))
  }

  /** Collecting over two runs of clients is collecting over each, one after the other. */
  lemma GatheredInClientOrder(a: seq<ClientName>, b: seq<ClientName>, outcome: ClientName -> Option<seq<Paper>>)
    ensures Gathered(a + b, outcome) == Gathered(a, outcome) + Gathered(b, outcome)
  {
    assert Outcomes(a + b, outcome) == Outcomes(a, outcome) + Outcomes(b, outcome);
    PresentAppend(Outcomes(a, outcome), Outcomes(b, outcome));
    ConcatAppend(Present(Outcomes(a, outcome)), Present(Outcomes(b, outcome)));
  }

  /** A client that throws adds nothing, and the clients after it are still asked. */
  lemma FailedClientAddsNothing(clients: seq<ClientName>, outcome: ClientName -> Option<seq<Paper>>, i: nat)
    requires i < |clients| && outcome(clients[i]).None?
    ensures Gathered(clients, outcome) == Gathered(clients[..i] + clients[i + 1..], outcome)
  {
    var os := Outcomes(clients, outcome);
    PresentDrop(os, i);
    assert os[..i] + os[i + 1..] == Outcomes(clients[..i] + clients[i + 1..], outcome);
  }

  /** Every gathered paper is one that a client returned. */
  lemma GatheredFrom(clients: seq<ClientName>, outcome: ClientName -> Option<seq<Paper>>, p: Paper)
    requires p in Gathered(clients, outcome)
    ensures exists i :: 0 <= i < |clients| && outcome(clients[i]).Some? && p in outcome(clients[i]).value
  {
    var os := Outcomes(clients, outcome);
    ConcatMember(Present(os), p);
    var j :| 0 <= j < |Present(os)| && p in Present(os)[j];
    PresentMember(os, Present(os)[j]);
    var i :| 0 <= i < |os| && os[i] == Some(Present(os)[j]);
    assert outcome(clients[i]) == os[i];
  }

  /** No two collected papers share a title key. */
  lemma CollectedDistinct(clients: seq<ClientName>, outcome: ClientName -> Option<seq<Paper>>)
    ensures forall m, n :: 0 <= m < n < |Dedup(Gathered(clients, outcome), {})| ==>
      PaperKey(Dedup(Gathered(clients, outcome), {})[m]) != PaperKey(Dedup(Gathered(clients, outcome), {})[n])
  {
    forall p: Paper ensures PaperKey(Normalize(p)) == PaperKey(p) {
      NormalizeStable(p);
    }
    DedupKeysDistinct(Gathered(clients, outcome), PaperKey, Normalize, {});
  }

  /** Every collected paper is the normalised form of a paper some client returned. */
  lemma CollectedFromGathered(clients: seq<ClientName>, outcome: ClientName -> Option<seq<Paper>>, m: nat)
    requires m < |Dedup(Gathered(clients, outcome), {})|
    ensures exists q :: q in Gathered(clients, outcome) && Dedup(Gathered(clients, outcome), {})[m] == Normalize(q)
  {
    var all := Gathered(clients, outcome);
    var idx := DedupKeepsFirstOccurrences(all, PaperKey, Normalize, {});
    assert Dedup(all, {})[m] == Normalize(all[idx[m]]);
  }

  class PaperCatcher {
    const clients: seq<ClientName>
    const translationEnabled: bool

    /** The registered clients and the translator's switch, fixed once constructed. */
    constructor (env: map<string, string>, dotEnv: Option<string>, translatorReady: bool)
      ensures clients == Roster(env, dotEnv)
      ensures translationEnabled == Translation.TranslationEnabled(env, dotEnv, translatorReady)
    {
      clients := Roster(env, dotEnv);
      translationEnabled := Translation.TranslationEnabled(env, dotEnv, translatorReady);
    }

    /**
     * `collectPapers`: ask each client in turn, append what it returned and
     * pause 1000 ms after it (the pause sits inside the `try`, so a client
     * that throws gets none), then de-duplicate.
     */
    method CollectPapers(outcome: ClientName -> Option<seq<Paper>>) returns (papers: seq<Paper>, paused: nat)
      ensures papers == Dedup(Gathered(clients, outcome), {})
      ensures paused == 1000 * |Present(Outcomes(clients, outcome))|
    {
      var all: seq<Paper> := [];
      paused := 0;
      var i := 0;
      while i < |clients|
        invariant i <= |clients|
        invariant all == Gathered(clients[..i], outcome)
        invariant paused == 1000 * |Present(Outcomes(clients[..i], outcome))|
      {
        assert clients[..i + 1] == clients[..i] + [clients[i]];
        GatheredInClientOrder(clients[..i], [clients[i]], outcome);
        assert Outcomes(clients[..i + 1], outcome) == Outcomes(clients[..i], outcome) + [outcome(clients[i])];
        PresentAppend(Outcomes(clients[..i], outcome), [outcome(clients[i])]);
        assert Outcomes([clients[i]], outcome) == [outcome(clients[i])];
        match outcome(clients[i]) {
          case Some(ps) =>
            assert Present([outcome(clients[i])]) == [ps];
            assert Concat([ps]) == ps + [];
            all := all + ps;
            paused := paused + 1000;
          case None =>
            assert Present([outcome(clients[i])]) == [];
            assert all + [] == all;
        }
        i := i + 1;
      }
      assert clients[..i] == clients;
      papers := RemoveDuplicates(all);
    }

    /** `translatePapers`, with the switch the constructor set. */
    method TranslatePapers(ps: seq<Paper>, service: string -> Option<string>) returns (translated: seq<Paper>, paused: nat)
      ensures translated == Translation.TranslateAll(ps, translationEnabled, service)
      ensures paused == if translationEnabled then 2000 * |ps| else 0
    {
      translated, paused := Translation.TranslatePapers(ps, translationEnabled, service);
    }
  }
}
