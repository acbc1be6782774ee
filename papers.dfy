/**
 * The canonical paper record and de-duplication by normalised title
 * (`PaperCatcher.removeDuplicates`).
 */
module Papers {
  import opened JsText
  import opened JsValues

  const NoTitle := "No title available"
  const NoAbstract := "No abstract available"
  const NoDate := "No publication date available"
  const NoJournal := "No journal available"

  /**
   * One paper. Every field is the JavaScript value the source stores there;
   * `translatedTitle`/`translatedAbstract` are `Undefined` until the
   * translation stage adds them.
   */
  datatype Paper = Paper(
    title: JsValue,
    author: string,
    publicationDate: JsValue,
    abstractText: JsValue,
    journal: JsValue,
    doi: JsValue,
    link: JsValue,
    translatedTitle: JsValue,
    translatedAbstract: JsValue)

  /** A paper as a client returns it, before translation. */
  function NewPaper(title: JsValue, author: string, publicationDate: JsValue, abstractText: JsValue,
                    journal: JsValue, doi: JsValue, link: JsValue): (p: Paper)
    ensures p.translatedTitle == Undefined && p.translatedAbstract == Undefined
  {
    Paper(title, author, publicationDate, abstractText, journal, doi, link, Undefined, Undefined)
  }

  /** The title text `removeDuplicates` derives from whatever the title field holds. */
  function TitleText(title: JsValue): string {
    match title
    case Str(s) => s
    case Obj(u) => if u != "" then u else ToJsString(title)
    case Arr(_) => ToJsString(title)
    case _ => NoTitle
  }

  /** The de-duplication key: `titleText.toLowerCase().trim()`. */
  function DedupKey(title: JsValue): string {
    Trim(ToLower(TitleText(title)))
  }

  /** The abstract a kept paper ends up with. */
  function NormalizeAbstract(a: JsValue): (r: JsValue)
    ensures Truthy(r) && !IsObject(r)
    ensures Truthy(a) && !IsObject(a) ==> r == a
    ensures !Truthy(a) ==> r == Str(NoAbstract)
  {
    if Truthy(a) && IsObject(a) then
      var text := if a.Obj? && a.text != "" then a.text else ToJsString(a);
      if text != "" then Str(text) else Str(NoAbstract)
    else if !Truthy(a) then Str(NoAbstract)
    else a
  }

  /** The in-place normalisation applied to every kept paper. */
  function Normalize(p: Paper): (r: Paper)
    ensures r.title == Str(TitleText(p.title))
    ensures r.abstractText == NormalizeAbstract(p.abstractText)
    ensures r == p.(title := r.title, abstractText := r.abstractText)
  {
    p.(title := Str(TitleText(p.title)), abstractText := NormalizeAbstract(p.abstractText))
  }

  /** Normalising keeps the key and is idempotent, and a normalised paper has a string title and a truthy abstract. */
  lemma NormalizeStable(p: Paper)
    ensures DedupKey(Normalize(p).title) == DedupKey(p.title)
    ensures Normalize(Normalize(p)) == Normalize(p)
    ensures Normalize(p).title.Str? && Truthy(Normalize(p).abstractText)
  {
  }

  // ---------------------------------------------------------------------
  // The de-duplication specification. `DedupBy` is the first-seen-wins filter
  // for any key and any rewrite of the kept element; `Dedup` instantiates it
  // with the title key and `Normalize`.
  // ---------------------------------------------------------------------

  /** An element is kept when its key has not been seen, and is rewritten by `keep`. */
  function DedupBy<E>(es: seq<E>, key: E -> string, keep: E -> E, seen: set<string>): seq<E>
  {
    if es == [] then []
    else if key(es[0]) in seen then DedupBy(es[1..], key, keep, seen)
    else [keep(es[0])] + DedupBy(es[1..], key, keep, seen + {key(es[0])})
  }

  function PaperKey(p: Paper): string {
    DedupKey(p.title)
  }

  /** First-seen-wins de-duplication of papers by title key; kept papers are normalised. */
  function Dedup(ps: seq<Paper>, seen: set<string>): seq<Paper> {
    DedupBy(ps, PaperKey, Normalize, seen)
  }

  /** Position `i` holds the first element with its key, and that key was not seen before. */
  ghost predicate FirstOfKey<E>(es: seq<E>, key: E -> string, i: int, seen: set<string>)
    requires 0 <= i < |es|
  {
    key(es[i]) !in seen && forall j :: 0 <= j < i ==> key(es[j]) != key(es[i])
  }

  lemma FirstOfKeyShift<E>(es: seq<E>, key: E -> string, seen: set<string>, i: nat)
    requires 0 < |es| && i + 1 < |es|
    ensures FirstOfKey(es, key, i + 1, seen) <==>
      FirstOfKey(es[1..], key, i, if key(es[0]) in seen then seen else seen + {key(es[0])})
  {
    var seen' := if key(es[0]) in seen then seen else seen + {key(es[0])};
    if FirstOfKey(es, key, i + 1, seen) {
      forall j | 0 <= j < i ensures key(es[1..][j]) != key(es[1..][i]) {
        assert es[1..][j] == es[j + 1];
      }
      assert key(es[0]) != key(es[i + 1]);
    }
    if FirstOfKey(es[1..], key, i, seen') {
      forall j | 0 <= j < i + 1 ensures key(es[j]) != key(es[i + 1]) {
        if j > 0 { assert es[j] == es[1..][j - 1]; }
      }
    }
  }

  /** Every position shifted one to the right. */
  function Shift(xs: seq<nat>): (r: seq<nat>)
    ensures |r| == |xs| && forall m :: 0 <= m < |xs| ==> r[m] == xs[m] + 1
  {
    if xs == [] then [] else [xs[0] + 1] + Shift(xs[1..])
  }

  /** The input positions `DedupBy` keeps, in order. */
  function KeptPositions<E>(es: seq<E>, key: E -> string, seen: set<string>): (r: seq<nat>)
    ensures forall m :: 0 <= m < |r| ==> r[m] < |es|
  {
    if es == [] then []
    else if key(es[0]) in seen then Shift(KeptPositions(es[1..], key, seen))
    else [0] + Shift(KeptPositions(es[1..], key, seen + {key(es[0])}))
  }

  /** The m-th kept element is the rewritten element at the m-th kept position. */
  lemma {:induction false} KeptPositionsMatch<E>(es: seq<E>, key: E -> string, keep: E -> E, seen: set<string>)
    ensures |KeptPositions(es, key, seen)| == |DedupBy(es, key, keep, seen)|
    ensures forall m :: 0 <= m < |KeptPositions(es, key, seen)| ==>
      DedupBy(es, key, keep, seen)[m] == keep(es[KeptPositions(es, key, seen)[m]])
  {
    if es != [] {
      var k := key(es[0]);
      var seen' := if k in seen then seen else seen + {k};
      KeptPositionsMatch(es[1..], key, keep, seen');
      var rest := KeptPositions(es[1..], key, seen');
      var tail := DedupBy(es[1..], key, keep, seen');
      MatchShift(es, keep, rest, tail);
      if k !in seen {
        var idx := KeptPositions(es, key, seen);
        var out := DedupBy(es, key, keep, seen);
        forall m | 0 < m < |idx| ensures out[m] == keep(es[idx[m]]) {
          assert idx[m] == Shift(rest)[m - 1] && out[m] == tail[m - 1];
        }
      }
    }
  }

  lemma MatchShift<E>(es: seq<E>, keep: E -> E, rest: seq<nat>, tail: seq<E>)
    requires es != [] && |rest| == |tail|
    requires forall m :: 0 <= m < |rest| ==> rest[m] < |es| - 1 && tail[m] == keep(es[1..][rest[m]])
    ensures forall m :: 0 <= m < |rest| ==> Shift(rest)[m] < |es| && tail[m] == keep(es[Shift(rest)[m]])
  {
    forall m | 0 <= m < |rest| ensures Shift(rest)[m] < |es| && tail[m] == keep(es[Shift(rest)[m]]) {
      assert es[1..][rest[m]] == es[rest[m] + 1];
    }
  }

  predicate Increasing(xs: seq<nat>) {
    forall m, n :: 0 <= m < n < |xs| ==> xs[m] < xs[n]
  }

  /** Shifting keeps the order, and a leading 0 can go in front of a shifted list. */
  lemma ShiftIncreasing(xs: seq<nat>)
    requires Increasing(xs)
    ensures Increasing(Shift(xs)) && Increasing([0] + Shift(xs))
  {
    var t := Shift(xs);
    forall m, n | 0 <= m < n < |t| ensures t[m] < t[n] {
      assert t[m] == xs[m] + 1 && t[n] == xs[n] + 1;
    }
    var u := [0] + t;
    forall m, n | 0 <= m < n < |u| ensures u[m] < u[n] {
      if m == 0 {
        assert u[n] == t[n - 1];
      } else {
        assert u[m] == t[m - 1] && u[n] == t[n - 1];
      }
    }
  }

  /** Kept positions are strictly increasing. */
  lemma {:induction false} KeptPositionsIncreasing<E>(es: seq<E>, key: E -> string, seen: set<string>)
    ensures Increasing(KeptPositions(es, key, seen))
  {
    if es != [] {
      var k := key(es[0]);
      var seen' := if k in seen then seen else seen + {k};
      KeptPositionsIncreasing(es[1..], key, seen');
      ShiftIncreasing(KeptPositions(es[1..], key, seen'));
    }
  }

  /** First occurrences in the tail are first occurrences in the whole list, one position on. */
  lemma FirstOfKeyShiftAll<E>(es: seq<E>, key: E -> string, seen: set<string>, rest: seq<nat>)
    requires es != []
    requires forall m :: 0 <= m < |rest| ==> rest[m] < |es| - 1
    requires forall m :: 0 <= m < |rest| ==>
      FirstOfKey(es[1..], key, rest[m], if key(es[0]) in seen then seen else seen + {key(es[0])})
    ensures forall m :: 0 <= m < |rest| ==> FirstOfKey(es, key, Shift(rest)[m], seen)
  {
    forall m | 0 <= m < |rest| ensures FirstOfKey(es, key, Shift(rest)[m], seen) {
      FirstOfKeyShift(es, key, seen, rest[m]);
    }
  }

  /** Each kept position holds the first element with its key. */
  lemma {:induction false} KeptPositionsFirst<E>(es: seq<E>, key: E -> string, seen: set<string>)
    ensures forall m :: 0 <= m < |KeptPositions(es, key, seen)| ==>
      FirstOfKey(es, key, KeptPositions(es, key, seen)[m], seen)
  {
    if es != [] {
      var k := key(es[0]);
      var seen' := if k in seen then seen else seen + {k};
      KeptPositionsFirst(es[1..], key, seen');
      var rest := KeptPositions(es[1..], key, seen');
      FirstOfKeyShiftAll(es, key, seen, rest);
      if k !in seen {
        var idx := KeptPositions(es, key, seen);
        forall m | 0 < m < |idx| ensures FirstOfKey(es, key, idx[m], seen) {
          assert idx[m] == Shift(rest)[m - 1];
        }
      }
    }
  }

  /** Every first occurrence of an unseen key is a kept position. */
  lemma {:induction false} KeptPositionsComplete<E>(es: seq<E>, key: E -> string, seen: set<string>)
    ensures forall i :: 0 <= i < |es| && FirstOfKey(es, key, i, seen) ==> i in KeptPositions(es, key, seen)
  {
    if es != [] {
      var k := key(es[0]);
      var seen' := if k in seen then seen else seen + {k};
      KeptPositionsComplete(es[1..], key, seen');
      var rest := KeptPositions(es[1..], key, seen');
      var idx := KeptPositions(es, key, seen);
      var shifted := Shift(rest);
      assert idx == if k in seen then shifted else [0] + shifted;
      forall i | 0 <= i < |es| && FirstOfKey(es, key, i, seen) ensures i in idx {
        if i > 0 {
          FirstOfKeyShift(es, key, seen, i - 1);
          assert i - 1 in rest;
          var m :| 0 <= m < |rest| && rest[m] == i - 1;
          assert shifted[m] == i;
          if k !in seen {
            assert idx[m + 1] == shifted[m];
          }
        } else {
          assert k !in seen && idx[0] == 0;
        }
      }
    }
  }

  /**
   * The kept elements are exactly the rewritten first occurrences of each key,
   * in input order: `idx` lists their input positions, strictly increasing.
   */
  lemma DedupKeepsFirstOccurrences<E>(es: seq<E>, key: E -> string, keep: E -> E, seen: set<string>)
    returns (idx: seq<nat>)
    ensures |idx| == |DedupBy(es, key, keep, seen)|
    ensures forall m, n :: 0 <= m < n < |idx| ==> idx[m] < idx[n]
    ensures forall m :: 0 <= m < |idx| ==>
      idx[m] < |es| && FirstOfKey(es, key, idx[m], seen) && DedupBy(es, key, keep, seen)[m] == keep(es[idx[m]])
    ensures forall i :: 0 <= i < |es| && FirstOfKey(es, key, i, seen) ==> i in idx
  {
    idx := KeptPositions(es, key, seen);
    KeptPositionsMatch(es, key, keep, seen);
    KeptPositionsIncreasing(es, key, seen);
    KeptPositionsFirst(es, key, seen);
    KeptPositionsComplete(es, key, seen);
  }

  /** Keys of kept elements are pairwise distinct and none was seen before, when `keep` keeps keys. */
  lemma {:induction false} DedupKeysDistinct<E>(es: seq<E>, key: E -> string, keep: E -> E, seen: set<string>)
    requires forall e :: key(keep(e)) == key(e)
    ensures forall m :: 0 <= m < |DedupBy(es, key, keep, seen)| ==> key(DedupBy(es, key, keep, seen)[m]) !in seen
    ensures forall m, n :: 0 <= m < n < |DedupBy(es, key, keep, seen)| ==>
      key(DedupBy(es, key, keep, seen)[m]) != key(DedupBy(es, key, keep, seen)[n])
  {
    if es != [] {
      var k := key(es[0]);
      if k in seen {
        DedupKeysDistinct(es[1..], key, keep, seen);
      } else {
        DedupKeysDistinct(es[1..], key, keep, seen + {k});
        var out := DedupBy(es, key, keep, seen);
        var tail := DedupBy(es[1..], key, keep, seen + {k});
        assert out == [keep(es[0])] + tail;
        forall m | 0 < m < |out| ensures key(out[m]) !in seen && key(out[m]) != key(out[0]) {
          assert out[m] == tail[m - 1];
        }
      }
    }
  }

  /** A list whose elements `keep` fixes, with distinct unseen keys, passes through unchanged. */
  lemma {:induction false} DedupOfDistinct<E>(xs: seq<E>, key: E -> string, keep: E -> E, seen: set<string>)
    requires forall m :: 0 <= m < |xs| ==> keep(xs[m]) == xs[m] && key(xs[m]) !in seen
    requires forall m, n :: 0 <= m < n < |xs| ==> key(xs[m]) != key(xs[n])
    ensures DedupBy(xs, key, keep, seen) == xs
  {
    if xs != [] {
      var k := key(xs[0]);
      forall m | 0 <= m < |xs[1..]| ensures keep(xs[1..][m]) == xs[1..][m] && key(xs[1..][m]) !in seen + {k} {
        assert xs[1..][m] == xs[m + 1];
      }
      forall m, n | 0 <= m < n < |xs[1..]| ensures key(xs[1..][m]) != key(xs[1..][n]) {
        assert xs[1..][m] == xs[m + 1] && xs[1..][n] == xs[n + 1];
      }
      DedupOfDistinct(xs[1..], key, keep, seen + {k});
    }
  }

  /** With a key-preserving, idempotent `keep`, filtering twice is filtering once. */
  lemma DedupByIdempotent<E>(es: seq<E>, key: E -> string, keep: E -> E)
    requires forall e :: key(keep(e)) == key(e) && keep(keep(e)) == keep(e)
    ensures DedupBy(DedupBy(es, key, keep, {}), key, keep, {}) == DedupBy(es, key, keep, {})
  {
    var out := DedupBy(es, key, keep, {});
    DedupKeysDistinct(es, key, keep, {});
    var idx := DedupKeepsFirstOccurrences(es, key, keep, {});
    forall m | 0 <= m < |out| ensures keep(out[m]) == out[m] {
      assert out[m] == keep(es[idx[m]]);
    }
    DedupOfDistinct(out, key, keep, {});
  }

  /** Every kept paper has a string title and a truthy, non-object abstract, and is already normalised. */
  lemma DedupNormalizes(ps: seq<Paper>, seen: set<string>)
    ensures forall m :: 0 <= m < |Dedup(ps, seen)| ==>
      Dedup(ps, seen)[m].title.Str? && Truthy(Dedup(ps, seen)[m].abstractText)
      && !IsObject(Dedup(ps, seen)[m].abstractText) && Normalize(Dedup(ps, seen)[m]) == Dedup(ps, seen)[m]
  {
    var out := Dedup(ps, seen);
    var idx := DedupKeepsFirstOccurrences(ps, PaperKey, Normalize, seen);
    forall m | 0 <= m < |out| ensures
      out[m].title.Str? && Truthy(out[m].abstractText) && !IsObject(out[m].abstractText) && Normalize(out[m]) == out[m]
    {
      assert out[m] == Normalize(ps[idx[m]]);
      NormalizeStable(ps[idx[m]]);
    }
  }

  /** De-duplicating the de-duplicated papers changes nothing. */
  lemma DedupIdempotent(ps: seq<Paper>)
    ensures Dedup(Dedup(ps, {}), {}) == Dedup(ps, {})
  {
    forall p: Paper ensures PaperKey(Normalize(p)) == PaperKey(p) && Normalize(Normalize(p)) == Normalize(p) {
      NormalizeStable(p);
    }
    DedupByIdempotent(ps, PaperKey, Normalize);
  }

  /** A title's key ignores letter case and white space around the title. */
  lemma KeyIgnoresCaseAndPadding(s: string, t: string, u: string, v: string)
    requires ToLower(s) == ToLower(t) && IsBlank(u) && IsBlank(v)
    ensures DedupKey(Str(u + t + v)) == DedupKey(Str(s))
  {
    calc {
      ToLower(u + t + v);
    == { ToLowerAppend(u + t, v); ToLowerAppend(u, t); }
      ToLower(u) + ToLower(t) + ToLower(v);
    == { ToLowerBlank(u); ToLowerBlank(v); }
      u + ToLower(s) + v;
    }
    TrimPadded(u, ToLower(s), v);
  }

  /**
   * Titles that differ only in case and surrounding white space are
   * duplicates: of two such papers, only the first survives, normalised.
   */
  lemma CaseAndSpaceInsensitive(a: Paper, b: Paper, s: string, t: string, u: string, v: string)
    requires a.title == Str(s) && b.title == Str(u + t + v)
    requires ToLower(s) == ToLower(t) && IsBlank(u) && IsBlank(v)
    ensures PaperKey(b) == PaperKey(a)
    ensures Dedup([a, b], {}) == [Normalize(a)]
  {
    KeyIgnoresCaseAndPadding(s, t, u, v);
    var ps := [a, b];
    var k := PaperKey(a);
    assert ps[1..] == [b];
    assert DedupBy(ps[1..], PaperKey, Normalize, {k}) == [];
    var none: set<string> := {};
    assert k !in none && none + {k} == {k};
    assert Dedup(ps, none) == [Normalize(a)] + DedupBy(ps[1..], PaperKey, Normalize, {k});
  }

  /**
   * `removeDuplicates`: walk the papers once, keeping the first paper for each
   * title key (`titleText.toLowerCase().trim()`) and normalising its title and
   * abstract; the result is the first-seen-wins filter `Dedup`.
   */
  method RemoveDuplicates(papers: seq<Paper>) returns (unique: seq<Paper>)
    ensures unique == Dedup(papers, {})
  {
    var seen: set<string> := {};
    unique := [];
    var i := 0;
    while i < |papers|
      invariant i <= |papers|
      invariant Dedup(papers, {}) == unique + Dedup(papers[i..], seen)
    {
      var paper := papers[i];
      var titleText := TitleText(paper.title);
      var key := Trim(ToLower(titleText));
      assert papers[i..][1..] == papers[i + 1..];
      if key !in seen {
        seen := seen + {key};
        paper := paper.(title := Str(titleText), abstractText := NormalizeAbstract(paper.abstractText));
        unique := unique + [paper];
      }
      i := i + 1;
    }
    assert papers[i..] == [];
  }
}
