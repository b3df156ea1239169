/**
 * The lookup engine behind the HTTP API (src/api.py): the two-mode verse
 * resolver, the token-overlap suggestion ranker, today's meditation and the
 * shape of the search and meditate responses. The corpus is a parameter.
 */
module Api {
  import opened Options
  import opened Text
  import opened Sequences
  import opened Dates
  import opened Corpus
  import opened Ranking

  // ================================================================ verse resolver

  /** Exact-reference mode: `r` is the first verse whose reference is exactly `q`, or None if no verse has it. */
  ghost predicate IsFirstWithReference(verses: seq<Verse>, q: string, r: Option<Verse>) {
    match r
    case None => forall i | 0 <= i < |verses| :: verses[i].reference != q
    case Some(v) =>
      v.reference == q
      && exists i | 0 <= i < |verses| :: verses[i] == v && forall j | 0 <= j < i :: verses[j].reference != q
  }

  /** The query occurs in the verse's text or in its reference. */
  predicate Mentions(v: Verse, q: string) {
    Contains(v.text, q) || Contains(v.reference, q)
  }

  /** A verse mentions `q` exactly when `q` occurs at some offset of its text or of its reference. */
  lemma MentionsIff(v: Verse, q: string)
    ensures Mentions(v, q) <==>
      (exists i | 0 <= i <= |v.text| :: q <= v.text[i..])
      || (exists i | 0 <= i <= |v.reference| :: q <= v.reference[i..])
  {
    ContainsIff(v.text, q);
    ContainsIff(v.reference, q);
  }

  /** Substring mode: `r` is the first verse that mentions `q`, or None if no verse does. */
  ghost predicate IsFirstMentioning(verses: seq<Verse>, q: string, r: Option<Verse>) {
    match r
    case None => forall i | 0 <= i < |verses| :: !Mentions(verses[i], q)
    case Some(v) =>
      Mentions(v, q)
      && exists i | 0 <= i < |verses| :: verses[i] == v && forall j | 0 <= j < i :: !Mentions(verses[j], q)
  }

  /**
   * find_verse: trim the query; a colon anywhere in it selects exact-reference
   * mode, otherwise substring mode. The two modes never fall back on each other.
   */
  function FindVerse(verses: seq<Verse>, query: string): (r: Option<Verse>)
    ensures ':' in Strip(query) ==> IsFirstWithReference(verses, Strip(query), r)
    ensures ':' !in Strip(query) ==> IsFirstMentioning(verses, Strip(query), r)
  {
    var normalized := Strip(query);
    if ':' in normalized then
      var p := (v: Verse) => v.reference == normalized;
      var r := First(verses, p);
      FirstMatchWithReference(verses, normalized, p, r);
      r
    else
      var p := (v: Verse) => Mentions(v, normalized);
      var r := First(verses, p);
      FirstMatchMentioning(verses, normalized, p, r);
      r
  }

  /** A first-match search whose condition is "the reference equals `q`" finds the first verse with that reference. */
  lemma FirstMatchWithReference(verses: seq<Verse>, q: string, p: Verse -> bool, r: Option<Verse>)
    requires forall v :: p(v) == (v.reference == q)
    requires IsFirstMatch(verses, p, r)
    ensures IsFirstWithReference(verses, q, r)
  {
  }

  /** A first-match search whose condition is "mentions `q`" finds the first verse mentioning it. */
  lemma FirstMatchMentioning(verses: seq<Verse>, q: string, p: Verse -> bool, r: Option<Verse>)
    requires forall v :: p(v) == Mentions(v, q)
    requires IsFirstMatch(verses, p, r)
    ensures IsFirstMentioning(verses, q, r)
  {
  }

  /** At most one answer is the first verse with a given reference. */
  lemma FirstWithReferenceUnique(verses: seq<Verse>, q: string, r1: Option<Verse>, r2: Option<Verse>)
    requires IsFirstWithReference(verses, q, r1) && IsFirstWithReference(verses, q, r2)
    ensures r1 == r2
  {
    if r1.Some? && r2.Some? {
      var i1 :| 0 <= i1 < |verses| && verses[i1] == r1.value && forall j | 0 <= j < i1 :: verses[j].reference != q;
      var i2 :| 0 <= i2 < |verses| && verses[i2] == r2.value && forall j | 0 <= j < i2 :: verses[j].reference != q;
      assert !(i1 < i2) && !(i2 < i1);
    }
  }

  /** At most one answer is the first verse mentioning a query. */
  lemma FirstMentioningUnique(verses: seq<Verse>, q: string, r1: Option<Verse>, r2: Option<Verse>)
    requires IsFirstMentioning(verses, q, r1) && IsFirstMentioning(verses, q, r2)
    ensures r1 == r2
  {
    if r1.Some? && r2.Some? {
      var i1 :| 0 <= i1 < |verses| && verses[i1] == r1.value && forall j | 0 <= j < i1 :: !Mentions(verses[j], q);
      var i2 :| 0 <= i2 < |verses| && verses[i2] == r2.value && forall j | 0 <= j < i2 :: !Mentions(verses[j], q);
      assert !(i1 < i2) && !(i2 < i1);
    }
  }

  /** Whatever the resolver returns comes from the corpus. */
  lemma FindVerseFromCorpus(verses: seq<Verse>, query: string)
    ensures FindVerse(verses, query).Some? ==> FindVerse(verses, query).value in verses
  {
  }

  /** Only the trimmed query matters: resolving the trimmed query gives the same answer. */
  lemma FindVerseTrimInvariant(verses: seq<Verse>, query: string)
    ensures FindVerse(verses, query) == FindVerse(verses, Strip(query))
  {
    StripIdempotent(query);
  }

  /**
   * No fallback: a query with a colon that names no reference in the corpus
   * resolves to nothing, even when its text occurs in some verse.
   */
  lemma ReferenceQueryDoesNotFallBack(verses: seq<Verse>, query: string)
    requires ':' in Strip(query)
    requires forall i | 0 <= i < |verses| :: verses[i].reference != Strip(query)
    ensures FindVerse(verses, query) == None
  {
  }

  /** Every verse is found by its own reference when that reference holds a colon and no outer whitespace. */
  lemma ReferenceRoundTrip(verses: seq<Verse>, k: nat)
    requires k < |verses|
    requires ':' in verses[k].reference && Strip(verses[k].reference) == verses[k].reference
    ensures FindVerse(verses, verses[k].reference).Some?
    ensures FindVerse(verses, verses[k].reference).value.reference == verses[k].reference
  {
  }

  /** Every verse is reachable through its own text when the trimmed text holds no colon. */
  lemma TextReachability(verses: seq<Verse>, k: nat)
    requires k < |verses|
    requires ':' !in Strip(verses[k].text)
    ensures FindVerse(verses, verses[k].text).Some?
    ensures Mentions(FindVerse(verses, verses[k].text).value, Strip(verses[k].text))
  {
    ContainsStrip(verses[k].text);
    assert Mentions(verses[k], Strip(verses[k].text));
  }

  /** A blank query trims to the empty string, which occurs in every text: the first verse is returned. */
  lemma BlankQueryFindsFirstVerse(verses: seq<Verse>, query: string)
    requires AllWhitespace(query) && |verses| > 0
    ensures FindVerse(verses, query) == Some(verses[0])
  {
    StripEmptyIff(query);
    ContainsEmpty(verses[0].text);
    assert Mentions(verses[0], Strip(query));
  }

  // ================================================================ suggestion ranker

  /** The distinct whitespace-separated words of the query. */
  function Tokens(query: string): (tokens: set<string>)
    ensures forall t :: t in tokens <==> t in Split(Strip(query))
    ensures forall t | t in tokens :: t != [] && NoWhitespace(t)
  {
    SplitWords(Strip(query));
    set t | t in Split(Strip(query)) && t != []
  }

  /** The text a verse is scored against: its reference, a space, its text. */
  function ScoredText(v: Verse): string {
    v.reference + " " + v.text
  }

  /** The scored text is the reference, one space and the text, so it holds both. */
  lemma ScoredTextParts(v: Verse)
    ensures |ScoredText(v)| == |v.reference| + 1 + |v.text|
    ensures ScoredText(v)[..|v.reference|] == v.reference
    ensures ScoredText(v)[|v.reference|] == ' '
    ensures ScoredText(v)[|v.reference| + 1..] == v.text
    ensures Contains(ScoredText(v), v.reference) && Contains(ScoredText(v), v.text)
  {
    var s := ScoredText(v);
    assert v.reference <= s;
    assert v.text <= s[|v.reference| + 1..];
    ContainsIff(s, v.text);
  }

  /**
   * A word without whitespace cannot straddle the joining space: it occurs
   * in the scored text exactly when it occurs in the reference or the text.
   */
  lemma ScoredTextMatch(v: Verse, t: string)
    requires NoWhitespace(t)
    ensures Contains(ScoredText(v), t) <==> Contains(v.reference, t) || Contains(v.text, t)
  {
    ContainsInJoin(v.reference, v.text, t);
  }

  /** The tokens that occur in the verse's reference or in its text. */
  function MentionedTokens(v: Verse, tokens: set<string>): set<string> {
    set t | t in tokens && (Contains(v.reference, t) || Contains(v.text, t))
  }

  /** How many of the distinct tokens occur in the verse's scored text. */
  function Score(v: Verse, tokens: set<string>): (n: nat)
    ensures n <= |tokens|
  {
    var hits := set t | t in tokens && Contains(ScoredText(v), t);
    SubsetSize(hits, tokens);
    |hits|
  }

  /** A token occurring in a verse's reference or text makes that verse score at least 1. */
  lemma MentionedTokenScores(v: Verse, tokens: set<string>, t: string)
    requires t in tokens && (Contains(v.reference, t) || Contains(v.text, t))
    ensures Score(v, tokens) >= 1
  {
    ScoredTextParts(v);
    if Contains(v.reference, t) {
      ContainsTransitive(ScoredText(v), v.reference, t);
    } else {
      ContainsTransitive(ScoredText(v), v.text, t);
    }
    var hits := set u | u in tokens && Contains(ScoredText(v), u);
    assert t in hits;
    SubsetSize({t}, hits);
  }

  /** The score of a verse is the number of query tokens found in its reference or its text. */
  lemma ScoreCountsMentions(v: Verse, tokens: set<string>)
    requires forall t | t in tokens :: NoWhitespace(t)
    ensures Score(v, tokens) == |MentionedTokens(v, tokens)|
  {
    forall t | t in tokens {
      ScoredTextMatch(v, t);
    }
    var hits := set t | t in tokens && Contains(ScoredText(v), t);
    assert hits == MentionedTokens(v, tokens);
  }

  lemma SubsetSize<T>(a: set<T>, b: set<T>)
    requires a <= b
    ensures |a| <= |b|
    decreases b
  {
    if a != {} {
      var x :| x in a;
      SubsetSize(a - {x}, b - {x});
    }
  }

  /** The score as the sort key of `sorted(verses, key=score, reverse=True)`. */
  function ScoreOf(tokens: set<string>): Verse -> int {
    v => Score(v, tokens)
  }

  const SuggestionLimit: nat := 3

  /**
   * suggest_verses: rank the corpus by token overlap with the query, highest
   * first and stably, drop the verses that share no token, keep the first
   * `limit`. The result is drawn from the corpus, holds only verses scoring
   * at least 1 in non-increasing score order, and is a head of the stable
   * ranking as long as the number of positively scored verses allows.
   */
  function SuggestVerses(verses: seq<Verse>, query: string, limit: nat): (r: seq<Verse>)
    ensures |r| <= limit
    ensures var p := |KeepPositive(verses, ScoreOf(Tokens(query)))|; |r| == if p < limit then p else limit
    ensures forall i | 0 <= i < |r| :: r[i] in verses && Score(r[i], Tokens(query)) >= 1
    ensures forall i, j | 0 <= i < j < |r| :: Score(r[i], Tokens(query)) >= Score(r[j], Tokens(query))
    ensures r <= SortDescending(verses, ScoreOf(Tokens(query)))
  {
    var r := TopPositive(verses, ScoreOf(Tokens(query)), limit);
    assert SortedByKey(r, ScoreOf(Tokens(query)));
    r
  }

  /** Stability of the suggestions: verses of equal score come in corpus order, as a head of that score's verses. */
  lemma SuggestionsKeepCorpusOrder(verses: seq<Verse>, query: string, limit: nat, k: int)
    ensures KeyClass(SuggestVerses(verses, query, limit), ScoreOf(Tokens(query)), k)
         <= KeyClass(verses, ScoreOf(Tokens(query)), k)
  {
    TopPositiveKeepsInputOrder(verses, ScoreOf(Tokens(query)), limit, k);
  }

  /**
   * Completeness: a verse that shares a token with the query is left out only
   * when all `limit` places are taken, and then only by verses scoring at
   * least as high.
   */
  lemma SuggestionsSkipNothingBetter(verses: seq<Verse>, query: string, limit: nat, v: Verse)
    requires v in verses && Score(v, Tokens(query)) > 0
    requires v !in SuggestVerses(verses, query, limit)
    ensures |SuggestVerses(verses, query, limit)| == limit
    ensures forall i | 0 <= i < limit :: Score(SuggestVerses(verses, query, limit)[i], Tokens(query)) >= Score(v, Tokens(query))
  {
    var key := ScoreOf(Tokens(query));
    TopPositiveSkipsNothingBetter(verses, key, limit, v);
    forall i | 0 <= i < limit ensures Score(SuggestVerses(verses, query, limit)[i], Tokens(query)) >= Score(v, Tokens(query)) {
      assert key(TopPositive(verses, key, limit)[i]) >= key(v);
    }
  }

  /** Suggestions depend on the query only through its set of distinct tokens. */
  lemma SuggestionsDependOnTokens(verses: seq<Verse>, q1: string, q2: string, limit: nat)
    requires Tokens(q1) == Tokens(q2)
    ensures SuggestVerses(verses, q1, limit) == SuggestVerses(verses, q2, limit)
  {
  }

  /** Joining two queries with a space unites their token sets. */
  lemma TokensOfJoin(q: string, w: string)
    ensures Tokens(q + " " + w) == Tokens(q) + Tokens(w)
  {
    SplitStripJoin(q, w);
    var a, b := Split(Strip(q)), Split(Strip(w));
    forall t ensures t in Tokens(q + " " + w) <==> t in Tokens(q) + Tokens(w) {
      assert t in a + b <==> t in a || t in b;
    }
  }

  /**
   * Repeating tokens changes nothing: appending words the query already holds
   * leaves every score, and so the suggestions, as they were.
   */
  lemma RepeatedTokensKeepSuggestions(verses: seq<Verse>, q: string, w: string, limit: nat)
    requires Tokens(w) <= Tokens(q)
    ensures forall v :: Score(v, Tokens(q + " " + w)) == Score(v, Tokens(q))
    ensures SuggestVerses(verses, q + " " + w, limit) == SuggestVerses(verses, q, limit)
  {
    TokensOfJoin(q, w);
    assert Tokens(q + " " + w) == Tokens(q);
  }

  /** A blank query has no tokens, scores every verse 0 and suggests nothing. */
  lemma BlankQuerySuggestsNothing(verses: seq<Verse>, query: string, limit: nat)
    requires AllWhitespace(query)
    ensures Tokens(query) == {}
    ensures forall v :: Score(v, Tokens(query)) == 0
    ensures SuggestVerses(verses, query, limit) == []
  {
    StripEmptyIff(query);
    assert Split(Strip(query)) == [];
    KeepPositiveOfNonPositive(verses, ScoreOf({}));
  }

  // ================================================================ today's meditation

  /** `r` is the first meditation dated `iso`, or None when no meditation carries that date. */
  ghost predicate IsFirstDated(meditations: seq<Meditation>, iso: string, r: Option<Meditation>) {
    match r
    case None => forall i | 0 <= i < |meditations| :: meditations[i].date != iso
    case Some(m) =>
      m.date == iso
      && exists i | 0 <= i < |meditations| :: meditations[i] == m && forall j | 0 <= j < i :: meditations[j].date != iso
  }

  /** At most one answer is the first meditation with a given date. */
  lemma FirstDatedUnique(meditations: seq<Meditation>, iso: string, r1: Option<Meditation>, r2: Option<Meditation>)
    requires IsFirstDated(meditations, iso, r1) && IsFirstDated(meditations, iso, r2)
    ensures r1 == r2
  {
    if r1.Some? && r2.Some? {
      var i1 :| 0 <= i1 < |meditations| && meditations[i1] == r1.value && forall j | 0 <= j < i1 :: meditations[j].date != iso;
      var i2 :| 0 <= i2 < |meditations| && meditations[i2] == r2.value && forall j | 0 <= j < i2 :: meditations[j].date != iso;
      assert !(i1 < i2) && !(i2 < i1);
    }
  }

  /** The first meditation dated `iso`, scanning in corpus order. */
  function FirstDated(meditations: seq<Meditation>, iso: string): (r: Option<Meditation>)
    ensures IsFirstDated(meditations, iso, r)
  {
    First(meditations, (m: Meditation) => m.date == iso)
  }

  /** The fallback slot: the day ordinal taken modulo the number of meditations. */
  function FallbackIndex(today: Date, n: nat): (i: nat)
    requires Valid(today) && n > 0
    ensures i < n
  {
    ToOrdinal(today) % n
  }

  /**
   * pick_today_meditation: the first meditation dated today's ISO date;
   * failing that, the one at today's ordinal modulo their number. Defined
   * for every non-empty list and every date, and always one of the list.
   */
  function PickTodayMeditation(meditations: seq<Meditation>, today: Date): (m: Meditation)
    requires |meditations| > 0 && Valid(today)
    ensures m in meditations
    ensures IsFirstDated(meditations, IsoFormat(today), Some(m))
         || ((forall i | 0 <= i < |meditations| :: meditations[i].date != IsoFormat(today))
             && m == meditations[FallbackIndex(today, |meditations|)])
  {
    match FirstDated(meditations, IsoFormat(today))
    case Some(m) => m
    case None => meditations[FallbackIndex(today, |meditations|)]
  }

  /** A meditation dated today is always preferred over the fallback slot. */
  lemma DatedMeditationWins(meditations: seq<Meditation>, today: Date, k: nat)
    requires Valid(today) && k < |meditations| && meditations[k].date == IsoFormat(today)
    ensures PickTodayMeditation(meditations, today).date == IsoFormat(today)
  {
  }

  /**
   * With no dated match on two consecutive days, the pick moves on by one
   * slot and wraps around at the end of the list.
   */
  lemma FallbackAdvancesDaily(meditations: seq<Meditation>, today: Date)
    requires |meditations| > 0 && Valid(today) && today != Date(MaxYear, 12, 31)
    requires forall i | 0 <= i < |meditations| :: meditations[i].date != IsoFormat(today)
    requires forall i | 0 <= i < |meditations| :: meditations[i].date != IsoFormat(NextDay(today))
    ensures PickTodayMeditation(meditations, NextDay(today))
         == meditations[(FallbackIndex(today, |meditations|) + 1) % |meditations|]
  {
    var n := |meditations|;
    PickWithoutDatedMatch(meditations, NextDay(today));
    FallbackIndexNextDay(today, n);
  }

  lemma PickWithoutDatedMatch(meditations: seq<Meditation>, today: Date)
    requires |meditations| > 0 && Valid(today)
    requires forall i | 0 <= i < |meditations| :: meditations[i].date != IsoFormat(today)
    ensures PickTodayMeditation(meditations, today) == meditations[FallbackIndex(today, |meditations|)]
  {
  }

  lemma FallbackIndexNextDay(today: Date, n: nat)
    requires Valid(today) && today != Date(MaxYear, 12, 31) && n > 0
    ensures FallbackIndex(NextDay(today), n) == (FallbackIndex(today, n) + 1) % n
  {
    var a, b := ToOrdinal(today), ToOrdinal(NextDay(today));
    OrdinalCountsDays(today);
    assert b == a + 1;
    ModSucc(a, n);
    assert FallbackIndex(NextDay(today), n) == b % n;
    assert FallbackIndex(today, n) == a % n;
  }

  lemma ModSucc(a: int, n: int)
    requires a >= 0 && n > 0
    ensures (a + 1) % n == (a % n + 1) % n
  {
    var q, r := a / n, a % n;
    assert a == n * q + r;
    if r + 1 < n {
      ModUnique(a + 1, n, q, r + 1);
      ModUnique(r + 1, n, 0, r + 1);
    } else {
      assert a + 1 == n * (q + 1) + 0;
      ModUnique(a + 1, n, q + 1, 0);
      ModUnique(n, n, 1, 0);
    }
  }

  /** The remainder is determined by any quotient-remainder decomposition. */
  lemma ModUnique(x: int, n: int, q: int, r: int)
    requires n > 0 && 0 <= r < n && x == n * q + r
    ensures x % n == r
  {
    var q', r' := x / n, x % n;
    assert n * (q - q') == r' - r;
    if q - q' >= 1 {
      MulAtLeast(n, q - q');
    } else if q' - q >= 1 {
      MulAtLeast(n, q' - q);
    }
  }

  lemma MulAtLeast(n: int, k: int)
    requires n > 0 && k >= 1
    ensures n * k >= n
  {
    assert n * k == n * (k - 1) + n;
  }

  // ================================================================ response shaping

  /** One hit of /api/search: the verse's fields, the first three perspectives and the first meditation. */
  datatype SearchHit = SearchHit(
    reference: string,
    text: string,
    summary: string,
    perspectives: seq<Perspective>,
    meditation: Meditation)

  datatype SearchResponse = SearchResponse(query: string, results: seq<SearchHit>, suggestions: seq<Verse>)

  /** The exception a handler raises: indexing the first meditation of an empty list. */
  datatype HandlerError = IndexError

  const PerspectivesShown: nat := 3

  /**
   * search: a hit gives exactly one result and no suggestions; a miss gives
   * no result and the suggestions for the query. The hit path reads the
   * first meditation and fails when there is none.
   */
  function Search(corpus: Corpus, query: string): (r: Result<SearchResponse, HandlerError>)
    ensures r.Failure? <==> FindVerse(corpus.verses, query).Some? && corpus.meditations == []
    ensures r.Success? ==> r.value.query == query && |r.value.results| <= 1
    ensures r.Success? ==> (|r.value.results| == 1 <==> FindVerse(corpus.verses, query).Some?)
    ensures r.Success? && r.value.results == [] ==>
      r.value.suggestions == SuggestVerses(corpus.verses, query, SuggestionLimit)
    ensures r.Success? && r.value.results != [] ==>
      var hit, v := r.value.results[0], FindVerse(corpus.verses, query).value;
      && r.value.suggestions == []
      && hit.reference == v.reference && hit.text == v.text && hit.summary == v.summary
      && hit.perspectives == Take(corpus.perspectives, PerspectivesShown)
      && hit.meditation == corpus.meditations[0]
  {
    match FindVerse(corpus.verses, query)
    case None =>
      Success(SearchResponse(query, [], SuggestVerses(corpus.verses, query, SuggestionLimit)))
    case Some(v) =>
      if corpus.meditations == [] then Failure(IndexError)
      else
        var hit := SearchHit(v.reference, v.text, v.summary,
                             Take(corpus.perspectives, PerspectivesShown), corpus.meditations[0]);
        Success(SearchResponse(query, [hit], []))
  }

  /** A search never returns both a result and suggestions. */
  lemma SearchShapesExclusive(corpus: Corpus, query: string)
    requires Search(corpus, query).Success?
    ensures Search(corpus, query).value.results == [] || Search(corpus, query).value.suggestions == []
  {
  }

  /** The result of /api/meditate: the verse's reference and summary with the corpus-wide prompts. */
  datatype MeditateResult = MeditateResult(reference: string, summary: string, prompts: seq<string>)

  datatype MeditateResponse = MeditateResponse(query: string, result: Option<MeditateResult>, suggestions: seq<Verse>)

  /**
   * meditate: a hit gives the verse's reference, summary and the prompts and
   * no suggestions; a miss gives no result and the suggestions for the query.
   */
  function Meditate(corpus: Corpus, query: string): (r: MeditateResponse)
    ensures r.query == query
    ensures r.result.Some? <==> FindVerse(corpus.verses, query).Some?
    ensures r.result.None? ==> r.suggestions == SuggestVerses(corpus.verses, query, SuggestionLimit)
    ensures r.result.Some? ==>
      var v := FindVerse(corpus.verses, query).value;
      && r.suggestions == []
      && r.result.value == MeditateResult(v.reference, v.summary, corpus.meditationPrompts)
  {
    match FindVerse(corpus.verses, query)
    case None => MeditateResponse(query, None, SuggestVerses(corpus.verses, query, SuggestionLimit))
    case Some(v) => MeditateResponse(query, Some(MeditateResult(v.reference, v.summary, corpus.meditationPrompts)), [])
  }
}
