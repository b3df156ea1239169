/**
 * The lookups of the command-line tool (src/bible_cli.py): its own copy of
 * the verse resolver and the choice of the meditation shown by `today`.
 */
module Cli {
  import opened Options
  import opened Text
  import opened Sequences
  import opened Dates
  import opened Corpus
  import Api

  /**
   * find_verse, as the command-line tool writes it: trim; a colon selects
   * the first verse with exactly that reference, otherwise the first verse
   * whose text or reference holds the query.
   */
  function FindVerse(verses: seq<Verse>, query: string): (r: Option<Verse>)
    ensures ':' in Strip(query) ==> Api.IsFirstWithReference(verses, Strip(query), r)
    ensures ':' !in Strip(query) ==> Api.IsFirstMentioning(verses, Strip(query), r)
  {
    var normalized := Strip(query);
    if ':' in normalized then
      var p := (v: Verse) => v.reference == normalized;
      var r := First(verses, p);
      Api.FirstMatchWithReference(verses, normalized, p, r);
      r
    else
      var p := (v: Verse) => Contains(v.text, normalized) || Contains(v.reference, normalized);
      var r := First(verses, p);
      Api.FirstMatchMentioning(verses, normalized, p, r);
      r
  }

  /** The command-line resolver computes the same function as the API's, for every corpus and query. */
  lemma FindVerseAgreesWithApi(verses: seq<Verse>, query: string)
    ensures FindVerse(verses, query) == Api.FindVerse(verses, query)
  {
    var q := Strip(query);
    if ':' in q {
      Api.FirstWithReferenceUnique(verses, q, FindVerse(verses, query), Api.FindVerse(verses, query));
    } else {
      Api.FirstMentioningUnique(verses, q, FindVerse(verses, query), Api.FindVerse(verses, query));
    }
  }

  /** Only the trimmed query matters to the command-line resolver. */
  lemma FindVerseTrimInvariant(verses: seq<Verse>, query: string)
    ensures FindVerse(verses, query) == FindVerse(verses, Strip(query))
  {
    StripIdempotent(query);
  }

  /** A blank query names the first verse of a non-empty corpus. */
  lemma BlankQueryFindsFirstVerse(verses: seq<Verse>, query: string)
    requires AllWhitespace(query) && |verses| > 0
    ensures FindVerse(verses, query) == Some(verses[0])
  {
    FindVerseAgreesWithApi(verses, query);
    Api.BlankQueryFindsFirstVerse(verses, query);
  }

  /**
   * The meditation print_today shows: the first one dated today's ISO date,
   * otherwise the first of the list. The default is evaluated before the
   * scan, so the list must not be empty.
   */
  function TodayMeditation(meditations: seq<Meditation>, today: Date): (m: Meditation)
    requires |meditations| > 0 && Valid(today)
    ensures m in meditations
    ensures Api.IsFirstDated(meditations, IsoFormat(today), Some(m))
         || ((forall i | 0 <= i < |meditations| :: meditations[i].date != IsoFormat(today))
             && m == meditations[0])
  {
    var todayIso := IsoFormat(today);
    match First(meditations, (item: Meditation) => item.date == todayIso)
    case Some(m) => m
    case None => meditations[0]
  }

  /**
   * The command-line and API selectors agree whenever some meditation is
   * dated today; without such a meditation the command line shows the first
   * one and the API the one in the day's fallback slot.
   */
  lemma TodayMeditationVersusApi(meditations: seq<Meditation>, today: Date)
    requires |meditations| > 0 && Valid(today)
    ensures (exists i | 0 <= i < |meditations| :: meditations[i].date == IsoFormat(today))
        ==> TodayMeditation(meditations, today) == Api.PickTodayMeditation(meditations, today)
    ensures (forall i | 0 <= i < |meditations| :: meditations[i].date != IsoFormat(today))
        ==> (TodayMeditation(meditations, today) == meditations[0]
             && Api.PickTodayMeditation(meditations, today)
                == meditations[Api.FallbackIndex(today, |meditations|)])
  {
    var iso := IsoFormat(today);
    var c, a := TodayMeditation(meditations, today), Api.PickTodayMeditation(meditations, today);
    if exists i | 0 <= i < |meditations| :: meditations[i].date == iso {
      var i :| 0 <= i < |meditations| && meditations[i].date == iso;
      assert Api.IsFirstDated(meditations, iso, Some(c));
      assert Api.IsFirstDated(meditations, iso, Some(a));
      Api.FirstDatedUnique(meditations, iso, Some(c), Some(a));
    }
  }
}
