/**
 * Era normalisation (normalizers/normalize_era.py).
 *
 * The keyword table `era_keywords_dict` is a parameter: a map from
 * (language, calendar, marker) to the entry's keyword set and its normalized
 * spelling.  The function tests the era for membership in twelve keyword sets
 * in a fixed order; the first hit decides the calendar and the spelling,
 * which a `lang` of the opposite language switches to that language's entry.
 */
module EraNormalization {
  import opened Wrappers

  datatype EraKey = EraKey(lang: string, calendar: string, marker: string)

  datatype EraEntry = EraEntry(keywords: set<string>, normalized: string)

  type EraTable = map<EraKey, EraEntry>

  /** What normalize_era gives back: the bare "" for an empty era, otherwise the
      (era, calendar) pair; a key absent from the table raises KeyError. */
  datatype EraResult =
    | EmptyEra
    | Normalized(era: string, calendar: string)
    | MissingKey(key: EraKey)

  /** One branch of the if/elif cascade: the keyword set of `source` is tested,
      and a `lang` equal to `other` selects the `other` entry's spelling. */
  datatype Step = Step(source: string, other: string, calendar: string, marker: string)

  /** The branches in the order the source tests them.  The julian branches
      look up the "after_hijrah" and "before_hijrah" markers, as the source does. */
  const Steps: seq<Step> := [
    Step("ar", "en", "hijri", "after_hijrah"),
    Step("en", "ar", "hijri", "after_hijrah"),
    Step("ar", "en", "hijri", "before_hijrah"),
    Step("en", "ar", "hijri", "before_hijrah"),
    Step("ar", "en", "gregorian", "after_christ"),
    Step("en", "ar", "gregorian", "after_christ"),
    Step("ar", "en", "gregorian", "before_christ"),
    Step("en", "ar", "gregorian", "before_christ"),
    Step("ar", "en", "julian", "after_hijrah"),
    Step("en", "ar", "julian", "after_hijrah"),
    Step("ar", "en", "julian", "before_hijrah"),
    Step("en", "ar", "julian", "before_hijrah")
  ]

  predicate IsCalendar(c: string) { c == "hijri" || c == "gregorian" || c == "julian" }

  /** Each branch pairs the two languages and names one of the three calendars;
      a branch and its partner (the other language) sit next to each other. */
  lemma StepsShape()
    ensures |Steps| == 12
    ensures forall k :: 0 <= k < |Steps| ==>
              IsCalendar(Steps[k].calendar) && Steps[k].source != Steps[k].other &&
              (Steps[k].source == "ar" || Steps[k].source == "en") &&
              (Steps[k].other == "ar" || Steps[k].other == "en")
  {
  }

  function SourceKey(s: Step): EraKey { EraKey(s.source, s.calendar, s.marker) }

  function OtherKey(s: Step): EraKey { EraKey(s.other, s.calendar, s.marker) }

  /** The entry whose spelling is returned after a hit on step s. */
  function TargetKey(s: Step, lang: Option<string>): EraKey
  {
    if lang == Some(s.other) then OtherKey(s) else SourceKey(s)
  }

  /** The keyword set of step i, or the empty set when the table lacks it. */
  function KeywordsAt(table: EraTable, i: nat): set<string>
    requires i < |Steps|
  {
    if SourceKey(Steps[i]) in table then table[SourceKey(Steps[i])].keywords else {}
  }

  /** Every entry the cascade may read is present. */
  predicate Complete(table: EraTable)
  {
    forall i :: 0 <= i < |Steps| ==> SourceKey(Steps[i]) in table && OtherKey(Steps[i]) in table
  }

  /** normalize_era(era, lang). */
  function NormalizeEra(table: EraTable, era: Option<string>, lang: Option<string>): (r: EraResult)
    ensures r.EmptyEra? <==> era == None || era == Some("")
    ensures r.Normalized? && r.calendar == "" ==> era == Some(r.era)
    ensures r.Normalized? && r.calendar != "" ==>
              IsCalendar(r.calendar) && exists key :: key in table && table[key].normalized == r.era
  {
    if era == None || era == Some("") then EmptyEra
    else
      StepsShape();
      Cascade(table, era.value, lang, 0)
  }

  /** The branches from step i on; past the last one the era comes back unchanged. */
  function Cascade(table: EraTable, era: string, lang: Option<string>, i: nat): (r: EraResult)
    requires i <= |Steps|
    ensures r.Normalized? && r.calendar == "" ==> r.era == era
    ensures r.Normalized? && r.calendar != "" ==>
              exists k :: i <= k < |Steps| && r.calendar == Steps[k].calendar &&
                          TargetKey(Steps[k], lang) in table && r.era == table[TargetKey(Steps[k], lang)].normalized
    ensures !r.EmptyEra?
    decreases |Steps| - i
  {
    if i == |Steps| then Normalized(era, "")
    else
      var step := Steps[i];
      if SourceKey(step) !in table then MissingKey(SourceKey(step))
      else if era in table[SourceKey(step)].keywords then
        var target := TargetKey(step, lang);
        if target !in table then MissingKey(target)
        else Normalized(table[target].normalized, step.calendar)
      else Cascade(table, era, lang, i + 1)
  }

  // ---------------------------------------------------------------------------
  // Properties
  // ---------------------------------------------------------------------------

  /** The branch that tests the other language's keyword set for the same calendar and marker. */
  function Partner(k: nat): nat
  {
    if k % 2 == 0 then k + 1 else k - 1
  }

  lemma StepsPartner()
    ensures forall k :: 0 <= k < |Steps| ==>
              Partner(k) < |Steps| &&
              SourceKey(Steps[Partner(k)]) == OtherKey(Steps[k]) &&
              Steps[Partner(k)].other == Steps[k].source &&
              Steps[Partner(k)].calendar == Steps[k].calendar
  {
    forall k | 0 <= k < |Steps|
      ensures Partner(k) < |Steps| &&
              SourceKey(Steps[Partner(k)]) == OtherKey(Steps[k]) &&
              Steps[Partner(k)].other == Steps[k].source &&
              Steps[Partner(k)].calendar == Steps[k].calendar
    {
    }
  }

  lemma {:induction false} CascadeComplete(table: EraTable, era: string, lang: Option<string>, i: nat)
    requires Complete(table) && i <= |Steps|
    ensures Cascade(table, era, lang, i).Normalized?
    decreases |Steps| - i
  {
    if i < |Steps| {
      CascadeComplete(table, era, lang, i + 1);
    }
  }

  /** With every entry present, no lookup raises: the result is "" or a pair. */
  lemma CompleteTableNeverRaises(table: EraTable, era: Option<string>, lang: Option<string>)
    requires Complete(table)
    ensures NormalizeEra(table, era, lang).EmptyEra? || NormalizeEra(table, era, lang).Normalized?
  {
    if era != None && era != Some("") {
      CascadeComplete(table, era.value, lang, 0);
    }
  }

  lemma {:induction false} CascadeFirstHit(table: EraTable, era: string, lang: Option<string>, i: nat, k: nat)
    requires Complete(table)
    requires i <= k < |Steps|
    requires era in KeywordsAt(table, k)
    requires forall j :: i <= j < k ==> era !in KeywordsAt(table, j)
    ensures Cascade(table, era, lang, i) ==
              Normalized(table[TargetKey(Steps[k], lang)].normalized, Steps[k].calendar)
    decreases k - i
  {
    assert SourceKey(Steps[i]) in table;
    if i < k {
      assert era !in KeywordsAt(table, i);
      assert era !in table[SourceKey(Steps[i])].keywords;
      CascadeFirstHit(table, era, lang, i + 1, k);
      assert Cascade(table, era, lang, i) == Cascade(table, era, lang, i + 1);
    }
  }

  /**
   * The first keyword set (in cascade order) holding the era decides the
   * result: its calendar, and the spelling of its language's entry, or of the
   * other language's entry when `lang` names that other language.
   */
  lemma FirstHitWins(table: EraTable, era: string, lang: Option<string>, k: nat)
    requires Complete(table) && era != ""
    requires k < |Steps| && era in KeywordsAt(table, k)
    requires forall j :: 0 <= j < k ==> era !in KeywordsAt(table, j)
    ensures var r := NormalizeEra(table, Some(era), lang);
      && r.Normalized?
      && r.calendar == Steps[k].calendar
      && (Steps[k].source == "ar" ==>
            r.era == table[EraKey(if lang == Some("en") then "en" else "ar", Steps[k].calendar, Steps[k].marker)].normalized)
      && (Steps[k].source == "en" ==>
            r.era == table[EraKey(if lang == Some("ar") then "ar" else "en", Steps[k].calendar, Steps[k].marker)].normalized)
  {
    StepsShape();
    CascadeFirstHit(table, era, lang, 0, k);
  }

  /** Some branch hits exactly when the era is in some keyword set; otherwise the
      era comes back unchanged with calendar "". */
  lemma UnrecognizedEraUnchanged(table: EraTable, era: string, lang: Option<string>)
    requires Complete(table) && era != ""
    ensures NormalizeEra(table, Some(era), lang).Normalized?
    ensures NormalizeEra(table, Some(era), lang).calendar != "" <==>
              exists k :: 0 <= k < |Steps| && era in KeywordsAt(table, k)
    ensures (forall k :: 0 <= k < |Steps| ==> era !in KeywordsAt(table, k)) ==>
              NormalizeEra(table, Some(era), lang) == Normalized(era, "")
  {
    StepsShape();
    CompleteTableNeverRaises(table, Some(era), lang);
    if exists k :: 0 <= k < |Steps| && era in KeywordsAt(table, k) {
      var k :| 0 <= k < |Steps| && era in KeywordsAt(table, k);
      var j := FirstHitAtOrBefore(table, era, k);
      FirstHitWins(table, era, lang, j);
    } else {
      NoHitCascade(table, era, lang, 0);
    }
  }

  lemma {:induction false} NoHitCascade(table: EraTable, era: string, lang: Option<string>, i: nat)
    requires Complete(table) && i <= |Steps|
    requires forall k :: i <= k < |Steps| ==> era !in KeywordsAt(table, k)
    ensures Cascade(table, era, lang, i) == Normalized(era, "")
    decreases |Steps| - i
  {
    if i < |Steps| {
      assert SourceKey(Steps[i]) in table;
      assert era !in KeywordsAt(table, i);
      NoHitCascade(table, era, lang, i + 1);
      assert Cascade(table, era, lang, i) == Cascade(table, era, lang, i + 1);
    }
  }

  /** The index of the first keyword set holding the era, given that set k holds it. */
  lemma FirstHitAtOrBefore(table: EraTable, era: string, k: nat) returns (j: nat)
    requires k < |Steps| && era in KeywordsAt(table, k)
    ensures j <= k && era in KeywordsAt(table, j)
    ensures forall i :: 0 <= i < j ==> era !in KeywordsAt(table, i)
  {
    j := 0;
    while era !in KeywordsAt(table, j)
      invariant j <= k
      invariant forall i :: 0 <= i < j ==> era !in KeywordsAt(table, i)
      decreases k - j
    {
      j := j + 1;
    }
  }

  /** Hijri sets come first, so an era in any hijri keyword set is read as hijri,
      whatever the language hint. */
  lemma HijriKeywordGivesHijri(table: EraTable, era: string, lang: Option<string>, k: nat)
    requires Complete(table) && era != ""
    requires k < |Steps| && Steps[k].calendar == "hijri" && era in KeywordsAt(table, k)
    ensures NormalizeEra(table, Some(era), lang).Normalized?
    ensures NormalizeEra(table, Some(era), lang).calendar == "hijri"
  {
    var j := FirstHitAtOrBefore(table, era, k);
    FirstHitWins(table, era, lang, j);
  }

  /** Each entry's own spelling is among its keywords, and is not empty. */
  predicate SelfNormalizing(table: EraTable)
  {
    forall i :: 0 <= i < |Steps| ==>
      SourceKey(Steps[i]) in table &&
      table[SourceKey(Steps[i])].normalized != "" &&
      table[SourceKey(Steps[i])].normalized in table[SourceKey(Steps[i])].keywords
  }

  /** Each entry's own spelling lies in none of the sets the cascade tests
      before that entry's branch; the sets may otherwise overlap. */
  predicate OwnSpellingFirst(table: EraTable)
  {
    forall k, i :: 0 <= i < k < |Steps| && SourceKey(Steps[k]) in table ==>
      table[SourceKey(Steps[k])].normalized !in KeywordsAt(table, i)
  }

  /** No keyword belongs to two of the twelve sets. */
  predicate DisjointKeywords(table: EraTable)
  {
    forall i, j :: 0 <= i < j < |Steps| ==> KeywordsAt(table, i) !! KeywordsAt(table, j)
  }

  /** Pairwise-disjoint sets are one way to meet `OwnSpellingFirst`. */
  lemma DisjointGivesOwnSpellingFirst(table: EraTable)
    requires SelfNormalizing(table) && DisjointKeywords(table)
    ensures OwnSpellingFirst(table)
  {
    forall k, i | 0 <= i < k < |Steps| && SourceKey(Steps[k]) in table
      ensures table[SourceKey(Steps[k])].normalized !in KeywordsAt(table, i)
    {
      assert table[SourceKey(Steps[k])].normalized in KeywordsAt(table, k);
      assert KeywordsAt(table, i) !! KeywordsAt(table, k);
    }
  }

  /** The spelling returned after a hit on branch j is itself first found by the
      branch whose entry it came from, and that branch returns it unchanged. */
  lemma RenormalizeHit(table: EraTable, lang: Option<string>, j: nat)
    requires Complete(table) && SelfNormalizing(table) && OwnSpellingFirst(table)
    requires j < |Steps|
    ensures var e := table[TargetKey(Steps[j], lang)].normalized;
      e != "" && Cascade(table, e, lang, 0) == Normalized(e, Steps[j].calendar)
  {
    StepsShape();
    StepsPartner();
    var k := if lang == Some(Steps[j].other) then Partner(j) else j;
    assert SourceKey(Steps[k]) == TargetKey(Steps[j], lang);
    assert TargetKey(Steps[k], lang) == TargetKey(Steps[j], lang);
    assert Steps[k].calendar == Steps[j].calendar;
    var e := table[TargetKey(Steps[j], lang)].normalized;
    assert e in KeywordsAt(table, k);
    CascadeFirstHit(table, e, lang, 0, k);
  }

  /**
   * Normalizing a result again, with the same `lang`, gives the same result.
   * This is proved for tables whose entries contain their own non-empty
   * spelling and whose spellings lie in no earlier set of the cascade.
   */
  lemma NormalizeEraIdempotent(table: EraTable, era: Option<string>, lang: Option<string>)
    requires Complete(table) && SelfNormalizing(table) && OwnSpellingFirst(table)
    ensures var r := NormalizeEra(table, era, lang);
      r.Normalized? ==> NormalizeEra(table, Some(r.era), lang) == r
  {
    var r := NormalizeEra(table, era, lang);
    if r.Normalized? && r.calendar != "" {
      var x := era.value;
      UnrecognizedEraUnchanged(table, x, lang);
      var k0 :| 0 <= k0 < |Steps| && x in KeywordsAt(table, k0);
      var j := FirstHitAtOrBefore(table, x, k0);
      CascadeFirstHit(table, x, lang, 0, j);
      RenormalizeHit(table, lang, j);
    }
  }
}
