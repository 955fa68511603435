/** `get_mp3_links`: sorting the hrefs of the archive listing into the
    valid links and three exclusion lists. The listing itself is fetched
    and parsed outside the model; the hrefs arrive as a sequence. */
module Classifier {
  import opened Text
  import opened Patterns

  const BaseUrl: string := "http://www.kevinandbeanarchive.com/"

  /** The four outcomes for an `.mp3` filename. */
  datatype Bucket = Valid(year: string) | ExcludedByYear(year: string) | MissingYear | Excluded

  datatype Tag = ValidTag | ExcludedByYearTag | MissingYearTag | ExcludedTag

  function TagOf(b: Bucket): Tag
  {
    match b
    case Valid(_) => ValidTag
    case ExcludedByYear(_) => ExcludedByYearTag
    case MissingYear => MissingYearTag
    case Excluded => ExcludedTag
  }

  /** `href.lower().endswith('.mp3')` */
  predicate IsMp3(href: string)
  {
    EndsWith(Lower(href), ".mp3")
  }

  /** `not INCLUDE_YEARS or year in INCLUDE_YEARS` */
  predicate YearAllowed(year: string, includeYears: seq<string>)
  {
    |includeYears| == 0 || year in includeYears
  }

  /** The bucket of one filename: the primary pattern first, then the
      allow-list, then the year-less pattern. */
  function Classify(filename: string, includeYears: seq<string>): Bucket
  {
    match MatchPrimary(filename)
    case Some(p) =>
      if YearAllowed(p.year, includeYears) then Valid(p.year) else ExcludedByYear(p.year)
    case None =>
      if MatchesSecondary(filename) then MissingYear else Excluded
  }

  /** A filename of the primary form is valid or excluded by year,
      according to the allow-list, and carries the year it spells. */
  lemma ClassifyPrimary(f: string, includeYears: seq<string>, p: DateParts)
    requires PrimaryForm(f, p)
    ensures Classify(f, includeYears) ==
      if YearAllowed(p.year, includeYears) then Valid(p.year) else ExcludedByYear(p.year)
  {
    PrimaryIff(f, p);
  }

  /** A filename not of the primary form is missing its year when it has
      the secondary form, and excluded otherwise. */
  lemma ClassifyNotPrimary(f: string, includeYears: seq<string>)
    requires forall p :: !PrimaryForm(f, p)
    ensures Classify(f, includeYears) == if SecondaryForm(f) then MissingYear else Excluded
  {
    if MatchPrimary(f).Some? {
      PrimarySound(f);
      assert false;
    }
    SecondaryIff(f);
  }

  /** The link kept for a valid href: absolute hrefs unchanged, relative
      ones appended to the base URL without their leading slashes. */
  function Normalise(href: string): string
  {
    if StartsWith(href, "http") then href else BaseUrl + LStrip(href, '/')
  }

  /** Normalising never changes the filename (the last path segment). */
  lemma NormaliseKeepsFilename(href: string)
    ensures LastSegment(Normalise(href)) == LastSegment(href)
  {
    if !StartsWith(href, "http") {
      LastSegmentAfterSlash(BaseUrl, LStrip(href, '/'));
      LastSegmentOfLStrip(href);
    }
  }

  /** Every normalised link is absolute, so normalising twice changes
      nothing more. */
  lemma NormaliseIdempotent(href: string)
    ensures StartsWith(Normalise(href), "http")
    ensures Normalise(Normalise(href)) == Normalise(href)
  {
    NormaliseAbsolute(href);
    AbsoluteKept(Normalise(href));
  }

  lemma NormaliseAbsolute(href: string)
    ensures StartsWith(Normalise(href), "http")
  {
    if !StartsWith(href, "http") {
      var tail := LStrip(href, '/');
      BaseIsAbsolute();
      StartsWithAppend(BaseUrl, tail, "http");
      assert Normalise(href) == BaseUrl + tail;
    }
  }

  lemma BaseIsAbsolute()
    ensures StartsWith(BaseUrl, "http")
  {
  }

  lemma AbsoluteKept(u: string)
    requires StartsWith(u, "http")
    ensures Normalise(u) == u
  {
  }

  /** A filename is valid exactly when it matches the primary pattern with
      a year the allow-list admits. */
  lemma ClassifyValid(f: string, includeYears: seq<string>)
    ensures Classify(f, includeYears).Valid? <==>
      MatchPrimary(f).Some? && YearAllowed(MatchPrimary(f).value.year, includeYears)
    ensures Classify(f, includeYears).Valid? ==>
      Classify(f, includeYears).year == MatchPrimary(f).value.year
  {
  }

  /** A valid link still matches the primary pattern once normalised, with
      the same year, so grouping by year finds every valid link. */
  lemma ValidLinkRematches(href: string, includeYears: seq<string>, y: string)
    requires Classify(LastSegment(href), includeYears) == Valid(y)
    ensures MatchPrimary(LastSegment(Normalise(href))).Some?
    ensures MatchPrimary(LastSegment(Normalise(href))).value.year == y
    ensures YearAllowed(y, includeYears)
  {
    var f := LastSegment(href);
    ClassifyValid(f, includeYears);
    NormaliseKeepsFilename(href);
    assert LastSegment(Normalise(href)) == f;
  }

  /** The bucket of an href, None when it does not end in `.mp3`. */
  function Outcome(href: string, includeYears: seq<string>): Option<Bucket>
  {
    if IsMp3(href) then Some(Classify(LastSegment(href), includeYears)) else None
  }

  /** A way of giving each href its outcome; the lists below are defined
      for any, and the source's is `Outcome`. */
  type Outcomes = (string, seq<string>) -> Option<Bucket>

  /** The filenames of the `.mp3` hrefs whose bucket has tag `t`, in
      encounter order, repeats kept. */
  function Picked(outcome: Outcomes, hrefs: seq<string>, includeYears: seq<string>, t: Tag): seq<string>
  {
    if hrefs == [] then []
    else
      var h := Last(hrefs);
      var before := Picked(outcome, DropLast(hrefs), includeYears, t);
      var o := outcome(h, includeYears);
      if o.Some? && TagOf(o.value) == t then before + [LastSegment(h)] else before
  }

  /** The normalised links of the valid `.mp3` hrefs, in encounter order,
      repeats kept (the set the source builds holds exactly these). */
  function ValidUrls(outcome: Outcomes, hrefs: seq<string>, includeYears: seq<string>): seq<string>
  {
    if hrefs == [] then []
    else
      var h := Last(hrefs);
      var before := ValidUrls(outcome, DropLast(hrefs), includeYears);
      var o := outcome(h, includeYears);
      if o.Some? && o.value.Valid? then before + [Normalise(h)] else before
  }

  /** The `.mp3` hrefs, in order. */
  function Mp3Hrefs(hrefs: seq<string>): seq<string>
  {
    if hrefs == [] then []
    else if IsMp3(Last(hrefs)) then Mp3Hrefs(DropLast(hrefs)) + [Last(hrefs)]
    else Mp3Hrefs(DropLast(hrefs))
  }

  /** The four buckets partition the `.mp3` hrefs: each adds exactly one
      entry to exactly one of them, and other hrefs add nothing. */
  lemma {:induction false} Partition(hrefs: seq<string>, includeYears: seq<string>)
    ensures |ValidUrls(Outcome, hrefs, includeYears)|
      + |Picked(Outcome, hrefs, includeYears, ExcludedByYearTag)|
      + |Picked(Outcome, hrefs, includeYears, MissingYearTag)|
      + |Picked(Outcome, hrefs, includeYears, ExcludedTag)|
      == |Mp3Hrefs(hrefs)|
    ensures |ValidUrls(Outcome, hrefs, includeYears)| == |Picked(Outcome, hrefs, includeYears, ValidTag)|
  {
    if hrefs != [] {
      Partition(DropLast(hrefs), includeYears);
    }
  }

  /** How one more href extends the valid links and the three lists. */
  lemma Step(outcome: Outcomes, prefix: seq<string>, h: string, includeYears: seq<string>)
    ensures ValidUrls(outcome, prefix + [h], includeYears) ==
      var o := outcome(h, includeYears);
      if o.Some? && o.value.Valid?
      then ValidUrls(outcome, prefix, includeYears) + [Normalise(h)] else ValidUrls(outcome, prefix, includeYears)
    ensures PickedStep(outcome, prefix, h, includeYears, ExcludedTag)
    ensures PickedStep(outcome, prefix, h, includeYears, MissingYearTag)
    ensures PickedStep(outcome, prefix, h, includeYears, ExcludedByYearTag)
  {
    assert DropLast(prefix + [h]) == prefix;
  }

  predicate PickedStep(outcome: Outcomes, prefix: seq<string>, h: string, includeYears: seq<string>, t: Tag)
  {
    Picked(outcome, prefix + [h], includeYears, t) ==
      var o := outcome(h, includeYears);
      if o.Some? && TagOf(o.value) == t
      then Picked(outcome, prefix, includeYears, t) + [LastSegment(h)] else Picked(outcome, prefix, includeYears, t)
  }

  /** `u` matches the primary pattern with a year the allow-list admits. */
  predicate Rematches(u: string, includeYears: seq<string>)
  {
    MatchPrimary(LastSegment(u)).Some? && YearAllowed(MatchPrimary(LastSegment(u)).value.year, includeYears)
  }

  /** Every valid link, as kept, re-matches the primary pattern with an
      allowed year. */
  lemma {:induction false} ValidUrlsRematch(hrefs: seq<string>, includeYears: seq<string>)
    ensures forall u :: u in ValidUrls(Outcome, hrefs, includeYears) ==> Rematches(u, includeYears)
  {
    if hrefs != [] {
      var h := Last(hrefs);
      ValidUrlsRematch(DropLast(hrefs), includeYears);
      var o := Outcome(h, includeYears);
      if o.Some? && o.value.Valid? {
        ValidHrefRematches(h, includeYears, o.value.year);
      }
    }
  }

  lemma ValidHrefRematches(h: string, includeYears: seq<string>, y: string)
    requires Outcome(h, includeYears) == Some(Valid(y))
    ensures Rematches(Normalise(h), includeYears)
  {
    ValidLinkRematches(h, includeYears, y);
  }

  /** The source's tests on one href, in its order: the extension, the
      primary pattern, the allow-list, then the year-less pattern. */
  method BucketOf(href: string, includeYears: seq<string>) returns (r: Option<Bucket>)
    ensures r == Outcome(href, includeYears)
  {
    if !IsMp3(href) {
      return None;
    }
    var filename := LastSegment(href);
    var m := MatchPrimary(filename);
    if m.Some? {
      var year := m.value.year;
      if |includeYears| == 0 || year in includeYears {
        r := Some(Valid(year));
      } else {
        r := Some(ExcludedByYear(year));
      }
    } else if MatchesSecondary(filename) {
      r := Some(MissingYear);
    } else {
      r := Some(Excluded);
    }
  }

  /** The loop of `get_mp3_links`: each href, by the outcome `BucketOf`
      gives it, either adds its link to the set of valid links, or its
      filename to the end of one exclusion list, or nothing. */
  method Collect(hrefs: seq<string>, includeYears: seq<string>)
    returns (found: set<string>, excluded: seq<string>, missingYear: seq<string>, excludedYear: seq<string>)
    ensures found == Elems(ValidUrls(Outcome, hrefs, includeYears))
    ensures excluded == Picked(Outcome, hrefs, includeYears, ExcludedTag)
    ensures missingYear == Picked(Outcome, hrefs, includeYears, MissingYearTag)
    ensures excludedYear == Picked(Outcome, hrefs, includeYears, ExcludedByYearTag)
  {
    found := {};
    excluded, missingYear, excludedYear := [], [], [];
    for i := 0 to |hrefs|
      invariant found == Elems(ValidUrls(Outcome, hrefs[..i], includeYears))
      invariant excluded == Picked(Outcome, hrefs[..i], includeYears, ExcludedTag)
      invariant missingYear == Picked(Outcome, hrefs[..i], includeYears, MissingYearTag)
      invariant excludedYear == Picked(Outcome, hrefs[..i], includeYears, ExcludedByYearTag)
    {
      var href := hrefs[i];
      TakeOneMore(hrefs, i);
      Step(Outcome, hrefs[..i], href, includeYears);
      ElemsSnoc(ValidUrls(Outcome, hrefs[..i], includeYears), Normalise(href));
      var bucket := BucketOf(href, includeYears);
      match bucket
      case None =>
      case Some(Valid(_)) => found := found + {Normalise(href)};
      case Some(ExcludedByYear(_)) => excludedYear := excludedYear + [LastSegment(href)];
      case Some(MissingYear) => missingYear := missingYear + [LastSegment(href)];
      case Some(Excluded) => excluded := excluded + [LastSegment(href)];
    }
    assert hrefs[..|hrefs|] == hrefs;
  }

  /** `get_mp3_links` without the fetch: the sorted valid links, then the
      excluded, missing-year and excluded-by-year filenames. Each href's
      outcome is the one `BucketOf` computes branch by branch. */
  method GetMp3Links(hrefs: seq<string>, includeYears: seq<string>)
    returns (links: seq<string>, excluded: seq<string>, missingYear: seq<string>, excludedYear: seq<string>)
    ensures StrictlyIncreasing(links)
    ensures forall u :: u in links <==> u in ValidUrls(Outcome, hrefs, includeYears)
    ensures excluded == Picked(Outcome, hrefs, includeYears, ExcludedTag)
    ensures missingYear == Picked(Outcome, hrefs, includeYears, MissingYearTag)
    ensures excludedYear == Picked(Outcome, hrefs, includeYears, ExcludedByYearTag)
  {
    var found;
    found, excluded, missingYear, excludedYear := Collect(hrefs, includeYears);
    ElemsIff(ValidUrls(Outcome, hrefs, includeYears));
    links := SortedList(found);
  }
}
