/** `main`: classify the page's links, group the valid ones by year, and
    build one feed per year plus the combined feed. Writing the files and
    the progress messages are not modelled; the file names are. */
module Pipeline {
  import opened Text
  import opened Patterns
  import opened Calendar
  import opened Classifier
  import opened Items
  import opened Ordering
  import opened Feed
  import opened Grouping

  /** `RSS_FILE`, the combined feed's file. */
  const CombinedFile: string := "kevinandbean_podcast.xml"

  /** A year's feed and the file it is written to. */
  datatype YearFeed = YearFeed(year: string, fileName: string, rss: Rss)

  function YearFile(year: string): string
  {
    "kevinandbean_" + year + ".xml"
  }

  /** What `make_rss(links, year)` returns, as `MakeRss` promises it. */
  function FeedOf(links: seq<string>, probe: map<string, string>, year: Option<string>): Rss
  {
    Rss(ChannelFor(year), SortByDate(Entries(links, probe)))
  }

  /** The year feeds for `years`, in order. */
  function YearFeeds(years: seq<string>, groups: map<string, seq<string>>, probe: map<string, string>)
    : seq<YearFeed>
    requires forall y :: y in years ==> y in groups
  {
    if years == [] then []
    else
      var y := Last(years);
      YearFeeds(DropLast(years), groups, probe) + [YearFeed(y, YearFile(y), FeedOf(groups[y], probe, Some(y)))]
  }

  /** Different years are written to different files, and a year of digits
      never to the combined feed's. */
  lemma YearFilesDistinct(a: string, b: string)
    ensures YearFile(a) == YearFile(b) <==> a == b
    ensures AllDigits(a) ==> YearFile(a) != CombinedFile
  {
    var pre := "kevinandbean_";
    if YearFile(a) == YearFile(b) {
      assert |a| == |b|;
      forall i | 0 <= i < |a| ensures a[i] == b[i] {
        assert YearFile(a)[|pre| + i] == a[i];
        assert YearFile(b)[|pre| + i] == b[i];
      }
    }
    if |a| > 0 {
      assert YearFile(a)[|pre|] == a[0];
    }
  }

  /** The feed half of `main`: group the links by year, build each year's
      feed in the order the years first occur, then the combined feed. */
  method WriteFeeds(links: seq<string>, probe: map<string, string>) returns (yearly: seq<YearFeed>, combined: Rss)
    ensures yearly == YearlyFeeds(links, probe)
    ensures combined == FeedOf(links, probe, None)
  {
    var years, groups := GroupByYear(links);
    assert groups == map y | y in years :: LinksOfYear(YearOf, links, y);
    yearly := [];
    for i := 0 to |years|
      invariant yearly == YearFeeds(years[..i], groups, probe)
    {
      var year := years[i];
      var rss := MakeRss(groups[year], probe, Some(year));
      TakeOneMore(years, i);
      yearly := yearly + [YearFeed(year, YearFile(year), rss)];
    }
    assert years[..|years|] == years;
    combined := MakeRss(links, probe, None);
  }

  /** `main` without the fetch, the file writes and the messages: the page's
      hrefs, the allow-list and the size probe's answers go in; the lists
      written to the exclusion files, the year feeds in the order they are
      written, and the combined feed come out. */
  method Publish(hrefs: seq<string>, includeYears: seq<string>, probe: map<string, string>)
    returns (links: seq<string>, excluded: seq<string>, missingYear: seq<string>, excludedYear: seq<string>,
             yearly: seq<YearFeed>, combined: Rss)
    ensures StrictlyIncreasing(links)
    ensures forall u :: u in links <==> u in ValidUrls(Outcome, hrefs, includeYears)
    ensures excluded == Picked(Outcome, hrefs, includeYears, ExcludedTag)
    ensures missingYear == Picked(Outcome, hrefs, includeYears, MissingYearTag)
    ensures excludedYear == Picked(Outcome, hrefs, includeYears, ExcludedByYearTag)
    ensures yearly == YearlyFeeds(links, probe)
    ensures combined == FeedOf(links, probe, None)
  {
    links, excluded, missingYear, excludedYear := GetMp3Links(hrefs, includeYears);
    yearly, combined := WriteFeeds(links, probe);
  }

  /** The year feeds `main` writes for the valid links `links`. */
  function YearlyFeeds(links: seq<string>, probe: map<string, string>): seq<YearFeed>
  {
    var years := YearKeys(YearOf, links);
    var groups := map y | y in years :: LinksOfYear(YearOf, links, y);
    YearFeeds(years, groups, probe)
  }

  lemma {:induction false} YearFeedsAt(years: seq<string>, groups: map<string, seq<string>>,
                                       probe: map<string, string>, i: int)
    requires forall y :: y in years ==> y in groups
    requires 0 <= i < |years|
    ensures |YearFeeds(years, groups, probe)| == |years|
    ensures YearFeeds(years, groups, probe)[i] ==
      YearFeed(years[i], YearFile(years[i]), FeedOf(groups[years[i]], probe, Some(years[i])))
  {
    YearFeedsLength(years, groups, probe);
    if i < |years| - 1 {
      YearFeedsAt(DropLast(years), groups, probe, i);
    }
  }

  lemma {:induction false} YearFeedsLength(years: seq<string>, groups: map<string, seq<string>>,
                                           probe: map<string, string>)
    requires forall y :: y in years ==> y in groups
    ensures |YearFeeds(years, groups, probe)| == |years|
  {
    if years != [] {
      YearFeedsLength(DropLast(years), groups, probe);
    }
  }

  /** A year group is four digits. */
  lemma YearOfDigits(link: string)
    requires YearOf(link).Some?
    ensures |YearOf(link).value| == 4 && AllDigits(YearOf(link).value)
  {
    PrimarySound(LastSegment(link));
  }

  /** Every valid link has a year the allow-list admits, so grouping loses
      none of them: the groups together hold exactly the valid links. */
  lemma ValidLinksGrouped(hrefs: seq<string>, includeYears: seq<string>, links: seq<string>)
    requires forall u :: u in links <==> u in ValidUrls(Outcome, hrefs, includeYears)
    ensures forall u :: u in links ==> YearOf(u).Some? && YearAllowed(YearOf(u).value, includeYears)
    ensures forall y :: y in YearKeys(YearOf, links) ==> YearAllowed(y, includeYears)
    ensures multiset(Grouped(YearOf, links, YearKeys(YearOf, links))) == multiset(links)
  {
    ValidUrlsRematch(hrefs, includeYears);
    assert forall u :: u in links ==> YearOf(u).Some? && YearAllowed(YearOf(u).value, includeYears) by {
      forall u | u in links ensures YearOf(u).Some? && YearAllowed(YearOf(u).value, includeYears) {
        assert Rematches(u, includeYears);
      }
    }
    forall y | y in YearKeys(YearOf, links) ensures YearAllowed(y, includeYears) {
      KeysMembers(YearOf, links, y);
      var i :| 0 <= i < |links| && YearOf(links[i]) == Some(y);
      assert links[i] in links;
    }
    DatedAll(YearOf, links);
    GroupsPartition(YearOf, links);
  }

  /** A valid link is an item of exactly one year's feed, the one for its
      year, and is there as often as it is a valid link. */
  lemma LinkInOneYearFeed(hrefs: seq<string>, includeYears: seq<string>, links: seq<string>,
                          probe: map<string, string>, u: string, i: int)
    requires forall v :: v in links <==> v in ValidUrls(Outcome, hrefs, includeYears)
    requires u in links
    requires 0 <= i < |YearlyFeeds(links, probe)|
    ensures YearOf(u).Some?
    ensures var feed := YearlyFeeds(links, probe)[i];
      multiset(Urls(feed.rss.items))[u] == if feed.year == YearOf(u).value then multiset(links)[u] else 0
  {
    ValidLinksGrouped(hrefs, includeYears, links);
    var years := YearKeys(YearOf, links);
    var groups := map y | y in years :: LinksOfYear(YearOf, links, y);
    YearFeedsLength(years, groups, probe);
    YearFeedsAt(years, groups, probe, i);
    var y := years[i];
    FeedItems(groups[y], probe);
    GroupCount(YearOf, links, y, u);
  }

  /** The feeds are one per year that occurs, in first-occurrence order,
      each written to its own file. */
  lemma YearlyFeedsShape(links: seq<string>, probe: map<string, string>)
    ensures |YearlyFeeds(links, probe)| == |YearKeys(YearOf, links)|
    ensures forall i :: 0 <= i < |YearlyFeeds(links, probe)| ==>
      YearlyFeeds(links, probe)[i].year == YearKeys(YearOf, links)[i]
      && YearlyFeeds(links, probe)[i].fileName == YearFile(YearKeys(YearOf, links)[i])
      && YearlyFeeds(links, probe)[i].rss.channel == ChannelFor(Some(YearKeys(YearOf, links)[i]))
  {
    var years := YearKeys(YearOf, links);
    var groups := map y | y in years :: LinksOfYear(YearOf, links, y);
    YearFeedsLength(years, groups, probe);
    forall i | 0 <= i < |years|
      ensures YearlyFeeds(links, probe)[i].year == years[i]
      ensures YearlyFeeds(links, probe)[i].fileName == YearFile(years[i])
      ensures YearlyFeeds(links, probe)[i].rss.channel == ChannelFor(Some(years[i]))
    {
      YearFeedsAt(years, groups, probe, i);
    }
  }

  /** `February_30_2015`: the primary pattern matches, so the link is
      grouped under 2015, but its groups are not a calendar date, so its
      entry is undated, with no `pubDate` or season. */
  lemma FebruaryThirtieth(size: string)
    ensures var f := "February_30_2015-" + Suffix;
      && YearOf(f) == Some("2015")
      && BuildEntry(f, size).date.None?
      && BuildEntry(f, size).pubDate == ""
      && BuildEntry(f, size).season == ""
  {
    FebruaryThirtiethYear();
    FebruaryThirtiethUndated(size);
  }

  /** A dated item's season is the year its link is grouped under, and the
      year of its date: the two readings of the filename agree. */
  lemma SeasonIsGroupYear(link: string, size: string)
    ensures var e := BuildEntry(link, size);
      e.date.Some? ==> YearOf(link) == Some(e.season) && e.season == Pad4(e.date.value.year)
  {
    EntryFields(link, size);
  }
}
