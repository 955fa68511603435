/** `make_rss`: one entry per link, the entries in date order, and the
    channel's title and description. The XML text around these values is
    fixed and is not modelled. */
module Feed {
  import opened Text
  import opened Calendar
  import opened Items
  import opened Ordering

  datatype Channel = Channel(title: string, description: string)

  /** What a generated feed holds: its channel and its items in order. */
  datatype Rss = Rss(channel: Channel, items: seq<Entry>)

  const ArchiveTitle: string := "The Kevin &amp; Bean Archive"
  const ShowName: string := "The Kevin &amp; Bean Show"
  const Site: string := "www.kevinandbeanarchive.com"

  /** `if year:` — a year counts only when given and non-empty. */
  function FeedYear(year: Option<string>): Option<string>
  {
    if year.Some? && year.value != "" then year else None
  }

  /** The channel of the feed for `year`, or of the combined feed. */
  function ChannelFor(year: Option<string>): Channel
  {
    match FeedYear(year)
    case Some(y) => Channel(ArchiveTitle + " - " + y, ShowName + " " + y + " podcast from " + Site)
    case None => Channel(ArchiveTitle, ShowName + " podcast from " + Site)
  }

  /** Feeds for different years, and the combined feed, all have different
      titles; a year's feed names its year at the end of its title. */
  lemma ChannelTitles(a: Option<string>, b: Option<string>)
    ensures ChannelFor(a).title == ChannelFor(b).title <==> FeedYear(a) == FeedYear(b)
    ensures FeedYear(a).Some? ==> EndsWith(ChannelFor(a).title, FeedYear(a).value)
  {
    var prefix := ArchiveTitle + " - ";
    if FeedYear(a).Some? && FeedYear(b).Some? && ChannelFor(a).title == ChannelFor(b).title {
      var ya, yb := FeedYear(a).value, FeedYear(b).value;
      assert (prefix + ya)[|prefix|..] == ya;
      assert (prefix + yb)[|prefix|..] == yb;
    }
    if FeedYear(a).Some? {
      var ya := FeedYear(a).value;
      assert (prefix + ya)[|prefix + ya| - |ya|..] == ya;
    }
  }

  /** The unsorted entries, one per link in link order. */
  function Entries(links: seq<string>, probe: map<string, string>): (r: seq<Entry>)
    ensures |r| == |links|
  {
    if links == [] then []
    else Entries(DropLast(links), probe) + [BuildEntry(Last(links), SizeOf(probe, Last(links)))]
  }

  /** The entry at each position is built from the link at that position. */
  lemma {:induction false} EntriesAt(links: seq<string>, probe: map<string, string>, i: int)
    requires 0 <= i < |links|
    ensures Entries(links, probe)[i] == BuildEntry(links[i], SizeOf(probe, links[i]))
  {
    if i < |links| - 1 {
      EntriesAt(DropLast(links), probe, i);
    }
  }

  /** `make_rss(links, year)`: the size probe's answers are passed in as
      `probe`; the result is the channel and the items in the order the
      XML lists them. */
  method MakeRss(links: seq<string>, probe: map<string, string>, year: Option<string>)
    returns (rss: Rss)
    ensures rss.items == SortByDate(Entries(links, probe))
    ensures rss.channel == ChannelFor(year)
  {
    var items: seq<Entry> := [];
    for i := 0 to |links|
      invariant items == Entries(links[..i], probe)
    {
      var link := links[i];
      var size := SizeOf(probe, link);
      TakeOneMore(links, i);
      items := items + [BuildEntry(link, size)];
    }
    assert links[..|links|] == links;
    items := SortByDate(items);
    var title, desc;
    if year.Some? && year.value != "" {
      title := ArchiveTitle + " - " + year.value;
      desc := ShowName + " " + year.value + " podcast from " + Site;
    } else {
      title := ArchiveTitle;
      desc := ShowName + " podcast from " + Site;
    }
    rss := Rss(Channel(title, desc), items);
  }

  /** The enclosure URLs of a sequence of entries. */
  function Urls(s: seq<Entry>): (r: seq<string>)
    ensures |r| == |s|
  {
    seq(|s|, i requires 0 <= i < |s| => s[i].url)
  }

  lemma UrlsAppend(s: seq<Entry>, t: seq<Entry>)
    ensures Urls(s + t) == Urls(s) + Urls(t)
  {
  }

  /** Each link gets the entry whose URL is that link. */
  lemma EntriesUrls(links: seq<string>, probe: map<string, string>)
    ensures Urls(Entries(links, probe)) == links
  {
    var e := Entries(links, probe);
    forall i | 0 <= i < |links| ensures Urls(e)[i] == links[i] {
      EntriesAt(links, probe, i);
      EntryFields(links[i], SizeOf(probe, links[i]));
    }
  }

  lemma InsertUrls(s: seq<Entry>, x: Entry)
    ensures multiset(Urls(Insert(s, x))) == multiset(Urls(s)) + multiset{x.url}
  {
    var p := InsertPos(s, x);
    var lo, hi := s[..p], s[p..];
    assert Insert(s, x) == (lo + [x]) + hi;
    assert s == lo + hi;
    UrlsAppend(lo + [x], hi);
    UrlsAppend(lo, [x]);
    UrlsAppend(lo, hi);
    assert Urls([x]) == [x.url] by {
      assert DropLast([x]) == [];
    }
    var ulo, uhi := Urls(lo), Urls(hi);
    calc {
      multiset(Urls(Insert(s, x)));
      multiset(ulo + [x.url] + uhi);
      multiset(ulo) + multiset{x.url} + multiset(uhi);
      multiset(ulo + uhi) + multiset{x.url};
    }
  }

  lemma {:induction false} SortUrls(s: seq<Entry>)
    ensures multiset(Urls(SortByDate(s))) == multiset(Urls(s))
  {
    if s != [] {
      var d, x := DropLast(s), Last(s);
      SortUrls(d);
      InsertUrls(SortByDate(d), x);
      assert Urls(s) == Urls(d) + [x.url];
      calc {
        multiset(Urls(SortByDate(s)));
        multiset(Urls(Insert(SortByDate(d), x)));
        multiset(Urls(SortByDate(d))) + multiset{x.url};
        multiset(Urls(d)) + multiset{x.url};
        multiset(Urls(d) + [x.url]);
      }
    }
  }

  /** Every link is an item of the feed exactly as often as it is given,
      and the items come in date order: dated ones first and ascending,
      undated ones last, ties in link order. */
  lemma FeedItems(links: seq<string>, probe: map<string, string>)
    ensures multiset(Urls(SortByDate(Entries(links, probe)))) == multiset(links)
    ensures Sorted(SortByDate(Entries(links, probe)))
    ensures forall k :: WithKey(SortByDate(Entries(links, probe)), k) == WithKey(Entries(links, probe), k)
  {
    var e := Entries(links, probe);
    SortUrls(e);
    EntriesUrls(links, probe);
    SortSorted(e);
    forall k ensures WithKey(SortByDate(e), k) == WithKey(e, k) {
      SortStable(e, k);
    }
  }

  /** Every item is the entry built for its own link. */
  lemma EntriesBuilt(links: seq<string>, probe: map<string, string>)
    ensures forall x :: x in Entries(links, probe) ==> x == BuildEntry(x.url, SizeOf(probe, x.url))
  {
    var e := Entries(links, probe);
    forall i | 0 <= i < |e| ensures e[i] == BuildEntry(e[i].url, SizeOf(probe, e[i].url)) {
      EntriesAt(links, probe, i);
      EntryFields(links[i], SizeOf(probe, links[i]));
    }
  }

  lemma ItemsBuilt(links: seq<string>, probe: map<string, string>)
    ensures forall x :: x in SortByDate(Entries(links, probe)) ==>
      x == BuildEntry(x.url, SizeOf(probe, x.url))
  {
    var e := Entries(links, probe);
    EntriesBuilt(links, probe);
    SortPermutation(e);
    forall x | x in SortByDate(e) ensures x == BuildEntry(x.url, SizeOf(probe, x.url)) {
      assert x in multiset(SortByDate(e));
    }
  }
}
