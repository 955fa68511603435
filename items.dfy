/** The per-link half of `make_rss`: the values one `<item>` of the feed
    is built from, derived from the link's filename. */
module Items {
  import opened Text
  import opened Patterns
  import opened Calendar

  /** Appended to every episode title (already escaped for XML). */
  const ShowSuffix: string := " &#124; The Kevin &amp; Bean Show"

  /** One `<item>`: its sort key (`date_obj`) and the values the template
      interpolates. */
  datatype Entry = Entry(
    date: Option<Date>,
    title: string,
    url: string,
    size: string,
    guid: string,
    pubDate: string,
    season: string)

  /** `filename.replace('.mp3', '')` */
  function Guid(filename: string): string
  {
    ReplaceAll(filename, ".mp3", "")
  }

  /** The title used when no date can be read from the filename. */
  function FallbackTitle(filename: string): string
  {
    ReplaceAll(ReplaceAll(Guid(filename), "_", " "), "-", " ") + ShowSuffix
  }

  /** `Content-Length` from the size probe, "0" when the probe gave none.
      The probe's answers are an input of the model. */
  function SizeOf(probe: map<string, string>, link: string): string
  {
    if link in probe then probe[link] else "0"
  }

  /** `date_obj`: the parsed date when the filename matches the primary
      pattern and its groups make a valid date, None otherwise. */
  function DateOf(filename: string): (r: Option<Date>)
    ensures r.Some? ==> MatchPrimary(filename).Some? && ValidDate(r.value)
  {
    match MatchPrimary(filename)
    case None => None
    case Some(p) =>
      PrimarySound(filename);
      ParseDate(p)
  }

  /** The episode title: the date spelled out, or the filename with its
      extension and separators turned into spaces. */
  function TitleOf(filename: string, date: Option<Date>): string
    requires date.Some? ==> ValidDate(date.value)
  {
    match date
    case Some(d) => TitleDateText(d) + ShowSuffix
    case None => FallbackTitle(filename)
  }

  /** `pubDate`: empty for an undated entry. */
  function PubDateOf(date: Option<Date>): string
    requires date.Some? ==> ValidDate(date.value)
  {
    match date
    case Some(d) => PubDateText(d)
    case None => ""
  }

  /** `itunes:season`: the year group as captured, empty for an undated
      entry. */
  function SeasonOf(filename: string, date: Option<Date>): string
    requires date.Some? ==> MatchPrimary(filename).Some?
  {
    if date.Some? then MatchPrimary(filename).value.year else ""
  }

  /** The entry for one link. */
  function BuildEntry(link: string, size: string): Entry
  {
    var filename := LastSegment(link);
    var date := DateOf(filename);
    Entry(date, TitleOf(filename, date), link, size, Guid(filename), PubDateOf(date),
          SeasonOf(filename, date))
  }

  /** What an entry holds. A dated entry's season is the four-digit year
      of its date and its publication date is at 08:00:00 GMT; an undated
      entry has no publication date or season and is titled from its
      filename. */
  lemma EntryFields(link: string, size: string)
    ensures var e := BuildEntry(link, size);
      && e.url == link && e.size == size && e.guid == Guid(LastSegment(link))
      && e.date == DateOf(LastSegment(link))
      && (e.date.Some? ==>
            && ValidDate(e.date.value)
            && e.season == Pad4(e.date.value.year)
            && e.title == TitleDateText(e.date.value) + ShowSuffix
            && e.pubDate == PubDateText(e.date.value)
            && EndsWith(e.pubDate, " 08:00:00 GMT")
            && EndsWith(e.title, ShowSuffix))
      && (e.date.None? ==>
            e.pubDate == "" && e.season == "" && e.title == FallbackTitle(LastSegment(link)))
  {
    var f := LastSegment(link);
    var e := BuildEntry(link, size);
    if e.date.Some? {
      var p := MatchPrimary(f).value;
      PrimarySound(f);
      assert ParseDate(p) == e.date;
      FourDigitRoundTrip(p.year);
      assert EndsWith(e.title, ShowSuffix);
    }
  }

  /** `February_30_2015-no_songs_no_commercials.mp3` matches the primary
      pattern, but there is no 30 February, so the entry is undated. */
  lemma FebruaryThirtiethUndated(size: string)
    ensures var e := BuildEntry("February_30_2015-" + Suffix, size);
      e.date.None? && e.pubDate == "" && e.season == ""
  {
    var f := "February_30_2015-" + Suffix;
    FebruaryThirtiethMatches();
    NoFebruaryThirtieth();
    LastSegmentWhole(f);
  }

  /** A filename is dated exactly when it is of the primary form and its
      groups make a valid date, and then its date is what they parse to. */
  lemma DateOfIff(f: string)
    ensures DateOf(f).None? <==> forall p :: PrimaryForm(f, p) ==> ParseDate(p).None?
    ensures DateOf(f).Some? ==> exists p :: PrimaryForm(f, p) && ParseDate(p) == DateOf(f)
  {
    match MatchPrimary(f)
    case None =>
      forall p ensures !PrimaryForm(f, p) {
        PrimaryIff(f, p);
      }
    case Some(p) =>
      PrimarySound(f);
      forall q ensures PrimaryForm(f, q) <==> q == p {
        PrimaryIff(f, q);
      }
  }

  /** Four digits read as a number and written back with `%Y` are unchanged. */
  lemma FourDigitRoundTrip(s: string)
    requires |s| == 4 && AllDigits(s)
    ensures DecimalValue(s) < 10000 && Pad4(DecimalValue(s)) == s
  {
    YearBound(s);
    var hi := DigitValue(s[0]) * 10 + DigitValue(s[1]);
    var lo := DigitValue(s[2]) * 10 + DigitValue(s[3]);
    var n := DecimalValue(s);
    TwoDigitRoundTrip(s[0], s[1]);
    TwoDigitRoundTrip(s[2], s[3]);
    assert n == hi * 100 + lo by {
      assert s[..3][..2] == s[..2] == [s[0], s[1]];
    }
    DivMod100(hi, lo);
    assert Pad4(n) == Pad2(n / 100) + Pad2(n % 100);
    assert Pad2(n / 100) + Pad2(n % 100) == s;
  }

  lemma TwoDigitRoundTrip(x: char, y: char)
    requires IsDigit(x) && IsDigit(y)
    ensures DecimalValue([x, y]) == DigitValue(x) * 10 + DigitValue(y)
    ensures Pad2(DigitValue(x) * 10 + DigitValue(y)) == [x, y]
  {
    assert [x, y][..1] == [x] && [x][..0] == [];
    assert DecimalValue([x]) == DigitValue(x);
    DivMod10(DigitValue(x), DigitValue(y));
  }

  lemma DivMod10(hi: nat, lo: nat)
    requires lo < 10
    ensures (hi * 10 + lo) / 10 == hi && (hi * 10 + lo) % 10 == lo
  {
  }

  lemma DivMod100(hi: nat, lo: nat)
    requires lo < 100
    ensures (hi * 100 + lo) / 100 == hi && (hi * 100 + lo) % 100 == lo
  {
  }

  /** Removing `.mp3` from text that ends in it and has no other '.' leaves
      exactly the text before the extension. */
  lemma {:induction false} DropMp3(base: string)
    requires '.' !in base
    ensures Guid(base + ".mp3") == base
  {
    var s := base + ".mp3";
    if base == [] {
      assert s == ".mp3" && s[..4] == ".mp3" && s[4..] == [];
      assert ReplaceAll(s[4..], ".mp3", "") == [];
      assert Guid(s) == "" + ReplaceAll(s[4..], ".mp3", "");
    } else {
      var rest := base[1..];
      assert s[0] == base[0] && s[0] != '.';
      assert s[..4] != ".mp3" by {
        assert s[..4][0] == s[0];
      }
      assert s[1..] == rest + ".mp3";
      DropMp3(rest);
      assert Guid(s) == [s[0]] + Guid(rest + ".mp3");
      assert [base[0]] + rest == base;
    }
  }

  /** In a primary-form filename the only '.' is the one that starts the
      extension. */
  lemma PrimaryDots(f: string, p: DateParts)
    requires PrimaryForm(f, p)
    ensures |f| > 4 && f[|f| - 4] == '.' && '.' !in f[..|f| - 4]
  {
    var e := |f| - 1 - |Suffix|;
    var tail := f[e..];
    StemDots(p);
    TailDots(tail);
    assert f[..|f| - 4] == f[..e] + tail[..|tail| - 4];
  }

  lemma StemDots(p: DateParts)
    requires WellFormed(p)
    ensures '.' !in p.month + "_" + p.day + "_" + p.year
  {
  }

  lemma TailDots(t: string)
    requires IsTail(t)
    ensures t[|t| - 4] == '.' && '.' !in t[..|t| - 4]
  {
    SuffixDots();
    LowerMatchesIff(t[1..], Suffix);
    assert forall j :: 1 <= j < |t| ==> LowerChar(t[j]) == Suffix[j - 1];
  }

  /** `guid` drops a lower-case `.mp3` extension from a primary-form
      filename and changes nothing else; any other spelling of the
      extension stays. */
  lemma GuidOfPrimary(f: string)
    requires MatchPrimary(f).Some?
    ensures Guid(f) == if EndsWith(f, ".mp3") then f[..|f| - 4] else f
  {
    PrimarySound(f);
    PrimaryDots(f, MatchPrimary(f).value);
    GuidOneDot(f);
  }

  /** The same for any name whose only '.' starts a four-character
      extension. */
  lemma GuidOneDot(f: string)
    requires |f| > 4 && f[|f| - 4] == '.' && '.' !in f[..|f| - 4]
    ensures Guid(f) == if EndsWith(f, ".mp3") then f[..|f| - 4] else f
  {
    var base := f[..|f| - 4];
    if EndsWith(f, ".mp3") {
      assert f == base + ".mp3";
      DropMp3(base);
    } else {
      forall i | 0 <= i <= |f| ensures !OccursAt(f, ".mp3", i) {
        if i < |f| - 4 {
          assert f[i] == base[i] && f[i..i + 4][0] == f[i];
        } else if i == |f| - 4 {
          assert f[i..i + 4] == f[|f| - 4..];
        }
      }
      ReplaceAbsent(f, ".mp3", "");
    }
  }
}
