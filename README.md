# scrape_to_podcast in Dafny

This project models `scrape_to_podcast.py`. The script reads the `.mp3` links on the Kevin & Bean archive
page and publishes them as podcast RSS feeds: one per broadcast year, plus a combined one. The model covers
the parts that decide *what* goes into the feeds. The network, the HTML parser and the file system are
replaced by inputs and outputs.

- **Classification** (`get_mp3_links`), modules `Patterns` and `Classifier`:
  - every href that ends in `.mp3` (any case) goes to exactly one of four outcomes: a valid link,
    excluded by year, missing its year, or excluded;
  - the choice is made by two hand-written recognisers, one for each regular expression, and by the
    `INCLUDE_YEARS` allow-list;
  - relative links are completed with `BASE_URL`;
  - valid links are collected as a set and returned sorted.
  `Collect` is the loop itself. For each href it calls `BucketOf`, which runs the script's tests in
  their order, and it is proved against functions that describe each list. Those functions take the
  per-href outcome as a parameter, and are used with the script's, `Outcome`.
- **One feed item per link** (`make_rss`), modules `Calendar` and `Items`:
  - `strptime('%B %d %Y')` on the captured month, day and year, with month lengths and leap years;
  - the two `strftime` renderings, including the weekday;
  - the fallback title, the `guid` (every lower-case `.mp3` removed) and the season.
- **Item order** (`items.sort(key=(date is None, date))`), module `Ordering`: a stable insertion sort. It
  is proved sorted, a permutation and stable. It is also proved to be the *only* sorted arrangement that
  keeps each key's items in input order, so it agrees with Python's stable sort.
- **The feed** (`make_rss`), module `Feed`: the entries loop, the sort, and the channel title and
  description, chosen by `if year:`.
- **Year grouping and `main`**, modules `Grouping` and `Pipeline`:
  - the `setdefault(year, []).append(link)` loop, with the dictionary modelled as its keys in insertion
    order plus a map;
  - one feed per year, written in first-occurrence order, and the combined feed.

The strings are `seq<char>`. Case-insensitive matching and `.lower()` act on ASCII letters only.

Two behaviours of the code are worth stating, because they are easy to misread:
- `guid` is `filename.replace('.mp3', '')` (line 74). It removes *every* lower-case `.mp3` occurrence and
  leaves a `.MP3` extension in place. `Items.Guid` is `str.replace`. `Items.GuidOfPrimary` shows that on
  names the primary pattern accepts, it drops exactly a lower-case extension.
- A date is missing for one of two reasons: the filename does not match the primary pattern (line 57), or
  its groups are not a calendar date and `strptime` raises (lines 59-68), as for `February_30_2015`. Such
  an item gets the fallback title and no `pubDate` or season. The grouping in `main` (lines 112-118) uses
  the pattern alone, so the link is still grouped under its year. `Pipeline.FebruaryThirtieth` proves both
  halves for `February_30_2015-no_songs_no_commercials.mp3`. `Pipeline.SeasonIsGroupYear` shows that when
  the date does parse, its year and the grouping year agree.

## Model

| member | source | states |
|---|---|---|
| Text.Lower | scrape_to_podcast.py:24 | `.lower()` keeps the length and lower-cases each ASCII capital, leaving every other character |
| Text.LastSegment | scrape_to_podcast.py:25 | `split('/')[-1]` is a suffix of the href that contains no `/` and is either the whole href or preceded by a `/` |
| Text.LStrip | scrape_to_podcast.py:32 | `lstrip('/')` removes a prefix made only of `/` and leaves a string that does not start with `/` |
| Text.LastSegmentOfLStrip | scrape_to_podcast.py:32 | removing leading `/` does not change the last path segment |
| Text.LastSegmentAfterSlash | scrape_to_podcast.py:32 | prefixing text that ends in `/` (as `BASE_URL` does) does not change the last segment |
| Text.ReplaceAll | scrape_to_podcast.py:74 | `str.replace`: each occurrence of the pattern, left to right and without overlap, is replaced; stated by `ReplaceAbsent`, `ReplaceChar` and `Items.DropMp3` |
| Text.ReplaceAbsent | scrape_to_podcast.py:74 | `str.replace` changes nothing when the pattern does not occur |
| Text.ReplaceChar | scrape_to_podcast.py:68 | replacing one character by another (`_` or `-` by a space) maps each position independently and keeps the length |
| Text.Less | scrape_to_podcast.py:42 | the code-point order `sorted` uses, a proper prefix first; `LessIrreflexive`, `LessTransitive` and `LessTotal` prove it a strict total order |
| Text.LessIrreflexive | scrape_to_podcast.py:42 | code-point string order is irreflexive |
| Text.LessTransitive | scrape_to_podcast.py:42 | code-point string order is transitive |
| Text.LessTotal | scrape_to_podcast.py:42 | any two different strings are ordered one way or the other |
| Text.HasLeast | scrape_to_podcast.py:42 | a non-empty set of strings has a least element |
| Text.SortedList | scrape_to_podcast.py:42 | `sorted(links)` is strictly ascending, has exactly the set's members, and has as many entries as the set |
| Patterns.MatchPrimary | scrape_to_podcast.py:21 | the recogniser for the primary pattern, returning the month, day and year groups; `PrimarySound`, `PrimaryComplete` and `PrimaryIff` state its language |
| Patterns.MatchesSecondary | scrape_to_podcast.py:38 | the recogniser for the year-less pattern; `SecondaryIff` states its language |
| Patterns.LowerMatchesIff | scrape_to_podcast.py:21 | the case-insensitive comparison with the fixed suffix holds exactly when the lower-cased text equals it |
| Patterns.PrimarySound | scrape_to_podcast.py:21 | a primary match is letters, `_`, 1-2 digits, `_`, 4 digits, `-` or `_`, then `no_songs_no_commercials.mp3` in any case, and the groups are those parts |
| Patterns.PrimaryComplete | scrape_to_podcast.py:21 | every filename of that form matches, and the match returns exactly its groups |
| Patterns.PrimaryIff | scrape_to_podcast.py:56 | the recogniser returns groups `p` exactly when the filename has the primary form with groups `p` |
| Patterns.SecondaryIff | scrape_to_podcast.py:38 | the year-less pattern matches exactly letters, `_`, two digits, `-` or `_`, then the suffix in any case |
| Patterns.PatternsDisjoint | scrape_to_podcast.py:38 | no filename matches both patterns |
| Patterns.MatchesBuiltName | scrape_to_podcast.py:21 | any well-formed month, day and year, joined by `_` and followed by `-` or `_` and the fixed tail, match with exactly those groups |
| Patterns.FebruaryThirtiethMatches | scrape_to_podcast.py:56-58 | `February_30_2015-no_songs_no_commercials.mp3` matches, with groups February, 30 and 2015, and has no `/` |
| Calendar.DaysInMonth | scrape_to_podcast.py:60 | a month has 28 to 31 days, and 29 exactly for February of a leap year |
| Calendar.MonthNumber | scrape_to_podcast.py:60 | `%B` finds the month whose full English name equals the text in any case, and fails when none does |
| Calendar.ParseDate | scrape_to_podcast.py:60 | parsing succeeds with a valid date carrying the named month, the day and the year exactly when such a date exists, and otherwise fails |
| Calendar.NoFebruaryThirtieth | scrape_to_podcast.py:59-64 | `strptime` rejects the groups February, 30, 2015, which are well-formed but not a date |
| Calendar.Pad2 | scrape_to_podcast.py:61 | `%d` renders a day as two digits that read back as the day |
| Calendar.Pad4 | scrape_to_podcast.py:61 | `%Y` renders a year as four digits that read back as the year |
| Calendar.MonthName | scrape_to_podcast.py:63 | `%B` renders a month as letters whose lower-case form is that month's name |
| Calendar.ParseRendered | scrape_to_podcast.py:60-63 | a valid date, rendered with `%B`, `%d` and `%Y`, has the primary groups' form and parses back to itself |
| Calendar.NextDay | scrape_to_podcast.py:61 | the day after a valid date is a valid date that comes after it |
| Calendar.MonthSpan | scrape_to_podcast.py:61 | one month's days end where the next month's begin |
| Calendar.YearSpan | scrape_to_podcast.py:61 | a year has 365 days, or 366 in a leap year |
| Calendar.OrdinalOrder | scrape_to_podcast.py:61 | the day count behind `%a` is strictly increasing in chronological order and tells dates apart |
| Calendar.NextDayOrdinal | scrape_to_podcast.py:61 | the next day's count is one more, across month and year ends |
| Calendar.NextDayWeekday | scrape_to_podcast.py:61 | the weekday `%a` shows advances by one from each day to the next, Sunday wrapping to Monday |
| Calendar.Weekday | scrape_to_podcast.py:61 | the weekday index is one of seven; `WeekdayAnchors` and `NextDayWeekday` fix which day it names |
| Calendar.WeekdayAnchors | scrape_to_podcast.py:61 | 0001-01-01 and 2024-01-01 are Mondays and 2015-06-09 is a Tuesday, so `%a` names the right day |
| Calendar.PubDateText | scrape_to_podcast.py:61 | the publication date is 29 characters long and ends in ` 08:00:00 GMT` |
| Calendar.TitleDateText | scrape_to_podcast.py:63 | `%B %d, %Y` is the month name, a space, two digits, `, ` and four digits, and those three fields parse back to the date |
| Classifier.IsMp3 | scrape_to_podcast.py:24 | `href.lower().endswith('.mp3')`; `Partition` shows that exactly these hrefs reach one of the four lists |
| Classifier.YearAllowed | scrape_to_podcast.py:30 | an empty allow-list admits every year, and otherwise the year must be in it; `ClassifyValid` ties it to the valid bucket |
| Classifier.Classify | scrape_to_podcast.py:26-41 | the bucket of a filename; stated by `ClassifyPrimary`, `ClassifyNotPrimary` and `ClassifyValid` |
| Classifier.Normalise | scrape_to_podcast.py:31-32 | completing a relative href with `BASE_URL`; stated by `NormaliseKeepsFilename` and `NormaliseIdempotent` |
| Classifier.Outcome | scrape_to_podcast.py:24-41 | no bucket for an href not ending in `.mp3`, otherwise its filename's bucket; `BucketOf` computes it branch by branch |
| Classifier.Picked | scrape_to_podcast.py:18-41 | the filenames of the hrefs whose bucket has a given tag, in encounter order, repeats kept; stated by `Step` and `Partition` |
| Classifier.ValidUrls | scrape_to_podcast.py:16-33 | the normalised links of the valid hrefs in encounter order; `GetMp3Links` returns exactly their members, sorted, and `ValidUrlsRematch` re-matches them |
| Classifier.ClassifyPrimary | scrape_to_podcast.py:26-35 | a primary-form filename is valid when the allow-list is empty or holds its year, and otherwise is excluded by year with that year |
| Classifier.ClassifyNotPrimary | scrape_to_podcast.py:36-41 | any other filename is missing its year when it has the year-less form, and is excluded otherwise |
| Classifier.ClassifyValid | scrape_to_podcast.py:26-33 | a filename is valid exactly when it matches the primary pattern with an allowed year, and is kept under that year |
| Classifier.NormaliseKeepsFilename | scrape_to_podcast.py:31-32 | completing a relative href with `BASE_URL` keeps its filename |
| Classifier.NormaliseIdempotent | scrape_to_podcast.py:31-32 | a completed href starts with `http` and completing it again changes nothing |
| Classifier.ValidLinkRematches | scrape_to_podcast.py:25-33 | a kept link's filename matches the primary pattern again, with the same year, which is allowed |
| Classifier.Partition | scrape_to_podcast.py:22-41 | the valid links and the three exclusion lists together have one entry per `.mp3` href, and no other href adds to any of them |
| Classifier.Step | scrape_to_podcast.py:22-41 | each href extends the valid links or exactly one exclusion list, by its normalised URL or its filename, and the other lists stay the same |
| Classifier.ValidUrlsRematch | scrape_to_podcast.py:113-117 | every valid link, as kept, matches the grouping pattern with an allowed year |
| Classifier.BucketOf | scrape_to_podcast.py:24-41 | the loop body's tests, in the script's order, give each href's outcome |
| Classifier.Collect | scrape_to_podcast.py:16-41 | the loop, with `BucketOf` as its body; after it, the set holds exactly the valid links' normalised URLs and each exclusion list holds its filenames in encounter order, repeats kept |
| Classifier.GetMp3Links | scrape_to_podcast.py:13-42 | the returned links are strictly ascending and are exactly the valid normalised URLs; each exclusion list holds its filenames in encounter order, repeats kept |
| Items.Guid | scrape_to_podcast.py:74 | `filename.replace('.mp3', '')`; stated by `GuidOfPrimary`, `GuidOneDot` and `DropMp3` |
| Items.FallbackTitle | scrape_to_podcast.py:68 | the filename without `.mp3`, with `_` and `-` turned into spaces, then the show suffix; `EntryFields` gives it to undated entries |
| Items.SizeOf | scrape_to_podcast.py:50-54 | the probed `Content-Length`, or `"0"` when the probe gave none |
| Items.BuildEntry | scrape_to_podcast.py:47-78 | one item's values from its link and size; stated by `EntryFields` |
| Items.DateOf | scrape_to_podcast.py:56-60 | a filename has a date only when it matches the primary pattern, and then the date is valid |
| Items.DateOfIff | scrape_to_podcast.py:56-73 | a filename is undated exactly when no primary reading of it parses, and a dated one carries what its groups parse to |
| Items.EntryFields | scrape_to_podcast.py:47-78 | an item's URL, size and guid come from its link; a dated item has a valid date, the four-digit year as season, the `%a, %d %b %Y` `pubDate` at 08:00:00 GMT and the `%B %d, %Y` title followed by the show suffix; an undated one has empty `pubDate` and season and the fallback title |
| Items.FourDigitRoundTrip | scrape_to_podcast.py:62 | the captured year, read as a number and written with `%Y`, is the captured text |
| Items.DropMp3 | scrape_to_podcast.py:74 | removing `.mp3` from a name without another `.` leaves the part before the extension |
| Items.GuidOneDot | scrape_to_podcast.py:74 | for a name whose only `.` starts the extension, `guid` drops a lower-case `.mp3` and otherwise changes nothing |
| Items.GuidOfPrimary | scrape_to_podcast.py:74 | for a primary-form filename, `guid` drops a lower-case `.mp3` and keeps any other spelling of the extension |
| Items.FebruaryThirtiethUndated | scrape_to_podcast.py:56-68 | the entry for `February_30_2015-no_songs_no_commercials.mp3` is undated, with empty `pubDate` and season |
| Ordering.KeyLe | scrape_to_podcast.py:80 | the `(date is None, date)` tuple order; the `KeyLe` lemmas prove it a total preorder |
| Ordering.SortByDate | scrape_to_podcast.py:80 | a stable insertion sort by `KeyLe`; stated by `SortSorted`, `SortPermutation`, `SortStable` and `StableSortUnique` |
| Ordering.KeyLeReflexive | scrape_to_podcast.py:80 | every sort key is at most itself |
| Ordering.KeyLeTotal | scrape_to_podcast.py:80 | any two sort keys are comparable |
| Ordering.KeyLeTransitive | scrape_to_podcast.py:80 | the key order is transitive |
| Ordering.KeyLeAntisymmetric | scrape_to_podcast.py:80 | keys that are each at most the other are equal |
| Ordering.InsertPos | scrape_to_podcast.py:80 | the insertion point follows every item whose key is at most the new one and precedes the larger ones after it |
| Ordering.InsertMultiset | scrape_to_podcast.py:80 | inserting adds exactly the new item |
| Ordering.InsertSorted | scrape_to_podcast.py:80 | inserting into a sorted list keeps it sorted |
| Ordering.InsertWithKey | scrape_to_podcast.py:80 | the new item goes after every item with the same key |
| Ordering.SortSorted | scrape_to_podcast.py:80 | the sorted items are in key order |
| Ordering.SortPermutation | scrape_to_podcast.py:80 | the sorted items are a rearrangement of the items |
| Ordering.SortStable | scrape_to_podcast.py:80 | items with the same key keep their input order |
| Ordering.DatedFirst | scrape_to_podcast.py:80 | in sorted order dated items precede undated ones and dates never decrease |
| Ordering.SortedUnique | scrape_to_podcast.py:80 | two sorted lists that agree, key by key, on their items in order are equal |
| Ordering.StableSortUnique | scrape_to_podcast.py:80 | any stable sort of the items gives the same list as this one |
| Feed.ChannelFor | scrape_to_podcast.py:82-87 | the channel title and description chosen by `if year:`; stated by `ChannelTitles` |
| Feed.ChannelTitles | scrape_to_podcast.py:82-87 | two feeds have the same title exactly when both have the same non-empty year or neither has one; a year's title ends with the year |
| Feed.Entries | scrape_to_podcast.py:46-78 | there is one entry per link |
| Feed.EntriesAt | scrape_to_podcast.py:47-78 | the entry at each position is built from the link at that position |
| Feed.MakeRss | scrape_to_podcast.py:45-87 | the feed's items are the entries of the links in sorted order, and its channel is the one chosen by the year |
| Feed.EntriesUrls | scrape_to_podcast.py:77 | the enclosure URLs of the entries are the links, in order |
| Feed.SortUrls | scrape_to_podcast.py:80-81 | sorting keeps the enclosure URLs as a multiset |
| Feed.FeedItems | scrape_to_podcast.py:80-81 | every link is an item exactly as often as it is given, and the items are sorted and stable |
| Feed.EntriesBuilt | scrape_to_podcast.py:75-78 | every entry is the one built for its own URL |
| Feed.ItemsBuilt | scrape_to_podcast.py:75-81 | every item of the sorted feed is the one built for its own URL |
| Grouping.YearOf | scrape_to_podcast.py:114-117 | the year group of a link's filename, none when the pattern does not match; `YearOfDigits` and `ValidLinksGrouped` state it |
| Grouping.KeysNonEmpty | scrape_to_podcast.py:118 | a year is a key exactly when its group is non-empty |
| Grouping.KeysDistinct | scrape_to_podcast.py:118 | no year is a key twice |
| Grouping.KeysMembers | scrape_to_podcast.py:113-118 | a year is a key exactly when some link has that year |
| Grouping.KeysFirstOccurrence | scrape_to_podcast.py:113-120 | of two keys, the earlier one has a link that precedes every link of the later one |
| Grouping.GroupCount | scrape_to_podcast.py:113-118 | a year's group holds each link of that year as often as the links do, and nothing else |
| Grouping.GroupMembers | scrape_to_podcast.py:118 | a group holds only links of its own year |
| Grouping.GroupSorted | scrape_to_podcast.py:113-118 | each group keeps the links' ascending order |
| Grouping.DatedCount | scrape_to_podcast.py:116 | the links that have a year are counted exactly |
| Grouping.DatedAll | scrape_to_podcast.py:116 | when every link has a year, none is dropped |
| Grouping.GroupedCount | scrape_to_podcast.py:118 | the groups of distinct years, concatenated, hold each link whose year is among them as often as the links do |
| Grouping.GroupsPartition | scrape_to_podcast.py:111-118 | the groups in key order are a rearrangement of the links that have a year |
| Grouping.AppendToGroup | scrape_to_podcast.py:118 | `setdefault(year, []).append(link)` keeps the dictionary equal to the groups of the links seen so far |
| Grouping.GroupBy | scrape_to_podcast.py:111-118 | after the loop the keys are the years in first-occurrence order and each key maps to its group |
| Grouping.GroupByYear | scrape_to_podcast.py:111-118 | the same, with years taken from the primary pattern |
| Grouping.FebruaryThirtiethYear | scrape_to_podcast.py:113-118 | `February_30_2015-no_songs_no_commercials.mp3` is grouped under 2015 |
| Pipeline.YearFile | scrape_to_podcast.py:123 | `kevinandbean_{year}.xml`; `YearFilesDistinct` shows it is one-to-one and never the combined feed's name |
| Pipeline.YearFilesDistinct | scrape_to_podcast.py:123 | different years are written to different files, and no digit year to the combined feed's file |
| Pipeline.YearFeedsAt | scrape_to_podcast.py:120-123 | the feed at each position belongs to the year at that position, has that year's file and feed, and there is one feed per year |
| Pipeline.YearFeedsLength | scrape_to_podcast.py:120 | there is one year feed per key |
| Pipeline.YearOfDigits | scrape_to_podcast.py:117 | a group's year is four digits |
| Pipeline.ValidLinksGrouped | scrape_to_podcast.py:93-118 | every valid link has an allowed year, and the groups together are a rearrangement of the valid links |
| Pipeline.LinkInOneYearFeed | scrape_to_podcast.py:113-122 | a valid link is an item of its own year's feed as often as it is valid, and of no other year's feed |
| Pipeline.YearlyFeedsShape | scrape_to_podcast.py:120-123 | the year feeds follow the keys in first-occurrence order, each with its file and its year's channel |
| Pipeline.SeasonIsGroupYear | scrape_to_podcast.py:62 | a dated item's season is the year its link is grouped under and the four-digit year of its date |
| Pipeline.FebruaryThirtieth | scrape_to_podcast.py:56-68 | `February_30_2015-no_songs_no_commercials.mp3` is grouped under 2015, yet its entry is undated, with no `pubDate` or season |
| Pipeline.WriteFeeds | scrape_to_podcast.py:111-129 | the year feeds are built in key order from the groups, then the combined feed from all links |
| Pipeline.Publish | scrape_to_podcast.py:91-131 | `main` returns the classifier's four lists, the year feeds and the combined feed |

## Left out

- Fetching the page with `requests.get` and extracting hrefs with BeautifulSoup: these are network and
  HTML-parser calls. The hrefs, in page order, are an input.
- The `requests.head` size probe, a network call. Its answers are an input map, and a missing answer,
  like a failed request, gives `"0"`. The model assumes one answer per link.
- `print` messages and the `open`/`write` calls. The exclusion lists, the year feeds with their file
  names, and the combined feed are returned instead of written.
- The XML template text and the fixed iTunes metadata: these are fixed interpolation. An item is modelled
  by the values interpolated into it, and a feed by its channel and items.
- Python `re` beyond ASCII. The model assumes ASCII letters and digits for `[A-Za-z]`, `\d` and
  `IGNORECASE`, and filenames without a trailing newline, which `$` would accept.
- Locale. Month and weekday names are the English ones (the C locale).
- Calendar.Pad4: always renders four digits; `%Y` for years below 1000 is platform-dependent and not modelled.
- Python's Timsort. The sort is a stable insertion sort. `Ordering.StableSortUnique` shows that every
  stable sort by the same key gives the same list.
- Python `dict` behaviour other than insertion order. The dictionary is modelled as its keys in
  insertion order plus a map.
