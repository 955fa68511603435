/** The year grouping in `main`: each link whose filename matches the
    primary pattern joins the group of its year; groups are created in the
    order their years first occur (a Python `dict` keeps insertion order),
    and links that do not match are left out of every group. */
module Grouping {
  import opened Text
  import opened Patterns

  /** The year group of a link's filename, if it matches the primary pattern. */
  function YearOf(link: string): Option<string>
  {
    match MatchPrimary(LastSegment(link))
    case None => None
    case Some(p) => Some(p.year)
  }

  /** `February_30_2015-no_songs_no_commercials.mp3` is grouped under 2015,
      whether or not its date parses. */
  lemma FebruaryThirtiethYear()
    ensures YearOf("February_30_2015-" + Suffix) == Some("2015")
  {
    FebruaryThirtiethMatches();
  }

  /** The years of `links`, each once, in order of first occurrence. */
  function YearKeys(yearOf: string -> Option<string>, links: seq<string>): seq<string>
  {
    if links == [] then []
    else
      var keys := YearKeys(yearOf, DropLast(links));
      match yearOf(Last(links))
      case None => keys
      case Some(y) => if y in keys then keys else keys + [y]
  }

  /** The links of year `y`, in order, repeats kept. */
  function LinksOfYear(yearOf: string -> Option<string>, links: seq<string>, y: string): seq<string>
  {
    if links == [] then []
    else if yearOf(Last(links)) == Some(y) then LinksOfYear(yearOf, DropLast(links), y) + [Last(links)]
    else LinksOfYear(yearOf, DropLast(links), y)
  }

  predicate Distinct(s: seq<string>)
  {
    forall i, j :: 0 <= i < j < |s| ==> s[i] != s[j]
  }

  /** How one more link extends the keys and the groups. */
  lemma KeysStep(yearOf: string -> Option<string>, prefix: seq<string>, link: string)
    ensures YearKeys(yearOf, prefix + [link]) ==
      match yearOf(link)
      case None => YearKeys(yearOf, prefix)
      case Some(z) => if z in YearKeys(yearOf, prefix) then YearKeys(yearOf, prefix) else YearKeys(yearOf, prefix) + [z]
  {
    assert DropLast(prefix + [link]) == prefix;
  }

  lemma GroupsStep(yearOf: string -> Option<string>, prefix: seq<string>, link: string, y: string)
    ensures LinksOfYear(yearOf, prefix + [link], y) ==
      if yearOf(link) == Some(y) then LinksOfYear(yearOf, prefix, y) + [link] else LinksOfYear(yearOf, prefix, y)
  {
    assert DropLast(prefix + [link]) == prefix;
  }

  /** A year is a key exactly when its group is non-empty. */
  lemma {:induction false} KeysNonEmpty(yearOf: string -> Option<string>, links: seq<string>, y: string)
    ensures y in YearKeys(yearOf, links) <==> LinksOfYear(yearOf, links, y) != []
  {
    if links != [] {
      KeysNonEmpty(yearOf, DropLast(links), y);
    }
  }

  /** No year is a key twice. */
  lemma {:induction false} KeysDistinct(yearOf: string -> Option<string>, links: seq<string>)
    ensures Distinct(YearKeys(yearOf, links))
  {
    if links != [] {
      KeysDistinct(yearOf, DropLast(links));
    }
  }

  /** A year is a key exactly when some link has that year. */
  lemma {:induction false} KeysMembers(yearOf: string -> Option<string>, links: seq<string>, y: string)
    ensures y in YearKeys(yearOf, links) <==> exists i :: 0 <= i < |links| && yearOf(links[i]) == Some(y)
  {
    if links != [] {
      var d := DropLast(links);
      KeysMembers(yearOf, d, y);
      if exists i :: 0 <= i < |links| && yearOf(links[i]) == Some(y) {
        var i :| 0 <= i < |links| && yearOf(links[i]) == Some(y);
        if i < |d| {
          assert d[i] == links[i];
        }
      }
      if exists i :: 0 <= i < |d| && yearOf(d[i]) == Some(y) {
        var i :| 0 <= i < |d| && yearOf(d[i]) == Some(y);
        assert links[i] == d[i];
      }
    }
  }

  /** Keys come in order of first occurrence: for two keys, some link of
      the earlier key precedes every link of the later one. */
  lemma {:induction false} KeysFirstOccurrence(yearOf: string -> Option<string>, links: seq<string>, i: int, j: int)
    requires 0 <= i < j < |YearKeys(yearOf, links)|
    ensures exists a :: (0 <= a < |links| && yearOf(links[a]) == Some(YearKeys(yearOf, links)[i])
      && forall b :: 0 <= b <= a ==> yearOf(links[b]) != Some(YearKeys(yearOf, links)[j]))
  {
    var d := DropLast(links);
    var keys, before := YearKeys(yearOf, links), YearKeys(yearOf, d);
    assert links != [];
    if j < |before| {
      assert keys[..|before|] == before;
      KeysFirstOccurrence(yearOf, d, i, j);
      var a :| 0 <= a < |d| && yearOf(d[a]) == Some(before[i])
        && forall b :: 0 <= b <= a ==> yearOf(d[b]) != Some(before[j]);
      assert yearOf(links[a]) == Some(keys[i]);
      assert forall b :: 0 <= b <= a ==> links[b] == d[b];
    } else {
      var z := yearOf(Last(links)).value;
      assert keys == before + [z] && z !in before;
      KeysMembers(yearOf, d, keys[i]);
      KeysMembers(yearOf, d, z);
      var a :| 0 <= a < |d| && yearOf(d[a]) == Some(keys[i]);
      assert yearOf(links[a]) == Some(keys[i]);
      forall b | 0 <= b <= a ensures yearOf(links[b]) != Some(keys[j]) {
        assert links[b] == d[b];
      }
    }
  }

  /** Every link with year `y` is in `y`'s group as often as in `links`,
      and no other link is. */
  lemma {:induction false} GroupCount(yearOf: string -> Option<string>, links: seq<string>, y: string, x: string)
    ensures multiset(LinksOfYear(yearOf, links, y))[x] ==
      if yearOf(x) == Some(y) then multiset(links)[x] else 0
  {
    if links != [] {
      var d := DropLast(links);
      GroupCount(yearOf, d, y, x);
      assert links == d + [Last(links)];
    }
  }

  lemma {:induction false} GroupMembers(yearOf: string -> Option<string>, links: seq<string>, y: string, x: string)
    requires x in LinksOfYear(yearOf, links, y)
    ensures x in links && yearOf(x) == Some(y)
  {
    GroupCount(yearOf, links, y, x);
    assert x in multiset(LinksOfYear(yearOf, links, y));
  }

  /** A group lists its links in the order of `links`, so it is sorted when
      `links` is. */
  lemma {:induction false} GroupSorted(yearOf: string -> Option<string>, links: seq<string>, y: string)
    requires StrictlyIncreasing(links)
    ensures StrictlyIncreasing(LinksOfYear(yearOf, links, y))
  {
    if links != [] {
      var d := DropLast(links);
      assert StrictlyIncreasing(d);
      GroupSorted(yearOf, d, y);
      if yearOf(Last(links)) == Some(y) {
        var g := LinksOfYear(yearOf, d, y);
        forall k | 0 <= k < |g| ensures Less(g[k], Last(links)) {
          GroupMembers(yearOf, d, y, g[k]);
          var a :| 0 <= a < |d| && d[a] == g[k];
        }
      }
    }
  }

  /** The groups of the years in `keys`, one after the other. */
  function Grouped(yearOf: string -> Option<string>, links: seq<string>, keys: seq<string>): seq<string>
  {
    if keys == [] then [] else Grouped(yearOf, links, DropLast(keys)) + LinksOfYear(yearOf, links, Last(keys))
  }

  /** The links that have a year, in order. */
  function Dated(yearOf: string -> Option<string>, links: seq<string>): seq<string>
  {
    if links == [] then []
    else if yearOf(Last(links)).Some? then Dated(yearOf, DropLast(links)) + [Last(links)]
    else Dated(yearOf, DropLast(links))
  }

  lemma {:induction false} DatedCount(yearOf: string -> Option<string>, links: seq<string>, x: string)
    ensures multiset(Dated(yearOf, links))[x] == if yearOf(x).Some? then multiset(links)[x] else 0
  {
    if links != [] {
      var d := DropLast(links);
      DatedCount(yearOf, d, x);
      assert links == d + [Last(links)];
    }
  }

  /** When every link has a year, none is dropped. */
  lemma {:induction false} DatedAll(yearOf: string -> Option<string>, links: seq<string>)
    requires forall u :: u in links ==> yearOf(u).Some?
    ensures Dated(yearOf, links) == links
  {
    if links != [] {
      assert Last(links) in links;
      assert forall u :: u in DropLast(links) ==> u in links;
      DatedAll(yearOf, DropLast(links));
      assert links == DropLast(links) + [Last(links)];
    }
  }

  lemma {:induction false} GroupedCount(yearOf: string -> Option<string>, links: seq<string>, keys: seq<string>, x: string)
    requires Distinct(keys)
    ensures multiset(Grouped(yearOf, links, keys))[x] ==
      if yearOf(x).Some? && yearOf(x).value in keys then multiset(links)[x] else 0
  {
    if keys != [] {
      var d, k := DropLast(keys), Last(keys);
      assert Distinct(d);
      assert keys == d + [k];
      GroupedCount(yearOf, links, d, x);
      GroupCount(yearOf, links, k, x);
      assert k !in d;
    }
  }

  /** The groups, in key order, are a rearrangement of the links that have
      a year: each such link is in exactly one group. */
  lemma GroupsPartition(yearOf: string -> Option<string>, links: seq<string>)
    ensures multiset(Grouped(yearOf, links, YearKeys(yearOf, links))) == multiset(Dated(yearOf, links))
  {
    KeysDistinct(yearOf, links);
    forall x ensures multiset(Grouped(yearOf, links, YearKeys(yearOf, links)))[x] == multiset(Dated(yearOf, links))[x] {
      GroupedCount(yearOf, links, YearKeys(yearOf, links), x);
      DatedCount(yearOf, links, x);
      if yearOf(x).Some? && x in links {
        var i :| 0 <= i < |links| && links[i] == x;
        KeysMembers(yearOf, links, yearOf(x).value);
      }
    }
  }

  /** The groups a dictionary holds after the links of `prefix`. */
  predicate GroupsOf(yearOf: string -> Option<string>, groups: map<string, seq<string>>, prefix: seq<string>)
  {
    forall y :: y in groups ==> groups[y] == LinksOfYear(yearOf, prefix, y)
  }

  /** `setdefault(year, []).append(link)` keeps the dictionary equal to the
      groups of the links seen so far. */
  lemma AppendToGroup(yearOf: string -> Option<string>, groups: map<string, seq<string>>,
                      prefix: seq<string>, link: string)
    requires GroupsOf(yearOf, groups, prefix)
    requires forall y :: y in groups <==> y in YearKeys(yearOf, prefix)
    ensures yearOf(link).None? ==> GroupsOf(yearOf, groups, prefix + [link])
    ensures yearOf(link).Some? ==>
      var y := yearOf(link).value;
      GroupsOf(yearOf, groups[y := (if y in groups then groups[y] else []) + [link]], prefix + [link])
  {
    forall y ensures LinksOfYear(yearOf, prefix + [link], y) ==
      (if yearOf(link) == Some(y) then LinksOfYear(yearOf, prefix, y) + [link] else LinksOfYear(yearOf, prefix, y))
    {
      GroupsStep(yearOf, prefix, link, y);
    }
    if yearOf(link).Some? && yearOf(link).value !in groups {
      KeysNonEmpty(yearOf, prefix, yearOf(link).value);
    }
  }

  /** The grouping loop of `main`: `mp3_by_year.setdefault(year,
      []).append(link)` for every link that `yearOf` gives a year. The
      dictionary is its keys in insertion order and its contents. */
  method GroupBy(yearOf: string -> Option<string>, links: seq<string>)
    returns (years: seq<string>, groups: map<string, seq<string>>)
    ensures years == YearKeys(yearOf, links)
    ensures forall y :: y in groups <==> y in years
    ensures forall y :: y in groups ==> groups[y] == LinksOfYear(yearOf, links, y)
  {
    years, groups := [], map[];
    for i := 0 to |links|
      invariant years == YearKeys(yearOf, links[..i])
      invariant forall y :: y in groups <==> y in years
      invariant GroupsOf(yearOf, groups, links[..i])
    {
      var link := links[i];
      TakeOneMore(links, i);
      KeysStep(yearOf, links[..i], link);
      AppendToGroup(yearOf, groups, links[..i], link);
      var m := yearOf(link);
      if m.Some? {
        var year := m.value;
        if year !in groups {
          years := years + [year];
        }
        var group := if year in groups then groups[year] else [];
        groups := groups[year := group + [link]];
      }
    }
    assert links[..|links|] == links;
  }

  /** The links grouped by the year their filename matches with. */
  method GroupByYear(links: seq<string>) returns (years: seq<string>, groups: map<string, seq<string>>)
    ensures years == YearKeys(YearOf, links)
    ensures forall y :: y in groups <==> y in years
    ensures forall y :: y in groups ==> groups[y] == LinksOfYear(YearOf, links, y)
  {
    years, groups := GroupBy(YearOf, links);
  }
}
