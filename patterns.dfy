/** The two filename patterns of the scraper, as hand-written recognisers
    over ASCII text, each proved equivalent to a declarative description of
    the strings it accepts.

    Primary:   ^[A-Za-z]+_\d{1,2}_(\d{4})[-_]no_songs_no_commercials\.mp3$
    Secondary: ^[A-Za-z]+_\d{2}[-_]no_songs_no_commercials\.mp3$
    both matched case-insensitively. */
module Patterns {
  import opened Text

  /** The fixed tail shared by both patterns, in lower case. */
  const Suffix: string := "no_songs_no_commercials.mp3"

  /** The only '.' of the tail is the one that starts the extension. */
  lemma SuffixDots()
    ensures |Suffix| == 27 && Suffix[23] == '.'
    ensures forall k :: 0 <= k < 23 ==> Suffix[k] != '.'
  {
    var words := "no_songs_no_commercials";
    assert Suffix == words + ".mp3";
    assert '.' !in words;
    assert forall k :: 0 <= k < 23 ==> Suffix[k] == words[k];
  }

  /** The groups the primary pattern captures: month name, day, year. */
  datatype DateParts = DateParts(month: string, day: string, year: string)

  /** `s` equals `pat` once lower-cased, compared character by character. */
  predicate LowerMatches(s: string, pat: string)
    decreases |s|
  {
    |s| == |pat| && (s == [] || (LowerChar(s[0]) == pat[0] && LowerMatches(s[1..], pat[1..])))
  }

  lemma {:induction false} LowerMatchesIff(s: string, pat: string)
    ensures LowerMatches(s, pat) <==> Lower(s) == pat
  {
    if |s| == |pat| && s != [] {
      LowerMatchesIff(s[1..], pat[1..]);
      assert Lower(s) == [LowerChar(s[0])] + Lower(s[1..]);
      assert pat == [pat[0]] + pat[1..];
    }
  }

  /** `[-_]no_songs_no_commercials\.mp3$` under IGNORECASE. */
  predicate IsTail(t: string)
  {
    |t| == 1 + |Suffix| && (t[0] == '-' || t[0] == '_') && LowerMatches(t[1..], Suffix)
  }

  /** Length of the leading run of ASCII letters. */
  function LeadingLetters(s: string): (n: nat)
    ensures n <= |s|
    ensures forall i :: 0 <= i < n ==> IsLetter(s[i])
    ensures n == |s| || !IsLetter(s[n])
  {
    if s == [] || !IsLetter(s[0]) then 0 else 1 + LeadingLetters(s[1..])
  }

  /** Length of the leading run of ASCII digits. */
  function LeadingDigits(s: string): (n: nat)
    ensures n <= |s|
    ensures forall i :: 0 <= i < n ==> IsDigit(s[i])
    ensures n == |s| || !IsDigit(s[n])
  {
    if s == [] || !IsDigit(s[0]) then 0 else 1 + LeadingDigits(s[1..])
  }

  /** The primary pattern: the captured groups when `f` matches, None
      otherwise. The letters run and the day run are each followed by '_',
      which neither run can contain, so no backtracking can change where
      they end. */
  function MatchPrimary(f: string): Option<DateParts>
  {
    var n := LeadingLetters(f);
    if 0 < n < |f| && f[n] == '_' then MatchDay(f[..n], f[n + 1..]) else None
  }

  /** `\d{1,2}_` and what follows, after the month group. */
  function MatchDay(month: string, rest: string): Option<DateParts>
  {
    var k := LeadingDigits(rest);
    if 0 < k <= 2 && k < |rest| && rest[k] == '_' then MatchYear(month, rest[..k], rest[k + 1..])
    else None
  }

  /** `(\d{4})` and the tail, after the month and day groups. */
  function MatchYear(month: string, day: string, tail: string): Option<DateParts>
  {
    if |tail| == 4 + 1 + |Suffix| && AllDigits(tail[..4]) && IsTail(tail[4..])
    then Some(DateParts(month, day, tail[..4]))
    else None
  }

  /** The captured groups are what the regular expression's groups can hold. */
  predicate WellFormed(p: DateParts)
  {
    && |p.month| > 0 && AllLetters(p.month)
    && 1 <= |p.day| <= 2 && AllDigits(p.day)
    && |p.year| == 4 && AllDigits(p.year)
  }

  /** Declarative reading of the primary pattern: `f` is the three groups
      joined by '_', followed by a tail. */
  predicate PrimaryForm(f: string, p: DateParts)
  {
    && WellFormed(p)
    && |f| == |p.month| + |p.day| + |p.year| + 2 + 1 + |Suffix|
    && f[..|f| - 1 - |Suffix|] == p.month + "_" + p.day + "_" + p.year
    && IsTail(f[|f| - 1 - |Suffix|..])
  }

  /** The recogniser accepts exactly the strings of the primary form, and
      captures exactly their groups. */
  lemma PrimarySound(f: string)
    requires MatchPrimary(f).Some?
    ensures PrimaryForm(f, MatchPrimary(f).value)
  {
    var p := MatchPrimary(f).value;
    var n := LeadingLetters(f);
    var rest := f[n + 1..];
    var k := LeadingDigits(rest);
    var tail := rest[k + 1..];
    assert MatchDay(f[..n], rest) == Some(p);
    assert MatchYear(f[..n], rest[..k], tail) == Some(p);
    assert f == p.month + "_" + p.day + "_" + p.year + tail[4..];
  }

  lemma PrimaryComplete(f: string, p: DateParts)
    requires PrimaryForm(f, p)
    ensures MatchPrimary(f) == Some(p)
  {
    var t := f[|f| - 1 - |Suffix|..];
    var rest := p.day + "_" + (p.year + t);
    assert f == p.month + "_" + rest by {
      assert f == f[..|f| - 1 - |Suffix|] + t;
      assert p.month + "_" + rest == p.month + "_" + p.day + "_" + p.year + t;
    }
    LettersThenUnderscore(f, p.month, rest);
    DigitsThenUnderscore(rest, p.day, p.year + t);
    assert (p.year + t)[..4] == p.year && (p.year + t)[4..] == t;
    assert MatchYear(p.month, p.day, p.year + t) == Some(p);
    assert MatchDay(p.month, rest) == Some(p);
  }

  /** A letters run followed by '_' is exactly what `LeadingLetters` finds. */
  lemma LettersThenUnderscore(f: string, a: string, rest: string)
    requires |a| > 0 && AllLetters(a) && f == a + "_" + rest
    ensures LeadingLetters(f) == |a| && f[..|a|] == a && f[|a| + 1..] == rest
  {
    assert f[|a|] == '_';
    assert forall i :: 0 <= i < |a| ==> f[i] == a[i];
  }

  /** Likewise for a digits run followed by '_'. */
  lemma DigitsThenUnderscore(f: string, a: string, rest: string)
    requires |a| > 0 && AllDigits(a) && f == a + "_" + rest
    ensures LeadingDigits(f) == |a| && f[..|a|] == a && f[|a| + 1..] == rest
  {
    assert f[|a|] == '_';
    assert forall i :: 0 <= i < |a| ==> f[i] == a[i];
  }

  lemma PrimaryIff(f: string, p: DateParts)
    ensures MatchPrimary(f) == Some(p) <==> PrimaryForm(f, p)
  {
    if MatchPrimary(f) == Some(p) {
      PrimarySound(f);
    }
    if PrimaryForm(f, p) {
      PrimaryComplete(f, p);
    }
  }

  /** The secondary pattern (no year). */
  predicate MatchesSecondary(f: string)
  {
    var n := LeadingLetters(f);
    && 0 < n < |f| && f[n] == '_'
    && |f| == n + 3 + 1 + |Suffix|
    && AllDigits(f[n + 1..n + 3])
    && IsTail(f[n + 3..])
  }

  /** Declarative reading of the secondary pattern, anchored at the end:
      a tail, before it two digits, before them '_', and letters before that. */
  predicate SecondaryForm(f: string)
  {
    var e := |f| - 1 - |Suffix|;
    && e >= 4
    && IsTail(f[e..])
    && AllDigits(f[e - 2..e])
    && f[e - 3] == '_'
    && AllLetters(f[..e - 3])
  }

  lemma SecondaryIff(f: string)
    ensures MatchesSecondary(f) <==> SecondaryForm(f)
  {
    var e := |f| - 1 - |Suffix|;
    if SecondaryForm(f) {
      assert forall i :: 0 <= i < e - 3 ==> f[..e - 3][i] == f[i];
      assert LeadingLetters(f) == e - 3;
    }
  }

  /** Well-formed groups joined by '_' and followed by either separator and
      the fixed tail make a name the recogniser accepts with exactly those
      groups. */
  lemma MatchesBuiltName(p: DateParts, sep: char)
    requires WellFormed(p) && (sep == '-' || sep == '_')
    ensures MatchPrimary(p.month + "_" + p.day + "_" + p.year + [sep] + Suffix) == Some(p)
  {
    var stem := p.month + "_" + p.day + "_" + p.year;
    var t := [sep] + Suffix;
    var f := stem + t;
    assert f == p.month + "_" + p.day + "_" + p.year + [sep] + Suffix;
    assert f[..|stem|] == stem && f[|stem|..] == t;
    assert LowerMatches(t[1..], Suffix) by {
      assert t[1..] == Suffix;
      SuffixLowerCase();
      LowerMatchesIff(Suffix, Suffix);
    }
    PrimaryComplete(f, p);
  }

  /** The tail has no '/', so it never spans a path segment. */
  lemma SuffixNoSlash()
    ensures '/' !in Suffix
  {
    assert forall i :: 0 <= i < |Suffix| ==> Suffix[i] != '/';
  }

  /** The tail has no capitals. */
  lemma SuffixLowerCase()
    ensures Lower(Suffix) == Suffix
  {
    assert forall i :: 0 <= i < |Suffix| ==> !('A' <= Suffix[i] <= 'Z');
  }

  /** `February_30_2015-no_songs_no_commercials.mp3` is of the primary form,
      with groups February, 30 and 2015. */
  lemma FebruaryThirtiethMatches()
    ensures MatchPrimary("February_30_2015-" + Suffix) == Some(DateParts("February", "30", "2015"))
    ensures '/' !in "February_30_2015-" + Suffix
  {
    SuffixNoSlash();
    assert forall i :: 0 <= i < |"February_30_2015-"| ==> "February_30_2015-"[i] != '/';
    var p := DateParts("February", "30", "2015");
    assert WellFormed(p);
    MatchesBuiltName(p, '-');
    FebruaryThirtiethName();
  }

  lemma FebruaryThirtiethName()
    ensures "February" + "_" + "30" + "_" + "2015" + ['-'] == "February_30_2015-"
  {
  }

  /** No filename matches both patterns: after the day digits the primary
      form has '_' and four digits, the secondary form its tail. */
  lemma PatternsDisjoint(f: string)
    ensures MatchPrimary(f).Some? ==> !MatchesSecondary(f)
  {
  }
}
