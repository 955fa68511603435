/** The few Python `str` operations the scraper relies on, over `seq<char>`.
    Characters are treated as ASCII for case mapping: `Lower` maps 'A'..'Z'
    to 'a'..'z' and leaves every other character alone. */
module Text {

  datatype Option<+T> = None | Some(value: T)

  function Last<T>(s: seq<T>): T
    requires s != []
  {
    s[|s| - 1]
  }

  function DropLast<T>(s: seq<T>): seq<T>
    requires s != []
  {
    s[..|s| - 1]
  }

  /** Taking one more element of `s` appends that element. */
  lemma TakeOneMore<T>(s: seq<T>, i: int)
    requires 0 <= i < |s|
    ensures s[..i + 1] == s[..i] + [s[i]]
    ensures DropLast(s[..i + 1]) == s[..i] && Last(s[..i + 1]) == s[i]
  {
  }

  predicate IsLetter(c: char) { 'A' <= c <= 'Z' || 'a' <= c <= 'z' }

  predicate IsDigit(c: char) { '0' <= c <= '9' }

  predicate AllLetters(s: string) { forall i :: 0 <= i < |s| ==> IsLetter(s[i]) }

  predicate AllDigits(s: string) { forall i :: 0 <= i < |s| ==> IsDigit(s[i]) }

  function LowerChar(c: char): char
  {
    if 'A' <= c <= 'Z' then (c as int + 32) as char else c
  }

  /** `s.lower()` on ASCII text. */
  function Lower(s: string): (r: string)
    ensures |r| == |s|
    ensures forall i :: 0 <= i < |s| ==> r[i] == LowerChar(s[i])
  {
    seq(|s|, i requires 0 <= i < |s| => LowerChar(s[i]))
  }

  /** `s.startswith(p)` */
  predicate StartsWith(s: string, p: string)
  {
    |p| <= |s| && s[..|p|] == p
  }

  /** A prefix of `a` is a prefix of anything `a` starts. */
  lemma StartsWithAppend(a: string, b: string, p: string)
    requires StartsWith(a, p)
    ensures StartsWith(a + b, p)
  {
    assert (a + b)[..|p|] == a[..|p|];
  }

  /** `s.endswith(p)` */
  predicate EndsWith(s: string, p: string)
  {
    |p| <= |s| && s[|s| - |p|..] == p
  }

  /** `s.split('/')[-1]`: what follows the last '/', or all of `s` when it
      holds no '/'. The contract characterises that segment: it is a suffix
      of `s`, free of '/', and either the whole of `s` or preceded by '/'. */
  function LastSegment(s: string): (r: string)
    ensures '/' !in r
    ensures EndsWith(s, r)
    ensures r == s || (|r| < |s| && s[|s| - |r| - 1] == '/')
  {
    if s == [] || s[|s| - 1] == '/' then []
    else LastSegment(s[..|s| - 1]) + [s[|s| - 1]]
  }

  /** The three fields of `a + " " + b + ", " + c`, found again by
      position when `b` has two characters. */
  lemma TitleFields(a: string, b: string, c: string)
    requires |b| == 2
    ensures var s := a + " " + b + ", " + c; var n := |a|;
      && |s| == n + 5 + |c| && s[n] == ' ' && s[n + 3..n + 5] == ", "
      && s[..n] == a && s[n + 1..n + 3] == b && s[n + 5..] == c
  {
  }

  /** A string without '/' is its own last segment. */
  lemma LastSegmentWhole(s: string)
    requires '/' !in s
    ensures LastSegment(s) == s
  {
  }

  /** Whatever precedes the last segment does not matter once it ends in '/'. */
  lemma {:induction false} LastSegmentAfterSlash(p: string, t: string)
    requires p != [] && p[|p| - 1] == '/'
    ensures LastSegment(p + t) == LastSegment(t)
  {
    if t == [] {
      assert p + t == p;
    } else {
      var u := t[..|t| - 1];
      assert (p + t)[..|p + t| - 1] == p + u;
      LastSegmentAfterSlash(p, u);
    }
  }

  /** `s.lstrip(c)`: `s` without its leading run of `c`. */
  function LStrip(s: string, c: char): (r: string)
    ensures EndsWith(s, r)
    ensures r == [] || r[0] != c
    ensures forall i :: 0 <= i < |s| - |r| ==> s[i] == c
  {
    if s != [] && s[0] == c then LStrip(s[1..], c) else s
  }

  lemma HeadTail<T>(s: seq<T>)
    requires s != []
    ensures s == [s[0]] + s[1..]
  {
  }

  /** Stripping leading slashes never touches the last segment. */
  lemma {:induction false} LastSegmentOfLStrip(s: string)
    ensures LastSegment(LStrip(s, '/')) == LastSegment(s)
  {
    if s != [] && s[0] == '/' {
      LastSegmentOfLStrip(s[1..]);
      HeadTail(s);
      LastSegmentAfterSlash(['/'], s[1..]);
    }
  }

  predicate OccursAt(s: string, pat: string, i: int)
  {
    0 <= i && i + |pat| <= |s| && s[i..i + |pat|] == pat
  }

  predicate Occurs(s: string, pat: string)
  {
    exists i :: 0 <= i <= |s| && OccursAt(s, pat, i)
  }

  /** `s.replace(pat, rep)` for a non-empty `pat`: scans left to right and
      replaces every non-overlapping occurrence. */
  function ReplaceAll(s: string, pat: string, rep: string): string
    requires pat != []
    decreases |s|
  {
    if |s| < |pat| then s
    else if s[..|pat|] == pat then rep + ReplaceAll(s[|pat|..], pat, rep)
    else [s[0]] + ReplaceAll(s[1..], pat, rep)
  }

  /** Text in which `pat` does not occur comes back unchanged. */
  lemma {:induction false} ReplaceAbsent(s: string, pat: string, rep: string)
    requires pat != [] && !Occurs(s, pat)
    ensures ReplaceAll(s, pat, rep) == s
  {
    if |s| >= |pat| {
      assert !OccursAt(s, pat, 0);
      assert s[..|pat|] != pat;
      forall i | 0 <= i <= |s[1..]| ensures !OccursAt(s[1..], pat, i) {
        if OccursAt(s[1..], pat, i) {
          assert s[i + 1..i + 1 + |pat|] == s[1..][i..i + |pat|];
          assert OccursAt(s, pat, i + 1);
        }
      }
      ReplaceAbsent(s[1..], pat, rep);
      assert s == [s[0]] + s[1..];
    }
  }

  /** Replacing a single character acts position by position. */
  lemma {:induction false} ReplaceChar(s: string, a: char, b: char)
    ensures |ReplaceAll(s, [a], [b])| == |s|
    ensures forall i :: 0 <= i < |s| ==>
      ReplaceAll(s, [a], [b])[i] == (if s[i] == a then b else s[i])
  {
    if s != [] {
      ReplaceChar(s[1..], a, b);
      var t := ReplaceAll(s[1..], [a], [b]);
      assert ReplaceAll(s, [a], [b]) == [if s[0] == a then b else s[0]] + t;
    }
  }

  /** Lexicographic order of Python's `str` comparison (by code point; a
      proper prefix comes first). */
  predicate Less(a: string, b: string)
    decreases |a|
  {
    if a == [] then b != []
    else b != [] && (a[0] < b[0] || (a[0] == b[0] && Less(a[1..], b[1..])))
  }

  lemma {:induction false} LessIrreflexive(a: string)
    ensures !Less(a, a)
  {
    if a != [] {
      LessIrreflexive(a[1..]);
    }
  }

  lemma {:induction false} LessTransitive(a: string, b: string, c: string)
    requires Less(a, b) && Less(b, c)
    ensures Less(a, c)
  {
    if a != [] && a[0] == b[0] && b[0] == c[0] {
      LessTransitive(a[1..], b[1..], c[1..]);
    }
  }

  lemma {:induction false} LessTotal(a: string, b: string)
    requires a != b
    ensures Less(a, b) || Less(b, a)
  {
    if a != [] && b != [] && a[0] == b[0] {
      assert a == [a[0]] + a[1..] && b == [b[0]] + b[1..];
      LessTotal(a[1..], b[1..]);
    }
  }

  predicate StrictlyIncreasing(s: seq<string>)
  {
    forall i, j :: 0 <= i < j < |s| ==> Less(s[i], s[j])
  }

  /** `m` is in `s` and comes before every other element of it. */
  predicate IsLeast(m: string, s: set<string>)
  {
    m in s && forall x :: x in s && x != m ==> Less(m, x)
  }

  /** Every non-empty finite set of strings has a least element. */
  lemma {:induction false} HasLeast(s: set<string>)
    requires s != {}
    ensures exists m :: IsLeast(m, s)
    decreases |s|
  {
    var y :| y in s;
    if s == {y} {
      assert IsLeast(y, s);
    } else {
      var rest := s - {y};
      HasLeast(rest);
      var m :| IsLeast(m, rest);
      if Less(y, m) {
        forall x | x in s && x != y ensures Less(y, x) {
          if x != m {
            LessTransitive(y, m, x);
          }
        }
        assert IsLeast(y, s);
      } else {
        LessTotal(y, m);
        assert IsLeast(m, s);
      }
    }
  }

  /** The elements of a sequence, as a set. */
  function Elems<T>(s: seq<T>): set<T>
  {
    if s == [] then {} else Elems(DropLast(s)) + {Last(s)}
  }

  lemma ElemsSnoc<T>(s: seq<T>, x: T)
    ensures Elems(s + [x]) == Elems(s) + {x}
  {
    assert DropLast(s + [x]) == s;
  }

  lemma {:induction false} ElemsIff<T>(s: seq<T>)
    ensures forall x :: x in Elems(s) <==> x in s
  {
    if s != [] {
      ElemsIff(DropLast(s));
      assert s == DropLast(s) + [Last(s)];
    }
  }

  /** `sorted(s)` for a set of strings: its elements, each once, in
      ascending order. */
  method SortedList(s: set<string>) returns (r: seq<string>)
    ensures StrictlyIncreasing(r)
    ensures forall x :: x in r <==> x in s
    ensures |r| == |s|
  {
    r := [];
    var rest := s;
    while rest != {}
      invariant StrictlyIncreasing(r)
      invariant forall x :: x in s <==> x in r || x in rest
      invariant forall x :: x in r ==> x !in rest
      invariant forall i, y :: 0 <= i < |r| && y in rest ==> Less(r[i], y)
      invariant |r| + |rest| == |s|
      decreases |rest|
    {
      HasLeast(rest);
      var m :| IsLeast(m, rest);
      r := r + [m];
      rest := rest - {m};
    }
  }
}
