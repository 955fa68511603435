/** The order of a feed's items: `items.sort(key=lambda x: (x['date_obj']
    is None, x['date_obj']))`. Dated entries come first in chronological
    order, undated ones after them, and entries with equal keys keep their
    relative order because the sort is stable. */
module Ordering {
  import opened Text
  import opened Calendar
  import opened Items

  /** `(a is None, a) <= (b is None, b)`: any date precedes "no date", dates
      compare chronologically, and two missing dates are equal. */
  predicate KeyLe(a: Option<Date>, b: Option<Date>)
  {
    if a.None? then b.None?
    else b.None? || !Before(b.value, a.value)
  }

  lemma KeyLeReflexive(a: Option<Date>)
    ensures KeyLe(a, a)
  {
  }

  lemma KeyLeTotal(a: Option<Date>, b: Option<Date>)
    ensures KeyLe(a, b) || KeyLe(b, a)
  {
  }

  lemma KeyLeTransitive(a: Option<Date>, b: Option<Date>, c: Option<Date>)
    requires KeyLe(a, b) && KeyLe(b, c)
    ensures KeyLe(a, c)
  {
  }

  /** Keys that are each at most the other are the same key. */
  lemma KeyLeAntisymmetric(a: Option<Date>, b: Option<Date>)
    requires KeyLe(a, b) && KeyLe(b, a)
    ensures a == b
  {
  }

  predicate Sorted(s: seq<Entry>)
  {
    forall i, j :: 0 <= i < j < |s| ==> KeyLe(s[i].date, s[j].date)
  }

  /** Where a stable insertion puts `x`: after the last entry whose key is
      at most its own, scanning from the back. */
  function InsertPos(s: seq<Entry>, x: Entry): (p: nat)
    ensures p <= |s|
    ensures p == 0 || KeyLe(s[p - 1].date, x.date)
    ensures forall i :: p <= i < |s| ==> !KeyLe(s[i].date, x.date)
  {
    if s == [] then 0
    else if KeyLe(Last(s).date, x.date) then |s|
    else InsertPos(DropLast(s), x)
  }

  function Insert(s: seq<Entry>, x: Entry): seq<Entry>
  {
    var p := InsertPos(s, x);
    s[..p] + [x] + s[p..]
  }

  /** A stable sort by key (insertion from the back). `StableSortUnique`
      shows that no other stable sort can order the entries differently. */
  function SortByDate(s: seq<Entry>): seq<Entry>
  {
    if s == [] then [] else Insert(SortByDate(DropLast(s)), Last(s))
  }

  /** The entries of `s` whose key is `k`, in order. */
  function WithKey(s: seq<Entry>, k: Option<Date>): seq<Entry>
  {
    if s == [] then []
    else if Last(s).date == k then WithKey(DropLast(s), k) + [Last(s)]
    else WithKey(DropLast(s), k)
  }

  lemma {:induction false} WithKeyAppend(s: seq<Entry>, t: seq<Entry>, k: Option<Date>)
    ensures WithKey(s + t, k) == WithKey(s, k) + WithKey(t, k)
    decreases |t|
  {
    if t == [] {
      assert s + t == s;
    } else {
      assert DropLast(s + t) == s + DropLast(t);
      WithKeyAppend(s, DropLast(t), k);
    }
  }

  lemma InsertMultiset(s: seq<Entry>, x: Entry)
    ensures multiset(Insert(s, x)) == multiset(s) + multiset{x}
  {
    var p := InsertPos(s, x);
    assert s == s[..p] + s[p..];
  }

  lemma InsertSorted(s: seq<Entry>, x: Entry)
    requires Sorted(s)
    ensures Sorted(Insert(s, x))
  {
    var p := InsertPos(s, x);
    var r := Insert(s, x);
    assert |r| == |s| + 1;
    assert forall i :: 0 <= i < p ==> r[i] == s[i];
    assert r[p] == x;
    assert forall i :: p < i < |r| ==> r[i] == s[i - 1];
    forall i | 0 <= i < p ensures KeyLe(s[i].date, x.date) {
      if i < p - 1 {
        KeyLeTransitive(s[i].date, s[p - 1].date, x.date);
      }
    }
    forall i | p <= i < |s| ensures KeyLe(x.date, s[i].date) {
      KeyLeTotal(s[i].date, x.date);
    }
    forall i, j | 0 <= i < j < |r| ensures KeyLe(r[i].date, r[j].date) {
      if i < p && p < j {
        KeyLeTransitive(s[i].date, x.date, s[j - 1].date);
      }
    }
  }

  /** A sequence with no entry of key `k` has none to keep. */
  lemma {:induction false} WithKeyNone(t: seq<Entry>, k: Option<Date>)
    requires forall i :: 0 <= i < |t| ==> t[i].date != k
    ensures WithKey(t, k) == []
  {
    if t != [] {
      WithKeyNone(DropLast(t), k);
    }
  }

  /** Inserting `x` puts it after the entries that share its key. */
  lemma InsertWithKey(s: seq<Entry>, x: Entry, k: Option<Date>)
    ensures WithKey(Insert(s, x), k) == WithKey(s, k) + WithKey([x], k)
  {
    var p := InsertPos(s, x);
    var lo, hi := s[..p], s[p..];
    assert Insert(s, x) == (lo + [x]) + hi;
    assert s == lo + hi;
    WithKeyAppend(lo + [x], hi, k);
    WithKeyAppend(lo, [x], k);
    WithKeyAppend(lo, hi, k);
    var wlo, wx, whi := WithKey(lo, k), WithKey([x], k), WithKey(hi, k);
    assert WithKey(Insert(s, x), k) == wlo + wx + whi;
    assert WithKey(s, k) == wlo + whi;
    if x.date == k {
      KeyLeReflexive(x.date);
      WithKeyNone(hi, k);
      assert whi == [];
      assert wlo + wx + whi == wlo + wx;
    } else {
      WithKeyOne(x, k);
      assert wx == [];
      assert wlo + wx + whi == wlo + whi;
    }
  }

  lemma WithKeyOne(e: Entry, k: Option<Date>)
    ensures WithKey([e], k) == if e.date == k then [e] else []
  {
    assert DropLast([e]) == [];
  }

  /** The result is ordered by key. */
  lemma {:induction false} SortSorted(s: seq<Entry>)
    ensures Sorted(SortByDate(s))
  {
    if s != [] {
      SortSorted(DropLast(s));
      InsertSorted(SortByDate(DropLast(s)), Last(s));
    }
  }

  /** The result is a rearrangement of the input. */
  lemma {:induction false} SortPermutation(s: seq<Entry>)
    ensures multiset(SortByDate(s)) == multiset(s)
  {
    if s != [] {
      var d, x := DropLast(s), Last(s);
      var t := SortByDate(d);
      SortPermutation(d);
      InsertMultiset(t, x);
      assert s == d + [x];
      calc {
        multiset(SortByDate(s));
        multiset(Insert(t, x));
        multiset(t) + multiset{x};
        multiset(d) + multiset{x};
        multiset(d + [x]);
      }
    }
  }

  /** Stability: the entries that share a key keep their input order. */
  lemma {:induction false} SortStable(s: seq<Entry>, k: Option<Date>)
    ensures WithKey(SortByDate(s), k) == WithKey(s, k)
  {
    if s != [] {
      var d := DropLast(s);
      SortStable(d, k);
      InsertWithKey(SortByDate(d), Last(s), k);
      assert s == d + [Last(s)];
      WithKeyAppend(d, [Last(s)], k);
    }
  }

  /** In sorted order every dated entry precedes every undated one, and
      dated entries never go back in time. */
  lemma DatedFirst(s: seq<Entry>, i: int, j: int)
    requires Sorted(s) && 0 <= i < j < |s|
    ensures s[j].date.Some? ==> s[i].date.Some? && !Before(s[j].date.value, s[i].date.value)
    ensures s[i].date.None? ==> s[j].date.None?
  {
  }

  lemma WithKeyOfLast(s: seq<Entry>)
    requires s != []
    ensures WithKey(s, Last(s).date) != []
  {
  }

  lemma WithKeyMember(s: seq<Entry>, k: Option<Date>, e: Entry)
    requires e in WithKey(s, k)
    ensures e in s && e.date == k
  {
    if s != [] && e != Last(s) {
      WithKeyMember(DropLast(s), k, e);
    }
  }

  /** Two sorted sequences that agree on the entries of every key, in
      order, are the same sequence. */
  lemma {:induction false} SortedUnique(t: seq<Entry>, u: seq<Entry>)
    requires Sorted(t) && Sorted(u)
    requires forall k :: WithKey(t, k) == WithKey(u, k)
    ensures t == u
    decreases |t|
  {
    if t == [] || u == [] {
      var v := if t == [] then u else t;
      if v != [] {
        WithKeyOfLast(v);
        assert false;
      }
    } else {
      var a, b := Last(t), Last(u);
      assert KeyLe(a.date, b.date) by {
        assert a in WithKey(u, a.date);
        WithKeyMember(u, a.date, a);
        var j :| 0 <= j < |u| && u[j] == a;
        assert j == |u| - 1 || KeyLe(u[j].date, u[|u| - 1].date);
      }
      assert KeyLe(b.date, a.date) by {
        assert b in WithKey(t, b.date);
        WithKeyMember(t, b.date, b);
        var j :| 0 <= j < |t| && t[j] == b;
        assert j == |t| - 1 || KeyLe(t[j].date, t[|t| - 1].date);
      }
      KeyLeAntisymmetric(a.date, b.date);
      assert a == b by {
        assert Last(WithKey(t, a.date)) == a;
      }
      forall k ensures WithKey(DropLast(t), k) == WithKey(DropLast(u), k) {
        assert WithKey(t, k) == WithKey(u, k);
        if k == a.date {
          assert WithKey(t, k) == WithKey(DropLast(t), k) + [a];
          assert WithKey(u, k) == WithKey(DropLast(u), k) + [a];
          assert WithKey(DropLast(t), k) == DropLast(WithKey(t, k));
        }
      }
      SortedUnique(DropLast(t), DropLast(u));
      assert t == DropLast(t) + [a] && u == DropLast(u) + [b];
    }
  }

  /** Any sorted arrangement that keeps each key's entries in input order
      is the one `SortByDate` computes. */
  lemma StableSortUnique(s: seq<Entry>, t: seq<Entry>)
    requires Sorted(t)
    requires forall k :: WithKey(t, k) == WithKey(s, k)
    ensures t == SortByDate(s)
  {
    SortSorted(s);
    forall k ensures WithKey(t, k) == WithKey(SortByDate(s), k) {
      SortStable(s, k);
    }
    SortedUnique(t, SortByDate(s));
  }
}
