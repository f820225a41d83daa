/** `ORDER BY title` under SQLite's default BINARY collation: lexicographic
    order of the characters, a proper prefix first. */
module Ordering {
  import opened Schema

  predicate TextLe(a: string, b: string)
    decreases |a|
  {
    |a| == 0 || (|b| > 0 && (a[0] < b[0] || (a[0] == b[0] && TextLe(a[1..], b[1..]))))
  }

  lemma {:induction false} TextLeTotal(a: string, b: string)
    ensures TextLe(a, b) || TextLe(b, a)
    decreases |a|
  {
    if |a| > 0 && |b| > 0 && a[0] == b[0] {
      TextLeTotal(a[1..], b[1..]);
    }
  }

  lemma {:induction false} TextLeTransitive(a: string, b: string, c: string)
    requires TextLe(a, b) && TextLe(b, c)
    ensures TextLe(a, c)
    decreases |a|
  {
    if |a| > 0 && a[0] == b[0] && b[0] == c[0] {
      TextLeTransitive(a[1..], b[1..], c[1..]);
    }
  }

  /** Two titles that order both ways are the same title, so ties are exactly equal titles. */
  lemma {:induction false} TextLeAntisymmetric(a: string, b: string)
    requires TextLe(a, b) && TextLe(b, a)
    ensures a == b
    decreases |a|
  {
    if |a| > 0 {
      TextLeAntisymmetric(a[1..], b[1..]);
      assert a == [a[0]] + a[1..] && b == [b[0]] + b[1..];
    }
  }

  predicate SortedByTitle(s: seq<Show>) {
    forall i, j :: 0 <= i < j < |s| ==> TextLe(s[i].title, s[j].title)
  }

  /** Puts `x` before the first row whose title is not below it. */
  function InsertByTitle(x: Show, s: seq<Show>): seq<Show>
    decreases |s|
  {
    if s == [] || TextLe(x.title, s[0].title) then [x] + s else [s[0]] + InsertByTitle(x, s[1..])
  }

  /** The rows of `s` in title order; rows with equal titles keep their relative order. */
  function SortByTitle(s: seq<Show>): seq<Show>
    decreases |s|
  {
    if s == [] then [] else InsertByTitle(s[0], SortByTitle(s[1..]))
  }

  /** A row whose title is not above any title of a sorted sequence can go first. */
  lemma ConsSorted(x: Show, s: seq<Show>)
    requires SortedByTitle(s)
    requires forall j :: 0 <= j < |s| ==> TextLe(x.title, s[j].title)
    ensures SortedByTitle([x] + s)
  {
    var r := [x] + s;
    forall i, j | 0 <= i < j < |r|
      ensures TextLe(r[i].title, r[j].title)
    {
      assert r[j] == s[j - 1];
      if i > 0 {
        assert r[i] == s[i - 1];
      }
    }
  }

  lemma TailSorted(s: seq<Show>)
    requires s != [] && SortedByTitle(s)
    ensures SortedByTitle(s[1..])
  {
    var tail := s[1..];
    forall i, j | 0 <= i < j < |tail|
      ensures TextLe(tail[i].title, tail[j].title)
    {
      assert tail[i] == s[i + 1] && tail[j] == s[j + 1];
    }
  }

  /** Every row of `r` is `x` or a row of `s`, so a lower bound of both bounds `r`. */
  lemma BoundByMultiset(lo: string, x: Show, s: seq<Show>, r: seq<Show>)
    requires multiset(r) == multiset(s) + multiset{x}
    requires TextLe(lo, x.title)
    requires forall j :: 0 <= j < |s| ==> TextLe(lo, s[j].title)
    ensures forall j :: 0 <= j < |r| ==> TextLe(lo, r[j].title)
  {
    forall j | 0 <= j < |r|
      ensures TextLe(lo, r[j].title)
    {
      assert r[j] in multiset(r);
      if r[j] != x {
        assert r[j] in multiset(s);
        var k :| 0 <= k < |s| && s[k] == r[j];
      }
    }
  }

  lemma {:induction false} InsertByTitleSpec(x: Show, s: seq<Show>)
    requires SortedByTitle(s)
    ensures multiset(InsertByTitle(x, s)) == multiset(s) + multiset{x}
    ensures SortedByTitle(InsertByTitle(x, s))
    decreases |s|
  {
    if s == [] || TextLe(x.title, s[0].title) {
      forall j | 0 <= j < |s|
        ensures TextLe(x.title, s[j].title)
      {
        if j > 0 {
          TextLeTransitive(x.title, s[0].title, s[j].title);
        }
      }
      ConsSorted(x, s);
    } else {
      TextLeTotal(x.title, s[0].title);
      var tail := s[1..];
      TailSorted(s);
      InsertByTitleSpec(x, tail);
      var rest := InsertByTitle(x, tail);
      BoundByMultiset(s[0].title, x, tail, rest);
      ConsSorted(s[0], rest);
      assert s == [s[0]] + tail;
    }
  }

  /** Sorting by title orders the rows and keeps every row, as often as it occurs. */
  lemma {:induction false} SortByTitleSpec(s: seq<Show>)
    ensures SortedByTitle(SortByTitle(s))
    ensures multiset(SortByTitle(s)) == multiset(s)
    decreases |s|
  {
    if s != [] {
      SortByTitleSpec(s[1..]);
      InsertByTitleSpec(s[0], SortByTitle(s[1..]));
      assert s == [s[0]] + s[1..];
    }
  }
}
