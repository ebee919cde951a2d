/**
 Ordering of rows by one field. Both the backend's `start_date` descending
 sort and the three frontend tables sort rows through a comparator that
 compares one field of two rows and negates the result for a descending
 direction. This module models that comparator and a stable sort driven by
 it, and proves the sort's output is an ordered permutation of its input.

 String comparison (`localeCompare` in the tables) is modelled as
 lexicographic order on character codes, and dates as integer timestamps.
 */
module Ordering {

  /** The value a comparator reads from a row for the selected field. A field
      the comparator does not recognise yields `Blank` for every row, so all
      rows compare equal. */
  datatype Key = Blank | Text(s: string) | Instant(t: int)

  datatype Direction = Asc | Desc

  /** The other direction. */
  function Flip(d: Direction): (r: Direction)
    ensures r != d
  {
    if d == Asc then Desc else Asc
  }

  /** Lexicographic comparison: negative, zero or positive as `a` sorts
      before, equal to, or after `b`. */
  function CompareText(a: string, b: string): (c: int)
    ensures -1 <= c <= 1
    ensures c == 0 <==> a == b
  {
    if |a| == 0 && |b| == 0 then 0
    else if |a| == 0 then -1
    else if |b| == 0 then 1
    else if a[0] < b[0] then -1
    else if a[0] > b[0] then 1
    else
      var c := CompareText(a[1..], b[1..]);
      assert a == [a[0]] + a[1..] && b == [b[0]] + b[1..];
      c
  }

  lemma {:induction false} CompareTextFlip(a: string, b: string)
    ensures CompareText(b, a) == -CompareText(a, b)
  {
    if |a| > 0 && |b| > 0 && a[0] == b[0] {
      CompareTextFlip(a[1..], b[1..]);
    }
  }

  lemma {:induction false} CompareTextTransitive(a: string, b: string, c: string)
    requires CompareText(a, b) <= 0 && CompareText(b, c) <= 0
    ensures CompareText(a, c) <= 0
  {
    if |a| > 0 && |b| > 0 && |c| > 0 && a[0] == b[0] && b[0] == c[0] {
      CompareTextTransitive(a[1..], b[1..], c[1..]);
    }
  }

  /** Only used to make the comparison total across kinds of key; the rows of
      one table always yield keys of a single kind for a given field. */
  function Rank(k: Key): int {
    match k
    case Blank => 0
    case Text(_) => 1
    case Instant(_) => 2
  }

  /** The comparator on one field: `localeCompare` for strings, the difference
      of the timestamps for dates, zero for an unrecognised field. */
  function CompareKeys(a: Key, b: Key): (c: int)
    ensures c == 0 <==> a == b
    ensures a.Instant? && b.Instant? ==> (c < 0 <==> a.t < b.t)
    ensures a.Text? && b.Text? ==> c == CompareText(a.s, b.s)
  {
    match (a, b)
    case (Text(x), Text(y)) => CompareText(x, y)
    case (Instant(x), Instant(y)) => x - y
    case (Blank, Blank) => 0
    case _ => Rank(a) - Rank(b)
  }

  lemma CompareKeysFlip(a: Key, b: Key)
    ensures CompareKeys(b, a) == -CompareKeys(a, b)
  {
    if a.Text? && b.Text? {
      CompareTextFlip(a.s, b.s);
    }
  }

  lemma CompareKeysTransitive(a: Key, b: Key, c: Key)
    requires CompareKeys(a, b) <= 0 && CompareKeys(b, c) <= 0
    ensures CompareKeys(a, c) <= 0
  {
    if a.Text? && b.Text? && c.Text? {
      CompareTextTransitive(a.s, b.s, c.s);
    }
  }

  /** A descending sort negates the comparison. */
  function Directed(dir: Direction, c: int): int {
    if dir == Asc then c else -c
  }

  /** Row `a` may stand before row `b`: the directed comparison is not positive. */
  predicate Precedes<T>(key: T -> Key, dir: Direction, a: T, b: T) {
    Directed(dir, CompareKeys(key(a), key(b))) <= 0
  }

  lemma PrecedesTotal<T>(key: T -> Key, dir: Direction, a: T, b: T)
    ensures !Precedes(key, dir, a, b) ==> Precedes(key, dir, b, a)
  {
    CompareKeysFlip(key(a), key(b));
  }

  lemma PrecedesTransitive<T>(key: T -> Key, dir: Direction, a: T, b: T, c: T)
    requires Precedes(key, dir, a, b) && Precedes(key, dir, b, c)
    ensures Precedes(key, dir, a, c)
  {
    if dir == Asc {
      CompareKeysTransitive(key(a), key(b), key(c));
    } else {
      CompareKeysFlip(key(a), key(b));
      CompareKeysFlip(key(b), key(c));
      CompareKeysFlip(key(a), key(c));
      CompareKeysTransitive(key(c), key(b), key(a));
    }
  }

  /** Every earlier row may stand before every later row. */
  predicate Sorted<T>(key: T -> Key, dir: Direction, s: seq<T>) {
    forall i, j :: 0 <= i < j < |s| ==> Precedes(key, dir, s[i], s[j])
  }

  /** Places `x` before the first row it may precede. Rows that compare equal to
      `x` stay behind it, which keeps the sort stable as `x` comes first in the input. */
  function Insert<T>(key: T -> Key, dir: Direction, x: T, s: seq<T>): (r: seq<T>)
    ensures |r| == |s| + 1
    ensures multiset(r) == multiset(s) + multiset{x}
  {
    if |s| == 0 || Precedes(key, dir, x, s[0]) then [x] + s
    else
      var t := Insert(key, dir, x, s[1..]);
      assert s == [s[0]] + s[1..];
      [s[0]] + t
  }

  /** A row that may precede every row of ordered rows can be put in front of them. */
  lemma ConsSorted<T>(key: T -> Key, dir: Direction, h: T, t: seq<T>)
    requires Sorted(key, dir, t)
    requires forall j :: 0 <= j < |t| ==> Precedes(key, dir, h, t[j])
    ensures Sorted(key, dir, [h] + t)
  {
    var r := [h] + t;
    forall i, j | 0 <= i < j < |r|
      ensures Precedes(key, dir, r[i], r[j])
    {
      assert r[j] == t[j - 1];
      if i > 0 {
        assert r[i] == t[i - 1];
      }
    }
  }

  lemma {:induction false} InsertSorted<T>(key: T -> Key, dir: Direction, x: T, s: seq<T>)
    requires Sorted(key, dir, s)
    ensures Sorted(key, dir, Insert(key, dir, x, s))
  {
    if |s| == 0 {
    } else if Precedes(key, dir, x, s[0]) {
      forall j | 0 < j < |s|
        ensures Precedes(key, dir, x, s[j])
      {
        PrecedesTransitive(key, dir, x, s[0], s[j]);
      }
      ConsSorted(key, dir, x, s);
    } else {
      var t := Insert(key, dir, x, s[1..]);
      assert Sorted(key, dir, s[1..]) by {
        forall i, j | 0 <= i < j < |s[1..]|
          ensures Precedes(key, dir, s[1..][i], s[1..][j])
        {
          assert s[1..][i] == s[i + 1] && s[1..][j] == s[j + 1];
        }
      }
      InsertSorted(key, dir, x, s[1..]);
      PrecedesTotal(key, dir, x, s[0]);
      forall j | 0 <= j < |t|
        ensures Precedes(key, dir, s[0], t[j])
      {
        var y := t[j];
        assert y in multiset(t);
        if y != x {
          assert y in multiset(s[1..]);
          var k :| 0 <= k < |s[1..]| && s[1..][k] == y;
          assert s[k + 1] == y;
        }
      }
      ConsSorted(key, dir, s[0], t);
    }
  }

  /** The rows of `s` reordered by the comparator, as the stable sort of a copy. */
  function SortBy<T>(key: T -> Key, dir: Direction, s: seq<T>): (r: seq<T>)
    ensures |r| == |s|
    ensures multiset(r) == multiset(s)
    ensures Sorted(key, dir, r)
  {
    if |s| == 0 then []
    else
      var t := SortBy(key, dir, s[1..]);
      assert s == [s[0]] + s[1..];
      InsertSorted(key, dir, s[0], t);
      Insert(key, dir, s[0], t)
  }

  /** When the comparator finds every row blank, as for a field it does not
      recognise, the stable sort keeps the input order. */
  lemma {:induction false} SortByBlankKeepsOrder<T>(key: T -> Key, dir: Direction, s: seq<T>)
    ensures (forall i :: 0 <= i < |s| ==> key(s[i]) == Blank) ==> SortBy(key, dir, s) == s
  {
    if |s| > 0 && forall i :: 0 <= i < |s| ==> key(s[i]) == Blank {
      assert forall i :: 0 <= i < |s[1..]| ==> s[1..][i] == s[i + 1];
      SortByBlankKeepsOrder(key, dir, s[1..]);
      assert s == [s[0]] + s[1..];
    }
  }

  /** Rows already in order come out of the stable sort unchanged. */
  lemma {:induction false} SortBySortedKeepsOrder<T>(key: T -> Key, dir: Direction, s: seq<T>)
    requires Sorted(key, dir, s)
    ensures SortBy(key, dir, s) == s
  {
    if |s| > 0 {
      assert Sorted(key, dir, s[1..]);
      SortBySortedKeepsOrder(key, dir, s[1..]);
      assert s == [s[0]] + s[1..];
    }
  }

  /** The first `n` rows, or all of them when there are fewer (`slice(0, n)`). */
  function Take<T>(s: seq<T>, n: nat): (r: seq<T>)
    ensures |r| == if |s| < n then |s| else n
    ensures r <= s
  {
    if |s| <= n then s else s[..n]
  }

  /** A row of `s` that a prefix leaves out lies in the rest of `s`. */
  lemma OmittedRowsFollowPrefix<T>(s: seq<T>, k: nat, x: T)
    requires k <= |s|
    requires multiset(s)[x] > multiset(s[..k])[x]
    ensures exists j :: k <= j < |s| && s[j] == x
  {
    assert s == s[..k] + s[k..];
    assert multiset(s) == multiset(s[..k]) + multiset(s[k..]);
    assert x in multiset(s[k..]);
    var j :| 0 <= j < |s[k..]| && s[k..][j] == x;
    assert s[k + j] == x;
  }

  /** In ordered rows, every row of a prefix may stand before any row the prefix leaves out. */
  lemma PrefixPrecedesRest<T>(key: T -> Key, dir: Direction, s: seq<T>, k: nat, i: nat, x: T)
    requires Sorted(key, dir, s)
    requires i < k <= |s|
    requires multiset(s)[x] > multiset(s[..k])[x]
    ensures Precedes(key, dir, s[i], x)
  {
    OmittedRowsFollowPrefix(s, k, x);
    var j :| k <= j < |s| && s[j] == x;
    assert Precedes(key, dir, s[i], s[j]);
  }

  /** A prefix of ordered rows is ordered and drawn from them, and every row it
      leaves out may stand after each row it keeps. */
  lemma TakeSorted<T>(key: T -> Key, dir: Direction, s: seq<T>, n: nat)
    requires Sorted(key, dir, s)
    ensures Sorted(key, dir, Take(s, n))
    ensures multiset(Take(s, n)) <= multiset(s)
    ensures forall i, x :: 0 <= i < |Take(s, n)| && multiset(s)[x] > multiset(Take(s, n))[x] ==>
      Precedes(key, dir, Take(s, n)[i], x)
  {
    var r := Take(s, n);
    var k := |r|;
    assert r == s[..k];
    assert multiset(r) <= multiset(s) by {
      assert s == s[..k] + s[k..];
    }
    forall i, x | 0 <= i < k && multiset(s)[x] > multiset(r)[x]
      ensures Precedes(key, dir, r[i], x)
    {
      PrefixPrecedesRest(key, dir, s, k, i, x);
    }
  }
}
