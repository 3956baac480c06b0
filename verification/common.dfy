/** Small generic helpers shared by the server and client models: an Option
    type, and the handful of sequence operations the SQL queries of the server
    reduce to (filtering rows, finding the first matching row, allocating a
    fresh row id, mapping a fallible lookup over rows, ordering rows). */
module Common {

  datatype Option<+T> = None | Some(value: T)

  /** The elements of `s` that satisfy `keep`, in their original order
      (a `WHERE` clause over a table). */
  function Filter<T>(s: seq<T>, keep: T -> bool): (r: seq<T>)
    ensures |r| <= |s|
    ensures forall i :: 0 <= i < |r| ==> keep(r[i])
    ensures forall i :: 0 <= i < |r| ==> r[i] in s
    ensures forall i :: 0 <= i < |s| && keep(s[i]) ==> s[i] in r
    decreases |s|
  {
    if |s| == 0 then []
    else if keep(s[0]) then [s[0]] + Filter(s[1..], keep)
    else Filter(s[1..], keep)
  }

  /** Filtering a table with one more row appended at the end filters the old
      rows and then looks at the new one. */
  lemma {:induction false} FilterAppend<T>(s: seq<T>, x: T, keep: T -> bool)
    ensures Filter(s + [x], keep) == Filter(s, keep) + (if keep(x) then [x] else [])
    decreases |s|
  {
    if |s| == 0 {
      assert s + [x] == [x];
    } else {
      assert (s + [x])[1..] == s[1..] + [x];
      FilterAppend(s[1..], x, keep);
    }
  }

  /** The index of the first element of `s` that satisfies `p`
      (`query.filter(...).first()` and `query.get(...)`). */
  function FindIndex<T>(s: seq<T>, p: T -> bool): (r: Option<nat>)
    ensures r.Some? ==> r.value < |s| && p(s[r.value])
    ensures r.Some? ==> forall j :: 0 <= j < r.value ==> !p(s[j])
    ensures r.None? <==> forall j :: 0 <= j < |s| ==> !p(s[j])
    decreases |s|
  {
    if |s| == 0 then None
    else if p(s[0]) then Some(0)
    else
      match FindIndex(s[1..], p)
      case None => None
      case Some(k) => Some(k + 1)
  }

  /** Looking for the first match in a table with one more row appended:
      an earlier match wins, and otherwise the new row is the match if it
      satisfies `p`. */
  lemma {:induction false} FindIndexAppend<T>(s: seq<T>, x: T, p: T -> bool)
    ensures FindIndex(s + [x], p)
         == (if FindIndex(s, p).Some? then FindIndex(s, p) else if p(x) then Some(|s|) else None)
    decreases |s|
  {
    if |s| == 0 {
      assert s + [x] == [x];
    } else {
      assert (s + [x])[1..] == s[1..] + [x];
      FindIndexAppend(s[1..], x, p);
    }
  }

  /** The first element of `s` that satisfies `p`, if any: no element before
      it satisfies `p`. */
  function Find<T>(s: seq<T>, p: T -> bool): (r: Option<T>)
    ensures r.Some? ==> r.value in s && p(r.value)
    ensures r.None? <==> forall i :: 0 <= i < |s| ==> !p(s[i])
  {
    match FindIndex(s, p)
    case None => None
    case Some(k) => Some(s[k])
  }

  /** `Find` returns the first matching element: no element before it
      matches. */
  lemma FindIsFirst<T>(s: seq<T>, p: T -> bool)
    ensures Find(s, p).Some? ==> exists k :: (0 <= k < |s| && s[k] == Find(s, p).value
      && forall j :: 0 <= j < k ==> !p(s[j]))
  {
    if Find(s, p).Some? {
      var k := FindIndex(s, p).value;
      assert s[k] == Find(s, p).value;
    }
  }

  /** The largest key of a non-empty table. */
  function MaxKey<T>(s: seq<T>, key: T -> int): (r: int)
    requires |s| > 0
    ensures forall i :: 0 <= i < |s| ==> key(s[i]) <= r
    ensures exists i :: 0 <= i < |s| && key(s[i]) == r
    decreases |s|
  {
    if |s| == 1 then key(s[0])
    else
      var m := MaxKey(s[1..], key);
      assert forall i :: 1 <= i < |s| ==> s[i] == s[1..][i - 1];
      if key(s[0]) >= m then key(s[0]) else m
  }

  /** The id SQLite gives the next row of an integer-keyed table: one more
      than the largest id present, or 1 for an empty table. */
  function NextId<T>(s: seq<T>, id: T -> int): (r: int)
    ensures forall i :: 0 <= i < |s| ==> id(s[i]) < r
    ensures |s| == 0 ==> r == 1
    ensures |s| > 0 ==> exists i :: 0 <= i < |s| && id(s[i]) == r - 1
  {
    if |s| == 0 then 1 else MaxKey(s, id) + 1
  }

  /** No two rows of `s` share an id (a primary key). */
  predicate UniqueBy<T>(s: seq<T>, id: T -> int) {
    forall i, j :: 0 <= i < j < |s| ==> id(s[i]) != id(s[j])
  }

  /** Appending a row keyed by `NextId` keeps a primary key unique. */
  lemma AppendFreshKeepsUnique<T>(s: seq<T>, x: T, id: T -> int)
    requires UniqueBy(s, id)
    requires id(x) == NextId(s, id)
    ensures UniqueBy(s + [x], id)
  {
  }

  /** The first match in a table with one more row appended is the first
      match among the old rows, if there is one, and otherwise the new row
      when it matches. */
  lemma FindAppend<T>(s: seq<T>, x: T, p: T -> bool)
    ensures Find(s + [x], p) == (if Find(s, p).Some? then Find(s, p) else if p(x) then Some(x) else None)
  {
    FindIndexAppend(s, x, p);
    match FindIndex(s, p)
    case None =>
    case Some(k) => assert (s + [x])[k] == s[k];
  }

  /** Filtering a table keeps its primary key unique. */
  lemma {:induction false} FilterKeepsUnique<T>(s: seq<T>, keep: T -> bool, id: T -> int)
    requires UniqueBy(s, id)
    ensures UniqueBy(Filter(s, keep), id)
    decreases |s|
  {
    if |s| > 0 {
      var t := s[1..];
      UniqueTail(s, id);
      FilterKeepsUnique(t, keep, id);
      if keep(s[0]) {
        assert Filter(s, keep) == [s[0]] + Filter(t, keep);
        UniqueCons(s[0], Filter(t, keep), t, id);
      }
    }
  }

  /** Dropping the first row keeps keys unique. */
  lemma UniqueTail<T>(s: seq<T>, id: T -> int)
    requires |s| > 0 && UniqueBy(s, id)
    ensures UniqueBy(s[1..], id)
    ensures forall m :: 0 <= m < |s[1..]| ==> id(s[1..][m]) != id(s[0])
  {
    var t := s[1..];
    forall i, j | 0 <= i < j < |t| ensures id(t[i]) != id(t[j]) {
      assert t[i] == s[i + 1] && t[j] == s[j + 1];
    }
    forall m | 0 <= m < |t| ensures id(t[m]) != id(s[0]) {
      assert t[m] == s[m + 1];
    }
  }

  /** A row whose key no row of `t` has can go in front of rows drawn from
      `t` with unique keys. */
  lemma UniqueCons<T>(h: T, rest: seq<T>, t: seq<T>, id: T -> int)
    requires UniqueBy(rest, id)
    requires forall k :: 0 <= k < |rest| ==> rest[k] in t
    requires forall m :: 0 <= m < |t| ==> id(t[m]) != id(h)
    ensures UniqueBy([h] + rest, id)
  {
    var r := [h] + rest;
    forall i, j | 0 <= i < j < |r| ensures id(r[i]) != id(r[j]) {
      assert r[j] == rest[j - 1];
      if i == 0 {
        var m :| 0 <= m < |t| && t[m] == rest[j - 1];
      } else {
        assert r[i] == rest[i - 1];
      }
    }
  }

  /** Applies a fallible lookup to every element; fails as a whole when any
      single lookup fails (the route dereferences a missing row and crashes). */
  function MapAll<A, B>(s: seq<A>, f: A -> Option<B>): (r: Option<seq<B>>)
    ensures r.Some? <==> forall i :: 0 <= i < |s| ==> f(s[i]).Some?
    ensures r.Some? ==> |r.value| == |s|
    ensures r.Some? ==> forall i :: 0 <= i < |s| ==> r.value[i] == f(s[i]).value
    decreases |s|
  {
    if |s| == 0 then Some([])
    else
      match f(s[0])
      case None => None
      case Some(b) =>
        match MapAll(s[1..], f)
        case None => None
        case Some(bs) => Some([b] + bs)
  }

  /** `s` is ordered by `key`, largest first (`ORDER BY key DESC`). */
  predicate SortedDescBy<T>(s: seq<T>, key: T -> int) {
    forall i, j :: 0 <= i < j < |s| ==> key(s[i]) >= key(s[j])
  }

  /** Inserts `x` into a list ordered largest first, keeping it ordered. */
  function InsertDescBy<T>(x: T, s: seq<T>, key: T -> int): (r: seq<T>)
    requires SortedDescBy(s, key)
    ensures SortedDescBy(r, key)
    ensures multiset(r) == multiset(s) + multiset{x}
    ensures |r| == |s| + 1
    ensures forall j :: 0 <= j < |r| ==> r[j] == x || r[j] in s
    decreases |s|
  {
    if |s| == 0 then [x]
    else if key(x) >= key(s[0]) then [x] + s
    else
      var rest := InsertDescBy(x, s[1..], key);
      InsertBehindHead(x, s, rest, key);
      [s[0]] + rest
  }

  /** When `x` goes behind the head of `s`, keeping the head in front of the
      insertion into the tail gives the same facts as inserting into `s`. */
  lemma InsertBehindHead<T>(x: T, s: seq<T>, rest: seq<T>, key: T -> int)
    requires |s| > 0 && SortedDescBy(s, key) && key(x) < key(s[0])
    requires SortedDescBy(rest, key)
    requires multiset(rest) == multiset(s[1..]) + multiset{x}
    requires |rest| == |s[1..]| + 1
    requires forall j :: 0 <= j < |rest| ==> rest[j] == x || rest[j] in s[1..]
    ensures SortedDescBy([s[0]] + rest, key)
    ensures multiset([s[0]] + rest) == multiset(s) + multiset{x}
    ensures forall j :: 0 <= j < |[s[0]] + rest| ==> ([s[0]] + rest)[j] == x || ([s[0]] + rest)[j] in s
  {
    assert s == [s[0]] + s[1..];
    HeadBoundsRest(s[0], s[1..], x, rest, key);
    forall j | 0 <= j < |[s[0]] + rest| ensures ([s[0]] + rest)[j] == x || ([s[0]] + rest)[j] in s {
      if j > 0 {
        assert ([s[0]] + rest)[j] == rest[j - 1];
      }
    }
  }

  /** Putting `h` in front of `rest` keeps the order when `h` is at least every
      element `rest` was built from. */
  lemma HeadBoundsRest<T>(h: T, t: seq<T>, x: T, rest: seq<T>, key: T -> int)
    requires SortedDescBy([h] + t, key)
    requires SortedDescBy(rest, key)
    requires key(x) < key(h)
    requires forall j :: 0 <= j < |rest| ==> rest[j] == x || rest[j] in t
    ensures SortedDescBy([h] + rest, key)
  {
    forall j | 0 <= j < |rest| ensures key(rest[j]) <= key(h) {
      if rest[j] != x {
        var k :| 0 <= k < |t| && t[k] == rest[j];
        assert ([h] + t)[0] == h && ([h] + t)[k + 1] == t[k];
        assert key(([h] + t)[0]) >= key(([h] + t)[k + 1]);
      }
    }
    forall i, j | 0 <= i < j < |[h] + rest| ensures key(([h] + rest)[i]) >= key(([h] + rest)[j]) {
      if i > 0 {
        assert ([h] + rest)[i] == rest[i - 1];
      }
      assert ([h] + rest)[j] == rest[j - 1];
    }
  }

  /** Orders `s` largest key first; the result is a permutation of `s`. */
  function SortDescBy<T>(s: seq<T>, key: T -> int): (r: seq<T>)
    ensures SortedDescBy(r, key)
    ensures multiset(r) == multiset(s)
    ensures |r| == |s|
    decreases |s|
  {
    if |s| == 0 then []
    else
      assert s == [s[0]] + s[1..];
      InsertDescBy(s[0], SortDescBy(s[1..], key), key)
  }
}
