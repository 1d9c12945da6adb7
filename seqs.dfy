/** Generic operations on the rows of a table. A table is the sequence of its rows in the
    order they were inserted; a `key` is a named projection of a row (its id, a timestamp). */
module Seqs {
  import opened Wrappers

  /** The keys of the rows of `s`. */
  function Keys<T(==,!new)>(s: seq<T>, key: T -> int): set<int>
  {
    set x | x in s :: key(x)
  }

  /** Keys grow strictly along the table: true of serial ids, and of timestamps taken from a
      clock that moves on at every insert. */
  ghost predicate Increasing<T(!new)>(s: seq<T>, key: T -> int)
  {
    forall i, j :: 0 <= i < j < |s| ==> key(s[i]) < key(s[j])
  }

  /** Ordered by key, largest first, ties allowed (ORDER BY key DESC). */
  ghost predicate Descending<T(!new)>(s: seq<T>, key: T -> int)
  {
    forall i, j :: 0 <= i < j < |s| ==> key(s[i]) >= key(s[j])
  }

  /** Ordered by key, largest first, with no two rows sharing a key. */
  ghost predicate StrictlyDescending<T(!new)>(s: seq<T>, key: T -> int)
  {
    forall i, j :: 0 <= i < j < |s| ==> key(s[i]) > key(s[j])
  }

  /** In a table whose keys increase, a key names at most one row. */
  lemma IncreasingUnique<T(!new)>(s: seq<T>, key: T -> int, x: T, y: T)
    requires Increasing(s, key) && x in s && y in s && key(x) == key(y)
    ensures x == y
  {
    var i :| 0 <= i < |s| && s[i] == x;
    var j :| 0 <= j < |s| && s[j] == y;
    assert !(i < j) && !(j < i);
  }

  /** Appending a row whose key exceeds every key present keeps the keys increasing. */
  lemma AppendKeys<T(!new)>(s: seq<T>, key: T -> int, x: T)
    requires Increasing(s, key)
    requires forall y :: y in s ==> key(y) < key(x)
    ensures Increasing(s + [x], key)
    ensures Keys(s + [x], key) == Keys(s, key) + {key(x)}
  {
    var t := s + [x];
    forall i, j | 0 <= i < j < |t| ensures key(t[i]) < key(t[j]) {
      if j < |s| {
        assert t[i] == s[i] && t[j] == s[j];
      } else {
        assert t[i] in s;
      }
    }
    forall k | k in Keys(t, key) ensures k in Keys(s, key) + {key(x)} {
      var y :| y in t && key(y) == k;
      if y != x { assert y in s; }
    }
  }

  /** Two tables whose rows carry the same keys, position by position, have the same key set
      and are increasing together. */
  lemma SameKeys<T(!new)>(a: seq<T>, b: seq<T>, key: T -> int)
    requires |a| == |b|
    requires forall i :: 0 <= i < |a| ==> key(a[i]) == key(b[i])
    ensures Keys(a, key) == Keys(b, key)
    ensures Increasing(a, key) ==> Increasing(b, key)
  {
    forall k | k in Keys(a, key) ensures k in Keys(b, key) {
      var x :| x in a && key(x) == k;
      var i :| 0 <= i < |a| && a[i] == x;
      assert b[i] in b;
    }
    forall k | k in Keys(b, key) ensures k in Keys(a, key) {
      var x :| x in b && key(x) == k;
      var i :| 0 <= i < |b| && b[i] == x;
      assert a[i] in a;
    }
  }

  /** The rows of `s` that satisfy `p`, in their original order (a WHERE clause). */
  function Where<T(!new)>(s: seq<T>, p: T -> bool): (r: seq<T>)
    ensures |r| <= |s|
    ensures forall x :: x in r <==> x in s && p(x)
  {
    if s == [] then []
    else if p(s[0]) then [s[0]] + Where(s[1..], p)
    else Where(s[1..], p)
  }

  /** Filtering keeps the relative order of the rows it keeps. */
  lemma {:induction false} WhereKeepsIncreasing<T(!new)>(s: seq<T>, p: T -> bool, key: T -> int)
    ensures Increasing(s, key) ==> Increasing(Where(s, p), key)
  {
    if s != [] && Increasing(s, key) {
      var tail := s[1..];
      assert Increasing(tail, key) by {
        forall i, j | 0 <= i < j < |tail| ensures key(tail[i]) < key(tail[j]) {
          assert tail[i] == s[i + 1] && tail[j] == s[j + 1];
        }
      }
      WhereKeepsIncreasing(tail, p, key);
      var rest := Where(tail, p);
      if p(s[0]) {
        forall y | y in rest ensures key(s[0]) < key(y) {
          var k :| 0 <= k < |tail| && tail[k] == y;
          assert s[k + 1] == y;
        }
        var r := [s[0]] + rest;
        forall i, j | 0 <= i < j < |r| ensures key(r[i]) < key(r[j]) {
          if i == 0 {
            assert r[j] in rest;
          } else {
            assert r[i] == rest[i - 1] && r[j] == rest[j - 1];
          }
        }
      }
    }
  }

  /** A filter that every row passes removes nothing. */
  lemma {:induction false} WhereKeepsAll<T(!new)>(s: seq<T>, p: T -> bool)
    ensures (forall x :: x in s ==> p(x)) ==> Where(s, p) == s
  {
    if s != [] && (forall x :: x in s ==> p(x)) {
      assert s[0] in s;
      assert forall x :: x in s[1..] ==> x in s;
      WhereKeepsAll(s[1..], p);
      assert [s[0]] + s[1..] == s;
    }
  }

  /** The first row with key `k`, or None when no row has it (a SELECT by primary key followed
      by "no rows means null"). */
  function Lookup<T(!new)>(s: seq<T>, key: T -> int, k: int): (r: Option<T>)
    ensures r.Some? <==> k in Keys(s, key)
    ensures r.Some? ==> r.value in s && key(r.value) == k
  {
    var rows := Where(s, x => key(x) == k);
    if |rows| == 0 then
      None
    else
      assert rows[0] in rows;
      Some(rows[0])
  }

  /** In a table with increasing keys, looking up a row's key finds that very row. */
  lemma LookupFinds<T(!new)>(s: seq<T>, key: T -> int, x: T)
    requires Increasing(s, key) && x in s
    ensures Lookup(s, key, key(x)) == Some(x)
  {
    var r := Lookup(s, key, key(x));
    assert key(x) in Keys(s, key);
    IncreasingUnique(s, key, r.value, x);
  }

  /** Every row with the key of `x` replaced by `x`, in place (an UPDATE by key). */
  function Replace<T(!new)>(s: seq<T>, key: T -> int, x: T): (r: seq<T>)
    ensures |r| == |s|
    ensures forall i :: 0 <= i < |s| ==> key(r[i]) == key(s[i])
    ensures forall i :: 0 <= i < |s| && key(s[i]) != key(x) ==> r[i] == s[i]
    ensures forall i :: 0 <= i < |s| && key(s[i]) == key(x) ==> r[i] == x
    ensures forall y :: y in r ==> y == x || (y in s && key(y) != key(x))
  {
    var r := seq(|s|, i requires 0 <= i < |s| => if key(s[i]) == key(x) then x else s[i]);
    assert forall y :: y in r ==> y == x || (y in s && key(y) != key(x)) by {
      forall y | y in r ensures y == x || (y in s && key(y) != key(x)) {
        var i :| 0 <= i < |r| && r[i] == y;
      }
    }
    r
  }

  /** Dropping the first row keeps the order, and every other row's key is at most the first's. */
  lemma DescendingTail<T(!new)>(s: seq<T>, key: T -> int)
    requires Descending(s, key) && s != []
    ensures Descending(s[1..], key)
    ensures forall z :: z in s[1..] ==> key(z) <= key(s[0])
  {
    var tail := s[1..];
    forall i, j | 0 <= i < j < |tail| ensures key(tail[i]) >= key(tail[j]) {
      assert tail[i] == s[i + 1] && tail[j] == s[j + 1];
    }
    forall z | z in tail ensures key(z) <= key(s[0]) {
      var k :| 0 <= k < |tail| && tail[k] == z;
      assert s[k + 1] == z;
    }
  }

  /** Dropping the first row keeps the keys increasing, and every other row's key exceeds the first's. */
  lemma IncreasingTail<T(!new)>(s: seq<T>, key: T -> int)
    requires Increasing(s, key) && s != []
    ensures Increasing(s[1..], key)
    ensures forall z :: z in s[1..] ==> key(s[0]) < key(z)
  {
    var tail := s[1..];
    forall i, j | 0 <= i < j < |tail| ensures key(tail[i]) < key(tail[j]) {
      assert tail[i] == s[i + 1] && tail[j] == s[j + 1];
    }
    forall z | z in tail ensures key(s[0]) < key(z) {
      var k :| 0 <= k < |tail| && tail[k] == z;
      assert s[k + 1] == z;
    }
  }

  /** A row whose key is at least every key of a descending sequence can go in front of it. */
  lemma DescendingCons<T(!new)>(y: T, s: seq<T>, key: T -> int)
    requires Descending(s, key)
    requires forall z :: z in s ==> key(z) <= key(y)
    ensures Descending([y] + s, key)
  {
    var r := [y] + s;
    forall i, j | 0 <= i < j < |r| ensures key(r[i]) >= key(r[j]) {
      assert r[j] == s[j - 1] && r[j] in s;
      assert i == 0 || r[i] == s[i - 1];
    }
  }

  /** `x` placed into a sequence before the first row whose key does not exceed its own. */
  function Insert<T(!new)>(x: T, s: seq<T>, key: T -> int): seq<T>
  {
    if s == [] then [x]
    else if key(x) >= key(s[0]) then [x] + s
    else [s[0]] + Insert(x, s[1..], key)
  }

  /** Inserting into a descending sequence adds exactly `x` and keeps it descending. */
  lemma {:induction false} InsertPlaces<T(!new)>(x: T, s: seq<T>, key: T -> int)
    requires Descending(s, key)
    ensures multiset(Insert(x, s, key)) == multiset(s) + multiset{x}
    ensures Descending(Insert(x, s, key), key)
  {
    if s == [] {
    } else if key(x) >= key(s[0]) {
      DescendingTail(s, key);
      assert s == [s[0]] + s[1..];
      DescendingCons(x, s, key);
    } else {
      DescendingTail(s, key);
      InsertPlaces(x, s[1..], key);
      var rest := Insert(x, s[1..], key);
      forall z | z in rest ensures key(z) <= key(s[0]) {
        assert z in multiset(rest);
        assert z == x || z in multiset(s[1..]);
      }
      DescendingCons(s[0], rest, key);
      assert s == [s[0]] + s[1..];
    }
  }

  /** The rows of `s` ordered by key, largest first (insertion sort). */
  function SortDesc<T(!new)>(s: seq<T>, key: T -> int): seq<T>
  {
    if s == [] then [] else Insert(s[0], SortDesc(s[1..], key), key)
  }

  /** Sorting keeps exactly the rows it was given and orders them largest key first. */
  lemma {:induction false} SortDescSorts<T(!new)>(s: seq<T>, key: T -> int)
    ensures multiset(SortDesc(s, key)) == multiset(s)
    ensures Descending(SortDesc(s, key), key)
  {
    if s != [] {
      SortDescSorts(s[1..], key);
      InsertPlaces(s[0], SortDesc(s[1..], key), key);
      assert s == [s[0]] + s[1..];
    }
  }

  /** `s` back to front. */
  function Reverse<T(!new)>(s: seq<T>): (r: seq<T>)
    ensures |r| == |s|
    ensures forall i :: 0 <= i < |s| ==> r[i] == s[|s| - 1 - i]
  {
    seq(|s|, i requires 0 <= i < |s| => s[|s| - 1 - i])
  }

  /** A row whose key is below every key of a sequence goes to its end. */
  lemma {:induction false} InsertSmallest<T(!new)>(x: T, s: seq<T>, key: T -> int)
    requires forall y :: y in s ==> key(x) < key(y)
    ensures Insert(x, s, key) == s + [x]
  {
    if s != [] {
      assert s[0] in s;
      assert forall y :: y in s[1..] ==> y in s;
      InsertSmallest(x, s[1..], key);
      assert [s[0]] + (s[1..] + [x]) == s + [x];
    }
  }

  /** Reversing a sequence puts its first row last. */
  lemma ReverseCons<T(!new)>(s: seq<T>)
    requires s != []
    ensures Reverse(s[1..]) + [s[0]] == Reverse(s)
  {
    var a, b := Reverse(s[1..]) + [s[0]], Reverse(s);
    forall i | 0 <= i < |a| ensures a[i] == b[i] {
      if i < |s| - 1 {
        assert a[i] == s[1..][|s| - 2 - i];
      }
    }
  }

  /** Backwards, increasing keys strictly decrease. */
  lemma ReverseIncreasing<T(!new)>(s: seq<T>, key: T -> int)
    requires Increasing(s, key)
    ensures StrictlyDescending(Reverse(s), key)
  {
    var r := Reverse(s);
    forall i, j | 0 <= i < j < |r| ensures key(r[i]) > key(r[j]) {
      assert r[i] == s[|s| - 1 - i] && r[j] == s[|s| - 1 - j];
    }
  }

  /** Sorting a table whose keys increase yields it newest first: the table reversed, with
      every key strictly below the one before it. */
  lemma {:induction false} SortIncreasing<T(!new)>(s: seq<T>, key: T -> int)
    requires Increasing(s, key)
    ensures SortDesc(s, key) == Reverse(s)
    ensures StrictlyDescending(SortDesc(s, key), key)
  {
    if s != [] {
      var tail := s[1..];
      IncreasingTail(s, key);
      SortIncreasing(tail, key);
      var sorted := SortDesc(tail, key);
      assert forall y :: y in sorted ==> key(s[0]) < key(y) by {
        forall y | y in sorted ensures key(s[0]) < key(y) {
          var k :| 0 <= k < |sorted| && sorted[k] == y;
          assert y == tail[|tail| - 1 - k];
        }
      }
      InsertSmallest(s[0], sorted, key);
      ReverseCons(s);
    }
    ReverseIncreasing(s, key);
  }

  /** Dropping the first row of a strictly descending sequence keeps it strictly descending,
      and every other row's key lies below the first's. */
  lemma StrictlyDescendingTail<T(!new)>(s: seq<T>, key: T -> int)
    requires StrictlyDescending(s, key) && s != []
    ensures StrictlyDescending(s[1..], key)
    ensures forall z :: z in s[1..] ==> key(z) < key(s[0])
    ensures forall z :: z in s && z != s[0] ==> z in s[1..]
  {
    var tail := s[1..];
    forall i, j | 0 <= i < j < |tail| ensures key(tail[i]) > key(tail[j]) {
      assert tail[i] == s[i + 1] && tail[j] == s[j + 1];
    }
    forall z | z in tail ensures key(z) < key(s[0]) {
      var k :| 0 <= k < |tail| && tail[k] == z;
      assert s[k + 1] == z;
    }
    assert s == [s[0]] + tail;
  }

  /** Two strictly descending sequences of the same rows are equal: the order a strict
      ORDER BY produces does not depend on how it is computed. */
  lemma {:induction false} StrictlyDescendingUnique<T(!new)>(a: seq<T>, b: seq<T>, key: T -> int)
    requires StrictlyDescending(a, key) && StrictlyDescending(b, key)
    requires forall x :: x in a <==> x in b
    ensures a == b
  {
    assert |b| == 0 || b[0] in a;
    if a != [] {
      assert a[0] in a;
      assert b != [];
      assert b[0] in b;
      var i :| 0 <= i < |b| && b[i] == a[0];
      var j :| 0 <= j < |a| && a[j] == b[0];
      assert key(b[0]) >= key(b[i]) && key(a[0]) >= key(a[j]);
      assert i == 0;
      StrictlyDescendingTail(a, key);
      StrictlyDescendingTail(b, key);
      var a', b' := a[1..], b[1..];
      forall x ensures x in a' <==> x in b' {
        if x in a' {
          assert x in b && x != b[0];
        }
        if x in b' {
          assert x in a && x != a[0];
        }
      }
      StrictlyDescendingUnique(a', b', key);
      assert a == [a[0]] + a' && b == [b[0]] + b';
    }
  }

  /** At most `k` rows from the front (LIMIT k). */
  function Take<T(!new)>(s: seq<T>, k: nat): seq<T>
  {
    if k <= |s| then s[..k] else s
  }

  /** All but the first `j` rows (OFFSET j). */
  function Skip<T(!new)>(s: seq<T>, j: nat): seq<T>
  {
    if j <= |s| then s[j..] else []
  }

  /** The start of a page: the offset, or 0 when none is given. */
  function PageStart(offset: Option<nat>): nat
  {
    if offset.Some? then offset.value else 0
  }

  /** The number of rows on a page of `n` rows: what remains after the offset, capped by the limit. */
  function PageLength(n: nat, limit: Option<nat>, offset: Option<nat>): nat
  {
    var room := if PageStart(offset) <= n then n - PageStart(offset) else 0;
    if limit.Some? && limit.value < room then limit.value else room
  }

  /** LIMIT and OFFSET as the message query chooses them: both, one of them, or neither. */
  function Paginate<T(!new)>(s: seq<T>, limit: Option<nat>, offset: Option<nat>): (r: seq<T>)
    ensures |r| == PageLength(|s|, limit, offset)
    ensures forall i :: 0 <= i < |r| ==> PageStart(offset) + i < |s| && r[i] == s[PageStart(offset) + i]
    ensures forall x :: x in r ==> x in s
  {
    if limit.Some? && offset.Some? then Take(Skip(s, offset.value), limit.value)
    else if limit.Some? then Take(s, limit.value)
    else if offset.Some? then Skip(s, offset.value)
    else s
  }

  /** A slice of a descending sequence is descending. */
  lemma DescendingSlice<T(!new)>(s: seq<T>, a: nat, b: nat, key: T -> int)
    requires Descending(s, key) && a <= b <= |s|
    ensures Descending(s[a..b], key)
  {
    var r := s[a..b];
    forall i, k | 0 <= i < k < |r| ensures key(r[i]) >= key(r[k]) {
      assert r[i] == s[a + i] && r[k] == s[a + k];
    }
  }

  /** A page of a descending sequence is descending. */
  lemma {:induction false} PaginateKeepsDescending<T(!new)>(s: seq<T>, limit: Option<nat>, offset: Option<nat>, key: T -> int)
    requires Descending(s, key)
    ensures Descending(Paginate(s, limit, offset), key)
  {
    var r := Paginate(s, limit, offset);
    var j := PageStart(offset);
    if j <= |s| {
      assert r == s[j..j + |r|];
      DescendingSlice(s, j, j + |r|, key);
    }
  }
}
