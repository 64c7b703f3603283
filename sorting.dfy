/** A stable insertion sort under a total preorder. It stands for the orderings
    the source asks for: SQL `ORDER BY` in the record store, and JavaScript's
    (stable) `Array.prototype.sort` in the statistics page. */
module Sorting {

  /** `le` is total and transitive: a total preorder. */
  ghost predicate TotalPreorder<T(!new)>(le: (T, T) -> bool) {
    && (forall a, b :: le(a, b) || le(b, a))
    && (forall a, b, c :: le(a, b) && le(b, c) ==> le(a, c))
  }

  predicate SortedBy<T>(s: seq<T>, le: (T, T) -> bool) {
    forall i, j | 0 <= i < j < |s| :: le(s[i], s[j])
  }

  /** Insert `x` after every element it does not strictly precede. */
  function Insert<T(!new)>(x: T, s: seq<T>, le: (T, T) -> bool): (r: seq<T>)
    requires TotalPreorder(le) && SortedBy(s, le)
    ensures SortedBy(r, le)
    ensures multiset(r) == multiset(s) + multiset{x}
    ensures |r| == |s| + 1
  {
    if s == [] then [x]
    else if !le(s[0], x) then
      assert forall j | 0 <= j < |s| :: le(x, s[j]) by {
        forall j | 0 <= j < |s| ensures le(x, s[j]) {
          assert le(s[0], x) || le(x, s[0]);
          if j > 0 { assert le(s[0], s[j]); }
        }
      }
      [x] + s
    else
      var rest := Insert(x, s[1..], le);
      assert multiset(s) == multiset{s[0]} + multiset(s[1..]) by {
        assert s == [s[0]] + s[1..];
      }
      assert forall j | 0 <= j < |rest| :: le(s[0], rest[j]) by {
        forall j | 0 <= j < |rest| ensures le(s[0], rest[j]) {
          assert rest[j] in multiset(rest);
          assert rest[j] == x || rest[j] in multiset(s[1..]);
          if rest[j] != x {
            var k :| 0 <= k < |s[1..]| && s[1..][k] == rest[j];
            assert s[1..][k] == s[k + 1];
          }
        }
      }
      [s[0]] + rest
  }

  /** Sort by inserting the elements in input order, so equal elements keep their
      input order. */
  function Sort<T(!new)>(s: seq<T>, le: (T, T) -> bool): (r: seq<T>)
    requires TotalPreorder(le)
    ensures SortedBy(r, le)
    ensures multiset(r) == multiset(s)
    ensures |r| == |s|
  {
    if s == [] then []
    else
      assert s == s[..|s| - 1] + [s[|s| - 1]];
      Insert(s[|s| - 1], Sort(s[..|s| - 1], le), le)
  }

  /** Each element strictly precedes every later one. */
  predicate StrictlySortedBy<T>(s: seq<T>, le: (T, T) -> bool) {
    forall i, j | 0 <= i < j < |s| :: le(s[i], s[j]) && !le(s[j], s[i])
  }

  predicate NoDuplicates<T(==)>(s: seq<T>) {
    forall i, j | 0 <= i < j < |s| :: s[i] != s[j]
  }

  /** Without duplicates, every element occurs once. */
  lemma {:induction false} NoDuplicatesCount<T>(s: seq<T>, x: T)
    requires NoDuplicates(s)
    ensures multiset(s)[x] == if x in s then 1 else 0
  {
    if s != [] {
      assert s == [s[0]] + s[1..];
      assert NoDuplicates(s[1..]) by {
        forall i, j | 0 <= i < j < |s[1..]| ensures s[1..][i] != s[1..][j] {
          assert s[1..][i] == s[i + 1] && s[1..][j] == s[j + 1];
        }
      }
      NoDuplicatesCount(s[1..], x);
      if x == s[0] {
        assert x !in s[1..];
      }
    }
  }

  /** Reordering keeps a sequence free of duplicates. */
  lemma NoDuplicatesPermutation<T>(s: seq<T>, t: seq<T>)
    requires NoDuplicates(s) && multiset(s) == multiset(t)
    ensures NoDuplicates(t)
  {
    forall i, j | 0 <= i < j < |t| ensures t[i] != t[j] {
      if t[i] == t[j] {
        assert t == t[..j] + t[j..];
        assert t[i] in t[..j] && t[j] in t[j..];
        assert multiset(t)[t[i]] == multiset(t[..j])[t[i]] + multiset(t[j..])[t[i]];
        NoDuplicatesCount(s, t[i]);
        assert false;
      }
    }
  }

  /** Two duplicate-free sequences with the same elements are permutations of
      each other. */
  lemma SameElementsSameMultiset<T>(a: seq<T>, b: seq<T>)
    requires NoDuplicates(a) && NoDuplicates(b)
    requires forall x :: x in a <==> x in b
    ensures multiset(a) == multiset(b)
  {
    forall x ensures multiset(a)[x] == multiset(b)[x] {
      NoDuplicatesCount(a, x);
      NoDuplicatesCount(b, x);
    }
  }

  lemma StrictNoDuplicates<T>(s: seq<T>, le: (T, T) -> bool)
    requires StrictlySortedBy(s, le)
    ensures NoDuplicates(s)
  {
    forall i, j | 0 <= i < j < |s| ensures s[i] != s[j] {
      assert le(s[i], s[j]) && !le(s[j], s[i]);
    }
  }

  /** Two strictly sorted sequences with the same elements are equal: the
      sorted output is determined by its elements. */
  lemma {:induction false} StrictlySortedUnique<T>(a: seq<T>, b: seq<T>, le: (T, T) -> bool)
    requires StrictlySortedBy(a, le) && StrictlySortedBy(b, le)
    requires multiset(a) == multiset(b)
    ensures a == b
  {
    if a != [] {
      assert |a| == |multiset(a)| == |multiset(b)| == |b|;
      assert a[0] in multiset(b);
      var i :| 0 <= i < |b| && b[i] == a[0];
      assert b[0] in multiset(a);
      var j :| 0 <= j < |a| && a[j] == b[0];
      assert i == 0 by {
        if i != 0 {
          assert false;
        }
      }
      assert a == [a[0]] + a[1..] && b == [b[0]] + b[1..];
      assert multiset(a[1..]) == multiset(a) - multiset{a[0]};
      assert multiset(b[1..]) == multiset(b) - multiset{b[0]};
      StrictlySortedUnique(a[1..], b[1..], le);
    }
  }

  /** Appending an element not yet present keeps a sequence free of duplicates. */
  lemma NoDuplicatesAppend<T>(s: seq<T>, x: T)
    requires NoDuplicates(s) && x !in s
    ensures NoDuplicates(s + [x])
  {
    forall i, j | 0 <= i < j < |s + [x]| ensures (s + [x])[i] != (s + [x])[j] {
      assert (s + [x])[i] == s[i];
      if j < |s| { assert (s + [x])[j] == s[j]; }
    }
  }

  /** A slice of a sorted sequence is sorted and holds some of its elements. */
  lemma SliceSorted<T>(s: seq<T>, i: nat, j: nat, le: (T, T) -> bool)
    requires SortedBy(s, le) && i <= j <= |s|
    ensures SortedBy(s[i..j], le)
    ensures multiset(s[i..j]) <= multiset(s)
  {
    forall a, b | 0 <= a < b < j - i ensures le(s[i..j][a], s[i..j][b]) {
      assert s[i..j][a] == s[i + a] && s[i..j][b] == s[i + b];
    }
    assert s == s[..i] + s[i..j] + s[j..];
  }

  /** In a sorted sequence, whatever lies outside a suffix comes no later than
      anything in it. */
  lemma SuffixFollows<T>(s: seq<T>, k: nat, le: (T, T) -> bool)
    requires SortedBy(s, le) && k <= |s|
    ensures forall b, c | b in s && b !in s[k..] && c in s[k..] :: le(b, c)
  {
    forall b, c | b in s && b !in s[k..] && c in s[k..] ensures le(b, c) {
      var j :| 0 <= j < |s| && s[j] == b;
      var i :| 0 <= i < |s[k..]| && s[k..][i] == c;
      forall m | k <= m < |s| ensures s[m] != b {
        assert s[k..][m - k] == s[m];
      }
      assert s[k + i] == c;
    }
  }

  /** In a sorted sequence, anything in a prefix comes no later than whatever
      lies outside it. */
  lemma PrefixLeads<T>(s: seq<T>, k: nat, le: (T, T) -> bool)
    requires SortedBy(s, le) && k <= |s|
    ensures forall b, c | b in s && b !in s[..k] && c in s[..k] :: le(c, b)
  {
    forall b, c | b in s && b !in s[..k] && c in s[..k] ensures le(c, b) {
      var j :| 0 <= j < |s| && s[j] == b;
      var i :| 0 <= i < |s[..k]| && s[..k][i] == c;
      forall m | 0 <= m < k ensures s[m] != b {
        assert s[..k][m] == s[m];
      }
      assert s[i] == c;
    }
  }
}
