/** The collection helpers of lib/utils.ts: `unique` (a spread of a `Set`) and
    `groupBy` (a reduce that pushes into a dictionary of arrays). */
module Utils {
  import Sorting

  /** `[...new Set(s)]`: each element once, in first-occurrence order. */
  function Unique<T(==,!new)>(s: seq<T>): (r: seq<T>)
    ensures Sorting.NoDuplicates(r)
    ensures forall x :: x in r <==> x in s
    ensures |r| <= |s|
  {
    if s == [] then []
    else
      var u := Unique(s[..|s| - 1]);
      assert forall x :: x in s <==> x in s[..|s| - 1] || x == s[|s| - 1] by {
        assert s == s[..|s| - 1] + [s[|s| - 1]];
      }
      if s[|s| - 1] in u then u else u + [s[|s| - 1]]
  }

  /** The index of the first occurrence of `x`. */
  function FirstIndex<T(==)>(s: seq<T>, x: T): (i: nat)
    requires x in s
    ensures i < |s| && s[i] == x && x !in s[..i]
  {
    if s[0] == x then 0 else 1 + FirstIndex(s[1..], x)
  }

  /** A prefix's first occurrences are the whole sequence's. */
  lemma {:induction false} FirstIndexPrefix<T>(s: seq<T>, n: nat, x: T)
    requires n <= |s| && x in s[..n]
    ensures FirstIndex(s[..n], x) == FirstIndex(s, x)
  {
    var i := FirstIndex(s, x);
    var j := FirstIndex(s[..n], x);
    assert s[j] == s[..n][j] == x;
    forall k | 0 <= k < i ensures s[k] != x {
      assert s[..i][k] == s[k];
    }
    forall k | 0 <= k < j ensures s[k] != x {
      assert s[..n][..j][k] == s[k];
    }
  }

  /** `unique` keeps first-occurrence order: earlier in the output means
      seen earlier in the input. */
  lemma {:induction false} UniqueOrder<T(!new)>(s: seq<T>)
    ensures FirstSeenOrder(s, Unique(s))
  {
    if s != [] {
      var init := s[..|s| - 1];
      UniqueOrder(init);
      UniqueOrderStep(s, init);
    }
  }

  /** Earlier in `u` means first seen earlier in `s`. */
  predicate FirstSeenOrder<T(==)>(s: seq<T>, u: seq<T>)
    requires forall x | x in u :: x in s
  {
    forall i, j | 0 <= i < j < |u| :: FirstIndex(s, u[i]) < FirstIndex(s, u[j])
  }

  /** The order of `unique` carries over from all but the last item to all. */
  lemma UniqueOrderStep<T(!new)>(s: seq<T>, init: seq<T>)
    requires s != [] && init == s[..|s| - 1] && FirstSeenOrder(init, Unique(init))
    ensures FirstSeenOrder(s, Unique(s))
  {
    var last := s[|s| - 1];
    var u := Unique(init);
    forall x | x in u ensures FirstIndex(s, x) == FirstIndex(init, x) < |s| - 1 {
      FirstIndexPrefix(s, |s| - 1, x);
    }
    var r := Unique(s);
    if last in u {
      assert r == u;
    } else {
      assert r == u + [last];
      assert last !in init;
      assert FirstIndex(s, last) == |s| - 1;
      forall i, j | 0 <= i < j < |r| ensures FirstIndex(s, r[i]) < FirstIndex(s, r[j]) {
        assert r[i] == u[i] && u[i] in u;
        if j < |u| {
          assert r[j] == u[j] && u[j] in u;
        }
      }
    }
  }

  /** One more item: `unique` grows by it exactly when it is new. */
  lemma UniqueSnoc<T(!new)>(s: seq<T>, x: T)
    ensures Unique(s + [x]) == if x in Unique(s) then Unique(s) else Unique(s) + [x]
  {
    assert (s + [x])[..|s|] == s;
  }

  /** A sequence without duplicates is its own `unique`. */
  lemma {:induction false} UniqueOfDistinct<T(!new)>(s: seq<T>)
    requires Sorting.NoDuplicates(s)
    ensures Unique(s) == s
  {
    if s != [] {
      var init := s[..|s| - 1];
      assert Sorting.NoDuplicates(init) by {
        forall i, j | 0 <= i < j < |init| ensures init[i] != init[j] {
          assert init[i] == s[i] && init[j] == s[j];
        }
      }
      UniqueOfDistinct(init);
      assert s[|s| - 1] !in init by {
        forall k | 0 <= k < |init| ensures init[k] != s[|s| - 1] {
          assert init[k] == s[k];
        }
      }
      assert s == init + [s[|s| - 1]];
    }
  }

  /** `unique` is idempotent. */
  lemma UniqueIdempotent<T(!new)>(s: seq<T>)
    ensures Unique(Unique(s)) == Unique(s)
  {
    UniqueOfDistinct(Unique(s));
  }

  // ----- groupBy -----

  /** The items whose key is `k`, in input order. */
  function Select<T>(s: seq<T>, keyOf: T -> string, k: string): (r: seq<T>)
    ensures |r| <= |s|
  {
    if s == [] then []
    else Select(s[..|s| - 1], keyOf, k) + (if keyOf(s[|s| - 1]) == k then [s[|s| - 1]] else [])
  }

  /** The selection holds items of the input with that key and no others. */
  lemma {:induction false} SelectMembers<T>(s: seq<T>, keyOf: T -> string, k: string)
    ensures forall x | x in Select(s, keyOf, k) :: x in s && keyOf(x) == k
  {
    if s != [] {
      var init := s[..|s| - 1];
      SelectMembers(init, keyOf, k);
      assert s == init + [s[|s| - 1]];
    }
  }

  /** Every item is in the selection of its own key. */
  lemma {:induction false} SelectContains<T>(s: seq<T>, keyOf: T -> string, i: nat)
    requires i < |s|
    ensures s[i] in Select(s, keyOf, keyOf(s[i]))
  {
    if i < |s| - 1 {
      SelectContains(s[..|s| - 1], keyOf, i);
    }
  }

  /** Selection keeps input order: the selection from a prefix is a prefix of
      the selection. */
  lemma {:induction false} SelectPrefix<T>(s: seq<T>, keyOf: T -> string, k: string, n: nat)
    requires n <= |s|
    ensures Select(s[..n], keyOf, k) <= Select(s, keyOf, k)
    decreases |s|
  {
    if n < |s| {
      SelectPrefix(s[..|s| - 1], keyOf, k, n);
      assert s[..|s| - 1][..n] == s[..n];
    } else {
      assert s[..n] == s;
    }
  }

  /** Some item has key `k`. */
  predicate HasKey<T>(s: seq<T>, keyOf: T -> string, k: string) {
    exists i | 0 <= i < |s| :: keyOf(s[i]) == k
  }

  lemma {:induction false} SelectNonEmpty<T>(s: seq<T>, keyOf: T -> string, k: string)
    ensures Select(s, keyOf, k) != [] <==> HasKey(s, keyOf, k)
  {
    if s != [] {
      var init := s[..|s| - 1];
      SelectNonEmpty(init, keyOf, k);
      if HasKey(s, keyOf, k) && keyOf(s[|s| - 1]) != k {
        var i :| 0 <= i < |s| && keyOf(s[i]) == k;
        assert init[i] == s[i];
      }
      if HasKey(init, keyOf, k) {
        var i :| 0 <= i < |init| && keyOf(init[i]) == k;
        assert s[i] == init[i];
      }
    }
  }

  /** One more item adds its own key and no other. */
  lemma HasKeyStep<T>(s: seq<T>, x: T, keyOf: T -> string)
    ensures forall k :: HasKey(s + [x], keyOf, k) <==> HasKey(s, keyOf, k) || k == keyOf(x)
  {
    var t := s + [x];
    forall k ensures HasKey(t, keyOf, k) <==> HasKey(s, keyOf, k) || k == keyOf(x) {
      if HasKey(s, keyOf, k) {
        var i :| 0 <= i < |s| && keyOf(s[i]) == k;
        assert t[i] == s[i];
      }
      if HasKey(t, keyOf, k) && keyOf(x) != k {
        var i :| 0 <= i < |t| && keyOf(t[i]) == k;
        assert s[i] == t[i];
      }
      if k == keyOf(x) {
        assert t[|s|] == x;
      }
    }
  }

  /** `groupBy(arr, key)`, with `keyOf` standing for `String(item[key])`:
      one group per key that occurs, holding exactly the items with that key
      in input order, and never an empty group. */
  method GroupBy<T>(arr: seq<T>, keyOf: T -> string) returns (groups: map<string, seq<T>>)
    ensures forall k :: k in groups <==> HasKey(arr, keyOf, k)
    ensures forall k | k in groups :: groups[k] == Select(arr, keyOf, k)
    ensures forall k | k in groups :: groups[k] != []
  {
    groups := map[];
    var i := 0;
    while i < |arr|
      invariant 0 <= i <= |arr|
      invariant Grouped(groups, arr[..i], keyOf)
    {
      groups := Push(groups, arr[i], keyOf, arr[..i]);
      assert arr[..i + 1] == arr[..i] + [arr[i]];
      i := i + 1;
    }
    assert arr[..i] == arr;
    forall k | k in groups ensures groups[k] != [] {
      SelectNonEmpty(arr, keyOf, k);
    }
  }

  /** The dictionary `groupBy` holds after the items `s`. */
  ghost predicate Grouped<T>(groups: map<string, seq<T>>, s: seq<T>, keyOf: T -> string) {
    && (forall k :: k in groups <==> HasKey(s, keyOf, k))
    && (forall k | k in groups :: groups[k] == Select(s, keyOf, k))
  }

  /** `(acc[k] ||= []).push(item)`: the group of the item's key, opened when
      missing, gets the item at its end, which is the grouping of the items
      seen so far followed by this one. */
  method Push<T>(groups: map<string, seq<T>>, item: T, keyOf: T -> string, ghost done: seq<T>)
    returns (g: map<string, seq<T>>)
    requires Grouped(groups, done, keyOf)
    ensures Grouped(g, done + [item], keyOf)
  {
    var k := keyOf(item);
    g := groups;
    if k !in g {
      g := g[k := []];
    }
    g := g[k := g[k] + [item]];
    GroupStep(groups, g, done, item, keyOf);
  }

  /** Pushing one more item into its group keeps the dictionary equal to
      the grouping of the longer input. */
  lemma GroupStep<T>(before: map<string, seq<T>>, after: map<string, seq<T>>, s: seq<T>, x: T, keyOf: T -> string)
    requires forall k :: k in before <==> HasKey(s, keyOf, k)
    requires forall k | k in before :: before[k] == Select(s, keyOf, k)
    requires keyOf(x) in after && after[keyOf(x)] == (if keyOf(x) in before then before[keyOf(x)] else []) + [x]
    requires forall j | j != keyOf(x) :: (j in after <==> j in before) && (j in before ==> after[j] == before[j])
    ensures forall k :: k in after <==> HasKey(s + [x], keyOf, k)
    ensures forall k | k in after :: after[k] == Select(s + [x], keyOf, k)
  {
    HasKeyStep(s, x, keyOf);
    SelectNonEmpty(s, keyOf, keyOf(x));
    forall k | k in after ensures after[k] == Select(s + [x], keyOf, k) {
      SelectAppend(s, x, keyOf, k);
    }
  }

  /** One more item joins the end of the selection of its own key. */
  lemma SelectAppend<T>(s: seq<T>, x: T, keyOf: T -> string, k: string)
    ensures Select(s + [x], keyOf, k) == Select(s, keyOf, k) + (if keyOf(x) == k then [x] else [])
  {
    assert (s + [x])[..|s|] == s;
  }

  /** The total size of the groups named by `keys`. */
  function TotalSize<T>(s: seq<T>, keyOf: T -> string, keys: seq<string>): nat {
    if keys == [] then 0 else |Select(s, keyOf, keys[0])| + TotalSize(s, keyOf, keys[1..])
  }

  /** Adding one item grows exactly the group of its key. */
  lemma {:induction false} TotalSizeStep<T>(s: seq<T>, x: T, keyOf: T -> string, keys: seq<string>)
    requires Sorting.NoDuplicates(keys)
    ensures TotalSize(s + [x], keyOf, keys) == TotalSize(s, keyOf, keys) + (if keyOf(x) in keys then 1 else 0)
  {
    if keys != [] {
      assert (s + [x])[..|s + [x]| - 1] == s;
      assert Sorting.NoDuplicates(keys[1..]) by {
        forall i, j | 0 <= i < j < |keys[1..]| ensures keys[1..][i] != keys[1..][j] {
          assert keys[1..][i] == keys[i + 1] && keys[1..][j] == keys[j + 1];
        }
      }
      TotalSizeStep(s, x, keyOf, keys[1..]);
      if keyOf(x) == keys[0] {
        assert keyOf(x) !in keys[1..] by {
          forall i | 0 <= i < |keys[1..]| ensures keys[1..][i] != keys[0] {
            assert keys[1..][i] == keys[i + 1];
          }
        }
      }
      assert keys == [keys[0]] + keys[1..];
    }
  }

  /** The key of every item, in item order and with repeats; `Unique` of it
      gives the distinct keys. */
  function KeysOf<T>(s: seq<T>, keyOf: T -> string): (r: seq<string>)
    ensures |r| == |s|
    ensures forall i | 0 <= i < |s| :: r[i] == keyOf(s[i])
  {
    seq(|s|, i requires 0 <= i < |s| => keyOf(s[i]))
  }

  lemma KeysOfSnoc<T>(s: seq<T>, keyOf: T -> string, x: T)
    ensures KeysOf(s + [x], keyOf) == KeysOf(s, keyOf) + [keyOf(x)]
  {
  }

  /** Every item is placed exactly once: over the distinct keys, the group
      sizes sum to the number of items. */
  lemma {:induction false} GroupSizesSum<T>(arr: seq<T>, keyOf: T -> string, keys: seq<string>)
    requires Sorting.NoDuplicates(keys)
    requires forall i | 0 <= i < |arr| :: keyOf(arr[i]) in keys
    ensures TotalSize(arr, keyOf, keys) == |arr|
  {
    if arr == [] {
      ZeroSize(keyOf, keys);
    } else {
      var init := arr[..|arr| - 1];
      GroupSizesSum(init, keyOf, keys);
      assert arr == init + [arr[|arr| - 1]];
      TotalSizeStep(init, arr[|arr| - 1], keyOf, keys);
    }
  }

  lemma {:induction false} ZeroSize<T>(keyOf: T -> string, keys: seq<string>)
    ensures TotalSize([], keyOf, keys) == 0
  {
    if keys != [] { ZeroSize(keyOf, keys[1..]); }
  }

  /** The distinct keys of the items cover every item: the groups of `GroupBy`
      add up to the input. */
  lemma GroupsCoverInput<T>(arr: seq<T>, keyOf: T -> string)
    ensures TotalSize(arr, keyOf, Unique(KeysOf(arr, keyOf))) == |arr|
  {
    var keys := Unique(KeysOf(arr, keyOf));
    forall i | 0 <= i < |arr| ensures keyOf(arr[i]) in keys {
      assert KeysOf(arr, keyOf)[i] == keyOf(arr[i]);
    }
    GroupSizesSum(arr, keyOf, keys);
  }
}
