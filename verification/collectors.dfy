/** The stream collectors the reports are built from, written out directly:
    groupingBy(key, counting()) as a tally of (key, count) entries, a sort of
    such entries by a rank, map and flatMap, limit, and distinct(). A
    HashMap's entry set has no specified order; the tally lists keys in
    first-occurrence order, which is one admissible order, and nothing stated
    about the reports depends on it. */
module Collectors {

  /** One entry of a counting map. */
  datatype Entry<K> = Entry(key: K, count: nat)

  /** No key appears in two entries: the entries form a map. */
  predicate DistinctKeys<K(==)>(es: seq<Entry<K>>)
  {
    forall i, j :: 0 <= i < j < |es| ==> es[i].key != es[j].key
  }

  function KeySet<K>(es: seq<Entry<K>>): set<K>
  {
    set e | e in es :: e.key
  }

  /** The set of elements of a sequence. */
  function Elements<T>(xs: seq<T>): set<T>
  {
    set x | x in xs
  }

  /** The sum of the counts. */
  function Total<K>(es: seq<Entry<K>>): nat
    decreases |es|
  {
    if es == [] then 0 else es[0].count + Total(es[1..])
  }

  /** The count recorded for k, or 0 when k has no entry. */
  function Lookup<K(==)>(es: seq<Entry<K>>, k: K): nat
    decreases |es|
  {
    if es == [] then 0 else if es[0].key == k then es[0].count else Lookup(es[1..], k)
  }

  lemma KeySetCons<K>(e: Entry<K>, es: seq<Entry<K>>)
    ensures KeySet([e] + es) == {e.key} + KeySet(es)
  {
    forall k | k in KeySet([e] + es) ensures k in {e.key} + KeySet(es) {
      var x :| x in [e] + es && x.key == k;
      if x != e {
        assert x in es;
      }
    }
  }

  lemma DistinctKeysCons<K>(e: Entry<K>, es: seq<Entry<K>>)
    requires DistinctKeys(es)
    requires e.key !in KeySet(es)
    ensures DistinctKeys([e] + es)
  {
    var r := [e] + es;
    forall i, j | 0 <= i < j < |r| ensures r[i].key != r[j].key {
      if i == 0 {
        assert r[j] in es;
      } else {
        assert r[i] == es[i - 1] && r[j] == es[j - 1];
      }
    }
  }

  /** In a map, the first key does not occur again. */
  lemma HeadKeyNotInTail<K>(es: seq<Entry<K>>)
    requires DistinctKeys(es)
    requires es != []
    ensures es[0].key !in KeySet(es[1..])
    ensures DistinctKeys(es[1..])
  {
    forall x | x in es[1..] ensures x.key != es[0].key {
      var j :| 0 <= j < |es[1..]| && es[1..][j] == x;
      assert es[j + 1] == x;
    }
  }

  /** In a map, the lookup of an entry's key finds that entry's count. */
  lemma {:induction false} LookupEntry<K>(es: seq<Entry<K>>, i: int)
    requires DistinctKeys(es)
    requires 0 <= i < |es|
    ensures Lookup(es, es[i].key) == es[i].count
    decreases |es|
  {
    if i > 0 {
      LookupEntry(es[1..], i - 1);
    }
  }

  /** A map has as many entries as keys. */
  lemma {:induction false} DistinctKeysCardinality<K>(es: seq<Entry<K>>)
    requires DistinctKeys(es)
    ensures |KeySet(es)| == |es|
    decreases |es|
  {
    if es != [] {
      KeySetCons(es[0], es[1..]);
      assert [es[0]] + es[1..] == es;
      DistinctKeysCardinality(es[1..]);
      HeadKeyNotInTail(es);
    }
  }

  // ------------------------------------------------------------ counting

  /** Adds one occurrence of k: its entry's count grows by one, or a new
      entry (k, 1) is appended. */
  function Bump<K(==,!new)>(es: seq<Entry<K>>, k: K): (r: seq<Entry<K>>)
    requires DistinctKeys(es)
    ensures DistinctKeys(r)
    ensures KeySet(r) == KeySet(es) + {k}
    ensures forall x :: Lookup(r, x) == Lookup(es, x) + (if x == k then 1 else 0)
    ensures Total(r) == Total(es) + 1
    decreases |es|
  {
    if es == [] then [Entry(k, 1)]
    else if es[0].key == k then
      KeySetCons(es[0], es[1..]);
      assert [es[0]] + es[1..] == es;
      var r := [Entry(k, es[0].count + 1)] + es[1..];
      HeadKeyNotInTail(es);
      KeySetCons(r[0], es[1..]);
      DistinctKeysCons(r[0], es[1..]);
      r
    else
      KeySetCons(es[0], es[1..]);
      assert [es[0]] + es[1..] == es;
      var tail := Bump(es[1..], k);
      HeadKeyNotInTail(es);
      KeySetCons(es[0], tail);
      DistinctKeysCons(es[0], tail);
      [es[0]] + tail
  }

  /** groupingBy(identity, counting()): one entry per distinct element, whose
      count is the number of occurrences of that element. */
  function Tally<K(==,!new)>(xs: seq<K>): (r: seq<Entry<K>>)
    ensures DistinctKeys(r)
    ensures KeySet(r) == Elements(xs)
    ensures forall k :: Lookup(r, k) == multiset(xs)[k]
    ensures forall e :: e in r ==> e.count == multiset(xs)[e.key]
    ensures Total(r) == |xs|
    decreases |xs|
  {
    if xs == [] then []
    else
      var init := xs[..|xs| - 1];
      var last := xs[|xs| - 1];
      assert xs == init + [last];
      var r := Bump(Tally(init), last);
      assert Elements(xs) == Elements(init) + {last};
      forall e | e in r ensures e.count == multiset(xs)[e.key] {
        var i :| 0 <= i < |r| && r[i] == e;
        LookupEntry(r, i);
      }
      r
  }

  /** The entries of a tally are exactly the pairs of an element with its
      number of occurrences. */
  lemma TallyEntries<K(!new)>(xs: seq<K>)
    ensures forall e :: e in Tally(xs) <==> e.key in xs && e.count == multiset(xs)[e.key]
  {
    var r := Tally(xs);
    forall e: Entry<K> | e.key in xs && e.count == multiset(xs)[e.key] ensures e in r {
      assert e.key in KeySet(r);
      var x :| x in r && x.key == e.key;
      assert x == e;
    }
    forall e | e in r ensures e.key in xs && e.count == multiset(xs)[e.key] {
      assert e.key in KeySet(r);
    }
  }

  // ------------------------------------------------------------ sorting

  /** Non-decreasing by rank. */
  predicate SortedBy<K>(es: seq<Entry<K>>, rank: Entry<K> -> int)
  {
    forall i, j :: 0 <= i < j < |es| ==> rank(es[i]) <= rank(es[j])
  }

  /** A sorted list stays sorted under a new first entry ranked no higher
      than any of its entries. */
  lemma SortedCons<K>(x: Entry<K>, es: seq<Entry<K>>, rank: Entry<K> -> int)
    requires SortedBy(es, rank)
    requires forall y :: y in es ==> rank(x) <= rank(y)
    ensures SortedBy([x] + es, rank)
  {
    var r := [x] + es;
    forall i, j | 0 <= i < j < |r| ensures rank(r[i]) <= rank(r[j]) {
      assert r[j] == es[j - 1];
      if i > 0 {
        assert r[i] == es[i - 1];
      }
    }
  }

  /** Places e before the first entry ranked at least as high. */
  function Insert<K>(e: Entry<K>, es: seq<Entry<K>>, rank: Entry<K> -> int): (r: seq<Entry<K>>)
    ensures multiset(r) == multiset(es) + multiset{e}
    decreases |es|
  {
    if es == [] || rank(e) <= rank(es[0]) then [e] + es
    else
      assert [es[0]] + es[1..] == es;
      [es[0]] + Insert(e, es[1..], rank)
  }

  /** Inserting into a sorted list keeps it sorted. */
  lemma {:induction false} InsertSorted<K>(e: Entry<K>, es: seq<Entry<K>>, rank: Entry<K> -> int)
    requires SortedBy(es, rank)
    ensures SortedBy(Insert(e, es, rank), rank)
    decreases |es|
  {
    if es == [] || rank(e) <= rank(es[0]) {
      forall y | y in es ensures rank(e) <= rank(y) {
        var k :| 0 <= k < |es| && es[k] == y;
        assert k == 0 || rank(es[0]) <= rank(es[k]);
      }
      SortedCons(e, es, rank);
    } else {
      var rest := es[1..];
      assert SortedBy(rest, rank) by {
        forall i, j | 0 <= i < j < |rest| ensures rank(rest[i]) <= rank(rest[j]) {
          assert rest[i] == es[i + 1] && rest[j] == es[j + 1];
        }
      }
      InsertSorted(e, rest, rank);
      var tail := Insert(e, rest, rank);
      forall x | x in tail ensures rank(es[0]) <= rank(x) {
        assert multiset(tail)[x] > 0;
        if x != e {
          var k :| 0 <= k < |rest| && rest[k] == x;
          assert es[k + 1] == x;
        }
      }
      SortedCons(es[0], tail, rank);
    }
  }

  /** A permutation of the entries, non-decreasing by rank. */
  function SortBy<K>(es: seq<Entry<K>>, rank: Entry<K> -> int): (r: seq<Entry<K>>)
    ensures SortedBy(r, rank)
    ensures multiset(r) == multiset(es)
    decreases |es|
  {
    if es == [] then []
    else
      assert [es[0]] + es[1..] == es;
      InsertSorted(es[0], SortBy(es[1..], rank), rank);
      Insert(es[0], SortBy(es[1..], rank), rank)
  }

  /** The ranks the reports sort by: ascending key, ascending count, and
      descending count. */
  function ByKey(e: Entry<int>): int { e.key }
  function ByCount<K>(e: Entry<K>): int { e.count }
  function ByCountDescending<K>(e: Entry<K>): int { -(e.count as int) }

  /** Sorted by key, a map lists its keys in strictly ascending order. */
  lemma AscendingKeys(es: seq<Entry<int>>)
    requires SortedBy(es, ByKey)
    requires DistinctKeys(es)
    ensures forall i, j :: 0 <= i < j < |es| ==> es[i].key < es[j].key
  {
    forall i, j | 0 <= i < j < |es| ensures es[i].key < es[j].key {
      assert ByKey(es[i]) <= ByKey(es[j]);
    }
  }

  lemma AscendingCounts<K>(es: seq<Entry<K>>)
    requires SortedBy(es, ByCount)
    ensures forall i, j :: 0 <= i < j < |es| ==> es[i].count <= es[j].count
  {
    forall i, j | 0 <= i < j < |es| ensures es[i].count <= es[j].count {
      assert ByCount(es[i]) <= ByCount(es[j]);
    }
  }

  lemma DescendingCounts<K>(es: seq<Entry<K>>)
    requires SortedBy(es, ByCountDescending)
    ensures forall i, j :: 0 <= i < j < |es| ==> es[i].count >= es[j].count
  {
    forall i, j | 0 <= i < j < |es| ensures es[i].count >= es[j].count {
      assert ByCountDescending(es[i]) <= ByCountDescending(es[j]);
    }
  }

  /** Sequences with the same elements, counted with multiplicity, have the
      same members. */
  lemma PermutationMembers<T>(a: seq<T>, b: seq<T>)
    requires multiset(a) == multiset(b)
    ensures forall x :: x in a <==> x in b
  {
    forall x ensures x in a <==> x in b {
      assert x in a <==> multiset(a)[x] > 0;
      assert x in b <==> multiset(b)[x] > 0;
    }
  }

  lemma TotalCons<K>(x: Entry<K>, es: seq<Entry<K>>)
    ensures Total([x] + es) == x.count + Total(es)
  {
    assert ([x] + es)[1..] == es;
  }

  /** Inserting an entry adds its count to the total. */
  lemma {:induction false} InsertTotal<K>(e: Entry<K>, es: seq<Entry<K>>, rank: Entry<K> -> int)
    ensures Total(Insert(e, es, rank)) == Total(es) + e.count
    decreases |es|
  {
    if es == [] || rank(e) <= rank(es[0]) {
      TotalCons(e, es);
    } else {
      assert [es[0]] + es[1..] == es;
      InsertTotal(e, es[1..], rank);
      TotalCons(es[0], Insert(e, es[1..], rank));
    }
  }

  /** Sorting keeps the total. */
  lemma {:induction false} SortByTotal<K>(es: seq<Entry<K>>, rank: Entry<K> -> int)
    ensures Total(SortBy(es, rank)) == Total(es)
    decreases |es|
  {
    if es != [] {
      SortByTotal(es[1..], rank);
      InsertTotal(es[0], SortBy(es[1..], rank), rank);
    }
  }

  /** Entry sequences with the same elements have the same keys. */
  lemma PermutationKeySet<K>(a: seq<Entry<K>>, b: seq<Entry<K>>)
    requires multiset(a) == multiset(b)
    ensures KeySet(a) == KeySet(b)
  {
    PermutationMembers(a, b);
  }

  /** Inserting a new key into a map gives a map. */
  lemma {:induction false} InsertKeepsMap<K>(e: Entry<K>, es: seq<Entry<K>>, rank: Entry<K> -> int)
    requires DistinctKeys(es)
    requires e.key !in KeySet(es)
    ensures DistinctKeys(Insert(e, es, rank))
    decreases |es|
  {
    var r := Insert(e, es, rank);
    if es == [] || rank(e) <= rank(es[0]) {
      DistinctKeysCons(e, es);
    } else {
      var tail := Insert(e, es[1..], rank);
      assert [es[0]] + es[1..] == es;
      KeySetCons(es[0], es[1..]);
      HeadKeyNotInTail(es);
      InsertKeepsMap(e, es[1..], rank);
      PermutationKeySet(tail, es[1..] + [e]);
      KeySetCons(e, es[1..]);
      assert KeySet(es[1..] + [e]) == KeySet([e] + es[1..]) by {
        PermutationKeySet(es[1..] + [e], [e] + es[1..]);
      }
      DistinctKeysCons(es[0], tail);
    }
  }

  /** Sorting a map gives a map with the same keys. */
  lemma {:induction false} SortByKeepsMap<K>(es: seq<Entry<K>>, rank: Entry<K> -> int)
    requires DistinctKeys(es)
    ensures DistinctKeys(SortBy(es, rank))
    ensures KeySet(SortBy(es, rank)) == KeySet(es)
    decreases |es|
  {
    PermutationKeySet(SortBy(es, rank), es);
    if es != [] {
      assert [es[0]] + es[1..] == es;
      HeadKeyNotInTail(es);
      SortByKeepsMap(es[1..], rank);
      InsertKeepsMap(es[0], SortBy(es[1..], rank), rank);
    }
  }

  // ------------------------------------------------------------ filtering

  /** The entries whose key passes keep, in their original order. */
  function KeepWhere<K(==,!new)>(es: seq<Entry<K>>, keep: K -> bool): (r: seq<Entry<K>>)
    ensures forall e :: e in r <==> e in es && keep(e.key)
    ensures DistinctKeys(es) ==> DistinctKeys(r)
    decreases |es|
  {
    if es == [] then []
    else
      var tail := KeepWhere(es[1..], keep);
      assert [es[0]] + es[1..] == es;
      if keep(es[0].key) then
        if DistinctKeys(es) then
          KeySetCons(es[0], es[1..]);
          HeadKeyNotInTail(es);
          assert es[0].key !in KeySet(tail);
          DistinctKeysCons(es[0], tail);
          [es[0]] + tail
        else
          [es[0]] + tail
      else
        tail
  }

  /** Stream.limit(n). */
  function Take<T>(xs: seq<T>, n: nat): (r: seq<T>)
    ensures |r| == if |xs| < n then |xs| else n
    ensures r == xs[..|r|]
  {
    if |xs| <= n then xs else xs[..n]
  }

  /** A prefix of a map is a map over some of its entries. */
  lemma TakeKeepsMap<K>(es: seq<Entry<K>>, n: nat)
    requires DistinctKeys(es)
    ensures DistinctKeys(Take(es, n))
    ensures forall e :: e in Take(es, n) ==> e in es
  {
    var r := Take(es, n);
    assert forall i :: 0 <= i < |r| ==> r[i] == es[i];
  }

  /** Cutting a descending list after n entries drops no entry that counts
      more than the last one kept, and drops entries only when n were kept. */
  lemma TakeCutoff<K>(sorted: seq<Entry<K>>, n: nat, e: Entry<K>)
    requires SortedBy(sorted, ByCountDescending)
    requires n > 0
    requires e in sorted
    requires e !in Take(sorted, n)
    ensures |Take(sorted, n)| == n
    ensures e.count <= Take(sorted, n)[n - 1].count
  {
    var r := Take(sorted, n);
    var j :| 0 <= j < |sorted| && sorted[j] == e;
    assert forall k :: 0 <= k < |r| ==> sorted[k] in r;
    assert ByCountDescending(sorted[n - 1]) <= ByCountDescending(sorted[j]);
  }

  // ------------------------------------------------------------ flatMap

  /** f applied to every element, in order, as map does. */
  function Map<A, B>(f: A -> B, xs: seq<A>): (r: seq<B>)
    ensures |r| == |xs|
    ensures forall i :: 0 <= i < |xs| ==> r[i] == f(xs[i])
  {
    seq(|xs|, i requires 0 <= i < |xs| => f(xs[i]))
  }

  lemma MapAppend<A, B>(f: A -> B, a: seq<A>, b: seq<A>)
    ensures Map(f, a + b) == Map(f, a) + Map(f, b)
  {
    var l := Map(f, a + b);
    var r := Map(f, a) + Map(f, b);
    forall i | 0 <= i < |l| ensures l[i] == r[i] {
      if i < |a| {
        assert (a + b)[i] == a[i];
      } else {
        assert (a + b)[i] == b[i - |a|];
      }
    }
  }

  /** The lists concatenated in order, as flatMap does. */
  function Flatten<T>(xss: seq<seq<T>>): seq<T>
    decreases |xss|
  {
    if xss == [] then [] else xss[0] + Flatten(xss[1..])
  }

  lemma {:induction false} FlattenAppend<T>(a: seq<seq<T>>, b: seq<seq<T>>)
    ensures Flatten(a + b) == Flatten(a) + Flatten(b)
    decreases |a|
  {
    if a == [] {
      assert a + b == b;
    } else {
      assert (a + b)[0] == a[0] && (a + b)[1..] == a[1..] + b;
      FlattenAppend(a[1..], b);
    }
  }

  /** An element is in the flattened list exactly when it is in one of the
      lists. */
  lemma {:induction false} FlattenMember<T>(xss: seq<seq<T>>, x: T)
    ensures x in Flatten(xss) <==> exists i :: 0 <= i < |xss| && x in xss[i]
    decreases |xss|
  {
    if xss != [] {
      FlattenMember(xss[1..], x);
      assert Flatten(xss) == xss[0] + Flatten(xss[1..]);
      if x in Flatten(xss[1..]) {
        var i :| 0 <= i < |xss[1..]| && x in xss[1..][i];
        assert x in xss[i + 1];
      }
      if exists i :: 0 <= i < |xss| && x in xss[i] {
        var i :| 0 <= i < |xss| && x in xss[i];
        if i > 0 {
          assert x in xss[1..][i - 1];
        }
      }
    }
  }

  // ------------------------------------------------------------ distinct

  predicate NoDuplicates<T(==)>(xs: seq<T>)
  {
    forall i, j :: 0 <= i < j < |xs| ==> xs[i] != xs[j]
  }

  /** Index of the first occurrence of x in xs. */
  function FirstIndex<T(==)>(xs: seq<T>, x: T): (i: nat)
    requires x in xs
    ensures i < |xs| && xs[i] == x
    ensures forall j :: 0 <= j < i ==> xs[j] != x
    decreases |xs|
  {
    if xs[0] == x then 0 else 1 + FirstIndex(xs[1..], x)
  }

  /** Stream.distinct() on an ordered stream: each element once, in the
      order of its first occurrence. */
  function Distinct<T(==,!new)>(xs: seq<T>): (r: seq<T>)
    ensures NoDuplicates(r)
    ensures forall x :: x in r <==> x in xs
    ensures forall i, j :: 0 <= i < j < |r| ==> FirstIndex(xs, r[i]) < FirstIndex(xs, r[j])
    decreases |xs|
  {
    if xs == [] then []
    else
      var init := xs[..|xs| - 1];
      var last := xs[|xs| - 1];
      assert xs == init + [last];
      var d := Distinct(init);
      forall y | y in init ensures FirstIndex(xs, y) == FirstIndex(init, y) {
        FirstIndexPrefix(init, last, y);
      }
      if last in d then d
      else
        assert last !in init;
        assert FirstIndex(xs, last) == |init|;
        d + [last]
  }

  lemma FirstIndexPrefix<T>(xs: seq<T>, last: T, y: T)
    requires y in xs
    ensures FirstIndex(xs + [last], y) == FirstIndex(xs, y)
  {
    var i := FirstIndex(xs, y);
    var k := FirstIndex(xs + [last], y);
    assert (xs + [last])[i] == y;
    assert k <= i;
    assert xs[k] == y;
  }
}
