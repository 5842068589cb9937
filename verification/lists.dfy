/** The JavaScript array and object operations the modelled code relies on:
    a stable sort by an integer key (`toSorted` with a comparator; ECMAScript
    requires the sort to be stable), `filter`, `Math.min`/`Math.max` over a
    mapped array, de-duplication in order of first occurrence (`new Set`),
    and `Object.fromEntries`. */
module Lists {
  import opened Wrappers

  predicate SortedBy<T>(s: seq<T>, key: T -> int) {
    forall i, j :: 0 <= i < j < |s| ==> key(s[i]) <= key(s[j])
  }

  /** Index of the first element of `s` whose key is minimal: the reference
      definition of "the earliest of the smallest". */
  function FirstMinIndex<T>(s: seq<T>, key: T -> int): (i: nat)
    requires |s| > 0
    ensures i < |s|
    ensures forall j :: 0 <= j < |s| ==> key(s[i]) <= key(s[j])
    ensures forall j :: 0 <= j < i ==> key(s[i]) < key(s[j])
  {
    if |s| == 1 then 0
    else
      var t := FirstMinIndex(s[1..], key);
      if key(s[0]) <= key(s[1..][t]) then 0 else t + 1
  }

  /** Inserts `x` before the first element whose key is not smaller, so that
      `x` precedes the elements of equal key that came after it in the input. */
  function Insert<T>(x: T, s: seq<T>, key: T -> int): (r: seq<T>)
    requires SortedBy(s, key)
    ensures SortedBy(r, key)
    ensures multiset(r) == multiset(s) + multiset{x}
    ensures |s| > 0 && key(x) <= key(s[0]) ==> r[0] == x
    ensures |s| > 0 && key(x) > key(s[0]) ==> r[0] == s[0]
  {
    if |s| == 0 then [x]
    else if key(x) <= key(s[0]) then [x] + s
    else
      var t := Insert(x, s[1..], key);
      ConsSorted(s[0], t, key);
      assert s == [s[0]] + s[1..];
      [s[0]] + t
  }

  /** Putting an element no larger than the head in front keeps a list sorted. */
  lemma ConsSorted<T>(x: T, t: seq<T>, key: T -> int)
    requires SortedBy(t, key) && (|t| > 0 ==> key(x) <= key(t[0]))
    ensures SortedBy([x] + t, key)
  {
    var r := [x] + t;
    forall i, j | 0 <= i < j < |r|
      ensures key(r[i]) <= key(r[j])
    {
      if i == 0 {
        assert r[j] == t[j - 1];
        if j > 1 {
          assert key(t[0]) <= key(t[j - 1]);
        }
      } else {
        assert r[i] == t[i - 1] && r[j] == t[j - 1];
      }
    }
  }

  /** Insertion sort: stable, and sorted by `key`. */
  function SortBy<T>(s: seq<T>, key: T -> int): (r: seq<T>)
    ensures SortedBy(r, key)
    ensures multiset(r) == multiset(s)
    ensures |r| == |s|
  {
    if |s| == 0 then []
    else
      var t := SortBy(s[1..], key);
      assert s == [s[0]] + s[1..];
      Insert(s[0], t, key)
  }

  /** The head of the stable sort is the earliest element of minimal key. */
  lemma {:induction false} SortHeadIsFirstMin<T>(s: seq<T>, key: T -> int)
    requires |s| > 0
    ensures SortBy(s, key)[0] == s[FirstMinIndex(s, key)]
  {
    if |s| > 1 {
      var rest := s[1..];
      var t := SortBy(rest, key);
      SortHeadIsFirstMin(rest, key);
      var ti := FirstMinIndex(rest, key);
      assert SortBy(s, key) == Insert(s[0], t, key);
      assert FirstMinIndex(s, key) == if key(s[0]) <= key(rest[ti]) then 0 else ti + 1;
      assert |t| == |rest| && t[0] == rest[ti];
    }
  }

  /** `s.filter(p)`: the elements satisfying `p`, in their original order. */
  function Filter<T(!new)>(s: seq<T>, p: T -> bool): (r: seq<T>)
    ensures |r| <= |s|
    ensures forall x :: x in r <==> x in s && p(x)
  {
    if |s| == 0 then []
    else (if p(s[0]) then [s[0]] else []) + Filter(s[1..], p)
  }

  /** Filtering distributes over concatenation. */
  lemma {:induction false} FilterAppend<T(!new)>(a: seq<T>, b: seq<T>, p: T -> bool)
    ensures Filter(a + b, p) == Filter(a, p) + Filter(b, p)
  {
    if |a| > 0 {
      assert (a + b)[1..] == a[1..] + b;
      FilterAppend(a[1..], b, p);
    } else {
      assert a + b == b;
    }
  }

  /** Filtering one more element of a prefix keeps it or not, by `p`. */
  lemma FilterExtend<T(!new)>(s: seq<T>, i: nat, p: T -> bool)
    requires i < |s|
    ensures Filter(s[..i + 1], p) == Filter(s[..i], p) + if p(s[i]) then [s[i]] else []
  {
    assert s[..i + 1] == s[..i] + [s[i]];
    FilterAppend(s[..i], [s[i]], p);
    assert Filter([s[i]], p) == (if p(s[i]) then [s[i]] else []) + Filter([s[i]][1..], p);
  }

  /** A prefix keeps no more than the whole list. */
  lemma FilterPrefix<T(!new)>(s: seq<T>, i: nat, p: T -> bool)
    requires i <= |s|
    ensures |Filter(s[..i], p)| <= |Filter(s, p)|
  {
    assert s == s[..i] + s[i..];
    FilterAppend(s[..i], s[i..], p);
  }

  /** Where the `t`-th element kept by `Filter` sits in its input: what the
      filter keeps before that position is what it kept before the `t`-th. */
  lemma {:induction false} FilterIndex<T(!new)>(s: seq<T>, p: T -> bool, t: nat) returns (j: nat)
    requires t < |Filter(s, p)|
    ensures j < |s| && s[j] == Filter(s, p)[t]
    ensures Filter(s[..j], p) == Filter(s, p)[..t]
  {
    var kept := Filter(s, p);
    var rest := Filter(s[1..], p);
    if p(s[0]) && t == 0 {
      j := 0;
    } else {
      var t' := if p(s[0]) then t - 1 else t;
      var j' := FilterIndex(s[1..], p, t');
      j := j' + 1;
      assert s[..j][1..] == s[1..][..j'];
    }
  }

  /** `Math.min(...s.map(f))` on a non-empty list. */
  function MinOf<T>(s: seq<T>, f: T -> int): (m: int)
    requires |s| > 0
    ensures exists i :: 0 <= i < |s| && f(s[i]) == m
    ensures forall i :: 0 <= i < |s| ==> m <= f(s[i])
  {
    if |s| == 1 then f(s[0])
    else
      var m := MinOf(s[1..], f);
      assert forall i :: 1 <= i < |s| ==> s[i] == s[1..][i - 1];
      if f(s[0]) <= m then f(s[0]) else m
  }

  /** `Math.max(...s.map(f))` on a non-empty list. */
  function MaxOf<T>(s: seq<T>, f: T -> int): (m: int)
    requires |s| > 0
    ensures exists i :: 0 <= i < |s| && f(s[i]) == m
    ensures forall i :: 0 <= i < |s| ==> f(s[i]) <= m
  {
    if |s| == 1 then f(s[0])
    else
      var m := MaxOf(s[1..], f);
      assert forall i :: 1 <= i < |s| ==> s[i] == s[1..][i - 1];
      if f(s[0]) >= m then f(s[0]) else m
  }

  predicate Distinct<T(==)>(s: seq<T>) {
    forall i, j :: 0 <= i < j < |s| ==> s[i] != s[j]
  }

  /** Filtering keeps elements apart. */
  lemma {:induction false} FilterDistinct<T(!new)>(s: seq<T>, p: T -> bool)
    requires Distinct(s)
    ensures Distinct(Filter(s, p))
  {
    if |s| > 0 {
      assert Distinct(s[1..]);
      FilterDistinct(s[1..], p);
      assert s[0] !in s[1..];
    }
  }

  /** Sorting keeps elements apart. */
  lemma SortKeepsDistinct<T>(s: seq<T>, key: T -> int)
    requires Distinct(s)
    ensures Distinct(SortBy(s, key))
  {
    DistinctMultiset(s);
    DistinctMultiset(SortBy(s, key));
  }

  /** A list is duplicate-free exactly when no element is counted twice. */
  lemma {:induction false} DistinctMultiset<T>(s: seq<T>)
    ensures Distinct(s) <==> forall x :: multiset(s)[x] <= 1
  {
    if |s| > 0 {
      var t := s[1..];
      assert s == [s[0]] + t;
      DistinctMultiset(t);
      if Distinct(s) {
        assert Distinct(t);
        assert s[0] !in t;
      }
      if forall x :: multiset(s)[x] <= 1 {
        forall x
          ensures multiset(t)[x] <= 1
        {
          assert multiset(s)[x] == multiset{s[0]}[x] + multiset(t)[x];
        }
        assert multiset(s)[s[0]] == 1 + multiset(t)[s[0]];
        forall i, j | 0 <= i < j < |s|
          ensures s[i] != s[j]
        {
          if i == 0 {
            assert s[j] in t;
          } else {
            assert s[i] == t[i - 1] && s[j] == t[j - 1];
          }
        }
      }
    }
  }

  function HasValue<T>(f: T -> int, v: int): T -> bool {
    x => f(x) == v
  }

  /** The elements of least `primary`, stably sorted by `secondary`, first one
      taken: a two-level "best of" as the source writes it. */
  function FirstBest<T(!new)>(s: seq<T>, primary: T -> int, secondary: T -> int): (x: T)
    requires |s| > 0
    ensures x in s
  {
    var best := Filter(s, HasValue(primary, MinOf(s, primary)));
    MinimalKept(s, primary);
    var x := SortBy(best, secondary)[0];
    assert x in multiset(best);
    x
  }

  lemma MinimalKept<T(!new)>(s: seq<T>, f: T -> int)
    requires |s| > 0
    ensures |Filter(s, HasValue(f, MinOf(s, f)))| > 0
  {
    var i :| 0 <= i < |s| && f(s[i]) == MinOf(s, f);
    assert s[i] in Filter(s, HasValue(f, MinOf(s, f)));
  }

  /** `s[j]` has least `primary`; among those, least `secondary`; among
      those, it comes first. */
  predicate IsFirstBest<T>(s: seq<T>, primary: T -> int, secondary: T -> int, j: int) {
    && 0 <= j < |s|
    && (forall i :: 0 <= i < |s| ==> primary(s[j]) <= primary(s[i]))
    && (forall i :: 0 <= i < |s| && primary(s[i]) == primary(s[j]) ==>
          secondary(s[j]) <= secondary(s[i]))
    && (forall i :: 0 <= i < j && primary(s[i]) == primary(s[j]) ==>
          secondary(s[j]) < secondary(s[i]))
  }

  /** The order leaves no choice open. */
  lemma FirstBestUnique<T>(s: seq<T>, primary: T -> int, secondary: T -> int, j1: int, j2: int)
    requires IsFirstBest(s, primary, secondary, j1) && IsFirstBest(s, primary, secondary, j2)
    ensures j1 == j2
  {
    assert primary(s[j1]) == primary(s[j2]);
    assert secondary(s[j1]) == secondary(s[j2]);
  }

  /** Filtering, sorting stably and taking the head selects the first best. */
  lemma FirstBestMeetsOrder<T(!new)>(s: seq<T>, primary: T -> int, secondary: T -> int)
    requires |s| > 0
    ensures exists j :: IsFirstBest(s, primary, secondary, j) && FirstBest(s, primary, secondary) == s[j]
  {
    var least := MinOf(s, primary);
    var p := HasValue(primary, least);
    var best := Filter(s, p);
    MinimalKept(s, primary);
    SortHeadIsFirstMin(best, secondary);
    var t := FirstMinIndex(best, secondary);
    var j := FilterIndex(s, p, t);
    assert best[t] in best;
    assert primary(s[j]) == least;
    forall i | 0 <= i < |s| && primary(s[i]) == primary(s[j])
      ensures secondary(s[j]) <= secondary(s[i])
    {
      assert s[i] in best;
    }
    EarlierKeptAreWorse(s, p, secondary, t, j);
    forall i | 0 <= i < j && primary(s[i]) == primary(s[j])
      ensures secondary(s[j]) < secondary(s[i])
    {
      assert p(s[i]);
    }
    assert IsFirstBest(s, primary, secondary, j);
  }

  /** The kept elements before the `t`-th kept one, found at `j`, are those
      the `t`-th one strictly beats when it is the first minimum. */
  lemma EarlierKeptAreWorse<T(!new)>(s: seq<T>, p: T -> bool, key: T -> int, t: nat, j: nat)
    requires t < |Filter(s, p)| && j < |s|
    requires s[j] == Filter(s, p)[t] && Filter(s[..j], p) == Filter(s, p)[..t]
    requires forall k :: 0 <= k < t ==> key(Filter(s, p)[t]) < key(Filter(s, p)[k])
    ensures forall i :: 0 <= i < j && p(s[i]) ==> key(s[j]) < key(s[i])
  {
    var best := Filter(s, p);
    forall i | 0 <= i < j && p(s[i])
      ensures key(s[j]) < key(s[i])
    {
      assert s[i] in s[..j];
      assert s[i] in best[..t];
      var k :| 0 <= k < t && best[..t][k] == s[i];
      assert best[k] == s[i];
    }
  }

  /** The elements of `s` in order of first occurrence, each once. */
  function Dedup<T(==,!new)>(s: seq<T>): (r: seq<T>)
    ensures forall x :: x in r <==> x in s
    ensures forall i, j :: 0 <= i < j < |r| ==> r[i] != r[j]
  {
    if |s| == 0 then []
    else
      var prefix := s[..|s| - 1];
      assert s == prefix + [s[|s| - 1]];
      var d := Dedup(prefix);
      if s[|s| - 1] in d then d else d + [s[|s| - 1]]
  }

  // ---------------------------------------------------------------------------
  // Object.fromEntries: a list of key/value pairs standing for an object with
  // string keys, in property order
  // ---------------------------------------------------------------------------

  function Keys<K, V>(es: seq<(K, V)>): (ks: seq<K>)
    ensures |ks| == |es|
    ensures forall i :: 0 <= i < |es| ==> ks[i] == es[i].0
  {
    if |es| == 0 then [] else Keys(es[..|es| - 1]) + [es[|es| - 1].0]
  }

  function Values<K, V>(es: seq<(K, V)>): (vs: seq<V>)
    ensures |vs| == |es|
    ensures forall i :: 0 <= i < |es| ==> vs[i] == es[i].1
  {
    if |es| == 0 then [] else Values(es[..|es| - 1]) + [es[|es| - 1].1]
  }

  predicate DistinctKeys<K(==), V>(es: seq<(K, V)>) {
    forall i, j :: 0 <= i < j < |es| ==> es[i].0 != es[j].0
  }

  /** Index of the entry with key `k`, if any. */
  function KeyIndex<K(==), V>(es: seq<(K, V)>, k: K): (r: Option<nat>)
    ensures r.None? <==> forall i :: 0 <= i < |es| ==> es[i].0 != k
    ensures r.Some? ==> r.value < |es| && es[r.value].0 == k
    ensures r.Some? ==> forall i :: 0 <= i < r.value ==> es[i].0 != k
  {
    if |es| == 0 then None
    else if es[0].0 == k then Some(0)
    else match KeyIndex(es[1..], k)
      case None => None
      case Some(i) => Some(i + 1)
  }

  /** `obj[k] = v`: an existing key keeps its position and takes the new
      value, a new key goes last. */
  function SetEntry<K(==), V>(es: seq<(K, V)>, k: K, v: V): (r: seq<(K, V)>)
    requires DistinctKeys(es)
    ensures DistinctKeys(r)
    ensures Keys(r) == if k in Keys(es) then Keys(es) else Keys(es) + [k]
    ensures forall i :: 0 <= i < |r| ==>
      r[i] == (k, v) || (i < |es| && r[i] == es[i] && es[i].0 != k)
  {
    match KeyIndex(es, k)
    case Some(i) =>
      var r := es[i := (k, v)];
      assert Keys(r) == Keys(es);
      r
    case None =>
      var r := es + [(k, v)];
      assert k !in Keys(es);
      assert Keys(r) == Keys(es) + [k];
      r
  }

  /** `Object.fromEntries(es)` for keys that are not array indices. */
  function FromEntries<K(==,!new), V>(es: seq<(K, V)>): (r: seq<(K, V)>)
    ensures DistinctKeys(r)
    ensures Keys(r) == Dedup(Keys(es))
  {
    if |es| == 0 then []
    else
      var prefix := es[..|es| - 1];
      var last := es[|es| - 1];
      DedupKeysStep(es);
      SetEntry(FromEntries(prefix), last.0, last.1)
  }

  lemma DedupKeysStep<K(!new), V>(es: seq<(K, V)>)
    requires |es| > 0
    ensures var prefix := Dedup(Keys(es[..|es| - 1]));
      var k := es[|es| - 1].0;
      Dedup(Keys(es)) == if k in prefix then prefix else prefix + [k]
  {
    var ks := Keys(es);
    assert ks[..|ks| - 1] == Keys(es[..|es| - 1]);
  }

  /** `e` is the last entry of `es` with its key. */
  predicate IsLastEntry<K(==), V(==)>(es: seq<(K, V)>, e: (K, V)) {
    exists k :: 0 <= k < |es| && es[k] == e
      && forall j :: k < j < |es| ==> es[j].0 != e.0
  }

  lemma LastEntryExtend<K, V>(prefix: seq<(K, V)>, last: (K, V), e: (K, V))
    requires e == last || (IsLastEntry(prefix, e) && e.0 != last.0)
    ensures IsLastEntry(prefix + [last], e)
  {
    var es := prefix + [last];
    if e == last {
      assert es[|prefix|] == e;
    } else {
      var k :| 0 <= k < |prefix| && prefix[k] == e
        && forall j :: k < j < |prefix| ==> prefix[j].0 != e.0;
      assert es[k] == e;
    }
  }

  /** When several entries share a key, the value of the last one is kept. */
  lemma {:induction false} FromEntriesKeepsLast<K(!new), V>(es: seq<(K, V)>)
    ensures forall i :: 0 <= i < |FromEntries(es)| ==> IsLastEntry(es, FromEntries(es)[i])
  {
    if |es| > 0 {
      var prefix := es[..|es| - 1];
      var last := es[|es| - 1];
      assert es == prefix + [last];
      FromEntriesKeepsLast(prefix);
      var before := FromEntries(prefix);
      var r := FromEntries(es);
      assert r == SetEntry(before, last.0, last.1);
      forall i | 0 <= i < |r|
        ensures IsLastEntry(es, r[i])
      {
        if r[i] == last {
          LastEntryExtend(prefix, last, last);
        } else {
          assert r[i] == before[i];
          LastEntryExtend(prefix, last, before[i]);
        }
      }
    }
  }

  /** The entry of `es` that the `i`-th property of `Object.fromEntries(es)`
      comes from: the last one with that key. */
  lemma FromEntriesSource<K(!new), V>(es: seq<(K, V)>, i: nat) returns (k: nat)
    requires i < |FromEntries(es)|
    ensures k < |es| && es[k] == FromEntries(es)[i]
    ensures forall j :: k < j < |es| ==> es[j].0 != es[k].0
  {
    FromEntriesKeepsLast(es);
    assert IsLastEntry(es, FromEntries(es)[i]);
    k :| 0 <= k < |es| && es[k] == FromEntries(es)[i]
      && forall j :: k < j < |es| ==> es[j].0 != es[k].0;
  }
}
