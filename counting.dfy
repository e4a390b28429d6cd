/**
 * Counting as the scripts do it with Python dictionaries and `Counter`s:
 * occurrence counts, the `d[k] = d.get(k, 0) + 1` update, the insertion
 * order of a dictionary's keys, and the stable sort of `(key, count)` items
 * by descending count that both `sorted(..., key=lambda x: -x[1])` and
 * `Counter.most_common(n)` perform.
 */
module Counting {

  /** A `(key, count)` item of a dictionary of counts. */
  datatype Entry = Entry(key: string, count: nat)

  /** The number of occurrences of `x` in `xs`. */
  function Count(xs: seq<string>, x: string): (n: nat)
    ensures n <= |xs|
    ensures n > 0 <==> x in xs
  {
    if xs == [] then 0 else (if xs[0] == x then 1 else 0) + Count(xs[1..], x)
  }

  lemma {:induction false} CountAppend(a: seq<string>, b: seq<string>, x: string)
    ensures Count(a + b, x) == Count(a, x) + Count(b, x)
  {
    if a == [] {
      assert a + b == b;
    } else {
      assert (a + b)[0] == a[0] && (a + b)[1..] == a[1..] + b;
      CountAppend(a[1..], b, x);
    }
  }

  /** `d.get(k, 0)`. */
  function Get(m: map<string, nat>, k: string): nat {
    if k in m then m[k] else 0
  }

  /** `d[x] = d.get(x, 0) + 1`. */
  function Bump(m: map<string, nat>, x: string): map<string, nat> {
    m[x := Get(m, x) + 1]
  }

  /** The dictionary `m` after `d[x] = d.get(x, 0) + 1` for each `x` of `xs` in turn (also `Counter.update(xs)`). */
  function AddAll(m: map<string, nat>, xs: seq<string>): map<string, nat> {
    if xs == [] then m else Bump(AddAll(m, xs[..|xs| - 1]), xs[|xs| - 1])
  }

  /** The counts of `xs` built from an empty dictionary (also `Counter(xs)`). */
  function Tally(xs: seq<string>): map<string, nat> {
    AddAll(map[], xs)
  }

  /**
   * Counting a sequence into a dictionary adds to every key its number of
   * occurrences, and the keys become the old keys plus the elements.
   */
  lemma {:induction false} AddAllCounts(m: map<string, nat>, xs: seq<string>)
    ensures forall k :: Get(AddAll(m, xs), k) == Get(m, k) + Count(xs, k)
    ensures forall k :: k in AddAll(m, xs) <==> k in m || k in xs
  {
    if xs != [] {
      var p, x := xs[..|xs| - 1], xs[|xs| - 1];
      AddAllCounts(m, p);
      assert xs == p + [x];
      forall k ensures Count(xs, k) == Count(p, k) + Count([x], k) {
        CountAppend(p, [x], k);
      }
    }
  }

  /** The keys of `Tally(xs)` are the elements of `xs`, each mapped to its number of occurrences. */
  lemma TallyCounts(xs: seq<string>)
    ensures forall k :: k in Tally(xs) <==> k in xs
    ensures forall k :: k in Tally(xs) ==> Tally(xs)[k] == Count(xs, k) && Tally(xs)[k] >= 1
  {
    AddAllCounts(map[], xs);
  }

  /** A key of a non-empty map; the same one every time. */
  ghost function PickKey(m: map<string, nat>): (k: string)
    requires m != map[]
    ensures k in m
  {
    var k :| k in m; k
  }

  /** The sum of the values of `m`: the total of a `Counter`. */
  ghost function Mass(m: map<string, nat>): nat
    decreases |m|
  {
    if m == map[] then 0
    else
      var k := PickKey(m);
      assert |m - {k}| < |m| by {
        assert (m - {k}).Keys == m.Keys - {k};
      }
      m[k] + Mass(m - {k})
  }

  lemma {:induction false} MassRemove(m: map<string, nat>, k: string)
    requires k in m
    ensures Mass(m) == m[k] + Mass(m - {k})
    decreases |m|
  {
    var k' := PickKey(m);
    if k' != k {
      assert (m - {k'}).Keys == m.Keys - {k'};
      assert (m - {k}).Keys == m.Keys - {k};
      MassRemove(m - {k'}, k);
      MassRemove(m - {k}, k');
      assert m - {k'} - {k} == m - {k} - {k'};
    }
  }

  /** One `d[x] = d.get(x, 0) + 1` step raises the total by exactly one. */
  lemma BumpMass(m: map<string, nat>, x: string)
    ensures Mass(Bump(m, x)) == Mass(m) + 1
  {
    var m' := Bump(m, x);
    MassRemove(m', x);
    if x in m {
      MassRemove(m, x);
      assert m' - {x} == m - {x};
    } else {
      assert m' - {x} == m;
    }
  }

  /** Counting `xs` into a dictionary raises its total by exactly `|xs|`. */
  lemma {:induction false} AddAllMass(m: map<string, nat>, xs: seq<string>)
    ensures Mass(AddAll(m, xs)) == Mass(m) + |xs|
  {
    if xs != [] {
      AddAllMass(m, xs[..|xs| - 1]);
      BumpMass(AddAll(m, xs[..|xs| - 1]), xs[|xs| - 1]);
    }
  }

  predicate Distinct(xs: seq<string>) {
    forall i, j :: 0 <= i < j < |xs| ==> xs[i] != xs[j]
  }

  /**
   * The order of the keys of a dictionary into which the elements of `xs`
   * were inserted in turn: each element at its first occurrence.
   */
  function InsertionOrder(xs: seq<string>): (ks: seq<string>)
    ensures Distinct(ks)
    ensures forall k :: k in ks <==> k in xs
  {
    if xs == [] then []
    else
      var ks := InsertionOrder(xs[..|xs| - 1]);
      var x := xs[|xs| - 1];
      assert forall k :: k in xs <==> k in xs[..|xs| - 1] || k == x by {
        assert xs == xs[..|xs| - 1] + [x];
      }
      if x in ks then ks else ks + [x]
  }

  /** One more element: its first occurrence adds it to the key order, and its count goes up by one. */
  lemma CountOneMore(xs: seq<string>, x: string)
    ensures InsertionOrder(xs + [x]) == if x in Tally(xs) then InsertionOrder(xs) else InsertionOrder(xs) + [x]
    ensures Tally(xs + [x]) == Tally(xs)[x := Get(Tally(xs), x) + 1]
  {
    InsertionOrderSnoc(xs, x);
    TallySnoc(xs, x);
    TallyHas(xs, x);
  }

  /** The key order after one more element. */
  lemma InsertionOrderSnoc(xs: seq<string>, x: string)
    ensures InsertionOrder(xs + [x]) == if x in xs then InsertionOrder(xs) else InsertionOrder(xs) + [x]
  {
    var ys := xs + [x];
    assert ys[..|ys| - 1] == xs;
  }

  /** The counts after one more element. */
  lemma TallySnoc(xs: seq<string>, x: string)
    ensures Tally(xs + [x]) == Bump(Tally(xs), x)
  {
    var ys := xs + [x];
    assert ys[..|ys| - 1] == xs;
  }

  /** An element is a key of the counts exactly when it occurs. */
  lemma TallyHas(xs: seq<string>, x: string)
    ensures x in Tally(xs) <==> x in xs
  {
    TallyCounts(xs);
  }

  /** The `(key, count)` items of a dictionary, in key order `keys`: `d.items()`. */
  function Items(keys: seq<string>, m: map<string, nat>): (es: seq<Entry>)
    requires forall k :: k in keys ==> k in m
    ensures |es| == |keys|
    ensures forall i :: 0 <= i < |keys| ==> es[i] == Entry(keys[i], m[keys[i]])
  {
    if keys == [] then [] else [Entry(keys[0], m[keys[0]])] + Items(keys[1..], m)
  }

  /** The keys of a sequence of items. */
  function Keys(es: seq<Entry>): (ks: seq<string>)
    ensures |ks| == |es|
    ensures forall i :: 0 <= i < |es| ==> ks[i] == es[i].key
  {
    if es == [] then [] else [es[0].key] + Keys(es[1..])
  }

  /** Counts never increase from left to right. */
  predicate NonIncreasing(es: seq<Entry>) {
    forall i, j :: 0 <= i < j < |es| ==> es[i].count >= es[j].count
  }

  /** The items whose count is `c`, in order. */
  function WithCount(es: seq<Entry>, c: nat): seq<Entry> {
    if es == [] then [] else (if es[0].count == c then [es[0]] else []) + WithCount(es[1..], c)
  }

  /** `e` placed before the first item whose count is not larger than its own. */
  function Insert(e: Entry, es: seq<Entry>): (r: seq<Entry>)
    ensures multiset(r) == multiset(es) + multiset{e}
  {
    if es == [] || es[0].count <= e.count then [e] + es
    else
      assert es == [es[0]] + es[1..];
      [es[0]] + Insert(e, es[1..])
  }

  lemma {:induction false} InsertNonIncreasing(e: Entry, es: seq<Entry>)
    requires NonIncreasing(es)
    ensures NonIncreasing(Insert(e, es))
  {
    if es == [] || es[0].count <= e.count {
      forall x | x in es ensures x.count <= e.count {
        var j :| 0 <= j < |es| && es[j] == x;
      }
      ConsNonIncreasing(e, es);
    } else {
      var t := Insert(e, es[1..]);
      assert es == [es[0]] + es[1..];
      InsertNonIncreasing(e, es[1..]);
      forall x | x in t ensures x.count <= es[0].count {
        assert x in multiset(t);
        assert x == e || x in multiset(es[1..]);
        if x != e {
          var j :| 0 <= j < |es[1..]| && es[1..][j] == x;
          assert x == es[j + 1];
        }
      }
      ConsNonIncreasing(es[0], t);
    }
  }

  /** An item with a count no smaller than any other can go in front. */
  lemma ConsNonIncreasing(e: Entry, es: seq<Entry>)
    requires NonIncreasing(es)
    requires forall x :: x in es ==> x.count <= e.count
    ensures NonIncreasing([e] + es)
  {
    var r := [e] + es;
    forall i, j | 0 <= i < j < |r| ensures r[i].count >= r[j].count {
      assert r[j] == es[j - 1];
      if i > 0 {
        assert r[i] == es[i - 1];
      }
    }
  }

  /**
   * The items sorted by descending count, ties kept in their original order:
   * `sorted(es, key=lambda x: -x[1])` and `sorted(es, key=count, reverse=True)`.
   */
  function SortByCountDesc(es: seq<Entry>): (r: seq<Entry>)
    ensures multiset(r) == multiset(es)
    ensures NonIncreasing(r)
  {
    if es == [] then []
    else
      assert es == [es[0]] + es[1..];
      var t := SortByCountDesc(es[1..]);
      InsertNonIncreasing(es[0], t);
      Insert(es[0], t)
  }

  lemma {:induction false} InsertWithCount(e: Entry, es: seq<Entry>, c: nat)
    ensures WithCount(Insert(e, es), c) == (if e.count == c then [e] else []) + WithCount(es, c)
  {
    if es == [] || es[0].count <= e.count {
      assert ([e] + es)[1..] == es;
    } else {
      InsertWithCount(e, es[1..], c);
      assert ([es[0]] + Insert(e, es[1..]))[1..] == Insert(e, es[1..]);
    }
  }

  /** The sort is stable: the items of any one count come out in the order they went in. */
  lemma {:induction false} SortStable(es: seq<Entry>, c: nat)
    ensures WithCount(SortByCountDesc(es), c) == WithCount(es, c)
  {
    if es != [] {
      SortStable(es[1..], c);
      InsertWithCount(es[0], SortByCountDesc(es[1..]), c);
    }
  }

  /** Sorting the items of a dictionary keeps exactly its keys. */
  lemma SortedItemKeys(keys: seq<string>, m: map<string, nat>)
    requires forall k :: k in keys ==> k in m
    ensures forall k :: k in Keys(SortByCountDesc(Items(keys, m))) <==> k in keys
  {
    var sorted := SortByCountDesc(Items(keys, m));
    var ks := Keys(sorted);
    SortedItemEntries(keys, m);
    forall k ensures k in ks <==> k in keys {
      if k in ks {
        var i :| 0 <= i < |ks| && ks[i] == k;
        assert sorted[i] in sorted;
      }
      if k in keys {
        assert Entry(k, m[k]) in sorted;
        var i :| 0 <= i < |sorted| && sorted[i] == Entry(k, m[k]);
        assert ks[i] == k;
      }
    }
  }

  /** The sorted items of a dictionary are exactly its `(key, count)` pairs. */
  lemma SortedItemEntries(keys: seq<string>, m: map<string, nat>)
    requires forall k :: k in keys ==> k in m
    ensures forall e :: e in SortByCountDesc(Items(keys, m)) <==> e.key in keys && e.count == m[e.key]
  {
    var items := Items(keys, m);
    var sorted := SortByCountDesc(items);
    forall e ensures e in sorted <==> e.key in keys && e.count == m[e.key] {
      if e in sorted {
        assert e in multiset(items);
        var j :| 0 <= j < |items| && items[j] == e;
      }
      if e.key in keys && e.count == m[e.key] {
        var j :| 0 <= j < |keys| && keys[j] == e.key;
        assert items[j] == e;
        assert e in multiset(sorted);
      }
    }
  }

  /**
   * The sorted items of a dictionary have one entry per key: the keys stay
   * distinct and there are as many entries as keys.
   */
  lemma SortedItemsDistinct(keys: seq<string>, m: map<string, nat>)
    requires forall k :: k in keys ==> k in m
    requires Distinct(keys)
    ensures Distinct(Keys(SortByCountDesc(Items(keys, m))))
    ensures |SortByCountDesc(Items(keys, m))| == |keys|
  {
    var items := Items(keys, m);
    var sorted := SortByCountDesc(items);
    assert |multiset(sorted)| == |multiset(items)|;
    SortedItemEntries(keys, m);
    forall i, j | 0 <= i < j < |sorted| ensures sorted[i].key != sorted[j].key {
      if sorted[i].key == sorted[j].key {
        assert sorted[i] in sorted && sorted[j] in sorted;
        assert sorted[i] == sorted[j];
        TwiceInMultiset(sorted, i, j);
        AtMostOnce(keys, m, sorted[i]);
        assert false;
      }
    }
  }

  /** An element found at two positions is counted at least twice. */
  lemma TwiceInMultiset(s: seq<Entry>, i: nat, j: nat)
    requires i < j < |s| && s[i] == s[j]
    ensures multiset(s)[s[i]] >= 2
  {
    assert s == s[..j] + [s[j]] + s[j + 1..];
    assert s[..j][i] == s[i];
  }

  /** The items of distinct keys hold each entry at most once. */
  lemma {:induction false} AtMostOnce(keys: seq<string>, m: map<string, nat>, e: Entry)
    requires forall k :: k in keys ==> k in m
    requires Distinct(keys)
    ensures multiset(Items(keys, m))[e] <= 1
  {
    if keys != [] {
      var items := Items(keys, m);
      AtMostOnce(keys[1..], m, e);
      assert items == [items[0]] + Items(keys[1..], m);
      if items[0] == e {
        forall x | x in Items(keys[1..], m) ensures x != e {
          var j :| 0 <= j < |Items(keys[1..], m)| && Items(keys[1..], m)[j] == x;
          assert keys[j + 1] == x.key;
        }
      }
    }
  }

  /** `es[:n]`. */
  function Take<T>(es: seq<T>, n: nat): (r: seq<T>)
    ensures |r| == if |es| < n then |es| else n
    ensures r == es[..|r|]
  {
    if |es| <= n then es else es[..n]
  }
}
