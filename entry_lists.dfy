/**
 * The map a tree stands for. The in-order entry sequence of a search tree is
 * sorted by key; `MapOf` reads it as a map, and `Upsert` and `Delete` are the
 * reference definitions of put and remove on that sequence.
 */
module EntryLists {
  import opened Wrappers
  import opened RedBlackTrees

  /** The mapping held by a sequence of entries (the first entry for a key wins). */
  function MapOf<V>(es: seq<Pair<V>>): map<int, V>
  {
    if es == [] then map[] else MapOf(es[1..])[es[0].key := es[0].value]
  }

  /** The key set of a sequence of entries. */
  function KeySet<V>(es: seq<Pair<V>>): set<int>
  {
    set i | 0 <= i < |es| :: es[i].key
  }

  /** put on a sorted entry sequence: replace the pair with key `k`, or insert it in order. */
  function Upsert<V>(es: seq<Pair<V>>, k: int, v: V): seq<Pair<V>>
  {
    if es == [] then [Pair(k, v)]
    else if k < es[0].key then [Pair(k, v)] + es
    else if k == es[0].key then [Pair(k, v)] + es[1..]
    else [es[0]] + Upsert(es[1..], k, v)
  }

  /** remove on an entry sequence: drop the first pair with key `k`, if any. */
  function Delete<V>(es: seq<Pair<V>>, k: int): seq<Pair<V>>
  {
    if es == [] then []
    else if es[0].key == k then es[1..]
    else [es[0]] + Delete(es[1..], k)
  }

  // ---------------------------------------------------------------------
  // The map, read off a sequence

  lemma KeySetCons<V>(p: Pair<V>, es: seq<Pair<V>>)
    ensures KeySet([p] + es) == {p.key} + KeySet(es)
  {
    var s := [p] + es;
    forall k | k in KeySet(s)
      ensures k in {p.key} + KeySet(es)
    {
      var i :| 0 <= i < |s| && s[i].key == k;
      if i > 0 {
        assert es[i - 1] == s[i];
      }
    }
    forall k | k in KeySet(es)
      ensures k in KeySet(s)
    {
      var i :| 0 <= i < |es| && es[i].key == k;
      assert s[i + 1] == es[i];
    }
    assert s[0] == p;
  }

  lemma {:induction false} MapOfKeys<V>(es: seq<Pair<V>>)
    ensures MapOf(es).Keys == KeySet(es)
  {
    if es != [] {
      MapOfKeys(es[1..]);
      assert es == [es[0]] + es[1..];
      KeySetCons(es[0], es[1..]);
    }
  }

  /** In a sorted sequence every pair is what the map holds for its key. */
  lemma {:induction false} MapOfAt<V>(es: seq<Pair<V>>, i: int)
    requires Sorted(es) && 0 <= i < |es|
    ensures es[i].key in MapOf(es) && MapOf(es)[es[i].key] == es[i].value
  {
    if i > 0 {
      MapOfAt(es[1..], i - 1);
      assert es[1..][i - 1] == es[i];
      assert es[0].key < es[i].key;
    }
  }

  lemma SortedTail<V>(es: seq<Pair<V>>)
    requires Sorted(es) && es != []
    ensures Sorted(es[1..]) && forall e :: e in es[1..] ==> es[0].key < e.key
  {
    forall e | e in es[1..]
      ensures es[0].key < e.key
    {
      var j :| 0 <= j < |es[1..]| && es[1..][j] == e;
      assert es[j + 1] == e;
    }
  }

  lemma SortedCons<V>(p: Pair<V>, es: seq<Pair<V>>)
    requires Sorted(es) && forall e :: e in es ==> p.key < e.key
    ensures Sorted([p] + es)
  {
    var s := [p] + es;
    forall i, j | 0 <= i < j < |s|
      ensures s[i].key < s[j].key
    {
      assert s[j] == es[j - 1];
      if i > 0 {
        assert s[i] == es[i - 1];
      } else {
        assert es[j - 1] in es;
      }
    }
  }

  // ---------------------------------------------------------------------
  // put

  lemma {:induction false} UpsertKeys<V>(es: seq<Pair<V>>, k: int, v: V)
    ensures KeySet(Upsert(es, k, v)) == KeySet(es) + {k}
  {
    if es != [] {
      assert es == [es[0]] + es[1..];
      KeySetCons(es[0], es[1..]);
      if k > es[0].key {
        UpsertKeys(es[1..], k, v);
        KeySetCons(es[0], Upsert(es[1..], k, v));
      } else if k == es[0].key {
        KeySetCons(Pair(k, v), es[1..]);
      } else {
        KeySetCons(Pair(k, v), es);
      }
    } else {
      assert [Pair(k, v)] + es == [Pair(k, v)];
      KeySetCons(Pair(k, v), es);
    }
  }

  lemma {:induction false} UpsertSorted<V>(es: seq<Pair<V>>, k: int, v: V)
    requires Sorted(es)
    ensures Sorted(Upsert(es, k, v))
  {
    if es != [] {
      SortedTail(es);
      if k > es[0].key {
        UpsertSorted(es[1..], k, v);
        UpsertKeys(es[1..], k, v);
        forall e | e in Upsert(es[1..], k, v)
          ensures es[0].key < e.key
        {
          assert e.key in KeySet(Upsert(es[1..], k, v));
          if e.key != k {
            var f :| f in es[1..] && f.key == e.key;
          }
        }
        SortedCons(es[0], Upsert(es[1..], k, v));
      } else if k == es[0].key {
        SortedCons(Pair(k, v), es[1..]);
      } else {
        forall e | e in es
          ensures k < e.key
        {
          if e != es[0] {
            assert e in es[1..];
          }
        }
        SortedCons(Pair(k, v), es);
      }
    }
  }

  /** put maps `k` to `v` and leaves every other key as it was. */
  lemma {:induction false} UpsertMap<V>(es: seq<Pair<V>>, k: int, v: V)
    requires Sorted(es)
    ensures MapOf(Upsert(es, k, v)) == MapOf(es)[k := v]
  {
    if es != [] {
      SortedTail(es);
      if k > es[0].key {
        UpsertMap(es[1..], k, v);
        assert Upsert(es, k, v)[1..] == Upsert(es[1..], k, v);
      } else if k == es[0].key {
        assert ([Pair(k, v)] + es[1..])[1..] == es[1..];
      } else {
        assert ([Pair(k, v)] + es)[1..] == es;
        MapOfKeys(es);
        assert k !in MapOf(es);
      }
    }
  }

  /** When the key is at position i, put overwrites that position. */
  lemma {:induction false} UpsertAt<V>(es: seq<Pair<V>>, i: int, v: V)
    requires Sorted(es) && 0 <= i < |es|
    ensures Upsert(es, es[i].key, v) == es[i := Pair(es[i].key, v)]
  {
    if i > 0 {
      assert es[0].key < es[i].key;
      UpsertAt(es[1..], i - 1, v);
      assert es[1..][i - 1] == es[i];
      assert es[i := Pair(es[i].key, v)] == [es[0]] + es[1..][i - 1 := Pair(es[i].key, v)];
    }
  }

  /** When the key falls between `a` and `b`, put inserts the pair there. */
  lemma {:induction false} UpsertBetween<V>(a: seq<Pair<V>>, b: seq<Pair<V>>, k: int, v: V)
    requires forall e :: e in a ==> e.key < k
    requires forall e :: e in b ==> e.key > k
    ensures Upsert(a + b, k, v) == a + [Pair(k, v)] + b
  {
    if a == [] {
      assert a + b == b;
      if b != [] {
        assert b[0] in b;
      }
    } else {
      assert a[0] in a;
      assert (a + b)[0] == a[0] && (a + b)[1..] == a[1..] + b;
      UpsertBetween(a[1..], b, k, v);
      assert a + [Pair(k, v)] + b == [a[0]] + (a[1..] + [Pair(k, v)] + b);
    }
  }

  // ---------------------------------------------------------------------
  // remove

  lemma {:induction false} DeleteAbsent<V>(es: seq<Pair<V>>, k: int)
    requires forall e :: e in es ==> e.key != k
    ensures Delete(es, k) == es
  {
    if es != [] {
      assert es[0] in es;
      DeleteAbsent(es[1..], k);
    }
  }

  /** Removing the key at position i drops exactly that position. */
  lemma {:induction false} DeleteAt<V>(es: seq<Pair<V>>, i: int)
    requires Sorted(es) && 0 <= i < |es|
    ensures Delete(es, es[i].key) == es[..i] + es[i + 1..]
  {
    if i > 0 {
      assert es[0].key < es[i].key;
      DeleteAt(es[1..], i - 1);
      assert es[1..][i - 1] == es[i];
      assert es[..i] + es[i + 1..] == [es[0]] + (es[1..][..i - 1] + es[1..][i..]);
    }
  }

  lemma {:induction false} DeleteSorted<V>(es: seq<Pair<V>>, k: int)
    requires Sorted(es)
    ensures Sorted(Delete(es, k)) && KeySet(Delete(es, k)) == KeySet(es) - {k}
  {
    if es != [] {
      SortedTail(es);
      assert es == [es[0]] + es[1..];
      KeySetCons(es[0], es[1..]);
      if es[0].key == k {
        assert k !in KeySet(es[1..]);
      } else {
        DeleteSorted(es[1..], k);
        var d := Delete(es[1..], k);
        forall e | e in d
          ensures es[0].key < e.key
        {
          assert e.key in KeySet(d);
          var f :| f in es[1..] && f.key == e.key;
        }
        SortedCons(es[0], d);
        KeySetCons(es[0], d);
      }
    }
  }

  /** remove unmaps `k` and leaves every other key as it was. */
  lemma {:induction false} DeleteMap<V>(es: seq<Pair<V>>, k: int)
    requires Sorted(es)
    ensures MapOf(Delete(es, k)) == MapOf(es) - {k}
  {
    if es != [] {
      SortedTail(es);
      if es[0].key == k {
        MapOfKeys(es[1..]);
        assert k !in KeySet(es[1..]);
      } else {
        DeleteMap(es[1..], k);
        assert Delete(es, k)[1..] == Delete(es[1..], k);
      }
    }
  }

  // ---------------------------------------------------------------------
  // Reading entries and the map against each other

  /** In a sorted sequence every entry is a mapping and every mapping is an entry. */
  lemma ContentsOfEntries<V>(es: seq<Pair<V>>)
    requires Sorted(es)
    ensures forall e :: e in es ==> e.key in MapOf(es) && MapOf(es)[e.key] == e.value
    ensures forall k :: k in MapOf(es) ==> Pair(k, MapOf(es)[k]) in es
  {
    forall e | e in es
      ensures e.key in MapOf(es) && MapOf(es)[e.key] == e.value
    {
      var i :| 0 <= i < |es| && es[i] == e;
      MapOfAt(es, i);
    }
    forall k | k in MapOf(es)
      ensures Pair(k, MapOf(es)[k]) in es
    {
      MapOfKeys(es);
      var i :| 0 <= i < |es| && es[i].key == k;
      MapOfAt(es, i);
    }
  }

  /** A sorted sequence has one entry per key: its length is the map's size. */
  lemma {:induction false} KeyCount<V>(es: seq<Pair<V>>)
    requires Sorted(es)
    ensures |KeySet(es)| == |es| && |MapOf(es)| == |es|
  {
    MapOfKeys(es);
    if es != [] {
      SortedTail(es);
      KeyCount(es[1..]);
      assert es == [es[0]] + es[1..];
      KeySetCons(es[0], es[1..]);
      assert es[0].key !in KeySet(es[1..]) by {
        forall i | 0 <= i < |es[1..]|
          ensures es[1..][i].key != es[0].key
        {
          assert es[1..][i] == es[i + 1];
        }
      }
    }
  }

  /** A pair appended under a new key adds exactly that mapping. */
  lemma {:induction false} MapOfSnoc<V>(es: seq<Pair<V>>, p: Pair<V>)
    requires p.key !in KeySet(es)
    ensures MapOf(es + [p]) == MapOf(es)[p.key := p.value]
  {
    if es == [] {
      assert es + [p] == [p];
    } else {
      assert (es + [p])[1..] == es[1..] + [p];
      assert es == [es[0]] + es[1..];
      KeySetCons(es[0], es[1..]);
      MapOfSnoc(es[1..], p);
    }
  }

  // ---------------------------------------------------------------------
  // Extremes of a key set, as the navigation methods promise them

  /** `r` is the least element of `s`, or none when `s` is empty. */
  ghost predicate IsLeast(s: set<int>, r: Option<int>)
  {
    (r.None? <==> s == {}) && (r.Some? ==> r.value in s && forall k :: k in s ==> r.value <= k)
  }

  /** `r` is the greatest element of `s`, or none when `s` is empty. */
  ghost predicate IsGreatest(s: set<int>, r: Option<int>)
  {
    (r.None? <==> s == {}) && (r.Some? ==> r.value in s && forall k :: k in s ==> k <= r.value)
  }

  /** The keys of `m` at or above `key` (above it when `strict`). */
  ghost function KeysAbove<V>(m: map<int, V>, key: int, strict: bool): set<int>
  {
    set k | k in m && (if strict then k > key else k >= key)
  }

  /** The keys of `m` at or below `key` (below it when `strict`). */
  ghost function KeysBelow<V>(m: map<int, V>, key: int, strict: bool): set<int>
  {
    set k | k in m && (if strict then k < key else k <= key)
  }
}
