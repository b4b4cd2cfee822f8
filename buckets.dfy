/** The indices of the store: maps from a key (an age, a salary, a department) to
    the bucket of ids currently having that key. A bucket is a list in insertion
    order, as the Java's LinkedList buckets are. */
module Buckets {

  /** No id occurs twice in `s`. */
  predicate NoDuplicates(s: seq<int>)
  {
    forall i, j :: 0 <= i < j < |s| ==> s[i] != s[j]
  }

  lemma NoDuplicatesConcat(a: seq<int>, b: seq<int>)
    requires NoDuplicates(a) && NoDuplicates(b)
    requires forall x :: x in a ==> x !in b
    ensures NoDuplicates(a + b)
  {
    forall i, j | 0 <= i < j < |a + b| ensures (a + b)[i] != (a + b)[j] {
      if j >= |a| && i < |a| {
        assert (a + b)[i] in a && (a + b)[j] in b;
      }
    }
  }

  /** Position of the first occurrence of `x` in `s` (List.indexOf). */
  function IndexOf(s: seq<int>, x: int): (i: nat)
    requires x in s
    ensures i < |s| && s[i] == x && x !in s[..i]
  {
    if s[0] == x then 0
    else
      var i := IndexOf(s[1..], x);
      assert s[..i + 1] == [s[0]] + s[1..][..i];
      1 + i
  }

  /** List.remove(Object): the first occurrence of `x` is dropped and the rest keep
      their order; a list without `x` is returned as it is. */
  function RemoveFirst(s: seq<int>, x: int): (r: seq<int>)
    ensures x !in s ==> r == s
    ensures x in s ==> r == s[..IndexOf(s, x)] + s[IndexOf(s, x) + 1..]
  {
    if s == [] then []
    else if s[0] == x then s[1..]
    else
      var r := [s[0]] + RemoveFirst(s[1..], x);
      assert x in s ==> x in s[1..] && IndexOf(s, x) == 1 + IndexOf(s[1..], x);
      assert x in s ==> s[..IndexOf(s, x)] == [s[0]] + s[1..][..IndexOf(s[1..], x)];
      assert x in s ==> s[IndexOf(s, x) + 1..] == s[1..][IndexOf(s[1..], x) + 1..];
      r
  }

  /** Position by position, removing the first `x` shifts the tail down by one. */
  lemma RemoveFirstShift(s: seq<int>, x: int)
    requires x in s
    ensures |RemoveFirst(s, x)| == |s| - 1
    ensures forall k :: 0 <= k < |s| - 1 ==>
      RemoveFirst(s, x)[k] == s[if k < IndexOf(s, x) then k else k + 1]
  {
    var i := IndexOf(s, x);
    var r := RemoveFirst(s, x);
    assert r == s[..i] + s[i + 1..];
    forall k | 0 <= k < |s| - 1 ensures r[k] == s[if k < i then k else k + 1] {
      if k < i {
        assert r[k] == s[..i][k];
      } else {
        assert r[k] == s[i + 1..][k - i];
      }
    }
  }

  /** In a list without duplicates, removing `x` removes exactly `x`. */
  lemma RemoveFirstMembers(s: seq<int>, x: int)
    requires NoDuplicates(s)
    ensures NoDuplicates(RemoveFirst(s, x))
    ensures forall y :: y in RemoveFirst(s, x) <==> y in s && y != x
  {
    if x in s {
      var i := IndexOf(s, x);
      var r := RemoveFirst(s, x);
      RemoveFirstShift(s, x);
      assert NoDuplicates(r) by {
        forall a, b | 0 <= a < b < |r| ensures r[a] != r[b] {
          assert r[a] == s[if a < i then a else a + 1];
          assert r[b] == s[if b < i then b else b + 1];
        }
      }
      assert forall y :: y in r ==> y in s && y != x by {
        forall y | y in r ensures y in s && y != x {
          var a :| 0 <= a < |r| && r[a] == y;
          assert r[a] == s[if a < i then a else a + 1];
        }
      }
      assert forall y :: y in s && y != x ==> y in r by {
        forall y | y in s && y != x ensures y in r {
          var m :| 0 <= m < |s| && s[m] == y;
          assert m != i;
          if m < i {
            assert r[m] == s[m];
          } else {
            assert r[m - 1] == s[m];
          }
        }
      }
    }
  }

  /** `getOrDefault(k, emptyList)`: the bucket of `k`, empty for an unknown key. */
  function Bucket<K>(idx: map<K, seq<int>>, k: K): (r: seq<int>)
    ensures k in idx ==> r == idx[k]
    ensures k !in idx ==> r == []
  {
    if k in idx then idx[k] else []
  }

  /** Exact-match lookup: bucket `k` holds exactly the stored ids whose key is `k`,
      each once, and is empty for a key no stored id has. */
  lemma BucketMembers<K>(idx: map<K, seq<int>>, keys: map<int, K>, k: K)
    requires IsIndex(idx, keys)
    ensures NoDuplicates(Bucket(idx, k))
    ensures forall id :: id in Bucket(idx, k) <==> id in keys && keys[id] == k
  {
    forall id | id in Bucket(idx, k) ensures id in keys && keys[id] == k {
      var i :| 0 <= i < |idx[k]| && idx[k][i] == id;
    }
  }

  /** `computeIfAbsent(k, _ -> new LinkedList()).add(id)`: appends `id` to bucket `k`,
      creating the bucket when it is absent. */
  function Add<K>(idx: map<K, seq<int>>, k: K, id: int): (r: map<K, seq<int>>)
    ensures r.Keys == idx.Keys + {k}
    ensures r[k] == Bucket(idx, k) + [id]
    ensures forall j :: j in idx && j != k ==> r[j] == idx[j]
  {
    idx[k := Bucket(idx, k) + [id]]
  }

  /** `get(k).remove(id)`: drops `id` from bucket `k`; an emptied bucket stays in
      the map. (The Java dereferences `get(k)` unchecked; under IsIndex the bucket
      of a stored id always exists, so the missing-bucket case leaves `idx` as is.) */
  function Remove<K>(idx: map<K, seq<int>>, k: K, id: int): (r: map<K, seq<int>>)
    ensures r.Keys == idx.Keys
    ensures k in idx ==> r[k] == RemoveFirst(idx[k], id)
    ensures forall j :: j in idx && j != k ==> r[j] == idx[j]
  {
    if k in idx then idx[k := RemoveFirst(idx[k], id)] else idx
  }

  /** Appending an id that bucket `k` lacks and removing it again gives every key
      its old bucket back (a bucket created by the append stays, empty). */
  lemma AddThenRemove<K>(idx: map<K, seq<int>>, k: K, id: int)
    requires id !in Bucket(idx, k)
    ensures forall j :: Bucket(Remove(Add(idx, k, id), k, id), j) == Bucket(idx, j)
  {
    var b := Bucket(idx, k);
    var i := IndexOf(b + [id], id);
    assert forall m :: 0 <= m < |b| ==> (b + [id])[m] == b[m];
    assert i == |b|;
    assert (b + [id])[..|b|] == b;
  }

  /** The cross-structure invariant of one index against the key every stored id
      currently has (`keys` maps each id of the table to its key):
      every bucket is free of duplicates, every id in bucket `k` is stored with key
      `k`, and every stored id sits in the bucket of its key. */
  ghost predicate IsIndex<K>(idx: map<K, seq<int>>, keys: map<int, K>)
  {
    && (forall k :: k in idx ==> NoDuplicates(idx[k]))
    && (forall k, i :: k in idx && 0 <= i < |idx[k]| ==> idx[k][i] in keys && keys[idx[k][i]] == k)
    && (forall id :: id in keys ==> keys[id] in idx && id in idx[keys[id]])
  }

  /** Every id that occurs in some bucket. */
  ghost function Members<K>(idx: map<K, seq<int>>): set<int>
  {
    set k, id | k in idx && id in idx[k] :: id
  }

  /** The union of the buckets is exactly the set of stored ids. */
  lemma UnionOfBuckets<K>(idx: map<K, seq<int>>, keys: map<int, K>)
    requires IsIndex(idx, keys)
    ensures Members(idx) == keys.Keys
  {
    forall id | id in Members(idx) ensures id in keys {
      var k, i :| k in idx && 0 <= i < |idx[k]| && idx[k][i] == id;
    }
    forall id | id in keys ensures id in Members(idx) {
      assert keys[id] in idx && id in idx[keys[id]];
    }
  }

  /** A stored id sits in one bucket only, and in that bucket once. */
  lemma SingleBucket<K>(idx: map<K, seq<int>>, keys: map<int, K>, id: int, k1: K, i1: int, k2: K, i2: int)
    requires IsIndex(idx, keys)
    requires k1 in idx && 0 <= i1 < |idx[k1]| && idx[k1][i1] == id
    requires k2 in idx && 0 <= i2 < |idx[k2]| && idx[k2][i2] == id
    ensures k1 == k2 && i1 == i2
  {
    assert keys[idx[k1][i1]] == k1 && keys[idx[k2][i2]] == k2;
    assert NoDuplicates(idx[k1]);
  }

  /** Inserting a new id under key `k` keeps the index exact. */
  lemma AddKeepsIndex<K>(idx: map<K, seq<int>>, keys: map<int, K>, k: K, id: int)
    requires IsIndex(idx, keys) && id !in keys
    ensures IsIndex(Add(idx, k, id), keys[id := k])
  {
    var r, keys' := Add(idx, k, id), keys[id := k];
    assert forall i :: 0 <= i < |Bucket(idx, k)| ==> Bucket(idx, k)[i] in keys;
    NoDuplicatesConcat(Bucket(idx, k), [id]);
    forall j, i | j in r && 0 <= i < |r[j]| ensures r[j][i] in keys' && keys'[r[j][i]] == j {
      if j == k && i == |Bucket(idx, k)| {
        assert r[j][i] == id;
      } else {
        assert r[j][i] == idx[j][i];
      }
    }
    forall x | x in keys' ensures keys'[x] in r && x in r[keys'[x]] {
      if x != id {
        assert x in idx[keys[x]];
        assert x in Bucket(idx, keys[x]);
      }
    }
  }

  /** Deleting a stored id from the bucket of its key keeps the index exact. */
  lemma RemoveKeepsIndex<K>(idx: map<K, seq<int>>, keys: map<int, K>, id: int)
    requires IsIndex(idx, keys) && id in keys
    ensures IsIndex(Remove(idx, keys[id], id), keys - {id})
  {
    var k0, r, keys' := keys[id], Remove(idx, keys[id], id), keys - {id};
    RemoveFirstMembers(idx[k0], id);
    forall j, i | j in r && 0 <= i < |r[j]| ensures r[j][i] in keys' && keys'[r[j][i]] == j {
      if j == k0 {
        assert r[j][i] in idx[k0];
        var m :| 0 <= m < |idx[k0]| && idx[k0][m] == r[j][i];
      } else {
        assert r[j][i] == idx[j][i];
      }
    }
    forall x | x in keys' ensures keys'[x] in r && x in r[keys'[x]] {
      assert x in idx[keys[x]];
    }
  }

  /** Moving a stored id from the bucket of its key to the bucket of `k` (remove,
      then add) keeps the index exact for the id's new key. */
  lemma RekeyKeepsIndex<K>(idx: map<K, seq<int>>, keys: map<int, K>, id: int, k: K)
    requires IsIndex(idx, keys) && id in keys
    ensures IsIndex(Add(Remove(idx, keys[id], id), k, id), keys[id := k])
  {
    RemoveKeepsIndex(idx, keys, id);
    AddKeepsIndex(Remove(idx, keys[id], id), keys - {id}, k, id);
    assert (keys - {id})[id := k] == keys[id := k];
  }

  /** `subMap(lo, true, hi, true).values()`: the buckets of the keys in
      [lo, hi], in ascending key order. */
  function SubMapValues(idx: map<int, seq<int>>, lo: int, hi: int): (r: seq<seq<int>>)
    ensures forall b :: b in r ==> exists k :: lo <= k <= hi && k in idx && idx[k] == b
    ensures forall k :: lo <= k <= hi && k in idx ==> idx[k] in r
    decreases hi - lo
  {
    if lo > hi then []
    else (if lo in idx then [idx[lo]] else []) + SubMapValues(idx, lo + 1, hi)
  }

  /** `getCombinedList`: the lists concatenated in order (`flatMap(List::stream)`). */
  function CombinedList(lists: seq<seq<int>>): (r: seq<int>)
    ensures forall x :: x in r <==> exists i :: 0 <= i < |lists| && x in lists[i]
  {
    if lists == [] then []
    else
      var r := lists[0] + CombinedList(lists[1..]);
      assert forall x, i :: 1 <= i < |lists| && x in lists[i] ==> x in lists[1..][i - 1];
      assert forall x, i :: 0 <= i < |lists| - 1 && x in lists[1..][i] ==> x in lists[i + 1];
      r
  }

  /** The ids of an inclusive range scan, bucket by bucket in ascending key order. */
  function Range(idx: map<int, seq<int>>, lo: int, hi: int): (r: seq<int>)
    ensures forall x :: x in r <==> exists k :: lo <= k <= hi && x in Bucket(idx, k)
  {
    var lists := SubMapValues(idx, lo, hi);
    var r := CombinedList(lists);
    assert forall x :: x in r ==> exists k :: lo <= k <= hi && x in Bucket(idx, k) by {
      forall x | x in r ensures exists k :: lo <= k <= hi && x in Bucket(idx, k) {
        var i :| 0 <= i < |lists| && x in lists[i];
        assert lists[i] in lists;
        var k :| lo <= k <= hi && k in idx && idx[k] == lists[i];
        assert x in Bucket(idx, k);
      }
    }
    assert forall x :: (exists k :: lo <= k <= hi && x in Bucket(idx, k)) ==> x in r by {
      forall x | exists k :: lo <= k <= hi && x in Bucket(idx, k) ensures x in r {
        var k :| lo <= k <= hi && x in Bucket(idx, k);
        assert idx[k] in lists;
        var i :| 0 <= i < |lists| && lists[i] == idx[k];
      }
    }
    r
  }

  /** One step of a range scan: the lowest bucket, then the rest of the range. */
  lemma RangeStep(idx: map<int, seq<int>>, lo: int, hi: int)
    requires lo <= hi
    ensures Range(idx, lo, hi) == Bucket(idx, lo) + Range(idx, lo + 1, hi)
  {
    var rest := SubMapValues(idx, lo + 1, hi);
    if lo in idx {
      assert SubMapValues(idx, lo, hi) == [idx[lo]] + rest;
      assert ([idx[lo]] + rest)[1..] == rest;
    } else {
      assert SubMapValues(idx, lo, hi) == rest;
    }
  }

  /** A scan sees buckets only: two indices that give every key the same bucket
      (one may hold empty buckets the other lacks) give the same scan. */
  lemma {:induction false} RangeSameBuckets(a: map<int, seq<int>>, b: map<int, seq<int>>, lo: int, hi: int)
    requires forall k :: Bucket(a, k) == Bucket(b, k)
    ensures Range(a, lo, hi) == Range(b, lo, hi)
    decreases hi - lo
  {
    if lo <= hi {
      RangeStep(a, lo, hi);
      RangeStep(b, lo, hi);
      RangeSameBuckets(a, b, lo + 1, hi);
    }
  }

  /** Range inclusivity: a scan over [lo, hi] yields exactly the stored ids whose
      key lies in [lo, hi], both bounds included. */
  lemma {:induction false} RangeMembers(idx: map<int, seq<int>>, keys: map<int, int>, lo: int, hi: int)
    requires IsIndex(idx, keys)
    ensures forall id :: id in Range(idx, lo, hi) <==> id in keys && lo <= keys[id] <= hi
    decreases hi - lo
  {
    if lo <= hi {
      RangeStep(idx, lo, hi);
      RangeMembers(idx, keys, lo + 1, hi);
      BucketMembers(idx, keys, lo);
    }
  }

  /** Every element of `s` is a stored id, and their keys never decrease along `s`. */
  ghost predicate AscendingBy(s: seq<int>, keys: map<int, int>)
  {
    && (forall i :: 0 <= i < |s| ==> s[i] in keys)
    && (forall i, j :: 0 <= i < j < |s| ==> keys[s[i]] <= keys[s[j]])
  }

  lemma AscendingConcat(a: seq<int>, b: seq<int>, keys: map<int, int>)
    requires AscendingBy(a, keys) && AscendingBy(b, keys)
    requires forall i, j :: 0 <= i < |a| && 0 <= j < |b| ==> keys[a[i]] <= keys[b[j]]
    ensures AscendingBy(a + b, keys)
  {
    var r := a + b;
    forall i, j | 0 <= i < j < |r| ensures keys[r[i]] <= keys[r[j]] {
      if j < |a| {
        assert r[i] == a[i] && r[j] == a[j];
      } else if i < |a| {
        assert r[i] == a[i] && r[j] == b[j - |a|];
      } else {
        assert r[i] == b[i - |a|] && r[j] == b[j - |a|];
      }
    }
  }

  /** A range scan lists each id once. */
  lemma {:induction false} RangeNoDuplicates(idx: map<int, seq<int>>, keys: map<int, int>, lo: int, hi: int)
    requires IsIndex(idx, keys)
    ensures NoDuplicates(Range(idx, lo, hi))
    decreases hi - lo
  {
    if lo <= hi {
      var b, rest := Bucket(idx, lo), Range(idx, lo + 1, hi);
      RangeStep(idx, lo, hi);
      RangeNoDuplicates(idx, keys, lo + 1, hi);
      RangeMembers(idx, keys, lo + 1, hi);
      forall x | x in b ensures x !in rest {
        var i :| 0 <= i < |b| && b[i] == x;
        assert keys[b[i]] == lo;
      }
      NoDuplicatesConcat(b, rest);
    }
  }

  /** A range scan yields its ids in ascending order of key, bucket by bucket. */
  lemma {:induction false} RangeAscending(idx: map<int, seq<int>>, keys: map<int, int>, lo: int, hi: int)
    requires IsIndex(idx, keys)
    ensures AscendingBy(Range(idx, lo, hi), keys)
    decreases hi - lo
  {
    if lo <= hi {
      var b, rest := Bucket(idx, lo), Range(idx, lo + 1, hi);
      RangeStep(idx, lo, hi);
      RangeAscending(idx, keys, lo + 1, hi);
      RangeMembers(idx, keys, lo + 1, hi);
      assert AscendingBy(b, keys) by {
        assert forall i :: 0 <= i < |b| ==> b[i] in keys && keys[b[i]] == lo;
      }
      assert forall x :: x in rest ==> x in keys && lo < keys[x];
      forall i, j | 0 <= i < |b| && 0 <= j < |rest| ensures keys[b[i]] <= keys[rest[j]] {
        assert keys[b[i]] == lo;
        assert rest[j] in rest;
      }
      AscendingConcat(b, rest, keys);
    }
  }
}
