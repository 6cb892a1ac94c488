/** The chained hash table of Core.Library/DataStructures/HashTable.cs: a
    fixed array of bucket chains, never rehashed. `GetHashCode` is a
    parameter of the table and key equality is `==`. */
module HashTables {
  import opened Wrappers

  /** The bucket count of `new HashTable()` when no capacity is given. */
  const DefaultCapacity: int := 16

  /** `GetBucketIndex`: the 32-bit hash with its sign bit masked off, modulo
      the bucket count. The masked hash is non-negative, so C#'s truncating
      `%` and Dafny's Euclidean `%` agree here. */
  function IndexFor(h: bv32, capacity: int): (i: int)
    requires capacity > 0
    ensures 0 <= i < capacity
  {
    (h & 0x7FFF_FFFF) as int % capacity
  }

  /** No two entries of `chain` share a key. */
  ghost predicate DistinctKeys<K, V>(chain: seq<(K, V)>)
  {
    forall j, j' :: 0 <= j < j' < |chain| ==> chain[j].0 != chain[j'].0
  }

  /** The entries of the buckets in bucket-then-chain order: the order in
      which `GetEnumerator` yields them. */
  function Flatten<K, V>(bs: seq<seq<(K, V)>>): seq<(K, V)>
  {
    if bs == [] then [] else Flatten(bs[..|bs| - 1]) + bs[|bs| - 1]
  }

  /** `LinkedList.Remove` of the first entry whose key is `key`. It drops
      exactly one entry when some entry has the key, and otherwise none; the
      entries it keeps come from the chain. */
  function RemoveEntry<K(==), V>(chain: seq<(K, V)>, key: K): (r: seq<(K, V)>)
    ensures |r| == if exists j :: 0 <= j < |chain| && chain[j].0 == key then |chain| - 1 else |chain|
    ensures forall j :: 0 <= j < |r| ==> r[j] in chain
  {
    if chain == [] then []
    else if chain[0].0 == key then chain[1..]
    else [chain[0]] + RemoveEntry(chain[1..], key)
  }

  /** What every entry of the chain in bucket `i` must satisfy: it sits in
      the bucket its key hashes to and it is the key's mapping. */
  ghost predicate ChainValid<K, V>(chain: seq<(K, V)>, i: int, capacity: int,
                                  hash: K -> bv32, contents: map<K, V>)
    requires capacity > 0
  {
    && DistinctKeys(chain)
    && forall j :: 0 <= j < |chain| ==>
         && IndexFor(hash(chain[j].0), capacity) == i
         && chain[j].0 in contents
         && contents[chain[j].0] == chain[j].1
  }

  lemma {:induction false} FlattenAllEmpty<K, V>(bs: seq<seq<(K, V)>>)
    requires forall i :: 0 <= i < |bs| ==> bs[i] == []
    ensures Flatten(bs) == []
  {
    if bs != [] {
      FlattenAllEmpty(bs[..|bs| - 1]);
    }
  }

  /** Replacing one chain changes the number of entries by the difference
      of the chain lengths. */
  lemma {:induction false} FlattenUpdate<K, V>(bs: seq<seq<(K, V)>>, i: int, c: seq<(K, V)>)
    requires 0 <= i < |bs|
    ensures |Flatten(bs[i := c])| == |Flatten(bs)| - |bs[i]| + |c|
  {
    var n := |bs| - 1;
    assert bs[i := c][..n] == if i == n then bs[..n] else bs[..n][i := c];
    if i < n {
      FlattenUpdate(bs[..n], i, c);
    }
  }

  /** Removing the first entry with `key` removes the entry at its first
      position `j`. */
  lemma {:induction false} RemoveEntryAt<K, V>(chain: seq<(K, V)>, key: K, j: int)
    requires 0 <= j < |chain| && chain[j].0 == key
    requires forall j' :: 0 <= j' < j ==> chain[j'].0 != key
    ensures RemoveEntry(chain, key) == chain[..j] + chain[j + 1..]
  {
    if j > 0 {
      RemoveEntryAt(chain[1..], key, j - 1);
      assert chain[1..][..j - 1] == chain[1..j];
      assert chain[1..][j..] == chain[j + 1..];
      assert chain[..j] == [chain[0]] + chain[1..j];
    }
  }

  /** Removing an absent key leaves a chain as it is. */
  lemma {:induction false} RemoveEntryAbsent<K, V>(chain: seq<(K, V)>, key: K)
    requires forall j :: 0 <= j < |chain| ==> chain[j].0 != key
    ensures RemoveEntry(chain, key) == chain
  {
    if chain != [] {
      RemoveEntryAbsent(chain[1..], key);
    }
  }

  /** The table invariant on the bucket contents as a sequence: every entry
      sits in the bucket of its key and is that key's mapping, keys are
      unique within a chain (hence across the table, since a key has one
      bucket), every mapping is stored, and `count` is both the number of
      keys and the number of entries. */
  ghost predicate TableValid<K(!new), V>(bs: seq<seq<(K, V)>>, hash: K -> bv32,
                                        contents: map<K, V>, count: int)
  {
    && |bs| > 0
    && (forall i :: 0 <= i < |bs| ==> ChainValid(bs[i], i, |bs|, hash, contents))
    && (forall k :: k in contents ==> (k, contents[k]) in bs[IndexFor(hash(k), |bs|)])
    && count == |contents|
    && count == |Flatten(bs)|
  }

  /** A key found in no entry of its bucket is not mapped. */
  lemma AbsentFromChain<K(!new), V>(bs: seq<seq<(K, V)>>, hash: K -> bv32,
                                    contents: map<K, V>, count: int, key: K)
    requires TableValid(bs, hash, contents, count)
    requires forall j :: 0 <= j < |bs[IndexFor(hash(key), |bs|)]| ==>
               bs[IndexFor(hash(key), |bs|)][j].0 != key
    ensures key !in contents
  {
  }

  /** Appending a fresh key's entry to the chain of its bucket keeps the
      chain valid for the mapping extended with that key. */
  lemma ChainAppendValid<K, V>(chain: seq<(K, V)>, i: int, n: int, hash: K -> bv32,
                               contents: map<K, V>, key: K, value: V)
    requires n > 0 && IndexFor(hash(key), n) == i && key !in contents
    requires ChainValid(chain, i, n, hash, contents)
    ensures ChainValid(chain + [(key, value)], i, n, hash, contents[key := value])
  {
    var c := chain + [(key, value)];
    forall j, j' | 0 <= j < j' < |c| ensures c[j].0 != c[j'].0 {
      if j' == |chain| {
        assert chain[j].0 in contents;
      }
    }
  }

  /** A chain of another bucket stays valid when a fresh key is mapped. */
  lemma ChainOtherAdd<K, V>(chain: seq<(K, V)>, i: int, n: int, hash: K -> bv32,
                            contents: map<K, V>, key: K, value: V)
    requires n > 0 && key !in contents
    requires ChainValid(chain, i, n, hash, contents)
    ensures ChainValid(chain, i, n, hash, contents[key := value])
  {
  }

  /** Appending a fresh key to its chain keeps the invariant, with the key
      mapped and one more entry. */
  lemma AppendValid<K(!new), V>(bs: seq<seq<(K, V)>>, hash: K -> bv32,
                                contents: map<K, V>, count: int, key: K, value: V)
    requires TableValid(bs, hash, contents, count)
    requires key !in contents
    ensures var i := IndexFor(hash(key), |bs|);
            TableValid(bs[i := bs[i] + [(key, value)]], hash, contents[key := value], count + 1)
  {
    var n := |bs|;
    var i := IndexFor(hash(key), n);
    var chain := bs[i] + [(key, value)];
    var bs' := bs[i := chain];
    var c' := contents[key := value];
    forall i' | 0 <= i' < n ensures ChainValid(bs'[i'], i', n, hash, c') {
      assert ChainValid(bs[i'], i', n, hash, contents);
      if i' == i {
        ChainAppendValid(bs[i], i, n, hash, contents, key, value);
      } else {
        ChainOtherAdd(bs[i'], i', n, hash, contents, key, value);
      }
    }
    forall k | k in c' ensures (k, c'[k]) in bs'[IndexFor(hash(k), n)] {
      if k != key {
        assert (k, contents[k]) in bs[IndexFor(hash(k), n)];
      } else {
        assert chain[|bs[i]|] == (key, value);
      }
    }
    FlattenUpdate(bs, i, chain);
  }

  /** Unlinking the entry at `j` from its chain keeps the chain valid for
      the mapping without that entry's key. */
  lemma ChainUnlinkValid<K, V>(chain: seq<(K, V)>, j: int, i: int, n: int,
                               hash: K -> bv32, contents: map<K, V>)
    requires n > 0 && 0 <= j < |chain|
    requires ChainValid(chain, i, n, hash, contents)
    ensures ChainValid(chain[..j] + chain[j + 1..], i, n, hash, contents - {chain[j].0})
  {
    var rest := chain[..j] + chain[j + 1..];
    forall p | 0 <= p < |rest| ensures rest[p] == chain[if p < j then p else p + 1] {
    }
  }

  /** A chain the removed key does not hash to stays valid. */
  lemma ChainOtherValid<K, V>(chain: seq<(K, V)>, i: int, n: int,
                              hash: K -> bv32, contents: map<K, V>, key: K)
    requires n > 0 && IndexFor(hash(key), n) != i
    requires ChainValid(chain, i, n, hash, contents)
    ensures ChainValid(chain, i, n, hash, contents - {key})
  {
  }

  /** An element other than the one at `j` survives its removal. */
  lemma InRest<E>(c: seq<E>, j: int, e: E)
    requires 0 <= j < |c| && e in c && e != c[j]
    ensures e in c[..j] + c[j + 1..]
  {
    var p :| 0 <= p < |c| && c[p] == e;
    if p < j {
      assert (c[..j] + c[j + 1..])[p] == e;
    } else {
      assert (c[..j] + c[j + 1..])[p - 1] == e;
    }
  }

  /** Every other key's mapping is still stored once the entry at `j` of
      `key`'s chain is unlinked. */
  lemma UnlinkKeepsStored<K, V>(bs: seq<seq<(K, V)>>, hash: K -> bv32,
                                contents: map<K, V>, key: K, i: int, j: int)
    requires |bs| > 0 && i == IndexFor(hash(key), |bs|)
    requires 0 <= j < |bs[i]| && bs[i][j].0 == key
    requires forall k :: k in contents ==> (k, contents[k]) in bs[IndexFor(hash(k), |bs|)]
    ensures var bs' := bs[i := bs[i][..j] + bs[i][j + 1..]];
            forall k :: k in contents - {key} ==> (k, (contents - {key})[k]) in bs'[IndexFor(hash(k), |bs|)]
  {
    var bs' := bs[i := bs[i][..j] + bs[i][j + 1..]];
    forall k | k in contents - {key}
      ensures (k, (contents - {key})[k]) in bs'[IndexFor(hash(k), |bs|)]
    {
      var e := (k, contents[k]);
      assert e in bs[IndexFor(hash(k), |bs|)];
      if IndexFor(hash(k), |bs|) == i {
        assert e != bs[i][j];
        InRest(bs[i], j, e);
      }
    }
  }

  /** Unlinking the entry of a present key keeps the invariant, with the
      key unmapped and one entry fewer. */
  lemma UnlinkValid<K(!new), V>(bs: seq<seq<(K, V)>>, hash: K -> bv32,
                                contents: map<K, V>, count: int, key: K, j: int)
    requires TableValid(bs, hash, contents, count)
    requires var i := IndexFor(hash(key), |bs|); 0 <= j < |bs[i]| && bs[i][j].0 == key
    ensures key in contents
    ensures var i := IndexFor(hash(key), |bs|);
            TableValid(bs[i := bs[i][..j] + bs[i][j + 1..]], hash, contents - {key}, count - 1)
  {
    var n := |bs|;
    var i := IndexFor(hash(key), n);
    var chain := bs[i][..j] + bs[i][j + 1..];
    var bs' := bs[i := chain];
    var c' := contents - {key};
    assert ChainValid(bs[i], i, n, hash, contents);
    forall i' | 0 <= i' < n ensures ChainValid(bs'[i'], i', n, hash, c') {
      assert ChainValid(bs[i'], i', n, hash, contents);
      if i' == i {
        ChainUnlinkValid(bs[i], j, i, n, hash, contents);
      } else {
        ChainOtherValid(bs[i'], i', n, hash, contents, key);
      }
    }
    UnlinkKeepsStored(bs, hash, contents, key, i, j);
    assert c'.Keys == contents.Keys - {key};
    FlattenUpdate(bs, i, chain);
  }

  /** Re-appending the entry at `j` with a new value keeps its chain valid
      for the remapped key. */
  lemma ChainReplaceValid<K, V>(chain: seq<(K, V)>, j: int, i: int, n: int,
                                hash: K -> bv32, contents: map<K, V>, value: V)
    requires n > 0 && 0 <= j < |chain|
    requires ChainValid(chain, i, n, hash, contents)
    ensures ChainValid(chain[..j] + chain[j + 1..] + [(chain[j].0, value)], i, n, hash,
                       contents[chain[j].0 := value])
  {
    var key := chain[j].0;
    var rest := chain[..j] + chain[j + 1..];
    ChainUnlinkValid(chain, j, i, n, hash, contents);
    ChainAppendValid(rest, i, n, hash, contents - {key}, key, value);
    assert (contents - {key})[key := value] == contents[key := value];
  }

  /** A chain of another bucket stays valid when a key is remapped. */
  lemma ChainOtherReplace<K, V>(chain: seq<(K, V)>, i: int, n: int, hash: K -> bv32,
                                contents: map<K, V>, key: K, value: V)
    requires n > 0 && IndexFor(hash(key), n) != i
    requires ChainValid(chain, i, n, hash, contents)
    ensures ChainValid(chain, i, n, hash, contents[key := value])
  {
  }

  /** Every mapping of the remapped table is stored once the entry at `j`
      of `key`'s chain is moved to the end with its new value. */
  lemma ReplaceKeepsStored<K, V>(bs: seq<seq<(K, V)>>, hash: K -> bv32,
                                 contents: map<K, V>, key: K, i: int, j: int, value: V)
    requires |bs| > 0 && i == IndexFor(hash(key), |bs|)
    requires 0 <= j < |bs[i]| && bs[i][j].0 == key
    requires forall k :: k in contents ==> (k, contents[k]) in bs[IndexFor(hash(k), |bs|)]
    ensures var bs' := bs[i := bs[i][..j] + bs[i][j + 1..] + [(key, value)]];
            forall k :: k in contents[key := value] ==>
              (k, contents[key := value][k]) in bs'[IndexFor(hash(k), |bs|)]
  {
    var rest := bs[i][..j] + bs[i][j + 1..];
    var bs' := bs[i := rest + [(key, value)]];
    forall k | k in contents[key := value]
      ensures (k, contents[key := value][k]) in bs'[IndexFor(hash(k), |bs|)]
    {
      if k == key {
        assert (rest + [(key, value)])[|rest|] == (key, value);
      } else {
        var e := (k, contents[k]);
        assert e in bs[IndexFor(hash(k), |bs|)];
        if IndexFor(hash(k), |bs|) == i {
          assert e != bs[i][j];
          InRest(bs[i], j, e);
          assert e in rest + [(key, value)];
        }
      }
    }
  }

  /** Unlinking a present key's entry and re-appending it with a new value
      keeps the invariant, with the key remapped and the same count. */
  lemma ReplaceValid<K(!new), V>(bs: seq<seq<(K, V)>>, hash: K -> bv32,
                                 contents: map<K, V>, count: int, key: K, j: int, value: V)
    requires TableValid(bs, hash, contents, count)
    requires var i := IndexFor(hash(key), |bs|); 0 <= j < |bs[i]| && bs[i][j].0 == key
    ensures var i := IndexFor(hash(key), |bs|);
            TableValid(bs[i := bs[i][..j] + bs[i][j + 1..] + [(key, value)]], hash, contents[key := value], count)
  {
    var n := |bs|;
    var i := IndexFor(hash(key), n);
    var chain := bs[i][..j] + bs[i][j + 1..] + [(key, value)];
    var bs' := bs[i := chain];
    var c' := contents[key := value];
    assert ChainValid(bs[i], i, n, hash, contents);
    forall i' | 0 <= i' < n ensures ChainValid(bs'[i'], i', n, hash, c') {
      assert ChainValid(bs[i'], i', n, hash, contents);
      if i' == i {
        ChainReplaceValid(bs[i], j, i, n, hash, contents, value);
      } else {
        ChainOtherReplace(bs[i'], i', n, hash, contents, key, value);
      }
    }
    ReplaceKeepsStored(bs, hash, contents, key, i, j, value);
    assert c'.Keys == contents.Keys;
    FlattenUpdate(bs, i, chain);
  }


  /** The position of the first entry of `chain` whose key is `key`, or -1:
      the walk along the chain done by `Add`, `Remove`, `TryGetValue` and
      the indexer setter. */
  method FindKey<K(==), V>(chain: seq<(K, V)>, key: K) returns (j: int)
    ensures -1 <= j < |chain|
    ensures j >= 0 ==> chain[j].0 == key
    ensures forall j' :: 0 <= j' < |chain| && (j < 0 || j' < j) ==> chain[j'].0 != key
  {
    j := 0;
    while j < |chain|
      invariant 0 <= j <= |chain|
      invariant forall j' :: 0 <= j' < j ==> chain[j'].0 != key
    {
      if chain[j].0 == key {
        return;
      }
      j := j + 1;
    }
    j := -1;
  }

  class HashTable<K(==,!new), V> {
    /** `_comparer.GetHashCode`. */
    const hash: K -> bv32
    /** `_buckets`; a C# `null` bucket is an empty chain here. */
    const buckets: array<seq<(K, V)>>
    /** `Count`. */
    var Count: nat
    /** The mapping the table represents. */
    ghost var Contents: map<K, V>

    /** `GetBucketIndex`. */
    function BucketIndex(key: K): (i: int)
      requires buckets.Length > 0
      ensures 0 <= i < buckets.Length
    {
      IndexFor(hash(key), buckets.Length)
    }

    ghost predicate Valid()
      reads this, buckets
    {
      buckets.Length > 0 && TableValid(buckets[..], hash, Contents, Count)
    }

    /** `new HashTable(capacity, comparer)`. */
    constructor (capacity: int, hash: K -> bv32)
      requires capacity > 0
      ensures Valid() && fresh(buckets)
      ensures this.hash == hash && buckets.Length == capacity
      ensures Contents == map[] && Count == 0
      ensures forall i :: 0 <= i < capacity ==> buckets[i] == []
    {
      this.hash := hash;
      buckets := new seq<(K, V)>[capacity](_ => []);
      Count := 0;
      Contents := map[];
      new;
      FlattenAllEmpty(buckets[..]);
    }

    /** `Add`: inserts a fresh key at the end of its chain; an existing key
        is an `ArgumentException` and changes nothing. */
    method Add(key: K, value: V) returns (r: Outcome<Error>)
      requires Valid()
      modifies this, buckets
      ensures Valid()
      ensures r == if key in old(Contents) then Fail(DuplicateKey) else Pass
      ensures r.Fail? ==> Contents == old(Contents) && Count == old(Count) && buckets[..] == old(buckets[..])
      ensures r.Pass? ==> Contents == old(Contents)[key := value] && Count == old(Count) + 1
      ensures r.Pass? ==> buckets[..] == old(buckets[..])[BucketIndex(key) := old(buckets[BucketIndex(key)]) + [(key, value)]]
    {
      var i := BucketIndex(key);
      var chain := buckets[i];
      var j := FindKey(chain, key);
      if j >= 0 {
        assert buckets[..][i][j].0 == key;
        return Fail(DuplicateKey);
      }
      AbsentFromChain(buckets[..], hash, Contents, Count, key);
      AppendAt(key, value);
      r := Pass;
    }

    /** `bucket.AddLast` of a key the table does not hold, with `Count++`. */
    method AppendAt(key: K, value: V)
      requires Valid() && key !in Contents
      modifies this, buckets
      ensures Valid()
      ensures Contents == old(Contents)[key := value] && Count == old(Count) + 1
      ensures buckets[..] == old(buckets[..])[BucketIndex(key) := old(buckets[BucketIndex(key)]) + [(key, value)]]
    {
      var i := BucketIndex(key);
      ghost var before := buckets[..];
      AppendValid(before, hash, Contents, Count, key, value);
      buckets[i] := buckets[i] + [(key, value)];
      assert buckets[..] == before[i := before[i] + [(key, value)]];
      Count := Count + 1;
      Contents := Contents[key := value];
    }

    /** `Remove`: reports whether the key was present and, if it was, unlinks
        its entry from the chain. */
    method Remove(key: K) returns (removed: bool)
      requires Valid()
      modifies this, buckets
      ensures Valid()
      ensures removed == (key in old(Contents))
      ensures Contents == old(Contents) - {key}
      ensures Count == if removed then old(Count) - 1 else old(Count)
      ensures removed ==> buckets[..] == old(buckets[..])[BucketIndex(key) := RemoveEntry(old(buckets[BucketIndex(key)]), key)]
      ensures !removed ==> buckets[..] == old(buckets[..])
    {
      var i := BucketIndex(key);
      var chain := buckets[i];
      var j := FindKey(chain, key);
      ghost var before := buckets[..];
      if j < 0 {
        AbsentFromChain(before, hash, Contents, Count, key);
        assert Contents - {key} == Contents;
        return false;
      }
      RemoveEntryAt(chain, key, j);
      UnlinkAt(key, j);
      removed := true;
    }

    /** Unlinks the entry at position `j` of the key's chain. */
    method UnlinkAt(key: K, j: int)
      requires Valid()
      requires 0 <= j < |buckets[BucketIndex(key)]| && buckets[BucketIndex(key)][j].0 == key
      modifies this, buckets
      ensures Valid()
      ensures key in old(Contents)
      ensures Contents == old(Contents) - {key} && Count == old(Count) - 1
      ensures var i := BucketIndex(key);
              buckets[..] == old(buckets[..])[i := old(buckets[i])[..j] + old(buckets[i])[j + 1..]]
    {
      var i := BucketIndex(key);
      ghost var before: seq<seq<(K, V)>> := buckets[..];
      assert before[i][j].0 == key;
      UnlinkValid(before, hash, Contents, Count, key, j);
      buckets[i] := buckets[i][..j] + buckets[i][j + 1..];
      assert buckets[..] == before[i := before[i][..j] + before[i][j + 1..]];
      Count := Count - 1;
      Contents := Contents - {key};
    }

    /** `TryGetValue`: never fails; the stored value of a present key, or a
        miss for an absent one. */
    method TryGetValue(key: K) returns (r: Option<V>)
      requires Valid()
      ensures r == if key in Contents then Some(Contents[key]) else None
    {
      var i := BucketIndex(key);
      var chain := buckets[i];
      var j := FindKey(chain, key);
      if j >= 0 {
        assert ChainValid(buckets[..][i], i, buckets.Length, hash, Contents);
        r := Some(chain[j].1);
      } else {
        AbsentFromChain(buckets[..], hash, Contents, Count, key);
        r := None;
      }
    }

    /** The indexer getter: the stored value, or `KeyNotFoundException`. */
    method Get(key: K) returns (r: Result<V, Error>)
      requires Valid()
      ensures r == if key in Contents then Success(Contents[key]) else Failure(KeyNotFound)
    {
      var found := TryGetValue(key);
      match found
      case Some(v) => r := Success(v);
      case None => r := Failure(KeyNotFound);
    }

    /** The indexer setter: maps `key` to `value` whether or not it was
        present. A present key's entry is unlinked and re-appended at the
        end of its chain and `Count` stays; an absent key is appended and
        `Count` grows. */
    method Set(key: K, value: V)
      requires Valid()
      modifies this, buckets
      ensures Valid()
      ensures Contents == old(Contents)[key := value]
      ensures Count == if key in old(Contents) then old(Count) else old(Count) + 1
      ensures buckets[..] == old(buckets[..])[BucketIndex(key) := RemoveEntry(old(buckets[BucketIndex(key)]), key) + [(key, value)]]
    {
      var i := BucketIndex(key);
      var chain := buckets[i];
      var j := FindKey(chain, key);
      if j >= 0 {
        RemoveEntryAt(chain, key, j);
        ReplaceAt(key, j, value);
      } else {
        AbsentFromChain(buckets[..], hash, Contents, Count, key);
        RemoveEntryAbsent(chain, key);
        AppendAt(key, value);
      }
    }

    /** The replacing branch of the indexer setter: `bucket.Remove(node)` of
        the key's entry, at position `j` of its chain, then `bucket.AddLast`
        of the new entry; `Count` stays. */
    method ReplaceAt(key: K, j: int, value: V)
      requires Valid()
      requires 0 <= j < |buckets[BucketIndex(key)]| && buckets[BucketIndex(key)][j].0 == key
      modifies this, buckets
      ensures Valid()
      ensures key in old(Contents)
      ensures Contents == old(Contents)[key := value] && Count == old(Count)
      ensures var i := BucketIndex(key);
              buckets[..] == old(buckets[..])[i := old(buckets[i])[..j] + old(buckets[i])[j + 1..] + [(key, value)]]
    {
      var i := BucketIndex(key);
      ghost var before: seq<seq<(K, V)>> := buckets[..];
      assert before[i][j].0 == key;
      ReplaceValid(before, hash, Contents, Count, key, j, value);
      buckets[i] := buckets[i][..j] + buckets[i][j + 1..] + [(key, value)];
      assert buckets[..] == before[i := before[i][..j] + before[i][j + 1..] + [(key, value)]];
      Contents := Contents[key := value];
    }

    /** `GetEnumerator`: every entry exactly once, bucket by bucket and
        along each chain. */
    method GetEnumerator() returns (s: seq<(K, V)>)
      requires Valid()
      ensures s == Flatten(buckets[..])
      ensures |s| == Count
      ensures DistinctKeys(s)
      ensures forall e :: e in s <==> e.0 in Contents && Contents[e.0] == e.1
    {
      s := [];
      var i := 0;
      while i < buckets.Length
        invariant 0 <= i <= buckets.Length
        invariant Enumerated(buckets[..], hash, Contents, i, s)
      {
        EnumerateStep(buckets[..], hash, Contents, Count, i, s);
        s := s + buckets[i];
        i := i + 1;
      }
      EnumerateDone(buckets[..], hash, Contents, Count, s);
    }
  }

  /** After the first `i` buckets, `s` holds their entries in order: each
      once, and exactly the mappings of the keys hashed below `i`. */
  ghost predicate Enumerated<K(!new), V>(bs: seq<seq<(K, V)>>, hash: K -> bv32,
                                         contents: map<K, V>, i: int, s: seq<(K, V)>)
    requires 0 <= i <= |bs| && |bs| > 0
  {
    && s == Flatten(bs[..i])
    && DistinctKeys(s)
    && (forall e :: e in s ==> IndexFor(hash(e.0), |bs|) < i && e.0 in contents && contents[e.0] == e.1)
    && (forall k :: k in contents && IndexFor(hash(k), |bs|) < i ==> (k, contents[k]) in s)
  }

  /** Appending the next bucket's chain enumerates one more bucket. */
  lemma EnumerateStep<K(!new), V>(bs: seq<seq<(K, V)>>, hash: K -> bv32,
                                  contents: map<K, V>, count: int, i: int, s: seq<(K, V)>)
    requires TableValid(bs, hash, contents, count)
    requires 0 <= i < |bs| && Enumerated(bs, hash, contents, i, s)
    ensures Enumerated(bs, hash, contents, i + 1, s + bs[i])
  {
    var chain := bs[i];
    assert ChainValid(chain, i, |bs|, hash, contents);
    assert bs[..i + 1][..i] == bs[..i];
    StepDistinct(s, chain, i, |bs|, hash);
    StepSound(s, chain, i, |bs|, hash, contents);
    StepComplete(s, chain, i, |bs|, hash, contents);
  }

  /** Keys hashed below `i`, followed by distinct keys hashed to `i`, are
      distinct. */
  lemma StepDistinct<K, V>(s: seq<(K, V)>, chain: seq<(K, V)>, i: int, capacity: int, hash: K -> bv32)
    requires capacity > 0 && DistinctKeys(s) && DistinctKeys(chain)
    requires forall e :: e in s ==> IndexFor(hash(e.0), capacity) < i
    requires forall j :: 0 <= j < |chain| ==> IndexFor(hash(chain[j].0), capacity) == i
    ensures DistinctKeys(s + chain)
  {
    forall j, j' | 0 <= j < j' < |s + chain| ensures (s + chain)[j].0 != (s + chain)[j'].0 {
      if j' >= |s| && j < |s| {
        assert (s + chain)[j] in s;
        assert (s + chain)[j'] == chain[j' - |s|];
      }
    }
  }

  /** Every entry of `s` and of bucket `i`'s chain is a mapping hashed below
      `i + 1`. */
  lemma StepSound<K, V>(s: seq<(K, V)>, chain: seq<(K, V)>, i: int, capacity: int,
                        hash: K -> bv32, contents: map<K, V>)
    requires capacity > 0 && ChainValid(chain, i, capacity, hash, contents)
    requires forall e :: e in s ==> IndexFor(hash(e.0), capacity) < i && e.0 in contents && contents[e.0] == e.1
    ensures forall e :: e in s + chain ==>
              IndexFor(hash(e.0), capacity) < i + 1 && e.0 in contents && contents[e.0] == e.1
  {
    forall e | e in s + chain
      ensures IndexFor(hash(e.0), capacity) < i + 1 && e.0 in contents && contents[e.0] == e.1
    {
      if e !in s {
        var j :| 0 <= j < |chain| && chain[j] == e;
      }
    }
  }

  /** Every mapping hashed below `i + 1` is in `s` or in bucket `i`'s
      chain. */
  lemma StepComplete<K(!new), V>(s: seq<(K, V)>, chain: seq<(K, V)>, i: int, capacity: int,
                                 hash: K -> bv32, contents: map<K, V>)
    requires capacity > 0
    requires forall k :: k in contents && IndexFor(hash(k), capacity) < i ==> (k, contents[k]) in s
    requires forall k :: k in contents && IndexFor(hash(k), capacity) == i ==> (k, contents[k]) in chain
    ensures forall k :: k in contents && IndexFor(hash(k), capacity) < i + 1 ==> (k, contents[k]) in s + chain
  {
  }

  /** Once every bucket is enumerated, `s` is the table's enumeration: every
      mapping exactly once. */
  lemma EnumerateDone<K(!new), V>(bs: seq<seq<(K, V)>>, hash: K -> bv32,
                                  contents: map<K, V>, count: int, s: seq<(K, V)>)
    requires TableValid(bs, hash, contents, count)
    requires Enumerated(bs, hash, contents, |bs|, s)
    ensures s == Flatten(bs)
    ensures |s| == count
    ensures DistinctKeys(s)
    ensures forall e :: e in s <==> e.0 in contents && contents[e.0] == e.1
  {
    assert bs[..|bs|] == bs;
    forall e: (K, V) | e.0 in contents && contents[e.0] == e.1 ensures e in s {
      assert (e.0, contents[e.0]) in s;
    }
  }
}
