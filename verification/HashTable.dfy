/** The bucketed hash table of a2/starter/opt.c. */
module HashTables {
  import opened Lists
  import opened Turns

  datatype Pair<V> = Pair(key: nat, value: V)

  const BUCKET_SIZE := 5

  /** A table from keys to values; Map is the finite map it stands for, and chains[h] are the
      pairs in bucket h.  A bucket exists only while it holds a pair. */
  class HashTable<V(==)> {
    const numBuckets: nat
    const buckets: array<List?<Pair<V>>>
    ghost var chains: seq<seq<Pair<V>>>
    ghost var Map: map<nat, V>
    ghost var owner: map<object, nat>
    ghost var Repr: set<object>

    ghost predicate Valid()
      reads this, Repr
      ensures Valid() ==> this in Repr
    {
      Structure() && Refines(chains, Map, numBuckets)
    }

    /** The buckets are separate lists, and hold the chains. */
    ghost predicate Structure()
      reads this, Repr
      ensures Structure() ==> this in Repr
    {
      && this in Repr && buckets in Repr && owner.Keys <= Repr
      && 0 < numBuckets == buckets.Length == |chains|
      && this !in owner && buckets !in owner
      && forall h {:trigger BucketOk(h)} :: 0 <= h < numBuckets ==> BucketOk(h)
    }

    ghost predicate BucketOk(h: nat)
      requires h < buckets.Length == |chains| && owner.Keys <= Repr && this in Repr && buckets in Repr
      reads this, Repr
    {
      if buckets[h] == null then chains[h] == []
      else
        && Owns(h, buckets[h]) && Owns(h, buckets[h].contents)
        && buckets[h].Valid() && buckets[h].items == chains[h] && chains[h] != []
    }

    /** The object belongs to bucket h, and so to no other. */
    ghost predicate Owns(h: nat, o: object)
      reads this
    {
      o in owner && owner[o] == h
    }

    constructor (numBuckets: nat)
      requires numBuckets > 0
      ensures Valid() && fresh(Repr)
      ensures Map == map[]
    {
      this.numBuckets := numBuckets;
      buckets := new List?<Pair<V>>[numBuckets](_ => null);
      chains := seq(numBuckets, _ => []);
      Map := map[];
      owner := map[];
      new;
      Repr := {this, buckets};
    }

    method HashFunction(key: nat) returns (h: nat)
      requires numBuckets > 0
      ensures h == Turn(key, numBuckets)
    {
      TurnIsMod(key, numBuckets);
      h := key % numBuckets;
    }

    /** Looks for the key in the bucket it hashes to, if there is one. */
    method FindInBucket(h: nat, key: nat) returns (index: int)
      requires Structure() && h < numBuckets
      ensures -1 <= index < |chains[h]|
      ensures index == -1 ==> Lookup(chains[h], key) == Null
      ensures index >= 0 ==> buckets[h] != null && chains[h][index].key == key
                             && Lookup(chains[h], key) == To(chains[h][index].value)
    {
      assert BucketOk(h);
      var bucket := buckets[h];
      if bucket == null {
        return -1;
      }
      index := FindMatchingPair(bucket, key);
    }

    method ReadPair(h: nat, index: nat) returns (p: Pair<V>)
      requires Structure() && h < numBuckets && index < |chains[h]|
      ensures p == chains[h][index]
    {
      assert BucketOk(h);
      p := buckets[h].contents[index].value;
    }

    method FindMatchingPair(bucket: List<Pair<V>>, key: nat) returns (index: int)
      requires bucket.Valid()
      ensures -1 <= index < |bucket.items|
      ensures index == -1 ==> Lookup(bucket.items, key) == Null
      ensures index >= 0 ==>
                bucket.items[index].key == key && Lookup(bucket.items, key) == To(bucket.items[index].value)
    {
      for i := 0 to bucket.count
        invariant Lookup(bucket.items, key) == Lookup(bucket.items[i..], key)
      {
        if bucket.contents[i].value.key == key {
          return i;
        }
        assert bucket.items[i..][1..] == bucket.items[i + 1..];
      }
      return -1;
    }

    method Get(key: nat) returns (r: Ptr<V>)
      requires Valid()
      ensures r == if key in Map then To(Map[key]) else Null
    {
      assert Finds(chains, Map, numBuckets, key);
      var h := HashFunction(key);
      var index := FindInBucket(h, key);
      if index == -1 {
        return Null;
      }
      var matching := ReadPair(h, index);
      return To(matching.value);
    }

    /** Makes the missing bucket h, with one pair in it. */
    method NewBucket(h: nat, p: Pair<V>, ghost m: map<nat, V>)
      requires Structure() && h < numBuckets && buckets[h] == null
      modifies Repr
      ensures Structure() && fresh(Repr - old(Repr)) && Map == m
      ensures chains == old(chains)[h := old(chains)[h] + [p]]
    {
      assert BucketOk(h);
      var list := new List<Pair<V>>(BUCKET_SIZE);
      list.Append(p);
      buckets[h] := list;
      owner := owner[list := h][list.contents := h];
      Repr := Repr + {list, list.contents};
      chains, Map := chains[h := chains[h] + [p]], m;
      forall g | 0 <= g < numBuckets ensures BucketOk(g) {
        assert g != h ==> old(BucketOk(g));
      }
    }

    method AppendPair(h: nat, p: Pair<V>, ghost m: map<nat, V>)
      requires Structure() && h < numBuckets && buckets[h] != null
      modifies Repr
      ensures Structure() && fresh(Repr - old(Repr)) && Map == m
      ensures chains == old(chains)[h := old(chains)[h] + [p]]
    {
      assert BucketOk(h);
      var bucket := buckets[h];
      bucket.Append(p);
      owner := owner[bucket.contents := h];
      Repr := Repr + {bucket.contents};
      chains, Map := chains[h := chains[h] + [p]], m;
      forall g | 0 <= g < numBuckets ensures BucketOk(g) {
        assert g != h ==> old(BucketOk(g));
      }
    }

    method OverwritePair(h: nat, index: nat, p: Pair<V>, ghost m: map<nat, V>)
      requires Structure() && h < numBuckets && index < |chains[h]|
      modifies Repr
      ensures Structure() && Repr == old(Repr) && Map == m
      ensures chains == old(chains)[h := old(chains)[h][index := p]]
    {
      var bucket := buckets[h];
      assert BucketOk(h);
      bucket.contents[index] := To(p);
      bucket.items := bucket.items[index := p];
      chains, Map := chains[h := chains[h][index := p]], m;
      forall g | 0 <= g < numBuckets ensures BucketOk(g) {
        assert g != h ==> old(BucketOk(g));
      }
    }

    /** Deletes a pair that occurs once; a bucket left empty is deleted too. */
    method DeletePair(h: nat, ghost index: nat, p: Pair<V>, ghost m: map<nat, V>)
      requires Structure() && h < numBuckets && index < |chains[h]| && chains[h][index] == p
      requires forall j :: 0 <= j < |chains[h]| && chains[h][j] == p ==> j == index
      modifies Repr
      ensures Structure() && Repr == old(Repr) && Map == m
      ensures chains == old(chains)[h := old(chains)[h][..index] + old(chains)[h][index + 1..]]
    {
      var bucket := buckets[h];
      assert BucketOk(h);
      bucket.Delete(p);
      if bucket.count == 0 {
        buckets[h] := null;
      }
      chains, Map := chains[h := chains[h][..index] + chains[h][index + 1..]], m;
      forall g | 0 <= g < numBuckets ensures BucketOk(g) {
        assert g != h ==> old(BucketOk(g));
      }
    }

    /** Maps key to value, and returns the value this replaces. */
    method Set(key: nat, value: V) returns (r: Ptr<V>)
      requires Valid()
      modifies Repr
      ensures Valid() && fresh(Repr - old(Repr))
      ensures r == if key in old(Map) then To(old(Map)[key]) else Null
      ensures Map == old(Map)[key := value]
    {
      assert Finds(chains, Map, numBuckets, key);
      var h := HashFunction(key);
      var index := FindInBucket(h, key);
      if index != -1 {
        var toModify := ReadPair(h, index);
        r := To(toModify.value);
        OverwriteRefines(chains, Map, numBuckets, key, value, index);
        OverwritePair(h, index, Pair(key, value), Map[key := value]);
      } else {
        r := Null;
        AppendRefines(chains, Map, numBuckets, key, value);
        if buckets[h] == null {
          NewBucket(h, Pair(key, value), Map[key := value]);
        } else {
          AppendPair(h, Pair(key, value), Map[key := value]);
        }
      }
    }

    /** Removes the pair with the given key, and returns its value. */
    method Remove(key: nat) returns (r: Ptr<V>)
      requires Valid()
      modifies Repr
      ensures Valid() && Repr == old(Repr)
      ensures r == if key in old(Map) then To(old(Map)[key]) else Null
      ensures Map == old(Map) - {key}
    {
      assert Finds(chains, Map, numBuckets, key);
      var h := HashFunction(key);
      var index := FindInBucket(h, key);
      if index == -1 {
        return Null;
      }
      var matching := ReadPair(h, index);
      DeleteOnce(chains[h], h, numBuckets, index);
      DeleteRefines(chains, Map, numBuckets, key, index);
      DeletePair(h, index, matching, Map - {key});
      return To(matching.value);
    }
  }

  /** The value paired with key in a chain. */
  ghost function Lookup<V>(chain: seq<Pair<V>>, key: nat): Ptr<V> {
    if chain == [] then Null
    else if chain[0].key == key then To(chain[0].value)
    else Lookup(chain[1..], key)
  }

  /** The chains hold exactly the pairs of the map, each key once, in the chain it hashes to. */
  ghost predicate Refines<V>(chains: seq<seq<Pair<V>>>, m: map<nat, V>, n: nat)
    requires 0 < n == |chains|
  {
    && (forall h :: 0 <= h < n ==> ChainOk(chains[h], h, n))
    && (forall key: nat :: Finds(chains, m, n, key))
  }

  ghost predicate Finds<V>(chains: seq<seq<Pair<V>>>, m: map<nat, V>, n: nat, key: nat)
    requires 0 < n == |chains|
  {
    Lookup(chains[Turn(key, n)], key) == if key in m then To(m[key]) else Null
  }

  ghost predicate ChainOk<V>(chain: seq<Pair<V>>, h: nat, n: nat)
    requires 0 < n
  {
    && (forall i :: 0 <= i < |chain| ==> Turn(chain[i].key, n) == h)
    && (forall i, j :: 0 <= i < j < |chain| ==> chain[i].key != chain[j].key)
  }

  lemma {:induction false} LookupHas<V>(chain: seq<Pair<V>>, key: nat)
    ensures Lookup(chain, key) == Null ==> forall i :: 0 <= i < |chain| ==> chain[i].key != key
    ensures forall i :: 0 <= i < |chain| && chain[i].key == key ==> Lookup(chain, key) != Null
    ensures Lookup(chain, key) != Null ==>
              exists i :: 0 <= i < |chain| && chain[i] == Pair(key, Lookup(chain, key).value)
  {
    if chain != [] && chain[0].key != key {
      LookupHas(chain[1..], key);
      assert forall i :: 0 < i < |chain| ==> chain[i] == chain[1..][i - 1];
    }
  }

  lemma {:induction false} LookupAppend<V>(chain: seq<Pair<V>>, p: Pair<V>, key: nat)
    ensures Lookup(chain + [p], key) ==
              if Lookup(chain, key) != Null then Lookup(chain, key) else if p.key == key then To(p.value) else Null
  {
    if chain == [] {
      assert chain + [p] == [p];
    } else {
      assert (chain + [p])[1..] == chain[1..] + [p];
      LookupAppend(chain[1..], p, key);
    }
  }

  lemma {:induction false} LookupUpdate<V>(chain: seq<Pair<V>>, i: nat, value: V, key: nat)
    requires i < |chain| && (forall a, b :: 0 <= a < b < |chain| ==> chain[a].key != chain[b].key)
    ensures Lookup(chain[i := Pair(chain[i].key, value)], key) ==
              if key == chain[i].key then To(value) else Lookup(chain, key)
  {
    var c := chain[i := Pair(chain[i].key, value)];
    if i > 0 {
      assert c[1..] == chain[1..][i - 1 := Pair(chain[i].key, value)];
      LookupUpdate(chain[1..], i - 1, value, key);
    } else {
      assert c[1..] == chain[1..];
    }
  }

  lemma {:induction false} LookupDelete<V>(chain: seq<Pair<V>>, i: nat, key: nat)
    requires i < |chain| && (forall a, b :: 0 <= a < b < |chain| ==> chain[a].key != chain[b].key)
    ensures Lookup(chain[..i] + chain[i + 1..], key) == if key == chain[i].key then Null else Lookup(chain, key)
  {
    var c := chain[..i] + chain[i + 1..];
    if i > 0 {
      assert c[1..] == chain[1..][..i - 1] + chain[1..][i..];
      LookupDelete(chain[1..], i - 1, key);
    } else {
      assert c == chain[1..];
      LookupHas(chain[1..], key);
    }
  }

  lemma AppendRefines<V>(chains: seq<seq<Pair<V>>>, m: map<nat, V>, n: nat, key: nat, value: V)
    requires 0 < n == |chains| && Refines(chains, m, n) && key !in m
    ensures Refines(chains[Turn(key, n) := chains[Turn(key, n)] + [Pair(key, value)]], m[key := value], n)
  {
    var h := Turn(key, n);
    assert Finds(chains, m, n, key);
    LookupHas(chains[h], key);
    var chains' := chains[h := chains[h] + [Pair(key, value)]];
    var m' := m[key := value];
    forall k: nat ensures Finds(chains', m', n, k) {
      assert Finds(chains, m, n, k);
      LookupAppend(chains[h], Pair(key, value), k);
    }
  }

  lemma OverwriteRefines<V>(chains: seq<seq<Pair<V>>>, m: map<nat, V>, n: nat, key: nat, value: V, i: nat)
    requires 0 < n == |chains| && Refines(chains, m, n) && i < |chains[Turn(key, n)]|
             && chains[Turn(key, n)][i].key == key
    ensures Refines(chains[Turn(key, n) := chains[Turn(key, n)][i := Pair(key, value)]], m[key := value], n)
  {
    var h := Turn(key, n);
    assert ChainOk(chains[h], h, n);
    var chains' := chains[h := chains[h][i := Pair(key, value)]];
    var m' := m[key := value];
    forall k: nat ensures Finds(chains', m', n, k) {
      assert Finds(chains, m, n, k);
      LookupUpdate(chains[h], i, value, k);
    }
  }

  lemma DeleteRefines<V>(chains: seq<seq<Pair<V>>>, m: map<nat, V>, n: nat, key: nat, i: nat)
    requires 0 < n == |chains| && Refines(chains, m, n) && i < |chains[Turn(key, n)]|
             && chains[Turn(key, n)][i].key == key
    ensures Refines(chains[Turn(key, n) := chains[Turn(key, n)][..i] + chains[Turn(key, n)][i + 1..]], m - {key}, n)
  {
    var h := Turn(key, n);
    assert ChainOk(chains[h], h, n);
    var chains' := chains[h := chains[h][..i] + chains[h][i + 1..]];
    var m' := m - {key};
    forall k: nat ensures Finds(chains', m', n, k) {
      assert Finds(chains, m, n, k);
      LookupDelete(chains[h], i, k);
    }
  }

  /** Keys are distinct, so deleting a pair by value deletes the one at its index. */
  lemma DeleteOnce<V>(chain: seq<Pair<V>>, h: nat, n: nat, i: nat)
    requires 0 < n && ChainOk(chain, h, n) && i < |chain|
    ensures forall j :: 0 <= j < |chain| && chain[j] == chain[i] ==> j == i
  {
  }
}
