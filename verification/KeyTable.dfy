/** The chained hash table that counts values. Buckets hold the index of their newest key, `next` leads
    from each key to the next older one of its bucket, so every chain runs strictly downwards. */
module KeyTables {
  import opened FreqTable

  /** Each count is the number of times its key was inserted. */
  ghost predicate Tally(keys: seq<nat>, counts: seq<nat>, bag: multiset<nat>) {
    && |keys| == |counts|
    && (forall k :: 0 <= k < |keys| ==> keys[k] in bag && counts[k] == bag[keys[k]])
    && (forall x :: x in bag ==> x in keys)
    && Sum(counts) == |bag|
  }

  lemma TallyNew(keys: seq<nat>, counts: seq<nat>, bag: multiset<nat>, key: nat)
    requires Tally(keys, counts, bag) && key !in keys
    ensures Tally(keys + [key], counts + [1], bag + multiset{key})
  {
    SumOfSnoc(counts, 1);
    var keys1 := keys + [key];
    assert keys1[|keys|] == key;
    assert forall x :: x in keys ==> x in keys1;
  }

  lemma TallyAgain(keys: seq<nat>, counts: seq<nat>, bag: multiset<nat>, k: nat)
    requires Tally(keys, counts, bag) && k < |keys|
    requires forall i, j :: 0 <= i < j < |keys| ==> keys[i] != keys[j]
    ensures Tally(keys, counts[k := counts[k] + 1], bag + multiset{keys[k]})
  {
    SumOfUpdate(counts, k, counts[k] + 1);
  }

  class KeyTable {
    const hash: nat -> nat     // any function of the key
    const nbuck: nat
    const maxkeys: nat
    var keys: seq<nat>
    var counts: seq<nat>
    var next: seq<int>
    var buckets: seq<int>
    ghost var bag: multiset<nat>   // everything inserted since Clear

    constructor (hash: nat -> nat, nbuck: nat, maxkeys: nat)
      requires 0 < nbuck
      ensures this.hash == hash && this.nbuck == nbuck && this.maxkeys == maxkeys
      ensures Counting() && bag == multiset{}
    {
      this.hash, this.nbuck, this.maxkeys := hash, nbuck, maxkeys;
      keys, counts, next, buckets := [], [], [], seq(nbuck, _ => -1);
      bag := multiset{};
    }

    function Bucket(key: nat): (b: nat)
      requires 0 < nbuck
      ensures b < nbuck
    {
      hash(key) % nbuck
    }

    /** Chains stay in their bucket and pass over no key of it. */
    ghost predicate Chained()
      reads this`keys, this`counts, this`next, this`buckets
    {
      && 0 < nbuck == |buckets| && |keys| == |counts| == |next| <= maxkeys
      && (forall i, j :: 0 <= i < j < |keys| ==> keys[i] != keys[j])
      && (forall k :: 0 <= k < |keys| ==> -1 <= next[k] < k)
      && (forall b :: 0 <= b < nbuck ==> -1 <= buckets[b] < |keys|)
      && (forall k :: 0 <= k < |keys| && 0 <= next[k] ==> Bucket(keys[next[k]]) == Bucket(keys[k]))
      && (forall b :: 0 <= b < nbuck && 0 <= buckets[b] ==> Bucket(keys[buckets[b]]) == b)
      && (forall k, j :: 0 <= k < |keys| && next[k] < j < k ==> Bucket(keys[j]) != Bucket(keys[k]))
      && (forall b, j :: 0 <= b < nbuck && buckets[b] < j < |keys| ==> Bucket(keys[j]) != b)
    }

    ghost predicate Counting()
      reads this
    {
      Chained() && Tally(keys, counts, bag)
    }

    method Clear()
      requires Chained()
      modifies this
      ensures Counting() && bag == multiset{}
    {
      keys, counts, next, buckets := [], [], [], seq(nbuck, _ => -1);
      bag := multiset{};
    }

    /** The index of a key, or a negative number when it is not in the table. */
    method Find(key: nat) returns (k: int)
      requires Chained()
      ensures k < |keys|
      ensures 0 <= k ==> keys[k] == key
      ensures k < 0 ==> key !in keys
    {
      hide Bucket;
      k := buckets[Bucket(key)];
      while 0 <= k && keys[k] != key
        invariant -1 <= k < |keys|
        invariant forall j :: k < j < |keys| ==> keys[j] != key
        invariant 0 <= k ==> Bucket(keys[k]) == Bucket(key)
        decreases k
      {
        k := next[k];
      }
    }

    method Append(key: nat)
      requires Chained() && key !in keys && |keys| < maxkeys
      modifies this`keys, this`counts, this`next, this`buckets
      ensures Chained() && keys == old(keys) + [key] && counts == old(counts) + [1]
    {
      hide Bucket;
      var b := Bucket(key);
      keys, counts := keys + [key], counts + [1];
      next := next + [buckets[b]];
      buckets := buckets[b := |keys| - 1];
    }

    method Insert(key: nat) returns (ok: bool)
      requires Counting()
      modifies this
      ensures Counting()
      ensures ok ==> bag == old(bag) + multiset{key}
      ensures !ok ==> key !in bag && |keys| >= maxkeys && bag == old(bag)
    {
      hide Bucket, Tally, Chained;
      KeysAreDistinct();
      var k := Find(key);
      if k < 0 {
        assert key !in bag by { TallyKnows(keys, counts, bag, key); }
        if |keys| >= maxkeys {
          return false;
        }
        TallyNew(keys, counts, bag, key);
        Append(key);
      } else {
        TallyAgain(keys, counts, bag, k);
        Recount(counts[k := counts[k] + 1]);
      }
      bag := bag + multiset{key};
      return true;
    }

    lemma KeysAreDistinct()
      requires Chained()
      ensures |keys| == |counts| <= maxkeys && forall i, j :: 0 <= i < j < |keys| ==> keys[i] != keys[j]
    {
    }

    method Recount(cs: seq<nat>)
      requires Chained() && |cs| == |counts|
      modifies this`counts
      ensures Chained() && counts == cs
    {
      counts := cs;
    }
  }

  lemma TallySum(keys: seq<nat>, counts: seq<nat>, bag: multiset<nat>)
    requires Tally(keys, counts, bag)
    ensures Sum(counts) == |bag| && |keys| == |counts|
  {
  }

  lemma TallyKnows(keys: seq<nat>, counts: seq<nat>, bag: multiset<nat>, key: nat)
    requires Tally(keys, counts, bag)
    ensures key in keys <==> key in bag
  {
  }
}
