/**
 * The policy-configured hash table: a sequence of buckets, each a sequence of
 * (key, value) pairs, plus an entry count. The hash function, the length
 * policy and the rehash policy are chosen when the table is built.
 */
module HashTables {
  import opened Wrappers
  import opened LengthPolicies
  import opened RehashPolicies

  type Bucket<K, V> = seq<(K, V)>

  /** Sum of the bucket lengths. */
  function TotalLength<K, V>(t: seq<Bucket<K, V>>): nat
  {
    if |t| == 0 then 0 else TotalLength(t[..|t| - 1]) + |t[|t| - 1]|
  }

  /** Replacing one bucket changes the total by the difference of the two lengths. */
  lemma {:induction false} TotalLengthUpdate<K, V>(t: seq<Bucket<K, V>>, b: nat, s: Bucket<K, V>)
    requires b < |t|
    ensures TotalLength(t[b := s]) == TotalLength(t) - |t[b]| + |s|
  {
    var n := |t| - 1;
    if b < n {
      assert t[b := s][..n] == t[..n][b := s];
      TotalLengthUpdate(t[..n], b, s);
    } else {
      assert t[b := s][..n] == t[..n];
    }
  }

  lemma {:induction false} TotalLengthAllEmpty<K, V>(t: seq<Bucket<K, V>>)
    requires forall b :: 0 <= b < |t| ==> t[b] == []
    ensures TotalLength(t) == 0
  {
    if |t| > 0 {
      TotalLengthAllEmpty(t[..|t| - 1]);
    }
  }

  /** The first c buckets hold at least as many entries as the first b, and bucket b adds its length. */
  lemma {:induction false} TotalLengthPrefix<K, V>(t: seq<Bucket<K, V>>, b: nat, c: nat)
    requires b < c <= |t|
    ensures TotalLength(t[..b]) + |t[b]| <= TotalLength(t[..c])
    ensures TotalLength(t[..b + 1]) == TotalLength(t[..b]) + |t[b]|
  {
    assert t[..b + 1][..b] == t[..b];
    if c > b + 1 {
      TotalLengthPrefix(t, b, c - 1);
      assert t[..c][..c - 1] == t[..c - 1];
    }
  }

  /** The keys stored in one bucket. */
  ghost function BucketKeys<K, V>(s: Bucket<K, V>): set<K>
  {
    if |s| == 0 then {} else BucketKeys(s[..|s| - 1]) + {s[|s| - 1].0}
  }

  lemma BucketKeysAppend<K, V>(s: Bucket<K, V>, e: (K, V))
    ensures BucketKeys(s + [e]) == BucketKeys(s) + {e.0}
  {
    assert (s + [e])[..|s|] == s;
  }

  /** A key is among the keys of a bucket exactly when some entry carries it. */
  lemma {:induction false} BucketKeysMember<K, V>(s: Bucket<K, V>, k: K)
    ensures k in BucketKeys(s) <==> exists i :: 0 <= i < |s| && s[i].0 == k
  {
    if |s| > 0 {
      var n := |s| - 1;
      BucketKeysMember(s[..n], k);
      if k in BucketKeys(s[..n]) {
        var i :| 0 <= i < n && s[..n][i].0 == k;
        assert s[i].0 == k;
      }
      if exists i :: 0 <= i < |s| && s[i].0 == k {
        var i :| 0 <= i < |s| && s[i].0 == k;
        if i < n {
          assert s[..n][i].0 == k;
        }
      }
    }
  }

  /** A bucket whose keys are pairwise distinct has as many keys as entries. */
  lemma {:induction false} BucketKeysCard<K, V>(s: Bucket<K, V>)
    requires forall i, j :: 0 <= i < j < |s| ==> s[i].0 != s[j].0
    ensures |BucketKeys(s)| == |s|
  {
    if |s| > 0 {
      var n := |s| - 1;
      BucketKeysCard(s[..n]);
      BucketKeysMember(s[..n], s[n].0);
    }
  }

  /** The keys stored in a sequence of buckets. */
  ghost function KeysOf<K, V>(t: seq<Bucket<K, V>>): set<K>
  {
    if |t| == 0 then {} else KeysOf(t[..|t| - 1]) + BucketKeys(t[|t| - 1])
  }

  /** A key is among the keys of the first c buckets exactly when some entry of those buckets carries it. */
  lemma {:induction false} KeysOfBuckets<K, V>(t: seq<Bucket<K, V>>, c: nat, k: K)
    requires c <= |t|
    ensures k in KeysOf(t[..c]) <==> exists b, i :: 0 <= b < c && 0 <= i < |t[b]| && t[b][i].0 == k
  {
    if c > 0 {
      KeysOfBuckets(t, c - 1, k);
      BucketKeysMember(t[c - 1], k);
      assert t[..c][..c - 1] == t[..c - 1];
    }
  }

  /** Every entry sits in the bucket its hash selects. */
  ghost predicate Placed<K, V>(t: seq<Bucket<K, V>>, hash: K -> nat)
  {
    |t| > 0 && forall b, i :: 0 <= b < |t| && 0 <= i < |t[b]| ==> hash(t[b][i].0) % |t| == b
  }

  /** No bucket holds a key twice. */
  ghost predicate DistinctInBuckets<K, V>(t: seq<Bucket<K, V>>)
  {
    forall b, i, j :: 0 <= b < |t| && 0 <= i < j < |t[b]| ==> t[b][i].0 != t[b][j].0
  }

  /**
   * In a table whose entries are placed by their hash and whose buckets hold
   * no key twice, the first c buckets hold as many distinct keys as entries.
   */
  lemma {:induction false} KeysOfCard<K, V>(t: seq<Bucket<K, V>>, hash: K -> nat, c: nat)
    requires Placed(t, hash) && DistinctInBuckets(t) && c <= |t|
    ensures |KeysOf(t[..c])| == TotalLength(t[..c])
  {
    if c > 0 {
      var n := c - 1;
      KeysOfCard(t, hash, n);
      assert t[..c][..n] == t[..n];
      BucketKeysCard(t[n]);
      forall k | k in KeysOf(t[..n]) && k in BucketKeys(t[n])
        ensures false
      {
        KeysOfBuckets(t, n, k);
        BucketKeysMember(t[n], k);
      }
      assert KeysOf(t[..n]) * BucketKeys(t[n]) == {};
    }
  }

  lemma {:induction false} SubsetCard<T>(a: set<T>, b: set<T>)
    requires a <= b
    ensures |a| <= |b|
  {
    if a != {} {
      var x :| x in a;
      SubsetCard(a - {x}, b - {x});
    }
  }

  /** A subset as large as its superset is the superset. */
  lemma SubsetSameCard<T>(a: set<T>, b: set<T>)
    requires a <= b && |a| == |b|
    ensures a == b
  {
    if a != b {
      var x :| x in b && x !in a;
      SubsetCard(a, b - {x});
    }
  }

  /** A sub-map as large as its super-map is the super-map. */
  lemma SubmapSameSize<K, V>(a: map<K, V>, b: map<K, V>)
    requires forall k :: k in a ==> k in b && a[k] == b[k]
    requires |a| == |b|
    ensures a == b
  {
    SubsetSameCard(a.Keys, b.Keys);
  }

  /**
   * The table invariant on values: at least one bucket, every entry in the
   * bucket of its key's hash, no key twice in a bucket, every stored pair a
   * pair of m, and the bucket lengths adding up to the number of keys of m.
   * That every key of m is stored follows (WellFormedKeys).
   */
  ghost predicate WellFormed<K, V>(t: seq<Bucket<K, V>>, m: map<K, V>, hash: K -> nat)
  {
    && Placed(t, hash)
    && DistinctInBuckets(t)
    && (forall b, i :: 0 <= b < |t| && 0 <= i < |t[b]| ==> t[b][i].0 in m && m[t[b][i].0] == t[b][i].1)
    && TotalLength(t) == |m|
  }

  /** The keys stored in a well-formed table are exactly the keys of its map. */
  lemma WellFormedKeys<K, V>(t: seq<Bucket<K, V>>, m: map<K, V>, hash: K -> nat)
    requires WellFormed(t, m, hash)
    ensures KeysOf(t) == m.Keys
  {
    assert t[..|t|] == t;
    KeysOfCard(t, hash, |t|);
    forall k | k in KeysOf(t)
      ensures k in m
    {
      KeysOfBuckets(t, |t|, k);
    }
    SubsetSameCard(KeysOf(t), m.Keys);
  }

  /** A key is in m exactly when it is stored in the bucket of its hash. */
  lemma WellFormedFind<K, V>(t: seq<Bucket<K, V>>, m: map<K, V>, hash: K -> nat, k: K)
    requires WellFormed(t, m, hash)
    ensures var b := hash(k) % |t|;
            k in m <==> exists i :: 0 <= i < |t[b]| && t[b][i].0 == k
  {
    WellFormedKeys(t, m, hash);
    KeysOfBuckets(t, |t|, k);
    assert t[..|t|] == t;
  }

  /** The empty table of n buckets represents the empty map. */
  lemma WellFormedEmpty<K, V>(n: nat, hash: K -> nat)
    requires n > 0
    ensures WellFormed<K, V>(seq(n, _ => []), map[], hash)
  {
    TotalLengthAllEmpty<K, V>(seq(n, _ => []));
  }

  /** Appending a new key to the end of its bucket adds it to the map. */
  lemma WellFormedAppend<K, V>(t: seq<Bucket<K, V>>, m: map<K, V>, hash: K -> nat, k: K, v: V)
    requires WellFormed(t, m, hash) && k !in m
    ensures var b := hash(k) % |t|;
            WellFormed(t[b := t[b] + [(k, v)]], m[k := v], hash)
  {
    var b := hash(k) % |t|;
    var t': seq<Bucket<K, V>> := t[b := t[b] + [(k, v)]];
    var m' := m[k := v];
    WellFormedFind(t, m, hash, k);
    forall c, i | 0 <= c < |t'| && 0 <= i < |t'[c]|
      ensures hash(t'[c][i].0) % |t'| == c
      ensures t'[c][i].0 in m' && m'[t'[c][i].0] == t'[c][i].1
    {
      if c != b || i < |t[b]| {
        assert t'[c][i] == t[c][i];
      }
    }
    forall c, i, j | 0 <= c < |t'| && 0 <= i < j < |t'[c]|
      ensures t'[c][i].0 != t'[c][j].0
    {
      if c != b || j < |t[b]| {
        assert t'[c][i] == t[c][i] && t'[c][j] == t[c][j];
      }
    }
    TotalLengthUpdate(t, b, t[b] + [(k, v)]);
  }

  /** Overwriting the value of a stored key in place updates the map at that key. */
  lemma WellFormedOverwrite<K, V>(t: seq<Bucket<K, V>>, m: map<K, V>, hash: K -> nat, k: K, v: V, i: nat)
    requires WellFormed(t, m, hash)
    requires var b := hash(k) % |t|; i < |t[b]| && t[b][i].0 == k
    ensures var b := hash(k) % |t|;
            WellFormed(t[b := t[b][i := (k, v)]], m[k := v], hash)
  {
    var b := hash(k) % |t|;
    var t': seq<Bucket<K, V>> := t[b := t[b][i := (k, v)]];
    var m' := m[k := v];
    forall c, j | 0 <= c < |t'| && 0 <= j < |t'[c]|
      ensures hash(t'[c][j].0) % |t'| == c
      ensures t'[c][j].0 in m' && m'[t'[c][j].0] == t'[c][j].1
    {
      if c != b || j != i {
        assert t'[c][j] == t[c][j];
      }
    }
    forall c, j1, j2 | 0 <= c < |t'| && 0 <= j1 < j2 < |t'[c]|
      ensures t'[c][j1].0 != t'[c][j2].0
    {
      assert t'[c][j1].0 == t[c][j1].0 && t'[c][j2].0 == t[c][j2].0;
    }
    TotalLengthUpdate(t, b, t[b][i := (k, v)]);
  }

  /** Across a well-formed table no key is stored twice. */
  lemma KeysUnique<K, V>(t: seq<Bucket<K, V>>, m: map<K, V>, hash: K -> nat, b1: nat, i1: nat, b2: nat, i2: nat)
    requires WellFormed(t, m, hash)
    requires b1 < |t| && i1 < |t[b1]| && b2 < |t| && i2 < |t[b2]|
    requires b1 != b2 || i1 != i2
    ensures t[b1][i1].0 != t[b2][i2].0
  {
    if b1 == b2 {
      if i1 < i2 {
        assert t[b1][i1].0 != t[b1][i2].0;
      } else {
        assert t[b1][i2].0 != t[b1][i1].0;
      }
    } else {
      assert hash(t[b1][i1].0) % |t| != hash(t[b2][i2].0) % |t|;
    }
  }

  /** The entries of all buckets, bucket after bucket: the order a rehash visits them in. */
  function Flatten<K, V>(t: seq<Bucket<K, V>>): (s: seq<(K, V)>)
    ensures |s| == TotalLength(t)
  {
    if |t| == 0 then [] else Flatten(t[..|t| - 1]) + t[|t| - 1]
  }

  /** Entry i of bucket b is entry TotalLength(t[..b]) + i of the flattened table. */
  lemma {:induction false} FlattenIndex<K, V>(t: seq<Bucket<K, V>>, b: nat, i: nat)
    requires b < |t| && i < |t[b]|
    ensures TotalLength(t[..b]) + i < |Flatten(t)|
    ensures Flatten(t)[TotalLength(t[..b]) + i] == t[b][i]
  {
    var n := |t| - 1;
    if b < n {
      FlattenIndex(t[..n], b, i);
      assert t[..n][..b] == t[..b];
    }
  }

  /** Every entry of the flattened table is entry i of some bucket b, at position TotalLength(t[..b]) + i. */
  lemma {:induction false} FlattenSource<K, V>(t: seq<Bucket<K, V>>, j: nat)
    requires j < |Flatten(t)|
    ensures exists b, i :: 0 <= b < |t| && 0 <= i < |t[b]| && j == TotalLength(t[..b]) + i && Flatten(t)[j] == t[b][i]
  {
    var n := |t| - 1;
    if j < |Flatten(t[..n])| {
      FlattenSource(t[..n], j);
      var b, i :| 0 <= b < n && 0 <= i < |t[..n][b]| && j == TotalLength(t[..n][..b]) + i && Flatten(t[..n])[j] == t[..n][b][i];
      assert t[..n][..b] == t[..b];
      assert Flatten(t)[j] == t[b][i];
    } else {
      assert Flatten(t)[j] == t[n][j - |Flatten(t[..n])|];
    }
  }

  /** Maps each key of s to the last position it occurs at. */
  ghost function Positions<K, V>(s: seq<(K, V)>): map<K, nat>
  {
    if |s| == 0 then map[] else Positions(s[..|s| - 1])[s[|s| - 1].0 := |s| - 1]
  }

  /** When the keys of s are distinct, Positions gives each key its one position. */
  lemma {:induction false} PositionsExact<K, V>(s: seq<(K, V)>)
    requires forall i, j :: 0 <= i < j < |s| ==> s[i].0 != s[j].0
    ensures forall j :: 0 <= j < |s| ==> s[j].0 in Positions(s) && Positions(s)[s[j].0] == j
  {
    if |s| > 0 {
      var n := |s| - 1;
      PositionsExact(s[..n]);
      forall j | 0 <= j < |s|
        ensures s[j].0 in Positions(s) && Positions(s)[s[j].0] == j
      {
        if j < n {
          assert s[..n][j] == s[j];
        }
      }
    }
  }

  /**
   * The rank of every stored key: its position in the order a rehash visits
   * the entries. In a well-formed table entry i of bucket b has rank
   * TotalLength(t[..b]) + i.
   */
  ghost function Ranks<K, V>(t: seq<Bucket<K, V>>): map<K, nat>
  {
    Positions(Flatten(t))
  }

  lemma RanksOfBucket<K, V>(t: seq<Bucket<K, V>>, m: map<K, V>, hash: K -> nat, b: nat)
    requires WellFormed(t, m, hash) && b < |t|
    ensures forall i :: 0 <= i < |t[b]| ==> t[b][i].0 in Ranks(t) && Ranks(t)[t[b][i].0] == TotalLength(t[..b]) + i
  {
    var s := Flatten(t);
    forall j1, j2 | 0 <= j1 < j2 < |s|
      ensures s[j1].0 != s[j2].0
    {
      FlattenSource(t, j1);
      FlattenSource(t, j2);
      var b1, i1 :| 0 <= b1 < |t| && 0 <= i1 < |t[b1]| && j1 == TotalLength(t[..b1]) + i1 && s[j1] == t[b1][i1];
      var b2, i2 :| 0 <= b2 < |t| && 0 <= i2 < |t[b2]| && j2 == TotalLength(t[..b2]) + i2 && s[j2] == t[b2][i2];
      KeysUnique(t, m, hash, b1, i1, b2, i2);
    }
    PositionsExact(s);
    forall i | 0 <= i < |t[b]|
      ensures t[b][i].0 in Ranks(t) && Ranks(t)[t[b][i].0] == TotalLength(t[..b]) + i
    {
      FlattenIndex(t, b, i);
    }
  }

  class HashTable<K(==), V> {
    var table: seq<Bucket<K, V>>
    var entryCount: nat
    const hash: K -> nat
    const style: TableStyle
    const rehash: RehashPolicy

    /** The key-to-value map the table represents. */
    ghost var Contents: map<K, V>

    /**
     * The table has the length the length policy says, holds exactly
     * Contents in well-formed buckets, and counts its entries.
     */
    ghost predicate Consistent()
      reads this, style.Obj()
    {
      && style.Obj() != this
      && style.Valid()
      && |table| == style.Length()
      && WellFormed(table, Contents, hash)
      && entryCount == TotalLength(table)
    }

    /** Consistent, and the load factor is within the rehash policy's bound. */
    ghost predicate Valid()
      reads this, style.Obj()
    {
      Consistent() && !rehash.NeedsRehash(|table|, entryCount)
    }

    /** An insertion of key will append and then grow the table. */
    ghost predicate InsertGrows(key: K)
      reads this, style.Obj()
      requires Valid()
    {
      key !in Contents && rehash.NeedsRehash(|table|, entryCount + 1)
    }

    constructor(hash: K -> nat, kind: StyleKind, rehash: RehashPolicy)
      ensures Valid() && fresh(style.Obj())
      ensures this.hash == hash && this.rehash == rehash
      ensures style.PowerOfTwo? <==> kind == PowerOfTwoLength
      ensures Contents == map[] && Size() == 0
      ensures Buckets() == InitialBucketCount(kind)
      ensures forall b :: 0 <= b < |table| ==> table[b] == []
    {
      var s: TableStyle;
      if kind == PrimeLength {
        var p := new PrimeLengthTableStyle();
        s := Prime(p);
      } else {
        var q := new PowerOfTwoLengthTableStyle();
        s := PowerOfTwo(q);
      }
      this.hash := hash;
      this.style := s;
      this.rehash := rehash;
      table := seq(InitialBucketCount(kind), _ => []);
      entryCount := 0;
      Contents := map[];
      new;
      WellFormedEmpty<K, V>(|table|, hash);
    }

    function Size(): (n: nat)
      reads this, style.Obj()
      requires Consistent()
      ensures n == |Contents|
    {
      entryCount
    }

    function Buckets(): (n: nat)
      reads this, style.Obj()
      requires Consistent()
      ensures n == style.Length() && n > 0
    {
      |table|
    }

    /**
     * Looks for key in the one bucket its hash maps to, scanning it from the
     * front. Reports the bucket index in any case, and the position of the
     * entry when there is one.
     */
    method FindEntry(key: K) returns (entry: Option<nat>, idx: nat)
      requires Consistent()
      ensures idx == hash(key) % |table| && idx < |table|
      ensures entry.Some? <==> key in Contents
      ensures entry.Some? ==> entry.value < |table[idx]| && table[idx][entry.value] == (key, Contents[key])
      ensures entry.None? ==> forall i :: 0 <= i < |table[idx]| ==> table[idx][i].0 != key
    {
      idx := style.HashToBucket(hash(key));
      WellFormedFind(table, Contents, hash, key);
      var bucket := table[idx];
      var i := 0;
      while i < |bucket| && bucket[i].0 != key
        invariant 0 <= i <= |bucket|
        invariant forall j :: 0 <= j < i ==> bucket[j].0 != key
      {
        i := i + 1;
      }
      if i == |bucket| {
        entry := None;
      } else {
        entry := Some(i);
      }
    }

    /** A copy of the value stored under key, if any. */
    method Get(key: K) returns (r: Option<V>)
      requires Consistent()
      ensures key in Contents ==> r == Some(Contents[key])
      ensures key !in Contents ==> r == None
    {
      var entry, idx := FindEntry(key);
      if entry.Some? {
        r := Some(table[idx][entry.value].1);
      } else {
        r := None;
      }
    }

    /**
     * Inserts (key, value), overwriting the value of a key already present in
     * place. A new key is appended to the end of its bucket; then the table is
     * rehashed for as long as the rehash policy asks for it.
     */
    method Insert(key: K, value: V)
      requires Valid()
      requires key in Contents || !rehash.NeedsRehash(Buckets(), Size() + 1) || style.CanGrow()
      modifies this, style.Obj()
      decreases if InsertGrows(key) then 6 else 0, 1
      ensures Valid()
      ensures Contents == old(Contents)[key := value]
      ensures !old(InsertGrows(key)) ==> unchanged(style.Obj())
      ensures key in old(Contents) ==>
                var b := hash(key) % old(|table|);
                Size() == old(Size()) &&
                exists i :: 0 <= i < |old(table)[b]| && old(table)[b][i].0 == key &&
                            table == old(table)[b := old(table)[b][i := (key, value)]]
      ensures key !in old(Contents) ==> Size() == old(Size()) + 1
      ensures key !in old(Contents) && !old(InsertGrows(key)) ==>
                var b := hash(key) % old(|table|);
                table == old(table)[b := old(table)[b] + [(key, value)]]
      ensures old(InsertGrows(key)) ==> Buckets() == old(style.NextLength())
      ensures rehash.NoRehash? ==> Buckets() == old(Buckets())
    {
      var entry, idx := FindEntry(key);
      if entry.Some? {
        OverwriteEntry(idx, entry.value, value);
        assert table == old(table)[idx := old(table)[idx][entry.value := (key, value)]];
      } else {
        InsertNew(idx, key, value);
      }
    }

    /**
     * The part of Insert for a key the table does not hold: appends the entry
     * to its bucket idx, then rehashes while the rehash policy asks for it.
     */
    method InsertNew(idx: nat, key: K, value: V)
      requires Valid() && idx == hash(key) % |table| && key !in Contents
      requires !rehash.NeedsRehash(|table|, entryCount + 1) || style.CanGrow()
      modifies this, style.Obj()
      decreases if InsertGrows(key) then 5 else 0, 0
      ensures Valid()
      ensures Contents == old(Contents)[key := value] && entryCount == old(entryCount) + 1
      ensures !old(InsertGrows(key)) ==>
                unchanged(style.Obj()) && table == old(table)[idx := old(table)[idx] + [(key, value)]]
      ensures old(InsertGrows(key)) ==> |table| == old(style.NextLength())
    {
      AppendEntry(idx, key, value);
      ghost var grows := rehash.NeedsRehash(|table|, entryCount);
      assert grows == old(InsertGrows(key));
      ghost var grown := false;
      while rehash.NeedsRehash(|table|, entryCount)
        invariant Consistent()
        invariant Contents == old(Contents)[key := value] && entryCount == old(entryCount) + 1
        invariant !grown ==> unchanged(style.Obj()) && table == old(table)[idx := old(table)[idx] + [(key, value)]]
        invariant grown ==> grows && old(style.CanGrow())
        invariant grown ==> !rehash.NeedsRehash(|table|, entryCount) && |table| == old(style.NextLength())
        decreases if grown then 0 else 1
      {
        Rehash();
        grown := true;
      }
      assert !grows ==> unchanged(style.Obj());
    }

    /** Replaces the value of entry i of bucket idx, which holds a key of the table. */
    method OverwriteEntry(idx: nat, i: nat, value: V)
      requires Valid()
      requires idx < |table| && i < |table[idx]|
      modifies this
      ensures Valid()
      ensures var key := old(table)[idx][i].0;
              Contents == old(Contents)[key := value] &&
              table == old(table)[idx := old(table)[idx][i := (key, value)]]
      ensures entryCount == old(entryCount)
    {
      ghost var length := style.Length();
      var key := table[idx][i].0;
      WellFormedOverwrite(table, Contents, hash, key, value, i);
      TotalLengthUpdate(table, idx, table[idx][i := (key, value)]);
      table := table[idx := table[idx][i := (key, value)]];
      Contents := Contents[key := value];
      assert |table| == length == style.Length();
    }

    /** Appends (key, value) to bucket idx, the bucket of a key the table does not hold. */
    method AppendEntry(idx: nat, key: K, value: V)
      requires Valid()
      requires idx == hash(key) % |table| && key !in Contents
      modifies this
      ensures Consistent()
      ensures Contents == old(Contents)[key := value]
      ensures table == old(table)[idx := old(table)[idx] + [(key, value)]]
      ensures entryCount == old(entryCount) + 1
    {
      ghost var length := style.Length();
      WellFormedAppend(table, Contents, hash, key, value);
      TotalLengthUpdate(table, idx, table[idx] + [(key, value)]);
      table := table[idx := table[idx] + [(key, value)]];
      entryCount := entryCount + 1;
      Contents := Contents[key := value];
      assert |table| == length == style.Length();
    }

    /**
     * Grows the length policy to its next length, rebuilds an empty table of
     * that length and re-inserts every entry, bucket by bucket, with Insert.
     * Called by Insert right after one new entry made the load factor too high.
     */
    method Rehash()
      requires Consistent() && style.CanGrow()
      requires entryCount >= 1 && !rehash.NeedsRehash(|table|, entryCount - 1)
      modifies this, style.Obj()
      decreases 4, 0
      ensures Valid()
      ensures Contents == old(Contents) && entryCount == old(entryCount)
      ensures |table| == old(style.NextLength())
    {
      ghost var oldContents := Contents;
      var tempCopy := table;
      var newBucketCount := style.Grow();
      table := seq(newBucketCount, _ => []);
      var oldEntryCount := entryCount;
      // the entry count is rebuilt by the insertions below
      entryCount := 0;
      Contents := map[];
      WellFormedEmpty<K, V>(newBucketCount, hash);
      GrowthRestoresBound(rehash, |tempCopy|, oldEntryCount, newBucketCount);
      ReinsertAll(tempCopy, oldContents);
      // the source throws logic_error when the counts differ here; they cannot
      assert entryCount == oldEntryCount;
      SubmapSameSize(Contents, oldContents);
    }

    /**
     * The outer loop of Rehash: re-inserts every entry of the old table t,
     * bucket by bucket, into the empty table. The ranks of the entries of t
     * in bucket order show that each re-inserted key is new.
     */
    method ReinsertAll(t: seq<Bucket<K, V>>, ghost m: map<K, V>)
      requires Valid() && Contents == map[] && entryCount == 0
      requires WellFormed(t, m, hash)
      requires !rehash.NeedsRehash(|table|, TotalLength(t))
      modifies this, style.Obj()
      decreases 3, 0
      ensures Valid() && |table| == old(|table|) && unchanged(style.Obj())
      ensures entryCount == TotalLength(t)
      ensures forall k :: k in Contents ==> k in m && Contents[k] == m[k]
    {
      ghost var rank := Ranks(t);
      ghost var total := TotalLength(t);
      assert t[..|t|] == t;
      for b := 0 to |t|
        invariant Valid() && |table| == old(|table|) && unchanged(style.Obj())
        invariant entryCount == TotalLength(t[..b])
        invariant forall k :: k in Contents ==> k in m && Contents[k] == m[k]
        invariant forall k :: k in Contents ==> k in rank && rank[k] < entryCount
      {
        TotalLengthPrefix(t, b, |t|);
        RanksOfBucket(t, m, hash, b);
        BoundMonotone(rehash, |table|, total, |table|, entryCount + |t[b]|);
        ReinsertBucket(t[b], m, rank);
      }
    }

    /**
     * The inner loop of Rehash: inserts the entries of one old bucket in
     * order. Their values agree with the reference map m, their ranks say
     * that none is in the table yet, and they fit under the load-factor
     * bound, so no insertion grows the table.
     */
    method ReinsertBucket(bucket: Bucket<K, V>, ghost m: map<K, V>, ghost rank: map<K, nat>)
      requires Valid()
      requires forall i :: 0 <= i < |bucket| ==> bucket[i].0 in m && m[bucket[i].0] == bucket[i].1
      requires forall i :: 0 <= i < |bucket| ==> bucket[i].0 in rank && rank[bucket[i].0] == entryCount + i
      requires forall k :: k in Contents ==> k in m && Contents[k] == m[k]
      requires forall k :: k in Contents ==> k in rank && rank[k] < entryCount
      requires !rehash.NeedsRehash(|table|, entryCount + |bucket|)
      modifies this, style.Obj()
      decreases 2, 0
      ensures Valid() && |table| == old(|table|) && unchanged(style.Obj())
      ensures forall k :: k in Contents ==> k in m && Contents[k] == m[k]
      ensures forall k :: k in Contents ==> k in rank && rank[k] < entryCount
      ensures entryCount == old(entryCount) + |bucket|
    {
      for i := 0 to |bucket|
        invariant Valid() && |table| == old(|table|) && unchanged(style.Obj())
        invariant forall k :: k in Contents ==> k in m && Contents[k] == m[k]
        invariant forall k :: k in Contents ==> k in rank && rank[k] < entryCount
        invariant entryCount == old(entryCount) + i
      {
        ReinsertEntry(bucket[i].0, bucket[i].1, m, old(entryCount) + |bucket|);
      }
    }

    /** One step of ReinsertBucket: an insertion of a new key that stays under the bound. */
    method ReinsertEntry(key: K, value: V, ghost m: map<K, V>, ghost bound: nat)
      requires Valid()
      requires key in m && m[key] == value && key !in Contents
      requires forall k :: k in Contents ==> k in m && Contents[k] == m[k]
      requires entryCount < bound && !rehash.NeedsRehash(|table|, bound)
      modifies this, style.Obj()
      decreases 1, 0
      ensures Valid() && |table| == old(|table|) && unchanged(style.Obj())
      ensures Contents == old(Contents)[key := value]
      ensures forall k :: k in Contents ==> k in m && Contents[k] == m[k]
      ensures entryCount == old(entryCount) + 1
    {
      BoundMonotone(rehash, |table|, bound, |table|, entryCount + 1);
      Insert(key, value);
    }
  }
}
