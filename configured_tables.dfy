/**
 * The two tables the tests configure with a non-default hash policy, both
 * with the power-of-two length policy: size_t keys under the trivial hash,
 * and string keys under the string hash wrapped as a free function.
 */
module ConfiguredTables {
  import opened Bits
  import opened Wrappers
  import opened LengthPolicies
  import opened RehashPolicies
  import opened HashPolicies
  import opened HashTables

  /** A size_t key. */
  type SizeT = x: int | 0 <= x < 0x1_0000_0000_0000_0000

  /** A string the string hash accepts: at most sizeof(size_t) == 8 characters. */
  type ShortKey = s: seq<int8> | |s| <= 8

  /**
   * The string hash on a key it accepts: the packing WeirdStringHash
   * returns, which for characters that are not negative is the big-endian
   * value of the key.
   */
  function ShortKeyHash(key: ShortKey): (h: nat)
    ensures h == Packed(key, |key|) && h < SizeTModulus
    ensures NonNegative(key) ==> h == BigEndian(key)
  {
    if NonNegative(key) then
      PackedIsBigEndian(key, |key|);
      assert key[..|key|] == key;
      Packed(key, |key|)
    else
      Packed(key, |key|)
  }

  /** The table of the trivial-hash test: size_t keys, trivial hash, power-of-two length. */
  method NewTrivialTable<V>(rehash: RehashPolicy) returns (t: HashTable<SizeT, V>)
    ensures fresh(t) && fresh(t.style.Obj())
    ensures t.Valid() && t.style.PowerOfTwo?
    ensures t.Contents == map[] && t.Size() == 0 && t.Buckets() == 128
    ensures forall k: SizeT :: t.hash(k) == k
  {
    t := new HashTable(k => TrivialHash(k), PowerOfTwoLength, rehash);
  }

  /**
   * The table of the free-function test: the string hash wrapped as a free
   * function, power-of-two length. The wrapper only calls the function it
   * holds, so the function itself is the table's hash.
   */
  method NewWeirdStringTable<V>(rehash: RehashPolicy) returns (t: HashTable<ShortKey, V>)
    ensures fresh(t) && fresh(t.style.Obj())
    ensures t.Valid() && t.style.PowerOfTwo?
    ensures t.Contents == map[] && t.Size() == 0 && t.Buckets() == 128
    ensures forall k: ShortKey :: t.hash(k) == ShortKeyHash(k)
  {
    t := new HashTable(ShortKeyHash, PowerOfTwoLength, rehash);
  }

  /**
   * The first step of the trivial-hash test: a new table, one insertion of
   * key 20010911, then a lookup of that key and the size.
   */
  method TrivialTableFirstInsert() returns (r: Option<string>, size: nat)
    ensures r == Some("foo") && size == 1
  {
    var t := NewTrivialTable<string>(DefaultLoadFactorThreshold);
    t.Insert(20010911, "foo");
    r := t.Get(20010911);
    size := t.Size();
  }

  /**
   * In a power-of-two table the bucket of a key is its hash masked with
   * buckets() - 1, and the key is present exactly when that bucket stores
   * it, together with its value.
   */
  lemma PowerOfTwoPlacement<K, V>(t: HashTable<K, V>, k: K)
    requires t.Consistent() && t.style.PowerOfTwo?
    ensures var b := BitAnd(t.hash(k), t.Buckets() - 1);
            b == t.hash(k) % t.Buckets() &&
            (k in t.Contents <==> exists i :: 0 <= i < |t.table[b]| && t.table[b][i].0 == k) &&
            (k in t.Contents ==> exists i :: 0 <= i < |t.table[b]| && t.table[b][i] == (k, t.Contents[k]))
  {
    var q := t.style.q;
    AndLowMask(t.hash(k), q.log);
    WellFormedFind(t.table, t.Contents, t.hash, k);
  }

  /** In the trivial-hash table a key k sits in bucket k & (buckets() - 1), that is k % buckets(). */
  lemma TrivialTablePlacement<V>(t: HashTable<SizeT, V>, k: SizeT)
    requires t.Consistent() && t.style.PowerOfTwo?
    requires forall x: SizeT :: t.hash(x) == x
    ensures var b := BitAnd(k, t.Buckets() - 1);
            b == k % t.Buckets() &&
            (k in t.Contents <==> exists i :: 0 <= i < |t.table[b]| && t.table[b][i].0 == k)
  {
    PowerOfTwoPlacement(t, k);
  }

  /**
   * In the string-hash table a key sits in the bucket its packing masked
   * with buckets() - 1 selects; for a key without negative characters that
   * is its big-endian value modulo buckets().
   */
  lemma WeirdStringTablePlacement<V>(t: HashTable<ShortKey, V>, k: ShortKey)
    requires t.Consistent() && t.style.PowerOfTwo?
    requires forall x: ShortKey :: t.hash(x) == ShortKeyHash(x)
    ensures var b := Packed(k, |k|) % t.Buckets();
            BitAnd(Packed(k, |k|), t.Buckets() - 1) == b &&
            (NonNegative(k) ==> b == BigEndian(k) % t.Buckets()) &&
            (k in t.Contents <==> exists i :: 0 <= i < |t.table[b]| && t.table[b][i].0 == k)
  {
    PowerOfTwoPlacement(t, k);
  }
}
