/**
 * Rehash policies: after an insertion, decide from the bucket count and the
 * entry count whether the table must grow. They are stateless.
 */
module RehashPolicies {

  /**
   * The load-factor test as the source writes it: the ratio of entries to
   * buckets exceeds the threshold. The source divides in single-precision
   * floating point; this is the exact ratio.
   */
  predicate LoadFactorExceeds(buckets: nat, entries: nat, threshold: real)
    requires buckets > 0
  {
    (entries as real) / (buckets as real) > threshold
  }

  datatype RehashPolicy =
    | DefaultLoadFactorThreshold  // threshold 1.5
    | LoadFactorThreshold1        // custom threshold 1.0
    | NoRehash                    // never grows
  {
    function Threshold(): real
      requires !NoRehash?
    {
      match this
      case DefaultLoadFactorThreshold => 1.5
      case LoadFactorThreshold1 => 1.0
    }

    /**
     * Whether the table must grow. The threshold policies compare the load
     * factor with their threshold; the comparison is written here with the
     * division multiplied out (NeedsRehashIsLoadFactor proves it the same).
     */
    predicate NeedsRehash(buckets: nat, entries: nat): (r: bool)
      requires buckets > 0
      ensures NoRehash? ==> !r
      ensures r ==> entries > buckets
    {
      match this
      case DefaultLoadFactorThreshold => 2 * entries > 3 * buckets
      case LoadFactorThreshold1 => entries > buckets
      case NoRehash => false
    }
  }

  /** The multiplied-out test agrees with the ratio test for both threshold policies. */
  lemma NeedsRehashIsLoadFactor(p: RehashPolicy, buckets: nat, entries: nat)
    requires buckets > 0 && !p.NoRehash?
    ensures p.NeedsRehash(buckets, entries) <==> LoadFactorExceeds(buckets, entries, p.Threshold())
  {
    RatioAbove(buckets, entries, p.Threshold());
    if p.DefaultLoadFactorThreshold? {
      assert (2 * entries) as real == 2.0 * (entries as real);
      assert (3 * buckets) as real == 2.0 * (1.5 * (buckets as real));
    }
  }

  /** entries / buckets > x exactly when entries > x * buckets. */
  lemma RatioAbove(buckets: nat, entries: nat, x: real)
    requires buckets > 0
    ensures LoadFactorExceeds(buckets, entries, x) <==> (entries as real) > x * (buckets as real)
  {
    var r := (entries as real) / (buckets as real);
    assert r * (buckets as real) == entries as real;
    if r > x {
      assert r * (buckets as real) > x * (buckets as real);
    } else {
      assert r * (buckets as real) <= x * (buckets as real);
    }
  }

  /** Fewer entries or more buckets never turn a satisfied bound into a violated one. */
  lemma BoundMonotone(p: RehashPolicy, buckets: nat, entries: nat, buckets': nat, entries': nat)
    requires 0 < buckets <= buckets' && entries' <= entries
    requires !p.NeedsRehash(buckets, entries)
    ensures !p.NeedsRehash(buckets', entries')
  {
  }

  /**
   * One growth step restores the bound after one insertion: if the bound held
   * before the entry was added, it holds for the new entry count at any larger
   * bucket count. This is why one rehash per insertion always suffices, and
   * why the re-insertions done inside a rehash never rehash again.
   */
  lemma GrowthRestoresBound(p: RehashPolicy, buckets: nat, entries: nat, buckets': nat)
    requires 0 < buckets < buckets' && entries >= 1
    requires !p.NeedsRehash(buckets, entries - 1)
    ensures !p.NeedsRehash(buckets', entries)
  {
  }
}
