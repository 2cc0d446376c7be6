/**
 * Table-length policies: how many buckets the table has, how a hash value
 * is mapped to a bucket, and how the bucket count grows on a rehash.
 * Each policy is a small object whose grow step updates its own state.
 */
module LengthPolicies {
  import opened Bits

  /** The fixed ascending table of bucket counts of the prime-length policy. */
  const Primes: seq<nat> := [
    17, 29, 37, 53, 67, 79, 97, 131, 193, 257, 389, 521, 769,
    1031, 1543, 2053, 3079, 6151, 12289, 24593, 49157, 98317,
    196613, 393241, 786433, 1572869, 3145739, 6291469,
    12582917, 25165843, 50331653, 100663319, 201326611,
    402653189, 805306457, 1610612741, 3221225473, 4294967291
  ]

  /** Position in Primes of the initial bucket count. */
  const InitialBucketCountIdx: nat := 7

  /** Initial bucket count of the power-of-two policy. */
  const InitialPowerOfTwoCount: nat := 128

  lemma PrimesStep()
    ensures |Primes| == 38
    ensures forall i :: 0 <= i < |Primes| - 1 ==> Primes[i] < Primes[i + 1]
  {
  }

  /** The bucket counts of the prime policy strictly increase. */
  lemma {:induction false} PrimesAscending(i: nat, j: nat)
    requires i < j < |Primes|
    ensures Primes[i] < Primes[j]
  {
    PrimesStep();
    if j > i + 1 {
      PrimesAscending(i, j - 1);
    }
  }

  lemma PrimesAtLeast(i: nat, j: nat)
    requires i <= j < |Primes|
    ensures Primes[i] <= Primes[j]
  {
    if i < j {
      PrimesAscending(i, j);
    }
  }

  /** Table length is a prime from Primes; buckets are chosen with the modulus. */
  class PrimeLengthTableStyle {
    var idx: nat

    ghost predicate Valid()
      reads this
    {
      InitialBucketCountIdx <= idx < |Primes|
    }

    constructor()
      ensures Valid() && idx == InitialBucketCountIdx
    {
      idx := InitialBucketCountIdx;
    }

    static function InitialBucketCount(): (n: nat)
      ensures n == 131
    {
      Primes[InitialBucketCountIdx]
    }

    /** The current table length. */
    function Length(): (n: nat)
      reads this
      requires Valid()
      ensures n >= InitialBucketCount()
    {
      PrimesAtLeast(InitialBucketCountIdx, idx);
      Primes[idx]
    }

    function HashToBucket(h: nat): (b: nat)
      reads this
      requires Valid()
      ensures b < Length() && b == h % Length()
      ensures h < Length() ==> b == h
    {
      h % Primes[idx]
    }

    /** Indexing past the end of Primes is undefined, so growing needs a next entry. */
    predicate CanGrow()
      reads this
    {
      idx + 1 < |Primes|
    }

    function NextLength(): (n: nat)
      reads this
      requires Valid() && CanGrow()
      ensures n > Length()
    {
      PrimesAscending(idx, idx + 1);
      Primes[idx + 1]
    }

    method Grow() returns (n: nat)
      requires Valid() && CanGrow()
      modifies this
      ensures Valid() && idx == old(idx) + 1
      ensures n == Length() == old(NextLength())
    {
      idx := idx + 1;
      n := Primes[idx];
    }
  }

  /** Table length is a power of two; buckets are chosen by masking the low bits. */
  class PowerOfTwoLengthTableStyle {
    var count: nat
    var mask: nat
    ghost var log: nat

    /** count is a power of two that fits a size_t, and mask is count - 1. */
    ghost predicate Valid()
      reads this
    {
      7 <= log < 64 && count == Pow2(log) && mask == count - 1
    }

    constructor()
      ensures Valid() && count == InitialPowerOfTwoCount && mask == 127
    {
      count := InitialPowerOfTwoCount;
      mask := InitialPowerOfTwoCount - 1;
      log := 7;
    }

    static function InitialBucketCount(): (n: nat)
      ensures n == Pow2(7)
    {
      InitialPowerOfTwoCount
    }

    function Length(): (n: nat)
      reads this
      requires Valid()
      ensures n >= InitialBucketCount() && n == mask + 1
    {
      Pow2Monotone(7, log);
      count
    }

    /** hash & mask selects the low log bits, that is, the remainder modulo count. */
    function HashToBucket(h: nat): (b: nat)
      reads this
      requires Valid()
      ensures b == h % Length() && b < Length()
    {
      AndLowMask(h, log);
      BitAnd(h, mask)
    }

    /** Doubling must not overflow size_t. */
    predicate CanGrow()
      reads this
    {
      count < SizeTModulus / 2
    }

    function NextLength(): (n: nat)
      reads this
      requires Valid() && CanGrow()
      ensures n > Length() && n == 2 * Length()
    {
      ShiftLeft(count, 1)
    }

    method Grow() returns (n: nat)
      requires Valid() && CanGrow()
      modifies this
      ensures Valid() && log == old(log) + 1
      ensures count == 2 * old(count) && mask == count - 1
      ensures n == Length() == old(NextLength())
    {
      Pow2Of64();
      assert Pow2(64) == 2 * Pow2(63);
      Pow2Below(log, 63);
      assert Pow2(1) == 2;
      ghost var c := count;
      count := ShiftLeft(count, 1);
      assert count == 2 * c;
      mask := ShiftLeft(mask, 1);
      assert mask == 2 * (c - 1);
      OrDisjoint(mask, 1, 1);
      mask := BitOr(mask, 1);
      log := log + 1;
      assert Pow2(log) == count;
      n := count;
    }
  }

  /** Which length policy a table is configured with. */
  datatype StyleKind = PrimeLength | PowerOfTwoLength

  function InitialBucketCount(kind: StyleKind): (n: nat)
    ensures n >= 128
  {
    match kind
    case PrimeLength => PrimeLengthTableStyle.InitialBucketCount()
    case PowerOfTwoLength => PowerOfTwoLengthTableStyle.InitialBucketCount()
  }

  /** The length policy object a table owns, of either kind. */
  datatype TableStyle = Prime(p: PrimeLengthTableStyle) | PowerOfTwo(q: PowerOfTwoLengthTableStyle)
  {
    function Obj(): object
    {
      match this
      case Prime(p) => p
      case PowerOfTwo(q) => q
    }

    ghost predicate Valid()
      reads Obj()
    {
      match this
      case Prime(p) => p.Valid()
      case PowerOfTwo(q) => q.Valid()
    }

    function Length(): (n: nat)
      reads Obj()
      requires Valid()
      ensures n > 0
    {
      match this
      case Prime(p) => p.Length()
      case PowerOfTwo(q) => q.Length()
    }

    function HashToBucket(h: nat): (b: nat)
      reads Obj()
      requires Valid()
      ensures b < Length() && b == h % Length()
    {
      match this
      case Prime(p) => p.HashToBucket(h)
      case PowerOfTwo(q) => q.HashToBucket(h)
    }

    predicate CanGrow()
      reads Obj()
    {
      match this
      case Prime(p) => p.CanGrow()
      case PowerOfTwo(q) => q.CanGrow()
    }

    function NextLength(): (n: nat)
      reads Obj()
      requires Valid() && CanGrow()
      ensures n > Length()
    {
      match this
      case Prime(p) => p.NextLength()
      case PowerOfTwo(q) => q.NextLength()
    }

    method Grow() returns (n: nat)
      requires Valid() && CanGrow()
      modifies Obj()
      ensures Valid()
      ensures n == Length() == old(NextLength())
    {
      match this
      case Prime(p) => n := p.Grow();
      case PowerOfTwo(q) => n := q.Grow();
    }
  }
}
