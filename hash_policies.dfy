/**
 * Hash-function policies: the trivial pass-through hash and the test's own
 * string hash that packs up to eight characters big-endian into a size_t.
 * The free-function policy, which only calls the function it wraps, is the
 * hash function a table is built with (see ConfiguredTables).
 */
module HashPolicies {
  import opened Bits
  import opened Wrappers

  /** A C++ char, taken to be signed as on x86: a signed byte. */
  newtype int8 = x: int | -128 <= x < 128

  /** static_cast<size_t>: an integer value reduced modulo 2^64. */
  function ToSizeT(x: int): (r: nat)
    ensures r < SizeTModulus
    ensures 0 <= x < SizeTModulus ==> r == x
    ensures -(SizeTModulus as int) <= x < 0 ==> r == SizeTModulus + x
  {
    x % SizeTModulus
  }

  /** The trivial hash policy passes the key through, cast to size_t. */
  function TrivialHash(key: int): (h: nat)
    ensures h < SizeTModulus
    ensures 0 <= key < SizeTModulus ==> h == key
  {
    ToSizeT(key)
  }

  /** Two keys that fit a size_t hash alike only when they are equal. */
  lemma TrivialHashInjective(a: int, b: int)
    requires 0 <= a < SizeTModulus && 0 <= b < SizeTModulus
    ensures TrivialHash(a) == TrivialHash(b) <==> a == b
  {
  }

  /** 256^m, the weight of the byte m places from the right. */
  function Pow256(m: nat): (p: nat)
    ensures p >= 1
  {
    if m == 0 then 1 else 256 * Pow256(m - 1)
  }

  lemma {:induction false} Pow256IsPow2(m: nat)
    ensures Pow256(m) == Pow2(8 * m)
  {
    if m > 0 {
      Pow256IsPow2(m - 1);
      Pow2Add(8 * (m - 1), 8);
      Pow2Eight();
    }
  }

  predicate NonNegative(key: seq<int8>)
  {
    forall i :: 0 <= i < |key| ==> key[i] >= 0
  }

  /** The characters of key read as the digits of a base-256 number, first character most significant. */
  function BigEndian(key: seq<int8>): (v: nat)
    requires NonNegative(key)
    ensures v < Pow256(|key|)
  {
    if |key| == 0 then 0 else BigEndian(key[..|key| - 1]) * 256 + key[|key| - 1] as nat
  }

  /** Shifting both operands left by j bits shifts their OR left by j bits. */
  lemma {:induction false} OrShift(a: nat, b: nat, j: nat)
    ensures BitOr(a * Pow2(j), b * Pow2(j)) == BitOr(a, b) * Pow2(j)
  {
    if j > 0 {
      var p := Pow2(j - 1);
      assert Pow2(j) == 2 * p;
      OrShift(a, b, j - 1);
      MulTwice(a, p);
      MulTwice(b, p);
      MulTwice(BitOr(a, b), p);
      OrDouble(a * p, b * p);
    }
  }

  lemma MulTwice(a: nat, p: nat)
    ensures a * (2 * p) == 2 * (a * p) && a * p >= 0
  {
  }

  lemma OrDouble(x: nat, y: nat)
    ensures BitOr(2 * x, 2 * y) == 2 * BitOr(x, y)
  {
    if x != 0 && y != 0 {
      assert BitOr(2 * x, 2 * y) == 2 * BitOr(x, y) + 0;
    }
  }

  /**
   * One step of the packing: with the bytes so far standing above the low
   * 8(m+1) bits, OR-ing in a byte shifted by 8m appends that byte.
   */
  lemma PackStep(acc: nat, c: nat, m: nat)
    requires c < 256
    ensures BitOr(acc * Pow256(m + 1), c * Pow256(m)) == (acc * 256 + c) * Pow256(m)
  {
    PackWeights(acc, m);
    Pow256IsPow2(m);
    OrShiftDisjoint(acc * 256, c, 8 * m);
  }

  /** acc bytes above m + 1 byte positions are acc * 256 above m byte positions. */
  lemma PackWeights(acc: nat, m: nat)
    ensures acc * Pow256(m + 1) == (acc * 256) * Pow2(8 * m)
  {
    Pow256IsPow2(m);
    MulAssoc(acc, 256, Pow256(m));
  }

  /** A multiple of 256 and a byte, both shifted left by j bits, OR to their shifted sum. */
  lemma OrShiftDisjoint(a: nat, c: nat, j: nat)
    requires a % 256 == 0 && c < 256
    ensures BitOr(a * Pow2(j), c * Pow2(j)) == (a + c) * Pow2(j)
  {
    OrShift(a, c, j);
    Pow2Eight();
    OrDisjoint(a, c, 8);
  }

  lemma MulAssoc(a: nat, b: nat, c: nat)
    ensures a * (b * c) == (a * b) * c
  {
  }

  /** A byte times p stays below 256 p. */
  lemma ByteTimes(c: nat, p: nat)
    requires c < 256 && p >= 1
    ensures c * p < 256 * p
  {
  }

  /**
   * The test's string hash as written, over its first i characters: each
   * character, cast to size_t (a negative one is sign-extended), shifted
   * left by 8 bits per character after it in the key, and OR-ed together.
   */
  function Packed(key: seq<int8>, i: nat): (r: nat)
    requires i <= |key|
    ensures r < SizeTModulus
  {
    if i == 0 then 0
    else
      var acc := Packed(key, i - 1);
      var shifted := ShiftLeft(ToSizeT(key[i - 1] as int), 8 * (|key| - i));
      Pow2Of64();
      OrBound(acc, shifted, 64);
      BitOr(acc, shifted)
  }

  /** For a key of at most 8 characters, none negative, the packing is the big-endian base-256 value. */
  lemma {:induction false} PackedIsBigEndian(key: seq<int8>, i: nat)
    requires i <= |key| <= 8 && NonNegative(key)
    ensures Packed(key, i) == BigEndian(key[..i]) * Pow256(|key| - i)
  {
    if i > 0 {
      PackedIsBigEndian(key, i - 1);
      PackNext(key, i - 1, Packed(key, i - 1));
      assert |key| - (i - 1) - 1 == |key| - i;
    }
  }

  /**
   * The test's string hash. A key longer than sizeof(size_t) == 8 is
   * rejected with runtime_error; otherwise the characters are packed into
   * one size_t, the first character in the most significant used byte.
   */
  method WeirdStringHash(key: seq<int8>) returns (r: Result<nat>)
    ensures r.Failure? <==> |key| > 8
    ensures r.Failure? ==> r.error.RuntimeError?
    ensures r.Success? ==> r.value == Packed(key, |key|) && r.value < SizeTModulus
    ensures r.Success? && NonNegative(key) ==> r.value == BigEndian(key)
  {
    if |key| > 8 {
      return Failure(RuntimeError("weird_string_hash_function received a key that was larger than the limit of 8"));
    }
    var result: nat := 0;
    var idx := 0;
    while idx < |key| && idx <= 8
      invariant 0 <= idx <= |key|
      invariant result == Packed(key, idx)
    {
      var update := ToSizeT(key[idx] as int);
      var shifted := ShiftLeft(update, 8 * (|key| - idx - 1));
      result := BitOr(result, shifted);
      idx := idx + 1;
    }
    if NonNegative(key) {
      PackedIsBigEndian(key, |key|);
      assert key[..|key|] == key;
    }
    return Success(result);
  }

  /** The loop step of WeirdStringHash on a key without negative characters: one more byte is packed. */
  lemma PackNext(key: seq<int8>, idx: nat, result: nat)
    requires idx < |key| <= 8 && NonNegative(key)
    requires result == BigEndian(key[..idx]) * Pow256(|key| - idx)
    ensures var m := |key| - idx - 1;
            var shifted := ShiftLeft(ToSizeT(key[idx] as int), 8 * m);
            shifted == key[idx] as nat * Pow256(m) &&
            BitOr(result, shifted) == BigEndian(key[..idx + 1]) * Pow256(m)
  {
    var m := |key| - idx - 1;
    var c := key[idx] as nat;
    ShiftByteExact(c, m);
    assert key[..idx + 1][..idx] == key[..idx];
    assert BigEndian(key[..idx + 1]) == BigEndian(key[..idx]) * 256 + c;
    assert |key| - idx == m + 1;
    PackStep(BigEndian(key[..idx]), c, m);
  }

  /** A byte shifted left by fewer than 8 bytes loses no bits. */
  lemma ShiftByteExact(c: nat, m: nat)
    requires c < 256 && m < 8
    ensures ShiftLeft(ToSizeT(c), 8 * m) == c * Pow256(m)
  {
    Pow256IsPow2(m);
    Pow256IsPow2(8);
    Pow2Of64();
    Pow256Monotone(m + 1, 8);
    ByteTimes(c, Pow256(m));
  }

  lemma {:induction false} Pow256Monotone(a: nat, b: nat)
    requires a <= b
    ensures Pow256(a) <= Pow256(b)
  {
    if a < b {
      Pow256Monotone(a, b - 1);
    }
  }
}
