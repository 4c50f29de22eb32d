/** `Data.countExcludingPadding(alignment:)`: the length of a payload once its
    trailing zero bytes are dropped, rounded back up to a whole number of
    sample blocks. */
module Padding {
  import opened Bytes

  /** The length of the longest run of zero bytes at the end of `s` (the
      Swift code walks the reversed bytes while they are zero and counts them).
      The contract characterises the count completely: every byte it covers is
      zero and the byte just before them, if any, is not. */
  function TrailingZeroCount(s: seq<Byte>): (n: nat)
    ensures n <= |s|
    ensures forall i :: |s| - n <= i < |s| ==> s[i] == 0
    ensures n < |s| ==> s[|s| - n - 1] != 0
  {
    if s == [] || s[|s| - 1] != 0 then 0
    else 1 + TrailingZeroCount(s[..|s| - 1])
  }

  /** The payload length without its trailing zeros, rounded up to a multiple of
      `alignment`. Both operands of Swift's truncating `%` are non-negative
      here, so it agrees with Dafny's. */
  function CountExcludingPadding(s: seq<Byte>, alignment: int): (r: nat)
    requires alignment > 0
    ensures r % alignment == 0
    ensures |s| - TrailingZeroCount(s) <= r < |s| - TrailingZeroCount(s) + alignment
  {
    var paddingCount := TrailingZeroCount(s);
    var unaligned := |s| - paddingCount;
    var padding := (alignment - (unaligned % alignment)) % alignment;
    RoundUpToMultiple(unaligned, alignment);
    unaligned + padding
  }

  /** Adding `(a - u % a) % a` to `u` reaches the next multiple of `a`, and no further. */
  lemma RoundUpToMultiple(u: nat, a: int)
    requires a > 0
    ensures var r := u + (a - u % a) % a; r % a == 0 && u <= r < u + a
  {
    var q := u % a;
    if q == 0 {
      DivModUnique(a, a, 1, 0);
    } else {
      DivModUnique(a - q, a, 0, a - q);
      DivModUnique(u + (a - q), a, u / a + 1, 0);
    }
  }

  /** Division with remainder has one answer: if x == a*q + r with 0 <= r < a,
      then Dafny's `/` and `%` give q and r. */
  lemma DivModUnique(x: int, a: int, q: int, r: int)
    requires a > 0 && 0 <= r < a && x == a * q + r
    ensures x / a == q && x % a == r
  {
    var q', r' := x / a, x % a;
    assert a * (q - q') == r' - r;
    if q > q' {
      MulAtLeastFactor(a, q - q');
    } else if q < q' {
      MulAtLeastFactor(a, q' - q);
    }
  }

  lemma MulAtLeastFactor(a: int, k: int)
    requires a > 0 && k >= 1
    ensures a * k >= a
  {
  }

  lemma MulSignNonPositive(a: int, k: int)
    requires a > 0 && k <= 0
    ensures a * k <= 0
  {
  }

  /** The result is the least multiple of `alignment` that keeps every byte up
      to and including the last non-zero one. */
  lemma CountIsLeastAlignedCover(s: seq<Byte>, alignment: int, m: int)
    requires alignment > 0
    requires m % alignment == 0 && m >= |s| - TrailingZeroCount(s)
    ensures CountExcludingPadding(s, alignment) <= m
  {
    var r := CountExcludingPadding(s, alignment);
    if r > m {
      MultiplesApart(r, m, alignment);
    }
  }

  /** Two different multiples of `a` are at least `a` apart. */
  lemma MultiplesApart(x: int, y: int, a: int)
    requires a > 0 && x % a == 0 && y % a == 0 && x > y
    ensures x - y >= a
  {
    var k := x / a - y / a;
    assert x - y == a * k;
    if k <= 0 {
      MulSignNonPositive(a, k);
    } else {
      MulAtLeastFactor(a, k);
    }
  }

  /** Every byte at or past the unpadded length is zero, and the last byte kept
      is not: `TrailingZeroCount`'s contract restated in terms of the unpadded
      length `u`, the form the later lemmas use. */
  lemma UnpaddedBoundary(s: seq<Byte>)
    ensures var u := |s| - TrailingZeroCount(s);
      (forall i :: u <= i < |s| ==> s[i] == 0) && (u > 0 ==> s[u - 1] != 0)
  {
  }

  /** An empty or all-zero payload resolves to an empty data chunk. */
  lemma AllZeroResolvesToZero(s: seq<Byte>, alignment: int)
    requires alignment > 0
    requires forall i :: 0 <= i < |s| ==> s[i] == 0
    ensures CountExcludingPadding(s, alignment) == 0
  {
  }

  /** Conversely, a zero result means the payload holds no non-zero byte. */
  lemma ZeroResultMeansAllZero(s: seq<Byte>, alignment: int)
    requires alignment > 0
    requires CountExcludingPadding(s, alignment) == 0
    ensures forall i :: 0 <= i < |s| ==> s[i] == 0
  {
  }

  /** The declared length never exceeds the payload by more than `alignment - 1`. */
  lemma CountAtMostPayloadPlusSlack(s: seq<Byte>, alignment: int)
    requires alignment > 0
    ensures CountExcludingPadding(s, alignment) <= |s| + alignment - 1
  {
  }

  /** When at least `alignment - 1` zero bytes end the payload, rounding up never
      reaches past its end. */
  lemma PaddingAbsorbsRounding(s: seq<Byte>, alignment: int)
    requires alignment > 0
    requires TrailingZeroCount(s) >= alignment - 1
    ensures CountExcludingPadding(s, alignment) <= |s|
  {
  }

  /** 111 non-zero bytes followed by 9 zeros, with alignment 3, resolve to 111. */
  lemma StrippedPayloadExample(s: seq<Byte>)
    requires |s| == 120
    requires forall i :: 0 <= i < 111 ==> s[i] != 0
    requires forall i :: 111 <= i < 120 ==> s[i] == 0
    ensures CountExcludingPadding(s, 3) == 111
  {
    assert s[110] != 0;
    assert TrailingZeroCount(s) == 9;
  }

  /** Five non-zero bytes with no padding, alignment 3, resolve to 6: one more
      byte than the payload holds. */
  lemma OverCountExample(s: seq<Byte>)
    requires |s| == 5
    requires forall i :: 0 <= i < 5 ==> s[i] != 0
    ensures CountExcludingPadding(s, 3) == 6 > |s|
  {
  }
}
