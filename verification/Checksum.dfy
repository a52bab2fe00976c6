/** The Internet checksum as the TCP and ICMP code computes it: one's complement arithmetic in a
    32-bit accumulator that is folded twice at the end. */
module Checksum {
  import opened Octets

  /** The sum of the 16-bit words spelled by the octets, a last odd octet padded with zero. */
  function WordSum(s: seq<int>): int
  {
    if |s| == 0 then 0
    else if |s| == 1 then s[0] * 0x100
    else s[0] * 0x100 + s[1] + WordSum(s[2..])
  }

  /** Adding the upper half of the accumulator to the lower half. */
  function Fold(x: int): int { x / 0x1_0000 + x % 0x1_0000 }

  /** The two octets stored as the checksum of accumulated sum `x`. */
  function ChecksumOctets(x: int): seq<int>
  {
    var c := -Fold(Fold(x)) - 1;
    [Msb(c), Lsb(c)]
  }

  /** The check a receiver makes (section 1 of RFC 1071): the sum over everything, the checksum
      included, folds to all ones. */
  predicate Verifies(extra: int, s: seq<int>) { Fold(Fold(extra + WordSum(s))) == 0xFFFF }

  /** The largest length an IPv4 packet leaves for its payload. */
  const MAX_LENGTH := 65515

  lemma {:induction false} WordSumBound(s: seq<int>)
    requires AllOctets(s)
    ensures 0 <= WordSum(s) <= (|s| + 1) / 2 * 0xFFFF
  {
    if |s| >= 2 {
      WordSumBound(s[2..]);
    }
  }

  /** No overflow: with a pseudo-header sum of at most 0x50000 the accumulator stays below 2^31. */
  lemma SumFits(s: seq<int>)
    requires AllOctets(s) && |s| <= MAX_LENGTH
    ensures WordSum(s) + 0x5_0000 < HALF
  {
    WordSumBound(s);
  }

  /** Two folds always reach 16 bits, keep the value modulo 2^16 - 1, and vanish only for zero. */
  lemma FoldTwice(x: int)
    requires 0 <= x < HALF
    ensures 0 <= Fold(Fold(x)) <= 0xFFFF
    ensures Fold(Fold(x)) % 0xFFFF == x % 0xFFFF
    ensures Fold(Fold(x)) == 0 <==> x == 0
  {
    FoldOnce(x);
    FoldOnce(Fold(x));
  }

  lemma FoldOnce(x: int)
    requires 0 <= x < HALF
    ensures 0 <= Fold(x) < HALF && Fold(x) % 0xFFFF == x % 0xFFFF
    ensures Fold(x) == 0 <==> x == 0
  {
    var q, r := x / 0x1_0000, x % 0x1_0000;
    assert x == q + r + q * 0xFFFF;
  }

  /** The octets, those at even positions 256 times. */
  function Weighted(s: seq<int>, n: nat): int
    requires n <= |s|
  {
    if n == 0 then 0 else Weighted(s, n - 1) + if n % 2 == 1 then s[n - 1] * 0x100 else s[n - 1]
  }

  /** The sum weighs each octet by its position: the earlier octet of two is the higher one. */
  lemma {:induction false} SumByPosition(s: seq<int>, n: nat)
    requires n <= |s|
    ensures WordSum(s[..n]) == Weighted(s, n)
  {
    if n >= 2 {
      SumByPosition(s, n - 2 + n % 2);
      LastPair(s[..n]);
      assert s[..n][..n - 2 + n % 2] == s[..n - 2 + n % 2];
    }
  }

  /** The word, whole or half, that ends a sequence. */
  lemma {:induction false} LastPair(s: seq<int>)
    requires |s| >= 2
    ensures var m := |s| - 2 + |s| % 2;
            WordSum(s) == WordSum(s[..m]) + s[m] * 0x100 + if m + 1 < |s| then s[m + 1] else 0
  {
    var m := |s| - 2 + |s| % 2;
    if |s| > 3 {
      LastPair(s[2..]);
      assert s[2..][..m - 2] == s[..m][2..];
    }
  }

  lemma {:induction false} WordSumUpdate(s: seq<int>, k: nat, hi: int, lo: int)
    requires k + 1 < |s| && k % 2 == 0 && s[k] == 0 && s[k + 1] == 0
    ensures WordSum(s[k := hi][k + 1 := lo]) == WordSum(s) + hi * 0x100 + lo
  {
    var t := s[k := hi][k + 1 := lo];
    if k == 0 {
      assert t[2..] == s[2..];
    } else {
      WordSumUpdate(s[2..], k - 2, hi, lo);
      assert t[2..] == s[2..][k - 2 := hi][k - 1 := lo];
    }
  }

  /** Storing the checksum computed over a message with a zero checksum field makes it verify. */
  lemma StoredChecksumVerifies(extra: int, s: seq<int>, k: nat)
    requires AllOctets(s) && |s| <= MAX_LENGTH && 0 <= extra <= 0x4_FFFF
    requires k + 1 < |s| && k % 2 == 0 && s[k] == 0 && s[k + 1] == 0
    ensures var c := ChecksumOctets(extra + WordSum(s));
            AllOctets(c) && Verifies(extra, s[k := c[0]][k + 1 := c[1]])
  {
    hide WordSum, Fold, Msb, Lsb;
    WordSumBound(s);
    SumFits(s);
    var total := extra + WordSum(s);
    FoldTwice(total);
    var f := Fold(Fold(total));
    var c := ChecksumOctets(total);
    ComplementOctets(f);
    WordSumUpdate(s, k, c[0], c[1]);
    CongruentDifference(total, f);
    MultipleFolds(total + (0xFFFF - f));
  }

  lemma ComplementOctets(f: int)
    requires 0 <= f <= 0xFFFF
    ensures Msb(-f - 1) * 0x100 + Lsb(-f - 1) == 0xFFFF - f
    ensures IsOctet(Msb(-f - 1)) && IsOctet(Lsb(-f - 1))
  {
  }

  lemma CongruentDifference(x: int, y: int)
    requires x % 0xFFFF == y % 0xFFFF
    ensures (x + (0xFFFF - y)) % 0xFFFF == 0
  {
    assert x + (0xFFFF - y) == (x / 0xFFFF - y / 0xFFFF + 1) * 0xFFFF;
  }

  /** A positive multiple of 2^16 - 1 folds to all ones. */
  lemma MultipleFolds(x: int)
    requires 0 < x < HALF && x % 0xFFFF == 0
    ensures Fold(Fold(x)) == 0xFFFF
  {
    FoldTwice(x);
  }

  /** The summing loop over `length` octets, two at a time. */
  method SumWords(data: array<int>, from: nat, length: nat, start: Int32) returns (sum: Int32)
    requires from + length <= data.Length && length <= MAX_LENGTH && 0 <= start <= 0x4_FFFF
    requires AllOctets(data[from..from + length])
    ensures sum == start + WordSum(data[from..from + length])
  {
    hide WordSum;
    ghost var whole := data[from..from + length];
    sum := start;
    var i := 0;
    while i < length
      invariant 0 <= i <= length + 1 && i % 2 == 0
      invariant sum + WordSum(whole[if i < length then i else length..]) == start + WordSum(whole)
    {
      var val := data[from + i] * 0x100;
      if i + 1 != length {
        val := val + data[from + i + 1];
      }
      PartialFits(start, whole, sum, i, val);
      sum := sum + val;
      i := i + 2;
    }
    NothingToSum(whole[length..]);
  }

  lemma NothingToSum(s: seq<int>)
    requires s == []
    ensures WordSum(s) == 0
  {
  }

  /** Adding the next word keeps the accumulator within 32 bits. */
  lemma PartialFits(start: int, whole: seq<int>, sum: int, i: nat, val: int)
    requires AllOctets(whole) && |whole| <= MAX_LENGTH && 0 <= start <= 0x4_FFFF
    requires i < |whole| && sum + WordSum(whole[i..]) == start + WordSum(whole)
    requires val == whole[i] * 0x100 + (if i + 1 < |whole| then whole[i + 1] else 0)
    ensures sum + val + WordSum(whole[if i + 2 < |whole| then i + 2 else |whole|..]) == start + WordSum(whole)
    ensures sum + val < HALF
  {
    var rest := whole[if i + 2 < |whole| then i + 2 else |whole|..];
    if i + 1 < |whole| {
      assert whole[i..][2..] == rest;
    } else {
      assert whole[i..] == [whole[i]] && rest == [];
    }
    WordSumBound(rest);
    SumFits(whole);
  }

  /** `icmp_checksum`: the checksum of the message with a zero checksum field is stored, whatever its
      entries are, and a message that has the field verifies afterwards. Only the two checksum octets
      change. A negative length counts as none. */
  method IcmpChecksum(data: array<int>, from: nat, length: int)
    requires from + 4 <= data.Length && from + length <= data.Length && length <= MAX_LENGTH
    modifies data
    ensures var n := if length < 0 then 0 else length;
            var zeroed := old(data[..])[from + 2 := 0][from + 3 := 0];
            [data[from + 2], data[from + 3]] == ChecksumOctets(WordSum(Lsbs(zeroed[from..from + n])))
    ensures length >= 4 ==> Verifies(0, Lsbs(data[from..from + length]))
    ensures IsOctet(data[from + 2]) && IsOctet(data[from + 3])
    ensures forall k | 0 <= k < data.Length && k != from + 2 && k != from + 3 :: data[k] == old(data[k])
    ensures old(AllOctets(data[..])) ==> AllOctets(data[..])
  {
    hide WordSum, Fold, Msb, Lsb, Verifies;
    var n := if length < 0 then 0 else length;
    ghost var zeroed := data[..][from + 2 := 0][from + 3 := 0];
    data[from + 2] := 0;
    data[from + 3] := 0;
    assert data[..] == zeroed && data[from..from + n] == zeroed[from..from + n];
    ghost var raw := Lsbs(data[from..from + n]);
    ZeroLsb();
    var sum := SumLowOctets(data, from, n);
    SumFits(raw);
    WordSumBound(raw);
    FoldOnce(sum);
    sum := Fold(sum);
    FoldOnce(sum);
    sum := Fold(sum);
    sum := -sum - 1;
    OctetsOfNumbers(sum);
    LsbKeeps(sum);
    if n >= 4 {
      assert raw[2] == 0 && raw[3] == 0;
      StoredChecksumVerifies(0, raw, 2);
    }
    data[from + 2] := Msb(sum);
    data[from + 3] := Lsb(sum);
    assert n >= 4 ==> Lsbs(data[from..from + n]) == raw[2 := Msb(sum)][3 := Lsb(sum)];
  }

  lemma ZeroLsb()
    ensures Lsb(0) == 0
  {
  }

  lemma LsbKeeps(x: int)
    ensures Lsb(Msb(x)) == Msb(x) && Lsb(Lsb(x)) == Lsb(x)
  {
  }

  /** The summing loop over the low octets of the message. */
  method SumLowOctets(data: array<int>, from: nat, length: nat) returns (sum: Int32)
    requires from + length <= data.Length && length <= MAX_LENGTH
    ensures sum == WordSum(Lsbs(data[from..from + length]))
  {
    hide Lsb;
    ghost var whole := Lsbs(data[from..from + length]);
    SumFits(whole);
    sum := 0;
    var i := 0;
    while i < length
      invariant 0 <= i <= length + 1 && i % 2 == 0
      invariant sum + WordSum(whole[if i < length then i else length..]) == WordSum(whole)
    {
      WordSumBound(whole[i..]);
      var val := Lsb(data[from + i]) * 0x100;
      if i + 1 != length {
        val := val + Lsb(data[from + i + 1]);
      }
      PartialFits(0, whole, sum, i, val);
      WordSumBound(whole);
      sum := sum + val;
      i := i + 2;
    }
    NothingToSum(whole[length..]);
  }
}
