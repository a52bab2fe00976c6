/** Octets in arrays of C integers: the copying, comparing and conversion loops of utils.c. */
module Octets {

  // ----- 32-bit C integers

  const HALF := 0x8000_0000
  const FULL := 0x1_0000_0000

  /** A C `int`. */
  type Int32 = x: int | -HALF <= x < HALF

  /** Two's complement wrap-around. */
  function ToInt32(x: int): Int32 { (x + HALF) % FULL - HALF }

  /** The low octet, and the one above it. */
  function Lsb(x: int): nat { x % 0x100 }

  function Msb(x: int): nat { (x / 0x100) % 0x100 }

  predicate IsOctet(x: int) { 0 <= x < 0x100 }

  predicate AllOctets(s: seq<int>) { forall k | 0 <= k < |s| :: IsOctet(s[k]) }

  lemma OctetsOfNumbers(x: int)
    ensures IsOctet(Lsb(x)) && IsOctet(Msb(x))
  {
  }

  // ----- big-endian numbers

  /** The number a string of octets spells, most significant octet first. */
  function Spelled(s: seq<int>): nat
  {
    if s == [] then 0 else Spelled(s[..|s| - 1]) * 0x100 + Lsb(s[|s| - 1])
  }

  /** The `n` low octets of a number, most significant first. */
  function OctetsOf(v: int, n: nat): (s: seq<int>)
    ensures |s| == n && AllOctets(s)
    decreases n
  {
    if n == 0 then [] else OctetsOf(v / 0x100, n - 1) + [Lsb(v)]
  }

  /** Every octet of a region reduced to its low eight bits. */
  function Lsbs(s: seq<int>): (r: seq<int>)
    ensures |r| == |s| && AllOctets(r)
  {
    seq(|s|, i requires 0 <= i < |s| => Lsb(s[i]))
  }

  /** Octets are left as they are. */
  lemma LsbsOfOctets(s: seq<int>)
    requires AllOctets(s)
    ensures Lsbs(s) == s
  {
    assert forall i | 0 <= i < |s| :: IsOctet(s[i]) ==> Lsb(s[i]) == s[i];
  }

  lemma TwoDigits(v: int)
    ensures OctetsOf(v, 2) == [Msb(v), Lsb(v)]
  {
    assert OctetsOf(v / 0x100, 1) == OctetsOf(v / 0x100 / 0x100, 0) + [Lsb(v / 0x100)];
  }

  lemma FourDigits(v: int)
    ensures OctetsOf(v, 4) == [Lsb(v / 0x100_0000), Lsb(v / 0x1_0000), Msb(v), Lsb(v)]
  {
    TwoDigits(v / 0x100 / 0x100);
    assert v / 0x100 / 0x100 == v / 0x1_0000;
    assert v / 0x1_0000 / 0x100 == v / 0x100_0000;
    assert OctetsOf(v / 0x100, 3) == OctetsOf(v / 0x100 / 0x100, 2) + [Lsb(v / 0x100)];
  }

  lemma SpelledTwo(a: int, b: int)
    ensures Spelled([a, b]) == Lsb(a) * 0x100 + Lsb(b)
  {
    assert [a, b][..1] == [a];
    assert [a][..0] == [];
    assert Spelled([a]) == Spelled([]) * 0x100 + Lsb(a);
    assert Spelled([a, b]) == Spelled([a]) * 0x100 + Lsb(b);
  }

  lemma SpelledFour(a: int, b: int, c: int, d: int)
    ensures Spelled([a, b, c, d]) == ((Lsb(a) * 0x100 + Lsb(b)) * 0x100 + Lsb(c)) * 0x100 + Lsb(d)
  {
    SpelledTwo(a, b);
    assert [a, b, c][..2] == [a, b];
    assert [a, b, c, d][..3] == [a, b, c];
  }

  /** A number survives two octets modulo 2^16. */
  lemma TwoOctets(v: int)
    ensures Spelled(OctetsOf(v, 2)) == v % 0x1_0000
  {
    TwoDigits(v);
    SpelledTwo(Msb(v), Lsb(v));
  }

  /** A 32-bit integer survives four octets. */
  lemma FourOctets(v: Int32)
    ensures ToInt32(Spelled(OctetsOf(v, 4))) == v
  {
    hide OctetsOf, Spelled, Lsb, Msb, ToInt32;
    FourDigits(v);
    SpelledFour(Lsb(v / 0x100_0000), Lsb(v / 0x1_0000), Msb(v), Lsb(v));
    LsbOctet(v);
    LowDigits(v);
    HighDigit(v);
    UnwrapInt32(v);
  }

  lemma LowDigits(v: int)
    ensures v % 0x100_0000 == (Lsb(v / 0x1_0000) * 0x100 + Msb(v)) * 0x100 + Lsb(v)
  {
    var q := v / 0x1_0000;
    assert v == q * 0x1_0000 + v % 0x1_0000;
    assert v % 0x1_0000 == Msb(v) * 0x100 + Lsb(v);
  }

  lemma HighDigit(v: int)
    ensures v % FULL == Lsb(v / 0x100_0000) * 0x100_0000 + v % 0x100_0000
  {
    var q := v / 0x100_0000;
    assert v == q * 0x100_0000 + v % 0x100_0000;
  }

  lemma LsbOctet(v: int)
    ensures Lsb(Lsb(v)) == Lsb(v) && Lsb(Msb(v)) == Msb(v)
    ensures Lsb(Lsb(v / 0x1_0000)) == Lsb(v / 0x1_0000) && Lsb(Lsb(v / 0x100_0000)) == Lsb(v / 0x100_0000)
  {
  }

  lemma UnwrapInt32(v: Int32)
    ensures ToInt32(v % FULL) == v
  {
  }

  // ----- the loops

  /** `mem2int`. */
  method Mem2Int(data: array<int>, from: nat, length: nat) returns (ret: Int32)
    requires from + length <= data.Length
    ensures ret == ToInt32(Spelled(data[from..from + length]))
  {
    hide ToInt32, Spelled;
    ret := 0;
    NothingSpelled(data[from..from]);
    for i := 0 to length
      invariant ret == ToInt32(Spelled(data[from..from + i]))
    {
      SpelledMore(data[from..from + i + 1]);
      assert data[from..from + i + 1][..i] == data[from..from + i];
      ret := ToInt32(ret as int * 0x100 + Lsb(data[from + i]));
    }
  }

  lemma NothingSpelled(s: seq<int>)
    ensures s == [] ==> ToInt32(Spelled(s)) == 0
  {
  }

  /** Wrapping early or late makes no difference. */
  lemma SpelledMore(s: seq<int>)
    requires s != []
    ensures ToInt32(Spelled(s)) == ToInt32(ToInt32(Spelled(s[..|s| - 1])) as int * 0x100 + Lsb(s[|s| - 1]))
  {
    hide Lsb;
    var high := Spelled(s[..|s| - 1]);
    var k := (high + HALF) / FULL;
    assert ToInt32(high) == high - k * FULL;
    Periodic(high * 0x100 + Lsb(s[|s| - 1]), -k * 0x100);
  }

  lemma Periodic(x: int, k: int)
    ensures ToInt32(x + k * FULL) == ToInt32(x)
  {
    var q := (x + HALF) / FULL;
    assert x + k * FULL + HALF == ToInt32(x) + HALF + (q + k) * FULL;
  }

  /** `int2mem`. */
  method Int2Mem(data: array<int>, from: nat, length: nat, val: Int32)
    requires from + length <= data.Length
    modifies data
    ensures data[from..from + length] == OctetsOf(val, length)
    ensures data[..] == Replaced(old(data[..]), from, OctetsOf(val, length))
    ensures old(AllOctets(data[..])) ==> AllOctets(data[..])
  {
    ghost var whole := data[..];
    var rest := val;
    for i := 0 to length
      invariant forall k | 0 <= k < data.Length && !(from + length - i <= k < from + length) :: data[k] == old(data[k])
      invariant OctetsOf(rest, length - i) + data[from + length - i..from + length] == OctetsOf(val, length)
    {
      ghost var before := data[from + length - i..from + length];
      data[from + (length - i - 1)] := Lsb(rest);
      rest := rest / 0x100;
      assert data[from + length - (i + 1)..from + length] == [data[from + length - i - 1]] + before;
    }
    IsReplaced(whole, data[..], from, OctetsOf(val, length));
  }

  /** A region of a sequence replaced. */
  function Replaced(s: seq<int>, from: nat, r: seq<int>): (t: seq<int>)
    requires from + |r| <= |s|
    ensures |t| == |s|
  {
    s[..from] + r + s[from + |r|..]
  }

  lemma IsReplaced(s: seq<int>, t: seq<int>, from: nat, r: seq<int>)
    requires from + |r| <= |s| == |t| && AllOctets(r) && t[from..from + |r|] == r
    requires forall k | 0 <= k < |s| && !(from <= k < from + |r|) :: t[k] == s[k]
    ensures t == Replaced(s, from, r)
    ensures AllOctets(s) ==> AllOctets(t)
  {
    assert forall k | from <= k < from + |r| :: t[k] == t[from..from + |r|][k - from];
  }

  /** The distance after which a forward copy within one array repeats its source. */
  function Period(same: bool, to: nat, from: nat, length: nat): (d: nat)
    ensures d > 0
  {
    if same && from < to then to - from else length + 1
  }

  /** The first position that position `k` repeats. */
  function Origin(k: nat, d: nat): (o: nat)
    requires d > 0
    ensures o <= k && o < d
  {
    if k < d then k else Origin(k - d, d)
  }

  /** What a forward copy of `s` leaves. */
  function Copied(s: seq<int>, d: nat): (r: seq<int>)
    requires d > 0
    ensures |r| == |s| && AllOctets(r)
  {
    seq(|s|, k requires 0 <= k < |s| => Lsb(s[Origin(k, d)]))
  }

  lemma CopiedWhole(s: seq<int>, d: nat)
    requires d >= |s| && d > 0
    ensures Copied(s, d) == Lsbs(s)
  {
  }

  lemma LsbTwice(x: int)
    ensures Lsb(Lsb(x)) == Lsb(x)
  {
  }

  /** `memcpy`: every copied octet is reduced to its low eight bits. Within one array a destination
      that overlaps its source from above gets the octets before it over and over. */
  method MemCpy(dst: array<int>, to: nat, src: array<int>, from: nat, length: nat)
    requires to + length <= dst.Length && from + length <= src.Length
    modifies dst
    ensures dst[to..to + length] == Copied(old(src[from..from + length]), Period(dst == src, to, from, length))
    ensures !(dst == src && from < to < from + length) ==>
              dst[to..to + length] == Lsbs(old(src[from..from + length]))
    ensures forall k | 0 <= k < dst.Length && !(to <= k < to + length) :: dst[k] == old(dst[k])
    ensures old(AllOctets(dst[..])) ==> AllOctets(dst[..])
  {
    hide Lsb, Origin, AllOctets, IsOctet;
    ghost var whole := dst[..];
    ghost var source := src[from..from + length];
    ghost var d := Period(dst == src, to, from, length);
    ghost var copy := Copied(source, d);
    for i := 0 to length
      invariant dst != src ==> src[from..from + length] == source
      invariant forall k | 0 <= k < dst.Length && !(to <= k < to + i) :: dst[k] == whole[k]
      invariant dst[to..to + i] == copy[..i]
    {
      ghost var now := src[..];
      assert Lsb(now[from + i]) == copy[i] by {
        if dst == src {
          assert now[to..to + i] == copy[..i];
          ReadsSource(now, whole, to, from, i, length);
        } else {
          assert source[i] == now[from + i];
          ReadsOther(source, i, d);
        }
      }
      dst[to + i] := Lsb(src[from + i]);
      assert dst[to..to + i + 1] == dst[to..to + i] + [copy[i]];
    }
    if d >= length {
      CopiedWhole(source, d);
    }
    IsReplaced(whole, dst[..], to, copy);
  }

  lemma ReadsOther(source: seq<int>, i: nat, d: nat)
    requires i < |source| && d > |source|
    ensures Copied(source, d)[i] == Lsb(source[i])
  {
  }

  /** Within one array the next entry read has the low octet its position repeats. */
  lemma ReadsSource(now: seq<int>, whole: seq<int>, to: nat, from: nat, i: nat, length: nat)
    requires |now| == |whole| && to + length <= |now| && from + length <= |now| && i < length
    requires forall k | 0 <= k < |now| && !(to <= k < to + i) :: now[k] == whole[k]
    requires now[to..to + i] == Copied(whole[from..from + length], Period(true, to, from, length))[..i]
    ensures Lsb(now[from + i]) == Copied(whole[from..from + length], Period(true, to, from, length))[i]
  {
    hide Lsb, Copied;
    var d, source := Period(true, to, from, length), whole[from..from + length];
    CopiedRepeats(source, d, i);
    if from < to && i >= d {
      assert now[from + i] == now[to..to + i][i - d];
    } else {
      assert now[from + i] == whole[from + i];
      assert whole[from + i] == source[i];
    }
  }

  lemma CopiedRepeats(s: seq<int>, d: nat, i: nat)
    requires d > 0 && i < |s|
    ensures i < d ==> Copied(s, d)[i] == Lsb(s[i])
    ensures i >= d ==> Copied(s, d)[i] == Copied(s, d)[i - d] == Lsb(Copied(s, d)[i - d])
  {
    hide Lsb;
    LsbTwice(s[Origin(i, d)]);
  }

  /** `memcmp`: zero exactly when the two regions agree. */
  method MemCmp(a: array<int>, fromA: nat, b: array<int>, fromB: nat, length: nat) returns (r: int)
    requires fromA + length <= a.Length && fromB + length <= b.Length
    ensures r == if a[fromA..fromA + length] == b[fromB..fromB + length] then 0 else -1
  {
    for i := 0 to length
      invariant a[fromA..fromA + i] == b[fromB..fromB + i]
    {
      if a[fromA + i] != b[fromB + i] {
        assert a[fromA..fromA + length][i] != b[fromB..fromB + length][i];
        return -1;
      }
    }
    return 0;
  }
}
