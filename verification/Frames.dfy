/** Frames between octet buffers and the 16-bit data port of the network chip. */
module Frames {
  import opened Words
  import opened Isa
  import opened Octets

  /** The size of both frame buffers. */
  const BUFFER := 2048

  const MAC_ADDR := [0xF0, 0xDE, 0xF1, 0x44, 0x55, 0x66]

  /** Two entries in one word, the first one low: a bitwise or of the 32-bit values. */
  function Pair(low: int, high: int): Word { Or(Wrap(low), Wrap(high * 0x100)) }

  /** The words the port sees for a frame: two entries each; an odd last one travels alone. */
  function Packed(s: seq<int>): (words: seq<int>)
    ensures |words| == (|s| + 1) / 2
  {
    seq((|s| + 1) / 2, i requires 0 <= i < (|s| + 1) / 2 =>
      if 2 * i + 1 < |s| then Pair(s[2 * i], s[2 * i + 1]) else Wrap(s[2 * i]))
  }

  /** Word by word, the octets a reader of the port finds. */
  function Unpacked(words: seq<int>): (s: seq<int>)
    ensures |s| == 2 * |words| && AllOctets(s)
  {
    seq(2 * |words|, k requires 0 <= k < 2 * |words| => if k % 2 == 0 then Lsb(words[k / 2]) else Msb(words[k / 2]))
  }

  /** The packing loop of `ethernet_send`. */
  method SendFrame(txData: array<int>, txLen: nat) returns (port: seq<int>)
    requires txData.Length == BUFFER && txLen <= BUFFER
    ensures port == Packed(txData[..txLen])
  {
    hide Or, Wrap;
    port := [];
    var i := 0;
    while i < txLen
      invariant 0 <= i <= txLen + 1 && (i % 2 == 0) && |port| == i / 2
      invariant i / 2 <= (txLen + 1) / 2
      invariant port == Packed(txData[..txLen])[..i / 2]
    {
      var val := Wrap(txData[i]);
      if i + 1 != txLen {
        val := Or(val, Wrap(txData[i + 1] * 0x100));
      }
      assert Packed(txData[..txLen])[i / 2] == val;
      port := port + [val];
      i := i + 2;
    }
  }

  /** The unpacking loop of `ethernet_recv`; an odd length also fills the octet after it. */
  method ReceiveFrame(port: seq<int>, rxLen: nat, rxData: array<int>)
    requires rxData.Length == BUFFER && rxLen <= BUFFER && |port| == (rxLen + 1) / 2
    modifies rxData
    ensures rxData[..2 * |port|] == Unpacked(port)
    ensures forall k | 2 * |port| <= k < BUFFER :: rxData[k] == old(rxData[k])
  {
    var i := 0;
    while i < rxLen
      invariant 0 <= i <= rxLen + 1 && i % 2 == 0 && i <= 2 * |port|
      invariant forall k | 0 <= k < i :: rxData[k] == Unpacked(port)[k]
      invariant forall k | i <= k < BUFFER :: rxData[k] == old(rxData[k])
    {
      var data := port[i / 2];
      rxData[i] := Lsb(data);
      rxData[i + 1] := Msb(data);
      i := i + 2;
    }
  }

  lemma {:induction false} OrZero(f: (bool, bool) -> bool, b: nat, bits: nat)
    requires f(false, false) == false && f(false, true) == true && b < Pow2(bits)
    ensures Combine(f, 0, b, bits) == b
  {
    if bits > 0 {
      OrZero(f, b / 2, bits - 1);
    }
  }

  /** On numbers without a common bit the or is the sum. */
  lemma {:induction false} OrDisjoint(f: (bool, bool) -> bool, a: nat, b: nat, n: nat, bits: nat)
    requires f(false, false) == false && f(false, true) == true && f(true, false) == true
    requires a < Pow2(n) && n <= bits && b < Pow2(bits - n)
    ensures Combine(f, a, b * Pow2(n), bits) == a + b * Pow2(n)
  {
    if n == 0 {
      OrZero(f, b, bits);
    } else {
      assert b * Pow2(n) == 2 * (b * Pow2(n - 1));
      OrDisjoint(f, a / 2, b, n - 1, bits - 1);
    }
  }

  lemma PairOfOctets(low: int, high: int)
    requires IsOctet(low) && IsOctet(high)
    ensures Pair(low, high) == low + high * 0x100
  {
    hide Combine;
    assert Pow2(8) == 0x100;
    Pow2Sum(8, 16);
    Pow2Word();
    OrDisjoint((x, y) => x || y, low, high, 8, 32);
  }

  /** On the port the earlier octet of two is the lower one. */
  lemma PortOrder(s: seq<int>, i: nat)
    requires AllOctets(s) && 2 * i < |s|
    ensures Packed(s)[i] == s[2 * i] + if 2 * i + 1 < |s| then s[2 * i + 1] * 0x100 else 0
  {
    hide Pair;
    if 2 * i + 1 < |s| {
      PairOfOctets(s[2 * i], s[2 * i + 1]);
    }
  }

  lemma WordHalves(s: seq<int>, i: nat)
    requires AllOctets(s) && 2 * i < |s|
    ensures var u := Unpacked(Packed(s));
            u[2 * i] == s[2 * i] && u[2 * i + 1] == if 2 * i + 1 < |s| then s[2 * i + 1] else 0
  {
    hide Lsb, Msb, Pair;
    var u := Unpacked(Packed(s));
    var high := if 2 * i + 1 < |s| then s[2 * i + 1] else 0;
    TwoHalves(s[2 * i], high);
    PairOfOctets(s[2 * i], high);
    assert Packed(s)[i] == s[2 * i] + high * 0x100;
    assert u[2 * i] == Lsb(Packed(s)[i]) && u[2 * i + 1] == Msb(Packed(s)[i]);
  }

  lemma TwoHalves(low: int, high: int)
    requires IsOctet(low) && IsOctet(high)
    ensures Lsb(low + high * 0x100) == low && Msb(low + high * 0x100) == high
  {
    assert (low + high * 0x100) / 0x100 == high;
  }

  /** A frame of octets, odd lengths included, comes back as it was sent, an odd one followed by a
      zero; a frame with anything wider than an octet does not. */
  lemma FrameRoundTrip(s: seq<int>)
    ensures AllOctets(s) ==> Unpacked(Packed(s)) == if |s| % 2 == 0 then s else s + [0]
    ensures Unpacked(Packed(s))[..|s|] == s <==> AllOctets(s)
  {
    hide Packed, Unpacked;
    var u := Unpacked(Packed(s));
    if AllOctets(s) {
      forall k | 0 <= k < |s|
        ensures u[k] == s[k]
      {
        WordHalves(s, k / 2);
      }
      if |s| % 2 == 1 {
        WordHalves(s, |s| / 2);
      }
    }
    assert AllOctets(u[..|s|]);
  }

  /** A sent frame of octets is what the receiving buffer starts with. */
  lemma FrameArrives(host: seq<int>, tx: seq<int>, n: nat, port: seq<int>)
    requires n <= |tx| && AllOctets(tx) && port == Packed(tx[..n])
    requires 2 * |port| <= |host| && host[..2 * |port|] == Unpacked(port)
    ensures host[..n] == tx[..n]
  {
    hide Packed, Unpacked;
    FrameRoundTrip(tx[..n]);
    assert host[..n] == host[..2 * |port|][..n];
  }

  /** `ethernet_set_tx`: destination, own address and type; the rest of the frame stays. */
  method SetTx(tx: array<int>, rx: array<int>, dst: nat, etherType: int)
    requires tx.Length == BUFFER && dst + 6 <= rx.Length && tx != rx
    modifies tx
    ensures tx[..6] == Lsbs(rx[dst..dst + 6]) && tx[6..12] == MAC_ADDR
    ensures tx[12..14] == [Msb(etherType), Lsb(etherType)]
    ensures tx[14..] == old(tx[14..])
    ensures old(AllOctets(tx[..])) ==> AllOctets(tx[..])
  {
    hide Msb, Lsb;
    ghost var before := tx[..];
    MemCpy(tx, 0, rx, dst, 6);
    assert tx[..6] == tx[0..6];
    CopyConstant(tx, 6, MAC_ADDR);
    tx[12] := Msb(etherType);
    tx[13] := Lsb(etherType);
    OctetsOfNumbers(etherType);
    assert tx[14..] == before[14..];
    assert AllOctets(tx[..6]) && AllOctets(tx[6..12]);
    assert forall k | 0 <= k < 6 :: tx[k] == tx[..6][k];
    assert forall k | 6 <= k < 12 :: tx[k] == tx[6..12][k - 6];
  }

  /** `memcpy` from a constant array of octets. */
  method CopyConstant(dst: array<int>, to: nat, s: seq<int>)
    requires to + |s| <= dst.Length && AllOctets(s)
    modifies dst
    ensures dst[to..to + |s|] == s
    ensures forall k | 0 <= k < dst.Length && !(to <= k < to + |s|) :: dst[k] == old(dst[k])
    ensures old(AllOctets(dst[..])) ==> AllOctets(dst[..])
  {
    ghost var whole := dst[..];
    for i := 0 to |s|
      invariant dst[to..to + i] == s[..i]
      invariant forall k | 0 <= k < dst.Length && !(to <= k < to + i) :: dst[k] == old(dst[k])
    {
      dst[to + i] := Lsb(s[i]);
      assert dst[to..to + i + 1] == dst[to..to + i] + [s[i]];
    }
    IsReplaced(whole, dst[..], to, s);
  }
}
