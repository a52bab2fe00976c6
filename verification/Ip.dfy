/** The headers of a reply: Ethernet and IP, written around a payload already in the frame. */
module Ip {
  import opened Octets
  import opened Frames

  const ETHERNET_HEADER := 14
  const IP_HEADER := 20
  /** Where the payload of an IP packet starts in a frame. */
  const PAYLOAD := 34

  const TYPE_IP := 0x0800
  const IP_ADDR := [192, 168, 1, 233]

  /** The fields a reply header has: the frame goes back to the sender of the received one. The fields
      at 15, 18, 19, 24 and 25 (service, identification, header checksum) are not written. */
  predicate Replies(frame: seq<int>, rx: seq<int>, protocol: int, length: int)
    requires |frame| >= PAYLOAD && |rx| == BUFFER
  {
    && frame[..6] == Lsbs(rx[6..12]) && frame[6..12] == MAC_ADDR
    && frame[12..14] == [Msb(TYPE_IP), Lsb(TYPE_IP)] && frame[14] == 0x45
    && frame[16..18] == [Msb(length + IP_HEADER), Lsb(length + IP_HEADER)]
    && frame[20] == 0 && frame[21] == 0 && frame[22] == 64 && frame[23] == protocol
    && frame[26..30] == IP_ADDR && frame[30..34] == Lsbs(rx[26..30])
  }

  /** `ip_make_reply`: the whole header is written, payload and unwritten fields stay. */
  method MakeReply(tx: array<int>, rx: array<int>, protocol: int, length: int)
    requires tx.Length == rx.Length == BUFFER && tx != rx && IsOctet(protocol)
    modifies tx
    ensures Replies(tx[..], rx[..], protocol, length)
    ensures tx[PAYLOAD..] == old(tx[PAYLOAD..])
    ensures forall k | k in {15, 18, 19, 24, 25} :: tx[k] == old(tx[k])
    ensures old(AllOctets(tx[..])) ==> AllOctets(tx[..])
  {
    hide Msb, Lsb;
    ghost var before := tx[..];
    SetTx(tx, rx, 6, TYPE_IP);
    FixedFields(tx, protocol, length + IP_HEADER);
    CopyConstant(tx, ETHERNET_HEADER + 12, IP_ADDR);
    MemCpy(tx, ETHERNET_HEADER + 16, rx, ETHERNET_HEADER + 12, 4);
    assert rx[..][6..12] == rx[6..12] && rx[..][26..30] == rx[26..30];
    assert tx[..][30..34] == tx[30..34] && tx[..][26..30] == tx[26..30];
  }

  /** Version, length, flags, time to live and protocol. */
  method FixedFields(tx: array<int>, protocol: int, total: int)
    requires tx.Length == BUFFER && IsOctet(protocol)
    modifies tx
    ensures tx[14] == 0x45 && tx[16] == Msb(total) && tx[17] == Lsb(total)
    ensures tx[20] == 0 && tx[21] == 0 && tx[22] == 64 && tx[23] == protocol
    ensures forall k | 0 <= k < BUFFER && k !in {14, 16, 17, 20, 21, 22, 23} :: tx[k] == old(tx[k])
    ensures old(AllOctets(tx[..])) ==> AllOctets(tx[..])
  {
    hide Msb, Lsb;
    OctetsOfNumbers(total);
    tx[ETHERNET_HEADER] := 0x45;
    tx[ETHERNET_HEADER + 2] := Msb(total);
    tx[ETHERNET_HEADER + 3] := Lsb(total);
    tx[ETHERNET_HEADER + 6] := 0;
    tx[ETHERNET_HEADER + 7] := 0;
    tx[ETHERNET_HEADER + 8] := 64;
    tx[ETHERNET_HEADER + 9] := protocol;
  }

  /** What a host reads from a reply: the total length and, from the sender's side, its own address. */
  lemma ReplyReadsBack(frame: seq<int>, rx: seq<int>, protocol: int, length: int)
    requires |frame| >= PAYLOAD && |rx| == BUFFER && AllOctets(rx) && Replies(frame, rx, protocol, length)
    requires 0 <= length + IP_HEADER < 0x1_0000
    ensures frame[..6] == rx[6..12] && frame[30..34] == rx[26..30]
    ensures Spelled(frame[16..18]) == length + IP_HEADER && Spelled(frame[12..14]) == TYPE_IP
  {
    hide Spelled, Lsb, Msb, OctetsOf;
    LsbsOfOctets(rx[6..12]);
    LsbsOfOctets(rx[26..30]);
    TwoDigits(length + IP_HEADER);
    TwoOctets(length + IP_HEADER);
    TwoDigits(TYPE_IP);
    TwoOctets(TYPE_IP);
  }

  /** The header fields depend on the header only. */
  lemma SameHeader(host: seq<int>, frame: seq<int>, rx: seq<int>, protocol: int, length: int)
    requires |host| >= PAYLOAD && |frame| >= PAYLOAD && |rx| == BUFFER && Replies(frame, rx, protocol, length)
    requires host[..PAYLOAD] == frame[..PAYLOAD]
    ensures Replies(host, rx, protocol, length)
  {
    SamePiece(host, frame, 0, 6);
    SamePiece(host, frame, 6, 12);
    SamePiece(host, frame, 12, 14);
    SamePiece(host, frame, 16, 18);
    SamePiece(host, frame, 26, 30);
    SamePiece(host, frame, 30, 34);
    assert forall k | 0 <= k < PAYLOAD :: host[k] == host[..PAYLOAD][k] && frame[k] == frame[..PAYLOAD][k];
  }

  lemma SamePiece(host: seq<int>, frame: seq<int>, i: nat, j: nat)
    requires |host| >= PAYLOAD && |frame| >= PAYLOAD && host[..PAYLOAD] == frame[..PAYLOAD] && i <= j <= PAYLOAD
    ensures host[i..j] == frame[i..j]
  {
    PieceOf(host, PAYLOAD, i, j);
    PieceOf(frame, PAYLOAD, i, j);
  }

  lemma PieceOf(s: seq<int>, n: nat, i: nat, j: nat)
    requires i <= j <= n <= |s|
    ensures s[..n][i..j] == s[i..j]
  {
  }
}
