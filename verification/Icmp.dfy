/** Echo requests are answered with the octets they carry. */
module Icmp {
  import opened Words
  import opened Octets
  import opened Checksum
  import opened Frames
  import opened Ip

  const PROTOCOL_ICMP := 1
  const ECHO_REQUEST := 8
  const ECHO_REPLY := 0

  /** The message answers the request: an echo reply with the same identifier, sequence number and
      data, whose checksum verifies. */
  predicate Echoes(reply: seq<int>, request: seq<int>)
  {
    && |reply| == |request| >= 4
    && reply[0] == ECHO_REPLY && reply[1] == 0 && reply[4..] == request[4..]
    && Verifies(0, reply)
  }

  /** `icmp_handle`: only echo requests are answered. `length` is the length the IP header claims,
      negative when it claims less than its own header. */
  method HandleEcho(rx: array<int>, tx: array<int>, length: int) returns (port: Option<seq<int>>)
    requires rx.Length == tx.Length == BUFFER && rx != tx && AllOctets(rx[..])
    requires -IP_HEADER <= length && (rx[PAYLOAD] == ECHO_REQUEST ==> length <= BUFFER - PAYLOAD)
    modifies tx
    ensures old(AllOctets(tx[..])) ==> AllOctets(tx[..])
    ensures port.Some? <==> rx[PAYLOAD] == ECHO_REQUEST
    ensures port.None? ==> tx[..] == old(tx[..])
    ensures port.Some? ==>
              port.value == Packed(tx[..PAYLOAD + length]) && Replies(tx[..], rx[..], PROTOCOL_ICMP, length)
    ensures port.Some? && length >= 4 ==> Echoes(tx[PAYLOAD..PAYLOAD + length], rx[PAYLOAD..PAYLOAD + length])
  {
    hide Packed, Replies, Echoes, AllOctets;
    if rx[PAYLOAD] != ECHO_REQUEST {
      return None;
    }
    BuildEcho(rx, tx, length);
    ghost var message := tx[PAYLOAD..];
    MakeReply(tx, rx, PROTOCOL_ICMP, length);
    assert length >= 0 ==> tx[PAYLOAD..PAYLOAD + length] == tx[PAYLOAD..][..length] == message[..length];
    var frame := SendFrame(tx, PAYLOAD + length);
    port := Some(frame);
  }

  /** The message of the answer. */
  method BuildEcho(rx: array<int>, tx: array<int>, length: int)
    requires rx.Length == tx.Length == BUFFER && rx != tx && AllOctets(rx[..])
    requires length <= BUFFER - PAYLOAD
    modifies tx
    ensures old(AllOctets(tx[..])) ==> AllOctets(tx[..])
    ensures length >= 4 ==> Echoes(tx[PAYLOAD..PAYLOAD + length], rx[PAYLOAD..PAYLOAD + length])
    ensures length >= 0 ==> tx[PAYLOAD..][..length] == tx[PAYLOAD..PAYLOAD + length]
  {
    hide Verifies, ChecksumOctets, Echoes, WordSum;
    TypeAndCode(tx);
    CopyEcho(tx, rx, length);
    ghost var before := tx[..];
    IcmpChecksum(tx, PAYLOAD, length);
    if length >= 4 {
      ghost var reply, request := tx[PAYLOAD..PAYLOAD + length], rx[PAYLOAD..PAYLOAD + length];
      assert tx[PAYLOAD + 4..PAYLOAD + length] == before[PAYLOAD + 4..PAYLOAD + length];
      assert reply[4..] == tx[PAYLOAD + 4..PAYLOAD + length] && request[4..] == rx[PAYLOAD + 4..PAYLOAD + length];
      ReplyOctets(reply, request);
    }
  }

  method TypeAndCode(tx: array<int>)
    requires tx.Length == BUFFER
    modifies tx
    ensures tx[PAYLOAD] == ECHO_REPLY && tx[PAYLOAD + 1] == 0
    ensures forall k | 0 <= k < BUFFER && k != PAYLOAD && k != PAYLOAD + 1 :: tx[k] == old(tx[k])
    ensures old(AllOctets(tx[..])) ==> AllOctets(tx[..])
  {
    tx[PAYLOAD] := ECHO_REPLY;
    tx[PAYLOAD + 1] := 0;
  }

  method CopyEcho(tx: array<int>, rx: array<int>, length: int)
    requires rx.Length == tx.Length == BUFFER && rx != tx && AllOctets(rx[..])
    requires length <= BUFFER - PAYLOAD
    modifies tx
    ensures length >= 4 ==> tx[PAYLOAD + 4..PAYLOAD + length] == rx[PAYLOAD + 4..PAYLOAD + length]
    ensures forall k | 0 <= k < PAYLOAD + 4 :: tx[k] == old(tx[k])
    ensures old(AllOctets(tx[..])) ==> AllOctets(tx[..])
  {
    hide Lsb;
    if length >= 4 {
      LsbsOfOctets(rx[PAYLOAD + 4..PAYLOAD + length]);
      MemCpy(tx, PAYLOAD + 4, rx, PAYLOAD + 4, length - 4);
    }
  }

  /** An echoed message of octets whose low octets verify is itself a verifying reply. */
  lemma ReplyOctets(reply: seq<int>, request: seq<int>)
    requires |reply| == |request| >= 4 && AllOctets(request)
    requires reply[0] == ECHO_REPLY && reply[1] == 0 && reply[4..] == request[4..]
    requires IsOctet(reply[2]) && IsOctet(reply[3]) && Verifies(0, Lsbs(reply))
    ensures Echoes(reply, request)
  {
    assert forall k | 4 <= k < |reply| :: reply[k] == reply[4..][k - 4] == request[4..][k - 4];
    LsbsOfOctets(reply);
  }

  /** The answer as the requesting host receives it: through the port of the chip its buffer holds
      exactly the octets of the frame, and the echoed message verifies. */
  method EchoArrives(rx: array<int>, tx: array<int>, length: nat, host: array<int>)
    requires rx.Length == tx.Length == host.Length == BUFFER && rx != tx && host != tx && host != rx
    requires AllOctets(rx[..]) && AllOctets(tx[..]) && rx[PAYLOAD] == ECHO_REQUEST
    requires 4 <= length <= BUFFER - PAYLOAD
    modifies tx, host
    ensures host[..PAYLOAD + length] == tx[..PAYLOAD + length] && Replies(host[..], rx[..], PROTOCOL_ICMP, length)
    ensures Echoes(host[PAYLOAD..PAYLOAD + length], rx[PAYLOAD..PAYLOAD + length])
  {
    hide Packed, Unpacked, Verifies;
    var port := HandleEcho(rx, tx, length);
    ReceiveFrame(port.value, PAYLOAD + length, host);
    FrameRoundTrip(tx[..PAYLOAD + length]);
    FrameArrives(host[..], tx[..], PAYLOAD + length, port.value);
    assert host[..][..PAYLOAD + length] == host[..PAYLOAD + length];
    SameHeader(host[..], tx[..], rx[..], PROTOCOL_ICMP, length);
  }
}
