/** The network stack from a received packet to the frame its sender gets back. */
module Stack {
  import opened Words
  import opened Octets
  import opened Frames
  import opened Ip
  import opened Icmp
  import opened TcpServer

  /** The length an IP header claims for its payload. */
  function ClaimedLength(rx: seq<int>): int
    requires |rx| == BUFFER
  {
    rx[16] * 0x100 + rx[17] - IP_HEADER
  }

  /** A plain IPv4 packet with an echo request. */
  predicate AsksEcho(rx: seq<int>)
    requires |rx| == BUFFER
  {
    rx[14] == 0x45 && rx[23] == PROTOCOL_ICMP && rx[PAYLOAD] == ECHO_REQUEST
  }

  /** `ip_handle`: packets with a plain IPv4 header go to the protocol they name, all others are
      ignored. The source copies an echo request of any claimed length; here it has to fit the frame. */
  method HandlePacket(s: TcpServer) returns (echo: Option<seq<int>>)
    requires s.Valid() && (AsksEcho(s.rx[..]) ==> ClaimedLength(s.rx[..]) <= BUFFER - PAYLOAD)
    modifies s, s.tx, s.srcAddr, s.dstAddr
    ensures s.Valid()
    ensures s.rx[14] != 0x45 || s.rx[23] !in {PROTOCOL_ICMP, PROTOCOL_TCP} ==>
              echo == None && s.View() == old(s.View()) && s.frames == old(s.frames) && s.tx[..] == old(s.tx[..])
    ensures s.rx[14] == 0x45 && s.rx[23] == PROTOCOL_ICMP ==>
              && s.View() == old(s.View()) && s.frames == old(s.frames)
              && (echo.Some? <==> s.rx[PAYLOAD] == ECHO_REQUEST)
              && (echo.Some? && ClaimedLength(s.rx[..]) >= 4 ==>
                    var n := ClaimedLength(s.rx[..]);
                    echo.value == Packed(s.tx[..PAYLOAD + n])
                    && Echoes(s.tx[PAYLOAD..PAYLOAD + n], s.rx[PAYLOAD..PAYLOAD + n]))
    ensures s.rx[14] == 0x45 && s.rx[23] == PROTOCOL_TCP ==>
              var (after, g) := Handle(s.cfg, s.file, old(s.View()), Parsed(s.rx[..], ClaimedLength(s.rx[..])));
              && echo == None && s.View() == after
              && if g.Some? then Emitted(old(s.frames), s.frames, s.port, s.rx[..], Encode(after.peer, g.value))
                 else s.frames == old(s.frames)
  {
    hide Handle, Parsed, Encode, Emitted, Echoes, Packed, Replies, Spelled, ProperPeer;
    echo := None;
    if s.rx[14] != 0x45 {
      return;
    }
    PairOfOctets(s.rx[17], s.rx[16]);
    var length := s.rx[16] * 0x100 + s.rx[17] - IP_HEADER;
    if s.rx[23] == PROTOCOL_ICMP {
      echo := HandleEcho(s.rx, s.tx, length);
    }
    if s.rx[23] == PROTOCOL_TCP {
      s.HandleSegment(length);
    }
  }

  /** A frame the server emitted, as its peer receives it: the words of the port, read by the receiving
      loop, leave in the peer's buffer exactly the frame that carries the segment. */
  lemma EmittedArrives(before: seq<seq<int>>, after: seq<seq<int>>, port: seq<int>, rx: seq<int>, segment: seq<int>,
                       host: seq<int>)
    requires |rx| == |host| == BUFFER && Emitted(before, after, port, rx, segment)
    requires 2 * |port| <= BUFFER && host[..2 * |port|] == Unpacked(port)
    ensures |segment| <= BUFFER - PAYLOAD && Carries(host[..PAYLOAD + |segment|], rx, segment)
  {
    hide Packed, Unpacked, Replies;
    var frame := after[|before|];
    assert frame[..|frame|] == frame;
    FrameArrives(host, frame, |frame|, port);
  }

  /** The receiving loop does leave the buffer so. */
  method SegmentArrives(s: TcpServer, ghost before: seq<seq<int>>, ghost segment: seq<int>, host: array<int>,
                        length: nat)
    requires host.Length == BUFFER && s.rx.Length == BUFFER
    requires Emitted(before, s.frames, s.port, s.rx[..], segment) && length == PAYLOAD + |segment| <= BUFFER
    requires host != s.tx && host != s.rx && host != s.srcAddr && host != s.dstAddr
    modifies host
    ensures Carries(host[..length], s.rx[..], segment)
  {
    hide Packed, Unpacked, Replies;
    ReceiveFrame(s.port, length, host);
    assert host[..][..2 * |s.port|] == host[..2 * |s.port|];
    EmittedArrives(before, s.frames, s.port, s.rx[..], segment, host[..]);
    assert host[..][..length] == host[..length];
  }
}
