/** The server's answers branch by branch: what each kind of received segment leaves of the connection
    and puts on the wire. Flags are FIN 1, SYN 2, RST 4, PSH 8, ACK 16. */
module TcpLaws {
  import opened Octets
  import opened Words
  import opened Frames
  import opened Ip
  import opened Checksum
  import opened TcpServer
  import Stack

  predicate Flag(flags: int, value: nat)
    requires value > 0
  {
    flags / value % 2 == 1
  }

  /** The connection is closed when the segment is looked at: it was, or the segment is the one that
      brings the counter to the limit. */
  predicate ClosedNow(cfg: Config, s: Server) { s.state.Closed? || s.timeout + 1 == cfg.timeout }

  /** The segment opens a connection. */
  predicate Opens(cfg: Config, s: Server, r: Received) { Flag(r.flags, 2) && ClosedNow(cfg, s) }

  /** The counter after a segment that does nothing else: closed it stays at zero, at the limit it starts
      again, else it counts. */
  function Counted(cfg: Config, s: Server): nat
  {
    if s.state.Closed? || s.timeout + 1 == cfg.timeout then 0 else s.timeout + 1
  }

  /** Only the counter moves, and at the limit the connection closes. */
  predicate OnlyCounts(cfg: Config, s: Server, t: Server)
  {
    t == s.(timeout := Counted(cfg, s), state := if ClosedNow(cfg, s) then Closed else s.state)
  }

  /** An opening segment: the answer has SYN and ACK, number 1001, and acknowledges the number received
      plus one; the peer is remembered whatever the connection was before. */
  lemma OpeningLaw(cfg: Config, file: Memory, s: Server, r: Received)
    requires ValidConfig(cfg) && Opens(cfg, s, r)
    ensures Handle(cfg, file, s, r)
            == (Server(SyncReceived, 1001, ToInt32(r.seqNo + 1), 0, r.peer),
                Some(Segment(1001, ToInt32(r.seqNo + 1), 18, [])))
  {
    hide ToInt32;
  }

  /** A segment of another port or address that does not open a connection: nothing is sent and only the
      counter moves. */
  lemma StrangerLaw(cfg: Config, file: Memory, s: Server, r: Received)
    requires ValidConfig(cfg) && !Opens(cfg, s, r) && r.peer != s.peer
    ensures var (t, g) := Handle(cfg, file, s, r);
            g == None && OnlyCounts(cfg, s, t)
  {
  }

  /** A reset by the peer closes the connection in every state, without an answer. */
  lemma ResetLaw(cfg: Config, file: Memory, s: Server, r: Received)
    requires ValidConfig(cfg) && !Opens(cfg, s, r) && r.peer == s.peer && Flag(r.flags, 4)
    ensures var (t, g) := Handle(cfg, file, s, r);
            g == None && t == s.(state := Closed, timeout := Counted(cfg, s))
  {
  }

  /** After it the next opening segment, of whatever peer, starts afresh. */
  lemma ResetThenOpens(cfg: Config, file: Memory, s: Server, r: Received, syn: Received)
    requires ValidConfig(cfg) && !Opens(cfg, s, r) && r.peer == s.peer && Flag(r.flags, 4) && Flag(syn.flags, 2)
    ensures Handle(cfg, file, Handle(cfg, file, s, r).0, syn)
            == (Server(SyncReceived, 1001, ToInt32(syn.seqNo + 1), 0, syn.peer),
                Some(Segment(1001, ToInt32(syn.seqNo + 1), 18, [])))
  {
    hide ToInt32, Handle;
    ResetLaw(cfg, file, s, r);
    OpeningLaw(cfg, file, Handle(cfg, file, s, r).0, syn);
  }

  /** A segment of the peer that neither opens nor resets. */
  predicate Ordinary(cfg: Config, s: Server, r: Received)
  {
    !Opens(cfg, s, r) && r.peer == s.peer && !Flag(r.flags, 4)
  }

  /** A closed connection ignores it. */
  lemma ClosedLaw(cfg: Config, file: Memory, s: Server, r: Received)
    requires ValidConfig(cfg) && Ordinary(cfg, s, r) && ClosedNow(cfg, s)
    ensures var (t, g) := Handle(cfg, file, s, r);
            g == None && OnlyCounts(cfg, s, t)
  {
  }

  /** The handshake: an acknowledgement establishes the connection and its numbers, silently; anything
      else only counts. */
  lemma HandshakeLaw(cfg: Config, file: Memory, s: Server, r: Received)
    requires ValidConfig(cfg) && Ordinary(cfg, s, r) && !ClosedNow(cfg, s) && s.state.SyncReceived?
    ensures var (t, g) := Handle(cfg, file, s, r);
            && g == None
            && t == if Flag(r.flags, 16) then Server(Established, r.ackNo, ToInt32(r.seqNo + 1), s.timeout + 1, s.peer)
                    else s.(timeout := s.timeout + 1)
  {
    hide ToInt32;
  }

  /** After the FIN every segment is answered by a reset that has the acknowledgement received as its
      number, and the connection closes. */
  lemma FinalLaw(cfg: Config, file: Memory, s: Server, r: Received)
    requires ValidConfig(cfg) && Ordinary(cfg, s, r) && !ClosedNow(cfg, s) && s.state.FinSent?
    ensures Handle(cfg, file, s, r)
            == (s.(seqNo := r.ackNo, state := Closed, timeout := s.timeout + 1),
                Some(Segment(r.ackNo, s.ackNo, 4, [])))
  {
  }

  /** An established connection: position zero of the file with an empty segment is the end of the
      handshake and gets no answer; the end of the file gets a FIN; every other position gets a chunk, the
      rest of the file from the last multiple of the chunk length on. What is sent acknowledges all octets
      received and is numbered by the acknowledgement received. */
  lemma EstablishedLaw(cfg: Config, file: Memory, s: Server, r: Received)
    requires ValidConfig(cfg) && Ordinary(cfg, s, r) && !ClosedNow(cfg, s) && s.state.Established?
    ensures var pos := ToInt32(r.ackNo - 1002);
            var ack := ToInt32(r.seqNo + (r.length - 20));
            var now := s.(seqNo := r.ackNo, ackNo := ack, timeout := s.timeout + 1);
            var rest := if pos == cfg.length - cfg.length % cfg.chunk then cfg.length - pos else cfg.chunk;
            Handle(cfg, file, s, r)
            == if pos == 0 && r.length == 20 then (now, None)
               else if pos == cfg.length then (now.(state := FinSent), Some(Segment(r.ackNo, ack, 17, [])))
               else (now, Some(Segment(r.ackNo, ack, if pos == 0 then 16 else 24, Slice(file, pos, rest))))
  {
    hide ToInt32, Slice;
    ShortChunk(cfg);
    assert cfg.length / cfg.chunk * cfg.chunk == cfg.length - cfg.length % cfg.chunk;
  }

  // ----- what is read from the octets of a frame

  function Number(b0: int, b1: int, b2: int, b3: int): int
  {
    b0 * 0x100_0000 + b1 * 0x1_0000 + b2 * 0x100 + b3
  }

  /** Ports, addresses, numbers and flags by their places in a frame: Ethernet header of 14 octets, IP
      header of 20. */
  lemma HearsByPlace(f: seq<int>, length: Int32)
    requires |f| == FRAME && AllOctets(f)
    ensures var r := Parsed(f, length);
            && r.peer.srcPort == f[34] * 0x100 + f[35] && r.peer.dstPort == f[36] * 0x100 + f[37]
            && r.peer.srcAddr == [f[26], f[27], f[28], f[29]] && r.peer.dstAddr == [f[30], f[31], f[32], f[33]]
            && (r.seqNo - Number(f[38], f[39], f[40], f[41])) % 0x1_0000_0000 == 0
            && (r.ackNo - Number(f[42], f[43], f[44], f[45])) % 0x1_0000_0000 == 0
            && r.flags == f[47] && r.length == length
  {
    hide ToInt32, Spelled;
    TwoByPlace(f, 34);
    TwoByPlace(f, 36);
    FourByPlace(f, 38);
    FourByPlace(f, 42);
  }

  lemma TwoByPlace(f: seq<int>, at: nat)
    requires at + 2 <= |f| && AllOctets(f)
    ensures ToInt32(Spelled(f[at..at + 2])) == f[at] * 0x100 + f[at + 1]
  {
    hide ToInt32, Spelled;
    assert f[at..at + 2] == [f[at], f[at + 1]];
    SpelledTwo(f[at], f[at + 1]);
    assert IsOctet(f[at]) && IsOctet(f[at + 1]);
    SmallNumber(f[at] * 0x100 + f[at + 1]);
  }

  lemma SmallNumber(x: int)
    requires 0 <= x < 0x1_0000
    ensures ToInt32(x) == x
  {
  }

  lemma FourByPlace(f: seq<int>, at: nat)
    requires at + 4 <= |f| && AllOctets(f)
    ensures (ToInt32(Spelled(f[at..at + 4])) - Number(f[at], f[at + 1], f[at + 2], f[at + 3])) % 0x1_0000_0000 == 0
  {
    hide ToInt32, Spelled;
    assert f[at..at + 4] == [f[at], f[at + 1], f[at + 2], f[at + 3]];
    SpelledFour(f[at], f[at + 1], f[at + 2], f[at + 3]);
    assert IsOctet(f[at]) && IsOctet(f[at + 1]) && IsOctet(f[at + 2]) && IsOctet(f[at + 3]);
    WrapsAround(Number(f[at], f[at + 1], f[at + 2], f[at + 3]));
  }

  lemma WrapsAround(x: int)
    ensures (ToInt32(x) - x) % 0x1_0000_0000 == 0
  {
    var q := (x + HALF) / FULL;
    assert ToInt32(x) == x - q * FULL;
    assert ToInt32(x) - x == -q * FULL;
  }

  /** The whole header of a segment sent, by place: the receiver's port first, header length 5 words,
      window 1000, no urgent data. */
  lemma SentByPlace(peer: Peer, g: Segment)
    requires ProperPeer(peer)
    ensures var e := Encode(peer, g);
            && |e| == 20 + |g.payload|
            && e[0] * 0x100 + e[1] == peer.dstPort && e[2] * 0x100 + e[3] == peer.srcPort
            && (Number(e[4], e[5], e[6], e[7]) - g.seqNo) % 0x1_0000_0000 == 0
            && (Number(e[8], e[9], e[10], e[11]) - g.ackNo) % 0x1_0000_0000 == 0
            && e[12] == 0x50 && e[13] == g.flags && e[14] * 0x100 + e[15] == 1000 && e[18] == 0 && e[19] == 0
            && e[20..] == g.payload
  {
    hide Spelled, ChecksumOctets, PseudoSum, WordSum, Msb, Lsb;
    var e := Encode(peer, g);
    SentReadsBack(peer, g);
    PortBytes(peer.dstPort);
    PortBytes(peer.srcPort);
    NumberBytes(g.seqNo);
    NumberBytes(g.ackNo);
    PortBytes(1000);
  }

  lemma PortBytes(v: int)
    requires 0 <= v < 0x1_0000
    ensures Msb(v) * 0x100 + Lsb(v) == v
  {
  }

  lemma NumberBytes(v: Int32)
    ensures (Number(Lsb(v / 0x100_0000), Lsb(v / 0x1_0000), Msb(v), Lsb(v)) - v) % 0x1_0000_0000 == 0
  {
    hide Lsb, Msb;
    HighDigit(v);
    LowDigits(v);
    var q := v / FULL;
    assert v == q * FULL + v % FULL;
    assert Number(Lsb(v / 0x100_0000), Lsb(v / 0x1_0000), Msb(v), Lsb(v)) - v == -q * FULL;
  }

  /** The stack reads from a reply's IP header the length that was written. */
  lemma LengthReadsBack(frame: seq<int>, rx: seq<int>, protocol: int, length: int)
    requires |frame| == FRAME && |rx| == FRAME && Replies(frame, rx, protocol, length)
    requires -20 <= length <= 0xFFFF - 20
    ensures Stack.ClaimedLength(frame) == length && frame[14] == 0x45 && frame[23] == protocol
  {
    hide Msb, Lsb, Lsbs;
    PortBytes(length + 20);
    assert frame[16..18] == [frame[16], frame[17]];
  }
}
