/** The one-connection TCP server: it serves a fixed file in chunks, driven only by the
    acknowledgement numbers it receives. */
module TcpServer {
  import opened Octets
  import opened Checksum
  import opened Words
  import opened Frames
  import opened Ip

  const INIT_SEQ := 1001
  const WINDOW := 1000
  const PROTOCOL_TCP := 6
  const HEADER := 20
  /** Offsets in a frame: the IP addresses and the TCP segment. */
  const IP_SRC := 26
  const IP_DST := 30
  const TCP := 34
  const FRAME := 2048

  const FIN := 0x01
  const SYN := 0x02
  const RST := 0x04
  const PSH := 0x08
  const ACK := 0x10

  predicate HasSyn(flags: int) { (flags / 2) % 2 == 1 }
  predicate HasRst(flags: int) { (flags / 4) % 2 == 1 }
  predicate HasAck(flags: int) { (flags / 0x10) % 2 == 1 }

  /** File length, chunk length, and the number of segments a connection may take. */
  datatype Config = Config(length: nat, chunk: nat, timeout: nat)

  /** The values compiled into the server. */
  const COMPILED := Config(15654, 1000, 30)

  predicate ValidConfig(cfg: Config)
  {
    0 < cfg.length < HALF - INIT_SEQ - 1 && 0 < cfg.chunk <= FRAME - TCP - HEADER && cfg.timeout > 0
  }

  /** The position of the last, shorter chunk; the file length when there is none. */
  function LastChunk(cfg: Config): nat
    requires cfg.chunk > 0
  {
    cfg.length / cfg.chunk * cfg.chunk
  }

  /** Memory as the server sees it from the start of the file on, in both directions. */
  type Memory = int -> int

  /** `len` octets of memory from position `pos`. */
  function Slice(file: Memory, pos: int, len: nat): (s: seq<int>)
    ensures |s| == len && AllOctets(s)
  {
    var s := seq(len, i => Lsb(file(pos + i)));
    assert forall k | 0 <= k < len :: s[k] == Lsb(file(pos + k));
    s
  }

  // ----- the protocol as a transition function

  datatype TcpState = Closed | SyncReceived | Established | FinSent

  datatype Peer = Peer(srcPort: Int32, dstPort: Int32, srcAddr: seq<int>, dstAddr: seq<int>)

  datatype Server = Server(state: TcpState, seqNo: Int32, ackNo: Int32, timeout: nat, peer: Peer)

  /** What the server reads of a segment; `length` counts header and data. */
  datatype Received = Received(peer: Peer, seqNo: Int32, ackNo: Int32, flags: int, length: Int32)

  datatype Segment = Segment(seqNo: Int32, ackNo: Int32, flags: int, payload: seq<int>)

  /** Counting a segment, and giving up on a connection that has taken too many. */
  function Ticked(cfg: Config, s: Server): Server
  {
    var t := if s.state.Closed? then 0 else s.timeout + 1;
    if t == cfg.timeout then s.(timeout := 0, state := Closed) else s.(timeout := t)
  }

  /** The position in the file that an acknowledgement number stands for. */
  function Position(ackNo: Int32): Int32 { ToInt32(ackNo - (INIT_SEQ + 1)) }

  function ChunkAt(cfg: Config, pos: int): int
    requires cfg.chunk > 0
  {
    if pos == LastChunk(cfg) then cfg.length - pos else cfg.chunk
  }

  /** A segment for an established connection. */
  function Serve(cfg: Config, file: Memory, s: Server, r: Received): (Server, Option<Segment>)
    requires ValidConfig(cfg)
  {
    var s' := s.(ackNo := ToInt32(r.seqNo + (r.length - HEADER)), seqNo := r.ackNo);
    var pos := Position(r.ackNo);
    if pos == 0 && r.length == HEADER then (s', None)
    else if pos == cfg.length then
      (s'.(state := FinSent), Some(Segment(s'.seqNo, s'.ackNo, FIN + ACK, [])))
    else
      (s', Some(Segment(s'.seqNo, s'.ackNo, if pos != 0 then ACK + PSH else ACK, Slice(file, pos, ChunkAt(cfg, pos)))))
  }

  function Handle(cfg: Config, file: Memory, old': Server, r: Received): (Server, Option<Segment>)
    requires ValidConfig(cfg)
  {
    var s := Ticked(cfg, old');
    if HasSyn(r.flags) && s.state.Closed? then
      var s' := Server(SyncReceived, INIT_SEQ, ToInt32(r.seqNo + 1), s.timeout, r.peer);
      (s', Some(Segment(s'.seqNo, s'.ackNo, SYN + ACK, [])))
    else if r.peer != s.peer then (s, None)
    else Answer(cfg, file, s, r)
  }

  /** A segment of the peer the server is connected to. */
  function Answer(cfg: Config, file: Memory, s: Server, r: Received): (Server, Option<Segment>)
    requires ValidConfig(cfg)
  {
    if HasRst(r.flags) then (s.(state := Closed), None)
    else match s.state
      case FinSent => (s.(seqNo := r.ackNo, state := Closed), Some(Segment(r.ackNo, s.ackNo, RST, [])))
      case SyncReceived =>
        if HasAck(r.flags) then (s.(seqNo := r.ackNo, ackNo := ToInt32(r.seqNo + 1), state := Established), None)
        else (s, None)
      case Established => Serve(cfg, file, s, r)
      case Closed => (s, None)
  }

  // ----- segments as octets

  /** The first twenty octets of a segment, with a zero checksum. */
  function HeaderOctets(peer: Peer, seqNo: Int32, ackNo: Int32, flags: int): seq<int>
  {
    [Msb(peer.dstPort), Lsb(peer.dstPort), Msb(peer.srcPort), Lsb(peer.srcPort),
     Lsb(seqNo / 0x100_0000), Lsb(seqNo / 0x1_0000), Msb(seqNo), Lsb(seqNo),
     Lsb(ackNo / 0x100_0000), Lsb(ackNo / 0x1_0000), Msb(ackNo), Lsb(ackNo),
     0x50, flags, Msb(WINDOW), Lsb(WINDOW), 0, 0, 0, 0]
  }

  predicate ProperPeer(peer: Peer)
  {
    && |peer.srcAddr| == 4 && |peer.dstAddr| == 4 && AllOctets(peer.srcAddr) && AllOctets(peer.dstAddr)
    && 0 <= peer.srcPort < 0x1_0000 && 0 <= peer.dstPort < 0x1_0000
  }

  /** The sum of the pseudo-header of section 3.1 of RFC 793. */
  function PseudoSum(peer: Peer, length: nat): int
    requires ProperPeer(peer)
  {
    Spelled(peer.srcAddr[0..2]) + Spelled(peer.srcAddr[2..4])
    + (Spelled(peer.dstAddr[0..2]) + Spelled(peer.dstAddr[2..4])) + PROTOCOL_TCP + length
  }

  function Unsummed(peer: Peer, g: Segment): seq<int>
  {
    HeaderOctets(peer, g.seqNo, g.ackNo, g.flags) + g.payload
  }

  /** The segment as it goes out. */
  function Encode(peer: Peer, g: Segment): seq<int>
    requires ProperPeer(peer)
  {
    var raw := Unsummed(peer, g);
    var c := ChecksumOctets(PseudoSum(peer, |raw|) + WordSum(raw));
    raw[16 := c[0]][17 := c[1]]
  }

  lemma PseudoSumBound(peer: Peer, length: nat)
    requires ProperPeer(peer) && length <= MAX_LENGTH
    ensures 0 <= PseudoSum(peer, length) <= 0x4_FFFF
  {
    AddressSum(peer.srcAddr);
    AddressSum(peer.dstAddr);
  }

  lemma AddressSum(a: seq<int>)
    requires |a| == 4 && AllOctets(a)
    ensures 0 <= Spelled(a[0..2]) <= 0xFFFF && 0 <= Spelled(a[2..4]) <= 0xFFFF
  {
    assert a[0..2] == [a[0], a[1]] && a[2..4] == [a[2], a[3]];
    SpelledTwo(a[0], a[1]);
    SpelledTwo(a[2], a[3]);
  }

  /** Every segment sent carries a checksum its receiver accepts. */
  lemma SentVerifies(peer: Peer, g: Segment)
    requires ProperPeer(peer) && AllOctets(g.payload) && IsOctet(g.flags) && |g.payload| <= MAX_LENGTH - HEADER
    ensures AllOctets(Encode(peer, g))
    ensures Verifies(PseudoSum(peer, |Encode(peer, g)|), Encode(peer, g))
  {
    var raw := Unsummed(peer, g);
    HeaderProper(peer, g);
    PseudoSumBound(peer, |raw|);
    StoredChecksumVerifies(PseudoSum(peer, |raw|), raw, 16);
  }

  lemma HeaderProper(peer: Peer, g: Segment)
    requires ProperPeer(peer) && AllOctets(g.payload) && IsOctet(g.flags)
    ensures AllOctets(Unsummed(peer, g)) && Unsummed(peer, g)[16] == Unsummed(peer, g)[17] == 0
  {
    assert AllOctets(HeaderOctets(peer, g.seqNo, g.ackNo, g.flags));
  }

  /** What a receiver reads from the octets of a segment is what was meant. */
  lemma SentReadsBack(peer: Peer, g: Segment)
    requires ProperPeer(peer)
    ensures var e := Encode(peer, g);
            && |e| == HEADER + |g.payload|
            && Spelled(e[0..2]) == peer.dstPort && Spelled(e[2..4]) == peer.srcPort
            && ToInt32(Spelled(e[4..8])) == g.seqNo && ToInt32(Spelled(e[8..12])) == g.ackNo
            && e[13] == g.flags && e[20..] == g.payload
  {
    hide Spelled, OctetsOf, ChecksumOctets, PseudoSum, WordSum, Msb, Lsb;
    var e := Encode(peer, g);
    TwoDigits(peer.dstPort);
    TwoOctets(peer.dstPort);
    TwoDigits(peer.srcPort);
    TwoOctets(peer.srcPort);
    FourDigits(g.seqNo);
    FourOctets(g.seqNo);
    FourDigits(g.ackNo);
    FourOctets(g.ackNo);
    assert e[0..2] == OctetsOf(peer.dstPort, 2);
    assert e[2..4] == OctetsOf(peer.srcPort, 2);
    assert e[4..8] == OctetsOf(g.seqNo, 4);
    assert e[8..12] == OctetsOf(g.ackNo, 4);
    assert e[20..] == g.payload;
  }

  // ----- the server's variables

  function Parsed(rx: seq<int>, length: Int32): Received
    requires |rx| == FRAME
  {
    Received(Peer(ToInt32(Spelled(rx[TCP..TCP + 2])), ToInt32(Spelled(rx[TCP + 2..TCP + 4])),
                  rx[IP_SRC..IP_SRC + 4], rx[IP_DST..IP_DST + 4]),
             ToInt32(Spelled(rx[TCP + 4..TCP + 8])), ToInt32(Spelled(rx[TCP + 8..TCP + 12])), rx[TCP + 13], length)
  }

  /** A frame that carries the segment back to the sender of the received frame. */
  predicate Carries(frame: seq<int>, rx: seq<int>, segment: seq<int>)
    requires |rx| == FRAME
  {
    && |frame| == TCP + |segment| && AllOctets(frame) && frame[TCP..] == segment
    && Replies(frame, rx, PROTOCOL_TCP, |segment|)
  }

  /** One more frame has been sent, and its words handed to the network chip. */
  predicate Emitted(before: seq<seq<int>>, after: seq<seq<int>>, port: seq<int>, rx: seq<int>, segment: seq<int>)
    requires |rx| == FRAME
  {
    && |after| == |before| + 1 && after[..|before|] == before
    && Carries(after[|before|], rx, segment) && port == Packed(after[|before|])
  }

  class TcpServer {
    const cfg: Config
    const file: Memory
    const rx: array<int>
    const tx: array<int>
    const srcAddr: array<int>
    const dstAddr: array<int>
    var srcPort: Int32
    var dstPort: Int32
    var seqNo: Int32
    var ackNo: Int32
    var timeout: nat
    var state: TcpState
    /** The segments handed to the network so far. */
    ghost var sent: seq<seq<int>>
    /** The frames they travelled in, and the words last handed to the network chip. */
    ghost var frames: seq<seq<int>>
    var port: seq<int>

    ghost predicate Valid()
      reads this, rx, tx, srcAddr, dstAddr
    {
      && ValidConfig(cfg)
      && rx.Length == tx.Length == FRAME && srcAddr.Length == dstAddr.Length == 4
      && rx != tx && rx != srcAddr && rx != dstAddr && tx != srcAddr && tx != dstAddr && srcAddr != dstAddr
      && AllOctets(rx[..]) && AllOctets(tx[..]) && ProperPeer(PeerView())
    }

    ghost function PeerView(): Peer
      reads this, srcAddr, dstAddr
    {
      Peer(srcPort, dstPort, srcAddr[..], dstAddr[..])
    }

    ghost function View(): Server
      reads this, srcAddr, dstAddr
    {
      Server(state, seqNo, ackNo, timeout, PeerView())
    }

    constructor (cfg: Config, file: Memory)
      requires ValidConfig(cfg)
      ensures Valid() && this.cfg == cfg && this.file == file && sent == [] && frames == [] && port == []
      ensures fresh(rx) && fresh(tx) && fresh(srcAddr) && fresh(dstAddr)
      ensures View() == Server(Closed, INIT_SEQ, 0, 0, Peer(0, 0, [0, 0, 0, 0], [0, 0, 0, 0]))
    {
      this.cfg, this.file := cfg, file;
      rx := new int[FRAME](_ => 0);
      tx := new int[FRAME](_ => 0);
      srcAddr := new int[4](_ => 0);
      dstAddr := new int[4](_ => 0);
      srcPort, dstPort, seqNo, ackNo, timeout, state, sent := 0, 0, INIT_SEQ, 0, 0, Closed, [];
      frames, port := [], [];
      new;
      assert srcAddr[..] == [0, 0, 0, 0] && dstAddr[..] == [0, 0, 0, 0];
    }

    /** `tcp_handle`: the connection state afterwards and the segment sent, if any, are those of the
        transition function on the segment in the receive buffer. */
    method HandleSegment(length: Int32)
      requires Valid()
      modifies this, tx, srcAddr, dstAddr
      ensures Valid()
      ensures var (s, g) := Handle(cfg, file, old(View()), Parsed(rx[..], length));
              && View() == s && sent == old(sent) + (if g.Some? then [Encode(s.peer, g.value)] else [])
              && if g.Some? then Emitted(old(frames), frames, port, rx[..], Encode(s.peer, g.value))
                 else frames == old(frames) && port == old(port) && tx[..] == old(tx[..])
    {
      hide Encode, ToInt32, Position, Slice, AllOctets, LastChunk, Spelled, Answer, Parsed, HasSyn, Emitted;
      ghost var was, r := View(), Parsed(rx[..], length);
      NoOctets(file, 0);
      ReadsFlags(rx[..], length);
      if state != Closed {
        timeout := timeout + 1;
      } else {
        timeout := 0;
      }
      if timeout == cfg.timeout {
        timeout := 0;
        state := Closed;
      }
      assert View() == Ticked(cfg, was);
      if HasSyn(rx[TCP + 13]) && state == Closed {
        OpenConnection(length);
        SendPacket(SYN + ACK, 0, 0);
        return;
      }
      var same := SamePeer(length);
      if !same {
        return;
      }
      AnswerPeer(r, length);
    }

    /** A segment of the peer: closing, acknowledging, or asking for the file. */
    method AnswerPeer(ghost r: Received, length: Int32)
      requires Valid() && r == Parsed(rx[..], length)
      modifies tx, `ackNo, `seqNo, `state, `sent, `frames, `port
      ensures Valid()
      ensures var (s, g) := Answer(cfg, file, old(View()), r);
              && View() == s && sent == old(sent) + (if g.Some? then [Encode(s.peer, g.value)] else [])
              && if g.Some? then Emitted(old(frames), frames, port, rx[..], Encode(s.peer, g.value))
                 else frames == old(frames) && port == old(port) && tx[..] == old(tx[..])
    {
      hide Encode, ToInt32, Position, Slice, AllOctets, LastChunk, Spelled, Serve, Parsed, HasRst, HasAck, Emitted;
      NoOctets(file, 0);
      ReadsFlags(rx[..], length);
      if HasRst(rx[TCP + 13]) {
        state := Closed;
        return;
      }
      var ackField, seqField := ReadNumbers(length);
      if state == FinSent {
        seqNo := ackField;
        SendPacket(RST, 0, 0);
        state := Closed;
        return;
      }
      if state == SyncReceived && HasAck(rx[TCP + 13]) {
        seqNo := ackField;
        ackNo := ToInt32(seqField as int + 1);
        state := Established;
        return;
      }
      if state == Established {
        ServeSegment(r, ackField, seqField, length);
      }
    }

    /** The established connection: the acknowledgement number says what to send next. */
    method ServeSegment(ghost r: Received, ackField: Int32, seqField: Int32, length: Int32)
      requires Valid() && state == Established
      requires r.ackNo == ackField && r.seqNo == seqField && r.length == length
      modifies tx, `ackNo, `seqNo, `state, `sent, `frames, `port
      ensures Valid()
      ensures var (s, g) := Serve(cfg, file, old(View()), r);
              && View() == s && sent == old(sent) + (if g.Some? then [Encode(s.peer, g.value)] else [])
              && if g.Some? then Emitted(old(frames), frames, port, rx[..], Encode(s.peer, g.value))
                 else frames == old(frames) && port == old(port) && tx[..] == old(tx[..])
    {
      hide Encode, ToInt32, Position, Slice, AllOctets, LastChunk, Emitted;
      ackNo := ToInt32(seqField + (length - HEADER));
      seqNo := ackField;
      var pos := Position(seqNo);
      if pos == 0 && length == HEADER {
        return;
      }
      if pos == cfg.length {
        SendPacket(FIN + ACK, 0, 0);
        NoOctets(file, 0);
        state := FinSent;
        return;
      }
      var len := cfg.chunk;
      if pos == LastChunk(cfg) {
        ShortChunk(cfg);
        len := cfg.length - pos;
      }
      var flag := ACK;
      if pos != 0 {
        flag := flag + PSH;
      }
      SendPacket(flag, pos, len);
    }

    /** A first segment: remember the peer and start from the initial sequence number. */
    method OpenConnection(length: Int32)
      requires Valid()
      modifies this, srcAddr, dstAddr
      ensures Valid() && sent == old(sent) && frames == old(frames) && port == old(port)
      ensures var r := Parsed(rx[..], length);
              View() == Server(SyncReceived, INIT_SEQ, ToInt32(r.seqNo + 1), old(timeout), r.peer)
    {
      hide Spelled, ToInt32, ProperPeer, AllOctets;
      RememberPeer(length);
      assert rx[..][TCP + 4..TCP + 8] == rx[TCP + 4..TCP + 8];
      var number := Mem2Int(rx, TCP + 4, 4);
      ackNo := ToInt32(number as int + 1);
      seqNo := INIT_SEQ;
      state := SyncReceived;
    }

    method RememberPeer(ghost length: Int32)
      requires Valid()
      modifies `srcPort, `dstPort, srcAddr, dstAddr
      ensures Valid() && PeerView() == Parsed(rx[..], length).peer
    {
      hide Spelled, ToInt32;
      SmallPorts(rx[..]);
      assert rx[..][TCP..TCP + 2] == rx[TCP..TCP + 2] && rx[..][TCP + 2..TCP + 4] == rx[TCP + 2..TCP + 4];
      srcPort := Mem2Int(rx, TCP, 2);
      dstPort := Mem2Int(rx, TCP + 2, 2);
      LsbsOfOctets(rx[..][IP_SRC..IP_SRC + 4]);
      LsbsOfOctets(rx[..][IP_DST..IP_DST + 4]);
      assert rx[IP_SRC..IP_SRC + 4] == rx[..][IP_SRC..IP_SRC + 4];
      assert rx[IP_DST..IP_DST + 4] == rx[..][IP_DST..IP_DST + 4];
      MemCpy(srcAddr, 0, rx, IP_SRC, 4);
      assert srcAddr[..] == srcAddr[0..4];
      MemCpy(dstAddr, 0, rx, IP_DST, 4);
      assert dstAddr[..] == dstAddr[0..4];
    }

    /** Ports and addresses of the received segment against those of the connection. */
    method SamePeer(length: Int32) returns (same: bool)
      requires Valid()
      ensures same == (Parsed(rx[..], length).peer == PeerView())
    {
      assert rx[..][TCP..TCP + 2] == rx[TCP..TCP + 2] && rx[..][TCP + 2..TCP + 4] == rx[TCP + 2..TCP + 4];
      assert rx[..][IP_SRC..IP_SRC + 4] == rx[IP_SRC..IP_SRC + 4];
      assert rx[..][IP_DST..IP_DST + 4] == rx[IP_DST..IP_DST + 4];
      assert dstAddr[0..4] == dstAddr[..] && srcAddr[0..4] == srcAddr[..];
      var src := Mem2Int(rx, TCP, 2);
      var dst := Mem2Int(rx, TCP + 2, 2);
      var toUs := MemCmp(rx, IP_DST, dstAddr, 0, 4);
      var fromPeer := MemCmp(rx, IP_SRC, srcAddr, 0, 4);
      same := !(srcPort != src || dstPort != dst || toUs != 0 || fromPeer != 0);
    }

    method ReadNumbers(length: Int32) returns (ackField: Int32, seqField: Int32)
      requires Valid()
      ensures ackField == Parsed(rx[..], length).ackNo && seqField == Parsed(rx[..], length).seqNo
    {
      assert rx[..][TCP + 8..TCP + 12] == rx[TCP + 8..TCP + 12] && rx[..][TCP + 4..TCP + 8] == rx[TCP + 4..TCP + 8];
      ackField := Mem2Int(rx, TCP + 8, 4);
      seqField := Mem2Int(rx, TCP + 4, 4);
    }

    /** `tcp_send_packet`: `len` octets of memory from `pos` on go out in a well-formed segment. */
    method SendPacket(flags: int, pos: int, len: nat)
      requires Valid() && IsOctet(flags) && len <= FRAME - TCP - HEADER
      modifies tx, `sent, `frames, `port
      ensures Valid()
      ensures sent == old(sent) + [Encode(PeerView(), Segment(seqNo, ackNo, flags, Slice(file, pos, len)))]
      ensures Emitted(old(frames), frames, port, rx[..],
                      Encode(PeerView(), Segment(seqNo, ackNo, flags, Slice(file, pos, len))))
    {
      hide Encode, Slice, AllOctets, ProperPeer, Replies, Packed;
      BuildSegment(flags, pos, len);
      var length := HEADER + len;
      ghost var message := tx[TCP..];
      assert message[..length] == tx[TCP..TCP + length];
      MakeReply(tx, rx, PROTOCOL_TCP, length);
      assert tx[TCP..TCP + length] == tx[TCP..][..length] == message[..length];
      port := SendFrame(tx, TCP + length);
      sent := sent + [tx[TCP..TCP + length]];
      frames := frames + [tx[..TCP + length]];
      FrameCarries(tx[..], rx[..], length);
    }

    /** The segment in the transmit buffer, with its checksum. */
    method BuildSegment(flags: int, pos: int, len: nat)
      requires Valid() && IsOctet(flags) && len <= FRAME - TCP - HEADER
      modifies tx
      ensures Valid()
      ensures tx[TCP..TCP + HEADER + len]
              == Encode(PeerView(), Segment(seqNo, ackNo, flags, Slice(file, pos, len)))
    {
      hide Spelled, ToInt32, WordSum, Fold, Slice, HeaderOctets, PseudoSum, AllOctets, Msb, Lsb, ProperPeer;
      ghost var g := Segment(seqNo, ackNo, flags, Slice(file, pos, len));
      ghost var raw := Unsummed(PeerView(), g);
      WriteHeader(flags);
      CopyPayload(pos, len);
      var length := len + HEADER;
      assert tx[TCP..TCP + length] == Head(tx) + tx[TCP + HEADER..TCP + length];
      assert tx[TCP..TCP + length] == raw;
      HeaderProper(PeerView(), g);
      PseudoSumBound(PeerView(), length);
      var start := AddPseudoHeader(length);
      var sum := SumWords(tx, TCP, length, start);
      SumFits(raw);
      WordSumBound(raw);
      FoldOnce(sum);
      sum := Fold(sum);
      FoldOnce(sum);
      sum := Fold(sum);
      sum := -sum - 1;
      assert [Msb(sum), Lsb(sum)] == ChecksumOctets(PseudoSum(PeerView(), length) + WordSum(raw));
      OctetsOfNumbers(sum);
      StoreOctet(tx, 16, Msb(sum));
      StoreOctet(tx, 17, Lsb(sum));
      assert tx[TCP..TCP + length] == raw[16 := Msb(sum)][17 := Lsb(sum)];
    }

    method AddPseudoHeader(length: nat) returns (sum: Int32)
      requires Valid() && length <= MAX_LENGTH
      ensures sum == PseudoSum(PeerView(), length)
    {
      hide Spelled, ToInt32;
      PseudoSumBound(PeerView(), length);
      AddressSum(srcAddr[..]);
      AddressSum(dstAddr[..]);
      assert srcAddr[..][0..2] == srcAddr[0..2] && srcAddr[..][2..4] == srcAddr[2..4];
      assert dstAddr[..][0..2] == dstAddr[0..2] && dstAddr[..][2..4] == dstAddr[2..4];
      var a := Mem2Int(srcAddr, 0, 2);
      var b := Mem2Int(srcAddr, 2, 2);
      var c := Mem2Int(dstAddr, 0, 2);
      var d := Mem2Int(dstAddr, 2, 2);
      SmallStays(srcAddr[0..2]);
      SmallStays(srcAddr[2..4]);
      SmallStays(dstAddr[0..2]);
      SmallStays(dstAddr[2..4]);
      sum := a + b + (c + d) + PROTOCOL_TCP + length;
    }

    method WriteHeader(flags: int)
      requires Valid() && IsOctet(flags)
      modifies tx
      ensures Valid() && Head(tx) == HeaderOctets(PeerView(), seqNo, ackNo, flags)
    {
      hide Msb, Lsb, ProperPeer, AllOctets, OctetsOf;
      WritePorts();
      WriteNumbers();
      TwoDigits(dstPort);
      TwoDigits(srcPort);
      FourDigits(seqNo);
      FourDigits(ackNo);
      WriteRest(flags);
    }

    method WritePorts()
      requires Valid()
      modifies tx
      ensures Valid() && Head(tx)[..4] == OctetsOf(dstPort, 2) + OctetsOf(srcPort, 2)
    {
      hide OctetsOf, ProperPeer, AllOctets;
      PutNumber(tx, 0, 2, dstPort);
      PutNumber(tx, 2, 2, srcPort);
    }

    method WriteNumbers()
      requires Valid()
      modifies tx
      ensures Valid() && Head(tx)[..12] == old(Head(tx))[..4] + OctetsOf(seqNo, 4) + OctetsOf(ackNo, 4)
    {
      hide OctetsOf, ProperPeer, AllOctets;
      PutNumber(tx, 4, 4, seqNo);
      PutNumber(tx, 8, 4, ackNo);
    }

    method WriteRest(flags: int)
      requires Valid() && IsOctet(flags)
      modifies tx
      ensures Valid() && Head(tx) == old(Head(tx))[..12] + [0x50, flags, Msb(WINDOW), Lsb(WINDOW), 0, 0, 0, 0]
    {
      hide OctetsOf, Msb, Lsb, ProperPeer, AllOctets;
      PutOctet(tx, 12, 0x50);
      PutOctet(tx, 13, flags);
      PutOctet(tx, 18, 0);
      PutOctet(tx, 19, 0);
      PutOctet(tx, 16, 0);
      PutOctet(tx, 17, 0);
      PutNumber(tx, 14, 2, WINDOW);
      TwoDigits(WINDOW);
    }

    /** `memcpy` out of the memory that holds the file. */
    method CopyPayload(pos: int, len: nat)
      requires Valid() && len <= FRAME - TCP - HEADER
      modifies tx
      ensures tx[TCP + HEADER..TCP + HEADER + len] == Slice(file, pos, len)
      ensures Valid() && Head(tx) == old(Head(tx))
    {
      for i := 0 to len
        invariant tx[TCP + HEADER..TCP + HEADER + i] == Slice(file, pos, i)
        invariant Head(tx) == old(Head(tx)) && AllOctets(tx[..])
      {
        tx[TCP + HEADER + i] := Lsb(file(pos + i));
        assert tx[TCP + HEADER..TCP + HEADER + i + 1] == tx[TCP + HEADER..TCP + HEADER + i] + [Lsb(file(pos + i))];
      }
    }
  }

  lemma NoOctets(file: Memory, pos: int)
    ensures Slice(file, pos, 0) == []
  {
  }

  lemma ReadsFlags(rx: seq<int>, length: Int32)
    requires |rx| == FRAME
    ensures Parsed(rx, length).flags == rx[TCP + 13] && Parsed(rx, length).length == length
  {
  }

  lemma ShortChunk(cfg: Config)
    requires ValidConfig(cfg)
    ensures LastChunk(cfg) <= cfg.length < LastChunk(cfg) + cfg.chunk
  {
  }

  /** The twenty header octets of the outgoing segment. */
  ghost function Head(tx: array<int>): seq<int>
    requires tx.Length == FRAME
    reads tx
  {
    tx[TCP..TCP + HEADER]
  }

  method PutNumber(tx: array<int>, at: nat, n: nat, v: Int32)
    requires tx.Length == FRAME && at + n <= HEADER
    modifies tx
    ensures Head(tx) == old(Head(tx))[..at] + OctetsOf(v, n) + old(Head(tx))[at + n..]
    ensures old(AllOctets(tx[..])) ==> AllOctets(tx[..])
  {
    hide OctetsOf, AllOctets;
    ghost var before := tx[..];
    Int2Mem(tx, TCP + at, n, v);
    assert Head(tx) == tx[..][TCP..TCP + HEADER];
    assert before[TCP..TCP + HEADER][..at] == before[TCP..TCP + at];
    assert before[TCP..TCP + HEADER][at + n..] == before[TCP + at + n..TCP + HEADER];
    assert Replaced(before, TCP + at, OctetsOf(v, n))[TCP..TCP + HEADER]
        == before[TCP..TCP + at] + OctetsOf(v, n) + before[TCP + at + n..TCP + HEADER];
  }

  method PutOctet(tx: array<int>, at: nat, v: int)
    requires tx.Length == FRAME && at < HEADER && IsOctet(v)
    modifies tx
    ensures Head(tx) == old(Head(tx))[at := v]
    ensures old(AllOctets(tx[..])) ==> AllOctets(tx[..])
  {
    tx[TCP + at] := v;
  }

  method StoreOctet(tx: array<int>, at: nat, v: int)
    requires tx.Length == FRAME && at < HEADER && IsOctet(v)
    modifies tx
    ensures tx[..] == old(tx[..])[TCP + at := v]
    ensures old(AllOctets(tx[..])) ==> AllOctets(tx[..])
  {
    tx[TCP + at] := v;
  }

  lemma FrameCarries(tx: seq<int>, rx: seq<int>, length: nat)
    requires |tx| == |rx| == FRAME && AllOctets(tx) && TCP + length <= FRAME && Replies(tx, rx, PROTOCOL_TCP, length)
    ensures Carries(tx[..TCP + length], rx, tx[TCP..TCP + length])
  {
    hide Replies;
    assert tx[..TCP + length][TCP..] == tx[TCP..TCP + length];
    assert tx[..TCP + length][..TCP] == tx[..TCP];
    SameHeader(tx[..TCP + length], tx, rx, PROTOCOL_TCP, length);
  }

  lemma SmallStays(a: seq<int>)
    requires 0 <= Spelled(a) <= 0xFFFF
    ensures ToInt32(Spelled(a)) == Spelled(a)
  {
  }

  lemma SmallPorts(rx: seq<int>)
    requires |rx| == FRAME && AllOctets(rx)
    ensures 0 <= ToInt32(Spelled(rx[TCP..TCP + 2])) < 0x1_0000 && 0 <= ToInt32(Spelled(rx[TCP + 2..TCP + 4])) < 0x1_0000
  {
    assert rx[TCP..TCP + 2] == [rx[TCP], rx[TCP + 1]] && rx[TCP + 2..TCP + 4] == [rx[TCP + 2], rx[TCP + 3]];
    SpelledTwo(rx[TCP], rx[TCP + 1]);
    SpelledTwo(rx[TCP + 2], rx[TCP + 3]);
  }
}
