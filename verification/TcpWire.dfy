/** The same protocol with octets on the network: frames as the stack receives and sends them. */
module TcpWire {
  import opened Octets
  import opened Words
  import opened Ip
  import opened Checksum
  import opened TcpServer
  import opened TcpProtocol
  import Stack

  /** A frame the stack hands to the TCP server. */
  predicate IsTcp(f: seq<int>) { |f| == FRAME && f[14] == 0x45 && f[23] == 6 }

  /** What the server reads of it. */
  function Heard(f: seq<int>): Received
    requires IsTcp(f) && AllOctets(f)
  {
    Parsed(f, Stack.ClaimedLength(f))
  }

  /** What the client reads of an answer. */
  function Read(h: seq<int>): Segment
    requires |h| >= TCP + HEADER
  {
    Segment(ToInt32(Spelled(h[TCP + 4..TCP + 8])), ToInt32(Spelled(h[TCP + 8..TCP + 12])), h[TCP + 13],
            h[TCP + HEADER..])
  }

  /** Every frame ever sent may be delivered any number of times, in any order, or never. */
  datatype Wire = Wire(server: Server, buffer: seq<int>, closed: bool, toServer: set<seq<int>>, toClient: set<seq<int>>)

  datatype WireAction =
    | Send(frame: seq<int>)
      /** The server's buffer holds the frame; `answer` is what it emits. */
    | Deliver(frame: seq<int>, answer: Option<seq<int>>)
    | Accept(frame: seq<int>)

  /** The answers the stack may give: it fixes everything but the unwritten header fields. */
  predicate Answers(cfg: Config, file: Memory, s: Server, f: seq<int>, answer: Option<seq<int>>)
    requires ValidConfig(cfg) && |f| == FRAME && AllOctets(f)
  {
    if !IsTcp(f) then answer == None
    else
      var (after, g) := Handle(cfg, file, s, Heard(f));
      if g.None? then answer == None
      else answer.Some? && ProperPeer(after.peer) && Carries(answer.value, f, Encode(after.peer, g.value))
  }

  predicate WireEnabled(cfg: Config, file: Memory, w: Wire, a: WireAction)
    requires ValidConfig(cfg)
  {
    match a
    case Send(f) => |f| == FRAME && AllOctets(f) && (IsTcp(f) ==> MaySend(w.buffer, Heard(f)))
    case Deliver(f, answer) =>
      f in w.toServer && |f| == FRAME && AllOctets(f) && Answers(cfg, file, w.server, f, answer)
    case Accept(h) => h in w.toClient && |h| >= TCP + HEADER
  }

  function WireNext(cfg: Config, file: Memory, w: Wire, a: WireAction): Wire
    requires ValidConfig(cfg) && WireEnabled(cfg, file, w, a)
  {
    match a
    case Send(f) => w.(toServer := w.toServer + {f})
    case Deliver(f, answer) =>
      w.(server := if IsTcp(f) then Handle(cfg, file, w.server, Heard(f)).0 else w.server,
         toClient := if answer.Some? then w.toClient + {answer.value} else w.toClient)
    case Accept(h) =>
      var g := Read(h);
      if g.seqNo != SeqAt(|w.buffer|) then w
      else w.(buffer := w.buffer + g.payload, closed := w.closed || HasFin(g.flags))
  }

  /** A run of possible actions from `w` to `v`. */
  predicate Reaches(cfg: Config, file: Memory, w: Wire, actions: seq<WireAction>, v: Wire)
    requires ValidConfig(cfg)
    decreases |actions|
  {
    if actions == [] then v == w
    else WireEnabled(cfg, file, w, actions[0])
         && Reaches(cfg, file, WireNext(cfg, file, w, actions[0]), actions[1..], v)
  }

  /** The system of segments that a system of frames stands for. */
  function Segments(w: Wire): System
  {
    System(w.server, w.buffer, w.closed,
           set f | f in w.toServer && IsTcp(f) && AllOctets(f) :: Heard(f),
           set h | h in w.toClient && |h| >= TCP + HEADER :: Read(h))
  }

  /** Frames on the way to the client are octets and long enough for a header. */
  predicate WireInv(cfg: Config, file: Memory, w: Wire)
    requires ValidConfig(cfg)
  {
    Inv(cfg, file, Segments(w)) && forall h | h in w.toClient :: |h| >= TCP + HEADER && AllOctets(h)
  }

  /** The client reads from an answer the segment the server meant. */
  lemma ReadsMeant(peer: Peer, g: Segment, f: seq<int>, h: seq<int>)
    requires ProperPeer(peer) && |f| == FRAME && Carries(h, f, Encode(peer, g))
    ensures |h| >= TCP + HEADER && AllOctets(h) && Read(h) == g
  {
    hide Spelled, ToInt32, Replies, Encode, AllOctets;
    var e := Encode(peer, g);
    SentReadsBack(peer, g);
    assert h[TCP + 4..TCP + 8] == h[TCP..][4..8] && h[TCP + 8..TCP + 12] == h[TCP..][8..12];
    assert h[TCP + HEADER..] == h[TCP..][HEADER..] && h[TCP + 13] == h[TCP..][13];
  }

  lemma SentSegments(w: Wire, f: seq<int>)
    requires |f| == FRAME && AllOctets(f)
    ensures Segments(w.(toServer := w.toServer + {f}))
            == if IsTcp(f) then Segments(w).(toServer := Segments(w).toServer + {Heard(f)}) else Segments(w)
  {
    hide Heard, Read, AllOctets;
    var v := w.(toServer := w.toServer + {f});
    if IsTcp(f) {
      assert Segments(v).toServer == Segments(w).toServer + {Heard(f)};
    } else {
      assert Segments(v).toServer == Segments(w).toServer;
    }
  }

  lemma AnsweredSegments(w: Wire, h: seq<int>)
    requires |h| >= TCP + HEADER
    ensures Segments(w.(toClient := w.toClient + {h})) == Segments(w).(toClient := Segments(w).toClient + {Read(h)})
  {
    hide Heard, Read, AllOctets;
    var v := w.(toClient := w.toClient + {h});
    assert Segments(v).toClient == Segments(w).toClient + {Read(h)};
  }

  /** Every action on frames is one on segments, or none. */
  lemma WireStep(cfg: Config, file: Memory, w: Wire, a: WireAction)
    requires ValidConfig(cfg) && WireInv(cfg, file, w) && WireEnabled(cfg, file, w, a)
    ensures WireInv(cfg, file, WireNext(cfg, file, w, a))
  {
    hide Inv, Heard, Read, Handle, Next, Carries, AllOctets, ProperPeer, Encode;
    match a {
      case Send(f) => SendStep(cfg, file, w, f);
      case Deliver(f, answer) => DeliverStep(cfg, file, w, f, answer);
      case Accept(h) => AcceptStep(cfg, file, w, h);
    }
  }

  lemma SendStep(cfg: Config, file: Memory, w: Wire, f: seq<int>)
    requires ValidConfig(cfg) && WireInv(cfg, file, w) && WireEnabled(cfg, file, w, Send(f))
    ensures WireInv(cfg, file, WireNext(cfg, file, w, Send(f)))
  {
    hide Inv, Heard, Read, Handle, AllOctets, IsTcp;
    SentSegments(w, f);
    if IsTcp(f) {
      NextInv(cfg, file, Segments(w), ClientSends(Heard(f)));
    }
  }

  lemma DeliverStep(cfg: Config, file: Memory, w: Wire, f: seq<int>, answer: Option<seq<int>>)
    requires ValidConfig(cfg) && WireInv(cfg, file, w) && WireEnabled(cfg, file, w, Deliver(f, answer))
    ensures WireInv(cfg, file, WireNext(cfg, file, w, Deliver(f, answer)))
  {
    hide Inv, Heard, Read, Handle, AllOctets, Carries, ProperPeer, Encode;
    if IsTcp(f) {
      var sys, r := Segments(w), Heard(f);
      assert r in sys.toServer;
      NextInv(cfg, file, sys, ServerReceives(r));
      var (after, g) := Handle(cfg, file, w.server, r);
      var served := w.(server := after);
      assert Segments(served) == sys.(server := after);
      if g.Some? {
        ReadsMeant(after.peer, g.value, f, answer.value);
        AnsweredSegments(served, answer.value);
      }
    }
  }

  lemma AcceptStep(cfg: Config, file: Memory, w: Wire, h: seq<int>)
    requires ValidConfig(cfg) && WireInv(cfg, file, w) && WireEnabled(cfg, file, w, Accept(h))
    ensures WireInv(cfg, file, WireNext(cfg, file, w, Accept(h)))
  {
    hide Inv, Heard, Read, AllOctets, HasFin;
    var sys, g := Segments(w), Read(h);
    assert g in sys.toClient;
    NextInv(cfg, file, sys, ClientReceives(g));
    var v := WireNext(cfg, file, w, Accept(h));
    assert Segments(v) == Next(cfg, file, sys, ClientReceives(g));
  }

  lemma {:induction false} ReachedInv(cfg: Config, file: Memory, w: Wire, actions: seq<WireAction>, v: Wire)
    requires ValidConfig(cfg) && WireInv(cfg, file, w) && Reaches(cfg, file, w, actions, v)
    ensures WireInv(cfg, file, v)
    decreases |actions|
  {
    hide WireInv, WireEnabled, WireNext;
    if actions != [] {
      WireStep(cfg, file, w, actions[0]);
      ReachedInv(cfg, file, WireNext(cfg, file, w, actions[0]), actions[1..], v);
    }
  }

  /** Delivery safety on octets: in every state reached, whatever the network does with the frames, the
      client's buffer is a prefix of the file, every payload octet of every frame on its way is the
      file's octet at the number the frame gives it, and FIN is on its way only when all is received. */
  lemma WireSafety(cfg: Config, file: Memory, w: Wire, actions: seq<WireAction>, v: Wire)
    requires ValidConfig(cfg) && w.buffer == [] && !w.closed && w.toServer == {} && w.toClient == {}
    requires Reaches(cfg, file, w, actions, v)
    ensures v.buffer <= Slice(file, 0, cfg.length)
    ensures forall h | h in v.toClient ::
              && |h| >= TCP + HEADER && AllOctets(h)
              && h[TCP + HEADER..] == Slice(file, Read(h).seqNo - (INIT_SEQ + 1), |h| - (TCP + HEADER))
              && (HasFin(h[TCP + 13]) ==> v.buffer == Slice(file, 0, cfg.length))
    ensures v.closed ==> v.buffer == Slice(file, 0, cfg.length)
  {
    hide Reaches, Boundary, Slice, HasFin, AllOctets;
    assert Segments(w).toServer == {} && Segments(w).toClient == {};
    InitialInv(cfg, file, Segments(w));
    ReachedInv(cfg, file, w, actions, v);
    SliceJoins(file, 0, |v.buffer|, cfg.length - |v.buffer|);
    forall h | h in v.toClient
      ensures Honest(cfg, file, v.buffer, Read(h))
    {
      assert Read(h) in Segments(v).toClient;
    }
  }

  // ----- checksums on arrival

  /** The pseudo-header sum a receiver computes, from the addresses in the frame. */
  function SumOnArrival(h: seq<int>): int
    requires |h| >= TCP
  {
    Spelled(h[30..32]) + Spelled(h[32..34]) + (Spelled(h[26..28]) + Spelled(h[28..30])) + 6 + (|h| - TCP)
  }

  lemma HandledFits(cfg: Config, file: Memory, s: Server, r: Received)
    requires ValidConfig(cfg) && Handle(cfg, file, s, r).1.Some?
    ensures var (after, g) := Handle(cfg, file, s, r);
            && AllOctets(g.value.payload) && IsOctet(g.value.flags) && |g.value.payload| <= MAX_LENGTH - HEADER
            && after.peer == r.peer
  {
    hide Slice, Position, HasSyn, HasRst, HasAck, ToInt32;
    ShortChunk(cfg);
  }

  /** An answer to a frame addressed to the server carries a checksum that verifies with the addresses
      of the frame it arrives in. */
  lemma AnswerVerifies(cfg: Config, file: Memory, s: Server, f: seq<int>, answer: seq<int>)
    requires ValidConfig(cfg) && IsTcp(f) && AllOctets(f) && f[30..34] == IP_ADDR
    requires Answers(cfg, file, s, f, Some(answer))
    ensures |answer| >= TCP && Verifies(SumOnArrival(answer), answer[TCP..])
  {
    hide Handle, Spelled, ToInt32, Verifies, Encode;
    var (after, g) := Handle(cfg, file, s, Heard(f));
    HandledFits(cfg, file, s, Heard(f));
    SentVerifies(after.peer, g.value);
    LsbsOfOctets(f[26..30]);
    PeerAddresses(f);
    SamePseudoSum(after.peer, answer);
  }

  lemma PeerAddresses(f: seq<int>)
    requires IsTcp(f) && AllOctets(f)
    ensures Heard(f).peer.srcAddr == f[26..30] && Heard(f).peer.dstAddr == f[30..34]
  {
  }

  lemma SamePseudoSum(peer: Peer, h: seq<int>)
    requires ProperPeer(peer) && |h| >= TCP && h[30..34] == peer.srcAddr && h[26..30] == peer.dstAddr
    ensures SumOnArrival(h) == PseudoSum(peer, |h| - TCP)
  {
    hide Spelled, ProperPeer;
    assert |peer.srcAddr| == 4 && |peer.dstAddr| == 4;
    assert h[30..32] == h[30..34][0..2] && h[32..34] == h[30..34][2..4];
    assert h[26..28] == h[26..30][0..2] && h[28..30] == h[26..30][2..4];
  }

  // ----- the stack acts like this

  /** Handling a packet is a delivery, with the frame emitted as its answer. */
  method DeliverPacket(s: TcpServer) returns (ghost answer: Option<seq<int>>)
    requires s.Valid() && (Stack.AsksEcho(s.rx[..]) ==> Stack.ClaimedLength(s.rx[..]) <= FRAME - TCP)
    modifies s, s.tx, s.srcAddr, s.dstAddr
    ensures s.Valid() && Answers(s.cfg, s.file, old(s.View()), s.rx[..], answer)
    ensures s.View() == if IsTcp(s.rx[..]) then Handle(s.cfg, s.file, old(s.View()), Heard(s.rx[..])).0
                        else old(s.View())
    ensures s.frames == old(s.frames) + if answer.Some? then [answer.value] else []
  {
    hide Handle, Encode, Replies, ProperPeer, Parsed, Spelled, Carries;
    ghost var before, view := s.frames, s.View();
    var echo := Stack.HandlePacket(s);
    answer := if |s.frames| > |before| then Some(s.frames[|before|]) else None;
    assert s.View().peer == s.PeerView() && ProperPeer(s.PeerView());
    if IsTcp(s.rx[..]) {
      var (after, g) := Handle(s.cfg, s.file, view, Heard(s.rx[..]));
      assert g.Some? ==> answer.Some? && Carries(answer.value, s.rx[..], Encode(after.peer, g.value));
      assert g.None? ==> answer == None;
    }
  }
}
