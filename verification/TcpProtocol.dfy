/** The server and one client on a network that loses, duplicates and reorders segments. */
module TcpProtocol {
  import opened Octets
  import opened Words
  import opened TcpServer

  predicate HasFin(flags: int) { flags % 2 == 1 }

  /** Sequence number of the file octet at position `k`. */
  function SeqAt(k: int): int { INIT_SEQ + 1 + k }

  /** The network keeps everything ever sent: a segment may be delivered any number of times, in any
      order, or never. The client keeps the octets it has received in order. */
  datatype System = System(server: Server, buffer: seq<int>, closed: bool,
                           toServer: set<Received>, toClient: set<Segment>)

  datatype Action =
    | ClientSends(sent: Received)
    | ServerReceives(received: Received)
    | ClientReceives(segment: Segment)

  /** The client acknowledges only what it has received in order; a segment without the ACK flag has
      an acknowledgement field of zero. Everything else in its segments is arbitrary. */
  predicate MaySend(buffer: seq<int>, r: Received)
  {
    r.ackNo == if HasAck(r.flags) then SeqAt(|buffer|) else 0
  }

  predicate Enabled(sys: System, a: Action)
  {
    match a
    case ClientSends(r) => MaySend(sys.buffer, r)
    case ServerReceives(r) => r in sys.toServer
    case ClientReceives(g) => g in sys.toClient
  }

  function Next(cfg: Config, file: Memory, sys: System, a: Action): System
    requires ValidConfig(cfg)
  {
    match a
    case ClientSends(r) => sys.(toServer := sys.toServer + {r})
    case ServerReceives(r) =>
      var (s, g) := Handle(cfg, file, sys.server, r);
      sys.(server := s, toClient := if g.Some? then sys.toClient + {g.value} else sys.toClient)
    case ClientReceives(g) =>
      // only the expected sequence number is accepted
      if g.seqNo != SeqAt(|sys.buffer|) then sys
      else sys.(buffer := sys.buffer + g.payload, closed := sys.closed || HasFin(g.flags))
  }

  function After(cfg: Config, file: Memory, sys: System, actions: seq<Action>): System
    requires ValidConfig(cfg)
  {
    if actions == [] then sys
    else Next(cfg, file, After(cfg, file, sys, actions[..|actions| - 1]), actions[|actions| - 1])
  }

  /** Every action was possible when it was taken. */
  predicate Possible(cfg: Config, file: Memory, sys: System, actions: seq<Action>)
    requires ValidConfig(cfg)
  {
    forall k | 0 <= k < |actions| :: Enabled(After(cfg, file, sys, actions[..k]), actions[k])
  }

  // ----- the invariant

  /** The start of chunk number `j`. */
  function ChunkStart(cfg: Config, j: nat): nat { j * cfg.chunk }

  /** A position between two chunks, or the end of the file. */
  predicate Boundary(cfg: Config, k: int)
    requires ValidConfig(cfg)
  {
    k == cfg.length || exists j: nat :: j <= cfg.length / cfg.chunk && k == ChunkStart(cfg, j)
  }

  /** An acknowledgement in the network covers a boundary the client has passed. */
  predicate Justified(cfg: Config, buffer: seq<int>, r: Received)
    requires ValidConfig(cfg)
  {
    r.ackNo == 0 || (exists k :: Boundary(cfg, k) && 0 <= k <= |buffer| && r.ackNo == SeqAt(k))
  }

  /** A segment in the network carries memory at the positions its sequence numbers name; one that
      the client may yet accept carries a whole chunk of the file; FIN means the client has it all. */
  predicate Honest(cfg: Config, file: Memory, buffer: seq<int>, g: Segment)
    requires ValidConfig(cfg)
  {
    var pos := g.seqNo - SeqAt(0);
    && g.payload == Slice(file, pos, |g.payload|)
    && (pos >= 0 && g.payload != [] ==> Boundary(cfg, pos) && pos < cfg.length && |g.payload| == ChunkAt(cfg, pos))
    && (HasFin(g.flags) ==> |buffer| == cfg.length)
  }

  predicate Inv(cfg: Config, file: Memory, sys: System)
    requires ValidConfig(cfg)
  {
    && |sys.buffer| <= cfg.length && Boundary(cfg, |sys.buffer|)
    && sys.buffer == Slice(file, 0, |sys.buffer|)
    && (sys.closed ==> |sys.buffer| == cfg.length)
    && (forall r | r in sys.toServer :: Justified(cfg, sys.buffer, r))
    && (forall g | g in sys.toClient :: Honest(cfg, file, sys.buffer, g))
  }

  predicate Initial(sys: System)
  {
    sys.buffer == [] && !sys.closed && sys.toServer == {} && sys.toClient == {}
  }

  lemma InitialInv(cfg: Config, file: Memory, sys: System)
    requires ValidConfig(cfg) && Initial(sys)
    ensures Inv(cfg, file, sys)
  {
    assert ChunkStart(cfg, 0) == 0;
  }

  /** From a boundary the next chunk ends at a boundary, within the file. */
  lemma NextBoundary(cfg: Config, k: int)
    requires ValidConfig(cfg) && Boundary(cfg, k) && k < cfg.length
    ensures 0 < ChunkAt(cfg, k) && k + ChunkAt(cfg, k) <= cfg.length && Boundary(cfg, k + ChunkAt(cfg, k))
  {
    var q := cfg.length / cfg.chunk;
    ShortChunk(cfg);
    var j: nat :| j <= q && k == ChunkStart(cfg, j);
    if j < q {
      assert ChunkStart(cfg, j + 1) == k + cfg.chunk;
      StartsGrow(cfg, j + 1, q);
      assert Boundary(cfg, k + cfg.chunk);
    }
  }

  lemma StartsGrow(cfg: Config, i: nat, j: nat)
    requires i <= j
    ensures ChunkStart(cfg, i) <= ChunkStart(cfg, j)
  {
  }

  /** What the server sends in answer to a justified acknowledgement is honest. */
  lemma AnswersHonestly(cfg: Config, file: Memory, buffer: seq<int>, s: Server, r: Received)
    requires ValidConfig(cfg) && Justified(cfg, buffer, r) && |buffer| <= cfg.length
    ensures var g := Handle(cfg, file, s, r).1;
            g.Some? ==> Honest(cfg, file, buffer, g.value)
  {
    hide Slice, Boundary, ChunkAt, Ticked, HasSyn, HasRst, HasAck, HasFin, Position, ToInt32;
    PositionOf(r.ackNo);
    NoOctets(file, INIT_SEQ - SeqAt(0));
    NoOctets(file, r.ackNo - SeqAt(0));
    FlagsWithoutFin();
  }

  lemma FlagsWithoutFin()
    ensures !HasFin(SYN + ACK) && !HasFin(RST) && !HasFin(ACK) && !HasFin(ACK + PSH)
  {
  }

  lemma PositionOf(ackNo: Int32)
    requires ackNo >= 0
    ensures Position(ackNo) == ackNo - SeqAt(0)
  {
  }

  /** Accepting a segment keeps the buffer a prefix of the file that ends at a boundary. */
  lemma AcceptExtends(cfg: Config, file: Memory, buffer: seq<int>, g: Segment)
    requires ValidConfig(cfg) && |buffer| <= cfg.length && Boundary(cfg, |buffer|)
    requires buffer == Slice(file, 0, |buffer|) && Honest(cfg, file, buffer, g)
    requires g.seqNo == SeqAt(|buffer|)
    ensures var after := buffer + g.payload;
            |after| <= cfg.length && Boundary(cfg, |after|) && after == Slice(file, 0, |after|)
  {
    hide Boundary, ChunkAt;
    if g.payload != [] {
      NextBoundary(cfg, |buffer|);
    }
    SliceJoins(file, 0, |buffer|, |g.payload|);
  }

  lemma SliceJoins(file: Memory, pos: int, m: nat, n: nat)
    ensures Slice(file, pos, m) + Slice(file, pos + m, n) == Slice(file, pos, m + n)
  {
    var s := Slice(file, pos, m) + Slice(file, pos + m, n);
    forall k | 0 <= k < m + n
      ensures s[k] == Slice(file, pos, m + n)[k]
    {
    }
  }

  /** Every action keeps the invariant. */
  lemma NextInv(cfg: Config, file: Memory, sys: System, a: Action)
    requires ValidConfig(cfg) && Inv(cfg, file, sys) && Enabled(sys, a)
    ensures Inv(cfg, file, Next(cfg, file, sys, a))
  {
    hide Slice, Boundary, Handle, HasAck, HasFin;
    match a {
      case ClientSends(r) =>
        assert Justified(cfg, sys.buffer, r);
      case ServerReceives(r) =>
        AnswersHonestly(cfg, file, sys.buffer, sys.server, r);
      case ClientReceives(g) =>
        if g.seqNo == SeqAt(|sys.buffer|) {
          AcceptExtends(cfg, file, sys.buffer, g);
          StillHonest(cfg, file, sys, g.payload);
        }
    }
  }

  /** A longer buffer, once complete, stays complete. */
  lemma StillHonest(cfg: Config, file: Memory, sys: System, more: seq<int>)
    requires ValidConfig(cfg) && Inv(cfg, file, sys) && |sys.buffer + more| <= cfg.length
    ensures forall r | r in sys.toServer :: Justified(cfg, sys.buffer + more, r)
    ensures forall g | g in sys.toClient :: Honest(cfg, file, sys.buffer + more, g)
    ensures sys.closed ==> more == []
  {
    hide Slice, Boundary, HasFin;
  }

  lemma {:induction false} AfterInv(cfg: Config, file: Memory, sys: System, actions: seq<Action>)
    requires ValidConfig(cfg) && Inv(cfg, file, sys) && Possible(cfg, file, sys, actions)
    ensures Inv(cfg, file, After(cfg, file, sys, actions))
  {
    hide Inv, Next, Enabled;
    if actions != [] {
      var n := |actions| - 1;
      assert Possible(cfg, file, sys, actions[..n]) by {
        forall k | 0 <= k < n
          ensures Enabled(After(cfg, file, sys, actions[..n][..k]), actions[..n][k])
        {
          assert actions[..n][..k] == actions[..k];
        }
      }
      AfterInv(cfg, file, sys, actions[..n]);
      NextInv(cfg, file, After(cfg, file, sys, actions[..n]), actions[n]);
    }
  }

  /** Delivery safety: in every reachable state, whatever the network did, the client's buffer is a
      prefix of the file, every octet sent with sequence number `s` is the memory at position
      `s - (INIT_SEQ + 1)`, and a FIN is on its way, or the client has seen one, only if the client
      holds the whole file. */
  lemma DeliverySafety(cfg: Config, file: Memory, sys: System, actions: seq<Action>)
    requires ValidConfig(cfg) && Initial(sys) && Possible(cfg, file, sys, actions)
    ensures var now := After(cfg, file, sys, actions);
            && now.buffer <= Slice(file, 0, cfg.length)
            && (forall g, k | g in now.toClient && 0 <= k < |g.payload| ::
                  g.payload[k] == Lsb(file(g.seqNo + k - (INIT_SEQ + 1))))
            && ((exists g :: g in now.toClient && HasFin(g.flags)) || now.closed
                ==> now.buffer == Slice(file, 0, cfg.length))
  {
    hide After, Possible, Boundary, HasFin;
    InitialInv(cfg, file, sys);
    AfterInv(cfg, file, sys, actions);
    var now := After(cfg, file, sys, actions);
    SliceJoins(file, 0, |now.buffer|, cfg.length - |now.buffer|);
  }

  // ----- acknowledgements that are no boundary

  /** The exact condition for the server to stay inside the file when it sends data: the position
      acknowledged must be the start of the last chunk, or leave room for a full one. */
  lemma StaysInsideIff(cfg: Config, file: Memory, s: Server, r: Received)
    requires ValidConfig(cfg) && Serve(cfg, file, s, r).1.Some? && !HasFin(Serve(cfg, file, s, r).1.value.flags)
    ensures var pos := Position(r.ackNo);
            var g := Serve(cfg, file, s, r).1.value;
            && g.payload == Slice(file, pos, |g.payload|)
            && ((0 <= pos && pos + |g.payload| <= cfg.length)
                <==> (pos == LastChunk(cfg) || 0 <= pos <= cfg.length - cfg.chunk))
  {
    hide Slice, Position;
    ShortChunk(cfg);
  }

  /** A repeated opening segment, whose acknowledgement field is zero, makes the established server
      send a thousand octets from before the file. */
  lemma RepeatedSynLeavesFile(file: Memory, s: Server, r: Received)
    requires s.state.Established? && s.timeout == 1 && r.peer == s.peer && r.flags == SYN && r.ackNo == 0
    ensures ValidConfig(COMPILED)
    ensures Handle(COMPILED, file, s, r).1.Some?
    ensures Handle(COMPILED, file, s, r).1.value.payload == Slice(file, -1002, 1000)
  {
    hide Slice;
  }
}
