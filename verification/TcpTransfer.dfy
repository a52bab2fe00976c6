/** A whole transfer to a client that acknowledges each chunk as it arrives. */
module TcpTransfer {
  import opened Octets
  import opened Words
  import opened TcpServer
  import opened TcpProtocol

  /** The server fed a sequence of segments, and what it sends. */
  function Feed(cfg: Config, file: Memory, s: Server, rs: seq<Received>): (Server, seq<Segment>)
    requires ValidConfig(cfg)
  {
    if rs == [] then (s, [])
    else
      var (before, sent) := Feed(cfg, file, s, rs[..|rs| - 1]);
      var (after, g) := Handle(cfg, file, before, rs[|rs| - 1]);
      (after, if g.Some? then sent + [g.value] else sent)
  }

  /** The number of chunks. */
  function Chunks(cfg: Config): nat
    requires ValidConfig(cfg)
  {
    (cfg.length + cfg.chunk - 1) / cfg.chunk
  }

  /** The end of the first `i` chunks. */
  function Done(cfg: Config, i: nat): nat
    requires ValidConfig(cfg)
  {
    if ChunkStart(cfg, i) < cfg.length then ChunkStart(cfg, i) else cfg.length
  }

  /** The client's side of a transfer: opening segment, handshake, request, one acknowledgement for
      each chunk, and an answer to the FIN. Sequence numbers, lengths and other flags are arbitrary. */
  predicate Acknowledging(cfg: Config, rs: seq<Received>)
    requires ValidConfig(cfg)
  {
    && |rs| == Chunks(cfg) + 4
    && HasSyn(rs[0].flags)
    && (forall k | 0 < k < |rs| :: rs[k].peer == rs[0].peer && !HasRst(rs[k].flags) && !HasSyn(rs[k].flags))
    && HasAck(rs[1].flags) && rs[1].ackNo == SeqAt(0)
    && rs[2].length > HEADER
    && (forall i: nat | i <= Chunks(cfg) :: rs[2 + i].ackNo == SeqAt(Done(cfg, i)))
  }

  function Payloads(gs: seq<Segment>): seq<int>
  {
    if gs == [] then [] else Payloads(gs[..|gs| - 1]) + gs[|gs| - 1].payload
  }

  lemma ChunkArithmetic(cfg: Config, i: nat)
    requires ValidConfig(cfg)
    ensures Chunks(cfg) > 0
    ensures i < Chunks(cfg) <==> ChunkStart(cfg, i) < cfg.length
    ensures i < Chunks(cfg) ==> ChunkAt(cfg, Done(cfg, i)) == Done(cfg, i + 1) - Done(cfg, i)
    ensures Done(cfg, 0) == 0 && Done(cfg, Chunks(cfg)) == cfg.length
  {
    var c, n := cfg.chunk, Chunks(cfg);
    CeilBounds(cfg);
    if i < n {
      StartsGrow(cfg, i, n - 1);
    } else {
      StartsGrow(cfg, n, i);
    }
    ShortChunk(cfg);
    if i < n {
      NextStart(cfg, i);
      LastStart(cfg, i);
    }
  }

  lemma CeilBounds(cfg: Config)
    requires ValidConfig(cfg)
    ensures Chunks(cfg) > 0
    ensures ChunkStart(cfg, Chunks(cfg) - 1) < cfg.length <= ChunkStart(cfg, Chunks(cfg))
  {
    var c, n := cfg.chunk, Chunks(cfg);
    assert n * c <= cfg.length + c - 1 < n * c + c;
    assert (n - 1) * c == n * c - c;
  }

  lemma NextStart(cfg: Config, i: nat)
    ensures ChunkStart(cfg, i + 1) == ChunkStart(cfg, i) + cfg.chunk
  {
  }

  /** A chunk that starts inside the file is short exactly when it is the last one. */
  lemma LastStart(cfg: Config, i: nat)
    requires ValidConfig(cfg) && ChunkStart(cfg, i) < cfg.length
    ensures ChunkStart(cfg, i) == LastChunk(cfg) <==> cfg.length < ChunkStart(cfg, i + 1)
  {
    var q := cfg.length / cfg.chunk;
    assert LastChunk(cfg) == ChunkStart(cfg, q);
    ShortChunk(cfg);
    NextStart(cfg, i);
    NextStart(cfg, q);
    if i < q {
      StartsGrow(cfg, i + 1, q);
    } else if i > q {
      StartsGrow(cfg, q + 1, i);
    }
  }

  /** After the request and `i` chunks the connection stands ready for the next acknowledgement. */
  predicate Ready(cfg: Config, rs: seq<Received>, s: Server, i: nat)
    requires |rs| > 0
  {
    s.state.Established? && s.timeout == i + 1 && s.peer == rs[0].peer
  }

  /** Chunk `i` in answer to `r`: its octets, numbered from the chunk's place in the file, with neither
      SYN, FIN nor RST. */
  predicate IsChunk(cfg: Config, file: Memory, r: Received, g: Segment, i: nat)
    requires ValidConfig(cfg)
  {
    && Done(cfg, i) <= Done(cfg, i + 1)
    && g.payload == Slice(file, Done(cfg, i), Done(cfg, i + 1) - Done(cfg, i))
    && g.seqNo == SeqAt(Done(cfg, i)) && g.ackNo == ToInt32(r.seqNo + (r.length - HEADER))
    && g.flags == (if i == 0 then ACK else ACK + PSH)
    && !HasSyn(g.flags) && !HasFin(g.flags) && !HasRst(g.flags)
  }

  /** Segment `i + 1` sent is chunk `i`, in answer to received segment `i + 2`. */
  predicate ChunkSent(cfg: Config, file: Memory, rs: seq<Received>, sent: seq<Segment>, i: nat)
    requires ValidConfig(cfg)
  {
    i + 1 < |sent| && i + 2 < |rs| && IsChunk(cfg, file, rs[i + 2], sent[i + 1], i)
  }

  /** The first `n` chunks have been sent, after the answer to the opening segment. */
  predicate ChunksSent(cfg: Config, file: Memory, rs: seq<Received>, sent: seq<Segment>, n: nat)
    requires ValidConfig(cfg)
  {
    forall i: nat | i < n :: ChunkSent(cfg, file, rs, sent, i)
  }

  lemma Opening(cfg: Config, file: Memory, s0: Server, rs: seq<Received>)
    requires ValidConfig(cfg) && s0.state.Closed? && Acknowledging(cfg, rs) && cfg.timeout > 1
    ensures var (s, sent) := Feed(cfg, file, s0, rs[..2]);
            Ready(cfg, rs, s, 0) && |sent| == 1 && sent[0].flags == SYN + ACK && sent[0].payload == []
  {
    hide HasSyn, HasRst, HasAck, Chunks, Done;
    assert rs[..2][..1] == rs[..1] && rs[..1][..0] == [];
    assert Feed(cfg, file, s0, []) == (s0, []);
    assert Feed(cfg, file, s0, rs[..1]).0 == Handle(cfg, file, s0, rs[0]).0;
  }

  lemma OneChunk(cfg: Config, file: Memory, rs: seq<Received>, s: Server, i: nat)
    requires ValidConfig(cfg) && Acknowledging(cfg, rs) && i < Chunks(cfg) && i + 2 < cfg.timeout
    requires Ready(cfg, rs, s, i)
    ensures var (s', g) := Handle(cfg, file, s, rs[2 + i]);
            && Ready(cfg, rs, s', i + 1) && g.Some? && IsChunk(cfg, file, rs[2 + i], g.value, i)
  {
    ChunkFlags();
    hide HasSyn, HasRst, HasAck, HasFin, Slice, Chunks, ChunkAt, Position, ToInt32;
    ChunkArithmetic(cfg, i);
    DoneGrows(cfg, i);
    PositionOf(rs[2 + i].ackNo);
    if i > 0 {
      LaterStart(cfg, i);
    }
  }

  lemma ChunkFlags()
    ensures forall flags | flags in {ACK, ACK + PSH} :: !HasSyn(flags) && !HasFin(flags) && !HasRst(flags)
  {
  }

  lemma LaterStart(cfg: Config, i: nat)
    requires ValidConfig(cfg) && i > 0
    ensures Done(cfg, i) > 0
  {
    StartsGrow(cfg, 1, i);
    assert ChunkStart(cfg, 1) == cfg.chunk;
  }

  /** The payloads after `i` chunks are the first `i` chunks of the file. */
  lemma {:induction false} ChunkByChunk(cfg: Config, file: Memory, s0: Server, rs: seq<Received>, i: nat)
    requires ValidConfig(cfg) && s0.state.Closed? && Acknowledging(cfg, rs)
    requires i <= Chunks(cfg) && i + 1 < cfg.timeout
    ensures var (s, sent) := Feed(cfg, file, s0, rs[..2 + i]);
            && Ready(cfg, rs, s, i) && |sent| == i + 1 && ChunksSent(cfg, file, rs, sent, i)
            && sent[0].flags == SYN + ACK && Payloads(sent) == Slice(file, 0, Done(cfg, i))
  {
    hide Handle, Acknowledging, Slice, Chunks, Done, Ready, ChunksSent, IsChunk;
    RunLength(cfg, rs);
    if i == 0 {
      NoChunks(cfg, file, rs, Feed(cfg, file, s0, rs[..2]).1);
      Opening(cfg, file, s0, rs);
      ChunkArithmetic(cfg, 0);
      NoOctets(file, 0);
      var sent := Feed(cfg, file, s0, rs[..2]).1;
      assert sent[..0] == [] && Payloads([]) == [];
      assert Payloads(sent) == [] + sent[0].payload;
    } else {
      ChunkByChunk(cfg, file, s0, rs, i - 1);
      var (s, sent) := Feed(cfg, file, s0, rs[..1 + i]);
      OneChunk(cfg, file, rs, s, i - 1);
      OneMoreChunk(cfg, file, rs, sent, i - 1, Handle(cfg, file, s, rs[1 + i]).1.value);
      assert rs[..2 + i][..1 + i] == rs[..1 + i];
      var g := Handle(cfg, file, s, rs[1 + i]).1.value;
      assert (sent + [g])[..|sent|] == sent;
      DoneGrows(cfg, i - 1);
      SliceJoins(file, 0, Done(cfg, i - 1), Done(cfg, i) - Done(cfg, i - 1));
    }
  }

  lemma NoChunks(cfg: Config, file: Memory, rs: seq<Received>, sent: seq<Segment>)
    requires ValidConfig(cfg)
    ensures ChunksSent(cfg, file, rs, sent, 0)
  {
  }

  lemma OneMoreChunk(cfg: Config, file: Memory, rs: seq<Received>, sent: seq<Segment>, i: nat, g: Segment)
    requires ValidConfig(cfg) && |sent| == i + 1 && i + 2 < |rs|
    requires ChunksSent(cfg, file, rs, sent, i) && IsChunk(cfg, file, rs[2 + i], g, i)
    ensures ChunksSent(cfg, file, rs, sent + [g], i + 1)
    ensures g.payload == Slice(file, Done(cfg, i), Done(cfg, i + 1) - Done(cfg, i))
  {
    hide HasSyn, HasRst, HasFin, Slice, Done, ToInt32;
    forall k: nat | k < i + 1
      ensures ChunkSent(cfg, file, rs, sent + [g], k)
    {
      assert k < i ==> ChunkSent(cfg, file, rs, sent, k);
    }
  }

  lemma MoreSent(cfg: Config, file: Memory, rs: seq<Received>, sent: seq<Segment>, n: nat, more: seq<Segment>)
    requires ValidConfig(cfg) && ChunksSent(cfg, file, rs, sent, n)
    ensures ChunksSent(cfg, file, rs, sent + more, n)
  {
    hide IsChunk;
    forall i: nat | i < n
      ensures ChunkSent(cfg, file, rs, sent + more, i)
    {
      assert ChunkSent(cfg, file, rs, sent, i);
    }
  }

  lemma RunLength(cfg: Config, rs: seq<Received>)
    requires ValidConfig(cfg) && Acknowledging(cfg, rs)
    ensures |rs| == Chunks(cfg) + 4
  {
  }

  lemma DoneGrows(cfg: Config, i: nat)
    requires ValidConfig(cfg)
    ensures Done(cfg, i) <= Done(cfg, i + 1)
  {
    StartsGrow(cfg, i, i + 1);
  }

  /** The last two segments: FIN once everything is acknowledged, then RST. */
  lemma Closing(cfg: Config, file: Memory, rs: seq<Received>, s: Server)
    requires ValidConfig(cfg) && Acknowledging(cfg, rs) && Chunks(cfg) + 3 < cfg.timeout
    requires Ready(cfg, rs, s, Chunks(cfg))
    ensures var (s1, fin) := Handle(cfg, file, s, rs[2 + Chunks(cfg)]);
            var (s2, rst) := Handle(cfg, file, s1, rs[3 + Chunks(cfg)]);
            && s2.state.Closed? && fin.Some? && rst.Some?
            && fin.value.flags == FIN + ACK && rst.value.flags == RST
            && fin.value.payload == [] && rst.value.payload == [] && fin.value.seqNo == SeqAt(cfg.length)
  {
    hide HasSyn, HasRst, HasAck, Slice, Chunks, ChunkAt, Position, ToInt32, Done;
    ChunkArithmetic(cfg, 0);
    PositionOf(rs[2 + Chunks(cfg)].ackNo);
  }

  /** Whole transfer: with room for three segments more than there are chunks, the segments of an
      acknowledging client make the server send exactly one SYN, then every chunk in order, one FIN and
      one RST; the payloads together are the whole file and the connection ends closed. */
  lemma WholeTransfer(cfg: Config, file: Memory, s0: Server, rs: seq<Received>)
    requires ValidConfig(cfg) && s0.state.Closed? && Acknowledging(cfg, rs)
    requires Chunks(cfg) + 3 < cfg.timeout
    ensures var (s, sent) := Feed(cfg, file, s0, rs);
            var n := Chunks(cfg);
            && s.state.Closed? && |sent| == n + 3
            && sent[0].flags == SYN + ACK && sent[n + 1].flags == FIN + ACK && sent[n + 2].flags == RST
            && ChunksSent(cfg, file, rs, sent, n) && sent[n + 1].seqNo == SeqAt(cfg.length)
            && Payloads(sent) == Slice(file, 0, cfg.length)
  {
    hide Handle, Acknowledging, Slice, Chunks, Done, Ready, ChunksSent;
    var n := Chunks(cfg);
    RunLength(cfg, rs);
    ChunkArithmetic(cfg, 0);
    ChunkByChunk(cfg, file, s0, rs, n);
    var (s, sent) := Feed(cfg, file, s0, rs[..2 + n]);
    Closing(cfg, file, rs, s);
    assert rs[..3 + n][..2 + n] == rs[..2 + n] && rs[..|rs| - 1] == rs[..3 + n];
    var (s1, fin) := Handle(cfg, file, s, rs[2 + n]);
    var (s2, rst) := Handle(cfg, file, s1, rs[3 + n]);
    MoreSent(cfg, file, rs, sent, n, [fin.value]);
    MoreSent(cfg, file, rs, sent + [fin.value], n, [rst.value]);
    assert Feed(cfg, file, s0, rs[..3 + n]) == (s1, sent + [fin.value]);
    assert Feed(cfg, file, s0, rs) == (s2, sent + [fin.value] + [rst.value]);
    assert (sent + [fin.value])[..|sent|] == sent;
    assert (sent + [fin.value] + [rst.value])[..|sent| + 1] == sent + [fin.value];
    assert Payloads(sent + [fin.value]) == Payloads(sent) + [];
    assert Payloads(sent + [fin.value] + [rst.value]) == Payloads(sent + [fin.value]) + [];
  }

  // ----- connections that take too many segments

  /** A closed server stays closed and silent until the next opening segment. */
  lemma {:induction false} ClosedStaysSilent(cfg: Config, file: Memory, s0: Server, rs: seq<Received>, m: nat, k: nat)
    requires ValidConfig(cfg) && m <= k <= |rs| && m > 0
    requires forall j | m <= j < |rs| :: !HasSyn(rs[j].flags)
    requires Feed(cfg, file, s0, rs[..m]).0.state.Closed?
    ensures Feed(cfg, file, s0, rs[..k]).0.state.Closed?
    ensures Feed(cfg, file, s0, rs[..k]).1 == Feed(cfg, file, s0, rs[..m]).1
  {
    hide HasSyn, HasRst, HasAck;
    if k > m {
      ClosedStaysSilent(cfg, file, s0, rs, m, k - 1);
      assert rs[..k][..k - 1] == rs[..k - 1];
    }
  }

  /** The segment that brings the counter to the limit closes the connection without an answer. */
  lemma TimesOut(cfg: Config, file: Memory, s0: Server, rs: seq<Received>)
    requires ValidConfig(cfg) && s0.state.Closed? && Acknowledging(cfg, rs)
    requires Chunks(cfg) + 3 >= cfg.timeout
    ensures var (s, sent) := Feed(cfg, file, s0, rs[..cfg.timeout + 1]);
            s.state.Closed? && |sent| < Chunks(cfg) + 3
  {
    hide Acknowledging, Slice, Chunks, Done, Serve, HasRst, HasAck, HasSyn;
    RunLength(cfg, rs);
    NoSynLater(cfg, rs);
    var t := cfg.timeout;
    assert rs[..t + 1][..t] == rs[..t];
    Counting(cfg, file, s0, rs, t);
  }

  lemma NoSynLater(cfg: Config, rs: seq<Received>)
    requires ValidConfig(cfg) && Acknowledging(cfg, rs)
    ensures forall j | 0 < j < |rs| :: !HasSyn(rs[j].flags)
  {
  }

  /** Just before the limit the connection is still open with the counter one short of it. */
  lemma Counting(cfg: Config, file: Memory, s0: Server, rs: seq<Received>, t: nat)
    requires ValidConfig(cfg) && s0.state.Closed? && Acknowledging(cfg, rs)
    requires t == cfg.timeout <= Chunks(cfg) + 3
    ensures var (s, sent) := Feed(cfg, file, s0, rs[..t]);
            !s.state.Closed? && s.timeout == t - 1 && |sent| < Chunks(cfg) + 3
  {
    hide Acknowledging, Slice, Chunks, Done, Handle;
    RunLength(cfg, rs);
    if t == 1 {
      FirstSegment(cfg, file, s0, rs);
    } else if t <= Chunks(cfg) + 2 {
      ChunkByChunk(cfg, file, s0, rs, t - 2);
    } else {
      ChunkByChunk(cfg, file, s0, rs, Chunks(cfg));
      assert rs[..t][..t - 1] == rs[..t - 1];
      FinCounted(cfg, file, rs, Feed(cfg, file, s0, rs[..t - 1]).0);
    }
  }

  lemma FirstSegment(cfg: Config, file: Memory, s0: Server, rs: seq<Received>)
    requires ValidConfig(cfg) && s0.state.Closed? && Acknowledging(cfg, rs)
    ensures var (s, sent) := Feed(cfg, file, s0, rs[..1]);
            s.state.SyncReceived? && s.timeout == 0 && |sent| == 1
  {
    hide HasSyn, HasRst, HasAck, Chunks, Done;
    assert rs[..1][..0] == [];
    assert Feed(cfg, file, s0, []) == (s0, []);
  }

  lemma FinCounted(cfg: Config, file: Memory, rs: seq<Received>, s: Server)
    requires ValidConfig(cfg) && Acknowledging(cfg, rs) && Chunks(cfg) + 2 < cfg.timeout
    requires Ready(cfg, rs, s, Chunks(cfg))
    ensures var s1 := Handle(cfg, file, s, rs[2 + Chunks(cfg)]).0;
            s1.state.FinSent? && s1.timeout == Chunks(cfg) + 2
  {
    hide HasSyn, HasRst, HasAck, Slice, Chunks, ChunkAt, Position, ToInt32, Done;
    ChunkArithmetic(cfg, 0);
    PositionOf(rs[2 + Chunks(cfg)].ackNo);
  }

  /** The transfer completes if and only if the limit exceeds the number of chunks by more than
      three. */
  lemma CompletesIff(cfg: Config, file: Memory, s0: Server, rs: seq<Received>)
    requires ValidConfig(cfg) && s0.state.Closed? && Acknowledging(cfg, rs)
    ensures |Feed(cfg, file, s0, rs).1| == Chunks(cfg) + 3 <==> Chunks(cfg) + 3 < cfg.timeout
  {
    hide Handle, Acknowledging, Slice, Chunks, Done, Ready, HasSyn;
    RunLength(cfg, rs);
    if Chunks(cfg) + 3 < cfg.timeout {
      WholeTransfer(cfg, file, s0, rs);
    } else {
      TimesOut(cfg, file, s0, rs);
      NoSynLater(cfg, rs);
      ClosedStaysSilent(cfg, file, s0, rs, cfg.timeout + 1, |rs|);
      assert rs[..|rs|] == rs;
    }
  }

  /** The server as compiled finishes its transfer in twenty segments. */
  lemma CompiledCompletes(file: Memory, s0: Server, rs: seq<Received>)
    requires s0.state.Closed? && ValidConfig(COMPILED) && Acknowledging(COMPILED, rs)
    ensures |rs| == 20 && Payloads(Feed(COMPILED, file, s0, rs).1) == Slice(file, 0, 15654)
  {
    hide Feed, Slice, Payloads;
    WholeTransfer(COMPILED, file, s0, rs);
  }
}
