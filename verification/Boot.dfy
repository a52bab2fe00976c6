/** The boot transfer: the host's sender and the loader in the boot ROM, over a serial line. */
module Boot {
  import opened Words
  import opened Isa
  import opened Digits

  type Byte = b: nat | b < 0x100

  /** Memory by word number; the two lowest address bits select no word. */
  type Memory = map<nat, Word>

  const SLOTS := 0x4000_0000

  /** The word number `j` words after `at`. */
  function Slot(at: nat, j: nat): nat { (at + j) % SLOTS }

  /** Consecutive words written from word number `at` on. */
  function Written(m: Memory, at: nat, ws: seq<Word>): Memory
  {
    if ws == [] then m
    else Written(m, at, ws[..|ws| - 1])[Slot(at, |ws| - 1) := ws[|ws| - 1]]
  }

  function BytesOf(w: Word): (bytes: seq<Byte>)
    ensures |bytes| == 4
  {
    [Lane(w, 0), Lane(w, 1), Lane(w, 2), Lane(w, 3)]
  }

  /** The big-endian word at byte offset `i`. */
  function WordAt(bytes: seq<Byte>, i: nat): Word
    requires i + 4 <= |bytes|
  {
    BigEndian(bytes[i], bytes[i + 1], bytes[i + 2], bytes[i + 3])
  }

  function WordsOf(bytes: seq<Byte>): (ws: seq<Word>)
    ensures |ws| == |bytes| / 4
  {
    seq(|bytes| / 4, i requires 0 <= i < |bytes| / 4 => WordAt(bytes, 4 * i))
  }

  function XorAll(ws: seq<Word>): Word
  {
    if ws == [] then 0 else Xor(XorAll(ws[..|ws| - 1]), ws[|ws| - 1])
  }

  // ----- the loader

  const START := 0x42

  const REQUEST := 69

  /** The board: the memory its loader writes. */
  class Board {
    var memory: Memory

    constructor (m: Memory)
      ensures memory == m
    {
      memory := m;
    }

    /** `read4byte` */
    static method Read4Byte(line: seq<Byte>, at: nat) returns (ret: Word)
      requires at + 4 <= |line|
      ensures ret == WordAt(line, at)
    {
      ret := 0;
      var i := 0;
      while i < 4
        invariant 0 <= i <= 4 && ret == Leading(line[at..at + 4], i)
      {
        LeadingStep(line[at..at + 4], i);
        ret := Wrap(ret as int * 0x100) + line[at + i];
        i := i + 1;
      }
    }

    /** `write4byte` */
    static method Write4Byte(x: Word) returns (sent: seq<Byte>)
      ensures sent == BytesOf(x)
    {
      hide Rest, Lane;
      sent := [];
      var rest := x;
      RestEnds(x);
      var i := 0;
      while i < 4
        invariant 0 <= i <= 4
        invariant sent == BytesOf(x)[..i]
        invariant rest == Rest(x, i)
      {
        RestStep(x, i);
        sent := sent + [rest / 0x100_0000];
        rest := Wrap(rest as int * 0x100);
        i := i + 1;
      }
    }

    /** One round of the main loop: a byte other than the start code is dropped; after the start
        code come the address and sixteen words, which are stored, and their exclusive or is
        the answer. */
    method Round(line: seq<Byte>) returns (used: nat, reply: seq<Byte>)
      requires |line| > 0 && (line[0] == START ==> |line| >= REQUEST)
      modifies this
      ensures line[0] != START ==> used == 1 && reply == [] && memory == old(memory)
      ensures line[0] == START ==>
                var ws := WordsOf(line[5..REQUEST]);
                used == REQUEST && reply == BytesOf(XorAll(ws))
                && memory == Written(old(memory), WordAt(line, 1) / 4, ws)
    {
      hide Written, XorAll, WordAt, WordsOf, BytesOf, Wrap, Xor;
      if line[0] != START {
        return 1, [];
      }
      hide *;
      var addr := Read4Byte(line, 1);
      ghost var start := addr;
      ghost var ws := WordsOf(line[5..REQUEST]);
      BlockStart(start, ws, memory);
      var i, check: Word := 0, 0;
      while i < 16
        invariant 0 <= i <= 16
        invariant addr == Wrap(start as int + 4 * i)
        invariant check == XorAll(ws[..i])
        invariant memory == Written(old(memory), start / 4, ws[..i])
      {
        var value := Read4Byte(line, 5 + 4 * i);
        WordOfBlock(line, i);
        BlockStep(start, ws, i, old(memory));
        check := Xor(check, value);
        memory := memory[addr / 4 := value];
        addr := Wrap(addr as int + 4);
        i := i + 1;
      }
      assert ws[..16] == ws;
      reply := Write4Byte(check);
      used := REQUEST;
    }
  }

  /** The number the first `n` of four bytes spell. */
  function Leading(b: seq<Byte>, n: nat): nat
    requires n <= 4 && |b| == 4
  {
    match n
    case 0 => 0
    case 1 => b[0]
    case 2 => b[0] * 0x100 + b[1]
    case 3 => b[0] * 0x1_0000 + b[1] * 0x100 + b[2]
    case 4 => BigEndian(b[0], b[1], b[2], b[3])
  }

  lemma LeadingStep(b: seq<Byte>, n: nat)
    requires n < 4 && |b| == 4
    ensures Leading(b, n) < 0x100_0000
    ensures Leading(b, n + 1) == Leading(b, n) * 0x100 + b[n]
  {
  }

  /** What is left of a word when its first `n` bytes are shifted out. */
  function Rest(x: Word, n: nat): Word
    requires n <= 4
  {
    var b := BytesOf(x)[n..] + [0, 0, 0, 0];
    BigEndian(b[0], b[1], b[2], b[3])
  }

  lemma ShiftOut(b0: Byte, b1: Byte, b2: Byte, b3: Byte)
    ensures Wrap(BigEndian(b0, b1, b2, b3) as int * 0x100) == BigEndian(b1, b2, b3, 0)
  {
    assert BigEndian(b0, b1, b2, b3) as int * 0x100 == b0 * WORD_LIMIT + BigEndian(b1, b2, b3, 0);
  }

  lemma RestStep(x: Word, n: nat)
    requires n < 4
    ensures Rest(x, n) / 0x100_0000 == Lane(x, n) && Wrap(Rest(x, n) as int * 0x100) == Rest(x, n + 1)
  {
    hide BigEndian, Wrap, Lane;
    var b := BytesOf(x)[n..] + [0, 0, 0, 0];
    TopByte(b[0], b[1], b[2], b[3]);
    ShiftOut(b[0], b[1], b[2], b[3]);
  }

  lemma TopByte(b0: Byte, b1: Byte, b2: Byte, b3: Byte)
    ensures BigEndian(b0, b1, b2, b3) / 0x100_0000 == b0
  {
  }

  lemma RestEnds(x: Word)
    ensures Rest(x, 0) == x
  {
    LanesAssemble(x);
  }

  lemma SameWordAt(line: seq<Byte>, from: nat, to: nat, i: nat)
    requires from + i + 4 <= to <= |line|
    ensures WordAt(line[from..to], i) == WordAt(line, from + i)
  {
  }

  lemma WordOfBlock(line: seq<Byte>, i: nat)
    requires i < 16 && |line| >= REQUEST
    ensures WordsOf(line[5..REQUEST])[i] == WordAt(line, 5 + 4 * i)
  {
    SameWordAt(line, 5, REQUEST, 4 * i);
  }

  lemma BlockStart(start: Word, ws: seq<Word>, m: Memory)
    ensures Wrap(start) == start && XorAll(ws[..0]) == 0 && Written(m, start / 4, ws[..0]) == m
  {
  }

  lemma BlockStep(start: Word, ws: seq<Word>, i: nat, m: Memory)
    requires i < |ws|
    ensures XorAll(ws[..i + 1]) == Xor(XorAll(ws[..i]), ws[i])
    ensures Written(m, start / 4, ws[..i + 1])
            == Written(m, start / 4, ws[..i])[Wrap(start as int + 4 * i) / 4 := ws[i]]
    ensures Wrap(Wrap(start as int + 4 * i) as int + 4) == Wrap(start as int + 4 * (i + 1))
  {
    hide Xor, Slot;
    assert ws[..i + 1][..i] == ws[..i];
    SlotOf(start, i);
    NextAddress(start as int + 4 * i);
  }

  lemma NextAddress(x: int)
    ensures Wrap(Wrap(x) as int + 4) == Wrap(x + 4)
  {
    assert x + 4 == Wrap(x) as int + 4 + x / WORD_LIMIT * WORD_LIMIT;
  }

  lemma SlotOf(start: Word, i: nat)
    ensures Wrap(start + 4 * i) / 4 == Slot(start / 4, i)
  {
    var q := (start + 4 * i) / WORD_LIMIT;
    assert Wrap(start + 4 * i) == start + 4 * i - q * WORD_LIMIT;
    assert Wrap(start + 4 * i) / 4 == start / 4 + i - q * SLOTS;
  }

  // ----- the line

  /** What the line does to one attempt: nothing, change one data word, or change the answer. */
  datatype Noise = Faithful | DataWord(index: nat, word: Word) | Answer(answer: Word)

  function Delivered(request: seq<Byte>, noise: Noise): (line: seq<Byte>)
    requires |request| == REQUEST
    ensures |line| == REQUEST
  {
    if noise.DataWord? && noise.index < 16 then
      request[..5 + 4 * noise.index] + BytesOf(noise.word) + request[9 + 4 * noise.index..]
    else request
  }

  function Answered(reply: seq<Byte>, noise: Noise): seq<Byte>
  {
    if noise.Answer? then BytesOf(noise.answer) else reply
  }

  // ----- exclusive or

  lemma XorCancels(a: Word, b: Word, c: Word)
    requires Xor(a, c) == Xor(b, c) || Xor(c, a) == Xor(c, b)
    ensures a == b
  {
    hide Xor, Digit;
    Pow2Word();
    forall k: nat | k < 32
      ensures Digit(a, k) == Digit(b, k)
    {
      LogicByDigit(a, c, k);
      LogicByDigit(b, c, k);
      LogicByDigit(c, a, k);
      LogicByDigit(c, b, k);
    }
    DigitsDetermine(a, b, 32);
  }

  /** On the line the highest byte of a word comes first, both ways. */
  lemma LineOrder(w: Word, bytes: seq<Byte>, i: nat)
    requires i + 4 <= |bytes|
    ensures BytesOf(w) == [w / 0x100_0000, w / 0x1_0000 % 0x100, w / 0x100 % 0x100, w % 0x100]
    ensures WordAt(bytes, i) as int
            == bytes[i] as int * 0x100_0000 + bytes[i + 1] as int * 0x1_0000 + bytes[i + 2] as int * 0x100
               + bytes[i + 3]
  {
    assert w / 0x100_0000 % 0x100 == w / 0x100_0000;
  }

  /** How many of the words have bit `k` set. */
  function WithBit(ws: seq<Word>, k: nat): nat
  {
    if ws == [] then 0 else WithBit(ws[1..], k) + if Digit(ws[0], k) then 1 else 0
  }

  lemma {:induction false} WithBitLast(ws: seq<Word>, k: nat)
    requires ws != []
    ensures WithBit(ws, k) == WithBit(ws[..|ws| - 1], k) + if Digit(ws[|ws| - 1], k) then 1 else 0
  {
    hide Digit;
    var n := |ws| - 1;
    if n > 0 {
      WithBitLast(ws[1..], k);
      assert ws[1..][..n - 1] == ws[..n][1..];
    }
  }

  /** The answer to a block is the parity of its words bit by bit. */
  lemma {:induction false} ParityByBit(ws: seq<Word>, k: nat)
    requires k < 32
    ensures Digit(XorAll(ws), k) <==> WithBit(ws, k) % 2 == 1
  {
    hide Xor, Digit, WithBit;
    if ws == [] {
      ZeroDigit(k);
      NoWords(k);
    } else {
      var n := |ws| - 1;
      ParityByBit(ws[..n], k);
      WithBitLast(ws, k);
      LogicByDigit(XorAll(ws[..n]), ws[n], k);
    }
  }

  lemma NoWords(k: nat)
    ensures WithBit([], k) == 0
  {
  }

  /** Changing one word changes the exclusive or of them all. */
  lemma {:induction false} ChangeShows(ws: seq<Word>, i: nat, w: Word)
    requires i < |ws| && XorAll(ws[i := w]) == XorAll(ws)
    ensures w == ws[i]
  {
    hide Xor;
    var n := |ws| - 1;
    if i == n {
      assert ws[i := w][..n] == ws[..n];
      XorCancels(w, ws[n], XorAll(ws[..n]));
    } else {
      assert ws[i := w][..n] == ws[..n][i := w];
      XorCancels(XorAll(ws[..n][i := w]), XorAll(ws[..n]), ws[n]);
      ChangeShows(ws[..n], i, w);
    }
  }

  // ----- the sender

  function Zeros(n: nat): seq<Byte> { seq(n, _ => 0) }

  /** The data with zeros up to a full block. */
  function Padded(data: seq<Byte>): seq<Byte>
  {
    if |data| < 64 then data + Zeros(64 - |data|) else data
  }

  method Checksum(data: seq<Byte>) returns (ret: Word)
    requires |data| == 64
    ensures ret == XorAll(WordsOf(data))
  {
    hide Xor, WordAt;
    ret := 0;
    var i := 0;
    while i < 64
      invariant 0 <= i <= 64 && i % 4 == 0
      invariant ret == XorAll(WordsOf(data)[..i / 4])
    {
      assert WordsOf(data)[..i / 4 + 1][..i / 4] == WordsOf(data)[..i / 4];
      ret := Xor(ret, WordAt(data, i));
      i := i + 4;
    }
    assert WordsOf(data)[..16] == WordsOf(data);
  }

  function Request(addr: Word, data: seq<Byte>): (line: seq<Byte>)
    ensures |line| == 5 + |data|
  {
    [START] + BytesOf(addr) + data
  }

  lemma AddressArrives(addr: Word, data: seq<Byte>, noise: Noise)
    requires |data| == 64
    ensures var line := Delivered(Request(addr, data), noise);
            |line| == REQUEST && line[0] == START && WordAt(line, 1) == addr
  {
    hide Lane;
    LanesAssemble(addr);
    var line := Delivered(Request(addr, data), noise);
    assert line[1..5] == BytesOf(addr);
  }

  lemma WordRead(w: Word)
    ensures WordAt(BytesOf(w), 0) == w
  {
    LanesAssemble(w);
  }

  /** The words that reach the loader: those sent, with the noise's change. */
  lemma DataArrives(addr: Word, data: seq<Byte>, noise: Noise)
    requires |data| == 64
    ensures var line := Delivered(Request(addr, data), noise);
            |line| == REQUEST
            && WordsOf(line[5..REQUEST])
               == if noise.DataWord? && noise.index < 16 then WordsOf(data)[noise.index := noise.word]
                  else WordsOf(data)
  {
    hide BytesOf, BigEndian;
    var line := Delivered(Request(addr, data), noise);
    if noise.DataWord? && noise.index < 16 {
      var n := noise.index;
      WordRead(noise.word);
      assert line[5..REQUEST] == data[..4 * n] + BytesOf(noise.word) + data[4 * n + 4..];
      forall k | 0 <= k < 16
        ensures WordAt(line[5..REQUEST], 4 * k) == if k == n then noise.word else WordAt(data, 4 * k)
      {
        SameWordAt(line, 5, REQUEST, 4 * k);
      }
    } else {
      assert line[5..REQUEST] == data;
    }
  }

  /** `write64byte`: sends a block until the loader's answer matches; `noise` is what the line does to
      the attempts to come, none once it is used up. */
  method Write64Byte(board: Board, addr: Word, data: seq<Byte>, noise: seq<Noise>) returns (rest: seq<Noise>)
    requires |data| <= 64
    modifies board
    ensures board.memory == Written(old(board.memory), addr / 4, WordsOf(Padded(data)))
    ensures exists n :: 0 <= n <= |noise| && rest == noise[n..]
    decreases |noise|
  {
    hide WordAt, XorAll, WordsOf, Delivered, Request, Written, BytesOf, Padded, Answered;
    var block := Padded(data);
    var now := if noise == [] then Faithful else noise[0];
    rest := if noise == [] then [] else noise[1..];
    PaddedLength(data);
    AddressArrives(addr, block, now);
    DataArrives(addr, block, now);
    var before := board.memory;
    var _, reply := board.Round(Delivered(Request(addr, block), now));
    ghost var got := WordsOf(Delivered(Request(addr, block), now)[5..REQUEST]);
    AnswerReads(XorAll(got), now);
    var answer := WordAt(Answered(reply, now), 0);
    var check := Checksum(block);
    ghost var ws := WordsOf(block);
    if answer != check {
      assert board.memory == Written(before, addr / 4, got);
      rest := Write64Byte(board, addr, data, rest);
      Overwritten(before, addr / 4, got, ws);
      RestOfRest(noise, rest);
    } else {
      AcceptedIsRight(got, ws, now);
      assert rest == noise[if noise == [] then 0 else 1..];
    }
  }

  lemma PaddedLength(data: seq<Byte>)
    requires |data| <= 64
    ensures |Padded(data)| == 64 && Padded(data)[..|data|] == data
    ensures |WordsOf(Padded(data))| == 16
  {
  }

  lemma RestOfRest(noise: seq<Noise>, rest: seq<Noise>)
    requires noise == [] ==> rest == []
    requires noise != [] ==> exists n :: 0 <= n <= |noise| - 1 && rest == noise[1..][n..]
    ensures exists n :: 0 <= n <= |noise| && rest == noise[n..]
  {
    if noise == [] {
      assert rest == noise[0..];
    } else {
      var n :| 0 <= n <= |noise| - 1 && rest == noise[1..][n..];
      assert rest == noise[n + 1..];
    }
  }

  lemma AnswerReads(check: Word, noise: Noise)
    ensures |Answered(BytesOf(check), noise)| == 4
    ensures WordAt(Answered(BytesOf(check), noise), 0) == if noise.Answer? then noise.answer else check
  {
    WordRead(check);
    if noise.Answer? { WordRead(noise.answer); }
  }

  /** An accepted block is the block sent. */
  lemma AcceptedIsRight(got: seq<Word>, ws: seq<Word>, noise: Noise)
    requires |ws| == 16
    requires got == if noise.DataWord? && noise.index < 16 then ws[noise.index := noise.word] else ws
    requires !noise.Answer? ==> XorAll(got) == XorAll(ws)
    ensures got == ws
  {
    if noise.DataWord? && noise.index < 16 {
      ChangeShows(ws, noise.index, noise.word);
    }
  }

  // ----- what the writes leave in memory

  lemma SlotsDiffer(at: nat, i: nat, j: nat)
    requires i < j < i + SLOTS
    ensures Slot(at, i) != Slot(at, j)
  {
    var p, q := (at + i) / SLOTS, (at + j) / SLOTS;
    assert Slot(at, i) == at + i - p * SLOTS && Slot(at, j) == at + j - q * SLOTS;
    assert Slot(at, i) == Slot(at, j) ==> j - i == (q - p) * SLOTS;
  }

  /** Each word written, at most as many as there are slots, is in its place. */
  lemma {:induction false} WrittenIn(m: Memory, at: nat, ws: seq<Word>, j: nat)
    requires j < |ws| <= SLOTS
    ensures Slot(at, j) in Written(m, at, ws) && Written(m, at, ws)[Slot(at, j)] == ws[j]
  {
    hide Slot;
    var n := |ws| - 1;
    if j < n {
      WrittenIn(m, at, ws[..n], j);
      SlotsDiffer(at, j, n);
    }
  }

  /** No other place changes. */
  lemma {:induction false} WrittenOut(m: Memory, at: nat, ws: seq<Word>, k: nat)
    requires forall j | 0 <= j < |ws| :: k != Slot(at, j)
    ensures k in Written(m, at, ws) <==> k in m
    ensures k in m ==> Written(m, at, ws)[k] == m[k]
  {
    hide Slot;
    if ws != [] {
      WrittenOut(m, at, ws[..|ws| - 1], k);
    }
  }

  /** A second block at the same place replaces the first. */
  lemma Overwritten(m: Memory, at: nat, ws: seq<Word>, vs: seq<Word>)
    requires |ws| == |vs| <= SLOTS
    ensures Written(Written(m, at, ws), at, vs) == Written(m, at, vs)
  {
    hide Written, Slot;
    var first := Written(m, at, ws);
    var both, one := Written(first, at, vs), Written(m, at, vs);
    forall k: nat
      ensures (k in both <==> k in one) && (k in both ==> both[k] == one[k])
    {
      if j :| 0 <= j < |vs| && k == Slot(at, j) {
        WrittenIn(first, at, vs, j);
        WrittenIn(m, at, vs, j);
      } else {
        WrittenOut(m, at, ws, k);
        WrittenOut(first, at, vs, k);
        WrittenOut(m, at, vs, k);
      }
    }
  }

  lemma {:induction false} WrittenOn(m: Memory, at: nat, ws: seq<Word>, vs: seq<Word>)
    ensures Written(Written(m, at, ws), at + |ws|, vs) == Written(m, at, ws + vs)
  {
    if vs == [] {
      assert ws + vs == ws;
    } else {
      var n := |vs| - 1;
      assert (ws + vs)[..|ws| + n] == ws + vs[..n];
      WrittenOn(m, at, ws, vs[..n]);
    }
  }

  // ----- the whole file

  /** The file with zeros up to a multiple of 64 bytes, one block for an empty file. */
  function Blocks(file: seq<Byte>): (all: seq<Byte>)
    ensures |all| % 64 == 0 && |all| >= 64 && file <= all
    ensures |all| < |file| + 64 || |all| == 64
  {
    file + Zeros(if file == [] then 64 else (64 - |file| % 64) % 64)
  }

  /** How many 64-byte steps from `start` have an address of 32 bits. */
  function BlocksInRange(start: nat): nat
  {
    if start >= WORD_LIMIT then 0 else (WORD_LIMIT - start + 63) / 64
  }

  lemma PaddedPiece(file: seq<Byte>, k: nat)
    requires 64 * k <= |file| && (file == [] || 64 * k < |file|)
    ensures 64 * k + 64 <= |Blocks(file)|
    ensures 64 * k + 64 >= |file| <==> |Blocks(file)| == 64 * k + 64
    ensures Padded(if |file| < 64 * k + 64 then file[64 * k..] else file[64 * k..64 * k + 64])
            == Blocks(file)[64 * k..64 * k + 64]
  {
    var all := Blocks(file);
    assert |all| % 64 == 0;
  }

  lemma WordsOfMore(all: seq<Byte>, k: nat)
    requires 64 * k + 64 <= |all|
    ensures WordsOf(all[..64 * k + 64]) == WordsOf(all[..64 * k]) + WordsOf(all[64 * k..64 * k + 64])
  {
    hide BigEndian;
    var whole, parts := WordsOf(all[..64 * k + 64]), WordsOf(all[..64 * k]) + WordsOf(all[64 * k..64 * k + 64]);
    forall i | 0 <= i < |whole|
      ensures whole[i] == parts[i]
    {
      SameWordAt(all, 0, 64 * k + 64, 4 * i);
      if i < 16 * k {
        SameWordAt(all, 0, 64 * k, 4 * i);
      } else {
        SameWordAt(all, 64 * k, 64 * k + 64, 4 * (i - 16 * k));
      }
    }
  }

  lemma OneMoreBlock(m: Memory, start: nat, all: seq<Byte>, k: nat)
    requires 64 * k + 64 <= |all|
    ensures Written(Written(m, start / 4, WordsOf(all[..64 * k])), (start + 64 * k) / 4,
                    WordsOf(all[64 * k..64 * k + 64]))
            == Written(m, start / 4, WordsOf(all[..64 * k + 64]))
  {
    hide Written, WordsOf;
    WordsOfMore(all, k);
    WrittenOn(m, start / 4, WordsOf(all[..64 * k]), WordsOf(all[64 * k..64 * k + 64]));
  }

  lemma NothingWritten(m: Memory, at: nat, all: seq<Byte>)
    ensures Written(m, at, WordsOf(all[..0])) == m
  {
  }

  /** The sender's main loop. It fails at the first block whose address has more than 32 bits; the
      blocks before it are in memory, whatever the line did to the attempts. */
  method Transfer(board: Board, file: seq<Byte>, start: nat, noise: seq<Noise>) returns (ok: bool)
    modifies board
    ensures ok <==> |Blocks(file)| / 64 <= BlocksInRange(start)
    ensures board.memory
            == Written(old(board.memory), start / 4,
                       WordsOf(Blocks(file)[..if ok then |Blocks(file)| else 64 * BlocksInRange(start)]))
  {
    hide Written, WordsOf, Blocks, Padded;
    ghost var all := Blocks(file);
    var data, addr, ahead := file, start, noise;
    ghost var k: nat := 0;
    NothingWritten(board.memory, start / 4, all);
    while true
      invariant addr == start + 64 * k
      invariant 64 * k <= |file| && (file == [] || 64 * k < |file|) && data == file[64 * k..]
      invariant k <= BlocksInRange(start)
      invariant board.memory == Written(old(board.memory), start / 4, WordsOf(all[..64 * k]))
      decreases |file| - 64 * k
    {
      PaddedPiece(file, k);
      if addr >= WORD_LIMIT {
        return false;
      }
      OneMoreBlock(old(board.memory), start, all, k);
      var piece := if |data| < 64 then data else data[..64];
      assert piece == if |file| < 64 * k + 64 then file[64 * k..] else file[64 * k..64 * k + 64];
      ahead := Write64Byte(board, addr, piece, ahead);
      data := if |data| < 64 then [] else data[64..];
      if data == [] {
        break;
      }
      addr := addr + 64;
      k := k + 1;
    }
    ok := true;
  }

  /** After a whole transfer every byte of the padded file is in its place in memory, and words
      outside it are as they were. */
  lemma FileInMemory(m: Memory, start: nat, file: seq<Byte>, j: nat, k: nat)
    requires j < |Blocks(file)| && |Blocks(file)| / 64 <= BlocksInRange(start)
    ensures var after := Written(m, start / 4, WordsOf(Blocks(file)));
            && Slot(start / 4, j / 4) in after
            && Lane(after[Slot(start / 4, j / 4)], j % 4) == (if j < |file| then file[j] else 0)
    ensures var after := Written(m, start / 4, WordsOf(Blocks(file)));
            (forall i | 0 <= i < |Blocks(file)| / 4 :: k != Slot(start / 4, i)) ==>
              (k in after <==> k in m) && (k in m ==> after[k] == m[k])
  {
    hide Written, Slot, Lane, WordsOf, Blocks, BlocksInRange;
    var all := Blocks(file);
    var ws := WordsOf(all);
    assert j < |file| ==> all[j] == file[j];
    if j >= |file| { ZerosAfter(file, j); }
    FewBlocks(start, |all|);
    WrittenIn(m, start / 4, ws, j / 4);
    ByteOfWord(all, j);
    if forall i | 0 <= i < |ws| :: k != Slot(start / 4, i) {
      WrittenOut(m, start / 4, ws, k);
    }
  }

  lemma ZerosAfter(file: seq<Byte>, j: nat)
    requires |file| <= j < |Blocks(file)|
    ensures Blocks(file)[j] == 0
  {
  }

  lemma FewBlocks(start: nat, n: nat)
    requires n % 64 == 0 && n / 64 <= BlocksInRange(start)
    ensures n / 4 <= SLOTS
  {
  }

  lemma ByteOfWord(all: seq<Byte>, j: nat)
    requires j < |all| && |all| % 64 == 0
    ensures j / 4 < |all| / 4 && Lane(WordsOf(all)[j / 4], j % 4) == all[j]
  {
    hide Lane, BigEndian;
    var i := j / 4 * 4;
    assert i + 4 <= |all|;
    BigEndianLanes(all[i], all[i + 1], all[i + 2], all[i + 3]);
  }
}
