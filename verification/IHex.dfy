/** Intel HEX files: areas of memory written as rows and read back. */
module IHex {
  import opened Words
  import opened HexText

  /** Memory contents as disjoint runs of bytes, by start address. */
  type Areas = map<nat, Bytes>

  datatype Mode = Bits8 | Bits16 | Bits32

  const DATA := 0
  const END_OF_FILE := 1
  const EXT_SEGMENT := 2
  const START_SEGMENT := 3
  const EXT_LINEAR := 4
  const START_LINEAR := 5

  // ----- reading

  datatype ReadResult =
    | Read(areas: Areas)
    | Failed(error: Error)
      /** More than one area touches an inserted address, so the outcome depends on the order in
          which a dictionary yields its entries. */
    | OrderDependent

  /** An area that contains the address or ends right before it. */
  predicate Touches(areas: Areas, start: nat, addr: nat)
  {
    start in areas && start <= addr <= start + |areas[start]|
  }

  /** The bytes of an area after `idata` was put in at offset `at`. */
  function Spliced(data: Bytes, at: nat, idata: Bytes): Bytes
    requires at <= |data|
  {
    data[..at] + idata + if at + |idata| <= |data| then data[at + |idata|..] else []
  }

  function Inserted(areas: Areas, start: Option<nat>, addr: nat, idata: Bytes): Areas
    requires start.Some? ==> Touches(areas, start.value, addr)
  {
    if start.None? then areas[addr := idata]
    else areas[start.value := Spliced(areas[start.value], addr - start.value, idata)]
  }

  ghost function Insert(areas: Areas, addr: nat, idata: Bytes): ReadResult
  {
    if !(exists s :: Touches(areas, s, addr)) then Read(Inserted(areas, None, addr, idata))
    else
      var s :| Touches(areas, s, addr);
      if forall t | Touches(areas, t, addr) :: t == s then Read(Inserted(areas, Some(s), addr, idata))
      else OrderDependent
  }

  /** The reader between two lines, or finished. */
  datatype Reading = Going(base: nat, areas: Areas) | Stopped(result: ReadResult)

  ghost function ReadRecord(r: Record, base: nat, areas: Areas): Reading
  {
    if r.kind == DATA then
      var inserted := Insert(areas, base + r.addr, r.data);
      if inserted.Read? then Going(base, inserted.areas) else Stopped(inserted)
    else if r.kind == END_OF_FILE then Stopped(Read(areas))
    else
      var next := NewBase(r, base);
      if next.Some? then Going(next.value, areas)
      else Stopped(Failed(if r.kind > START_LINEAR then BadType else TooShort))
  }

  ghost function ReadLine(line: string, base: nat, areas: Areas): Reading
  {
    var text := Strip(line);
    if text == "" then Going(base, areas)
    else
      var parsed := ParseLine(text);
      if parsed.BadLine? then Stopped(Failed(parsed.error)) else ReadRecord(parsed.record, base, areas)
  }

  /** Reading the lines from a state of segment base and areas onwards. */
  ghost function ReadOn(lines: seq<string>, base: nat, areas: Areas): ReadResult
    decreases |lines|
  {
    if lines == [] then Read(areas)
    else
      var step := ReadLine(lines[0], base, areas);
      if step.Stopped? then step.result else ReadOn(lines[1..], step.base, step.areas)
  }

  /** A possible outcome of an insertion, for some order of the dictionary. */
  ghost predicate CanInsert(areas: Areas, addr: nat, idata: Bytes, after: Areas)
  {
    if exists s :: Touches(areas, s, addr) then
      exists s :: Touches(areas, s, addr) && after == Inserted(areas, Some(s), addr, idata)
    else after == Inserted(areas, None, addr, idata)
  }

  /** A possible outcome of reading one record. */
  ghost predicate CanStep(r: Record, base: nat, areas: Areas, after: Reading)
  {
    if r.kind == DATA then
      after.Going? && after.base == base && CanInsert(areas, base + r.addr, r.data, after.areas)
    else after == ReadRecord(r, base, areas)
  }

  ghost predicate CanReadLine(line: string, base: nat, areas: Areas, after: Reading)
  {
    var text := Strip(line);
    if text == "" then after == Going(base, areas)
    else
      var parsed := ParseLine(text);
      if parsed.BadLine? then after == Stopped(Failed(parsed.error)) else CanStep(parsed.record, base, areas, after)
  }

  /** A possible outcome of reading the lines, whatever the orders of the dictionary. */
  ghost predicate CanRead(lines: seq<string>, base: nat, areas: Areas, out: ReadResult)
    decreases |lines|
  {
    if lines == [] then out == Read(areas)
    else
      exists after :: CanReadLine(lines[0], base, areas, after)
                      && if after.Stopped? then out == after.result
                         else CanRead(lines[1..], after.base, after.areas, out)
  }

  /** When the order does not matter the outcome is the only possible one. */
  lemma {:induction false} OnlyOutcome(lines: seq<string>, base: nat, areas: Areas, out: ReadResult)
    requires CanRead(lines, base, areas, out) && !ReadOn(lines, base, areas).OrderDependent?
    ensures out == ReadOn(lines, base, areas)
    decreases |lines|
  {
    hide Strip, ParseLine, Inserted;
    if lines != [] {
      var after :| CanReadLine(lines[0], base, areas, after)
                   && if after.Stopped? then out == after.result
                      else CanRead(lines[1..], after.base, after.areas, out);
      OnlyLine(lines[0], base, areas, after);
      if after.Going? {
        OnlyOutcome(lines[1..], after.base, after.areas, out);
      }
    }
  }

  lemma OnlyLine(line: string, base: nat, areas: Areas, after: Reading)
    requires CanReadLine(line, base, areas, after)
    ensures ReadLine(line, base, areas) == after || ReadLine(line, base, areas) == Stopped(OrderDependent)
  {
    hide Strip, ParseLine;
  }

  /** The segment base after a record that carries no data. Two bytes of a start segment address
      record are taken where four are unpacked, so such a record always fails. */
  function NewBase(r: Record, base: nat): Option<nat>
  {
    if r.kind == EXT_SEGMENT then
      if |r.data| < 2 then None else Some((r.data[0] as int * 0x100 + r.data[1] as int) * 0x10)
    else if r.kind == EXT_LINEAR then
      if |r.data| < 2 then None else Some((r.data[0] as int * 0x100 + r.data[1] as int) * 0x1_0000)
    else if r.kind == START_LINEAR then
      if |r.data| < 4 then None else Some(base)
    else None
  }

  // ----- writing

  /** The value of the base record a row at `addr` needs, and the address within its segment. */
  function BaseValue(mode: Mode, addr: nat): nat
  {
    match mode
    case Bits8 => 0
    case Bits16 => addr / 0x1_0000 * 0x1000
    case Bits32 => addr / 0x1_0000
  }

  function BaseRecord(mode: Mode, value: nat): Record
  {
    Record(if mode.Bits16? then EXT_SEGMENT else EXT_LINEAR, 0, [value / 0x100 % 0x100, value % 0x100])
  }

  function Min(a: nat, b: nat): nat { if a < b then a else b }

  /** The records for the rest of an area from offset `i` on, when the last base written is `base`. */
  function Rows(mode: Mode, row: nat, start: nat, data: Bytes, i: nat, base: nat): seq<Record>
    requires row > 0
    decreases |data| - i
  {
    if i >= |data| then []
    else
      var value := BaseValue(mode, start + i);
      (if value != base then [BaseRecord(mode, value)] else [])
      + [Record(DATA, (start + i) % 0x1_0000, data[i..Min(i + row, |data|)])]
      + Rows(mode, row, start, data, i + row, value)
  }

  /** Every base record of the area has a value that fits its two bytes. */
  predicate RowsFit(mode: Mode, row: nat, start: nat, length: nat, i: nat)
    requires row > 0
    decreases length - i
  {
    i >= length || (BaseValue(mode, start + i) < 0x1_0000 && RowsFit(mode, row, start, length, i + row))
  }

  /** The start addresses in increasing order. */
  predicate Sorted(starts: seq<nat>) { forall j, k | 0 <= j < k < |starts| :: starts[j] < starts[k] }

  function AreaRecords(mode: Mode, row: nat, areas: Areas, starts: seq<nat>): seq<Record>
    requires row > 0 && forall s | s in starts :: s in areas
  {
    if starts == [] then []
    else AreaRecords(mode, row, areas, starts[..|starts| - 1])
         + Rows(mode, row, starts[|starts| - 1], areas[starts[|starts| - 1]], 0, 0)
  }

  datatype Start = NoStart | SegmentStart(cs: nat, ip: nat) | LinearStart(eip: nat)

  function Word16(v: nat): Bytes { [v / 0x100 % 0x100, v % 0x100] }

  /** The record that carries the start address, printed in the two wider modes. */
  function StartRecords(mode: Mode, start: Start): seq<Record>
  {
    match (mode, start)
    case (Bits16, SegmentStart(cs, ip)) => [Record(START_SEGMENT, 0, Word16(cs) + Word16(ip))]
    case (Bits32, LinearStart(eip)) => [Record(START_LINEAR, 0, Word16(eip / 0x1_0000) + Word16(eip))]
    case _ => []
  }

  const END := Record(END_OF_FILE, 0, [])

  function FileRecords(mode: Mode, row: nat, areas: Areas, starts: seq<nat>, start: Start): seq<Record>
    requires row > 0 && forall s | s in starts :: s in areas
  {
    AreaRecords(mode, row, areas, starts) + StartRecords(mode, start) + [END]
  }

  /** The start address has the shape the mode packs, with values in range. */
  predicate StartFits(mode: Mode, start: Start)
  {
    match mode
    case Bits8 => true
    case Bits16 => start.NoStart? || (start.SegmentStart? && start.cs < 0x1_0000 && start.ip < 0x1_0000)
    case Bits32 => start.NoStart? || (start.LinearStart? && start.eip < 0x1_0000_0000)
  }

  // ----- the round trip

  function Limit(mode: Mode): nat
  {
    match mode
    case Bits8 => 0x1_0000
    case Bits16 => 0x10_0000
    case Bits32 => 0x1_0000_0000
  }

  /** Non-empty areas within the range of the mode, with at least one free byte between them. */
  predicate Separated(mode: Mode, areas: Areas)
  {
    && (forall s | s in areas :: areas[s] != [] && s + |areas[s]| <= Limit(mode))
    && (forall s, t | s in areas && t in areas && s < t :: s + |areas[s]| < t)
  }

  /** Where the reader's segment base stands for a base value. */
  function BaseAddress(mode: Mode, value: nat): nat
  {
    match mode
    case Bits8 => 0
    case Bits16 => value * 0x10
    case Bits32 => value * 0x1_0000
  }

  lemma RowAddress(mode: Mode, addr: nat)
    requires addr < Limit(mode)
    ensures BaseValue(mode, addr) < 0x1_0000
    ensures BaseAddress(mode, BaseValue(mode, addr)) + addr % 0x1_0000 == addr
  {
  }

  lemma ReadsPrinted(r: Record, base: nat, areas: Areas)
    requires Writable(r)
    ensures ReadLine(MakeLine(r), base, areas) == ReadRecord(r, base, areas)
  {
    hide MakeLine, Strip, ParseLine, Insert, NewBase, ReadRecord;
    LineRoundTrip(r);
  }

  function Printed(rs: seq<Record>): seq<string>
    requires AllWritable(rs)
  {
    seq(|rs|, i requires 0 <= i < |rs| => MakeLine(rs[i]))
  }

  predicate AllWritable(rs: seq<Record>) { forall r | r in rs :: Writable(r) }

  lemma {:induction false} RowsWritable(mode: Mode, row: nat, start: nat, data: Bytes, i: nat, base: nat)
    requires 0 < row < 0x100
    ensures AllWritable(Rows(mode, row, start, data, i, base))
    decreases |data| - i
  {
    if i < |data| {
      RowsWritable(mode, row, start, data, i + row, BaseValue(mode, start + i));
    }
  }

  lemma PrintedJoins(rs: seq<Record>, more: seq<Record>)
    requires AllWritable(rs) && AllWritable(more)
    ensures AllWritable(rs + more) && Printed(rs + more) == Printed(rs) + Printed(more)
  {
  }

  /** Reading one printed record before other lines. */
  lemma ReadsNext(r: Record, rest: seq<string>, base: nat, areas: Areas)
    requires Writable(r)
    ensures var step := ReadRecord(r, base, areas);
            ReadOn(Printed([r]) + rest, base, areas)
            == if step.Stopped? then step.result else ReadOn(rest, step.base, step.areas)
  {
    hide MakeLine, ReadLine, ReadRecord;
    ReadsPrinted(r, base, areas);
    assert (Printed([r]) + rest)[0] == MakeLine(r);
    assert (Printed([r]) + rest)[1..] == rest;
  }

  /** Areas other than the one being read end before it starts. */
  predicate Behind(areas: Areas, start: nat)
  {
    forall t | t in areas && t != start :: t + |areas[t]| < start
  }

  /** The area being read holds the rows read so far. */
  predicate Partial(areas: Areas, start: nat, data: Bytes, i: nat)
  {
    if i == 0 then start !in areas else start in areas && areas[start] == data[..Min(i, |data|)]
  }

  /** A row lands at the end of the area being read, whatever order the dictionary has. */
  lemma RowInserts(areas: Areas, start: nat, data: Bytes, i: nat, row: nat)
    requires Behind(areas, start) && Partial(areas, start, data, i) && i < |data| && row > 0
    ensures var chunk := data[i..Min(i + row, |data|)];
            var after := areas[start := data[..Min(i + row, |data|)]];
            && Insert(areas, start + i, chunk) == Read(after) && Behind(after, start)
            && Partial(after, start, data, i + row)
  {
    var end := Min(i + row, |data|);
    if i == 0 {
      assert data[..end] == data[0..end];
      assert forall t :: !Touches(areas, t, start);
    } else {
      var at := start + i;
      assert Touches(areas, start, at);
      assert forall t | Touches(areas, t, at) :: t == start;
      assert Spliced(data[..i], i, data[i..end]) == data[..end];
    }
  }

  lemma RowsStep(mode: Mode, row: nat, start: nat, data: Bytes, i: nat, base: nat)
    requires row > 0 && i < |data|
    ensures var value := BaseValue(mode, start + i);
            var row0 := Record(DATA, (start + i) % 0x1_0000, data[i..Min(i + row, |data|)]);
            Rows(mode, row, start, data, i, base)
            == (if value != base then [BaseRecord(mode, value)] else []) + ([row0]
               + Rows(mode, row, start, data, i + row, value))
  {
    hide BaseValue, BaseRecord;
  }

  /** The base record of a row sets the reader's base to the row's segment. */
  lemma BaseReads(mode: Mode, value: nat, base: nat, areas: Areas)
    requires value < 0x1_0000 && !mode.Bits8?
    ensures ReadRecord(BaseRecord(mode, value), base, areas) == Going(BaseAddress(mode, value), areas)
  {
    hide Insert;
  }

  lemma NoBase(mode: Mode, addr: nat)
    ensures mode.Bits8? ==> BaseValue(mode, addr) == 0
  {
  }

  lemma NoRows(mode: Mode, row: nat, start: nat, data: Bytes, i: nat, base: nat)
    requires row > 0 && i >= |data|
    ensures Rows(mode, row, start, data, i, base) == []
  {
  }

  /** After its last row the area is there in full. */
  lemma NoMoreRows(areas: Areas, start: nat, data: Bytes, i: nat, rest: seq<string>)
    requires Partial(areas, start, data, i) && i > 0 && i >= |data|
    ensures AllWritable([]) && Printed([]) + rest == rest && areas[start := data] == areas
  {
    assert data[..|data|] == data;
  }

  /** A row with its base record, if it needs one, is read into the area. */
  lemma RowReads(mode: Mode, row0: Record, value: nat, written: nat, later: seq<Record>, base: nat, areas: Areas,
                 after: Areas, rest: seq<string>)
    requires row0.kind == DATA && Writable(row0) && AllWritable(later) && value < 0x1_0000
    requires value == written ==> base == BaseAddress(mode, value)
    requires value != written ==> !mode.Bits8?
    requires Insert(areas, BaseAddress(mode, value) + row0.addr, row0.data) == Read(after)
    ensures var rs := (if value != written then [BaseRecord(mode, value)] else []) + ([row0] + later);
            AllWritable(rs)
            && ReadOn(Printed(rs) + rest, base, areas) == ReadOn(Printed(later) + rest, BaseAddress(mode, value), after)
  {
    hide ReadOn, Insert, BaseAddress, ReadLine, MakeLine;
    var tail := Printed(later) + rest;
    ReadsNext(row0, tail, BaseAddress(mode, value), areas);
    PrintedJoins([row0], later);
    var rows := [row0] + later;
    assert Printed(rows) + rest == Printed([row0]) + tail;
    if value != written {
      var b := BaseRecord(mode, value);
      BaseReads(mode, value, base, areas);
      ReadsNext(b, Printed(rows) + rest, base, areas);
      PrintedJoins([b], rows);
      assert Printed([b] + rows) + rest == Printed([b]) + (Printed(rows) + rest);
    } else {
      assert [] + rows == rows;
    }
  }

  /** Reading the rows of an area appends its bytes, chunk by chunk, segment changes included. */
  lemma {:induction false} RowsRead(mode: Mode, row: nat, start: nat, data: Bytes, i: nat, written: nat, base: nat,
                                    areas: Areas, rest: seq<string>) returns (end: nat, at: nat)
    requires 0 < row < 0x100 && data != [] && start + |data| <= Limit(mode) && (mode.Bits8? ==> written == 0)
    requires Behind(areas, start) && Partial(areas, start, data, i)
    requires i < |data| && BaseValue(mode, start + i) == written ==> base == BaseAddress(mode, written)
    requires i >= |data| ==>
               i > 0 && exists x :: start <= x < start + |data| && base == BaseAddress(mode, BaseValue(mode, x))
    ensures AllWritable(Rows(mode, row, start, data, i, written))
    ensures ReadOn(Printed(Rows(mode, row, start, data, i, written)) + rest, base, areas)
            == ReadOn(rest, end, areas[start := data])
    ensures start <= at < start + |data| && end == BaseAddress(mode, BaseValue(mode, at))
    decreases |data| - i
  {
    hide BaseValue, BaseAddress, BaseRecord, ReadRecord, ReadOn, Limit, Rows, Printed, AllWritable, Behind, Partial;
    RowsWritable(mode, row, start, data, i, written);
    if i >= |data| {
      NoMoreRows(areas, start, data, i, rest);
      at :| start <= at < start + |data| && base == BaseAddress(mode, BaseValue(mode, at));
      end := base;
      assert Rows(mode, row, start, data, i, written) == [] by {
        NoRows(mode, row, start, data, i, written);
      }
    } else {
      var value := BaseValue(mode, start + i);
      var row0 := Record(DATA, (start + i) % 0x1_0000, data[i..Min(i + row, |data|)]);
      var after := areas[start := data[..Min(i + row, |data|)]];
      RowAddress(mode, start + i);
      NoBase(mode, start + i);
      RowInserts(areas, start, data, i, row);
      RowsWritable(mode, row, start, data, i + row, value);
      var later := Rows(mode, row, start, data, i + row, value);
      end, at := RowsRead(mode, row, start, data, i + row, value, BaseAddress(mode, value), after, rest);
      RowReads(mode, row0, value, written, later, base, areas, after, rest);
      RowsStep(mode, row, start, data, i, written);
      assert after[start := data] == areas[start := data];
    }
  }

  // ----- all areas

  /** The areas with the given start addresses. */
  function Only(areas: Areas, starts: seq<nat>): Areas
  {
    map s | s in starts && s in areas :: areas[s]
  }

  ghost predicate Lists(areas: Areas, starts: seq<nat>)
  {
    Sorted(starts) && forall s :: s in starts <==> s in areas
  }

  lemma BaseGrows(mode: Mode, x: nat, y: nat)
    requires x <= y && y < Limit(mode)
    ensures BaseValue(mode, x) <= BaseValue(mode, y)
    ensures BaseValue(mode, y) == 0 ==> BaseAddress(mode, BaseValue(mode, x)) == 0 == BaseAddress(mode, 0)
  {
  }

  lemma {:induction false} AreaRecordsWritable(mode: Mode, row: nat, areas: Areas, starts: seq<nat>)
    requires 0 < row < 0x100 && forall s | s in starts :: s in areas
    ensures AllWritable(AreaRecords(mode, row, areas, starts))
  {
    if starts != [] {
      var n := |starts| - 1;
      AreaRecordsWritable(mode, row, areas, starts[..n]);
      RowsWritable(mode, row, starts[n], areas[starts[n]], 0, 0);
    }
  }

  /** Reading the printed areas in order of address rebuilds them one after the other. The reader's
      base left by one area never disturbs the next, because addresses only grow. */
  lemma {:induction false} AreasRead(mode: Mode, row: nat, areas: Areas, starts: seq<nat>, rest: seq<string>)
    returns (end: nat, at: nat)
    requires 0 < row < 0x100 && Separated(mode, areas)
    requires Sorted(starts) && forall s | s in starts :: s in areas
    ensures AllWritable(AreaRecords(mode, row, areas, starts))
    ensures ReadOn(Printed(AreaRecords(mode, row, areas, starts)) + rest, 0, map[])
            == ReadOn(rest, end, Only(areas, starts))
    ensures end == BaseAddress(mode, BaseValue(mode, at))
    ensures starts == [] ==> at == 0
    ensures starts != [] ==> var last := starts[|starts| - 1]; at < last + |areas[last]|
  {
    hide ReadOn, Rows, BaseValue, BaseAddress, Printed, Limit, Separated, Sorted, Behind, Only, AreaRecords;
    AreaRecordsWritable(mode, row, areas, starts);
    if starts == [] {
      at := 0;
      ZeroBase(mode);
      end := 0;
      NoAreas(mode, row, areas, rest);
    } else {
      var n := |starts| - 1;
      var s := starts[n];
      var before, rows := AreaRecords(mode, row, areas, starts[..n]), Rows(mode, row, s, areas[s], 0, 0);
      RowsWritable(mode, row, s, areas[s], 0, 0);
      AreaRecordsWritable(mode, row, areas, starts[..n]);
      SortedPrefix(starts);
      var base, x := AreasRead(mode, row, areas, starts[..n], Printed(rows) + rest);
      LastArea(mode, row, areas, starts, rest);
      EarlierEnds(mode, areas, starts, x);
      StartInRange(mode, areas, s);
      BaseGrows(mode, x, s);
      end, at := RowsRead(mode, row, s, areas[s], 0, 0, base, Only(areas, starts[..n]), rest);
    }
  }

  lemma SortedPrefix(starts: seq<nat>)
    requires Sorted(starts) && starts != []
    ensures Sorted(starts[..|starts| - 1])
  {
  }

  lemma NoAreas(mode: Mode, row: nat, areas: Areas, rest: seq<string>)
    requires row > 0
    ensures AllWritable(AreaRecords(mode, row, areas, []))
    ensures Printed(AreaRecords(mode, row, areas, [])) + rest == rest && Only(areas, []) == map[]
  {
    assert Only(areas, []) == map[];
  }

  /** The records of the last area come after those of the others. */
  lemma LastArea(mode: Mode, row: nat, areas: Areas, starts: seq<nat>, rest: seq<string>)
    requires 0 < row < 0x100 && starts != [] && forall s | s in starts :: s in areas
    ensures var n := |starts| - 1;
            var before := AreaRecords(mode, row, areas, starts[..n]);
            var rows := Rows(mode, row, starts[n], areas[starts[n]], 0, 0);
            && AllWritable(AreaRecords(mode, row, areas, starts)) && AllWritable(before) && AllWritable(rows)
            && Printed(AreaRecords(mode, row, areas, starts)) + rest == Printed(before) + (Printed(rows) + rest)
            && Only(areas, starts) == Only(areas, starts[..n])[starts[n] := areas[starts[n]]]
  {
    hide Rows;
    var n := |starts| - 1;
    AreaRecordsWritable(mode, row, areas, starts);
    AreaRecordsWritable(mode, row, areas, starts[..n]);
    RowsWritable(mode, row, starts[n], areas[starts[n]], 0, 0);
    PrintedJoins(AreaRecords(mode, row, areas, starts[..n]), Rows(mode, row, starts[n], areas[starts[n]], 0, 0));
    assert Only(areas, starts) == Only(areas, starts[..n])[starts[n] := areas[starts[n]]];
  }

  lemma ZeroBase(mode: Mode)
    ensures BaseAddress(mode, BaseValue(mode, 0)) == 0
  {
  }

  lemma StartInRange(mode: Mode, areas: Areas, s: nat)
    requires Separated(mode, areas) && s in areas
    ensures areas[s] != [] && s < s + |areas[s]| <= Limit(mode)
  {
  }

  /** The areas listed before the last one end before it starts. */
  lemma EarlierEnds(mode: Mode, areas: Areas, starts: seq<nat>, x: nat)
    requires Separated(mode, areas) && Sorted(starts) && starts != [] && forall s | s in starts :: s in areas
    requires var n := |starts| - 1; if n == 0 then x == 0 else x < starts[n - 1] + |areas[starts[n - 1]]|
    ensures var n := |starts| - 1;
            x <= starts[n] && Behind(Only(areas, starts[..n]), starts[n]) && starts[n] !in Only(areas, starts[..n])
  {
    hide Limit;
    var n := |starts| - 1;
    forall t | t in Only(areas, starts[..n])
      ensures t + |areas[t]| < starts[n]
    {
      var j :| 0 <= j < n && starts[..n][j] == t;
      assert starts[j] < starts[n];
    }
    if n > 0 {
      assert starts[n - 1] in starts[..n];
      assert starts[n - 1] in Only(areas, starts[..n]);
    }
  }

  lemma StartReads(mode: Mode, start: Start, base: nat, areas: Areas)
    requires StartFits(mode, start)
    ensures AllWritable(StartRecords(mode, start) + [END])
    ensures ReadOn(Printed(StartRecords(mode, start) + [END]), base, areas)
            == if mode.Bits16? && start.SegmentStart? then Failed(TooShort) else Read(areas)
  {
    hide MakeLine, ReadLine, Insert;
    var rs := StartRecords(mode, start);
    EndReads(base, areas);
    if rs == [] {
      assert rs + [END] == [END];
    } else {
      PrintedJoins(rs, [END]);
      ReadsNext(rs[0], Printed([END]), base, areas);
      assert rs == [rs[0]];
    }
  }

  lemma EndReads(base: nat, areas: Areas)
    ensures ReadOn(Printed([END]), base, areas) == Read(areas)
  {
    hide MakeLine, ReadLine;
    ReadsNext(END, [], base, areas);
    assert Printed([END]) + [] == Printed([END]);
  }

  /** Round trip: for every row width, mode and set of separated areas in range, reading what is
      printed gives the same areas back, except that in 16-bit mode with a start address the reader
      fails on the start record. */
  lemma RoundTrip(mode: Mode, row: nat, areas: Areas, starts: seq<nat>, start: Start)
    requires 0 < row < 0x100 && Separated(mode, areas) && Lists(areas, starts) && StartFits(mode, start)
    ensures AllWritable(FileRecords(mode, row, areas, starts, start))
    ensures ReadOn(Lines(Render(FileRecords(mode, row, areas, starts, start))), 0, map[])
            == if mode.Bits16? && start.SegmentStart? then Failed(TooShort) else Read(areas)
  {
    hide ReadOn, Rows, BaseValue, BaseAddress, MakeLine, Limit, Lines, Render, StartRecords, AreaRecords;
    var rs, tail := AreaRecords(mode, row, areas, starts), StartRecords(mode, start) + [END];
    AreaRecordsWritable(mode, row, areas, starts);
    StartReads(mode, start, 0, areas);
    var end, at := AreasRead(mode, row, areas, starts, Printed(tail));
    StartReads(mode, start, end, areas);
    PrintedJoins(rs, tail);
    var all := FileRecords(mode, row, areas, starts, start);
    assert all == rs + tail;
    LinesOfRender(all);
    assert Lines(Render(all)) == Printed(all);
    assert Only(areas, starts) == areas;
  }

  /** The areas come back exactly when no start address is printed in 16-bit mode. */
  lemma RoundTripIff(mode: Mode, row: nat, areas: Areas, starts: seq<nat>, start: Start)
    requires 0 < row < 0x100 && Separated(mode, areas) && Lists(areas, starts) && StartFits(mode, start)
    ensures AllWritable(FileRecords(mode, row, areas, starts, start))
    ensures ReadOn(Lines(Render(FileRecords(mode, row, areas, starts, start))), 0, map[]) == Read(areas)
            <==> !(mode.Bits16? && start.SegmentStart?)
  {
    hide ReadOn, Lines, Render, FileRecords;
    RoundTrip(mode, row, areas, starts, start);
  }
}
