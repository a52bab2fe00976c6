/** The mode and the start address that reading a file leaves behind. */
module IHexMeta {
  import opened Words
  import opened HexText
  import opened IHex
  import Digits

  datatype Meta = Meta(mode: Mode, start: Start)

  /** Before the first line. */
  const FRESH := Meta(Bits8, NoStart)

  /** The reader between two lines, or finished. */
  datatype MetaStep = On(meta: Meta) | Done(meta: Meta)

  /** The big-endian number in the first four bytes. */
  function Quad(d: Bytes): nat
    requires |d| >= 4
  {
    ((d[0] as int * 0x100 + d[1] as int) * 0x100 + d[2] as int) * 0x100 + d[3] as int
  }

  /** A base record names its mode, a linear start record its mode and the address. */
  function MetaRecord(r: Record, m: Meta): MetaStep
  {
    if r.kind == DATA then On(m)
    else if r.kind == END_OF_FILE || NewBase(r, 0).None? then Done(m)
    else On(Meta(if r.kind == EXT_SEGMENT then Bits16 else Bits32,
                 if r.kind == START_LINEAR then LinearStart(Quad(r.data)) else m.start))
  }

  function MetaLine(line: string, m: Meta): MetaStep
  {
    var text := Strip(line);
    if text == "" then On(m)
    else
      var parsed := ParseLine(text);
      if parsed.BadLine? then Done(m) else MetaRecord(parsed.record, m)
  }

  function MetaOn(lines: seq<string>, m: Meta): Meta
    decreases |lines|
  {
    if lines == [] then m
    else
      var step := MetaLine(lines[0], m);
      if step.Done? then step.meta else MetaOn(lines[1..], step.meta)
  }

  // ----- what a printed file leaves

  /** A record that rows are printed with. */
  predicate RowRecord(mode: Mode, r: Record)
  {
    r.kind == DATA || (!mode.Bits8? && |r.data| >= 2 && r.kind == if mode.Bits16? then EXT_SEGMENT else EXT_LINEAR)
  }

  predicate HasBase(rs: seq<Record>) { exists r | r in rs :: r.kind != DATA }

  lemma MetaPrinted(r: Record, rest: seq<string>, m: Meta)
    requires Writable(r)
    ensures var step := MetaRecord(r, m);
            MetaOn(Printed([r]) + rest, m) == if step.Done? then step.meta else MetaOn(rest, step.meta)
  {
    hide MakeLine, Strip, ParseLine, MetaRecord;
    LineRoundTrip(r);
    assert (Printed([r]) + rest)[0] == MakeLine(r);
    assert (Printed([r]) + rest)[1..] == rest;
  }

  lemma {:induction false} MetaOverRows(mode: Mode, rs: seq<Record>, rest: seq<string>, m: Meta)
    requires AllWritable(rs) && forall r | r in rs :: RowRecord(mode, r)
    ensures MetaOn(Printed(rs) + rest, m) == MetaOn(rest, if HasBase(rs) then m.(mode := mode) else m)
    decreases |rs|
  {
    hide MakeLine, MetaOn;
    if rs == [] {
      assert Printed(rs) + rest == rest;
    } else {
      var first, more := rs[0], rs[1..];
      assert rs == [first] + more;
      PrintedJoins([first], more);
      assert Printed(rs) + rest == Printed([first]) + (Printed(more) + rest);
      MetaPrinted(first, Printed(more) + rest, m);
      MetaOverRows(mode, more, rest, if first.kind == DATA then m else m.(mode := mode));
      assert HasBase(rs) <==> first.kind != DATA || HasBase(more);
    }
  }

  lemma {:induction false} RowsAreRows(mode: Mode, row: nat, start: nat, data: Bytes, i: nat, base: nat)
    requires row > 0 && (mode.Bits8? ==> base == 0)
    ensures forall r | r in Rows(mode, row, start, data, i, base) :: RowRecord(mode, r)
    decreases |data| - i
  {
    if i < |data| {
      RowsAreRows(mode, row, start, data, i + row, BaseValue(mode, start + i));
    }
  }

  /** Some row from offset `i` on lies in a segment other than `base`. */
  predicate LeavesSegment(mode: Mode, row: nat, start: nat, length: nat, i: nat, base: nat)
    requires row > 0
    decreases length - i
  {
    i < length && (BaseValue(mode, start + i) != base || LeavesSegment(mode, row, start, length, i + row, base))
  }

  lemma {:induction false} RowsHaveBase(mode: Mode, row: nat, start: nat, data: Bytes, i: nat, base: nat)
    requires row > 0
    ensures HasBase(Rows(mode, row, start, data, i, base)) <==> LeavesSegment(mode, row, start, |data|, i, base)
    decreases |data| - i
  {
    hide BaseValue;
    if i < |data| {
      var value := BaseValue(mode, start + i);
      var later := Rows(mode, row, start, data, i + row, value);
      var row0 := Record(DATA, (start + i) % 0x1_0000, data[i..Min(i + row, |data|)]);
      RowsStep(mode, row, start, data, i, base);
      var rs := Rows(mode, row, start, data, i, base);
      if value != base {
        assert rs[0] == BaseRecord(mode, value) && rs[0] in rs;
      } else {
        RowsHaveBase(mode, row, start, data, i + row, base);
        assert rs == [row0] + later;
        assert forall r | r in later :: r in rs;
      }
    }
  }

  /** In a wider mode, some row starts at or beyond 64K. */
  predicate PastFirstSegment(mode: Mode, row: nat, start: nat, length: nat)
    requires row > 0
  {
    !mode.Bits8? && exists j | 0 <= j < length :: j % row == 0 && start + j >= 0x1_0000
  }

  lemma {:induction false} LeavesIsPast(mode: Mode, row: nat, start: nat, length: nat, i: nat)
    requires row > 0 && i % row == 0
    ensures LeavesSegment(mode, row, start, length, i, 0)
            <==> !mode.Bits8? && exists j | i <= j < length :: j % row == 0 && start + j >= 0x1_0000
    decreases length - i
  {
    if i < length {
      NextMultiple(i, row);
      LeavesIsPast(mode, row, start, length, i + row);
      assert BaseValue(mode, start + i) != 0 <==> !mode.Bits8? && start + i >= 0x1_0000;
      if j :| i <= j < length && j % row == 0 && start + j >= 0x1_0000 && start + i < 0x1_0000 {
        NoMultipleBetween(i, j, row);
      }
    }
  }

  lemma NextMultiple(i: nat, row: nat)
    requires row > 0 && i % row == 0
    ensures (i + row) % row == 0
  {
    Digits.QuotientUnique(i + row, row, i / row + 1, 0);
  }

  lemma NoMultipleBetween(i: nat, j: nat, row: nat)
    requires row > 0 && i % row == 0 && j % row == 0 && i < j
    ensures j >= i + row
  {
    assert i == i / row * row && j == j / row * row;
    assert j / row > i / row;
    assert j / row * row >= (i / row + 1) * row;
  }

  predicate NeedsBase(mode: Mode, row: nat, areas: Areas)
    requires row > 0
  {
    exists s | s in areas :: PastFirstSegment(mode, row, s, |areas[s]|)
  }

  lemma {:induction false} AreasAreRows(mode: Mode, row: nat, areas: Areas, starts: seq<nat>)
    requires row > 0 && forall s | s in starts :: s in areas
    ensures forall r | r in AreaRecords(mode, row, areas, starts) :: RowRecord(mode, r)
    ensures HasBase(AreaRecords(mode, row, areas, starts))
            <==> exists s | s in starts :: PastFirstSegment(mode, row, s, |areas[s]|)
  {
    hide Rows, PastFirstSegment, RowRecord;
    if starts != [] {
      var n := |starts| - 1;
      var s, before := starts[n], starts[..n];
      AreasAreRows(mode, row, areas, before);
      RowsAreRows(mode, row, s, areas[s], 0, 0);
      RowsHaveBase(mode, row, s, areas[s], 0, 0);
      LeavesIsPast(mode, row, s, |areas[s]|, 0);
      PastShown(mode, row, s, |areas[s]|);
      assert starts == before + [s];
    }
  }

  lemma PastShown(mode: Mode, row: nat, start: nat, length: nat)
    requires row > 0
    ensures PastFirstSegment(mode, row, start, length)
            <==> !mode.Bits8? && exists j | 0 <= j < length :: j % row == 0 && start + j >= 0x1_0000
  {
  }

  lemma StartMeta(mode: Mode, start: Start, m: Meta)
    requires StartFits(mode, start) && !(mode.Bits16? && start.SegmentStart?)
    ensures AllWritable(StartRecords(mode, start) + [END])
    ensures MetaOn(Printed(StartRecords(mode, start) + [END]), m)
            == if mode.Bits32? && start.LinearStart? then Meta(Bits32, start) else m
  {
    hide MetaOn, MakeLine;
    var rs := StartRecords(mode, start);
    if rs == [] {
      assert rs + [END] == [END];
      assert Printed([END]) + [] == Printed([END]);
      MetaPrinted(END, [], m);
    } else {
      PrintedJoins(rs, [END]);
      assert rs == [rs[0]];
      MetaPrinted(rs[0], Printed([END]), m);
      QuadOfWords(start.eip);
      assert Printed([END]) + [] == Printed([END]);
      MetaPrinted(END, [], Meta(Bits32, start));
    }
  }

  lemma QuadOfWords(v: nat)
    requires v < 0x1_0000_0000
    ensures Quad(Word16(v / 0x1_0000) + Word16(v)) == v
  {
    var high := v / 0x1_0000;
    TwoBytes(high);
    LowBytes(v, high);
  }

  lemma TwoBytes(v: nat)
    requires v < 0x1_0000
    ensures v / 0x100 % 0x100 * 0x100 + v % 0x100 == v
  {
  }

  lemma LowBytes(v: nat, high: nat)
    requires high == v / 0x1_0000
    ensures high * 0x1_0000 + (v / 0x100 % 0x100 * 0x100 + v % 0x100) == v
  {
    assert v / 0x100 / 0x100 == high;
  }

  /** What reading a printed file gives: the start address of a 32-bit file, and its mode when some row
      lies beyond the first 64K or a start address was printed; otherwise 8-bit mode and no address. */
  lemma MetaRoundTrip(mode: Mode, row: nat, areas: Areas, starts: seq<nat>, start: Start)
    requires 0 < row < 0x100 && Lists(areas, starts) && StartFits(mode, start)
    requires !(mode.Bits16? && start.SegmentStart?)
    ensures AllWritable(FileRecords(mode, row, areas, starts, start))
    ensures MetaOn(Lines(Render(FileRecords(mode, row, areas, starts, start))), FRESH)
            == Meta(if NeedsBase(mode, row, areas) || (mode.Bits32? && start.LinearStart?) then mode else Bits8,
                    if mode.Bits32? then start else NoStart)
  {
    hide MetaOn, MakeLine, Lines, Render, AreaRecords, StartRecords, PastFirstSegment;
    var rs, tail := AreaRecords(mode, row, areas, starts), StartRecords(mode, start) + [END];
    AreaRecordsWritable(mode, row, areas, starts);
    AreasAreRows(mode, row, areas, starts);
    var m := if HasBase(rs) then FRESH.(mode := mode) else FRESH;
    StartMeta(mode, start, m);
    MetaOverRows(mode, rs, Printed(tail), FRESH);
    PrintedJoins(rs, tail);
    var all := FileRecords(mode, row, areas, starts, start);
    assert all == rs + tail;
    LinesOfRender(all);
    assert Lines(Render(all)) == Printed(all);
  }
}
