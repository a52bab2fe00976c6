/** The Intel HEX object: areas changed in place by reading, printed row by row by writing. */
module IHexFile {
  import opened Words
  import opened HexText
  import opened IHex
  import opened IHexMeta

  lemma {:induction false} RenderJoins(rs: seq<Record>, more: seq<Record>)
    requires AllWritable(rs) && AllWritable(more)
    ensures Render(rs + more) == Render(rs) + Render(more)
  {
    hide MakeLine;
    if rs == [] {
      assert rs + more == more;
    } else {
      assert (rs + more)[1..] == rs[1..] + more;
      RenderJoins(rs[1..], more);
    }
  }

  /** Every base record the file needs fits its two bytes. */
  predicate AreasFit(mode: Mode, row: nat, areas: Areas, starts: seq<nat>)
    requires row > 0 && forall s | s in starts :: s in areas
  {
    forall k | 0 <= k < |starts| :: RowsFit(mode, row, starts[k], |areas[starts[k]]|, 0)
  }

  /** The text of the file's records, `None` when a base or the start address does not fit its record. */
  ghost predicate Prints(mode: Mode, row: nat, areas: Areas, starts: seq<nat>, start: Start, text: Option<string>)
    requires row > 0 && Lists(areas, starts)
  {
    && (text.Some? <==> AreasFit(mode, row, areas, starts) && StartFits(mode, start))
    && (text.Some? ==> AllWritable(FileRecords(mode, row, areas, starts, start))
                       && text.value == Render(FileRecords(mode, row, areas, starts, start)))
  }

  lemma HasMember(s: seq<nat>)
    ensures s == [] || exists x :: x in s
  {
    if s != [] {
      assert s[0] in s;
    }
  }

  /** There is only one increasing list of the same numbers. */
  lemma {:induction false} SortedUnique(a: seq<nat>, b: seq<nat>)
    requires Sorted(a) && Sorted(b) && forall x :: x in a <==> x in b
    ensures a == b
  {
    if a == [] || b == [] {
      HasMember(a);
      HasMember(b);
    } else {
      var m, n := |a| - 1, |b| - 1;
      assert a[m] in b && b[n] in a;
      assert a[m] == b[n];
      forall x
        ensures x in a[..m] <==> x in b[..n]
      {
        assert x in a <==> x in b;
        assert x in a <==> x in a[..m] || x == a[m];
        assert x in b <==> x in b[..n] || x == b[n];
      }
      SortedUnique(a[..m], b[..n]);
      assert a == a[..m] + [a[m]] && b == b[..n] + [b[n]];
    }
  }

  lemma NothingLeft(rest: seq<string>, base: nat, areas: Areas)
    requires rest == []
    ensures CanRead(rest, base, areas, Read(areas))
  {
  }

  lemma StopsHere(rest: seq<string>, base: nat, areas: Areas, out: ReadResult)
    requires rest != [] && CanReadLine(rest[0], base, areas, Stopped(out))
    ensures CanRead(rest, base, areas, out)
  {
    hide CanReadLine;
  }

  lemma GoesOn(rest: seq<string>, base: nat, areas: Areas, after: Reading)
    requires rest != [] && after.Going? && CanReadLine(rest[0], base, areas, after)
    ensures forall out :: CanRead(rest[1..], after.base, after.areas, out) ==> CanRead(rest, base, areas, out)
  {
    hide CanReadLine;
  }

  class IHexFile {
    var areas: Areas
    var start: Start
    var mode: Mode
    var rowBytes: nat

    predicate Valid()
      reads this
    {
      0 < rowBytes < 0x100
    }

    constructor ()
      ensures Valid() && areas == map[] && start == NoStart && mode == Bits8 && rowBytes == 16
    {
      areas, start, mode, rowBytes := map[], NoStart, Bits8, 16;
    }

    /** Any area that contains the address or ends right before it, in whatever order the dictionary
        yields them. */
    method GetArea(addr: nat) returns (s: Option<nat>)
      ensures s.Some? ==> Touches(areas, s.value, addr)
      ensures s.None? ==> forall t :: !Touches(areas, t, addr)
    {
      var left := areas.Keys;
      while left != {}
        invariant left <= areas.Keys
        invariant forall t | t in areas && t !in left :: !Touches(areas, t, addr)
        decreases |left|
      {
        var k :| k in left;
        if k <= addr <= k + |areas[k]| {
          return Some(k);
        }
        left := left - {k};
      }
      return None;
    }

    /** The bytes are put at their address, extending the area they touch. */
    method InsertData(istart: nat, idata: Bytes)
      modifies `areas
      ensures Insert(old(areas), istart, idata).Read? ==> areas == Insert(old(areas), istart, idata).areas
      ensures Insert(old(areas), istart, idata).Read? || Insert(old(areas), istart, idata).OrderDependent?
      ensures CanInsert(old(areas), istart, idata, areas)
    {
      var area := GetArea(istart);
      if area.None? {
        areas := areas[istart := idata];
      } else {
        areas := areas[area.value := Spliced(areas[area.value], istart - area.value, idata)];
      }
    }

    /** `read`: the areas, or the exception, are a possible outcome of the reading specification, and
        the only one unless it depends on dictionary order. */
    static method ReadLines(lines: seq<string>) returns (file: IHexFile, error: Option<Error>)
      ensures fresh(file) && file.Valid()
      ensures var r := ReadOn(lines, 0, map[]);
              && (r.Read? ==> error == None && file.areas == r.areas)
              && (r.Failed? ==> error == Some(r.error))
      ensures CanRead(lines, 0, map[], if error.Some? then Failed(error.value) else Read(file.areas))
      ensures error == None ==> Meta(file.mode, file.start) == MetaOn(lines, FRESH)
    {
      hide Strip, ParseLine, Insert, CanRead, CanInsert, Quad;
      file := new IHexFile();
      error := None;
      ghost var r := ReadOn(lines, 0, map[]);
      var segbase: nat := 0;
      var n := 0;
      while n < |lines|
        invariant 0 <= n <= |lines| && fresh(file) && file.Valid()
        invariant MetaOn(lines, FRESH) == MetaOn(lines[n..], Meta(file.mode, file.start))
        invariant r.OrderDependent? || r == ReadOn(lines[n..], segbase, file.areas)
        invariant forall out :: CanRead(lines[n..], segbase, file.areas, out) ==> CanRead(lines, 0, map[], out)
      {
        ghost var base, areas, rest := segbase, file.areas, lines[n..];
        assert lines[n..][0] == lines[n] && lines[n..][1..] == lines[n + 1..];
        var text := Strip(lines[n]);
        n := n + 1;
        if text != "" {
          var parsed := ParseLine(text);
          if parsed.BadLine? {
            error := Some(parsed.error);
            StopsHere(rest, base, areas, Failed(parsed.error));
            return;
          }
          if parsed.record.kind == DATA {
            file.InsertData(segbase + parsed.record.addr, parsed.record.data);
            GoesOn(rest, base, areas, Going(segbase, file.areas));
          } else if parsed.record.kind == END_OF_FILE {
            StopsHere(rest, base, areas, Read(areas));
            return;
          } else {
            var next := NewBase(parsed.record, segbase);
            if next.None? {
              error := Some(if parsed.record.kind > START_LINEAR then BadType else TooShort);
              StopsHere(rest, base, areas, Failed(error.value));
              return;
            }
            segbase := next.value;
            file.SetFrom(parsed.record);
            GoesOn(rest, base, areas, Going(segbase, file.areas));
          }
        } else {
          GoesOn(rest, base, areas, Going(segbase, file.areas));
        }
      }
      NothingLeft(lines[n..], segbase, file.areas);
    }

    /** Mode and start address as the record implies them. */
    method SetFrom(r: Record)
      requires r.kind == START_LINEAR ==> |r.data| >= 4
      modifies `mode, `start
      ensures r.kind != DATA && r.kind != END_OF_FILE && NewBase(r, 0).Some? ==>
                MetaRecord(r, Meta(old(mode), old(start))) == On(Meta(mode, start))
    {
      mode := if r.kind == EXT_SEGMENT then Bits16 else Bits32;
      if r.kind == START_LINEAR {
        start := LinearStart(Quad(r.data));
      }
    }

    /** The start addresses of all areas in increasing order. */
    method SortedStarts() returns (starts: seq<nat>)
      ensures Lists(areas, starts)
    {
      starts := [];
      var left := areas.Keys;
      while left != {}
        invariant left <= areas.Keys && Sorted(starts)
        invariant forall s :: s in areas <==> s in left || s in starts
        invariant forall s, t | s in starts && t in left :: s < t
        decreases |left|
      {
        var least := Least(left);
        SortedAppend(starts, least);
        starts := starts + [least];
        left := left - {least};
      }
    }

    static method Least(s: set<nat>) returns (least: nat)
      requires s != {}
      ensures least in s && forall t | t in s :: least <= t
    {
      least :| least in s;
      var left := s - {least};
      while left != {}
        invariant left <= s && least in s
        invariant forall t | t in s && t !in left :: least <= t
        decreases |left|
      {
        var t :| t in left;
        if t < least {
          least := t;
        }
        left := left - {t};
      }
    }

    /** `write`: the printed text of the file's records, or a failure when a base or the start
        address does not fit its record. */
    method Write() returns (text: Option<string>)
      requires Valid()
      ensures exists starts :: Lists(areas, starts)
      ensures forall starts | Lists(areas, starts) :: Prints(mode, rowBytes, areas, starts, start, text)
    {
      hide MakeLine, Render, Rows, RowsFit, Writable;
      var order := SortedStarts();
      assert Lists(areas, order);
      forall starts | Lists(areas, starts)
        ensures starts == order
      {
        SortedUnique(starts, order);
      }
      var output := "";
      EmptyRender(mode, rowBytes, areas);
      assert order[..0] == [];
      for k := 0 to |order|
        invariant AllWritable(AreaRecords(mode, rowBytes, areas, order[..k]))
        invariant output == Render(AreaRecords(mode, rowBytes, areas, order[..k]))
        invariant forall j | 0 <= j < k :: RowsFit(mode, rowBytes, order[j], |areas[order[j]]|, 0)
      {
        var rows := WriteArea(order[k]);
        if rows.None? {
          return None;
        }
        assert order[..k + 1][..k] == order[..k];
        RowsWritable(mode, rowBytes, order[k], areas[order[k]], 0, 0);
        JoinArea(mode, rowBytes, areas, order, k);
        output := output + rows.value;
      }
      assert order[..|order|] == order;
      if !StartFits(mode, start) {
        return None;
      }
      FileJoins(mode, rowBytes, areas, order, start);
      var tail := "";
      if start.SegmentStart? && mode.Bits16? {
        tail := MakeLine(Record(START_SEGMENT, 0, Word16(start.cs) + Word16(start.ip)));
      } else if start.LinearStart? && mode.Bits32? {
        tail := MakeLine(Record(START_LINEAR, 0, Word16(start.eip / 0x1_0000) + Word16(start.eip)));
      }
      text := Some(output + (tail + MakeLine(END)));
    }

    /** The rows of one area. */
    method WriteArea(at: nat) returns (text: Option<string>)
      requires Valid() && at in areas
      ensures text.Some? <==> RowsFit(mode, rowBytes, at, |areas[at]|, 0)
      ensures text.Some? ==> AllWritable(Rows(mode, rowBytes, at, areas[at], 0, 0))
                             && text.value == Render(Rows(mode, rowBytes, at, areas[at], 0, 0))
    {
      hide MakeLine, BaseValue, BaseRecord, Render, Rows, Writable;
      var data := areas[at];
      var output := "";
      var i, segbase: nat := 0, 0;
      ghost var done: seq<Record> := [];
      ghost var all := Rows(mode, rowBytes, at, data, 0, 0);
      NothingRendered();
      while i < |data|
        invariant AllWritable(done) && output == Render(done)
        invariant done + Rows(mode, rowBytes, at, data, i, segbase) == all
        invariant RowsFit(mode, rowBytes, at, |data|, 0) <==> RowsFit(mode, rowBytes, at, |data|, i)
      {
        var value := BaseValue(mode, at + i);
        if value >= 0x1_0000 {
          return None;
        }
        var piece := "";
        if value != segbase {
          BaseWritable(mode, value);
          piece := MakeLine(BaseRecord(mode, value));
        }
        var row := Record(DATA, (at + i) % 0x1_0000, data[i..Min(i + rowBytes, |data|)]);
        RowWritable(row, i, rowBytes, data);
        piece := piece + MakeLine(row);
        RowsStep(mode, rowBytes, at, data, i, segbase);
        ghost var pre := if value != segbase then [BaseRecord(mode, value)] else [];
        PieceRenders(done, pre, row);
        JoinRows(done, pre, [row], Rows(mode, rowBytes, at, data, i + rowBytes, value));
        output := output + piece;
        done := done + pre + [row];
        segbase := value;
        i := i + rowBytes;
      }
      NoRows(mode, rowBytes, at, data, i, segbase);
      assert done == all;
      text := Some(output);
    }
  }

  lemma NothingRendered()
    ensures Render([]) == ""
  {
  }

  lemma BaseWritable(mode: Mode, value: nat)
    ensures Writable(BaseRecord(mode, value))
  {
  }

  lemma RowWritable(row: Record, i: nat, width: nat, data: Bytes)
    requires i < |data| && 0 < width < 0x100
    requires row.addr < 0x1_0000 && row.data == data[i..Min(i + width, |data|)]
    ensures Writable(row)
  {
  }

  /** One row with the base record before it, if any. */
  lemma PieceRenders(done: seq<Record>, pre: seq<Record>, row: Record)
    requires AllWritable(done) && AllWritable(pre) && Writable(row) && |pre| <= 1
    ensures AllWritable(done + pre + [row])
    ensures Render(done + pre + [row])
            == Render(done) + ((if pre == [] then "" else MakeLine(pre[0])) + MakeLine(row))
  {
    hide MakeLine, Writable;
    if pre == [] {
      assert done + pre == done;
    } else {
      assert pre == [pre[0]];
      RenderOne(done, pre[0]);
    }
    RenderOne(done + pre, row);
  }

  lemma SortedAppend(starts: seq<nat>, last: nat)
    requires Sorted(starts) && forall s | s in starts :: s < last
    ensures Sorted(starts + [last])
  {
    forall j, k | 0 <= j < k < |starts| + 1
      ensures (starts + [last])[j] < (starts + [last])[k]
    {
      if k == |starts| {
        assert starts[j] in starts;
      }
    }
  }

  lemma JoinRows(before: seq<Record>, a: seq<Record>, b: seq<Record>, later: seq<Record>)
    ensures before + (a + (b + later)) == before + a + b + later
  {
  }

  lemma RenderOne(rs: seq<Record>, r: Record)
    requires AllWritable(rs) && Writable(r)
    ensures AllWritable(rs + [r]) && Render(rs + [r]) == Render(rs) + MakeLine(r)
  {
    hide MakeLine;
    RenderJoins(rs, [r]);
    assert Render([r]) == MakeLine(r) + Render([]);
  }

  lemma EmptyRender(mode: Mode, row: nat, areas: Areas)
    requires row > 0
    ensures AllWritable(AreaRecords(mode, row, areas, [])) && Render(AreaRecords(mode, row, areas, [])) == ""
  {
  }

  lemma JoinArea(mode: Mode, row: nat, areas: Areas, order: seq<nat>, k: nat)
    requires row > 0 && k < |order| && forall s | s in order :: s in areas
    requires AllWritable(AreaRecords(mode, row, areas, order[..k]))
    requires AllWritable(Rows(mode, row, order[k], areas[order[k]], 0, 0))
    ensures AllWritable(AreaRecords(mode, row, areas, order[..k + 1]))
    ensures Render(AreaRecords(mode, row, areas, order[..k + 1]))
            == Render(AreaRecords(mode, row, areas, order[..k]))
               + Render(Rows(mode, row, order[k], areas[order[k]], 0, 0))
  {
    hide Render, Rows;
    assert order[..k + 1][..k] == order[..k];
    RenderJoins(AreaRecords(mode, row, areas, order[..k]), Rows(mode, row, order[k], areas[order[k]], 0, 0));
  }

  lemma FileJoins(mode: Mode, row: nat, areas: Areas, order: seq<nat>, start: Start)
    requires row > 0 && StartFits(mode, start) && forall s | s in order :: s in areas
    requires AllWritable(AreaRecords(mode, row, areas, order))
    ensures AllWritable(FileRecords(mode, row, areas, order, start))
    ensures Render(FileRecords(mode, row, areas, order, start))
            == Render(AreaRecords(mode, row, areas, order))
               + ((if StartRecords(mode, start) == [] then "" else MakeLine(StartRecords(mode, start)[0]))
                  + MakeLine(END))
  {
    hide MakeLine;
    var a, b := AreaRecords(mode, row, areas, order), StartRecords(mode, start);
    RenderJoins(a, b + [END]);
    assert a + (b + [END]) == a + b + [END];
    RenderOne(b, END);
    if b != [] {
      assert Render(b) == MakeLine(b[0]) + Render(b[1..]);
    }
  }

  /** Writing a file and reading the text back gives the same areas, exactly when the file has no
      16-bit start address. A 32-bit start address comes back, and the mode does when the text shows it. */
  method Reread(f: IHexFile) returns (g: IHexFile, error: Option<Error>)
    requires f.Valid() && Separated(f.mode, f.areas) && StartFits(f.mode, f.start)
    ensures error == None ==> g.areas == f.areas
    ensures error == None <==> !(f.mode.Bits16? && f.start.SegmentStart?)
    ensures error == None ==> g.start == if f.mode.Bits32? then f.start else NoStart
    ensures error == None ==>
              g.mode == if NeedsBase(f.mode, f.rowBytes, f.areas) || (f.mode.Bits32? && f.start.LinearStart?)
                        then f.mode else Bits8
  {
    hide ReadOn, Render, Lines, FileRecords, Separated, MetaOn, NeedsBase;
    var text := f.Write();
    ghost var starts :| Lists(f.areas, starts);
    InRangeFits(f.mode, f.rowBytes, f.areas, starts);
    RoundTrip(f.mode, f.rowBytes, f.areas, starts, f.start);
    if !(f.mode.Bits16? && f.start.SegmentStart?) {
      MetaRoundTrip(f.mode, f.rowBytes, f.areas, starts, f.start);
    }
    g, error := IHexFile.ReadLines(Lines(text.value));
  }

  lemma InRangeFits(mode: Mode, row: nat, areas: Areas, starts: seq<nat>)
    requires row > 0 && Separated(mode, areas) && Lists(areas, starts)
    ensures AreasFit(mode, row, areas, starts)
  {
    forall k | 0 <= k < |starts|
      ensures RowsFit(mode, row, starts[k], |areas[starts[k]]|, 0)
    {
      assert starts[k] in starts;
      SmallBases(mode, row, starts[k], |areas[starts[k]]|, 0);
    }
  }

  lemma {:induction false} SmallBases(mode: Mode, row: nat, start: nat, length: nat, i: nat)
    requires row > 0 && start + length <= Limit(mode)
    ensures RowsFit(mode, row, start, length, i)
    decreases length - i
  {
    if i < length {
      RowAddress(mode, start + i);
      SmallBases(mode, row, start, length, i + row);
    }
  }
}
