/** Intel HEX text by its characters: which lines are accepted and what they hold, what is printed, and
    byte by byte what an insertion leaves. */
module HexLaws {
  import opened Words
  import opened HexText
  import opened IHex

  // ----- characters and bytes

  /** The character is the digit of value `v`, in either case. */
  predicate IsHex(c: char, v: int)
  {
    0 <= v < 16 && (c == "0123456789abcdef"[v] || c == "0123456789ABCDEF"[v])
  }

  /** The line is a colon and then the bytes, two digits each, the higher one first. */
  predicate Spells(line: string, bytes: Bytes)
  {
    && |line| == 1 + 2 * |bytes| && line[0] == ':'
    && forall k | 0 <= k < |bytes| :: SpellsByte(line, k, bytes[k])
  }

  predicate SpellsByte(line: string, k: nat, b: Byte)
    requires 2 * k + 2 < |line|
  {
    IsHex(line[1 + 2 * k], b / 16) && IsHex(line[2 + 2 * k], b % 16)
  }

  /** The sum of the first `n` bytes. */
  function Total(bytes: Bytes, n: nat): nat
    requires n <= |bytes|
  {
    if n == 0 then 0 else Total(bytes, n - 1) + bytes[n - 1]
  }

  /** The bytes make a whole line: as many as the first one asks for, with five more, summing to zero
      modulo 256 up to there. */
  predicate Whole(bytes: Bytes)
  {
    |bytes| >= 1 && |bytes| >= bytes[0] as int + 5 && Total(bytes, bytes[0] as int + 5) % 0x100 == 0
  }

  lemma DigitIsHex(c: char)
    ensures DigitValue(c).Some? ==> DigitValue(c).value < 16 && IsHex(c, DigitValue(c).value)
    ensures forall v | IsHex(c, v) :: DigitValue(c) == Some(v)
  {
  }

  lemma {:induction false} FromHexSpells(t: string)
    ensures FromHex(t).Some? ==> Spells(":" + t, FromHex(t).value)
  {
    hide DigitValue, IsHex;
    if |t| >= 2 {
      FromHexSpells(t[2..]);
      DigitIsHex(t[0]);
      DigitIsHex(t[1]);
      if FromHex(t).Some? {
        var bytes, more := FromHex(t).value, FromHex(t[2..]).value;
        forall k | 0 <= k < |bytes|
          ensures SpellsByte(":" + t, k, bytes[k])
        {
          if k > 0 {
            assert SpellsByte(":" + t[2..], k - 1, more[k - 1]);
            assert (":" + t)[1 + 2 * k] == (":" + t[2..])[1 + 2 * (k - 1)];
            assert (":" + t)[2 + 2 * k] == (":" + t[2..])[2 + 2 * (k - 1)];
          }
        }
      }
    }
  }

  lemma {:induction false} SpellsFromHex(t: string, bytes: Bytes)
    requires Spells(":" + t, bytes)
    ensures FromHex(t) == Some(bytes)
    decreases |t|
  {
    hide DigitValue, IsHex;
    if bytes != [] {
      var more := bytes[1..];
      assert SpellsByte(":" + t, 0, bytes[0]);
      DigitIsHex(t[0]);
      DigitIsHex(t[1]);
      forall k | 0 <= k < |more|
        ensures SpellsByte(":" + t[2..], k, more[k])
      {
        assert SpellsByte(":" + t, k + 1, bytes[k + 1]);
        assert (":" + t)[1 + 2 * (k + 1)] == (":" + t[2..])[1 + 2 * k];
        assert (":" + t)[2 + 2 * (k + 1)] == (":" + t[2..])[2 + 2 * k];
      }
      SpellsFromHex(t[2..], more);
      assert [bytes[0]] + more == bytes;
    }
  }

  lemma {:induction false} TotalIsSum(bytes: Bytes, n: nat)
    requires n <= |bytes|
    ensures Total(bytes, n) == ByteSum(bytes[..n])
  {
    if n > 0 {
      TotalIsSum(bytes, n - 1);
      ByteSumJoins(bytes[..n - 1], [bytes[n - 1]]);
      assert bytes[..n] == bytes[..n - 1] + [bytes[n - 1]];
      assert ByteSum([bytes[n - 1]]) == bytes[n - 1] + ByteSum([]);
    }
  }

  /** The checksum byte is right exactly when everything up to it sums to zero. */
  lemma ChecksumRight(bytes: Bytes, end: nat)
    requires end < |bytes|
    ensures bytes[end] == Checksum(bytes[..end]) <==> Total(bytes, end + 1) % 0x100 == 0
  {
    hide Total, ByteSum;
    TotalIsSum(bytes, end);
    TotalNext(bytes, end);
    ModularNegation(ByteSum(bytes[..end]), bytes[end]);
  }

  lemma TotalNext(bytes: Bytes, n: nat)
    requires n < |bytes|
    ensures Total(bytes, n + 1) == Total(bytes, n) + bytes[n]
  {
  }

  lemma ModularNegation(sum: nat, c: Byte)
    ensures c == (-(sum as int)) % 0x100 <==> (sum + c) % 0x100 == 0
  {
    var q, r := sum / 0x100, sum % 0x100;
    assert (-(sum as int)) % 0x100 == if r == 0 then 0 else 0x100 - r;
    assert (sum + c) % 0x100 == (r + c) % 0x100;
  }

  /** A line of known bytes is accepted exactly when they make a whole line; then kind, address and data
      are those bytes by position, the high address byte first. */
  lemma SpelledParses(line: string, bytes: Bytes)
    requires Spells(line, bytes)
    ensures ParseLine(line).Line? <==> Whole(bytes)
    ensures Whole(bytes) ==>
              ParseLine(line)
              == Line(Record(bytes[3], bytes[1] as int * 0x100 + bytes[2] as int, bytes[4..bytes[0] as int + 4]))
    ensures !Whole(bytes) && |bytes| >= 1 && |bytes| >= bytes[0] as int + 5 ==> ParseLine(line) == BadLine(BadChecksum)
  {
    hide FromHex, Checksum, ByteSum, SpellsByte, Total;
    var t := line[1..];
    assert line == ":" + t;
    SpellsFromHex(t, bytes);
    if |bytes| >= 1 && |bytes| >= bytes[0] as int + 5 {
      ChecksumRight(bytes, bytes[0] as int + 4);
    } else {
      assert !Whole(bytes);
    }
  }

  /** A line is accepted if and only if it is a colon and pairs of hexadecimal digits, in either case, whose
      bytes make a whole line. */
  lemma AcceptedExactly(line: string)
    requires line != ""
    ensures ParseLine(line).Line? <==> exists bytes :: Spells(line, bytes) && Whole(bytes)
  {
    hide FromHex, Whole, Checksum;
    if ParseLine(line).Line? {
      var t := line[1..];
      assert line == ":" + t;
      FromHexSpells(t);
      SpelledParses(line, FromHex(t).value);
    } else if bytes :| Spells(line, bytes) {
      SpelledParses(line, bytes);
      forall other | Spells(line, other)
        ensures other == bytes
      {
        SpelledOnce(line, bytes, other);
      }
    }
  }

  lemma SpelledOnce(line: string, bytes: Bytes, other: Bytes)
    requires Spells(line, bytes) && Spells(line, other)
    ensures bytes == other
  {
    hide FromHex;
    var t := line[1..];
    assert line == ":" + t;
    SpellsFromHex(t, bytes);
    SpellsFromHex(t, other);
  }

  lemma {:induction false} TotalChanges(bytes: Bytes, n: nat, i: nat, v: Byte)
    requires i < n <= |bytes|
    ensures Total(bytes[i := v], n) == Total(bytes, n) - bytes[i] + v
  {
    if n - 1 == i {
      TotalSame(bytes, n - 1, i, v);
    } else {
      TotalChanges(bytes, n - 1, i, v);
    }
  }

  lemma {:induction false} TotalSame(bytes: Bytes, n: nat, i: nat, v: Byte)
    requires n <= i < |bytes|
    ensures Total(bytes[i := v], n) == Total(bytes, n)
  {
    if n > 0 {
      TotalSame(bytes, n - 1, i, v);
    }
  }

  /** Changing any one byte of an accepted line, other than the length, up to and with its checksum, makes
      reading a file fail at it. */
  lemma ChangedByteFails(line: string, bytes: Bytes, i: nat, v: Byte, text: string, rest: seq<string>, base: nat,
                         areas: Areas)
    requires Spells(line, bytes) && ParseLine(line).Line?
    requires 0 < i < |bytes| && i < bytes[0] as int + 5 && v != bytes[i]
    requires Spells(Strip(text), bytes[i := v])
    ensures ReadOn([text] + rest, base, areas) == Failed(BadChecksum)
  {
    hide Strip, ParseLine, Insert, FromHex, Total, ReadRecord, SpellsByte;
    SpelledParses(line, bytes);
    SpelledParses(Strip(text), bytes[i := v]);
    TotalChanges(bytes, bytes[0] as int + 5, i, v);
    OtherRemainder(Total(bytes, bytes[0] as int + 5), bytes[i], v);
    assert ([text] + rest)[0] == text;
  }

  lemma OtherRemainder(sum: int, b: Byte, v: Byte)
    requires sum % 0x100 == 0 && b != v
    ensures (sum - b + v) % 0x100 != 0
  {
  }

  // ----- blanks around a line

  predicate Blank(c: char) { c == ' ' || '\t' <= c <= '\r' }

  /** Stripping takes away the blanks at both ends and nothing else. */
  lemma StripMeans(t: string) returns (i: nat, j: nat)
    ensures i <= j <= |t| && Strip(t) == t[i..j]
    ensures forall k | 0 <= k < |t| && !(i <= k < j) :: Blank(t[k])
    ensures i < j ==> !Blank(t[i]) && !Blank(t[j - 1])
  {
    i := LeftMeans(t);
    var rest := t[i..];
    var n := RightMeans(rest);
    j := i + n;
    assert rest[..n] == t[i..j];
    forall k | 0 <= k < |t| && !(i <= k < j)
      ensures Blank(t[k])
    {
      if k >= j {
        assert t[k] == rest[k - i];
      }
    }
    if n > 0 {
      assert rest[n - 1] == t[j - 1];
    }
  }

  lemma SpaceIsBlank(c: char)
    ensures IsSpace(c) <==> Blank(c)
  {
  }

  lemma {:induction false} LeftMeans(t: string) returns (i: nat)
    ensures i <= |t| && StripLeft(t) == t[i..]
    ensures forall k | 0 <= k < i :: Blank(t[k])
    ensures i < |t| ==> !Blank(t[i])
  {
    if t != "" {
      SpaceIsBlank(t[0]);
    }
    if t != "" && Blank(t[0]) {
      var n := LeftMeans(t[1..]);
      i := n + 1;
      assert t[1..][n..] == t[i..];
      forall k | 0 <= k < i
        ensures Blank(t[k])
      {
        if k > 0 {
          assert t[k] == t[1..][k - 1];
        }
      }
    } else {
      i := 0;
      assert t[0..] == t;
    }
  }

  lemma {:induction false} RightMeans(t: string) returns (n: nat)
    ensures n <= |t| && StripRight(t) == t[..n]
    ensures forall k | n <= k < |t| :: Blank(t[k])
    ensures n > 0 ==> !Blank(t[n - 1])
  {
    if t != "" {
      SpaceIsBlank(t[|t| - 1]);
    }
    if t != "" && Blank(t[|t| - 1]) {
      n := RightMeans(t[..|t| - 1]);
      assert t[..|t| - 1][..n] == t[..n];
    } else {
      n := |t|;
      assert t[..n] == t;
    }
  }

  // ----- what is printed

  lemma {:induction false} ToHexAt(s: Bytes, k: nat)
    requires k < |s|
    ensures |ToHex(s)| == 2 * |s|
    ensures ToHex(s)[2 * k] == "0123456789ABCDEF"[s[k] / 16] && ToHex(s)[2 * k + 1] == "0123456789ABCDEF"[s[k] % 16]
  {
    if |s| == 1 {
      assert ToHex(s[1..]) == "";
    } else {
      ToHexAt(s[1..], if k > 0 then k - 1 else 0);
    }
  }

  /** A printed line: a colon, two upper-case digits for each byte, carriage return and newline. The bytes
      are the length, the address high byte first, the kind, the data, and one that makes the sum zero. */
  lemma PrintedMeans(r: Record)
    requires Writable(r)
    ensures var bytes := [|r.data|, r.addr / 0x100, r.addr % 0x100, r.kind] + r.data + [Checksum(Body(r))];
            var line := MakeLine(r);
            && Whole(bytes) && |line| == 2 * |bytes| + 3 && line[0] == ':' && line[|line| - 2..] == "\r\n"
            && forall k | 0 <= k < |bytes| ::
                 line[1 + 2 * k..3 + 2 * k] == ["0123456789ABCDEF"[bytes[k] / 16], "0123456789ABCDEF"[bytes[k] % 16]]
  {
    hide Checksum, ToHex, Total, ByteSum;
    var body := Body(r);
    var bytes := body + [Checksum(body)];
    assert bytes == [|r.data|, r.addr / 0x100, r.addr % 0x100, r.kind] + r.data + [Checksum(body)];
    ChecksumRight(bytes, |body|);
    assert bytes[..|body|] == body;
    var line := MakeLine(r);
    ToHexAt(bytes, 0);
    forall k | 0 <= k < |bytes|
      ensures line[1 + 2 * k..3 + 2 * k] == ["0123456789ABCDEF"[bytes[k] / 16], "0123456789ABCDEF"[bytes[k] % 16]]
    {
      ToHexAt(bytes, k);
      assert line[1 + 2 * k] == ToHex(bytes)[2 * k] && line[2 + 2 * k] == ToHex(bytes)[2 * k + 1];
    }
  }

  /** The data records among some records. */
  function DataOf(rs: seq<Record>): seq<Record>
  {
    if rs == [] then [] else (if rs[0].kind == 0 then [rs[0]] else []) + DataOf(rs[1..])
  }

  /** Number `n` of an area's data records holds the bytes from `n` times the width on, as many as fit the
      width, at their address modulo 64K; there are just enough of them. */
  lemma {:induction false} RowsByWidth(mode: Mode, row: nat, start: nat, data: Bytes, i: nat, base: nat, n: nat)
    requires row > 0 && i < |data| && n < |DataOf(Rows(mode, row, start, data, i, base))|
    ensures i + n * row < |data|
    ensures DataOf(Rows(mode, row, start, data, i, base))[n]
            == Record(0, (start + (i + n * row)) % 0x1_0000,
                      data[i + n * row..if i + n * row + row < |data| then i + n * row + row else |data|])
    decreases |data| - i
  {
    hide Rows, DataOf, BaseValue;
    var value := BaseValue(mode, start + i);
    DataOfRows(mode, row, start, data, i, base);
    var later := DataOf(Rows(mode, row, start, data, i + row, value));
    if n > 0 {
      if i + row < |data| {
        RowsByWidth(mode, row, start, data, i + row, value, n - 1);
        assert i + row + (n - 1) * row == i + n * row;
      } else {
        NoRows(mode, row, start, data, i + row, value);
        NoData();
      }
    }
  }

  lemma NoData()
    ensures DataOf([]) == []
  {
  }

  lemma DataOfRows(mode: Mode, row: nat, start: nat, data: Bytes, i: nat, base: nat)
    requires row > 0 && i < |data|
    ensures DataOf(Rows(mode, row, start, data, i, base))
            == [Record(0, (start + i) % 0x1_0000, data[i..if i + row < |data| then i + row else |data|])]
               + DataOf(Rows(mode, row, start, data, i + row, BaseValue(mode, start + i)))
  {
    hide Rows, DataOf, BaseValue;
    var value := BaseValue(mode, start + i);
    var row0 := Record(DATA, (start + i) % 0x1_0000, data[i..Min(i + row, |data|)]);
    var later := Rows(mode, row, start, data, i + row, value);
    RowsStep(mode, row, start, data, i, base);
    DataJoins([row0], later);
    OneRecord(row0);
    if value != base {
      DataJoins([BaseRecord(mode, value)], [row0] + later);
      OneRecord(BaseRecord(mode, value));
      assert [] + ([row0] + DataOf(later)) == [row0] + DataOf(later);
    } else {
      assert [] + ([row0] + later) == [row0] + later;
    }
  }

  lemma OneRecord(r: Record)
    ensures DataOf([r]) == if r.kind == 0 then [r] else []
  {
    assert DataOf([r]) == (if r.kind == 0 then [r] else []) + DataOf([r][1..]);
  }

  lemma {:induction false} DataJoins(rs: seq<Record>, more: seq<Record>)
    ensures DataOf(rs + more) == DataOf(rs) + DataOf(more)
  {
    if rs == [] {
      assert rs + more == more;
    } else {
      assert (rs + more)[1..] == rs[1..] + more;
      DataJoins(rs[1..], more);
    }
  }

  // ----- what a record does

  /** Kind by kind: 1 ends the file, 2 and 4 set the base from two bytes as paragraphs and as 64K segments,
      3 always fails, 5 needs four bytes and leaves the base, and kinds above 5 fail. */
  lemma RecordMeans(r: Record, base: nat, areas: Areas)
    ensures r.kind == 1 ==> ReadRecord(r, base, areas) == Stopped(Read(areas))
    ensures r.kind == 2 && |r.data| >= 2 ==>
              ReadRecord(r, base, areas) == Going(r.data[0] as int * 0x1000 + r.data[1] as int * 0x10, areas)
    ensures r.kind == 4 && |r.data| >= 2 ==>
              ReadRecord(r, base, areas) == Going(r.data[0] as int * 0x100_0000 + r.data[1] as int * 0x1_0000, areas)
    ensures (r.kind == 2 || r.kind == 4) && |r.data| < 2 ==> ReadRecord(r, base, areas) == Stopped(Failed(TooShort))
    ensures r.kind == 3 ==> ReadRecord(r, base, areas) == Stopped(Failed(TooShort))
    ensures r.kind == 5 ==>
              ReadRecord(r, base, areas) == if |r.data| >= 4 then Going(base, areas) else Stopped(Failed(TooShort))
    ensures r.kind > 5 ==> ReadRecord(r, base, areas) == Stopped(Failed(BadType))
  {
    hide Insert;
  }

  // ----- insertions byte by byte

  /** Every possible outcome of putting bytes at an address. If no area touches the address they become an
      area of their own. Otherwise one touching area takes them: it grows only if they reach beyond its end,
      and each of its addresses has the new byte if there is one and else the old. No other area changes. */
  lemma InsertMeans(areas: Areas, addr: nat, idata: Bytes, after: Areas) returns (s: nat)
    requires CanInsert(areas, addr, idata, after)
    ensures forall t | t != s :: t in after <==> t in areas
    ensures forall t | t != s && t in areas :: after[t] == areas[t]
    ensures if exists t :: t in areas && t <= addr <= t + |areas[t]| then
              && s in areas && s <= addr <= s + |areas[s]| && s in after
              && s + |after[s]| == (if addr + |idata| > s + |areas[s]| then addr + |idata| else s + |areas[s]|)
              && forall k | 0 <= k < |after[s]| ::
                   after[s][k] == if addr <= s + k < addr + |idata| then idata[s + k - addr] else areas[s][k]
            else s == addr && s in after && after[s] == idata
  {
    if exists t :: Touches(areas, t, addr) {
      s :| Touches(areas, s, addr) && after == Inserted(areas, Some(s), addr, idata);
    } else {
      s := addr;
      forall t | t in areas
        ensures !(t <= addr <= t + |areas[t]|)
      {
        assert !Touches(areas, t, addr);
      }
    }
  }
}
