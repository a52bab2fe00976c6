/** Intel HEX lines as text: hexadecimal, checksums, and the division of a file into lines. */
module HexText {
  import opened Words

  type Byte = n: nat | n < 0x100

  type Bytes = seq<Byte>

  // ----- hexadecimal

  function Digit(n: nat): char
    requires n < 16
  {
    "0123456789ABCDEF"[n]
  }

  /** The value of a digit in either case. */
  function DigitValue(c: char): Option<nat>
  {
    if '0' <= c <= '9' then Some(c as nat - '0' as nat)
    else if 'A' <= c <= 'F' then Some(c as nat - 'A' as nat + 10)
    else if 'a' <= c <= 'f' then Some(c as nat - 'a' as nat + 10)
    else None
  }

  function ToHex(s: Bytes): string
  {
    if s == [] then "" else [Digit(s[0] / 16), Digit(s[0] % 16)] + ToHex(s[1..])
  }

  /** Pairs of digits as bytes; `None` for a wrong digit or an odd number of them. */
  function FromHex(t: string): Option<Bytes>
  {
    if |t| == 0 then Some([])
    else if |t| == 1 then None
    else
      match (DigitValue(t[0]), DigitValue(t[1]), FromHex(t[2..]))
      case (Some(hi), Some(lo), Some(rest)) => if hi < 16 && lo < 16 then Some([hi * 16 + lo] + rest) else None
      case _ => None
  }

  lemma DigitRoundTrip(n: nat)
    requires n < 16
    ensures DigitValue(Digit(n)) == Some(n)
  {
  }

  lemma {:induction false} HexRoundTrip(s: Bytes)
    ensures FromHex(ToHex(s)) == Some(s)
  {
    hide Digit, DigitValue;
    if s != [] {
      HexRoundTrip(s[1..]);
      DigitRoundTrip(s[0] / 16);
      DigitRoundTrip(s[0] % 16);
      assert ToHex(s)[2..] == ToHex(s[1..]);
      assert [s[0]] + s[1..] == s;
    }
  }

  // ----- lines

  function ByteSum(s: Bytes): nat
  {
    if s == [] then 0 else s[0] + ByteSum(s[1..])
  }

  /** `calc_checksum`: the byte that makes the sum of all bytes a multiple of 256. */
  function Checksum(s: Bytes): Byte { (-(ByteSum(s) as int)) % 0x100 }

  lemma {:induction false} ByteSumJoins(s: Bytes, t: Bytes)
    ensures ByteSum(s + t) == ByteSum(s) + ByteSum(t)
  {
    if s == [] {
      assert s + t == t;
    } else {
      assert (s + t)[1..] == s[1..] + t;
      ByteSumJoins(s[1..], t);
    }
  }

  /** With its checksum appended the bytes of a line sum to zero modulo 256. */
  lemma ChecksumCancels(s: Bytes)
    ensures ByteSum(s + [Checksum(s)]) % 0x100 == 0
  {
    ByteSumJoins(s, [Checksum(s)]);
    assert ByteSum([Checksum(s)]) == Checksum(s) + ByteSum([]);
  }

  /** A line of the file by its contents. */
  datatype Record = Record(kind: Byte, addr: nat, data: Bytes)

  predicate Writable(r: Record) { |r.data| < 0x100 && r.addr < 0x1_0000 }

  function Body(r: Record): Bytes
    requires Writable(r)
  {
    [|r.data|, r.addr / 0x100, r.addr % 0x100, r.kind] + r.data
  }

  /** `make_line`. */
  function MakeLine(r: Record): string
    requires Writable(r)
  {
    ":" + ToHex(Body(r) + [Checksum(Body(r))]) + "\r\n"
  }

  datatype Error = BadStart | BadHex | TooShort | BadChecksum | BadType

  datatype LineResult = Line(record: Record) | BadLine(error: Error)

  /** `parse_line`, for a line that is not blank. Anything after the checksum is ignored. */
  function ParseLine(raw: string): LineResult
    requires raw != ""
  {
    if raw[0] != ':' then BadLine(BadStart)
    else match FromHex(raw[1..])
      case None => BadLine(BadHex)
      case Some(line) =>
        if |line| < 4 then BadLine(TooShort)
        else
          var end := line[0] as int + 4;
          if |line| <= end then BadLine(TooShort)
          else if line[end] != Checksum(line[..end]) then BadLine(BadChecksum)
          else Line(Record(line[3], line[1] as int * 0x100 + line[2] as int, line[4..end]))
  }

  predicate IsSpace(c: char) { c in {' ', '\t', '\r', '\n', '\U{000B}', '\U{000C}'} }

  function StripLeft(t: string): string
  {
    if t != "" && IsSpace(t[0]) then StripLeft(t[1..]) else t
  }

  function StripRight(t: string): string
  {
    if t != "" && IsSpace(t[|t| - 1]) then StripRight(t[..|t| - 1]) else t
  }

  function Strip(t: string): string { StripRight(StripLeft(t)) }

  /** The characters of a line up to and including its newline. */
  function LineEnd(t: string): nat
    ensures LineEnd(t) <= |t| && (t != "" ==> LineEnd(t) > 0)
  {
    if t == "" then 0 else if t[0] == '\n' then 1 else 1 + LineEnd(t[1..])
  }

  /** A text as the lines a file yields. */
  function Lines(t: string): seq<string>
  {
    if t == "" then [] else [t[..LineEnd(t)]] + Lines(t[LineEnd(t)..])
  }

  // ----- a line read back

  predicate Plain(t: string) { forall k | 0 <= k < |t| :: !IsSpace(t[k]) }

  lemma {:induction false} HexPlain(s: Bytes)
    ensures Plain(ToHex(s))
  {
    if s != [] {
      HexPlain(s[1..]);
      var t := [Digit(s[0] / 16), Digit(s[0] % 16)];
      DigitNoSpace(s[0] / 16);
      DigitNoSpace(s[0] % 16);
      assert ToHex(s) == t + ToHex(s[1..]);
    }
  }

  lemma DigitNoSpace(n: nat)
    requires n < 16
    ensures !IsSpace(Digit(n))
  {
  }

  lemma StripLine(t: string)
    requires t != "" && Plain(t)
    ensures Strip(t + "\r\n") == t
  {
    var u := t + "\r\n";
    assert u[0] == t[0];
    assert StripLeft(u) == u;
    assert u[..|u| - 1] == t + "\r";
    assert (t + "\r")[..|t|] == t;
    assert StripRight(t) == t;
    assert StripRight(t + "\r") == t;
  }

  /** Parsing what `make_line` prints gives the record back. */
  lemma LineRoundTrip(r: Record)
    requires Writable(r)
    ensures Strip(MakeLine(r)) != ""
    ensures ParseLine(Strip(MakeLine(r))) == Line(r)
  {
    hide Strip, Checksum, ToHex, FromHex;
    var body := Body(r);
    var bytes := body + [Checksum(body)];
    HexPlain(bytes);
    var t := ":" + ToHex(bytes);
    assert Plain(t);
    assert MakeLine(r) == t + "\r\n";
    StripLine(t);
    HexRoundTrip(bytes);
    assert t[1..] == ToHex(bytes);
    assert bytes[..|r.data| + 4] == body;
    assert bytes[4..|r.data| + 4] == r.data;
  }

  function Render(rs: seq<Record>): string
    requires forall r | r in rs :: Writable(r)
  {
    if rs == [] then "" else MakeLine(rs[0]) + Render(rs[1..])
  }

  lemma {:induction false} LineEndOf(t: string, rest: string)
    requires forall k | 0 <= k < |t| :: t[k] != '\n'
    ensures LineEnd(t + "\n" + rest) == |t| + 1
  {
    if t == "" {
      assert t + "\n" + rest == "\n" + rest;
    } else {
      LineEndOf(t[1..], rest);
      assert (t + "\n" + rest)[1..] == t[1..] + "\n" + rest;
    }
  }

  /** The lines of a printed file are its records, one each. */
  lemma {:induction false} LinesOfRender(rs: seq<Record>)
    requires forall r | r in rs :: Writable(r)
    ensures |Lines(Render(rs))| == |rs|
    ensures forall k | 0 <= k < |rs| :: Lines(Render(rs))[k] == MakeLine(rs[k])
  {
    hide ToHex, Checksum;
    if rs != [] {
      LinesOfRender(rs[1..]);
      var r := rs[0];
      HexPlain(Body(r) + [Checksum(Body(r))]);
      var t := ":" + ToHex(Body(r) + [Checksum(Body(r))]) + "\r";
      var rest := Render(rs[1..]);
      assert MakeLine(r) == t + "\n";
      LineEndOf(t, rest);
      var text := t + "\n" + rest;
      assert Render(rs) == text;
      assert text[..|t| + 1] == MakeLine(r) && text[|t| + 1..] == rest;
      assert Lines(text) == [MakeLine(r)] + Lines(rest);
    }
  }
}
