/** Motorola S-records: the ones `save_serial` writes, what `srec_decode` makes of a line, and the memory that
    `load_serial` leaves. */
module SRecord {
  import opened Bytes

  // ---------- hexadecimal ----------

  function Digit(n: nat): char
    requires n < 16
  {
    "0123456789ABCDEF"[n]
  }

  /** `hex1_bin` */
  function Hex1(c: char): int {
    if '0' <= c <= '9' then c as int - '0' as int
    else if 'a' <= c <= 'f' then c as int + 10 - 'a' as int
    else if 'A' <= c <= 'F' then c as int + 10 - 'A' as int
    else -1
  }

  /** `hex2_bin`: -1 unless two digits stand there; a line ends with NUL, which is no digit. */
  function Hex2(s: string, i: nat): (v: int)
    ensures -1 <= v < 256
  {
    if i + 1 < |s| && Hex1(s[i]) >= 0 && Hex1(s[i + 1]) >= 0 then Hex1(s[i]) * 16 + Hex1(s[i + 1]) else -1
  }

  function HexText(bytes: seq<byte>): (s: string)
    ensures |s| == 2 * |bytes|
  {
    if bytes == [] then "" else Pair(bytes[0]) + HexText(bytes[1..])
  }

  /** n bytes written in hexadecimal at position i, unless a digit is missing. */
  function HexBytes(s: string, i: nat, n: nat): (r: Option<seq<byte>>)
    ensures r.Some? ==> |r.value| == n
    decreases n
  {
    if n == 0 then Some([])
    else if Hex2(s, i) < 0 then None
    else
      var rest := HexBytes(s, i + 2, n - 1);
      if rest.None? then None else Some([Hex2(s, i)] + rest.value)
  }

  lemma DigitIs(n: nat)
    requires n < 16
    ensures Hex1(Digit(n)) == n && Digit(n) in "0123456789ABCDEF"
  {
  }

  ghost predicate Stands(s: string, i: nat, t: string) {
    i + |t| <= |s| && forall k :: 0 <= k < |t| ==> s[i + k] == t[k]
  }

  lemma StandsApart(s: string, i: nat, t: string, u: string)
    ensures Stands(s, i, t + u) <==> Stands(s, i, t) && Stands(s, i + |t|, u)
  {
    if Stands(s, i, t + u) {
      forall k | 0 <= k < |t|
        ensures s[i + k] == t[k]
      {
        assert (t + u)[k] == t[k];
      }
      forall k | 0 <= k < |u|
        ensures s[i + |t| + k] == u[k]
      {
        assert (t + u)[|t| + k] == s[i + (|t| + k)];
      }
    }
    if Stands(s, i, t) && Stands(s, i + |t|, u) {
      forall k | 0 <= k < |t + u|
        ensures s[i + k] == (t + u)[k]
      {
        if k >= |t| {
          assert s[i + |t| + (k - |t|)] == u[k - |t|];
        }
      }
    }
  }

  function Pair(b: byte): (s: string)
    ensures |s| == 2
  {
    [Digit(b / 16), Digit(b % 16)]
  }

  lemma PairIs(s: string, i: nat, b: byte)
    requires Stands(s, i, Pair(b))
    ensures Hex2(s, i) == b
  {
    DigitIs(b / 16);
    DigitIs(b % 16);
    assert s[i + 0] == Pair(b)[0] && s[i + 1] == Pair(b)[1];
  }

  /** Bytes written in hexadecimal are read back. */
  lemma {:induction false} HexRoundTrip(s: string, i: nat, bytes: seq<byte>)
    requires Stands(s, i, HexText(bytes))
    ensures HexBytes(s, i, |bytes|) == Some(bytes)
    decreases |bytes|
  {
    if bytes != [] {
      StandsApart(s, i, Pair(bytes[0]), HexText(bytes[1..]));
      PairIs(s, i, bytes[0]);
      hide Stands, Pair, Hex2;
      HexRoundTrip(s, i + 2, bytes[1..]);
      assert bytes == [bytes[0]] + bytes[1..];
    }
  }

  /** printf's %0nX */
  function Padded(v: nat, digits: nat): (s: string)
    ensures |s| == digits
    decreases digits
  {
    if digits == 0 then "" else Padded(v / 16, digits - 1) + [Digit(v % 16)]
  }

  /** The bytes of a number, the highest first. */
  function BigEndian(v: nat, n: nat): (s: seq<byte>)
    ensures |s| == n
    decreases n
  {
    if n == 0 then [] else BigEndian(v / 256, n - 1) + [v % 256]
  }

  /** The shift and add of `srec_decode`. */
  function Value(s: seq<byte>): (v: nat) {
    if s == [] then 0 else Value(s[..|s| - 1]) * 256 + s[|s| - 1]
  }

  function Power(n: nat): (p: nat)
    ensures p > 0
  {
    if n == 0 then 1 else 256 * Power(n - 1)
  }

  lemma {:induction false} ValueRoundTrip(v: nat, n: nat)
    requires v < Power(n)
    ensures Value(BigEndian(v, n)) == v
    decreases n
  {
    if n > 0 {
      ValueRoundTrip(v / 256, n - 1);
    }
  }

  lemma {:induction false} HexTextAppend(a: seq<byte>, b: seq<byte>)
    ensures HexText(a + b) == HexText(a) + HexText(b)
    decreases |a|
  {
    if a == [] {
      assert a + b == b;
    } else {
      assert (a + b)[1..] == a[1..] + b;
      HexTextAppend(a[1..], b);
    }
  }

  /** printf and the digit pairs agree. */
  lemma {:induction false} PaddedIsHexText(v: nat, n: nat)
    ensures Padded(v, 2 * n) == HexText(BigEndian(v, n))
    decreases n
  {
    if n > 0 {
      PaddedIsHexText(v / 256, n - 1);
      HexTextAppend(BigEndian(v / 256, n - 1), [v % 256]);
      OnePair(v % 256);
      TwoDigits(v, 2 * n);
      hide Padded, HexText, Pair;
    }
  }

  lemma TwoDigits(v: nat, n: nat)
    requires n >= 2
    ensures Padded(v, n) == Padded(v / 256, n - 2) + Pair(v % 256)
  {
    assert v / 16 / 16 == v / 256 && v % 256 / 16 == v / 16 % 16 && v % 256 % 16 == v % 16;
    assert Padded(v / 16, n - 1) == Padded(v / 256, n - 2) + [Digit(v / 16 % 16)];
  }

  function Sum(s: seq<byte>): nat {
    if s == [] then 0 else s[0] + Sum(s[1..])
  }

  /** The checksum byte: the low byte of the sum, inverted. */
  function Complement(total: nat): byte { 255 - total % 256 }

  function Check(length: nat, addr: seq<byte>, data: seq<byte>): byte { Complement(length + Sum(addr) + Sum(data)) }

  lemma {:induction false} SumAppend(a: seq<byte>, b: seq<byte>)
    ensures Sum(a + b) == Sum(a) + Sum(b)
    decreases |a|
  {
    if a == [] {
      assert a + b == b;
    } else {
      assert (a + b)[1..] == a[1..] + b;
      SumAppend(a[1..], b);
    }
  }

  // ---------- one line ----------

  datatype Decoded =
    | Empty
    | NoRecord
    | BadType
    | BadSum
    | Record(kind: char, addr: nat, count: int, data: seq<byte>)

  /** How many address bytes a record type has, 0 for a type that is unknown. */
  function Width(kind: char): nat {
    match kind
    case '0' => 2 case '1' => 2 case '5' => 2 case '9' => 2
    case '2' => 3 case '8' => 3
    case '3' => 4 case '7' => 4
    case _ => 0
  }

  /** Behind the first 'S', or at the end. */
  function AfterS(s: string): (i: nat)
    ensures i <= |s|
  {
    if s == "" then 0 else if s[0] == 'S' then 1 else 1 + AfterS(s[1..])
  }

  /** `srec_decode`. The count is what the length field leaves for data; it can be negative. */
  function Decode(line: string): Decoded {
    var p := AfterS(line);
    if p >= |line| then Empty
    else
      var kind, length := line[p], Hex2(line, p + 1);
      if length < 0 then NoRecord
      else if Width(kind) == 0 then BadType
      else
        var count := if kind == '5' then 0 else length - Width(kind) - 1;
        var n: nat := if count < 0 then 0 else count;
        var addr := HexBytes(line, p + 3, Width(kind));
        var data := HexBytes(line, p + 3 + 2 * Width(kind), n);
        var check := Hex2(line, p + 3 + 2 * Width(kind) + 2 * n);
        if addr.None? || data.None? || check < 0 then NoRecord
        else if check != Check(length, addr.value, data.value) then BadSum
        else Record(kind, Value(addr.value), count, data.value)
  }

  /** A line without its end: length, address, data, and the complement of their sum. */
  function Line(kind: char, addr: seq<byte>, data: seq<byte>): string
    requires |addr| + |data| < 255
  {
    var length: byte := |addr| + |data| + 1;
    ['S', kind] + (Pair(length) + (HexText(addr) + (HexText(data) + Pair(Check(length, addr, data)))))
  }

  /** A line is read as the record it was written for. */
  lemma DecodeLine(kind: char, addr: seq<byte>, data: seq<byte>)
    requires |addr| + |data| < 255 && Width(kind) == |addr| > 0 && (kind == '5' ==> data == [])
    ensures Decode(Line(kind, addr, data)) == Record(kind, Value(addr), |data|, data)
  {
    hide Line, HexBytes, Hex2, Value, AfterS, Check;
    LineParts(kind, addr, data);
    AfterSNow(Line(kind, addr, data));
  }

  lemma AfterSNow(s: string)
    requires s != "" && s[0] == 'S'
    ensures AfterS(s) == 1
  {
  }

  lemma LineParts(kind: char, addr: seq<byte>, data: seq<byte>)
    requires |addr| + |data| < 255
    ensures var line, length := Line(kind, addr, data), |addr| + |data| + 1;
      && |line| >= 2 && line[0] == 'S' && line[1] == kind
      && Hex2(line, 2) == length
      && HexBytes(line, 4, |addr|) == Some(addr)
      && HexBytes(line, 4 + 2 * |addr|, |data|) == Some(data)
      && Hex2(line, 4 + 2 * |addr| + 2 * |data|) == Check(length, addr, data)
  {
    hide HexText, HexBytes, Hex2, Pair, Check, Line, Stands;
    var length: byte := |addr| + |data| + 1;
    var line := Line(kind, addr, data);
    LineStands(kind, addr, data);
    PairIs(line, 2, length);
    HexRoundTrip(line, 4, addr);
    HexRoundTrip(line, 4 + 2 * |addr|, data);
    PairIs(line, 4 + 2 * |addr| + 2 * |data|, Check(length, addr, data));
  }

  /** Where the parts of a line stand. */
  lemma LineStands(kind: char, addr: seq<byte>, data: seq<byte>)
    requires |addr| + |data| < 255
    ensures var line, length: byte := Line(kind, addr, data), |addr| + |data| + 1;
      && |line| >= 2 && line[0] == 'S' && line[1] == kind
      && Stands(line, 2, Pair(length))
      && Stands(line, 4, HexText(addr))
      && Stands(line, 4 + 2 * |addr|, HexText(data))
      && Stands(line, 4 + 2 * |addr| + 2 * |data|, Pair(Check(length, addr, data)))
  {
    hide HexText, Pair, Check, Stands;
    var length: byte := |addr| + |data| + 1;
    FourParts(['S', kind], Pair(length), HexText(addr), HexText(data), Pair(Check(length, addr, data)));
  }

  lemma FourParts(h: string, l: string, a: string, d: string, c: string)
    ensures var s := h + (l + (a + (d + c)));
      && Stands(s, |h|, l) && Stands(s, |h| + |l|, a) && Stands(s, |h| + |l| + |a|, d) && Stands(s, |h| + |l| + |a| + |d|, c)
  {
    hide Stands;
    var s := h + (l + (a + (d + c)));
    StandsBehind(h, l + (a + (d + c)));
    StandsApart(s, |h|, l, a + (d + c));
    StandsApart(s, |h| + |l|, a, d + c);
    StandsApart(s, |h| + |l| + |a|, d, c);
  }

  lemma StandsBehind(s: string, t: string)
    ensures Stands(s + t, |s|, t)
  {
  }

  lemma OnePair(b: byte)
    ensures HexText([b]) == Pair(b)
  {
    assert Pair(b) + "" == Pair(b);
  }

  /** What a line says in bytes: length, address, data, checksum. */
  function LineBytes(addr: seq<byte>, data: seq<byte>): seq<byte>
    requires |addr| + |data| < 255
  {
    var length: byte := |addr| + |data| + 1;
    [length] + (addr + (data + [Check(length, addr, data)]))
  }

  /** These are the bytes of the line, and they sum to 0xFF. */
  lemma LineSum(kind: char, addr: seq<byte>, data: seq<byte>)
    requires |addr| + |data| < 255
    ensures Line(kind, addr, data) == ['S', kind] + HexText(LineBytes(addr, data))
    ensures Sum(LineBytes(addr, data)) % 256 == 255
  {
    hide HexText, Pair, Check;
    var length: byte := |addr| + |data| + 1;
    var check := Check(length, addr, data);
    BytesText(length, addr, data, check);
    BytesSum(length, addr, data, check);
    CheckIs(length, addr, data);
  }

  lemma CheckIs(length: nat, addr: seq<byte>, data: seq<byte>)
    ensures (length + Sum(addr) + Sum(data) + Check(length, addr, data)) % 256 == 255
  {
    hide Sum;
  }

  lemma BytesText(length: byte, addr: seq<byte>, data: seq<byte>, check: byte)
    ensures HexText([length] + (addr + (data + [check]))) == Pair(length) + (HexText(addr) + (HexText(data) + Pair(check)))
  {
    hide HexText, Pair;
    OnePair(length);
    OnePair(check);
    HexTextAppend([length], addr + (data + [check]));
    HexTextAppend(addr, data + [check]);
    HexTextAppend(data, [check]);
  }

  lemma BytesSum(length: byte, addr: seq<byte>, data: seq<byte>, check: byte)
    ensures Sum([length] + (addr + (data + [check]))) == length + Sum(addr) + Sum(data) + check
  {
    SumAppend([length], addr + (data + [check]));
    SumAppend(addr, data + [check]);
    SumAppend(data, [check]);
    assert Sum([length]) == length && Sum([check]) == check;
  }

  // ---------- the upload ----------

  const START: string := "S0030000FC"
  const END: string := "S70500000000FA"
  const PER_RECORD: nat := 16

  function Least(a: nat, b: nat): nat { if a < b then a else b }

  /** The data records for these bytes from this address on. */
  function DataLines(addr: nat, bytes: seq<byte>): seq<string>
    decreases |bytes|
  {
    if bytes == [] then []
    else
      var n := Least(PER_RECORD, |bytes|);
      [Line('3', BigEndian(addr, 4), bytes[..n])] + DataLines(addr + n, bytes[n..])
  }

  /** Everything `save_serial` writes. */
  function Lines(addr: nat, bytes: seq<byte>): seq<string> {
    [START] + DataLines(addr, bytes) + [END]
  }

  function Text(lines: seq<string>): string {
    if lines == [] then "" else lines[0] + "\n" + Text(lines[1..])
  }

  // ---------- the download ----------

  /** How a download ends, and what memory then holds. */
  datatype Ending =
    | Silent                                                // the input has ended, the loader waits
    | Aborted
    | Runaway                                               // a copy of negative length
    | Done(first: nat, last: nat, size: nat, entry: nat)

  datatype Result = Result(mem: seq<byte>, ending: Ending)

  /** `memcpy` into a 32-bit address space. */
  function Copied(mem: seq<byte>, at: nat, data: seq<byte>): (m: seq<byte>)
    requires |mem| == MODULUS && at < MODULUS
    ensures |m| == MODULUS
    decreases |data|
  {
    if data == [] then mem else Copied(mem[at := data[0]], (at + 1) % MODULUS, data[1..])
  }

  const MAX_LINE: nat := 516

  /** `read_record`: the length of the next line, None when it is broken off. */
  datatype Scan = Wait | Break | Ends(length: nat, terminated: bool)

  function ScanLine(input: string, n: nat): (r: Scan)
    requires n <= MAX_LINE
    ensures r.Ends? ==> n <= r.length <= MAX_LINE && r.length - n + (if r.terminated then 1 else 0) <= |input|
    ensures r.Ends? && !r.terminated ==> r.length == MAX_LINE
    decreases MAX_LINE - n
  {
    if n == MAX_LINE then Ends(n, false)
    else if input == "" then Wait
    else if input[0] == '\r' || input[0] == '\n' then Ends(n, true)
    else if input[0] == '\0' || input[0] == '\U{0003}' then Break
    else ScanLine(input[1..], n + 1)
  }

  /** What `load_serial` does with the rest of the input; `first` and `last` are the lowest and highest address so far. */
  function Loaded(mem: seq<byte>, input: string, offset: nat, first: nat, last: nat): Result
    requires |mem| == MODULUS
    decreases |input|
  {
    var scan := ScanLine(input, 0);
    if scan.Wait? then Result(mem, Silent)
    else if scan.Break? then Result(mem, Aborted)
    else
      var rest := input[scan.length + (if scan.terminated then 1 else 0)..];
      match Decode(input[..scan.length])
      case NoRecord => Result(mem, Aborted)
      case BadType => Result(mem, Aborted)
      case BadSum => Result(mem, Aborted)
      case Empty => Loaded(mem, rest, offset, first, last)
      case Record(kind, addr, count, data) =>
        if kind == '1' || kind == '2' || kind == '3' then
          if count < 0 then Result(mem, Runaway)
          else
            var at := (addr + offset) % MODULUS;
            Loaded(Copied(mem, at, data), rest, offset, Lower(first, at), Higher(last, at, count))
        else if kind == '7' || kind == '8' || kind == '9' then Result(mem, Done(first, last, Size(first, last), addr))
        else Loaded(mem, rest, offset, first, last)
  }

  function Lower(first: nat, at: nat): nat { if at < first then at else first }

  function Higher(last: nat, at: nat, count: nat): nat {
    var end := (at + count + MODULUS - 1) % MODULUS;
    if end > last then end else last
  }

  function Size(first: nat, last: nat): nat { (last - first + 1) % MODULUS }

  const NOTHING_YET: nat := MODULUS - 1

  // ---------- laws ----------

  lemma {:induction false} CopiedIs(mem: seq<byte>, at: nat, data: seq<byte>)
    requires |mem| == MODULUS && at < MODULUS && at + |data| <= MODULUS
    ensures Copied(mem, at, data) == Patched(mem, at, data)
    decreases |data|
  {
    if data == [] {
      assert mem == mem[..at] + mem[at..];
    } else if |data| == 1 {
      assert data[1..] == [];
    } else {
      CopiedIs(mem[at := data[0]], at + 1, data[1..]);
    }
  }

  /** A line that holds none of the characters that end one is scanned whole. */
  predicate Plain(s: string) {
    forall c <- s :: c != '\r' && c != '\n' && c != '\0' && c != '\U{0003}'
  }

  lemma {:induction false} ScanPlain(line: string, rest: string, n: nat)
    requires Plain(line) && n + |line| < MAX_LINE
    ensures ScanLine(line + "\n" + rest, n) == Ends(n + |line|, true)
    decreases |line|
  {
    var input := line + "\n" + rest;
    if line != "" {
      assert line[0] in line;
      assert input[1..] == line[1..] + "\n" + rest;
      forall c | c in line[1..]
        ensures c in line
      {
      }
      ScanPlain(line[1..], rest, n + 1);
    }
  }

  lemma {:induction false} HexTextPlain(bytes: seq<byte>)
    ensures Plain(HexText(bytes))
  {
    if bytes != [] {
      HexTextPlain(bytes[1..]);
      DigitIs(bytes[0] / 16);
      DigitIs(bytes[0] % 16);
    }
  }

  lemma LinePlain(kind: char, addr: seq<byte>, data: seq<byte>)
    requires |addr| + |data| < 255 && '0' <= kind <= '9'
    ensures Plain(Line(kind, addr, data)) && |Line(kind, addr, data)| < MAX_LINE
  {
    LineSum(kind, addr, data);
    HexTextPlain(LineBytes(addr, data));
  }

  lemma FirstLine(line: string, rest: string)
    requires Plain(line) && |line| < MAX_LINE
    ensures var input := line + "\n" + rest;
      ScanLine(input, 0) == Ends(|line|, true) && input[..|line|] == line && input[|line| + 1..] == rest
  {
    ScanPlain(line, rest, 0);
  }

  function AtRecord(mem: seq<byte>, kind: char, addr: nat, data: seq<byte>, rest: string, offset: nat, first: nat, last: nat): Result
    requires |mem| == MODULUS
  {
    if kind == '1' || kind == '2' || kind == '3' then
      var at := (addr + offset) % MODULUS;
      Loaded(Copied(mem, at, data), rest, offset, Lower(first, at), Higher(last, at, |data|))
    else if kind == '7' || kind == '8' || kind == '9' then Result(mem, Done(first, last, Size(first, last), addr))
    else Loaded(mem, rest, offset, first, last)
  }

  lemma LoadStep(mem: seq<byte>, input: string, line: string, rest: string, kind: char, addr: nat, data: seq<byte>, offset: nat, first: nat, last: nat)
    requires |mem| == MODULUS && ScanLine(input, 0) == Ends(|line|, true)
    requires input[..|line|] == line && input[|line| + 1..] == rest && Decode(line) == Record(kind, addr, |data|, data)
    ensures Loaded(mem, input, offset, first, last) == AtRecord(mem, kind, addr, data, rest, offset, first, last)
  {
    hide Decode, Copied, ScanLine, Lower, Higher, Size;
  }

  /** The loader at a well-formed line. */
  lemma LoadLine(mem: seq<byte>, kind: char, addr: seq<byte>, data: seq<byte>, rest: string, offset: nat, first: nat, last: nat)
    requires |mem| == MODULUS && |addr| + |data| < 255 && Width(kind) == |addr| > 0 && (kind == '5' ==> data == [])
    ensures Loaded(mem, Line(kind, addr, data) + "\n" + rest, offset, first, last) == AtRecord(mem, kind, Value(addr), data, rest, offset, first, last)
  {
    LinePlain(kind, addr, data);
    DecodeLine(kind, addr, data);
    var line := Line(kind, addr, data);
    hide *;
    FirstLine(line, rest);
    LoadStep(mem, line + "\n" + rest, line, rest, kind, Value(addr), data, offset, first, last);
  }

  lemma Opening()
    ensures START == Line('0', BigEndian(0, 2), [])
  {
    assert BigEndian(0, 2) == [0, 0];
    Zeros();
    assert Check(3, [0, 0], []) == 252;
    assert Pair(3) == "03" && Pair(252) == "FC";
    assert START == ['S', '0'] + ("03" + ("0000" + ("" + "FC")));
    hide Pair, HexText, Check, BigEndian;
    assert HexText([]) == "" by { NoText(); }
  }

  lemma Closing()
    ensures END == Line('7', BigEndian(0, 4), [])
  {
    assert BigEndian(0, 4) == [0, 0, 0, 0];
    FourZeros();
    assert Check(5, [0, 0, 0, 0], []) == 250;
    assert Pair(5) == "05" && Pair(250) == "FA";
    assert END == ['S', '7'] + ("05" + ("00000000" + ("" + "FA")));
    hide Pair, HexText, Check, BigEndian;
    assert HexText([]) == "" by { NoText(); }
  }

  lemma NoText()
    ensures HexText([]) == ""
  {
  }

  lemma Zeros()
    ensures HexText([0, 0]) == "0000" && Sum([0, 0]) == 0
  {
    OnePair(0);
    HexTextAppend([0], [0]);
    SumAppend([0], [0]);
    assert [0] + [0] == [0, 0] && Sum([0]) == 0;
    assert Pair(0) == "00";
  }

  lemma FourZeros()
    ensures HexText([0, 0, 0, 0]) == "00000000" && Sum([0, 0, 0, 0]) == 0
  {
    Zeros();
    HexTextAppend([0, 0], [0, 0]);
    SumAppend([0, 0], [0, 0]);
    assert [0, 0] + [0, 0] == [0, 0, 0, 0];
    assert "0000" + "0000" == "00000000";
    hide HexText, Sum;
  }

  /** The highest address a copy of n bytes to `at` reaches. */
  function Top(last: nat, at: nat, n: nat): nat {
    if n > 0 && at + n - 1 > last then at + n - 1 else last
  }

  function Target(addr: nat, offset: nat): (at: nat)
    ensures at < MODULUS
  {
    (addr + offset) % MODULUS
  }

  /** Memory with these bytes at `at`, and otherwise as it was. */
  function Patched(mem: seq<byte>, at: nat, bytes: seq<byte>): (m: seq<byte>)
    requires at + |bytes| <= |mem|
    ensures |m| == |mem|
  {
    mem[..at] + bytes + mem[at + |bytes|..]
  }

  /** Data lines and the end record, from any point of a download. */
  lemma {:induction false} DataLoads(mem: seq<byte>, addr: nat, bytes: seq<byte>, offset: nat, first: nat, last: nat)
    requires |mem| == MODULUS && addr + |bytes| <= MODULUS && Target(addr, offset) + |bytes| <= MODULUS && bytes != []
    ensures var at := Target(addr, offset);
      var low, high := Lower(first, at), Top(last, at, |bytes|);
      Loaded(mem, Text(DataLines(addr, bytes) + [END]), offset, first, last) ==
        Result(Patched(mem, at, bytes), Done(low, high, Size(low, high), 0))
    decreases |bytes|
  {
    hide Loaded, Text, DataLines, Patched, Top, Lower, Size, Target, Line;
    var at := Target(addr, offset);
    var n := Least(PER_RECORD, |bytes|);
    var chunk, rest := bytes[..n], bytes[n..];
    DataStep(mem, addr, bytes, offset, first, last);
    assert bytes == chunk + rest;
    var mem' := Patched(mem, at, chunk);
    if rest == [] {
      NoDataLines(addr + n);
      LastLine(mem', offset, Lower(first, at), Top(last, at, n));
      assert chunk == bytes;
    } else {
      TargetMoves(addr, offset, n);
      Merge(first, last, at, n, |rest|);
      DataLoads(mem', addr + n, rest, offset, Lower(first, at), Top(last, at, n));
      Splice(mem, at, chunk, rest);
    }
  }

  lemma TargetMoves(addr: nat, offset: nat, n: nat)
    requires Target(addr, offset) + n < MODULUS
    ensures Target(addr + n, offset) == Target(addr, offset) + n
  {
  }

  lemma Merge(first: nat, last: nat, at: nat, n: nat, m: nat)
    requires n > 0 && m > 0
    ensures Lower(Lower(first, at), at + n) == Lower(first, at)
    ensures Top(Top(last, at, n), at + n, m) == Top(last, at, n + m)
  {
  }

  /** One data line of an upload. */
  lemma DataStep(mem: seq<byte>, addr: nat, bytes: seq<byte>, offset: nat, first: nat, last: nat)
    requires |mem| == MODULUS && addr + |bytes| <= MODULUS && Target(addr, offset) + |bytes| <= MODULUS && bytes != []
    ensures var at, n := Target(addr, offset), Least(PER_RECORD, |bytes|);
      Loaded(mem, Text(DataLines(addr, bytes) + [END]), offset, first, last) ==
        Loaded(Patched(mem, at, bytes[..n]), Text(DataLines(addr + n, bytes[n..]) + [END]), offset, Lower(first, at), Top(last, at, n))
  {
    hide Loaded, Text, DataLines, Line, Copied, BigEndian, Value, Higher, Top, Lower, AtRecord, Target, Patched;
    var at, n := Target(addr, offset), Least(PER_RECORD, |bytes|);
    var text := Text(DataLines(addr + n, bytes[n..]) + [END]);
    TextOfData(addr, bytes);
    ValueOfAddress(addr);
    CopiedIs(mem, at, bytes[..n]);
    HigherIsTop(last, at, n);
    AtData(mem, addr, bytes[..n], text, offset, first, last);
    LoadLine(mem, '3', BigEndian(addr, 4), bytes[..n], text, offset, first, last);
  }

  lemma HigherIsTop(last: nat, at: nat, n: nat)
    requires 0 < n && at + n <= MODULUS
    ensures Higher(last, at, n) == Top(last, at, n)
  {
  }

  lemma AtData(mem: seq<byte>, addr: nat, data: seq<byte>, rest: string, offset: nat, first: nat, last: nat)
    requires |mem| == MODULUS
    ensures AtRecord(mem, '3', addr, data, rest, offset, first, last) ==
      Loaded(Copied(mem, Target(addr, offset), data), rest, offset, Lower(first, Target(addr, offset)), Higher(last, Target(addr, offset), |data|))
  {
    hide Loaded, Copied, Lower, Higher;
  }

  lemma NoDataLines(addr: nat)
    ensures DataLines(addr, []) + [END] == [END]
  {
  }

  lemma ValueOfAddress(addr: nat)
    requires addr < MODULUS
    ensures Value(BigEndian(addr, 4)) == addr
  {
    assert Power(4) == MODULUS;
    ValueRoundTrip(addr, 4);
  }

  lemma TextOfData(addr: nat, bytes: seq<byte>)
    requires bytes != []
    ensures var n := Least(PER_RECORD, |bytes|);
      Text(DataLines(addr, bytes) + [END]) ==
        Line('3', BigEndian(addr, 4), bytes[..n]) + "\n" + Text(DataLines(addr + n, bytes[n..]) + [END])
  {
    hide Line, BigEndian, Text;
    var n := Least(PER_RECORD, |bytes|);
    var line, more := Line('3', BigEndian(addr, 4), bytes[..n]), DataLines(addr + n, bytes[n..]);
    assert DataLines(addr, bytes) == [line] + more;
    hide DataLines;
    Assoc([line], more, [END]);
    TextCons(line, more + [END]);
  }

  lemma TextCons(line: string, rest: seq<string>)
    ensures Text([line] + rest) == line + "\n" + Text(rest)
  {
    assert ([line] + rest)[1..] == rest;
  }

  lemma Splice(mem: seq<byte>, at: nat, a: seq<byte>, b: seq<byte>)
    requires at + |a| + |b| <= |mem|
    ensures Patched(Patched(mem, at, a), at + |a|, b) == Patched(mem, at, a + b)
  {
  }

  lemma LastLine(mem: seq<byte>, offset: nat, first: nat, last: nat)
    requires |mem| == MODULUS
    ensures Loaded(mem, Text([END]), offset, first, last) == Result(mem, Done(first, last, Size(first, last), 0))
  {
    Closing();
    ValueRoundTrip(0, 4);
    LoadLine(mem, '7', BigEndian(0, 4), [], "", offset, first, last);
    assert Text([END]) == END + "\n" + "";
    hide Loaded, Line;
  }

  /** What `save_serial` sends is loaded back, and reported with its addresses and size; but sending nothing is
      reported as two bytes, since the lowest and the highest address keep their start values. */
  lemma UploadLoadsBack(mem: seq<byte>, addr: nat, bytes: seq<byte>, offset: nat)
    requires |mem| == MODULUS && addr + |bytes| <= MODULUS && Target(addr, offset) + |bytes| <= MODULUS && |bytes| < MODULUS
    ensures var at := Target(addr, offset);
      Loaded(mem, Text(Lines(addr, bytes)), offset, NOTHING_YET, 0) ==
        if bytes == [] then Result(mem, Done(NOTHING_YET, 0, 2, 0))
        else Result(Patched(mem, at, bytes), Done(at, at + |bytes| - 1, |bytes|, 0))
  {
    hide Loaded, DataLines, Patched, Line, BigEndian, Value, Target;
    var rest := DataLines(addr, bytes) + [END];
    assert Lines(addr, bytes) == [START] + rest && Lines(addr, bytes)[1..] == rest;
    Opening();
    LoadLine(mem, '0', BigEndian(0, 2), [], Text(rest), offset, NOTHING_YET, 0);
    if bytes == [] {
      NoDataLines(addr);
      LastLine(mem, offset, NOTHING_YET, 0);
    } else {
      DataLoads(mem, addr, bytes, offset, NOTHING_YET, 0);
    }
  }

  /** The data records share out the bytes in order, PER_RECORD to each but the last. */
  lemma {:induction false} RecordsPartition(addr: nat, bytes: seq<byte>, k: nat)
    ensures var lines := DataLines(addr, bytes);
      && PER_RECORD * |lines| < |bytes| + PER_RECORD && |bytes| <= PER_RECORD * |lines|
      && (k < |lines| ==> lines[k] == Line('3', BigEndian(addr + PER_RECORD * k, 4),
                                           bytes[PER_RECORD * k..Least(PER_RECORD * k + PER_RECORD, |bytes|)]))
    decreases |bytes|
  {
    hide Line, BigEndian;
    if bytes != [] {
      var n := Least(PER_RECORD, |bytes|);
      RecordsPartition(addr + n, bytes[n..], if k > 0 then k - 1 else 0);
      if 0 < k < |DataLines(addr, bytes)| {
        assert n == PER_RECORD;
        var lo, hi := PER_RECORD * (k - 1), Least(PER_RECORD * (k - 1) + PER_RECORD, |bytes[n..]|);
        assert Least(PER_RECORD * k + PER_RECORD, |bytes|) == n + hi;
        SliceShift(bytes, n, lo, hi);
      }
    }
  }

  lemma SliceShift(s: seq<byte>, n: nat, lo: nat, hi: nat)
    requires lo <= hi && n + hi <= |s|
    ensures s[n..][lo..hi] == s[n + lo..n + hi]
  {
  }
}
