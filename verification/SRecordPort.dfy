/** `save_serial` and `load_serial`: S-records out of and into memory over the serial line. */
module SRecordPort {
  import opened Bytes
  import opened SRecord

  /** The checksum loops add the bytes of a number from the lowest up. */
  function LowBytes(v: nat, n: nat): nat {
    if n == 0 then 0 else LowBytes(v, n - 1) + v / Power(n - 1) % 256
  }

  lemma LengthBytes(v: nat)
    requires v < 256
    ensures LowBytes(v, 2) == v
  {
    assert Power(0) == 1 && Power(1) == 256;
    assert LowBytes(v, 1) == v / 1 % 256;
  }

  lemma AddressBytes(v: nat)
    ensures LowBytes(v, 4) == Sum(BigEndian(v, 4))
  {
    var v1 := v / 256;
    var v2 := v1 / 256;
    var v3 := v2 / 256;
    assert Power(1) == 256 && Power(2) == 65536 && Power(3) == 16777216;
    assert v / 65536 == v2 && v / 16777216 == v3;
    assert Power(0) == 1 && LowBytes(v, 1) == v / 1 % 256;
    assert LowBytes(v, 2) == v % 256 + v1 % 256;
    assert LowBytes(v, 3) == LowBytes(v, 2) + v2 % 256;
    assert BigEndian(v2, 2) == [v3 % 256, v2 % 256];
    assert BigEndian(v1, 3) == BigEndian(v2, 2) + [v1 % 256];
    assert BigEndian(v, 4) == BigEndian(v1, 3) + [v % 256];
    SumNext(BigEndian(v1, 3), v % 256);
    SumNext(BigEndian(v2, 2), v1 % 256);
    SumNext([v3 % 256], v2 % 256);
    assert [v3 % 256] + [v2 % 256] == BigEndian(v2, 2);
    assert Sum([v3 % 256]) == v3 % 256;
  }

  lemma SumNext(s: seq<byte>, c: byte)
    ensures Sum(s + [c]) == Sum(s) + c
  {
    SumAppend(s, [c]);
    assert Sum([c]) == c;
  }

  lemma HexNext(s: seq<byte>, c: byte)
    ensures HexText(s + [c]) == HexText(s) + [Digit(c / 16), Digit(c % 16)]
  {
    HexTextAppend(s, [c]);
    assert HexText([c]) == Pair(c) + "";
  }

  lemma Regrouped(l: string, a: string, d: string, c: string)
    ensures "S3" + l + a + d + c == ['S', '3'] + (l + (a + (d + c)))
  {
  }

  lemma OneByteText(v: byte)
    ensures Padded(v, 2) == Pair(v)
  {
    assert v / 16 % 16 == v / 16;
    assert Padded(v, 2) == Padded(v / 16, 1) + [Digit(v % 16)];
    assert Padded(v / 16, 1) == Padded(v / 256, 0) + [Digit(v / 16 % 16)];
  }

  /** SREC3_FORMAT, filled in as `save_serial` does, is a type 3 line. */
  lemma FormatIsLine(addr: nat, data: seq<byte>, length: byte, total: nat)
    requires |data| <= PER_RECORD && addr < MODULUS
    requires length == 4 + |data| + 1 && total == Sum(data) + LowBytes(length, 2) + LowBytes(addr, 4)
    ensures "S3" + Padded(length, 2) + Padded(addr, 8) + HexText(data) + Padded(Complement(total), 2) == Line('3', BigEndian(addr, 4), data)
  {
    hide BigEndian, Padded, LowBytes, HexText, Pair, Complement;
    var check := Complement(total);
    TotalIs(addr, data, length, total);
    OneByteText(length);
    PaddedIsHexText(addr, 4);
    OneByteText(check);
    Regrouped(Pair(length), HexText(BigEndian(addr, 4)), HexText(data), Pair(check));
  }

  lemma TotalIs(addr: nat, data: seq<byte>, length: byte, total: nat)
    requires total == Sum(data) + LowBytes(length, 2) + LowBytes(addr, 4)
    ensures Complement(total) == Check(length, BigEndian(addr, 4), data)
  {
    hide Complement;
    LengthBytes(length);
    AddressBytes(addr);
    assert total == length + Sum(BigEndian(addr, 4)) + Sum(data);
  }

  class Port {
    const ram: array<byte>
    var sent: string
    var input: string

    ghost predicate Valid() { ram.Length == MODULUS }

    constructor (ram: array<byte>, input: string)
      requires ram.Length == MODULUS
      ensures Valid() && this.ram == ram && this.input == input && sent == ""
    {
      this.ram, this.input, sent := ram, input, "";
    }

    method WriteRecord(record: string)
      modifies this`sent
      ensures sent == old(sent) + record
    {
      for i := 0 to |record|
        invariant sent == old(sent) + record[..i]
      {
        sent := sent + [record[i]];
        assert record[..i + 1] == record[..i] + [record[i]];
      }
      assert record[..|record|] == record;
    }

    /** The bytes of a number, lowest first, added to the checksum. */
    static method AddBytes(checksum: nat, v: nat, n: nat) returns (sum: nat)
      ensures sum == checksum + LowBytes(v, n)
    {
      sum := checksum;
      for i := 0 to n
        invariant sum == checksum + LowBytes(v, i)
      {
        sum := sum + v / Power(i) % 256;
      }
    }

    method SaveSerial(address: nat, count: nat)
      requires Valid() && address + count <= MODULUS
      modifies this`sent
      ensures sent == old(sent) + Text(Lines(address, ram[address..address + count]))
    {
      hide Line, DataLines, Text, Sum, HexText, BigEndian;
      ghost var mem, finish := ram[..], address + count;
      ghost var all := old(sent) + Text(Lines(address, mem[address..finish]));
      var at, left, reclen, checksum := address, count, 0, 0;
      var data := new char[2 * PER_RECORD + 1];
      WriteRecord(START + "\n");
      FirstRecord(mem, at, finish, old(sent));
      NothingCollected(mem, at);
      while true
        invariant ram[..] == mem && 0 <= at && 0 <= left && at + reclen + left == finish
        invariant 0 <= reclen < PER_RECORD && (left == 0 ==> reclen == 0)
        invariant checksum == Sum(mem[at..at + reclen]) && data[..2 * reclen] == HexText(mem[at..at + reclen])
        invariant sent + Text(DataLines(at, mem[at..finish]) + [END]) == all
        decreases left
      {
        if left > 0 {
          checksum := Collect(at, reclen, checksum, data);
          reclen := reclen + 1;
          left := left - 1;
        }
        if reclen == PER_RECORD || left == 0 {
          if reclen > 0 {
            NextRecord(mem, at, reclen, finish, sent);
            SendRecord(at, reclen, checksum, data);
          }
          at := at + reclen;
          checksum, reclen := 0, 0;
          NothingCollected(mem, at);
        }
        if left == 0 {
          break;
        }
      }
      LastRecord(mem, at, sent);
      WriteRecord(END + "\n");
    }

    /** The next byte goes into the buffer for hexadecimal data. */
    method Collect(at: nat, reclen: nat, sum: nat, data: array<char>) returns (checksum: nat)
      requires Valid() && reclen < PER_RECORD && at + reclen < MODULUS && data.Length == 2 * PER_RECORD + 1
      requires sum == Sum(ram[at..at + reclen]) && data[..2 * reclen] == HexText(ram[at..at + reclen])
      modifies data
      ensures checksum == Sum(ram[at..at + reclen + 1]) && data[..2 * (reclen + 1)] == HexText(ram[at..at + reclen + 1])
    {
      hide Sum, HexText;
      var c := ram[at + reclen];
      SumNext(ram[at..at + reclen], c);
      HexNext(ram[at..at + reclen], c);
      assert ram[at..at + reclen + 1] == ram[at..at + reclen] + [c];
      checksum := sum + c;
      data[2 * reclen] := Digit(c / 16);
      data[2 * reclen + 1] := Digit(c % 16);
      data[2 * reclen + 2] := '\0';
      assert data[..2 * (reclen + 1)] == data[..2 * reclen] + [Digit(c / 16), Digit(c % 16)];
    }

    /** The data collected for one record goes out. */
    method SendRecord(at: nat, reclen: nat, sum: nat, data: array<char>)
      requires Valid() && 0 < reclen <= PER_RECORD && at + reclen <= MODULUS && data.Length == 2 * PER_RECORD + 1
      requires sum == Sum(ram[at..at + reclen]) && data[..2 * reclen] == HexText(ram[at..at + reclen])
      modifies this`sent
      ensures sent == old(sent) + (Line('3', BigEndian(at, 4), ram[at..at + reclen]) + "\n")
    {
      hide HexText, Sum, BigEndian, Padded, LowBytes, Line, Complement;
      var length := 4 + reclen + 1;
      var checksum := AddBytes(sum, length, 2);
      checksum := AddBytes(checksum, at, 4);
      ghost var total := checksum;
      checksum := Complement(checksum);
      FormatIsLine(at, ram[at..at + reclen], length, total);
      WriteRecord("S3" + Padded(length, 2) + Padded(at, 8) + data[..2 * reclen] + Padded(checksum, 2) + "\n");
    }

    /** `read_record` into a buffer of SREC_MAXRECLEN + 1 characters. */
    method ReadRecord(buf: array<char>) returns (scan: Scan)
      requires buf.Length == MAX_LINE + 1
      modifies this`input, buf
      ensures scan == ScanLine(old(input), 0)
      ensures scan.Ends? ==>
        && buf[..scan.length] == old(input)[..scan.length]
        && input == old(input)[scan.length + (if scan.terminated then 1 else 0)..]
    {
      ghost var line := input;
      var p := 0;
      while p < MAX_LINE
        invariant 0 <= p <= MAX_LINE && p <= |line|
        invariant input == line[p..] && ScanLine(line, 0) == ScanLine(input, p) && buf[..p] == line[..p]
      {
        if input == "" {
          return Wait;
        }
        var c := input[0];
        input := input[1..];
        if c == '\r' || c == '\n' {
          buf[p] := '\0';
          return Ends(p, true);
        } else if c == '\0' || c == '\U{0003}' {
          return Break;
        }
        buf[p] := c;
        p := p + 1;
      }
      buf[p] := '\0';
      return Ends(p, false);
    }

    /** `memcpy` to an address that is not in flash. */
    method Store(at: nat, data: seq<byte>)
      requires Valid() && at < MODULUS
      modifies ram
      ensures ram[..] == Copied(old(ram[..]), at, data)
    {
      hide Copied;
      ghost var mem := ram[..];
      var p := at;
      CopiedStart(mem, at, data);
      for i := 0 to |data|
        invariant ram[..] == mem && 0 <= p < MODULUS && Copied(old(ram[..]), at, data) == Copied(mem, p, data[i..])
      {
        CopiedNext(mem, p, data, i);
        ram[p] := data[i];
        mem := mem[p := data[i]];
        p := (p + 1) % MODULUS;
      }
      CopiedEnd(mem, p, data);
    }

    method LoadSerial(offset: nat) returns (ending: Ending)
      requires Valid()
      modifies this`input, ram
      ensures Result(ram[..], ending) == Loaded(old(ram[..]), old(input), offset, NOTHING_YET, 0)
    {
      hide Decode, ScanLine, Copied;
      var record := new char[MAX_LINE + 1];
      var startAddr, endAddr := NOTHING_YET, 0;
      while true
        invariant Loaded(ram[..], input, offset, startAddr, endAddr) == Loaded(old(ram[..]), old(input), offset, NOTHING_YET, 0)
        decreases |input|
      {
        var scan := ReadRecord(record);
        if scan.Wait? {
          return Silent;
        }
        if scan.Break? {
          return Aborted;
        }
        match Decode(record[..scan.length]) {
          case NoRecord => return Aborted;
          case BadType => return Aborted;
          case BadSum => return Aborted;
          case Empty =>
          case Record(kind, addr, count, data) =>
            if kind == '1' || kind == '2' || kind == '3' {
              if count < 0 {
                return Runaway;
              }
              var storeAddr := (addr + offset) % MODULUS;
              Store(storeAddr, data);
              startAddr := Lower(startAddr, storeAddr);
              endAddr := Higher(endAddr, storeAddr, count);
            } else if kind == '7' || kind == '8' || kind == '9' {
              return Done(startAddr, endAddr, Size(startAddr, endAddr), addr);
            }
        }
      }
    }
  }

  lemma CopiedStart(mem: seq<byte>, at: nat, data: seq<byte>)
    requires |mem| == MODULUS && at < MODULUS
    ensures Copied(mem, at, data) == Copied(mem, at, data[0..])
  {
    assert data[0..] == data;
  }

  lemma CopiedNext(mem: seq<byte>, p: nat, data: seq<byte>, i: nat)
    requires |mem| == MODULUS && p < MODULUS && i < |data|
    ensures Copied(mem, p, data[i..]) == Copied(mem[p := data[i]], (p + 1) % MODULUS, data[i + 1..])
  {
    assert data[i..][1..] == data[i + 1..];
  }

  lemma CopiedEnd(mem: seq<byte>, p: nat, data: seq<byte>)
    requires |mem| == MODULUS && p < MODULUS
    ensures Copied(mem, p, data[|data|..]) == mem
  {
  }

  lemma NextRecord(mem: seq<byte>, at: nat, n: nat, finish: nat, before: string)
    requires at + n <= finish <= |mem| && n == Least(PER_RECORD, finish - at) > 0
    ensures before + Text(DataLines(at, mem[at..finish]) + [END]) ==
      before + (Line('3', BigEndian(at, 4), mem[at..at + n]) + "\n") + Text(DataLines(at + n, mem[at + n..finish]) + [END])
  {
    hide Line, BigEndian;
    var rest := mem[at..finish];
    TextOfData(at, rest);
    assert rest[..n] == mem[at..at + n] && rest[n..] == mem[at + n..finish];
  }

  lemma FirstRecord(mem: seq<byte>, at: nat, finish: nat, before: string)
    requires at <= finish <= |mem|
    ensures before + (START + "\n") + Text(DataLines(at, mem[at..finish]) + [END]) == before + Text(Lines(at, mem[at..finish]))
  {
    var rest := DataLines(at, mem[at..finish]) + [END];
    assert Lines(at, mem[at..finish]) == [START] + rest;
    TextStep(before, START, rest);
  }

  lemma LastRecord(mem: seq<byte>, at: nat, before: string)
    requires at <= |mem|
    ensures before + (END + "\n") == before + Text(DataLines(at, mem[at..at]) + [END])
  {
    assert mem[at..at] == [];
    NoDataLines(at);
    assert [END] + [] == [END];
    TextStep(before, END, []);
  }

  lemma NothingCollected(mem: seq<byte>, at: nat)
    requires at <= |mem|
    ensures Sum(mem[at..at]) == 0 && HexText(mem[at..at]) == ""
  {
    assert mem[at..at] == [];
  }

  lemma TextStep(before: string, line: string, rest: seq<string>)
    ensures before + Text([line] + rest) == before + (line + "\n") + Text(rest)
  {
    hide Text;
    TextCons(line, rest);
    Assoc(before, line + "\n", Text(rest));
  }
}
