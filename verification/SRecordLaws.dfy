/** What makes a line a record, what the scanner takes for a line, and what any download leaves in memory. */
module SRecordLaws {
  import opened Bytes
  import opened SRecord

  // ---------- digits ----------

  lemma HexDigits(k: nat)
    requires k < 16
    ensures Hex1("0123456789ABCDEF"[k]) == Hex1("0123456789abcdef"[k]) == k
  {
  }

  lemma NoDigit(c: char)
    requires c !in "0123456789ABCDEFabcdef"
    ensures Hex1(c) == -1
  {
    DigitIn(c);
  }

  lemma DigitIn(c: char)
    ensures Hex1(c) >= 0 ==> c in "0123456789ABCDEFabcdef"
  {
    var all := "0123456789ABCDEFabcdef";
    if '0' <= c <= '9' {
      assert all[c as int - '0' as int] == c;
    } else if 'A' <= c <= 'F' {
      assert all[c as int - 'A' as int + 10] == c;
    } else if 'a' <= c <= 'f' {
      assert all[c as int - 'a' as int + 16] == c;
    }
  }

  /** A line is read from behind its first 'S' on. */
  lemma {:induction false} AfterSIs(s: string, k: nat)
    requires k < |s| && s[k] == 'S' && 'S' !in s[..k]
    ensures AfterS(s) == k + 1
  {
    if k > 0 {
      assert s[..k][0] == s[0] && s[..k][1..] == s[1..][..k - 1];
      AfterSIs(s[1..], k - 1);
    }
  }

  lemma {:induction false} NoS(s: string)
    requires 'S' !in s
    ensures AfterS(s) == |s| && Decode(s) == Empty
  {
    if s != "" {
      assert s[0] in s;
      NoS(s[1..]);
    }
  }

  /** Data records of type k carry k + 1 address bytes, end records of type k the 11 - k that match them; the other two
      known types carry two. */
  lemma WidthIs(k: nat)
    requires k < 10
    ensures Width("0123456789"[k]) == if 1 <= k <= 3 then k + 1 else if 7 <= k then 11 - k else if k in {0, 5} then 2 else 0
  {
  }

  // ---------- records ----------

  /** How many data bytes a length field leaves. */
  function DataBytes(kind: char, length: nat): nat {
    if kind == '5' || length < Width(kind) + 1 then 0 else length - Width(kind) - 1
  }

  lemma {:induction false} HexBytesSplit(s: string, i: nat, a: nat, b: nat)
    ensures HexBytes(s, i, a + b) ==
      if HexBytes(s, i, a).None? || HexBytes(s, i + 2 * a, b).None? then None
      else Some(HexBytes(s, i, a).value + HexBytes(s, i + 2 * a, b).value)
    decreases a
  {
    hide Hex2;
    if a == 0 {
      assert HexBytes(s, i, b).Some? ==> [] + HexBytes(s, i, b).value == HexBytes(s, i, b).value;
    } else {
      HexBytesSplit(s, i + 2, a - 1, b);
      if HexBytes(s, i + 2, a - 1).Some? && HexBytes(s, i + 2 * a, b).Some? {
        var h, x, y := Hex2(s, i), HexBytes(s, i + 2, a - 1).value, HexBytes(s, i + 2 * a, b).value;
        assert Hex2(s, i) >= 0 ==> [h] + (x + y) == [h] + x + y;
      }
    }
  }

  /** All bytes of a record: its length, address, data and checksum. */
  function AllBytes(line: string): Option<seq<byte>> {
    var p := AfterS(line);
    if p >= |line| || Hex2(line, p + 1) < 0 then None
    else HexBytes(line, p + 1, 1 + Width(line[p]) + DataBytes(line[p], Hex2(line, p + 1)) + 1)
  }

  lemma OneByte(s: string, i: nat)
    ensures HexBytes(s, i, 1) == if Hex2(s, i) < 0 then None else Some([Hex2(s, i)])
  {
    hide Hex2;
    assert HexBytes(s, i + 2, 1 - 1) == Some([]);
    if Hex2(s, i) >= 0 {
      var h: byte := Hex2(s, i);
      assert [h] + [] == [h];
    }
  }

  lemma FourParts(s: string, i: nat, w: nat, n: nat)
    ensures var addr, data, check := HexBytes(s, i + 2, w), HexBytes(s, i + 2 + 2 * w, n), Hex2(s, i + 2 + 2 * w + 2 * n);
      HexBytes(s, i, 1 + w + n + 1) ==
        if Hex2(s, i) < 0 || addr.None? || data.None? || check < 0 then None
        else Some([Hex2(s, i)] + addr.value + data.value + [check])
  {
    hide Hex2, HexBytes;
    HexBytesSplit(s, i, 1 + w + n, 1);
    HexBytesSplit(s, i, 1 + w, n);
    HexBytesSplit(s, i, 1, w);
    OneByte(s, i);
    OneByte(s, i + 2 + 2 * w + 2 * n);
  }

  lemma SumOfParts(l: byte, addr: seq<byte>, data: seq<byte>, check: byte)
    ensures Sum([l] + addr + data + [check]) == l + Sum(addr) + Sum(data) + check
  {
    hide Sum;
    SumAppend([l] + addr + data, [check]);
    SumAppend([l] + addr, data);
    SumAppend([l], addr);
    SingleSum(l);
    SingleSum(check);
  }

  lemma SingleSum(b: byte)
    ensures Sum([b]) == b
  {
    assert [b][1..] == [];
  }

  lemma CheckIff(l: byte, addr: seq<byte>, data: seq<byte>, check: byte)
    ensures check == Check(l, addr, data) <==> Sum([l] + addr + data + [check]) % 256 == 255
  {
    SumOfParts(l, addr, data, check);
    var total := l + Sum(addr) + Sum(data);
    hide Sum;
    assert check == Complement(total) <==> (total + check) % 256 == 255 by { ComplementIff(total, check); }
  }

  lemma ComplementIff(total: nat, check: byte)
    ensures check == Complement(total) <==> (total + check) % 256 == 255
  {
    var q, r := total / 256, total % 256;
    assert total + check == 256 * q + (r + check);
  }

  lemma PartsStand(l: byte, addr: seq<byte>, data: seq<byte>, check: byte)
    ensures var all, w, n := [l] + addr + data + [check], |addr|, |data|;
      all[0] == l && all[1..1 + w] == addr && all[1 + w..1 + w + n] == data
  {
  }

  /** For every line: it is a record if and only if all its bytes stand there, its type is known, and the bytes sum to
      0xFF; with another sum it is refused for that, and the address, data and count are those bytes. */
  lemma RecordIff(line: string)
    ensures Decode(line).Empty? <==> AfterS(line) >= |line|
    ensures var p := AfterS(line);
      Decode(line).BadType? <==> p < |line| && Hex2(line, p + 1) >= 0 && Width(line[p]) == 0
    ensures var p := AfterS(line);
      Decode(line).Record? <==> AllBytes(line).Some? && Width(line[p]) > 0 && Sum(AllBytes(line).value) % 256 == 255
    ensures var p := AfterS(line);
      Decode(line).BadSum? <==> AllBytes(line).Some? && Width(line[p]) > 0 && Sum(AllBytes(line).value) % 256 != 255
    ensures Decode(line).Record? ==>
      && AfterS(line) < |line| && AllBytes(line).Some?
      && var kind, all := line[AfterS(line)], AllBytes(line).value;
      var w, n := Width(kind), DataBytes(kind, all[0]);
      && |all| == 1 + w + n + 1
      && Decode(line) == Record(kind, Value(all[1..1 + w]), if kind == '5' then 0 else all[0] - w - 1, all[1 + w..1 + w + n])
  {
    var p := AfterS(line);
    hide AfterS, Hex2, HexBytes, Sum, Value, Complement;
    if p < |line| && Hex2(line, p + 1) >= 0 && Width(line[p]) > 0 {
      var l, w := Hex2(line, p + 1), Width(line[p]);
      var n := DataBytes(line[p], l);
      FourParts(line, p + 1, w, n);
      var addr, data, check := HexBytes(line, p + 3, w), HexBytes(line, p + 3 + 2 * w, n), Hex2(line, p + 3 + 2 * w + 2 * n);
      hide Width;
      if addr.Some? && data.Some? && check >= 0 {
        CheckIff(l, addr.value, data.value, check);
        PartsStand(l, addr.value, data.value, check);
      }
    }
  }

  // ---------- lines ----------

  predicate Special(c: char) { c == '\r' || c == '\n' || c == '\0' || c == '\U{0003}' }

  /** For every input: the first special character ends the line or breaks it off, unless 516 characters come first,
      which are a line of their own. */
  lemma {:induction false} ScanIs(input: string, n: nat, k: nat)
    requires n <= 516 && k <= |input| && n + k <= 516 && forall i :: 0 <= i < k ==> !Special(input[i])
    requires k == |input| || n + k == 516 || Special(input[k])
    ensures ScanLine(input, n) ==
      if n + k == 516 then Ends(516, false) else if k == |input| then Wait
      else if input[k] == '\r' || input[k] == '\n' then Ends(n + k, true) else Break
    decreases k
  {
    if k > 0 {
      ScanIs(input[1..], n + 1, k - 1);
    }
  }

  // ---------- downloads ----------

  /** A record as any program may send it. */
  datatype Rec = Rec(kind: char, addr: seq<byte>, data: seq<byte>) {
    predicate Wf() {
      Width(kind) == |addr| > 0 && |addr| + |data| < 255 && (kind == '5' ==> data == [])
    }

    predicate HasData() { kind == '1' || kind == '2' || kind == '3' }

    predicate Ends() { kind == '7' || kind == '8' || kind == '9' }

    /** Where its data go. */
    function At(offset: nat): (at: nat)
      ensures at < MODULUS
    {
      (Value(addr) + offset) % MODULUS
    }

    /** Data go somewhere, and not around the end of the address space. */
    predicate Fits(offset: nat) {
      HasData() ==> data != [] && At(offset) + |data| <= MODULUS
    }
  }

  function RecText(recs: seq<Rec>): string
    requires forall i :: 0 <= i < |recs| ==> recs[i].Wf()
  {
    if recs == [] then "" else assert recs[0].Wf(); Line(recs[0].kind, recs[0].addr, recs[0].data) + "\n" + RecText(recs[1..])
  }

  /** Memory with the data of one record after the other. */
  function Filled(mem: seq<byte>, recs: seq<Rec>, offset: nat): (m: seq<byte>)
    requires |mem| == MODULUS && forall i :: 0 <= i < |recs| ==> recs[i].Fits(offset)
    ensures |m| == MODULUS
    decreases |recs|
  {
    if recs == [] then mem
    else
      assert recs[0].Fits(offset);
      Filled(if recs[0].HasData() then Patched(mem, recs[0].At(offset), recs[0].data) else mem, recs[1..], offset)
  }

  function Lowest(first: nat, recs: seq<Rec>, offset: nat): nat
    decreases |recs|
  {
    if recs == [] then first
    else Lowest(if recs[0].HasData() && recs[0].At(offset) < first then recs[0].At(offset) else first, recs[1..], offset)
  }

  function Highest(last: nat, recs: seq<Rec>, offset: nat): nat
    decreases |recs|
  {
    if recs == [] then last
    else Highest(if recs[0].HasData() then Top(last, recs[0].At(offset), |recs[0].data|) else last, recs[1..], offset)
  }

  /** The loader at one record. */
  lemma RecordLoads(mem: seq<byte>, r: Rec, rest: string, offset: nat, first: nat, last: nat)
    requires |mem| == MODULUS && r.Wf() && r.Fits(offset)
    ensures Loaded(mem, Line(r.kind, r.addr, r.data) + "\n" + rest, offset, first, last) ==
      if r.HasData() then
        Loaded(Patched(mem, r.At(offset), r.data), rest, offset, Lower(first, r.At(offset)), Top(last, r.At(offset), |r.data|))
      else if r.Ends() then Result(mem, Done(first, last, Size(first, last), Value(r.addr)))
      else Loaded(mem, rest, offset, first, last)
  {
    hide Loaded, Copied, Patched, Line, Lower, Higher, Top, Size, Value, Width, AtRecord;
    LoadLine(mem, r.kind, r.addr, r.data, rest, offset, first, last);
    if r.HasData() {
      CopiedIs(mem, r.At(offset), r.data);
      HigherIsTop(last, r.At(offset), |r.data|);
    }
    AtRecordIs(mem, r, rest, offset, first, last);
  }

  lemma AtRecordIs(mem: seq<byte>, r: Rec, rest: string, offset: nat, first: nat, last: nat)
    requires |mem| == MODULUS
    ensures AtRecord(mem, r.kind, Value(r.addr), r.data, rest, offset, first, last) ==
      if r.HasData() then
        Loaded(Copied(mem, r.At(offset), r.data), rest, offset, Lower(first, r.At(offset)), Higher(last, r.At(offset), |r.data|))
      else if r.Ends() then Result(mem, Done(first, last, Size(first, last), Value(r.addr)))
      else Loaded(mem, rest, offset, first, last)
  {
    hide Loaded, Copied, Lower, Higher, Size, Value;
  }

  /** Any sequence of records of any types, ended by any end record, leaves the data in memory in their order, and is
      reported with the lowest and the highest address written and the address in the end record. */
  lemma {:induction false} RecordsLoad(mem: seq<byte>, recs: seq<Rec>, end: Rec, rest: string, offset: nat, first: nat, last: nat)
    requires |mem| == MODULUS && end.Wf() && end.Ends()
    requires forall i :: 0 <= i < |recs| ==> recs[i].Wf() && recs[i].Fits(offset) && !recs[i].Ends()
    ensures var low, high := Lowest(first, recs, offset), Highest(last, recs, offset);
      Loaded(mem, RecText(recs) + (Line(end.kind, end.addr, end.data) + "\n" + rest), offset, first, last) ==
        Result(Filled(mem, recs, offset), Done(low, high, Size(low, high), Value(end.addr)))
    decreases |recs|
  {
    hide Loaded, Patched, Line, Size, Value, Width, Top;
    var more := Line(end.kind, end.addr, end.data) + "\n" + rest;
    if recs == [] {
      assert "" + more == more;
      RecordLoads(mem, end, rest, offset, first, last);
    } else {
      var r, others := recs[0], recs[1..];
      assert RecText(recs) + more == Line(r.kind, r.addr, r.data) + "\n" + (RecText(others) + more);
      RecordLoads(mem, r, RecText(others) + more, offset, first, last);
      var at := r.At(offset);
      if r.HasData() {
        RecordsLoad(Patched(mem, at, r.data), others, end, rest, offset, Lower(first, at), Top(last, at, |r.data|));
      } else {
        RecordsLoad(mem, others, end, rest, offset, first, last);
      }
    }
  }

  /** The lowest address is that of some record, and no record's is lower. */
  lemma {:induction false} LowestIs(first: nat, recs: seq<Rec>, offset: nat)
    ensures var low := Lowest(first, recs, offset);
      && low <= first && (forall i :: 0 <= i < |recs| && recs[i].HasData() ==> low <= recs[i].At(offset))
      && (low == first || exists i :: 0 <= i < |recs| && recs[i].HasData() && recs[i].At(offset) == low)
    decreases |recs|
  {
    if recs != [] {
      var r, others := recs[0], recs[1..];
      var f := if r.HasData() && r.At(offset) < first then r.At(offset) else first;
      LowestIs(f, others, offset);
      hide Rec.At;
      assert forall i :: 0 < i < |recs| ==> recs[i] == others[i - 1];
      assert forall i :: 0 <= i < |others| ==> others[i] == recs[i + 1];
    }
  }

  /** A line that is no record ends the download, with memory as it was before. */
  lemma BadLineAborts(mem: seq<byte>, line: string, rest: string, offset: nat, first: nat, last: nat)
    requires |mem| == MODULUS && Plain(line) && |line| < MAX_LINE
    ensures Decode(line) in {NoRecord, BadType, BadSum} ==>
      Loaded(mem, line + "\n" + rest, offset, first, last) == Result(mem, Aborted)
    ensures Decode(line) == Empty ==>
      Loaded(mem, line + "\n" + rest, offset, first, last) == Loaded(mem, rest, offset, first, last)
  {
    hide Decode, Copied, ScanLine, Lower, Higher, Size;
    FirstLine(line, rest);
  }
}
