/** `k_recv` and its helpers on the receiver's global state, proved to do what KermitProtocol says. */
module KermitReceiver {
  import opened Bytes
  import opened KermitProtocol

  datatype Status = Complete | Interrupted | Silent

  datatype Ending = Fine | Error | Starved

  class Receiver {
    const memory: array<byte>     // where the image is loaded
    const binStart: nat
    const aB: array<byte>         // a_b[24], the packet under construction
    const sendParms: array<byte>  // send_parms[20]
    var sendPtr: nat
    var hisEol: byte
    var hisPadCount: nat
    var hisPadChar: byte
    var hisQuote: byte
    var kDataEscape: bool
    var kDataEscapeSaved: bool
    var osDataAddr: nat
    var osDataAddrSaved: nat
    var sent: seq<byte>           // every byte given to putc

    ghost predicate Valid()
      reads this
    {
      && aB.Length == 24 && sendParms.Length == 20
      && memory != aB && memory != sendParms && aB != sendParms
      && binStart <= osDataAddrSaved <= osDataAddr <= memory.Length
      && sendPtr <= 19
    }

    ghost function Cur(): Decoder
      requires Valid()
      reads this, memory
    {
      Decoder(kDataEscape, memory[binStart..osDataAddr])
    }

    ghost function Saved(): Decoder
      requires Valid()
      reads this, memory
    {
      Decoder(kDataEscapeSaved, memory[binStart..osDataAddrSaved])
    }

    ghost function State(lastN: Option<byte>): Link
      requires Valid()
      reads this, memory
    {
      Link(Cur(), Saved(), lastN, hisQuote, hisEol, hisPadCount, hisPadChar, sent)
    }

    /** `set_kerm_bin_mode`. */
    constructor (memory: array<byte>, addr: nat)
      requires addr <= memory.Length
      ensures Valid() && this.memory == memory && binStart == addr && sent == []
      ensures fresh(aB) && fresh(sendParms)
    {
      this.memory, binStart := memory, addr;
      aB, sendParms := new byte[24], new byte[20];
      sendPtr, hisEol, hisPadCount, hisPadChar, hisQuote := 0, CR, 0, NUL, K_ESCAPE;
      kDataEscape, kDataEscapeSaved := false, false;
      osDataAddr, osDataAddrSaved := addr, addr;
      sent := [];
    }

    // ---------- k_data_*, os_data_*, bin_data_* ----------

    method KDataInit()
      requires Valid()
      modifies this`kDataEscape, this`osDataAddr, this`osDataAddrSaved, this`kDataEscapeSaved
      ensures Valid() && Cur() == Decoder(false, []) == Saved()
    {
      kDataEscape := false;
      osDataAddr := binStart;
      osDataAddrSaved := binStart;
      kDataEscapeSaved := false;
    }

    method KDataSave()
      requires Valid()
      modifies this`kDataEscapeSaved, this`osDataAddrSaved
      ensures Valid() && Saved() == old(Cur())
      ensures osDataAddrSaved == osDataAddr
    {
      kDataEscapeSaved := kDataEscape;
      osDataAddrSaved := osDataAddr;
    }

    method KDataRestore()
      requires Valid()
      modifies this`kDataEscape, this`osDataAddr
      ensures Valid() && Cur() == old(Saved())
      ensures osDataAddr == osDataAddrSaved
    {
      kDataEscape := kDataEscapeSaved;
      osDataAddr := osDataAddrSaved;
    }

    method OsDataChar(c: byte)
      requires Valid() && osDataAddr < memory.Length
      modifies this`osDataAddr, memory
      ensures Valid() && osDataAddr == old(osDataAddr) + 1
      ensures memory[binStart..osDataAddr] == old(memory[binStart..osDataAddr]) + [c]
      ensures memory[..old(osDataAddr)] == old(memory[..osDataAddr])
      ensures forall k :: osDataAddr <= k < memory.Length ==> memory[k] == old(memory[k])
    {
      memory[osDataAddr] := c;
      osDataAddr := osDataAddr + 1;
    }

    method KDataChar(c: byte)
      requires Valid() && osDataAddr < memory.Length
      modifies this`osDataAddr, this`kDataEscape, memory
      ensures Valid() && Cur() == Feed1(old(Cur()), hisQuote, c)
      ensures old(osDataAddr) <= osDataAddr <= old(osDataAddr) + 1
      ensures memory[..old(osDataAddr)] == old(memory[..osDataAddr])
      ensures forall k :: osDataAddr <= k < memory.Length ==> memory[k] == old(memory[k])
    {
      if kDataEscape {
        OsDataChar(KTrans(c));
        kDataEscape := false;
      } else {
        if c == hisQuote {
          kDataEscape := true;
        } else {
          OsDataChar(c);
        }
      }
    }

    // ---------- replies ----------

    method SendPad()
      modifies this`sent
      ensures sent == old(sent) + Repeat(hisPadChar, hisPadCount)
    {
      var count := hisPadCount;
      while count > 0
        invariant 0 <= count <= hisPadCount
        invariant sent == old(sent) + Repeat(hisPadChar, hisPadCount - count)
      {
        sent := sent + [hisPadChar];
        count := count - 1;
      }
    }

    /** `chk1` on the string at a_b[from]. */
    method Chk1(start: nat, ghost str: seq<byte>) returns (c: nat)
      requires NoNul(str) && start + |str| < aB.Length
      requires aB[start..start + |str| + 1] == str + [NUL]
      ensures c == (Sum(str) + Sum(str) / 64 % 4) % 64
    {
      var total: nat, i := 0, start;
      while aB[i] != NUL
        invariant start <= i <= start + |str|
        invariant aB[i] == aB[start..start + |str| + 1][i - start]
        invariant total == Sum(str[..i - start])
        decreases start + |str| - i
      {
        assert str[..i + 1 - start][..i - start] == str[..i - start];
        total := total + aB[i];
        i := i + 1;
        assert aB[i] == aB[start..start + |str| + 1][i - start];
      }
      assert str[..|str|] == str;
      c := (total + total / 64 % 4) % 64;
    }

    /** `s1_sendpacket`. */
    method SendPacket(ghost str: seq<byte>)
      requires NoNul(str) && |str| < aB.Length && aB[..|str| + 1] == str + [NUL]
      modifies this`sent
      ensures sent == old(sent) + Repeat(hisPadChar, hisPadCount) + str
    {
      SendPad();
      ghost var before := sent;
      var i := 0;
      while aB[i] != NUL
        invariant i <= |str| && aB[i] == aB[..|str| + 1][i]
        invariant sent == before + str[..i]
        decreases |str| - i
      {
        sent := sent + [aB[i]];
        i := i + 1;
        assert aB[i] == aB[..|str| + 1][i];
        assert str[..i] == str[..i - 1] + [str[i - 1]];
      }
      assert str[..|str|] == str;
    }

    /** Fills in everything but the parameters, which already are in a_b[4..]. */
    method BuildFrame(length: nat, n: byte, typ: byte, ghost params: seq<byte>)
      requires aB.Length == 24 && length == 4 + |params| <= 17
      requires n < 224 && typ != NUL && NoNul(params) && aB[4..length] == params
      modifies aB
      ensures aB[..length + 1] == Frame(n, typ, params)
    {
      hide Sum;
      aB[0] := START;
      aB[1] := ToChar(length - 1);
      aB[2] := ToChar(n);
      aB[3] := typ;
      aB[length] := NUL;
      ghost var head := [ToChar(3 + |params|), ToChar(n), typ] + params;
      assert aB[4..length] == params;
      assert aB[..length + 1] == [START] + head + [NUL];
      assert aB[1..1 + |head| + 1] == head + [NUL];
      var c := Chk1(1, head);
      aB[length] := ToChar(c);
      assert aB[..length + 1] == [START] + head + [ToChar(c)];
    }

    /** The framing shared by `send_ack`, `send_nack` and `handle_send_packet`: `length` counts the
        characters of a_b up to the last parameter. */
    method FinishPacket(length: nat, n: byte, typ: byte, ghost params: seq<byte>)
      requires aB.Length == 24 && length == 4 + |params| <= 17
      requires n < 224 && typ != NUL && NoNul(params) && aB[4..length] == params
      modifies this`sent, aB
      ensures sent == old(sent) + (Repeat(hisPadChar, hisPadCount) + Frame(n, typ, params)
                                   + if hisEol == NUL then [] else [hisEol])
    {
      hide Repeat;
      BuildFrame(length, n, typ, params);
      FrameNoNul(n, typ, params);
      hide Frame;
      ghost var f := Frame(n, typ, params);
      aB[length + 1] := hisEol;
      aB[length + 2] := NUL;
      assert aB[..length + 1] == f;
      if hisEol == NUL {
        assert aB[..|f| + 1] == f + [NUL];
        SendPacket(f);
        assert f + [] == f;
      } else {
        assert aB[..|f| + 2] == f + [hisEol] + [NUL];
        SendPacket(f + [hisEol]);
      }
    }

    method SendAck(n: byte, ghost lastN: Option<byte>)
      requires Valid() && n < 224
      modifies this`sent, aB
      ensures State(lastN) == Respond(old(State(lastN)), n, ACK, [])
    {
      FinishPacket(4, n, ACK, []);
    }

    method SendNack(n: byte, ghost lastN: Option<byte>)
      requires Valid() && n < 224
      modifies this`sent, aB
      ensures State(lastN) == Respond(old(State(lastN)), n, NACK, [])
    {
      FinishPacket(4, n, NACK, []);
    }

    /** Puts the next parameter of the answer in place. */
    method Offer(length: nat, c: byte) returns (length': nat)
      requires 4 <= length < 17 && aB.Length == 24 && c == OFFER[length - 4]
      requires aB[4..length] == OFFER[..length - 4]
      modifies aB
      ensures length' == length + 1 && aB[4..length'] == OFFER[..length' - 4]
    {
      aB[length] := c;
      length' := length + 1;
      assert aB[4..length'] == aB[4..length] + [c];
    }

    method HandleSendPacket(n: byte, ghost data: seq<byte>, ghost lastN: Option<byte>)
      requires Valid() && n < 224
      requires sendPtr == Min(|data|, 19) && forall i :: 0 <= i < sendPtr ==> sendParms[i] == data[i]
      modifies this`sent, this`sendPtr, this`hisEol, this`hisPadCount, this`hisPadChar, this`hisQuote, aB
      ensures Valid()
      ensures State(lastN) == Negotiate(old(State(lastN)), n, data)
    {
      ghost var l := State(lastN);
      hisEol := CR;
      hisPadCount := 0;
      hisPadChar := NUL;
      hisQuote := K_ESCAPE;
      if sendPtr == 19 {
        sendPtr := sendPtr - 1;
      }
      var bytes := sendPtr;
      TakeOver(bytes, data);
      ghost var l' := Adopt(l, data);
      assert State(lastN) == l';
      Acknowledge(n, bytes);
      assert State(lastN) == Respond(l', n, ACK, if bytes >= 10 then OFFER else OFFER[..bytes]);
    }

    method Acknowledge(n: byte, bytes: nat)
      requires aB.Length == 24 && n < 224
      modifies this`sent, aB
      ensures sent == old(sent) + (Repeat(hisPadChar, hisPadCount)
                                   + Frame(n, ACK, if bytes >= 10 then OFFER else OFFER[..bytes])
                                   + if hisEol == NUL then [] else [hisEol])
    {
      var length := Answer(bytes);
      OfferNoNul();
      FinishPacket(length, n, ACK, OFFER[..length - 4]);
      assert OFFER[..13] == OFFER;
    }

    /** The cascade of `handle_send_packet`, what it remembers of the sender's parameters: each
        is looked at only if the sender gave that many. */
    method TakeOver(bytes: nat, ghost data: seq<byte>)
      requires Valid() && bytes == Parameters(data)
      requires forall i :: 0 <= i < bytes ==> sendParms[i] == data[i]
      requires hisEol == CR && hisPadCount == 0 && hisPadChar == NUL && hisQuote == K_ESCAPE
      modifies this`hisEol, this`hisPadCount, this`hisPadChar, this`hisQuote
      ensures hisPadCount == if bytes >= 3 then UnToChar(data[2]) else 0
      ensures hisPadChar == if bytes >= 4 then KTrans(data[3]) else NUL
      ensures hisEol == if bytes >= 5 then UnToChar(data[4]) else CR
      ensures hisQuote == if bytes >= 6 then data[5] else K_ESCAPE
    {
      if bytes < 3 { return; }
      hisPadCount := UnToChar(sendParms[2]);
      if bytes < 4 { return; }
      hisPadChar := KTrans(sendParms[3]);
      if bytes < 5 { return; }
      hisEol := UnToChar(sendParms[4]);
      if bytes < 6 { return; }
      hisQuote := sendParms[5];
    }

    /** The same cascade, what it answers: one parameter for each of the sender's first nine,
        and the four capability characters together for the tenth. */
    method Answer(bytes: nat) returns (length: nat)
      requires aB.Length == 24
      modifies aB
      ensures length == 4 + if bytes >= 10 then 13 else bytes
      ensures aB[4..length] == OFFER[..length - 4]
    {
      length := 4;
      if bytes < 1 { return; }
      length := Offer(length, ToChar(94));
      if bytes < 2 { return; }
      length := Offer(length, ToChar(1));
      if bytes < 3 { return; }
      length := Offer(length, ToChar(0));
      if bytes < 4 { return; }
      length := Offer(length, 0x40);
      if bytes < 5 { return; }
      length := Offer(length, ToChar(13));
      length := AnswerMore(bytes, length);
    }

    method AnswerMore(bytes: nat, length0: nat) returns (length: nat)
      requires aB.Length == 24 && bytes >= 5 && length0 == 9 && aB[4..9] == OFFER[..5]
      modifies aB
      ensures length == 4 + if bytes >= 10 then 13 else bytes
      ensures aB[4..length] == OFFER[..length - 4]
    {
      length := length0;
      if bytes < 6 { return; }
      length := Offer(length, 35);
      if bytes < 7 { return; }
      length := Offer(length, 78);
      if bytes < 8 { return; }
      length := Offer(length, 49);
      if bytes < 9 { return; }
      length := Offer(length, 78);
      if bytes < 10 { return; }
      length := Offer(length, ToChar(2));
      length := Offer(length, ToChar(0));
      length := Offer(length, ToChar(94));
      length := Offer(length, ToChar(94));
    }

    // ---------- k_recv ----------

    /** What happens to one data character of a packet of type `kState`. */
    method TakeChar(c: byte, kState: byte, ghost d: Decoder, ghost data: seq<byte>)
      requires Valid() && osDataAddr < memory.Length
      requires Cur() == Took(d, kState, hisQuote, data) && (kState == SEND ==> Collected(data))
      modifies this`osDataAddr, this`kDataEscape, this`sendPtr, memory, sendParms
      ensures Valid()
      ensures old(osDataAddr) <= osDataAddr <= old(osDataAddr) + 1
      ensures forall k :: 0 <= k < old(osDataAddr) || osDataAddr <= k < memory.Length ==> memory[k] == old(memory[k])
      ensures Cur() == Took(d, kState, hisQuote, data + [c]) && (kState == SEND ==> Collected(data + [c]))
    {
      assert (data + [c])[..|data|] == data;
      if kState == DATA {
        KDataChar(c);
      } else if kState == SEND {
        sendParms[sendPtr] := c;
        if sendPtr + 1 < sendParms.Length {
          sendPtr := sendPtr + 1;
        }
      }
    }

    /** The data loop of `k_recv`; `p0` is where the packet's length byte stands. */
    method ReceiveData(input: seq<byte>, ghost p0: nat, pos0: nat, kState: byte, sum0: nat, length0: int, ghost limit: nat)
      returns (e: Ending, pos: nat, sum: nat)
      requires Valid() && sendPtr == 0
      requires p0 <= pos0 <= |input|
      requires sum0 == Sum(input[p0..][..pos0 - p0])
      requires osDataAddr + |input| - pos0 <= limit <= memory.Length
      modifies this`osDataAddr, this`kDataEscape, this`sendPtr, memory, sendParms
      ensures forall k :: limit <= k < memory.Length ==> memory[k] == old(memory[k])
      ensures Valid() && old(osDataAddr) <= osDataAddr
      ensures memory[..old(osDataAddr)] == old(memory[..osDataAddr])
      ensures pos0 <= pos <= |input| && osDataAddr + |input| - pos <= limit
      ensures forall k :: pos0 <= k < pos - (if e == Error then 1 else 0) ==> Printable(input[k])
      ensures e == Error ==> pos0 < pos <= pos0 + (length0 - 1) && !Printable(input[pos - 1])
      ensures e == Starved ==> pos == |input| < pos0 + (length0 - 1)
      ensures e == Fine ==>
                && pos == pos0 + (if length0 > 1 then length0 - 1 else 0)
                && sum == SumTo(input, p0, pos)
                && Cur() == Took(old(Cur()), kState, hisQuote, Piece(input, pos0, pos))
                && (kState == SEND ==> Collected(Piece(input, pos0, pos)))
    {
      ghost var cur0 := Cur();
      NoData(input, p0, pos0, kState, sum0);
      hide DataSoFar, Sum, Cur;
      var length: int := length0;
      e, pos, sum := Fine, pos0, sum0;
      while length > 1
        invariant Valid() && pos0 <= pos <= |input| && old(osDataAddr) <= osDataAddr
        invariant pos == pos0 + (if length0 > 1 then length0 - length else 0) && (length < 1 ==> length == length0)
        invariant forall k :: pos0 <= k < pos ==> Printable(input[k])
        invariant osDataAddr + |input| - pos <= limit
        invariant forall k :: 0 <= k < old(osDataAddr) || limit <= k < memory.Length ==> memory[k] == old(memory[k])
        invariant DataSoFar(input, p0, pos0, pos, kState, sum, cur0)
        decreases length
      {
        if pos >= |input| { e := Starved; break; }
        var c := input[pos];
        if !Printable(c) { e, pos := Error, pos + 1; break; }
        sum := NextData(input, p0, pos0, pos, kState, sum, cur0, limit);
        pos := pos + 1;
        length := length - 1;
      }
      if e == Fine {
        DataSoFarIs(input, p0, pos0, pos, kState, sum, cur0);
      }
    }

    /** What the data bytes up to `pos` have done. */
    ghost predicate DataSoFar(input: seq<byte>, p0: nat, pos0: nat, pos: nat, kState: byte, sum: nat, cur0: Decoder)
      requires Valid() && p0 <= pos0 <= pos <= |input|
      reads this, memory, sendParms
    {
      && sum == SumTo(input, p0, pos)
      && Cur() == Took(cur0, kState, hisQuote, Piece(input, pos0, pos))
      && (kState == SEND ==> Collected(Piece(input, pos0, pos)))
    }

    lemma DataSoFarIs(input: seq<byte>, p0: nat, pos0: nat, pos: nat, kState: byte, sum: nat, cur0: Decoder)
      requires Valid() && p0 <= pos0 <= pos <= |input| && DataSoFar(input, p0, pos0, pos, kState, sum, cur0)
      ensures sum == SumTo(input, p0, pos) && Cur() == Took(cur0, kState, hisQuote, Piece(input, pos0, pos))
      ensures kState == SEND ==> Collected(Piece(input, pos0, pos))
    {
    }

    lemma NoData(input: seq<byte>, p0: nat, pos0: nat, kState: byte, sum0: nat)
      requires Valid() && p0 <= pos0 <= |input| && sendPtr == 0 && sum0 == Sum(input[p0..][..pos0 - p0])
      ensures DataSoFar(input, p0, pos0, pos0, kState, sum0, Cur())
    {
    }

    /** One data byte. */
    method NextData(input: seq<byte>, ghost p0: nat, ghost pos0: nat, pos: nat, kState: byte, sum0: nat, ghost cur0: Decoder, ghost limit: nat)
      returns (sum: nat)
      requires Valid() && p0 <= pos0 <= pos < |input| && osDataAddr + 1 <= limit <= memory.Length
      requires DataSoFar(input, p0, pos0, pos, kState, sum0, cur0)
      modifies this`osDataAddr, this`kDataEscape, this`sendPtr, memory, sendParms
      ensures Valid() && DataSoFar(input, p0, pos0, pos + 1, kState, sum, cur0)
      ensures old(osDataAddr) <= osDataAddr <= old(osDataAddr) + 1
      ensures forall k :: 0 <= k < old(osDataAddr) || limit <= k < memory.Length ==> memory[k] == old(memory[k])
    {
      hide Feed, Feed1, Took, Collected, Piece, SumTo, Cur, Sum;
      NextByte(input, p0, pos0, pos);
      TakeChar(input[pos], kState, cur0, Piece(input, pos0, pos));
      sum := sum0 + input[pos];
    }

    /** The packet from its data on. */
    method ReceiveBody(input: seq<byte>, ghost p0: nat, pos0: nat, kState: byte, sum0: nat, length0: int, ghost limit: nat)
      returns (e: Ending, pos: nat)
      requires Valid() && sendPtr == 0
      requires p0 + 3 <= pos0 <= |input|
      requires sum0 == Sum(input[p0..][..pos0 - p0])
      requires osDataAddr + |input| - pos0 <= limit <= memory.Length
      modifies this`osDataAddr, this`kDataEscape, this`sendPtr, memory, sendParms
      ensures forall k :: limit <= k < memory.Length ==> memory[k] == old(memory[k])
      ensures Valid() && old(osDataAddr) <= osDataAddr
      ensures memory[..old(osDataAddr)] == old(memory[..osDataAddr])
      ensures pos0 <= pos <= |input| && osDataAddr + |input| - pos <= limit
      ensures var p := Body(input[p0..], pos0 - p0, if length0 > 1 then length0 - 1 else 0);
        && Follows(p, e, pos - p0)
        && (p.Good? ==> Cur() == Took(old(Cur()), kState, hisQuote, p.data) && (kState == SEND ==> Collected(p.data)))
    {
      hide Feed, Sum, Body, Follows, Cur, Took, Collected;
      ghost var at, n := pos0 - p0, if length0 > 1 then length0 - 1 else 0;
      var sum;
      e, pos, sum := ReceiveData(input, p0, pos0, kState, sum0, length0, limit);
      if e != Fine {
        BodyStopped(input, p0, pos0, n, e, pos);
        return;
      }
      e, pos := ReceiveEnd(input, p0, at, n, pos, sum);
      BodyData(input, p0, pos0, n);
    }

    /** The sender's parameters as far as they are kept. */
    ghost predicate Collected(data: seq<byte>)
      requires Valid()
      reads this, sendParms
    {
      sendPtr == Min(|data|, 19) && forall i :: 0 <= i < sendPtr ==> sendParms[i] == data[i]
    }

    /** Block check and end character. */
    method ReceiveEnd(input: seq<byte>, ghost p0: nat, ghost at: nat, ghost n: nat, pos0: nat, sum: nat)
      returns (e: Ending, pos: nat)
      requires 3 <= at && p0 + at + n == pos0 <= |input|
      requires sum == Sum(input[p0..][..at + n])
      requires forall k :: at <= k < at + n ==> Printable(input[p0..][k])
      ensures pos0 <= pos <= |input|
      ensures Follows(Body(input[p0..], at, n), e, pos - p0)
      ensures e == Fine ==> pos - p0 == at + n + 2
    {
      ghost var s := input[p0..];
      pos := pos0;
      if pos >= |input| {
        BodyStops(s, at, n, |s|);
        return Starved, pos;
      }
      var c := input[pos];
      assert c == s[at + n];
      pos := pos + 1;
      if !Printable(c) {
        BodyStops(s, at, n, at + n);
        return Error, pos;
      }
      BodyStops(s, at, n, at + n + 1);
      if c != Check(sum) {
        return Error, pos;
      }
      if pos >= |input| {
        return Starved, pos;
      }
      c := input[pos];
      assert c == s[at + n + 1];
      pos := pos + 1;
      if c != CR {
        return Error, pos;
      }
      return Fine, pos;
    }

    /** Length, sequence number with the checkpointing that hangs on it, and type. */
    method ReceiveHeader(input: seq<byte>, p0: nat, n0: byte, lastN0: Option<byte>)
      returns (e: Ending, pos: nat, n: byte, lastN: Option<byte>, kState: byte, sum: nat, length: int)
      requires Valid() && p0 <= |input|
      modifies this`osDataAddr, this`kDataEscape, this`osDataAddrSaved, this`kDataEscapeSaved
      ensures Valid() && osDataAddr <= old(osDataAddr) && p0 <= pos <= |input| && pos <= p0 + 3
      ensures e == Fine ==>
                && pos == p0 + 3 && n == UnToChar(input[p0 + 1]) && kState == input[p0 + 2]
                && (forall k :: p0 <= k < pos ==> Printable(input[k]))
                && sum == Sum(input[p0..][..3]) && length == UnToChar(input[p0]) - 2
      ensures e != Fine ==> Follows(Parse(input[p0..]), e, pos - p0)
      ensures e != Fine && pos - p0 < 3 && e == Error ==> n == n0 && lastN == lastN0 && Saved() == old(Saved())
      ensures e == Fine || (e == Error && pos - p0 == 3) ==>
                && n == UnToChar(input[p0 + 1]) < 224 && lastN == Some(n)
                && Cur() == Saved() == Checkpoint(old(State(lastN0)), n)
    {
      ghost var s := input[p0..];
      pos, n, lastN, kState, sum, length := p0, n0, lastN0, NUL, 0, 0;
      e := Starved;
      if pos >= |input| { return; }
      var c := input[pos];
      pos := pos + 1;
      if !Printable(c) { e := Error; return; }
      sum := sum + c;
      length := UnToChar(c);
      if pos >= |input| { return; }
      c := input[pos];
      pos := pos + 1;
      if !Printable(c) { e := Error; return; }
      sum := sum + c;
      n := UnToChar(c);
      length := length - 1;
      if lastN == Some(n) {
        KDataRestore();
      } else {
        lastN := Some(n);
        KDataSave();
      }
      if pos >= |input| { return; }
      c := input[pos];
      pos := pos + 1;
      if !Printable(c) { e := Error; return; }
      sum := sum + c;
      kState := c;
      length := length - 1;
      SumNext(s, 0);
      SumNext(s, 1);
      SumNext(s, 2);
      e := Fine;
    }

    /** The packet from its type on: extended header, if there is one, and body. */
    method ReceiveRest(input: seq<byte>, ghost p0: nat, pos0: nat, kState: byte, sum0: nat, length0: int, ghost limit: nat)
      returns (e: Ending, pos: nat)
      requires Valid() && sendPtr == 0 && p0 + 3 == pos0 <= |input|
      requires kState == input[p0 + 2] && sum0 == Sum(input[p0..][..3]) && length0 == UnToChar(input[p0]) - 2
      requires osDataAddr + |input| - pos0 <= limit <= memory.Length
      modifies this`osDataAddr, this`kDataEscape, this`sendPtr, memory, sendParms
      ensures forall k :: limit <= k < memory.Length ==> memory[k] == old(memory[k])
      ensures Valid() && old(osDataAddr) <= osDataAddr
      ensures memory[..old(osDataAddr)] == old(memory[..osDataAddr])
      ensures pos0 <= pos <= |input| && osDataAddr + |input| - pos <= limit
      ensures var p := AfterHeader(input[p0..]);
        && Follows(p, e, pos - p0)
        && (p.Good? ==> Cur() == Took(old(Cur()), kState, hisQuote, p.data) && (kState == SEND ==> Collected(p.data)))
    {
      var sum, length := sum0, length0;
      pos := pos0;
      if length == -2 {
        e, pos, sum, length := ReceiveExtension(input, p0, pos, sum);
        if e != Fine { return; }
      }
      e, pos := ReceiveBody(input, p0, pos, kState, sum, length, limit);
    }

    /** The packet after START. */
    method ReceivePacket(input: seq<byte>, p0: nat, n0: byte, lastN0: Option<byte>, ghost limit: nat)
      returns (e: Ending, pos: nat, n: byte, lastN: Option<byte>, kState: byte)
      requires Valid() && sendPtr == 0 && p0 <= |input|
      requires osDataAddr + |input| - p0 <= limit <= memory.Length
      modifies this`osDataAddr, this`kDataEscape, this`osDataAddrSaved, this`kDataEscapeSaved
      modifies this`sendPtr, memory, sendParms
      ensures forall k :: limit <= k < memory.Length ==> memory[k] == old(memory[k])
      ensures Valid()
      ensures memory[..binStart] == old(memory[..binStart])
      ensures p0 <= pos <= |input| && osDataAddr + |input| - pos <= limit
      ensures Follows(Parse(input[p0..]), e, pos - p0)
      ensures Parse(input[p0..]).BadHeader? ==> n == n0 && lastN == lastN0 && Saved() == old(Saved())
      ensures var p := Parse(input[p0..]);
        p.Bad? || p.Good? ==>
          n == p.num < 224 && lastN == Some(n) && Saved() == Checkpoint(old(State(lastN0)), n)
      ensures var p := Parse(input[p0..]);
        p.Good? ==> kState == p.typ && Cur() == Took(Saved(), p.typ, hisQuote, p.data)
                    && (p.typ == SEND ==> Collected(p.data))
    {
      var sum: nat, length: int;
      e, pos, n, lastN, kState, sum, length := ReceiveHeader(input, p0, n0, lastN0);
      HeaderParts(input[p0..]);
      if e != Fine { return; }
      ghost var saved, addr, was := Saved(), osDataAddr, memory[..];
      assert Parse(input[p0..]) == AfterHeader(input[p0..]);
      e, pos := ReceiveRest(input, p0, pos, kState, sum, length, limit);
      SameInside(was, memory[..], addr, binStart, osDataAddrSaved);
      assert memory[..binStart] == memory[..addr][..binStart];
    }

    /** The two extra length bytes and the header check of an extended packet. */
    method ReceiveExtension(input: seq<byte>, ghost p0: nat, pos0: nat, sum0: nat)
      returns (e: Ending, pos: nat, sum: nat, length: int)
      requires p0 + 3 == pos0 <= |input| && sum0 == Sum(input[p0..][..3])
      ensures pos0 <= pos <= |input|
      ensures e != Fine ==> Follows(ExtendedBody(input[p0..]), e, pos - p0)
      ensures e == Fine ==>
                && pos == p0 + 6 && sum == Sum(input[p0..][..6])
                && ExtendedBody(input[p0..]) == Body(input[p0..], 6, if length > 1 then length - 1 else 0)
    {
      hide Sum, FirstCtl, Body;
      ghost var s := input[p0..];
      pos, sum, length := pos0, sum0, 0;
      if pos >= |input| { FirstCtlIs(s, 3, Min(6, |s|), 3); return Starved, pos, sum, length; }
      var c := input[pos];
      pos := pos + 1;
      if !Printable(c) { FirstCtlIs(s, 3, Min(6, |s|), 3); return Error, pos, sum, length; }
      SumNext(s, 3);
      sum := sum + c;
      var lenHi := UnToChar(c);
      if pos >= |input| { FirstCtlIs(s, 3, Min(6, |s|), 4); return Starved, pos, sum, length; }
      c := input[pos];
      pos := pos + 1;
      if !Printable(c) { FirstCtlIs(s, 3, Min(6, |s|), 4); return Error, pos, sum, length; }
      SumNext(s, 4);
      sum := sum + c;
      var lenLo := UnToChar(c);
      length := lenHi as int * 95 + lenLo as int;
      if pos >= |input| { FirstCtlIs(s, 3, Min(6, |s|), 5); return Starved, pos, sum, length; }
      c := input[pos];
      pos := pos + 1;
      if !Printable(c) { FirstCtlIs(s, 3, Min(6, |s|), 5); return Error, pos, sum, length; }
      FirstCtlIs(s, 3, 6, 6);
      if c != Check(sum) { return Error, pos, sum, length; }
      SumNext(s, 5);
      sum := sum + c;
      return Fine, pos, sum, length;
    }

    /** One turn of `k_recv`'s main loop, from the START character on. */
    method Turn(input: seq<byte>, p0: nat, n0: byte, lastN0: Option<byte>, ghost limit: nat)
      returns (e: Ending, pos: nat, n: byte, lastN: Option<byte>, done: bool)
      requires Valid() && p0 <= |input| && n0 < 224 && lastN0 in {None, Some(n0)} && n0 == lastN0.GetOr(0)
      requires osDataAddr + |input| - p0 <= limit <= memory.Length
      modifies this, memory, aB, sendParms
      ensures forall k :: limit <= k < memory.Length ==> memory[k] == old(memory[k])
      ensures Valid() && memory[..binStart] == old(memory[..binStart])
      ensures n < 224 && lastN in {None, Some(n)} && n == lastN.GetOr(0)
      ensures p0 <= pos <= |input| && osDataAddr + |input| - pos <= limit
      ensures var p := Parse(input[p0..]);
        && (p.Cut? <==> e == Starved) && (e == Starved ==> sent == old(sent))
        && (!p.Cut? ==> pos == p0 + p.used && State(lastN) == Accept(old(State(lastN0)), p))
        && (done <==> p.Good? && p.typ == BREAK)
    {
      hide Parse, Feed, Feed1, Collected, Respond, Negotiate;
      sendPtr := 0;
      var kState;
      done := false;
      e, pos, n, lastN, kState := ReceivePacket(input, p0, n0, lastN0, limit);
      if e == Starved {
        n, lastN := n0, lastN0;
        return;
      }
      ghost var p := Parse(input[p0..]);
      done := Conclude(e, kState, n, if p.Good? then p.data else [], lastN);
    }

    /** The end of a turn: roll back and refuse, negotiate, or acknowledge. */
    method Conclude(e: Ending, kState: byte, n: byte, ghost data: seq<byte>, ghost lastN: Option<byte>) returns (done: bool)
      requires Valid() && n < 224 && e != Starved && (e == Fine && kState == SEND ==> Collected(data))
      modifies this, aB
      ensures Valid() && osDataAddr <= old(osDataAddr)
      ensures State(lastN) == Concluded(old(State(lastN)), e, kState, n, data)
      ensures done <==> e == Fine && kState == BREAK
    {
      hide Feed, Frame, Repeat, Adopt;
      done := false;
      if e == Error {
        KDataRestore();
        SendNack(n, lastN);
      } else if kState == SEND {
        HandleSendPacket(n, data, lastN);
      } else {
        SendAck(n, lastN);
        done := kState == BREAK;
      }
    }

    /** Skips to the next START or control-C. */
    method AwaitMark(input: seq<byte>, pos: nat) returns (at: nat)
      requires pos <= |input|
      ensures pos <= at <= |input| && at - pos == NextMark(input[pos..], 0)
      ensures at < |input| ==> input[at] in {START, ETX}
    {
      at := pos;
      while at < |input| && input[at] != START && input[at] != ETX
        invariant pos <= at <= |input|
        invariant forall j :: pos <= j < at ==> input[j] !in {START, ETX}
      {
        at := at + 1;
      }
      MarkIs(input[pos..], at - pos);
    }

    method KRecv(input: seq<byte>) returns (status: Status, size: nat)
      requires Valid() && binStart + |input| <= memory.Length
      modifies this, memory, aB, sendParms
      ensures Valid() && memory[..binStart] == old(memory[..binStart])
      ensures forall k :: binStart + |input| <= k < memory.Length ==> memory[k] == old(memory[k])
      ensures match Session(Fresh().(sent := old(sent)), input)
              case Done(l) =>
                && status == Complete && sent == l.sent
                && size == |l.cur.out| && binStart + size <= memory.Length
                && memory[binStart..binStart + size] == l.cur.out
              case Aborted(l) => status == Interrupted && size == 0 && sent == l.sent
              case Waiting(l) => status == Silent && sent == l.sent
    {
      hide Session;
      hisEol := CR;
      hisPadCount := 0;
      hisPadChar := NUL;
      hisQuote := K_ESCAPE;
      KDataInit();
      KDataSave();
      var n: byte, lastN: Option<byte> := 0, None;
      var pos := 0;
      ghost var v := Session(Fresh().(sent := old(sent)), input);
      assert State(lastN) == Fresh().(sent := old(sent));
      assert input[0..] == input;
      while true
        invariant Valid() && memory[..binStart] == old(memory[..binStart])
        invariant n < 224 && lastN in {None, Some(n)} && n == lastN.GetOr(0)
        invariant pos <= |input| && osDataAddr - binStart <= pos
        invariant forall k :: binStart + |input| <= k < memory.Length ==> memory[k] == old(memory[k])
        invariant Session(State(lastN), input[pos..]) == v
        decreases |input| - pos
      {
        var r;
        r, pos, n, lastN := Round(input, pos, n, lastN, v, binStart + |input|);
        match r {
          case Some(Complete) => return Complete, osDataAddr - binStart;
          case Some(s) => return s, 0;
          case None =>
        }
      }
    }

    /** The body of the main loop. */
    method Round(input: seq<byte>, pos0: nat, n0: byte, lastN0: Option<byte>, ghost v: Verdict, ghost limit: nat)
      returns (r: Option<Status>, pos: nat, n: byte, lastN: Option<byte>)
      requires Valid() && pos0 <= |input| && n0 < 224 && lastN0 in {None, Some(n0)} && n0 == lastN0.GetOr(0)
      requires osDataAddr + |input| - pos0 <= limit <= memory.Length
      requires Session(State(lastN0), input[pos0..]) == v
      modifies this, memory, aB, sendParms
      ensures forall k :: limit <= k < memory.Length ==> memory[k] == old(memory[k])
      ensures Valid() && memory[..binStart] == old(memory[..binStart])
      ensures match r
        case None =>
          && pos0 < pos <= |input| && osDataAddr + |input| - pos <= limit
          && n < 224 && lastN in {None, Some(n)} && n == lastN.GetOr(0)
          && Session(State(lastN), input[pos..]) == v
        case Some(Complete) => v == Done(State(lastN))
        case Some(Interrupted) => v == Aborted(State(lastN))
        case Some(Silent) => v.Waiting? && sent == v.link.sent
    {
      hide Parse, Accept, Session;
      pos, n, lastN := pos0, n0, lastN0;
      var at := AwaitMark(input, pos);
      SessionStops(State(lastN), input, pos, at);
      if at == |input| {
        return Some(Silent), pos, n, lastN;
      }
      if input[at] == ETX {
        return Some(Interrupted), pos, n, lastN;
      }
      ghost var p := Parse(input[at + 1..]);
      ghost var l' := Accept(State(lastN), p);
      ghost var rest := input[at + 1 + p.Used()..];
      SessionTurn(State(lastN), input, pos, at, l', rest, v);
      var e, done;
      e, pos, n, lastN, done := Turn(input, at + 1, n, lastN, limit);
      if e == Starved {
        return Some(Silent), pos, n, lastN;
      }
      assert State(lastN) == l';
      assert input[pos..] == rest;
      return if done then Some(Complete) else None, pos, n, lastN;
    }
  }

  function Concluded(l: Link, e: Ending, kState: byte, n: byte, data: seq<byte>): Link {
    if e == Error then Respond(l.(cur := l.saved), n, NACK, [])
    else if kState == SEND then Negotiate(l, n, data)
    else Respond(l, n, ACK, [])
  }

  lemma SameInside(a: seq<byte>, b: seq<byte>, n: nat, lo: nat, hi: nat)
    requires lo <= hi <= n <= |a| == |b| && a[..n] == b[..n]
    ensures a[lo..hi] == b[lo..hi]
  {
    assert a[lo..hi] == a[..n][lo..hi] && b[lo..hi] == b[..n][lo..hi];
  }

  lemma MarkIs(s: seq<byte>, k: nat)
    requires k <= |s| && (k < |s| ==> s[k] in {START, ETX})
    requires forall j :: 0 <= j < k ==> s[j] !in {START, ETX}
    ensures NextMark(s, 0) == k
  {
    var m := NextMark(s, 0);
    assert m <= |s| && (m < |s| ==> s[m] in {START, ETX});
  }

  lemma SessionStops(l: Link, input: seq<byte>, pos: nat, at: nat)
    requires pos <= at <= |input| && NextMark(input[pos..], 0) == at - pos
    ensures at == |input| ==> Session(l, input[pos..]) == Waiting(l)
    ensures at < |input| && input[at] == ETX ==> Session(l, input[pos..]) == Aborted(l)
  {
    hide Parse, Accept;
  }

  /** One unfolding of the session from position `pos`, whose next START is at `at`. */
  lemma SessionTurn(l: Link, input: seq<byte>, pos: nat, at: nat, l': Link, rest: seq<byte>, v: Verdict)
    requires pos <= at < |input| && NextMark(input[pos..], 0) == at - pos && input[at] == START
    requires var p := Parse(input[at + 1..]); l' == Accept(l, p) && rest == input[at + 1 + p.Used()..]
    requires v == Session(l, input[pos..])
    ensures var p := Parse(input[at + 1..]);
      && (p.Cut? ==> v == Waiting(l))
      && (p.Good? && p.typ == BREAK ==> v == Done(l'))
      && (!p.Cut? && !(p.Good? && p.typ == BREAK) ==> Session(l', rest) == v)
  {
    hide Parse, Accept;
    var p := Parse(input[at + 1..]);
    assert input[pos..][at - pos + 1..] == input[at + 1..];
    assert input[at + 1..][p.Used()..] == rest;
  }

  lemma OfferNoNul()
    ensures NoNul(OFFER)
  {
  }

  lemma FrameNoNul(n: byte, typ: byte, params: seq<byte>)
    requires n < 224 && typ != NUL && NoNul(params) && |params| <= 13
    ensures NoNul(Frame(n, typ, params))
  {
  }

  lemma FirstCtlIs(s: seq<byte>, lo: nat, hi: nat, i: nat)
    requires lo <= i <= hi <= |s|
    requires forall k :: lo <= k < i ==> Printable(s[k])
    requires i < hi ==> !Printable(s[i])
    ensures FirstCtl(s, lo, hi) == i
  {
    var f := FirstCtl(s, lo, hi);
    assert lo <= f <= hi && (f < hi ==> !Printable(s[f]));
  }

  /** How a packet method ends is what the byte string is; `used` counts its bytes. */
  predicate Follows(p: Packet, e: Ending, used: int) {
    match p
    case Cut => e == Starved
    case BadHeader(u) => e == Error && used == u
    case Bad(_, u) => e == Error && used == u
    case Good(_, _, _, u) => e == Fine && used == u
  }

  lemma BodyParts(s: seq<byte>, at: nat, n: nat)
    requires 3 <= at <= |s|
    ensures Parts(s, Body(s, at, n))
  {
  }

  lemma ExtendedParts(s: seq<byte>)
    requires |s| >= 3
    ensures Parts(s, ExtendedBody(s))
  {
    hide Body;
    if |s| >= 6 {
      var length := UnToChar(s[3]) * 95 + UnToChar(s[4]);
      BodyParts(s, 6, if length > 1 then length - 1 else 0);
    }
  }

  /** What the first three bytes decide about a packet that has them. */
  predicate Parts(s: seq<byte>, p: Packet)
    requires |s| >= 3
  {
    match p
    case Cut => true
    case BadHeader(_) => false
    case Bad(num, used) => used > 3 && num == UnToChar(s[1])
    case Good(num, typ, _, used) => used > 3 && num == UnToChar(s[1]) && typ == s[2]
  }

  lemma HeaderParts(s: seq<byte>)
    ensures var p := Parse(s);
      && (p.BadHeader? ==> p.used < 3)
      && (p.Bad? || p.Good? ==> p.used >= 3 && p.num == UnToChar(s[1]) < 224)
      && (p.Good? ==> p.used > 3 && p.typ == s[2])
  {
    hide Body, ExtendedBody;
    if |s| >= 3 {
      ExtendedParts(s);
      var length := UnToChar(s[0]);
      BodyParts(s, 3, if length > 3 then length - 3 else 0);
    }
  }

  /** The data of a good packet are the bytes where they stand on the line. */
  lemma BodyData(input: seq<byte>, p0: nat, pos0: nat, n: nat)
    requires p0 + 3 <= pos0 && pos0 + n <= |input|
    ensures var p := Body(input[p0..], pos0 - p0, n); p.Good? ==> p.data == input[pos0..pos0 + n]
  {
    assert input[p0..][pos0 - p0..pos0 - p0 + n] == input[pos0..pos0 + n];
  }

  /** A packet whose data break off, at a control character or at the end of the input. */
  lemma BodyStopped(input: seq<byte>, p0: nat, pos0: nat, n: nat, e: Ending, pos: nat)
    requires p0 + 3 <= pos0 <= pos <= |input| && e != Fine
    requires forall k :: pos0 <= k < pos - (if e == Error then 1 else 0) ==> Printable(input[k])
    requires e == Error ==> pos0 < pos <= pos0 + n && !Printable(input[pos - 1])
    requires e == Starved ==> pos == |input| < pos0 + n
    ensures var p := Body(input[p0..], pos0 - p0, n); Follows(p, e, pos - p0) && !p.Good?
  {
    var s := input[p0..];
    assert forall k :: pos0 - p0 <= k < |s| ==> s[k] == input[k + p0];
    BodyStops(s, pos0 - p0, n, if e == Error then pos - p0 - 1 else pos - p0);
  }

  /** `i` is where the data and block check first go wrong, if they do. */
  lemma BodyStops(s: seq<byte>, at: nat, n: nat, i: nat)
    requires at <= i <= |s| && i <= at + n + 1
    requires forall k :: at <= k < i ==> Printable(s[k])
    requires i < at + n + 1 && i < |s| ==> !Printable(s[i])
    ensures FirstCtl(s, at, Min(at + n + 1, |s|)) == i
  {
    FirstCtlIs(s, at, Min(at + n + 1, |s|), i);
  }

  /** The sum over the bytes of a packet up to `pos`. */
  function SumTo(input: seq<byte>, p0: nat, pos: nat): nat
    requires p0 <= pos <= |input|
  {
    Sum(input[p0..][..pos - p0])
  }

  function Piece(input: seq<byte>, lo: nat, hi: nat): seq<byte>
    requires lo <= hi <= |input|
  {
    input[lo..hi]
  }

  lemma NextByte(input: seq<byte>, p0: nat, pos0: nat, pos: nat)
    requires p0 <= pos0 <= pos < |input|
    ensures SumTo(input, p0, pos + 1) == SumTo(input, p0, pos) + input[pos]
    ensures Piece(input, pos0, pos + 1) == Piece(input, pos0, pos) + [input[pos]]
  {
    SumNext(input[p0..], pos - p0);
  }

  lemma SumNext(s: seq<byte>, k: nat)
    requires k < |s|
    ensures Sum(s[..k + 1]) == Sum(s[..k]) + s[k]
  {
    assert s[..k + 1][..k] == s[..k];
  }
}
