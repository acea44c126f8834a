/** The Kermit receiver of cmd_load.c as a function of the bytes on the line. */
module KermitProtocol {
  import opened Bytes

  const START: byte := 0x01
  const ETX: byte := 0x03
  const CR: byte := 0x0D
  const SP: byte := 0x20
  const K_ESCAPE: byte := 0x23
  const SEND: byte := 83      // 'S'
  const DATA: byte := 68      // 'D'
  const ACK: byte := 89       // 'Y'
  const NACK: byte := 78      // 'N'
  const BREAK: byte := 66     // 'B'

  function ToChar(x: nat): byte { (x + 32) % 256 }

  function UnToChar(c: byte): byte { (c + 224) % 256 }

  /** A byte below 0x20 inside a packet is an error. */
  predicate Printable(c: byte) { c >= SP }

  function Sum(s: seq<byte>): nat {
    if s == [] then 0 else Sum(s[..|s| - 1]) + s[|s| - 1]
  }

  /** The type 1 block check of the Kermit Protocol Manual, section 6: bits 6 and 7 of the sum
      are folded into its low six bits. */
  function Check(total: nat): (c: byte)
    ensures Printable(c) && c < 96
  {
    ToChar((total + total / 64 % 4) % 64)
  }

  // ---------- control quoting ----------

  function KTrans(c: byte): byte {
    if 64 <= c % 128 < 96 then c - 64
    else if c % 128 == 63 then (if c < 128 then 127 else 255)
    else c
  }

  /** What has been written to memory from the start address on, and whether a quote is pending. */
  datatype Decoder = Decoder(escape: bool, out: seq<byte>)

  function Feed1(d: Decoder, quote: byte, c: byte): Decoder {
    if d.escape then Decoder(false, d.out + [KTrans(c)])
    else if c == quote then Decoder(true, d.out)
    else Decoder(false, d.out + [c])
  }

  function Feed(d: Decoder, quote: byte, s: seq<byte>): Decoder {
    if s == [] then d else Feed1(Feed(d, quote, s[..|s| - 1]), quote, s[|s| - 1])
  }

  /** What the data of a packet do to the download. */
  function Took(d: Decoder, typ: byte, quote: byte, data: seq<byte>): Decoder {
    if typ == DATA then Feed(d, quote, data) else d
  }

  // ---------- one packet ----------

  /** What the bytes after START turn out to be; `used` counts the bytes read. */
  datatype Packet =
    | BadHeader(used: nat)                 // control character for the length or sequence number
    | Bad(num: byte, used: nat)            // error after the sequence number
    | Good(num: byte, typ: byte, data: seq<byte>, used: nat)
    | Cut                                  // the line goes silent inside the packet
  {
    function Used(): nat {
      if Cut? then 0 else used
    }
  }

  /** First index in [lo, hi) holding a control character, or else `hi`. */
  function FirstCtl(s: seq<byte>, lo: nat, hi: nat): (i: nat)
    requires lo <= hi <= |s|
    ensures lo <= i <= hi
    ensures forall k :: lo <= k < i ==> Printable(s[k])
    ensures i < hi ==> !Printable(s[i])
    decreases hi - lo
  {
    if lo == hi || !Printable(s[lo]) then lo else FirstCtl(s, lo + 1, hi)
  }

  function Min(a: nat, b: nat): nat { if a < b then a else b }

  /** Data, block check and end character of a packet with `n` data bytes from index `at` on. */
  function Body(s: seq<byte>, at: nat, n: nat): Packet
    requires 3 <= at <= |s|
  {
    var num := UnToChar(s[1]);
    var stop := Min(at + n + 1, |s|);
    var i := FirstCtl(s, at, stop);
    if i < stop then Bad(num, i + 1)
    else if |s| < at + n + 1 then Cut
    else if s[at + n] != Check(Sum(s[..at + n])) then Bad(num, at + n + 1)
    else if |s| < at + n + 2 then Cut
    else if s[at + n + 1] != CR then Bad(num, at + n + 2)
    else Good(num, s[2], s[at..at + n], at + n + 2)
  }

  function ExtendedBody(s: seq<byte>): Packet
    requires |s| >= 3
  {
    var num := UnToChar(s[1]);
    var stop := Min(6, |s|);
    var i := FirstCtl(s, 3, stop);
    if i < stop then Bad(num, i + 1)
    else if |s| < 6 then Cut
    else if s[5] != Check(Sum(s[..5])) then Bad(num, 6)
    else
      var length := UnToChar(s[3]) * 95 + UnToChar(s[4]);
      Body(s, 6, if length > 1 then length - 1 else 0)
  }

  function Parse(s: seq<byte>): (p: Packet)
    ensures !p.Cut? ==> 0 < p.used <= |s|
  {
    if |s| < 1 then Cut
    else if !Printable(s[0]) then BadHeader(1)
    else if |s| < 2 then Cut
    else if !Printable(s[1]) then BadHeader(2)
    else if |s| < 3 then Cut
    else if !Printable(s[2]) then Bad(UnToChar(s[1]), 3)
    else AfterHeader(s)
  }

  /** A packet whose length byte, sequence number and type have been read. */
  function AfterHeader(s: seq<byte>): Packet
    requires |s| >= 3
  {
    var length := UnToChar(s[0]);
    if length == 0 then ExtendedBody(s)
    else Body(s, 3, if length > 3 then length - 3 else 0)
  }

  // ---------- the receiver ----------

  datatype Link = Link(
    cur: Decoder,               // state of the download now
    saved: Decoder,             // and at the last checkpoint
    lastN: Option<byte>,        // sequence number the checkpoint belongs to
    quote: byte, eol: byte, padCount: nat, padChar: byte,
    sent: seq<byte>)            // everything put on the line

  function Fresh(): Link {
    var d := Decoder(false, []);
    Link(d, d, None, K_ESCAPE, CR, 0, NUL, [])
  }

  function Repeat(c: byte, n: nat): (s: seq<byte>)
    ensures |s| == n
  {
    if n == 0 then [] else Repeat(c, n - 1) + [c]
  }

  /** A packet as the receiver builds it, from the START character to the block check. */
  function Frame(num: byte, typ: byte, params: seq<byte>): (f: seq<byte>)
    ensures |f| == 5 + |params|
  {
    var head := [ToChar(3 + |params|), ToChar(num), typ] + params;
    [START] + head + [Check(Sum(head))]
  }

  /** `s1_sendpacket` stops at the first NUL, so a NUL end character is not sent. */
  function Reply(l: Link, num: byte, typ: byte, params: seq<byte>): seq<byte> {
    Repeat(l.padChar, l.padCount) + Frame(num, typ, params) + if l.eol == NUL then [] else [l.eol]
  }

  function Respond(l: Link, num: byte, typ: byte, params: seq<byte>): Link {
    l.(sent := l.sent + Reply(l, num, typ, params))
  }

  /** The thirteen parameters the receiver can answer with. */
  const OFFER: seq<byte> :=
    [126, 33, 32, 0x40, 45, 35, 78, 49, 78, 34, 32, 126, 126]

  /** How many of the sender's parameters are looked at. */
  function Parameters(data: seq<byte>): nat {
    if |data| >= 19 then 18 else |data|
  }

  function Adopt(l: Link, data: seq<byte>): Link {
    var n := Parameters(data);
    l.(padCount := if n >= 3 then UnToChar(data[2]) else 0,
       padChar := if n >= 4 then KTrans(data[3]) else NUL,
       eol := if n >= 5 then UnToChar(data[4]) else CR,
       quote := if n >= 6 then data[5] else K_ESCAPE)
  }

  /** `handle_send_packet`: take over the sender's parameters and answer with as many of ours. */
  function Negotiate(l: Link, num: byte, data: seq<byte>): Link {
    var n := Parameters(data);
    Respond(Adopt(l, data), num, ACK, if n >= 10 then OFFER else OFFER[..n])
  }

  /** The checkpoint in force once sequence number `num` has been read. */
  function Checkpoint(l: Link, num: byte): Decoder {
    if l.lastN == Some(num) then l.saved else l.cur
  }

  function Accept(l: Link, p: Packet): Link {
    match p
    case Cut => l
    case BadHeader(_) =>
      Respond(l.(cur := l.saved), l.lastN.GetOr(0), NACK, [])
    case Bad(num, _) =>
      var base := Checkpoint(l, num);
      Respond(l.(cur := base, saved := base, lastN := Some(num)), num, NACK, [])
    case Good(num, typ, data, _) =>
      var base := Checkpoint(l, num);
      var cur := if typ == DATA then Feed(base, l.quote, data) else base;
      var l' := l.(cur := cur, saved := base, lastN := Some(num));
      if typ == SEND then Negotiate(l', num, data) else Respond(l', num, ACK, [])
  }

  datatype Verdict =
    | Done(link: Link)        // a break packet was accepted
    | Aborted(link: Link)     // control-C between packets
    | Waiting(link: Link)     // the input is used up, behind the last whole packet or inside one

  /** First START or ETX from `i` on. */
  function NextMark(s: seq<byte>, i: nat): (k: nat)
    requires i <= |s|
    ensures i <= k <= |s|
    ensures k < |s| ==> s[k] in {START, ETX}
    ensures forall j :: i <= j < k ==> s[j] !in {START, ETX}
    decreases |s| - i
  {
    if i == |s| || s[i] in {START, ETX} then i else NextMark(s, i + 1)
  }

  function Session(l: Link, s: seq<byte>): Verdict
    decreases |s|
  {
    var k := NextMark(s, 0);
    if k == |s| then Waiting(l)
    else if s[k] == ETX then Aborted(l)
    else
      var body := s[k + 1..];
      var p := Parse(body);
      if p.Cut? then Waiting(l)
      else if p.Good? && p.typ == BREAK then Done(Accept(l, p))
      else Session(Accept(l, p), body[p.used..])
  }
}
