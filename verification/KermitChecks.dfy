/** What the receiver refuses, byte by byte, and what it answers. */
module KermitChecks {
  import opened Arith
  import opened Bytes
  import opened KermitProtocol
  import opened KermitLaws

  // ---------- when a packet is good ----------

  /** Where the data of a packet begin: a space for the length announces the extended header. */
  function DataAt(s: seq<byte>): nat
    requires s != []
  {
    if s[0] == 32 then 6 else 3
  }

  /** How many data bytes the header announces. */
  function DataLength(s: seq<byte>): (n: nat)
    requires s != [] && |s| >= DataAt(s)
  {
    var announced := if s[0] == 32 then (s[3] as int - 32) * 95 + (s[4] as int - 32) - 1 else s[0] as int - 35;
    if announced < 0 then 0 else announced
  }

  /** What the manual asks of a packet: no control character up to the block check, the checks the sums of what
      stands in front of them, and the end of line behind. */
  ghost predicate Sound(s: seq<byte>) {
    && s != [] && |s| >= DataAt(s) && |s| >= DataAt(s) + DataLength(s) + 2
    && var end := DataAt(s) + DataLength(s);
    && (forall k :: 0 <= k <= end ==> s[k] >= 32)
    && (s[0] == 32 ==> s[5] == Check(Sum(s[..5])))
    && s[end] == Check(Sum(s[..end]))
    && s[end + 1] == 13
  }

  lemma Found(s: seq<byte>, lo: nat, hi: nat)
    requires lo <= hi <= |s|
    ensures FirstCtl(s, lo, hi) == hi <==> forall k :: lo <= k < hi ==> s[k] >= 32
  {
  }

  lemma BodyGoodIff(s: seq<byte>, at: nat, n: nat)
    requires 3 <= at <= |s|
    ensures Body(s, at, n).Good? <==>
      && |s| >= at + n + 2 && (forall k :: at <= k <= at + n ==> s[k] >= 32)
      && s[at + n] == Check(Sum(s[..at + n])) && s[at + n + 1] == 13
    ensures Body(s, at, n).Good? ==> Body(s, at, n) == Good(UnToChar(s[1]), s[2], s[at..at + n], at + n + 2)
  {
    hide Sum, Check, FirstCtl;
    Found(s, at, Min(at + n + 1, |s|));
  }

  lemma ExtendedGoodIff(s: seq<byte>)
    requires |s| >= 3 && s[0] == 32
    ensures ExtendedBody(s).Good? <==>
      && |s| >= 6 && (forall k :: 3 <= k < 6 ==> s[k] >= 32) && s[5] == Check(Sum(s[..5])) && Body(s, 6, DataLength(s)).Good?
    ensures ExtendedBody(s).Good? ==> ExtendedBody(s) == Body(s, 6, DataLength(s))
  {
    hide Sum, Check, FirstCtl, Body;
    Found(s, 3, Min(6, |s|));
    assert forall c: byte {:trigger UnToChar(c)} :: c >= 32 ==> UnToChar(c) == c - 32;
  }

  /** A packet is taken for good if and only if it is what the manual asks for; it is then read as it stands. */
  lemma GoodIff(s: seq<byte>)
    ensures Parse(s).Good? <==> Sound(s)
    ensures Parse(s).Good? ==>
      && s != [] && |s| >= DataAt(s)
      && var at, end := DataAt(s), DataAt(s) + DataLength(s);
      && end + 2 <= |s| && s[1] >= 32 && Parse(s) == Good(s[1] - 32, s[2], s[at..end], end + 2)
  {
    hide Sum, Check, FirstCtl, Body, ExtendedBody;
    if |s| >= 3 && s[0] >= 32 && s[1] >= 32 && s[2] >= 32 {
      assert Parse(s) == AfterHeader(s);
      if s[0] == 32 {
        ExtendedGoodIff(s);
        if |s| >= 6 {
          BodyGoodIff(s, 6, DataLength(s));
        }
      } else {
        BodyGoodIff(s, 3, DataLength(s));
      }
    }
  }

  /** Under an intact header, any printable data with any check and end: refused with the packet's number unless the
      check is the one of the bytes that arrived and the end is there. */
  lemma DamagedData(p: Pkt, data: seq<byte>, c: byte, e: byte, rest: seq<byte>)
    requires p.Wf() && |data| == |p.data| && c >= 32 && forall k :: 0 <= k < |data| ==> data[k] >= 32
    ensures var b := p.Header() + data;
      Parse(b + [c, e] + rest) ==
        if c != Check(Sum(b)) then Bad(p.num, |b| + 1) else if e != 13 then Bad(p.num, |b| + 2)
        else Good(p.num, p.typ, data, |b| + 2)
  {
    hide Body, ExtendedBody, Sum, Check;
    var h, n := p.Header(), |data|;
    var s := h + data + [c, e] + rest;
    DamagedBody(h, data, c, e, rest);
    assert s[0] == h[0] && s[1] == h[1] && s[2] == h[2];
    if p.extended {
      assert s[3] == h[3] && s[4] == h[4] && s[5] == h[5] && s[..5] == h[..5];
      ExtendedGood(s, n + 1);
    } else {
      assert UnToChar(s[0]) == n + 3;
    }
  }

  lemma Slices(h: seq<byte>, data: seq<byte>, c: byte, e: byte, rest: seq<byte>)
    ensures var s, at, n := h + data + [c, e] + rest, |h|, |data|;
      && s[..at + n] == h + data && s[at..at + n] == data && s[..at] == h && s[at + n] == c && s[at + n + 1] == e
  {
  }

  lemma DamagedBody(h: seq<byte>, data: seq<byte>, c: byte, e: byte, rest: seq<byte>)
    requires 3 <= |h| && c >= 32 && forall k :: 0 <= k < |data| ==> data[k] >= 32
    ensures var num, end := UnToChar(h[1]), |h| + |data|;
      Body(h + data + [c, e] + rest, |h|, |data|) ==
        if c != Check(Sum(h + data)) then Bad(num, end + 1) else if e != 13 then Bad(num, end + 2)
        else Good(num, h[2], data, end + 2)
  {
    hide Sum, Check, UnToChar, FirstCtl;
    var s, at, n := h + data + [c, e] + rest, |h|, |data|;
    Slices(h, data, c, e, rest);
    forall k | at <= k < at + n + 1
      ensures Printable(s[k])
    {
      assert k < at + n ==> s[k] == data[k - at];
    }
    NoCtl(s, at, at + n + 1);
  }

  /** An extended header with any other check than its own is refused, whatever follows. */
  lemma DamagedHeader(h: seq<byte>, c: byte, rest: seq<byte>)
    requires |h| == 5 && h[0] == 32 && c >= 32 && forall k :: 0 <= k < 5 ==> h[k] >= 32
    requires c != Check(Sum(h))
    ensures Parse(h + [c] + rest) == Bad(h[1] - 32, 6)
  {
    hide Body, Sum, Check;
    var s := h + [c] + rest;
    assert s[..5] == h && s[5] == c;
    assert forall k :: 0 <= k < 5 ==> s[k] == h[k];
    NoCtl(s, 3, 6);
  }

  /** Every error behind the sequence number is charged to that number, every one before it to none. */
  lemma ErrorNumber(s: seq<byte>)
    ensures Parse(s).BadHeader? <==> (|s| > 0 && s[0] < 32) || (|s| > 1 && s[0] >= 32 && s[1] < 32)
    ensures Parse(s).Bad? ==> |s| > 1 && s[1] >= 32 && Parse(s).num == s[1] - 32
  {
    hide Sum, Check, FirstCtl;
  }

  lemma FirstCtlCut(s: seq<byte>, k: nat, lo: nat, hi: nat, hi': nat)
    requires lo <= hi <= k <= |s| && hi <= hi' <= |s|
    ensures FirstCtl(s[..k], lo, hi) == if FirstCtl(s, lo, hi') < hi then FirstCtl(s, lo, hi') else hi
    decreases hi - lo
  {
    if lo < hi && Printable(s[lo]) {
      FirstCtlCut(s, k, lo + 1, hi, hi');
    }
  }

  lemma BodyCut(s: seq<byte>, k: nat, at: nat, n: nat)
    requires 3 <= at <= k <= |s|
    requires Body(s, at, n).Cut? || Body(s, at, n).used >= at
    ensures var p := Body(s, at, n); Body(s[..k], at, n) == if !p.Cut? && p.used <= k then p else Cut
  {
    hide Sum, Check, FirstCtl;
    FirstCtlCut(s, k, at, Min(at + n + 1, k), Min(at + n + 1, |s|));
    assert k >= at + n ==> s[..k][..at + n] == s[..at + n] && s[..k][at..at + n] == s[at..at + n];
  }

  lemma ExtendedCut(s: seq<byte>, k: nat)
    requires 3 <= k <= |s|
    ensures var p := ExtendedBody(s); ExtendedBody(s[..k]) == if !p.Cut? && p.used <= k then p else Cut
  {
    hide Sum, Check, FirstCtl, Body;
    FirstCtlCut(s, k, 3, Min(6, k), Min(6, |s|));
    assert k >= 5 ==> s[..k][..5] == s[..5];
    if |s| >= 6 {
      var length := UnToChar(s[3]) * 95 + UnToChar(s[4]);
      var n := if length > 1 then length - 1 else 0;
      UsedBehind(s, 6, n);
      if k >= 6 {
        BodyCut(s, k, 6, n);
      }
    }
  }

  lemma UsedBehind(s: seq<byte>, at: nat, n: nat)
    requires 3 <= at <= |s|
    ensures Body(s, at, n).Cut? || Body(s, at, n).used > at
  {
    hide Sum, Check;
  }

  /** A packet is judged at the first byte that decides it: cut off in front of that byte it still waits, and later
      bytes play no part. */
  lemma JudgedAtOnce(s: seq<byte>, k: nat)
    requires k <= |s|
    ensures var p := Parse(s); Parse(s[..k]) == if !p.Cut? && p.used <= k then p else Cut
  {
    hide Body, ExtendedBody;
    if |s| >= 3 && Printable(s[0]) && Printable(s[1]) && Printable(s[2]) {
      var length := UnToChar(s[0]);
      var n := if length > 3 then length - 3 else 0;
      UsedBehind(s, 3, n);
      ExtendedUsed(s);
      if k >= 3 {
        ExtendedCut(s, k);
        BodyCut(s, k, 3, n);
      }
    }
  }

  lemma ExtendedUsed(s: seq<byte>)
    requires |s| >= 3
    ensures ExtendedBody(s).Cut? || ExtendedBody(s).used > 3
  {
    hide Sum, Check, Body;
    if |s| >= 6 {
      var length := UnToChar(s[3]) * 95 + UnToChar(s[4]);
      UsedBehind(s, 6, if length > 1 then length - 1 else 0);
    }
  }

  // ---------- what the check finds ----------

  /** One changed bit in the sum of the bytes changes the check. */
  lemma BitFound(total: nat, k: nat)
    requires k < 8
    ensures Check(total) != Check(total + Pow2(k))
  {
    var q, low := total / 64, total % 64;
    SmallPowers(k);
    hide Check, Pow2;
    BitFoundIn(q, low, Pow2(k), total);
  }

  lemma BitFoundIn(q: nat, low: nat, d: nat, total: nat)
    requires total == 64 * q + low && low < 64 && d in {1, 2, 4, 8, 16, 32, 64, 128}
    ensures Check(total) != Check(total + d)
  {
    hide Check;
    FoldIs(total, q, low);
    NextRests(q);
    if d == 64 {
      FoldIs(total + d, q + 1, low);
    } else if d == 128 {
      FoldIs(total + d, q + 2, low);
    } else if low + d < 64 {
      FoldIs(total + d, q, low + d);
    } else {
      FoldIs(total + d, q + 1, low + d - 64);
    }
  }

  lemma NextRests(q: nat)
    ensures (q + 1) % 4 == (if q % 4 == 3 then 0 else q % 4 + 1)
    ensures (q + 2) % 4 == (if q % 4 >= 2 then q % 4 - 2 else q % 4 + 2)
  {
  }

  lemma SmallPowers(k: nat)
    requires k < 8
    ensures Pow2(k) in {1, 2, 4, 8, 16, 32, 64, 128}
  {
    assert Pow2(1) == 2 && Pow2(2) == 4 && Pow2(3) == 8;
    assert Pow2(4) == 16 && Pow2(5) == 32 && Pow2(6) == 64 && Pow2(7) == 128;
  }

  /** The check of a sum in terms of its low six bits and the rest. */
  lemma FoldIs(total: nat, q: nat, low: nat)
    requires total == 64 * q + low && low < 64
    ensures Check(total) == 32 + (if low + q % 4 < 64 then low + q % 4 else low + q % 4 - 64)
  {
    DivUnique(total, q, low, 64);
    var x := low + q % 4;
    DivUnique(total + q % 4, if x < 64 then q else q + 1, if x < 64 then x else x - 64, 64);
  }

  lemma {:induction false} SumChange(s: seq<byte>, i: nat, c: byte)
    requires i < |s|
    ensures Sum(s[i := c]) == Sum(s) - s[i] + c
  {
    var init := s[..|s| - 1];
    if i < |s| - 1 {
      assert s[i := c][..|s| - 1] == init[i := c];
      SumChange(init, i, c);
    } else {
      assert s[i := c][..|s| - 1] == init;
    }
  }

  /** One bit of the data turned over on the way is always found, in whatever place. */
  lemma OneBitIsFound(p: Pkt, i: nat, c: byte, k: nat, rest: seq<byte>)
    requires p.Wf() && i < |p.data| && c >= 32 && k < 8 && (c == p.data[i] + Pow2(k) || p.data[i] == c + Pow2(k))
    ensures var b := p.Header() + p.data;
      Parse(p.Header() + p.data[i := c] + [Check(Sum(b)), 13] + rest) == Bad(p.num, |b| + 1)
  {
    hide Parse, Sum, Check;
    var h, b := p.Header(), p.Header() + p.data;
    assert h + p.data[i := c] == b[|h| + i := c];
    SumChange(b, |h| + i, c);
    BitFound(if c > p.data[i] then Sum(b) else Sum(b) - Pow2(k), k);
    assert Check(Sum(b)) >= 32;
    DamagedData(p, p.data[i := c], Check(Sum(b)), 13, rest);
  }

  /** What may arrive of an attempt at a packet, its header intact, is outside the sender's runs only if damaged data
      carries a check that is right for it. */
  lemma DamageFits(p: Pkt, tries: seq<Attempt>, a: Attempt, data: seq<byte>, c: byte, e: byte)
    requires p.Wf() && |data| == |p.data| && c >= 32 && forall k :: 0 <= k < |data| ==> data[k] >= 32
    requires a.body == p.Header() + data + [c, e]
    ensures Group(p.num, p.typ, p.data, tries).Fits(a.Packet())
      <==> data == p.data || c != Check(Sum(p.Header() + data)) || e != 13
  {
    hide Parse, Sum, Check;
    DamagedData(p, data, c, e, []);
    assert a.body + [] == a.body;
  }

  // ---------- what is answered ----------

  /** Every packet draws one reply: the padding asked for, a packet that itself is good, and the end of line asked
      for. It is an ACK just when the packet was good, and carries its number; a packet without a readable number is
      refused under the number before it, or 0. */
  lemma Answers(l: Link, p: Packet, rest: seq<byte>)
    requires !p.Cut? && l.lastN.GetOr(0) < 224 && (p.Bad? || p.Good? ==> p.num < 224)
    ensures var l', num := Accept(l, p), if p.BadHeader? then l.lastN.GetOr(0) else p.num;
      var params := if !p.Good? || p.typ != SEND then [] else if |p.data| >= 10 then OFFER else OFFER[..|p.data|];
      exists f: seq<byte> ::
        && l'.sent == l.sent + Repeat(l'.padChar, l'.padCount) + f + (if l'.eol == NUL then [] else [l'.eol])
        && f != [] && f[0] == START
        && Parse(f[1..] + [CR] + rest) == Good(num, if p.Good? then ACK else NACK, params, |f|)
  {
    hide Parse, Frame, Repeat, Feed;
    var l', num := Accept(l, p), if p.BadHeader? then l.lastN.GetOr(0) else p.num;
    var typ := if p.Good? then ACK else NACK;
    var params := if !p.Good? || p.typ != SEND then [] else if |p.data| >= 10 then OFFER else OFFER[..|p.data|];
    var f := Frame(num, typ, params);
    assert l'.sent == l.sent + Reply(l', num, typ, params);
    assert forall i :: 0 <= i < |params| ==> params[i] == OFFER[i];
    assert forall i :: 0 <= i < |OFFER| ==> Printable(OFFER[i]);
    ReplyPasses(num, typ, params, rest);
    hide Reply;
    Regroup(l.sent, Repeat(l'.padChar, l'.padCount), f, if l'.eol == NUL then [] else [l'.eol]);
    assert Reply(l', num, typ, params) == Repeat(l'.padChar, l'.padCount) + f + (if l'.eol == NUL then [] else [l'.eol]) by {
      ReplyIs(l', num, typ, params);
    }
  }

  lemma ReplyIs(l: Link, num: byte, typ: byte, params: seq<byte>)
    ensures Reply(l, num, typ, params)
      == Repeat(l.padChar, l.padCount) + Frame(num, typ, params) + (if l.eol == NUL then [] else [l.eol])
  {
  }

  lemma Regroup(a: seq<byte>, b: seq<byte>, c: seq<byte>, d: seq<byte>)
    ensures a + (b + c + d) == a + b + c + d
  {
  }

  // ---------- parameters ----------

  /** What a sender may ask for in its send-initiate packet, as far as the receiver heeds it. */
  datatype Wishes = Wishes(maxl: byte, time: byte, padCount: byte, padChar: byte, eol: byte, quote: byte) {
    predicate Wf() {
      padCount < 224 && eol < 224 && (padChar < 32 || padChar == 127)
    }

    /** The manual's coding: numbers as characters, the padding character with its control bit turned over. */
    function Encoded(): seq<byte>
      requires Wf()
    {
      [ToChar(maxl), ToChar(time), ToChar(padCount), if padChar < 32 then padChar + 64 else padChar - 64, ToChar(eol), quote]
    }
  }

  /** The receiver does as it is asked; what the packet is too short to say keeps its default. */
  lemma WishesAreMet(l: Link, w: Wishes, more: seq<byte>, k: nat)
    requires w.Wf() && k <= |w.Encoded() + more|
    ensures Adopt(l, (w.Encoded() + more)[..k]) == l.(
      padCount := if k >= 3 then w.padCount else 0, padChar := if k >= 4 then w.padChar else NUL,
      eol := if k >= 5 then w.eol else CR, quote := if k >= 6 then w.quote else K_ESCAPE)
  {
    var data := (w.Encoded() + more)[..k];
    assert forall i :: 0 <= i < 6 && i < k ==> data[i] == w.Encoded()[i];
  }

  /** What the receiver offers is what it does itself: read as a sender's parameters it changes nothing on a fresh link. */
  lemma OfferIsDefault()
    ensures Adopt(Fresh(), OFFER) == Fresh()
    ensures UnToChar(OFFER[0]) == 94 && UnToChar(OFFER[1]) == 1
  {
  }

  // ---------- how a session ends ----------

  /** A control-C between packets ends the download, and silence leaves it waiting, with everything before answered. */
  lemma SessionStops(l: Link, tries: seq<Attempt>, noise: seq<byte>, rest: seq<byte>)
    requires Quiet(noise) && forall i :: 0 <= i < |tries| ==> tries[i].Wf() && !Break(tries[i].Packet())
    ensures Session(l, Wire(tries) + (noise + ([ETX] + rest))) == Aborted(AcceptAll(l, tries))
    ensures Session(l, Wire(tries) + noise) == Waiting(AcceptAll(l, tries))
  {
    hide AcceptAll, Wire, Parse, Accept, NextMark;
    var l' := AcceptAll(l, tries);
    SessionAttempts(l, tries, noise + ([ETX] + rest));
    SkipQuiet(l', noise, [ETX] + rest);
    SessionAttempts(l, tries, noise + []);
    SkipQuiet(l', noise, []);
    assert noise + [] == noise;
    MarkNow([ETX] + rest);
  }

  lemma MarkNow(s: seq<byte>)
    ensures s != [] && s[0] in {START, ETX} ==> NextMark(s, 0) == 0
    ensures NextMark([], 0) == 0
  {
  }
}
