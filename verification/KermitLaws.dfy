/** What a Kermit download delivers, over every run of a stop-and-wait sender on a bad line. */
module KermitLaws {
  import opened Bytes
  import opened KermitProtocol

  // ---------- control quoting ----------

  predicate LegalQuote(q: byte) {
    0x21 <= q <= 0x3E || 0x60 <= q <= 0x7E
  }

  /** How a sender encodes one byte: control characters and the quote itself are quoted. */
  function Quote1(b: byte, q: byte): seq<byte> {
    if b % 128 < 32 then [q, b + 64]
    else if b % 128 == 127 then [q, b - 64]
    else if b % 128 == q then [q, b]
    else [b]
  }

  function Quoted(bs: seq<byte>, q: byte): seq<byte> {
    if bs == [] then [] else Quoted(bs[..|bs| - 1], q) + Quote1(bs[|bs| - 1], q)
  }

  lemma {:induction false} FeedAppend(d: Decoder, q: byte, a: seq<byte>, b: seq<byte>)
    ensures Feed(d, q, a + b) == Feed(Feed(d, q, a), q, b)
  {
    if b == [] {
      assert a + b == a;
    } else {
      assert (a + b)[..|a + b| - 1] == a + b[..|b| - 1];
      FeedAppend(d, q, a, b[..|b| - 1]);
    }
  }

  lemma FeedQuote1(d: Decoder, q: byte, b: byte)
    requires LegalQuote(q) && !d.escape
    ensures Feed(d, q, Quote1(b, q)) == Decoder(false, d.out + [b])
  {
    var s := Quote1(b, q);
    assert s[..0] == [];
    assert Feed(d, q, s[..1]) == Feed1(d, q, s[0]) by { assert s[..1][..0] == []; }
    assert s[..|s|] == s;
  }

  /** Decoding undoes quoting, for every byte string and every legal quote character. */
  lemma {:induction false} FeedQuoted(d: Decoder, q: byte, bs: seq<byte>)
    requires LegalQuote(q) && !d.escape
    ensures Feed(d, q, Quoted(bs, q)) == Decoder(false, d.out + bs)
  {
    if bs != [] {
      var init, last := bs[..|bs| - 1], bs[|bs| - 1];
      FeedAppend(d, q, Quoted(init, q), Quote1(last, q));
      FeedQuoted(d, q, init);
      FeedQuote1(Decoder(false, d.out + init), q, last);
      assert d.out + init + [last] == d.out + bs;
    } else {
      assert d.out + bs == d.out;
    }
  }

  /** A quoted string may be sent as packet data. */
  lemma {:induction false} QuotedPrintable(bs: seq<byte>, q: byte)
    requires LegalQuote(q)
    ensures forall i :: 0 <= i < |Quoted(bs, q)| ==> Printable(Quoted(bs, q)[i])
  {
    if bs != [] {
      QuotedPrintable(bs[..|bs| - 1], q);
    }
  }

  // ---------- packets as the manual lays them out ----------

  /** The sequence number is any that one character can carry; the manual's senders count modulo 64. */
  datatype Pkt = Pkt(num: byte, typ: byte, data: seq<byte>, extended: bool) {
    predicate Wf() {
      && num < 224 && Printable(typ)
      && (forall i :: 0 <= i < |data| ==> Printable(data[i]))
      && if extended then |data| + 1 <= 94 * 95 + 94 else |data| + 3 <= 94
    }

    function Header(): seq<byte> {
      if extended then
        var n := |data| + 1;
        var h := [SP, ToChar(num), typ, ToChar(n / 95), ToChar(n % 95)];
        h + [Check(Sum(h))]
      else [ToChar(|data| + 3), ToChar(num), typ]
    }

    /** The bytes after START. */
    function Encoded(): seq<byte> {
      var b := Header() + data;
      b + [Check(Sum(b)), CR]
    }
  }

  lemma NoCtl(s: seq<byte>, lo: nat, hi: nat)
    requires lo <= hi <= |s| && forall k :: lo <= k < hi ==> Printable(s[k])
    ensures FirstCtl(s, lo, hi) == hi
  {
  }

  lemma PacketSlices(h: seq<byte>, data: seq<byte>, c: byte, rest: seq<byte>)
    ensures var s, at, n := h + data + [c, CR] + rest, |h|, |data|;
      && s[..at + n] == h + data && s[at..at + n] == data && s[..at] == h && s[at + n] == c && s[at + n + 1] == CR
  {
  }

  lemma BodyGood(h: seq<byte>, data: seq<byte>, rest: seq<byte>)
    requires 3 <= |h| && forall i :: 0 <= i < |data| ==> Printable(data[i])
    ensures Body(h + data + [Check(Sum(h + data)), CR] + rest, |h|, |data|)
            == Good(UnToChar(h[1]), h[2], data, |h| + |data| + 2)
  {
    hide Sum, Check, UnToChar, FirstCtl;
    var c := Check(Sum(h + data));
    var s := h + data + [c, CR] + rest;
    var at, n := |h|, |data|;
    PacketSlices(h, data, c, rest);
    forall k | at <= k < at + n + 1
      ensures Printable(s[k])
    {
      assert k < at + n ==> s[k] == data[k - at];
    }
    NoCtl(s, at, at + n + 1);
  }

  lemma CharRoundTrip(x: nat)
    requires x < 224
    ensures UnToChar(ToChar(x)) == x && Printable(ToChar(x))
  {
  }

  lemma ExtendedGood(s: seq<byte>, n: nat)
    requires |s| >= 6 && s[3] == ToChar(n / 95) && s[4] == ToChar(n % 95) && s[5] == Check(Sum(s[..5]))
    requires 1 <= n <= 94 * 95 + 94
    ensures ExtendedBody(s) == Body(s, 6, n - 1)
  {
    hide Body, Sum, Check, UnToChar, ToChar;
    CharRoundTrip(n / 95);
    CharRoundTrip(n % 95);
    NoCtl(s, 3, 6);
  }

  /** Every packet built as the manual says is received as what was sent, whatever follows it. */
  lemma ParseEncoded(p: Pkt, rest: seq<byte>)
    requires p.Wf()
    ensures Parse(p.Encoded() + rest) == Good(p.num, p.typ, p.data, |p.Encoded()|)
  {
    hide Body, ExtendedBody, Sum, Check;
    var h, n := p.Header(), |p.data|;
    var s := p.Encoded() + rest;
    assert s == h + p.data + [Check(Sum(h + p.data)), CR] + rest;
    BodyGood(h, p.data, rest);
    assert s[..|h|] == h;
    assert s[0] == h[0] && s[1] == h[1] && s[2] == h[2];
    if p.extended {
      assert s[3] == h[3] && s[4] == h[4] && s[5] == h[5] && s[..5] == h[..5];
      ExtendedGood(s, n + 1);
    } else {
      assert UnToChar(s[0]) == n + 3;
    }
  }

  // ---------- what the line carries ----------

  /** One attempt to send a packet: noise, START, and the bytes after it as they arrive. */
  datatype Attempt = Attempt(noise: seq<byte>, body: seq<byte>) {
    function Packet(): Packet { Parse(body) }

    /** Noise and left-over bytes hold no START and no control-C. */
    predicate Wf() {
      && Quiet(noise) && !Packet().Cut? && Quiet(body[Packet().used..])
    }

    function Wire(): seq<byte> { noise + [START] + body }
  }

  predicate Quiet(s: seq<byte>) {
    forall i :: 0 <= i < |s| ==> s[i] !in {START, ETX}
  }

  function Wire(tries: seq<Attempt>): seq<byte> {
    if tries == [] then [] else tries[0].Wire() + Wire(tries[1..])
  }

  function AcceptAll(l: Link, tries: seq<Attempt>): Link
    decreases |tries|
  {
    if tries == [] then l else AcceptAll(Accept(l, tries[0].Packet()), tries[1..])
  }

  lemma FirstCtlStable(s: seq<byte>, rest: seq<byte>, lo: nat, hi: nat)
    requires lo <= hi <= |s|
    ensures FirstCtl(s + rest, lo, hi) == FirstCtl(s, lo, hi)
    decreases hi - lo
  {
    if lo < hi && Printable(s[lo]) {
      FirstCtlStable(s, rest, lo + 1, hi);
    }
  }

  /** A control character found early is found early in any longer range. */
  lemma FirstCtlLonger(s: seq<byte>, lo: nat, hi: nat, hi': nat)
    requires lo <= hi <= hi' <= |s| && FirstCtl(s, lo, hi) < hi
    ensures FirstCtl(s, lo, hi') == FirstCtl(s, lo, hi)
    decreases hi - lo
  {
    if Printable(s[lo]) {
      FirstCtlLonger(s, lo + 1, hi, hi');
    }
  }

  lemma BodyStable(s: seq<byte>, rest: seq<byte>, at: nat, n: nat)
    requires 3 <= at <= |s|
    requires !Body(s, at, n).Cut?
    ensures Body(s + rest, at, n) == Body(s, at, n)
  {
    var stop, stop' := Min(at + n + 1, |s|), Min(at + n + 1, |s + rest|);
    FirstCtlStable(s, rest, at, stop);
    if FirstCtl(s, at, stop) < stop {
      FirstCtlLonger(s + rest, at, stop, stop');
    } else {
      assert (s + rest)[..at + n] == s[..at + n];
      assert |s| >= at + n + 2 ==> (s + rest)[at..at + n] == s[at..at + n];
    }
  }

  lemma ExtendedStable(s: seq<byte>, rest: seq<byte>)
    requires |s| >= 3 && !ExtendedBody(s).Cut?
    ensures ExtendedBody(s + rest) == ExtendedBody(s)
  {
    hide Body;
    var stop, stop' := Min(6, |s|), Min(6, |s + rest|);
    FirstCtlStable(s, rest, 3, stop);
    if FirstCtl(s, 3, stop) < stop {
      FirstCtlLonger(s + rest, 3, stop, stop');
    } else {
      assert (s + rest)[..5] == s[..5];
      var length := UnToChar(s[3]) * 95 + UnToChar(s[4]);
      if s[5] == Check(Sum(s[..5])) {
        BodyStable(s, rest, 6, if length > 1 then length - 1 else 0);
      }
    }
  }

  /** What a packet is does not depend on what follows it. */
  lemma ParseStable(s: seq<byte>, rest: seq<byte>)
    requires !Parse(s).Cut?
    ensures Parse(s + rest) == Parse(s)
  {
    hide Body, ExtendedBody;
    if |s| >= 3 && Printable(s[0]) && Printable(s[1]) && Printable(s[2]) {
      var length := UnToChar(s[0]);
      if length == 0 {
        ExtendedStable(s, rest);
      } else {
        BodyStable(s, rest, 3, if length > 3 then length - 3 else 0);
      }
    }
  }

  lemma QuietMark(noise: seq<byte>, rest: seq<byte>, i: nat)
    requires Quiet(noise) && i <= |noise|
    ensures NextMark(noise + rest, i) == |noise| + NextMark(rest, 0)
    decreases |noise| - i
  {
    if i < |noise| {
      QuietMark(noise, rest, i + 1);
    } else {
      MarkShift(noise, rest, 0);
    }
  }

  lemma MarkShift(noise: seq<byte>, rest: seq<byte>, i: nat)
    requires i <= |rest|
    ensures NextMark(noise + rest, |noise| + i) == |noise| + NextMark(rest, i)
    decreases |rest| - i
  {
    if i < |rest| && rest[i] !in {START, ETX} {
      MarkShift(noise, rest, i + 1);
    }
  }

  lemma SkipQuiet(l: Link, noise: seq<byte>, rest: seq<byte>)
    requires Quiet(noise)
    ensures Session(l, noise + rest) == Session(l, rest)
  {
    hide Parse, Accept;
    QuietMark(noise, rest, 0);
    var k := NextMark(rest, 0);
    if k < |rest| {
      assert (noise + rest)[|noise| + k + 1..] == rest[k + 1..];
    }
  }

  predicate Break(p: Packet) { p.Good? && p.typ == BREAK }

  lemma SessionStart(l: Link, tail: seq<byte>, p: Packet)
    requires Parse(tail) == p && !p.Cut?
    ensures Session(l, [START] + tail) ==
            if Break(p) then Done(Accept(l, p)) else Session(Accept(l, p), tail[p.used..])
  {
    hide Parse, Accept;
    assert ([START] + tail)[1..] == tail;
    assert NextMark([START] + tail, 0) == 0;
  }

  /** One attempt on the line is one packet to the receiver. */
  lemma SessionAttempt(l: Link, a: Attempt, rest: seq<byte>)
    requires a.Wf()
    ensures var l' := Accept(l, a.Packet());
            Session(l, a.Wire() + rest) == if Break(a.Packet()) then Done(l') else Session(l', rest)
  {
    hide Parse, Accept, Session, NextMark;
    var p, tail := a.Packet(), a.body + rest;
    SkipQuiet(l, a.noise, [START] + tail);
    assert a.Wire() + rest == a.noise + ([START] + tail);
    ParseStable(a.body, rest);
    SessionStart(l, tail, p);
    var left := a.body[p.used..];
    assert tail[p.used..] == left + rest;
    SkipQuiet(Accept(l, p), left, rest);
  }

  lemma {:induction false} SessionAttempts(l: Link, tries: seq<Attempt>, rest: seq<byte>)
    requires forall i :: 0 <= i < |tries| ==> tries[i].Wf() && !Break(tries[i].Packet())
    ensures Session(l, Wire(tries) + rest) == Session(AcceptAll(l, tries), rest)
    decreases |tries|
  {
    hide Parse, Accept, Session;
    if tries == [] {
      assert Wire(tries) + rest == rest;
    } else {
      SessionAttempt(l, tries[0], Wire(tries[1..]) + rest);
      assert Wire(tries) + rest == tries[0].Wire() + (Wire(tries[1..]) + rest);
      SessionAttempts(Accept(l, tries[0].Packet()), tries[1..], rest);
    }
  }

  // ---------- packets and their retries ----------

  /** All attempts at one packet, up to the first attempt whose sequence number is another one.
      An attempt fails by corruption after its sequence number or by a corrupted header. */
  datatype Group = Group(num: byte, typ: byte, data: seq<byte>, tries: seq<Attempt>) {
    ghost predicate Wf() {
      && tries != [] && !tries[0].Packet().BadHeader?
      && forall i :: 0 <= i < |tries| ==> tries[i].Wf() && Fits(tries[i].Packet())
    }

    predicate Fits(p: Packet) {
      match p
      case Good(n, t, d, _) => n == num && t == typ && d == data
      case Bad(n, _) => n == num
      case BadHeader(_) => true
      case Cut => false
    }

    /** The last attempt arrived intact. */
    predicate Kept() { tries != [] && tries[|tries| - 1].Packet().Good? }

    /** Some attempt arrived intact. */
    predicate Heard() { exists i :: 0 <= i < |tries| && tries[i].Packet().Good? }
  }

  function QuoteOf(data: seq<byte>): byte {
    if Parameters(data) >= 6 then data[5] else K_ESCAPE
  }

  /** After the first attempt of a group the checkpoint is the state before the group, and every
      further attempt starts again from it. */
  lemma {:induction false} MoreTries(l: Link, g: Group, tries: seq<Attempt>, base: Decoder)
    requires forall i :: 0 <= i < |tries| ==> g.Fits(tries[i].Packet())
    requires l.lastN == Some(g.num) && l.saved == base
    ensures var l' := AcceptAll(l, tries);
      && l'.lastN == Some(g.num) && l'.saved == base
      && l'.cur == (if tries == [] then l.cur
                    else if tries[|tries| - 1].Packet().Good? then Took(base, g.typ, l.quote, g.data)
                    else base)
      && l'.quote == if g.typ == SEND && exists i :: 0 <= i < |tries| && tries[i].Packet().Good?
                     then QuoteOf(g.data) else l.quote
    decreases |tries|
  {
    hide Parse, Frame, Repeat, Feed;
    if tries != [] {
      var l1, rest := Accept(l, tries[0].Packet()), tries[1..];
      MoreTries(l1, g, rest, base);
      assert forall i :: 0 < i < |tries| ==> tries[i] == rest[i - 1];
      assert rest != [] ==> rest[|rest| - 1] == tries[|tries| - 1];
    }
  }

  /** What a group does: its payload counts once if its last attempt arrived intact, else not at all. */
  lemma GroupEffect(l: Link, g: Group)
    requires g.Wf() && l.lastN != Some(g.num)
    ensures var l' := AcceptAll(l, g.tries);
      && l'.lastN == Some(g.num)
      && l'.cur == (if g.Kept() then Took(l.cur, g.typ, l.quote, g.data) else l.cur)
      && l'.quote == if g.typ == SEND && g.Heard() then QuoteOf(g.data) else l.quote
  {
    hide Parse, Frame, Repeat, Feed;
    var l1 := Accept(l, g.tries[0].Packet());
    assert g.Fits(g.tries[0].Packet());
    MoreTries(l1, g, g.tries[1..], l.cur);
    assert forall i :: 0 < i < |g.tries| ==> g.tries[i] == g.tries[1..][i - 1];
  }

  // ---------- whole downloads ----------

  function WireAll(groups: seq<Group>): seq<byte> {
    if groups == [] then [] else Wire(groups[0].tries) + WireAll(groups[1..])
  }

  /** The sequence number changes from each packet to the next. */
  ghost predicate Alternating(last: Option<byte>, groups: seq<Group>, end: byte)
    decreases |groups|
  {
    if groups == [] then last != Some(end)
    else last != Some(groups[0].num) && Alternating(Some(groups[0].num), groups[1..], end)
  }

  /** Groups between the send-initiate and the break packet: data groups carry quoted chunks of
      the image, the others (file header, end of file) carry none of it. */
  ghost predicate Carries(q: byte, groups: seq<Group>, chunks: seq<seq<byte>>) {
    && |groups| == |chunks|
    && forall i :: 0 <= i < |groups| ==>
        && groups[i].Wf() && groups[i].typ !in {SEND, BREAK}
        && if groups[i].typ == DATA then groups[i].data == Quoted(chunks[i], q) else chunks[i] == []
  }

  ghost predicate Setup(q: byte, g: Group) {
    g.Wf() && g.typ == SEND && g.Heard() && QuoteOf(g.data) == q
  }

  /** The break packet is answered at its first intact arrival. */
  ghost predicate Finish(g: Group) {
    && g.Wf() && g.typ == BREAK && g.Kept()
    && forall i :: 0 <= i < |g.tries| - 1 ==> !g.tries[i].Packet().Good?
  }

  /** The chunks of the groups whose last attempt arrived intact. */
  function Delivered(groups: seq<Group>, chunks: seq<seq<byte>>): seq<byte>
    requires |groups| == |chunks|
  {
    if groups == [] then []
    else (if groups[0].Kept() then chunks[0] else []) + Delivered(groups[1..], chunks[1..])
  }

  function Concat(chunks: seq<seq<byte>>): seq<byte> {
    if chunks == [] then [] else chunks[0] + Concat(chunks[1..])
  }

  lemma {:induction false} AcceptAllSnoc(l: Link, tries: seq<Attempt>, a: Attempt)
    ensures AcceptAll(l, tries + [a]) == Accept(AcceptAll(l, tries), a.Packet())
    decreases |tries|
  {
    hide Parse, Accept;
    if tries == [] {
      assert tries + [a] == [a];
      assert AcceptAll(l, [a]) == AcceptAll(Accept(l, a.Packet()), []);
    } else {
      assert (tries + [a])[1..] == tries[1..] + [a];
      AcceptAllSnoc(Accept(l, tries[0].Packet()), tries[1..], a);
    }
  }

  lemma {:induction false} WireSnoc(tries: seq<Attempt>, a: Attempt)
    ensures Wire(tries + [a]) == Wire(tries) + a.Wire()
    decreases |tries|
  {
    if tries == [] {
      assert tries + [a] == [a];
    } else {
      assert (tries + [a])[1..] == tries[1..] + [a];
      WireSnoc(tries[1..], a);
    }
  }

  lemma FinishEnds(l: Link, g: Group, rest: seq<byte>)
    requires Finish(g) && l.lastN != Some(g.num)
    ensures Session(l, Wire(g.tries) + rest) == Done(AcceptAll(l, g.tries))
    ensures AcceptAll(l, g.tries).cur == l.cur
  {
    hide Parse, Accept, Session, AcceptAll, Wire;
    var n := |g.tries| - 1;
    var init, a := g.tries[..n], g.tries[n];
    assert g.tries == init + [a];
    WireSnoc(init, a);
    AcceptAllSnoc(l, init, a);
    assert Wire(g.tries) + rest == Wire(init) + (a.Wire() + rest);
    SessionAttempts(l, init, a.Wire() + rest);
    SessionAttempt(AcceptAll(l, init), a, rest);
    assert g.Fits(a.Packet());
    GroupEffect(l, g);
  }

  lemma {:induction false} GroupsThenFinish(l: Link, q: byte, groups: seq<Group>, chunks: seq<seq<byte>>,
                                           end: Group, rest: seq<byte>)
    requires LegalQuote(q) && l.quote == q && !l.cur.escape
    requires Carries(q, groups, chunks) && Finish(end) && Alternating(l.lastN, groups, end.num)
    ensures var v := Session(l, WireAll(groups) + (Wire(end.tries) + rest));
            v.Done? && v.link.cur == Decoder(false, l.cur.out + Delivered(groups, chunks))
    decreases |groups|
  {
    hide Parse, Accept, Session, AcceptAll, Wire, Feed, Quoted;
    if groups == [] {
      assert WireAll(groups) + (Wire(end.tries) + rest) == Wire(end.tries) + rest;
      assert l.cur.out + [] == l.cur.out;
      FinishEnds(l, end, rest);
    } else {
      var g, more := groups[0], WireAll(groups[1..]) + (Wire(end.tries) + rest);
      var l' := AcceptAll(l, g.tries);
      Assoc(Wire(g.tries), WireAll(groups[1..]), Wire(end.tries) + rest);
      forall i | 0 <= i < |g.tries|
        ensures g.tries[i].Wf() && !Break(g.tries[i].Packet())
      {
        assert g.Fits(g.tries[i].Packet());
      }
      SessionAttempts(l, g.tries, more);
      GroupEffect(l, g);
      FeedQuoted(l.cur, q, chunks[0]);
      var now := if g.Kept() then chunks[0] else [];
      assert l'.cur == Decoder(false, l.cur.out + now) by {
        assert l.cur.out + [] == l.cur.out;
      }
      GroupsThenFinish(l', q, groups[1..], chunks[1..], end, rest);
      Assoc(l.cur.out, now, Delivered(groups[1..], chunks[1..]));
    }
  }

  /** Over every run of a sender on a bad line the image in memory is the concatenation of exactly
      those chunks whose group ended with an intact attempt, each once. */
  lemma DownloadDelivers(q: byte, setup: Group, groups: seq<Group>, chunks: seq<seq<byte>>,
                         end: Group, sent: seq<byte>, rest: seq<byte>)
    requires LegalQuote(q) && Setup(q, setup) && Carries(q, groups, chunks) && Finish(end)
    requires Alternating(Some(setup.num), groups, end.num)
    ensures var v := Session(Fresh().(sent := sent), Wire(setup.tries) + (WireAll(groups) + (Wire(end.tries) + rest)));
            v.Done? && v.link.cur.out == Delivered(groups, chunks)
  {
    hide Parse, Accept, Session, AcceptAll, Wire;
    var l, more := Fresh().(sent := sent), WireAll(groups) + (Wire(end.tries) + rest);
    forall i | 0 <= i < |setup.tries|
      ensures setup.tries[i].Wf() && !Break(setup.tries[i].Packet())
    {
      assert setup.Fits(setup.tries[i].Packet());
    }
    SessionAttempts(l, setup.tries, more);
    GroupEffect(l, setup);
    GroupsThenFinish(AcceptAll(l, setup.tries), q, groups, chunks, end, rest);
    assert [] + Delivered(groups, chunks) == Delivered(groups, chunks);
  }

  /** The image is whole exactly when no group that carries part of it ended with a failed attempt. */
  lemma {:induction false} WholeIff(groups: seq<Group>, chunks: seq<seq<byte>>)
    requires |groups| == |chunks|
    ensures |Delivered(groups, chunks)| <= |Concat(chunks)|
    ensures Delivered(groups, chunks) == Concat(chunks)
            <==> forall i :: 0 <= i < |groups| && chunks[i] != [] ==> groups[i].Kept()
    decreases |groups|
  {
    if groups != [] {
      WholeIff(groups[1..], chunks[1..]);
      var d, c := Delivered(groups[1..], chunks[1..]), Concat(chunks[1..]);
      assert (forall i :: 0 <= i < |groups| && chunks[i] != [] ==> groups[i].Kept())
        <==> (chunks[0] != [] ==> groups[0].Kept())
             && forall i :: 0 <= i < |groups[1..]| && chunks[1..][i] != [] ==> groups[1..][i].Kept() by {
        assert forall i :: 0 < i < |groups| ==> groups[i] == groups[1..][i - 1] && chunks[i] == chunks[1..][i - 1];
      }
      if groups[0].Kept() {
        assert chunks[0] + d == chunks[0] + c ==> d == c by {
          assert (chunks[0] + d)[|chunks[0]|..] == d && (chunks[0] + c)[|chunks[0]|..] == c;
        }
      } else {
        assert [] + d == d && [] + c == c;
      }
    }
  }

  /** The price of checkpointing by sequence number: when a data packet has been acknowledged and then a header is
      lost, or a repetition of the packet arrives damaged, its payload is taken away again. */
  lemma LateErrorLosesData(l: Link, data: Attempt, late: Attempt)
    requires var p := data.Packet(); p.Good? && p.typ == DATA && l.lastN != Some(p.num)
    requires late.Packet().BadHeader? || (late.Packet().Bad? && late.Packet().num == data.Packet().num)
    ensures AcceptAll(l, [data]).cur == Feed(l.cur, l.quote, data.Packet().data)
    ensures AcceptAll(l, [data, late]).cur == l.cur
    ensures AcceptAll(l, [data]).sent == l.sent + Reply(l, data.Packet().num, ACK, [])
  {
    hide Parse, Feed, Frame, Repeat;
    var l1 := Accept(l, data.Packet());
    assert AcceptAll(l, [data]) == AcceptAll(l1, []);
    assert [data, late][1..] == [late];
    assert AcceptAll(l, [data, late]) == AcceptAll(l1, [late]) == AcceptAll(Accept(l1, late.Packet()), []);
  }

  // ---------- a sender that waits ----------

  /** What the receiver puts on the line between two states is one reply of this type for this packet. */
  ghost predicate Answered(before: Link, after: Link, num: byte, typ: byte) {
    exists params: seq<byte> :: after.sent == before.sent + Reply(after, num, typ, params)
  }

  /** The sender's rule at one packet: it moves on only when the reply to its latest attempt was an ACK. An ACK that is
      lost, or a NACK, makes it try again. */
  ghost predicate MovesOnAtAck(l: Link, g: Group) {
    g.tries != [] && Answered(AcceptAll(l, g.tries[..|g.tries| - 1]), AcceptAll(l, g.tries), g.num, ACK)
  }

  ghost predicate StopAndWait(l: Link, groups: seq<Group>)
    decreases |groups|
  {
    groups == [] || (MovesOnAtAck(l, groups[0]) && StopAndWait(AcceptAll(l, groups[0].tries), groups[1..]))
  }

  lemma ReplyType(l: Link, num: byte, typ: byte, params: seq<byte>)
    ensures |Reply(l, num, typ, params)| > l.padCount + 3 && Reply(l, num, typ, params)[l.padCount + 3] == typ
  {
    hide Check, ToChar, Repeat;
    var f := Frame(num, typ, params);
    assert f[3] == typ;
  }

  /** A NACK is no ACK. */
  lemma OneReply(sent: seq<byte>, l: Link, num: byte, n: byte, params: seq<byte>)
    ensures sent + Reply(l, num, NACK, []) != sent + Reply(l, n, ACK, params)
  {
    ReplyType(l, num, NACK, []);
    ReplyType(l, n, ACK, params);
    hide Reply;
    var x, y := Reply(l, num, NACK, []), Reply(l, n, ACK, params);
    assert (sent + x)[|sent|..] == x && (sent + y)[|sent|..] == y;
  }

  /** The reply to one attempt is an ACK exactly when it arrived intact. */
  lemma AckOfAttempt(l: Link, g: Group, a: Attempt)
    requires g.Fits(a.Packet())
    ensures Answered(l, Accept(l, a.Packet()), g.num, ACK) <==> a.Packet().Good?
  {
    hide Parse, Feed, Frame, Repeat;
    var p, after := a.Packet(), Accept(l, a.Packet());
    if p.Good? {
      var n := Parameters(p.data);
      var params := if p.typ != SEND then [] else if n >= 10 then OFFER else OFFER[..n];
      assert after.sent == l.sent + Reply(after, g.num, ACK, params);
    } else {
      var num := if p.Bad? then g.num else l.lastN.GetOr(0);
      assert after.sent == l.sent + Reply(after, num, NACK, []);
      hide Reply;
      forall params: seq<byte>
        ensures after.sent != l.sent + Reply(after, g.num, ACK, params)
      {
        OneReply(l.sent, after, num, g.num, params);
      }
    }
  }

  /** The sender sees an ACK to its latest attempt exactly when that attempt arrived intact. */
  lemma AckIffKept(l: Link, g: Group)
    requires g.Wf()
    ensures MovesOnAtAck(l, g) <==> g.Kept()
  {
    hide Parse, Accept, AcceptAll;
    var n := |g.tries| - 1;
    assert g.tries == g.tries[..n] + [g.tries[n]];
    AcceptAllSnoc(l, g.tries[..n], g.tries[n]);
    AckOfAttempt(AcceptAll(l, g.tries[..n]), g, g.tries[n]);
  }

  lemma {:induction false} AllKept(l: Link, groups: seq<Group>)
    requires (forall g <- groups :: g.Wf()) && StopAndWait(l, groups)
    ensures forall i :: 0 <= i < |groups| ==> groups[i].Kept()
    decreases |groups|
  {
    hide AcceptAll;
    if groups != [] {
      AckIffKept(l, groups[0]);
      AllKept(AcceptAll(l, groups[0].tries), groups[1..]);
      assert forall i :: 0 < i < |groups| ==> groups[i] == groups[1..][i - 1];
    }
  }

  /** A sender that keeps the rule gets the whole image across, once, over every line that spares the header of each
      packet's first attempt: with ACKs lost, packets repeated, and any other damage that the block check finds. */
  lemma StopAndWaitDelivers(q: byte, setup: Group, groups: seq<Group>, chunks: seq<seq<byte>>,
                            end: Group, sent: seq<byte>, rest: seq<byte>)
    requires LegalQuote(q) && setup.Wf() && setup.typ == SEND && QuoteOf(setup.data) == q
    requires Carries(q, groups, chunks) && Finish(end) && Alternating(Some(setup.num), groups, end.num)
    requires StopAndWait(Fresh().(sent := sent), [setup] + groups)
    ensures var v := Session(Fresh().(sent := sent), Wire(setup.tries) + (WireAll(groups) + (Wire(end.tries) + rest)));
            v.Done? && v.link.cur.out == Concat(chunks)
  {
    hide Parse, Accept, Session, AcceptAll, Wire;
    var l, all := Fresh().(sent := sent), [setup] + groups;
    AllKept(l, all);
    assert all[0] == setup && forall i :: 0 <= i < |groups| ==> all[i + 1] == groups[i];
    assert setup.Heard() by { assert setup.tries[|setup.tries| - 1].Packet().Good?; }
    DownloadDelivers(q, setup, groups, chunks, end, sent, rest);
    WholeIff(groups, chunks);
  }

  // ---------- replies ----------

  /** Every packet the receiver sends is well formed by the rule it applies to the packets it
      receives: its length byte counts the characters that follow and its check is right. */
  lemma ReplyPasses(num: byte, typ: byte, params: seq<byte>, rest: seq<byte>)
    requires num < 224 && Printable(typ) && |params| <= 13
    requires forall i :: 0 <= i < |params| ==> Printable(params[i])
    ensures var f := Frame(num, typ, params);
      && |f| <= 18 && f[0] == START
      && UnToChar(f[1]) == |f| - 2
      && Parse(f[1..] + [CR] + rest) == Good(num, typ, params, |f|)
  {
    hide Parse, Sum, Check;
    var p := Pkt(num, typ, params, false);
    var f := Frame(num, typ, params);
    ParseEncoded(p, rest);
    assert UnToChar(f[1]) == |f| - 2;
    assert p.Encoded() == f[1..] + [CR];
  }
}
