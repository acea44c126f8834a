/** `fdc_read_data`: blocks off a floppy, one track side at a time, with retries and recalibrations. */
module Floppy {
  import opened Arith
  import opened Bytes

  const RW_RETRIES: nat := 3
  const CAL_RETRIES: nat := 3

  /** RW_RETRIES + 2 tries at the start and after each of CAL_RETRIES + 1 recalibrations; the last one must do. */
  const TOLERATED: nat := 24

  // ---------- geometry ----------

  datatype Geometry = Geometry(sect: nat, head: nat, size: nat)

  datatype Place = Place(track: nat, head: nat, sect: nat)

  ghost predicate OnDisk(g: Geometry, p: Place) {
    p.head < g.head && 1 <= p.sect <= g.sect
  }

  /** Where `fdc_issue_cmd` looks for a block. */
  function PlaceOf(g: Geometry, blnr: nat): Place
    requires g.sect > 0 && g.head > 0
  {
    MulMono(1, g.head, g.sect);
    var rest := blnr % (g.sect * g.head);
    Place(blnr / (g.sect * g.head), rest / g.sect, rest % g.sect + 1)
  }

  /** The block number of a place, counted side by side. */
  function BlockOf(g: Geometry, p: Place): nat
    requires p.sect > 0
  {
    (p.track * g.head + p.head) * g.sect + (p.sect - 1)
  }

  /** How far into its side a block lies. */
  function Within(g: Geometry, blnr: nat): (k: nat)
    requires g.sect > 0
    ensures k < g.sect
  {
    blnr % g.sect
  }

  /** The track number has one byte in a command. */
  function Capacity(g: Geometry): nat { 256 * (g.sect * g.head) }

  lemma PlaceOfBlockOf(g: Geometry, p: Place)
    requires g.sect > 0 && g.head > 0 && OnDisk(g, p)
    ensures PlaceOf(g, BlockOf(g, p)) == p
    ensures Within(g, BlockOf(g, p)) == p.sect - 1
  {
    var rest := p.head * g.sect + (p.sect - 1);
    MulLess(p.head, g.head, g.sect);
    assert (p.track * g.head + p.head) * g.sect == p.track * (g.sect * g.head) + p.head * g.sect by {
      Distribute(p.track, g.head, p.head, g.sect);
    }
    DivUnique(BlockOf(g, p), p.track, rest, g.sect * g.head);
    DivUnique(rest, p.head, p.sect - 1, g.sect);
    DivUnique(BlockOf(g, p), p.track * g.head + p.head, p.sect - 1, g.sect);
  }

  lemma Distribute(t: int, h: int, k: int, s: int)
    ensures (t * h + k) * s == t * (s * h) + k * s
  {
    assert (t * h) * s == t * (s * h);
  }

  lemma BlockOfPlaceOf(g: Geometry, blnr: nat)
    requires g.sect > 0 && g.head > 0
    ensures OnDisk(g, PlaceOf(g, blnr)) && BlockOf(g, PlaceOf(g, blnr)) == blnr
  {
    MulMono(1, g.head, g.sect);
    var n := g.sect * g.head;
    var t, rest := blnr / n, blnr % n;
    var h, s := rest / g.sect, rest % g.sect;
    assert PlaceOf(g, blnr) == Place(t, h, s + 1);
    hide PlaceOf;
    assert blnr == t * n + rest && rest == h * g.sect + s;
    if h >= g.head {
      MulMono(g.head, h, g.sect);
    }
    Distribute(t, g.head, h, g.sect);
  }

  /** While the side lasts, the next block is the next sector. */
  lemma SameSide(g: Geometry, blnr: nat, j: nat)
    requires g.sect > 0 && g.head > 0 && Within(g, blnr) + j < g.sect
    ensures var p := PlaceOf(g, blnr);
      PlaceOf(g, blnr + j) == p.(sect := p.sect + j) && p.sect == Within(g, blnr) + 1
  {
    BlockOfPlaceOf(g, blnr);
    hide PlaceOf;
    var p := PlaceOf(g, blnr);
    PlaceOfBlockOf(g, p);
    PlaceOfBlockOf(g, p.(sect := p.sect + j));
    assert BlockOf(g, p.(sect := p.sect + j)) == BlockOf(g, p) + j;
  }

  /** Behind the last sector of a side a new side begins. */
  lemma NextSide(g: Geometry, blnr: nat, count: nat)
    requires g.sect > 0 && Within(g, blnr) + count == g.sect
    ensures Within(g, blnr + count) == 0
  {
    var q := blnr / g.sect;
    assert (q + 1) * g.sect == q * g.sect + g.sect;
    DivUnique(blnr + count, q + 1, 0, g.sect);
  }

  lemma TrackInByte(g: Geometry, blnr: nat)
    requires g.sect > 0 && g.head > 0 && blnr < Capacity(g)
    ensures PlaceOf(g, blnr).track < 256
  {
    MulMono(1, g.head, g.sect);
    var n := g.sect * g.head;
    var q := blnr / n;
    if q >= 256 {
      MulMono(256, q, n);
    }
  }

  // ---------- the disk ----------

  /** Byte i of a sector; a sector is found under the head when the arm is on its track. */
  type Medium = (Place, nat) -> byte

  function Sector(m: Medium, g: Geometry, p: Place): (s: seq<byte>)
    ensures |s| == g.size
  {
    seq(g.size, (i: nat) => m(p, i))
  }

  /** What a read command delivers: sector after sector of one side. */
  function Stream(m: Medium, g: Geometry, p: Place, count: nat): (s: seq<byte>)
    ensures |s| == Span(count, g.size)
    decreases count
  {
    if count == 0 then [] else Sector(m, g, p) + Stream(m, g, p.(sect := p.sect + 1), count - 1)
  }

  /** Blocks blnr to blnr + count - 1 in order. */
  function Blocks(m: Medium, g: Geometry, blnr: nat, count: nat): (s: seq<byte>)
    requires g.sect > 0 && g.head > 0
    ensures |s| == Span(count, g.size)
    decreases count
  {
    if count == 0 then [] else Sector(m, g, PlaceOf(g, blnr)) + Blocks(m, g, blnr + 1, count - 1)
  }

  lemma {:induction false} BlocksAppend(m: Medium, g: Geometry, blnr: nat, a: nat, b: nat)
    requires g.sect > 0 && g.head > 0
    ensures Blocks(m, g, blnr, a + b) == Blocks(m, g, blnr, a) + Blocks(m, g, blnr + a, b)
    decreases a
  {
    if a > 0 {
      hide PlaceOf, Sector;
      BlocksAppend(m, g, blnr + 1, a - 1, b);
      Assoc(Sector(m, g, PlaceOf(g, blnr)), Blocks(m, g, blnr + 1, a - 1), Blocks(m, g, blnr + a, b));
    }
  }

  /** A read command that stays on its side delivers consecutive blocks. */
  lemma {:induction false} StreamIsBlocks(m: Medium, g: Geometry, blnr: nat, j: nat, count: nat)
    requires g.sect > 0 && g.head > 0 && Within(g, blnr) + j + count <= g.sect
    ensures var p := PlaceOf(g, blnr); Stream(m, g, p.(sect := p.sect + j), count) == Blocks(m, g, blnr + j, count)
    decreases count
  {
    if count > 0 {
      SameSide(g, blnr, j);
      StreamIsBlocks(m, g, blnr, j + 1, count - 1);
    }
  }

  /** The arm on the right track and every number in its byte, one read command gets its blocks. */
  lemma SideStream(m: Medium, g: Geometry, arm: nat, blnr: nat, count: nat)
    requires 0 < g.sect <= 255 && 0 < g.head <= 256 && Within(g, blnr) + count <= g.sect
    requires count > 0 ==> blnr < Capacity(g) && arm == PlaceOf(g, blnr).track % 256
    ensures var p := PlaceOf(g, blnr); Stream(m, g, Place(arm, p.head % 256, p.sect % 256), count) == Blocks(m, g, blnr, count)
  {
    if count > 0 {
      TrackInByte(g, blnr);
      BlockOfPlaceOf(g, blnr);
      StreamIsBlocks(m, g, blnr, 0, count);
      var p := PlaceOf(g, blnr);
      assert Place(arm, p.head % 256, p.sect % 256) == p == p.(sect := p.sect + 0);
    }
  }

  // ---------- one call ----------

  /** What the controller was told, and how it went. */
  datatype Event =
    | Refused
    | Sought(track: nat)
    | Recalibrated
    | Read(place: Place, count: nat, whole: bool)

  function Errors(events: seq<Event>): (n: nat) {
    if events == [] then 0
    else Errors(events[..|events| - 1]) + if events[|events| - 1].Read? && !events[|events| - 1].whole then 1 else 0
  }

  ghost predicate AllCarriedOut(events: seq<Event>) {
    forall e <- events :: e != Refused
  }

  /** What a call is asked for: the blocks in front of `end`. */
  datatype Request = Request(geo: Geometry, end: nat)

  /** A read command stays on its side and takes all that is wanted of it. */
  ghost predicate SideRead(r: Request, e: Event)
    requires e.Read?
  {
    && OnDisk(r.geo, e.place) && e.place.sect - 1 + e.count <= r.geo.sect
    && (e.place.sect - 1 + e.count == r.geo.sect || BlockOf(r.geo, e.place) + e.count == r.end)
  }

  /** No read command runs past the end of its side, and none stops short of it before the request is met. */
  ghost predicate SideBySide(r: Request, events: seq<Event>) {
    forall e <- events :: e.Read? ==> SideRead(r, e)
  }

  class Drive {
    const geo: Geometry
    const medium: Medium
    // Anything may go wrong at any time: does the next command go through, and at which byte does
    // the next transfer break off, given all that happened so far?
    const works: seq<Event> -> bool
    const breaksAt: seq<Event> -> nat
    var blnr: nat
    var arm: nat
    var events: seq<Event>

    ghost predicate Valid() {
      0 < geo.sect <= 255 && 0 < geo.head <= 256
    }

    constructor (geo: Geometry, medium: Medium, works: seq<Event> -> bool, breaksAt: seq<Event> -> nat)
      requires 0 < geo.sect <= 255 && 0 < geo.head <= 256
      ensures Valid() && this.geo == geo && this.medium == medium && events == []
    {
      this.geo, this.medium, this.works, this.breaksAt := geo, medium, works, breaksAt;
      blnr, arm, events := 0, 0, [];
    }

    /** `fdc_seek`: to the track of block `blnr`, whose number has one byte in the command. */
    method Seek() returns (ok: bool)
      requires Valid()
      modifies this`arm, this`events
      ensures events == old(events) + [if ok then Sought(arm) else Refused]
      ensures ok ==> arm == PlaceOf(geo, blnr).track % 256
    {
      ok := works(events);
      if ok {
        arm := PlaceOf(geo, blnr).track % 256;
      }
      events := events + [if ok then Sought(arm) else Refused];
    }

    method Recalibrate() returns (ok: bool)
      modifies this`arm, this`events
      ensures events == old(events) + [if ok then Recalibrated else Refused]
    {
      ok := works(events);
      if ok {
        arm := 0;
      }
      events := events + [if ok then Recalibrated else Refused];
    }

    /** One FDC_CMD_READ with its transfer into buffer[offset..]. */
    method ReadCommand(buffer: array<byte>, offset: nat, count: nat) returns (issued: bool, whole: bool)
      requires Valid() && offset + Span(count, geo.size) <= buffer.Length
      modifies this`events, buffer
      ensures events == old(events) + [if issued then Read(PlaceOf(geo, blnr), count, whole) else Refused]
      ensures forall k :: 0 <= k < offset || offset + Span(count, geo.size) <= k < buffer.Length ==> buffer[k] == old(buffer[k])
      ensures issued && whole ==>
        var p := PlaceOf(geo, blnr);
        var data := Stream(medium, geo, Place(arm, p.head % 256, p.sect % 256), count);
        forall i :: 0 <= i < Span(count, geo.size) ==> buffer[offset + i] == data[i]
    {
      issued, whole := works(events), false;
      if issued {
        var p := PlaceOf(geo, blnr);
        var data := Stream(medium, geo, Place(arm, p.head % 256, p.sect % 256), count);
        whole := Transfer(buffer, offset, data, breaksAt(events));
        events := events + [Read(p, count, whole)];
      } else {
        events := events + [Refused];
      }
    }

    /** The polling loop over the bytes; the controller goes to its result phase at byte `breakAt`. */
    static method Transfer(buffer: array<byte>, offset: nat, data: seq<byte>, breakAt: nat) returns (whole: bool)
      requires offset + |data| <= buffer.Length
      modifies buffer
      ensures whole <==> breakAt >= |data|
      ensures forall k :: 0 <= k < offset || offset + |data| <= k < buffer.Length ==> buffer[k] == old(buffer[k])
      ensures whole ==> forall i :: 0 <= i < |data| ==> buffer[offset + i] == data[i]
    {
      for i := 0 to |data|
        invariant i <= breakAt
        invariant forall k :: 0 <= k < offset || offset + |data| <= k < buffer.Length ==> buffer[k] == old(buffer[k])
        invariant forall k :: 0 <= k < i ==> buffer[offset + k] == data[k]
      {
        if i == breakAt {
          return false;
        }
        buffer[offset + i] := data[i];
      }
      return true;
    }

    /** The buffer begins with the first n of the blocks asked for. */
    ghost predicate HasRead(buffer: seq<byte>, from: nat, n: nat, blocks: nat)
      requires Valid()
    {
      var part := Span(n, geo.size);
      part <= |buffer| && part <= Span(blocks, geo.size) && buffer[..part] == Blocks(medium, geo, from, blocks)[..part]
    }

    /** The loop over the sides with `left` blocks to go: what stands in front of `offset` and the blocks still to come
        are the blocks asked for. */
    ghost predicate Midway(buffer: seq<byte>, from: nat, blocks: nat, left: nat, offset: nat)
      requires Valid()
    {
      && left <= blocks && offset == Span(blocks - left, geo.size)
      && offset + Span(left, geo.size) == Span(blocks, geo.size) <= |buffer|
      && Blocks(medium, geo, from, blocks) == buffer[..offset] + Blocks(medium, geo, from + (blocks - left), left)
    }

    lemma MidwayStart(buffer: seq<byte>, from: nat, blocks: nat)
      requires Valid() && Span(blocks, geo.size) <= |buffer|
      ensures Midway(buffer, from, blocks, blocks, 0) && HasRead(buffer, from, 0, blocks)
    {
      assert Span(0, geo.size) == 0;
    }

    lemma MidwayFits(buffer: seq<byte>, from: nat, blocks: nat, left: nat, offset: nat)
      requires Valid() && Midway(buffer, from, blocks, left, offset)
      ensures offset + Span(left, geo.size) == Span(blocks, geo.size) <= |buffer|
    {
    }

    lemma MidwayRead(before: seq<byte>, buffer: seq<byte>, from: nat, blocks: nat, left: nat, offset: nat)
      requires Valid() && Midway(before, from, blocks, left, offset)
      requires |buffer| == |before| && buffer[..offset] == before[..offset]
      ensures Midway(buffer, from, blocks, left, offset) && HasRead(buffer, from, blocks - left, blocks)
    {
      hide Blocks, Span;
      assert (buffer[..offset] + Blocks(medium, geo, from + (blocks - left), left))[..offset] == buffer[..offset];
    }

    lemma MidwayNext(before: seq<byte>, buffer: seq<byte>, from: nat, blocks: nat, left: nat, offset: nat, count: nat)
      requires Valid() && Midway(before, from, blocks, left, offset) && count <= left && |buffer| == |before|
      requires offset + Span(count, geo.size) <= |buffer|
      requires buffer[..offset + Span(count, geo.size)] == before[..offset] + Blocks(medium, geo, from + (blocks - left), count)
      ensures Midway(buffer, from, blocks, left - count, offset + geo.size * count)
    {
      hide Blocks, Span;
      var blnr, here := from + (blocks - left), offset + geo.size * count;
      SpanAdd(count, left - count, geo.size);
      SpanAdd(blocks - left, count, geo.size);
      CountedSpan(count, geo.size);
      BlocksAppend(medium, geo, blnr, count, left - count);
      Joined(Blocks(medium, geo, from, blocks), before[..offset], Blocks(medium, geo, blnr, count),
             Blocks(medium, geo, blnr + count, left - count), buffer[..here]);
    }

    lemma MidwayEnd(buffer: seq<byte>, from: nat, blocks: nat, offset: nat)
      requires Valid() && Midway(buffer, from, blocks, 0, offset)
      ensures buffer[..Span(blocks, geo.size)] == Blocks(medium, geo, from, blocks)
      ensures HasRead(buffer, from, blocks, blocks)
    {
      assert Span(0, geo.size) == 0 && Blocks(medium, geo, from + blocks, 0) == [];
    }

    method ReadData(buffer: array<byte>, blocks: nat) returns (ok: bool, ghost log: seq<Event>)
      requires Valid() && Span(blocks, geo.size) <= buffer.Length
      requires blnr + blocks <= Capacity(geo)
      modifies this`blnr, this`arm, this`events, buffer
      ensures ok ==> buffer[..Span(blocks, geo.size)] == Blocks(medium, geo, old(blnr), blocks) && blnr == old(blnr) + blocks
      ensures old(blnr) <= blnr <= old(blnr) + blocks && HasRead(buffer[..], old(blnr), blnr - old(blnr), blocks)
      ensures forall k :: Span(blocks, geo.size) <= k < buffer.Length ==> buffer[k] == old(buffer[k])
      ensures events == old(events) + log && SideBySide(Request(geo, old(blnr) + blocks), log)
      ensures ok <==> AllCarriedOut(log) && Errors(log) <= TOLERATED
    {
      hide AllCarriedOut, SideBySide, Errors, PlaceOf, Blocks, Tally, GivenUp, HasRead;
      ghost var req := Request(geo, blnr + blocks);
      TallyNone(req);
      ok, log := Reseek(events, [], 0, 0, req);
      MidwayStart(buffer[..], blnr, blocks);
      if !ok {
        Ended(req, log);
        return;
      }
      var count := geo.sect - Within(geo, blnr);
      if count > blocks {
        count := blocks;
      }
      ok, log := ReadSides(buffer, blocks, count, old(events), log, req);
    }

    /** The loop over the sides, from the first read command on. `before` is what the call did so far. */
    method ReadSides(buffer: array<byte>, blocks: nat, first: nat, ghost base: seq<Event>, ghost before: seq<Event>, ghost req: Request)
      returns (ok: bool, ghost log: seq<Event>)
      requires req.geo == geo
      requires Valid() && Span(blocks, geo.size) <= buffer.Length && events == base + before && Tally(req, before, 0, 0)
      requires req.end == blnr + blocks <= Capacity(geo) && arm == PlaceOf(geo, blnr).track % 256
      requires SideAhead(geo, blnr, first, blocks)
      modifies this`blnr, this`arm, this`events, buffer
      ensures ok ==> buffer[..Span(blocks, geo.size)] == Blocks(medium, geo, old(blnr), blocks) && blnr == old(blnr) + blocks
      ensures old(blnr) <= blnr <= old(blnr) + blocks && HasRead(buffer[..], old(blnr), blnr - old(blnr), blocks)
      ensures forall k :: Span(blocks, geo.size) <= k < buffer.Length ==> buffer[k] == old(buffer[k])
      ensures events == base + log && SideBySide(req, log)
      ensures ok <==> AllCarriedOut(log) && Errors(log) <= TOLERATED
    {
      hide AllCarriedOut, SideBySide, Errors, Tally, PlaceOf, Blocks, Within, Capacity, Span, GivenUp, HasRead, Midway, SideAhead;
      ghost var from := blnr;
      log := before;
      MidwayStart(buffer[..], from, blocks);
      var retriesRw: nat, retriesCal: nat := 0, 0;
      var offset: nat, left: nat, count: nat := 0, blocks, first;
      while true
        invariant events == base + log && Tally(req, log, retriesRw, retriesCal)
        invariant retriesRw <= RW_RETRIES + 1 && retriesCal <= CAL_RETRIES + 1
        invariant left <= blocks && blnr == from + (blocks - left)
        invariant SideAhead(geo, blnr, count, left)
        invariant arm == PlaceOf(geo, blnr).track % 256
        invariant Midway(buffer[..], from, blocks, left, offset)
        invariant forall k :: Span(blocks, geo.size) <= k < buffer.Length ==> buffer[k] == old(buffer[k])
        decreases left, CAL_RETRIES + 1 - retriesCal, RW_RETRIES + 1 - retriesRw
      {
        SideIs(geo, blnr, count, left);
        SpanMono(count, left, geo.size);
        ghost var was := buffer[..];
        MidwayFits(was, from, blocks, left, offset);
        var issued, whole;
        issued, whole, log := ReadSide(buffer, offset, count, base, log, retriesRw, retriesCal, req);
        MidwayRead(was, buffer[..], from, blocks, left, offset);
        if !issued {
          Ended(req, log);
          return false, log;
        }
        if whole {
          NextAhead(geo, blnr, count, left);
          MidwayNext(was, buffer[..], from, blocks, left, offset, count);
          offset := offset + geo.size * count;
          blnr := blnr + count;
          left := left - count;
          MidwayRead(buffer[..], buffer[..], from, blocks, left, offset);
          if left == 0 {
            MidwayEnd(buffer[..], from, blocks, offset);
            TallyEnd(req, log, retriesRw, retriesCal);
            return true, log;
          }
          count := geo.sect;
          if count > left {
            count := left;
          }
          ok, log := Reseek(base, log, retriesRw, retriesCal, req);
          if !ok {
            Ended(req, log);
            return false, log;
          }
        } else {
          ok, retriesRw, retriesCal, log := AfterError(base, log, retriesRw, retriesCal, req);
          if !ok {
            return false, log;
          }
        }
      }
    }

    /** A transfer has broken off: try again, or recalibrate after too many tries, or give up after too many of those. */
    method AfterError(ghost base: seq<Event>, ghost before: seq<Event>, rw: nat, cal: nat, ghost req: Request)
      returns (ok: bool, retriesRw: nat, retriesCal: nat, ghost log: seq<Event>)
      requires req.geo == geo
      requires Valid() && events == base + before && Tally(req, before, rw + 1, cal)
      requires rw <= RW_RETRIES + 1 && cal <= CAL_RETRIES + 1 && arm == PlaceOf(geo, blnr).track % 256
      modifies this`arm, this`events
      ensures events == base + log
      ensures ok ==>
        && Tally(req, log, retriesRw, retriesCal) && arm == PlaceOf(geo, blnr).track % 256
        && retriesRw <= RW_RETRIES + 1 && retriesCal <= CAL_RETRIES + 1
        && (retriesCal > cal || (retriesCal == cal && retriesRw > rw))
      ensures !ok ==> SideBySide(req, log) && !(AllCarriedOut(log) && Errors(log) <= TOLERATED)
    {
      hide AllCarriedOut, SideBySide, Errors, Tally, PlaceOf, GivenUp;
      log := before;
      retriesRw, retriesCal := rw + 1, cal;
      if retriesRw - 1 <= RW_RETRIES {
        return true, retriesRw, retriesCal, log;
      }
      retriesCal := retriesCal + 1;
      if retriesCal - 1 > CAL_RETRIES {
        TallyEnd(req, log, retriesRw, retriesCal - 1);
        return false, retriesRw, retriesCal, log;
      }
      ok, log := Restart(base, log, retriesRw, retriesCal - 1, req);
      retriesRw := 0;
      if !ok {
        Ended(req, log);
      }
    }

    /** One read command, and what it means for the call. */
    method ReadSide(buffer: array<byte>, offset: nat, count: nat, ghost base: seq<Event>, ghost before: seq<Event>, ghost rw: nat, ghost cal: nat, ghost req: Request)
      returns (issued: bool, whole: bool, ghost log: seq<Event>)
      requires req.geo == geo
      requires Valid() && offset + Span(count, geo.size) <= buffer.Length && events == base + before && Tally(req, before, rw, cal)
      requires Within(geo, blnr) + count <= geo.sect && (Within(geo, blnr) + count == geo.sect || blnr + count == req.end)
      requires count > 0 ==> blnr < Capacity(geo) && arm == PlaceOf(geo, blnr).track % 256
      modifies this`events, buffer
      ensures events == base + log
      ensures if issued then Tally(req, log, if whole then rw else rw + 1, cal) else GivenUp(req, log)
      ensures buffer[..offset] == old(buffer[..offset])
      ensures issued && whole ==> buffer[..offset + Span(count, geo.size)] == old(buffer[..offset]) + Blocks(medium, geo, blnr, count)
      ensures forall k :: offset + Span(count, geo.size) <= k < buffer.Length ==> buffer[k] == old(buffer[k])
    {
      hide Tally, PlaceOf, Blocks, Stream, GivenUp;
      TallyRefused(req, before, rw, cal);
      SideStream(medium, geo, arm, blnr, count);
      issued, whole := ReadCommand(buffer, offset, count);
      TallyRead(req, before, rw, cal, blnr, count, whole);
      log := before + [if issued then Read(PlaceOf(geo, blnr), count, whole) else Refused];
    }

    /** A seek inside the call. */
    method Reseek(ghost base: seq<Event>, ghost before: seq<Event>, ghost rw: nat, ghost cal: nat, ghost req: Request) returns (ok: bool, ghost log: seq<Event>)
      requires req.geo == geo
      requires Valid() && events == base + before && Tally(req, before, rw, cal)
      modifies this`arm, this`events
      ensures events == base + log
      ensures if ok then Tally(req, log, rw, cal) && arm == PlaceOf(geo, blnr).track % 256 else GivenUp(req, log)
    {
      hide Tally, PlaceOf, GivenUp;
      TallyRefused(req, before, rw, cal);
      ok := Seek();
      TallyMove(req, before, rw, cal, Sought(arm));
      log := before + [if ok then Sought(arm) else Refused];
    }

    /** After too many tries: recalibrate, count from zero, seek again. */
    method Restart(ghost base: seq<Event>, ghost before: seq<Event>, ghost rw: nat, ghost cal: nat, ghost req: Request) returns (ok: bool, ghost log: seq<Event>)
      requires req.geo == geo
      requires Valid() && events == base + before && Tally(req, before, rw, cal) && rw == RW_RETRIES + 2
      modifies this`arm, this`events
      ensures events == base + log
      ensures if ok then Tally(req, log, 0, cal + 1) && arm == PlaceOf(geo, blnr).track % 256 else GivenUp(req, log)
    {
      hide Tally, GivenUp, PlaceOf;
      TallyRefused(req, before, rw, cal);
      TallyMove(req, before, rw, cal, Recalibrated);
      ok := Recalibrate();
      log := before + [if ok then Recalibrated else Refused];
      if ok {
        TallyReset(req, log, rw, cal);
        ok, log := Reseek(base, log, 0, cal + 1, req);
      }
    }
  }

  lemma CountedSpan(n: nat, d: nat)
    ensures Span(n, d) == d * n
  {
    SpanIsProduct(n, d);
  }

  lemma Joined(all: seq<byte>, a: seq<byte>, b: seq<byte>, c: seq<byte>, ab: seq<byte>)
    requires all == a + (b + c) && ab == a + b
    ensures all == ab + c
  {
  }

  /** The next read command takes `count` of the `left` blocks: to the end of the side, or all of them. */
  ghost predicate SideAhead(g: Geometry, blnr: nat, count: nat, left: nat)
    requires g.sect > 0
  {
    && count <= left && Within(g, blnr) + count <= g.sect && (left > 0 ==> count > 0)
    && (count == left || Within(g, blnr) + count == g.sect)
  }

  lemma SideIs(g: Geometry, blnr: nat, count: nat, left: nat)
    requires g.sect > 0 && SideAhead(g, blnr, count, left)
    ensures count <= left && Within(g, blnr) + count <= g.sect && (left > 0 ==> count > 0)
    ensures Within(g, blnr) + count == g.sect || count == left
  {
  }

  /** Behind a side that is not the last one a whole side lies ahead. */
  lemma NextAhead(g: Geometry, blnr: nat, count: nat, left: nat)
    requires g.sect > 0 && SideAhead(g, blnr, count, left)
    ensures count == left || SideAhead(g, blnr + count, if g.sect > left - count then left - count else g.sect, left - count)
  {
    if count != left {
      NextSide(g, blnr, count);
    }
  }

  // ---------- the tally of a call under way ----------

  /** Nothing refused yet, and the retry counters add up to the errors so far. */
  ghost predicate Tally(r: Request, log: seq<Event>, rw: nat, cal: nat) {
    && AllCarriedOut(log) && SideBySide(r, log)
    && Errors(log) == cal * (RW_RETRIES + 2) + rw
  }

  /** A command did not go through: the end of the call. */
  ghost predicate GivenUp(r: Request, log: seq<Event>) {
    SideBySide(r, log) && !AllCarriedOut(log)
  }

  lemma Ended(r: Request, log: seq<Event>)
    requires GivenUp(r, log)
    ensures SideBySide(r, log) && !AllCarriedOut(log)
  {
  }

  lemma TallyNone(r: Request)
    ensures Tally(r, [], 0, 0)
  {
  }

  lemma TallyMove(r: Request, log: seq<Event>, rw: nat, cal: nat, e: Event)
    requires Tally(r, log, rw, cal) && e != Refused && !e.Read?
    ensures Tally(r, log + [e], rw, cal)
  {
    Add(r, log, e);
  }

  /** A recalibration takes the place of the tries used up. */
  lemma TallyReset(r: Request, log: seq<Event>, rw: nat, cal: nat)
    requires Tally(r, log, rw, cal) && rw == RW_RETRIES + 2
    ensures Tally(r, log, 0, cal + 1)
  {
  }

  lemma TallyEnd(r: Request, log: seq<Event>, rw: nat, cal: nat)
    requires Tally(r, log, rw, cal)
    ensures AllCarriedOut(log) && SideBySide(r, log) && Errors(log) == cal * (RW_RETRIES + 2) + rw
  {
  }

  lemma TallyRefused(r: Request, log: seq<Event>, rw: nat, cal: nat)
    requires Tally(r, log, rw, cal)
    ensures GivenUp(r, log + [Refused])
  {
    Add(r, log, Refused);
  }

  /** A read command: a broken transfer costs one try. */
  lemma TallyRead(r: Request, log: seq<Event>, rw: nat, cal: nat, blnr: nat, count: nat, whole: bool)
    requires Tally(r, log, rw, cal)
    requires r.geo.sect > 0 && r.geo.head > 0 && Within(r.geo, blnr) + count <= r.geo.sect
    requires Within(r.geo, blnr) + count == r.geo.sect || blnr + count == r.end
    ensures Tally(r, log + [Read(PlaceOf(r.geo, blnr), count, whole)], if whole then rw else rw + 1, cal)
  {
    BlockOfPlaceOf(r.geo, blnr);
    SameSide(r.geo, blnr, 0);
    hide PlaceOf;
    Add(r, log, Read(PlaceOf(r.geo, blnr), count, whole));
  }

  lemma Add(r: Request, log: seq<Event>, e: Event)
    ensures AllCarriedOut(log + [e]) <==> AllCarriedOut(log) && e != Refused
    ensures SideBySide(r, log) && (e.Read? ==> SideRead(r, e)) ==> SideBySide(r, log + [e])
    ensures Errors(log + [e]) == Errors(log) + if e.Read? && !e.whole then 1 else 0
  {
    var more := log + [e];
    assert more[..|log|] == log;
    assert more[|log|] == e;
    assert e in more;
    forall x | x in log
      ensures x in more
    {
      var i :| 0 <= i < |log| && log[i] == x;
      assert more[i] == x;
    }
    forall x | x in more
      ensures x in log || x == e
    {
      var i :| 0 <= i < |more| && more[i] == x;
      if i < |log| {
        assert log[i] == x;
      }
    }
  }
}
