/** `onenand_block_write` and `onenand_block_read`: blocks that are bad, or that the driver fails on,
    are passed over, and a write that goes on where the last one stopped keeps that one's shift. */
module Onenand {
  import opened Arith
  import opened Bytes

  /** What the MTD layer says about the block at a byte offset. */
  datatype Chip = Chip(size: nat, blockSize: nat, isBad: nat -> bool, writeFails: nat -> bool, readFails: nat -> bool) {
    predicate Unwritable(ofs: nat) { isBad(ofs) || writeFails(ofs) }

    predicate Unreadable(ofs: nat) { isBad(ofs) || readFails(ofs) }
  }

  type Content = map<nat, seq<byte>>

  // ---------- which blocks a transfer uses ----------

  /** How many blocks from `ofs` to the end of the chip are not passed over. */
  function Room(c: Chip, refused: nat -> bool, ofs: nat): (r: nat)
    requires c.blockSize > 0
    ensures ofs >= c.size ==> r == 0
    decreases c.size - ofs
  {
    if ofs >= c.size then 0
    else (if refused(ofs) then 0 else 1) + Room(c, refused, ofs + c.blockSize)
  }

  /** The first n blocks from `ofs` that are not passed over. */
  function Slots(c: Chip, refused: nat -> bool, ofs: nat, n: nat): (s: seq<nat>)
    requires c.blockSize > 0 && n <= Room(c, refused, ofs)
    ensures |s| == n
    decreases c.size - ofs
  {
    if n == 0 then []
    else if refused(ofs) then Slots(c, refused, ofs + c.blockSize, n)
    else [ofs] + Slots(c, refused, ofs + c.blockSize, n - 1)
  }

  /** Where a transfer over these slots stops. */
  function Stop(c: Chip, ofs: nat, slots: seq<nat>): nat {
    if slots == [] then ofs else slots[|slots| - 1] + c.blockSize
  }

  /** Usable blocks at or behind `ofs`, each at least one block behind the one before. */
  ghost predicate Ascending(c: Chip, refused: nat -> bool, ofs: nat, s: seq<nat>) {
    && (forall i :: 0 <= i < |s| ==> ofs <= s[i] < c.size && !refused(s[i]))
    && (forall i, j :: 0 <= i < j < |s| ==> s[i] + c.blockSize <= s[j])
  }

  lemma AscendingStep(c: Chip, refused: nat -> bool, ofs: nat, s: seq<nat>)
    requires ofs < c.size && !refused(ofs) && Ascending(c, refused, ofs + c.blockSize, s)
    ensures Ascending(c, refused, ofs, [ofs] + s)
  {
  }

  lemma {:induction false} SlotsAscend(c: Chip, refused: nat -> bool, ofs: nat, n: nat)
    requires c.blockSize > 0 && n <= Room(c, refused, ofs)
    ensures Ascending(c, refused, ofs, Slots(c, refused, ofs, n))
    decreases c.size - ofs
  {
    if n > 0 {
      if refused(ofs) {
        SlotsAscend(c, refused, ofs + c.blockSize, n);
      } else {
        SlotsAscend(c, refused, ofs + c.blockSize, n - 1);
        AscendingStep(c, refused, ofs, Slots(c, refused, ofs + c.blockSize, n - 1));
      }
    }
  }

  /** No usable block in front of the stopping point is left out. */
  lemma {:induction false} SlotsLeaveNoneOut(c: Chip, refused: nat -> bool, ofs: nat, n: nat, k: nat)
    requires c.blockSize > 0 && n <= Room(c, refused, ofs)
    requires ofs + Span(k, c.blockSize) < Stop(c, ofs, Slots(c, refused, ofs, n)) && !refused(ofs + Span(k, c.blockSize))
    ensures ofs + Span(k, c.blockSize) in Slots(c, refused, ofs, n)
    decreases c.size - ofs
  {
    if n > 0 && k > 0 {
      SlotsLeaveNoneOut(c, refused, ofs + c.blockSize, if refused(ofs) then n else n - 1, k - 1);
    }
  }

  /** In front of where it stops, a write uses the blocks that are not marked bad and take the data, a read those that
      are not marked bad and give theirs, and neither any other. */
  lemma BlocksUsed(c: Chip, ofs: nat, n: nat, k: nat)
    requires c.blockSize > 0
    ensures var o := ofs + Span(k, c.blockSize);
      && (n <= Room(c, c.Unwritable, ofs) && o < Stop(c, ofs, Slots(c, c.Unwritable, ofs, n)) ==>
            (o in Slots(c, c.Unwritable, ofs, n) <==> !c.isBad(o) && !c.writeFails(o)))
      && (n <= Room(c, c.Unreadable, ofs) && o < Stop(c, ofs, Slots(c, c.Unreadable, ofs, n)) ==>
            (o in Slots(c, c.Unreadable, ofs, n) <==> !c.isBad(o) && !c.readFails(o)))
  {
    var o := ofs + Span(k, c.blockSize);
    hide Slots, Stop, Room, Span;
    if n <= Room(c, c.Unwritable, ofs) && o < Stop(c, ofs, Slots(c, c.Unwritable, ofs, n)) {
      SlotsAscend(c, c.Unwritable, ofs, n);
      if !c.Unwritable(o) {
        SlotsLeaveNoneOut(c, c.Unwritable, ofs, n, k);
      }
    }
    if n <= Room(c, c.Unreadable, ofs) && o < Stop(c, ofs, Slots(c, c.Unreadable, ofs, n)) {
      SlotsAscend(c, c.Unreadable, ofs, n);
      if !c.Unreadable(o) {
        SlotsLeaveNoneOut(c, c.Unreadable, ofs, n, k);
      }
    }
  }

  lemma StopStep(c: Chip, refused: nat -> bool, ofs: nat, n: nat)
    requires c.blockSize > 0 && 0 < n <= Room(c, refused, ofs)
    ensures Stop(c, ofs, Slots(c, refused, ofs, n)) ==
      Stop(c, ofs + c.blockSize, Slots(c, refused, ofs + c.blockSize, if refused(ofs) then n else n - 1))
  {
  }

  /** The slots of a longer transfer: those of its first part, then those from where that stopped. */
  lemma {:induction false} SlotsSplit(c: Chip, refused: nat -> bool, ofs: nat, n: nat, m: nat)
    requires c.blockSize > 0 && n + m <= Room(c, refused, ofs)
    ensures var end := Stop(c, ofs, Slots(c, refused, ofs, n));
      && m <= Room(c, refused, end)
      && Slots(c, refused, ofs, n + m) == Slots(c, refused, ofs, n) + Slots(c, refused, end, m)
    decreases c.size - ofs
  {
    if n > 0 {
      StopStep(c, refused, ofs, n);
      SlotsSplit(c, refused, ofs + c.blockSize, if refused(ofs) then n else n - 1, m);
    }
  }

  /** A transfer covers at least its own length. */
  lemma {:induction false} SlotsSpan(c: Chip, refused: nat -> bool, ofs: nat, n: nat)
    requires c.blockSize > 0 && n <= Room(c, refused, ofs)
    ensures Stop(c, ofs, Slots(c, refused, ofs, n)) >= ofs + Span(n, c.blockSize)
    decreases c.size - ofs
  {
    if n > 0 {
      StopStep(c, refused, ofs, n);
      SlotsSpan(c, refused, ofs + c.blockSize, if refused(ofs) then n else n - 1);
    }
  }

  /** Two drivers that refuse the same blocks from `ofs` up to `end`. */
  ghost predicate Agree(c: Chip, r1: nat -> bool, r2: nat -> bool, ofs: nat, end: nat)
    requires c.blockSize > 0
    decreases c.size - ofs
  {
    ofs >= end || ofs >= c.size || (r1(ofs) == r2(ofs) && Agree(c, r1, r2, ofs + c.blockSize, end))
  }

  lemma FirstSlot(c: Chip, refused: nat -> bool, ofs: nat, n: nat)
    requires c.blockSize > 0 && 0 < n <= Room(c, refused, ofs)
    ensures Slots(c, refused, ofs, n)[0] >= ofs
    ensures Slots(c, refused, ofs, n)[0] == ofs <==> !refused(ofs)
    ensures Stop(c, ofs, Slots(c, refused, ofs, n)) > ofs
  {
    SlotsAscend(c, refused, ofs, n);
    if refused(ofs) {
      SlotsAscend(c, refused, ofs + c.blockSize, n);
    }
  }

  /** They use the same slots just when they agree on every block up to where the transfer stops. */
  lemma {:induction false} SameSlots(c: Chip, r1: nat -> bool, r2: nat -> bool, ofs: nat, n: nat)
    requires c.blockSize > 0 && n <= Room(c, r1, ofs) && n <= Room(c, r2, ofs)
    ensures Slots(c, r1, ofs, n) == Slots(c, r2, ofs, n)
      <==> Agree(c, r1, r2, ofs, Stop(c, ofs, Slots(c, r1, ofs, n)))
    decreases c.size - ofs
  {
    if n > 0 {
      var next := ofs + c.blockSize;
      FirstSlot(c, r1, ofs, n);
      FirstSlot(c, r2, ofs, n);
      StopStep(c, r1, ofs, n);
      hide Room, Stop;
      if r1(ofs) && r2(ofs) {
        SameSlots(c, r1, r2, next, n);
      } else if !r1(ofs) && !r2(ofs) {
        SameSlots(c, r1, r2, next, n - 1);
        var s1, s2 := Slots(c, r1, next, n - 1), Slots(c, r2, next, n - 1);
        assert ([ofs] + s1)[1..] == s1 && ([ofs] + s2)[1..] == s2;
      }
    }
  }

  // ---------- what a transfer does ----------

  /** Block k of the data is stored in slot k. */
  function Stored(c: Chip, content: Content, slots: seq<nat>, data: seq<byte>): Content
    requires |data| >= Span(|slots|, c.blockSize)
    decreases |slots|
  {
    if slots == [] then content
    else Stored(c, content[slots[0] := data[..c.blockSize]], slots[1..], data[c.blockSize..])
  }

  /** What the slots hold, one after the other. */
  function Fetched(c: Chip, content: Content, slots: seq<nat>): (data: seq<byte>)
    ensures |data| == Span(|slots|, c.blockSize)
  {
    if slots == [] then [] else BlockAt(c, content, slots[0]) + Fetched(c, content, slots[1..])
  }

  /** Every block holds blockSize bytes; one never written reads as ones. */
  function BlockAt(c: Chip, content: Content, ofs: nat): (b: seq<byte>)
    ensures |b| == c.blockSize
  {
    if ofs in content && |content[ofs]| == c.blockSize then content[ofs] else seq(c.blockSize, _ => 255)
  }

  /** The chip and the statics `next_ofs` and `skip_ofs`. */
  datatype State = State(content: Content, nextOfs: nat, skipOfs: nat)

  /** Where on the chip a write to a logical offset begins. */
  function Start(st: State, at: nat): nat {
    if at == st.nextOfs then at + st.skipOfs else at
  }

  ghost predicate Fits(c: Chip, st: State, at: nat, len: nat)
    requires c.blockSize > 0
  {
    len / c.blockSize <= Room(c, c.Unwritable, Start(st, at))
  }

  /** The state after a write: `skip_ofs` grows by what this transfer passed over. */
  ghost function Written(c: Chip, st: State, at: nat, data: seq<byte>): State
    requires c.blockSize > 0 && Fits(c, st, at, |data|)
  {
    SpanOfDiv(|data|, c.blockSize);
    var start, n := Start(st, at), |data| / c.blockSize;
    var slots := Slots(c, c.Unwritable, start, n);
    SlotsSpan(c, c.Unwritable, start, n);
    State(Stored(c, st.content, slots, data), at + |data|,
          start - at + (Stop(c, start, slots) - start - Span(n, c.blockSize)))
  }

  // ---------- laws ----------

  /** How many blocks a transfer of n blocks passes over. */
  function Passed(c: Chip, refused: nat -> bool, ofs: nat, n: nat): nat
    requires c.blockSize > 0 && n <= Room(c, refused, ofs)
    decreases c.size - ofs
  {
    if n == 0 then 0
    else if refused(ofs) then 1 + Passed(c, refused, ofs + c.blockSize, n)
    else Passed(c, refused, ofs + c.blockSize, n - 1)
  }

  lemma {:induction false} StopIs(c: Chip, refused: nat -> bool, ofs: nat, n: nat)
    requires c.blockSize > 0 && n <= Room(c, refused, ofs)
    ensures Stop(c, ofs, Slots(c, refused, ofs, n)) == ofs + Span(n, c.blockSize) + Span(Passed(c, refused, ofs, n), c.blockSize)
    decreases c.size - ofs
  {
    if n > 0 {
      StopStep(c, refused, ofs, n);
      StopIs(c, refused, ofs + c.blockSize, if refused(ofs) then n else n - 1);
    }
  }

  /** A write that does not go on where the last one ended begins at its own offset, whatever was passed over before,
      and one that does begins that much further on; the shift left behind is what this write passed over, on top of the
      old one only if it went on. */
  lemma WriteBegins(c: Chip, st: State, at: nat, data: seq<byte>)
    requires c.blockSize > 0
    ensures var n := |data| / c.blockSize;
      var start, shift := if at != st.nextOfs then at else at + st.skipOfs, if at != st.nextOfs then 0 else st.skipOfs;
      && (Fits(c, st, at, |data|) <==> n <= Room(c, c.Unwritable, start))
      && (Fits(c, st, at, |data|) ==>
            && |data| >= Span(n, c.blockSize)
            && Written(c, st, at, data) == State(Stored(c, st.content, Slots(c, c.Unwritable, start, n), data), at + |data|,
                                                 shift + Span(Passed(c, c.Unwritable, start, n), c.blockSize)))
  {
    SpanOfDiv(|data|, c.blockSize);
    if Fits(c, st, at, |data|) {
      StopIs(c, c.Unwritable, if at != st.nextOfs then at else at + st.skipOfs, |data| / c.blockSize);
    }
    hide Stored, Slots, Room, Stop, Passed, Span;
  }

  lemma {:induction false} StoredAppend(c: Chip, content: Content, s: seq<nat>, t: seq<nat>, a: seq<byte>, b: seq<byte>)
    requires |a| == Span(|s|, c.blockSize) && |b| >= Span(|t|, c.blockSize)
    ensures |a + b| >= Span(|s + t|, c.blockSize)
    ensures Stored(c, content, s + t, a + b) == Stored(c, Stored(c, content, s, a), t, b)
    decreases |s|
  {
    SpanAdd(|s|, |t|, c.blockSize);
    if s == [] {
      assert s + t == t && a + b == b;
    } else {
      assert (s + t)[1..] == s[1..] + t;
      assert (a + b)[..c.blockSize] == a[..c.blockSize];
      assert (a + b)[c.blockSize..] == a[c.blockSize..] + b;
      StoredAppend(c, content[s[0] := a[..c.blockSize]], s[1..], t, a[c.blockSize..], b);
    }
  }

  lemma StopAppend(c: Chip, ofs: nat, s: seq<nat>, t: seq<nat>)
    ensures Stop(c, ofs, s + t) == Stop(c, Stop(c, ofs, s), t)
  {
    if t == [] {
      assert s + t == s;
    }
  }

  lemma BlocksAdd(c: Chip, a: nat, b: nat)
    requires c.blockSize > 0 && a % c.blockSize == 0
    ensures (a + b) / c.blockSize == a / c.blockSize + b / c.blockSize
    ensures Span(a / c.blockSize, c.blockSize) == a
  {
    SpanOfDiv(a, c.blockSize);
    DivOfSpan(a / c.blockSize, b, c.blockSize);
  }

  /** Writing A and then B at the next logical offset leaves the chip and both statics as one write of A+B does. */
  lemma TwoWritesAsOne(c: Chip, st: State, at: nat, a: seq<byte>, b: seq<byte>)
    requires c.blockSize > 0 && |a| % c.blockSize == 0 && Fits(c, st, at, |a + b|)
    ensures Fits(c, st, at, |a|)
    ensures Fits(c, Written(c, st, at, a), at + |a|, |b|)
    ensures Written(c, Written(c, st, at, a), at + |a|, b) == Written(c, st, at, a + b)
  {
    hide Slots, Room, Stop, Stored, Span;
    BlocksAdd(c, |a|, |b|);
    SpanOfDiv(|b|, c.blockSize);
    var start, n, m := Start(st, at), |a| / c.blockSize, |b| / c.blockSize;
    var s := Slots(c, c.Unwritable, start, n);
    SlotsSplit(c, c.Unwritable, start, n, m);
    SlotsSpan(c, c.Unwritable, start, n);
    var end := Stop(c, start, s);
    var t := Slots(c, c.Unwritable, end, m);
    assert Start(Written(c, st, at, a), at + |a|) == end;
    StoredAppend(c, st.content, s, t, a, b);
    SpanAdd(n, m, c.blockSize);
    StopAppend(c, start, s, t);
  }

  function Concat(pieces: seq<seq<byte>>): seq<byte> {
    if pieces == [] then [] else pieces[0] + Concat(pieces[1..])
  }

  ghost predicate AllWhole(c: Chip, pieces: seq<seq<byte>>)
    requires c.blockSize > 0
  {
    forall p <- pieces :: |p| % c.blockSize == 0
  }

  /** The state after writing the pieces one by one, each where the last one ended. */
  ghost function WrittenAll(c: Chip, st: State, at: nat, pieces: seq<seq<byte>>): State
    requires c.blockSize > 0 && AllWhole(c, pieces) && Fits(c, st, at, |Concat(pieces)|)
    decreases |pieces|
  {
    if pieces == [] then st
    else
      TwoWritesAsOne(c, st, at, pieces[0], Concat(pieces[1..]));
      WrittenAll(c, Written(c, st, at, pieces[0]), at + |pieces[0]|, pieces[1..])
  }

  /** However the data is cut into whole blocks, the writes come to one write of it all. */
  lemma {:induction false} PiecesAsOne(c: Chip, st: State, at: nat, pieces: seq<seq<byte>>)
    requires c.blockSize > 0 && AllWhole(c, pieces) && pieces != [] && Fits(c, st, at, |Concat(pieces)|)
    ensures WrittenAll(c, st, at, pieces) == Written(c, st, at, Concat(pieces))
    decreases |pieces|
  {
    var rest := pieces[1..];
    assert Concat(pieces) == pieces[0] + Concat(rest);
    TwoWritesAsOne(c, st, at, pieces[0], Concat(rest));
    hide Written, Fits;
    if rest == [] {
      assert pieces[0] + Concat(rest) == pieces[0];
    } else {
      PiecesAsOne(c, Written(c, st, at, pieces[0]), at + |pieces[0]|, rest);
    }
  }

  /** Blocks outside the slots keep what they held. */
  lemma {:induction false} StoredElsewhere(c: Chip, content: Content, slots: seq<nat>, data: seq<byte>, o: nat)
    requires |data| >= Span(|slots|, c.blockSize) && o !in slots
    ensures BlockAt(c, Stored(c, content, slots, data), o) == BlockAt(c, content, o)
    decreases |slots|
  {
    if slots != [] {
      StoredElsewhere(c, content[slots[0] := data[..c.blockSize]], slots[1..], data[c.blockSize..], o);
    }
  }

  lemma {:induction false} FetchedStored(c: Chip, content: Content, slots: seq<nat>, data: seq<byte>)
    requires |data| == Span(|slots|, c.blockSize)
    requires forall i, j :: 0 <= i < j < |slots| ==> slots[i] != slots[j]
    ensures Fetched(c, Stored(c, content, slots, data), slots) == data
    decreases |slots|
  {
    if slots != [] {
      var next := content[slots[0] := data[..c.blockSize]];
      StoredElsewhere(c, next, slots[1..], data[c.blockSize..], slots[0]);
      FetchedStored(c, next, slots[1..], data[c.blockSize..]);
      assert data == data[..c.blockSize] + data[c.blockSize..];
    }
  }

  /** A fresh write is read back from its logical offset, unless reading passes over other blocks than writing did. */
  lemma ReadBack(c: Chip, st: State, at: nat, data: seq<byte>)
    requires c.blockSize > 0 && |data| % c.blockSize == 0 && Fits(c, st, at, |data|) && (at != st.nextOfs || st.skipOfs == 0)
    requires var n := |data| / c.blockSize;
      && n <= Room(c, c.Unreadable, at)
      && Agree(c, c.Unwritable, c.Unreadable, at, Stop(c, at, Slots(c, c.Unwritable, at, n)))
    ensures Fetched(c, Written(c, st, at, data).content, Slots(c, c.Unreadable, at, |data| / c.blockSize)) == data
  {
    var n := |data| / c.blockSize;
    SpanOfDiv(|data|, c.blockSize);
    SameSlots(c, c.Unwritable, c.Unreadable, at, n);
    SlotsAscend(c, c.Unwritable, at, n);
    FetchedStored(c, st.content, Slots(c, c.Unwritable, at, n), data);
  }

  /** Every slot lies a whole number of blocks behind the start; the k-th one at least k. */
  lemma {:induction false} LastSlot(c: Chip, refused: nat -> bool, ofs: nat, n: nat) returns (k: nat)
    requires c.blockSize > 0 && 0 < n <= Room(c, refused, ofs)
    ensures k >= n - 1 && Stop(c, ofs, Slots(c, refused, ofs, n)) == ofs + Span(k + 1, c.blockSize)
    ensures !refused(ofs + Span(k, c.blockSize))
    decreases c.size - ofs
  {
    StopStep(c, refused, ofs, n);
    if refused(ofs) {
      k := LastSlot(c, refused, ofs + c.blockSize, n);
      k := k + 1;
    } else if n > 1 {
      k := LastSlot(c, refused, ofs + c.blockSize, n - 1);
      k := k + 1;
    } else {
      k := 0;
    }
  }

  /** The first slot is no later than any usable block. */
  lemma {:induction false} FirstBefore(c: Chip, refused: nat -> bool, ofs: nat, k: nat, n: nat)
    requires c.blockSize > 0 && 0 < n <= Room(c, refused, ofs) && !refused(ofs + Span(k, c.blockSize))
    ensures Slots(c, refused, ofs, n)[0] <= ofs + Span(k, c.blockSize)
    decreases k
  {
    if k > 0 && refused(ofs) {
      FirstBefore(c, refused, ofs + c.blockSize, k - 1, n);
    }
  }

  /** The logical offset of the second write leads a reader, which knows nothing of `skip_ofs`, to the blocks
      that were written just when the first write passed over none. */
  lemma SecondWriteReadable(c: Chip, st: State, at: nat, a: seq<byte>, m: nat)
    requires c.blockSize > 0 && |a| % c.blockSize == 0 && |a| > 0 && m > 0
    requires (at != st.nextOfs || st.skipOfs == 0) && Fits(c, st, at, |a|)
    requires var after := Written(c, st, at, a);
      && m <= Room(c, c.Unwritable, Start(after, at + |a|)) && m <= Room(c, c.Unwritable, at + |a|)
    ensures var after := Written(c, st, at, a);
      Slots(c, c.Unwritable, at + |a|, m) == Slots(c, c.Unwritable, Start(after, at + |a|), m) <==> after.skipOfs == 0
  {
    hide Room, Slots, Stored;
    var n := |a| / c.blockSize;
    SpanOfDiv(|a|, c.blockSize);
    SlotsSpan(c, c.Unwritable, at, n);
    var after := Written(c, st, at, a);
    var k := LastSlot(c, c.Unwritable, at, n);
    if after.skipOfs > 0 {
      SpanMono(k + 1, n, c.blockSize);
      SpanAdd(n, k - n, c.blockSize);
      FirstBefore(c, c.Unwritable, at + |a|, k - n, m);
      SlotsAscend(c, c.Unwritable, Start(after, at + |a|), m);
    }
  }

  // ---------- the code ----------

  lemma StoredStep(c: Chip, content: Content, ofs: nat, n: nat, data: seq<byte>)
    requires c.blockSize > 0 && 0 < n <= Room(c, c.Unwritable, ofs) && |data| >= Span(n, c.blockSize)
    ensures ofs < c.size
    ensures var next, slots := ofs + c.blockSize, Slots(c, c.Unwritable, ofs, n);
      if c.Unwritable(ofs) then
        && slots == Slots(c, c.Unwritable, next, n) && Stop(c, ofs, slots) == Stop(c, next, slots)
      else
        var rest := Slots(c, c.Unwritable, next, n - 1);
        && Stop(c, ofs, slots) == Stop(c, next, rest)
        && Stored(c, content, slots, data) == Stored(c, content[ofs := data[..c.blockSize]], rest, data[c.blockSize..])
  {
    if !c.Unwritable(ofs) {
      assert Slots(c, c.Unwritable, ofs, n)[1..] == Slots(c, c.Unwritable, ofs + c.blockSize, n - 1);
    }
  }

  lemma StoredNone(c: Chip, content: Content, ofs: nat, data: seq<byte>)
    requires c.blockSize > 0
    ensures Stored(c, content, Slots(c, c.Unwritable, ofs, 0), data) == content
    ensures Stop(c, ofs, Slots(c, c.Unwritable, ofs, 0)) == ofs
  {
  }

  lemma FetchedNone(c: Chip, content: Content, ofs: nat)
    requires c.blockSize > 0
    ensures Fetched(c, content, Slots(c, c.Unreadable, ofs, 0)) == []
  {
  }

  lemma FetchedStep(c: Chip, content: Content, ofs: nat, n: nat)
    requires c.blockSize > 0 && 0 < n <= Room(c, c.Unreadable, ofs)
    ensures ofs < c.size && Span(n, c.blockSize) == Span(n - 1, c.blockSize) + c.blockSize
    ensures (if c.Unreadable(ofs) then n else n - 1) <= Room(c, c.Unreadable, ofs + c.blockSize)
    ensures var next, slots := ofs + c.blockSize, Slots(c, c.Unreadable, ofs, n);
      if c.Unreadable(ofs) then slots == Slots(c, c.Unreadable, next, n)
      else Fetched(c, content, slots) == BlockAt(c, content, ofs) + Fetched(c, content, Slots(c, c.Unreadable, next, n - 1))
  {
    if !c.Unreadable(ofs) {
      assert Slots(c, c.Unreadable, ofs, n)[1..] == Slots(c, c.Unreadable, ofs + c.blockSize, n - 1);
    }
  }

  class Device {
    const chip: Chip
    var content: Content
    var nextOfs: nat
    var skipOfs: nat

    ghost predicate Valid() { chip.blockSize > 0 }

    ghost function View(): State
      reads this
    {
      State(content, nextOfs, skipOfs)
    }

    constructor (chip: Chip)
      requires chip.blockSize > 0
      ensures Valid() && this.chip == chip && View() == State(map[], 0, 0)
    {
      this.chip, content, nextOfs, skipOfs := chip, map[], 0, 0;
    }

    method BlockWrite(at: nat, buf: seq<byte>) returns (retlen: nat)
      requires Valid() && Fits(chip, View(), at, |buf|)
      modifies this
      ensures View() == Written(chip, old(View()), at, buf)
      ensures retlen == Span(|buf| / chip.blockSize, chip.blockSize)
    {
      ghost var start := Start(View(), at);
      var blocks := |buf| / chip.blockSize;
      SpanOfDiv(|buf|, chip.blockSize);
      SlotsSpan(chip, chip.Unwritable, start, blocks);
      var ofs := at;
      if at == nextOfs {
        nextOfs := at + |buf|;
        ofs := at + skipOfs;
      } else {
        nextOfs := at + |buf|;
        skipOfs := 0;
      }
      retlen := WriteBlocks(ofs, buf, blocks);
    }

    /** The loop over the blocks. */
    method WriteBlocks(start: nat, buf: seq<byte>, n: nat) returns (retlen: nat)
      requires Valid() && Span(n, chip.blockSize) <= |buf| && n <= Room(chip, chip.Unwritable, start)
      modifies this`content, this`skipOfs
      ensures var slots := Slots(chip, chip.Unwritable, start, n);
        && content == Stored(chip, old(content), slots, buf)
        && skipOfs == old(skipOfs) + (Stop(chip, start, slots) - start - Span(n, chip.blockSize))
      ensures retlen == Span(n, chip.blockSize)
    {
      hide Slots, Stop, Stored;
      ghost var slots := Slots(chip, chip.Unwritable, start, n);
      var ofs, pos, blocks := start, 0, n;
      assert buf[pos..] == buf;
      retlen := 0;
      while blocks > 0
        invariant 0 <= blocks <= n && blocks <= Room(chip, chip.Unwritable, ofs)
        invariant retlen == pos <= |buf| && pos + Span(blocks, chip.blockSize) == Span(n, chip.blockSize)
        invariant ofs == start + (skipOfs - old(skipOfs)) + pos
        invariant Stored(chip, content, Slots(chip, chip.Unwritable, ofs, blocks), buf[pos..]) == Stored(chip, old(content), slots, buf)
        invariant Stop(chip, start, slots) == Stop(chip, ofs, Slots(chip, chip.Unwritable, ofs, blocks))
        decreases chip.size - ofs
      {
        StoredStep(chip, content, ofs, blocks, buf[pos..]);
        if chip.isBad(ofs) || chip.writeFails(ofs) {
          skipOfs := skipOfs + chip.blockSize;
        } else {
          assert buf[pos..][..chip.blockSize] == buf[pos..pos + chip.blockSize];
          assert buf[pos..][chip.blockSize..] == buf[pos + chip.blockSize..];
          content := content[ofs := buf[pos..pos + chip.blockSize]];
          pos := pos + chip.blockSize;
          blocks := blocks - 1;
          retlen := retlen + chip.blockSize;
        }
        ofs := ofs + chip.blockSize;
      }
      StoredNone(chip, content, ofs, buf[pos..]);
    }

    method BlockRead(from: nat, len: nat, buf: array<byte>) returns (retlen: nat)
      requires Valid() && len <= buf.Length && len / chip.blockSize <= Room(chip, chip.Unreadable, from)
      modifies buf
      ensures retlen == Span(len / chip.blockSize, chip.blockSize) <= len
      ensures buf[..retlen] == Fetched(chip, content, Slots(chip, chip.Unreadable, from, len / chip.blockSize))
      ensures forall k :: retlen <= k < buf.Length ==> buf[k] == old(buf[k])
    {
      SpanOfDiv(len, chip.blockSize);
      retlen := ReadBlocks(from, len / chip.blockSize, buf);
    }

    /** The loop over the blocks. */
    method ReadBlocks(from: nat, n: nat, buf: array<byte>) returns (retlen: nat)
      requires Valid() && Span(n, chip.blockSize) <= buf.Length && n <= Room(chip, chip.Unreadable, from)
      modifies buf
      ensures retlen == Span(n, chip.blockSize)
      ensures buf[..retlen] == Fetched(chip, content, Slots(chip, chip.Unreadable, from, n))
      ensures forall k :: retlen <= k < buf.Length ==> buf[k] == old(buf[k])
    {
      hide Slots, Fetched, BlockAt, Room;
      ghost var all := Fetched(chip, content, Slots(chip, chip.Unreadable, from, n));
      ghost var done: seq<byte> := [];
      var ofs, pos, blocks := from, 0, n;
      retlen := 0;
      while blocks > 0
        invariant 0 <= blocks <= n && blocks <= Room(chip, chip.Unreadable, ofs)
        invariant retlen == pos <= buf.Length && pos + Span(blocks, chip.blockSize) == Span(n, chip.blockSize)
        invariant |done| == pos && forall k :: 0 <= k < pos ==> buf[k] == done[k]
        invariant done + Fetched(chip, content, Slots(chip, chip.Unreadable, ofs, blocks)) == all
        invariant forall k :: pos <= k < buf.Length ==> buf[k] == old(buf[k])
        decreases chip.size - ofs
      {
        FetchedStep(chip, content, ofs, blocks);
        if !(chip.isBad(ofs) || chip.readFails(ofs)) {
          var block := BlockAt(chip, content, ofs);
          Transfer(buf, pos, block);
          Assoc(done, block, Fetched(chip, content, Slots(chip, chip.Unreadable, ofs + chip.blockSize, blocks - 1)));
          done := done + block;
          pos := pos + chip.blockSize;
          blocks := blocks - 1;
          retlen := retlen + chip.blockSize;
        }
        ofs := ofs + chip.blockSize;
      }
      FetchedNone(chip, content, ofs);
      assert buf[..pos] == done;
    }

    /** The driver's copy of one block into the caller's buffer. */
    static method Transfer(buf: array<byte>, pos: nat, block: seq<byte>)
      requires pos + |block| <= buf.Length
      modifies buf
      ensures forall k :: 0 <= k < pos ==> buf[k] == old(buf[k])
      ensures forall k :: 0 <= k < |block| ==> buf[pos + k] == block[k]
      ensures forall k :: pos + |block| <= k < buf.Length ==> buf[k] == old(buf[k])
    {
      forall i | 0 <= i < |block| {
        buf[pos + i] := block[i];
      }
    }
  }
}
