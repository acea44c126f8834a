/** `eeprom_read` and `eeprom_write` over plain I2C: transfers that stay inside a page or a 256-byte block. */
module Eeprom {
  import opened Arith
  import opened Bytes

  // ---------- addresses ----------

  /** Bitwise or of two k-bit numbers. */
  function Or(x: nat, y: nat, k: nat): nat {
    if k == 0 then 0 else 2 * Or(x / 2, y / 2, k - 1) + if x % 2 == 1 || y % 2 == 1 then 1 else 0
  }

  ghost predicate Disjoint(x: nat, y: nat, k: nat) {
    k == 0 || ((x % 2 == 0 || y % 2 == 0) && Disjoint(x / 2, y / 2, k - 1))
  }

  lemma {:induction false} OrIsSum(x: nat, y: nat, k: nat)
    requires Disjoint(x, y, k) && x <= Max(k) && y <= Max(k)
    ensures Or(x, y, k) == x + y
  {
    if k > 0 {
      OrIsSum(x / 2, y / 2, k - 1);
    }
  }

  /** The size of an address on the bus in bytes, the wrap of the write counter, and the longest transfer. */
  datatype Config = Config(addrLen: nat, page: nat, maxTransfer: nat) {
    ghost predicate Wf() {
      (addrLen == 1 || addrLen == 2) && page > 0 && 256 % page == 0 && maxTransfer > 0
    }

    /** Offsets below this reach the first block of addresses. */
    function Reach(): nat { if addrLen == 1 then 0x100 else 0x1_0000 }
  }

  /** A byte of memory on the bus: the chip address (one byte) and the address inside. */
  datatype Cell = Cell(chip: nat, addr: nat)

  /** The byte an offset stands for: the block number goes into the chip address. */
  function CellAt(c: Config, dev: nat, offset: nat): Cell {
    Cell(Or(offset / c.Reach() % 256, dev, 8), offset % c.Reach())
  }

  /** Where a transfer to `cell` puts or finds its byte i, when the counter wraps inside `wrap` bytes. */
  function Counter(cell: Cell, wrap: nat, i: nat): Cell
    requires wrap > 0
  {
    cell.(addr := cell.addr / wrap * wrap + (cell.addr % wrap + i) % wrap)
  }

  /** No two offsets of the range share a byte: the block numbers fit, and have no bit in common with the device address. */
  ghost predicate Distinct(c: Config, dev: nat, from: nat, upTo: nat) {
    && dev < 256 && upTo <= 256 * c.Reach()
    && forall o :: from <= o < upTo ==> Disjoint(o / c.Reach() % 256, dev, 8)
  }

  lemma Injective(c: Config, dev: nat, from: nat, upTo: nat, o: nat, p: nat)
    requires c.Wf() && Distinct(c, dev, from, upTo) && from <= o < upTo && from <= p < upTo
    requires CellAt(c, dev, o) == CellAt(c, dev, p)
    ensures o == p
  {
    assert Max(8) == 255;
    BlockFits(o, c.Reach());
    BlockFits(p, c.Reach());
    hide Or, Disjoint, Max;
    OrIsSum(o / c.Reach() % 256, dev, 8);
    OrIsSum(p / c.Reach() % 256, dev, 8);
    SameParts(o, p, c.Reach());
  }

  lemma BlockFits(o: nat, s: nat)
    requires s > 0 && o < 256 * s
    ensures o / s % 256 == o / s < 256
  {
    var q := o / s;
    if q >= 256 {
      MulMono(256, q, s);
    }
  }

  lemma SameParts(o: nat, p: nat, s: nat)
    requires s > 0 && o / s == p / s && o % s == p % s
    ensures o == p
  {
    assert o == o / s * s + o % s && p == p / s * s + p % s;
  }

  /** Inside a page the counter walks along with the offset. */
  lemma InsidePage(c: Config, dev: nat, offset: nat, wrap: nat, i: nat)
    requires c.Wf() && wrap > 0 && 256 % wrap == 0 && offset % wrap + i < wrap
    ensures Counter(CellAt(c, dev, offset), wrap, i) == CellAt(c, dev, offset + i)
  {
    hide Or;
    var n := Pages(c, wrap);
    var s := c.Reach();
    Nested(offset, s, wrap, n);
    InReach(offset % s, s, wrap, n, i);
    Walks(offset % s, wrap, i);
    assert offset == offset / s * s + offset % s;
    DivUnique(offset + i, offset / s, offset % s + i, s);
  }

  /** How many pages one block of addresses has. */
  lemma Pages(c: Config, wrap: nat) returns (n: nat)
    requires c.Wf() && wrap > 0 && 256 % wrap == 0
    ensures c.Reach() == n * wrap
  {
    var q := 256 / wrap;
    assert 256 == q * wrap;
    if c.addrLen == 1 {
      n := q;
    } else {
      n := 256 * q;
      assert 256 * q * wrap == 256 * (q * wrap);
    }
  }

  lemma InReach(r: nat, s: nat, wrap: nat, n: nat, i: nat)
    requires wrap > 0 && r < s == n * wrap && r % wrap + i < wrap
    ensures r + i < s
  {
    var q := r / wrap;
    assert r == q * wrap + r % wrap;
    if q < n {
      MulLess(q, n, wrap);
    } else {
      MulMono(n, q, wrap);
    }
  }

  lemma Walks(r: nat, wrap: nat, i: nat)
    requires wrap > 0 && r % wrap + i < wrap
    ensures r / wrap * wrap + (r % wrap + i) % wrap == r + i
  {
    DivUnique(r % wrap + i, 0, r % wrap + i, wrap);
    assert r == r / wrap * wrap + r % wrap;
  }

  /** The remainder by a multiple has the same remainder. */
  lemma Nested(x: nat, s: nat, wrap: nat, n: nat)
    requires wrap > 0 && s > 0 && s == n * wrap
    ensures x % s % wrap == x % wrap
  {
    var b, r := x / s, x % s;
    var q, m := r / wrap, r % wrap;
    assert b * s == b * n * wrap by {
      assert b * (n * wrap) == b * n * wrap;
    }
    assert (b * n + q) * wrap == b * n * wrap + q * wrap;
    DivUnique(x, b * n + q, m, wrap);
  }

  // ---------- memory ----------

  type Cells = map<Cell, byte>

  function Get(cells: Cells, k: Cell): byte { if k in cells then cells[k] else 255 }

  /** The bytes at offset, offset + 1, ... replaced by the data. */
  function Stored(c: Config, dev: nat, cells: Cells, offset: nat, data: seq<byte>): Cells
    decreases |data|
  {
    if data == [] then cells else Stored(c, dev, cells[CellAt(c, dev, offset) := data[0]], offset + 1, data[1..])
  }

  function Fetched(c: Config, dev: nat, cells: Cells, offset: nat, n: nat): (data: seq<byte>)
    ensures |data| == n
    decreases n
  {
    if n == 0 then [] else [Get(cells, CellAt(c, dev, offset))] + Fetched(c, dev, cells, offset + 1, n - 1)
  }

  /** What a device does with the bytes of one write transfer. */
  function Burst(cells: Cells, cell: Cell, wrap: nat, i: nat, data: seq<byte>): Cells
    requires wrap > 0
    decreases |data|
  {
    if data == [] then cells else Burst(cells[Counter(cell, wrap, i) := data[0]], cell, wrap, i + 1, data[1..])
  }

  /** What it answers to a read transfer. */
  function Answer(cells: Cells, cell: Cell, wrap: nat, i: nat, n: nat): (data: seq<byte>)
    requires wrap > 0
    ensures |data| == n
    decreases n
  {
    if n == 0 then [] else [Get(cells, Counter(cell, wrap, i))] + Answer(cells, cell, wrap, i + 1, n - 1)
  }

  /** A write that stays in its page stores its bytes where they belong. */
  lemma {:induction false} BurstIsStored(c: Config, dev: nat, cells: Cells, offset: nat, i: nat, data: seq<byte>)
    requires c.Wf() && offset % c.page + i + |data| <= c.page
    ensures Burst(cells, CellAt(c, dev, offset), c.page, i, data) == Stored(c, dev, cells, offset + i, data)
    decreases |data|
  {
    if data != [] {
      InsidePage(c, dev, offset, c.page, i);
      BurstIsStored(c, dev, cells[CellAt(c, dev, offset + i) := data[0]], offset, i + 1, data[1..]);
    }
  }

  /** A read that stays in its 256-byte block finds them there. */
  lemma {:induction false} AnswerIsFetched(c: Config, dev: nat, cells: Cells, offset: nat, i: nat, n: nat)
    requires c.Wf() && offset % 256 + i + n <= 256
    ensures Answer(cells, CellAt(c, dev, offset), 256, i, n) == Fetched(c, dev, cells, offset + i, n)
    decreases n
  {
    if n > 0 {
      InsidePage(c, dev, offset, 256, i);
      AnswerIsFetched(c, dev, cells, offset, i + 1, n - 1);
    }
  }

  lemma {:induction false} StoredAppend(c: Config, dev: nat, cells: Cells, offset: nat, a: seq<byte>, b: seq<byte>)
    ensures Stored(c, dev, cells, offset, a + b) == Stored(c, dev, Stored(c, dev, cells, offset, a), offset + |a|, b)
    decreases |a|
  {
    if a == [] {
      assert a + b == b;
    } else {
      assert (a + b)[1..] == a[1..] + b;
      StoredAppend(c, dev, cells[CellAt(c, dev, offset) := a[0]], offset + 1, a[1..], b);
    }
  }

  lemma {:induction false} FetchedAppend(c: Config, dev: nat, cells: Cells, offset: nat, n: nat, m: nat)
    ensures Fetched(c, dev, cells, offset, n + m) == Fetched(c, dev, cells, offset, n) + Fetched(c, dev, cells, offset + n, m)
    decreases n
  {
    if n > 0 {
      FetchedAppend(c, dev, cells, offset + 1, n - 1, m);
    }
  }

  /** A byte none of the offsets stands for is left alone. */
  lemma {:induction false} StoredElsewhere(c: Config, dev: nat, cells: Cells, offset: nat, data: seq<byte>, k: Cell)
    requires forall o :: offset <= o < offset + |data| ==> CellAt(c, dev, o) != k
    ensures Get(Stored(c, dev, cells, offset, data), k) == Get(cells, k)
    decreases |data|
  {
    if data != [] {
      StoredElsewhere(c, dev, cells[CellAt(c, dev, offset) := data[0]], offset + 1, data[1..], k);
    }
  }

  /** What was written is read back, and every other byte on the bus is as it was. */
  lemma {:induction false} ReadBack(c: Config, dev: nat, cells: Cells, offset: nat, data: seq<byte>)
    requires c.Wf() && Distinct(c, dev, offset, offset + |data|)
    ensures Fetched(c, dev, Stored(c, dev, cells, offset, data), offset, |data|) == data
    ensures forall k :: (forall o :: offset <= o < offset + |data| ==> CellAt(c, dev, o) != k) ==>
      Get(Stored(c, dev, cells, offset, data), k) == Get(cells, k)
    decreases |data|
  {
    forall k | forall o :: offset <= o < offset + |data| ==> CellAt(c, dev, o) != k
      ensures Get(Stored(c, dev, cells, offset, data), k) == Get(cells, k)
    {
      StoredElsewhere(c, dev, cells, offset, data, k);
    }
    if data != [] {
      var here := CellAt(c, dev, offset);
      forall o | offset + 1 <= o < offset + |data|
        ensures CellAt(c, dev, o) != here
      {
        if CellAt(c, dev, o) == here {
          Injective(c, dev, offset, offset + |data|, offset, o);
        }
      }
      var next := cells[here := data[0]];
      StoredElsewhere(c, dev, next, offset + 1, data[1..], here);
      ReadBack(c, dev, next, offset + 1, data[1..]);
    }
  }

  // ---------- the code ----------

  /** The pages a call must not cross, and the end of its range. */
  datatype Plan = Plan(wrap: nat, end: nat)

  datatype Transfer = Transfer(offset: nat, len: nat, ok: bool) {
    /** No longer than the bus allows and than its page lasts, and no shorter unless the range ends. */
    ghost predicate Fits(c: Config, w: Plan)
      requires w.wrap > 0
    {
      && 0 < len <= c.maxTransfer && offset % w.wrap + len <= w.wrap
      && (len == c.maxTransfer || offset % w.wrap + len == w.wrap || offset + len == w.end)
    }
  }

  /** The transfers of a call share out the range in order, and each fits its page. */
  ghost predicate Shared(c: Config, w: Plan, log: seq<Transfer>, from: nat, upTo: nat)
    requires w.wrap > 0
  {
    if log == [] then from == upTo
    else
      var t := log[|log| - 1];
      && t.Fits(c, w) && t.offset + t.len == upTo
      && Shared(c, w, log[..|log| - 1], from, t.offset)
  }

  lemma SharedAdd(c: Config, w: Plan, log: seq<Transfer>, from: nat, t: Transfer)
    requires w.wrap > 0 && Shared(c, w, log, from, t.offset) && t.Fits(c, w)
    ensures Shared(c, w, log + [t], from, t.offset + t.len)
  {
    assert (log + [t])[..|log|] == log;
  }

  ghost predicate AllOk(log: seq<Transfer>) {
    forall t <- log :: t.ok
  }

  /** The bytes of the data that a transfer carries. */
  function Carried(data: seq<byte>, from: nat, t: Transfer): seq<byte> {
    if from <= t.offset && t.offset - from + t.len <= |data| then data[t.offset - from..t.offset - from + t.len] else []
  }

  /** What a call leaves: the bytes of every transfer that went through, and nothing of those that did not. */
  function Replayed(c: Config, dev: nat, cells: Cells, from: nat, data: seq<byte>, log: seq<Transfer>): Cells {
    if log == [] then cells
    else
      var t, before := log[|log| - 1], Replayed(c, dev, cells, from, data, log[..|log| - 1]);
      if t.ok then Stored(c, dev, before, t.offset, Carried(data, from, t)) else before
  }

  lemma ReplayedNone(c: Config, dev: nat, cells: Cells, from: nat, data: seq<byte>)
    ensures Replayed(c, dev, cells, from, data, []) == cells
  {
  }

  lemma ReplayedAdd(c: Config, dev: nat, cells: Cells, from: nat, data: seq<byte>, log: seq<Transfer>, t: Transfer)
    requires from <= t.offset && t.offset - from + t.len <= |data|
    ensures var before, pos := Replayed(c, dev, cells, from, data, log), t.offset - from;
      Replayed(c, dev, cells, from, data, log + [t]) ==
        if t.ok then Stored(c, dev, before, t.offset, data[pos..pos + t.len]) else before
  {
    assert (log + [t])[..|log|] == log;
    hide Stored;
  }

  /** When every transfer went through, that is all the data. */
  lemma {:induction false} AllReplayed(c: Config, w: Plan, dev: nat, cells: Cells, from: nat, data: seq<byte>, log: seq<Transfer>, upTo: nat)
    requires w.wrap > 0 && Shared(c, w, log, from, upTo) && AllOk(log) && upTo <= from + |data|
    ensures from <= upTo && Replayed(c, dev, cells, from, data, log) == Stored(c, dev, cells, from, data[..upTo - from])
    decreases |log|
  {
    if log != [] {
      var init, t := log[..|log| - 1], log[|log| - 1];
      InitOk(log);
      AllReplayed(c, w, dev, cells, from, data, init, t.offset);
      var pos := t.offset - from;
      TwoPieces(data, pos, t.len);
      StoredAppend(c, dev, cells, from, data[..pos], data[pos..pos + t.len]);
      hide Stored;
    } else {
      assert data[..0] == [];
    }
  }

  /** What a read call leaves: the bytes of every transfer that went through stand in their place. */
  ghost predicate Arrived(c: Config, dev: nat, cells: Cells, from: nat, buffer: seq<byte>, log: seq<Transfer>) {
    log == [] || (
      var t := log[|log| - 1];
      && Arrived(c, dev, cells, from, buffer, log[..|log| - 1])
      && (t.ok ==> Carried(buffer, from, t) == Fetched(c, dev, cells, t.offset, t.len)))
  }

  lemma ArrivedNone(c: Config, dev: nat, cells: Cells, from: nat, buffer: seq<byte>)
    ensures Arrived(c, dev, cells, from, buffer, [])
  {
  }

  lemma {:induction false} ArrivedStays(c: Config, w: Plan, dev: nat, cells: Cells, from: nat, before: seq<byte>, buffer: seq<byte>, log: seq<Transfer>, upTo: nat)
    requires w.wrap > 0 && Shared(c, w, log, from, upTo) && from <= upTo <= from + |before| && |buffer| == |before|
    requires before[..upTo - from] == buffer[..upTo - from]
    ensures Arrived(c, dev, cells, from, before, log) ==> Arrived(c, dev, cells, from, buffer, log)
    decreases |log|
  {
    if log != [] {
      var init, t := log[..|log| - 1], log[|log| - 1];
      SharedRises(c, w, init, from, t.offset);
      var pos := t.offset - from;
      assert before[..pos] == before[..upTo - from][..pos] && buffer[..pos] == buffer[..upTo - from][..pos];
      ArrivedStays(c, w, dev, cells, from, before, buffer, init, t.offset);
      assert before[pos..pos + t.len] == before[..upTo - from][pos..] && buffer[pos..pos + t.len] == buffer[..upTo - from][pos..];
      hide Fetched;
    }
  }

  /** When every transfer went through, that is the whole range. */
  lemma {:induction false} AllArrived(c: Config, w: Plan, dev: nat, cells: Cells, from: nat, buffer: seq<byte>, log: seq<Transfer>, upTo: nat)
    requires w.wrap > 0 && Shared(c, w, log, from, upTo) && AllOk(log) && upTo <= from + |buffer|
    requires Arrived(c, dev, cells, from, buffer, log)
    ensures from <= upTo && buffer[..upTo - from] == Fetched(c, dev, cells, from, upTo - from)
    decreases |log|
  {
    hide Fetched, AllOk, Shared, Arrived;
    if log == [] {
      NothingArrived(c, w, dev, cells, from, upTo);
    } else {
      var init, t := log[..|log| - 1], log[|log| - 1];
      LastArrived(c, w, dev, cells, from, buffer, log, upTo);
      AllArrived(c, w, dev, cells, from, buffer, init, t.offset);
      PieceMore(c, dev, cells, from, buffer, t.offset - from, t.len);
    }
  }

  lemma NothingArrived(c: Config, w: Plan, dev: nat, cells: Cells, from: nat, upTo: nat)
    requires w.wrap > 0 && Shared(c, w, [], from, upTo)
    ensures from == upTo && Fetched(c, dev, cells, from, 0) == []
  {
  }

  lemma PieceMore(c: Config, dev: nat, cells: Cells, from: nat, buffer: seq<byte>, pos: nat, len: nat)
    requires pos + len <= |buffer| && buffer[..pos] == Fetched(c, dev, cells, from, pos)
    requires buffer[pos..pos + len] == Fetched(c, dev, cells, from + pos, len)
    ensures buffer[..pos + len] == Fetched(c, dev, cells, from, pos + len)
  {
    hide Fetched;
    FetchedAppend(c, dev, cells, from, pos, len);
    TwoPieces(buffer, pos, len);
  }

  lemma LastArrived(c: Config, w: Plan, dev: nat, cells: Cells, from: nat, buffer: seq<byte>, log: seq<Transfer>, upTo: nat)
    requires w.wrap > 0 && log != [] && Shared(c, w, log, from, upTo) && AllOk(log) && upTo <= from + |buffer|
    requires Arrived(c, dev, cells, from, buffer, log)
    ensures var init, t := log[..|log| - 1], log[|log| - 1];
      && AllOk(init) && Shared(c, w, init, from, t.offset) && from <= t.offset && t.offset + t.len == upTo
      && Arrived(c, dev, cells, from, buffer, init)
      && buffer[t.offset - from..t.offset - from + t.len] == Fetched(c, dev, cells, t.offset, t.len)
  {
    hide Fetched;
    InitOk(log);
    SharedRises(c, w, log[..|log| - 1], from, log[|log| - 1].offset);
  }

  lemma InitOk(log: seq<Transfer>)
    requires log != [] && AllOk(log)
    ensures AllOk(log[..|log| - 1]) && log[|log| - 1].ok
  {
    assert forall x :: x in log[..|log| - 1] ==> x in log;
  }

  lemma TwoPieces(s: seq<byte>, pos: nat, len: nat)
    requires pos + len <= |s|
    ensures s[..pos + len] == s[..pos] + s[pos..pos + len]
  {
  }

  lemma {:induction false} SharedRises(c: Config, w: Plan, log: seq<Transfer>, from: nat, upTo: nat)
    requires w.wrap > 0 && Shared(c, w, log, from, upTo)
    ensures from <= upTo
    decreases |log|
  {
    if log != [] {
      SharedRises(c, w, log[..|log| - 1], from, log[|log| - 1].offset);
    }
  }

  lemma ArrivedAdd(c: Config, w: Plan, dev: nat, cells: Cells, from: nat, before: seq<byte>, buffer: seq<byte>, log: seq<Transfer>, t: Transfer)
    requires w.wrap > 0 && Shared(c, w, log, from, t.offset) && Arrived(c, dev, cells, from, before, log)
    requires from <= t.offset && t.offset - from + t.len <= |before| == |buffer|
    requires before[..t.offset - from] == buffer[..t.offset - from]
    requires t.ok ==> buffer[..t.offset - from + t.len] == before[..t.offset - from] + Fetched(c, dev, cells, t.offset, t.len)
    ensures Arrived(c, dev, cells, from, buffer, log + [t])
  {
    ArrivedStays(c, w, dev, cells, from, before, buffer, log, t.offset);
    assert (log + [t])[..|log|] == log;
    var pos := t.offset - from;
    if t.ok {
      assert buffer[pos..pos + t.len] == buffer[..pos + t.len][pos..];
    }
    hide Fetched;
  }

  lemma AllOkAdd(log: seq<Transfer>, t: Transfer)
    ensures AllOk(log + [t]) <==> AllOk(log) && t.ok
  {
    assert t in log + [t];
    forall x | x in log
      ensures x in log + [t]
    {
    }
  }

  class Bus {
    const config: Config
    const fails: seq<Transfer> -> bool
    var cells: Cells
    var log: seq<Transfer>

    ghost predicate Valid() { config.Wf() }

    constructor (config: Config, fails: seq<Transfer> -> bool)
      requires config.Wf()
      ensures Valid() && this.config == config && log == []
    {
      this.config, this.fails, cells, log := config, fails, map[], [];
    }

    /** The device address byte and the address inside, as `i2c_read` and `i2c_write` get them. */
    function Addressed(chip: nat, offset: nat): Cell { Cell(chip, offset % config.Reach()) }

    /** `addr[0]`: the block number and the device address. */
    function ChipByte(dev: nat, offset: nat): nat {
      if config.addrLen == 1 then Or(offset / 0x100 % 256, dev, 8) else Or(offset / 0x1_0000 % 256, dev, 8)
    }

    /** One write on the bus; a device that does not answer stores nothing. */
    method I2cWrite(chip: nat, offset: nat, data: seq<byte>) returns (ok: bool)
      requires Valid()
      modifies this
      ensures cells == if ok then Burst(old(cells), Addressed(chip, offset), config.page, 0, data) else old(cells)
      ensures log == old(log) + [Transfer(offset, |data|, ok)]
    {
      ok := !fails(log);
      if ok {
        var cell := Addressed(chip, offset);
        for i := 0 to |data|
          invariant Burst(cells, cell, config.page, i, data[i..]) == Burst(old(cells), cell, config.page, 0, data)
          invariant log == old(log)
        {
          assert data[i..][1..] == data[i + 1..];
          cells := cells[Counter(cell, config.page, i) := data[i]];
        }
      }
      log := log + [Transfer(offset, |data|, ok)];
    }

    /** One read on the bus, into buffer[pos..]. */
    method I2cRead(chip: nat, offset: nat, buffer: array<byte>, pos: nat, len: nat) returns (ok: bool)
      requires pos + len <= buffer.Length
      modifies this`log, buffer
      ensures log == old(log) + [Transfer(offset, len, ok)]
      ensures forall k :: 0 <= k < pos || pos + len <= k < buffer.Length ==> buffer[k] == old(buffer[k])
      ensures ok ==> forall k :: 0 <= k < len ==> buffer[pos + k] == Answer(cells, Addressed(chip, offset), 256, 0, len)[k]
    {
      ok := !fails(log);
      if ok {
        var answer := Answer(cells, Addressed(chip, offset), 256, 0, len);
        forall k | 0 <= k < len {
          buffer[pos + k] := answer[k];
        }
      }
      log := log + [Transfer(offset, len, ok)];
    }

    /** How long a transfer at `offset` may be. */
    function Room(offset: nat, wrap: nat): nat
      requires wrap > 0
    {
      var blkOff := offset % 0x100;
      var maxlen := wrap - blkOff % wrap;
      if maxlen > config.maxTransfer then config.maxTransfer else maxlen
    }

    /** How long the next transfer at `offset` is. */
    function Chunk(offset: nat, end: nat, wrap: nat): (len: nat)
      requires wrap > 0 && offset < end
      ensures len <= end - offset
    {
      if end - offset > Room(offset, wrap) then Room(offset, wrap) else end - offset
    }

    lemma RoomIs(dev: nat, offset: nat, wrap: nat)
      requires Valid() && wrap > 0 && 256 % wrap == 0
      ensures 0 < Room(offset, wrap) <= config.maxTransfer && offset % wrap + Room(offset, wrap) <= wrap
      ensures Room(offset, wrap) == config.maxTransfer || offset % wrap + Room(offset, wrap) == wrap
      ensures Addressed(ChipByte(dev, offset), offset) == CellAt(config, dev, offset)
    {
      Nested(offset, 256, wrap, 256 / wrap);
    }

    /** `eeprom_write`; a range whose end wraps to or past the start is not touched. */
    method EepromWrite(dev: nat, start: nat, buffer: seq<byte>) returns (rcode: nat, ghost done: seq<Transfer>)
      requires Valid() && start < MODULUS && |buffer| < MODULUS
      modifies this
      ensures var data := if start + |buffer| < MODULUS then buffer else [];
        && Shared(config, Plan(config.page, start + |data|), done, start, start + |data|)
        && (rcode == 0 <==> AllOk(done))
        && (rcode == 0 ==> cells == Stored(config, dev, old(cells), start, data))
        && cells == Replayed(config, dev, old(cells), start, data, done)
      ensures log == old(log) + done
    {
      EndIs(start, |buffer|);
      var end := (start + |buffer|) % MODULUS;
      hide Shared, AllOk, Stored, Replayed;
      rcode, done := WriteLoop(dev, start, end, buffer);
      assert buffer[..|buffer|] == buffer;
      if rcode == 0 {
        var data := if start + |buffer| < MODULUS then buffer else [];
        AllReplayed(config, Plan(config.page, start + |data|), dev, old(cells), start, data, done, start + |data|);
        assert data[..|data|] == data;
      }
    }

    method WriteLoop(dev: nat, start: nat, end: nat, buffer: seq<byte>) returns (rcode: nat, ghost done: seq<Transfer>)
      requires Valid() && end - start <= |buffer|
      modifies this
      ensures var data := if start < end then buffer[..end - start] else [];
        && Shared(config, Plan(config.page, start + |data|), done, start, start + |data|)
        && (rcode == 0 <==> AllOk(done))
        && cells == Replayed(config, dev, old(cells), start, data, done)
      ensures log == old(log) + done
    {
      ghost var data := if start < end then buffer[..end - start] else [];
      ReplayedNone(config, dev, cells, start, data);
      hide Shared, AllOk, Stored, CellAt, Burst, Room, Replayed;
      var offset, pos := start, 0;
      rcode, done := 0, [];
      ghost var w := Plan(config.page, start + |data|);
      Nothing(config, w, dev, cells, start);
      while offset < end
        invariant 0 <= pos <= |data| && offset == start + pos && log == old(log) + done
        invariant Shared(config, w, done, start, offset) && (rcode == 0 <==> AllOk(done))
        invariant cells == Replayed(config, dev, old(cells), start, data, done)
      {
        SamePiece(buffer, end - start, pos, Chunk(offset, end, config.page));
        var len, ok := WriteNext(dev, offset, end, buffer, pos);
        if !ok {
          rcode := 1;
        }
        ReplayedAdd(config, dev, old(cells), start, data, done, Transfer(offset, len, ok));
        SharedAdd(config, w, done, start, Transfer(offset, len, ok));
        AllOkAdd(done, Transfer(offset, len, ok));
        done := done + [Transfer(offset, len, ok)];
        pos := pos + len;
        offset := offset + len;
      }
    }

    /** One turn of the loop: as much of what is left as the page and the transfer limit allow. */
    method WriteNext(dev: nat, offset: nat, end: nat, buffer: seq<byte>, pos: nat) returns (len: nat, ok: bool)
      requires Valid() && offset < end && pos + (end - offset) <= |buffer|
      modifies this
      ensures len == Chunk(offset, end, config.page) && Transfer(offset, len, ok).Fits(config, Plan(config.page, end))
      ensures cells == if ok then Stored(config, dev, old(cells), offset, buffer[pos..pos + len]) else old(cells)
      ensures log == old(log) + [Transfer(offset, len, ok)]
    {
      hide Stored, CellAt, Burst, Room;
      len := end - offset;
      RoomIs(dev, offset, config.page);
      var maxlen := Room(offset, config.page);
      if len > maxlen {
        len := maxlen;
      }
      ok := WriteChunk(dev, offset, buffer[pos..pos + len]);
    }

    /** A transfer that stays in its page. */
    method WriteChunk(dev: nat, offset: nat, data: seq<byte>) returns (ok: bool)
      requires Valid() && offset % config.page + |data| <= config.page
      modifies this
      ensures cells == if ok then Stored(config, dev, old(cells), offset, data) else old(cells)
      ensures log == old(log) + [Transfer(offset, |data|, ok)]
    {
      RoomIs(dev, offset, config.page);
      BurstIsStored(config, dev, cells, offset, 0, data);
      ok := I2cWrite(ChipByte(dev, offset), offset, data);
    }

    /** `eeprom_read` of cnt bytes into the buffer. */
    method EepromRead(dev: nat, start: nat, buffer: array<byte>, cnt: nat) returns (rcode: nat, ghost done: seq<Transfer>)
      requires Valid() && start < MODULUS && cnt < MODULUS && cnt <= buffer.Length
      modifies this`log, buffer
      ensures var n := if start + cnt < MODULUS then cnt else 0;
        && Shared(config, Plan(256, start + n), done, start, start + n)
        && (rcode == 0 <==> AllOk(done))
        && (rcode == 0 ==> buffer[..n] == Fetched(config, dev, cells, start, n))
        && Arrived(config, dev, cells, start, buffer[..], done)
        && forall k :: n <= k < buffer.Length ==> buffer[k] == old(buffer[k])
      ensures log == old(log) + done
    {
      EndIs(start, cnt);
      var end := (start + cnt) % MODULUS;
      hide Shared, AllOk, Fetched, Arrived;
      rcode, done := ReadLoop(dev, start, end, buffer);
      if rcode == 0 {
        var n := if start + cnt < MODULUS then cnt else 0;
        AllArrived(config, Plan(256, start + n), dev, cells, start, buffer[..], done, start + n);
      }
    }

    /** A write and a read of the same range that both report success leave the written bytes in the
        buffer and change no other byte on the bus; a range that ends at 2^32 or behind it is not touched. */
    method WriteAndRead(dev: nat, start: nat, data: seq<byte>, buffer: array<byte>) returns (rcode: nat)
      requires Valid() && start < MODULUS && |data| < MODULUS && |data| <= buffer.Length
      requires Distinct(config, dev, start, start + |data|)
      modifies this, buffer
      ensures rcode == 0 ==>
        && (buffer[..] == if start + |data| < MODULUS then data + old(buffer[|data|..]) else old(buffer[..]))
        && forall k :: (forall o :: start <= o < start + |data| ==> CellAt(config, dev, o) != k) ==> Get(cells, k) == Get(old(cells), k)
    {
      var w, wlog := EepromWrite(dev, start, data);
      var r, rlog := EepromRead(dev, start, buffer, |data|);
      ReadBack(config, dev, old(cells), start, data);
      return w + r;
    }

    method ReadLoop(dev: nat, start: nat, end: nat, buffer: array<byte>) returns (rcode: nat, ghost done: seq<Transfer>)
      requires Valid() && end - start <= buffer.Length
      modifies this`log, buffer
      ensures var n := if start < end then end - start else 0;
        && Shared(config, Plan(256, start + n), done, start, start + n)
        && (rcode == 0 <==> AllOk(done))
        && Arrived(config, dev, cells, start, buffer[..], done)
        && forall k :: n <= k < buffer.Length ==> buffer[k] == old(buffer[k])
      ensures log == old(log) + done
    {
      ghost var n := if start < end then end - start else 0;
      ReadingNone(dev, start, n, buffer[..]);
      hide Reading, Fetched;
      var offset, pos := start, 0;
      rcode, done := 0, [];
      while offset < end
        invariant 0 <= pos <= n && offset == start + pos && log == old(log) + done
        invariant Reading(dev, start, n, buffer[..], done, pos, rcode)
        invariant forall k :: n <= k < buffer.Length ==> buffer[k] == old(buffer[k])
      {
        ghost var was := buffer[..];
        var len, ok := ReadNext(dev, offset, end, buffer, pos);
        ReadingNext(dev, start, n, was, buffer[..], done, pos, rcode, len, ok);
        if !ok {
          rcode := 1;
        }
        done := done + [Transfer(offset, len, ok)];
        pos := pos + len;
        offset := offset + len;
      }
      ReadingIs(dev, start, n, buffer[..], done, pos, rcode);
    }

    /** The read loop behind its first `pos` bytes. */
    ghost predicate Reading(dev: nat, start: nat, n: nat, buffer: seq<byte>, done: seq<Transfer>, pos: nat, rcode: nat)
      reads this
    {
      && Shared(config, Plan(256, start + n), done, start, start + pos) && (rcode == 0 <==> AllOk(done))
      && Arrived(config, dev, cells, start, buffer, done)
    }

    lemma ReadingIs(dev: nat, start: nat, n: nat, buffer: seq<byte>, done: seq<Transfer>, pos: nat, rcode: nat)
      requires Reading(dev, start, n, buffer, done, pos, rcode)
      ensures Shared(config, Plan(256, start + n), done, start, start + pos) && (rcode == 0 <==> AllOk(done))
      ensures Arrived(config, dev, cells, start, buffer, done)
    {
    }

    lemma ReadingNone(dev: nat, start: nat, n: nat, buffer: seq<byte>)
      ensures Reading(dev, start, n, buffer, [], 0, 0)
    {
      ArrivedNone(config, dev, cells, start, buffer);
      Nothing(config, Plan(256, start + n), dev, cells, start);
    }

    lemma ReadingNext(dev: nat, start: nat, n: nat, before: seq<byte>, buffer: seq<byte>, done: seq<Transfer>, pos: nat, rcode: nat,
                      len: nat, ok: bool)
      requires Reading(dev, start, n, before, done, pos, rcode) && pos + len <= |before| == |buffer|
      requires Transfer(start + pos, len, ok).Fits(config, Plan(256, start + n))
      requires before[..pos] == buffer[..pos]
      requires ok ==> buffer[..pos + len] == before[..pos] + Fetched(config, dev, cells, start + pos, len)
      ensures Reading(dev, start, n, buffer, done + [Transfer(start + pos, len, ok)], pos + len, if ok then rcode else 1)
    {
      var w, t := Plan(256, start + n), Transfer(start + pos, len, ok);
      hide Fetched, Shared, AllOk, Arrived, Transfer.Fits;
      ArrivedAdd(config, w, dev, cells, start, before, buffer, done, t);
      SharedAdd(config, w, done, start, t);
      AllOkAdd(done, t);
    }

    /** One turn of the loop. */
    method ReadNext(dev: nat, offset: nat, end: nat, buffer: array<byte>, pos: nat) returns (len: nat, ok: bool)
      requires Valid() && offset < end && pos + (end - offset) <= buffer.Length
      modifies this`log, buffer
      ensures len == Chunk(offset, end, 256) && Transfer(offset, len, ok).Fits(config, Plan(256, end))
      ensures log == old(log) + [Transfer(offset, len, ok)]
      ensures buffer[..][..pos] == old(buffer[..])[..pos]
      ensures forall k :: pos + len <= k < buffer.Length ==> buffer[k] == old(buffer[k])
      ensures ok ==> buffer[..][..pos + len] == old(buffer[..])[..pos] + Fetched(config, dev, cells, offset, len)
    {
      hide Fetched, CellAt, Room;
      len := end - offset;
      RoomIs(dev, offset, 256);
      var maxlen := Room(offset, 256);
      if len > maxlen {
        len := maxlen;
      }
      ghost var was := buffer[..];
      ok := ReadChunk(dev, offset, buffer, pos, len);
      assert buffer[..][..pos] == buffer[..pos] && was[..pos] == old(buffer[..pos]);
      assert buffer[..][..pos + len] == buffer[..pos + len];
    }

    method ReadChunk(dev: nat, offset: nat, buffer: array<byte>, pos: nat, len: nat) returns (ok: bool)
      requires Valid() && pos + len <= buffer.Length && offset % 256 + len <= 256
      modifies this`log, buffer
      ensures log == old(log) + [Transfer(offset, len, ok)]
      ensures buffer[..pos] == old(buffer[..pos])
      ensures forall k :: pos + len <= k < buffer.Length ==> buffer[k] == old(buffer[k])
      ensures ok ==> buffer[..pos + len] == old(buffer[..pos]) + Fetched(config, dev, cells, offset, len)
    {
      RoomIs(dev, offset, 256);
      AnswerIsFetched(config, dev, cells, offset, 0, len);
      ok := I2cRead(ChipByte(dev, offset), offset, buffer, pos, len);
    }
  }

  lemma EndIs(start: nat, cnt: nat)
    requires start < MODULUS && cnt < MODULUS
    ensures var end := (start + cnt) % MODULUS;
      if start + cnt < MODULUS then end == start + cnt else end == start + cnt - MODULUS < start
  {
  }

  lemma SamePiece(s: seq<byte>, n: nat, pos: nat, len: nat)
    requires pos + len <= n <= |s|
    ensures s[..n][pos..pos + len] == s[pos..pos + len]
  {
  }

  lemma Nothing(c: Config, w: Plan, dev: nat, cells: Cells, offset: nat)
    requires w.wrap > 0
    ensures Stored(c, dev, cells, offset, []) == cells && Fetched(c, dev, cells, offset, 0) == []
    ensures Shared(c, w, [], offset, offset) && AllOk([])
  {
  }
}
