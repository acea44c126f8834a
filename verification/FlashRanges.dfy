/** Sector ranges for `erase` and `protect`: `addr_spec`, `flash_sect_roundb`, `flash_fill_sect_ranges`, `flash_sect_protect`. */
module FlashRanges {
  import opened Bytes

  /** A bank that is not known (FLASH_UNKNOWN) has no sectors. */
  datatype Bank = Bank(known: bool, start: seq<nat>, size: nat) {
    /** Sectors in order, the last one ending with the bank. */
    ghost predicate Wf() {
      if !known then start == []
      else
        && start != [] && start[|start| - 1] < start[0] + size <= MODULUS
        && forall i, j :: 0 <= i < j < |start| ==> start[i] < start[j]
    }

    function BankEnd(): nat
      requires Wf() && known
    {
      start[0] + size - 1
    }

    /** The last address of sector i. */
    function End(i: nat): (e: nat)
      requires Wf() && known && i < |start|
      ensures start[i] <= e <= BankEnd()
      ensures forall j :: i < j < |start| ==> e < start[j]
    {
      if i == |start| - 1 then start[0] + size - 1 else start[i + 1] - 1
    }
  }

  ghost predicate AllWf(banks: seq<Bank>) {
    forall b :: 0 <= b < |banks| ==> banks[b].Wf()
  }

  ghost predicate Is(banks: seq<Bank>, b: nat, i: nat) {
    b < |banks| && banks[b].known && i < |banks[b].start|
  }

  function Lo(banks: seq<Bank>, b: nat, i: nat): nat
    requires Is(banks, b, i)
  {
    banks[b].start[i]
  }

  function Hi(banks: seq<Bank>, b: nat, i: nat): nat
    requires AllWf(banks) && Is(banks, b, i)
  {
    banks[b].End(i)
  }

  /** The address behind the first b banks, when those lie one behind the other from `origin`. */
  function Base(banks: seq<Bank>, origin: nat, b: nat): nat
    requires AllWf(banks) && b <= |banks|
  {
    if b == 0 then origin
    else if banks[b - 1].known then banks[b - 1].BankEnd() + 1
    else Base(banks, origin, b - 1)
  }

  /** The known banks follow each other without a gap. */
  ghost predicate Contiguous(banks: seq<Bank>, origin: nat) {
    && AllWf(banks)
    && forall b :: 0 <= b < |banks| && banks[b].known ==> banks[b].start[0] == Base(banks, origin, b)
  }

  lemma {:induction false} BaseGrows(banks: seq<Bank>, origin: nat, b: nat, c: nat)
    requires Contiguous(banks, origin) && b <= c <= |banks|
    ensures Base(banks, origin, b) <= Base(banks, origin, c)
    decreases c
  {
    if b < c {
      BaseGrows(banks, origin, b, c - 1);
    }
  }

  lemma {:induction false} BaseBound(banks: seq<Bank>, origin: nat, b: nat)
    requires Contiguous(banks, origin) && b <= |banks|
    ensures Base(banks, origin, b) <= MODULUS || Base(banks, origin, b) == origin
  {
    if b > 0 {
      BaseBound(banks, origin, b - 1);
    }
  }

  /** Every sector of an earlier bank lies below the base of bank b, every other sector at or above it. */
  lemma Sides(banks: seq<Bank>, origin: nat, b: nat, c: nat, i: nat)
    requires Contiguous(banks, origin) && b <= |banks| && Is(banks, c, i)
    ensures origin <= Lo(banks, c, i) <= Hi(banks, c, i) < Base(banks, origin, |banks|)
    ensures if c < b then Hi(banks, c, i) < Base(banks, origin, b) else Lo(banks, c, i) >= Base(banks, origin, b)
  {
    BaseGrows(banks, origin, 0, c);
    BaseGrows(banks, origin, c + 1, |banks|);
    if c < b {
      BaseGrows(banks, origin, c + 1, b);
    } else {
      BaseGrows(banks, origin, b, c);
    }
  }

  ghost predicate StartsSector(banks: seq<Bank>, a: nat) {
    exists b: nat, i: nat :: Is(banks, b, i) && Lo(banks, b, i) == a
  }

  ghost predicate EndsSector(banks: seq<Bank>, a: nat)
    requires AllWf(banks)
  {
    exists b: nat, i: nat :: Is(banks, b, i) && Hi(banks, b, i) == a
  }

  /** What a range must be for the command to be carried out. */
  ghost predicate Acceptable(banks: seq<Bank>, origin: nat, first: nat, last: nat)
    requires AllWf(banks)
  {
    && first <= last && StartsSector(banks, first)
    && (EndsSector(banks, last) || last >= Base(banks, origin, |banks|))
  }

  /** Sector i of bank b lies in the range. */
  ghost predicate Within(banks: seq<Bank>, first: nat, last: nat, b: nat, i: nat)
    requires AllWf(banks)
  {
    Is(banks, b, i) && first <= Lo(banks, b, i) && Hi(banks, b, i) <= last
  }

  /** The ranges given back choose sector i of bank b. */
  predicate Chosen(sFirst: seq<int>, sLast: seq<int>, b: nat, i: nat) {
    b < |sFirst| == |sLast| && 0 <= sFirst[b] <= i <= sLast[b]
  }

  /** How many sectors the first n ranges choose. */
  function Total(sFirst: seq<int>, sLast: seq<int>, n: nat): int
    requires n <= |sFirst| == |sLast|
  {
    if n == 0 then 0
    else Total(sFirst, sLast, n - 1) + if sFirst[n - 1] >= 0 then sLast[n - 1] - sFirst[n - 1] + 1 else 0
  }

  lemma {:induction false} TotalSame(s: seq<int>, t: seq<int>, s': seq<int>, t': seq<int>, n: nat)
    requires n <= |s| == |t| && n <= |s'| == |t'|
    requires forall b :: 0 <= b < n ==> s[b] == s'[b] && t[b] == t'[b]
    ensures Total(s, t, n) == Total(s', t', n)
    decreases n
  {
    if n > 0 {
      TotalSame(s, t, s', t', n - 1);
    }
  }

  /** The sectors in the range cover each of its flash addresses exactly once, and nothing else. */
  lemma Tiles(banks: seq<Bank>, origin: nat, first: nat, last: nat, a: nat)
    requires Contiguous(banks, origin) && Acceptable(banks, origin, first, last)
    ensures (first <= a <= last && a < Base(banks, origin, |banks|)) <==>
      (exists b: nat, i: nat :: Within(banks, first, last, b, i) && Lo(banks, b, i) <= a <= Hi(banks, b, i))
    ensures forall b: nat, i: nat, c: nat, j: nat ::
      (Is(banks, b, i) && Is(banks, c, j) && Lo(banks, b, i) <= a <= Hi(banks, b, i) && Lo(banks, c, j) <= a <= Hi(banks, c, j))
      ==> b == c && i == j
  {
    forall b: nat, i: nat, c: nat, j: nat | Is(banks, b, i) && Is(banks, c, j)
      && Lo(banks, b, i) <= a <= Hi(banks, b, i) && Lo(banks, c, j) <= a <= Hi(banks, c, j)
      ensures b == c && i == j
    {
      Apart(banks, origin, b, i, c, j);
    }
    if first <= a <= last && a < Base(banks, origin, |banks|) {
      var b0: nat, i0: nat :| Is(banks, b0, i0) && Lo(banks, b0, i0) == first;
      Sides(banks, origin, 0, b0, i0);
      var b, i := Holder(banks, origin, a, |banks|);
      Aligned(banks, origin, first, last, b, i, a);
      assert Within(banks, first, last, b, i);
    }
    if exists b: nat, i: nat :: Within(banks, first, last, b, i) && Lo(banks, b, i) <= a <= Hi(banks, b, i) {
      var b: nat, i: nat :| Within(banks, first, last, b, i) && Lo(banks, b, i) <= a <= Hi(banks, b, i);
      Sides(banks, origin, 0, b, i);
    }
  }

  /** Different sectors do not overlap. */
  lemma Apart(banks: seq<Bank>, origin: nat, b: nat, i: nat, c: nat, j: nat)
    requires Contiguous(banks, origin) && Is(banks, b, i) && Is(banks, c, j)
    ensures (b == c && i == j) || Hi(banks, b, i) < Lo(banks, c, j) || Hi(banks, c, j) < Lo(banks, b, i)
  {
    if b < c {
      Sides(banks, origin, c, b, i);
      Sides(banks, origin, c, c, j);
    } else if c < b {
      Sides(banks, origin, b, b, i);
      Sides(banks, origin, b, c, j);
    }
  }

  /** The sector an address lies in. */
  lemma {:induction false} Holder(banks: seq<Bank>, origin: nat, a: nat, n: nat) returns (b: nat, i: nat)
    requires Contiguous(banks, origin) && n <= |banks| && origin <= a < Base(banks, origin, n)
    ensures Is(banks, b, i) && Lo(banks, b, i) <= a <= Hi(banks, b, i)
    decreases n
  {
    if a < Base(banks, origin, n - 1) {
      b, i := Holder(banks, origin, a, n - 1);
    } else {
      b := n - 1;
      i := SectorIn(banks[b], a, |banks[b].start| - 1);
    }
  }

  lemma {:induction false} SectorIn(bank: Bank, a: nat, k: nat) returns (i: nat)
    requires bank.Wf() && bank.known && k < |bank.start| && bank.start[0] <= a <= bank.End(k)
    ensures i < |bank.start| && bank.start[i] <= a <= bank.End(i)
    decreases k
  {
    if bank.start[k] <= a {
      i := k;
    } else {
      i := SectorIn(bank, a, k - 1);
    }
  }

  /** The sectors of a bank share out its `size` bytes, and the next known bank begins behind them. */
  lemma SectorsFill(banks: seq<Bank>, origin: nat, b: nat, a: nat)
    requires Contiguous(banks, origin) && b < |banks| && banks[b].known
    ensures (exists i: nat :: Is(banks, b, i) && Lo(banks, b, i) <= a <= Hi(banks, b, i))
      <==> banks[b].start[0] <= a < banks[b].start[0] + banks[b].size
    ensures b + 1 < |banks| && banks[b + 1].known ==> banks[b + 1].start[0] == banks[b].start[0] + banks[b].size
  {
    var bank := banks[b];
    if bank.start[0] <= a < bank.start[0] + bank.size {
      var i := SectorIn(bank, a, |bank.start| - 1);
      assert Is(banks, b, i);
    }
  }

  /** A sector that holds an address of the range lies in the range. */
  lemma Aligned(banks: seq<Bank>, origin: nat, first: nat, last: nat, b: nat, i: nat, a: nat)
    requires Contiguous(banks, origin) && Acceptable(banks, origin, first, last)
    requires Is(banks, b, i) && Lo(banks, b, i) <= a <= Hi(banks, b, i) && first <= a <= last
    ensures Within(banks, first, last, b, i)
  {
    var b0: nat, i0: nat :| Is(banks, b0, i0) && Lo(banks, b0, i0) == first;
    Apart(banks, origin, b0, i0, b, i);
    Sides(banks, origin, 0, b, i);
    if last < Base(banks, origin, |banks|) {
      var b1: nat, i1: nat :| Is(banks, b1, i1) && Hi(banks, b1, i1) == last;
      Apart(banks, origin, b1, i1, b, i);
    }
  }

  /** Rounding the end of "first +length" up to its sector gives a range that is carried out, and it takes in
      just the sectors that hold an address from first to first + length - 1. */
  lemma RoundingCovers(banks: seq<Bank>, origin: nat, first: nat, end: nat, b: nat, i: nat)
    requires Contiguous(banks, origin) && StartsSector(banks, first) && first <= end
    requires Is(banks, b, i) && Lo(banks, b, i) <= end <= Hi(banks, b, i)
    ensures Acceptable(banks, origin, first, Hi(banks, b, i))
    ensures forall c: nat, j: nat :: Is(banks, c, j) ==>
      (Within(banks, first, Hi(banks, b, i), c, j) <==> Lo(banks, c, j) <= end && first <= Hi(banks, c, j))
  {
    var b0: nat, i0: nat :| Is(banks, b0, i0) && Lo(banks, b0, i0) == first;
    forall c: nat, j: nat | Is(banks, c, j)
      ensures Within(banks, first, Hi(banks, b, i), c, j) <==> Lo(banks, c, j) <= end && first <= Hi(banks, c, j)
    {
      Apart(banks, origin, b, i, c, j);
      Apart(banks, origin, b0, i0, c, j);
      Sides(banks, origin, 0, c, j);
    }
  }

  /** An end behind all flash stands for the end of the flash: from a sector's start everything above is taken. */
  lemma OpenEnded(banks: seq<Bank>, origin: nat, first: nat, last: nat)
    requires Contiguous(banks, origin) && StartsSector(banks, first) && last >= Base(banks, origin, |banks|)
    ensures Acceptable(banks, origin, first, last)
    ensures forall b: nat, i: nat :: Is(banks, b, i) ==> (Within(banks, first, last, b, i) <==> Lo(banks, b, i) >= first)
  {
    var b0: nat, i0: nat :| Is(banks, b0, i0) && Lo(banks, b0, i0) == first;
    Sides(banks, origin, 0, b0, i0);
    forall b: nat, i: nat | Is(banks, b, i)
      ensures Within(banks, first, last, b, i) <==> Lo(banks, b, i) >= first
    {
      Sides(banks, origin, 0, b, i);
    }
  }

  // ---------- the search, bank by bank ----------

  /** Where `flash_fill_sect_ranges` stands before it looks at bank b. */
  ghost predicate Search(banks: seq<Bank>, origin: nat, from: nat, last: nat, sFirst: seq<int>, sLast: seq<int>, b: nat, addr: nat, count: int)
    requires Contiguous(banks, origin)
  {
    && |sFirst| == |sLast| == |banks| && b <= |banks|
    && (forall c :: b <= c < |banks| ==> sFirst[c] == -1 && sLast[c] == -1)
    && count == Total(sFirst, sLast, b) && Ordered(sFirst, sLast, b)
    && if count == 0 then
         && addr == from
         && (forall c :: 0 <= c < b ==> sFirst[c] == -1)
         && (forall c: nat, i: nat :: Is(banks, c, i) && c < b ==> Lo(banks, c, i) != from)
       else
         && count > 0 && from <= last && StartsSector(banks, from) && from < Base(banks, origin, b)
         && (EndsSector(banks, last) || last >= Base(banks, origin, b))
         && (if addr <= last then addr == Base(banks, origin, b) % MODULUS else last < Base(banks, origin, b))
         && (forall c: nat, i: nat :: c < b ==> (Chosen(sFirst, sLast, c, i) <==> Within(banks, from, last, c, i)))
  }

  /** No range ends in front of its beginning. */
  ghost predicate Ordered(sFirst: seq<int>, sLast: seq<int>, n: nat)
    requires n <= |sFirst| == |sLast|
  {
    forall c :: 0 <= c < n && sFirst[c] >= 0 ==> sFirst[c] <= sLast[c]
  }

  /** The sector of bank b that starts at `first`, and the one that ends at `last`, each -1 if there is none. */
  ghost predicate Scanned(banks: seq<Bank>, b: nat, first: nat, last: nat, f: int, l: int)
    requires AllWf(banks) && b < |banks| && banks[b].known
  {
    && -1 <= f < |banks[b].start| && -1 <= l < |banks[b].start|
    && (if f >= 0 then Lo(banks, b, f) == first else forall i: nat :: i < |banks[b].start| ==> Lo(banks, b, i) != first)
    && (if l >= 0 then Hi(banks, b, l) == last else forall i: nat :: i < |banks[b].start| ==> Hi(banks, b, i) != last)
  }

  lemma SearchStart(banks: seq<Bank>, origin: nat, from: nat, last: nat, sFirst: seq<int>, sLast: seq<int>)
    requires Contiguous(banks, origin) && |sFirst| == |sLast| == |banks|
    requires forall c :: 0 <= c < |banks| ==> sFirst[c] == -1 && sLast[c] == -1
    ensures Search(banks, origin, from, last, sFirst, sLast, 0, from, 0)
  {
  }

  lemma SearchUnknown(banks: seq<Bank>, origin: nat, from: nat, last: nat, sFirst: seq<int>, sLast: seq<int>, b: nat, addr: nat, count: int)
    requires Contiguous(banks, origin) && b < |banks| && !banks[b].known
    requires Search(banks, origin, from, last, sFirst, sLast, b, addr, count)
    ensures Search(banks, origin, from, last, sFirst, sLast, b + 1, addr, count)
  {
    hide StartsSector, EndsSector;
  }

  /** A running search finds the first sector of the next bank. */
  lemma SearchRunning(banks: seq<Bank>, origin: nat, from: nat, last: nat, sFirst: seq<int>, sLast: seq<int>, b: nat, addr: nat, count: int)
    requires Contiguous(banks, origin) && b < |banks| && banks[b].known
    requires Search(banks, origin, from, last, sFirst, sLast, b, addr, count) && count > 0 && addr <= last
    ensures addr == Lo(banks, b, 0) == Base(banks, origin, b)
  {
    hide StartsSector, EndsSector, Chosen, Within, Total;
  }

  /** No sector starts at `from` when a bank that reaches that far has none, nor any before it. */
  lemma NotAStart(banks: seq<Bank>, origin: nat, from: nat, b: nat)
    requires Contiguous(banks, origin) && b < |banks| && banks[b].known && from <= banks[b].BankEnd()
    requires forall c: nat, i: nat :: Is(banks, c, i) && c <= b ==> Lo(banks, c, i) != from
    ensures !StartsSector(banks, from)
  {
    if StartsSector(banks, from) {
      var c: nat, i: nat :| Is(banks, c, i) && Lo(banks, c, i) == from;
      Sides(banks, origin, b + 1, c, i);
    }
  }

  /** Nor does one end at `last` when the bank it lies in has none that does. */
  lemma NotAnEnd(banks: seq<Bank>, origin: nat, last: nat, b: nat)
    requires Contiguous(banks, origin) && b < |banks| && banks[b].known && banks[b].start[0] <= last <= banks[b].BankEnd()
    requires forall i: nat :: i < |banks[b].start| ==> Hi(banks, b, i) != last
    ensures !EndsSector(banks, last) && last < Base(banks, origin, |banks|)
  {
    BaseGrows(banks, origin, b + 1, |banks|);
    assert last < Base(banks, origin, b + 1) && Base(banks, origin, b) <= last;
    hide Base;
    if EndsSector(banks, last) {
      var c: nat, i: nat :| Is(banks, c, i) && Hi(banks, c, i) == last;
      if c != b {
        Sides(banks, origin, b, c, i);
        Sides(banks, origin, b + 1, c, i);
      }
    }
  }

  lemma Unset(banks: seq<Bank>, origin: nat, from: nat, last: nat, sFirst: seq<int>, sLast: seq<int>, b: nat, addr: nat, count: int)
    requires Contiguous(banks, origin) && b < |banks| && Search(banks, origin, from, last, sFirst, sLast, b, addr, count)
    ensures |sFirst| == |sLast| == |banks| && sFirst[b] == sLast[b] == -1
  {
  }

  lemma ContiguousWf(banks: seq<Bank>, origin: nat)
    requires Contiguous(banks, origin)
    ensures AllWf(banks)
  {
  }

  /** The bank that holds the start, and the end too, has no sector that ends there. */
  lemma EndMissing(banks: seq<Bank>, origin: nat, from: nat, addr: nat, last: nat, b: nat, f: nat)
    requires Contiguous(banks, origin) && Is(banks, b, f) && Lo(banks, b, f) == addr <= last <= banks[b].BankEnd()
    requires forall i: nat :: i < |banks[b].start| ==> Hi(banks, b, i) != last
    ensures !Acceptable(banks, origin, from, last)
  {
    NotAnEnd(banks, origin, last, b);
    hide Base, StartsSector, EndsSector;
  }

  /** The search has come to a bank that reaches as far as the start, and found no sector that starts there. */
  lemma StartMissing(banks: seq<Bank>, origin: nat, from: nat, last: nat, sFirst: seq<int>, sLast: seq<int>, b: nat)
    requires Contiguous(banks, origin) && b < |banks| && banks[b].known && from <= banks[b].BankEnd()
    requires Search(banks, origin, from, last, sFirst, sLast, b + 1, from, 0)
    ensures !Acceptable(banks, origin, from, last)
  {
    hide Base, StartsSector, EndsSector, Within, Chosen, Total;
    NotAStart(banks, origin, from, b);
  }

  /** A bank without a first sector, and no error. */
  lemma SearchMiss(banks: seq<Bank>, origin: nat, from: nat, last: nat, sFirst: seq<int>, sLast: seq<int>, b: nat, addr: nat, count: int)
    requires Contiguous(banks, origin) && b < |banks| && banks[b].known
    requires Search(banks, origin, from, last, sFirst, sLast, b, addr, count) && addr <= last
    requires forall i: nat :: i < |banks[b].start| ==> Lo(banks, b, i) != addr
    ensures count == 0 && addr == from
    ensures Search(banks, origin, from, last, sFirst, sLast, b + 1, addr, count)
  {
    if count > 0 {
      SearchRunning(banks, origin, from, last, sFirst, sLast, b, addr, count);
    }
  }

  /** Sectors f to l of a bank are those in the range. */
  lemma Picks(bank: Bank, f: nat, l: nat, i: nat, last: nat)
    requires bank.Wf() && bank.known && f < |bank.start| && l < |bank.start| && i < |bank.start| && bank.start[f] <= last
    requires bank.End(l) == last || (l == |bank.start| - 1 && last > bank.BankEnd())
    ensures f <= l && (f <= i <= l <==> bank.start[f] <= bank.start[i] && bank.End(i) <= last)
  {
  }

  /** In the banks looked at so far the sectors in the range are chosen, once it is known where the range begins. */
  lemma ChosenSoFar(banks: seq<Bank>, origin: nat, from: nat, last: nat, sFirst: seq<int>, sLast: seq<int>, b: nat, addr: nat, count: int)
    requires Contiguous(banks, origin) && Search(banks, origin, from, last, sFirst, sLast, b, addr, count)
    requires count == 0 ==> from >= Base(banks, origin, b)
    ensures forall c: nat, i: nat :: c < b ==> (Chosen(sFirst, sLast, c, i) <==> Within(banks, from, last, c, i))
  {
    if count == 0 {
      forall c: nat, i: nat | c < b
        ensures Chosen(sFirst, sLast, c, i) <==> Within(banks, from, last, c, i)
      {
        if Is(banks, c, i) {
          Sides(banks, origin, b, c, i);
        }
      }
    }
  }

  lemma ChosenHere(banks: seq<Bank>, from: nat, last: nat, sFirst: seq<int>, sLast: seq<int>, b: nat, f: nat, l: nat)
    requires AllWf(banks) && |sFirst| == |sLast| == |banks| && Is(banks, b, f) && Is(banks, b, l) && Lo(banks, b, f) <= last
    requires Hi(banks, b, l) == last || (l == |banks[b].start| - 1 && last > banks[b].BankEnd())
    requires Lo(banks, b, f) == from || (f == 0 && from < Lo(banks, b, f))
    requires forall c: nat, i: nat :: c < b ==> (Chosen(sFirst, sLast, c, i) <==> Within(banks, from, last, c, i))
    ensures f <= l
    ensures forall c: nat, i: nat :: c < b + 1 ==> (Chosen(sFirst[b := f], sLast[b := l], c, i) <==> Within(banks, from, last, c, i))
  {
    Picks(banks[b], f, l, f, last);
    forall c: nat, i: nat | c < b + 1
      ensures Chosen(sFirst[b := f], sLast[b := l], c, i) <==> Within(banks, from, last, c, i)
    {
      if c < b {
        assert Chosen(sFirst[b := f], sLast[b := l], c, i) <==> Chosen(sFirst, sLast, c, i);
      } else if Is(banks, b, i) {
        Picks(banks[b], f, l, i, last);
      }
    }
  }

  /** A bank with a first and a last sector. */
  lemma SearchHit(banks: seq<Bank>, origin: nat, from: nat, last: nat, sFirst: seq<int>, sLast: seq<int>, b: nat, addr: nat, count: int,
                  f: nat, l: nat, addr': nat)
    requires Contiguous(banks, origin) && b < |banks| && banks[b].known && last < MODULUS
    requires Search(banks, origin, from, last, sFirst, sLast, b, addr, count) && addr <= last
    requires Is(banks, b, f) && Lo(banks, b, f) == addr && Is(banks, b, l)
    requires Hi(banks, b, l) == last || (l == |banks[b].start| - 1 && last > banks[b].BankEnd())
    requires addr' == if l == |banks[b].start| - 1 then (banks[b].BankEnd() + 1) % MODULUS else banks[b].start[l + 1]
    ensures f <= l
    ensures Search(banks, origin, from, last, sFirst[b := f], sLast[b := l], b + 1, addr', count + (l - f + 1))
  {
    var sf, sl := sFirst[b := f], sLast[b := l];
    TotalSame(sFirst, sLast, sf, sl, b);
    Sides(banks, origin, b, b, f);
    if count > 0 {
      SearchRunning(banks, origin, from, last, sFirst, sLast, b, addr, count);
      assert f == 0;
    }
    ChosenSoFar(banks, origin, from, last, sFirst, sLast, b, addr, count);
    ChosenHere(banks, from, last, sFirst, sLast, b, f, l);
    hide Chosen, Within;
  }

  /** The loop has ended without an error. */
  lemma SearchDone(banks: seq<Bank>, origin: nat, from: nat, last: nat, sFirst: seq<int>, sLast: seq<int>, b: nat, addr: nat, count: int)
    requires Contiguous(banks, origin) && Search(banks, origin, from, last, sFirst, sLast, b, addr, count)
    requires b == |banks| || addr > last
    ensures count >= 0 && (count > 0 <==> Acceptable(banks, origin, from, last))
    ensures count > 0 ==>
      && count == Total(sFirst, sLast, |banks|) == |Picked(sFirst, sLast, |banks|)|
      && forall c: nat, i: nat :: Chosen(sFirst, sLast, c, i) <==> Within(banks, from, last, c, i)
  {
    hide Picked;
    if count > 0 {
      TotalCounts(sFirst, sLast, |banks|);
      TotalRest(sFirst, sLast, b, |banks|);
      BaseGrows(banks, origin, b, |banks|);
      forall c: nat, i: nat
        ensures Chosen(sFirst, sLast, c, i) <==> Within(banks, from, last, c, i)
      {
        if c >= b && Is(banks, c, i) {
          Sides(banks, origin, b, c, i);
        }
      }
    }
  }

  lemma {:induction false} TotalRest(sFirst: seq<int>, sLast: seq<int>, b: nat, n: nat)
    requires b <= n <= |sFirst| == |sLast|
    requires forall c :: b <= c < n ==> sFirst[c] == -1
    ensures Total(sFirst, sLast, n) == Total(sFirst, sLast, b)
    decreases n
  {
    if b < n {
      TotalRest(sFirst, sLast, b, n - 1);
    }
  }

  /** The sectors that the first n ranges choose, as pairs of bank and sector. */
  function Picked(sFirst: seq<int>, sLast: seq<int>, n: nat): set<(nat, nat)>
    requires n <= |sFirst| == |sLast|
  {
    if n == 0 then {} else Picked(sFirst, sLast, n - 1) + Row(n - 1, sFirst[n - 1], sLast[n - 1])
  }

  function Row(b: nat, lo: int, hi: int): set<(nat, nat)> {
    set i: nat | lo <= i <= hi && lo >= 0 :: (b, i)
  }

  lemma {:induction false} RowSize(b: nat, lo: int, hi: int)
    requires lo >= 0 && hi >= lo - 1
    ensures |Row(b, lo, hi)| == hi - lo + 1
    decreases hi - lo + 1
  {
    if hi < lo {
      assert Row(b, lo, hi) == {};
    } else {
      RowSize(b, lo, hi - 1);
      assert Row(b, lo, hi) == Row(b, lo, hi - 1) + {(b, hi as nat)};
      assert (b, hi as nat) !in Row(b, lo, hi - 1);
    }
  }

  lemma {:induction false} PickedIs(sFirst: seq<int>, sLast: seq<int>, n: nat, b: nat, i: nat)
    requires n <= |sFirst| == |sLast|
    ensures (b, i) in Picked(sFirst, sLast, n) <==> b < n && Chosen(sFirst, sLast, b, i)
  {
    if n > 0 {
      PickedIs(sFirst, sLast, n - 1, b, i);
      assert (b, i) in Row(n - 1, sFirst[n - 1], sLast[n - 1]) <==> b == n - 1 && sFirst[n - 1] >= 0 && sFirst[n - 1] <= i <= sLast[n - 1];
    }
  }

  /** The total is the number of sectors chosen. */
  lemma {:induction false} TotalCounts(sFirst: seq<int>, sLast: seq<int>, n: nat)
    requires n <= |sFirst| == |sLast|
    requires forall b :: 0 <= b < n && sFirst[b] >= 0 ==> sLast[b] >= sFirst[b] - 1
    ensures Total(sFirst, sLast, n) == |Picked(sFirst, sLast, n)|
  {
    if n > 0 {
      var b := n - 1;
      TotalCounts(sFirst, sLast, b);
      var row := Row(b, sFirst[b], sLast[b]);
      if sFirst[b] >= 0 {
        RowSize(b, sFirst[b], sLast[b]);
      } else {
        assert row == {};
      }
      forall p | p in row
        ensures p !in Picked(sFirst, sLast, b)
      {
        PickedIs(sFirst, sLast, b, p.0, p.1);
      }
      assert Picked(sFirst, sLast, b) * row == {};
    }
  }

  // ---------- the code ----------

  class Flash {
    const banks: seq<Bank>
    const origin: nat
    var protect: seq<seq<bool>>

    ghost predicate Valid()
      reads this
    {
      && Contiguous(banks, origin) && |protect| == |banks|
      && forall b :: 0 <= b < |banks| ==> |protect[b]| == |banks[b].start|
    }

    constructor (banks: seq<Bank>, origin: nat)
      requires Contiguous(banks, origin)
      ensures Valid() && this.banks == banks && this.origin == origin
    {
      this.banks, this.origin := banks, origin;
      protect := seq(|banks|, (b: nat) requires b < |banks| => seq(|banks[b].start|, _ => false));
    }

    /** `flash_sect_roundb`: up to the end of the sector the address lies in. */
    method RoundUp(addr: nat) returns (found: bool, rounded: nat)
      requires Valid()
      ensures found ==> exists b: nat, i: nat :: Is(banks, b, i) && Lo(banks, b, i) <= addr <= Hi(banks, b, i) == rounded
      ensures !found ==> rounded == addr && forall b: nat, i: nat :: Is(banks, b, i) ==> !(Lo(banks, b, i) <= addr <= Hi(banks, b, i))
    {
      found, rounded := false, addr;
      var bank := 0;
      while bank < |banks| && !found
        invariant 0 <= bank <= |banks|
        invariant found ==> exists b: nat, i: nat :: Is(banks, b, i) && Lo(banks, b, i) <= addr <= Hi(banks, b, i) == rounded
        invariant !found ==> rounded == addr
        invariant !found ==> forall b: nat, i: nat :: Is(banks, b, i) && b < bank ==> !(Lo(banks, b, i) <= addr <= Hi(banks, b, i))
      {
        var info := banks[bank];
        var i := 0;
        while i < |info.start| && !found
          invariant 0 <= i <= |info.start|
          invariant found ==> exists b: nat, i: nat :: Is(banks, b, i) && Lo(banks, b, i) <= addr <= Hi(banks, b, i) == rounded
          invariant !found ==> rounded == addr && forall j: nat :: j < i ==> !(Lo(banks, bank, j) <= addr <= Hi(banks, bank, j))
        {
          var sectorEnd := if i == |info.start| - 1 then info.start[0] + info.size - 1 else info.start[i + 1] - 1;
          assert Is(banks, bank, i) && sectorEnd == Hi(banks, bank, i);
          if addr <= sectorEnd && addr >= info.start[i] {
            found := true;
            if addr < sectorEnd {
              rounded := sectorEnd;
            }
          }
          i := i + 1;
        }
        bank := bank + 1;
      }
    }

    /** `addr_spec` after the numbers are read: "first last" or, when a '+' was seen, "first +length". */
    method AddrSpec(arg1: nat, arg2: nat, lenUsed: bool) returns (ok: bool, first: nat, last: nat)
      requires Valid() && arg1 < MODULUS && arg2 < MODULUS
      ensures first == arg1
      ensures !lenUsed ==> ok && last == arg2
      ensures lenUsed ==>
        var end := (arg1 + arg2 - 1) % MODULUS;
        if ok then exists b: nat, i: nat :: Is(banks, b, i) && Lo(banks, b, i) <= end <= Hi(banks, b, i) == last
        else forall b: nat, i: nat :: Is(banks, b, i) ==> !(Lo(banks, b, i) <= end <= Hi(banks, b, i))
      ensures lenUsed && arg2 > 0 && StartsSector(banks, arg1) && arg1 + arg2 <= Base(banks, origin, |banks|) ==>
        && ok && Acceptable(banks, origin, first, last)
        && forall b: nat, i: nat :: Is(banks, b, i) ==>
             (Within(banks, first, last, b, i) <==> Lo(banks, b, i) < arg1 + arg2 && arg1 <= Hi(banks, b, i))
    {
      hide Acceptable, Within, StartsSector, Base;
      first, last := arg1, arg2;
      if lenUsed {
        last := (first + last - 1) % MODULUS;
        ghost var end := last;
        ok, last := RoundUp(last);
        if arg2 > 0 && StartsSector(banks, arg1) && arg1 + arg2 <= Base(banks, origin, |banks|) {
          InRange(banks, origin, arg1);
          Covering(banks, origin, arg1, arg1 + arg2 - 1, ok, last);
        }
        return;
      }
      ok := true;
    }

    /** The inner loop of `flash_fill_sect_ranges`. */
    method ScanBank(bank: nat, addrFirst: nat, addrLast: nat) returns (first: int, last: int)
      requires Valid() && bank < |banks| && banks[bank].known && addrFirst <= addrLast
      ensures Scanned(banks, bank, addrFirst, addrLast, first, last)
    {
      var info := banks[bank];
      var bEnd, sEnd := info.start[0] + info.size - 1, |info.start| - 1;
      first, last := -1, -1;
      for sect := 0 to |info.start|
        invariant -1 <= first < sect || first == -1
        invariant -1 <= last < sect || last == -1
        invariant first >= 0 ==> Lo(banks, bank, first) == addrFirst
        invariant last >= 0 ==> Hi(banks, bank, last) == addrLast
        invariant first < 0 ==> forall i: nat :: i < sect ==> Lo(banks, bank, i) != addrFirst
        invariant last < 0 ==> forall i: nat :: i < sect ==> Hi(banks, bank, i) != addrLast
      {
        var end := if sect == sEnd then bEnd else info.start[sect + 1] - 1;
        assert end == Hi(banks, bank, sect);
        if addrFirst > end {
          continue;
        }
        if addrLast < info.start[sect] {
          continue;
        }
        if addrFirst == info.start[sect] {
          first := sect;
        }
        if addrLast == end {
          last := sect;
        }
      }
    }

    method FillSectRanges(from: nat, addrLast: nat, sFirst: array<int>, sLast: array<int>) returns (rcode: int, count: int)
      requires Valid() && from < MODULUS && addrLast < MODULUS
      requires sFirst.Length == sLast.Length == |banks| && sFirst != sLast
      modifies sFirst, sLast
      ensures rcode == 0 ==> count >= 0
      ensures rcode == 0 && count > 0 <==> Acceptable(banks, origin, from, addrLast)
      ensures rcode == 0 && count > 0 ==>
        && count == |Picked(sFirst[..], sLast[..], |banks|)|
        && forall b: nat, i: nat :: Chosen(sFirst[..], sLast[..], b, i) <==> Within(banks, from, addrLast, b, i)
    {
      hide Search, Acceptable, Within, Chosen, Total, Picked, Base, StartsSector, EndsSector;
      rcode, count := 0, 0;
      var addrFirst: nat := from;
      for b := 0 to |banks|
        invariant forall c :: 0 <= c < b ==> sFirst[c] == -1 && sLast[c] == -1
      {
        sFirst[b], sLast[b] := -1, -1;
      }
      SearchStart(banks, origin, from, addrLast, sFirst[..], sLast[..]);
      var bank := 0;
      while bank < |banks| && addrFirst <= addrLast
        invariant 0 <= bank <= |banks|
        invariant Search(banks, origin, from, addrLast, sFirst[..], sLast[..], bank, addrFirst, count)
      {
        if banks[bank].known {
          ghost var sf, sl := sFirst[..], sLast[..];
          sFirst[bank], sLast[bank] := ScanBank(bank, addrFirst, addrLast);
          rcode, sLast[bank], count, addrFirst := Account(bank, addrFirst, addrLast, sFirst[bank], sLast[bank], count, from, sf, sl);
          assert sFirst[..] == sf[bank := sFirst[bank]] && sLast[..] == sl[bank := sLast[bank]];
          if rcode != 0 {
            break;
          }
        } else {
          SearchUnknown(banks, origin, from, addrLast, sFirst[..], sLast[..], bank, addrFirst, count);
        }
        bank := bank + 1;
      }
      if rcode == 0 {
        SearchDone(banks, origin, from, addrLast, sFirst[..], sLast[..], bank, addrFirst, count);
      }
    }

    /** What follows the inner loop: extend the range to the end of the bank, or find the error. */
    method Account(bank: nat, addrFirst: nat, addrLast: nat, f: int, l: int, count: int, ghost from: nat, ghost sf: seq<int>, ghost sl: seq<int>)
      returns (rcode: int, l': int, count': int, addrFirst': nat)
      requires Valid() && bank < |banks| && banks[bank].known && addrFirst <= addrLast < MODULUS
      requires Search(banks, origin, from, addrLast, sf, sl, bank, addrFirst, count)
      requires Scanned(banks, bank, addrFirst, addrLast, f, l)
      ensures rcode == 0 ==> Search(banks, origin, from, addrLast, sf[bank := f], sl[bank := l'], bank + 1, addrFirst', count')
      ensures rcode != 0 ==> !Acceptable(banks, origin, from, addrLast)
    {
      hide Search, Acceptable, StartsSector, EndsSector, Within, Chosen, Total, Base, Contiguous;
      ContiguousWf(banks, origin);
      var info := banks[bank];
      var bEnd, sEnd := info.start[0] + info.size - 1, |info.start| - 1;
      rcode, l', count', addrFirst' := 0, l, count, addrFirst;
      if f >= 0 {
        if l < 0 {
          if addrLast > bEnd {
            l' := sEnd;
          } else {
            EndMissing(banks, origin, from, addrFirst, addrLast, bank, f);
            rcode := 1;
            return;
          }
        }
        SearchHit(banks, origin, from, addrLast, sf, sl, bank, addrFirst, count, f, l',
                  if l' == sEnd then (bEnd + 1) % MODULUS else info.start[l' + 1]);
        if l' < f {
          rcode := 1;
          return;
        }
        addrFirst' := if l' == sEnd then (bEnd + 1) % MODULUS else info.start[l' + 1];
        count' := count + (l' - f + 1);
      } else {
        Unset(banks, origin, from, addrLast, sf, sl, bank, addrFirst, count);
        SearchMiss(banks, origin, from, addrLast, sf, sl, bank, addrFirst, count);
        if addrFirst >= info.start[0] && addrFirst < bEnd {
          StartMissing(banks, origin, from, addrLast, sf, sl, bank);
          rcode := 1;
          return;
        } else if l >= 0 {
          StartMissing(banks, origin, from, addrLast, sf, sl, bank);
          rcode := 1;
          return;
        }
        assert sf[bank := f] == sf && sl[bank := l'] == sl;
      }
    }

    /** `flash_sect_protect` where sectors are protected one by one through `info->protect`. */
    method SectProtect(p: bool, addrFirst: nat, addrLast: nat) returns (rcode: int)
      requires Valid() && addrFirst < MODULUS && addrLast < MODULUS
      modifies this
      ensures Valid()
      ensures rcode == 0 <==> Acceptable(banks, origin, addrFirst, addrLast)
      ensures rcode != 0 ==> protect == old(protect)
      ensures rcode == 0 ==> forall b: nat, i: nat :: Is(banks, b, i) ==>
        protect[b][i] == if Within(banks, addrFirst, addrLast, b, i) then p else old(protect)[b][i]
    {
      hide Acceptable, Within, Base;
      var sFirst, sLast := new int[|banks|], new int[|banks|];
      var planned;
      rcode, planned := FillSectRanges(addrFirst, addrLast, sFirst, sLast);
      if planned != 0 && rcode == 0 {
        ghost var f, l := sFirst[..], sLast[..];
        for bank := 0 to |banks|
          invariant Valid() && sFirst[..] == f && sLast[..] == l
          invariant forall b: nat, i: nat :: Is(banks, b, i) ==>
            protect[b][i] == if b < bank && Chosen(f, l, b, i) then p else old(protect)[b][i]
        {
          if banks[bank].known && sFirst[bank] >= 0 && sFirst[bank] <= sLast[bank] {
            assert Chosen(f, l, bank, sLast[bank]);
            WithinIs(banks, addrFirst, addrLast, bank, sLast[bank]);
            var row := Mark(protect[bank], sFirst[bank], sLast[bank], p);
            protect := protect[bank := row];
          }
        }
      } else if rcode == 0 {
        rcode := 1;
      }
    }

    /** The loop over the sectors of one bank. */
    static method Mark(row: seq<bool>, from: nat, upTo: nat, p: bool) returns (marked: seq<bool>)
      requires from <= upTo < |row|
      ensures |marked| == |row|
      ensures forall i :: 0 <= i < |row| ==> marked[i] == if from <= i <= upTo then p else row[i]
    {
      marked := row;
      for i := from to upTo + 1
        invariant |marked| == |row|
        invariant forall k :: 0 <= k < |row| ==> marked[k] == if from <= k < i then p else row[k]
      {
        marked := marked[i := p];
      }
    }
  }

  lemma WithinIs(banks: seq<Bank>, first: nat, last: nat, b: nat, i: nat)
    requires AllWf(banks) && Within(banks, first, last, b, i)
    ensures Is(banks, b, i)
  {
  }

  lemma InRange(banks: seq<Bank>, origin: nat, first: nat)
    requires Contiguous(banks, origin) && StartsSector(banks, first)
    ensures Base(banks, origin, |banks|) <= MODULUS
  {
    var b: nat, i: nat :| Is(banks, b, i) && Lo(banks, b, i) == first;
    Sides(banks, origin, 0, b, i);
    BaseBound(banks, origin, |banks|);
  }

  lemma Covering(banks: seq<Bank>, origin: nat, first: nat, end: nat, found: bool, last: nat)
    requires Contiguous(banks, origin) && StartsSector(banks, first) && first <= end < Base(banks, origin, |banks|)
    requires if found then exists b: nat, i: nat :: Is(banks, b, i) && Lo(banks, b, i) <= end <= Hi(banks, b, i) == last
      else forall b: nat, i: nat :: Is(banks, b, i) ==> !(Lo(banks, b, i) <= end <= Hi(banks, b, i))
    ensures found && Acceptable(banks, origin, first, last)
    ensures forall b: nat, i: nat :: Is(banks, b, i) ==> (Within(banks, first, last, b, i) <==> Lo(banks, b, i) <= end && first <= Hi(banks, b, i))
  {
    var b0: nat, i0: nat :| Is(banks, b0, i0) && Lo(banks, b0, i0) == first;
    Sides(banks, origin, 0, b0, i0);
    var b, i := Holder(banks, origin, end, |banks|);
    var c: nat, j: nat :| Is(banks, c, j) && Lo(banks, c, j) <= end <= Hi(banks, c, j) == last;
    RoundingCovers(banks, origin, first, end, c, j);
  }
}
