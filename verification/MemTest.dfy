/** The two memory tests of `do_mem_mtest` (CONFIG_SYS_ALT_MEMTEST) against a fault model: any map
    from addresses to cells, and any bits of any cell stuck at any value. */
module MemTest {
  import opened Arith
  import opened Bytes

  // ---------- words and stuck bits ----------

  const BITS: nat := 32

  lemma MaxWord()
    ensures Max(BITS) == 0xFFFF_FFFF
  {
    assert Max(8) == 255;
    assert Max(16) == 0xFFFF;
    assert Max(24) == 0xFF_FFFF;
  }

  /** Bit by bit: where `mask` is set the bit of `value` shows, elsewhere the bit of `w`. */
  function SeenBits(mask: nat, value: nat, w: nat, k: nat): (r: nat)
    ensures r <= Max(k)
    decreases k
  {
    if k == 0 then 0
    else 2 * SeenBits(mask / 2, value / 2, w / 2, k - 1) + if mask % 2 == 1 then value % 2 else w % 2
  }

  function Not(w: word): word { 0xFFFF_FFFF - w }

  /** The bits in `mask` always read as in `value`. */
  datatype Fault = Fault(mask: word, value: word) {
    function Seen(w: word): word {
      MaxWord();
      SeenBits(mask, value, w, BITS)
    }
  }

  lemma {:induction false} BothSeenBits(mask: nat, value: nat, x: nat, y: nat, p: nat, k: nat)
    requires mask <= Max(k) && p <= Max(k)
    requires SeenBits(mask, value, x, k) == p && SeenBits(mask, value, y, k) == Max(k) - p
    ensures mask == 0
    decreases k
  {
    if k > 0 {
      BothSeenBits(mask / 2, value / 2, x / 2, y / 2, p / 2, k - 1);
    }
  }

  lemma {:induction false} TransparentBits(value: nat, w: nat, k: nat)
    requires w <= Max(k)
    ensures SeenBits(0, value, w, k) == w
    decreases k
  {
    if k > 0 {
      TransparentBits(value / 2, w / 2, k - 1);
    }
  }

  /** A cell that shows a word and later its complement has no stuck bit. */
  lemma BothSeen(f: Fault, x: word, y: word, p: word)
    requires f.Seen(x) == p && f.Seen(y) == Not(p)
    ensures f.mask == 0
  {
    MaxWord();
    BothSeenBits(f.mask, f.value, x, y, p, BITS);
  }

  lemma Transparent(f: Fault, w: word)
    requires f.mask == 0
    ensures f.Seen(w) == w
  {
    MaxWord();
    TransparentBits(f.value, w, BITS);
  }

  // ---------- the board ----------

  /** The wiring under test: which cell an offset reaches, and what is wrong with a cell. */
  datatype Board = Board(cells: nat, cellOf: nat -> nat, fault: nat -> Fault) {
    ghost predicate Wf() {
      cells > 0 && forall a :: cellOf(a) < cells
    }

    function Read(content: seq<word>, offset: nat): word
      requires cellOf(offset) < |content|
    {
      fault(cellOf(offset)).Seen(content[cellOf(offset)])
    }
  }

  class Memory {
    const board: Board
    const content: array<word>

    ghost predicate Valid() {
      board.Wf() && content.Length == board.cells
    }

    constructor (board: Board)
      requires board.Wf()
      ensures Valid() && this.board == board && fresh(content)
    {
      this.board := board;
      content := new word[board.cells];
    }

    method Write(offset: nat, w: word)
      requires Valid()
      modifies content
      ensures content[..] == old(content[..])[board.cellOf(offset) := w]
    {
      content[board.cellOf(offset)] := w;
    }

    method Read(offset: nat) returns (w: word)
      requires Valid()
      ensures w == board.Read(content[..], offset)
    {
      w := board.fault(board.cellOf(offset)).Seen(content[board.cellOf(offset)]);
    }

    /** The increment/decrement test over words 0 to numWords - 1. */
    method IncrementDecrement(numWords: nat) returns (errs: nat)
      requires Valid() && numWords < 0xFFFF_FFFF
      modifies content
      ensures errs == Misses(board, numWords, numWords)
      ensures forall i :: 0 <= i < numWords ==> content[board.cellOf(i)] == 0
      ensures Untouched(board, old(content[..]), content[..], numWords)
    {
      hide Filled, Inverted, Zeroed, Misses1, Misses, Board.Read, Untouched;
      ghost var before := content[..];
      UntouchedStart(board, before, numWords);
      var pattern: word := 1;
      errs := 0;
      FilledStart(board, content[..]);
      for offset := 0 to numWords
        invariant pattern == offset + 1 && Filled(board, content[..], offset)
        invariant Untouched(board, before, content[..], numWords)
      {
        UntouchedStep(board, before, content[..], numWords, offset, pattern);
        FilledStep(board, content[..], offset);
        Write(offset, pattern);
        pattern := pattern + 1;
      }
      pattern := 1;
      InvertedStart(board, content[..], numWords);
      for offset := 0 to numWords
        invariant pattern == offset + 1 && errs == Misses1(board, numWords, offset)
        invariant Inverted(board, content[..], numWords, offset)
        invariant Untouched(board, before, content[..], numWords)
      {
        UntouchedStep(board, before, content[..], numWords, offset, Not(pattern));
        InvertedStep(board, content[..], numWords, offset);
        var temp := Read(offset);
        if temp != pattern {
          errs := errs + 1;
        }
        Write(offset, Not(pattern));
        pattern := pattern + 1;
      }
      pattern := 1;
      ZeroedStart(board, content[..], numWords);
      for offset := 0 to numWords
        invariant pattern == offset + 1 && errs == Misses(board, numWords, offset)
        invariant Zeroed(board, content[..], numWords, offset)
        invariant Untouched(board, before, content[..], numWords)
      {
        UntouchedStep(board, before, content[..], numWords, offset, 0);
        ZeroedStep(board, content[..], numWords, offset);
        var temp := Read(offset);
        if temp != Not(pattern) {
          errs := errs + 1;
        }
        Write(offset, 0);
        pattern := pattern + 1;
      }
      ZeroedEnd(board, content[..], numWords);
    }
  }

  // ---------- the passes, cell by cell ----------

  /** The word written at an offset on the first pass. */
  function Pattern(offset: nat): word
    requires offset < 0xFFFF_FFFF
  {
    offset + 1
  }

  /** The last offset below `n` that reaches cell `c`. */
  function Last(b: Board, c: nat, n: nat): (r: Option<nat>)
    ensures r.Some? ==> r.value < n && b.cellOf(r.value) == c && forall j :: r.value < j < n ==> b.cellOf(j) != c
    ensures r.None? ==> forall j :: 0 <= j < n ==> b.cellOf(j) != c
  {
    if n == 0 then None else if b.cellOf(n - 1) == c then Some(n - 1) else Last(b, c, n - 1)
  }

  /** What the first pass leaves in a cell. */
  function Fill(b: Board, c: nat, n: nat): Option<word>
    requires n < 0xFFFF_FFFF
  {
    match Last(b, c, n) case None => None case Some(j) => Some(Pattern(j))
  }

  /** What the second pass has made of it when it has done the offsets below `k`. */
  function Invert(b: Board, c: nat, n: nat, k: nat): Option<word>
    requires k <= n < 0xFFFF_FFFF
  {
    match Last(b, c, k) case None => Fill(b, c, n) case Some(j) => Some(Not(Pattern(j)))
  }

  /** And the third pass. */
  function Zero(b: Board, c: nat, n: nat, k: nat): Option<word>
    requires k <= n < 0xFFFF_FFFF
  {
    match Last(b, c, k) case None => Invert(b, c, n, n) case Some(_) => Some(0)
  }

  ghost predicate Filled(b: Board, s: seq<word>, k: nat)
    requires k < 0xFFFF_FFFF
  {
    forall c :: 0 <= c < |s| && Fill(b, c, k).Some? ==> s[c] == Fill(b, c, k).value
  }

  ghost predicate Inverted(b: Board, s: seq<word>, n: nat, k: nat)
    requires k <= n < 0xFFFF_FFFF
  {
    forall c :: 0 <= c < |s| && Invert(b, c, n, k).Some? ==> s[c] == Invert(b, c, n, k).value
  }

  ghost predicate Zeroed(b: Board, s: seq<word>, n: nat, k: nat)
    requires k <= n < 0xFFFF_FFFF
  {
    forall c :: 0 <= c < |s| && Zero(b, c, n, k).Some? ==> s[c] == Zero(b, c, n, k).value
  }

  /** Cells that no tested offset reaches hold what they held. */
  ghost predicate Untouched(b: Board, before: seq<word>, s: seq<word>, n: nat) {
    |s| == |before| && forall c :: 0 <= c < |s| && Last(b, c, n).None? ==> s[c] == before[c]
  }

  lemma UntouchedStart(b: Board, s: seq<word>, n: nat)
    ensures Untouched(b, s, s, n)
  {
  }

  lemma UntouchedStep(b: Board, before: seq<word>, s: seq<word>, n: nat, k: nat, w: word)
    requires b.cellOf(k) < |s| && k < n && Untouched(b, before, s, n)
    ensures Untouched(b, before, s[b.cellOf(k) := w], n)
  {
    assert Last(b, b.cellOf(k), n).Some?;
  }

  lemma ZeroedEnd(b: Board, s: seq<word>, n: nat)
    requires n < 0xFFFF_FFFF && Zeroed(b, s, n, n) && b.Wf() && b.cells == |s|
    ensures forall i :: 0 <= i < n ==> s[b.cellOf(i)] == 0
  {
    forall i | 0 <= i < n
      ensures s[b.cellOf(i)] == 0
    {
      assert Last(b, b.cellOf(i), n).Some?;
      assert Zero(b, b.cellOf(i), n, n) == Some(0);
    }
  }

  /** What the second pass reads at offset i. */
  function Seen1(b: Board, n: nat, i: nat): word
    requires i < n < 0xFFFF_FFFF
  {
    b.fault(b.cellOf(i)).Seen(Invert(b, b.cellOf(i), n, i).GetOr(0))
  }

  /** What the third pass reads at offset i. */
  function Seen2(b: Board, n: nat, i: nat): word
    requires i < n < 0xFFFF_FFFF
  {
    b.fault(b.cellOf(i)).Seen(Zero(b, b.cellOf(i), n, i).GetOr(0))
  }

  function Misses1(b: Board, n: nat, k: nat): nat
    requires k <= n < 0xFFFF_FFFF
  {
    if k == 0 then 0 else Misses1(b, n, k - 1) + if Seen1(b, n, k - 1) != Pattern(k - 1) then 1 else 0
  }

  /** The errors of the second pass and of the third up to offset k. */
  function Misses(b: Board, n: nat, k: nat): nat
    requires k <= n < 0xFFFF_FFFF
  {
    if k == 0 then Misses1(b, n, n)
    else Misses(b, n, k - 1) + if Seen2(b, n, k - 1) != Not(Pattern(k - 1)) then 1 else 0
  }

  lemma FilledStart(b: Board, s: seq<word>)
    ensures Filled(b, s, 0)
  {
  }

  lemma FilledStep(b: Board, s: seq<word>, k: nat)
    requires b.cellOf(k) < |s| && k + 1 < 0xFFFF_FFFF && Filled(b, s, k)
    ensures Filled(b, s[b.cellOf(k) := Pattern(k)], k + 1)
  {
  }

  lemma InvertedStart(b: Board, s: seq<word>, n: nat)
    requires n < 0xFFFF_FFFF && Filled(b, s, n)
    ensures Inverted(b, s, n, 0) && Misses1(b, n, 0) == 0
  {
  }

  lemma InvertedStep(b: Board, s: seq<word>, n: nat, k: nat)
    requires b.cellOf(k) < |s| && k < n < 0xFFFF_FFFF && Inverted(b, s, n, k)
    ensures Inverted(b, s[b.cellOf(k) := Not(Pattern(k))], n, k + 1)
    ensures Misses1(b, n, k + 1) == Misses1(b, n, k) + if b.Read(s, k) != Pattern(k) then 1 else 0
  {
    assert Last(b, b.cellOf(k), n).Some?;
    assert Seen1(b, n, k) == b.Read(s, k) by {
      assert Invert(b, b.cellOf(k), n, k).Some?;
    }
  }

  lemma ZeroedStart(b: Board, s: seq<word>, n: nat)
    requires n < 0xFFFF_FFFF && Inverted(b, s, n, n)
    ensures Zeroed(b, s, n, 0) && Misses(b, n, 0) == Misses1(b, n, n)
  {
  }

  lemma ZeroedStep(b: Board, s: seq<word>, n: nat, k: nat)
    requires b.cellOf(k) < |s| && k < n < 0xFFFF_FFFF && Zeroed(b, s, n, k)
    ensures Zeroed(b, s[b.cellOf(k) := 0], n, k + 1)
    ensures Misses(b, n, k + 1) == Misses(b, n, k) + if b.Read(s, k) != Not(Pattern(k)) then 1 else 0
  {
    assert Last(b, b.cellOf(k), n).Some?;
    assert Seen2(b, n, k) == b.Read(s, k) by {
      assert Zero(b, b.cellOf(k), n, k).Some?;
    }
  }

  // ---------- what the increment/decrement test tells ----------

  /** No two tested words share a cell, and no tested cell has a stuck bit. */
  ghost predicate Healthy(b: Board, n: nat) {
    && (forall i, j :: 0 <= i < j < n ==> b.cellOf(i) != b.cellOf(j))
    && (forall i :: 0 <= i < n ==> b.fault(b.cellOf(i)).mask == 0)
  }

  /** Every read of the second and third pass shows what was written last. */
  ghost predicate Silent(b: Board, n: nat)
    requires n < 0xFFFF_FFFF
  {
    && (forall i :: 0 <= i < n ==> Seen1(b, n, i) == Pattern(i))
    && (forall i :: 0 <= i < n ==> Seen2(b, n, i) == Not(Pattern(i)))
  }

  lemma {:induction false} NoMisses1Iff(b: Board, n: nat, k: nat)
    requires k <= n < 0xFFFF_FFFF
    ensures Misses1(b, n, k) == 0 <==> forall i :: 0 <= i < k ==> Seen1(b, n, i) == Pattern(i)
  {
    hide Seen1;
    if k > 0 {
      NoMisses1Iff(b, n, k - 1);
    }
  }

  lemma {:induction false} NoMissesIff(b: Board, n: nat, k: nat)
    requires k <= n < 0xFFFF_FFFF
    ensures Misses(b, n, k) == 0 <==>
            && (forall i :: 0 <= i < n ==> Seen1(b, n, i) == Pattern(i))
            && (forall i :: 0 <= i < k ==> Seen2(b, n, i) == Not(Pattern(i)))
  {
    hide Seen1, Seen2;
    NoMisses1Iff(b, n, n);
    if k > 0 {
      NoMissesIff(b, n, k - 1);
    }
  }

  lemma {:induction false} FirstUse(b: Board, i: nat) returns (f: nat)
    ensures f <= i && b.cellOf(f) == b.cellOf(i) && Last(b, b.cellOf(i), f).None?
    decreases i
  {
    match Last(b, b.cellOf(i), i) {
      case None => f := i;
      case Some(j) => f := FirstUse(b, j);
    }
  }

  /** Reading both patterns back at one offset rules out stuck bits in its cell. */
  lemma SilentCell(b: Board, n: nat, i: nat)
    requires i < n < 0xFFFF_FFFF && Silent(b, n)
    ensures b.fault(b.cellOf(i)).mask == 0
  {
    var f := b.fault(b.cellOf(i));
    BothSeen(f, Invert(b, b.cellOf(i), n, i).GetOr(0), Zero(b, b.cellOf(i), n, i).GetOr(0), Pattern(i));
  }

  /** Two words in one cell are noticed where the cell is first used. */
  lemma SilentApart(b: Board, n: nat, i: nat, j: nat)
    requires i < j < n < 0xFFFF_FFFF && Silent(b, n)
    ensures b.cellOf(i) != b.cellOf(j)
  {
    var f := FirstUse(b, i);
    var c := b.cellOf(i);
    SilentCell(b, n, f);
    FirstSeesLast(b, n, f);
    assert Seen1(b, n, f) == Pattern(f);
    hide Seen1, Silent;
    assert f <= i <= Last(b, c, n).value;
  }

  /** At the first use of a sound cell the second pass reads what the first wrote there last. */
  lemma FirstSeesLast(b: Board, n: nat, f: nat)
    requires f < n < 0xFFFF_FFFF && b.fault(b.cellOf(f)).mask == 0 && Last(b, b.cellOf(f), f).None?
    ensures Last(b, b.cellOf(f), n).Some? && Seen1(b, n, f) == Pattern(Last(b, b.cellOf(f), n).value)
  {
    hide Fault.Seen;
    Transparent(b.fault(b.cellOf(f)), Invert(b, b.cellOf(f), n, f).GetOr(0));
  }

  lemma HealthyReads(b: Board, n: nat, i: nat)
    requires i < n < 0xFFFF_FFFF && Healthy(b, n)
    ensures Seen1(b, n, i) == Pattern(i) && Seen2(b, n, i) == Not(Pattern(i))
  {
    var c := b.cellOf(i);
    assert Last(b, c, i).None? && Last(b, c, n) == Some(i);
    Transparent(b.fault(c), Pattern(i));
    Transparent(b.fault(c), Not(Pattern(i)));
  }

  lemma SilentIsHealthy(b: Board, n: nat)
    requires n < 0xFFFF_FFFF && Silent(b, n)
    ensures Healthy(b, n)
  {
    hide Silent;
    forall i | 0 <= i < n
      ensures b.fault(b.cellOf(i)).mask == 0
    {
      SilentCell(b, n, i);
    }
    forall i, j | 0 <= i < j < n
      ensures b.cellOf(i) != b.cellOf(j)
    {
      SilentApart(b, n, i, j);
    }
  }

  lemma HealthyIsSilent(b: Board, n: nat)
    requires n < 0xFFFF_FFFF && Healthy(b, n)
    ensures Silent(b, n)
  {
    hide Healthy, Seen1, Seen2;
    forall i | 0 <= i < n
      ensures Seen1(b, n, i) == Pattern(i) && Seen2(b, n, i) == Not(Pattern(i))
    {
      HealthyReads(b, n, i);
    }
  }

  /** The increment/decrement test reports no error if and only if no two tested words share a cell
      and none of their bits is stuck. */
  lemma NoErrorsIffHealthy(b: Board, n: nat)
    requires n < 0xFFFF_FFFF
    ensures Misses(b, n, n) == 0 <==> Healthy(b, n)
  {
    NoMissesIff(b, n, n);
    assert Misses(b, n, n) == 0 <==> Silent(b, n);
    hide *;
    if Silent(b, n) {
      SilentIsHealthy(b, n);
    }
    if Healthy(b, n) {
      HealthyIsSilent(b, n);
    }
  }

  /** The offsets where the second pass, and the third, read something else than was written last. */
  ghost function Wrong1(b: Board, n: nat, k: nat): set<nat>
    requires k <= n < 0xFFFF_FFFF
  {
    set i: nat | i < k && Seen1(b, n, i) != Pattern(i)
  }

  ghost function Wrong2(b: Board, n: nat, k: nat): set<nat>
    requires k <= n < 0xFFFF_FFFF
  {
    set i: nat | i < k && Seen2(b, n, i) != Not(Pattern(i))
  }

  lemma {:induction false} Misses1Count(b: Board, n: nat, k: nat)
    requires k <= n < 0xFFFF_FFFF
    ensures Misses1(b, n, k) == |Wrong1(b, n, k)|
  {
    hide Seen1;
    if k == 0 {
      assert Wrong1(b, n, 0) == {};
    } else {
      Misses1Count(b, n, k - 1);
      assert Wrong1(b, n, k) == Wrong1(b, n, k - 1) + if Seen1(b, n, k - 1) != Pattern(k - 1) then {k - 1} else {};
    }
  }

  /** The count is one for every such offset of either pass. */
  lemma {:induction false} MissesCount(b: Board, n: nat, k: nat)
    requires k <= n < 0xFFFF_FFFF
    ensures Misses(b, n, k) == |Wrong1(b, n, n)| + |Wrong2(b, n, k)|
  {
    hide Seen2, Wrong1;
    if k == 0 {
      Misses1Count(b, n, n);
      assert Wrong2(b, n, 0) == {};
    } else {
      MissesCount(b, n, k - 1);
      assert Wrong2(b, n, k) == Wrong2(b, n, k - 1) + if Seen2(b, n, k - 1) != Not(Pattern(k - 1)) then {k - 1} else {};
    }
  }
}
