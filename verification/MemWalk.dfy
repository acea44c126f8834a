/** The address line test of `do_mem_mtest`: walking ones over the power-of-two offsets. */
module MemWalk {
  import opened Arith
  import opened Bytes
  import opened MemTest

  const PATTERN: word := 0xAAAA_AAAA
  const ANTI: word := 0x5555_5555

  /** How many offsets the loop `for (offset = 1; offset < len; offset <<= 1)` visits. */
  function Count(len: nat, k: nat): (n: nat)
    ensures n >= k && Pow2(n) >= len
    ensures forall j :: k <= j < n ==> Pow2(j) < len
    decreases len - Pow2(k)
  {
    if Pow2(k) >= len then k else Count(len, k + 1)
  }

  function Cell(b: Board, k: nat): nat { b.cellOf(Pow2(k)) }

  /** The first n tested cells hold the pattern. */
  ghost predicate Marked(b: Board, s: seq<word>, n: nat) {
    forall k :: 0 <= k < n ==> Cell(b, k) < |s| && s[Cell(b, k)] == PATTERN
  }

  /** No tested bit is stuck. */
  ghost predicate Sound(b: Board, n: nat) {
    b.fault(b.cellOf(0)).mask == 0 && forall k :: 0 <= k < n ==> b.fault(Cell(b, k)).mask == 0
  }

  /** Offset 0 and the power-of-two offsets reach cells of their own. */
  ghost predicate Apart(b: Board, n: nat) {
    ApartFrom(b, b.cellOf(0), n, n) && forall t :: 0 <= t < n ==> ApartFrom(b, Cell(b, t), t, n)
  }

  /** None of the first n tested cells, but for the one numbered `but`, is cell c. */
  ghost predicate ApartFrom(b: Board, c: nat, but: nat, n: nat) {
    forall k :: 0 <= k < n && k != but ==> Cell(b, k) != c
  }

  /** Cells that no tested offset reaches hold what they held. */
  ghost predicate OthersKept(b: Board, before: seq<word>, s: seq<word>, n: nat) {
    |s| == |before| && forall c :: 0 <= c < |s| && c != b.cellOf(0) && ApartFrom(b, c, n, n) ==> s[c] == before[c]
  }

  lemma OthersStart(b: Board, s: seq<word>, n: nat)
    ensures OthersKept(b, s, s, n)
  {
  }

  lemma OthersWrite(b: Board, before: seq<word>, s: seq<word>, n: nat, offset: nat, k: nat, w: word)
    requires OthersKept(b, before, s, n) && b.cellOf(offset) < |s| && (offset == 0 || (k < n && offset == Pow2(k)))
    ensures OthersKept(b, before, s[b.cellOf(offset) := w], n)
  {
    if offset != 0 {
      assert Cell(b, k) == b.cellOf(offset);
    }
  }

  lemma MarkOne(b: Board, s: seq<word>, n: nat)
    requires Marked(b, s, n) && Cell(b, n) < |s|
    ensures Marked(b, s[Cell(b, n) := PATTERN], n + 1)
  {
  }

  lemma Remark(b: Board, s: seq<word>, n: nat, c: nat)
    requires Marked(b, s, n) && c < |s|
    ensures Marked(b, s[c := ANTI][c := PATTERN], n)
  {
  }

  /** What is read at a tested offset while cell c holds the anti-pattern. */
  lemma ReadBack(b: Board, s: seq<word>, n: nat, c: nat, k: nat)
    requires Marked(b, s, n) && Sound(b, n) && c < |s| && k < n
    ensures Cell(b, k) < |s|
    ensures b.Read(s[c := ANTI], Pow2(k)) == if Cell(b, k) == c then ANTI else PATTERN
  {
    Transparent(b.fault(Cell(b, k)), s[c := ANTI][Cell(b, k)]);
  }

  class Walker {
    const memory: Memory
    const len: nat

    constructor (memory: Memory, len: nat)
      ensures this.memory == memory && this.len == len
    {
      this.memory, this.len := memory, len;
    }

    /** One inner loop: every tested offset but the one under test must still show the pattern. */
    method Check(c: nat, but: nat, ghost n: nat, ghost s: seq<word>) returns (errs: nat)
      requires memory.Valid() && n == Count(len, 0) && c < |s| && memory.content[..] == s[c := ANTI]
      requires Marked(memory.board, s, n) && Sound(memory.board, n)
      requires but > 0 ==> exists t :: 0 <= t < n && but == Pow2(t)
      ensures memory.content[..] == s[c := ANTI]
      ensures errs == 0 <==> forall k :: 0 <= k < n && Pow2(k) != but ==> Cell(memory.board, k) != c
    {
      hide Marked, Sound, Board.Read;
      errs := 0;
      var offset := 1;
      ghost var k := 0;
      while offset < len
        invariant k <= n && offset == Pow2(k)
        invariant errs == 0 <==> forall j :: 0 <= j < k && Pow2(j) != but ==> Cell(memory.board, j) != c
        decreases n - k
      {
        assert k < n;
        var temp := memory.Read(offset);
        ReadBack(memory.board, s, n, c, k);
        if temp != PATTERN && offset != but {
          errs := errs + 1;
        }
        offset := offset * 2;
        k := k + 1;
      }
      assert k == n;
    }

    method WalkingOnes() returns (errs: nat)
      requires memory.Valid() && Sound(memory.board, Count(len, 0))
      modifies memory.content
      ensures errs == 0 <==> Apart(memory.board, Count(len, 0))
      ensures Marked(memory.board, memory.content[..], Count(len, 0))
      ensures OthersKept(memory.board, old(memory.content[..]), memory.content[..], Count(len, 0))
    {
      hide Marked, Sound, OthersKept;
      ghost var before := memory.content[..];
      OthersStart(memory.board, before, Count(len, 0));
      var b := memory.board;
      ghost var n, k := Count(len, 0), 0;
      var offset := 1;
      MarkNone(b, memory.content[..]);
      while offset < len
        invariant k <= n && offset == Pow2(k) && Marked(b, memory.content[..], k)
        invariant OthersKept(b, before, memory.content[..], n)
        decreases n - k
      {
        OthersWrite(b, before, memory.content[..], n, offset, k, PATTERN);
        MarkOne(b, memory.content[..], k);
        memory.Write(offset, PATTERN);
        offset := offset * 2;
        k := k + 1;
      }
      assert k == n;
      ghost var s := memory.content[..];
      memory.Write(0, ANTI);
      errs := Check(b.cellOf(0), 0, n, s);
      assert errs == 0 <==> ApartFrom(b, b.cellOf(0), n, n);
      OthersWrite(b, before, s, n, 0, 0, ANTI);
      OthersWrite(b, before, memory.content[..], n, 0, 0, PATTERN);
      memory.Write(0, PATTERN);
      Remark(b, s, n, b.cellOf(0));
      var test := 1;
      ghost var t := 0;
      while test < len
        invariant t <= n && test == Pow2(t) && Marked(b, memory.content[..], n) && OthersKept(b, before, memory.content[..], n)
        invariant errs == 0 <==> ApartFrom(b, b.cellOf(0), n, n) && forall i :: 0 <= i < t ==> ApartFrom(b, Cell(b, i), i, n)
        decreases n - t
      {
        assert t < n;
        s := memory.content[..];
        memory.Write(test, ANTI);
        var more := Check(b.cellOf(test), test, n, s);
        Distinct(b, n, t);
        assert more == 0 <==> ApartFrom(b, Cell(b, t), t, n);
        errs := errs + more;
        OthersWrite(b, before, s, n, test, t, ANTI);
        OthersWrite(b, before, memory.content[..], n, test, t, PATTERN);
        memory.Write(test, PATTERN);
        Remark(b, s, n, b.cellOf(test));
        test := test * 2;
        t := t + 1;
      }
    }
  }

  lemma MarkNone(b: Board, s: seq<word>)
    ensures Marked(b, s, 0)
  {
  }

  lemma Distinct(b: Board, n: nat, t: nat)
    requires t < n
    ensures forall k :: 0 <= k < n ==> (Pow2(k) == Pow2(t) <==> k == t)
  {
    forall k | 0 <= k < n
      ensures Pow2(k) == Pow2(t) <==> k == t
    {
      Pow2Grows(if k < t then k else t, if k < t then t else k);
    }
  }
}
