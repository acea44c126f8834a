/** The log ring of cmd_log.c in its two formats, and `logbuff_printk` writing into it. */
module LogBuffer {
  import opened Bytes
  import opened LogText

  const LEN: nat := 16384

  // ---------- the two formats ----------

  /** Version 1: start and size. */
  datatype Ring1 = Ring1(start: word, size: word) {
    function Slot(): nat { (start + size) % MODULUS % LEN }

    function Push(): Ring1 {
      if size < LEN then Ring1(start, size + 1) else Ring1((start + 1) % MODULUS, size)
    }
  }

  /** Version 2: start and end, both running on modulo 2^32. */
  datatype Ring2 = Ring2(start: word, end: word) {
    function Size(): nat { (end - start) % MODULUS }

    function Slot(): nat { end % LEN }

    function Push(): Ring2 {
      var r := Ring2(start, (end + 1) % MODULUS);
      if r.Size() > LEN then Ring2((start + 1) % MODULUS, r.end) else r
    }
  }

  predicate Same(a: Ring1, b: Ring2) {
    a.start == b.start && a.size == b.Size() <= LEN
  }

  lemma Fold(x: int)
    ensures x % MODULUS % LEN == x % LEN
  {
    assert MODULUS == LEN * 262144;
    assert x == MODULUS * (x / MODULUS) + x % MODULUS;
    assert MODULUS * (x / MODULUS) == LEN * (262144 * (x / MODULUS));
    ModMultiple(x % MODULUS, 262144 * (x / MODULUS));
  }

  lemma ModMultiple(x: int, k: int)
    ensures (x + LEN * k) % LEN == x % LEN
  {
    var q, r := x / LEN, x % LEN;
    assert x + LEN * k == LEN * (q + k) + r;
    ModUnique(x + LEN * k, q + k, r);
  }

  lemma ModUnique(x: int, q: int, r: int)
    requires x == LEN * q + r && 0 <= r < LEN
    ensures x % LEN == r
  {
  }

  /** The formats stay equivalent and write to the same slot, also when the counters wrap. */
  lemma PushKeepsSame(a: Ring1, b: Ring2)
    requires Same(a, b)
    ensures a.Slot() == b.Slot() && Same(a.Push(), b.Push())
  {
    assert (a.start + a.size) % MODULUS == b.end;
    assert b.end == (b.start + b.Size()) % MODULUS;
    var r := Ring2(b.start, (b.end + 1) % MODULUS);
    assert r.Size() == b.Size() + 1;
  }

  function Pushes1(a: Ring1, n: nat): Ring1
    decreases n
  {
    if n == 0 then a else Pushes1(a.Push(), n - 1)
  }

  function Pushes2(b: Ring2, n: nat): Ring2
    decreases n
  {
    if n == 0 then b else Pushes2(b.Push(), n - 1)
  }

  /** After any number of logged bytes. */
  lemma {:induction false} Bisimilar(a: Ring1, b: Ring2, n: nat)
    requires Same(a, b)
    ensures Same(Pushes1(a, n), Pushes2(b, n)) && Pushes1(a, n).Slot() == Pushes2(b, n).Slot()
    decreases n
  {
    PushKeepsSame(a, b);
    if n > 0 {
      Bisimilar(a.Push(), b.Push(), n - 1);
    }
  }

  // ---------- the buffer ----------

  /** What a ring of LEN bytes still holds of everything that was written to it. */
  function Kept(all: seq<byte>): seq<byte> {
    if |all| <= LEN then all else all[|all| - LEN..]
  }

  function At(start: int, i: nat): nat { (start + i) % LEN }

  /** The next byte goes where the oldest one is, or behind the newest. */
  lemma AtDistinct(start: int, i: nat, j: nat)
    requires i < j < i + LEN
    ensures At(start, i) != At(start, j)
  {
    var q, q' := (start + i) / LEN, (start + j) / LEN;
    assert start + i == LEN * q + At(start, i) && start + j == LEN * q' + At(start, j);
    if q == q' {
    } else {
      assert j - i == LEN * (q' - q) + (At(start, j) - At(start, i));
    }
  }

  class LogBuffer {
    const lbuf: array<byte>
    const buf: array<byte>      // static char buf[1024]
    const version2: bool
    var start: word
    var size: word             // version 1
    var end: word              // version 2
    var chars: word
    var msgLevel: int           // static signed char msg_level
    ghost var Logged: seq<byte> // every byte since the last reset

    ghost function Size(): nat
      reads this
    {
      if version2 then (end - start) % MODULUS else size
    }

    /** The ring holds the last bytes of the log, and `chars` counts them all. */
    ghost predicate Valid()
      reads this, lbuf
    {
      Holds() && chars == |Logged| % MODULUS
    }

    ghost predicate Holds()
      reads this, lbuf
    {
      && lbuf.Length == LEN && buf.Length == 1024 && lbuf != buf
      && Size() == |Kept(Logged)|
      && forall i :: 0 <= i < Size() ==> lbuf[At(start, i)] == Kept(Logged)[i]
    }

    constructor (version2: bool)
      ensures Valid() && fresh(lbuf) && fresh(buf) && this.version2 == version2
      ensures Logged == [] && msgLevel == -1
    {
      this.version2 := version2;
      lbuf, buf := new byte[LEN], new byte[1024];
      start, size, end, chars := 0, 0, 0, 0;
      msgLevel := -1;
      Logged := [];
    }

    /** `logbuff_reset`: the level of a line under way stays. */
    method Reset()
      requires Valid()
      modifies this`start, this`size, this`end, this`chars, this`Logged
      ensures Valid() && Logged == [] && start == size == end == chars == 0
    {
      start, size, end, chars := 0, 0, 0, 0;
      Logged := [];
    }

    method PutByte(c: byte)
      requires Valid()
      modifies this`start, this`size, this`end, this`chars, this`Logged, lbuf
      ensures Valid() && Logged == old(Logged) + [c]
      ensures version2 ==> Ring2(start, end) == old(Ring2(start, end)).Push()
      ensures !version2 ==> Ring1(start, size) == old(Ring1(start, size)).Push()
    {
      if version2 {
        PutByte2(c);
      } else {
        PutByte1(c);
      }
      chars := (chars + 1) % MODULUS;
    }

    method PutByte1(c: byte)
      requires Holds() && !version2
      modifies this`start, this`size, this`Logged, lbuf
      ensures Holds() && Logged == old(Logged) + [c]
      ensures Ring1(start, size) == old(Ring1(start, size)).Push()
    {
      SlotIs();
      Refill(lbuf[..], start, Logged, c);
      assert |Kept(Logged)| <= LEN;
      hide At, Kept;
      lbuf[(start + size) % MODULUS % LEN] := c;
      if size < LEN {
        size := size + 1;
      } else {
        start := (start + 1) % MODULUS;
      }
      Logged := Logged + [c];
    }

    method PutByte2(c: byte)
      requires Holds() && version2
      modifies this`start, this`end, this`Logged, lbuf
      ensures Holds() && Logged == old(Logged) + [c]
      ensures Ring2(start, end) == old(Ring2(start, end)).Push()
    {
      SlotIs();
      Refill(lbuf[..], start, Logged, c);
      SizeGrows(end, start);
      assert |Kept(Logged)| <= LEN;
      hide At, Kept;
      lbuf[end % LEN] := c;
      end := (end + 1) % MODULUS;
      if (end - start) % MODULUS > LEN {
        start := (start + 1) % MODULUS;
      }
      Logged := Logged + [c];
    }

    lemma SlotIs()
      requires Holds()
      ensures version2 ==> end % LEN == At(start, Size())
      ensures !version2 ==> (start + size) % MODULUS % LEN == At(start, Size())
    {
      if version2 {
        EndIs(start, end);
        Fold(start + (end - start) % MODULUS);
      } else {
        Fold(start + size);
      }
    }

    /** The text from character k on stands where `strcpy (buf + 3, line)` put it. */
    ghost predicate Pending(line: seq<byte>, k: nat)
      reads buf
    {
      buf.Length == 1024 && |line| <= 1020 && forall i :: k <= i <= |line| ==> buf[3 + i] == CharAt(line, i)
    }

    /** `strcpy (buf + 3, line)`. */
    method CopyIn(line: seq<byte>)
      requires buf.Length == 1024 && |line| <= 1020
      modifies buf
      ensures Pending(line, 0)
    {
      for i := 0 to |line|
        invariant forall k :: 0 <= k < i ==> buf[3 + k] == CharAt(line, k)
      {
        buf[3 + i] := line[i];
      }
      buf[3 + |line|] := NUL;
    }

    /** The inner loop of `logbuff_printk`: one line goes into the ring, up to its newline. */
    method PutLine(q: nat, bufEnd: nat, ghost w: seq<byte>) returns (p: nat, lineFeed: bool)
      requires Valid() && q < bufEnd < 1024 && w == buf[q..bufEnd + 1]
      modifies this`start, this`size, this`end, this`chars, this`Logged, lbuf
      ensures Valid() && q <= p <= bufEnd
      ensures NL !in w[..p - q] && (lineFeed <==> p < bufEnd) && (lineFeed ==> w[p - q] == NL)
      ensures Logged == old(Logged) + w[..if lineFeed then p + 1 - q else p - q]
    {
      hide Kept, At;
      p, lineFeed := q, false;
      while p < bufEnd
        invariant Valid() && q <= p <= bufEnd && !lineFeed
        invariant NL !in w[..p - q] && Logged == old(Logged) + w[..p - q]
        invariant buf[..] == old(buf[..])
      {
        PutByte(buf[p]);
        assert w[p - q] == buf[p] && w[..p + 1 - q] == w[..p - q] + [buf[p]];
        if buf[p] == NL {
          lineFeed := true;
          break;
        }
        p := p + 1;
      }
    }

    /** `logbuff_printk`. A missing tag is written over the three bytes before the line, which
        have been logged already or are the slack at the start of the buffer. */
    method Printk(line: seq<byte>) returns (n: nat)
      requires Valid() && |line| <= 1020 && NoNul(line)
      modifies this`start, this`size, this`end, this`chars, this`Logged, this`msgLevel, lbuf, buf
      ensures Valid() && n == |line|
      ensures Logged == old(Logged) + Emit(old(msgLevel), line).0
      ensures msgLevel == Emit(old(msgLevel), line).1
    {
      hide Valid, Emit, Pending, NoNul, ToLog;
      BufferApart();
      ghost var total, level := Logged + Emit(msgLevel, line).0, Emit(msgLevel, line).1;
      ghost var k := 0;
      AllToLog(line);
      CopyIn(line);
      n := |line|;
      var bufEnd, p := 3 + n, 3;
      while p < bufEnd
        invariant Valid() && k <= n && Pending(line, k) && (if k < n then p == 3 + k else p >= bufEnd)
        invariant ToLog(line, k, total, level)
        decreases n - k
      {
        ghost var m;
        p, m := LogNext(line, k, p, bufEnd, total, level);
        k := k + m;
        p := p + 1;
      }
      NoneToLog(line, total, level);
    }

    /** The log will be `total`, and the level `level`, when the text from character k on has been logged. */
    ghost predicate ToLog(line: seq<byte>, k: nat, total: seq<byte>, level: int)
      reads this
    {
      k <= |line| && Logged + Emit(msgLevel, line[k..]).0 == total && Emit(msgLevel, line[k..]).1 == level
    }

    lemma BufferApart()
      requires Valid()
      ensures buf.Length == 1024 && lbuf != buf
    {
    }

    lemma AllToLog(line: seq<byte>)
      ensures ToLog(line, 0, Logged + Emit(msgLevel, line).0, Emit(msgLevel, line).1)
    {
      hide Emit;
      assert line[0..] == line;
    }

    lemma NoneToLog(line: seq<byte>, total: seq<byte>, level: int)
      requires ToLog(line, |line|, total, level)
      ensures Logged == total && msgLevel == level
    {
      hide Emit;
      assert line[|line|..] == [];
      EmitNothing(msgLevel);
      assert Logged + [] == Logged;
    }

    /** The body of the outer loop. */
    method LogNext(line: seq<byte>, ghost k: nat, p0: nat, bufEnd: nat, ghost total: seq<byte>, ghost level: int)
      returns (p: nat, ghost m: nat)
      requires Valid() && k < |line| && NoNul(line) && Pending(line, k) && p0 == 3 + k && bufEnd == 3 + |line|
      requires ToLog(line, k, total, level)
      modifies this`start, this`size, this`end, this`chars, this`Logged, this`msgLevel, lbuf, buf
      ensures Valid() && Pending(line, k + m) && 0 < m <= |line| - k
      ensures if k + m < |line| then p + 1 == 3 + k + m else p + 1 >= bufEnd
      ensures ToLog(line, k + m, total, level)
    {
      hide Valid, Emit, Pending, NoNul, Prefix, LineLevel, FirstLine;
      var lineFeed;
      p, lineFeed, m := LogLine(line, k, p0, bufEnd);
      LineEmitted(old(msgLevel), line, k, m, old(Logged), lineFeed);
      EndLine(lineFeed);
    }

    /** The body of the outer loop but for its end: tag, if it is missing, and text up to the
        newline, `m` characters of it. */
    method LogLine(line: seq<byte>, ghost k: nat, p0: nat, bufEnd: nat) returns (p: nat, lineFeed: bool, ghost m: nat)
      requires Valid() && k < |line| && NoNul(line) && Pending(line, k) && p0 == 3 + k && bufEnd == 3 + |line|
      modifies this`start, this`size, this`end, this`chars, this`Logged, this`msgLevel, lbuf, buf
      ensures Valid() && Pending(line, k + m) && 0 < m <= |line| - k
      ensures p0 + m == if lineFeed then p + 1 else p
      ensures if lineFeed then p < bufEnd else p == bufEnd
      ensures FirstLine(line[k..], m, lineFeed)
      ensures Logged == old(Logged) + (Prefix(old(msgLevel), line[k..]) + line[k..][..m])
      ensures msgLevel == LineLevel(old(msgLevel), line[k..])
    {
      hide Valid, Prefix, LineLevel, NoNul, FirstLine;
      ghost var s := line[k..];
      BufferApart();
      PrefixNoNl(msgLevel, s);
      ghost var pre := Prefix(msgLevel, s);
      var q := StartLine(line, k, p0);
      ghost var w := buf[q..bufEnd + 1];
      Window(w, pre, line, k);
      hide Pending;
      p, lineFeed := PutLine(q, bufEnd, w);
      LineInBuffer(w, pre, s, p - q, lineFeed);
      m := if lineFeed then p + 1 - p0 else p - p0;
      PendingLater(line, k, k + m);
    }

    lemma PendingLater(line: seq<byte>, k: nat, k': nat)
      requires Pending(line, k) && k <= k'
      ensures Pending(line, k')
    {
    }

    method EndLine(lineFeed: bool)
      requires Valid()
      modifies this`msgLevel
      ensures Valid() && msgLevel == if lineFeed then -1 else old(msgLevel)
    {
      if lineFeed {
        msgLevel := -1;
      }
    }

    /** The tag test at the start of a line. */
    method StartLine(line: seq<byte>, ghost k: nat, p0: nat) returns (q: nat)
      requires Valid() && k < |line| && NoNul(line) && Pending(line, k) && p0 == 3 + k
      modifies this`msgLevel, buf
      ensures Valid() && Pending(line, k)
      ensures q + |Prefix(old(msgLevel), line[k..])| == p0
      ensures forall i :: 0 <= i < p0 - q ==> buf[q + i] == Prefix(old(msgLevel), line[k..])[i]
      ensures msgLevel == LineLevel(old(msgLevel), line[k..])
    {
      hide At, Kept;
      q := p0;
      ghost var s := line[k..];
      assert CharAt(line, k) == buf[p0] == s[0];
      assert |s| >= 1 ==> buf[p0 + 1] == CharAt(line, k + 1) == CharAt(s, 1);
      assert |s| >= 2 ==> buf[p0 + 2] == CharAt(line, k + 2) == CharAt(s, 2);
      if msgLevel < 0 {
        if buf[q] != LT || buf[q + 1] < 48 || buf[q + 1] > 55 || buf[q + 2] != GT {
          q := q - 3;
          buf[q] := LT;
          buf[q + 1] := 4 + 48;
          buf[q + 2] := GT;
        }
        msgLevel := buf[q + 1] as int - 48;
      }
    }

    lemma ReadAt(i: nat)
      requires Valid() && i < |Kept(Logged)|
      ensures lbuf.Length == LEN && lbuf[(start + i) % MODULUS % LEN] == Kept(Logged)[i]
    {
      Fold(start + i);
      hide Kept;
    }

    /** The show loop of `do_log`: it masks the size, so a full ring shows nothing. */
    method Show() returns (shown: seq<byte>)
      requires Valid()
      ensures shown == if |Logged| < LEN then Logged else []
    {
      var n := if version2 then (end - start) % MODULUS else size;
      assert n == |Kept(Logged)| <= LEN && (n < LEN ==> n % LEN == n && Kept(Logged) == Logged) && (n == LEN ==> |Logged| >= LEN);
      hide Valid, Kept, At;
      shown := [];
      for i := 0 to n % LEN
        invariant shown == Kept(Logged)[..i]
      {
        ReadAt(i);
        shown := shown + [lbuf[(start + i) % MODULUS % LEN]];
      }
    }
  }

  lemma EndIs(start: word, end: word)
    ensures (start + (end - start) % MODULUS) % MODULUS == end
  {
  }

  lemma SizeGrows(end: word, start: word)
    ensures var n, m := (end - start) % MODULUS, ((end + 1) % MODULUS - start) % MODULUS;
            n + 1 < MODULUS ==> m == n + 1 && ((end + 1) % MODULUS - (start + 1) % MODULUS) % MODULUS == n
  {
  }

  /** One byte more, in the slot behind the newest, is the ring of one byte more. */
  lemma Refill(cells: seq<byte>, s: word, all: seq<byte>, c: byte)
    requires |cells| == LEN && forall i :: 0 <= i < |Kept(all)| ==> cells[At(s, i)] == Kept(all)[i]
    ensures var n := |Kept(all)|;
            var cells', s' := cells[At(s, n) := c], if n < LEN then s else (s + 1) % MODULUS;
      && |Kept(all + [c])| == (if n < LEN then n + 1 else LEN)
      && forall i :: 0 <= i < |Kept(all + [c])| ==> cells'[At(s', i)] == Kept(all + [c])[i]
  {
    var n := |Kept(all)|;
    KeptAppend(all, c);
    hide Kept;
    forall i | 0 <= i < |Kept(all + [c])|
      ensures cells[At(s, n) := c][At(if n < LEN then s else (s + 1) % MODULUS, i)] == Kept(all + [c])[i]
    {
      var k := if n < LEN then i else i + 1;
      StartMoves(s, i);
      if k < n {
        AtDistinct(s, k, n);
      }
      hide At;
      assert k < n ==> cells[At(s, k)] == Kept(all)[k];
    }
  }

  lemma KeptAppend(all: seq<byte>, c: byte)
    ensures var n := |Kept(all)|;
      && n <= LEN && |Kept(all + [c])| == (if n < LEN then n + 1 else LEN)
      && forall i :: 0 <= i < |Kept(all + [c])| ==>
           var k := if n < LEN then i else i + 1;
           Kept(all + [c])[i] == if k < n then Kept(all)[k] else c
  {
  }

  lemma StartMoves(s: word, i: nat)
    ensures At((s + 1) % MODULUS, i) == At(s, i + 1)
  {
    if s + 1 == MODULUS {
      assert MODULUS == LEN * 262144;
      ModMultiple(i, 262144);
    }
  }

  lemma EmitNothing(level: int)
    ensures Emit(level, []) == ([], level)
  {
  }

  /** `m` is the length of the first line of `s`, `lineFeed` whether it is a finished one. */
  predicate FirstLine(s: seq<byte>, m: nat, lineFeed: bool) {
    0 < m <= |s| && NL !in s[..m - 1] && (s[m - 1] == NL <==> lineFeed) && (m < |s| ==> lineFeed)
  }

  /** The buffer from the tag on is the prefix and the text. */
  lemma Window(w: seq<byte>, pre: seq<byte>, line: seq<byte>, k: nat)
    requires k <= |line| && |w| == |pre| + |line| - k + 1
    requires forall i :: 0 <= i < |pre| ==> w[i] == pre[i]
    requires forall i :: k <= i <= |line| ==> w[|pre| + i - k] == CharAt(line, i)
    ensures w == pre + line[k..] + [NUL]
  {
    forall i | 0 <= i < |w|
      ensures w[i] == (pre + line[k..] + [NUL])[i]
    {
      if i >= |pre| {
        assert CharAt(line, i - |pre| + k) == w[i];
      }
    }
  }

  /** The first line of the buffer window is the prefix and the first line of the text. */
  lemma LineInBuffer(w: seq<byte>, pre: seq<byte>, s: seq<byte>, d: nat, lineFeed: bool)
    requires w == pre + s + [NUL] && d < |w| && s != [] && NL !in pre
    requires NL !in w[..d] && (lineFeed <==> d < |w| - 1) && (lineFeed ==> w[d] == NL)
    ensures var m := if lineFeed then d + 1 - |pre| else d - |pre|;
            m > 0 && FirstLine(s, m, lineFeed) && w[..|pre| + m] == pre + s[..m]
  {
    assert lineFeed ==> d >= |pre|;
    var m := if lineFeed then d + 1 - |pre| else d - |pre|;
    assert forall i :: 0 <= i < |s| ==> w[|pre| + i] == s[i];
    assert forall i :: 0 <= i < d ==> w[i] == w[..d][i];
  }

  lemma PrefixNoNl(level: int, s: seq<byte>)
    ensures NL !in Prefix(level, s) && |Prefix(level, s)| <= 3
  {
  }

  lemma LineEmitted(level: int, line: seq<byte>, k: nat, m: nat, logged: seq<byte>, lineFeed: bool)
    requires 0 < m <= |line| - k && FirstLine(line[k..], m, lineFeed)
    ensures var s := line[k..];
            var l := if lineFeed then -1 else LineLevel(level, s);
      && logged + Emit(level, s).0 == logged + (Prefix(level, s) + s[..m]) + Emit(l, line[k + m..]).0
      && Emit(level, s).1 == Emit(l, line[k + m..]).1
  {
    var s := line[k..];
    EmitLine(level, s, m);
    assert s[m..] == line[k + m..];
    hide Emit, Prefix, LineLevel;
    Assoc(logged, Prefix(level, s) + s[..m], Emit(if s[m - 1] == NL then -1 else LineLevel(level, s), s[m..]).0);
  }
}
