/** The line tagger of cmd_log.c: which bytes a call logs, and the tag state it leaves. */
module LogText {
  import opened Bytes

  const LT: byte := 60        // '<'
  const GT: byte := 62        // '>'
  const NL: byte := 10

  /** "<4>", the tag of default_message_loglevel. */
  const DEFAULT_TAG: seq<byte> := [LT, 52, GT]

  predicate HasTag(s: seq<byte>) {
    |s| >= 3 && s[0] == LT && 48 <= s[1] <= 55 && s[2] == GT
  }

  /** The level in force for the line that `s` continues, or starts when `level` is negative. */
  function LineLevel(level: int, s: seq<byte>): (l: int)
    ensures l >= 0
  {
    if level >= 0 then level else if HasTag(s) then s[1] - 48 else 4
  }

  function Prefix(level: int, s: seq<byte>): seq<byte> {
    if level < 0 && !HasTag(s) then DEFAULT_TAG else []
  }

  function NextLevel(level: int, s: seq<byte>): int
    requires s != []
  {
    if s[0] == NL then -1 else LineLevel(level, s)
  }

  /** Everything a call with text `s` logs, and the level it leaves; -1 says that a line starts. */
  function Emit(level: int, s: seq<byte>): (seq<byte>, int)
    decreases |s|
  {
    if s == [] then ([], level)
    else
      var (out, l) := Emit(NextLevel(level, s), s[1..]);
      (Prefix(level, s) + [s[0]] + out, l)
  }

  // ---------- every line gets exactly one tag ----------

  /** The lines of `s`, each with its newline; only the last may lack one. */
  function Lines(s: seq<byte>): (ls: seq<seq<byte>>)
    ensures s != [] ==> ls != []
    decreases |s|
  {
    if s == [] then []
    else
      var rest := Lines(s[1..]);
      if s[0] == NL || rest == [] then [[s[0]]] + rest
      else [[s[0]] + rest[0]] + rest[1..]
  }

  function Concat(ls: seq<seq<byte>>): seq<byte> {
    if ls == [] then [] else ls[0] + Concat(ls[1..])
  }

  /** A line with its own tag stays as it is, any other gets the default tag. */
  function Tagged(line: seq<byte>): (t: seq<byte>)
    ensures HasTag(t)
  {
    if HasTag(line) then line else DEFAULT_TAG + line
  }

  function TagAll(ls: seq<seq<byte>>): seq<seq<byte>> {
    if ls == [] then [] else [Tagged(ls[0])] + TagAll(ls[1..])
  }

  lemma {:induction false} LinesOf(s: seq<byte>)
    ensures Concat(Lines(s)) == s
    decreases |s|
  {
    if s != [] {
      LinesOf(s[1..]);
      var rest := Lines(s[1..]);
      if s[0] != NL && rest != [] {
        assert Lines(s)[1..] == rest[1..];
        assert [s[0]] + rest[0] + Concat(rest[1..]) == [s[0]] + (rest[0] + Concat(rest[1..]));
      }
    }
  }

  /** Newlines end lines: none inside one, and one at the end of every line but the last. */
  lemma {:induction false} LinesEnd(s: seq<byte>, i: nat, j: nat)
    requires i < |Lines(s)| && j < |Lines(s)[i]|
    ensures Lines(s)[i][j] == NL ==> j == |Lines(s)[i]| - 1
    ensures i < |Lines(s)| - 1 && j == |Lines(s)[i]| - 1 ==> Lines(s)[i][j] == NL
    decreases |s|
  {
    var rest := Lines(s[1..]);
    if s[0] == NL || rest == [] {
      if i > 0 {
        LinesEnd(s[1..], i - 1, j);
      }
    } else if i > 0 {
      LinesEnd(s[1..], i, j);
    } else if j > 0 {
      LinesEnd(s[1..], 0, j - 1);
    } else {
      LinesNonEmpty(s[1..], 0);
    }
  }

  lemma {:induction false} LinesNonEmpty(s: seq<byte>, i: nat)
    requires i < |Lines(s)|
    ensures Lines(s)[i] != []
    decreases |s|
  {
    var rest := Lines(s[1..]);
    if i > 0 {
      LinesNonEmpty(s[1..], if s[0] == NL || rest == [] then i - 1 else i);
    }
  }

  /** A tag holds no newline, so a text has one exactly when its first line has. */
  lemma FirstLineTag(s: seq<byte>)
    requires s != []
    ensures HasTag(s) <==> HasTag(Lines(s)[0])
    ensures Lines(s)[0] != [] && Lines(s)[0][0] == s[0]
  {
    LineStart(s, 1);
    LineStart(s, 2);
    LineStart(s, 3);
  }

  lemma {:induction false} LineStart(s: seq<byte>, k: nat)
    requires 0 < k && s != []
    ensures var l := Lines(s)[0];
      && l != [] && l[0] == s[0]
      && (|s| >= k && NL !in s[..k - 1] ==> |l| >= k && l[k - 1] == s[k - 1])
      && (|l| >= k ==> |s| >= k && l[k - 1] == s[k - 1] && NL !in s[..k - 1])
    decreases k
  {
    if k > 1 && |s| > 1 {
      LineStart(s[1..], k - 1);
      assert |s| >= k ==> s[..k - 1] == [s[0]] + s[1..][..k - 2];
    }
  }

  /** The log is the lines of the text, the first continuing the line under way if there is one,
      and every other with its own tag if it brings one and with one default tag if not. */
  lemma {:induction false} EmitTagsLines(level: int, s: seq<byte>)
    requires s != []
    ensures Emit(level, s).0
            == (if level < 0 then Tagged(Lines(s)[0]) else Lines(s)[0]) + Concat(TagAll(Lines(s)[1..]))
    decreases |s|
  {
    FirstLineTag(s);
    if |s| > 1 {
      EmitTagsLines(NextLevel(level, s), s[1..]);
      if s[0] == NL {
        EmitNewline(level, s);
      } else {
        EmitOn(level, s);
      }
    } else {
      assert s[1..] == [];
      assert Lines(s) == [[s[0]]];
    }
  }

  /** A text that begins with a newline: the line is over, and the next one brings its own tag. */
  lemma EmitNewline(level: int, s: seq<byte>)
    requires |s| > 1 && s[0] == NL && (HasTag(s) <==> HasTag(Lines(s)[0]))
    requires var rest := Lines(s[1..]); Emit(NextLevel(level, s), s[1..]).0 == Tagged(rest[0]) + Concat(TagAll(rest[1..]))
    ensures Emit(level, s).0
            == (if level < 0 then Tagged(Lines(s)[0]) else Lines(s)[0]) + Concat(TagAll(Lines(s)[1..]))
  {
    var rest := Lines(s[1..]);
    assert Lines(s) == [[NL]] + rest && Lines(s)[1..] == rest;
    hide Lines, Emit, HasTag, Tagged;
    TagAllHead(rest);
    EmitHead(level, s);
    hide Concat, TagAll, Prefix;
    PrefixTags(level, s, Lines(s)[0]);
  }

  /** One that does not: its first character belongs to the line it starts or continues. */
  lemma EmitOn(level: int, s: seq<byte>)
    requires |s| > 1 && s[0] != NL && (HasTag(s) <==> HasTag(Lines(s)[0]))
    requires var rest := Lines(s[1..]); Emit(NextLevel(level, s), s[1..]).0 == rest[0] + Concat(TagAll(rest[1..]))
    ensures Emit(level, s).0
            == (if level < 0 then Tagged(Lines(s)[0]) else Lines(s)[0]) + Concat(TagAll(Lines(s)[1..]))
  {
    var rest := Lines(s[1..]);
    assert Lines(s) == [[s[0]] + rest[0]] + rest[1..] && Lines(s)[1..] == rest[1..];
    hide Lines, Emit, HasTag, Tagged, Concat, TagAll;
    EmitHead(level, s);
    hide Prefix;
    PrefixTags(level, s, Lines(s)[0]);
    Regroup(Prefix(level, s), [s[0]], rest[0], Concat(TagAll(rest[1..])));
  }

  lemma EmitHead(level: int, s: seq<byte>)
    requires s != []
    ensures Emit(level, s).0 == Prefix(level, s) + [s[0]] + Emit(NextLevel(level, s), s[1..]).0
  {
  }

  lemma TagAllHead(ls: seq<seq<byte>>)
    requires ls != []
    ensures Concat(TagAll(ls)) == Tagged(ls[0]) + Concat(TagAll(ls[1..]))
  {
    hide Tagged;
    assert TagAll(ls) == [Tagged(ls[0])] + TagAll(ls[1..]);
    assert TagAll(ls)[1..] == TagAll(ls[1..]);
  }

  lemma PrefixTags(level: int, s: seq<byte>, line: seq<byte>)
    requires HasTag(s) <==> HasTag(line)
    ensures Prefix(level, s) + line == if level < 0 then Tagged(line) else line
  {
  }

  lemma Regroup(a: seq<byte>, b: seq<byte>, c: seq<byte>, d: seq<byte>)
    ensures a + b + (c + d) == a + (b + c) + d
  {
  }

  /** The tags are "<0>" to "<7>". */
  lemma TagIff(s: seq<byte>)
    ensures HasTag(s) <==> (
      && |s| >= 3
      && s[..3] in {[60, 48, 62], [60, 49, 62], [60, 50, 62], [60, 51, 62], [60, 52, 62], [60, 53, 62], [60, 54, 62], [60, 55, 62]})
  {
    if |s| >= 3 {
      assert s[..3] == [s[0], s[1], s[2]];
    }
  }

  /** The level a text leaves: none at the end of a line, else the digit in the tag of the line under way. */
  lemma {:induction false} LevelLeft(level: int, s: seq<byte>)
    requires s != []
    ensures var ls := Lines(s);
      Emit(level, s).1 == if s[|s| - 1] == NL then (-1) else if |ls| == 1 && level >= 0 then level
                          else Tagged(ls[|ls| - 1])[1] - 48
    decreases |s|
  {
    var rest := Lines(s[1..]);
    if |s| > 1 {
      LevelLeft(NextLevel(level, s), s[1..]);
      FirstLineTag(s);
      LineStart(s, 2);
      assert s[1..][|s| - 2] == s[|s| - 1];
      assert Emit(level, s).1 == Emit(NextLevel(level, s), s[1..]).1;
      hide Emit;
      if s[0] == NL {
        assert Lines(s) == [[NL]] + rest;
      } else {
        assert Lines(s) == [[s[0]] + rest[0]] + rest[1..];
      }
    } else {
      assert s[1..] == [] && Lines(s) == [[s[0]]];
    }
  }

  // ---------- chunking ----------

  predicate StartsLine(level: int, a: seq<byte>, k: nat)
    requires k <= |a|
  {
    if k == 0 then level < 0 else a[k - 1] == NL
  }

  predicate CutTag(a: seq<byte>, b: seq<byte>, k: nat)
    requires k <= |a|
  {
    !HasTag(a[k..]) && HasTag(a[k..] + b)
  }

  /** The border between `a` and `b` lies inside a level tag at the start of a line. */
  predicate SplitsTag(level: int, a: seq<byte>, b: seq<byte>) {
    exists k :: 0 <= k < |a| && StartsLine(level, a, k) && CutTag(a, b, k)
  }

  function Then(level: int, a: seq<byte>, b: seq<byte>): (seq<byte>, int) {
    var (oa, la) := Emit(level, a);
    var (ob, lb) := Emit(la, b);
    (oa + ob, lb)
  }

  lemma SplitsStep(level: int, a: seq<byte>, b: seq<byte>)
    requires a != []
    ensures SplitsTag(level, a, b) <==> (level < 0 && CutTag(a, b, 0)) || SplitsTag(NextLevel(level, a), a[1..], b)
  {
    var l, r := NextLevel(level, a), a[1..];
    assert a[0..] == a;
    hide HasTag;
    forall k | 0 <= k < |r|
      ensures StartsLine(l, r, k) == StartsLine(level, a, k + 1) && CutTag(r, b, k) == CutTag(a, b, k + 1)
    {
      assert r[k..] == a[k + 1..];
    }
    if SplitsTag(level, a, b) {
      var k :| 0 <= k < |a| && StartsLine(level, a, k) && CutTag(a, b, k);
      assert k > 0 ==> StartsLine(l, r, k - 1) && CutTag(r, b, k - 1);
    }
    if SplitsTag(l, r, b) {
      var k :| 0 <= k < |r| && StartsLine(l, r, k) && CutTag(r, b, k);
      assert StartsLine(level, a, k + 1) && CutTag(a, b, k + 1);
    }
  }

  /** How much is logged depends on whether a line starts, not on the level. */
  lemma {:induction false} SameLength(l: int, l': int, s: seq<byte>)
    requires l < 0 <==> l' < 0
    ensures |Emit(l, s).0| == |Emit(l', s).0| && (Emit(l, s).1 < 0 <==> Emit(l', s).1 < 0)
    decreases |s|
  {
    if s != [] {
      SameLength(NextLevel(l, s), NextLevel(l', s), s[1..]);
    }
  }

  lemma SamePrefix(t: seq<byte>, x: seq<byte>, y: seq<byte>)
    ensures t + x == t + y <==> x == y
  {
    assert (t + x)[|t|..] == x && (t + y)[|t|..] == y;
  }

  lemma EmitStep(level: int, a: seq<byte>, b: seq<byte>)
    requires a != []
    ensures Then(level, a, b)
            == (Prefix(level, a) + [a[0]] + Then(NextLevel(level, a), a[1..], b).0, Then(NextLevel(level, a), a[1..], b).1)
    ensures Emit(level, a + b)
            == (Prefix(level, a + b) + [a[0]] + Emit(NextLevel(level, a + b), a[1..] + b).0,
                Emit(NextLevel(level, a + b), a[1..] + b).1)
  {
    hide Prefix, NextLevel;
    assert (a + b)[1..] == a[1..] + b;
    var (oa, la) := Emit(NextLevel(level, a), a[1..]);
    var (ob, lb) := Emit(la, b);
    assert Prefix(level, a) + [a[0]] + oa + ob == Prefix(level, a) + [a[0]] + (oa + ob);
  }

  /** A text logged in two calls or in one differs at most in default tags, and does so when a tag is cut. */
  lemma {:induction false} ThenLonger(level: int, l': int, a: seq<byte>, b: seq<byte>)
    requires level < 0 <==> l' < 0
    ensures |Then(level, a, b).0| >= |Emit(l', a + b).0|
    ensures SplitsTag(level, a, b) ==> |Then(level, a, b).0| > |Emit(l', a + b).0|
    decreases |a|
  {
    if a == [] {
      assert a + b == b;
      SameLength(level, l', b);
    } else {
      SplitsStep(level, a, b);
      EmitStep(level, a, b);
      EmitStep(l', a, b);
      hide Then, Emit, SplitsTag;
      assert HasTag(a) ==> HasTag(a + b);
      assert a[0..] == a;
      ThenLonger(NextLevel(level, a), NextLevel(l', a + b), a[1..], b);
    }
  }

  /** Logging does not depend on how the text is cut into calls, if and only if no cut lies inside
      a level tag. */
  lemma {:induction false} ChunkingIff(level: int, a: seq<byte>, b: seq<byte>)
    ensures Then(level, a, b) == Emit(level, a + b) <==> !SplitsTag(level, a, b)
    decreases |a|
  {
    if a == [] {
      assert a + b == b && [] + Emit(level, b).0 == Emit(level, b).0;
    } else {
      SplitsStep(level, a, b);
      EmitStep(level, a, b);
      ChunkingIff(NextLevel(level, a), a[1..], b);
      assert a[0..] == a;
      hide Then, Emit, SplitsTag;
      if level < 0 && CutTag(a, b, 0) {
        ThenLonger(NextLevel(level, a), NextLevel(level, a + b), a[1..], b);
        assert |Then(level, a, b).0| > |Emit(level, a + b).0|;
      } else {
        assert level < 0 ==> (HasTag(a) <==> HasTag(a + b));
        assert Prefix(level, a) == Prefix(level, a + b) && NextLevel(level, a) == NextLevel(level, a + b);
        var t, x, y := Prefix(level, a) + [a[0]], Then(NextLevel(level, a), a[1..], b), Emit(NextLevel(level, a), a[1..] + b);
        SamePrefix(t, x.0, y.0);
      }
    }
  }

  /** A whole line at once. */
  lemma {:induction false} EmitLine(level: int, s: seq<byte>, n: nat)
    requires 0 < n <= |s| && NL !in s[..n - 1] && (n < |s| ==> s[n - 1] == NL)
    ensures var l := if s[n - 1] == NL then -1 else LineLevel(level, s);
            Emit(level, s) == (Prefix(level, s) + s[..n] + Emit(l, s[n..]).0, Emit(l, s[n..]).1)
    decreases n
  {
    if n > 1 {
      var l := LineLevel(level, s);
      assert s[..n - 1][0] == s[0];
      assert s[1..][..n - 2] == s[..n - 1][1..];
      EmitLine(l, s[1..], n - 1);
      assert s[1..][n - 1..] == s[n..] && s[..n] == [s[0]] + s[1..][..n - 1];
      var rest := Emit(if s[n - 1] == NL then -1 else l, s[n..]).0;
      hide *;
      Join4(Prefix(level, s), [s[0]], s[1..][..n - 1], rest);
    } else {
      assert s[..1] == [s[0]];
    }
  }

  lemma Join4(a: seq<byte>, b: seq<byte>, c: seq<byte>, d: seq<byte>)
    ensures a + b + ([] + c + d) == a + (b + c) + d
  {
  }

  /** Several calls one after the other. */
  function Calls(level: int, texts: seq<seq<byte>>): (seq<byte>, int)
    decreases |texts|
  {
    if texts == [] then ([], level)
    else
      var (out, l) := Emit(level, texts[0]);
      var (more, l') := Calls(l, texts[1..]);
      (out + more, l')
  }

  /** No border between two of the calls lies inside a level tag. */
  predicate CutsClean(level: int, texts: seq<seq<byte>>)
    decreases |texts|
  {
    texts == [] || (!SplitsTag(level, texts[0], Concat(texts[1..])) && CutsClean(Emit(level, texts[0]).1, texts[1..]))
  }

  /** Any number of calls log what one call on the whole text logs if and only if no border cuts a tag. */
  lemma {:induction false} ManyCallsIff(level: int, texts: seq<seq<byte>>)
    ensures Calls(level, texts) == Emit(level, Concat(texts)) <==> CutsClean(level, texts)
    ensures |Calls(level, texts).0| >= |Emit(level, Concat(texts)).0|
    ensures !CutsClean(level, texts) ==> |Calls(level, texts).0| > |Emit(level, Concat(texts)).0|
    decreases |texts|
  {
    if texts != [] {
      var t, rest := texts[0], Concat(texts[1..]);
      var l := Emit(level, t).1;
      ManyCallsIff(l, texts[1..]);
      ChunkingIff(level, t, rest);
      ThenLonger(level, level, t, rest);
      assert |Then(level, t, rest).0| == |Emit(level, t).0| + |Emit(l, rest).0|;
      assert |Calls(level, texts).0| == |Emit(level, t).0| + |Calls(l, texts[1..]).0|;
      hide Emit, SplitsTag;
    }
  }
}
