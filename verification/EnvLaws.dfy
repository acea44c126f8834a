/** What holds of the environment over single commands, over whole runs and over an enumeration. */
module EnvLaws {
  import opened Bytes
  import opened EnvList
  import opened EnvStore

  // ---------- one command ----------

  /** The variables not called `name`, in their order. */
  function Others(vars: seq<Var>, name: seq<byte>): seq<Var> {
    if vars == [] then []
    else if vars[0].name == name then Others(vars[1..], name)
    else [vars[0]] + Others(vars[1..], name)
  }

  lemma {:induction false} OthersIsAll(vars: seq<Var>, name: seq<byte>)
    requires forall i :: 0 <= i < |vars| ==> vars[i].name != name
    ensures Others(vars, name) == vars
  {
    if vars != [] {
      OthersIsAll(vars[1..], name);
    }
  }

  lemma {:induction false} WithoutIsOthers(vars: seq<Var>, name: seq<byte>)
    requires Unique(vars)
    ensures Without(vars, name) == Others(vars, name)
  {
    if vars != [] {
      var v, rest := vars[0], vars[1..];
      WithoutIsOthers(rest, name);
      if v.name == name {
        OthersIsAll(rest, name);
        assert Remove(vars, 0) == rest;
      } else {
        assert Others(vars, name) == [v] + Others(rest, name);
        hide Others;
        if Find(rest, name).Some? {
          var k := Find(rest, name).value;
          assert Find(vars, name) == Some(k + 1);
          hide Find;
          assert Remove(vars, k + 1) == [v] + Remove(rest, k);
        } else {
          assert Find(vars, name) == None;
        }
      }
    }
  }

  lemma {:induction false} LookupOthers(vars: seq<Var>, name: seq<byte>, n: seq<byte>)
    ensures Lookup(Others(vars, name), n) == if n == name then None else Lookup(vars, n)
  {
    if vars != [] {
      LookupOthers(vars[1..], name, n);
    }
  }

  lemma {:induction false} LookupAppend(vars: seq<Var>, v: Var, n: seq<byte>)
    ensures Lookup(vars + [v], n) ==
            if Lookup(vars, n).Some? then Lookup(vars, n) else if v.name == n then Some(v.value) else None
  {
    if vars != [] {
      LookupAppend(vars[1..], v, n);
      assert (vars + [v])[1..] == vars[1..] + [v];
    } else {
      assert vars + [v] == [v];
      assert [v][1..] == [];
    }
  }

  lemma {:induction false} WithoutWf(vars: seq<Var>, name: seq<byte>)
    requires Wf(vars)
    ensures Wf(Without(vars, name)) && |Image(Without(vars, name))| <= |Image(vars)|
  {
    match Find(vars, name) {
      case None =>
      case Some(k) =>
        RemoveWf(vars, k);
        AtMostAfterRemove(vars, k);
    }
  }

  lemma AtMostAfterRemove(vars: seq<Var>, k: nat)
    requires k < |vars|
    ensures |Image(Remove(vars, k))| <= |Image(vars)|
  {
    EncodeSplit(vars, k);
    EncodeAppend(vars[..k], vars[k + 1..]);
  }

  /** A command changes what is stored under its own name and nothing else; it keeps the order
      of the other variables, puts a stored one last, and is stored exactly when it fits. */
  lemma SetChangesOneName(vars: seq<Var>, size: nat, name: seq<byte>, args: seq<seq<byte>>,
                          consoleOk: bool, baudOk: bool, n: seq<byte>)
    requires Wf(vars)
    ensures var o := Set(vars, size, name, args, consoleOk, baudOk);
            var vars' := After(vars, o);
      && (n != name ==> Lookup(vars', n) == Lookup(vars, n))
      && (o.Stored? ==> Lookup(vars', name) == Some(Join(args))
                        && vars' == Others(vars, name) + [Var(name, Join(args))])
      && (o.Deleted? || o.Overflow? ==> Lookup(vars', name) == None && vars' == Others(vars, name))
      && (o.Stored? || o.Overflow? ==>
            (o.Stored? <==> |Encode(Others(vars, name))| + |name| + 1 + |Join(args)| + 2 <= size))
  {
    WithoutIsOthers(vars, name);
    LookupOthers(vars, name, n);
    LookupOthers(vars, name, name);
    if args != [] {
      var v := Var(name, Join(args));
      LookupAppend(Others(vars, name), v, n);
      LookupAppend(Others(vars, name), v, name);
      AppendImage(Others(vars, name), v);
    }
  }

  /** Whether a command is refused: the name has a '=', it is a console that cannot be given this device or would be
      deleted, or it is set already and may not change, or not to this baud rate. */
  ghost predicate MayNot(vars: seq<Var>, name: seq<byte>, args: seq<seq<byte>>, consoleOk: bool, baudOk: bool) {
    || EQ in name
    || (name in {STDIN, STDOUT, STDERR} && (args == [] || !consoleOk))
    || (Lookup(vars, name).Some? && (name in {SERIAL, ETHADDR} || (name == BAUDRATE && !baudOk)))
  }

  /** The bytes that `name=value` needs behind the variables of other names, with the closing NULs. */
  function Needed(vars: seq<Var>, name: seq<byte>, value: seq<byte>): nat {
    |Encode(Others(vars, name))| + |name| + 1 + |value| + 2
  }

  /** A command on a plain name, or on a guarded one that is not set yet, is never refused: it stores when the text fits
      and deletes when there is no text. */
  lemma NotRefused(vars: seq<Var>, size: nat, name: seq<byte>, args: seq<seq<byte>>, consoleOk: bool, baudOk: bool)
    requires Wf(vars) && EQ !in name && name !in {STDIN, STDOUT, STDERR}
    requires Lookup(vars, name) == None || name !in {SERIAL, ETHADDR, BAUDRATE}
    ensures var o := Set(vars, size, name, args, consoleOk, baudOk);
      if args == [] then o == Deleted(Others(vars, name))
      else if Needed(vars, name, Join(args)) <= size then o == Stored(Others(vars, name) + [Var(name, Join(args))])
      else o == Overflow(Others(vars, name))
  {
    WithoutIsOthers(vars, name);
    SetChangesOneName(vars, size, name, args, consoleOk, baudOk, name);
  }

  /** The commands that leave the list as it is: those refused, those that would delete what is not there or find no
      room for what was not there, and those that store the last variable again as it is. */
  lemma UnchangedIff(vars: seq<Var>, size: nat, name: seq<byte>, args: seq<seq<byte>>, consoleOk: bool, baudOk: bool)
    requires Wf(vars)
    ensures Set(vars, size, name, args, consoleOk, baudOk).Refused? <==> MayNot(vars, name, args, consoleOk, baudOk)
    ensures After(vars, Set(vars, size, name, args, consoleOk, baudOk)) == vars <==>
      || MayNot(vars, name, args, consoleOk, baudOk)
      || (Lookup(vars, name).None? && (args == [] || Needed(vars, name, Join(args)) > size))
      || (args != [] && Needed(vars, name, Join(args)) <= size && vars != [] && vars[|vars| - 1] == Var(name, Join(args)))
  {
    SetChangesOneName(vars, size, name, args, consoleOk, baudOk, name);
    OthersIff(vars, name);
    hide Set, Join, Image, Encode;
    assert Set(vars, size, name, args, consoleOk, baudOk).Refused? <==> MayNot(vars, name, args, consoleOk, baudOk) by {
      RefusedIs(vars, size, name, args, consoleOk, baudOk);
    }
    KindIs(vars, size, name, args, consoleOk, baudOk);
    if args != [] {
      LastAgain(vars, Var(name, Join(args)));
    }
  }

  lemma RefusedIs(vars: seq<Var>, size: nat, name: seq<byte>, args: seq<seq<byte>>, consoleOk: bool, baudOk: bool)
    ensures Set(vars, size, name, args, consoleOk, baudOk).Refused? <==> MayNot(vars, name, args, consoleOk, baudOk)
  {
    hide Join, Image, Without;
  }

  lemma KindIs(vars: seq<Var>, size: nat, name: seq<byte>, args: seq<seq<byte>>, consoleOk: bool, baudOk: bool)
    ensures Set(vars, size, name, args, consoleOk, baudOk).Deleted? ==> args == []
    ensures Set(vars, size, name, args, consoleOk, baudOk).Stored? || Set(vars, size, name, args, consoleOk, baudOk).Overflow? ==> args != []
  {
    hide Join, Image, Without;
  }

  lemma {:induction false} OthersIff(vars: seq<Var>, name: seq<byte>)
    ensures |Others(vars, name)| <= |vars|
    ensures Others(vars, name) == vars <==> Lookup(vars, name).None?
    ensures Lookup(vars, name).Some? ==> |Others(vars, name)| < |vars|
  {
    if vars != [] {
      OthersIff(vars[1..], name);
      assert vars == [vars[0]] + vars[1..];
    }
  }

  /** Taking a variable out and putting it last changes nothing just when it was the last one. */
  lemma LastAgain(vars: seq<Var>, v: Var)
    requires Unique(vars)
    ensures Others(vars, v.name) + [v] == vars <==> vars != [] && vars[|vars| - 1] == v
  {
    hide Others;
    EndsIn(Others(vars, v.name), v, vars);
    if vars != [] && vars[|vars| - 1] == v {
      LastIsApart(vars);
      var init := vars[..|vars| - 1];
      OthersOfLast(init, v);
      EndsIn(init, v, vars);
    }
  }

  lemma EndsIn<T>(init: seq<T>, v: T, s: seq<T>)
    ensures init + [v] == s <==> s != [] && s[|s| - 1] == v && s[..|s| - 1] == init
  {
    if s != [] && s[|s| - 1] == v && s[..|s| - 1] == init {
      assert s == s[..|s| - 1] + [s[|s| - 1]];
    }
  }

  lemma LastIsApart(vars: seq<Var>)
    requires Unique(vars) && vars != []
    ensures var init := vars[..|vars| - 1]; forall i :: 0 <= i < |init| ==> init[i].name != vars[|vars| - 1].name
  {
  }

  lemma {:induction false} OthersOfLast(init: seq<Var>, v: Var)
    requires forall i :: 0 <= i < |init| ==> init[i].name != v.name
    ensures Others(init + [v], v.name) == init
  {
    if init != [] {
      OthersOfLast(init[1..], v);
      assert (init + [v])[1..] == init[1..] + [v];
    } else {
      assert [v][1..] == [];
    }
  }

  // ---------- whole runs ----------

  datatype Command = Command(name: seq<byte>, args: seq<seq<byte>>, consoleOk: bool, baudOk: bool) {
    /** What C strings guarantee. */
    predicate Wf() {
      NoNul(name) && forall i :: 0 <= i < |args| ==> NoNul(args[i])
    }
  }

  function Step(vars: seq<Var>, size: nat, c: Command): seq<Var> {
    After(vars, Set(vars, size, c.name, c.args, c.consoleOk, c.baudOk))
  }

  function Run(vars: seq<Var>, size: nat, cs: seq<Command>): seq<Var>
    decreases |cs|
  {
    if cs == [] then vars else Run(Step(vars, size, cs[0]), size, cs[1..])
  }

  lemma StepKeeps(vars: seq<Var>, size: nat, c: Command)
    requires Wf(vars) && |Image(vars)| <= size && c.Wf()
    ensures Wf(Step(vars, size, c)) && |Image(Step(vars, size, c))| <= size
    ensures forall n :: n in {SERIAL, ETHADDR} && Lookup(vars, n).Some? ==> Lookup(Step(vars, size, c), n) == Lookup(vars, n)
  {
    var o := Set(vars, size, c.name, c.args, c.consoleOk, c.baudOk);
    forall n | n in {SERIAL, ETHADDR} && Lookup(vars, n).Some?
      ensures Lookup(Step(vars, size, c), n) == Lookup(vars, n)
    {
      SetChangesOneName(vars, size, c.name, c.args, c.consoleOk, c.baudOk, n);
    }
    if !o.Refused? {
      WithoutWf(vars, c.name);
      if o.Stored? {
        JoinNoNul(c.args);
        WithoutForgets(vars, c.name);
        AppendWf(Without(vars, c.name), Var(c.name, Join(c.args)));
      }
    }
  }

  /** After any sequence of commands, accepted or not, the list is still well formed, has unique
      names and fits; a serial number or Ethernet address that was set never changes again. */
  lemma {:induction false} RunKeeps(vars: seq<Var>, size: nat, cs: seq<Command>)
    requires Wf(vars) && |Image(vars)| <= size
    requires forall i :: 0 <= i < |cs| ==> cs[i].Wf()
    ensures Wf(Run(vars, size, cs)) && |Image(Run(vars, size, cs))| <= size
    ensures forall n :: n in {SERIAL, ETHADDR} && Lookup(vars, n).Some? ==> Lookup(Run(vars, size, cs), n) == Lookup(vars, n)
    decreases |cs|
  {
    if cs != [] {
      StepKeeps(vars, size, cs[0]);
      RunKeeps(Step(vars, size, cs[0]), size, cs[1..]);
    }
  }

  lemma {:induction false} RunAppend(vars: seq<Var>, size: nat, cs: seq<Command>, ds: seq<Command>)
    ensures Run(vars, size, cs + ds) == Run(Run(vars, size, cs), size, ds)
    decreases |cs|
  {
    if cs == [] {
      assert cs + ds == ds;
    } else {
      assert (cs + ds)[1..] == cs[1..] + ds;
      RunAppend(Step(vars, size, cs[0]), size, cs[1..], ds);
    }
  }

  lemma StepLookup(vars: seq<Var>, size: nat, c: Command, n: seq<byte>)
    requires Wf(vars)
    ensures n != c.name ==> Lookup(Step(vars, size, c), n) == Lookup(vars, n)
    ensures Set(vars, size, c.name, c.args, c.consoleOk, c.baudOk).Stored? ==>
              Lookup(Step(vars, size, c), c.name) == Some(Join(c.args))
  {
    SetChangesOneName(vars, size, c.name, c.args, c.consoleOk, c.baudOk, n);
  }

  lemma {:induction false} OthersUntouched(vars: seq<Var>, size: nat, cs: seq<Command>, n: seq<byte>)
    requires Wf(vars) && |Image(vars)| <= size
    requires forall i :: 0 <= i < |cs| ==> cs[i].Wf() && cs[i].name != n
    ensures Lookup(Run(vars, size, cs), n) == Lookup(vars, n)
    decreases |cs|
  {
    if cs != [] {
      StepLookup(vars, size, cs[0], n);
      StepKeeps(vars, size, cs[0]);
      OthersUntouched(Step(vars, size, cs[0]), size, cs[1..], n);
    }
  }

  /** What `getenv` finds after a run is what the last command on that name left, if it was stored. */
  lemma LastCommandWins(vars: seq<Var>, size: nat, cs: seq<Command>, c: Command, later: seq<Command>)
    requires Wf(vars) && |Image(vars)| <= size && c.Wf()
    requires forall i :: 0 <= i < |cs| ==> cs[i].Wf()
    requires forall i :: 0 <= i < |later| ==> later[i].Wf() && later[i].name != c.name
    requires Set(Run(vars, size, cs), size, c.name, c.args, c.consoleOk, c.baudOk).Stored?
    ensures Lookup(Run(vars, size, cs + ([c] + later)), c.name) == Some(Join(c.args))
  {
    RunKeeps(vars, size, cs);
    RunAppend(vars, size, cs, [c] + later);
    var mid := Run(vars, size, cs);
    StepLookup(mid, size, c, c.name);
    StepKeeps(mid, size, c);
    OthersUntouched(Step(mid, size, c), size, later, c.name);
    assert ([c] + later)[1..] == later;
    assert Run(mid, size, [c] + later) == Run(Step(mid, size, c), size, later);
  }

  // ---------- the value of several arguments ----------

  /** The text cut at every space. */
  function Split(s: seq<byte>): (r: seq<seq<byte>>)
    ensures r != []
  {
    if s == [] then [[]]
    else if s[|s| - 1] == SPACE then Split(s[..|s| - 1]) + [[]]
    else var r := Split(s[..|s| - 1]); r[..|r| - 1] + [r[|r| - 1] + [s[|s| - 1]]]
  }

  lemma {:induction false} SplitWord(s: seq<byte>, w: seq<byte>)
    requires SPACE !in w
    ensures var r := Split(s); Split(s + w) == r[..|r| - 1] + [r[|r| - 1] + w]
    decreases |w|
  {
    var r := Split(s);
    if w == [] {
      assert s + w == s && r[|r| - 1] + w == r[|r| - 1];
    } else {
      var init, c := w[..|w| - 1], w[|w| - 1];
      assert w == init + [c] && c in w;
      assert (s + w)[..|s + w| - 1] == s + init;
      SplitWord(s, init);
      assert r[|r| - 1] + init + [c] == r[|r| - 1] + w;
    }
  }

  /** The arguments can be read off the stored value: they stand there in order with one space between two. */
  lemma {:induction false} SplitJoin(args: seq<seq<byte>>)
    requires args != [] && forall i :: 0 <= i < |args| ==> SPACE !in args[i]
    ensures Split(Join(args)) == args
    decreases |args|
  {
    var init, last := args[..|args| - 1], args[|args| - 1];
    assert args == init + [last] && (forall i :: 0 <= i < |init| ==> init[i] == args[i]);
    hide Split;
    if init == [] {
      OneWord(last);
    } else {
      SplitJoin(init);
      SplitStep(init, last);
    }
  }

  lemma OneWord(w: seq<byte>)
    requires SPACE !in w
    ensures Split(w) == [w]
  {
    SplitWord([], w);
    assert [] + w == w;
  }

  lemma SplitStep(init: seq<seq<byte>>, last: seq<byte>)
    requires init != [] && Split(Join(init)) == init && SPACE !in last
    ensures Split(Join(init) + [SPACE] + last) == init + [last]
  {
    SplitSpace(Join(init));
    hide Split, Join;
    SplitWord(Join(init) + [SPACE], last);
    OneMore(init, last);
  }

  lemma SplitSpace(s: seq<byte>)
    ensures Split(s + [SPACE]) == Split(s) + [[]]
  {
    assert (s + [SPACE])[..|s|] == s;
  }

  lemma OneMore(init: seq<seq<byte>>, last: seq<byte>)
    ensures var r := init + [[]]; r[..|r| - 1] + [r[|r| - 1] + last] == init + [last]
  {
    assert [] + last == last;
  }

  // ---------- enumeration ----------

  function CString(s: seq<byte>, i: nat): seq<byte>
    decreases |s| - i
  {
    if i >= |s| || s[i] == NUL then [] else [s[i]] + CString(s, i + 1)
  }

  lemma {:induction false} CStringIs(s: seq<byte>, i: nat, t: seq<byte>)
    requires NoNul(t) && i + |t| < |s| && s[i..i + |t| + 1] == t + [NUL]
    ensures CString(s, i) == t
    decreases |t|
  {
    assert s[i] == s[i..i + |t| + 1][0];
    if t != [] {
      assert s[i + 1..i + |t| + 1] == s[i..i + |t| + 1][1..];
      CStringIs(s, i + 1, t[1..]);
    }
  }

  /** The strings a client sees that calls `API_env_enum` at most `calls` times, feeding back each
      result, until it gets NULL (or its own argument back). */
  function Enumerate(vars: seq<Var>, last: Option<seq<byte>>, calls: nat): seq<seq<byte>>
    decreases calls
  {
    if calls == 0 then []
    else match Successor(vars, last)
         case At(i) => var t := CString(Image(vars), i); [t] + Enumerate(vars, Some(t), calls - 1)
         case _ => []
  }

  /** The stored strings from the k-th on. */
  function Texts(vars: seq<Var>, k: nat): seq<seq<byte>>
    decreases |vars| - k
  {
    if k >= |vars| then [] else [vars[k].Text()] + Texts(vars, k + 1)
  }

  lemma SuccessorOf(vars: seq<Var>, k: nat)
    requires Wf(vars) && k < |vars|
    ensures Successor(vars, Some(vars[k].Text())) == if k + 1 == |vars| then End else At(Offset(vars, k + 1))
    ensures CString(Image(vars), Offset(vars, k)) == vars[k].Text()
  {
    KeyOfText(vars[k].name, vars[k].value);
    FindUnique(vars, k);
    EntryBytes(vars, k);
    CStringIs(Image(vars), Offset(vars, k), vars[k].Text());
  }

  lemma EnumerateStep(vars: seq<Var>, k: nat, calls: nat)
    requires Wf(vars) && k < |vars| && calls > 0
    ensures k + 1 == |vars| ==> Enumerate(vars, Some(vars[k].Text()), calls) == []
    ensures k + 1 < |vars| ==>
              Enumerate(vars, Some(vars[k].Text()), calls)
              == [vars[k + 1].Text()] + Enumerate(vars, Some(vars[k + 1].Text()), calls - 1)
  {
    hide Successor, CString, Image, Encode;
    SuccessorOf(vars, k);
    if k + 1 < |vars| {
      SuccessorOf(vars, k + 1);
    }
  }

  lemma {:induction false} EnumerateFrom(vars: seq<Var>, k: nat, calls: nat)
    requires Wf(vars) && k < |vars| && calls >= |vars| - k
    ensures Enumerate(vars, Some(vars[k].Text()), calls) == Texts(vars, k + 1)
    decreases |vars| - k
  {
    hide Successor, CString, Image;
    EnumerateStep(vars, k, calls);
    if k + 1 < |vars| {
      EnumerateFrom(vars, k + 1, calls - 1);
    }
  }

  lemma EnumerateFirst(vars: seq<Var>, calls: nat)
    requires Wf(vars) && vars != [] && calls > 0
    ensures Enumerate(vars, None, calls) == [vars[0].Text()] + Enumerate(vars, Some(vars[0].Text()), calls - 1)
  {
    SuccessorOf(vars, 0);
    assert vars[..0] == [];
  }

  /** From NULL the enumeration visits every variable once, in stored order, and then yields NULL. */
  lemma EnumerationVisitsAll(vars: seq<Var>, calls: nat)
    requires Wf(vars) && vars != [] && calls > |vars|
    ensures Enumerate(vars, None, calls) == Texts(vars, 0)
  {
    hide Successor, CString, Image;
    var rest := Enumerate(vars, Some(vars[0].Text()), calls - 1);
    assert Enumerate(vars, None, calls) == [vars[0].Text()] + rest by { EnumerateFirst(vars, calls); }
    assert rest == Texts(vars, 1) by { EnumerateFrom(vars, 0, calls - 1); }
  }

  lemma EnumerationEnds(vars: seq<Var>)
    requires Wf(vars) && vars != []
    ensures Successor(vars, Some(vars[|vars| - 1].Text())) == End
  {
    SuccessorOf(vars, |vars| - 1);
  }

  /** An unknown name gets its own argument back, so that the client cannot tell it from a success; every known one gets
      another answer. */
  lemma SameIff(vars: seq<Var>, last: seq<byte>)
    ensures Successor(vars, Some(last)) == Same <==> forall i :: 0 <= i < |vars| ==> vars[i].name != Key(last)
  {
  }

  /** Nothing is enumerated as one empty string: NULL comes only behind a last variable. */
  lemma EnumerationOfNothing(calls: nat)
    requires calls > 1
    ensures Enumerate([], None, calls) == [[]]
  {
    assert CString(Image([]), 0) == [];
    assert Enumerate([], Some([]), calls - 1) == [];
  }

  // ---------- getenv_r ----------

  /** What a bounded copy owes its caller: the value and its NUL, and no byte beyond. */
  predicate CopiedSafely(before: seq<byte>, after: seq<byte>, v: seq<byte>, len: nat) {
    && |before| == |after|
    && |v| + 1 <= len <= |before|
    && after == v + [NUL] + before[|v| + 1..]
  }

  /** `getenv_r` meets it exactly when the value leaves one byte of `len` to spare (or the byte
      past `len` happened to be NUL already); otherwise it writes past `len` or does not terminate. */
  lemma GetEnvRSafeIff(before: seq<byte>, v: seq<byte>, len: nat)
    requires len < |before| && NoNul(v)
    ensures CopiedSafely(before, CopiedOut(before, v, len), v, len)
            <==> |v| + 1 < len || (|v| + 1 == len && before[len] == NUL)
    ensures |v| >= len ==> CopiedOut(before, v, len) == v[..len] + before[len..]
    ensures |v| + 1 == len ==> CopiedOut(before, v, len)[len] == NUL
    ensures CopiedCount(v, len) == |v| + 1 <==> |v| <= len
  {
    if |v| + 1 == len {
      var out := CopiedOut(before, v, len);
      assert out[len] == NUL;
      assert before[|v| + 1..][0] == before[len];
      assert (v + [NUL] + before[|v| + 1..])[len] == before[len];
      if before[len] == NUL {
        assert out == v + [NUL] + before[|v| + 1..];
      }
    }
  }
}
