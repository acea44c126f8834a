/** `_do_setenv`, `getenv`, `getenv_r`, `envmatch` and `API_env_enum` on the flat byte array. */
module EnvStore {
  import opened Bytes
  import opened EnvList

  // ---------- what the operations mean on the list ----------

  const SERIAL: seq<byte> := [115, 101, 114, 105, 97, 108, 35]           // serial#
  const ETHADDR: seq<byte> := [101, 116, 104, 97, 100, 100, 114]         // ethaddr
  const BAUDRATE: seq<byte> := [98, 97, 117, 100, 114, 97, 116, 101]     // baudrate
  const STDIN: seq<byte> := [115, 116, 100, 105, 110]
  const STDOUT: seq<byte> := [115, 116, 100, 111, 117, 116]
  const STDERR: seq<byte> := [115, 116, 100, 101, 114, 114]

  /** The part of `s` before its first '='; all of it if there is none. */
  function Key(s: seq<byte>): seq<byte> {
    if s == [] || s[0] == EQ then [] else [s[0]] + Key(s[1..])
  }

  /** Position of the variable called `name`. */
  function Find(vars: seq<Var>, name: seq<byte>): (r: Option<nat>)
    ensures r.Some? ==> r.value < |vars| && vars[r.value].name == name
    ensures r.None? ==> forall i :: 0 <= i < |vars| ==> vars[i].name != name
  {
    if vars == [] then None
    else if vars[0].name == name then Some(0)
    else match Find(vars[1..], name) case None => None case Some(i) => Some(i + 1)
  }

  function Lookup(vars: seq<Var>, name: seq<byte>): Option<seq<byte>> {
    match Find(vars, name) case None => None case Some(i) => Some(vars[i].value)
  }

  function Remove(vars: seq<Var>, k: nat): seq<Var>
    requires k < |vars|
  {
    vars[..k] + vars[k + 1..]
  }

  /** The list without the variable called `name`, if there is one. */
  function Without(vars: seq<Var>, name: seq<byte>): seq<Var> {
    match Find(vars, name) case None => vars case Some(k) => Remove(vars, k)
  }

  /** The arguments separated by single spaces. */
  function Join(args: seq<seq<byte>>): seq<byte>
    requires args != []
  {
    var n := |args| - 1;
    if n == 0 then args[0] else Join(args[..n]) + [SPACE] + args[n]
  }

  /** What the arguments add after the name. */
  function Given(args: seq<seq<byte>>): seq<byte> {
    if args == [] then [] else [EQ] + Join(args)
  }

  lemma GivenNext(pre: seq<byte>, args: seq<seq<byte>>, i: nat)
    requires i < |args|
    ensures pre + Given(args[..i + 1]) == pre + Given(args[..i]) + [if i == 0 then EQ else SPACE] + args[i]
  {
    var so, sep := Given(args[..i]), [if i == 0 then EQ else SPACE];
    JoinNext(args, i);
    hide Join;
    assert Given(args[..i + 1]) == so + sep + args[i] by {
      if i > 0 {
        Regroup4([EQ], Join(args[..i]), sep, args[i]);
      } else {
        assert so + sep == sep;
      }
    }
    hide Given;
    Regroup4(pre, so, sep, args[i]);
  }

  lemma JoinNext(args: seq<seq<byte>>, i: nat)
    requires i < |args|
    ensures Join(args[..i + 1]) == if i == 0 then args[0] else Join(args[..i]) + [SPACE] + args[i]
  {
    assert args[..i + 1][..i] == args[..i];
  }

  lemma Regroup4(a: seq<byte>, b: seq<byte>, c: seq<byte>, d: seq<byte>)
    ensures a + (b + c + d) == a + b + c + d
  {
  }

  lemma TextOf(pre: seq<byte>, name: seq<byte>, args: seq<seq<byte>>)
    requires args != []
    ensures pre + name + Given(args) + [NUL, NUL] == pre + Var(name, Join(args)).Text() + [NUL, NUL]
    ensures |Var(name, Join(args)).Text()| == |name| + |Given(args)|
  {
    hide Join;
    assert name + Given(args) == Var(name, Join(args)).Text();
    assert pre + name + Given(args) == pre + (name + Given(args));
  }

  lemma GivenFits(args: seq<seq<byte>>, i: nat)
    requires i < |args|
    ensures |Given(args[..i])| + 1 + |args[i]| <= |Given(args)|
  {
    hide Join, Given;
    GivenLength(args);
    GivenLength(args[..i]);
    JoinNext(args, i);
    JoinGrows(args, i + 1);
  }

  lemma GivenNone(pre: seq<byte>, args: seq<seq<byte>>)
    ensures Given(args[..0]) == [] && pre + Given(args[..0]) == pre
  {
  }

  lemma GivenLength(args: seq<seq<byte>>)
    ensures |Given(args)| == if args == [] then 0 else 1 + |Join(args)|
  {
    hide Join;
  }

  datatype Outcome =
    | Stored(vars: seq<Var>)
    | Deleted(vars: seq<Var>)
    | Overflow(vars: seq<Var>)
    | Refused

  /** One `setenv` command. `consoleOk` and `baudOk` say whether the console and the
      baud-rate switch, which are not part of this model, accept the new value. */
  function Set(vars: seq<Var>, size: nat, name: seq<byte>, args: seq<seq<byte>>,
               consoleOk: bool, baudOk: bool): Outcome
  {
    var found := Find(vars, name).Some?;
    if EQ in name then Refused
    else if name in {STDIN, STDOUT, STDERR} && (args == [] || !consoleOk) then Refused
    else if found && name in {SERIAL, ETHADDR} then Refused
    else if found && name == BAUDRATE && !baudOk then Refused
    else
      var rest := Without(vars, name);
      if args == [] then Deleted(rest)
      else
        var vars' := rest + [Var(name, Join(args))];
        if |Image(vars')| <= size then Stored(vars') else Overflow(rest)
  }

  function After(vars: seq<Var>, o: Outcome): seq<Var> {
    if o.Refused? then vars else o.vars
  }

  datatype Next = Same | At(index: nat) | End

  /** Where the enumeration goes after the variable whose key is the key of `last`. */
  function Successor(vars: seq<Var>, last: Option<seq<byte>>): Next {
    match last
    case None => At(0)
    case Some(s) =>
      match Find(vars, Key(s))
      case None => Same
      case Some(k) => if k + 1 == |vars| then End else At(Offset(vars, k + 1))
  }

  // ---------- facts about single strings ----------

  lemma {:induction false} KeyIsPrefix(s: seq<byte>)
    ensures |Key(s)| <= |s| && Key(s) == s[..|Key(s)|] && EQ !in Key(s)
    ensures |Key(s)| < |s| ==> s[|Key(s)|] == EQ
  {
    if s != [] && s[0] != EQ {
      KeyIsPrefix(s[1..]);
    }
  }

  lemma {:induction false} KeyOfText(name: seq<byte>, value: seq<byte>)
    requires EQ !in name
    ensures Key(name + [EQ] + value) == name && Key(name) == name
  {
    if name != [] {
      KeyOfText(name[1..], value);
      assert (name + [EQ] + value)[1..] == name[1..] + [EQ] + value;
    }
  }

  lemma {:induction false} FindUnique(vars: seq<Var>, k: nat)
    requires Unique(vars) && k < |vars|
    ensures Find(vars, vars[k].name) == Some(k)
  {
    if k > 0 {
      FindUnique(vars[1..], k - 1);
    }
  }

  lemma {:induction false} JoinNoNul(args: seq<seq<byte>>)
    requires args != [] && forall i :: 0 <= i < |args| ==> NoNul(args[i])
    ensures NoNul(Join(args))
  {
    if |args| > 1 {
      JoinNoNul(args[..|args| - 1]);
    }
  }

  lemma {:induction false} KeyIs(s: seq<byte>, k: seq<byte>)
    requires EQ !in k && |k| <= |s| && s[..|k|] == k
    requires |k| < |s| ==> s[|k|] == EQ
    ensures Key(s) == k
  {
    if k != [] {
      assert s[0] == s[..|k|][0] == k[0];
      assert s[1..][..|k| - 1] == s[..|k|][1..];
      KeyIs(s[1..], k[1..]);
    }
  }

  /** When a string has `k` as its key: the test `envmatch` makes character by character. */
  lemma KeyIff(s: seq<byte>, k: seq<byte>)
    requires EQ !in k
    ensures Key(s) == k <==> |k| <= |s| && s[..|k|] == k && (|k| == |s| || s[|k|] == EQ)
    ensures Key(s) == k ==> forall j :: 0 <= j < |k| ==> CharAt(s, j) == k[j]
  {
    KeyIsPrefix(s);
    if |k| <= |s| && s[..|k|] == k && (|k| == |s| || s[|k|] == EQ) {
      KeyIs(s, k);
    }
  }

  lemma RemoveWf(vars: seq<Var>, k: nat)
    requires Wf(vars) && k < |vars|
    ensures Wf(Remove(vars, k))
  {
    var rest := Remove(vars, k);
    assert forall i :: 0 <= i < |rest| ==> rest[i] == vars[if i < k then i else i + 1];
  }

  lemma CutMiddle(a: seq<byte>, t: seq<byte>, b: seq<byte>)
    ensures (a + t + b)[..|a|] == a && (a + t + b)[|a| + |t|..] == b
  {
  }

  lemma Regroup(a: seq<byte>, t: seq<byte>, b: seq<byte>)
    ensures a + t + [NUL] + b + [NUL] == a + (t + [NUL]) + (b + [NUL])
    ensures a + b + [NUL] == a + (b + [NUL])
  {
  }

  /** Removing string k closes the gap it leaves in the image. */
  lemma RemoveImage(vars: seq<Var>, k: nat)
    requires k + 1 < |vars|
    ensures Offset(vars, k) < Offset(vars, k + 1) <= |Image(vars)|
    ensures Image(Remove(vars, k)) == Image(vars)[..Offset(vars, k)] + Image(vars)[Offset(vars, k + 1)..]
  {
    var a, t, b := Encode(vars[..k]), vars[k].Text(), Encode(vars[k + 1..]);
    EncodeSplit(vars, k);
    assert Encode(Remove(vars, k)) == a + b by { EncodeAppend(vars[..k], vars[k + 1..]); }
    Regroup(a, t, b);
    CutMiddle(a, t + [NUL], b + [NUL]);
  }

  lemma RemoveLastImage(vars: seq<Var>)
    requires |vars| > 1
    ensures Offset(vars, |vars| - 1) < |Image(vars)|
    ensures Image(Remove(vars, |vars| - 1)) == Image(vars)[..Offset(vars, |vars| - 1)] + [NUL]
  {
    var k := |vars| - 1;
    EncodeSplit(vars, k);
    assert Remove(vars, k) == vars[..k];
  }

  lemma AppendImage(vars: seq<Var>, v: Var)
    ensures Image(vars + [v]) == Encode(vars) + v.Text() + [NUL, NUL]
  {
    EncodeAppend(vars, [v]);
    assert Encode([v]) == v.Text() + [NUL];
  }

  // ---------- the store ----------

  class Environment {
    const data: array<byte>     // ENV_SIZE bytes
    var envId: nat
    var crcOver: seq<byte>      // the data bytes the stored checksum was last computed from
    ghost var Vars: seq<Var>    // what the bytes mean, fixed by them (ImageDeterminesList)

    ghost predicate Valid()
      reads this, data
    {
      && Wf(Vars)
      && |Image(Vars)| <= data.Length
      && data[..|Image(Vars)|] == Image(Vars)
    }

    constructor (size: nat)
      requires size >= 2
      ensures Valid() && fresh(data) && data.Length == size && Vars == []
    {
      data := new byte[size](_ => NUL);
      envId := 1;
      crcOver := [];
      Vars := [];
    }

    /** The C string at `i`. */
    ghost predicate StringAt(i: nat, s: seq<byte>)
      reads data
    {
      i + |s| < data.Length && forall j :: 0 <= j <= |s| ==> data[i + j] == CharAt(s, j)
    }

    lemma AtEntry(k: nat)
      requires Valid() && k < |Vars|
      ensures StringAt(Offset(Vars, k), Vars[k].Text())
      ensures Offset(Vars, k + 1) == Offset(Vars, k) + |Vars[k].Text()| + 1 < |Image(Vars)|
      ensures StringAt(Offset(Vars, k) + |Vars[k].name| + 1, Vars[k].value)
      ensures data[Offset(Vars, k)] != NUL
    {
      hide Encode, Image;
      EntryBytes(Vars, k);
      var o, t, img := Offset(Vars, k), Vars[k].Text(), Image(Vars);
      forall j | 0 <= j <= |t|
        ensures data[o + j] == CharAt(t, j)
      {
        assert data[o + j] == data[..|img|][o + j] == img[o..o + |t| + 1][j] == (t + [NUL])[j];
      }
      assert data[o] == CharAt(t, 0);
      var p := |Vars[k].name| + 1;
      forall j | 0 <= j <= |Vars[k].value|
        ensures data[o + p + j] == CharAt(Vars[k].value, j)
      {
        assert data[o + (p + j)] == CharAt(t, p + j);
      }
    }

    /** A string starts with a NUL exactly where the list ends. */
    lemma AtEnd(k: nat)
      requires Valid() && k <= |Vars|
      ensures Offset(Vars, k) < |Image(Vars)|
      ensures data[Offset(Vars, k)] == NUL <==> k == |Vars|
    {
      if k < |Vars| {
        AtEntry(k);
      } else {
        OffsetEnd(Vars);
      }
    }

    method EnvMatch(s1: seq<byte>, i2: nat, ghost v: Var) returns (r: Option<nat>)
      requires NoNul(s1) && v.Wf() && StringAt(i2, v.Text())
      ensures r.Some? <==> Key(s1) == v.name
      ensures r.Some? ==> r.value == i2 + |v.name| + 1
    {
      KeyIff(s1, v.name);
      ghost var name := v.name;
      assert forall j :: 0 <= j <= |name| ==> CharAt(v.Text(), j) == if j < |name| then name[j] else EQ;
      var n := 0;
      while CharAt(s1, n) == data[i2 + n]
        invariant n <= |name| && n <= |s1| && s1[..n] == name[..n]
        invariant data[i2 + n] == CharAt(v.Text(), n)
        decreases |name| - n
      {
        if CharAt(s1, n) == EQ {
          return Some(i2 + n + 1);
        }
        n := n + 1;
        assert data[i2 + n] == CharAt(v.Text(), n);
      }
      if CharAt(s1, n) == NUL && data[i2 + n] == EQ {
        return Some(i2 + n + 1);
      }
      return None;
    }

    /** The index loop of `getenv`: the NUL that ends the string at `i`, or None past CONFIG_ENV_SIZE. */
    method EndOfString(i: nat, ghost k: nat) returns (nxt: Option<nat>)
      requires Valid() && k < |Vars| && i == Offset(Vars, k)
      ensures nxt == Some(Offset(Vars, k + 1) - 1)
    {
      AtEntry(k);
      ghost var t := Vars[k].Text();
      assert NoNul(t) by { hide Offset, Image, StringAt; }
      hide Valid, Offset, Image, Var.Text;
      var n := i;
      while data[n] != NUL
        invariant i <= n <= i + |t| && data[n] == CharAt(t, n - i)
        decreases i + |t| - n
      {
        if n >= data.Length {
          return None;
        }
        n := n + 1;
        assert data[i + (n - i)] == CharAt(t, n - i);
      }
      return Some(n);
    }

    /** The loop that `getenv`, `getenv_r` and `API_env_enum` share: the value and the end of the string that matches. */
    method FindEntry(name: seq<byte>) returns (val: Option<nat>, nxt: nat, ghost k: nat)
      requires Valid() && NoNul(name)
      ensures val.Some? ==> k < |Vars| && Find(Vars, Key(name)) == Some(k)
      ensures val.Some? ==> StringAt(val.value, Vars[k].value) && nxt == Offset(Vars, k + 1) - 1
      ensures val.None? ==> Find(Vars, Key(name)).None?
    {
      assert Offset(Vars, 0) == 0;
      var i := 0;
      k, nxt := 0, 0;
      AtEnd(0);
      while data[i] != NUL
        invariant k <= |Vars| && i == Offset(Vars, k) < |Image(Vars)|
        invariant data[i] == NUL <==> k == |Vars|
        invariant forall j :: 0 <= j < k ==> Vars[j].name != Key(name)
        decreases |Vars| - k
      {
        var end := EndOfString(i, k);
        AtEntry(k);
        val := EnvMatch(name, i, Vars[k]);
        if val.Some? {
          FindUnique(Vars, k);
          return val, end.value, k;
        }
        i := end.value + 1;
        k := k + 1;
        AtEnd(k);
      }
      val := None;
    }

    method GetEnv(name: seq<byte>) returns (r: Option<nat>)
      requires Valid() && NoNul(name)
      ensures r.Some? <==> Lookup(Vars, Key(name)).Some?
      ensures r.Some? ==> StringAt(r.value, Lookup(Vars, Key(name)).value)
    {
      hide Find, Key, StringAt;
      var nxt;
      ghost var k;
      r, nxt, k := FindEntry(name);
    }

    /** `getenv_r`: `buf` must be one byte longer than `len`, because the code may write there. */
    method GetEnvR(name: seq<byte>, buf: array<byte>, len: nat) returns (n: int)
      requires Valid() && NoNul(name) && buf.Length > len && buf != data
      modifies buf
      ensures match Lookup(Vars, Key(name))
              case None => n == -1 && buf[..] == old(buf[..])
              case Some(v) => n == CopiedCount(v, len) && buf[..] == CopiedOut(old(buf[..]), v, len)
    {
      hide Find, Key, StringAt, CopiedCount, CopiedOut;
      var val, nxt;
      ghost var k;
      val, nxt, k := FindEntry(name);
      if val.None? {
        return -1;
      }
      n := CopyOut(val.value, buf, len, Vars[k].value);
    }

    method CopyOut(val: nat, buf: array<byte>, len: nat, ghost v: seq<byte>) returns (n: nat)
      requires NoNul(v) && StringAt(val, v) && buf.Length > len && buf != data
      modifies buf
      ensures n == CopiedCount(v, len) && buf[..] == CopiedOut(old(buf[..]), v, len)
    {
      n := 0;
      var p := 0;
      while true
        invariant n == p <= len && p <= |v|
        invariant forall j :: 0 <= j < p ==> buf[j] == v[j]
        invariant forall j :: p <= j < buf.Length ==> buf[j] == old(buf[j])
        invariant StringAt(val, v)
        decreases |v| - p
      {
        n := n + 1;
        if !(len > n - 1) { break; }
        assert data[val + p] == CharAt(v, p);
        buf[p] := data[val + p];
        p := p + 1;
        if buf[p - 1] == NUL { break; }
      }
      if len == n {
        buf[p] := NUL;
      }
    }

    /** `API_env_enum`, with the strings `last` may point at and the index `*next` is set to. */
    method EnvEnum(last: Option<seq<byte>>) returns (next: Next)
      requires Valid() && (last.Some? ==> NoNul(last.value))
      ensures next == Successor(Vars, last)
    {
      if last.None? {
        return At(0);
      }
      var val, n;
      ghost var k;
      val, n, k := FindEntry(last.value);
      hide Encode, Image, Find, Key;
      if val.None? {
        return Same;
      }
      AtEnd(k + 1);
      var i := n + 1;
      if data[i] == NUL {
        return End;
      }
      return At(i);
    }

    /** The search of `_do_setenv`: the matching string and its NUL. */
    method Search(name: seq<byte>) returns (oldval: bool, env: nat, nxt: nat, ghost k: nat)
      requires Valid() && NoNul(name) && EQ !in name
      ensures oldval <==> Find(Vars, name).Some?
      ensures oldval ==> Find(Vars, name) == Some(k) && k < |Vars|
      ensures oldval ==> env == Offset(Vars, k) && nxt == Offset(Vars, k + 1) - 1
    {
      hide Image, Key;
      KeyOfText(name, []);
      env, nxt, k := 0, 0, 0;
      AtEnd(0);
      while data[env] != NUL
        invariant k <= |Vars| && env == Offset(Vars, k) < |Image(Vars)|
        invariant data[env] == NUL <==> k == |Vars|
        invariant forall j :: 0 <= j < k ==> Vars[j].name != name
        decreases |Vars| - k
      {
        var e := EndOfString(env, k);
        nxt := e.value;
        AtEntry(k);
        var m := EnvMatch(name, env, Vars[k]);
        if m.Some? {
          FindUnique(Vars, k);
          return true, env, nxt, k;
        }
        env := nxt + 1;
        k := k + 1;
        AtEnd(k);
      }
      return false, env, nxt, k;
    }

    /** The copying loop of the deletion: it ends at the first double NUL of the tail. */
    method ShiftDown(env0: nat, nxt0: nat, ghost img: seq<byte>) returns (env: nat)
      requires env0 < nxt0 && nxt0 + 1 < |img| <= data.Length && data[..|img|] == img
      requires forall j {:trigger img[j]} :: nxt0 <= j && j + 1 < |img| && img[j] == NUL && img[j + 1] == NUL ==> j + 2 == |img|
      requires img[|img| - 2] == NUL && img[|img| - 1] == NUL
      modifies data
      ensures env + 2 + (nxt0 - env0) == |img|
      ensures data[..env + 1] + [NUL] == img[..env0] + img[nxt0..]
    {
      assert forall j :: 0 <= j < |img| ==> data[j] == data[..|img|][j];
      env := env0;
      var nxt := nxt0;
      while true
        invariant env0 <= env && nxt == env + (nxt0 - env0) && nxt + 1 < |img|
        invariant forall j :: env0 <= j < env ==> data[j] == img[j + (nxt0 - env0)]
        invariant forall j :: 0 <= j < env0 || env <= j < |img| ==> data[j] == img[j]
        decreases |img| - nxt
      {
        data[env] := data[nxt];
        nxt := nxt + 1;
        if data[env] == NUL && data[nxt] == NUL {
          assert img[nxt - 1] == NUL;
          break;
        }
        env := env + 1;
      }
    }

    /** The in-place deletion of `_do_setenv`: the tail moves down over string k. */
    method Delete(env0: nat, nxt0: nat, ghost k: nat)
      requires Valid() && k < |Vars|
      requires env0 == Offset(Vars, k) && nxt0 == Offset(Vars, k + 1) - 1
      modifies this`Vars, data
      ensures Valid() && Vars == Remove(old(Vars), k)
    {
      hide Encode, Var.Text, Find, Unique;
      var env, nxt := env0, nxt0 + 1;
      AtEntry(k);
      AtEnd(k + 1);
      RemoveWf(Vars, k);
      EmptyBefore(Vars, k);
      ghost var vars, img, img' := Vars, Image(Vars), Image(Remove(Vars, k));
      if data[nxt] == NUL {
        if env > 0 {
          RemoveLastImage(vars);
          env := env - 1;
        } else {
          data[env] := NUL;
          assert img' == [NUL, NUL];
        }
        assert data[..env + 1] + [NUL] == img';
      } else {
        RemoveImage(vars, k);
        TailEnd(vars, nxt);
        env := ShiftDown(env, nxt, img);
      }
      assert data[..env + 1] + [NUL] == img';
      env := env + 1;
      data[env] := NUL;
      assert data[..env + 1] == data[..env] + [NUL];
      Vars := Remove(vars, k);
    }

    /** Copies `s` with its NUL; `end` is where the NUL went. */
    method CopyString(at: nat, s: seq<byte>) returns (end: nat)
      requires NoNul(s) && at + |s| < data.Length
      modifies data
      ensures end == at + |s|
      ensures forall j :: 0 <= j < data.Length ==>
                data[j] == if at <= j <= end then CharAt(s, j - at) else old(data[j])
    {
      end := at;
      while true
        invariant at <= end <= at + |s|
        invariant forall j :: at <= j < end ==> data[j] == s[j - at]
        invariant forall j :: 0 <= j < at || end <= j < data.Length ==> data[j] == old(data[j])
        decreases at + |s| - end
      {
        var c := CharAt(s, end - at);
        data[end] := c;
        if c == NUL {
          break;
        }
        end := end + 1;
      }
    }

    /** Where the appended string goes: over the second NUL of the list's end. */
    method FindEnd() returns (env: nat)
      requires Valid()
      ensures env == |Encode(Vars)| < data.Length
      ensures data[..env] == Encode(Vars)
    {
      ghost var img := Image(Vars);
      env := 0;
      DoubleNulOnlyAtEnd(Vars, 0);
      assert data[0] == data[..|img|][0] && data[1] == data[..|img|][1];
      while data[env] != NUL || data[env + 1] != NUL
        invariant Valid() && img == Image(Vars) && env + 1 < |img|
        invariant (data[env] == NUL && data[env + 1] == NUL) <==> env + 2 == |img|
        decreases |img| - env
      {
        env := env + 1;
        DoubleNulOnlyAtEnd(Vars, env);
        assert data[env] == data[..|img|][env] && data[env + 1] == data[..|img|][env + 1];
      }
      FirstByte(Vars);
      if env > 0 {
        env := env + 1;
      }
      assert data[..env] == data[..|img|][..env] == img[..env] == Encode(Vars);
    }

    /** The length test of the append. */
    method NeededLength(name: seq<byte>, args: seq<seq<byte>>) returns (len: nat)
      requires args != []
      ensures len == |Var(name, Join(args)).Text()| + 2
    {
      len := |name| + 2;
      for i := 0 to |args|
        invariant len == |name| + 2 + (if i == 0 then 0 else |Join(args[..i])| + 1)
      {
        assert args[..i + 1][..i] == args[..i];
        len := len + |args[i]| + 1;
      }
      assert args[..|args|] == args;
    }

    /** One turn of the argument loop: `=` before the first argument, a space before each other one. */
    method CopyArgument(at: nat, args: seq<seq<byte>>, i: nat, ghost pre: seq<byte>) returns (end: nat)
      requires i < |args| && NoNul(args[i]) && at + 1 + |args[i]| < data.Length
      requires data[..at] == pre + Given(args[..i])
      modifies data
      ensures end == at + 1 + |args[i]|
      ensures data[..end] == pre + Given(args[..i + 1]) && data[end] == NUL
    {
      ghost var written := data[..at];
      var sep := if i == 0 then EQ else SPACE;
      data[at] := sep;
      end := CopyString(at + 1, args[i]);
      assert data[at + 1..end] == args[i] by {
        assert forall j :: 0 <= j < |args[i]| ==> data[at + 1 + j] == CharAt(args[i], j);
      }
      Pieces(data[..end], written, sep, args[i]);
      hide Given;
      GivenNext(pre, args, i);
    }

    method WriteArguments(base: nat, args: seq<seq<byte>>) returns (end: nat)
      requires args != [] && forall i :: 0 <= i < |args| ==> NoNul(args[i])
      requires base + |Given(args)| < data.Length
      modifies data
      ensures end == base + |Given(args)|
      ensures data[..end] == old(data[..base]) + Given(args) && data[end] == NUL
    {
      ghost var pre := data[..base];
      end := base;
      GivenNone(pre, args);
      hide Given, NoNul;
      for i := 0 to |args|
        invariant end == base + |Given(args[..i])| < data.Length
        invariant data[..end] == pre + Given(args[..i]) && (i > 0 ==> data[end] == NUL)
      {
        GivenFits(args, i);
        end := CopyArgument(end, args, i, pre);
        assert end == |data[..end]|;
      }
      assert args[..|args|] == args;
    }

    method WriteDefinition(base: nat, name: seq<byte>, args: seq<seq<byte>>) returns (end: nat)
      requires NoNul(name) && args != [] && forall i :: 0 <= i < |args| ==> NoNul(args[i])
      requires base + |name| + |Given(args)| + 2 <= data.Length
      modifies data
      ensures end == base + |name| + |Given(args)| + 2
      ensures data[..end] == old(data[..base]) + name + Given(args) + [NUL, NUL]
    {
      var env := CopyString(base, name);
      assert data[base..env] == name by {
        assert forall j :: 0 <= j < |name| ==> data[base + j] == CharAt(name, j);
      }
      assert data[..env] == old(data[..base]) + name;
      env := WriteArguments(env, args);
      env := env + 1;
      data[env] := NUL;
      assert data[..env + 1] == data[..env - 1] + [NUL, NUL];
      return env + 1;
    }

    /** The appending half of `_do_setenv`. */
    method Append(name: seq<byte>, args: seq<seq<byte>>) returns (ok: bool)
      requires Valid() && NoNul(name) && EQ !in name && Find(Vars, name).None?
      requires args != [] && forall i :: 0 <= i < |args| ==> NoNul(args[i])
      modifies this`Vars, data
      ensures Valid()
      ensures ok <==> |Image(old(Vars) + [Var(name, Join(args))])| <= data.Length
      ensures Vars == if ok then old(Vars) + [Var(name, Join(args))] else old(Vars)
      ensures !ok ==> data[..] == old(data[..])
    {
      hide Encode, Join, Unique, Var.Text;
      ghost var v := Var(name, Join(args));
      ghost var vars' := Vars + [v];
      AppendImage(Vars, v);
      JoinNoNul(args);
      AppendWf(Vars, v);
      var env := FindEnd();
      var len := NeededLength(name, args);
      if len > data.Length - env {
        return false;
      }
      ghost var pre := data[..env];
      var end := WriteDefinition(env, name, args);
      TextOf(pre, name, args);
      assert data[..|Image(vars')|] == Image(vars');
      Vars := vars';
      return true;
    }

    method SetEnv(name: seq<byte>, args: seq<seq<byte>>, consoleOk: bool, baudOk: bool)
      returns (rcode: int)
      requires Valid() && NoNul(name) && forall i :: 0 <= i < |args| ==> NoNul(args[i])
      modifies this, data
      ensures Valid()
      ensures var o := Set(old(Vars), data.Length, name, args, consoleOk, baudOk);
        && Vars == After(old(Vars), o)
        && (rcode == 0 <==> o.Stored? || o.Deleted?)
        && (o.Refused? ==> data[..] == old(data[..]))
        && crcOver == (if o.Refused? || o.Overflow? then old(crcOver) else data[..])
        && (old(crcOver) == old(data[..]) ==>
              (crcOver != data[..] <==> o.Overflow? && Find(old(Vars), name).Some?))
      ensures envId == old(envId) + if EQ in name then 0 else 1
    {
      hide Image, Encode, Join, Find, Remove;
      if EQ in name {
        return 1;
      }
      envId := envId + 1;
      var oldval, env, nxt, k := Search(name);
      if name == STDIN || name == STDOUT || name == STDERR {
        if args == [] || !consoleOk {
          return 1;
        }
      }
      if oldval {
        if name == SERIAL || name == ETHADDR {
          return 1;
        }
        if name == BAUDRATE && !baudOk {
          return 1;
        }
        WithoutForgets(Vars, name);
        OldImageGone(Vars, name, data[..]);
        Delete(env, nxt, k);
      }
      if args == [] {
        crcOver := data[..];
        return 0;
      }
      var ok := Append(name, args);
      if !ok {
        return 1;
      }
      crcOver := data[..];
      return 0;
    }
  }

  lemma Pieces(s: seq<byte>, a: seq<byte>, c: byte, b: seq<byte>)
    requires |s| == |a| + 1 + |b| && s[..|a|] == a && s[|a|] == c && s[|a| + 1..] == b
    ensures s == a + [c] + b
  {
  }

  lemma AppendWf(vars: seq<Var>, v: Var)
    requires Wf(vars) && v.Wf() && Find(vars, v.name).None?
    ensures Wf(vars + [v])
  {
  }

  lemma EmptyBefore(vars: seq<Var>, k: nat)
    requires k < |vars|
    ensures Offset(vars, k) == 0 <==> k == 0
  {
    assert k > 0 ==> |Encode(vars[..k])| >= |vars[..k][0].Text()| + 1;
  }

  lemma {:induction false} JoinGrows(args: seq<seq<byte>>, n: nat)
    requires 0 < n <= |args|
    ensures |Join(args[..n])| <= |Join(args)|
  {
    if n < |args| {
      var init := args[..|args| - 1];
      JoinGrows(init, n);
      assert init[..n] == args[..n];
    } else {
      assert args[..n] == args;
    }
  }

  lemma WithoutForgets(vars: seq<Var>, name: seq<byte>)
    requires Unique(vars)
    ensures Find(Without(vars, name), name).None?
  {
    var rest := Without(vars, name);
    if Find(vars, name).Some? {
      var k := Find(vars, name).value;
      forall i | 0 <= i < |rest|
        ensures rest[i].name != name
      {
        assert rest[i] == vars[if i < k then i else i + 1];
      }
    }
  }

  /** An array that begins with a list's image does not begin with the image of the list without a variable of it. */
  lemma OldImageGone(vars: seq<Var>, name: seq<byte>, s: seq<byte>)
    requires Wf(vars) && Image(vars) <= s && Find(vars, name).Some?
    ensures Wf(Without(vars, name)) ==> !(Image(Without(vars, name)) <= s)
  {
    var rest := Without(vars, name);
    assert |rest| < |vars|;
    if Wf(rest) && Image(rest) <= s {
      hide Image, Without, Find;
      if |Image(vars)| <= |Image(rest)| {
        assert Image(vars) == s[..|Image(vars)|] == Image(rest)[..|Image(vars)|];
        ImageDeterminesList(vars, rest);
      } else {
        assert Image(rest) == s[..|Image(rest)|] == Image(vars)[..|Image(rest)|];
        ImageDeterminesList(rest, vars);
      }
    }
  }

  lemma TailEnd(vars: seq<Var>, from: nat)
    requires Wf(vars)
    ensures var img := Image(vars);
      && img[|img| - 2] == NUL && img[|img| - 1] == NUL
      && forall j {:trigger img[j]} :: from <= j && j + 1 < |img| && img[j] == NUL && img[j + 1] == NUL ==> j + 2 == |img|
  {
    var img := Image(vars);
    DoubleNulOnlyAtEnd(vars, |img| - 2);
    forall j {:trigger img[j]} | from <= j && j + 1 < |img| && img[j] == NUL && img[j + 1] == NUL
      ensures j + 2 == |img|
    {
      DoubleNulOnlyAtEnd(vars, j);
    }
  }

  // ---------- getenv_r's two-sided result ----------

  /** How many loop turns the copy takes. */
  function CopiedCount(v: seq<byte>, len: nat): nat {
    if |v| < len then |v| + 1 else len + 1
  }

  function CopiedOut(buf: seq<byte>, v: seq<byte>, len: nat): seq<byte>
    requires len < |buf|
  {
    if |v| + 1 < len then v + [NUL] + buf[|v| + 1..]
    else if |v| + 1 == len then v + [NUL, NUL] + buf[len + 1..]
    else v[..len] + buf[len..]
  }
}
