/** The environment as its users see it: an ordered list of variables, and the
    byte image that cmd_nvedit.c keeps of it. */
module EnvList {
  import opened Bytes

  const EQ: byte := 61      // '='
  const SPACE: byte := 32

  datatype Var = Var(name: seq<byte>, value: seq<byte>) {
    predicate Wf() {
      NoNul(name) && NoNul(value) && EQ !in name
    }

    function Text(): (t: seq<byte>)
      ensures |t| == |name| + 1 + |value|
    {
      name + [EQ] + value
    }
  }

  /** `name=value` strings, each ended by a NUL. */
  function Encode(vars: seq<Var>): seq<byte> {
    if vars == [] then [] else vars[0].Text() + [NUL] + Encode(vars[1..])
  }

  /** The whole image: the strings and one more NUL; the empty list is a bare double NUL. */
  function Image(vars: seq<Var>): seq<byte> {
    if vars == [] then [NUL, NUL] else Encode(vars) + [NUL]
  }

  /** Where the k-th string starts. */
  function Offset(vars: seq<Var>, k: nat): nat
    requires k <= |vars|
  {
    |Encode(vars[..k])|
  }

  ghost predicate Unique(vars: seq<Var>) {
    forall i, j :: 0 <= i < j < |vars| ==> vars[i].name != vars[j].name
  }

  ghost predicate Wf(vars: seq<Var>) {
    Unique(vars) && forall i :: 0 <= i < |vars| ==> vars[i].Wf()
  }

  // ---------- the image ----------

  lemma {:induction false} EncodeAppend(a: seq<Var>, b: seq<Var>)
    ensures Encode(a + b) == Encode(a) + Encode(b)
  {
    if a == [] {
      assert a + b == b;
    } else {
      assert (a + b)[1..] == a[1..] + b;
      EncodeAppend(a[1..], b);
    }
  }

  /** The image splits around any one of its strings. */
  lemma EncodeSplit(vars: seq<Var>, k: nat)
    requires k < |vars|
    ensures Encode(vars) == Encode(vars[..k]) + vars[k].Text() + [NUL] + Encode(vars[k + 1..])
    ensures Offset(vars, k + 1) == Offset(vars, k) + |vars[k].Text()| + 1
    ensures Encode(vars[..k + 1]) == Encode(vars[..k]) + vars[k].Text() + [NUL]
  {
    assert vars == vars[..k] + vars[k..];
    EncodeAppend(vars[..k], vars[k..]);
    assert vars[k..][1..] == vars[k + 1..];
    assert vars[..k + 1] == vars[..k] + [vars[k]];
    EncodeAppend(vars[..k], [vars[k]]);
    assert Encode([vars[k]]) == vars[k].Text() + [NUL];
  }

  /** The bytes from the start of string k are that string and its NUL. */
  lemma EntryBytes(vars: seq<Var>, k: nat)
    requires k < |vars|
    ensures Offset(vars, k) + |vars[k].Text()| + 1 < |Image(vars)|
    ensures Offset(vars, k + 1) == Offset(vars, k) + |vars[k].Text()| + 1
    ensures Image(vars)[Offset(vars, k)..Offset(vars, k) + |vars[k].Text()| + 1] == vars[k].Text() + [NUL]
  {
    EncodeSplit(vars, k);
  }

  lemma OffsetEnd(vars: seq<Var>)
    ensures Offset(vars, |vars|) == |Encode(vars)|
    ensures Image(vars)[Offset(vars, |vars|)] == NUL
  {
    assert vars[..|vars|] == vars;
  }

  /** The first double NUL of a well-formed image is its end. */
  lemma {:induction false} DoubleNulOnlyAtEnd(vars: seq<Var>, j: nat)
    requires forall i :: 0 <= i < |vars| ==> vars[i].Wf()
    requires j + 1 < |Image(vars)|
    ensures Image(vars)[j] == NUL && Image(vars)[j + 1] == NUL <==> j == |Image(vars)| - 2
    decreases |vars|
  {
    if vars != [] {
      var t := vars[0].Text();
      if j < |t| {
        assert Image(vars)[j] == t[j];
      } else if |vars| > 1 {
        var rest := vars[1..];
        assert Image(vars) == t + [NUL] + Image(rest);
        if j > |t| {
          DoubleNulOnlyAtEnd(rest, j - |t| - 1);
          assert Image(vars)[j] == Image(rest)[j - |t| - 1];
          assert Image(vars)[j + 1] == Image(rest)[j - |t|];
        } else {
          assert Image(vars)[j + 1] == rest[0].Text()[0];
        }
      } else {
        assert Encode(vars) == t + [NUL] + Encode([]);
      }
    }
  }

  /** Only the empty list has an image that begins with a NUL. */
  lemma FirstByte(vars: seq<Var>)
    requires forall i :: 0 <= i < |vars| ==> vars[i].Wf()
    ensures Image(vars)[0] == NUL <==> vars == []
  {
    if vars != [] {
      assert Image(vars)[0] == vars[0].Text()[0];
    }
  }

  /** A byte array holds at most one well-formed list: the list is what the bytes mean. */
  lemma {:induction false} ImageDeterminesList(a: seq<Var>, b: seq<Var>)
    requires forall i :: 0 <= i < |a| ==> a[i].Wf()
    requires forall i :: 0 <= i < |b| ==> b[i].Wf()
    requires Image(a) <= Image(b)
    ensures a == b
  {
    FirstByte(a);
    FirstByte(b);
    DoubleNulOnlyAtEnd(a, |Image(a)| - 2);
    DoubleNulOnlyAtEnd(b, |Image(a)| - 2);
    assert Image(a) == Image(b);
    if a != [] && b != [] {
      assert Encode(a) == Image(a)[..|Image(a)| - 1];
      assert Encode(b) == Image(b)[..|Image(b)| - 1];
      EncodeInjective(a, b);
    }
  }

  lemma {:induction false} EncodeInjective(a: seq<Var>, b: seq<Var>)
    requires forall i :: 0 <= i < |a| ==> a[i].Wf()
    requires forall i :: 0 <= i < |b| ==> b[i].Wf()
    requires Encode(a) == Encode(b)
    ensures a == b
  {
    if a != [] && b != [] {
      var s, t := a[0].Text(), b[0].Text();
      FirstZero(s, Encode(a[1..]), t, Encode(b[1..]));
      FirstEq(a[0], b[0]);
      EncodeInjective(a[1..], b[1..]);
      assert a == [a[0]] + a[1..];
      assert b == [b[0]] + b[1..];
    }
  }

  lemma FirstZero(s: seq<byte>, s': seq<byte>, t: seq<byte>, t': seq<byte>)
    requires NoNul(s) && NoNul(t)
    requires s + [NUL] + s' == t + [NUL] + t'
    ensures s == t && s' == t'
  {
    var x, y := s + [NUL] + s', t + [NUL] + t';
    assert x[|s|] == NUL && y[|t|] == NUL;
    assert forall j :: 0 <= j < |s| ==> x[j] == s[j];
    assert forall j :: 0 <= j < |t| ==> y[j] == t[j];
    assert |s| == |t|;
    assert s == x[..|s|] && t == y[..|t|];
    assert s' == x[|s| + 1..] && t' == y[|t| + 1..];
  }

  lemma FirstEq(v: Var, w: Var)
    requires v.Wf() && w.Wf()
    requires v.Text() == w.Text()
    ensures v == w
  {
    var x, y := v.Text(), w.Text();
    assert x[|v.name|] == EQ && y[|w.name|] == EQ;
    assert forall j :: 0 <= j < |v.name| ==> x[j] == v.name[j];
    assert forall j :: 0 <= j < |w.name| ==> y[j] == w.name[j];
    assert |v.name| == |w.name|;
    assert v.name == x[..|v.name|] && w.name == y[..|v.name|];
    assert v.value == x[|v.name| + 1..] && w.value == y[|v.name| + 1..];
  }
}
