/** `generate_mtdparts`: the table printed piece by piece into a bounded buffer. */
module MtdPrinter {
  import opened Bytes
  import opened MtdText
  import opened MtdParts

  // ---------- the text in pieces ----------

  /** The pieces of a partition's text, each checked against the room that is left before it is copied.
      A piece that is not printed is empty. */
  function PartPieces(gap: bool, p: Part): seq<string> {
    [MemsizeFormat(p.size), OffsetText(gap, p.offset), NameText(p.name), RoText(p.ro)]
  }

  function PartsPieces(prev: Option<Part>, parts: seq<Part>): seq<string>
    decreases |parts|
  {
    if parts == [] then []
    else
      PartPieces(Gap(prev, parts[0]), parts[0]) +
      ([if |parts| > 1 then "," else ""] + PartsPieces(Some(parts[0]), parts[1..]))
  }

  function DevPieces(d: Dev): seq<string> { [d.id.name + ":"] + PartsPieces(None, d.parts) }

  function BodyPieces(devs: seq<Dev>): seq<string> {
    if devs == [] then []
    else DevPieces(devs[0]) + ([if |devs| > 1 then ";" else ""] + BodyPieces(devs[1..]))
  }

  function Flat(ps: seq<string>): string {
    if ps == [] then "" else ps[0] + Flat(ps[1..])
  }

  /** What gets printed when `room` characters are allowed: the pieces up to the first that is too long. */
  function Printed(ps: seq<string>, room: nat): (s: string)
    ensures |s| <= room
    decreases |ps|
  {
    if ps == [] || |ps[0]| > room then "" else ps[0] + Printed(ps[1..], room - |ps[0]|)
  }

  lemma {:induction false} PrintedAll(ps: seq<string>, room: nat)
    ensures |Flat(ps)| <= room ==> Printed(ps, room) == Flat(ps)
    ensures |Flat(ps)| > room ==> |Printed(ps, room)| < |Flat(ps)|
    decreases |ps|
  {
    if ps != [] && |ps[0]| <= room {
      PrintedAll(ps[1..], room - |ps[0]|);
    }
  }

  lemma {:induction false} FlatAppend(a: seq<string>, b: seq<string>)
    ensures Flat(a + b) == Flat(a) + Flat(b)
    decreases |a|
  {
    if a == [] {
      assert a + b == b;
    } else {
      assert (a + b)[1..] == a[1..] + b;
      FlatAppend(a[1..], b);
      Assoc(a[0], Flat(a[1..]), Flat(b));
    }
  }

  lemma FlatCons(s: string, ps: seq<string>)
    ensures Flat([s] + ps) == s + Flat(ps)
  {
    assert ([s] + ps)[1..] == ps;
  }

  lemma PartFlat(gap: bool, p: Part)
    ensures Flat(PartPieces(gap, p)) == PartText(gap, p)
  {
    var a, b, c, d := MemsizeFormat(p.size), OffsetText(gap, p.offset), NameText(p.name), RoText(p.ro);
    hide MemsizeFormat, OffsetText, NameText, RoText;
    assert PartPieces(gap, p) == [a] + ([b] + ([c] + ([d] + [])));
    FlatCons(d, []);
    FlatCons(c, [d] + []);
    FlatCons(b, [c] + ([d] + []));
    FlatCons(a, [b] + ([c] + ([d] + [])));
    assert d + "" == d;
    Right(a, b, c, d);
  }

  lemma Right(a: string, b: string, c: string, d: string)
    ensures a + (b + (c + d)) == a + b + c + d
  {
  }

  lemma {:induction false} PartsFlat(prev: Option<Part>, parts: seq<Part>)
    ensures Flat(PartsPieces(prev, parts)) == PartsText(prev, parts)
    decreases |parts|
  {
    if parts != [] {
      var gap := Gap(prev, parts[0]);
      var sep := if |parts| > 1 then "," else "";
      var pieces, rest := PartPieces(gap, parts[0]), PartsPieces(Some(parts[0]), parts[1..]);
      PartsFlat(Some(parts[0]), parts[1..]);
      PartFlat(gap, parts[0]);
      PartsTextHead(prev, parts);
      assert PartsPieces(prev, parts) == pieces + ([sep] + rest);
      hide PartPieces, PartText, Gap, PartsPieces, PartsText, Flat;
      FlatAppend(pieces, [sep] + rest);
      FlatCons(sep, rest);
      Assoc(Flat(pieces), sep, Flat(rest));
    }
  }

  lemma DevFlat(d: Dev)
    ensures Flat(DevPieces(d)) == DevText(d)
  {
    hide PartsPieces, PartsText;
    FlatCons(d.id.name + ":", PartsPieces(None, d.parts));
    PartsFlat(None, d.parts);
  }

  lemma {:induction false} BodyFlat(devs: seq<Dev>)
    ensures Flat(BodyPieces(devs)) == Body(devs)
    decreases |devs|
  {
    if devs != [] {
      var sep := if |devs| > 1 then ";" else "";
      var pieces, rest := DevPieces(devs[0]), BodyPieces(devs[1..]);
      BodyFlat(devs[1..]);
      DevFlat(devs[0]);
      BodyHead(devs);
      assert BodyPieces(devs) == pieces + ([sep] + rest);
      hide DevPieces, DevText, BodyPieces, Body, Flat;
      FlatAppend(pieces, [sep] + rest);
      FlatCons(sep, rest);
      Assoc(Flat(pieces), sep, Flat(rest));
    }
  }

  // ---------- how far the buffer is written ----------

  function Larger(a: nat, b: nat): nat { if a > b then a else b }

  /** One more than the highest index written: `sprintf` ends the header with a NUL, and a table that is printed whole
      ends with one too. */
  function Extent(devs: seq<Dev>, buflen: nat): nat
    requires buflen > 0
  {
    if devs == [] then 1
    else if |Body(devs)| <= buflen - 1 then Larger(|HEADER| + 1, |HEADER| + |Body(devs)| + 1)
    else Larger(|HEADER| + 1, |HEADER| + |Printed(BodyPieces(devs), buflen - 1)|)
  }

  /** The writing stays inside the buffer's length on success exactly when header, text and NUL fit; on refusal exactly
      when the header fits with its NUL and, behind it, the pieces printed before the refusal. */
  lemma ExtentInside(devs: seq<Dev>, buflen: nat)
    requires buflen > 0 && devs != []
    ensures Extent(devs, buflen) <= buflen <==>
      if |Body(devs)| <= buflen - 1 then |HEADER| + |Body(devs)| < buflen
      else |HEADER| < buflen && |HEADER| + |Printed(BodyPieces(devs), buflen - 1)| <= buflen
    ensures |Body(devs)| > buflen - 1 ==> |Printed(BodyPieces(devs), buflen - 1)| < |Body(devs)|
    ensures Extent(devs, buflen) <= buflen + |HEADER|
  {
    BodyFlat(devs);
    hide Body, BodyPieces, Printed, Flat;
    PrintedAll(BodyPieces(devs), buflen - 1);
  }

  /** The extent in terms of what is printed. */
  lemma ExtentIs(devs: seq<Dev>, buflen: nat)
    requires buflen > 0 && devs != []
    ensures var text, ok := Printed(BodyPieces(devs), buflen - 1), |Flat(BodyPieces(devs))| <= buflen - 1;
      && Extent(devs, buflen) == Larger(|HEADER| + 1, |HEADER| + |text| + if ok then 1 else 0)
      && (ok <==> |Body(devs)| <= buflen - 1) && (ok ==> text == Body(devs))
  {
    BodyFlat(devs);
    hide Body, BodyPieces, Printed, Flat;
    PrintedAll(BodyPieces(devs), buflen - 1);
  }

  // ---------- the code ----------

  /** What one call is about: the room it counts with, the buffer as it was, the text it will have printed, and by how
      much the whole text is too long. */
  datatype Goal = Goal(total: nat, was: seq<char>, final: string, over: int)

  class Printer {
    const buf: array<char>
    var p: nat                    // where the next character goes
    var maxlen: nat               // how many more characters the accounting allows
    ghost var Text: string        // what stands behind the header
    ghost var Rest: seq<string>   // the pieces that are still to come
    ghost var Top: nat            // one more than the highest index written

    constructor (buf: array<char>)
      ensures this.buf == buf
    {
      this.buf := buf;
      p, maxlen, Text, Rest, Top := 0, 0, "", [], 0;
    }

    /** The header is not charged to `maxlen`, so the buffer must be that much longer than the total. */
    ghost predicate Ready(g: Goal)
      reads this, buf
    {
      && |HEADER| + g.total < buf.Length == |g.was|
      && p == |HEADER| + |Text| && |Text| + maxlen == g.total
      && buf[..p] == HEADER + Text
      && Top == Larger(|HEADER| + 1, p) && (forall k :: Top <= k < buf.Length ==> buf[k] == g.was[k])
      && Text + Printed(Rest, maxlen) == g.final && |Flat(Rest)| - maxlen == g.over
    }

    /** The copy loop of one piece. */
    method Copy(s: string)
      requires p + |s| <= buf.Length && p <= Top
      modifies this`p, this`Top, buf
      ensures p == old(p) + |s| && Top == Larger(old(Top), p)
      ensures buf[..p] == old(buf[..p]) + s
      ensures forall k :: p <= k < buf.Length ==> buf[k] == old(buf[k])
    {
      ghost var before := buf[..p];
      for i := 0 to |s|
        invariant p == old(p) + i && Top == Larger(old(Top), p)
        invariant buf[..p] == before + s[..i]
        invariant forall k :: p <= k < buf.Length ==> buf[k] == old(buf[k])
      {
        buf[p] := s[i];
        p := p + 1;
        Top := Larger(Top, p);
        assert buf[..p] == buf[..p - 1] + [s[i]] && s[..i + 1] == s[..i] + [s[i]];
      }
      assert s[..|s|] == s;
    }

    /** One piece: refused when it is longer than what is left. */
    method Put(s: string, ghost g: Goal, ghost more: seq<string>) returns (ok: bool)
      requires Ready(g) && Rest == [s] + more
      modifies this, buf
      ensures Ready(g)
      ensures if ok then Rest == more else Text == g.final && g.over > 0
    {
      Next(s, more, maxlen);
      if |s| > maxlen {
        assert Text + "" == Text;
        return false;
      }
      PutFitting(s, g, more);
      return true;
    }

    method PutFitting(s: string, ghost g: Goal, ghost more: seq<string>)
      requires Ready(g) && Rest == [s] + more && |s| <= maxlen
      modifies this, buf
      ensures Ready(g) && Rest == more
    {
      hide Printed, Flat;
      Next(s, more, maxlen);
      Assoc(HEADER, Text, s);
      Assoc(Text, s, Printed(more, maxlen - |s|));
      Copy(s);
      maxlen := maxlen - |s|;
      Text, Rest := Text + s, more;
    }

    /** A piece that is printed only under a condition. */
    method PutIf(cond: bool, s: string, ghost g: Goal, ghost more: seq<string>) returns (ok: bool)
      requires Ready(g) && Rest == [if cond then s else ""] + more
      modifies this, buf
      ensures Ready(g)
      ensures if ok then Rest == more else Text == g.final && g.over > 0
    {
      if cond {
        ok := Put(s, g, more);
      } else {
        ok := true;
        Next("", more, maxlen);
        Empty(Printed(more, maxlen), Flat(more));
        Rest := more;
      }
    }

    /** Size, offset, name and flag of one partition. */
    method PutPart(gap: bool, part: Part, ghost g: Goal, ghost more: seq<string>) returns (ok: bool)
      requires Ready(g) && Rest == PartPieces(gap, part) + more
      modifies this, buf
      ensures Ready(g)
      ensures if ok then Rest == more else Text == g.final && g.over > 0
    {
      FourPieces(gap, part, more);
      hide Ready, MemsizeFormat, PartPieces;
      ghost var d := [RoText(part.ro)] + more;
      ghost var c := [NameText(part.name)] + d;
      ghost var b := [OffsetText(gap, part.offset)] + c;
      ok := Put(MemsizeFormat(part.size), g, b);
      if !ok { return; }
      ok := PutIf(gap, "@" + MemsizeFormat(part.offset), g, c);
      if !ok { return; }
      ok := PutIf(part.name.Some?, "(" + part.name.GetOr("") + ")", g, d);
      if !ok { return; }
      ok := PutIf(part.ro, "ro", g, more);
    }

    /** All partitions of one device, comma separated. */
    method PutParts(parts: seq<Part>, ghost g: Goal, ghost more: seq<string>) returns (ok: bool)
      requires Ready(g) && Rest == PartsPieces(None, parts) + more
      modifies this, buf
      ensures Ready(g)
      ensures if ok then Rest == more else Text == g.final && g.over > 0
    {
      hide Ready, PartPieces, PartsPieces;
      var prev: Option<Part> := None;
      assert parts[0..] == parts;
      for i := 0 to |parts|
        invariant Ready(g) && Rest == PartsPieces(prev, parts[i..]) + more
      {
        NextPart(prev, parts, i, more);
        ghost var rest := PartsPieces(Some(parts[i]), parts[i + 1..]) + more;
        ok := PutPart(Gap(prev, parts[i]), parts[i], g, [if i + 1 < |parts| then "," else ""] + rest);
        if !ok { return; }
        ok := PutIf(i + 1 < |parts|, ",", g, rest);
        if !ok { return; }
        prev := Some(parts[i]);
      }
      NoParts(prev);
      assert parts[|parts|..] == [] && [] + more == more;
      ok := true;
    }

    method PutDevice(d: Dev, ghost g: Goal, ghost more: seq<string>) returns (ok: bool)
      requires Ready(g) && Rest == DevPieces(d) + more
      modifies this, buf
      ensures Ready(g)
      ensures if ok then Rest == more else Text == g.final && g.over > 0
    {
      hide Ready, PartsPieces;
      Assoc([d.id.name + ":"], PartsPieces(None, d.parts), more);
      ok := Put(d.id.name + ":", g, PartsPieces(None, d.parts) + more);
      if !ok { return; }
      ok := PutParts(d.parts, g, more);
    }

    /** All devices, semicolon separated. */
    method PutDevices(devs: seq<Dev>, ghost g: Goal) returns (ok: bool)
      requires Ready(g) && Rest == BodyPieces(devs)
      modifies this, buf
      ensures Ready(g)
      ensures if ok then Rest == [] else Text == g.final && g.over > 0
    {
      hide Ready, DevPieces, BodyPieces;
      assert devs[0..] == devs;
      for i := 0 to |devs|
        invariant Ready(g) && Rest == BodyPieces(devs[i..])
      {
        NextDevice(devs, i);
        ghost var rest := BodyPieces(devs[i + 1..]);
        ok := PutDevice(devs[i], g, [if i + 1 < |devs| then ";" else ""] + rest);
        if !ok { return; }
        ok := PutIf(i + 1 < |devs|, ";", g, rest);
        if !ok { return; }
      }
      NoDevices();
      assert devs[|devs|..] == [];
      ok := true;
    }

    /** The whole table. Nothing is said of the caller's buffer being only `buflen` long, since the code may write
        behind that: ExtentInside says when it does. */
    method Generate(devs: seq<Dev>, buflen: nat) returns (ok: bool)
      requires 0 < buflen && buflen + |HEADER| <= buf.Length
      modifies this, buf
      ensures devs != [] ==> (ok <==> |Body(devs)| <= buflen - 1)
      ensures devs == [] ==> ok && buf[0] == '\0'
      ensures ok && devs != [] ==>
                && p == |HEADER| + |Body(devs)| < buf.Length
                && buf[..p] == HEADER + Body(devs) && buf[p] == '\0'
      ensures !ok ==>
                var text := Printed(BodyPieces(devs), buflen - 1);
                buf[..|HEADER| + |text|] == HEADER + text
      ensures Top == Extent(devs, buflen)
      ensures forall k :: Top <= k < buf.Length ==> buf[k] == old(buf[k])
    {
      if devs == [] {
        buf[0] := '\0';
        Top := 1;
        return true;
      }
      ExtentIs(devs, buflen);
      hide Body, BodyPieces, Printed, Flat, Extent, Larger;
      ok := PrintTable(devs, buflen);
    }

    method PrintTable(devs: seq<Dev>, buflen: nat) returns (ok: bool)
      requires 0 < buflen && buflen + |HEADER| <= buf.Length
      modifies this, buf
      ensures ok <==> |Flat(BodyPieces(devs))| <= buflen - 1
      ensures Text == Printed(BodyPieces(devs), buflen - 1)
      ensures p == |HEADER| + |Text| < buf.Length && buf[..p] == HEADER + Text && (ok ==> buf[p] == '\0')
      ensures Top == Larger(|HEADER| + 1, if ok then p + 1 else p)
      ensures forall k :: Top <= k < buf.Length ==> buf[k] == old(buf[k])
    {
      hide BodyPieces, Printed, Flat, Ready, Larger;
      ghost var g := Start(devs, buflen);
      ok := PutDevices(devs, g);
      Stands(g);
      if ok {
        Terminate(g);
      }
    }

    /** What stands in the buffer before the final NUL. */
    lemma Stands(g: Goal)
      requires Ready(g)
      ensures p == |HEADER| + |Text| && buf[..p] == HEADER + Text && Top == Larger(|HEADER| + 1, p)
      ensures p < buf.Length == |g.was| && forall k :: Top <= k < buf.Length ==> buf[k] == g.was[k]
      ensures Rest == [] ==> Text == g.final && g.over <= 0
    {
      Finished(maxlen);
      assert Text + "" == Text;
    }

    /** The NUL behind a table that is printed whole. */
    method Terminate(ghost g: Goal)
      requires Ready(g) && Rest == []
      modifies this`Top, buf
      ensures g.over <= 0 && Text == g.final && p == |HEADER| + |g.final| < buf.Length && buf[..p] == HEADER + g.final && buf[p] == '\0'
      ensures Top == Larger(|HEADER| + 1, p + 1) && buf.Length == |g.was|
      ensures forall k :: Top <= k < buf.Length ==> buf[k] == g.was[k]
    {
      Stands(g);
      hide Printed, Flat;
      ghost var written := buf[..p];
      buf[p] := '\0';
      Top := Larger(Top, p + 1);
      assert buf[..p] == written;
    }

    /** `sprintf` of the header, which ends it with a NUL. */
    method Start(devs: seq<Dev>, buflen: nat) returns (ghost g: Goal)
      requires 0 < buflen && buflen + |HEADER| <= buf.Length
      modifies this, buf
      ensures g == Goal(buflen - 1, old(buf[..]), Printed(BodyPieces(devs), buflen - 1), |Flat(BodyPieces(devs))| - (buflen - 1))
      ensures Ready(g) && Rest == BodyPieces(devs)
    {
      hide BodyPieces, Printed, Flat;
      p, maxlen, Text, Rest, Top := 0, buflen - 1, "", BodyPieces(devs), 0;
      g := Goal(buflen - 1, buf[..], Printed(Rest, maxlen), |Flat(Rest)| - maxlen);
      Copy(HEADER);
      ghost var written := buf[..p];
      buf[p] := '\0';
      Top := Larger(Top, p + 1);
      assert buf[..p] == written == [] + HEADER == HEADER + "";
      assert "" + Printed(Rest, maxlen) == Printed(Rest, maxlen);
    }
  }

  lemma Next(s: string, more: seq<string>, room: nat)
    ensures Flat([s] + more) == s + Flat(more)
    ensures Printed([s] + more, room) == if |s| > room then "" else s + Printed(more, room - |s|)
  {
    assert ([s] + more)[1..] == more;
  }

  lemma Empty(a: string, b: string)
    ensures "" + a == a && "" + b == b
  {
  }

  lemma Finished(room: nat)
    ensures Printed([], room) == "" && Flat([]) == ""
  {
  }

  lemma FourPieces(gap: bool, p: Part, more: seq<string>)
    ensures PartPieces(gap, p) + more ==
      [MemsizeFormat(p.size)] + ([OffsetText(gap, p.offset)] + ([NameText(p.name)] + ([RoText(p.ro)] + more)))
  {
    hide MemsizeFormat, OffsetText, NameText, RoText;
  }

  lemma NextPart(prev: Option<Part>, parts: seq<Part>, i: nat, more: seq<string>)
    requires i < |parts|
    ensures PartsPieces(prev, parts[i..]) + more == PartPieces(Gap(prev, parts[i]), parts[i])
      + ([if i + 1 < |parts| then "," else ""] + (PartsPieces(Some(parts[i]), parts[i + 1..]) + more))
  {
    hide PartPieces, Gap;
    assert parts[i..][1..] == parts[i + 1..] && parts[i..][0] == parts[i];
    var a, b, c := PartPieces(Gap(prev, parts[i]), parts[i]), [if i + 1 < |parts| then "," else ""], PartsPieces(Some(parts[i]), parts[i + 1..]);
    assert PartsPieces(prev, parts[i..]) == a + (b + c);
    hide PartsPieces;
    Assoc(a, b + c, more);
    Assoc(b, c, more);
  }

  lemma NextDevice(devs: seq<Dev>, i: nat)
    requires i < |devs|
    ensures BodyPieces(devs[i..]) == DevPieces(devs[i]) + ([if i + 1 < |devs| then ";" else ""] + BodyPieces(devs[i + 1..]))
  {
    hide DevPieces;
    assert devs[i..][1..] == devs[i + 1..] && devs[i..][0] == devs[i];
  }

  lemma NoParts(prev: Option<Part>)
    ensures PartsPieces(prev, []) == []
  {
  }

  lemma NoDevices()
    ensures BodyPieces([]) == []
  {
  }

  lemma PartsTextHead(prev: Option<Part>, rest: seq<Part>)
    requires rest != []
    ensures PartsText(prev, rest) == PartText(Gap(prev, rest[0]), rest[0])
            + (if |rest| > 1 then "," else "") + PartsText(Some(rest[0]), rest[1..])
  {
    hide PartText, Gap;
  }

  lemma BodyHead(rest: seq<Dev>)
    requires rest != []
    ensures Body(rest) == DevText(rest[0]) + (if |rest| > 1 then ";" else "") + Body(rest[1..])
  {
    hide DevText;
    var head, tail := DevText(rest[0]), Body(rest[1..]);
    if |rest| > 1 {
      assert Body(rest) == head + (";" + tail);
      hide Body;
      Assoc(head, ";", tail);
    } else {
      assert Body(rest) == head + "" && tail == "";
    }
  }
}
