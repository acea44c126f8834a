/** Parsing what generate_mtdparts printed rebuilds the table. */
module MtdRoundTrip {
  import opened Bytes
  import opened MtdText
  import opened MtdParts

  // ---------- tables that the claim is about ----------

  predicate NoNulChar(s: string) { '\0' !in s }

  predicate NameOk(name: Option<string>) {
    name.Some? ==> name.value != "" && ')' !in name.value && NoNulChar(name.value)
  }

  predicate PartOk(id: MtdId, p: Part) {
    NameOk(p.name) && Validate(id, p) == Some(p)
  }

  /** A validated list: one partition after the other at rising offsets. */
  ghost predicate PartsOk(id: MtdId, parts: seq<Part>) {
    && (forall i :: 0 <= i < |parts| ==> PartOk(id, parts[i]))
    && (forall i, j :: 0 <= i < j < |parts| ==> parts[i].offset < parts[j].offset)
  }

  /** The sizes that survive: not below the parser's minimum, and only the last partition may have
      the size that the parser reads as "all the rest". */
  predicate Readable(parts: seq<Part>) {
    parts == [] ||
    (parts[0].size >= MIN_PART_SIZE && (|parts| > 1 ==> parts[0].size != SIZE_REMAINING) && Readable(parts[1..]))
  }

  ghost predicate DevOk(ids: seq<MtdId>, d: Dev) {
    && d.parts != [] && PartsOk(d.id, d.parts)
    && ':' !in d.id.name && NoNulChar(d.id.name)
    && FindId(ids, d.id.name) == Some(d.id)
  }

  ghost predicate TableOk(ids: seq<MtdId>, devs: seq<Dev>) {
    && (forall i :: 0 <= i < |devs| ==> DevOk(ids, devs[i]))
    && (forall i, j :: 0 <= i < j < |devs| ==> (devs[i].id.typ, devs[i].id.num) != (devs[j].id.typ, devs[j].id.num))
  }

  // ---------- one partition ----------

  /** What may follow a printed partition. */
  predicate Tail(s: string) { s == "" || s[0] in {',', ';'} }

  lemma {:induction false} StrChrFinds(a: string, c: char, rest: string)
    requires c != '\0' && c !in a && NoNulChar(a)
    ensures StrChr(a + [c] + rest, c) == Some(|a|)
  {
    if a != [] {
      assert (a + [c] + rest)[1..] == a[1..] + [c] + rest;
      StrChrFinds(a[1..], c, rest);
    }
  }

  lemma NameRoundTrip(name: Option<string>, rest: string)
    requires NameOk(name) && At(rest, 0) != '('
    ensures NameParse(NameText(name) + rest) == Some((name, rest))
  {
    match name {
      case None =>
        assert "" + rest == rest;
      case Some(n) =>
        var s := NameText(name) + rest;
        StrChrFinds(n, ')', rest);
        assert s[1..] == n + [')'] + rest;
        assert s[1..|n| + 1] == n && s[|n| + 2..] == rest;
    }
  }

  lemma RoRoundTrip(ro: bool, tail: string)
    requires Tail(tail)
    ensures RoParse(RoText(ro) + tail) == (ro, tail)
  {
    if ro {
      assert ("ro" + tail)[2..] == tail;
    } else {
      assert "" + tail == tail;
    }
  }

  lemma OffsetRoundTrip(gap: bool, offset: word, rest: string)
    requires EndsSize(At(rest, 0)) && At(rest, 0) != '@'
    ensures var s := OffsetText(gap, offset) + rest;
      && EndsSize(At(s, 0))
      && (if At(s, 0) == '@' then MemsizeParse(s[1..]) else (OFFSET_NOT_SPECIFIED, s))
         == (if gap then offset else OFFSET_NOT_SPECIFIED, rest)
  {
    hide MemsizeFormat, MemsizeParse;
    MemsizeRoundTrip(offset, rest);
    if gap {
      assert ("@" + MemsizeFormat(offset) + rest)[1..] == MemsizeFormat(offset) + rest;
    } else {
      assert "" + rest == rest;
    }
  }

  lemma SizeFirst(size: word, rest: string)
    ensures IsDigit(At(MemsizeFormat(size) + rest, 0))
  {
  }

  lemma Regroup(a: string, b: string, c: string, d: string, e: string)
    ensures a + b + c + d + e == a + (b + (c + (d + e)))
  {
  }

  /** What comes after the size of a printed partition. */
  function AfterSize(gap: bool, p: Part, tail: string): string {
    OffsetText(gap, p.offset) + (NameText(p.name) + (RoText(p.ro) + tail))
  }

  lemma PartTextIs(gap: bool, p: Part, tail: string)
    ensures PartText(gap, p) + tail == MemsizeFormat(p.size) + AfterSize(gap, p, tail)
  {
    hide MemsizeFormat, OffsetText, NameText, RoText;
    Regroup(MemsizeFormat(p.size), OffsetText(gap, p.offset), NameText(p.name), RoText(p.ro), tail);
  }

  lemma AfterOffset(p: Part, tail: string)
    requires NameOk(p.name) && Tail(tail)
    ensures At(tail, 0) in {',', ';', '\0'}
    ensures At(RoText(p.ro) + tail, 0) in {'r', ',', ';', '\0'}
    ensures At(NameText(p.name) + (RoText(p.ro) + tail), 0) in {'(', 'r', ',', ';', '\0'}
  {
    var s := RoText(p.ro) + tail;
    assert At(s, 0) in {'r', ',', ';', '\0'};
    hide RoText, Tail;
    assert p.name.None? ==> NameText(p.name) + s == s;
  }

  /** `part_parse` on a definition whose pieces are known. */
  lemma Pieced(s: string, size: word, s1: string, offset: word, s2: string, p: Part, s3: string, tail: string)
    requires At(s, 0) != '-' && MemsizeParse(s) == (size, s1)
    requires (if At(s1, 0) == '@' then MemsizeParse(s1[1..]) else (OFFSET_NOT_SPECIFIED, s1)) == (offset, s2)
    requires NameParse(s2) == Some((p.name, s3)) && RoParse(s3) == (p.ro, tail) && At(tail, 0) in {',', ';', '\0'}
    ensures PartParse(s) ==
            if size < MIN_PART_SIZE || (size == SIZE_REMAINING && At(tail, 0) == ',') then None
            else Some((Part(size, offset, p.name, p.ro), if At(tail, 0) == ',' then tail[1..] else tail))
  {
    hide MemsizeParse, NameParse, RoParse;
  }

  /** A printed partition is read back, with an omitted offset reported as not specified; it is
      refused when its size is below the minimum or is the fill-up size with more to come. */
  lemma PartRoundTrip(gap: bool, p: Part, tail: string)
    requires NameOk(p.name) && Tail(tail)
    ensures PartParse(PartText(gap, p) + tail) ==
            if p.size < MIN_PART_SIZE || (p.size == SIZE_REMAINING && At(tail, 0) == ',') then None
            else Some((if gap then p else p.(offset := OFFSET_NOT_SPECIFIED), if At(tail, 0) == ',' then tail[1..] else tail))
    ensures IsDigit(At(PartText(gap, p) + tail, 0))
  {
    var s4 := RoText(p.ro) + tail;
    var s3 := NameText(p.name) + s4;
    AfterOffset(p, tail);
    hide PartParse, MemsizeFormat, MemsizeParse, NameParse, RoParse, OffsetText, NameText, RoText, PartText, Tail, NameOk;
    var s2 := AfterSize(gap, p, tail);
    PartTextIs(gap, p, tail);
    RoRoundTrip(p.ro, tail);
    NameRoundTrip(p.name, s4);
    OffsetRoundTrip(gap, p.offset, s3);
    MemsizeRoundTrip(p.size, s2);
    SizeFirst(p.size, s2);
    Pieced(PartText(gap, p) + tail, p.size, s2, if gap then p.offset else OFFSET_NOT_SPECIFIED, s3, p, s4, tail);
  }

  // ---------- one device ----------

  /** Where the parser is about to place a partition without an offset. */
  function Expected(prev: Option<Part>): word {
    match prev case None => 0 case Some(q) => (q.offset + q.size) % MODULUS
  }

  /** One turn of the parser's loop over a printed list. */
  lemma PartsStep(id: MtdId, prev: Option<Part>, p: Part, tail: string)
    requires PartOk(id, p) && Tail(tail)
    ensures var rest := if At(tail, 0) == ',' then tail[1..] else tail;
            PartsParse(PartText(Gap(prev, p), p) + tail, id, Expected(prev)) ==
            if p.size < MIN_PART_SIZE || (p.size == SIZE_REMAINING && At(tail, 0) == ',') then None
            else match PartsParse(rest, id, Expected(Some(p)))
                 case None => None
                 case Some((ps, rest')) => Some(([p] + ps, rest'))
  {
    hide PartParse, PartText, Validate;
    PartRoundTrip(Gap(prev, p), p, tail);
    ValidOffset(id, p);
  }

  /** Reading a printed list gives the list, with the omitted offsets recomputed, exactly when its
      sizes are readable; otherwise the parser refuses it. */
  lemma {:induction false} PartsRoundTrip(id: MtdId, prev: Option<Part>, parts: seq<Part>, tail: string)
    requires PartsOk(id, parts) && parts != [] && (tail == "" || tail[0] == ';')
    ensures PartsParse(PartsText(prev, parts) + tail, id, Expected(prev))
            == if Readable(parts) then Some((parts, tail)) else None
    decreases |parts|
  {
    var p, more := parts[0], parts[1..];
    PartsOkTail(id, parts);
    hide PartsOk, PartParse, PartText, Validate, PartOk;
    if more == [] {
      hide Gap, Expected;
      LastPart(id, prev, p, tail);
      assert [p] == parts;
      assert PartsText(prev, [p]) == PartText(Gap(prev, p), p) + "";
    } else {
      hide PartsParse;
      var after := "," + (PartsText(Some(p), more) + tail);
      ListText(prev, parts, tail);
      PartsStep(id, prev, p, after);
      hide PartsText, Gap, Expected;
      assert after[1..] == PartsText(Some(p), more) + tail;
      PartsRoundTrip(id, Some(p), more, tail);
      assert [p] + more == parts;
    }
  }

  lemma LastPart(id: MtdId, prev: Option<Part>, p: Part, tail: string)
    requires PartOk(id, p) && (tail == "" || tail[0] == ';')
    ensures PartsParse((PartText(Gap(prev, p), p) + "") + tail, id, Expected(prev))
            == if p.size >= MIN_PART_SIZE then Some(([p], tail)) else None
  {
    hide PartOk, PartParse, PartText, Validate, Gap;
    assert PartText(Gap(prev, p), p) + "" == PartText(Gap(prev, p), p);
    PartsStep(id, prev, p, tail);
    assert PartsParse(tail, id, Expected(Some(p))) == Some(([], tail));
    assert [p] + [] == [p];
  }

  lemma ListText(prev: Option<Part>, parts: seq<Part>, tail: string)
    requires |parts| > 1
    ensures PartsText(prev, parts) + tail
            == PartText(Gap(prev, parts[0]), parts[0]) + ("," + (PartsText(Some(parts[0]), parts[1..]) + tail))
  {
    hide PartText;
  }

  lemma PartsOkTail(id: MtdId, parts: seq<Part>)
    requires PartsOk(id, parts) && parts != []
    ensures PartOk(id, parts[0]) && PartsOk(id, parts[1..])
  {
    hide PartOk;
  }

  /** No validated partition starts at the offset that stands for "not specified". */
  lemma ValidOffset(id: MtdId, p: Part)
    requires Validate(id, p) == Some(p)
    ensures p.offset != OFFSET_NOT_SPECIFIED && p.offset + p.size < MODULUS
  {
  }

  lemma {:induction false} InsertLast(sorted: seq<Part>, p: Part)
    requires forall i :: 0 <= i < |sorted| ==> sorted[i].offset < p.offset
    ensures Insert(sorted, p) == Some(sorted + [p])
  {
    if sorted != [] {
      InsertLast(sorted[1..], p);
      assert [sorted[0]] + (sorted[1..] + [p]) == sorted + [p];
    } else {
      assert sorted + [p] == [p];
    }
  }

  lemma {:induction false} InsertAllSorted(sorted: seq<Part>, parts: seq<Part>)
    requires forall i, j :: 0 <= i < j < |sorted + parts| ==> (sorted + parts)[i].offset < (sorted + parts)[j].offset
    ensures InsertAll(sorted, parts) == Some(sorted + parts)
    decreases |parts|
  {
    if parts != [] {
      forall i | 0 <= i < |sorted|
        ensures sorted[i].offset < parts[0].offset
      {
        assert (sorted + parts)[i] == sorted[i] && (sorted + parts)[|sorted|] == parts[0];
      }
      InsertLast(sorted, parts[0]);
      assert (sorted + [parts[0]]) + parts[1..] == sorted + parts;
      InsertAllSorted(sorted + [parts[0]], parts[1..]);
    } else {
      assert sorted + parts == sorted;
    }
  }

  lemma DeviceHead(ids: seq<MtdId>, known: seq<Dev>, id: MtdId, body: string)
    requires ':' !in id.name && NoNulChar(id.name) && FindId(ids, id.name) == Some(id) && FindDev(known, id).None?
    ensures DeviceParse(id.name + [':'] + body, ids, known) ==
            match PartsParse(body, id, 0)
            case None => None
            case Some((ps, rest)) =>
              if ps == [] then None
              else match InsertAll([], ps)
                   case None => None
                   case Some(sorted) => Some((Dev(id, sorted), if At(rest, 0) == ';' then rest[1..] else rest))
  {
    hide PartsParse, InsertAll, StrChr, FindId;
    var s, k := id.name + [':'] + body, |id.name|;
    StrChrFinds(id.name, ':', body);
    assert s[..k] == id.name && s[k + 1..] == body;
  }

  lemma DeviceRoundTrip(ids: seq<MtdId>, known: seq<Dev>, d: Dev, tail: string)
    requires DevOk(ids, d) && FindDev(known, d.id).None? && (tail == "" || tail[0] == ';')
    ensures DeviceParse(DevText(d) + tail, ids, known)
            == if Readable(d.parts) then Some((d, if tail == "" then "" else tail[1..])) else None
  {
    InsertsBack(d.id, d.parts);
    hide PartsParse, PartsText, InsertAll, PartsOk, Readable, FindDev, FindId, DeviceParse;
    var body := PartsText(None, d.parts) + tail;
    assert DevText(d) + tail == d.id.name + [':'] + body;
    DeviceHead(ids, known, d.id, body);
    PartsRoundTrip(d.id, None, d.parts, tail);
  }

  lemma InsertsBack(id: MtdId, parts: seq<Part>)
    requires PartsOk(id, parts)
    ensures InsertAll([], parts) == Some(parts)
  {
    hide PartOk;
    assert [] + parts == parts;
    InsertAllSorted([], parts);
  }

  // ---------- the table ----------

  lemma {:induction false} NotKnown(known: seq<Dev>, id: MtdId)
    requires forall i :: 0 <= i < |known| ==> (known[i].id.typ, known[i].id.num) != (id.typ, id.num)
    ensures FindDev(known, id).None?
  {
    if known != [] {
      NotKnown(known[1..], id);
    }
  }

  predicate AllReadable(devs: seq<Dev>) {
    devs == [] || (Readable(devs[0].parts) && AllReadable(devs[1..]))
  }

  /** The next device of a good table is good and not known yet. */
  lemma NextDevice(ids: seq<MtdId>, known: seq<Dev>, devs: seq<Dev>)
    requires TableOk(ids, known + devs) && devs != []
    ensures DevOk(ids, devs[0])
    ensures forall i :: 0 <= i < |known| ==> (known[i].id.typ, known[i].id.num) != (devs[0].id.typ, devs[0].id.num)
    ensures (known + [devs[0]]) + devs[1..] == known + devs
  {
    hide DevOk;
    assert (known + devs)[|known|] == devs[0];
    forall i | 0 <= i < |known|
      ensures (known[i].id.typ, known[i].id.num) != (devs[0].id.typ, devs[0].id.num)
    {
      assert (known + devs)[i] == known[i];
    }
  }

  lemma {:induction false} DevicesRoundTrip(ids: seq<MtdId>, known: seq<Dev>, devs: seq<Dev>)
    requires TableOk(ids, known + devs)
    ensures DevicesParse(Body(devs), ids, known) == if AllReadable(devs) then Some(known + devs) else None
    decreases |devs|
  {
    hide DeviceParse, DevText, TableOk, PartsOk, Readable;
    if devs == [] {
      assert known + devs == known;
    } else {
      var d, more := devs[0], devs[1..];
      NextDevice(ids, known, devs);
      NotKnown(known, d.id);
      var tail := if more == [] then "" else ";" + Body(more);
      DeviceRoundTrip(ids, known, d, tail);
      assert Body(devs) == DevText(d) + tail;
      assert tail != "" ==> tail[1..] == Body(more);
      TextNotEmpty(d, tail);
      DevicesRoundTrip(ids, known + [d], more);
    }
  }

  lemma TextNotEmpty(d: Dev, tail: string)
    requires NoNulChar(d.id.name)
    ensures At(DevText(d) + tail, 0) != '\0'
  {
  }

  /** Parsing the generated string rebuilds exactly the table it was generated from (devices in
      order, and of each partition its size, offset, read-only flag and user-given name) if and
      only if all sizes are readable; a table with an unreadable one is refused. */
  lemma RoundTrip(ids: seq<MtdId>, devs: seq<Dev>)
    requires TableOk(ids, devs) && devs != []
    ensures ParseMtdparts(HEADER + Body(devs), ids) == if AllReadable(devs) then Some(devs) else None
  {
    hide DevicesParse, DevText;
    var s := HEADER + Body(devs);
    assert s[9..] == Body(devs);
    assert HEADER <= s;
    var tail := if |devs| == 1 then "" else ";" + Body(devs[1..]);
    assert Body(devs) == DevText(devs[0]) + tail;
    TextNotEmpty(devs[0], tail);
    assert At(s, 9) == At(Body(devs), 0);
    assert [] + devs == devs;
    DevicesRoundTrip(ids, [], devs);
  }
}
