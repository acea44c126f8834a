/** Partitions and devices as values, their printed form and the parser for it. */
module MtdParts {
  import opened Bytes
  import opened MtdText

  // ---------- devices and partitions ----------

  type pos = n: nat | n > 0 witness 1

  datatype Region = Region(offset: nat, erasesize: pos, numblocks: nat)

  datatype Geometry = Uniform(erasesize: pos) | NonUniform(regions: seq<Region>)

  /** An entry of the mtdids table; `flash` is None when the MTD layer does not know the device. */
  datatype MtdId = MtdId(typ: nat, num: nat, size: word, name: string, flash: Option<Geometry>)

  /** A partition; `name` is None for a generated name. */
  datatype Part = Part(size: word, offset: word, name: Option<string>, ro: bool)

  datatype Dev = Dev(id: MtdId, parts: seq<Part>)

  // ---------- part_validate ----------

  /** `x` is where one of the region's erase blocks starts. */
  predicate InRegion(r: Region, x: nat) {
    x >= r.offset && (x - r.offset) % r.erasesize == 0 && (x - r.offset) / r.erasesize < r.numblocks
  }

  predicate BlockStart(rs: seq<Region>, x: nat) {
    exists i :: 0 <= i < |rs| && InRegion(rs[i], x)
  }

  /** `part_validate_eraseblock`: both ends of the partition are erase block boundaries. */
  predicate EraseblockOk(id: MtdId, offset: nat, size: nat) {
    match id.flash
    case None => false
    case Some(Uniform(e)) => offset % e == 0 && size % e == 0
    case Some(NonUniform(rs)) =>
      && BlockStart(rs, offset)
      && (BlockStart(rs, offset + size)
          || var last := rs[|rs| - 1]; offset + size == last.offset + last.numblocks * last.erasesize)
  }

  /** `part_validate`: the partition with its size filled in, or None. */
  function Validate(id: MtdId, p: Part): (r: Option<Part>)
    ensures r.Some? ==> r.value == p.(size := r.value.size) && p.offset < p.offset + r.value.size <= id.size
  {
    var size := if p.size == SIZE_REMAINING then (id.size - p.offset) % MODULUS else p.size;
    var end := (p.offset + size) % MODULUS;
    if p.offset > id.size then None
    else if end <= p.offset || end > id.size then None
    else if !EraseblockOk(id, p.offset, size) then None
    else Some(p.(size := size))
  }

  // ---------- the sorted list ----------

  /** `part_sort_add` on values: before the first partition at the same or a higher offset; only
      one partition may start at offset 0. */
  function Insert(parts: seq<Part>, p: Part): Option<seq<Part>> {
    if parts == [] then Some([p])
    else if p.offset == parts[0].offset == 0 then None
    else if p.offset <= parts[0].offset then Some([p] + parts)
    else match Insert(parts[1..], p)
         case None => None
         case Some(rest) => Some([parts[0]] + rest)
  }

  function InsertAll(sorted: seq<Part>, parts: seq<Part>): Option<seq<Part>>
    decreases |parts|
  {
    if parts == [] then Some(sorted)
    else match Insert(sorted, parts[0])
         case None => None
         case Some(s) => InsertAll(s, parts[1..])
  }

  // ---------- generate_mtdparts ----------

  /** The offset is printed only when the partition does not start where the previous one ends. */
  predicate Gap(prev: Option<Part>, p: Part) {
    match prev
    case None => p.offset != 0
    case Some(q) => (q.offset + q.size) % MODULUS != p.offset
  }

  function PartText(gap: bool, p: Part): string {
    MemsizeFormat(p.size) + OffsetText(gap, p.offset) + NameText(p.name) + RoText(p.ro)
  }

  function OffsetText(gap: bool, offset: word): string {
    if gap then "@" + MemsizeFormat(offset) else ""
  }

  function NameText(name: Option<string>): string {
    match name case None => "" case Some(n) => "(" + n + ")"
  }

  function RoText(ro: bool): string { if ro then "ro" else "" }

  function PartsText(prev: Option<Part>, parts: seq<Part>): string
    decreases |parts|
  {
    if parts == [] then ""
    else PartText(Gap(prev, parts[0]), parts[0])
         + if |parts| == 1 then "" else "," + PartsText(Some(parts[0]), parts[1..])
  }

  function DevText(d: Dev): string {
    d.id.name + ":" + PartsText(None, d.parts)
  }

  function Body(devs: seq<Dev>): string {
    if devs == [] then ""
    else DevText(devs[0]) + if |devs| == 1 then "" else ";" + Body(devs[1..])
  }

  const HEADER: string := "mtdparts="

  // ---------- parse_mtdparts ----------

  /** `strchr`. */
  function StrChr(s: string, c: char): (r: Option<nat>)
    requires c != '\0'
    ensures r.Some? ==> r.value < |s| && s[r.value] == c && c !in s[..r.value]
  {
    if At(s, 0) == '\0' then None
    else if s[0] == c then Some(0)
    else match StrChr(s[1..], c) case None => None case Some(k) => Some(k + 1)
  }

  function NameParse(s: string): Option<(Option<string>, string)> {
    if At(s, 0) != '(' then Some((None, s))
    else match StrChr(s[1..], ')')
         case None => None
         case Some(k) => if k == 0 then None else Some((Some(s[1..k + 1]), s[k + 2..]))
  }

  function RoParse(s: string): (bool, string) {
    if At(s, 0) == 'r' && At(s, 1) == 'o' then (true, s[2..]) else (false, s)
  }

  function PartParse(s: string): Option<(Part, string)> {
    var (size, s1) := if At(s, 0) == '-' then (SIZE_REMAINING, s[1..]) else MemsizeParse(s);
    if size < MIN_PART_SIZE then None
    else
      var (offset, s2) := if At(s1, 0) == '@' then MemsizeParse(s1[1..]) else (OFFSET_NOT_SPECIFIED, s1);
      match NameParse(s2)
      case None => None
      case Some((name, s3)) =>
        var (ro, s4) := RoParse(s3);
        var p := Part(size, offset, name, ro);
        if At(s4, 0) == ',' then (if size == SIZE_REMAINING then None else Some((p, s4[1..])))
        else if At(s4, 0) in {';', '\0'} then Some((p, s4))
        else None
  }

  lemma {:induction false} DigitLoopShrinks(s: string, base: nat, acc: word)
    ensures var (n, rest) := DigitLoop(s, base, acc); |rest| <= |s| && (|rest| == |s| ==> n == acc)
    decreases |s|
  {
    if s != [] && InBase(s[0], base) {
      DigitLoopShrinks(s[1..], base, (acc * base + DigitValue(s[0])) % MODULUS);
    }
  }

  lemma MemsizeShrinks(s: string)
    ensures var (n, rest) := MemsizeParse(s); |rest| <= |s| && (|rest| == |s| ==> n == 0)
  {
    DigitLoopShrinks(s, 10, 0);
    if At(s, 0) == '0' {
      DigitLoopShrinks(s[1..], 8, 0);
      if At(s, 1) == 'x' && IsXDigit(At(s, 2)) {
        DigitLoopShrinks(s[2..], 16, 0);
      }
    }
    var (n, rest) := StrToUl(s);
    assert |rest| == |s| ==> n == 0;
  }

  lemma PartShrinks(s: string)
    ensures PartParse(s).Some? ==> |PartParse(s).value.1| < |s|
  {
    hide MemsizeParse;
    MemsizeShrinks(s);
    var (size, s1) := if At(s, 0) == '-' then (SIZE_REMAINING, s[1..]) else MemsizeParse(s);
    if At(s1, 0) == '@' {
      MemsizeShrinks(s1[1..]);
    }
  }

  /** The partition loop of `device_parse`; `offset` is where an unplaced partition goes. */
  ghost function PartsParse(s: string, id: MtdId, offset: word): Option<(seq<Part>, string)>
    decreases |s|
  {
    if At(s, 0) in {'\0', ';'} then Some(([], s))
    else
      PartShrinks(s);
      match PartParse(s)
      case None => None
      case Some((raw, rest)) =>
        match Validate(id, if raw.offset == OFFSET_NOT_SPECIFIED then raw.(offset := offset) else raw)
        case None => None
        case Some(p) =>
          match PartsParse(rest, id, (p.offset + p.size) % MODULUS)
          case None => None
          case Some((ps, rest')) => Some(([p] + ps, rest'))
  }

  function FindId(ids: seq<MtdId>, name: string): Option<MtdId> {
    if ids == [] then None else if ids[0].name == name then Some(ids[0]) else FindId(ids[1..], name)
  }

  function FindDev(devs: seq<Dev>, id: MtdId): (r: Option<Dev>)
    ensures r.Some? ==> r.value in devs
  {
    if devs == [] then None
    else if devs[0].id.typ == id.typ && devs[0].id.num == id.num then Some(devs[0])
    else FindDev(devs[1..], id)
  }

  /** Partitions of an already known device start behind its last one. */
  function StartOffset(known: seq<Dev>, id: MtdId): word {
    match FindDev(known, id)
    case None => 0
    case Some(d) => if d.parts == [] then 0 else (d.parts[|d.parts| - 1].offset + d.parts[|d.parts| - 1].size) % MODULUS
  }

  ghost function DeviceParse(s: string, ids: seq<MtdId>, known: seq<Dev>): Option<(Dev, string)> {
    match StrChr(s, ':')
    case None => None
    case Some(k) =>
      match FindId(ids, s[..k])
      case None => None
      case Some(id) =>
        match PartsParse(s[k + 1..], id, StartOffset(known, id))
        case None => None
        case Some((ps, rest)) =>
          if ps == [] then None
          else match InsertAll([], ps)
               case None => None
               case Some(sorted) => Some((Dev(id, sorted), if At(rest, 0) == ';' then rest[1..] else rest))
  }

  lemma {:induction false} PartsShrink(s: string, id: MtdId, offset: word)
    ensures PartsParse(s, id, offset).Some? ==> |PartsParse(s, id, offset).value.1| <= |s|
    decreases |s|
  {
    hide PartParse, Validate;
    if At(s, 0) !in {'\0', ';'} && PartParse(s).Some? {
      PartShrinks(s);
      var (raw, rest) := PartParse(s).value;
      var v := Validate(id, if raw.offset == OFFSET_NOT_SPECIFIED then raw.(offset := offset) else raw);
      if v.Some? {
        PartsShrink(rest, id, (v.value.offset + v.value.size) % MODULUS);
      }
    }
  }

  lemma DeviceShrinks(s: string, ids: seq<MtdId>, known: seq<Dev>)
    ensures DeviceParse(s, ids, known).Some? ==> |DeviceParse(s, ids, known).value.1| < |s|
  {
    hide PartsParse, InsertAll;
    match StrChr(s, ':') {
      case None =>
      case Some(k) =>
        match FindId(ids, s[..k]) {
          case None =>
          case Some(id) => PartsShrink(s[k + 1..], id, StartOffset(known, id));
        }
    }
  }

  ghost function DevicesParse(s: string, ids: seq<MtdId>, known: seq<Dev>): Option<seq<Dev>>
    decreases |s|
  {
    if At(s, 0) == '\0' then Some(known)
    else
      DeviceShrinks(s, ids, known);
      match DeviceParse(s, ids, known)
      case None => None
      case Some((d, rest)) =>
        if FindDev(known, d.id).Some? then None else DevicesParse(rest, ids, known + [d])
  }

  ghost function ParseMtdparts(s: string, ids: seq<MtdId>): Option<seq<Dev>> {
    if !(HEADER <= s) || At(s, 9) == '\0' then None else DevicesParse(s[9..], ids, [])
  }
}
