/** The loops of cmd_mtdparts.c that read and write the `mtdparts` string, with `p` as the pointer
    they advance, proved to compute what MtdText and MtdParts say. */
module MtdParser {
  import opened Bytes
  import opened MtdText
  import opened MtdParts
  import opened MtdLaws

  // ---------- reading ----------

  method DigitsFrom(s: string, p0: nat, base: nat) returns (result: word, p: nat)
    requires p0 <= |s|
    ensures p0 <= p <= |s| && DigitLoop(s[p0..], base, 0) == (result, s[p..])
  {
    result, p := 0, p0;
    while InBase(At(s, p), base)
      invariant p0 <= p <= |s| && DigitLoop(s[p..], base, result) == DigitLoop(s[p0..], base, 0)
      decreases |s| - p
    {
      assert s[p..][1..] == s[p + 1..];
      result := (result * base + DigitValue(s[p])) % MODULUS;
      p := p + 1;
    }
  }

  method SimpleStrtoul(s: string, p0: nat) returns (result: word, p: nat)
    requires p0 <= |s|
    ensures p0 <= p <= |s| && StrToUl(s[p0..]) == (result, s[p..])
  {
    p := p0;
    var base := 0;
    if At(s, p) == '0' {
      p := p + 1;
      if At(s, p) == 'x' && IsXDigit(At(s, p + 1)) {
        base := 16;
        p := p + 1;
      }
      if base == 0 {
        base := 8;
      }
    }
    if base == 0 {
      base := 10;
    }
    assert s[p0..][p - p0..] == s[p..];
    result, p := DigitsFrom(s, p, base);
  }

  /** The fall-through switch over the suffix. */
  method ParseMemsize(s: string, p0: nat) returns (ret: word, p: nat)
    requires p0 <= |s|
    ensures p0 <= p <= |s| && MemsizeParse(s[p0..]) == (ret, s[p..])
  {
    hide StrToUl;
    ret, p := SimpleStrtoul(s, p0);
    ghost var n, k, rest := ret, Shifts(At(s, p)), s[p..];
    var c := At(s, p);
    if c == 'G' || c == 'g' {
      ret := ret * 1024 % MODULUS;
    }
    if c in "Gg" || c in "Mm" {
      ret := ret * 1024 % MODULUS;
    }
    if c in "Gg" || c in "Mm" || c in "Kk" {
      ret := ret * 1024 % MODULUS;
      p := p + 1;
    }
    assert Scale(n, k) == ret by {
      assert k == 3 ==> Scale(n, 3) == Scale(n * 1024 % MODULUS, 2);
      assert k == 3 ==> Scale(n * 1024 % MODULUS, 2) == Scale(n * 1024 % MODULUS * 1024 % MODULUS, 1);
    }
    assert At(rest, 0) == c;
  }

  method FindChar(s: string, p0: nat, c: char) returns (p: Option<nat>)
    requires p0 <= |s| && c != '\0'
    ensures match StrChr(s[p0..], c)
            case None => p.None?
            case Some(k) => p == Some(p0 + k)
  {
    var q := p0;
    while At(s, q) != '\0'
      invariant p0 <= q <= |s|
      invariant StrChr(s[p0..], c) == match StrChr(s[q..], c) case None => None case Some(k) => Some(q - p0 + k)
      decreases |s| - q
    {
      assert s[q..][1..] == s[q + 1..];
      if s[q] == c {
        return Some(q);
      }
      q := q + 1;
    }
    return None;
  }

  method ParseName(s: string, p0: nat) returns (r: Option<(Option<string>, nat)>)
    requires p0 <= |s|
    ensures match NameParse(s[p0..])
            case None => r.None?
            case Some((name, rest)) => r.Some? && r.value.0 == name && p0 <= r.value.1 <= |s| && s[r.value.1..] == rest
  {
    if At(s, p0) == '(' {
      var name := p0 + 1;
      assert s[p0..][1..] == s[name..];
      var close := FindChar(s, name, ')');
      if close.None? { return None; }
      var p := close.value;
      if p - name == 0 { return None; }
      assert s[p0..][1..p - p0] == s[name..p];
      assert s[p0..][p - p0 + 1..] == s[p + 1..];
      return Some((Some(s[name..p]), p + 1));
    }
    return Some((None, p0));
  }

  method ParseRo(s: string, p0: nat) returns (ro: bool, p: nat)
    requires p0 <= |s|
    ensures p0 <= p <= |s| && RoParse(s[p0..]) == (ro, s[p..])
  {
    ghost var rest := s[p0..];
    assert At(rest, 0) == At(s, p0) && At(rest, 1) == At(s, p0 + 1);
    ro, p := false, p0;
    if At(s, p) == 'r' && At(s, p + 1) == 'o' {
      ro := true;
      p := p + 2;
      assert rest[2..] == s[p..];
    }
  }

  method ParsePart(s: string, p0: nat) returns (r: Option<(Part, nat)>)
    requires p0 <= |s|
    ensures match PartParse(s[p0..])
            case None => r.None?
            case Some((part, rest)) => r.Some? && r.value.0 == part && p0 < r.value.1 <= |s| && s[r.value.1..] == rest
  {
    PartShrinks(s[p0..]);
    hide MemsizeParse, NameParse, RoParse;
    var p, size := p0, SIZE_REMAINING;
    if At(s, p) == '-' {
      p := p + 1;
      assert s[p0..][1..] == s[p..];
    } else {
      size, p := ParseMemsize(s, p);
      if size < MIN_PART_SIZE { return None; }
    }
    ghost var s1 := s[p..];
    assert At(s1, 0) == At(s, p);
    var offset := OFFSET_NOT_SPECIFIED;
    if At(s, p) == '@' {
      p := p + 1;
      assert s1[1..] == s[p..];
      offset, p := ParseMemsize(s, p);
    }
    var named := ParseName(s, p);
    if named.None? { return None; }
    var (name, q) := named.value;
    p := q;
    var ro;
    ro, p := ParseRo(s, p);
    ghost var s4 := s[p..];
    assert At(s4, 0) == At(s, p);
    if At(s, p) == ',' {
      if size == SIZE_REMAINING { return None; }
      p := p + 1;
      assert s4[1..] == s[p..];
    } else if At(s, p) != ';' && At(s, p) != '\0' {
      return None;
    }
    return Some((Part(size, offset, name, ro), p));
  }

  /** The search loop over the erase blocks of all regions; it leaves `start` behind the last one. */
  method FindBlock(rs: seq<Region>, x: nat) returns (found: bool, start: nat)
    ensures found <==> StartsIn(rs, x)
    ensures !found && rs != [] ==> var last := rs[|rs| - 1]; start == last.offset + Times(last.numblocks, last.erasesize)
  {
    start := 0;
    for i := 0 to |rs|
      invariant forall k :: 0 <= k < i ==> !Starts(rs[k], x)
      invariant i > 0 ==> start == rs[i - 1].offset + Times(rs[i - 1].numblocks, rs[i - 1].erasesize)
    {
      start := rs[i].offset;
      for j := 0 to rs[i].numblocks
        invariant start == rs[i].offset + Times(j, rs[i].erasesize)
        invariant forall k: nat :: k < j ==> rs[i].offset + Times(k, rs[i].erasesize) != x
      {
        if x == start {
          assert Starts(rs[i], x);
          return true, start;
        }
        assert Times(j + 1, rs[i].erasesize) == Times(j, rs[i].erasesize) + rs[i].erasesize;
        start := start + rs[i].erasesize;
      }
    }
    return false, start;
  }

  /** `part_validate_eraseblock`. */
  method ValidateEraseblock(id: MtdId, offset: nat, size: nat) returns (ok: bool)
    ensures ok <==> Whole(id, offset, offset + size)
  {
    WholeIff(id, offset, size);
    match id.flash {
      case None => return false;
      case Some(Uniform(e)) =>
        if offset % e != 0 { return false; }
        if size % e != 0 { return false; }
        return true;
      case Some(NonUniform(rs)) =>
        var found, start := FindBlock(rs, offset);
        if !found { return false; }
        found, start := FindBlock(rs, offset + size);
        if found { return true; }
        return offset + size == start;
    }
  }

  /** `part_validate`, in unsigned 32-bit arithmetic. */
  method ValidatePart(id: MtdId, p: Part) returns (r: Option<Part>)
    ensures r == Validate(id, p)
  {
    var part := p;
    if part.size == SIZE_REMAINING {
      part := part.(size := (id.size - part.offset) % MODULUS);
    }
    var end := (part.offset + part.size) % MODULUS;
    if part.offset > id.size { return None; }
    if end <= part.offset { return None; }
    if end > id.size { return None; }
    var ok := ValidateEraseblock(id, part.offset, part.size);
    WholeIff(id, part.offset, part.size);
    hide Whole, EraseblockOk;
    return if ok then Some(part) else None;
  }

  /** What the rest of the partition loop adds to what it has. */
  ghost function Resume(acc: seq<Part>, r: Option<(seq<Part>, string)>): Option<(seq<Part>, string)> {
    match r case None => None case Some((ps, rest)) => Some((acc + ps, rest))
  }

  /** The partition loop of `device_parse`. */
  method ParseParts(s: string, p0: nat, id: MtdId, offset0: word) returns (r: Option<(seq<Part>, nat)>)
    requires p0 <= |s|
    ensures match PartsParse(s[p0..], id, offset0)
            case None => r.None?
            case Some((ps, rest)) => r.Some? && r.value.0 == ps && p0 <= r.value.1 <= |s| && s[r.value.1..] == rest
  {
    hide PartParse, Validate;
    var p: nat, offset: word, tmpList: seq<Part> := p0, offset0, [];
    ghost var all := PartsParse(s[p0..], id, offset0);
    assert all == Resume([], all) by {
      if all.Some? { assert [] + all.value.0 == all.value.0; }
    }
    while At(s, p) != '\0' && At(s, p) != ';'
      invariant p0 <= p <= |s|
      invariant all == Resume(tmpList, PartsParse(s[p..], id, offset))
      decreases |s| - p
    {
      assert At(s[p..], 0) == At(s, p);
      var parsed := ParsePart(s, p);
      if parsed.None? { return None; }
      var part, q := parsed.value.0, parsed.value.1;
      if part.offset == OFFSET_NOT_SPECIFIED {
        part := part.(offset := offset);
      } else {
        offset := part.offset;
      }
      var valid := ValidatePart(id, part);
      if valid.None? { return None; }
      part := valid.value;
      offset := (offset + part.size) % MODULUS;
      ghost var more := PartsParse(s[q..], id, offset);
      assert more.Some? ==> tmpList + ([part] + more.value.0) == tmpList + [part] + more.value.0;
      tmpList := tmpList + [part];
      p := q;
    }
    assert At(s[p..], 0) == At(s, p);
    assert tmpList + [] == tmpList;
    return Some((tmpList, p));
  }

  /** Moving the parsed partitions over to the device, each to its place. */
  method SortParts(parts: seq<Part>) returns (r: Option<seq<Part>>)
    ensures r == InsertAll([], parts)
  {
    var sorted: seq<Part> := [];
    assert parts[0..] == parts;
    for i := 0 to |parts|
      invariant InsertAll(sorted, parts[i..]) == InsertAll([], parts)
    {
      assert parts[i..][1..] == parts[i + 1..];
      var s := Insert(sorted, parts[i]);
      if s.None? { return None; }
      sorted := s.value;
    }
    return Some(sorted);
  }

  method ParseDevice(s: string, p0: nat, ids: seq<MtdId>, known: seq<Dev>) returns (r: Option<(Dev, nat)>)
    requires p0 <= |s|
    ensures match DeviceParse(s[p0..], ids, known)
            case None => r.None?
            case Some((d, rest)) => r.Some? && r.value.0 == d && p0 < r.value.1 <= |s| && s[r.value.1..] == rest
  {
    hide PartsParse, InsertAll;
    var colon := FindChar(s, p0, ':');
    if colon.None? { return None; }
    var p := colon.value;
    assert s[p0..][..p - p0] == s[p0..p];
    var id := FindId(ids, s[p0..p]);
    if id.None? { return None; }
    p := p + 1;
    assert s[p0..][p - p0..] == s[p..];
    var parsed := ParseParts(s, p, id.value, StartOffset(known, id.value));
    if parsed.None? { return None; }
    var (tmpList, q) := parsed.value;
    if tmpList == [] { return None; }
    p := q;
    assert At(s[p..], 0) == At(s, p);
    if At(s, p) == ';' {
      p := p + 1;
      assert s[p - 1..][1..] == s[p..];
    }
    var parts := SortParts(tmpList);
    if parts.None? { return None; }
    return Some((Dev(id.value, parts.value), p));
  }

  method ParseTable(s: string, ids: seq<MtdId>) returns (r: Option<seq<Dev>>)
    ensures r == ParseMtdparts(s, ids)
  {
    hide DeviceParse;
    if |s| < 9 || s[..9] != HEADER { return None; }
    assert HEADER <= s;
    var p, err, devices: seq<Dev> := 9, true, [];
    while At(s, p) != '\0'
      invariant 9 <= p <= |s| && (err <==> p == 9) && (p > 9 ==> At(s, 9) != '\0')
      invariant DevicesParse(s[p..], ids, devices) == DevicesParse(s[9..], ids, [])
      decreases |s| - p
    {
      err := true;
      assert At(s[p..], 0) == At(s, p);
      var parsed := ParseDevice(s, p, ids, devices);
      if parsed.None? { return None; }
      var (dev, q) := parsed.value;
      if FindDev(devices, dev.id).Some? { return None; }
      devices := devices + [dev];
      p := q;
      err := false;
    }
    assert At(s[p..], 0) == At(s, p);
    if err { return None; }
    return Some(devices);
  }
}
