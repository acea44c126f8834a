/** What is accepted from any `mtdparts` text, in numbers: which partitions, what "-" stands for, and which tables. */
module MtdLaws {
  import opened Arith
  import opened Bytes
  import opened MtdText
  import opened MtdParts
  import opened MtdRoundTrip

  // ---------- when a partition is accepted ----------

  function Times(k: nat, e: nat): nat { k * e }

  ghost predicate Multiple(x: nat, e: nat) {
    exists k: nat :: Times(k, e) == x
  }

  /** An erase block of the region starts at x. */
  ghost predicate Starts(r: Region, x: nat) {
    exists k: nat :: k < r.numblocks && r.offset + Times(k, r.erasesize) == x
  }

  ghost predicate StartsIn(rs: seq<Region>, x: nat) {
    exists i :: 0 <= i < |rs| && Starts(rs[i], x)
  }

  /** The partition from `start` to `end` is made of whole erase blocks. */
  ghost predicate Whole(id: MtdId, start: nat, end: nat) {
    match id.flash
    case None => false
    case Some(Uniform(e)) => Multiple(start, e) && Multiple(end, e)
    case Some(NonUniform(rs)) =>
      && StartsIn(rs, start)
      && (StartsIn(rs, end) || var last := rs[|rs| - 1]; end == last.offset + Times(last.numblocks, last.erasesize))
  }

  lemma MultipleIff(x: nat, e: nat)
    requires e > 0
    ensures Multiple(x, e) <==> x % e == 0
  {
    if x % e == 0 {
      assert Times(x / e, e) == x;
    }
    if Multiple(x, e) {
      var k: nat :| Times(k, e) == x;
      DivUnique(x, k, 0, e);
    }
  }

  lemma StartsIff(r: Region, x: nat)
    ensures Starts(r, x) <==> InRegion(r, x)
  {
    if InRegion(r, x) {
      var k := (x - r.offset) / r.erasesize;
      assert r.offset + Times(k, r.erasesize) == x;
    }
    if Starts(r, x) {
      var k: nat :| k < r.numblocks && r.offset + Times(k, r.erasesize) == x;
      DivUnique(x - r.offset, k, 0, r.erasesize);
    }
  }

  lemma StartsInIff(rs: seq<Region>, x: nat)
    ensures StartsIn(rs, x) <==> BlockStart(rs, x)
  {
    hide InRegion, Starts;
    forall i | 0 <= i < |rs|
      ensures Starts(rs[i], x) <==> InRegion(rs[i], x)
    {
      StartsIff(rs[i], x);
    }
  }

  lemma SumMultiple(a: nat, b: nat, e: nat)
    requires e > 0 && a % e == 0
    ensures (a + b) % e == 0 <==> b % e == 0
  {
    DivAdd(b, a / e, e);
  }

  lemma WholeIff(id: MtdId, offset: nat, size: nat)
    ensures EraseblockOk(id, offset, size) <==> Whole(id, offset, offset + size)
  {
    hide Multiple, BlockStart, StartsIn;
    match id.flash {
      case None =>
      case Some(Uniform(e)) =>
        MultipleIff(offset, e);
        MultipleIff(offset + size, e);
        if offset % e == 0 {
          SumMultiple(offset, size, e);
        }
      case Some(NonUniform(rs)) =>
        StartsInIff(rs, offset);
        StartsInIff(rs, offset + size);
    }
  }

  /** The size a partition is accepted with: the one given, or all that remains behind its offset. */
  function SizeOf(id: MtdId, p: Part): int {
    if p.size == SIZE_REMAINING then id.size as int - p.offset as int else p.size
  }

  /** A partition is accepted if and only if it is not empty, ends inside the device and is made of whole erase blocks;
      a fill-up partition ends where the device ends. */
  lemma ValidIff(id: MtdId, p: Part)
    ensures var size := SizeOf(id, p);
      Validate(id, p) ==
        if 0 < size && p.offset + size <= id.size && Whole(id, p.offset, p.offset + size) then Some(p.(size := size)) else None
    ensures p.size == SIZE_REMAINING && Validate(id, p).Some? ==> p.offset + Validate(id, p).value.size == id.size
  {
    hide EraseblockOk, Whole;
    var size := SizeOf(id, p);
    if 0 < size && p.offset + size <= id.size {
      WholeIff(id, p.offset, size);
    }
  }

  // ---------- what a list of definitions means ----------

  /** The definitions of a list as they are written, and what follows the list. */
  ghost function Definitions(s: string): Option<(seq<Part>, string)>
    decreases |s|
  {
    if At(s, 0) in {'\0', ';'} then Some(([], s))
    else
      PartShrinks(s);
      match PartParse(s)
      case None => None
      case Some((def, rest)) =>
        match Definitions(rest)
        case None => None
        case Some((more, rest')) => Some(([def] + more, rest'))
  }

  /** Where definition i begins: where it says, or else behind the partition before it. */
  function Begin(o: nat, defs: seq<Part>, ps: seq<Part>, i: nat): nat
    requires i < |defs| == |ps|
  {
    if defs[i].offset != OFFSET_NOT_SPECIFIED then defs[i].offset
    else if i == 0 then o else ps[i - 1].offset + ps[i - 1].size
  }

  /** Partition i is what definition i stands for, and fits the device. */
  ghost predicate MeansAt(id: MtdId, o: nat, defs: seq<Part>, ps: seq<Part>, i: nat)
    requires i < |defs| == |ps|
  {
    var begin := Begin(o, defs, ps, i);
    var end := if defs[i].size == SIZE_REMAINING then id.size else begin + defs[i].size;
    && ps[i].offset == begin && ps[i].offset + ps[i].size == end
    && ps[i].name == defs[i].name && ps[i].ro == defs[i].ro
    && begin < end <= id.size && Whole(id, begin, end)
  }

  ghost predicate Means(id: MtdId, o: nat, defs: seq<Part>, ps: seq<Part>) {
    |defs| == |ps| && forall i :: 0 <= i < |ps| ==> MeansAt(id, o, defs, ps, i)
  }

  lemma MeansCons(id: MtdId, o: nat, def: Part, defs: seq<Part>, p: Part, ps: seq<Part>)
    ensures Means(id, o, [def] + defs, [p] + ps) <==>
      MeansAt(id, o, [def], [p], 0) && Means(id, p.offset + p.size, defs, ps)
  {
    var ds, qs, next := [def] + defs, [p] + ps, p.offset + p.size;
    hide MeansAt;
    if Means(id, o, ds, qs) {
      FirstOfMeans(id, o, def, defs, p, ps);
      forall i | 0 <= i < |ps|
        ensures MeansAt(id, next, defs, ps, i)
      {
        assert MeansAt(id, o, ds, qs, i + 1);
        MeansShift(id, o, def, defs, p, ps, i);
      }
    }
    if MeansAt(id, o, [def], [p], 0) && Means(id, p.offset + p.size, defs, ps) {
      FirstOfMeans(id, o, def, defs, p, ps);
      forall i | 0 <= i < |qs|
        ensures MeansAt(id, o, ds, qs, i)
      {
        if i > 0 {
          MeansShift(id, o, def, defs, p, ps, i - 1);
        }
      }
    }
  }

  lemma FirstOfMeans(id: MtdId, o: nat, def: Part, defs: seq<Part>, p: Part, ps: seq<Part>)
    requires |defs| == |ps|
    ensures MeansAt(id, o, [def] + defs, [p] + ps, 0) <==> MeansAt(id, o, [def], [p], 0)
  {
    hide Whole;
  }

  lemma MeansShift(id: MtdId, o: nat, def: Part, defs: seq<Part>, p: Part, ps: seq<Part>, i: nat)
    requires i < |defs| == |ps|
    ensures MeansAt(id, o, [def] + defs, [p] + ps, i + 1) <==> MeansAt(id, p.offset + p.size, defs, ps, i)
  {
    hide Whole;
    var ds, qs := [def] + defs, [p] + ps;
    assert ds[i + 1] == defs[i] && qs[i + 1] == ps[i];
    assert i > 0 ==> qs[i] == ps[i - 1];
  }

  lemma FirstMeans(id: MtdId, o: word, def: Part, p: Part)
    ensures MeansAt(id, o, [def], [p], 0)
      <==> Validate(id, if def.offset == OFFSET_NOT_SPECIFIED then def.(offset := o) else def) == Some(p)
  {
    hide Validate, Whole;
    var q := if def.offset == OFFSET_NOT_SPECIFIED then def.(offset := o) else def;
    ValidIff(id, q);
  }

  lemma {:induction false} PartsMean(s: string, id: MtdId, o: word)
    ensures PartsParse(s, id, o).Some? ==>
      && Definitions(s).Some? && Definitions(s).value.1 == PartsParse(s, id, o).value.1
      && Means(id, o, Definitions(s).value.0, PartsParse(s, id, o).value.0)
    decreases |s|
  {
    hide PartParse, Validate, Means, MeansAt;
    if At(s, 0) in {'\0', ';'} {
      NoMeaning(id, o, []);
    } else if PartsParse(s, id, o).Some? {
      PartShrinks(s);
      var (def, after) := PartParse(s).value;
      var p := Validate(id, if def.offset == OFFSET_NOT_SPECIFIED then def.(offset := o) else def).value;
      var next := (p.offset + p.size) % MODULUS;
      PartsMean(after, id, next);
      FirstMeans(id, o, def, p);
      EndsInside(id, o, def, p);
      MeansCons(id, o, def, Definitions(after).value.0, p, PartsParse(after, id, next).value.0);
    }
  }

  lemma {:induction false} MeantIsParsed(s: string, id: MtdId, o: word, ps: seq<Part>)
    requires Definitions(s).Some? && Means(id, o, Definitions(s).value.0, ps)
    ensures PartsParse(s, id, o) == Some((ps, Definitions(s).value.1))
    decreases |s|
  {
    hide PartParse, Validate, Means, MeansAt;
    if At(s, 0) in {'\0', ';'} {
      NoMeaning(id, o, ps);
    } else {
      PartShrinks(s);
      var (def, after) := PartParse(s).value;
      var defs := Definitions(after).value.0;
      SameCount(id, o, [def] + defs, ps);
      var p, more := ps[0], ps[1..];
      assert ps == [p] + more;
      MeansCons(id, o, def, defs, p, more);
      FirstMeans(id, o, def, p);
      EndsInside(id, o, def, p);
      MeantIsParsed(after, id, (p.offset + p.size) % MODULUS, more);
    }
  }

  lemma NoMeaning(id: MtdId, o: nat, ps: seq<Part>)
    ensures Means(id, o, [], ps) <==> ps == []
  {
  }

  lemma SameCount(id: MtdId, o: nat, defs: seq<Part>, ps: seq<Part>)
    requires Means(id, o, defs, ps)
    ensures |defs| == |ps|
  {
  }

  lemma EndsInside(id: MtdId, o: nat, def: Part, p: Part)
    requires MeansAt(id, o, [def], [p], 0)
    ensures p.offset + p.size <= id.size && (p.offset + p.size) % MODULUS == p.offset + p.size
  {
    hide Whole;
  }

  /** For every text: the loop over a list of definitions gives exactly the partitions they stand for. A definition
      without an offset goes on where the one before ends, and one that fills up ends with the device. */
  lemma PartsMeaning(s: string, id: MtdId, o: word, ps: seq<Part>, rest: string)
    ensures PartsParse(s, id, o) == Some((ps, rest)) <==>
      Definitions(s).Some? && Definitions(s).value.1 == rest && Means(id, o, Definitions(s).value.0, ps)
  {
    PartsMean(s, id, o);
    if Definitions(s).Some? && Means(id, o, Definitions(s).value.0, ps) {
      MeantIsParsed(s, id, o, ps);
    }
    hide *;
  }

  // ---------- the grammar of one definition ----------

  lemma {:induction false} StrChrIff(s: string, c: char, k: nat)
    requires c != '\0'
    ensures StrChr(s, c) == Some(k) <==> k < |s| && s[k] == c && c !in s[..k] && NoNulChar(s[..k])
    decreases |s|
  {
    if At(s, 0) != '\0' && s[0] != c {
      if k > 0 {
        StrChrIff(s[1..], c, k - 1);
        assert k <= |s| ==> s[..k] == [s[0]] + s[1..][..k - 1];
      }
    } else if k > 0 && k <= |s| {
      assert s[..k][0] == s[0];
    }
  }

  ghost predicate Named(s: string, name: Option<string>, rest: string) {
    match name
    case None => At(s, 0) != '(' && rest == s
    case Some(n) => n != "" && ')' !in n && NoNulChar(n) && s == "(" + n + ")" + rest
  }

  lemma NameGrammar(s: string, name: Option<string>, rest: string)
    ensures NameParse(s) == Some((name, rest)) <==> Named(s, name, rest)
  {
    hide StrChr, NoNulChar;
    if At(s, 0) == '(' {
      if NameParse(s) == Some((name, rest)) {
        var k := StrChr(s[1..], ')').value;
        StrChrIff(s[1..], ')', k);
        Parentheses(s, k);
      }
      if Named(s, name, rest) {
        var n := name.value;
        AfterName(n, rest);
        StrChrIff(s[1..], ')', |n|);
      }
    }
  }

  lemma Parentheses(s: string, k: nat)
    requires k + 1 < |s| && s[0] == '(' && s[1..][k] == ')'
    ensures s == "(" + s[1..k + 1] + ")" + s[k + 2..] && s[1..][..k] == s[1..k + 1]
  {
  }

  lemma AfterName(n: string, rest: string)
    ensures var s := "(" + n + ")" + rest;
      s[0] == '(' && |s[1..]| > |n| && s[1..][|n|] == ')' && s[1..][..|n|] == s[1..|n| + 1] == n && s[|n| + 2..] == rest
  {
    var s := "(" + n + ")" + rest;
    assert s[1..] == n + ")" + rest;
  }

  lemma RoGrammar(s: string, ro: bool, rest: string)
    ensures RoParse(s) == (ro, rest) <==> if ro then s == "ro" + rest else rest == s && !("ro" <= s)
  {
    assert At(s, 0) == 'r' && At(s, 1) == 'o' <==> "ro" <= s;
    assert "ro" <= s ==> s == "ro" + s[2..];
  }

  ghost predicate Sized(s: string, size: word, rest: string) {
    if At(s, 0) == '-' then size == SIZE_REMAINING && s == "-" + rest else size >= 4096 && MemsizeParse(s) == (size, rest)
  }

  ghost predicate Placed(s: string, offset: word, rest: string) {
    if At(s, 0) == '@' then MemsizeParse(s[1..]) == (offset, rest) else offset == OFFSET_NOT_SPECIFIED && rest == s
  }

  /** A comma must not follow a definition that fills up; nothing but a comma, a semicolon or the end may follow any. */
  ghost predicate Closed(s: string, size: word, rest: string) {
    if At(s, 0) == ',' then size != SIZE_REMAINING && s == "," + rest else At(s, 0) in {';', '\0'} && rest == s
  }

  ghost predicate Reads(s: string, p: Part, rest: string, s1: string, s2: string, s3: string, s4: string) {
    && Sized(s, p.size, s1) && Placed(s1, p.offset, s2) && Named(s2, p.name, s3)
    && (if p.ro then s3 == "ro" + s4 else s4 == s3 && !("ro" <= s3))
    && Closed(s4, p.size, rest)
  }

  /** The texts of one definition: a size of at least 4096 or "-", an offset, a name in parentheses, "ro". */
  lemma PartGrammar(s: string, p: Part, rest: string)
    ensures PartParse(s) == Some((p, rest)) <==> exists s1, s2, s3, s4 :: Reads(s, p, rest, s1, s2, s3, s4)
  {
    hide PartParse, Reads;
    if PartParse(s) == Some((p, rest)) {
      var s1, s2, s3, s4 := Reading(s, p, rest);
    }
    if exists s1, s2, s3, s4 :: Reads(s, p, rest, s1, s2, s3, s4) {
      var s1, s2, s3, s4 :| Reads(s, p, rest, s1, s2, s3, s4);
      Written(s, p, rest, s1, s2, s3, s4);
    }
  }

  lemma Reading(s: string, p: Part, rest: string) returns (s1: string, s2: string, s3: string, s4: string)
    requires PartParse(s) == Some((p, rest))
    ensures Reads(s, p, rest, s1, s2, s3, s4)
  {
    hide MemsizeParse, NameParse, RoParse, Named;
    s1 := if At(s, 0) == '-' then s[1..] else MemsizeParse(s).1;
    s2 := if At(s1, 0) == '@' then MemsizeParse(s1[1..]).1 else s1;
    s3, s4 := NameParse(s2).value.1, RoParse(NameParse(s2).value.1).1;
    NameGrammar(s2, p.name, s3);
    RoGrammar(s3, p.ro, s4);
  }

  lemma Written(s: string, p: Part, rest: string, s1: string, s2: string, s3: string, s4: string)
    requires Reads(s, p, rest, s1, s2, s3, s4)
    ensures PartParse(s) == Some((p, rest))
  {
    hide MemsizeParse, NameParse, RoParse, Named;
    assert At(s, 0) == '-' ==> s[1..] == s1;
    NameGrammar(s2, p.name, s3);
    RoGrammar(s3, p.ro, s4);
  }

  // ---------- numbers ----------

  function Power(base: nat, n: nat): nat {
    if n == 0 then 1 else base * Power(base, n - 1)
  }

  /** A row of digits as a number, each digit with the weight of its place. */
  function Numeral(ds: string, base: nat): nat
    requires forall i :: 0 <= i < |ds| ==> IsXDigit(ds[i])
  {
    if ds == "" then 0 else DigitValue(ds[0]) * Power(base, |ds| - 1) + Numeral(ds[1..], base)
  }

  predicate IsDigitIn(c: char, base: nat) { IsXDigit(c) && DigitValue(c) < base }

  ghost predicate DigitsIn(ds: string, base: nat) {
    forall i :: 0 <= i < |ds| ==> IsDigitIn(ds[i], base)
  }

  lemma DigitValues(k: nat)
    requires k < 16
    ensures var c, d := "0123456789abcdef"[k], "0123456789ABCDEF"[k];
      IsXDigit(c) && IsXDigit(d) && DigitValue(c) == DigitValue(d) == k
  {
  }

  lemma OnlyDigits(c: char)
    ensures IsXDigit(c) <==> c in "0123456789abcdefABCDEF"
  {
    var all := "0123456789abcdefABCDEF";
    if '0' <= c <= '9' {
      assert all[c as int - '0' as int] == c;
    } else if 'a' <= c <= 'f' {
      assert all[c as int - 'a' as int + 10] == c;
    } else if 'A' <= c <= 'F' {
      assert all[c as int - 'A' as int + 16] == c;
    }
  }

  lemma ModStep(a: nat, b: nat, v: nat, w: nat, n: nat)
    ensures ((a * b + v) % MODULUS * w + n) % MODULUS == (a * (b * w) + (v * w + n)) % MODULUS
  {
    var x := a * b + v;
    var q, r := x / MODULUS, x % MODULUS;
    assert x * w == a * (b * w) + v * w by {
      assert (a * b + v) * w == a * b * w + v * w;
      assert a * b * w == a * (b * w);
    }
    assert x * w == q * w * MODULUS + r * w by {
      assert (q * MODULUS + r) * w == q * MODULUS * w + r * w;
      assert q * MODULUS * w == q * w * MODULUS;
    }
    DivAdd(r * w + n, q * w, MODULUS);
  }

  lemma {:induction false} DigitsRead(ds: string, base: nat, acc: word, rest: string)
    requires DigitsIn(ds, base) && !IsDigitIn(At(rest, 0), base)
    ensures DigitLoop(ds + rest, base, acc) == ((acc * Power(base, |ds|) + Numeral(ds, base)) % MODULUS, rest)
    decreases |ds|
  {
    if ds == "" {
      assert ds + rest == rest;
    } else {
      var w, v := Power(base, |ds| - 1), DigitValue(ds[0]);
      assert (ds + rest)[1..] == ds[1..] + rest;
      assert DigitLoop(ds + rest, base, acc) == DigitLoop(ds[1..] + rest, base, (acc * base + v) % MODULUS);
      assert Power(base, |ds|) == base * w && Numeral(ds, base) == v * w + Numeral(ds[1..], base);
      hide DigitLoop, Power, Numeral, DigitValue, InBase;
      DigitsRead(ds[1..], base, (acc * base + v) % MODULUS, rest);
      ModStep(acc, base, v, w, Numeral(ds[1..], base));
    }
  }

  /** A number that does not begin with 0 is decimal, as far as its digits go, modulo 2^32. */
  lemma DecimalRead(ds: string, rest: string)
    requires ds != "" && ds[0] != '0' && DigitsIn(ds, 10) && !IsDigitIn(At(rest, 0), 10)
    ensures StrToUl(ds + rest) == (Numeral(ds, 10) % MODULUS, rest)
  {
    hide DigitLoop;
    DigitsRead(ds, 10, 0, rest);
  }

  /** Behind 0x it is hexadecimal. */
  lemma HexadecimalRead(ds: string, rest: string)
    requires ds != "" && DigitsIn(ds, 16) && !IsDigitIn(At(rest, 0), 16)
    ensures StrToUl("0x" + ds + rest) == (Numeral(ds, 16) % MODULUS, rest)
  {
    var s := "0x" + ds + rest;
    assert s[2..] == ds + rest && s[2] == ds[0] && IsDigitIn(ds[0], 16);
    DigitsRead(ds, 16, 0, rest);
    hide DigitLoop, Numeral;
  }

  /** Behind any other 0 it is octal; an x that no hexadecimal digit follows ends it. */
  lemma OctalRead(ds: string, rest: string)
    requires DigitsIn(ds, 8) && !IsDigitIn(At(rest, 0), 8)
    requires ds == "" ==> !(At(rest, 0) == 'x' && IsXDigit(At(rest, 1)))
    ensures StrToUl("0" + ds + rest) == (Numeral(ds, 8) % MODULUS, rest)
  {
    var s := "0" + ds + rest;
    assert s[1..] == ds + rest;
    assert ds != "" ==> s[1] == ds[0] && IsDigitIn(ds[0], 8);
    DigitsRead(ds, 8, 0, rest);
    hide DigitLoop, Numeral;
  }

  /** A suffix scales the number, modulo 2^32, and is used up. */
  lemma SuffixScales(s: string)
    ensures var (n, rest) := StrToUl(s);
      MemsizeParse(s) == if At(rest, 0) in {'k', 'K'} then (n * KB % MODULUS, rest[1..])
                         else if At(rest, 0) in {'m', 'M'} then (n * MB % MODULUS, rest[1..])
                         else if At(rest, 0) in {'g', 'G'} then (n * GB % MODULUS, rest[1..])
                         else (n, rest)
  {
    hide StrToUl;
    var (n, rest) := StrToUl(s);
    assert Scale(n, 1) == n * KB % MODULUS;
    ModStep(n, 1024, 0, 1024, 0);
    assert Scale(n, 2) == n * MB % MODULUS;
    ModStep(n, MB, 0, 1024, 0);
    assert Scale(n, 3) == n * GB % MODULUS by {
      assert Scale(n, 3) == Scale(n * 1024 % MODULUS, 2);
      ModStep(n, 1024, 0, MB, 0);
      ScaleTwo(n * 1024 % MODULUS);
    }
  }

  lemma ScaleTwo(n: word)
    ensures Scale(n, 2) == n * MB % MODULUS
  {
    assert Scale(n, 2) == Scale(n * 1024 % MODULUS, 1);
    ModStep(n, 1024, 0, 1024, 0);
  }

  /** A size is printed in the largest unit that divides it. */
  lemma FormatIs(size: word, n: nat, k: nat)
    requires k <= 3 && size == Times(n, Unit(k)) && (k == 3 || !Multiple(size, Unit(k + 1)))
    ensures MemsizeFormat(size) == Decimal(n) + ["", "k", "m", "g"][k]
  {
    Units();
    assert Unit(0) == 1;
    MultipleIff(size, Unit(k));
    DivUnique(size, n, 0, Unit(k));
    if k < 3 {
      MultipleIff(size, Unit(k + 1));
    }
    hide Decimal, Multiple, Unit;
    Divides(size);
    FormatBy(size, n, k);
  }

  lemma FormatBy(size: word, n: nat, k: nat)
    requires k <= 3
    requires k == 3 ==> size % GB == 0 && n == size / GB
    requires k == 2 ==> size % GB != 0 && size % MB == 0 && n == size / MB
    requires k == 1 ==> size % GB != 0 && size % MB != 0 && size % KB == 0 && n == size / KB
    requires k == 0 ==> size % GB != 0 && size % MB != 0 && size % KB != 0 && n == size
    ensures MemsizeFormat(size) == Decimal(n) + ["", "k", "m", "g"][k]
  {
    hide Decimal;
    assert Decimal(n) + "" == Decimal(n);
  }

  /** What a larger unit divides a smaller one divides. */
  lemma Divides(size: nat)
    ensures size % GB == 0 ==> size % MB == 0
    ensures size % MB == 0 ==> size % KB == 0
  {
    if size % GB == 0 {
      DivUnique(size, size / GB * 1024, 0, MB);
    }
    if size % MB == 0 {
      DivUnique(size, size / MB * 1024, 0, KB);
    }
  }

  /** The offset is printed exactly where the parser would put the partition elsewhere without it. */
  lemma OffsetNeeded(id: MtdId, prev: Option<Part>, p: Part, tail: string)
    requires PartOk(id, p) && p.size >= MIN_PART_SIZE && (tail == "" || tail[0] == ';')
    ensures PartsParse(PartText(false, p) + tail, id, Expected(prev)) == Some(([p], tail)) <==> !Gap(prev, p)
  {
    hide PartParse, PartText, Validate;
    PartRoundTrip(false, p, tail);
    ValidOffset(id, p);
    assert PartsParse(tail, id, (p.offset + p.size) % MODULUS) == Some(([], tail));
    var q := p.(offset := Expected(prev));
    ValidIff(id, q);
    if Validate(id, q).Some? {
      var v := Validate(id, q).value;
      assert PartsParse(tail, id, (v.offset + v.size) % MODULUS) == Some(([], tail));
      assert [v][0] == v && [p][0] == p && [v] + [] == [v];
    }
  }

  // ---------- the sorted list ----------

  ghost predicate Rising(ps: seq<Part>) {
    forall i, j :: 0 <= i < j < |ps| ==> ps[i].offset <= ps[j].offset
  }

  /** The partitions that begin at o, in their order. */
  function AtOffset(ps: seq<Part>, o: nat): seq<Part> {
    if ps == [] then [] else (if ps[0].offset == o then [ps[0]] else []) + AtOffset(ps[1..], o)
  }

  function Reversed(ps: seq<Part>): seq<Part> {
    if ps == [] then [] else Reversed(ps[1..]) + [ps[0]]
  }

  lemma {:induction false} NoneAt(ps: seq<Part>, o: nat)
    requires forall i :: 0 <= i < |ps| ==> ps[i].offset != o
    ensures AtOffset(ps, o) == []
  {
    if ps != [] {
      NoneAt(ps[1..], o);
    }
  }

  lemma {:induction false} SomeAt(ps: seq<Part>, p: Part)
    ensures p in AtOffset(ps, p.offset) <==> p in ps
    decreases |ps|
  {
    if ps != [] {
      SomeAt(ps[1..], p);
      assert p in ps <==> p == ps[0] || p in ps[1..];
    }
  }

  /** Inserting keeps the order and puts the new partition in front of those at its own offset; only a second one at
      offset 0 is refused. */
  lemma {:induction false} InsertIs(ps: seq<Part>, p: Part, o: nat)
    requires Rising(ps)
    ensures Insert(ps, p).None? <==> ps != [] && ps[0].offset == p.offset == 0
    ensures Insert(ps, p).Some? ==>
      && Rising(Insert(ps, p).value) && Insert(ps, p).value != []
      && Insert(ps, p).value[0].offset == (if ps == [] || p.offset <= ps[0].offset then p.offset else ps[0].offset)
      && AtOffset(Insert(ps, p).value, o) == (if p.offset == o then [p] else []) + AtOffset(ps, o)
    decreases |ps|
  {
    if ps == [] {
      assert [p][1..] == [];
    } else if p.offset <= ps[0].offset {
      assert ([p] + ps)[1..] == ps;
      hide AtOffset;
    } else {
      InsertIs(ps[1..], p, o);
      var r := Insert(ps[1..], p).value;
      RisingCons(ps[0], r);
      assert ([ps[0]] + r)[1..] == r;
      var here, behind := if ps[0].offset == o then [ps[0]] else [], AtOffset(ps[1..], o);
      assert here + ([] + behind) == [] + (here + behind);
      hide AtOffset, Insert;
    }
  }

  lemma RisingCons(p: Part, ps: seq<Part>)
    requires Rising(ps) && (ps != [] ==> p.offset <= ps[0].offset)
    ensures Rising([p] + ps)
  {
  }

  /** The list of a device: sorted by offset, those at one offset in the reverse of the order they were read in, and
      refused only for a second partition at offset 0. */
  lemma {:induction false} InsertAllIs(sorted: seq<Part>, ps: seq<Part>, o: nat)
    requires Rising(sorted) && |AtOffset(sorted, 0)| <= 1
    ensures InsertAll(sorted, ps).Some? <==> |AtOffset(sorted, 0)| + |AtOffset(ps, 0)| <= 1
    ensures InsertAll(sorted, ps).Some? ==>
      && Rising(InsertAll(sorted, ps).value)
      && AtOffset(InsertAll(sorted, ps).value, o) == Reversed(AtOffset(ps, o)) + AtOffset(sorted, o)
    decreases |ps|
  {
    if ps == [] {
      assert [] + AtOffset(sorted, o) == AtOffset(sorted, o);
    } else {
      var p, more := ps[0], ps[1..];
      InsertIs(sorted, p, o);
      InsertIs(sorted, p, 0);
      ZeroFirst(sorted);
      match Insert(sorted, p) {
        case None =>
        case Some(s) =>
          if p.offset != 0 || AtOffset(sorted, 0) == [] {
            InsertAllIs(s, more, o);
            ReversedAt(ps, o);
            Join3(Reversed(AtOffset(more, o)), if p.offset == o then [p] else [], AtOffset(sorted, o));
          }
      }
    }
  }

  lemma Join3(a: seq<Part>, b: seq<Part>, c: seq<Part>)
    ensures a + (b + c) == a + b + c
  {
  }

  lemma ReversedAt(ps: seq<Part>, o: nat)
    requires ps != []
    ensures Reversed(AtOffset(ps, o)) == Reversed(AtOffset(ps[1..], o)) + (if ps[0].offset == o then [ps[0]] else [])
  {
    var t := AtOffset(ps[1..], o);
    if ps[0].offset == o {
      assert ([ps[0]] + t)[1..] == t;
    } else {
      assert [] + t == t && Reversed(t) + [] == Reversed(t);
    }
  }

  /** In a sorted list offset 0 comes first. */
  lemma ZeroFirst(ps: seq<Part>)
    requires Rising(ps)
    ensures AtOffset(ps, 0) != [] <==> ps != [] && ps[0].offset == 0
  {
    if ps != [] && ps[0].offset != 0 {
      assert forall i :: 0 <= i < |ps| ==> ps[0].offset <= ps[i].offset;
      NoneAt(ps, 0);
    }
  }

  // ---------- every accepted table ----------

  ghost predicate PartSound(id: MtdId, p: Part) {
    && 0 < p.size && p.offset + p.size <= id.size && Whole(id, p.offset, p.offset + p.size)
    && (p.size >= 4096 || p.offset + p.size == id.size)
  }

  ghost predicate DevSound(ids: seq<MtdId>, d: Dev) {
    && d.id in ids && d.parts != [] && Rising(d.parts) && |AtOffset(d.parts, 0)| <= 1
    && forall p <- d.parts :: PartSound(d.id, p)
  }

  ghost predicate TableSound(ids: seq<MtdId>, devs: seq<Dev>) {
    && (forall i :: 0 <= i < |devs| ==> DevSound(ids, devs[i]))
    && (forall i, j :: 0 <= i < j < |devs| ==> (devs[i].id.typ, devs[i].id.num) != (devs[j].id.typ, devs[j].id.num))
  }

  lemma {:induction false} PartsSound(s: string, id: MtdId, o: word)
    ensures PartsParse(s, id, o).Some? ==> forall i :: 0 <= i < |PartsParse(s, id, o).value.0| ==> PartSound(id, PartsParse(s, id, o).value.0[i])
    decreases |s|
  {
    hide PartParse, Validate, PartSound;
    if At(s, 0) !in {'\0', ';'} && PartsParse(s, id, o).Some? {
      PartShrinks(s);
      var (def, after) := PartParse(s).value;
      var q := if def.offset == OFFSET_NOT_SPECIFIED then def.(offset := o) else def;
      var p := Validate(id, q).value;
      PartsSound(after, id, (p.offset + p.size) % MODULUS);
      AcceptedSound(s, id, def, q, after);
    }
  }

  lemma AcceptedSound(s: string, id: MtdId, def: Part, q: Part, after: string)
    requires PartParse(s) == Some((def, after)) && q.size == def.size && Validate(id, q).Some?
    ensures PartSound(id, Validate(id, q).value)
  {
    PartGrammar(s, def, after);
    ValidIff(id, q);
    hide PartParse, Validate, Whole, MemsizeParse, Placed, Named, Closed;
    var s1, s2, s3, s4 :| Reads(s, def, after, s1, s2, s3, s4);
    assert Sized(s, def.size, s1);
  }

  /** The first entry of exactly that name. */
  lemma {:induction false} FindIdIs(ids: seq<MtdId>, name: string)
    ensures FindId(ids, name).None? <==> forall i :: 0 <= i < |ids| ==> ids[i].name != name
    ensures FindId(ids, name).Some? ==> exists i ::
      0 <= i < |ids| && ids[i] == FindId(ids, name).value && ids[i].name == name && forall j :: 0 <= j < i ==> ids[j].name != name
  {
    if ids != [] && ids[0].name != name {
      FindIdIs(ids[1..], name);
      assert forall i :: 0 < i < |ids| ==> ids[i] == ids[1..][i - 1];
      if FindId(ids, name).Some? {
        var k :| 0 <= k < |ids[1..]| && ids[1..][k] == FindId(ids, name).value && ids[1..][k].name == name
          && forall j :: 0 <= j < k ==> ids[1..][j].name != name;
        assert ids[k + 1] == ids[1..][k];
      } else {
        assert forall i :: 0 <= i < |ids| - 1 ==> ids[1..][i].name != name;
      }
    }
  }

  /** An accepted device is the one the text names in front of the first colon. */
  lemma DeviceSound(s: string, ids: seq<MtdId>, known: seq<Dev>)
    ensures DeviceParse(s, ids, known).Some? ==>
      var d := DeviceParse(s, ids, known).value.0;
      DevSound(ids, d) && d.id.name + ":" <= s && ':' !in d.id.name
  {
    hide PartsParse, InsertAll, PartSound, FindId, Rising;
    if DeviceParse(s, ids, known).Some? {
      var k := StrChr(s, ':').value;
      var id := FindId(ids, s[..k]).value;
      FindIdIs(ids, s[..k]);
      assert s[..k] + ":" == s[..k + 1];
      var o := StartOffset(known, id);
      var (ps, rest) := PartsParse(s[k + 1..], id, o).value;
      PartsSound(s[k + 1..], id, o);
      ListSound(id, ps);
    }
  }

  lemma ListSound(id: MtdId, ps: seq<Part>)
    requires ps != [] && forall i :: 0 <= i < |ps| ==> PartSound(id, ps[i])
    ensures InsertAll([], ps).Some? ==>
      var r := InsertAll([], ps).value;
      r != [] && Rising(r) && |AtOffset(r, 0)| <= 1 && forall p <- r :: PartSound(id, p)
  {
    hide PartSound;
    InsertAllIs([], ps, 0);
    if InsertAll([], ps).Some? {
      var r := InsertAll([], ps).value;
      OnlyOnce(AtOffset(ps, 0));
      forall p | p in r
        ensures PartSound(id, p)
      {
        SameMembers(ps, r, p);
      }
      SameMembers(ps, r, ps[0]);
    }
  }

  lemma OnlyOnce(ps: seq<Part>)
    requires |ps| <= 1
    ensures Reversed(ps) + [] == ps
  {
  }

  /** Sorting neither loses nor invents a partition. */
  lemma SameMembers(ps: seq<Part>, r: seq<Part>, p: Part)
    requires InsertAll([], ps) == Some(r)
    ensures p in r <==> p in ps
  {
    InsertAllIs([], ps, 0);
    InsertAllIs([], ps, p.offset);
    SomeAt(ps, p);
    SomeAt(r, p);
    InReversed(AtOffset(ps, p.offset), p);
    assert Reversed(AtOffset(ps, p.offset)) + [] == Reversed(AtOffset(ps, p.offset));
  }

  lemma {:induction false} InReversed(ps: seq<Part>, p: Part)
    ensures p in Reversed(ps) <==> p in ps
  {
    if ps != [] {
      InReversed(ps[1..], p);
      assert p in ps <==> p == ps[0] || p in ps[1..];
    }
  }

  lemma {:induction false} FreshDevice(known: seq<Dev>, id: MtdId)
    requires FindDev(known, id).None?
    ensures forall i :: 0 <= i < |known| ==> (known[i].id.typ, known[i].id.num) != (id.typ, id.num)
  {
    if known != [] {
      FreshDevice(known[1..], id);
      assert forall i :: 0 < i < |known| ==> known[i] == known[1..][i - 1];
    }
  }

  lemma {:induction false} DevicesSound(s: string, ids: seq<MtdId>, known: seq<Dev>)
    requires TableSound(ids, known)
    ensures DevicesParse(s, ids, known).Some? ==>
      && TableSound(ids, DevicesParse(s, ids, known).value)
      && |DevicesParse(s, ids, known).value| >= |known| + if At(s, 0) == '\0' then 0 else 1
    decreases |s|
  {
    hide DeviceParse, DevSound;
    if At(s, 0) != '\0' && DevicesParse(s, ids, known).Some? {
      DeviceShrinks(s, ids, known);
      DeviceSound(s, ids, known);
      var (d, rest) := DeviceParse(s, ids, known).value;
      FreshDevice(known, d.id);
      DevicesSound(rest, ids, known + [d]);
    }
  }

  /** Whatever text is accepted: every device is a known one and named once, has partitions sorted by offset with at
      most one at offset 0, and each of them lies inside the device on whole erase blocks and has 4096 bytes or reaches
      the end of the device. */
  lemma ParsedSound(s: string, ids: seq<MtdId>)
    ensures ParseMtdparts(s, ids).Some? ==> ParseMtdparts(s, ids).value != [] && TableSound(ids, ParseMtdparts(s, ids).value)
  {
    hide DevicesParse;
    if ParseMtdparts(s, ids).Some? {
      DevicesSound(s[9..], ids, []);
    }
  }
}
