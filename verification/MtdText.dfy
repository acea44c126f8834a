/** The `mtdparts` string: what generate_mtdparts prints and what parse_mtdparts reads. */
module MtdText {
  import opened Bytes

  const SIZE_REMAINING: word := 0xFFFF_FFFF
  const OFFSET_NOT_SPECIFIED: word := 0xFFFF_FFFF
  const MIN_PART_SIZE: nat := 4096
  const GB: nat := 0x4000_0000
  const MB: nat := 0x10_0000
  const KB: nat := 0x400

  /** The character a C string pointer sees at `i`: the terminator at the end. */
  function At(s: string, i: nat): char {
    if i < |s| then s[i] else '\0'
  }

  // ---------- numbers ----------

  predicate IsDigit(c: char) { '0' <= c <= '9' }

  predicate IsXDigit(c: char) { IsDigit(c) || 'a' <= c <= 'f' || 'A' <= c <= 'F' }

  function DigitValue(c: char): nat
    requires IsXDigit(c)
  {
    if IsDigit(c) then c as int - '0' as int
    else if 'a' <= c <= 'f' then c as int - 'a' as int + 10
    else c as int - 'A' as int + 10
  }

  predicate InBase(c: char, base: nat) { IsXDigit(c) && DigitValue(c) < base }

  /** The digit loop of `simple_strtoul`: value modulo 2^32 and what is left of the string. */
  function DigitLoop(s: string, base: nat, acc: word): (word, string)
    decreases |s|
  {
    if s != [] && InBase(s[0], base) then DigitLoop(s[1..], base, (acc * base + DigitValue(s[0])) % MODULUS)
    else (acc, s)
  }

  /** `simple_strtoul` with base 0: a leading 0 means octal, 0x hexadecimal. */
  function StrToUl(s: string): (word, string) {
    if At(s, 0) != '0' then DigitLoop(s, 10, 0)
    else if At(s, 1) == 'x' && IsXDigit(At(s, 2)) then DigitLoop(s[2..], 16, 0)
    else DigitLoop(s[1..], 8, 0)
  }

  /** How often the suffix shifts by ten bits. */
  function Shifts(c: char): nat {
    if c in {'G', 'g'} then 3 else if c in {'M', 'm'} then 2 else if c in {'K', 'k'} then 1 else 0
  }

  function Scale(n: word, shifts: nat): word
    decreases shifts
  {
    if shifts == 0 then n else Scale(n * 1024 % MODULUS, shifts - 1)
  }

  function MemsizeParse(s: string): (word, string) {
    var (n, rest) := StrToUl(s);
    var k := Shifts(At(rest, 0));
    (Scale(n, k), if k > 0 then rest[1..] else rest)
  }

  const DIGITS: string := "0123456789"

  /** `%u`. */
  function Decimal(n: nat): (s: string)
    ensures s != [] && IsDigit(s[0])
  {
    var d := [DIGITS[n % 10]];
    if n < 10 then d else Decimal(n / 10) + d
  }

  function MemsizeFormat(size: word): string {
    if size % GB == 0 then Decimal(size / GB) + "g"
    else if size % MB == 0 then Decimal(size / MB) + "m"
    else if size % KB == 0 then Decimal(size / KB) + "k"
    else Decimal(size)
  }

  lemma DigitLoopAppend(n: word, rest: string)
    requires !InBase(At(rest, 0), 10)
    ensures DigitLoop(Decimal(n) + rest, 10, 0) == (n, rest)
  {
    hide Decimal;
    DigitPrefix(n, rest, []);
    assert Decimal(n) + [] + rest == Decimal(n) + rest;
    assert [] + rest == rest;
  }

  /** Reading the digits of n and then those of `more` is reading on from n. */
  lemma {:induction false} DigitPrefix(n: word, rest: string, more: string)
    ensures DigitLoop(Decimal(n) + more + rest, 10, 0) == DigitLoop(more + rest, 10, n)
    decreases n
  {
    var d := [DIGITS[n % 10]];
    OneDigit(n % 10, n / 10, more + rest);
    assert d + (more + rest) == d + more + rest;
    if n >= 10 {
      DigitPrefix(n / 10, rest, d + more);
      assert Decimal(n) + more + rest == Decimal(n / 10) + (d + more) + rest;
    }
  }

  lemma OneDigit(k: nat, acc: nat, tail: string)
    requires k < 10 && acc * 10 + k < MODULUS
    ensures DigitLoop([DIGITS[k]] + tail, 10, acc) == DigitLoop(tail, 10, acc * 10 + k)
  {
    assert ([DIGITS[k]] + tail)[1..] == tail;
  }

  lemma {:induction false} DecimalNoZero(n: nat)
    ensures n > 0 ==> Decimal(n)[0] != '0'
    ensures n == 0 ==> Decimal(n) == "0"
  {
    if n >= 10 {
      DecimalNoZero(n / 10);
    }
  }

  /** What may follow a size: not a character that would be read as part of it. */
  predicate EndsSize(c: char) {
    !IsXDigit(c) && Shifts(c) == 0 && c != 'x'
  }

  lemma ScaleStep(n: word, k: nat)
    requires k > 0 && n * 1024 < MODULUS
    ensures Scale(n, k) == Scale(n * 1024, k - 1)
  {
  }

  /** What a suffix stands for: 1, KB, MB or GB. */
  function Unit(k: nat): (u: nat)
    ensures u > 0
  {
    if k == 0 then 1 else 1024 * Unit(k - 1)
  }

  lemma {:induction false} ScaleIs(n: word, k: nat)
    requires n * Unit(k) < MODULUS
    ensures Scale(n, k) == n * Unit(k)
    decreases k
  {
    if k > 0 {
      var u := Unit(k - 1);
      assert n * (1024 * u) == n * 1024 * u;
      assert n * 1024 <= n * 1024 * u by {
        assert n * 1024 * (u - 1) >= 0;
      }
      ScaleStep(n, k);
      ScaleIs(n * 1024, k - 1);
    }
  }

  lemma Units()
    ensures Unit(1) == KB && Unit(2) == MB && Unit(3) == GB
  {
  }

  lemma DecimalThen(n: word, rest: string)
    requires 0 < n && !IsXDigit(At(rest, 0))
    ensures StrToUl(Decimal(n) + rest) == (n, rest)
  {
    DecimalNoZero(n);
    DigitLoopAppend(n, rest);
  }

  /** `memsize_parse` undoes `memsize_format`, for every 32-bit size. */
  lemma MemsizeRoundTrip(size: word, rest: string)
    requires EndsSize(At(rest, 0))
    ensures MemsizeParse(MemsizeFormat(size) + rest) == (size, rest)
  {
    Units();
    if size == 0 {
      assert MemsizeFormat(0) + rest == "0g" + rest;
      assert ("0g" + rest)[1..] == "g" + rest;
      assert ("g" + rest)[1..] == rest;
      ScaleIs(0, 3);
    } else if size % GB == 0 {
      Suffixed(size / GB, 'g', rest);
    } else if size % MB == 0 {
      Suffixed(size / MB, 'm', rest);
    } else if size % KB == 0 {
      Suffixed(size / KB, 'k', rest);
    } else {
      DecimalThen(size, rest);
    }
  }

  lemma Suffixed(n: word, c: char, rest: string)
    requires 0 < n && c in {'g', 'm', 'k'} && n * Unit(Shifts(c)) < MODULUS
    ensures MemsizeParse(Decimal(n) + [c] + rest) == (n * Unit(Shifts(c)), rest)
  {
    assert Decimal(n) + [c] + rest == Decimal(n) + ([c] + rest);
    DecimalThen(n, [c] + rest);
    assert ([c] + rest)[1..] == rest;
    ScaleIs(n, Shifts(c));
  }
}
