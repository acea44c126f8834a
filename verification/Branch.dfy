/** PowerPC branches in bedbug.c: what the assembler encodes, what the disassembler prints, and where a single step
    goes. Words are numbers below 2^32; a mask is a remainder and an or of disjoint fields a sum. */
module Branch {
  import opened Arith
  import opened Bytes

  function Wrap(x: int): word { x % MODULUS }

  // ---------- address operands ----------

  /** O_BD, 14 bits, and O_LI, 24 bits; both begin at bit 2. */
  datatype Field = BD | LI {
    function Width(): nat { if BD? then 0x4000 else 0x100_0000 }
  }

  /** `parse_operand` for an address, once memaddr is subtracted from it where the opcode is H_RELATIVE:
      the word offset without its sign, the sign bit, and the shift into place. */
  function ParseAddress(f: Field, data: word): word {
    var cut := data / 4 % (f.Width() / 2);
    (if data >= MODULUS / 2 then cut + f.Width() / 2 else cut) * 4
  }

  /** What `get_operand_value` takes out of an instruction. */
  function Operand(f: Field, instr: word): (v: nat)
    ensures v < f.Width()
  {
    instr / 4 % f.Width()
  }

  /** The sign extension that `print_operands` and `find_next_address` do, in bytes. */
  function Displacement(f: Field, operand: nat): word {
    Wrap(Wrap(if operand >= f.Width() / 2 then operand - f.Width() else operand) * 4)
  }

  /** The address `print_operands` shows. */
  function Printed(f: Field, instr: word, virtual: word): word { Wrap(Displacement(f, Operand(f, instr)) + virtual) }

  /** A displacement the field can hold: a whole number of words, and no more bits than the field has. */
  predicate Encodable(f: Field, d: word) {
    d % 4 == 0 && (d < 2 * f.Width() || d >= MODULUS - 2 * f.Width())
  }

  /** An instruction whose address field is zero. */
  predicate Blank(f: Field, rest: word) { Operand(f, rest) == 0 }

  /** A displacement comes back exactly when the field can hold it. */
  lemma DisplacementRoundTrip(f: Field, rest: word, d: word)
    requires Blank(f, rest)
    ensures rest + ParseAddress(f, d) < MODULUS
    ensures Displacement(f, Operand(f, rest + ParseAddress(f, d))) == d <==> Encodable(f, d)
  {
    var field := ParseAddress(f, d) / 4;
    FieldRead(f, rest, field);
    Extended(f, d);
    hide Operand, Displacement, Encodable;
    assert ParseAddress(f, d) == 4 * field;
  }

  /** The rest of the instruction does not disturb the field. */
  lemma FieldRead(f: Field, rest: word, field: nat)
    requires Blank(f, rest) && field < f.Width()
    ensures rest + 4 * field < MODULUS && Operand(f, rest + 4 * field) == field
  {
    var q, low := rest / 4, rest % 4;
    assert rest + 4 * field == 4 * (q + field) + low;
    assert (rest + 4 * field) / 4 == q + field;
    if f.BD? {
      assert q == q / 0x4000 * 0x4000;
    } else {
      assert q == q / 0x100_0000 * 0x100_0000;
    }
  }

  /** The field in place: the word offset cut off, with the sign of the displacement on top. */
  lemma FieldIs(f: Field, d: word)
    ensures var half, cut := f.Width() / 2, d / 4 % (f.Width() / 2);
      && cut < half && ParseAddress(f, d) == 4 * (if d >= MODULUS / 2 then cut + half else cut)
      && ParseAddress(f, d) / 4 == (if d >= MODULUS / 2 then cut + half else cut) < f.Width()
  {
  }

  lemma Shown(f: Field, cut: nat)
    requires cut < f.Width() / 2
    ensures Displacement(f, cut) == 4 * cut
    ensures Displacement(f, cut + f.Width() / 2) == MODULUS - 2 * f.Width() + 4 * cut
  {
    var half := f.Width() / 2;
    assert f.Width() == 2 * half && half < 0x1000_0000;
    var low: int := cut as int - half as int;
    WrapIs(cut);
    WrapIs(4 * cut);
    WrapIs(low);
    WrapIs(4 * low);
    hide Wrap;
  }

  lemma WrapIs(x: int)
    requires 0 <= x + MODULUS && x < MODULUS
    ensures Wrap(x) == if x < 0 then x + MODULUS else x
    ensures Wrap(Wrap(x) * 4) == Wrap(4 * x)
  {
  }

  /** Cutting off and extending the sign again gives the displacement back exactly when it fits. */
  lemma Extended(f: Field, d: word)
    ensures ParseAddress(f, d) % 4 == 0 && ParseAddress(f, d) / 4 < f.Width()
    ensures Displacement(f, ParseAddress(f, d) / 4) == d <==> Encodable(f, d)
  {
    var half := f.Width() / 2;
    var cut := d / 4 % half;
    FieldIs(f, d);
    Shown(f, cut);
    Halves(d / 4, half, if f.BD? then 0x2_0000 else 0x80);
    hide Displacement, ParseAddress;
    assert f.Width() == 2 * half;
    assert d == 4 * (d / 4) + d % 4;
  }

  /** A word offset is its own remainder when it is small, and its own remainder below 2^30 when it is large. */
  lemma Halves(k: nat, half: nat, n: nat)
    requires half > 0 && n * half == 0x4000_0000 && k < 0x4000_0000
    ensures k % half == k <==> k < half
    ensures 0x4000_0000 - half + k % half == k <==> k >= 0x4000_0000 - half
  {
    var b, r := k / half, k % half;
    assert k == b * half + r;
    Parts(k, b, r, b * half, half, n);
  }

  lemma Parts(k: nat, b: nat, r: nat, p: nat, half: nat, n: nat)
    requires n * half == 0x4000_0000 && p == b * half && k == p + r < 0x4000_0000 && r < half
    ensures r == k <==> k < half
    ensures 0x4000_0000 - half + r == k <==> k >= 0x4000_0000 - half
  {
    if b > 0 {
      MulMono(1, b, half);
    }
    if b < n {
      MulLess(b, n, half);
    } else {
      MulMono(n, b, half);
    }
    if b + 1 < n {
      MulLess(b + 1, n, half);
      assert (b + 1) * half == p + half;
    }
    if b + 1 == n {
      assert n * half == p + half;
    }
  }

  /** The disassembler shows the target the assembler was given exactly when the field can hold its displacement. */
  lemma AddressRoundTrip(f: Field, rest: word, target: word, memaddr: word)
    requires Blank(f, rest)
    ensures var instr := rest + ParseAddress(f, Wrap(target - memaddr));
      instr < MODULUS && (Printed(f, instr, memaddr) == target <==> Encodable(f, Wrap(target - memaddr)))
  {
    hide ParseAddress, Operand, Displacement, Encodable, Blank;
    DisplacementRoundTrip(f, rest, Wrap(target - memaddr));
  }

  // ---------- instructions ----------

  datatype Kind = Bc | B | BcCtr | BcLr | Other

  /** The branches among the opcodes, told apart by primary and extended opcode. */
  function KindOf(instr: word): Kind {
    var primary, extended := instr / 0x400_0000, instr / 2 % 0x400;
    if primary == 16 then Bc
    else if primary == 18 then B
    else if primary == 19 && extended == 528 then BcCtr
    else if primary == 19 && extended == 16 then BcLr
    else Other
  }

  function Bo(instr: word): (bo: nat)
    ensures bo < 32
  {
    instr / 0x20_0000 % 32
  }

  function Bi(instr: word): (bi: nat)
    ensures bi < 32
  {
    instr / 0x1_0000 % 32
  }

  predicate Aa(instr: word) { instr / 2 % 2 == 1 }

  predicate Lk(instr: word) { instr % 2 == 1 }

  function Flags(aa: bool, lk: bool): nat { (if aa then 2 else 0) + (if lk then 1 else 0) }

  /** bc, bcl, bca, bcla with everything but the address. */
  function OpcodeBc(aa: bool, lk: bool, bo: nat, bi: nat): word
    requires bo < 32 && bi < 32
  {
    0x4000_0000 + bo * 0x20_0000 + bi * 0x1_0000 + Flags(aa, lk)
  }

  /** b, bl, ba, bla with everything but the address. */
  function OpcodeB(aa: bool, lk: bool): word { 0x4800_0000 + Flags(aa, lk) }

  /** `asmppc`: only the relative forms subtract the address of the instruction. */
  function AssembleBc(aa: bool, lk: bool, bo: nat, bi: nat, target: word, memaddr: word): nat
    requires bo < 32 && bi < 32
  {
    OpcodeBc(aa, lk, bo, bi) + ParseAddress(BD, Wrap(target - (if aa then 0 else memaddr)))
  }

  function AssembleB(aa: bool, lk: bool, target: word, memaddr: word): nat {
    OpcodeB(aa, lk) + ParseAddress(LI, Wrap(target - (if aa then 0 else memaddr)))
  }

  // ---------- is the branch taken? ----------

  predicate CrBit(cr: word, bi: nat)
    requires bi < 32
  {
    cr / Pow2(31 - bi) % 2 == 1
  }

  /** Bit bi of the condition register counts from the left: `bi` bits stand in front of it and 31 - bi behind. */
  lemma CrBitIs(front: nat, bit: bool, behind: nat, bi: nat)
    requires bi < 32 && front < Pow2(bi) && behind < Pow2(31 - bi)
    ensures var cr := front * (2 * Pow2(31 - bi)) + (if bit then 1 else 0) * Pow2(31 - bi) + behind;
      cr < MODULUS && CrBit(cr, bi) == bit
  {
    var w, v := Pow2(31 - bi), if bit then 1 else 0;
    var cr := front * (2 * w) + v * w + behind;
    PowersMeet(bi);
    BelowAll(front, Pow2(bi), v, w, behind);
    Halved(front, v, w);
    hide Pow2;
    DivUnique(cr, 2 * front + v, behind, w);
    assert (2 * front + v) % 2 == v;
  }

  lemma BelowAll(front: nat, all: nat, bit: nat, w: nat, behind: nat)
    requires front < all && bit <= 1 && behind < w
    ensures front * (2 * w) + bit * w + behind < all * (2 * w)
  {
    MulLess(front, all, 2 * w);
    assert bit * w <= w;
  }

  lemma Halved(front: nat, bit: nat, w: nat)
    ensures front * (2 * w) + bit * w == (2 * front + bit) * w
  {
  }

  lemma {:induction false} PowersMeet(bi: nat)
    requires bi < 32
    ensures Pow2(bi) * (2 * Pow2(31 - bi)) == MODULUS
  {
    if bi == 0 {
      assert Pow2(8) == 256 && Pow2(16) == 0x1_0000 && Pow2(24) == 0x100_0000 && Pow2(31) == 0x8000_0000;
    } else {
      PowersMeet(bi - 1);
      var a, b := Pow2(bi - 1), Pow2(31 - bi);
      assert Pow2(31 - (bi - 1)) == 2 * b;
      assert 2 * a * (2 * b) == a * (2 * (2 * b));
    }
  }

  /** The switch over (bo & 0x1e) >> 1 in `find_next_address`; the cases it does not list leave both flags false. */
  predicate Taken(bo: nat, bi: nat, ctr: word, cr: word)
    requires bo < 32 && bi < 32
  {
    var less := Wrap(ctr - 1);
    match bo / 2
    case 0 => less != 0 && !CrBit(cr, bi)
    case 1 => less == 0 && !CrBit(cr, bi)
    case 2 => !CrBit(cr, bi)
    case 4 => less != 0 && CrBit(cr, bi)
    case 5 => less == 0 && CrBit(cr, bi)
    case 6 => CrBit(cr, bi)
    case 8 => less != 0
    case 9 => less == 0
    case 10 => true
    case _ => false
  }

  /** Bit k of BO as the ISA counts, from the left. */
  predicate BoBit(bo: nat, k: nat)
    requires k < 5
  {
    bo / Pow2(4 - k) % 2 == 1
  }

  /** Power ISA Book I, section 2.4: with BO2 clear CTR is counted down and tested against BO3; with BO0 clear
      the condition bit is tested against BO1. */
  predicate IsaTaken(bo: nat, bi: nat, ctr: word, cr: word)
    requires bo < 32 && bi < 32
  {
    var counted := if BoBit(bo, 2) then ctr else Wrap(ctr - 1);
    && (BoBit(bo, 2) || (counted != 0) != BoBit(bo, 3))
    && (BoBit(bo, 0) || CrBit(cr, bi) == BoBit(bo, 1))
  }

  /** The bits the ISA calls z: BO3 when CTR is not tested, BO1 when the condition is not. */
  predicate ZClear(bo: nat) {
    !(BoBit(bo, 2) && BoBit(bo, 3)) && !(BoBit(bo, 0) && BoBit(bo, 1))
  }

  lemma BoBits(bo: nat)
    requires bo < 32
    ensures bo / 2 == (if BoBit(bo, 0) then 8 else 0) + (if BoBit(bo, 1) then 4 else 0)
      + (if BoBit(bo, 2) then 2 else 0) + (if BoBit(bo, 3) then 1 else 0)
  {
    assert Pow2(1) == 2 && Pow2(2) == 4 && Pow2(3) == 8 && Pow2(4) == 16;
  }

  /** The switch follows the ISA when the z bits are clear; when one is set it never takes the branch. */
  lemma TakenIs(bo: nat, bi: nat, ctr: word, cr: word)
    requires bo < 32 && bi < 32
    ensures Taken(bo, bi, ctr, cr) == (ZClear(bo) && IsaTaken(bo, bi, ctr, cr))
  {
    hide CrBit, BoBit;
    BoBits(bo);
  }

  /** Clear z bits are exactly what it takes for the two to agree whatever the registers hold. */
  lemma AgreesIff(bo: nat, bi: nat)
    requires bo < 32 && bi < 32
    ensures ZClear(bo) <==> forall ctr: word, cr: word :: Taken(bo, bi, ctr, cr) == IsaTaken(bo, bi, ctr, cr)
  {
    hide Taken, CrBit, BoBit;
    if ZClear(bo) {
      forall ctr: word, cr: word
        ensures Taken(bo, bi, ctr, cr) == IsaTaken(bo, bi, ctr, cr)
      {
        TakenIs(bo, bi, ctr, cr);
      }
    } else {
      var ctr: word := if BoBit(bo, 3) then 1 else 2;
      var cr := OneBit(bi, BoBit(bo, 1));
      TakenIs(bo, bi, ctr, cr);
      assert IsaTaken(bo, bi, ctr, cr);
    }
  }

  lemma OneBit(bi: nat, set_: bool) returns (cr: word)
    requires bi < 32
    ensures CrBit(cr, bi) == set_
  {
    if set_ {
      Pow2Grows(31 - bi, 31);
      assert Pow2(8) == 256 && Pow2(16) == 0x1_0000 && Pow2(24) == 0x100_0000 && Pow2(31) == 0x8000_0000;
      cr := Pow2(31 - bi);
    } else {
      cr := 0;
    }
  }

  // ---------- the next address ----------

  datatype Registers = Registers(nip: word, ctr: word, ccr: word, link: word)

  function Pc(regs: Registers): word { regs.nip - regs.nip % 4 }

  /** Whether `find_next_address` leaves the straight line. */
  predicate Branches(regs: Registers, instr: word) {
    match KindOf(instr)
    case B => true
    case Other => false
    case _ => Taken(Bo(instr), Bi(instr), regs.ctr, regs.ccr)
  }

  /** Where it then goes. */
  function Target(regs: Registers, instr: word): word {
    var base := if Aa(instr) then 0 else Pc(regs);
    match KindOf(instr)
    case Bc => Wrap(Displacement(BD, Operand(BD, instr)) + base)
    case B => Wrap(Displacement(LI, Operand(LI, instr)) + base)
    case BcCtr => regs.ctr
    case BcLr => regs.link
    case Other => Wrap(Pc(regs) + 4)
  }

  /** `find_next_address` for an instruction in the opcode table: a call is stepped over to its return address. */
  function FindNext(regs: Registers, instr: word, stepOver: bool): word {
    if !Branches(regs, instr) || (stepOver && Lk(instr)) then Wrap(Pc(regs) + 4) else Target(regs, instr)
  }

  /** The ISA's EXTS(field || 0b00): 16 bits of BD or 26 bits of LI as a signed number. */
  function Exts(f: Field, instr: word): int {
    var unsigned := instr % (4 * f.Width()) - instr % 4;
    if unsigned < 2 * f.Width() then unsigned else unsigned - 4 * f.Width()
  }

  /** The next instruction address by the Power ISA, in 32-bit mode. */
  function IsaNext(regs: Registers, instr: word): word {
    var base := if Aa(instr) then 0 else Pc(regs);
    var taken := IsaTaken(Bo(instr), Bi(instr), regs.ctr, regs.ccr);
    match KindOf(instr)
    case B => Wrap(base + Exts(LI, instr))
    case Other => Wrap(Pc(regs) + 4)
    case Bc => Wrap(if taken then base + Exts(BD, instr) else Pc(regs) + 4)
    case BcCtr => Wrap(if taken then regs.ctr - regs.ctr % 4 else Pc(regs) + 4)
    case BcLr => Wrap(if taken then regs.link - regs.link % 4 else Pc(regs) + 4)
  }

  lemma WordPart(f: Field, instr: word)
    ensures instr % (4 * f.Width()) - instr % 4 == 4 * (instr / 4 % f.Width())
  {
    var w := f.Width();
    var q, low := instr / 4, instr % 4;
    var b, m := q / w, q % w;
    assert b * (4 * w) == 4 * (b * w);
    DivUnique(instr, b, 4 * m + low, 4 * w);
  }

  /** Both sign extensions, as numbers. */
  lemma Signed(f: Field, instr: word, field: nat)
    requires field == Operand(f, instr)
    ensures Exts(f, instr) == if field < f.Width() / 2 then 4 * field else 4 * field - 4 * f.Width()
  {
    WordPart(f, instr);
  }

  lemma ShownSigned(f: Field, field: nat)
    requires field < f.Width()
    ensures Displacement(f, field) == if field < f.Width() / 2 then 4 * field else MODULUS + 4 * field - 4 * f.Width()
  {
    if field < f.Width() / 2 {
      Shown(f, field);
    } else {
      Shown(f, field - f.Width() / 2);
    }
    hide Displacement;
  }

  lemma ExtsIs(f: Field, instr: word, base: word)
    ensures Wrap(Displacement(f, Operand(f, instr)) + base) == Wrap(base + Exts(f, instr))
  {
    hide Displacement, Operand, Exts;
    Signed(f, instr, Operand(f, instr));
    ShownSigned(f, Operand(f, instr));
  }

  lemma DropLowBits(r: word)
    ensures Wrap(r - r % 4) == r <==> r % 4 == 0
  {
  }

  /** A register that is branched to keeps its low bits in the code; the ISA drops them. */
  predicate AlignedTarget(regs: Registers, instr: word) {
    match KindOf(instr)
    case BcCtr => regs.ctr % 4 == 0
    case BcLr => regs.link % 4 == 0
    case _ => true
  }

  /** The conditional branches; no other instruction has a BO field. */
  predicate Conditional(instr: word) { KindOf(instr) in {Bc, BcCtr, BcLr} }

  /** A single step goes where the processor goes, but in two cases: a conditional branch with a z bit set that the ISA
      takes is not followed, and a register that is branched to keeps its low bits. */
  lemma StepFollowsIsa(regs: Registers, instr: word)
    ensures FindNext(regs, instr, false) == IsaNext(regs, instr) <==>
      if Conditional(instr) && !ZClear(Bo(instr)) && IsaTaken(Bo(instr), Bi(instr), regs.ctr, regs.ccr) then
        IsaNext(regs, instr) == Wrap(Pc(regs) + 4)
      else !Branches(regs, instr) || AlignedTarget(regs, instr)
  {
    hide Displacement, Operand, Exts, Taken, IsaTaken, ZClear, Bo, Bi, Aa, KindOf, Wrap, Pc;
    TakenIs(Bo(instr), Bi(instr), regs.ctr, regs.ccr);
    var base := if Aa(instr) then 0 else Pc(regs);
    ExtsIs(BD, instr, base);
    ExtsIs(LI, instr, base);
    DropLowBits(regs.ctr);
    DropLowBits(regs.link);
  }

  /** The fields of a conditional branch whose low half-word is `low`. */
  lemma Quotients(bo: nat, bi: nat, low: nat)
    requires bo < 32 && bi < 32 && low < 0x1_0000
    ensures var instr := 0x4000_0000 + bo * 0x20_0000 + bi * 0x1_0000 + low;
      && instr < MODULUS && KindOf(instr) == Bc && Bo(instr) == bo && Bi(instr) == bi
      && instr % 0x1_0000 == low
  {
    var instr := 0x4000_0000 + bo * 0x20_0000 + bi * 0x1_0000 + low;
    assert instr / 0x1_0000 == 0x4000 + bo * 32 + bi;
    assert instr / 0x20_0000 == 0x200 + bo;
    assert instr / 0x400_0000 == 16;
  }

  /** The flags and the displacement are the low half-word. */
  lemma LowHalf(instr: word, aa: bool, lk: bool, field: nat)
    requires field < BD.Width() && instr % 0x1_0000 == 4 * field + Flags(aa, lk)
    ensures Aa(instr) == aa && Lk(instr) == lk && Operand(BD, instr) == field
  {
    var q := instr / 0x1_0000;
    assert instr == q * 0x1_0000 + 4 * field + Flags(aa, lk);
  }

  lemma FieldsBc(aa: bool, lk: bool, bo: nat, bi: nat, field: nat)
    requires bo < 32 && bi < 32 && field < BD.Width()
    ensures Blank(BD, OpcodeBc(aa, lk, bo, bi))
    ensures var instr := OpcodeBc(aa, lk, bo, bi) + 4 * field;
      instr < MODULUS && KindOf(instr) == Bc && Bo(instr) == bo && Bi(instr) == bi && Aa(instr) == aa && Lk(instr) == lk
  {
    hide KindOf, Bo, Bi, Aa, Lk, Operand;
    Quotients(bo, bi, Flags(aa, lk));
    LowHalf(OpcodeBc(aa, lk, bo, bi), aa, lk, 0);
    Quotients(bo, bi, 4 * field + Flags(aa, lk));
    LowHalf(OpcodeBc(aa, lk, bo, bi) + 4 * field, aa, lk, field);
  }

  lemma FieldsB(aa: bool, lk: bool, field: nat)
    requires field < LI.Width()
    ensures Blank(LI, OpcodeB(aa, lk))
    ensures var instr := OpcodeB(aa, lk) + 4 * field;
      instr < MODULUS && KindOf(instr) == B && Aa(instr) == aa && Lk(instr) == lk
  {
  }

  /** A conditional branch as assembled: shown with its target, and stepped to it just when the ISA takes it. */
  lemma AssembledBc(regs: Registers, aa: bool, lk: bool, bo: nat, bi: nat, target: word)
    requires bo < 32 && bi < 32 && ZClear(bo) && Encodable(BD, Wrap(target - (if aa then 0 else Pc(regs))))
    ensures var instr := AssembleBc(aa, lk, bo, bi, target, Pc(regs));
      && instr < MODULUS && KindOf(instr) == Bc && Bo(instr) == bo && Bi(instr) == bi && Aa(instr) == aa && Lk(instr) == lk
      && Printed(BD, instr, if aa then 0 else Pc(regs)) == target
      && FindNext(regs, instr, false) == (if IsaTaken(bo, bi, regs.ctr, regs.ccr) then target else Wrap(Pc(regs) + 4))
      && FindNext(regs, instr, true) == if IsaTaken(bo, bi, regs.ctr, regs.ccr) && !lk then target else Wrap(Pc(regs) + 4)
  {
    var base := if aa then 0 else Pc(regs);
    var d := Wrap(target - base);
    hide Displacement, Operand, Taken, IsaTaken, ZClear, Encodable, ParseAddress, OpcodeBc, KindOf, Bo, Bi, Aa, Lk, Blank;
    FieldIs(BD, d);
    FieldsBc(aa, lk, bo, bi, ParseAddress(BD, d) / 4);
    TakenIs(bo, bi, regs.ctr, regs.ccr);
    AddressRoundTrip(BD, OpcodeBc(aa, lk, bo, bi), target, base);
  }

  /** The same for an unconditional branch, which a step over a call does not follow. */
  lemma AssembledB(regs: Registers, aa: bool, lk: bool, target: word)
    requires Encodable(LI, Wrap(target - (if aa then 0 else Pc(regs))))
    ensures var instr := AssembleB(aa, lk, target, Pc(regs));
      && instr < MODULUS && KindOf(instr) == B && Aa(instr) == aa && Lk(instr) == lk
      && Printed(LI, instr, if aa then 0 else Pc(regs)) == target
      && FindNext(regs, instr, false) == target
      && FindNext(regs, instr, true) == if lk then Wrap(Pc(regs) + 4) else target
  {
    var base := if aa then 0 else Pc(regs);
    var d := Wrap(target - base);
    hide Displacement, Operand, Encodable, ParseAddress, OpcodeB, KindOf, Aa, Lk, Blank;
    FieldIs(LI, d);
    FieldsB(aa, lk, ParseAddress(LI, d) / 4);
    AddressRoundTrip(LI, OpcodeB(aa, lk), target, base);
  }

  /** bclr and bcctr by the ISA's encoding: primary opcode 19, BO and BI, extended opcode 16 or 528, LK. */
  function RegisterWord(toCtr: bool, bo: nat, bi: nat, lk: bool): nat
    requires bo < 32 && bi < 32
  {
    0x4C00_0000 + bo * 0x20_0000 + bi * 0x1_0000 + (if toCtr then 528 else 16) * 2 + if lk then 1 else 0
  }

  lemma RegisterFields(toCtr: bool, bo: nat, bi: nat, lk: bool)
    requires bo < 32 && bi < 32
    ensures var w := RegisterWord(toCtr, bo, bi, lk);
      w < MODULUS && KindOf(w) == (if toCtr then BcCtr else BcLr) && Bo(w) == bo && Bi(w) == bi && Lk(w) == lk
  {
    var low := (if toCtr then 528 else 16) * 2 + if lk then 1 else 0;
    var w, high := RegisterWord(toCtr, bo, bi, lk), 0x4C00 + bo * 32 + bi;
    assert w == high * 0x1_0000 + low && w < MODULUS;
    HighFields(w, high, low);
    DivUnique(high, 0x260 + bo, bi, 32);
    DivUnique(high, 19, bo * 32 + bi, 0x400);
    LowFields(w, high, low);
  }

  lemma HighFields(w: word, high: nat, low: nat)
    requires w == high * 0x1_0000 + low && low < 0x1_0000
    ensures Bi(w) == high % 32 && Bo(w) == high / 32 % 32 && w / 0x400_0000 == high / 0x400
  {
    DivUnique(w, high, low, 0x1_0000);
    assert w / 0x20_0000 == high / 32;
  }

  lemma LowFields(w: word, high: nat, low: nat)
    requires w == high * 0x1_0000 + low && low < 0x800
    ensures w / 2 % 0x400 == low / 2 && w % 2 == low % 2
  {
    assert w / 2 == high * 0x8000 + low / 2;
    DivUnique(w / 2, high * 32, low / 2, 0x400);
  }

  /** A branch to the link or count register: followed when the ISA takes it, but for set z bits; a call is stepped over
      to its return address. */
  lemma RegisterBranch(regs: Registers, toCtr: bool, bo: nat, bi: nat, lk: bool, stepOver: bool)
    requires bo < 32 && bi < 32
    ensures var w := RegisterWord(toCtr, bo, bi, lk);
      && w < MODULUS
      && FindNext(regs, w, stepOver) ==
           if ZClear(bo) && IsaTaken(bo, bi, regs.ctr, regs.ccr) && !(stepOver && lk) then
             if toCtr then regs.ctr else regs.link
           else Wrap(Pc(regs) + 4)
  {
    hide RegisterWord, Taken, IsaTaken, ZClear, KindOf, Bo, Bi, Lk, Wrap;
    RegisterFields(toCtr, bo, bi, lk);
    TakenIs(bo, bi, regs.ctr, regs.ccr);
  }

  /** Under any other primary opcode than the three of the branches the next word comes next. */
  lemma NoBranch(regs: Registers, instr: word, stepOver: bool)
    requires instr / 0x400_0000 !in {16, 18, 19}
    ensures FindNext(regs, instr, stepOver) == (regs.nip / 4 * 4 + 4) % MODULUS
  {
  }
}
