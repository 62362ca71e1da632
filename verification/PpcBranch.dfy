/**
 PowerPC branches in the debugger: the assembler, the disassembler and the
 single-stepper each handle the sign of the displacement in their own way.
 */
module PpcBranch {
  import opened Arithmetic
  import opened Machine

  /** The displacement field: 14 bits in bc, 24 bits in b, both two bits up. */
  datatype Form = BForm | IForm

  /** The sign bit of the field. */
  function Half(f: Form): (h: nat)
    ensures h == 0x2000 || h == 0x80_0000
  {
    if f.BForm? then 0x2000 else 0x80_0000
  }

  /** A word as a signed long. */
  function ToLong(x: int): (r: int)
    ensures -0x8000_0000 <= r < 0x8000_0000 && (x - r) % WORD == 0
  {
    (x + 0x8000_0000) % WORD - 0x8000_0000
  }

  /** What the assembler encodes: the distance, or the address itself. */
  function Displacement(target: u32, pc: u32, relative: bool): int {
    ToLong(if relative then target - pc else target)
  }

  // ------------------------------------------------- the three sign handlings

  /** parse_operand: the sign is remembered, the rest masked and the bit set. */
  function Encode(f: Form, data: int): (field: nat)
    ensures field < 2 * Half(f)
  {
    data / 4 % Half(f) + (if data < 0 then Half(f) else 0)
  }

  /** print_operands: the width is subtracted when the top bit of the field is set;
      the operand is an unsigned long. */
  function Printed(f: Form, field: nat, virtual: u32, relative: bool): u32
    requires field < 2 * Half(f)
  {
    var operand: u32 := if field >= Half(f) then (field - 2 * Half(f)) % WORD else field;
    (operand * 4 + (if relative then virtual else 0)) % WORD
  }

  /** find_next_address: bit 13 or 23 is tested and 1 << 14 or 1 << 24 subtracted. */
  function StepTarget(f: Form, field: nat, pc: u32, aa: bool): u32
    requires field < 2 * Half(f)
  {
    var addr: u32 :=
      if f.BForm? then (if field / 0x2000 % 2 == 1 then (field - 0x4000) % WORD else field)
      else (if field / 0x80_0000 % 2 == 1 then (field - 0x100_0000) % WORD else field);
    var shifted: u32 := (addr * 4) as int % WORD;
    if aa then shifted else (shifted + pc) as int % WORD
  }

  // --------------------------------------------------------------- agreement

  /** The signed value of a field. */
  function Signed(f: Form, field: nat): int
    requires field < 2 * Half(f)
  {
    if field >= Half(f) then field - 2 * Half(f) else field
  }

  /** A displacement that the field can hold. */
  predicate Encodable(f: Form, data: int) {
    data % 4 == 0 && -4 * Half(f) <= data < 4 * Half(f)
  }

  lemma EncodeSigned(f: Form, data: int)
    ensures Signed(f, Encode(f, data)) * 4 == data <==> Encodable(f, data)
  {
    var q := data / 4;
    assert data == 4 * q + data % 4;
    var low := q % Half(f);
    if f.BForm? {
      assert q == 0x2000 * (q / 0x2000) + low;
    } else {
      assert q == 0x80_0000 * (q / 0x80_0000) + low;
    }
  }

  lemma PrintedIsSigned(f: Form, field: nat, virtual: u32, relative: bool)
    requires field < 2 * Half(f)
    ensures Printed(f, field, virtual, relative) == (Signed(f, field) * 4 + (if relative then virtual else 0)) % WORD
  {
  }

  /** The disassembler and the stepper agree on every field, for either kind. */
  lemma StepIsPrinted(f: Form, field: nat, pc: u32, aa: bool)
    requires field < 2 * Half(f)
    ensures StepTarget(f, field, pc, aa) == Printed(f, field, pc, !aa)
  {
    TopBit(f, field);
  }

  lemma TopBit(f: Form, field: nat)
    requires field < 2 * Half(f)
    ensures f.BForm? ==> (field / 0x2000 % 2 == 1 <==> field >= 0x2000)
    ensures f.IForm? ==> (field / 0x80_0000 % 2 == 1 <==> field >= 0x80_0000)
  {
  }

  lemma WordUnique(x: int, y: int)
    requires -0x8000_0000 <= x < 0x8000_0000 && -0x8000_0000 <= y < 0x8000_0000 && (x - y) % WORD == 0
    ensures x == y
  {
  }

  /** Main theorem: what is assembled for a target disassembles to that target, and
      stepping the taken branch goes there, exactly when the displacement is a
      multiple of 4 that fits the field; for relative and for absolute branches. */
  lemma AssembledTarget(f: Form, target: u32, pc: u32, relative: bool)
    ensures var data := Displacement(target, pc, relative);
      var field := Encode(f, data);
      && (Printed(f, field, pc, relative) == target <==> Encodable(f, data))
      && (StepTarget(f, field, pc, !relative) == target <==> Encodable(f, data))
  {
    var data := Displacement(target, pc, relative);
    var field := Encode(f, data);
    var back := Signed(f, field) * 4;
    StepIsPrinted(f, field, pc, !relative);
    PrintedIsSigned(f, field, pc, relative);
    EncodeSigned(f, data);
    SameTarget(target, if relative then pc else 0, back, data);
  }

  lemma SameTarget(target: u32, base: u32, back: int, data: int)
    requires data == ToLong(target - base) && -0x8000_0000 <= back < 0x8000_0000
    ensures (back + base) % WORD == target <==> back == data
  {
    var r: int := (back + base) % WORD;
    assert (back + base - r) % WORD == 0;
    if r == target {
      assert (back - (target - base)) % WORD == 0;
      WordUnique(back, data);
    }
    assert (data + base - target) % WORD == 0;
  }

  /** The other way round: assembling what is disassembled gives the field back. */
  lemma DisassembledField(f: Form, field: nat, pc: u32, relative: bool)
    requires field < 2 * Half(f)
    ensures Encode(f, Displacement(Printed(f, field, pc, relative), pc, relative)) == field
  {
    var back := Signed(f, field) * 4;
    var target := Printed(f, field, pc, relative);
    PrintedIsSigned(f, field, pc, relative);
    SameTarget(target, if relative then pc else 0, back, Displacement(target, pc, relative));
    SignedEncode(f, field);
  }

  lemma SignedEncode(f: Form, field: nat)
    requires field < 2 * Half(f)
    ensures Encode(f, Signed(f, field) * 4) == field
  {
  }

  // ------------------------------------------------------- whole instructions

  /** Which of the branches an instruction is; find_opcode decides that. */
  datatype Opcode = Bc | B | Bcctr | Bclr | Other

  /** get_operand_value: a field of this width at this distance from the low end. */
  function FieldOf(instr: u32, unit: nat, width: nat): (v: nat)
    requires unit > 0 && width > 0
    ensures v < width
  {
    instr / unit % width
  }

  predicate LinkBit(instr: u32) {
    instr % 2 == 1
  }

  predicate AbsoluteBit(instr: u32) {
    instr / 2 % 2 == 1
  }

  function TargetField(f: Form, instr: u32): (v: nat)
    ensures v < 2 * Half(f)
  {
    FieldOf(instr, 4, 2 * Half(f))
  }

  /** asmppc: the operand is or-ed into an instruction whose field is empty. */
  function WithField(f: Form, base: u32, field: nat): (instr: u32)
    requires TargetField(f, base) == 0 && field < 2 * Half(f)
  {
    assert base == 4 * (base / 4) + base % 4;
    base + 4 * field
  }

  /** The operand comes back, and the bits around it are those of the base. */
  lemma FieldKept(f: Form, base: u32, field: nat)
    requires TargetField(f, base) == 0 && field < 2 * Half(f)
    ensures var instr := WithField(f, base, field);
      && TargetField(f, instr) == field && instr % 4 == base % 4
      && instr / (8 * Half(f)) == base / (8 * Half(f))
      && LinkBit(instr) == LinkBit(base) && AbsoluteBit(instr) == AbsoluteBit(base)
  {
    FieldPlaced(base, field, 2 * Half(f));
    LowBits(WithField(f, base, field));
    LowBits(base);
  }

  /** The same for a field of any width that stands two bits up. */
  lemma FieldPlaced(base: nat, field: nat, width: nat)
    requires width > 0 && base / 4 % width == 0 && field < width
    ensures (base + 4 * field) / 4 % width == field && (base + 4 * field) % 4 == base % 4
    ensures (base + 4 * field) / (4 * width) == base / (4 * width)
  {
    var front, low := base / 4, base % 4;
    var high := front / width;
    assert front == high * width;
    DivModUnique(base + 4 * field, 4, front + field, low);
    DivModUnique(front + field, width, high, field);
    assert high * (4 * width) == 4 * (high * width);
    DivModUnique(base, 4 * width, high, low);
    DivModUnique(base + 4 * field, 4 * width, high, 4 * field + low);
  }

  lemma LowBits(x: u32)
    ensures x % 2 == x % 4 % 2 && x / 2 % 2 == x % 4 / 2
  {
  }

  // ------------------------------------------------------ the branch condition

  /** The switch over BO: the counter has been decremented to `ctr`, and `bit` is the
      condition bit. */
  predicate Taken(bo: nat, bit: bool, ctr: u32)
    requires bo < 32
  {
    var c := bo / 2;
    if c == 0 then ctr != 0 && !bit
    else if c == 1 then ctr == 0 && !bit
    else if c == 2 then !bit
    else if c == 4 then ctr != 0 && bit
    else if c == 5 then ctr == 0 && bit
    else if c == 6 then bit
    else if c == 8 then ctr != 0
    else if c == 9 then ctr == 0
    else c == 10
  }

  /** The meaning of the BO bits, from the first: ignore the condition, its required
      value, ignore the counter, branch when the counter is zero. */
  predicate ShouldBranch(bo: nat, bit: bool, ctr: u32)
    requires bo < 32
  {
    && (bo / 16 == 1 || bit == (bo / 8 % 2 == 1))
    && (bo / 4 % 2 == 1 || (ctr == 0) == (bo / 2 % 2 == 1))
  }

  /** The bits marked z in the patterns. */
  predicate DontCareBitsClear(bo: nat)
    requires bo < 32
  {
    && (bo / 16 == 1 ==> bo / 8 % 2 == 0)
    && (bo / 4 % 2 == 1 ==> bo / 2 % 2 == 0)
  }

  /** The stepper takes a branch exactly when it should be taken and its don't-care
      bits are clear: a set one makes the stepper miss the branch. */
  lemma TakenExact(bo: nat, bit: bool, ctr: u32)
    requires bo < 32
    ensures Taken(bo, bit, ctr) <==> ShouldBranch(bo, bit, ctr) && DontCareBitsClear(bo)
  {
    var c := bo / 2;
    assert bo / 16 == c / 8 && bo / 8 == c / 4 && bo / 4 == c / 2;
  }

  /** The switch decrements the counter in the cases that look at it. */
  function Decremented(ctr: u32): u32 {
    (ctr - 1) % WORD
  }

  predicate ConditionBit(cr: u32, bi: nat)
    requires bi < 32
  {
    cr / Pow2(31 - bi) % 2 == 1
  }

  /** Whether the instruction leaves the straight line. */
  predicate Branches(op: Opcode, instr: u32, ctr: u32, cr: u32) {
    match op
    case Other => false
    case B => true
    case _ =>
      Taken(FieldOf(instr, 0x20_0000, 32), ConditionBit(cr, FieldOf(instr, 0x1_0000, 32)), Decremented(ctr))
  }

  /** find_next_address. */
  function NextAddress(op: Opcode, instr: u32, nip: u32, ctr: u32, cr: u32, lr: u32, stepOver: bool): u32 {
    var pc: u32 := nip - nip % 4;
    var straight: u32 := (pc + 4) as int % WORD;
    if !Branches(op, instr, ctr, cr) then straight
    else if stepOver && LinkBit(instr) then straight
    else
      match op
      case Bc => StepTarget(BForm, TargetField(BForm, instr), pc, AbsoluteBit(instr))
      case B => StepTarget(IForm, TargetField(IForm, instr), pc, AbsoluteBit(instr))
      case Bcctr => ctr
      case Bclr => lr
      case Other => straight
  }

  /** An assembled branch: stepping goes to the target it was assembled for when the
      branch is taken, and behind the branch when it is not; stepping over a linking
      branch always goes behind it. */
  lemma SteppedAsAssembled(f: Form, base: u32, target: u32, pc: u32, ctr: u32, cr: u32, lr: u32)
    requires TargetField(f, base) == 0 && pc % 4 == 0
    requires Encodable(f, Displacement(target, pc, !AbsoluteBit(base)))
    ensures var instr := WithField(f, base, Encode(f, Displacement(target, pc, !AbsoluteBit(base))));
      var op := if f.BForm? then Bc else B;
      var straight := (pc + 4) as int % WORD;
      && NextAddress(op, instr, pc, ctr, cr, lr, false) == (if Branches(op, instr, ctr, cr) then target else straight)
      && NextAddress(op, instr, pc, ctr, cr, lr, true) ==
         (if Branches(op, instr, ctr, cr) && !LinkBit(base) then target else straight)
  {
    var field := Encode(f, Displacement(target, pc, !AbsoluteBit(base)));
    FieldKept(f, base, field);
    AssembledTarget(f, target, pc, !AbsoluteBit(base));
  }

  /** The word holds the same BO and BI as the base. */
  lemma ConditionKept(base: u32, field: nat)
    requires TargetField(BForm, base) == 0 && field < 2 * Half(BForm)
    ensures var instr := WithField(BForm, base, field);
      FieldOf(instr, 0x20_0000, 32) == FieldOf(base, 0x20_0000, 32) &&
      FieldOf(instr, 0x1_0000, 32) == FieldOf(base, 0x1_0000, 32)
  {
    FieldKept(BForm, base, field);
    var instr := WithField(BForm, base, field);
    assert instr / 0x1_0000 == base / 0x1_0000;
    assert instr / 0x20_0000 == instr / 0x1_0000 / 32 && base / 0x20_0000 == base / 0x1_0000 / 32;
  }

  // ----------------------------------------------- the words as they are defined

  function Flag(b: bool): nat {
    if b then 1 else 0
  }

  /** An instruction with BO and BI, of which the low half is given. */
  function BranchWord(primary: nat, bo: nat, bi: nat, low: nat): u32
    requires primary < 64 && bo < 32 && bi < 32 && low < 0x1_0000
  {
    primary * 0x400_0000 + bo * 0x20_0000 + bi * 0x1_0000 + low
  }

  lemma WordFields(primary: nat, bo: nat, bi: nat, low: nat)
    requires primary < 64 && bo < 32 && bi < 32 && low < 0x1_0000
    ensures var instr := BranchWord(primary, bo, bi, low);
      && FieldOf(instr, 0x20_0000, 32) == bo && FieldOf(instr, 0x1_0000, 32) == bi
      && instr % 0x1_0000 == low
  {
    var instr := BranchWord(primary, bo, bi, low);
    assert instr / 0x20_0000 == primary * 32 + bo;
    assert instr / 0x1_0000 == (primary * 32 + bo) * 32 + bi;
  }

  lemma LowFields(instr: u32, field: nat, aa: bool, lk: bool)
    requires field < 0x4000 && instr % 0x1_0000 == 4 * field + 2 * Flag(aa) + Flag(lk)
    ensures TargetField(BForm, instr) == field && LinkBit(instr) == lk && AbsoluteBit(instr) == aa
  {
    var high, low := instr / 0x1_0000, 2 * Flag(aa) + Flag(lk);
    DivModUnique(instr, 4, 0x4000 * high + field, low);
    DivModUnique(0x4000 * high + field, 0x4000, high, field);
    LowBits(instr);
  }

  lemma LinkOf(instr: u32, k: nat, lk: bool)
    requires instr % 0x1_0000 == 2 * k + Flag(lk)
    ensures LinkBit(instr) == lk
  {
    var high := instr / 0x1_0000;
    assert instr == 2 * (0x8000 * high + k) + Flag(lk);
    EvenPlus(0x8000 * high + k, Flag(lk));
  }

  /** The i-th bit of a register, counted from the left as the architecture does. */
  predicate BitFromLeft(x: u32, i: nat)
    decreases i
  {
    if i == 0 then x >= 0x8000_0000 else BitFromLeft(x * 2 % WORD, i - 1)
  }

  lemma {:induction false} ConditionIsBit(cr: u32, bi: nat)
    requires bi < 32
    ensures ConditionBit(cr, bi) <==> BitFromLeft(cr, bi)
    decreases bi
  {
    if bi == 0 {
      Pow2Of31();
    } else {
      ConditionIsBit(cr * 2 % WORD, bi - 1);
      var q := PowerSplits(31 - bi);
      ShiftedBit(cr, Pow2(31 - bi), q);
    }
  }

  lemma Pow2Of31()
    ensures Pow2(31) == 0x8000_0000
  {
    assert Pow2(8) == 256;
    assert Pow2(16) == 0x1_0000;
    assert Pow2(24) == 0x100_0000;
  }

  lemma Regroup(top: nat, q: nat, p: nat, d: nat)
    ensures (2 * (top * q) + d) * p == top * (2 * q * p) + d * p
  {
    assert 2 * (top * q) * p == top * (2 * q * p);
  }

  lemma Twice(d: nat, p: nat, r: nat)
    ensures d * (2 * p) + 2 * r == 2 * (d * p + r)
  {
  }

  lemma EvenPlus(a: nat, d: nat)
    ensures (2 * a + d) % 2 == d % 2
  {
  }

  lemma HalvedQuotient(half: nat, p: nat)
    requires p > 0
    ensures 2 * half / (2 * p) == half / p
  {
    var (d, r) := (half / p, half % p);
    Twice(d, p, r);
    DivModUnique(2 * half, 2 * p, d, 2 * r);
  }

  lemma RaisedQuotient(x: nat, top: nat, half: nat, p: nat, q: nat)
    requires p > 0 && x == top * (2 * q * p) + half
    ensures x / p % 2 == half / p % 2
  {
    var (d, r) := (half / p, half % p);
    Regroup(top, q, p, d);
    DivModUnique(x, p, 2 * (top * q) + d, r);
    EvenPlus(top * q, d);
  }

  /** Bit n of x is bit n + 1 of what x becomes when it is shifted to the left by one. */
  lemma ShiftedBit(x: u32, p: nat, q: nat)
    requires p > 0 && 2 * q * p == 0x8000_0000
    ensures x * 2 % WORD / (2 * p) % 2 == x / p % 2
  {
    var half, top := x % 0x8000_0000, x / 0x8000_0000;
    assert x * 2 % WORD == 2 * half;
    assert x == top * 0x8000_0000 + half;
    HalvedQuotient(half, p);
    RaisedQuotient(x, top, half, p, q);
  }

  lemma PowerSplits(n: nat) returns (q: nat)
    requires n < 31
    ensures 2 * q * Pow2(n) == 0x8000_0000
    decreases 31 - n
  {
    if n == 30 {
      Pow2Of31();
      q := 1;
    } else {
      q := PowerSplits(n + 1);
      assert 2 * q * (2 * Pow2(n)) == 2 * (2 * q) * Pow2(n);
      q := 2 * q;
    }
  }

  /** Whether a conditional branch leaves the straight line, in the terms of the architecture: the
      counter is looked at after it has been decremented. */
  predicate Leaves(bo: nat, bi: nat, ctr: u32, cr: u32)
    requires bo < 32
  {
    && (bo / 16 == 1 || BitFromLeft(cr, bi) == (bo / 8 % 2 == 1))
    && (bo / 4 % 2 == 1 || (ctr == 1) == (bo / 2 % 2 == 1))
    && DontCareBitsClear(bo)
  }

  lemma BranchesExact(op: Opcode, primary: nat, bo: nat, bi: nat, low: nat, ctr: u32, cr: u32)
    requires primary < 64 && bo < 32 && bi < 32 && low < 0x1_0000 && !op.Other? && !op.B?
    ensures Branches(op, BranchWord(primary, bo, bi, low), ctr, cr) <==> Leaves(bo, bi, ctr, cr)
  {
    WordFields(primary, bo, bi, low);
    ConditionIsBit(cr, bi);
    TakenExact(bo, BitFromLeft(cr, bi), Decremented(ctr));
  }

  /** The word behind the one the address lies in. */
  function Straight(nip: u32): u32 {
    (nip / 4 * 4 + 4) % WORD
  }

  lemma Aligned(nip: u32)
    ensures nip - nip % 4 == nip / 4 * 4
  {
  }

  lemma LongFields(instr: u32, field: nat, aa: bool, lk: bool)
    requires field < 0x100_0000 && instr == 18 * 0x400_0000 + 4 * field + 2 * Flag(aa) + Flag(lk)
    ensures TargetField(IForm, instr) == field && LinkBit(instr) == lk && AbsoluteBit(instr) == aa
  {
    assert instr / 4 == 18 * 0x100_0000 + field;
  }

  /** bcctr and bclr: to the register, if the branch is taken; stepping over a linking one goes
      behind it. The low bits of the instruction address do not count. */
  lemma SteppedToRegister(
      op: Opcode, xo: nat, bo: nat, bi: nat, lk: bool, nip: u32, ctr: u32, cr: u32, lr: u32, over: bool)
    requires op.Bcctr? || op.Bclr?
    requires bo < 32 && bi < 32 && 2 * xo + 1 < 0x1_0000
    ensures NextAddress(op, BranchWord(19, bo, bi, 2 * xo + Flag(lk)), nip, ctr, cr, lr, over) ==
      if Leaves(bo, bi, ctr, cr) && !(over && lk) then (if op.Bcctr? then ctr else lr) else Straight(nip)
  {
    BranchesExact(op, 19, bo, bi, 2 * xo + Flag(lk), ctr, cr);
    WordFields(19, bo, bi, 2 * xo + Flag(lk));
    LinkOf(BranchWord(19, bo, bi, 2 * xo + Flag(lk)), xo, lk);
    Aligned(nip);
  }

  /** bc: relative to the instruction or absolute. */
  lemma SteppedConditional(
      bo: nat, bi: nat, bd: nat, aa: bool, lk: bool, nip: u32, ctr: u32, cr: u32, lr: u32, over: bool)
    requires bo < 32 && bi < 32 && bd < 0x4000
    ensures NextAddress(Bc, BranchWord(16, bo, bi, 4 * bd + 2 * Flag(aa) + Flag(lk)), nip, ctr, cr, lr, over) ==
      if Leaves(bo, bi, ctr, cr) && !(over && lk)
      then (Signed(BForm, bd) * 4 + (if aa then 0 else nip / 4 * 4)) % WORD else Straight(nip)
  {
    var low := 4 * bd + 2 * Flag(aa) + Flag(lk);
    var instr := BranchWord(16, bo, bi, low);
    BranchesExact(Bc, 16, bo, bi, low, ctr, cr);
    WordFields(16, bo, bi, low);
    LowFields(instr, bd, aa, lk);
    Destination(BForm, instr, bd, aa, nip);
    NextOfBc(instr, nip, ctr, cr, lr, over);
  }

  lemma NextOfBc(instr: u32, nip: u32, ctr: u32, cr: u32, lr: u32, over: bool)
    ensures NextAddress(Bc, instr, nip, ctr, cr, lr, over) ==
      if Branches(Bc, instr, ctr, cr) && !(over && LinkBit(instr))
      then StepTarget(BForm, TargetField(BForm, instr), nip / 4 * 4, AbsoluteBit(instr)) else Straight(nip)
  {
    Aligned(nip);
  }

  lemma Destination(f: Form, instr: u32, field: nat, aa: bool, nip: u32)
    requires field < 2 * Half(f) && TargetField(f, instr) == field && AbsoluteBit(instr) == aa
    ensures StepTarget(f, TargetField(f, instr), nip / 4 * 4, AbsoluteBit(instr)) ==
      (Signed(f, field) * 4 + (if aa then 0 else nip / 4 * 4)) % WORD
  {
    StepIsPrinted(f, field, nip / 4 * 4, aa);
    PrintedIsSigned(f, field, nip / 4 * 4, !aa);
  }

  /** b: always, unless a linking one is stepped over. */
  lemma SteppedAlways(li: nat, aa: bool, lk: bool, nip: u32, ctr: u32, cr: u32, lr: u32, over: bool)
    requires li < 0x100_0000
    ensures NextAddress(B, 18 * 0x400_0000 + 4 * li + 2 * Flag(aa) + Flag(lk), nip, ctr, cr, lr, over) ==
      if over && lk then Straight(nip)
      else (Signed(IForm, li) * 4 + (if aa then 0 else nip / 4 * 4)) % WORD
  {
    var instr: u32 := 18 * 0x400_0000 + 4 * li + 2 * Flag(aa) + Flag(lk);
    LongFields(instr, li, aa, lk);
    Aligned(nip);
    Destination(IForm, instr, li, aa, nip);
  }
}
