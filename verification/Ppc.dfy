/**
 The few PowerPC instructions that the boot loader writes: their encoding, and what they
 do to a processor.
 */
module Ppc {

  datatype Inst =
    | Addis(rd: bv32, ra: bv32, imm: bv32)
    | Ori(ra: bv32, rs: bv32, imm: bv32)
    | Lwz(rd: bv32, ra: bv32, imm: bv32)
    | Lwzx(rd: bv32, ra: bv32, rb: bv32)
    | Branch(offs: bv32)
    | Other

  function Prim(w: bv32): bv32 { w >> 26 }
  function FieldA(w: bv32): bv32 { (w >> 21) & 31 }
  function FieldB(w: bv32): bv32 { (w >> 16) & 31 }
  function FieldC(w: bv32): bv32 { (w >> 11) & 31 }
  function Ext(w: bv32): bv32 { (w >> 1) & 0x3ff }
  function Low(w: bv32): bv32 { w & 0xffff }
  function Flags(w: bv32): bv32 { w & 3 }

  /** The 24-bit displacement of a branch, extended. */
  function Displacement(w: bv32): bv32 { if SignBit(w) != 0 then Extended(Field26(w)) else Field26(w) }

  function SignBit(w: bv32): bv32 { w & 0x0200_0000 }
  function Field26(w: bv32): bv32 { w & 0x03ff_fffc }
  function Extended(f: bv32): bv32 { 0xfc00_0000 | f }

  function SignExtend(d: bv32): bv32 { if d & 0x8000 != 0 then 0xffff_0000 | d else d }

  function Decode(w: bv32): Inst {
    if Prim(w) == 15 then Addis(FieldA(w), FieldB(w), Low(w))
    else if Prim(w) == 24 then Ori(FieldB(w), FieldA(w), Low(w))
    else if Prim(w) == 32 then Lwz(FieldA(w), FieldB(w), Low(w))
    else if Prim(w) == 31 && Ext(w) == 23 then Lwzx(FieldA(w), FieldB(w), FieldC(w))
    else if Prim(w) == 18 && Flags(w) == 0 then Branch(Displacement(w))
    else Other
  }

  // ------------------------------------------------------------------------ encoding

  predicate IsReg(r: bv32) { r & 0xffff_ffe0 == 0 }

  /** The upper half of an address to which its lower half is added as a signed number. */
  function HiAlg(addr: bv32): bv32 { Upper(Distance(LowPart(addr), addr)) }

  function Upper(x: bv32): bv32 { x >> 16 }
  function Shifted(x: bv32): bv32 { x << 16 }
  function Sum(a: bv32, b: bv32): bv32 { a + b }

  function LowPart(addr: bv32): bv32 { if addr & 0x8000 != 0 then 0xffff_8000 | addr else addr & 0x7fff }

  function LisAlg(dr: bv32, addr: bv32): bv32 { (15 << 26) + (dr << 21) + HiAlg(addr) }
  function LisLog(dr: bv32, addr: bv32): bv32 { (15 << 26) + (dr << 21) + (addr >> 16) }
  function OriWord(dr: bv32, sr: bv32, addr: bv32): bv32 { (24 << 26) + (sr << 21) + (dr << 16) + (addr & 0xffff) }
  function LwzWord(dr: bv32, sr: bv32, addr: bv32): bv32 { (32 << 26) + (dr << 21) + (sr << 16) + (addr & 0xffff) }
  function LwzxWord(dr: bv32, ar: bv32, br: bv32): bv32 {
    (31 << 26) + (dr << 21) + (ar << 16) + (br << 11) + (23 << 1)
  }
  function BranchWord(from: bv32, to: bv32): bv32 { BranchBy(Distance(from, to)) }
  function Distance(from: bv32, to: bv32): bv32 { to - from }
  function BranchBy(x: bv32): bv32 { (18 << 26) + (x & 0x03ff_fffc) }

  /** A branch reaches: both ends are aligned, and the distance fits 26 bits. */
  predicate Reaches(from: bv32, to: bv32) { Fits26(Distance(from, to)) }
  predicate Fits26(x: bv32) { IsForward(x) || IsBackward(x) }
  predicate IsForward(x: bv32) { x & 0xfe00_0003 == 0 }
  predicate IsBackward(x: bv32) { x & 0xfe00_0003 == 0xfe00_0000 }

  lemma Fields(op: bv32, a: bv32, b: bv32, imm: bv32)
    requires op & 0xffff_ffc0 == 0 && a & 0xffff_ffe0 == 0 && b & 0xffff_ffe0 == 0 && imm & 0xffff_0000 == 0
    ensures var w := (op << 26) + (a << 21) + (b << 16) + imm;
            w >> 26 == op && (w >> 21) & 31 == a && (w >> 16) & 31 == b && w & 0xffff == imm
  {
  }

  lemma HalfFields(op: bv32, a: bv32, imm: bv32)
    requires op & 0xffff_ffc0 == 0 && a & 0xffff_ffe0 == 0 && imm & 0xffff_0000 == 0
    ensures var w := (op << 26) + (a << 21) + imm;
            w >> 26 == op && (w >> 21) & 31 == a && (w >> 16) & 31 == 0 && w & 0xffff == imm
  {
  }

  lemma IndexedFields(a: bv32, b: bv32, c: bv32)
    requires a & 0xffff_ffe0 == 0 && b & 0xffff_ffe0 == 0 && c & 0xffff_ffe0 == 0
    ensures var w := (31 << 26) + (a << 21) + (b << 16) + (c << 11) + (23 << 1);
            w >> 26 == 31 && (w >> 21) & 31 == a && (w >> 16) & 31 == b && (w >> 11) & 31 == c && (w >> 1) & 0x3ff == 23
  {
  }

  lemma HiFits(addr: bv32)
    ensures HiAlg(addr) & 0xffff_0000 == 0
  {
    hide Distance, LowPart;
  }

  lemma DecodeLisAlg(r: bv32, addr: bv32)
    requires IsReg(r)
    ensures Decode(LisAlg(r, addr)) == Addis(r, 0, HiAlg(addr))
  {
    hide HiAlg;
    HiFits(addr);
    HalfFields(15, r, HiAlg(addr));
  }

  lemma DecodeLisLog(r: bv32, addr: bv32)
    requires IsReg(r)
    ensures Decode(LisLog(r, addr)) == Addis(r, 0, addr >> 16)
  {
    UpperFits(addr);
    HalfFields(15, r, addr >> 16);
  }

  lemma UpperFits(addr: bv32)
    ensures (addr >> 16) & 0xffff_0000 == 0
  {
  }

  lemma LowerFits(addr: bv32)
    ensures (addr & 0xffff) & 0xffff_0000 == 0
  {
  }

  lemma DecodeOri(dr: bv32, sr: bv32, addr: bv32)
    requires IsReg(dr) && IsReg(sr)
    ensures Decode(OriWord(dr, sr, addr)) == Ori(dr, sr, addr & 0xffff)
  {
    LowerFits(addr);
    Fields(24, sr, dr, addr & 0xffff);
  }

  lemma DecodeLwz(dr: bv32, sr: bv32, addr: bv32)
    requires IsReg(dr) && IsReg(sr)
    ensures Decode(LwzWord(dr, sr, addr)) == Lwz(dr, sr, addr & 0xffff)
  {
    LowerFits(addr);
    Fields(32, dr, sr, addr & 0xffff);
  }

  lemma DecodeLwzx(dr: bv32, ar: bv32, br: bv32)
    requires IsReg(dr) && IsReg(ar) && IsReg(br)
    ensures Decode(LwzxWord(dr, ar, br)) == Lwzx(dr, ar, br)
  {
    IndexedFields(dr, ar, br);
  }

  lemma BranchFields(x: bv32)
    ensures var w := BranchBy(x); Prim(w) == 18 && Flags(w) == 0 && Field26(w) == Field26(x)
  {
  }

  lemma Forward(x: bv32)
    requires IsForward(x)
    ensures SignBit(x) == 0 && Field26(x) == x
  {
  }

  lemma Backward(x: bv32)
    requires IsBackward(x)
    ensures SignBit(x) == 0x0200_0000 && Extended(Field26(x)) == x
  {
  }

  lemma SignInField(w: bv32)
    ensures SignBit(Field26(w)) == SignBit(w)
  {
  }

  lemma DisplacementBack(x: bv32, w: bv32)
    requires Fits26(x) && Field26(w) == Field26(x)
    ensures Displacement(w) == x
  {
    hide IsForward, IsBackward, Field26, SignBit, Extended;
    SignInField(x);
    SignInField(w);
    if IsForward(x) {
      Forward(x);
    } else {
      Backward(x);
    }
  }

  /** A branch that reaches its target goes there. */
  lemma DecodeBranch(from: bv32, to: bv32)
    requires Reaches(from, to)
    ensures Decode(BranchWord(from, to)) == Branch(Distance(from, to))
  {
    hide BranchBy, Distance, Fits26, Displacement, Prim, Flags, Low, FieldA, FieldB, FieldC, Ext, Field26;
    BranchFields(Distance(from, to));
    DisplacementBack(Distance(from, to), BranchWord(from, to));
  }

  // --------------------------------------------------------------------- addresses

  lemma LowSame(a: bv32, l: bv32)
    requires Low(a) == Low(l)
    ensures Low(Distance(l, a)) == 0
  {
  }

  lemma ShiftBack(x: bv32)
    requires Low(x) == 0
    ensures Shifted(Upper(x)) == x
  {
  }

  lemma MinusPlus(a: bv32, l: bv32)
    ensures Sum(Distance(l, a), l) == a && Sum(l, Distance(l, a)) == a
  {
  }

  lemma NegativeLow(addr: bv32)
    requires addr & 0x8000 != 0
    ensures (0xffff_8000 | addr) & 0xffff == addr & 0xffff
  {
  }

  lemma NegativeSame(addr: bv32)
    requires addr & 0x8000 != 0
    ensures 0xffff_8000 | addr == 0xffff_0000 | (addr & 0xffff)
  {
  }

  lemma SignKept(addr: bv32)
    ensures (addr & 0xffff) & 0x8000 == addr & 0x8000
  {
  }

  lemma PositiveLow(addr: bv32)
    requires addr & 0x8000 == 0
    ensures addr & 0x7fff == addr & 0xffff
  {
  }

  lemma LowTwice(addr: bv32)
    ensures (addr & 0xffff) & 0xffff == addr & 0xffff
  {
  }

  lemma LowPartLow(addr: bv32)
    ensures LowPart(addr) & 0xffff == addr & 0xffff
  {
    if addr & 0x8000 != 0 {
      NegativeLow(addr);
    } else {
      PositiveLow(addr);
      LowTwice(addr);
    }
  }

  lemma LowPartSigned(addr: bv32)
    ensures SignExtend(Low(addr)) == LowPart(addr)
  {
    SignKept(addr);
    if addr & 0x8000 != 0 {
      NegativeSame(addr);
    } else {
      PositiveLow(addr);
    }
  }

  lemma LowPartLow2(addr: bv32)
    ensures Low(LowPart(addr)) == Low(addr)
  {
    hide LowPart;
    LowPartLow(addr);
  }

  /** The upper half and the signed lower half add up to the address. */
  lemma HiPlusLow(addr: bv32)
    ensures Sum(Shifted(HiAlg(addr)), SignExtend(Low(addr))) == addr
  {
    hide LowPart, SignExtend, Sum, Low, Shifted, Upper, Distance;
    LowPartLow2(addr);
    LowPartSigned(addr);
    LowSame(addr, LowPart(addr));
    ShiftBack(Distance(LowPart(addr), addr));
    MinusPlus(addr, LowPart(addr));
  }

  function Or(a: bv32, b: bv32): bv32 { a | b }

  /** The upper half and the lower half make the address. */
  lemma HiOrLow(addr: bv32)
    ensures Or(Shifted(Upper(addr)), Low(addr)) == addr
  {
  }

  // --------------------------------------------------------------------- the processor

  /** The name of a general register. */
  datatype RegName = R(n: bv32)

  /** Program counter, general registers, and memory by words. */
  datatype Cpu = Cpu(pc: bv32, gpr: map<RegName, bv32>, mem: bv32 -> bv32)

  ghost function Reg(s: Cpu, r: bv32): bv32 { if R(r) in s.gpr then s.gpr[R(r)] else 0 }

  /** Register 0 stands for the number 0 in an address. */
  ghost function RegOrZero(s: Cpu, r: bv32): bv32 { if r == 0 then 0 else Reg(s, r) }

  function Next(pc: bv32): bv32 { pc + 4 }

  /** One instruction; any other than those written here stops the processor. */
  ghost function Step(s: Cpu): Cpu {
    match Decode(s.mem(s.pc))
    case Addis(rd, ra, imm) => s.(pc := Next(s.pc), gpr := s.gpr[R(rd) := Sum(RegOrZero(s, ra), Shifted(imm))])
    case Ori(ra, rs, imm) => s.(pc := Next(s.pc), gpr := s.gpr[R(ra) := Or(Reg(s, rs), imm)])
    case Lwz(rd, ra, imm) => s.(pc := Next(s.pc), gpr := s.gpr[R(rd) := s.mem(Sum(RegOrZero(s, ra), SignExtend(imm)))])
    case Lwzx(rd, ra, rb) => s.(pc := Next(s.pc), gpr := s.gpr[R(rd) := s.mem(Sum(RegOrZero(s, ra), Reg(s, rb)))])
    case Branch(offs) => s.(pc := Sum(s.pc, offs))
    case Other => s
  }

  ghost function Steps(s: Cpu, n: nat): Cpu
    decreases n
  {
    if n == 0 then s else Steps(Step(s), n - 1)
  }

  lemma ZeroPlus(x: bv32)
    ensures Sum(0, x) == x
  {
  }

  lemma StepBranch(s: Cpu, to: bv32)
    requires s.mem(s.pc) == BranchWord(s.pc, to) && Reaches(s.pc, to)
    ensures Step(s) == s.(pc := to)
  {
    hide Decode, Reaches, BranchWord, Sum, Distance;
    DecodeBranch(s.pc, to);
    MinusPlus(to, s.pc);
  }

  lemma StepLisAlg(s: Cpu, r: bv32, addr: bv32)
    requires IsReg(r) && s.mem(s.pc) == LisAlg(r, addr)
    ensures Step(s) == s.(pc := Next(s.pc), gpr := s.gpr[R(r) := Shifted(HiAlg(addr))])
  {
    hide Decode, LisAlg, Sum, HiAlg, Shifted, Next, IsReg;
    DecodeLisAlg(r, addr);
    ZeroPlus(Shifted(HiAlg(addr)));
  }

  lemma StepLisLog(s: Cpu, r: bv32, addr: bv32)
    requires IsReg(r) && s.mem(s.pc) == LisLog(r, addr)
    ensures Step(s) == s.(pc := Next(s.pc), gpr := s.gpr[R(r) := Shifted(Upper(addr))])
  {
    hide Decode, LisLog, Sum, Shifted, Next, IsReg;
    DecodeLisLog(r, addr);
    ZeroPlus(Shifted(Upper(addr)));
  }

  lemma StepOri(s: Cpu, r: bv32, addr: bv32)
    requires IsReg(r) && s.mem(s.pc) == OriWord(r, r, addr)
    ensures Step(s) == s.(pc := Next(s.pc), gpr := s.gpr[R(r) := Or(Reg(s, r), Low(addr))])
  {
    hide Decode, OriWord, Or, Next, IsReg;
    DecodeOri(r, r, addr);
  }

  lemma StepLwz(s: Cpu, r: bv32, addr: bv32)
    requires IsReg(r) && r != 0 && s.mem(s.pc) == LwzWord(r, r, addr)
    ensures Step(s) == s.(pc := Next(s.pc), gpr := s.gpr[R(r) := s.mem(Sum(Reg(s, r), SignExtend(Low(addr))))])
  {
    hide Decode, LwzWord, Sum, SignExtend, Next, IsReg;
    DecodeLwz(r, r, addr);
  }

  lemma StepLwzx(s: Cpu)
    requires s.mem(s.pc) == LwzxWord(0, 0, 0)
    ensures Step(s) == s.(pc := Next(s.pc), gpr := s.gpr[R(0) := s.mem(Reg(s, 0))])
  {
    hide Decode, LwzxWord, Sum, Next;
    DecodeLwzx(0, 0, 0);
    ZeroPlus(Reg(s, 0));
  }
}
