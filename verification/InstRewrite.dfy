/**
 Privileged reads replaced by loads.

 MOL keeps the emulated registers in memory.  The boot loader replaces an instruction that
 reads one by a branch to a few instructions that load it and branch back.
 */
module InstRewrite {
  import opened Ppc

  /** The address of the n-th word from an address. */
  function After(d: bv32, n: nat): bv32 { if n == 0 then d else Next(After(d, n - 1)) }

  /** encode_mregs_read: register 0 cannot be the base of a load, so it takes one more
      instruction. */
  function ReadWords(r: bv32, maddr: bv32): seq<bv32> {
    if r == 0 then [LisLog(r, maddr), OriWord(r, r, maddr), LwzxWord(r, 0, r)]
    else [LisAlg(r, maddr), LwzWord(r, r, maddr)]
  }

  /** encode_mfdec, written at an address: a branch to the code that brings the emulated
      decrementer up to date comes before the load. */
  function DecWords(r: bv32, maddr: bv32, d: bv32, target: bv32): seq<bv32> {
    if r == 0 then [LisLog(r, maddr), OriWord(r, r, maddr), BranchWord(After(d, 2), target), LwzxWord(r, 0, r)]
    else [LisAlg(r, maddr), BranchWord(After(d, 1), target), LwzWord(r, r, maddr)]
  }

  /** The words, and a branch to the instruction after the one replaced. */
  function WithReturn(words: seq<bv32>, d: bv32, p: bv32): seq<bv32> {
    words + [BranchWord(After(d, |words|), Next(p))]
  }

  ghost predicate Placed(mem: bv32 -> bv32, d: bv32, words: seq<bv32>) {
    forall i: nat :: i < |words| ==> mem(After(d, i)) == words[i]
  }

  /** What the instruction replaced is to do: read an emulated register. */
  ghost function Emulated(s: Cpu, r: bv32, value: bv32): Cpu { s.(pc := Next(s.pc), gpr := s.gpr[R(r) := value]) }

  lemma Twice(g: map<RegName, bv32>, r: bv32, x: bv32, y: bv32)
    ensures g[R(r) := x][R(r) := y] == g[R(r) := y]
  {
  }

  lemma RegSet(s: Cpu, g: map<RegName, bv32>, r: bv32, x: bv32)
    requires s.gpr == g[R(r) := x]
    ensures Reg(s, r) == x
  {
    assert R(r) in s.gpr && s.gpr[R(r)] == x;
  }

  lemma Afters(d: bv32)
    ensures After(d, 0) == d && After(d, 1) == Next(d) && After(d, 2) == Next(Next(d)) &&
            After(d, 3) == Next(Next(Next(d)))
    ensures After(d, 4) == Next(Next(Next(Next(d))))
  {
    assert After(d, 3) == Next(After(d, 2));
    assert After(d, 4) == Next(After(d, 3));
  }

  lemma StepsFour(s: Cpu)
    ensures Steps(s, 4) == Step(Step(Step(Step(s)))) && Steps(s, 5) == Step(Step(Step(Step(Step(s)))))
    ensures Steps(s, 3) == Step(Step(Step(s)))
  {
    hide Step;
    var a := Step(s);
    var b := Step(a);
    assert Steps(s, 3) == Steps(a, 2) == Steps(b, 1) == Steps(Step(b), 0);
    var c := Step(b);
    assert Steps(s, 4) == Steps(a, 3) == Steps(b, 2) == Steps(c, 1) == Steps(Step(c), 0);
    var e := Step(c);
    assert Steps(s, 5) == Steps(a, 4) == Steps(b, 3) == Steps(c, 2) == Steps(e, 1) == Steps(Step(e), 0);
  }

  /** A branch to the words of a read, at an address within reach. */
  ghost predicate Rewritten(s: Cpu, d: bv32, words: seq<bv32>) {
    s.mem(s.pc) == BranchWord(s.pc, d) && Reaches(s.pc, d) && Placed(s.mem, d, WithReturn(words, d, s.pc)) &&
    Reaches(After(d, |words|), Next(s.pc))
  }

  /** The read into a register other than 0. */
  lemma ReadPreserved(s: Cpu, d: bv32, r: bv32, maddr: bv32)
    requires IsReg(r) && r != 0 && Rewritten(s, d, ReadWords(r, maddr))
    ensures Steps(s, 4) == Emulated(s, r, s.mem(maddr))
  {
    hide LisAlg, LwzWord, BranchWord, Reaches, Next, Step, Sum, Shifted, HiAlg, SignExtend, Low, IsReg, After;
    var p, words := s.pc, WithReturn(ReadWords(r, maddr), d, s.pc);
    Afters(d);
    PlacedAt(s.mem, d, words, 0);
    PlacedAt(s.mem, d, words, 1);
    PlacedAt(s.mem, d, words, 2);
    StepBranch(s, d);
    var s1 := Step(s);
    StepLisAlg(s1, r, maddr);
    var s2 := Step(s1);
    StepLwz(s2, r, maddr);
    HiPlusLow(maddr);
    RegSet(s2, s.gpr, r, Shifted(HiAlg(maddr)));
    var s3 := Step(s2);
    StepBranch(s3, Next(p));
    Twice(s.gpr, r, Shifted(HiAlg(maddr)), s.mem(maddr));
    assert s3.gpr == s.gpr[R(r) := Shifted(HiAlg(maddr))][R(r) := s.mem(maddr)];
    assert Step(s3) == Emulated(s, r, s.mem(maddr));
    StepsFour(s);
  }

  lemma PlacedAt(mem: bv32 -> bv32, d: bv32, words: seq<bv32>, i: nat)
    requires Placed(mem, d, words) && i < |words|
    ensures mem(After(d, i)) == words[i]
  {
  }

  /** The read into register 0. */
  lemma ReadZeroPreserved(s: Cpu, d: bv32, maddr: bv32)
    requires Rewritten(s, d, ReadWords(0, maddr))
    ensures Steps(s, 5) == Emulated(s, 0, s.mem(maddr))
  {
    hide LisLog, OriWord, LwzxWord, BranchWord, Reaches, Next, Step, Or, Shifted, Upper, Low, IsReg, After;
    var p, words := s.pc, WithReturn(ReadWords(0, maddr), d, s.pc);
    Afters(d);
    PlacedAt(s.mem, d, words, 0);
    PlacedAt(s.mem, d, words, 1);
    PlacedAt(s.mem, d, words, 2);
    PlacedAt(s.mem, d, words, 3);
    ZeroIsReg();
    StepBranch(s, d);
    var s1 := Step(s);
    StepLisLog(s1, 0, maddr);
    var s2 := Step(s1);
    StepOri(s2, 0, maddr);
    HiOrLow(maddr);
    RegSet(s2, s.gpr, 0, Shifted(Upper(maddr)));
    var s3 := Step(s2);
    RegSet(s3, s2.gpr, 0, maddr);
    StepLwzx(s3);
    var s4 := Step(s3);
    StepBranch(s4, Next(p));
    Twice(s.gpr, 0, Shifted(Upper(maddr)), maddr);
    Twice(s.gpr, 0, maddr, s.mem(maddr));
    assert s3.gpr == s.gpr[R(0) := Shifted(Upper(maddr))][R(0) := maddr];
    assert s4.gpr == s.gpr[R(0) := maddr][R(0) := s.mem(maddr)];
    assert Step(s4) == Emulated(s, 0, s.mem(maddr));
    StepsFour(s);
  }

  lemma ZeroIsReg()
    ensures IsReg(0)
  {
  }

  lemma StepsTwo(s: Cpu)
    ensures Steps(s, 2) == Step(Step(s))
  {
    hide Step;
    var a := Step(s);
    assert Steps(s, 2) == Steps(a, 1) == Steps(Step(a), 0);
  }

  /** The decrementer into a register other than 0: the code branches to the target; when
      the emulator has brought the decrementer up to date in memory and resumes after the
      branch, the code loads it and returns. */
  lemma DecPreserved(s: Cpu, d: bv32, r: bv32, maddr: bv32, target: bv32, mem2: bv32 -> bv32)
    requires IsReg(r) && r != 0 && Rewritten(s, d, DecWords(r, maddr, d, target)) && Reaches(After(d, 1), target)
    requires Placed(mem2, d, WithReturn(DecWords(r, maddr, d, target), d, s.pc))
    ensures Steps(s, 3).pc == target
    ensures Steps(Steps(s, 3).(pc := After(d, 2), mem := mem2), 2) == Emulated(s.(mem := mem2), r, mem2(maddr))
  {
    hide LisAlg, LwzWord, BranchWord, Reaches, Next, Step, Sum, Shifted, HiAlg, SignExtend, Low, IsReg, After;
    var p, words := s.pc, WithReturn(DecWords(r, maddr, d, target), d, s.pc);
    Afters(d);
    PlacedAt(s.mem, d, words, 0);
    PlacedAt(s.mem, d, words, 1);
    PlacedAt(mem2, d, words, 2);
    PlacedAt(mem2, d, words, 3);
    StepBranch(s, d);
    var s1 := Step(s);
    StepLisAlg(s1, r, maddr);
    var s2 := Step(s1);
    StepBranch(s2, target);
    StepsFour(s);
    var t := Steps(s, 3).(pc := After(d, 2), mem := mem2);
    RegSet(t, s.gpr, r, Shifted(HiAlg(maddr)));
    StepLwz(t, r, maddr);
    HiPlusLow(maddr);
    var t1 := Step(t);
    StepBranch(t1, Next(p));
    Twice(s.gpr, r, Shifted(HiAlg(maddr)), mem2(maddr));
    assert t1.gpr == s.gpr[R(r) := Shifted(HiAlg(maddr))][R(r) := mem2(maddr)];
    StepsTwo(t);
  }

  /** The decrementer into register 0. */
  lemma DecZeroPreserved(s: Cpu, d: bv32, maddr: bv32, target: bv32, mem2: bv32 -> bv32)
    requires Rewritten(s, d, DecWords(0, maddr, d, target)) && Reaches(After(d, 2), target)
    requires Placed(mem2, d, WithReturn(DecWords(0, maddr, d, target), d, s.pc))
    ensures Steps(s, 4).pc == target
    ensures Steps(Steps(s, 4).(pc := After(d, 3), mem := mem2), 2) == Emulated(s.(mem := mem2), 0, mem2(maddr))
  {
    hide LisLog, OriWord, LwzxWord, BranchWord, Reaches, Next, Step, Or, Shifted, Upper, Low, IsReg, After;
    var p, words := s.pc, WithReturn(DecWords(0, maddr, d, target), d, s.pc);
    Afters(d);
    PlacedAt(s.mem, d, words, 0);
    PlacedAt(s.mem, d, words, 1);
    PlacedAt(s.mem, d, words, 2);
    PlacedAt(mem2, d, words, 3);
    PlacedAt(mem2, d, words, 4);
    ZeroIsReg();
    StepBranch(s, d);
    var s1 := Step(s);
    StepLisLog(s1, 0, maddr);
    var s2 := Step(s1);
    StepOri(s2, 0, maddr);
    HiOrLow(maddr);
    RegSet(s2, s.gpr, 0, Shifted(Upper(maddr)));
    var s3 := Step(s2);
    StepBranch(s3, target);
    StepsFour(s);
    var t := Steps(s, 4).(pc := After(d, 3), mem := mem2);
    RegSet(t, s2.gpr, 0, maddr);
    StepLwzx(t);
    var t1 := Step(t);
    StepBranch(t1, Next(p));
    Twice(s.gpr, 0, Shifted(Upper(maddr)), maddr);
    Twice(s.gpr, 0, maddr, mem2(maddr));
    assert t.gpr == s.gpr[R(0) := Shifted(Upper(maddr))][R(0) := maddr];
    assert t1.gpr == s.gpr[R(0) := maddr][R(0) := mem2(maddr)];
    StepsTwo(t);
  }
}
