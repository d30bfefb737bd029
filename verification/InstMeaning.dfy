/**
 Which instructions the rewriter replaces, and what the code does afterwards.
 */
module InstMeaning {
  import opened Ppc
  import opened InstRewrite
  import opened InstPasses

  // ------------------------------------------------------------- privileged instructions

  predicate IsPrim(x: bv32) { x & 0xffff_ffc0 == 0 }
  predicate IsExt(x: bv32) { x & 0xffff_fc00 == 0 }

  /** Primary and extended opcode, and three fields of five bits. */
  function InstWord(prim: bv32, a: bv32, b: bv32, c: bv32, ext: bv32): bv32 {
    (prim << 26) | (a << 21) | (b << 16) | (c << 11) | (ext << 1)
  }

  /** A special register: the two halves of its number are swapped in an instruction. */
  predicate IsSpr(n: bv32) { n & 0xffff_fc00 == 0 }
  function SprLow(n: bv32): bv32 { n & 31 }
  function SprHigh(n: bv32): bv32 { n >> 5 }

  predicate IsSegment(n: bv32) { n & 0xffff_fff0 == 0 }

  /** mfmsr, mfsr and mfspr into a register. */
  function ReadInst(r: bv32, m: Mirror): bv32 {
    match m
    case Msr => InstWord(31, r, 0, 0, 83)
    case Segment(n) => InstWord(31, r, n, 0, 595)
    case Special(n) => InstWord(31, r, SprLow(n), SprHigh(n), 339)
  }

  /** mtmsr, mtsr and mtspr from a register. */
  function WriteInst(r: bv32, m: Mirror): bv32 {
    match m
    case Msr => InstWord(31, r, 0, 0, 146)
    case Segment(n) => InstWord(31, r, n, 0, 210)
    case Special(n) => InstWord(31, r, SprLow(n), SprHigh(n), 467)
  }

  function RfiInst(): bv32 { InstWord(19, 0, 0, 0, 50) }
  function EieioInst(): bv32 { InstWord(31, 0, 0, 0, 854) }
  function TlbieInst(r: bv32): bv32 { InstWord(31, 0, 0, r, 306) }

  /** The registers whose reads are replaced: the MSR, the sixteen segment registers and
      the supervisor's special registers that MOL keeps in memory.  The decrementer is apart. */
  predicate Readable(env: Env, m: Mirror) {
    match m
    case Msr => true
    case Segment(n) => IsSegment(n)
    case Special(n) => IsSpr(n) && HasBit16(n) && n != S_DEC && env.mirrored(n)
  }

  /** The registers whose writes are accelerated. */
  predicate Accelerated(env: Env, m: Mirror) {
    match m
    case Msr => true
    case Segment(n) => IsSegment(n)
    case Special(n) => IsSpr(n) && env.writable(n)
  }

  lemma WordParts(prim: bv32, a: bv32, b: bv32, c: bv32, ext: bv32)
    requires IsPrim(prim) && IsReg(a) && IsReg(b) && IsReg(c) && IsExt(ext)
    ensures var w := InstWord(prim, a, b, c, ext);
            Prim(w) == prim && FieldA(w) == a && FieldB(w) == b && FieldC(w) == c && Ext(w) == ext && !IsOdd(w)
  {
  }

  lemma WordFromParts(w: bv32)
    requires !IsOdd(w)
    ensures w == InstWord(Prim(w), FieldA(w), FieldB(w), FieldC(w), Ext(w))
  {
  }

  lemma FieldsFit(w: bv32)
    ensures IsReg(FieldA(w)) && IsReg(FieldB(w)) && IsReg(FieldC(w))
  {
  }

  lemma Opcodes()
    ensures IsPrim(19) && IsPrim(31) && IsReg(0)
    ensures IsExt(50) && IsExt(83) && IsExt(339) && IsExt(146) && IsExt(467) && IsExt(595) && IsExt(210)
    ensures IsExt(854) && IsExt(306)
    ensures IsSpr(S_DEC) && HasBit16(S_DEC)
  {
  }

  lemma SegmentIs(n: bv32)
    ensures IsSegment(n) <==> IsReg(n) && !HasBit16(n)
  {
  }

  /** The halves of the number of a special register come together again. */
  lemma SprHalves(w: bv32)
    ensures IsSpr(SprOf(w)) && FieldB(w) == SprLow(SprOf(w)) && FieldC(w) == SprHigh(SprOf(w))
  {
  }

  lemma HalvesFit(n: bv32)
    requires IsSpr(n)
    ensures IsReg(SprLow(n)) && IsReg(SprHigh(n))
  {
  }

  lemma SameHalves(m: bv32, n: bv32)
    requires SprLow(m) == SprLow(n) && SprHigh(m) == SprHigh(n)
    ensures m == n
  {
  }

  lemma SprBack(r: bv32, n: bv32, ext: bv32)
    requires IsReg(r) && IsSpr(n) && IsExt(ext)
    ensures SprOf(InstWord(31, r, SprLow(n), SprHigh(n), ext)) == n
  {
    hide *;
    var w := InstWord(31, r, SprLow(n), SprHigh(n), ext);
    Opcodes();
    HalvesFit(n);
    WordParts(31, r, SprLow(n), SprHigh(n), ext);
    SprHalves(w);
    SameHalves(SprOf(w), n);
  }

  lemma MsrIsSeen(env: Env, r: bv32)
    requires IsReg(r)
    ensures Classify(env, InstWord(31, r, 0, 0, 83)) == Read(r, Msr)
    ensures Classify(env, InstWord(31, r, 0, 0, 146)) == InPlace
  {
    hide FieldA, FieldB, FieldC, Ext, Prim, SprOf, IsOdd, HasBit16, IsReg, IsPrim, IsExt, InstWord;
    Opcodes();
    WordParts(31, r, 0, 0, 83);
    WordParts(31, r, 0, 0, 146);
  }

  lemma SegmentIsSeen(env: Env, r: bv32, n: bv32)
    requires IsReg(r) && IsSegment(n)
    ensures Classify(env, InstWord(31, r, n, 0, 595)) == Read(r, Segment(n))
    ensures Classify(env, InstWord(31, r, n, 0, 210)) == InPlace
  {
    hide FieldA, FieldB, FieldC, Ext, Prim, SprOf, IsOdd, HasBit16, IsReg, IsPrim, IsExt, InstWord, IsSegment;
    Opcodes();
    SegmentIs(n);
    WordParts(31, r, n, 0, 595);
    WordParts(31, r, n, 0, 210);
  }

  lemma SpecialRead(env: Env, r: bv32, n: bv32)
    requires IsReg(r) && IsSpr(n) && HasBit16(n)
    ensures Classify(env, InstWord(31, r, SprLow(n), SprHigh(n), 339)) ==
              if n == S_DEC then ReadDec(r) else if env.mirrored(n) then Read(r, Special(n)) else Leave
  {
    hide FieldA, FieldB, FieldC, Ext, Prim, SprOf, IsOdd, HasBit16, IsReg, IsPrim, IsExt, InstWord;
    hide SprLow, SprHigh, IsSpr;
    Opcodes();
    HalvesFit(n);
    WordParts(31, r, SprLow(n), SprHigh(n), 339);
    SprBack(r, n, 339);
  }

  lemma SpecialWrite(env: Env, r: bv32, n: bv32)
    requires IsReg(r) && IsSpr(n) && env.writable(n)
    ensures Classify(env, InstWord(31, r, SprLow(n), SprHigh(n), 467)) == InPlace
  {
    hide FieldA, FieldB, FieldC, Ext, Prim, SprOf, IsOdd, HasBit16, IsReg, IsPrim, IsExt, InstWord;
    hide SprLow, SprHigh, IsSpr;
    Opcodes();
    HalvesFit(n);
    WordParts(31, r, SprLow(n), SprHigh(n), 467);
    SprBack(r, n, 467);
  }

  /** The instruction that reads a register is classified as one. */
  lemma ReadIsSeen(env: Env, r: bv32, m: Mirror)
    requires IsReg(r) && Readable(env, m)
    ensures Classify(env, ReadInst(r, m)) == Read(r, m)
  {
    hide Classify, HasBit16, IsReg, InstWord, SprLow, SprHigh, IsSpr, IsSegment;
    match m
    case Msr => MsrIsSeen(env, r);
    case Segment(n) => SegmentIsSeen(env, r, n);
    case Special(n) => SpecialRead(env, r, n);
  }

  lemma OnlyReads(env: Env, w: bv32, r: bv32, m: Mirror)
    requires Classify(env, w) == Read(r, m)
    ensures IsReg(r) && Readable(env, m) && w == ReadInst(r, m)
  {
    hide FieldA, FieldB, FieldC, Ext, Prim, SprOf, IsOdd, HasBit16, IsReg, IsPrim, IsExt, InstWord;
    hide SprLow, SprHigh, IsSpr, IsSegment;
    FieldsFit(w);
    WordFromParts(w);
    SprHalves(w);
    SegmentIs(FieldB(w));
  }

  /** A word is replaced by the read of a register exactly when it is the instruction that
      reads it. */
  lemma ReadsExactly(env: Env, w: bv32, r: bv32, m: Mirror)
    ensures Classify(env, w) == Read(r, m) <==> IsReg(r) && Readable(env, m) && w == ReadInst(r, m)
  {
    hide Classify, IsReg, Readable, ReadInst;
    if Classify(env, w) == Read(r, m) {
      OnlyReads(env, w, r, m);
    } else if IsReg(r) && Readable(env, m) {
      ReadIsSeen(env, r, m);
    }
  }

  lemma DecIsSeen(env: Env, r: bv32)
    requires IsReg(r)
    ensures Classify(env, ReadInst(r, Special(S_DEC))) == ReadDec(r)
  {
    hide Classify, HasBit16, IsReg, InstWord, SprLow, SprHigh, IsSpr;
    Opcodes();
    SpecialRead(env, r, S_DEC);
  }

  /** The decrementer is read exactly where mfspr names it. */
  lemma DecExactly(env: Env, w: bv32, r: bv32)
    ensures Classify(env, w) == ReadDec(r) <==> IsReg(r) && w == ReadInst(r, Special(S_DEC))
  {
    hide FieldA, FieldB, FieldC, Ext, Prim, SprOf, IsOdd, HasBit16, IsReg, IsPrim, IsExt, InstWord;
    hide SprLow, SprHigh, IsSpr, IsSegment;
    if Classify(env, w) == ReadDec(r) {
      FieldsFit(w);
      WordFromParts(w);
      SprHalves(w);
    } else if IsReg(r) {
      DecIsSeen(env, r);
    }
  }

  lemma WriteIsSeen(env: Env, r: bv32, m: Mirror)
    requires IsReg(r) && Accelerated(env, m)
    ensures Classify(env, WriteInst(r, m)) == InPlace
  {
    hide Classify, IsReg, InstWord, SprLow, SprHigh, IsSpr, IsSegment;
    match m
    case Msr => MsrIsSeen(env, r);
    case Segment(n) => SegmentIsSeen(env, r, n);
    case Special(n) => SpecialWrite(env, r, n);
  }

  ghost predicate IsWrite(env: Env, w: bv32) {
    exists r, m :: IsReg(r) && Accelerated(env, m) && w == WriteInst(r, m)
  }

  lemma OnlyWrites(env: Env, w: bv32)
    requires Classify(env, w) == InPlace
    ensures w == RfiInst() || IsWrite(env, w)
  {
    hide FieldA, FieldB, FieldC, Ext, Prim, SprOf, IsOdd, HasBit16, IsReg, IsPrim, IsExt, InstWord;
    hide SprLow, SprHigh, IsSpr, IsSegment;
    FieldsFit(w);
    WordFromParts(w);
    SprHalves(w);
    SegmentIs(FieldB(w));
    if Prim(w) == 31 {
      var m := if Ext(w) == 146 then Msr else if Ext(w) == 210 then Segment(FieldB(w)) else Special(SprOf(w));
      assert Accelerated(env, m) && w == WriteInst(FieldA(w), m);
    }
  }

  lemma RfiIsSeen(env: Env)
    ensures Classify(env, RfiInst()) == InPlace
  {
    hide FieldA, FieldB, FieldC, Ext, Prim, SprOf, IsOdd, HasBit16, IsReg, IsPrim, IsExt, InstWord;
    Opcodes();
    WordParts(19, 0, 0, 0, 50);
  }

  /** A word is replaced in place exactly when it is an rfi or an accelerated write. */
  lemma InPlaceExactly(env: Env, w: bv32)
    ensures Classify(env, w) == InPlace <==> w == RfiInst() || IsWrite(env, w)
  {
    hide Classify, IsReg, Accelerated, WriteInst, RfiInst;
    RfiIsSeen(env);
    if Classify(env, w) == InPlace {
      OnlyWrites(env, w);
    } else if IsWrite(env, w) {
      var r, m :| IsReg(r) && Accelerated(env, m) && w == WriteInst(r, m);
      WriteIsSeen(env, r, m);
    }
  }

  lemma NopIsSeen(env: Env, r: bv32)
    requires IsReg(r)
    ensures Classify(env, EieioInst()) == MakeNop && Classify(env, TlbieInst(r)) == MakeNop
  {
    hide FieldA, FieldB, FieldC, Ext, Prim, SprOf, IsOdd, HasBit16, IsReg, IsPrim, IsExt, InstWord;
    Opcodes();
    WordParts(31, 0, 0, 0, 854);
    WordParts(31, 0, 0, r, 306);
  }

  ghost predicate IsTlbie(w: bv32) { exists r :: IsReg(r) && w == TlbieInst(r) }

  lemma OnlyNops(env: Env, w: bv32)
    requires Classify(env, w) == MakeNop
    ensures w == EieioInst() || IsTlbie(w)
  {
    hide FieldA, FieldB, FieldC, Ext, Prim, SprOf, IsOdd, HasBit16, IsReg, IsPrim, IsExt, InstWord;
    FieldsFit(w);
    WordFromParts(w);
    assert w == EieioInst() || w == TlbieInst(FieldC(w));
  }

  /** A word becomes a no-op exactly when it is an eieio or a tlbie. */
  lemma NopExactly(env: Env, w: bv32)
    ensures Classify(env, w) == MakeNop <==> w == EieioInst() || IsTlbie(w)
  {
    hide Classify, IsReg, EieioInst, TlbieInst;
    ZeroIsReg();
    NopIsSeen(env, 0);
    if Classify(env, w) == MakeNop {
      OnlyNops(env, w);
    } else if IsTlbie(w) {
      var r :| IsReg(r) && w == TlbieInst(r);
      NopIsSeen(env, r);
    }
  }

  // ------------------------------------------------------------------ the rewritten code

  lemma {:induction false} AfterAfter(d: bv32, k: nat, j: nat)
    ensures After(After(d, k), j) == After(d, k + j)
  {
    hide Next;
    if j > 0 {
      AfterAfter(d, k, j - 1);
    }
  }

  lemma FieldIsReg(w: bv32)
    ensures IsReg(FieldA(w))
  {
  }

  /** The register of a read is one of the 32. */
  lemma ReadsIntoReg(env: Env, w: bv32)
    ensures Classify(env, w).Read? ==> IsReg(Classify(env, w).r)
  {
    hide FieldA, FieldB, FieldC, Ext, Prim, SprOf, IsOdd, HasBit16, IsReg;
    FieldIsReg(w);
  }

  /** Part of what has been written, at its place in memory. */
  lemma PartPlaced(mem: bv32 -> bv32, d: bv32, words: seq<bv32>, k: nat, part: seq<bv32>)
    requires Placed(mem, d, words) && k + |part| <= |words| && words[k..k + |part|] == part
    ensures Placed(mem, After(d, k), part)
  {
    hide After;
    forall j: nat | j < |part|
      ensures mem(After(After(d, k), j)) == part[j]
    {
      AfterAfter(d, k, j);
      PlacedAt(mem, d, words, k + j);
    }
  }

  lemma RewrittenRead(env: Env, was: seq<bv32>, now: seq<bv32>, d: bv32, words: seq<bv32>, i: nat, s: Cpu)
    requires i < |was| == |now| && Written(env, was, now, d, words, i) && Classify(env, was[i]).Read?
    requires s.pc == After(0, i) && s.mem(s.pc) == now[i] && Placed(s.mem, d, words)
    requires var at := After(d, Total(env, false, was, i));
             var c := Classify(env, was[i]);
             Reaches(s.pc, at) && Reaches(After(at, |ReadWords(c.r, env.place(c.what))|), Next(s.pc))
    ensures var c := Classify(env, was[i]);
            Steps(s, if c.r == 0 then 5 else 4) == Emulated(s, c.r, s.mem(env.place(c.what)))
  {
    hide Classify, After, Next, Reaches, BranchWord, ReadWords, Total, Steps, IsReg, Placed;
    var k, c := Total(env, false, was, i), Classify(env, was[i]);
    var at, maddr := After(d, k), env.place(c.what);
    ReadsIntoReg(env, was[i]);
    CountIs(env, false, was[i], i, at);
    PartPlaced(s.mem, d, words, k, Emit(env, false, was[i], i, at));
    assert Rewritten(s, at, ReadWords(c.r, maddr));
    if c.r == 0 {
      ReadZeroPreserved(s, at, maddr);
    } else {
      ReadPreserved(s, at, c.r, maddr);
    }
  }

  lemma ReadsDecIntoReg(env: Env, w: bv32)
    ensures Classify(env, w).ReadDec? ==> IsReg(Classify(env, w).r)
  {
    hide FieldA, FieldB, FieldC, Ext, Prim, SprOf, IsOdd, HasBit16, IsReg;
    FieldIsReg(w);
  }

  lemma RewrittenDec(env: Env, was: seq<bv32>, now: seq<bv32>, d: bv32, words: seq<bv32>, i: nat, s: Cpu,
                     mem2: bv32 -> bv32)
    requires i < |was| == |now| && Written(env, was, now, d, words, i) && Classify(env, was[i]).ReadDec? &&
             env.target(i) != 0
    requires s.pc == After(0, i) && s.mem(s.pc) == now[i] && Placed(s.mem, d, words) && Placed(mem2, d, words)
    requires var at := After(d, Total(env, false, was, i));
             var r := Classify(env, was[i]).r;
             var n := if r == 0 then 2 else 1;
             Reaches(s.pc, at) && Reaches(After(at, n), env.target(i)) &&
             Reaches(After(at, |DecWords(r, env.place(Special(S_DEC)), at, env.target(i))|), Next(s.pc))
    ensures var at := After(d, Total(env, false, was, i));
            var r := Classify(env, was[i]).r;
            var n := if r == 0 then 2 else 1;
            var t := Steps(s, n + 2);
            t.pc == env.target(i) &&
            Steps(t.(pc := After(at, n + 1), mem := mem2), 2) ==
              Emulated(s.(mem := mem2), r, mem2(env.place(Special(S_DEC))))
  {
    hide Classify, After, Next, Reaches, BranchWord, DecWords, Total, Steps, IsReg, Placed;
    var k, r := Total(env, false, was, i), Classify(env, was[i]).r;
    var at, maddr, target := After(d, k), env.place(Special(S_DEC)), env.target(i);
    ReadsDecIntoReg(env, was[i]);
    CountIs(env, false, was[i], i, at);
    PartPlaced(s.mem, d, words, k, Emit(env, false, was[i], i, at));
    PartPlaced(mem2, d, words, k, Emit(env, false, was[i], i, at));
    assert Rewritten(s, at, DecWords(r, maddr, at, target));
    if r == 0 {
      DecZeroPreserved(s, at, maddr, target, mem2);
    } else {
      DecPreserved(s, at, r, maddr, target, mem2);
    }
  }

  /** The rewritten code does what the code did: where an instruction read an emulated
      register, the processor goes on after it with that register's value in the same
      destination and everything else as it was, as long as the branches reach. */
  lemma RewriteMeaning(env: Env, was: seq<bv32>, now: seq<bv32>, d: bv32, words: seq<bv32>, i: nat, s: Cpu,
                       r: bv32, m: Mirror)
    requires i < |was| == |now| && Written(env, was, now, d, words, i)
    requires IsReg(r) && Readable(env, m) && was[i] == ReadInst(r, m)
    requires s.pc == After(0, i) && s.mem(s.pc) == now[i] && Placed(s.mem, d, words)
    requires var at := After(d, Total(env, false, was, i));
             Reaches(s.pc, at) && Reaches(After(at, |ReadWords(r, env.place(m))|), Next(s.pc))
    ensures Steps(s, if r == 0 then 5 else 4) == Emulated(s, r, s.mem(env.place(m)))
  {
    hide *;
    ReadsExactly(env, was[i], r, m);
    RewrittenRead(env, was, now, d, words, i, s);
  }

  /** The same where an instruction read the decrementer: the code goes to the target, and
      when the emulator has updated the decrementer in memory and resumes after the branch,
      it goes on after the instruction with the new value. */
  lemma RewriteDecMeaning(env: Env, was: seq<bv32>, now: seq<bv32>, d: bv32, words: seq<bv32>, i: nat, s: Cpu,
                          mem2: bv32 -> bv32, r: bv32)
    requires i < |was| == |now| && Written(env, was, now, d, words, i)
    requires IsReg(r) && was[i] == ReadInst(r, Special(S_DEC)) && env.target(i) != 0
    requires s.pc == After(0, i) && s.mem(s.pc) == now[i] && Placed(s.mem, d, words) && Placed(mem2, d, words)
    requires var at := After(d, Total(env, false, was, i));
             var n := if r == 0 then 2 else 1;
             Reaches(s.pc, at) && Reaches(After(at, n), env.target(i)) &&
             Reaches(After(at, |DecWords(r, env.place(Special(S_DEC)), at, env.target(i))|), Next(s.pc))
    ensures var at := After(d, Total(env, false, was, i));
            var n := if r == 0 then 2 else 1;
            var t := Steps(s, n + 2);
            t.pc == env.target(i) &&
            Steps(t.(pc := After(at, n + 1), mem := mem2), 2) ==
              Emulated(s.(mem := mem2), r, mem2(env.place(Special(S_DEC))))
  {
    hide *;
    DecExactly(env, was[i], r);
    RewrittenDec(env, was, now, d, words, i, s, mem2);
  }

  /** An rfi or an accelerated write for which there is a target in reach goes there, and
      nothing else changes. */
  lemma RewriteInPlace(env: Env, was: seq<bv32>, now: seq<bv32>, d: bv32, words: seq<bv32>, i: nat, s: Cpu)
    requires i < |was| == |now| && Written(env, was, now, d, words, i)
    requires was[i] == RfiInst() || IsWrite(env, was[i])
    requires s.pc == After(0, i) && s.mem(s.pc) == now[i]
    ensures env.target(i) == 0 ==> now[i] == was[i]
    ensures env.target(i) != 0 && Reaches(s.pc, env.target(i)) ==> Step(s) == s.(pc := env.target(i))
  {
    hide Classify, After, Reaches, BranchWord, Total, Count, Emit, Step, RfiInst, IsWrite;
    InPlaceExactly(env, was[i]);
    if env.target(i) != 0 && Reaches(s.pc, env.target(i)) {
      StepBranch(s, env.target(i));
    }
  }

  /** Where an eieio or a tlbie was, the processor goes on with every register as it was. */
  lemma RewriteNop(env: Env, was: seq<bv32>, now: seq<bv32>, d: bv32, words: seq<bv32>, i: nat, s: Cpu)
    requires i < |was| == |now| && Written(env, was, now, d, words, i)
    requires was[i] == EieioInst() || IsTlbie(was[i]) || was[i] == NOP
    requires s.mem(s.pc) == now[i]
    ensures Step(s).pc == Next(s.pc) && Step(s).mem == s.mem && forall r :: Reg(Step(s), r) == Reg(s, r)
  {
    hide Classify, After, Reaches, BranchWord, Total, Count, Emit, Step, Next, EieioInst, TlbieInst;
    NopExactly(env, was[i]);
    NopIsLeft(env);
    StepNop(s);
  }

  lemma StepNop(s: Cpu)
    requires s.mem(s.pc) == NOP
    ensures Step(s).pc == Next(s.pc) && Step(s).mem == s.mem && forall r :: Reg(Step(s), r) == Reg(s, r)
  {
    hide OriWord, Or, Next, Low;
    NopWord();
    ZeroIsReg();
    StepOri(s, 0, 0);
    OrLow(Reg(s, 0));
  }

  lemma NopWord()
    ensures OriWord(0, 0, 0) == NOP
  {
  }

  lemma OrLow(x: bv32)
    ensures Or(x, Low(0)) == x
  {
  }

  /** The counting pass changes the code only where an eieio or a tlbie is. */
  lemma CountingPassKeeps(env: Env, was: seq<bv32>, mid: seq<bv32>, i: nat)
    requires AllNopped(env, was, mid) && i < |was|
    ensures mid[i] == if was[i] == EieioInst() || IsTlbie(was[i]) then NOP else was[i]
  {
    hide Classify, EieioInst, IsTlbie;
    NopExactly(env, was[i]);
  }

  /** Every other instruction is left alone. */
  lemma OthersKept(env: Env, was: seq<bv32>, now: seq<bv32>, d: bv32, words: seq<bv32>, i: nat)
    requires i < |was| == |now| && Written(env, was, now, d, words, i)
    requires forall r, m :: IsReg(r) && Readable(env, m) ==> was[i] != ReadInst(r, m)
    requires forall r :: IsReg(r) ==> was[i] != ReadInst(r, Special(S_DEC))
    requires was[i] != RfiInst() && !IsWrite(env, was[i]) && was[i] != EieioInst() && !IsTlbie(was[i])
    ensures now[i] == was[i]
  {
    hide Classify, After, BranchWord, Total, Count, Emit, IsReg, Readable, ReadInst, RfiInst, EieioInst;
    hide IsWrite, IsTlbie;
    var w := was[i];
    InPlaceExactly(env, w);
    NopExactly(env, w);
    if Classify(env, w).Read? {
      ReadsExactly(env, w, Classify(env, w).r, Classify(env, w).what);
    } else if Classify(env, w).ReadDec? {
      DecExactly(env, w, Classify(env, w).r);
    }
  }
}
