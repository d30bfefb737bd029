/**
 The two passes of the rewriter over the guest's code: one that only finds out how much
 room the replacements need, and one that writes them.
 */
module InstPasses {
  import opened Ppc
  import opened InstRewrite

  const NOP: bv32 := 0x6000_0000
  const S_DEC: bv32 := 22

  /** A register that MOL keeps in memory. */
  datatype Mirror = Msr | Segment(n: bv32) | Special(n: bv32)

  /** What is done about an instruction. */
  datatype Action = Leave | Read(r: bv32, what: Mirror) | ReadDec(r: bv32) | InPlace | MakeNop

  /** The special registers that are kept in memory, those whose writes are accelerated,
      where each register is kept, and what OSI_EmuAccel returns for the instruction at an
      index, 0 when it fails. */
  datatype Env = Env(mirrored: bv32 -> bool, writable: bv32 -> bool, place: Mirror -> bv32, target: nat -> bv32)

  function SprOf(w: bv32): bv32 { FieldB(w) | ((w >> 6) & 0x3e0) }

  function IsOdd(w: bv32): bool { w & 1 != 0 }
  function HasBit16(x: bv32): bool { x & 0x10 != 0 }

  /** lookup_inst and its handlers. */
  function Classify(env: Env, w: bv32): Action {
    var a, b, c, ext, r := FieldA(w), FieldB(w), FieldC(w), Ext(w), FieldA(w);
    if IsOdd(w) then Leave
    else if Prim(w) == 19 then if ext == 50 && a == 0 && b == 0 && c == 0 then InPlace else Leave
    else if Prim(w) != 31 then Leave
    else if ext == 83 && b == 0 && c == 0 then Read(r, Msr)
    else if ext == 339 then
      if !HasBit16(SprOf(w)) then Leave
      else if SprOf(w) == S_DEC then ReadDec(r)
      else if env.mirrored(SprOf(w)) then Read(r, Special(SprOf(w)))
      else Leave
    else if ext == 146 && b == 0 && c == 0 then InPlace
    else if ext == 467 then if env.writable(SprOf(w)) then InPlace else Leave
    else if ext == 595 && c == 0 then if HasBit16(b) then Leave else Read(r, Segment(b))
    else if ext == 210 && c == 0 then if HasBit16(b) then Leave else InPlace
    else if ext == 854 && a == 0 && b == 0 && c == 0 then MakeNop
    else if ext == 306 && a == 0 && b == 0 then MakeNop
    else Leave
  }

  /** A pass that only counts always gets its branch; the other may be refused one. */
  function Allowed(env: Env, dry: bool, i: nat): bool { dry || env.target(i) != 0 }

  /** The words written for the instruction at an index, at an address. */
  function Emit(env: Env, dry: bool, w: bv32, i: nat, d: bv32): seq<bv32> {
    match Classify(env, w)
    case Read(r, what) => WithReturn(ReadWords(r, env.place(what)), d, After(0, i))
    case ReadDec(r) =>
      if Allowed(env, dry, i) then WithReturn(DecWords(r, env.place(Special(S_DEC)), d, env.target(i)), d, After(0, i))
      else []
    case _ => []
  }

  /** How many words that is: it does not depend on the address. */
  function Count(env: Env, dry: bool, w: bv32, i: nat): nat { |Emit(env, dry, w, i, 0)| }

  lemma CountIs(env: Env, dry: bool, w: bv32, i: nat, d: bv32)
    ensures |Emit(env, dry, w, i, d)| == Count(env, dry, w, i)
  {
    hide Classify, After, BranchWord, LisLog, LisAlg, OriWord, LwzWord, LwzxWord;
  }

  function Total(env: Env, dry: bool, code: seq<bv32>, n: nat): nat
    requires n <= |code|
  {
    if n == 0 then 0 else Total(env, dry, code, n - 1) + Count(env, dry, code[n - 1], n - 1)
  }

  /** The code after the counting pass: some instructions are already no-ops. */
  function Nopped(env: Env, w: bv32): bv32 { if Classify(env, w) == MakeNop then NOP else w }

  lemma NopIsLeft(env: Env)
    ensures Classify(env, NOP) == Leave
  {
  }

  lemma CountsLess(env: Env, w: bv32, i: nat)
    ensures Count(env, false, Nopped(env, w), i) <= Count(env, true, w, i)
  {
    hide Classify, After, BranchWord, LisLog, LisAlg, OriWord, LwzWord, LwzxWord;
    NopIsLeft(env);
  }

  ghost predicate AllNopped(env: Env, was: seq<bv32>, now: seq<bv32>) {
    |was| == |now| && forall i :: 0 <= i < |was| ==> now[i] == Nopped(env, was[i])
  }

  /** The second pass writes no more words than the first one has counted. */
  lemma {:induction false} RoomSuffices(env: Env, was: seq<bv32>, now: seq<bv32>, n: nat)
    requires AllNopped(env, was, now) && n <= |was|
    ensures Total(env, false, now, n) <= Total(env, true, was, n)
  {
    hide Count, Nopped;
    if n > 0 {
      RoomSuffices(env, was, now, n - 1);
      CountsLess(env, was[n - 1], n - 1);
    }
  }

  /** What the second pass makes of an instruction. */
  function Replaced(env: Env, w: bv32, i: nat, d: bv32): bv32 {
    match Classify(env, w)
    case Read(_, _) => BranchWord(After(0, i), d)
    case ReadDec(_) => if env.target(i) != 0 then BranchWord(After(0, i), d) else w
    case InPlace => if env.target(i) != 0 then BranchWord(After(0, i), env.target(i)) else w
    case MakeNop => NOP
    case Leave => w
  }

  /** The counting pass. */
  method DryPass(env: Env, code: array<bv32>) returns (size: nat)
    modifies code
    ensures AllNopped(env, old(code[..]), code[..])
    ensures size == Total(env, true, old(code[..]), code.Length)
  {
    hide Classify, Emit, Count, Nopped;
    size := 0;
    var i := 0;
    ghost var was := code[..];
    while i < code.Length
      invariant 0 <= i <= code.Length && size == Total(env, true, was, i)
      invariant forall k :: 0 <= k < i ==> code[k] == Nopped(env, was[k])
      invariant forall k :: i <= k < code.Length ==> code[k] == was[k]
    {
      var w := code[i];
      size := size + Count(env, true, w, i);
      code[i] := Nopped(env, w);
      i := i + 1;
    }
  }

  /** Where the words for an instruction are. */
  ghost predicate Written(env: Env, was: seq<bv32>, now: seq<bv32>, d: bv32, words: seq<bv32>, i: nat)
    requires i < |was| == |now|
  {
    var k := Total(env, false, was, i);
    now[i] == Replaced(env, was[i], i, After(d, k)) &&
    k + Count(env, false, was[i], i) <= |words| &&
    words[k..k + Count(env, false, was[i], i)] == Emit(env, false, was[i], i, After(d, k))
  }

  lemma StillWritten(env: Env, was: seq<bv32>, now: seq<bv32>, now': seq<bv32>, d: bv32, words: seq<bv32>,
                     more: seq<bv32>, i: nat)
    requires i < |was| == |now| == |now'| && Written(env, was, now, d, words, i) && now'[i] == now[i]
    ensures Written(env, was, now', d, words + more, i)
  {
    hide Emit, Count, Replaced, Total, After;
    var k := Total(env, false, was, i);
    var n := Count(env, false, was[i], i);
    assert (words + more)[k..k + n] == words[k..k + n];
  }

  /** The writing pass: the words for each instruction are in a row at the place where the
      instruction now branches to, and they take up as much as the counts say. */
  method RealPass(env: Env, code: array<bv32>, d: bv32) returns (words: seq<bv32>)
    modifies code
    ensures |words| == Total(env, false, old(code[..]), code.Length)
    ensures forall i: nat :: i < code.Length ==> Written(env, old(code[..]), code[..], d, words, i)
  {
    hide Classify, Emit, Count, Replaced, Written, After;
    words := [];
    var i := 0;
    ghost var was := code[..];
    while i < code.Length
      invariant 0 <= i <= code.Length && |words| == Total(env, false, was, i)
      invariant forall k: nat :: k < i ==> Written(env, was, code[..], d, words, k)
      invariant forall k :: i <= k < code.Length ==> code[k] == was[k]
    {
      var w, at := code[i], After(d, |words|);
      var more := Emit(env, false, w, i, at);
      ghost var before := code[..];
      code[i] := Replaced(env, w, i, at);
      CountIs(env, false, w, i, at);
      forall k: nat | k < i
        ensures Written(env, was, code[..], d, words + more, k)
      {
        StillWritten(env, was, before, code[..], d, words, more, k);
      }
      NewlyWritten(env, was, code[..], d, words, i);
      words := words + more;
      i := i + 1;
    }
  }

  lemma NewlyWritten(env: Env, was: seq<bv32>, now: seq<bv32>, d: bv32, words: seq<bv32>, i: nat)
    requires i < |was| == |now| && |words| == Total(env, false, was, i) &&
             now[i] == Replaced(env, was[i], i, After(d, |words|))
    requires |Emit(env, false, was[i], i, After(d, |words|))| == Count(env, false, was[i], i)
    ensures Written(env, was, now, d, words + Emit(env, false, was[i], i, After(d, |words|)), i)
  {
    hide Emit, Count, Replaced, Total, After;
    var more := Emit(env, false, was[i], i, After(d, |words|));
    assert (words + more)[|words|..|words| + |more|] == more;
  }

  /** inst_replacements: both passes, with the room that the first one has counted rounded
      up to pages. */
  method InstReplacements(env: Env, code: array<bv32>, d: bv32) returns (room: nat, words: seq<bv32>)
    modifies code
    ensures |words| * 4 <= room && room % 0x1000 == 0
    ensures exists mid :: AllNopped(env, old(code[..]), mid) && |mid| == code.Length &&
              forall i: nat :: i < code.Length ==> Written(env, mid, code[..], d, words, i)
  {
    hide Classify, Emit, Count, Replaced, Written, After, AllNopped;
    ghost var was := code[..];
    var size := DryPass(env, code);
    room := (size * 4 + 0xfff) / 0x1000 * 0x1000;
    ghost var mid := code[..];
    words := RealPass(env, code, d);
    RoomSuffices(env, was, mid, code.Length);
  }
}
