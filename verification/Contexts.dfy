/**
 VSID allocation: how a session numbers its address spaces.

 A MOL context number has a Linux context number in its upper 20 bits and a segment
 number in its low four.  The VSID scatters the former by a multiplication modulo
 2^20 and adds a multiple of the latter.
 */
module Contexts {
  import opened Options

  const CTX_COUNT := 0x10_0000
  const VSID_COUNT := 0x100_0000
  const WORD := 0x1_0000_0000

  const MUNGE := 897
  const MUNGE_INVERSE := 2899073
  const ESID_ADD := 0x111

  const MAX_SESSIONS := 8
  const PER_SESSION := 0x1_0000

  /** The first Linux context number that Linux itself does not use. */
  const LINUX_CONTEXTS := 32768

  /** Bytes of a chunk, of a VSID entry, and of the skiplist header that
      skiplist_prealloc counts for each element. */
  const CHUNK_SIZE := 0x1000 - 12
  const VSID_ENT_SIZE := 64 * 4 + 12
  const SKIPLIST_SIZE := 88

  function Munge(ctx: nat): nat { (ctx * (MUNGE * 16)) % VSID_COUNT / 16 * 16 }

  function Vsid(molContext: nat): nat {
    (Munge(molContext / 16) + ESID_ADD * (molContext % 16)) % VSID_COUNT
  }

  /** The context number that flush_all_PTEs reads from the VSID of a PTE, in the
      unsigned 32-bit arithmetic it uses. */
  function Decode(vsid: nat): nat {
    ((vsid - vsid % 16 * ESID_ADD) * MUNGE_INVERSE) % WORD / 16 % CTX_COUNT
  }

  function First(session: nat): int { (CTX_COUNT - 1 - PER_SESSION * (session + 1)) * 16 }
  function Last(session: nat): int { (CTX_COUNT - 1 - PER_SESSION * session) * 16 + 15 }

  lemma MungeScales(ctx: nat)
    ensures Munge(ctx) == (ctx * MUNGE) % CTX_COUNT * 16
  {
  }

  lemma InverseOf(ctx: nat, q: int, r: int)
    requires ctx < CTX_COUNT && ctx * MUNGE - r == q * CTX_COUNT
    ensures (r * MUNGE_INVERSE) % CTX_COUNT == ctx
  {
    assert r * MUNGE_INVERSE == ctx + (2480 * ctx - MUNGE_INVERSE * q) * CTX_COUNT;
    Remainder(ctx, 2480 * ctx - MUNGE_INVERSE * q);
  }

  lemma Remainder(c: nat, k: int)
    requires c < CTX_COUNT
    ensures (c + k * CTX_COUNT) % CTX_COUNT == c
  {
  }

  /** The multiplication by the inverse recovers the context number, and the low four
      bits of the VSID are the segment. */
  lemma DecodeRecovers(molContext: nat)
    requires molContext < VSID_COUNT
    ensures Decode(Vsid(molContext)) == molContext / 16
    ensures Vsid(molContext) % 16 == molContext % 16
  {
    var ctx, seg := molContext / 16, molContext % 16;
    var k := (ctx * MUNGE) % CTX_COUNT;
    MungeScales(ctx);
    var w := Vsid(molContext);
    var carry := (k * 16 + ESID_ADD * seg) / VSID_COUNT;
    assert w == k * 16 + ESID_ADD * seg - carry * VSID_COUNT;
    assert w % 16 == seg;
    var t := k - carry * CTX_COUNT;
    assert w - seg * ESID_ADD == t * 16;
    DropLowBits(t * MUNGE_INVERSE);
    InverseOf(ctx, (ctx * MUNGE) / CTX_COUNT + carry, t);
  }

  lemma DropLowBits(x: int)
    ensures (x * 16) % WORD / 16 % CTX_COUNT == x % CTX_COUNT
  {
  }

  /** No two contexts have one VSID. */
  lemma VsidInjective(a: nat, b: nat)
    requires a < VSID_COUNT && b < VSID_COUNT && Vsid(a) == Vsid(b)
    ensures a == b
  {
    DecodeRecovers(a);
    DecodeRecovers(b);
  }

  /** The VSIDs of a run of contexts. */
  ghost function Vsids(first: nat, next: nat): set<nat> {
    set c | first <= c < next :: Vsid(c)
  }

  lemma NextVsidIsNew(first: nat, next: nat)
    requires first <= next < VSID_COUNT
    ensures Vsid(next) !in Vsids(first, next)
    ensures Vsids(first, next + 1) == Vsids(first, next) + {Vsid(next)}
  {
    hide Vsid;
    forall c | first <= c < next
      ensures Vsid(c) != Vsid(next)
    {
      if Vsid(c) == Vsid(next) {
        VsidInjective(c, next);
      }
    }
    forall v
      ensures v in Vsids(first, next + 1) <==> v in Vsids(first, next) + {Vsid(next)}
    {
      if v in Vsids(first, next + 1) {
        var c :| first <= c < next + 1 && Vsid(c) == v;
        assert c < next || v == Vsid(next);
      }
    }
  }

  /** The VSID that Linux computes for a segment of one of its contexts. */
  function LinuxVsid(ctx: nat, esid: nat): nat { (ctx * MUNGE * 16 + esid * ESID_ADD) % VSID_COUNT }

  lemma LinuxVsidIsVsid(ctx: nat, esid: nat)
    requires esid < 16
    ensures LinuxVsid(ctx, esid) == Vsid(ctx * 16 + esid)
  {
    hide Munge;
    MungeScales(ctx);
    assert (ctx * 16 + esid) / 16 == ctx && (ctx * 16 + esid) % 16 == esid;
    var k, q := (ctx * MUNGE) % CTX_COUNT, (ctx * MUNGE) / CTX_COUNT;
    assert ctx * MUNGE * 16 == k * 16 + q * VSID_COUNT;
    WholeTurns(k * 16 + esid * ESID_ADD, q);
  }

  lemma WholeTurns(x: int, q: int)
    ensures (x + q * VSID_COUNT) % VSID_COUNT == x % VSID_COUNT
  {
  }

  /** A session's VSID: its context number is one of the session's, and it is none that
      Linux computes for its own contexts. */
  ghost predicate OfSession(session: nat, vsid: nat) {
    First(session) / 16 <= Decode(vsid) <= Last(session) / 16 &&
    forall ctx: nat, esid: nat :: ctx < LINUX_CONTEXTS && esid < 16 ==> LinuxVsid(ctx, esid) != vsid
  }

  lemma SessionVsid(session: nat, molContext: nat)
    requires session < MAX_SESSIONS && First(session) <= molContext <= Last(session)
    ensures OfSession(session, Vsid(molContext))
  {
    hide Vsid, Decode, LinuxVsid;
    DecodeRecovers(molContext);
    forall ctx: nat, esid: nat | ctx < LINUX_CONTEXTS && esid < 16
      ensures LinuxVsid(ctx, esid) != Vsid(molContext)
    {
      LinuxVsidIsVsid(ctx, esid);
      DecodeRecovers(ctx * 16 + esid);
    }
  }

  /** The contexts that two sessions share: the first sixteen of one are the last sixteen
      of the next, and nothing else is shared. */
  lemma SharedContexts(a: nat, b: nat, c: int)
    requires a < b < MAX_SESSIONS
    ensures First(a) <= c <= Last(a) && First(b) <= c <= Last(b) <==> b == a + 1 && First(a) <= c < First(a) + 16
  {
  }

  /** The sweep compares a context number without its segment bits to bounds that have
      them: no PTE is ever in them. */
  lemma NeverSwept(vsid: nat, session: nat)
    requires session < MAX_SESSIONS
    ensures Decode(vsid) < First(session)
  {
    assert Decode(vsid) < CTX_COUNT;
  }

  /** flush_all_PTEs, over the VSIDs of the valid PTEs in the hash table: it is meant to
      clear the PTEs of a session's contexts, and clears none. */
  method FlushAllPtes(ptes: seq<Option<nat>>, session: nat) returns (left: seq<Option<nat>>, count: nat)
    requires session < MAX_SESSIONS
    ensures left == ptes && count == 0
  {
    left, count := ptes, 0;
    for i := 0 to |ptes|
      invariant left == ptes && count == 0
    {
      if left[i].Some? {
        var stale := First(session) <= Decode(left[i].value) <= Last(session);
        NeverSwept(left[i].value, session);
        left, count := left[i := if stale then None else left[i]], count + if stale then 1 else 0;
      }
    }
  }

  class Allocator {
    const session: nat
    var next: nat

    /** The VSIDs handed out since all VSIDs were last cleared. */
    ghost var issued: set<nat>

    ghost predicate Valid()
      reads this
    {
      session < MAX_SESSIONS && First(session) <= next <= Last(session) + 1 &&
      issued == Vsids(First(session), next)
    }

    /** alloc_context: a VSID that is not in use. */
    method AllocContext() returns (vsid: nat)
      requires Valid() && next <= Last(session)
      modifies this
      ensures Valid() && next == old(next) + 1
      ensures vsid !in old(issued) && issued == old(issued) + {vsid}
      ensures vsid < VSID_COUNT && OfSession(session, vsid)
    {
      hide Vsid, OfSession;
      NextVsidIsNew(First(session), next);
      SessionVsid(session, next);
      vsid := Vsid(next);
      VsidFits(next);
      next := next + 1;
      issued := issued + {vsid};
    }

    /** init_contexts, but for its sweep of the hash: the VSID for illegal accesses is the
        only one in use. */
    method InitContexts() returns (illegal: nat)
      requires session < MAX_SESSIONS
      modifies this
      ensures Valid() && next == First(session) + 1 && issued == {illegal}
    {
      hide Vsid, OfSession;
      next, issued := First(session), {};
      assert issued == Vsids(First(session), next);
      illegal := AllocContext();
    }

    /** handle_context_wrap: either every VSID in use stays so, or all are given up; n
        more contexts are then free. */
    method HandleContextWrap(n: nat) returns (wrapped: bool)
      requires Valid() && n < PER_SESSION * 16
      modifies this
      ensures Valid() && next + n <= Last(session)
      ensures wrapped <==> old(next) + n > Last(session)
      ensures if wrapped then |issued| == 1 else next == old(next) && issued == old(issued)
    {
      hide Vsid, Vsids;
      wrapped := false;
      if next + n > Last(session) {
        var _ := InitContexts();
        wrapped := true;
      }
    }

    /** The batch of alloc_vsid_ent: as many VSID entries as skiplist_prealloc cuts from a
        chunk, each with a user and a supervisor VSID.  No VSID is handed out twice, and
        the batch never runs past the session's range. */
    method AllocBatch(count: nat) returns (wrapped: bool, vsids: seq<(nat, nat)>)
      requires Valid() && count * (VSID_ENT_SIZE + SKIPLIST_SIZE) <= CHUNK_SIZE
      modifies this
      ensures Valid() && |vsids| == count
      ensures forall i :: 0 <= i < count ==> OfSession(session, vsids[i].0) && OfSession(session, vsids[i].1)
      ensures forall i :: 0 <= i < count ==> vsids[i].0 in issued && vsids[i].1 in issued
      ensures forall i :: 0 <= i < count ==> vsids[i].0 != vsids[i].1
      ensures forall i, j :: 0 <= i < j < count ==> {vsids[i].0, vsids[i].1} !! {vsids[j].0, vsids[j].1}
      ensures !wrapped ==> forall i :: 0 <= i < count ==> {vsids[i].0, vsids[i].1} !! old(issued)
      ensures !wrapped ==> old(issued) <= issued
      ensures wrapped ==> old(next) + CHUNK_SIZE / VSID_ENT_SIZE * 2 > Last(session)
    {
      hide Vsid, OfSession, Vsids;
      wrapped := HandleContextWrap(CHUNK_SIZE / VSID_ENT_SIZE * 2);
      ghost var before := issued;
      vsids := [];
      while |vsids| < count
        invariant Valid() && |vsids| <= count && before <= issued
        invariant next + 2 * (count - |vsids|) <= Last(session)
        invariant forall i :: 0 <= i < |vsids| ==> OfSession(session, vsids[i].0) && OfSession(session, vsids[i].1)
        invariant forall i :: 0 <= i < |vsids| ==> vsids[i].0 in issued && vsids[i].1 in issued
        invariant forall i :: 0 <= i < |vsids| ==> vsids[i].0 != vsids[i].1
        invariant forall i, j :: 0 <= i < j < |vsids| ==> {vsids[i].0, vsids[i].1} !! {vsids[j].0, vsids[j].1}
        invariant forall i :: 0 <= i < |vsids| ==> {vsids[i].0, vsids[i].1} !! before
      {
        var user := AllocContext();
        var sv := AllocContext();
        vsids := vsids + [(user, sv)];
      }
    }
  }

  lemma VsidFits(molContext: nat)
    ensures Vsid(molContext) < VSID_COUNT
  {
  }
}
