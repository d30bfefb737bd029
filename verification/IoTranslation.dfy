/**
 How MOL resolves guest physical addresses: a table of block translations, searched in
 order, and a sorted list of I/O pages with a datum for each double word.
 */
module IoTranslation {
  import opened Options

  const PAGE := 0x1000
  const SLOTS := 512
  const WORD := 0x1_0000_0000
  const MAX_BLOCK_TRANS := 6

  /** An I/O page: the guest page it stands for, and its data, 0 where there is no I/O. */
  datatype IoPage = IoPage(mphys: nat, data: seq<nat>)

  function Base(a: nat): nat { a - a % PAGE }
  function Slot(a: nat): (i: nat)
    ensures i < SLOTS
  {
    a % PAGE / 8
  }

  ghost predicate PagesOk(pages: seq<IoPage>) {
    (forall i :: 0 <= i < |pages| ==> pages[i].mphys % PAGE == 0 && |pages[i].data| == SLOTS) &&
    forall i, j :: 0 <= i < j < |pages| ==> pages[i].mphys < pages[j].mphys
  }

  /** The datum of an address, 0 for none. */
  ghost function At(pages: seq<IoPage>, a: nat): nat
    requires PagesOk(pages)
  {
    if pages == [] then 0
    else if pages[0].mphys == Base(a) then pages[0].data[Slot(a)]
    else At(pages[1..], a)
  }

  /** The start of a range, moved down to a double word. */
  function Low(mbase: nat): nat { mbase - mbase % 8 }

  /** The end of a range, moved up to a double word. */
  function High(mbase: nat, size: nat): nat { Low(mbase) + (size + mbase % 8 + 7) / 8 * 8 }

  /** The double words that a range touches; one of no bytes that starts inside a double
      word touches it too. */
  predicate TouchesWord(mbase: nat, size: nat, a: nat) {
    if size == 0 then mbase % 8 != 0 && a / 8 == mbase / 8 else mbase / 8 <= a / 8 <= (mbase + size - 1) / 8
  }

  /** The bounds are multiples of 8, less than 8 away from those of the range, and between
      them are exactly the double words that the range touches. */
  lemma BoundsTouch(mbase: nat, size: nat)
    ensures Low(mbase) <= mbase < Low(mbase) + 8 && Low(mbase) % 8 == 0
    ensures mbase + size <= High(mbase, size) < mbase + size + 8 && High(mbase, size) % 8 == 0
    ensures forall a: nat :: TouchesWord(mbase, size, a) <==> Low(mbase) <= a < High(mbase, size)
  {
  }

  lemma {:induction false} AtIndex(pages: seq<IoPage>, i: nat, a: nat)
    requires PagesOk(pages) && i < |pages| && pages[i].mphys == Base(a)
    ensures At(pages, a) == pages[i].data[Slot(a)]
  {
    if i > 0 {
      AtIndex(pages[1..], i - 1, a);
    }
  }

  lemma {:induction false} AtNone(pages: seq<IoPage>, a: nat)
    requires PagesOk(pages) && forall i :: 0 <= i < |pages| ==> pages[i].mphys != Base(a)
    ensures At(pages, a) == 0
  {
    if pages != [] {
      AtNone(pages[1..], a);
    }
  }

  /** The walk along the list to the first page that is not before a page. */
  method FindPage(pages: seq<IoPage>, mb: nat) returns (k: nat)
    requires PagesOk(pages)
    ensures k <= |pages| && (forall i :: 0 <= i < k ==> pages[i].mphys < mb) &&
            (forall i :: k <= i < |pages| ==> pages[i].mphys >= mb)
  {
    k := 0;
    while k < |pages| && pages[k].mphys < mb
      invariant k <= |pages| && forall i :: 0 <= i < k ==> pages[i].mphys < mb
    {
      k := k + 1;
    }
  }

  lemma InsertOk(pages: seq<IoPage>, k: nat, p: IoPage)
    requires PagesOk(pages) && k <= |pages| && p.mphys % PAGE == 0 && |p.data| == SLOTS
    requires (forall i :: 0 <= i < k ==> pages[i].mphys < p.mphys) &&
             (forall i :: k <= i < |pages| ==> pages[i].mphys > p.mphys)
    ensures var t := pages[..k] + [p] + pages[k..];
            PagesOk(t) && OneMore(pages, t, k) && t[k] == p
  {
    var t := pages[..k] + [p] + pages[k..];
    InsertedAt(pages, k, p);
    StillSorted(pages, k, t);
    forall i | 0 <= i < |t|
      ensures t[i].mphys % PAGE == 0 && |t[i].data| == SLOTS
    {
      var x := if i <= k then i else i - 1;
      assert i != k ==> pages[x] == t[i];
    }
  }

  lemma StillSorted(pages: seq<IoPage>, k: nat, t: seq<IoPage>)
    requires PagesOk(pages) && k <= |pages| && OneMore(pages, t, k)
    requires (forall i :: 0 <= i < k ==> pages[i].mphys < t[k].mphys) &&
             (forall i :: k <= i < |pages| ==> pages[i].mphys > t[k].mphys)
    ensures forall i, j :: 0 <= i < j < |t| ==> t[i].mphys < t[j].mphys
  {
    forall i, j | 0 <= i < j < |t|
      ensures t[i].mphys < t[j].mphys
    {
      var x, y := if i < k then i else i - 1, if j < k then j else j - 1;
      if i == k {
        assert pages[y] == t[j] && k <= y;
      } else if j == k {
        assert pages[x] == t[i] && x < k;
      } else {
        assert pages[x] == t[i] && pages[y] == t[j] && x < y;
      }
    }
  }

  lemma InsertedAt(pages: seq<IoPage>, k: nat, p: IoPage)
    requires k <= |pages|
    ensures var t := pages[..k] + [p] + pages[k..];
            OneMore(pages, t, k) && t[k] == p
  {
  }

  /** One list has the pages of another and one page more. */
  ghost predicate OneMore(pages: seq<IoPage>, t: seq<IoPage>, k: nat) {
    |t| == |pages| + 1 && k < |t| && forall i :: 0 <= i < |pages| ==> pages[i] == t[if i < k then i else i + 1]
  }

  lemma SameAt(pages: seq<IoPage>, t: seq<IoPage>, k: nat, a: nat)
    requires PagesOk(pages) && PagesOk(t) && OneMore(pages, t, k) && forall i :: 0 <= i < SLOTS ==> t[k].data[i] == 0
    ensures At(t, a) == At(pages, a)
  {
    hide At, Base, Slot;
    if i: nat :| i < |pages| && pages[i].mphys == Base(a) {
      AtIndex(pages, i, a);
      AtIndex(t, if i < k then i else i + 1, a);
    } else {
      AtNone(pages, a);
      if t[k].mphys == Base(a) {
        AtIndex(t, k, a);
      } else {
        NoneOfMore(pages, t, k, a);
        AtNone(t, a);
      }
    }
  }

  lemma NoneOfMore(pages: seq<IoPage>, t: seq<IoPage>, k: nat, a: nat)
    requires OneMore(pages, t, k) && t[k].mphys != Base(a) && forall i :: 0 <= i < |pages| ==> pages[i].mphys != Base(a)
    ensures forall i :: 0 <= i < |t| ==> t[i].mphys != Base(a)
  {
    hide Base;
    forall i | 0 <= i < |t|
      ensures t[i].mphys != Base(a)
    {
      if i != k {
        assert pages[if i < k then i else i - 1] == t[i];
      }
    }
  }

  /** A page that has no data makes no difference. */
  lemma SameData(pages: seq<IoPage>, t: seq<IoPage>, k: nat)
    requires PagesOk(pages) && PagesOk(t) && OneMore(pages, t, k) && forall i :: 0 <= i < SLOTS ==> t[k].data[i] == 0
    ensures forall a: nat :: At(t, a) == At(pages, a)
  {
    hide At, PagesOk, OneMore;
    forall a: nat
      ensures At(t, a) == At(pages, a)
    {
      SameAt(pages, t, k, a);
    }
  }

  /** A new page, with no data, at its place in the list. */
  lemma PageAdded(pages: seq<IoPage>, k: nat, mb: nat, zero: seq<nat>)
    requires PagesOk(pages) && k <= |pages| && mb % PAGE == 0 && |zero| == SLOTS &&
             forall i :: 0 <= i < SLOTS ==> zero[i] == 0
    requires (forall i :: 0 <= i < k ==> pages[i].mphys < mb) && (forall i :: k <= i < |pages| ==> pages[i].mphys > mb)
    ensures var t := pages[..k] + [IoPage(mb, zero)] + pages[k..];
            PagesOk(t) && t[k] == IoPage(mb, zero) && forall a: nat :: At(t, a) == At(pages, a)
  {
    hide PagesOk, At, OneMore;
    InsertOk(pages, k, IoPage(mb, zero));
    SameData(pages, pages[..k] + [IoPage(mb, zero)] + pages[k..], k);
  }

  /** New data for a page of the list. */
  lemma PageChanged(pages: seq<IoPage>, k: nat, data: seq<nat>)
    requires PagesOk(pages) && k < |pages| && |data| == SLOTS
    ensures var t := pages[k := pages[k].(data := data)];
            PagesOk(t) && forall a: nat :: At(t, a) == if Base(a) == pages[k].mphys then data[Slot(a)] else At(pages, a)
  {
    var t := pages[k := pages[k].(data := data)];
    forall a: nat
      ensures At(t, a) == if Base(a) == pages[k].mphys then data[Slot(a)] else At(pages, a)
    {
      if Base(a) == pages[k].mphys {
        AtIndex(t, k, a);
      } else if i: nat :| i < |pages| && pages[i].mphys == Base(a) {
        AtIndex(pages, i, a);
        AtIndex(t, i, a);
      } else {
        AtNone(pages, a);
        AtNone(t, a);
      }
    }
  }

  lemma RemoveOk(pages: seq<IoPage>, k: nat)
    requires PagesOk(pages) && k < |pages|
    ensures var t := pages[..k] + pages[k + 1..];
            PagesOk(t) && OneMore(t, pages, k)
  {
  }

  /** Taking a page without data off the list changes no address. */
  lemma PageRemoved(pages: seq<IoPage>, k: nat)
    requires PagesOk(pages) && k < |pages| && forall i :: 0 <= i < SLOTS ==> pages[k].data[i] == 0
    ensures var t := pages[..k] + pages[k + 1..]; PagesOk(t) && forall a: nat :: At(t, a) == At(pages, a)
  {
    hide At, OneMore, PagesOk;
    PageSlots(pages, k);
    RemoveOk(pages, k);
    SameData(pages[..k] + pages[k + 1..], pages, k);
  }

  /** The loop that writes a datum into some double words of a page. */
  method Fill(data0: seq<nat>, i0: nat, num: nat, v: nat) returns (data: seq<nat>)
    requires i0 + num <= |data0|
    ensures |data| == |data0| && forall i :: 0 <= i < |data| ==> data[i] == if i0 <= i < i0 + num then v else data0[i]
  {
    data := data0;
    var n := 0;
    while n < num
      invariant 0 <= n <= num && |data| == |data0|
      invariant forall i :: 0 <= i < |data| ==> data[i] == if i0 <= i < i0 + n then v else data0[i]
    {
      data := data[i0 + n := v];
      n := n + 1;
    }
  }

  /** The double words that one round of the loop writes are those of a run of addresses. */
  lemma RunOfPage(m: nat, num: nat, a: nat)
    requires m % 8 == 0 && Slot(m) + num <= SLOTS
    ensures Base(a) == Base(m) && Slot(m) <= Slot(a) < Slot(m) + num <==> m <= a < m + 8 * num
  {
    hide Slot;
    SlotIs(a);
    SlotIs(m);
    BaseIsPage(a);
    BaseIsPage(m);
    SamePage(a, m);
  }

  lemma SlotIs(a: nat)
    ensures 8 * Slot(a) <= a - Base(a) < 8 * Slot(a) + 8 && (a % 8 == 0 ==> a == Base(a) + 8 * Slot(a))
  {
    EightIn(a);
  }

  lemma EightIn(a: nat)
    ensures a % PAGE % 8 == a % 8
  {
  }

  lemma SamePage(a: nat, m: nat)
    ensures Base(a) == Base(m) <==> Base(m) <= a < Base(m) + PAGE
  {
  }

  lemma BaseIsPage(m: nat)
    ensures Base(m) % PAGE == 0 && Base(m) <= m < Base(m) + PAGE
  {
  }

  /** A list is another with a datum for the double words of a range. */
  ghost predicate Set(was: seq<IoPage>, now: seq<IoPage>, lo: nat, hi: nat, v: nat) {
    PagesOk(was) && PagesOk(now) && forall a: nat :: At(now, a) == if lo <= a < hi then v else At(was, a)
  }

  /** One round: some double words of a page are written, after a range before them. */
  lemma RoundSets(was: seq<IoPage>, mid: seq<IoPage>, k: nat, lo: nat, m: nat, num: nat, v: nat, data: seq<nat>)
    requires Set(was, mid, lo, m, v) && lo <= m && m % 8 == 0 && k < |mid| && mid[k].mphys == Base(m) &&
             Slot(m) + num <= SLOTS
    requires |data| == SLOTS &&
             forall i :: 0 <= i < SLOTS ==> data[i] == if Slot(m) <= i < Slot(m) + num then v else mid[k].data[i]
    ensures Set(was, mid[k := mid[k].(data := data)], lo, m + 8 * num, v)
  {
    hide At, Base, Slot, PagesOk;
    PageChanged(mid, k, data);
    var t := mid[k := mid[k].(data := data)];
    forall a: nat
      ensures At(t, a) == if lo <= a < m + 8 * num then v else At(was, a)
    {
      RunOfPage(m, num, a);
      SlotBound(a);
      if Base(a) == mid[k].mphys {
        AtIndex(mid, k, a);
      }
    }
  }

  lemma SlotBound(a: nat)
    ensures Slot(a) < SLOTS
  {
  }

  /** Some double word of a page has a datum. */
  ghost predicate Used(p: IoPage) { exists i :: 0 <= i < |p.data| && p.data[i] != 0 }

  ghost predicate AllUsed(pages: seq<IoPage>) { forall i :: 0 <= i < |pages| ==> Used(pages[i]) }

  /** A range has an address of the page. */
  predicate Touched(mphys: nat, lo: nat, hi: nat) { lo < hi && lo < mphys + PAGE && mphys < hi }

  /** A page without data is one that was there and that the range does not touch. */
  ghost predicate NoneEmptied(was: seq<IoPage>, now: seq<IoPage>, lo: nat, hi: nat) {
    forall i :: 0 <= i < |now| ==> Used(now[i]) || (now[i] in was && !Touched(now[i].mphys, lo, hi))
  }

  lemma StartNoneEmptied(pages: seq<IoPage>, lo: nat)
    ensures NoneEmptied(pages, pages, lo, lo)
  {
  }

  /** The rest of a page of a range touches no other page. */
  lemma TouchedMore(mphys: nat, lo: nat, m: nat, hi: nat)
    requires mphys % PAGE == 0 && lo <= m <= hi <= Base(m) + PAGE && !Touched(mphys, lo, m)
    ensures Touched(mphys, lo, hi) ==> mphys == Base(m)
  {
  }

  /** One round of remove_io_trans leaves page k used, or not in the list. */
  lemma RoundEmpties(was: seq<IoPage>, mid: seq<IoPage>, now: seq<IoPage>, lo: nat, m: nat, hi: nat)
    requires NoneEmptied(was, mid, lo, m) && PagesOk(now) && lo <= m <= hi <= Base(m) + PAGE
    requires forall i :: 0 <= i < |now| ==> Used(now[i]) || (now[i] in mid && now[i].mphys != Base(m))
    ensures NoneEmptied(was, now, lo, hi)
  {
    hide Used, Touched, Base;
    forall i | 0 <= i < |now| && !Used(now[i])
      ensures now[i] in was && !Touched(now[i].mphys, lo, hi)
    {
      var j :| 0 <= j < |mid| && mid[j] == now[i];
      TouchedMore(now[i].mphys, lo, m, hi);
    }
  }

  lemma RoundEnds(m: nat, num: nat)
    requires m % 8 == 0 && Slot(m) + num <= SLOTS
    ensures m + 8 * num <= Base(m) + PAGE
  {
    SlotIs(m);
  }

  lemma OthersStay(mid: seq<IoPage>, k: nat, now: seq<IoPage>)
    requires PagesOk(mid) && k < |mid| && |now| == |mid| && now == mid[k := now[k]]
    ensures forall i :: 0 <= i < |now| && i != k ==> now[i] in mid && now[i].mphys != mid[k].mphys
  {
  }

  lemma FilledIsUsed(p: IoPage, i: nat)
    requires i < |p.data| && p.data[i] != 0
    ensures Used(p)
  {
  }

  /** In a list of pages in use, a page is there exactly when one of its addresses has a
      datum. */
  ghost predicate HasDatum(pages: seq<IoPage>, page: nat)
    requires PagesOk(pages)
  {
    exists a: nat :: Base(a) == page && At(pages, a) != 0
  }

  lemma ListedIffDatum(pages: seq<IoPage>, page: nat)
    requires PagesOk(pages) && AllUsed(pages)
    ensures (exists i :: 0 <= i < |pages| && pages[i].mphys == page) <==> HasDatum(pages, page)
  {
    hide At, Base, Slot;
    if i :| 0 <= i < |pages| && pages[i].mphys == page {
      var j :| 0 <= j < |pages[i].data| && pages[i].data[j] != 0;
      var a := page + 8 * j;
      WordOf(page, j);
      AtIndex(pages, i, a);
      assert HasDatum(pages, page);
    } else {
      forall a: nat | Base(a) == page
        ensures At(pages, a) == 0
      {
        AtNone(pages, a);
      }
    }
  }

  lemma WordOf(page: nat, j: nat)
    requires page % PAGE == 0 && j < SLOTS
    ensures Base(page + 8 * j) == page && Slot(page + 8 * j) == j
  {
    BaseIsPage(page + 8 * j);
  }

  /** The number of double words that one round writes. */
  function Round(m: nat, size: nat): (num: nat)
    requires m % 8 == 0 && size % 8 == 0 && size > 0
    ensures 0 < num && Slot(m) + num <= SLOTS && 8 * num <= size
  {
    if Slot(m) + size / 8 > SLOTS then SLOTS - Slot(m) else size / 8
  }

  lemma SameSet(was: seq<IoPage>, a: seq<IoPage>, b: seq<IoPage>, lo: nat, hi: nat, v: nat)
    requires Set(was, a, lo, hi, v) && PagesOk(b) && forall x: nat :: At(b, x) == At(a, x)
    ensures Set(was, b, lo, hi, v)
  {
    hide At, PagesOk;
  }

  /** A page that is not in the list has no data. */
  lemma NoPageSets(was: seq<IoPage>, now: seq<IoPage>, lo: nat, m: nat, hi: nat)
    requires Set(was, now, lo, m, 0) && lo <= m < hi && Base(hi - 1) == Base(m)
    requires forall i :: 0 <= i < |now| ==> now[i].mphys != Base(m)
    ensures Set(was, now, lo, hi, 0)
  {
    hide At, PagesOk;
    forall a: nat | m <= a < hi
      ensures At(now, a) == 0
    {
      AtNone(now, a);
    }
  }

  method ZeroPage() returns (data: seq<nat>)
    ensures |data| == SLOTS && forall i :: 0 <= i < SLOTS ==> data[i] == 0
  {
    data := seq(SLOTS, _ => 0);
  }

  /** The loop of add_io_trans, without wrap and with memory for new pages. */
  method AddPages(pages: seq<IoPage>, mbase: nat, size: nat, usrData: nat) returns (ps: seq<IoPage>)
    requires PagesOk(pages) && High(mbase, size) <= WORD
    ensures Set(pages, ps, Low(mbase), High(mbase, size), usrData)
    ensures AllUsed(pages) && usrData != 0 ==> AllUsed(ps)
  {
    hide At, PagesOk, Base, Slot, Round, Set, Low, High, Used;
    BoundsTouch(mbase, size);
    var m, sz := Low(mbase), High(mbase, size) - Low(mbase);
    ps := pages;
    StartSet(ps, m, usrData);
    while sz > 0
      invariant m % 8 == 0 && sz % 8 == 0 && sz >= 0 && Low(mbase) <= m && m + sz == High(mbase, size)
      invariant PagesOk(ps) && Set(pages, ps, Low(mbase), m, usrData)
      invariant AllUsed(pages) && usrData != 0 ==> AllUsed(ps)
      decreases sz
    {
      var k, num;
      ps, k := PageFor(pages, ps, Low(mbase), m, usrData);
      ps, num := FillPart(pages, ps, Low(mbase), m, sz, k, usrData);
      m, sz := m + 8 * num, sz - 8 * num;
    }
  }

  /** Every page but one has data. */
  ghost predicate UsedBut(pages: seq<IoPage>, k: nat) {
    forall i :: 0 <= i < |pages| && i != k ==> Used(pages[i])
  }

  /** The page of an address, put into the list if it is not there. */
  method PageFor(ghost was: seq<IoPage>, mid: seq<IoPage>, ghost lo: nat, m: nat, ghost v: nat)
    returns (ps: seq<IoPage>, k: nat)
    requires Set(was, mid, lo, m, v) && PagesOk(mid)
    ensures PagesOk(ps) && Set(was, ps, lo, m, v) && k < |ps| && ps[k].mphys == Base(m)
    ensures AllUsed(mid) ==> UsedBut(ps, k)
  {
    hide At, PagesOk, Base, Set, Used;
    var mb := Base(m);
    BaseIsPage(m);
    ps := mid;
    k := FindPage(mid, mb);
    if k == |mid| || mid[k].mphys != mb {
      var zero := ZeroPage();
      LaterPages(mid, k, mb);
      PageAdded(mid, k, mb, zero);
      ps := mid[..k] + [IoPage(mb, zero)] + mid[k..];
      SameSet(was, mid, ps, lo, m, v);
    }
  }

  /** One round of add_io_trans on a page of the list. */
  method FillPart(ghost was: seq<IoPage>, mid: seq<IoPage>, ghost lo: nat, m: nat, size: nat, k: nat, v: nat)
    returns (ps: seq<IoPage>, num: nat)
    requires Set(was, mid, lo, m, v) && lo <= m && m % 8 == 0 && size % 8 == 0 && size > 0
    requires PagesOk(mid) && k < |mid| && mid[k].mphys == Base(m)
    ensures PagesOk(ps) && Set(was, ps, lo, m + 8 * num, v) && 0 < num && 8 * num <= size
    ensures UsedBut(mid, k) && v != 0 ==> AllUsed(ps)
  {
    hide At, PagesOk, Base, Slot, Round, Set, Used;
    num := Round(m, size);
    PageSlots(mid, k);
    var data := Fill(mid[k].data, Slot(m), num, v);
    RoundSets(was, mid, k, lo, m, num, v, data);
    ps := mid[k := mid[k].(data := data)];
    SetPages(was, ps, lo, m + 8 * num, v);
    if UsedBut(mid, k) && v != 0 {
      FilledIsUsed(ps[k], Slot(m));
    }
  }

  /** Whether a page has no data. */
  method AllClear(data: seq<nat>) returns (clear: bool)
    requires |data| == SLOTS
    ensures clear <==> forall i :: 0 <= i < SLOTS ==> data[i] == 0
  {
    var i := 0;
    while i < SLOTS && data[i] == 0
      invariant i <= SLOTS && forall j :: 0 <= j < i ==> data[j] == 0
    {
      i := i + 1;
    }
    clear := i == SLOTS;
  }

  /** What is left to be removed of a range: sz bytes from m on, or less than nothing once
      the last page was skipped. */
  ghost predicate Left(hi: nat, m: nat, sz: int) { m % 8 == 0 && sz % 8 == 0 && m + sz == hi }

  /** Up to where the range has been dealt with. */
  ghost function Done(hi: nat, m: nat, sz: int): nat { if sz >= 0 then m else hi }

  /** The loop of remove_io_trans. */
  method RemovePages(pages: seq<IoPage>, mbase: nat, size: nat) returns (ps: seq<IoPage>)
    requires PagesOk(pages) && High(mbase, size) <= WORD
    ensures Set(pages, ps, Low(mbase), High(mbase, size), 0)
    ensures NoneEmptied(pages, ps, Low(mbase), High(mbase, size))
  {
    hide At, PagesOk, Set, Low, High, NoneEmptied, Left;
    BoundsTouch(mbase, size);
    var m, sz := Low(mbase), High(mbase, size) - Low(mbase);
    ghost var lo, hi := m, High(mbase, size);
    ps := pages;
    StartSet(ps, m, 0);
    StartNoneEmptied(ps, m);
    assert Left(hi, m, sz) by { LeftAtFirst(lo, hi); }
    while sz > 0
      invariant PagesOk(ps) && Left(hi, m, sz) && lo <= Done(hi, m, sz)
      invariant Set(pages, ps, lo, Done(hi, m, sz), 0) && NoneEmptied(pages, ps, lo, Done(hi, m, sz))
      decreases sz
    {
      ps, m, sz := RemoveRound(pages, ps, lo, hi, m, sz);
    }
    NothingLeft(hi, m, sz);
  }

  lemma LeftAtFirst(lo: nat, hi: nat)
    requires lo % 8 == 0 && hi % 8 == 0
    ensures Left(hi, lo, hi - lo)
  {
  }

  lemma NothingLeft(hi: nat, m: nat, sz: int)
    requires Left(hi, m, sz) && sz <= 0
    ensures Done(hi, m, sz) == hi
  {
  }

  /** One round of the loop: a page that is not in the list is skipped. */
  method RemoveRound(ghost was: seq<IoPage>, mid: seq<IoPage>, ghost lo: nat, ghost hi: nat, m: nat, sz: int)
    returns (ps: seq<IoPage>, m': nat, sz': int)
    requires PagesOk(mid) && Left(hi, m, sz) && sz > 0 && lo <= m && Set(was, mid, lo, m, 0)
    requires NoneEmptied(was, mid, lo, m)
    ensures PagesOk(ps) && Left(hi, m', sz') && sz' < sz && lo <= Done(hi, m', sz')
    ensures Set(was, ps, lo, Done(hi, m', sz'), 0) && NoneEmptied(was, ps, lo, Done(hi, m', sz'))
  {
    hide At, PagesOk, Base, Slot, Round, Set, NoneEmptied;
    var mb := Base(m);
    BaseIsPage(m);
    var k := FindPage(mid, mb);
    if k == |mid| || mid[k].mphys != mb {
      ps := mid;
      var skip := mb + PAGE - m;
      SkipIsEven(m);
      LaterPages(mid, k, mb);
      m', sz' := m + skip, sz - skip;
      Skipped(was, mid, lo, m, Done(hi, m', sz'));
    } else {
      var num;
      ps, num := ClearPart(was, mid, lo, m, sz, k);
      m', sz' := m + 8 * num, sz - 8 * num;
    }
  }

  /** One round of remove_io_trans on a page of the list; a page left without data goes. */
  method ClearPart(ghost was: seq<IoPage>, mid: seq<IoPage>, ghost lo: nat, m: nat, size: nat, k: nat)
    returns (ps: seq<IoPage>, num: nat)
    requires Set(was, mid, lo, m, 0) && lo <= m && m % 8 == 0 && size % 8 == 0 && size > 0
    requires PagesOk(mid) && k < |mid| && mid[k].mphys == Base(m) && NoneEmptied(was, mid, lo, m)
    ensures PagesOk(ps) && Set(was, ps, lo, m + 8 * num, 0) && 0 < num && 8 * num <= size
    ensures NoneEmptied(was, ps, lo, m + 8 * num)
  {
    hide At, PagesOk, Base, Slot, Round, Set, NoneEmptied;
    num := Round(m, size);
    PageSlots(mid, k);
    var data := Fill(mid[k].data, Slot(m), num, 0);
    RoundSets(was, mid, k, lo, m, num, 0, data);
    ps := mid[k := mid[k].(data := data)];
    SetPages(was, ps, lo, m + 8 * num, 0);
    OthersStay(mid, k, ps);
    RoundEnds(m, num);
    var clear := AllClear(data);
    if clear {
      PageRemoved(ps, k);
      SameSet(was, ps, ps[..k] + ps[k + 1..], lo, m + 8 * num, 0);
      ps := ps[..k] + ps[k + 1..];
    }
    RoundEmpties(was, mid, ps, lo, m, m + 8 * num);
  }

  /** Nothing is to be done about a page that is not in the list. */
  lemma Skipped(was: seq<IoPage>, now: seq<IoPage>, lo: nat, m: nat, hi: nat)
    requires Set(was, now, lo, m, 0) && NoneEmptied(was, now, lo, m) && PagesOk(now) && lo <= m < hi <= Base(m) + PAGE
    requires forall i :: 0 <= i < |now| ==> now[i].mphys != Base(m)
    ensures Set(was, now, lo, hi, 0) && NoneEmptied(was, now, lo, hi)
  {
    hide Set, NoneEmptied, PagesOk, Base;
    RestOfPage(m, hi);
    NoPageSets(was, now, lo, m, hi);
    RoundEmpties(was, now, now, lo, m, hi);
  }

  lemma SkipIsEven(m: nat)
    requires m % 8 == 0
    ensures (Base(m) + PAGE - m) % 8 == 0 && (m + (Base(m) + PAGE - m)) % 8 == 0
  {
  }

  lemma RestOfPage(m: nat, hi: nat)
    requires m < hi <= Base(m) + PAGE
    ensures Base(hi - 1) == Base(m)
  {
  }

  lemma StartSet(pages: seq<IoPage>, lo: nat, v: nat)
    requires PagesOk(pages)
    ensures Set(pages, pages, lo, lo, v)
  {
    hide At, PagesOk;
  }

  lemma SetTouched(was: seq<IoPage>, now: seq<IoPage>, mbase: nat, size: nat, v: nat)
    requires Set(was, now, Low(mbase), High(mbase, size), v)
    ensures PagesOk(was) && PagesOk(now)
    ensures forall a: nat :: At(now, a) == if TouchesWord(mbase, size, a) then v else At(was, a)
  {
    hide PagesOk, At, TouchesWord, Low, High;
    BoundsTouch(mbase, size);
  }

  lemma SetPages(was: seq<IoPage>, now: seq<IoPage>, lo: nat, hi: nat, v: nat)
    requires Set(was, now, lo, hi, v)
    ensures PagesOk(now)
  {
    hide At, PagesOk;
  }

  lemma PageSlots(pages: seq<IoPage>, k: nat)
    requires PagesOk(pages) && k < |pages|
    ensures |pages[k].data| == SLOTS
  {
  }

  lemma LaterPages(pages: seq<IoPage>, k: nat, mb: nat)
    requires PagesOk(pages) && k <= |pages| && (forall i :: k <= i < |pages| ==> pages[i].mphys >= mb)
    requires k < |pages| ==> pages[k].mphys != mb
    ensures forall i :: k <= i < |pages| ==> pages[i].mphys > mb
  {
  }

  // --------------------------------------------------------------- block translations

  /** A block: where the guest has it, where Linux has it, its size, whether it was put
      first, whether it is backed by the scratch page, and its number. */
  datatype Block = Block(mbase: nat, lvbase: nat, size: nat, putFirst: bool, scratch: bool, id: nat)

  /** The blocks that were put first are before all others. */
  ghost predicate PrefixFirst(t: seq<Block>) {
    forall i, j :: 0 <= i < j < |t| && t[j].putFirst ==> t[i].putFirst
  }

  /** How many blocks were put first. */
  function FirstCount(t: seq<Block>): (n: nat)
    ensures n <= |t|
  {
    if t == [] then 0 else FirstCount(t[..|t| - 1]) + if t[|t| - 1].putFirst then 1 else 0
  }

  lemma {:induction false} FirstCountIsPrefix(t: seq<Block>)
    requires PrefixFirst(t)
    ensures forall i :: 0 <= i < |t| ==> (t[i].putFirst <==> i < FirstCount(t))
  {
    if t != [] {
      FirstCountIsPrefix(t[..|t| - 1]);
    }
  }

  /** Where add_block_trans puts a block: blocks to be put first, and the block at address
      0, after the blocks put first so far, any other at the end. */
  method InsertIndex(t: seq<Block>, mbase: nat, putFirst: bool) returns (ind: nat)
    requires PrefixFirst(t)
    ensures ind <= |t| && ind == if mbase == 0 || putFirst then FirstCount(t) else |t|
  {
    ind := if mbase == 0 || putFirst then 0 else |t|;
    var i := 0;
    FirstCountIsPrefix(t);
    while i < |t| && ind <= i
      invariant 0 <= i <= |t|
      invariant if mbase == 0 || putFirst then ind == FirstCount(t[..i]) else ind == |t|
    {
      assert t[..i + 1][..i] == t[..i];
      if t[i].putFirst {
        ind := ind + 1;
      }
      i := i + 1;
    }
    assert t[..|t|] == t;
  }

  lemma {:induction false} InsertKeepsPrefix(t: seq<Block>, b: Block, ind: nat)
    requires PrefixFirst(t) && ind == if b.mbase == 0 || b.putFirst then FirstCount(t) else |t|
    ensures PrefixFirst(t[..ind] + [b] + t[ind..])
  {
    FirstCountIsPrefix(t);
    var u := t[..ind] + [b] + t[ind..];
    assert forall i :: 0 <= i < |u| ==> u[i] == if i < ind then t[i] else if i == ind then b else t[i - 1];
  }

  lemma RemoveKeepsPrefix(t: seq<Block>, i: nat)
    requires PrefixFirst(t) && i < |t|
    ensures PrefixFirst(t[..i] + t[i + 1..])
  {
    var u := t[..i] + t[i + 1..];
    assert forall j :: 0 <= j < |u| ==> u[j] == t[if j < i then j else j + 1];
  }

  /** No two blocks have one number. */
  ghost predicate IdsOk(t: seq<Block>, nextId: nat) {
    (forall i :: 0 <= i < |t| ==> t[i].id <= nextId) && forall i, j :: 0 <= i < j < |t| ==> t[i].id != t[j].id
  }

  lemma InsertKeepsIds(t: seq<Block>, b: Block, ind: nat, nextId: nat)
    requires IdsOk(t, nextId) && ind <= |t| && b.id == nextId + 1
    ensures IdsOk(t[..ind] + [b] + t[ind..], nextId + 1)
  {
    var u := t[..ind] + [b] + t[ind..];
    assert forall i :: 0 <= i < |u| ==> u[i] == if i < ind then t[i] else if i == ind then b else t[i - 1];
  }

  lemma RemoveKeepsIds(t: seq<Block>, i: nat, nextId: nat)
    requires IdsOk(t, nextId) && i < |t|
    ensures IdsOk(t[..i] + t[i + 1..], nextId)
    ensures forall j :: 0 <= j < |t| && t[j].id == t[i].id ==> j == i
  {
    var u := t[..i] + t[i + 1..];
    assert forall j :: 0 <= j < |u| ==> u[j] == t[if j < i then j else j + 1];
  }

  /** The page is so many bytes after the start of the block, round the address space. */
  predicate OffsetIn(b: Block, page: nat, k: nat) { k < b.size && k < WORD && (b.mbase + k) % WORD == page % WORD }

  ghost predicate Covers(b: Block, page: nat) { exists k: nat :: OffsetIn(b, page, k) }

  /** The difference that is compared with the size of a block, in unsigned arithmetic. */
  function Difference(b: Block, page: nat): nat { (page - b.mbase) % WORD }

  lemma DifferenceIsOffset(b: Block, page: nat)
    ensures Difference(b, page) < b.size <==> Covers(b, page)
    ensures forall k: nat :: OffsetIn(b, page, k) ==> k == Difference(b, page)
    ensures Covers(b, page) ==> OffsetIn(b, page, Difference(b, page))
  {
    OffsetBack(b.mbase, page);
    forall k: nat | OffsetIn(b, page, k)
      ensures k == Difference(b, page)
    {
      OffsetOnly(b.mbase, page, k);
    }
    if Difference(b, page) < b.size {
      assert OffsetIn(b, page, Difference(b, page));
    }
  }

  lemma OffsetBack(mbase: nat, page: nat)
    ensures (mbase + (page - mbase) % WORD) % WORD == page % WORD
  {
  }

  lemma OffsetOnly(mbase: nat, page: nat, k: nat)
    requires k < WORD && (mbase + k) % WORD == page % WORD
    ensures k == (page - mbase) % WORD
  {
  }

  /** A block that does not go round the address space has the pages between its bounds. */
  lemma CoversBetween(b: Block, page: nat)
    requires b.mbase + b.size <= WORD && page < WORD
    ensures Covers(b, page) <==> b.mbase <= page < b.mbase + b.size
  {
    DifferenceIsOffset(b, page);
  }

  /** What a guest page is resolved to. */
  datatype Target = Nowhere | EmuAccel | ToBlock(id: nat, offset: nat) | ToScratch(id: nat) | ToIo(mphys: nat)

  /** The priority look-up: the accelerator page, the first block in the table, I/O. */
  ghost predicate Resolves(emuaccel: Option<nat>, t: seq<Block>, pages: seq<IoPage>, scratch: bool, page: nat,
                           r: Target) {
    if emuaccel == Some(page) then r == EmuAccel
    else if exists i :: 0 <= i < |t| && Covers(t[i], page) then
      exists i :: 0 <= i < |t| && Covers(t[i], page) && (forall j :: 0 <= j < i ==> !Covers(t[j], page)) &&
        if !t[i].scratch then r.ToBlock? && r.id == t[i].id && OffsetIn(t[i], page, r.offset)
        else r == if scratch then ToScratch(t[i].id) else Nowhere
    else if exists i :: 0 <= i < |pages| && pages[i].mphys == page then r == ToIo(page)
    else r == Nowhere
  }

  class IoData {
    var pages: seq<IoPage>
    var btable: seq<Block>
    var nextId: nat

    /** The page of the accelerator, if there is one. */
    var emuaccel: Option<nat>

    ghost predicate Valid()
      reads this
    {
      PagesOk(pages) && PrefixFirst(btable) && IdsOk(btable, nextId) && |btable| <= MAX_BLOCK_TRANS
    }

    constructor ()
      ensures Valid() && pages == [] && btable == []
    {
      pages, btable, nextId, emuaccel := [], [], 0, None;
    }

    /** add_io_trans: the double words that the range touches get the datum, every other
        keeps its own. */
    method AddIo(mbase: nat, size: nat, usrData: nat)
      requires Valid() && High(mbase, size) <= WORD
      modifies this`pages
      ensures Valid() && Set(old(pages), pages, Low(mbase), High(mbase, size), usrData)
      ensures forall a: nat :: At(pages, a) == if TouchesWord(mbase, size, a) then usrData else At(old(pages), a)
      ensures AllUsed(old(pages)) && usrData != 0 ==> AllUsed(pages)
    {
      hide PagesOk, Set, AllUsed, At, TouchesWord;
      pages := AddPages(pages, mbase, size, usrData);
      SetPages(old(pages), pages, Low(mbase), High(mbase, size), usrData);
      SetTouched(old(pages), pages, mbase, size, usrData);
    }

    /** remove_io_trans: no page is left that the call has emptied. */
    method RemoveIo(mbase: nat, size: nat)
      requires Valid() && High(mbase, size) <= WORD
      modifies this`pages
      ensures Valid() && Set(old(pages), pages, Low(mbase), High(mbase, size), 0)
      ensures forall a: nat :: At(pages, a) == if TouchesWord(mbase, size, a) then 0 else At(old(pages), a)
      ensures NoneEmptied(old(pages), pages, Low(mbase), High(mbase, size))
      ensures AllUsed(old(pages)) ==> AllUsed(pages)
    {
      hide PagesOk, Set, Used, At, TouchesWord;
      pages := RemovePages(pages, mbase, size);
      SetPages(old(pages), pages, Low(mbase), High(mbase, size), 0);
      SetTouched(old(pages), pages, mbase, size, 0);
    }

    /** add_block_trans: the new block is after the blocks that were put first before it,
        and before the others if it is to be put first or is the block at address 0.  It is
        refused when the table is full or its lvrange could not be registered. */
    method AddBlock(mbase: nat, lvbase: nat, size: nat, putFirst: bool, scratch: bool, registered: bool)
      returns (id: Option<nat>)
      requires Valid()
      modifies this`btable, this`nextId
      ensures Valid()
      ensures id.None? <==> |old(btable)| == MAX_BLOCK_TRANS || !registered
      ensures id.None? ==> btable == old(btable) && nextId == old(nextId)
      ensures id.Some? ==> id.value == nextId == old(nextId) + 1
      ensures id.Some? ==>
                var n := if mbase == 0 || putFirst then FirstCount(old(btable)) else |old(btable)|;
                var b := Block(mbase, if scratch then 0 else lvbase, size, putFirst, scratch, nextId);
                btable == old(btable)[..n] + [b] + old(btable)[n..]
    {
      hide PagesOk, PrefixFirst, IdsOk, FirstCount;
      if |btable| >= MAX_BLOCK_TRANS || !registered {
        return None;
      }
      var ind := InsertIndex(btable, mbase, putFirst);
      var b := Block(mbase, if scratch then 0 else lvbase, size, putFirst, scratch, nextId + 1);
      InsertKeepsPrefix(btable, b, ind);
      InsertKeepsIds(btable, b, ind, nextId);
      btable, nextId := btable[..ind] + [b] + btable[ind..], nextId + 1;
      id := Some(nextId);
    }

    /** remove_block_trans. */
    method RemoveBlock(id: nat)
      requires Valid()
      modifies this`btable
      ensures Valid()
      ensures (forall i :: 0 <= i < |old(btable)| ==> old(btable)[i].id != id) ==> btable == old(btable)
      ensures forall i :: 0 <= i < |old(btable)| && old(btable)[i].id == id ==>
                btable == old(btable)[..i] + old(btable)[i + 1..]
    {
      hide PagesOk, PrefixFirst, IdsOk;
      var i := 0;
      while i < |btable|
        invariant 0 <= i <= |btable| && btable == old(btable) && forall j :: 0 <= j < i ==> btable[j].id != id
      {
        if btable[i].id == id {
          RemoveKeepsPrefix(btable, i);
          RemoveKeepsIds(btable, i, nextId);
          btable := btable[..i] + btable[i + 1..];
          return;
        }
        i := i + 1;
      }
    }

    /** mphys_to_pte, but for the cache and protection bits: the loops over the table and
        over the sorted list resolve a page as the priority look-up does.  As long as every
        page of the list has data, a page goes to I/O exactly when one of its addresses has
        a datum and neither the accelerator nor a block has it. */
    method MphysToPte(mphys: nat, scratch: bool) returns (r: Target)
      requires Valid()
      ensures Resolves(emuaccel, btable, pages, scratch, Base(mphys), r)
      ensures AllUsed(pages) ==>
                (r == ToIo(Base(mphys)) <==>
                   && HasDatum(pages, Base(mphys)) && emuaccel != Some(Base(mphys))
                   && forall i :: 0 <= i < |btable| ==> !Covers(btable[i], Base(mphys)))
    {
      hide Covers, OffsetIn, Difference, Base, PrefixFirst, HasDatum, AllUsed;
      if AllUsed(pages) {
        ListedIffDatum(pages, Base(mphys));
      }
      var page := Base(mphys);
      if emuaccel == Some(page) {
        return EmuAccel;
      }
      var i := 0;
      while i < |btable|
        invariant 0 <= i <= |btable| && forall j :: 0 <= j < i ==> !Covers(btable[j], page)
      {
        DifferenceIsOffset(btable[i], page);
        if Difference(btable[i], page) < btable[i].size {
          if btable[i].scratch {
            r := if scratch then ToScratch(btable[i].id) else Nowhere;
          } else {
            r := ToBlock(btable[i].id, Difference(btable[i], page));
          }
          return;
        }
        i := i + 1;
      }
      i := 0;
      while i < |pages| && pages[i].mphys <= page
        invariant 0 <= i <= |pages| && forall j :: 0 <= j < i ==> pages[j].mphys != page
      {
        if pages[i].mphys == page {
          return ToIo(page);
        }
        i := i + 1;
      }
      r := Nowhere;
    }
  }
}
