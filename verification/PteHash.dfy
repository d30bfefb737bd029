/**
 Hashed page tables: the host's, into which MOL enters PTEs, and the guest's, whose
 stores MOL intercepts.  The layout is that of section 7.6, Hashed Page Tables, of
 the Programming Environments Manual for 32-bit PowerPC.
 */
module PteHash {
  import opened Options

  const V_BIT: bv32 := 0x8000_0000
  const H_BIT: bv32 := 0x40

  function Vsid(pte0: bv32): bv32 { (pte0 >> 7) & 0xff_ffff }
  predicate IsValid(pte0: bv32) { pte0 & V_BIT != 0 }
  predicate IsSecondary(pte0: bv32) { pte0 & H_BIT != 0 }

  /** The word a PTE of the address has in its primary group. */
  function CompareWord(vsid: bv32, page: bv32): bv32 {
    V_BIT | (vsid << 7) | (page >> 10)
  }

  /** Byte offsets of the primary and secondary groups of an address. */
  function Primary(vsid: bv32, page: bv32, mask: bv32): bv32 {
    ((page ^ (vsid & 0x7_ffff)) << 6) & mask
  }

  function Secondary(vsid: bv32, page: bv32, mask: bv32): bv32 {
    Primary(vsid, page, mask) ^ mask
  }

  /** Masks that init_hash and do_mtsdr1 derive: at least 1024 groups of 64 bytes. */
  predicate GroupMask(mask: bv32) {
    mask & 0xffff == 0xffc0 && mask & 0xfe00_0000 == 0
  }

  /** The page index that a PTE at an offset translates: the low ten bits come from
      the group, the others from the abbreviated page index. */
  function PageAt(offs: bv32, pte0: bv32): bv32 {
    var v := offs >> 6;
    var w := (if IsSecondary(pte0) then !v else v) ^ (pte0 >> 7);
    ((pte0 << 10) & 0xfc00) | (w & 0x3ff)
  }

  // --------------------------------------------------------------- the hash, bit by bit

  predicate Bit(x: bv32, k: bv32) { k < 32 && (x >> k) & 1 == 1 }

  /** Bit k of the hash is bit k + 6 of a group's offset, where the table is large enough to
      have it: the exclusive or of bit k of the page index and bit k of the VSID,
      complemented for the second group. */
  predicate HashBit(g: bv32, vsid: bv32, page: bv32, mask: bv32, second: bool, k: bv32) {
    Bit(g, k + 6) <==> Bit(mask, k + 6) && ((Bit(page, k) != Bit(vsid, k)) != second)
  }

  predicate InTable(g: bv32, mask: bv32) { g & mask == g }

  /** The group that the nineteen bits of the hash of an address name. */
  ghost predicate HashesTo(g: bv32, vsid: bv32, page: bv32, mask: bv32, second: bool) {
    InTable(g, mask) && forall k :: k < 19 ==> HashBit(g, vsid, page, mask, second, k)
  }

  lemma PrimaryBit(vsid: bv32, page: bv32, mask: bv32, k: bv32)
    requires k < 19
    ensures HashBit(Primary(vsid, page, mask), vsid, page, mask, false, k)
  {
  }

  lemma SecondaryBit(vsid: bv32, page: bv32, mask: bv32, k: bv32)
    requires k < 19
    ensures HashBit(Secondary(vsid, page, mask), vsid, page, mask, true, k)
  {
  }

  lemma GroupsInTable(vsid: bv32, page: bv32, mask: bv32)
    ensures InTable(Primary(vsid, page, mask), mask) && InTable(Secondary(vsid, page, mask), mask)
  {
  }

  /** The two groups of an address are those that its hash names. */
  lemma HashBits(vsid: bv32, page: bv32, mask: bv32)
    ensures HashesTo(Primary(vsid, page, mask), vsid, page, mask, false)
    ensures HashesTo(Secondary(vsid, page, mask), vsid, page, mask, true)
  {
    hide Primary, Secondary, HashBit, InTable;
    GroupsInTable(vsid, page, mask);
    forall k: bv32 | k < 19
      ensures HashBit(Primary(vsid, page, mask), vsid, page, mask, false, k)
      ensures HashBit(Secondary(vsid, page, mask), vsid, page, mask, true, k)
    {
      PrimaryBit(vsid, page, mask, k);
      SecondaryBit(vsid, page, mask, k);
    }
  }

  predicate SameBit(g: bv32, h: bv32, k: bv32) { Bit(g, k + 6) <==> Bit(h, k + 6) }

  /** Offsets of groups are the same when their bits are. */
  lemma SameBits(g: bv32, h: bv32, mask: bv32)
    requires InTable(g, mask) && InTable(h, mask) && GroupMask(mask)
    requires forall k :: k < 19 ==> SameBit(g, h, k)
    ensures g == h
  {
    assert SameBit(g, h, 0) && SameBit(g, h, 1) && SameBit(g, h, 2) && SameBit(g, h, 3) && SameBit(g, h, 4);
    assert SameBit(g, h, 5) && SameBit(g, h, 6) && SameBit(g, h, 7) && SameBit(g, h, 8) && SameBit(g, h, 9);
    assert SameBit(g, h, 10) && SameBit(g, h, 11) && SameBit(g, h, 12) && SameBit(g, h, 13) && SameBit(g, h, 14);
    assert SameBit(g, h, 15) && SameBit(g, h, 16) && SameBit(g, h, 17) && SameBit(g, h, 18);
  }

  /** The hash names one group. */
  lemma OneGroup(g: bv32, h: bv32, vsid: bv32, page: bv32, mask: bv32, second: bool)
    requires GroupMask(mask) && HashesTo(g, vsid, page, mask, second) && HashesTo(h, vsid, page, mask, second)
    ensures g == h
  {
    hide Bit, InTable, GroupMask;
    forall k: bv32 | k < 19
      ensures SameBit(g, h, k)
    {
      assert HashBit(g, vsid, page, mask, second, k) && HashBit(h, vsid, page, mask, second, k);
    }
    SameBits(g, h, mask);
  }

  /** VSIDs that differ in a bit of the hash which the table has keep the PTEs of a page
      in different groups. */
  lemma VsidsApart(v: bv32, w: bv32, page: bv32, mask: bv32, k: bv32)
    requires k < 19 && Bit(mask, k + 6) && Bit(v, k) != Bit(w, k)
    ensures Primary(v, page, mask) != Primary(w, page, mask)
    ensures Secondary(v, page, mask) != Secondary(w, page, mask)
  {
    hide *;
    PrimaryBit(v, page, mask, k);
    PrimaryBit(w, page, mask, k);
    SecondaryBit(v, page, mask, k);
    SecondaryBit(w, page, mask, k);
    BitApart(Primary(v, page, mask), Primary(w, page, mask), v, w, page, mask, false, k);
    BitApart(Secondary(v, page, mask), Secondary(w, page, mask), v, w, page, mask, true, k);
  }

  lemma BitApart(g: bv32, h: bv32, v: bv32, w: bv32, page: bv32, mask: bv32, second: bool, k: bv32)
    requires HashBit(g, v, page, mask, second, k) && HashBit(h, w, page, mask, second, k)
    requires Bit(mask, k + 6) && Bit(v, k) != Bit(w, k)
    ensures g != h
  {
    hide Bit;
  }

  /** A PTE sits in the group that its H bit and its hash name. */
  ghost predicate WellPlaced(group: bv32, pte0: bv32, mask: bv32) {
    HashesTo(group, Vsid(pte0), PageAt(group, pte0), mask, IsSecondary(pte0))
  }

  // ------------------------------------------------------------- one word, one address

  lemma WordFields(vsid: bv32, page: bv32, h: bv32)
    requires vsid & 0xff00_0000 == 0 && page & 0xffff_0000 == 0 && (h == 0 || h == H_BIT)
    ensures var w := CompareWord(vsid, page) | h;
            IsValid(w) && (IsSecondary(w) <==> h == H_BIT) && Vsid(w) == vsid
  {
    FieldsApart(vsid, page >> 10, h) by { ShortApi(page); }
  }

  lemma ShortApi(page: bv32)
    requires page & 0xffff_0000 == 0
    ensures (page >> 10) & 0xffff_ffc0 == 0
  {
  }

  lemma FieldsApart(vsid: bv32, api: bv32, h: bv32)
    requires vsid & 0xff00_0000 == 0 && api & 0xffff_ffc0 == 0 && (h == 0 || h == 0x40)
    ensures var w := 0x8000_0000 | (vsid << 7) | api | h;
            w & 0x8000_0000 != 0 && (w & 0x40) == h && (w >> 7) & 0xff_ffff == vsid
  {
  }

  lemma PrimaryPage(vsid: bv32, page: bv32, mask: bv32)
    requires vsid & 0xff00_0000 == 0 && page & 0xffff_0000 == 0 && mask & 0xffff == 0xffc0
    ensures var w := 0x8000_0000 | (vsid << 7) | (page >> 10);
            var v := (((page ^ (vsid & 0x7_ffff)) << 6) & mask) >> 6;
            ((w << 10) & 0xfc00) | (((if w & 0x40 != 0 then !v else v) ^ (w >> 7)) & 0x3ff) == page
  {
  }

  lemma SecondaryPage(vsid: bv32, page: bv32, mask: bv32)
    requires vsid & 0xff00_0000 == 0 && page & 0xffff_0000 == 0 && mask & 0xffff == 0xffc0
    ensures var w := 0x8000_0000 | (vsid << 7) | (page >> 10) | 0x40;
            var v := ((((page ^ (vsid & 0x7_ffff)) << 6) & mask) ^ mask) >> 6;
            ((w << 10) & 0xfc00) | (((if w & 0x40 != 0 then !v else v) ^ (w >> 7)) & 0x3ff) == page
  {
  }

  lemma OrZero(w: bv32)
    ensures w | 0 == w
  {
  }

  lemma PrimaryFields(vsid: bv32, page: bv32)
    requires vsid & 0xff00_0000 == 0 && page & 0xffff_0000 == 0
    ensures var w := CompareWord(vsid, page); IsValid(w) && !IsSecondary(w) && Vsid(w) == vsid
  {
    hide CompareWord, IsValid, IsSecondary, Vsid;
    WordFields(vsid, page, 0);
    OrZero(CompareWord(vsid, page));
  }

  lemma PrimaryPageAt(vsid: bv32, page: bv32, mask: bv32)
    requires vsid & 0xff00_0000 == 0 && page & 0xffff_0000 == 0 && GroupMask(mask)
    ensures PageAt(Primary(vsid, page, mask), CompareWord(vsid, page)) == page
  {
    PrimaryPage(vsid, page, mask);
  }

  lemma SecondaryPageAt(vsid: bv32, page: bv32, mask: bv32)
    requires vsid & 0xff00_0000 == 0 && page & 0xffff_0000 == 0 && GroupMask(mask)
    ensures PageAt(Secondary(vsid, page, mask), CompareWord(vsid, page) | H_BIT) == page
  {
    SecondaryPage(vsid, page, mask);
  }

  lemma PlacedFrom(g: bv32, w: bv32, vsid: bv32, page: bv32, mask: bv32)
    requires Vsid(w) == vsid && PageAt(g, w) == page
    requires g == if IsSecondary(w) then Secondary(vsid, page, mask) else Primary(vsid, page, mask)
    ensures WellPlaced(g, w, mask)
  {
    hide Vsid, PageAt, IsSecondary, Primary, Secondary, HashesTo;
    HashBits(vsid, page, mask);
  }

  /** A PTE that the code stores: a word, a group, and the address they stand for. */
  ghost predicate PteOf(g: bv32, w: bv32, vsid: bv32, page: bv32, mask: bv32) {
    IsValid(w) && Vsid(w) == vsid && PageAt(g, w) == page && WellPlaced(g, w, mask)
  }

  /** The word with its H bit clear is well placed in the primary group, and with its
      H bit set in the secondary group. */
  lemma Placed(vsid: bv32, page: bv32, mask: bv32)
    requires vsid & 0xff00_0000 == 0 && page & 0xffff_0000 == 0 && GroupMask(mask)
    ensures PteOf(Primary(vsid, page, mask), CompareWord(vsid, page), vsid, page, mask)
    ensures PteOf(Secondary(vsid, page, mask), CompareWord(vsid, page) | H_BIT, vsid, page, mask)
  {
    hide *;
    PrimaryFields(vsid, page);
    WordFields(vsid, page, H_BIT);
    PrimaryPageAt(vsid, page, mask);
    SecondaryPageAt(vsid, page, mask);
    PlacedFrom(Primary(vsid, page, mask), CompareWord(vsid, page), vsid, page, mask);
    PlacedFrom(Secondary(vsid, page, mask), CompareWord(vsid, page) | H_BIT, vsid, page, mask);
    MakePteOf(Primary(vsid, page, mask), CompareWord(vsid, page), vsid, page, mask);
    MakePteOf(Secondary(vsid, page, mask), CompareWord(vsid, page) | H_BIT, vsid, page, mask);
  }

  lemma MakePteOf(g: bv32, w: bv32, vsid: bv32, page: bv32, mask: bv32)
    requires IsValid(w) && Vsid(w) == vsid && PageAt(g, w) == page && WellPlaced(g, w, mask)
    ensures PteOf(g, w, vsid, page, mask)
  {
  }

  /** A valid, well-placed PTE of an address is one of two words in one of two groups. */
  lemma OnlyTwoPlaces(vsid: bv32, page: bv32, mask: bv32, group: bv32, w: bv32)
    requires GroupMask(mask)
    requires IsValid(w) && WellPlaced(group, w, mask) && Vsid(w) == vsid && PageAt(group, w) == page
    ensures if IsSecondary(w) then w == CompareWord(vsid, page) | H_BIT && group == Secondary(vsid, page, mask)
            else w == CompareWord(vsid, page) && group == Primary(vsid, page, mask)
  {
    hide *;
    WordParts(w, group, vsid, page);
    GroupParts(group, w, vsid, page, mask);
  }

  lemma WordParts(w: bv32, group: bv32, vsid: bv32, page: bv32)
    requires IsValid(w) && Vsid(w) == vsid && PageAt(group, w) == page
    ensures w == if IsSecondary(w) then CompareWord(vsid, page) | H_BIT else CompareWord(vsid, page)
  {
    hide IsValid, Vsid, PageAt, CompareWord;
    WordFromFields(w, group);
  }

  lemma GroupParts(group: bv32, w: bv32, vsid: bv32, page: bv32, mask: bv32)
    requires GroupMask(mask) && WellPlaced(group, w, mask) && Vsid(w) == vsid && PageAt(group, w) == page
    ensures group == if IsSecondary(w) then Secondary(vsid, page, mask) else Primary(vsid, page, mask)
  {
    hide Vsid, PageAt, IsSecondary, Primary, Secondary, HashesTo, GroupMask;
    HashBits(vsid, page, mask);
    OneGroup(group, if IsSecondary(w) then Secondary(vsid, page, mask) else Primary(vsid, page, mask),
             vsid, page, mask, IsSecondary(w));
  }

  lemma WordFromFields(w: bv32, group: bv32)
    requires IsValid(w)
    ensures w == (CompareWord(Vsid(w), PageAt(group, w)) | (w & H_BIT))
  {
  }

  // ---------------------------------------------------------------- the host's table

  /** A slot: the byte offset of its group, and its number in the group. */
  datatype HashSlot = HashSlot(group: bv32, i: nat)

  /** Which address a slot translates. */
  ghost predicate Translates(table: map<HashSlot, bv32>, s: HashSlot, vsid: bv32, page: bv32) {
    s in table && IsValid(table[s]) && Vsid(table[s]) == vsid && PageAt(s.group, table[s]) == page
  }

  ghost predicate HasPte(table: map<HashSlot, bv32>, vsid: bv32, page: bv32) {
    exists s :: Translates(table, s, vsid, page)
  }

  /** Eight slots in each group. */
  ghost predicate Groups(table: map<HashSlot, bv32>, mask: bv32) {
    forall s :: s in table <==> InTable(s.group, mask) && s.i < 8
  }

  /** Every valid PTE is in the group its H bit and hash name. */
  ghost predicate AllPlaced(table: map<HashSlot, bv32>, mask: bv32) {
    forall s :: s in table && IsValid(table[s]) ==> WellPlaced(s.group, table[s], mask)
  }

  /** No address has two PTEs. */
  ghost predicate NoDuplicates(table: map<HashSlot, bv32>) {
    forall s, t :: s in table && t in table && s != t && IsValid(table[s]) && IsValid(table[t]) ==>
      !(Vsid(table[s]) == Vsid(table[t]) && PageAt(s.group, table[s]) == PageAt(t.group, table[t]))
  }

  predicate Address(vsid: bv32, page: bv32) {
    vsid & 0xff00_0000 == 0 && page & 0xffff_0000 == 0
  }

  /** A slot with one of the two words of an address translates it, and no other does. */
  lemma MatchingSlot(table: map<HashSlot, bv32>, mask: bv32, s: HashSlot, vsid: bv32, page: bv32)
    requires GroupMask(mask) && AllPlaced(table, mask) && Address(vsid, page) && s in table
    ensures Translates(table, s, vsid, page) <==>
              (s.group == Primary(vsid, page, mask) && table[s] == CompareWord(vsid, page))
              || (s.group == Secondary(vsid, page, mask) && table[s] == CompareWord(vsid, page) | H_BIT)
  {
    hide Vsid, CompareWord, Primary, Secondary, IsValid, IsSecondary, PageAt, WellPlaced, GroupMask;
    Placed(vsid, page, mask);
    if Translates(table, s, vsid, page) {
      OnlyTwoPlaces(vsid, page, mask, s.group, table[s]);
    }
  }

  /** With neither word in its group, the address has no PTE. */
  lemma NoMatch(table: map<HashSlot, bv32>, mask: bv32, vsid: bv32, page: bv32)
    requires GroupMask(mask) && AllPlaced(table, mask) && Address(vsid, page)
    requires forall s :: s in table && s.group == Primary(vsid, page, mask) ==> table[s] != CompareWord(vsid, page)
    requires forall s :: s in table && s.group == Secondary(vsid, page, mask) ==>
               table[s] != CompareWord(vsid, page) | H_BIT
    ensures !HasPte(table, vsid, page)
  {
    hide Vsid, CompareWord, Primary, Secondary, IsValid, IsSecondary, PageAt, WellPlaced, GroupMask, AllPlaced, Address;
    forall s
      ensures !Translates(table, s, vsid, page)
    {
      if s in table {
        MatchingSlot(table, mask, s, vsid, page);
      }
    }
  }

  /** Placed, for an address. */
  lemma PlacedWords(vsid: bv32, page: bv32, mask: bv32)
    requires Address(vsid, page) && GroupMask(mask)
    ensures PteOf(Primary(vsid, page, mask), CompareWord(vsid, page), vsid, page, mask)
    ensures PteOf(Secondary(vsid, page, mask), CompareWord(vsid, page) | H_BIT, vsid, page, mask)
  {
    hide CompareWord, Primary, Secondary, PteOf, GroupMask;
    Placed(vsid, page, mask);
  }

  /** No slot of a group is free. */
  ghost predicate Full(table: map<HashSlot, bv32>, group: bv32) {
    forall s :: s in table && s.group == group ==> IsValid(table[s])
  }

  lemma TranslatesInTable(table: map<HashSlot, bv32>, s: HashSlot, vsid: bv32, page: bv32)
    requires Translates(table, s, vsid, page)
    ensures s in table
  {
    hide Vsid, IsValid, PageAt;
  }

  lemma StolenIsValid(table: map<HashSlot, bv32>, mask: bv32, s: HashSlot)
    requires Groups(table, mask) && InTable(s.group, mask) && s.i < 8 && Full(table, s.group)
    ensures s in table && IsValid(table[s])
  {
    hide InTable, IsValid;
  }

  /** The slot find_pte_slot takes when it finds no PTE of the address: a free one of
      the primary group, else a free one of the secondary group, else the one of the
      primary group whose turn it is. */
  ghost predicate Chosen(table: map<HashSlot, bv32>, slot: HashSlot, primary: bv32, secondary: bv32, turn: nat) {
    slot in table &&
    if !Full(table, primary) then slot.group == primary && FirstFree(table, slot)
    else if !Full(table, secondary) then slot.group == secondary && FirstFree(table, slot)
    else slot == HashSlot(primary, turn)
  }

  /** The first free slot of a group. */
  ghost predicate FirstFree(table: map<HashSlot, bv32>, slot: HashSlot)
    requires slot in table
  {
    !IsValid(table[slot]) && forall s :: s in table && s.group == slot.group && s.i < slot.i ==> IsValid(table[s])
  }

  /** Storing a PTE of an address keeps every PTE in its group. */
  lemma StoreKeepsPlaced(table: map<HashSlot, bv32>, mask: bv32, slot: HashSlot, w: bv32, vsid: bv32, page: bv32)
    requires Groups(table, mask) && AllPlaced(table, mask) && slot in table && PteOf(slot.group, w, vsid, page, mask)
    ensures Groups(table[slot := w], mask) && AllPlaced(table[slot := w], mask)
    ensures Translates(table[slot := w], slot, vsid, page)
    ensures forall s, v, p :: s != slot ==> (Translates(table[slot := w], s, v, p) <==> Translates(table, s, v, p))
  {
    hide Vsid, IsValid, PageAt, WellPlaced, InTable;
  }

  /** Storing a PTE of an address makes no duplicate exactly when no other slot
      translates that address. */
  lemma StoreDuplicates(table: map<HashSlot, bv32>, mask: bv32, slot: HashSlot, w: bv32, vsid: bv32, page: bv32)
    requires NoDuplicates(table) && slot in table && PteOf(slot.group, w, vsid, page, mask)
    ensures NoDuplicates(table[slot := w]) <==> OnlySlot(table, slot, vsid, page)
  {
    hide Vsid, IsValid, PageAt, WellPlaced;
    var t := table[slot := w];
    if s :| s != slot && Translates(table, s, vsid, page) {
      assert s in t && slot in t && t[s] == table[s];
    } else {
      forall a, b | a in t && b in t && a != b && IsValid(t[a]) && IsValid(t[b])
        ensures !(Vsid(t[a]) == Vsid(t[b]) && PageAt(a.group, t[a]) == PageAt(b.group, t[b]))
      {
        assert !Translates(table, if a == slot then b else a, vsid, page) || (a != slot && b != slot);
      }
    }
  }

  /** No other slot translates the address. */
  ghost predicate OnlySlot(table: map<HashSlot, bv32>, slot: HashSlot, vsid: bv32, page: bv32) {
    forall s :: s != slot ==> !Translates(table, s, vsid, page)
  }

  /** The flag says that the address may have a PTE, or it has none, or both its groups are
      full and its PTE is in the slot that is next to be stolen. */
  ghost predicate Replaceable(table: map<HashSlot, bv32>, vsid: bv32, page: bv32, mask: bv32,
                              present: bool, turn: nat) {
    || present
    || !HasPte(table, vsid, page)
    || (&& Full(table, Primary(vsid, page, mask)) && Full(table, Secondary(vsid, page, mask))
        && Translates(table, HashSlot(Primary(vsid, page, mask), turn), vsid, page))
  }

  lemma OnlyOne(table: map<HashSlot, bv32>, slot: HashSlot, vsid: bv32, page: bv32)
    requires NoDuplicates(table)
    ensures OnlySlot(table, slot, vsid, page) <==>
              (HasPte(table, vsid, page) ==> Translates(table, slot, vsid, page))
  {
    hide Vsid, IsValid, PageAt;
  }

  lemma FoundOnly(table: map<HashSlot, bv32>, slot: HashSlot, vsid: bv32, page: bv32, mask: bv32, turn: nat)
    requires NoDuplicates(table) && Translates(table, slot, vsid, page)
    ensures OnlySlot(table, slot, vsid, page) && Replaceable(table, vsid, page, mask, true, turn)
  {
    hide NoDuplicates, Translates, HasPte;
    OnlyOne(table, slot, vsid, page);
  }

  /** A free slot translates nothing, so the slot chosen is the address's own exactly when
      it was stolen and holds its PTE. */
  lemma ChosenOnly(table: map<HashSlot, bv32>, slot: HashSlot, vsid: bv32, page: bv32, mask: bv32,
                   present: bool, turn: nat)
    requires NoDuplicates(table) && (present ==> !HasPte(table, vsid, page))
    requires Chosen(table, slot, Primary(vsid, page, mask), Secondary(vsid, page, mask), turn)
    ensures OnlySlot(table, slot, vsid, page) <==> Replaceable(table, vsid, page, mask, present, turn)
  {
    hide Vsid, IsValid, PageAt, Primary, Secondary, NoDuplicates;
    OnlyOne(table, slot, vsid, page);
  }

  class HostHash {
    const mask: bv32
    var pte0: map<HashSlot, bv32>
    var grabAdd: nat

    ghost predicate Ok()
      reads this
    {
      GroupMask(mask) && Groups(pte0, mask) && AllPlaced(pte0, mask) && NoDuplicates(pte0) && grabAdd < 8
    }

    /** The first slot of a group that holds a word, 8 when there is none. */
    method FindWord(group: bv32, w: bv32) returns (i: nat)
      requires Groups(pte0, mask) && InTable(group, mask)
      ensures i <= 8
      ensures if i < 8 then HashSlot(group, i) in pte0 && pte0[HashSlot(group, i)] == w
              else forall s :: s in pte0 && s.group == group ==> pte0[s] != w
    {
      hide InTable;
      i := 0;
      while i < 8 && pte0[HashSlot(group, i)] != w
        invariant i <= 8 && forall s :: s in pte0 && s.group == group && s.i < i ==> pte0[s] != w
      {
        i := i + 1;
      }
    }

    /** The first slot of a group whose PTE is not valid, 8 when there is none. */
    method FindFree(group: bv32) returns (i: nat)
      requires Groups(pte0, mask) && InTable(group, mask)
      ensures i <= 8
      ensures if i < 8 then HashSlot(group, i) in pte0 && FirstFree(pte0, HashSlot(group, i)) && !Full(pte0, group)
              else Full(pte0, group)
    {
      hide InTable, IsValid;
      i := 0;
      while i < 8 && IsValid(pte0[HashSlot(group, i)])
        invariant i <= 8 && forall s :: s in pte0 && s.group == group && s.i < i ==> IsValid(pte0[s])
      {
        i := i + 1;
      }
    }

    /** The search for an existing PTE, in the primary group and then in the secondary. */
    method FindPresent(vsid: bv32, page: bv32) returns (found: bool, slot: HashSlot, word: bv32)
      requires Ok() && Address(vsid, page)
      ensures found <==> HasPte(pte0, vsid, page)
      ensures found ==> Translates(pte0, slot, vsid, page) && pte0[slot] == word
      ensures found ==> PteOf(slot.group, word, vsid, page, mask)
    {
      hide Vsid, CompareWord, Primary, Secondary, IsValid, IsSecondary, PageAt, WellPlaced, GroupMask, InTable;
      hide Address, PteOf, Translates, Groups, AllPlaced, NoDuplicates;
      word := CompareWord(vsid, page);
      var primary, secondary := Primary(vsid, page, mask), Secondary(vsid, page, mask);
      GroupsInTable(vsid, page, mask);
      PlacedWords(vsid, page, mask);
      var i := FindWord(primary, word);
      slot, found := HashSlot(primary, i), i < 8;
      if !found {
        word := word | H_BIT;
        i := FindWord(secondary, word);
        slot, found := HashSlot(secondary, i), i < 8;
      }
      if found {
        MatchingSlot(pte0, mask, slot, vsid, page);
        assert Translates(pte0, slot, vsid, page);
      } else {
        NoMatch(pte0, mask, vsid, page);
      }
    }

    /** A free slot of the first group, else of the second, else one stolen from the first. */
    method ChooseSlot(primary: bv32, secondary: bv32) returns (slot: HashSlot, second: bool)
      requires Groups(pte0, mask) && InTable(primary, mask) && InTable(secondary, mask)
      modifies this`grabAdd
      ensures Chosen(pte0, slot, primary, secondary, (old(grabAdd) + 1) % 8)
      ensures slot.group == if second then secondary else primary
      ensures grabAdd == if IsValid(pte0[slot]) then (old(grabAdd) + 1) % 8 else old(grabAdd)
    {
      hide InTable, IsValid, Groups, Full;
      var i := FindFree(primary);
      slot, second := HashSlot(primary, i), false;
      if i == 8 {
        i := FindFree(secondary);
        slot, second := HashSlot(secondary, i), true;
        if i == 8 {
          slot, second := HashSlot(primary, (grabAdd + 1) % 8), false;
          StolenIsValid(pte0, mask, slot);
          grabAdd := slot.i;
        }
      }
    }

    /** find_pte_slot: the slot an address's PTE goes to, and its word.  With the flag
        set an existing PTE is found. */
    method FindPteSlot(vsid: bv32, page: bv32, present: bool) returns (slot: HashSlot, word: bv32, replaced: bool)
      requires Ok() && Address(vsid, page)
      modifies this`grabAdd
      ensures Ok() && slot in pte0 && PteOf(slot.group, word, vsid, page, mask)
      ensures replaced <==> present && HasPte(pte0, vsid, page)
      ensures replaced ==> Translates(pte0, slot, vsid, page) && pte0[slot] == word
      ensures !replaced ==>
                Chosen(pte0, slot, Primary(vsid, page, mask), Secondary(vsid, page, mask), (old(grabAdd) + 1) % 8)
      ensures grabAdd == if !replaced && IsValid(pte0[slot]) then (old(grabAdd) + 1) % 8 else old(grabAdd)
    {
      hide Vsid, CompareWord, Primary, Secondary, IsValid, IsSecondary, PageAt, WellPlaced, GroupMask, InTable;
      hide Address, PteOf, Groups, AllPlaced, NoDuplicates, Translates, HasPte;
      replaced := false;
      if present {
        replaced, slot, word := FindPresent(vsid, page);
        if replaced {
          TranslatesInTable(pte0, slot, vsid, page);
          return;
        }
      }
      GroupsInTable(vsid, page, mask);
      PlacedWords(vsid, page, mask);
      var second;
      slot, second := ChooseSlot(Primary(vsid, page, mask), Secondary(vsid, page, mask));
      word := CompareWord(vsid, page);
      if second {
        word := word | H_BIT;
      }
    }

    /** The store of insert_pte.  The table stays well placed, and it gets a second PTE
        for the address exactly when there was one, the flag did not say so, and it is
        not the case that both groups are full and the slot next to be stolen holds it. */
    method InsertPte(vsid: bv32, page: bv32, present: bool) returns (slot: HashSlot, word: bv32, replaced: bool)
      requires Ok() && Address(vsid, page)
      modifies this
      ensures slot in old(pte0) && pte0 == old(pte0)[slot := word] && PteOf(slot.group, word, vsid, page, mask)
      ensures Groups(pte0, mask) && AllPlaced(pte0, mask) && grabAdd < 8
      ensures Translates(pte0, slot, vsid, page)
      ensures forall s, v, p :: s != slot ==> (Translates(pte0, s, v, p) <==> Translates(old(pte0), s, v, p))
      ensures replaced <==> present && HasPte(old(pte0), vsid, page)
      ensures Ok() <==> OnlySlot(old(pte0), slot, vsid, page)
      ensures Ok() <==> Replaceable(old(pte0), vsid, page, mask, present, (old(grabAdd) + 1) % 8)
      ensures !replaced ==>
                Chosen(old(pte0), slot, Primary(vsid, page, mask), Secondary(vsid, page, mask), (old(grabAdd) + 1) % 8)
    {
      hide Vsid, CompareWord, Primary, Secondary, IsValid, IsSecondary, PageAt, WellPlaced, GroupMask, InTable;
      hide Address, PteOf, Groups, AllPlaced, NoDuplicates, OnlySlot, Replaceable, Full, Chosen;
      ghost var turn := (grabAdd + 1) % 8;
      slot, word, replaced := FindPteSlot(vsid, page, present);
      if replaced {
        FoundOnly(pte0, slot, vsid, page, mask, turn);
      } else {
        ChosenOnly(pte0, slot, vsid, page, mask, present, turn);
      }
      StoreKeepsPlaced(pte0, mask, slot, word, vsid, page);
      StoreDuplicates(pte0, mask, slot, word, vsid, page);
      pte0 := pte0[slot := word];
    }
  }

  /** init_hash: the mask of the host's table, from SDR1.  With the byte offsets inside a
      group it is the mask of the table that SDR1 describes. */
  function PtegMask(sdr1: bv32): (mask: bv32)
    ensures GroupMask(mask) && mask | 0x3f == Htab(sdr1)
  {
    (((sdr1 & 0x1ff) << 10) | 0x3ff) << 6
  }

  // --------------------------------------------------------------- the guest's table

  /** The byte offset of a PTE: its group's and eight bytes for each PTE before it. */
  function SlotOffset(group: bv32, i: nat): bv32
    requires i < 8
  {
    AddByte(group, SlotByte(i))
  }

  function AddByte(group: bv32, b: bv32): bv32 { group + b }

  function SlotByte(i: nat): (b: bv32)
    requires i < 8
    ensures b <= 56 && b & 7 == 0
  {
    [0, 8, 16, 24, 32, 40, 48, 56][i]
  }

  /** lookup_mac_pte masks the hash before it scales it. */
  function GuestMask(hashMask: bv32): bv32 { (hashMask >> 6) << 6 }

  /** The table as do_mtsdr1 leaves it: a power of two, at least 64K. */
  predicate TableMask(hashMask: bv32) {
    hashMask & (hashMask + 1) == 0 && hashMask & 0xffff == 0xffff && hashMask <= 0x1ff_ffff
  }

  /** The eight bytes of a PTE are inside the table. */
  predicate PteFits(offs: bv32, hashMask: bv32) { offs <= hashMask - 7 }

  predicate SameGroup(offs: bv32, group: bv32) { offs >> 6 == group >> 6 }

  lemma OffsetInGroup(group: bv32, i: nat, hashMask: bv32)
    requires i < 8 && TableMask(hashMask) && InTable(group, GuestMask(hashMask))
    ensures SameGroup(SlotOffset(group, i), group) && PteFits(SlotOffset(group, i), hashMask)
  {
    hide SlotByte, AddByte, TableMask, InTable, GuestMask, SameGroup, PteFits;
    ByteInGroup(group, SlotByte(i), hashMask);
  }

  lemma ByteInGroup(group: bv32, b: bv32, hashMask: bv32)
    requires b <= 56 && b & 7 == 0 && InTable(group, GuestMask(hashMask)) && TableMask(hashMask)
    ensures SameGroup(AddByte(group, b), group) && PteFits(AddByte(group, b), hashMask)
  {
  }

  function GroupPart(offs: bv32): bv32 { offs & 0xffff_ffc0 }
  function BytePart(offs: bv32): bv32 { offs & 0x3f }

  lemma OffsetParts(g: bv32, i: nat, hashMask: bv32)
    requires i < 8 && InTable(g, GuestMask(hashMask))
    ensures GroupPart(SlotOffset(g, i)) == g && BytePart(SlotOffset(g, i)) == SlotByte(i)
  {
    hide SlotByte, AddByte, InTable, GuestMask, GroupPart, BytePart;
    GroupStart(g, hashMask);
    ByteAdded(g, SlotByte(i));
  }

  lemma GroupStart(g: bv32, hashMask: bv32)
    requires InTable(g, GuestMask(hashMask))
    ensures g & 0x3f == 0
  {
  }

  lemma ByteAdded(g: bv32, b: bv32)
    requires b <= 56 && g & 0x3f == 0
    ensures GroupPart(AddByte(g, b)) == g && BytePart(AddByte(g, b)) == b
  {
  }

  lemma SlotBytesApart(i: nat, j: nat)
    requires i < 8 && j < 8 && SlotByte(i) == SlotByte(j)
    ensures i == j
  {
  }

  /** No two PTEs of a table share an offset. */
  lemma OffsetsApart(g: bv32, i: nat, h: bv32, j: nat, hashMask: bv32)
    requires i < 8 && j < 8 && InTable(g, GuestMask(hashMask)) && InTable(h, GuestMask(hashMask))
    requires SlotOffset(g, i) == SlotOffset(h, j)
    ensures g == h && i == j
  {
    hide *;
    OffsetParts(g, i, hashMask);
    OffsetParts(h, j, hashMask);
    SlotBytesApart(i, j);
  }

  lemma GuestGroups(hashMask: bv32)
    requires TableMask(hashMask)
    ensures GroupMask(GuestMask(hashMask))
  {
  }

  /** The page index of an address. */
  function PageIndex(ea: bv32): bv32 { (ea & 0x0fff_f000) >> 12 }

  lemma PageIndexFits(ea: bv32)
    ensures PageIndex(ea) & 0xffff_0000 == 0
  {
  }

  lemma PageIndexBack(ea: bv32)
    ensures PageIndex(ea) << 12 == ea & 0x0fff_f000
  {
  }

  lemma PageIndexApi(ea: bv32)
    ensures (ea & 0x0fff_f000) >> 22 == PageIndex(ea) >> 10
  {
  }

  lemma ScaledHash(h: bv32, hashMask: bv32)
    ensures ((h & (hashMask >> 6)) << 6) == (h << 6) & GuestMask(hashMask)
  {
  }

  lemma SameGroupSamePage(offs: bv32, group: bv32, w: bv32)
    requires SameGroup(offs, group)
    ensures PageAt(offs, w) == PageAt(group, w)
  {
  }

  /** do_intercept_tlbie: the VSID and the address it flushes for a PTE at an offset. */
  function InterceptTlbie(pte0: bv32, pteoffs: bv32): (bv32, bv32) {
    (Vsid(pte0), PageAt(pteoffs, pte0) << 12)
  }

  /** A PTE of the address at a byte offset of the guest's table. */
  ghost predicate GuestPte(hash: map<bv32, bv32>, hashMask: bv32, group: bv32, i: nat, vsid: bv32, ea: bv32) {
    InTable(group, GuestMask(hashMask)) && i < 8 && SlotOffset(group, i) in hash &&
    PteOf(group, hash[SlotOffset(group, i)], vsid, PageIndex(ea), GuestMask(hashMask))
  }

  /** What the guest's store into a PTE tells of the address: exactly the address whose
      look-up the PTE answers. */
  lemma TlbieRebuilds(hash: map<bv32, bv32>, hashMask: bv32, group: bv32, i: nat, vsid: bv32, ea: bv32)
    requires TableMask(hashMask) && GuestPte(hash, hashMask, group, i, vsid, ea)
    ensures InterceptTlbie(hash[SlotOffset(group, i)], SlotOffset(group, i)) == (vsid, ea & 0x0fff_f000)
  {
    hide TableMask, InTable, GuestMask, SlotOffset, Vsid, PageAt, PageIndex, IsValid, WellPlaced, SameGroup, PteFits;
    OffsetInGroup(group, i, hashMask);
    SameGroupSamePage(SlotOffset(group, i), group, hash[SlotOffset(group, i)]);
    PageIndexBack(ea);
  }

  /** The group and the word that lookup_mac_pte probes first, and the group it probes next. */
  function ProbeGroup(vsid: bv32, ea: bv32, hashMask: bv32): bv32 {
    ((((ea & 0x0fff_f000) >> 12) ^ (vsid & 0x7_ffff)) & (hashMask >> 6)) << 6
  }

  function ProbeWord(vsid: bv32, ea: bv32): bv32 {
    0x8000_0000 | (vsid << 7) | ((ea & 0x0fff_f000) >> 22)
  }

  function OtherGroup(pteg: bv32, hashMask: bv32): bv32 { pteg ^ GuestMask(hashMask) }

  lemma ProbeIsPrimary(vsid: bv32, ea: bv32, hashMask: bv32)
    ensures ProbeGroup(vsid, ea, hashMask) == Primary(vsid, PageIndex(ea), GuestMask(hashMask))
  {
    ScaledHash(((ea & 0x0fff_f000) >> 12) ^ (vsid & 0x7_ffff), hashMask);
  }

  lemma OtherIsSecondary(vsid: bv32, ea: bv32, hashMask: bv32)
    ensures OtherGroup(ProbeGroup(vsid, ea, hashMask), hashMask) == Secondary(vsid, PageIndex(ea), GuestMask(hashMask))
  {
    hide *;
    ProbeIsPrimary(vsid, ea, hashMask);
    OtherOfPrimary(vsid, PageIndex(ea), hashMask);
  }

  lemma OtherOfPrimary(vsid: bv32, page: bv32, hashMask: bv32)
    ensures OtherGroup(Primary(vsid, page, GuestMask(hashMask)), hashMask) == Secondary(vsid, page, GuestMask(hashMask))
  {
    hide Primary, GuestMask;
  }

  /** The groups that lookup_mac_pte probes are those that the hash of the address names. */
  lemma ProbeHashBits(vsid: bv32, ea: bv32, hashMask: bv32)
    ensures var g, gm := ProbeGroup(vsid, ea, hashMask), GuestMask(hashMask);
            HashesTo(g, vsid, PageIndex(ea), gm, false) &&
            HashesTo(OtherGroup(g, hashMask), vsid, PageIndex(ea), gm, true)
  {
    hide *;
    ProbeIsPrimary(vsid, ea, hashMask);
    OtherIsSecondary(vsid, ea, hashMask);
    HashBits(vsid, PageIndex(ea), GuestMask(hashMask));
  }

  lemma ProbeIsWord(vsid: bv32, ea: bv32)
    ensures ProbeWord(vsid, ea) == CompareWord(vsid, PageIndex(ea))
  {
    PageIndexApi(ea);
  }

  /** Both probes are inside the table, and their words stand for the address. */
  lemma GuestProbes(vsid: bv32, ea: bv32, hashMask: bv32)
    requires TableMask(hashMask) && vsid & 0xff00_0000 == 0
    ensures var page, gm := PageIndex(ea), GuestMask(hashMask);
            InTable(Primary(vsid, page, gm), gm) && InTable(Secondary(vsid, page, gm), gm) &&
            PteOf(Primary(vsid, page, gm), CompareWord(vsid, page), vsid, page, gm) &&
            PteOf(Secondary(vsid, page, gm), CompareWord(vsid, page) | H_BIT, vsid, page, gm)
  {
    hide *;
    PageIndexFits(ea);
    GuestGroups(hashMask);
    GroupsInTable(vsid, PageIndex(ea), GuestMask(hashMask));
    Placed(vsid, PageIndex(ea), GuestMask(hashMask));
  }

  /** The same of the groups and the word as lookup_mac_pte computes them. */
  lemma ProbesFit(vsid: bv32, ea: bv32, hashMask: bv32)
    requires TableMask(hashMask) && vsid & 0xff00_0000 == 0
    ensures var page, gm := PageIndex(ea), GuestMask(hashMask);
            var g, w := ProbeGroup(vsid, ea, hashMask), ProbeWord(vsid, ea);
            InTable(g, gm) && InTable(OtherGroup(g, hashMask), gm) &&
            PteOf(g, w, vsid, page, gm) && PteOf(OtherGroup(g, hashMask), w | H_BIT, vsid, page, gm)
  {
    hide *;
    ProbeIsPrimary(vsid, ea, hashMask);
    OtherIsSecondary(vsid, ea, hashMask);
    ProbeIsWord(vsid, ea);
    GuestProbes(vsid, ea, hashMask);
  }

  lemma NoneAtProbes(hash: map<bv32, bv32>, hashMask: bv32, vsid: bv32, ea: bv32)
    requires TableMask(hashMask) && vsid & 0xff00_0000 == 0
    requires forall j: nat :: j < 8 ==>
               var o := SlotOffset(ProbeGroup(vsid, ea, hashMask), j); o in hash && hash[o] != ProbeWord(vsid, ea)
    requires forall j: nat :: j < 8 ==>
               var o := SlotOffset(OtherGroup(ProbeGroup(vsid, ea, hashMask), hashMask), j);
               o in hash && hash[o] != ProbeWord(vsid, ea) | H_BIT
    ensures !GuestHasPte(hash, hashMask, vsid, ea)
  {
    hide *;
    ProbeIsPrimary(vsid, ea, hashMask);
    OtherIsSecondary(vsid, ea, hashMask);
    ProbeIsWord(vsid, ea);
    NoProbes(hash, hashMask, vsid, ea);
  }

  lemma Answered(hash: map<bv32, bv32>, hashMask: bv32, group: bv32, i: nat, vsid: bv32, ea: bv32)
    requires TableMask(hashMask) && InTable(group, GuestMask(hashMask)) && i < 8 && SlotOffset(group, i) in hash
    requires PteOf(group, hash[SlotOffset(group, i)], vsid, PageIndex(ea), GuestMask(hashMask))
    ensures GuestHasPte(hash, hashMask, vsid, ea) && PteFits(SlotOffset(group, i), hashMask)
    ensures AnswersAt(hash, hashMask, SlotOffset(group, i), vsid, ea)
    ensures InterceptTlbie(hash[SlotOffset(group, i)], SlotOffset(group, i)) == (vsid, ea & 0x0fff_f000)
  {
    hide TableMask, InTable, GuestMask, SlotOffset, PageIndex, PteOf, InterceptTlbie, SameGroup, PteFits;
    OffsetInGroup(group, i, hashMask);
    assert GuestPte(hash, hashMask, group, i, vsid, ea);
    TlbieRebuilds(hash, hashMask, group, i, vsid, ea);
  }

  /** A PTE of the address is one of the two words in one of the two groups probed. */
  lemma OnlyProbes(hash: map<bv32, bv32>, hashMask: bv32, g: bv32, i: nat, vsid: bv32, ea: bv32)
    requires TableMask(hashMask) && vsid & 0xff00_0000 == 0
    ensures GuestPte(hash, hashMask, g, i, vsid, ea) ==>
              i < 8 && SlotOffset(g, i) in hash &&
              var page, gm := PageIndex(ea), GuestMask(hashMask);
              (g == Primary(vsid, page, gm) && hash[SlotOffset(g, i)] == CompareWord(vsid, page)) ||
              (g == Secondary(vsid, page, gm) && hash[SlotOffset(g, i)] == CompareWord(vsid, page) | H_BIT)
  {
    hide TableMask, InTable, GuestMask, SlotOffset, Vsid, PageAt, PageIndex, IsValid, WellPlaced, GroupMask;
    hide Primary, Secondary, CompareWord, IsSecondary;
    if GuestPte(hash, hashMask, g, i, vsid, ea) {
      PageIndexFits(ea);
      GuestGroups(hashMask);
      OnlyTwoPlaces(vsid, PageIndex(ea), GuestMask(hashMask), g, hash[SlotOffset(g, i)]);
    }
  }

  ghost predicate GuestHasPte(hash: map<bv32, bv32>, hashMask: bv32, vsid: bv32, ea: bv32) {
    exists g, i: nat :: GuestPte(hash, hashMask, g, i, vsid, ea)
  }

  /** The byte offset of a PTE of the address. */
  ghost predicate AnswersAt(hash: map<bv32, bv32>, hashMask: bv32, offs: bv32, vsid: bv32, ea: bv32) {
    exists g, i: nat :: GuestPte(hash, hashMask, g, i, vsid, ea) && SlotOffset(g, i) == offs
  }

  lemma NoProbes(hash: map<bv32, bv32>, hashMask: bv32, vsid: bv32, ea: bv32)
    requires TableMask(hashMask) && vsid & 0xff00_0000 == 0
    requires forall j: nat :: j < 8 ==>
               var o := SlotOffset(Primary(vsid, PageIndex(ea), GuestMask(hashMask)), j);
               o in hash && hash[o] != CompareWord(vsid, PageIndex(ea))
    requires forall j: nat :: j < 8 ==>
               var o := SlotOffset(Secondary(vsid, PageIndex(ea), GuestMask(hashMask)), j);
               o in hash && hash[o] != CompareWord(vsid, PageIndex(ea)) | H_BIT
    ensures !GuestHasPte(hash, hashMask, vsid, ea)
  {
    hide TableMask, GuestMask, SlotOffset, PageIndex, Primary, Secondary, CompareWord, GuestPte;
    forall g, j: nat
      ensures !GuestPte(hash, hashMask, g, j, vsid, ea)
    {
      OnlyProbes(hash, hashMask, g, j, vsid, ea);
    }
  }

  /** The mask that HTABMASK, the low nine bits of SDR1, stands for. */
  function Htab(value: bv32): bv32 { ((value & 0x1ff) << 16) | 0xffff }

  /** A value that describes a table: HTABMASK is a run of ones, and the base has a
      zero wherever the mask has a one. */
  predicate Architected(value: bv32) {
    (value & 0x1ff) & ((value & 0x1ff) + 1) == 0 && (value >> 16) & (value & 0x1ff) == 0
  }

  predicate Highest(value: bv32, mask: bv32) {
    mask & (mask - 1) == 0 && mask <= 0x100 && mask & value == mask &&
    if mask == 0 then value & 0x1ff == 0 else value & 0x1ff & !(mask | (mask - 1)) == 0
  }

  /** The highest bit of HTABMASK becomes a run of ones. */
  function Spread(bit: bv32): bv32 {
    if bit != 0 then ((bit | (bit - 1)) << 16) | 0xffff else 0xffff
  }

  function Base(value: bv32, mask: bv32): bv32 { value & !mask }

  function EndOf(mbase: bv32, mask: bv32): bv32 { mbase + mask }

  /** The address of the last byte of an aligned table. */
  function LastByte(mbase: bv32, mask: bv32): bv32 { mbase | mask }

  predicate Below(a: bv32, b: bv32) { a < b }

  predicate Aligned(mbase: bv32, mask: bv32) { mbase & mask == 0 }

  function Htaborg(value: bv32): bv32 { value & 0xffff_0000 }

  /** RAM of at least 64K. */
  predicate EnoughRam(ramSize: bv32) { ramSize >= 0x1_0000 }

  lemma SpreadIsMask(value: bv32, bit: bv32)
    requires Highest(value, bit)
    ensures TableMask(Spread(bit))
  {
  }

  lemma SpreadIsHtab(value: bv32, bit: bv32)
    requires Highest(value, bit) && Architected(value)
    ensures Spread(bit) == Htab(value)
  {
  }

  lemma BaseAligned(value: bv32, mask: bv32)
    ensures Aligned(Base(value, mask), mask)
  {
  }

  lemma AlignedEnd(mbase: bv32, mask: bv32)
    requires Aligned(mbase, mask)
    ensures EndOf(mbase, mask) == LastByte(mbase, mask)
  {
    AddIsOr(mbase, mask);
  }

  lemma AddIsOr(a: bv32, b: bv32)
    requires a & b == 0
    ensures a + b == a | b
  {
  }

  lemma HtabBase(value: bv32)
    requires Architected(value)
    ensures Base(value, Htab(value)) == Htaborg(value)
  {
  }

  lemma SafeSetting(ramSize: bv32)
    requires EnoughRam(ramSize)
    ensures TableMask(0xffff) && Aligned(0, 0xffff) && Below(LastByte(0, 0xffff), ramSize)
  {
  }

  lemma ByteMasked(hashMask: bv32, offs: bv32)
    requires TableMask(hashMask) && offs <= hashMask
    ensures offs & hashMask == offs
  {
  }

  lemma MaskedBelow(mbase: bv32, hashMask: bv32, offs: bv32)
    requires Aligned(mbase, hashMask) && offs & hashMask == offs
    ensures mbase + offs <= LastByte(mbase, hashMask)
  {
  }

  /** No byte of the table is beyond its last byte. */
  lemma InsideTable(mbase: bv32, hashMask: bv32, offs: bv32)
    requires Aligned(mbase, hashMask) && TableMask(hashMask) && offs <= hashMask
    ensures mbase + offs <= LastByte(mbase, hashMask)
  {
    hide *;
    ByteMasked(hashMask, offs);
    MaskedBelow(mbase, hashMask, offs);
  }

  class GuestMmu {
    const ramSize: bv32
    var sdr1: bv32
    var hashMbase: bv32
    var hashMask: bv32
    var mapped: bool
    var hash: map<bv32, bv32>

    /** Every PTE of the table can be read. */
    ghost predicate Ok()
      reads this
    {
      TableMask(hashMask) &&
      forall g, i: nat :: InTable(g, GuestMask(hashMask)) && i < 8 ==> SlotOffset(g, i) in hash
    }

    /** The first PTE of a group that holds a word, 8 when there is none. */
    method SearchGroup(group: bv32, cmp: bv32) returns (i: nat)
      requires Ok() && InTable(group, GuestMask(hashMask))
      ensures i <= 8 && (i < 8 ==> hash[SlotOffset(group, i)] == cmp)
      ensures forall j: nat :: j < i ==> hash[SlotOffset(group, j)] != cmp
    {
      hide TableMask, InTable, GuestMask, SlotOffset;
      i := 0;
      while i < 8 && hash[SlotOffset(group, i)] != cmp
        invariant i <= 8 && forall j: nat :: j < i ==> hash[SlotOffset(group, j)] != cmp
      {
        i := i + 1;
      }
    }

    /** One word in one group, else another in another. */
    method SearchBoth(primary: bv32, cmp: bv32, secondary: bv32, cmpH: bv32) returns (found: bool, group: bv32, i: nat)
      requires Ok() && InTable(primary, GuestMask(hashMask)) && InTable(secondary, GuestMask(hashMask))
      ensures found ==> i < 8 && SlotOffset(group, i) in hash
      ensures found ==>
                || (group == primary && hash[SlotOffset(group, i)] == cmp)
                || (group == secondary && hash[SlotOffset(group, i)] == cmpH)
      ensures !found ==>
                forall j: nat :: j < 8 ==> SlotOffset(primary, j) in hash && hash[SlotOffset(primary, j)] != cmp
      ensures !found ==>
                forall j: nat :: j < 8 ==> SlotOffset(secondary, j) in hash && hash[SlotOffset(secondary, j)] != cmpH
    {
      hide TableMask, InTable, GuestMask, SlotOffset;
      i := SearchGroup(primary, cmp);
      found, group := i < 8, primary;
      if !found {
        i := SearchGroup(secondary, cmpH);
        found, group := i < 8, secondary;
      }
    }

    /** The two groups of an address are searched for its words. */
    method SearchProbes(vsid: bv32, ea: bv32) returns (found: bool, group: bv32, i: nat)
      requires Ok() && vsid & 0xff00_0000 == 0
      ensures found ==> i < 8 && InTable(group, GuestMask(hashMask)) && SlotOffset(group, i) in hash
      ensures found ==> PteOf(group, hash[SlotOffset(group, i)], vsid, PageIndex(ea), GuestMask(hashMask))
      ensures !found ==> !GuestHasPte(hash, hashMask, vsid, ea)
    {
      hide TableMask, GuestMask, InTable, SlotOffset, Vsid, PageAt, PageIndex, IsValid, WellPlaced, Primary, Secondary;
      hide CompareWord, PteOf, InterceptTlbie, ProbeGroup, ProbeWord, OtherGroup, GuestPte, GuestHasPte;
      var pteg, cmp := ProbeGroup(vsid, ea, hashMask), ProbeWord(vsid, ea);
      ProbesFit(vsid, ea, hashMask);
      found, group, i := SearchBoth(pteg, cmp, OtherGroup(pteg, hashMask), cmp | H_BIT);
      if !found {
        NoneAtProbes(hash, hashMask, vsid, ea);
      }
    }

    /** lookup_mac_pte: finds a PTE of the address exactly when the table is mapped and
        has one; the store that would clear it makes MOL flush that very address. */
    method LookupMacPte(vsid: bv32, ea: bv32) returns (offs: Option<bv32>)
      requires Ok() && vsid & 0xff00_0000 == 0
      ensures offs.Some? <==> mapped && GuestHasPte(hash, hashMask, vsid, ea)
      ensures offs.Some? ==> AnswersAt(hash, hashMask, offs.value, vsid, ea)
      ensures offs.Some? ==> offs.value in hash && PteFits(offs.value, hashMask)
      ensures offs.Some? ==> InterceptTlbie(hash[offs.value], offs.value) == (vsid, ea & 0x0fff_f000)
    {
      hide TableMask, GuestMask, InTable, SlotOffset, Vsid, PageAt, PageIndex, IsValid, WellPlaced, Primary, Secondary;
      hide CompareWord, PteOf, InterceptTlbie, ProbeGroup, ProbeWord, OtherGroup, GuestPte, GuestHasPte, AnswersAt;
      if !mapped {
        return None;
      }
      var found, group, i := SearchProbes(vsid, ea);
      if found {
        Answered(hash, hashMask, group, i, vsid, ea);
        return Some(SlotOffset(group, i));
      }
      offs := None;
    }

    /** The highest of bits 23 to 31 of SDR1 that is set, 0 when none is. */
    static method HighestBit(value: bv32) returns (mask: bv32)
      ensures Highest(value, mask)
    {
      mask := 0x100;
      while mask != 0 && mask & value == 0
        invariant mask & (mask - 1) == 0 && mask <= 0x100
        invariant if mask == 0 then value & 0x1ff == 0 else value & 0x1ff & !(mask | (mask - 1)) == 0
        decreases mask
      {
        mask := mask >> 1;
      }
    }

    /** The base and the mask that do_mtsdr1 derives from a value of SDR1. */
    static method DeriveHash(value: bv32, ramSize: bv32) returns (mbase: bv32, mask: bv32)
      requires EnoughRam(ramSize)
      ensures TableMask(mask) && Aligned(mbase, mask) && Below(LastByte(mbase, mask), ramSize)
      ensures Architected(value) && Below(LastByte(Htaborg(value), Htab(value)), ramSize) ==>
                mask == Htab(value) && mbase == Htaborg(value)
    {
      hide *;
      var bit := HighestBit(value);
      mask := Spread(bit);
      mbase := Base(value, mask);
      SpreadIsMask(value, bit);
      BaseAligned(value, mask);
      AlignedEnd(mbase, mask);
      if Architected(value) {
        SpreadIsHtab(value, bit);
        HtabBase(value);
      }
      if !Below(EndOf(mbase, mask), ramSize) {
        mbase, mask := 0, 0xffff;
        SafeSetting(ramSize);
      }
    }

    /** do_mtsdr1: whatever value the guest writes, the table is a power of two, aligned
        to its size, and inside RAM; a value that describes such a table is honoured. */
    method Mtsdr1(value: bv32)
      requires EnoughRam(ramSize)
      modifies this`sdr1, this`hashMbase, this`hashMask
      ensures sdr1 == value && TableMask(hashMask) && Aligned(hashMbase, hashMask)
      ensures Below(LastByte(hashMbase, hashMask), ramSize)
      ensures Architected(value) && Below(LastByte(Htaborg(value), Htab(value)), ramSize) ==>
                hashMask == Htab(value) && hashMbase == Htaborg(value)
    {
      hide *;
      sdr1 := value;
      hashMbase, hashMask := DeriveHash(value, ramSize);
    }
  }
}
