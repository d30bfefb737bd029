/**
 The order of HFS Plus catalog keys.

 The case table is a parameter: it folds a character to the one it is compared as, or to
 0 when the character is ignored.
 */
module HfsNames {

  type Fold = nat -> nat

  /** A name as it is compared: folded, without the characters to ignore. */
  function Folded(fold: Fold, s: seq<nat>): seq<nat> {
    if s == [] then [] else if fold(s[0]) == 0 then Folded(fold, s[1..]) else [fold(s[0])] + Folded(fold, s[1..])
  }

  lemma {:induction false} FoldedAppend(fold: Fold, a: seq<nat>, b: seq<nat>)
    ensures Folded(fold, a + b) == Folded(fold, a) + Folded(fold, b)
  {
    if a == [] {
      assert a + b == b;
    } else {
      assert (a + b)[1..] == a[1..] + b;
      FoldedAppend(fold, a[1..], b);
    }
  }

  lemma FoldedOne(fold: Fold, c: nat)
    ensures Folded(fold, [c]) == if fold(c) == 0 then [] else [fold(c)]
  {
    assert [c][1..] == [];
  }

  /** Names that differ in case only. */
  ghost predicate SameFolds(fold: Fold, a: seq<nat>, b: seq<nat>) {
    |a| == |b| && forall i :: 0 <= i < |a| ==> fold(a[i]) == fold(b[i])
  }

  lemma {:induction false} SameFolded(fold: Fold, a: seq<nat>, b: seq<nat>)
    requires SameFolds(fold, a, b)
    ensures Folded(fold, a) == Folded(fold, b)
  {
    if a != [] {
      SameFolded(fold, a[1..], b[1..]);
    }
  }

  /** A character to ignore changes no comparison, wherever it stands. */
  lemma IgnoredAnywhere(fold: Fold, a: seq<nat>, c: nat, b: seq<nat>, other: seq<nat>)
    requires fold(c) == 0
    ensures Lex(Folded(fold, a + [c] + b), Folded(fold, other)) == Lex(Folded(fold, a + b), Folded(fold, other))
    ensures Lex(Folded(fold, other), Folded(fold, a + [c] + b)) == Lex(Folded(fold, other), Folded(fold, a + b))
  {
    FoldedOne(fold, c);
    FoldedAppend(fold, a, [c]);
    FoldedAppend(fold, a + [c], b);
    FoldedAppend(fold, a, b);
    assert Folded(fold, a + [c] + b) == Folded(fold, a + b);
  }

  /** Lexicographic order: negative, zero or positive. */
  function Lex(a: seq<nat>, b: seq<nat>): int {
    if a == [] then if b == [] then 0 else -1
    else if b == [] then 1
    else if a[0] != b[0] then if a[0] < b[0] then -1 else 1
    else Lex(a[1..], b[1..])
  }

  /** The next character that counts, or 0 at the end of a string. */
  method NextChar(fold: Fold, s: seq<nat>, from: nat) returns (c: nat, pos: nat)
    requires from <= |s|
    ensures from <= pos <= |s| && (c == 0 ==> pos == |s|)
    ensures Folded(fold, s[from..]) == if c == 0 then [] else [c] + Folded(fold, s[pos..])
    ensures c == 0 || from < pos
  {
    c, pos := 0, from;
    while pos < |s| && c == 0
      invariant from <= pos <= |s| && (c != 0 ==> from < pos)
      invariant Folded(fold, s[from..]) == if c == 0 then Folded(fold, s[pos..]) else [c] + Folded(fold, s[pos..])
    {
      assert s[pos..][0] == s[pos] && s[pos..][1..] == s[pos + 1..];
      c := fold(s[pos]);
      pos := pos + 1;
    }
  }

  /** FastUnicodeCompare. */
  method FastUnicodeCompare(fold: Fold, a: seq<nat>, b: seq<nat>) returns (r: int)
    ensures r == Lex(Folded(fold, a), Folded(fold, b))
    ensures SameFolds(fold, a, b) ==> r == 0
  {
    if SameFolds(fold, a, b) {
      SameFolded(fold, a, b);
      LexEqual(Folded(fold, a), Folded(fold, b));
    }
    var i, j := 0, 0;
    assert a[0..] == a && b[0..] == b;
    while true
      invariant i <= |a| && j <= |b|
      invariant Lex(Folded(fold, a), Folded(fold, b)) == Lex(Folded(fold, a[i..]), Folded(fold, b[j..]))
      decreases |a| - i + |b| - j
    {
      var c1, c2;
      ghost var fa, fb := Folded(fold, a[i..]), Folded(fold, b[j..]);
      c1, i := NextChar(fold, a, i);
      c2, j := NextChar(fold, b, j);
      FirstDiffers(fa, fb, c1, c2, Folded(fold, a[i..]), Folded(fold, b[j..]));
      if c1 != c2 {
        return if c1 < c2 then -1 else 1;
      }
      if c1 == 0 {
        return 0;
      }
    }
  }

  /** One round of the comparison, with 0 standing for the end. */
  lemma FirstDiffers(fa: seq<nat>, fb: seq<nat>, c1: nat, c2: nat, ra: seq<nat>, rb: seq<nat>)
    requires fa == (if c1 == 0 then [] else [c1] + ra) && fb == (if c2 == 0 then [] else [c2] + rb)
    ensures Lex(fa, fb) == if c1 != c2 then if c1 < c2 then -1 else 1 else if c1 == 0 then 0 else Lex(ra, rb)
  {
  }

  /** The first characters that count and differ after folding decide, and an end comes
      before any character. */
  lemma {:induction false} FirstDifference(p: seq<nat>, x: nat, q: seq<nat>, y: nat, r: seq<nat>)
    requires x < y
    ensures Lex(p + [x] + q, p + [y] + r) == -1 && Lex(p + [y] + r, p + [x] + q) == 1
    ensures Lex(p, p + [x] + q) == -1 && Lex(p + [x] + q, p) == 1
  {
    if p == [] {
      assert p + [x] + q == [x] + q && p + [y] + r == [y] + r;
    } else {
      FirstDifference(p[1..], x, q, y, r);
      assert (p + [x] + q)[1..] == p[1..] + [x] + q && (p + [y] + r)[1..] == p[1..] + [y] + r;
    }
  }

  /** Names that agree, up to case and characters to ignore, before a character that folds
      lower in one of them. */
  lemma NamesDiffer(fold: Fold, p: seq<nat>, x: nat, q: seq<nat>, p': seq<nat>, y: nat, r: seq<nat>)
    requires Folded(fold, p) == Folded(fold, p') && 0 < fold(x) < fold(y)
    ensures Lex(Folded(fold, p + [x] + q), Folded(fold, p' + [y] + r)) == -1
    ensures Lex(Folded(fold, p), Folded(fold, p' + [y] + r)) == -1
  {
    FoldedOne(fold, x);
    FoldedOne(fold, y);
    FoldedAppend(fold, p, [x]);
    FoldedAppend(fold, p + [x], q);
    FoldedAppend(fold, p', [y]);
    FoldedAppend(fold, p' + [y], r);
    FirstDifference(Folded(fold, p), fold(x), Folded(fold, q), fold(y), Folded(fold, r));
    FirstDifference(Folded(fold, p), fold(y), Folded(fold, r), fold(y) + 1, []);
  }

  // --------------------------------------------------------------------- catalog keys

  datatype CatalogKey = CatalogKey(parent: nat, name: seq<nat>)

  /** CompareHFSPlusCatalogKeys, on parent IDs below 2^31. */
  function Compare(fold: Fold, a: CatalogKey, b: CatalogKey): int {
    if a.parent > b.parent then 1
    else if a.parent < b.parent then -1
    else if a.name == [] || b.name == [] then |a.name| - |b.name|
    else Lex(Folded(fold, a.name), Folded(fold, b.name))
  }

  /** A comparison that orders keys: of two, one is not above the other, and keys that
      compare equal compare alike with every other. */
  ghost predicate TotalPreorder<K(!new)>(cmp: (K, K) -> int) {
    (forall a, b :: cmp(a, b) <= 0 <==> cmp(b, a) >= 0) &&
    (forall a, b, c :: cmp(a, b) <= 0 && cmp(b, c) <= 0 ==> cmp(a, c) <= 0)
  }

  lemma {:induction false} LexOpposite(a: seq<nat>, b: seq<nat>)
    ensures Lex(a, b) == -Lex(b, a)
  {
    if a != [] && b != [] && a[0] == b[0] {
      LexOpposite(a[1..], b[1..]);
    }
  }

  lemma {:induction false} LexTransitive(a: seq<nat>, b: seq<nat>, c: seq<nat>)
    requires Lex(a, b) <= 0 && Lex(b, c) <= 0
    ensures Lex(a, c) <= 0
  {
    if a != [] && b != [] && c != [] && a[0] == b[0] == c[0] {
      LexTransitive(a[1..], b[1..], c[1..]);
    }
  }

  /** Only a sequence is equal to itself in lexicographic order. */
  lemma {:induction false} LexEqual(a: seq<nat>, b: seq<nat>)
    ensures Lex(a, b) == 0 <==> a == b
  {
    if a != [] && b != [] && a[0] == b[0] {
      LexEqual(a[1..], b[1..]);
      assert a == [a[0]] + a[1..] && b == [b[0]] + b[1..];
    }
  }

  lemma CompareOpposite(fold: Fold, a: CatalogKey, b: CatalogKey)
    ensures Compare(fold, a, b) == -Compare(fold, b, a)
  {
    LexOpposite(Folded(fold, a.name), Folded(fold, b.name));
  }

  lemma CompareTransitive(fold: Fold, a: CatalogKey, b: CatalogKey, c: CatalogKey)
    requires Compare(fold, a, b) <= 0 && Compare(fold, b, c) <= 0
    ensures Compare(fold, a, c) <= 0
  {
    if a.parent == b.parent == c.parent && a.name != [] && b.name != [] && c.name != [] {
      LexTransitive(Folded(fold, a.name), Folded(fold, b.name), Folded(fold, c.name));
    }
  }

  /** Catalog keys are totally preordered, by folder first; a folder's own key, which has no
      name, comes before the names in it. */
  lemma CatalogOrder(fold: Fold)
    ensures TotalPreorder((a, b) => Compare(fold, a, b))
    ensures forall a: CatalogKey, b: CatalogKey :: a.parent < b.parent ==> Compare(fold, a, b) < 0
    ensures forall a: CatalogKey, b: CatalogKey :: a.parent == b.parent && a.name == [] && b.name != [] ==>
              Compare(fold, a, b) < 0
  {
    forall a: CatalogKey, b: CatalogKey
      ensures Compare(fold, a, b) <= 0 <==> Compare(fold, b, a) >= 0
    {
      CompareOpposite(fold, a, b);
    }
    forall a: CatalogKey, b: CatalogKey, c: CatalogKey | Compare(fold, a, b) <= 0 && Compare(fold, b, c) <= 0
      ensures Compare(fold, a, c) <= 0
    {
      CompareTransitive(fold, a, b, c);
    }
  }

  /** Keys that compare equal: the same folder, and names that are both empty or differ
      only in case and in characters to ignore. */
  lemma CompareEqual(fold: Fold, a: CatalogKey, b: CatalogKey)
    ensures Compare(fold, a, b) == 0 <==>
              a.parent == b.parent && (a.name == [] <==> b.name == []) && Folded(fold, a.name) == Folded(fold, b.name)
  {
    LexEqual(Folded(fold, a.name), Folded(fold, b.name));
  }

  // --------------------------------------------------------------------- extents keys

  datatype ExtentsKey = ExtentsKey(file: nat, fork: nat, startBlock: nat)

  /** CompareHFSPlusExtentsKeys and CompareHFSExtentsKeys. */
  function CompareExtents(a: ExtentsKey, b: ExtentsKey): int {
    if a.file == b.file then
      if a.fork == b.fork then
        if a.startBlock == b.startBlock then 0 else if a.startBlock > b.startBlock then 1 else -1
      else if a.fork > b.fork then 1 else -1
    else if a.file > b.file then 1 else -1
  }

  /** Extents keys are totally ordered: by file, by fork in one file, by first block in one
      fork. */
  lemma ExtentsOrder()
    ensures TotalPreorder(CompareExtents)
    ensures forall a, b :: CompareExtents(a, b) == 0 <==> a == b
    ensures forall a, b :: CompareExtents(a, b) < 0 <==>
              || a.file < b.file
              || (a.file == b.file && a.fork < b.fork)
              || (a.file == b.file && a.fork == b.fork && a.startBlock < b.startBlock)
  {
  }
}
