/**
 The levels and the free list of a skiplist as values.

 Elements are named by numbers.  Level l is a map from each element that has a link of
 that level to the element the link names; the root has a link at every level.
 */
module SkipListShapes {

  datatype Node = Null | Root | Nil | El(id: nat)

  type Level = map<Node, Node>

  const MAX_HEIGHT := 16
  const INT_MAX := 0x7fff_ffff
  const INT_MIN := -0x8000_0000

  /** The key an element is compared by; the root is before every key. */
  function KeyOf(key: map<Node, int>, n: Node): int {
    if n == Root then INT_MIN - 1 else if n == Nil then INT_MAX else if n in key then key[n] else INT_MAX
  }

  /** The link of one element of a level: the next member in key order, or nil. */
  ghost predicate LinkOk(link: Level, key: map<Node, int>, m: set<Node>, p: Node) {
    p in link && (link[p] == Nil || link[p] in m) && KeyOf(key, p) < KeyOf(key, link[p]) &&
    forall r :: r in m ==> !(KeyOf(key, p) < KeyOf(key, r) < KeyOf(key, link[p]))
  }

  /** A level links exactly its members, in key order. */
  ghost predicate LevelOk(link: Level, key: map<Node, int>, m: set<Node>) {
    LinkOk(link, key, m, Root) && forall p :: p in m ==> LinkOk(link, key, m, p)
  }

  /** Keys of elements in use: below INT_MAX, and no two the same. */
  ghost predicate KeysOk(key: map<Node, int>, live: set<Node>) {
    (forall n :: n in live ==> n.El? && n in key && INT_MIN <= key[n] < INT_MAX) &&
    forall a, b :: a in live && b in live && key[a] == key[b] ==> a == b
  }

  /** The members of a level: the elements in use that have a link there. */
  ghost function Members(live: set<Node>, height: map<Node, nat>, l: nat): set<Node> {
    set n | n in live && n in height && height[n] >= l
  }

  /** Each element has the links that it was allocated with, the root has all. */
  ghost predicate ShapeOk(lv: seq<Level>, height: map<Node, nat>) {
    |lv| == MAX_HEIGHT && (forall n :: n in height ==> n.El? && height[n] < MAX_HEIGHT) &&
    forall l, n :: 0 <= l < MAX_HEIGHT ==>
      (n in lv[l] <==> n == Root || (n == Nil && l == 0) || (n in height && height[n] >= l))
  }

  /** The free list: linked at level 0, each element holding its height as its key. */
  ghost predicate FreeOk(link: Level, key: map<Node, int>, height: map<Node, nat>, head: Node, free: seq<Node>) {
    (forall i :: 0 <= i < |free| ==>
       free[i].El? && free[i] in height && free[i] in key && key[free[i]] == height[free[i]]) &&
    (forall i, j :: 0 <= i < j < |free| ==> free[i] != free[j]) &&
    Linked(link, head, free, Null)
  }

  /** A list from a head through the elements of a sequence to an end. */
  ghost predicate Linked(link: Level, head: Node, f: seq<Node>, end: Node) {
    (if f == [] then head == end else head == f[0] && f[|f| - 1] in link && link[f[|f| - 1]] == end) &&
    forall i :: 0 <= i < |f| - 1 ==> NextIs(link, f, i)
  }

  ghost predicate NextIs(link: Level, f: seq<Node>, i: int)
    requires 0 <= i < |f| - 1
  {
    f[i] in link && link[f[i]] == f[i + 1]
  }

  lemma LinkedStep(link: Level, head: Node, f: seq<Node>, end: Node, i: nat)
    requires Linked(link, head, f, end) && i + 1 < |f|
    ensures f[i] in link && link[f[i]] == f[i + 1]
  {
    assert NextIs(link, f, i);
  }

  lemma LinkedTail(link: Level, head: Node, f: seq<Node>, end: Node)
    requires Linked(link, head, f, end) && |f| > 1
    ensures Linked(link, f[1], f[1..], end)
  {
    var t := f[1..];
    forall i | 0 <= i < |t| - 1
      ensures NextIs(link, t, i)
    {
      LinkedStep(link, head, f, end, i + 1);
    }
    assert t[|t| - 1] == f[|f| - 1];
  }

  // ------------------------------------------------------------------ walks and edits

  /** The link of a member leads to a member of the level that is further on. */
  lemma Step(link: Level, key: map<Node, int>, m: set<Node>, p: Node)
    requires LevelOk(link, key, m) && (p == Root || p in m)
    ensures p in link && (link[p] == Nil || link[p] in m) && KeyOf(key, p) < KeyOf(key, link[p])
  {
    assert LinkOk(link, key, m, p);
  }

  /** Between a member and the one its link names there is none. */
  lemma Gap(link: Level, key: map<Node, int>, m: set<Node>, p: Node, r: Node)
    requires LevelOk(link, key, m) && (p == Root || p in m) && r in m
    ensures p in link && !(KeyOf(key, p) < KeyOf(key, r) < KeyOf(key, link[p]))
  {
    assert LinkOk(link, key, m, p);
  }

  /** Two members and their links do not overlap. */
  lemma Apart(link: Level, key: map<Node, int>, m: set<Node>, a: Node, b: Node)
    requires LevelOk(link, key, m) && (a == Root || a in m) && (b == Root || b in m) && KeysOk(key, m)
    ensures a in link && b in link && KeyOf(key, Root) <= KeyOf(key, a) < INT_MAX
    ensures a == b || KeyOf(key, link[a]) <= KeyOf(key, b) || KeyOf(key, link[b]) <= KeyOf(key, a)
  {
    assert LinkOk(link, key, m, a) && LinkOk(link, key, m, b);
  }

  /** An element put after a member takes over its link. */
  lemma Splice(link: Level, key: map<Node, int>, m: set<Node>, left: Node, p: Node)
    requires LevelOk(link, key, m) && (left == Root || left in m) && p.El? && p !in m && KeysOk(key, m)
    requires left in link && KeyOf(key, left) < KeyOf(key, p) < KeyOf(key, link[left])
    ensures LevelOk(link[p := link[left]][left := p], key, m + {p})
  {
    hide KeyOf, KeysOk, LevelOk;
    var l2 := link[p := link[left]][left := p];
    MemberLink(link, key, m, left);
    forall q | q == Root || q in m + {p}
      ensures LinkOk(l2, key, m + {p}, q)
    {
      if q != p {
        MemberLink(link, key, m, q);
        Apart(link, key, m, left, q);
        NotRoot(key, m, q);
      }
    }
    MakeLevel(l2, key, m + {p});
  }

  lemma MemberLink(link: Level, key: map<Node, int>, m: set<Node>, p: Node)
    requires LevelOk(link, key, m) && (p == Root || p in m)
    ensures LinkOk(link, key, m, p)
  {
    hide LinkOk;
  }

  lemma MakeLevel(link: Level, key: map<Node, int>, m: set<Node>)
    requires forall p :: p == Root || p in m ==> LinkOk(link, key, m, p)
    ensures LevelOk(link, key, m)
  {
    hide LinkOk;
  }

  lemma NotRoot(key: map<Node, int>, m: set<Node>, p: Node)
    requires KeysOk(key, m)
    ensures p in m ==> p.El?
  {
  }

  lemma OwnKey(key: map<Node, int>, m: set<Node>, d: Node)
    requires KeysOk(key, m) && d in m
    ensures forall r :: r in m && r != d ==> KeyOf(key, r) != KeyOf(key, d)
  {
  }

  /** An element taken out leaves its link to the member before it. */
  lemma Unsplice(link: Level, key: map<Node, int>, m: set<Node>, left: Node, d: Node)
    requires LevelOk(link, key, m) && (left == Root || left in m) && d in m && KeysOk(key, m)
    requires left in link && link[left] == d && d in link
    ensures LevelOk(link[left := link[d]], key, m - {d})
  {
    hide KeyOf, KeysOk, LevelOk;
    var l2 := link[left := link[d]];
    MemberLink(link, key, m, left);
    MemberLink(link, key, m, d);
    forall q | q == Root || q in m - {d}
      ensures LinkOk(l2, key, m - {d}, q)
    {
      MemberLink(link, key, m, q);
      NotRoot(key, m, q);
      Apart(link, key, m, left, q);
      OwnKey(key, m, d);
    }
    MakeLevel(l2, key, m - {d});
  }

  /** At a level that has the element, a walk that stops before its key stops at it. */
  lemma FindsMember(link: Level, key: map<Node, int>, m: set<Node>, p: Node, d: Node)
    requires LevelOk(link, key, m) && (p == Root || p in m) && d in m && KeysOk(key, m)
    requires p in link && KeyOf(key, p) < key[d] <= KeyOf(key, link[p])
    ensures link[p] == d
  {
    MemberLink(link, key, m, p);
  }
}
