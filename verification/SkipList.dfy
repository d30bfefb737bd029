/**
 The skiplist that indexes VSID entries by guest VSID.

 Its methods edit the levels and the free list in place; each is proved to act on the
 finite map that the list stands for.
 */
module SkipList {
  import opened Options
  import opened SkipListShapes

  /** The list: element count, start level, bytes of data before each element, the
      levels, the elements' keys, the head of the free list, and the next unused name. */
  datatype List = List(
    nel: int, slevel: nat, datasize: nat, lv: seq<Level>, key: map<Node, int>, free: Node, unused: nat)

  /** The elements in use, every element's allocated height, the free list in order. */
  datatype Roles = Roles(live: set<Node>, height: map<Node, nat>, free: seq<Node>)

  const HEADER_SIZE := 88
  const LEVEL_SIZE := 4

  ghost predicate LevelsOk(lv: seq<Level>, key: map<Node, int>, live: set<Node>, height: map<Node, nat>) {
    |lv| == MAX_HEIGHT && forall l :: 0 <= l < MAX_HEIGHT ==> LevelOk(lv[l], key, Members(live, height, l))
  }

  ghost predicate RolesOk(live: set<Node>, height: map<Node, nat>, free: seq<Node>, unused: nat) {
    (forall n :: n in height <==> n in live || n in free) &&
    (forall n :: n in free ==> n !in live) &&
    forall n :: n in height ==> n.El? && n.id < unused
  }

  ghost predicate Valid(s: List, g: Roles) {
    ShapeOk(s.lv, g.height) && KeysOk(s.key, g.live) && LevelsOk(s.lv, s.key, g.live, g.height) &&
    FreeOk(s.lv[0], s.key, g.height, s.free, g.free) && RolesOk(g.live, g.height, g.free, s.unused) &&
    s.nel == |g.live| && s.slevel < MAX_HEIGHT
  }

  /** The map that the list stands for, from keys to elements. */
  ghost function Contents(key: map<Node, int>, live: set<Node>): map<int, Node>
    requires KeysOk(key, live)
  {
    map n | n in live :: key[n] := n
  }

  predicate IsKey(k: int) { INT_MIN <= k < INT_MAX }

  // ------------------------------------------------------------------------ look-up

  /** The walk along one level to the last element before a key. */
  method Walk(link: Level, key: map<Node, int>, ghost m: set<Node>, from: Node, k: int) returns (p: Node)
    requires LevelOk(link, key, m) && KeysOk(key, m) && (from == Root || from in m) && KeyOf(key, from) < k && IsKey(k)
    ensures (p == Root || p in m) && p in link && KeyOf(key, p) < k <= KeyOf(key, link[p])
  {
    hide LevelOk, KeysOk, KeyOf;
    p := from;
    Step(link, key, m, p);
    while KeyOf(key, link[p]) < k
      invariant (p == Root || p in m) && p in link && KeyOf(key, p) < k
      decreases k - KeyOf(key, p)
    {
      Step(link, key, m, p);
      NilKey(key);
      p := link[p];
      Step(link, key, m, p);
    }
  }

  lemma NilKey(key: map<Node, int>)
    ensures KeyOf(key, Nil) == INT_MAX
  {
  }

  lemma RootKey(key: map<Node, int>, k: int)
    requires IsKey(k)
    ensures KeyOf(key, Root) < k
  {
  }

  lemma LevelOf(lv: seq<Level>, key: map<Node, int>, live: set<Node>, height: map<Node, nat>, l: nat)
    requires LevelsOk(lv, key, live, height) && l < MAX_HEIGHT && KeysOk(key, live)
    ensures l < |lv| && LevelOk(lv[l], key, Members(live, height, l)) && KeysOk(key, Members(live, height, l))
    ensures forall n :: n in Members(live, height, l) ==> l == 0 || n in Members(live, height, l - 1)
  {
    hide LevelOk;
  }

  lemma InContents(key: map<Node, int>, live: set<Node>, height: map<Node, nat>, l: nat, n: Node)
    requires KeysOk(key, live) && n in Members(live, height, l)
    ensures n in live && n in key && KeyOf(key, n) == key[n] && key[n] in Contents(key, live) &&
            Contents(key, live)[key[n]] == n
  {
  }

  /** With no element of level 0 at a key, the key is not in the map. */
  lemma Missing(lv: seq<Level>, key: map<Node, int>, live: set<Node>, height: map<Node, nat>, p: Node, k: int)
    requires LevelsOk(lv, key, live, height) && KeysOk(key, live) && live <= height.Keys
    requires p == Root || p in Members(live, height, 0)
    requires p in lv[0] && KeyOf(key, p) < k < KeyOf(key, lv[0][p])
    ensures k !in Contents(key, live)
  {
    hide LevelOk, LevelsOk;
    if k in Contents(key, live) {
      LevelOf(lv, key, live, height, 0);
      Gap(lv[0], key, Members(live, height, 0), p, Contents(key, live)[k]);
    }
  }

  /** skiplist_lookup, from any start level. */
  method Search(lv: seq<Level>, key: map<Node, int>, ghost live: set<Node>, ghost height: map<Node, nat>, start: nat,
                k: int)
    returns (r: Option<Node>)
    requires LevelsOk(lv, key, live, height) && KeysOk(key, live) && live <= height.Keys && start < MAX_HEIGHT &&
             IsKey(k)
    ensures r == if k in Contents(key, live) then Some(Contents(key, live)[k]) else None
  {
    hide LevelOk, LevelsOk, KeysOk, KeyOf, Members, Contents;
    var n: nat, p := start, Root;
    NilKey(key);
    RootKey(key, k);
    while true
      invariant n < MAX_HEIGHT && (p == Root || p in Members(live, height, n)) && KeyOf(key, p) < k
      decreases n, k - KeyOf(key, p)
    {
      LevelOf(lv, key, live, height, n);
      Step(lv[n], key, Members(live, height, n), p);
      var q := lv[n][p];
      if KeyOf(key, q) < k {
        p := q;
      } else if KeyOf(key, q) > k {
        if n == 0 {
          Missing(lv, key, live, height, p, k);
          return None;
        }
        n := n - 1;
      } else {
        InContents(key, live, height, n, q);
        return Some(q);
      }
    }
  }

  // ------------------------------------------------------------------------ insertion

  ghost predicate PartlyLinked(lv: seq<Level>, key: map<Node, int>, live: set<Node>, height: map<Node, nat>, p: Node,
                               i: int) {
    |lv| == MAX_HEIGHT && p in height &&
    forall l :: 0 <= l < MAX_HEIGHT ==>
      LevelOk(lv[l], key, if i <= l <= height[p] then Members(live, height, l) + {p} else Members(live, height, l))
  }

  lemma LinkLevel(lv: seq<Level>, key: map<Node, int>, live: set<Node>, height: map<Node, nat>, p: Node, i: nat,
                  left: Node)
    requires PartlyLinked(lv, key, live, height, p, i + 1) && KeysOk(key, live) && p.El? && p !in live &&
             i < MAX_HEIGHT && i <= height[p]
    requires (left == Root || left in Members(live, height, i)) && left in lv[i]
    requires KeyOf(key, left) < KeyOf(key, p) < KeyOf(key, lv[i][left])
    ensures PartlyLinked(lv[i := lv[i][p := lv[i][left]][left := p]], key, live, height, p, i)
  {
    hide LevelOk, KeyOf;
    Splice(lv[i], key, Members(live, height, i), left, p);
  }

  lemma SkipLevel(lv: seq<Level>, key: map<Node, int>, live: set<Node>, height: map<Node, nat>, p: Node, i: nat)
    requires PartlyLinked(lv, key, live, height, p, i + 1) && p in height && i > height[p]
    ensures PartlyLinked(lv, key, live, height, p, i)
  {
    hide LevelOk;
  }

  lemma LevelBelow(lv: seq<Level>, key: map<Node, int>, live: set<Node>, height: map<Node, nat>, p: Node, i: nat)
    requires PartlyLinked(lv, key, live, height, p, i + 1) && KeysOk(key, live) && i < MAX_HEIGHT
    ensures LevelOk(lv[i], key, Members(live, height, i)) && KeysOk(key, Members(live, height, i))
    ensures forall n :: n in Members(live, height, i) ==> i == 0 || n in Members(live, height, i - 1)
  {
    hide LevelOk;
  }

  lemma LinkKeepsShape(lv: seq<Level>, height: map<Node, nat>, i: nat, p: Node, left: Node)
    requires ShapeOk(lv, height) && i < MAX_HEIGHT && p in height && height[p] >= i && left in lv[i]
    ensures ShapeOk(lv[i := lv[i][p := lv[i][left]][left := p]], height)
  {
  }

  /** The insertion loop: from a start level at or above the element's height, down to
      level 0. */
  method LinkIn(lv0: seq<Level>, key: map<Node, int>, ghost live: set<Node>, ghost height: map<Node, nat>, p: Node,
                n: nat, start: nat)
    returns (lv: seq<Level>)
    requires ShapeOk(lv0, height) && LevelsOk(lv0, key, live, height) && KeysOk(key, live) && live <= height.Keys
    requires p in height && p.El? && p !in live && p in key && IsKey(key[p]) && height[p] == n <= start < MAX_HEIGHT
    requires key[p] !in Contents(key, live)
    ensures ShapeOk(lv, height) && PartlyLinked(lv, key, live, height, p, 0)
    ensures Untouched(lv0, lv, live + {p})
  {
    hide LevelOk, LevelsOk, KeysOk, KeyOf, Members, Contents, ShapeOk, PartlyLinked, Untouched;
    lv := lv0;
    var left, i: nat := Root, start + 1;
    Unlinked(lv, key, live, height, p, i);
    UntouchedSame(lv, live + {p}, height);
    while i > 0
      invariant i <= start + 1 && ShapeOk(lv, height) && PartlyLinked(lv, key, live, height, p, i)
      invariant Untouched(lv0, lv, live + {p})
      invariant left == Root || i == 0 || left in Members(live, height, i - 1)
      invariant KeyOf(key, left) < key[p]
    {
      i := i - 1;
      LevelBelow(lv, key, live, height, p, i);
      HasLevels(lv, height);
      left := Walk(lv[i], key, Members(live, height, i), left, key[p]);
      if i <= n {
        NotEqual(lv[i], key, live, height, i, left, p);
        LinkKeepsShape(lv, height, i, p, left);
        LinkLevel(lv, key, live, height, p, i, left);
        LinkTouches(lv0, lv, live, height, i, p, left);
        lv := lv[i := lv[i][p := lv[i][left]][left := p]];
      } else {
        SkipLevel(lv, key, live, height, p, i);
      }
    }
  }

  lemma HasLevels(lv: seq<Level>, height: map<Node, nat>)
    requires ShapeOk(lv, height)
    ensures |lv| == MAX_HEIGHT
  {
  }

  lemma Unlinked(lv: seq<Level>, key: map<Node, int>, live: set<Node>, height: map<Node, nat>, p: Node, i: int)
    requires LevelsOk(lv, key, live, height) && p in height && i > height[p]
    requires p in key && IsKey(key[p])
    ensures PartlyLinked(lv, key, live, height, p, i) && KeyOf(key, Root) < key[p]
  {
    hide LevelOk;
  }

  /** The walk stops before an element with a key above an absent one. */
  lemma NotEqual(link: Level, key: map<Node, int>, live: set<Node>, height: map<Node, nat>, l: nat, left: Node, p: Node)
    requires KeysOk(key, live) && LevelOk(link, key, Members(live, height, l)) &&
             (left == Root || left in Members(live, height, l))
    requires left in link && p in key && p.El? && IsKey(key[p]) && key[p] <= KeyOf(key, link[left]) &&
             key[p] !in Contents(key, live)
    ensures KeyOf(key, p) == key[p] < KeyOf(key, link[left])
  {
    hide LevelOk;
    Step(link, key, Members(live, height, l), left);
    if link[left] in live {
      InContents(key, live, height, l, link[left]);
    }
  }

  /** At level 0, where the free list is linked, only links of the root and of certain
      elements differ. */
  ghost predicate Untouched(lv0: seq<Level>, lv: seq<Level>, ns: set<Node>) {
    |lv0| == |lv| == MAX_HEIGHT &&
    forall n :: n in lv0[0] && n != Root && n !in ns ==> n in lv[0] && lv[0][n] == lv0[0][n]
  }

  lemma UntouchedSame(lv: seq<Level>, ns: set<Node>, height: map<Node, nat>)
    requires ShapeOk(lv, height)
    ensures Untouched(lv, lv, ns)
  {
  }

  lemma LinkTouches(lv0: seq<Level>, lv: seq<Level>, live: set<Node>, height: map<Node, nat>, i: nat, p: Node,
                    left: Node)
    requires Untouched(lv0, lv, live + {p}) && i < MAX_HEIGHT && left in lv[i] &&
             (left == Root || left in Members(live, height, i))
    ensures Untouched(lv0, lv[i := lv[i][p := lv[i][left]][left := p]], live + {p})
  {
  }

  lemma Relinked(lv: seq<Level>, key: map<Node, int>, live: set<Node>, height: map<Node, nat>, p: Node)
    requires PartlyLinked(lv, key, live, height, p, 0)
    ensures LevelsOk(lv, key, live + {p}, height)
  {
    hide LevelOk;
    forall l | 0 <= l < MAX_HEIGHT
      ensures LevelOk(lv[l], key, Members(live + {p}, height, l))
    {
      var m := Members(live, height, l);
      assert Members(live + {p}, height, l) == if l <= height[p] then m + {p} else m;
    }
  }

  /** The key of an element that is not in use does not matter to the levels. */
  lemma KeyUnused(lv: seq<Level>, key: map<Node, int>, live: set<Node>, height: map<Node, nat>, p: Node, k: int)
    requires LevelsOk(lv, key, live, height) && KeysOk(key, live) && p.El? && p !in live
    ensures LevelsOk(lv, key[p := k], live, height) && KeysOk(key[p := k], live)
    ensures Contents(key[p := k], live) == Contents(key, live)
  {
    hide LevelOk;
    forall l | 0 <= l < MAX_HEIGHT
      ensures LevelOk(lv[l], key[p := k], Members(live, height, l))
    {
      LevelKey(lv[l], key, Members(live, height, l), p, k);
    }
  }

  lemma LevelKey(link: Level, key: map<Node, int>, m: set<Node>, p: Node, k: int)
    requires LevelOk(link, key, m) && p.El? && p !in m
    ensures LevelOk(link, key[p := k], m)
  {
    hide LevelOk, KeyOf;
    var key2 := key[p := k];
    KeyKept(key, p, k);
    forall q | q == Root || q in m
      ensures LinkOk(link, key2, m, q)
    {
      MemberLink(link, key, m, q);
    }
    MakeLevel(link, key2, m);
  }

  lemma KeyKept(key: map<Node, int>, p: Node, k: int)
    requires p.El?
    ensures forall n :: n != p ==> KeyOf(key[p := k], n) == KeyOf(key, n)
  {
  }

  /** The element is in use under its key. */
  lemma ContentsGrow(key: map<Node, int>, live: set<Node>, p: Node)
    requires KeysOk(key, live) && p.El? && p in key && IsKey(key[p]) && key[p] !in Contents(key, live)
    ensures KeysOk(key, live + {p}) && Contents(key, live + {p}) == Contents(key, live)[key[p] := p]
  {
    var c := Contents(key, live)[key[p] := p];
    forall n | n in live
      ensures key[n] in Contents(key, live)
    {
    }
    assert KeysOk(key, live + {p});
    assert Contents(key, live + {p}) == c;
  }

  lemma ContentsShrink(key: map<Node, int>, live: set<Node>, d: Node)
    requires KeysOk(key, live) && d in live
    ensures KeysOk(key, live - {d}) && Contents(key, live - {d}) == Contents(key, live) - {key[d]}
  {
  }

  // ------------------------------------------------------------------------- deletion

  ghost predicate PartlyUnlinked(lv: seq<Level>, key: map<Node, int>, live: set<Node>, height: map<Node, nat>, d: Node,
                                 i: nat) {
    |lv| == MAX_HEIGHT &&
    forall l :: 0 <= l < MAX_HEIGHT ==> LevelOk(lv[l], key, Members(if l >= i then live - {d} else live, height, l))
  }

  lemma UnlinkLevel(lv: seq<Level>, key: map<Node, int>, live: set<Node>, height: map<Node, nat>, d: Node, i: nat,
                    p: Node)
    requires PartlyUnlinked(lv, key, live, height, d, i + 1) && KeysOk(key, live) && i < MAX_HEIGHT &&
             d in Members(live, height, i)
    requires (p == Root || p in Members(live, height, i)) && p in lv[i] && lv[i][p] == d && d in lv[i]
    ensures PartlyUnlinked(lv[i := lv[i][p := lv[i][d]]], key, live, height, d, i)
  {
    hide LevelOk;
    Unsplice(lv[i], key, Members(live, height, i), p, d);
    assert Members(live - {d}, height, i) == Members(live, height, i) - {d};
  }

  lemma PassLevel(lv: seq<Level>, key: map<Node, int>, live: set<Node>, height: map<Node, nat>, d: Node, i: nat)
    requires PartlyUnlinked(lv, key, live, height, d, i + 1) && d !in Members(live, height, i)
    ensures PartlyUnlinked(lv, key, live, height, d, i)
  {
    hide LevelOk;
    assert Members(live - {d}, height, i) == Members(live, height, i);
  }

  lemma DeleteLevel(lv: seq<Level>, key: map<Node, int>, live: set<Node>, height: map<Node, nat>, d: Node, i: nat)
    requires PartlyUnlinked(lv, key, live, height, d, i + 1) && KeysOk(key, live) && i < MAX_HEIGHT
    ensures LevelOk(lv[i], key, Members(live, height, i)) && KeysOk(key, Members(live, height, i))
    ensures forall n :: n in Members(live, height, i) ==> n in live && (i == 0 || n in Members(live, height, i - 1))
  {
    hide LevelOk;
  }

  /** The element with a key, Null when there is none. */
  ghost function Holder(key: map<Node, int>, live: set<Node>, k: int): Node
    requires KeysOk(key, live)
  {
    if k in Contents(key, live) then Contents(key, live)[k] else Null
  }

  /** The walk has stopped before the element with the key exactly where that element
      has a link. */
  lemma Stopped(link: Level, key: map<Node, int>, live: set<Node>, height: map<Node, nat>, l: nat, p: Node, k: int)
    requires KeysOk(key, live) && LevelOk(link, key, Members(live, height, l)) &&
             (p == Root || p in Members(live, height, l)) && IsKey(k)
    requires p in link && KeyOf(key, p) < k <= KeyOf(key, link[p])
    ensures KeyOf(key, link[p]) == k <==> Holder(key, live, k) in Members(live, height, l)
    ensures KeyOf(key, link[p]) == k ==> link[p] == Holder(key, live, k)
  {
    hide LevelOk, KeyOf;
    var m, d := Members(live, height, l), Holder(key, live, k);
    KeysOfMembers(key, live, height, l);
    Step(link, key, m, p);
    NilKey(key);
    if d in m {
      HolderKey(key, live, k);
      FindsMember(link, key, m, p, d);
      InContents(key, live, height, l, d);
    }
    if link[p] in m {
      InContents(key, live, height, l, link[p]);
    }
  }

  lemma KeysOfMembers(key: map<Node, int>, live: set<Node>, height: map<Node, nat>, l: nat)
    requires KeysOk(key, live)
    ensures KeysOk(key, Members(live, height, l))
  {
  }

  lemma HolderKey(key: map<Node, int>, live: set<Node>, k: int)
    requires KeysOk(key, live) && Holder(key, live, k) in live
    ensures key[Holder(key, live, k)] == k && k in Contents(key, live)
  {
  }

  /** The deletion loop, over every level from the top: it ends with the element out of
      every level, and the first level it was found at is its height. */
  method Unlink(lv0: seq<Level>, key: map<Node, int>, ghost live: set<Node>, ghost height: map<Node, nat>, k: int)
    returns (lv: seq<Level>, level: int, d: Node)
    requires ShapeOk(lv0, height) && LevelsOk(lv0, key, live, height) && KeysOk(key, live) && live <= height.Keys &&
             IsKey(k)
    ensures ShapeOk(lv, height) && Untouched(lv0, lv, live) && level >= -1
    ensures LevelsOk(lv, key, live - {Holder(key, live, k)}, height)
    ensures level >= 0 <==> k in Contents(key, live)
    ensures level >= 0 ==> d == Contents(key, live)[k] && d in live && level == height[d]
  {
    hide LevelOk, LevelsOk, KeysOk, KeyOf, Members, Contents, ShapeOk, PartlyUnlinked, Untouched, Holder;
    lv, level, d := lv0, -1, Null;
    var p, i: nat := Root, MAX_HEIGHT;
    ghost var h := Holder(key, live, k);
    StartUnlink(lv, key, live, height, k);
    UntouchedSame(lv, live, height);
    while i > 0
      invariant i <= MAX_HEIGHT && ShapeOk(lv, height) && PartlyUnlinked(lv, key, live, height, h, i)
      invariant Untouched(lv0, lv, live)
      invariant p == Root || i == 0 || p in Members(live, height, i - 1)
      invariant KeyOf(key, p) < k
      invariant -1 <= level && (level >= 0 <==> h in live && height[h] >= i)
      invariant level >= 0 ==> d == h && level == height[h]
    {
      i := i - 1;
      DeleteLevel(lv, key, live, height, h, i);
      HasLevels(lv, height);
      p := Walk(lv[i], key, Members(live, height, i), p, k);
      Stopped(lv[i], key, live, height, i, p, k);
      MemberIff(live, height, h, i);
      if KeyOf(key, lv[i][p]) == k {
        if level < 0 {
          d, level := lv[i][p], i;
        }
        HasLink(lv, height, i, d);
        UnlinkLevel(lv, key, live, height, h, i, p);
        UnlinkShape(lv, height, i, p, d);
        UnlinkTouches(lv0, lv, live, height, i, p, d);
        lv := lv[i := lv[i][p := lv[i][d]]];
      } else {
        PassLevel(lv, key, live, height, h, i);
      }
    }
    EndUnlink(lv, key, live, height, k);
  }

  lemma StartUnlink(lv: seq<Level>, key: map<Node, int>, live: set<Node>, height: map<Node, nat>, k: int)
    requires LevelsOk(lv, key, live, height) && KeysOk(key, live) && IsKey(k) && ShapeOk(lv, height)
    ensures PartlyUnlinked(lv, key, live, height, Holder(key, live, k), MAX_HEIGHT) && KeyOf(key, Root) < k
    ensures forall n :: n in height ==> height[n] < MAX_HEIGHT
  {
    hide LevelOk;
  }

  lemma EndUnlink(lv: seq<Level>, key: map<Node, int>, live: set<Node>, height: map<Node, nat>, k: int)
    requires KeysOk(key, live) && PartlyUnlinked(lv, key, live, height, Holder(key, live, k), 0)
    ensures LevelsOk(lv, key, live - {Holder(key, live, k)}, height)
    ensures k in Contents(key, live) <==> Holder(key, live, k) in live
    ensures k in Contents(key, live) ==> Contents(key, live)[k] == Holder(key, live, k)
  {
    hide LevelOk;
  }

  lemma MemberIff(live: set<Node>, height: map<Node, nat>, h: Node, i: nat)
    requires live <= height.Keys
    ensures h in Members(live, height, i) <==> h in live && height[h] >= i
  {
  }

  lemma HasLink(lv: seq<Level>, height: map<Node, nat>, i: nat, d: Node)
    requires ShapeOk(lv, height) && i < MAX_HEIGHT && d in height && height[d] >= i
    ensures d in lv[i]
  {
  }

  lemma UnlinkShape(lv: seq<Level>, height: map<Node, nat>, i: nat, p: Node, d: Node)
    requires ShapeOk(lv, height) && i < MAX_HEIGHT && d in lv[i] && p in lv[i]
    ensures ShapeOk(lv[i := lv[i][p := lv[i][d]]], height)
  {
  }

  lemma UnlinkTouches(lv0: seq<Level>, lv: seq<Level>, live: set<Node>, height: map<Node, nat>, i: nat, p: Node,
                      d: Node)
    requires Untouched(lv0, lv, live) && i < MAX_HEIGHT && d in lv[i] && (p == Root || p in Members(live, height, i))
    ensures Untouched(lv0, lv[i := lv[i][p := lv[i][d]]], live)
  {
  }

  // ------------------------------------------------------------------------ free list

  lemma PopFree(link: Level, key: map<Node, int>, height: map<Node, nat>, head: Node, free: seq<Node>)
    requires FreeOk(link, key, height, head, free)
    ensures free == [] <==> head == Null
    ensures free != [] ==> head == free[0] && head in link && head in height && head in key && key[head] == height[head]
    ensures free != [] ==> FreeOk(link, key, height, link[head], free[1..]) && head !in free[1..]
  {
    if |free| == 1 {
      assert free[|free| - 1] == free[0];
    } else if |free| > 1 {
      var rest := free[1..];
      LinkedStep(link, head, free, Null, 0);
      assert forall i :: 0 <= i < |rest| ==> rest[i] == free[i + 1];
      LinkedTail(link, head, free, Null);
    }
  }

  lemma FreeKept(link: Level, key: map<Node, int>, link2: Level, key2: map<Node, int>, height: map<Node, nat>,
                 head: Node, free: seq<Node>)
    requires FreeOk(link, key, height, head, free)
    requires forall n :: n in free ==>
               n in link2 && n in key2 && (n in link ==> link2[n] == link[n]) && (n in key ==> key2[n] == key[n])
    ensures FreeOk(link2, key2, height, head, free)
  {
    forall i | 0 <= i < |free| - 1
      ensures NextIs(link2, free, i)
    {
      LinkedStep(link, head, free, Null, i);
    }
  }

  lemma PushFree(link: Level, key: map<Node, int>, height: map<Node, nat>, head: Node, free: seq<Node>, d: Node)
    requires FreeOk(link, key, height, head, free) && d.El? && d in height && d !in free
    ensures FreeOk(link[d := head], key[d := height[d]], height, d, [d] + free)
  {
    var f, link2 := [d] + free, link[d := head];
    assert forall i :: 1 <= i < |f| ==> f[i] == free[i - 1];
    forall i | 0 <= i < |f| - 1
      ensures NextIs(link2, f, i)
    {
      if i > 0 {
        LinkedStep(link, head, free, Null, i - 1);
      }
    }
  }

  // --------------------------------------------------------------------- new elements

  /** A new element with its links: level 0 as given, the others cleared. */
  function WithLinks(lv: seq<Level>, p: Node, n: nat, to: Node): seq<Level>
    requires |lv| == MAX_HEIGHT
  {
    seq(MAX_HEIGHT, l requires 0 <= l < MAX_HEIGHT =>
      if l == 0 then lv[0][p := to] else if l <= n then lv[l][p := Null] else lv[l])
  }

  lemma AddElement(lv: seq<Level>, key: map<Node, int>, live: set<Node>, height: map<Node, nat>, p: Node, n: nat,
                   to: Node)
    requires ShapeOk(lv, height) && LevelsOk(lv, key, live, height) && p.El? && p !in height && p !in live &&
             n < MAX_HEIGHT
    ensures ShapeOk(WithLinks(lv, p, n, to), height[p := n])
    ensures LevelsOk(WithLinks(lv, p, n, to), key, live, height[p := n])
  {
    hide LevelOk;
    var lv2, height2 := WithLinks(lv, p, n, to), height[p := n];
    forall l | 0 <= l < MAX_HEIGHT
      ensures LevelOk(lv2[l], key, Members(live, height2, l))
    {
      assert Members(live, height2, l) == Members(live, height, l);
      LevelRelink(lv[l], key, Members(live, height, l), p, if l == 0 then to else Null);
    }
  }

  lemma FreeGrown(link: Level, key: map<Node, int>, height: map<Node, nat>, head: Node, free: seq<Node>, p: Node,
                  n: nat, to: Node)
    requires FreeOk(link, key, height, head, free) && p !in height
    ensures FreeOk(link[p := to], key[p := n], height[p := n], head, free)
  {
    var link2 := link[p := to];
    forall i | 0 <= i < |free| - 1
      ensures NextIs(link2, free, i)
    {
      LinkedStep(link, head, free, Null, i);
    }
  }

  lemma JoinFree(link: Level, key: map<Node, int>, height: map<Node, nat>, head: Node, a: seq<Node>, tail: Node,
                 b: seq<Node>)
    requires FreeOk(link, key, height, head, a) && FreeOk(link, key, height, tail, b) && a != []
    requires forall i, j :: 0 <= i < |a| && 0 <= j < |b| ==> a[i] != b[j]
    ensures FreeOk(link[a[|a| - 1] := tail], key, height, head, a + b)
  {
    var f, link2 := a + b, link[a[|a| - 1] := tail];
    forall i | 0 <= i < |f| - 1
      ensures NextIs(link2, f, i)
    {
      if i + 1 < |a| {
        LinkedStep(link, head, a, Null, i);
      } else if i >= |a| {
        LinkedStep(link, tail, b, Null, i - |a|);
      }
    }
  }

  /** skiplist_prealloc at work: the list as it was, and a second list of new elements. */
  ghost predicate Growing(s: List, g: Roles, lv: seq<Level>, key: map<Node, int>, height: map<Node, nat>, head: Node,
                          added: seq<Node>) {
    ShapeOk(lv, height) && LevelsOk(lv, key, g.live, height) && KeysOk(key, g.live) && KeysOk(s.key, g.live) &&
    Contents(key, g.live) == Contents(s.key, g.live) &&
    FreeOk(lv[0], key, height, s.free, g.free) && FreeOk(lv[0], key, height, head, added) &&
    GrownRoles(g, height, s.unused, added)
  }

  /** New elements have names from the first unused one, the last of them first. */
  ghost predicate GrownRoles(g: Roles, height: map<Node, nat>, unused: nat, added: seq<Node>) {
    RolesOk(g.live, g.height, g.free, unused) &&
    (forall n :: n in height <==> n in g.height || n in added) &&
    (forall n :: n in g.height ==> n in height && height[n] == g.height[n]) &&
    forall i :: 0 <= i < |added| ==> added[i] == El(unused + |added| - 1 - i)
  }

  lemma StartGrowing(s: List, g: Roles)
    requires Valid(s, g)
    ensures Growing(s, g, s.lv, s.key, g.height, Null, [])
  {
    hide LevelOk, LevelsOk, KeysOk, Contents;
  }

  lemma Grow(s: List, g: Roles, lv: seq<Level>, key: map<Node, int>, height: map<Node, nat>, head: Node,
             added: seq<Node>, n: nat)
    requires Growing(s, g, lv, key, height, head, added) && n < MAX_HEIGHT
    ensures var p := El(s.unused + |added|);
            Growing(s, g, WithLinks(lv, p, n, head), key[p := n], height[p := n], p, [p] + added)
  {
    hide LevelOk, LevelsOk, KeysOk, Contents, FreeOk, WithLinks, ShapeOk, GrownRoles;
    var p := El(s.unused + |added|);
    NewName(g, height, s.unused, added, n);
    HasLevels(lv, height);
    AddElement(lv, key, g.live, height, p, n, head);
    KeyUnused(WithLinks(lv, p, n, head), key, g.live, height[p := n], p, n);
    FirstLevel(lv, p, n, head);
    FreeGrown(lv[0], key, height, s.free, g.free, p, n, head);
    FreeGrown(lv[0], key, height, head, added, p, n, head);
    PushFree(lv[0][p := head], key[p := n], height[p := n], head, added, p);
    SameUpdates(lv[0], key, p, n, head);
  }

  lemma SameUpdates(link: Level, key: map<Node, int>, p: Node, n: nat, to: Node)
    ensures link[p := to][p := to] == link[p := to] && key[p := n][p := n] == key[p := n]
  {
  }

  lemma FirstLevel(lv: seq<Level>, p: Node, n: nat, to: Node)
    requires |lv| == MAX_HEIGHT
    ensures |WithLinks(lv, p, n, to)| == MAX_HEIGHT && WithLinks(lv, p, n, to)[0] == lv[0][p := to]
  {
  }

  lemma NewName(g: Roles, height: map<Node, nat>, unused: nat, added: seq<Node>, n: nat)
    requires GrownRoles(g, height, unused, added)
    ensures var p := El(unused + |added|); p !in height && p !in g.live && p !in added && p !in g.free
    ensures var p := El(unused + |added|); GrownRoles(g, height[p := n], unused, [p] + added)
  {
    var p := El(unused + |added|);
    var a2 := [p] + added;
    assert forall i :: 1 <= i < |a2| ==> a2[i] == added[i - 1];
    assert forall n :: n in a2 <==> n == p || n in added;
  }

  /** The new elements are put before the free list. */
  lemma Grown(s: List, g: Roles, lv: seq<Level>, key: map<Node, int>, height: map<Node, nat>, head: Node,
              added: seq<Node>)
    requires Valid(s, g) && Growing(s, g, lv, key, height, head, added) && added != []
    ensures var s2 := s.(lv := lv[0 := lv[0][added[|added| - 1] := s.free]], key := key, free := head,
                         unused := s.unused + |added|);
            Valid(s2, Roles(g.live, height, added + g.free)) && Contents(s2.key, g.live) == Contents(s.key, g.live)
  {
    hide LevelOk, LevelsOk, KeysOk, Contents, FreeOk, ShapeOk;
    var last := added[|added| - 1];
    HasLevels(lv, height);
    assert added[0] == El(s.unused + |added| - 1);
    forall i | 0 <= i < |added|
      ensures added[i] !in g.height && added[i] in height
    {
    }
    JoinFree(lv[0], key, height, head, added, s.free, g.free);
    RelinkFree(lv, key, g.live, height, last, s.free);
    assert forall n :: n in added + g.free <==> n in added || n in g.free;
  }

  /** Bytes that the first n elements of a buffer take. */
  function Bytes(datasize: nat, heights: nat -> nat, n: nat): nat {
    if n == 0 then 0 else Bytes(datasize, heights, n - 1) + datasize + HEADER_SIZE + heights(n - 1) * LEVEL_SIZE
  }

  lemma {:induction false} BytesAtLeast(datasize: nat, heights: nat -> nat, n: nat)
    ensures n * (datasize + HEADER_SIZE) <= Bytes(datasize, heights, n)
  {
    if n > 0 {
      BytesAtLeast(datasize, heights, n - 1);
    }
  }

  /** The heights of the elements cut from the buffer. */
  ghost predicate HeightsAre(added: seq<Node>, height: map<Node, nat>, heights: nat -> nat) {
    forall i :: 0 <= i < |added| ==> added[i] in height && height[added[i]] == heights(|added| - 1 - i)
  }

  lemma HeightsGrow(g: Roles, added: seq<Node>, height: map<Node, nat>, heights: nat -> nat, unused: nat, n: nat)
    requires GrownRoles(g, height, unused, added) && HeightsAre(added, height, heights) && n == heights(|added|)
    ensures var p := El(unused + |added|); HeightsAre([p] + added, height[p := n], heights)
  {
    var a2 := [El(unused + |added|)] + added;
    assert forall i :: 1 <= i < |a2| ==> a2[i] == added[i - 1];
  }

  /** The loop that cuts a buffer into elements, as long as the next one fits. */
  method CutElements(s: List, ghost g: Roles, size0: nat, heights: nat -> nat)
    returns (count: nat, lv: seq<Level>, key: map<Node, int>, head: Node,
             ghost height: map<Node, nat>, ghost added: seq<Node>)
    requires Valid(s, g) && forall i: nat :: heights(i) < MAX_HEIGHT
    ensures Growing(s, g, lv, key, height, head, added) && |added| == count && HeightsAre(added, height, heights)
    ensures Bytes(s.datasize, heights, count) <= size0 < Bytes(s.datasize, heights, count + 1)
  {
    hide Growing, HeightsAre, Valid, WithLinks;
    StartGrowing(s, g);
    NoHeights(g.height, heights);
    count, lv, key, head, height, added := 0, s.lv, s.key, Null, g.height, [];
    var size: nat := size0;
    while true
      invariant Growing(s, g, lv, key, height, head, added) && |added| == count && HeightsAre(added, height, heights)
      invariant Bytes(s.datasize, heights, count) + size == size0
      decreases size
    {
      var n := heights(count);
      var need := s.datasize + HEADER_SIZE + n * LEVEL_SIZE;
      if need > size {
        return;
      }
      var p := El(s.unused + count);
      Grow(s, g, lv, key, height, head, added, n);
      GrowingParts(s, g, lv, key, height, head, added);
      HeightsGrow(g, added, height, heights, s.unused, n);
      lv, key, head, height, added := WithLinks(lv, p, n, head), key[p := n], p, height[p := n], [p] + added;
      size, count := size - need, count + 1;
    }
  }

  lemma NoHeights(height: map<Node, nat>, heights: nat -> nat)
    ensures HeightsAre([], height, heights)
  {
  }

  lemma GrowingParts(s: List, g: Roles, lv: seq<Level>, key: map<Node, int>, height: map<Node, nat>, head: Node,
                     added: seq<Node>)
    requires Growing(s, g, lv, key, height, head, added)
    ensures |lv| == MAX_HEIGHT && GrownRoles(g, height, s.unused, added) && FreeOk(lv[0], key, height, head, added)
  {
    hide LevelsOk, KeysOk, Contents, FreeOk, GrownRoles;
  }

  /** The walk to the last of the new elements. */
  method LastOf(link: Level, ghost key: map<Node, int>, ghost height: map<Node, nat>, head: Node,
                ghost added: seq<Node>)
    returns (p: Node)
    requires FreeOk(link, key, height, head, added) && added != []
    ensures p == added[|added| - 1]
  {
    p := head;
    ghost var i := 0;
    FreeElements(link, key, height, head, added);
    while link[p] != Null
      invariant 0 <= i < |added| && p == added[i] && p in link
      decreases |added| - i
    {
      assert i < |added| - 1;
      LinkedStep(link, head, added, Null, i);
      p := link[p];
      i := i + 1;
    }
    if i + 1 < |added| {
      LinkedStep(link, head, added, Null, i);
    }
  }

  // ------------------------------------------------------------------------ operations

  function Log2(n: nat): nat { if n < 2 then 0 else 1 + Log2(n / 2) }

  /** The level a search starts at in a list of nel elements. */
  function StartLevel(nel: nat): (l: nat)
    ensures l < MAX_HEIGHT
  {
    if nel == 0 || Log2(nel) < 3 then 0 else if Log2(nel) - 3 > MAX_HEIGHT - 1 then MAX_HEIGHT - 1 else Log2(nel) - 3
  }

  lemma Inserted(s: List, g: Roles, lv: seq<Level>, k: int, slevel: nat)
    requires Valid(s, g) && IsKey(k) && k !in Contents(s.key, g.live) && g.free != [] && slevel < MAX_HEIGHT
    requires ShapeOk(lv, g.height) && s.free in g.height && s.free in s.lv[0]
    requires PartlyLinked(lv, s.key[s.free := k], g.live, g.height, s.free, 0) && Untouched(s.lv, lv, g.live + {s.free})
    ensures var s2, g2 := s.(nel := s.nel + 1, slevel := slevel, lv := lv, key := s.key[s.free := k],
                             free := s.lv[0][s.free]),
                          Roles(g.live + {s.free}, g.height, g.free[1..]);
            Valid(s2, g2) && Contents(s2.key, g2.live) == Contents(s.key, g.live)[k := s.free]
  {
    hide LevelOk, LevelsOk, KeysOk, PartlyLinked, FreeOk, Contents;
    var p, key2, rest := s.free, s.key[s.free := k], g.free[1..];
    PopFree(s.lv[0], s.key, g.height, s.free, g.free);
    KeyUnused(s.lv, s.key, g.live, g.height, p, k);
    Relinked(lv, key2, g.live, g.height, p);
    ContentsGrow(key2, g.live, p);
    FreeElements(s.lv[0], s.key, g.height, s.lv[0][p], rest);
    FreeKept(s.lv[0], s.key, lv[0], key2, g.height, s.lv[0][p], rest);
    assert g.free == [p] + rest;
  }

  lemma FreeElements(link: Level, key: map<Node, int>, height: map<Node, nat>, head: Node, free: seq<Node>)
    requires FreeOk(link, key, height, head, free)
    ensures forall n :: n in free ==> n.El? && n in link && n in key && n in height
  {
    forall i | 0 <= i < |free|
      ensures free[i] in link
    {
      if i + 1 < |free| {
        LinkedStep(link, head, free, Null, i);
      }
    }
  }

  class SkipList {
    var s: List
    ghost var g: Roles

    ghost predicate Ok()
      reads this
    {
      Valid(s, g)
    }

    ghost function Map(): map<int, Node>
      reads this
      requires Ok()
    {
      Contents(s.key, g.live)
    }

    /** skiplist_lookup. */
    method Lookup(k: int) returns (r: Option<Node>)
      requires Ok() && IsKey(k)
      ensures r == if k in Map() then Some(Map()[k]) else None
    {
      hide ShapeOk, LevelsOk, KeysOk, FreeOk, Contents;
      LiveHaveHeights(s, g);
      r := Search(s.lv, s.key, g.live, g.height, s.slevel, k);
    }

    /** skiplist_insert, of a key that is not in the list. */
    method Insert(k: int) returns (r: Option<Node>)
      requires Ok() && IsKey(k) && k !in Map()
      modifies this
      ensures Ok() && g.height == old(g.height)
      ensures r.None? <==> old(g.free) == []
      ensures r.None? ==> s == old(s) && g == old(g)
      ensures r.Some? ==> r.value == old(g.free)[0] && g.free == old(g.free)[1..]
      ensures r.Some? ==> Map() == old(Map())[k := r.value]
      ensures r.Some? ==> s.nel == old(s.nel) + 1 && s.slevel == StartLevel(s.nel)
    {
      hide LevelOk, ShapeOk, LevelsOk, KeysOk, FreeOk, Contents, PartlyLinked, Untouched, StartLevel;
      var p := s.free;
      HasLevels(s.lv, g.height);
      PopFree(s.lv[0], s.key, g.height, s.free, g.free);
      if p == Null {
        return None;
      }
      var rest, n, key := s.lv[0][p], s.key[p], s.key[p := k];
      var slevel := StartLevel(s.nel + 1);
      LiveHaveHeights(s, g);
      KeyUnused(s.lv, s.key, g.live, g.height, p, k);
      FreeHeight(s, g);
      var lv := LinkIn(s.lv, key, g.live, g.height, p, n, if slevel < n then n else slevel);
      Inserted(s, g, lv, k, slevel);
      s, g := s.(nel := s.nel + 1, slevel := slevel, lv := lv, key := key, free := rest),
              Roles(g.live + {p}, g.height, g.free[1..]);
      r := Some(p);
    }

    /** skiplist_delete: the element goes back to the free list with the height it was
        allocated with. */
    method Delete(k: int) returns (r: Option<Node>)
      requires Ok() && IsKey(k)
      modifies this
      ensures Ok() && g.height == old(g.height)
      ensures r == if k in old(Map()) then Some(old(Map())[k]) else None
      ensures Map() == old(Map()) - {k}
      ensures r.None? ==> g == old(g)
      ensures r.Some? ==> g.free == [r.value] + old(g.free) && s.key[r.value] == g.height[r.value]
      ensures s.slevel == old(s.slevel) && s.nel == if r.Some? then old(s.nel) - 1 else old(s.nel)
    {
      hide LevelOk, ShapeOk, LevelsOk, KeysOk, FreeOk, Contents, Untouched, Holder;
      LiveHaveHeights(s, g);
      var lv, level, d := Unlink(s.lv, s.key, g.live, g.height, k);
      HasLevels(lv, g.height);
      if level < 0 {
        NotDeleted(s, g, lv, k);
        s := s.(lv := lv);
        return None;
      }
      Deleted(s, g, lv, k);
      s, g := s.(nel := s.nel - 1, lv := lv[0 := lv[0][d := s.free]], key := s.key[d := level], free := d),
              Roles(g.live - {d}, g.height, [d] + g.free);
      r := Some(d);
    }

    /** skiplist_prealloc: a buffer becomes free elements of given heights, as many as fit,
        the last of them first. */
    method Prealloc(size: nat, heights: nat -> nat) returns (count: nat)
      requires Ok() && forall i: nat :: heights(i) < MAX_HEIGHT
      modifies this
      ensures Ok() && Map() == old(Map()) && g.live == old(g.live)
      ensures |g.free| == count + |old(g.free)| && g.free[count..] == old(g.free)
      ensures HeightsAre(g.free[..count], g.height, heights)
      ensures Bytes(s.datasize, heights, count) <= size < Bytes(s.datasize, heights, count + 1)
      ensures count * (s.datasize + HEADER_SIZE) <= size
    {
      hide Growing, HeightsAre, Valid, Contents, FreeOk;
      ghost var height, added;
      var lv, key, head;
      count, lv, key, head, height, added := CutElements(s, g, size, heights);
      BytesAtLeast(s.datasize, heights, count);
      GrowingParts(s, g, lv, key, height, head, added);
      if count > 0 {
        Grown(s, g, lv, key, height, head, added);
        var last := LastOf(lv[0], key, height, head, added);
        assert (added + g.free)[count..] == g.free && (added + g.free)[..count] == added;
        s, g := s.(lv := lv[0 := lv[0][last := s.free]], key := key, free := head, unused := s.unused + count),
                Roles(g.live, height, added + g.free);
      } else {
        NoHeights(g.height, heights);
        assert g.free[..0] == [];
      }
    }

    /** skiplist_init. */
    constructor (datasize: nat)
      ensures Ok() && Map() == map[] && g.free == [] && s.datasize == datasize
    {
      var top := map[Root := Nil];
      s := List(0, 0, datasize,
                [map[Root := Nil, Nil := Nil],
                 top, top, top, top, top, top, top, top, top, top, top, top, top, top, top],
                map[], Null, 0);
      g := Roles({}, map[], []);
    }
  }

  lemma LiveHaveHeights(s: List, g: Roles)
    requires Valid(s, g)
    ensures g.live <= g.height.Keys && s.nel >= 0
  {
    hide ShapeOk, LevelsOk, KeysOk, FreeOk;
  }

  lemma FreeHeight(s: List, g: Roles)
    requires Valid(s, g) && g.free != []
    ensures s.free.El? && s.free in g.height && g.height[s.free] < MAX_HEIGHT && s.free !in g.live
  {
    hide LevelsOk, KeysOk;
  }

  lemma NotDeleted(s: List, g: Roles, lv: seq<Level>, k: int)
    requires Valid(s, g) && k !in Contents(s.key, g.live) && ShapeOk(lv, g.height) && Untouched(s.lv, lv, g.live)
    requires LevelsOk(lv, s.key, g.live - {Holder(s.key, g.live, k)}, g.height)
    ensures Valid(s.(lv := lv), g) && Contents(s.key, g.live) - {k} == Contents(s.key, g.live)
  {
    hide LevelOk, LevelsOk, KeysOk, FreeOk, Contents;
    FreeElements(s.lv[0], s.key, g.height, s.free, g.free);
    FreeKept(s.lv[0], s.key, lv[0], s.key, g.height, s.free, g.free);
    assert g.live - {Null} == g.live by { NullNotLive(s.key, g.live); }
  }

  lemma NullNotLive(key: map<Node, int>, live: set<Node>)
    requires KeysOk(key, live)
    ensures Null !in live
  {
  }

  lemma Deleted(s: List, g: Roles, lv: seq<Level>, k: int)
    requires Valid(s, g) && k in Contents(s.key, g.live) && ShapeOk(lv, g.height) && Untouched(s.lv, lv, g.live)
    requires LevelsOk(lv, s.key, g.live - {Holder(s.key, g.live, k)}, g.height)
    ensures var d := Contents(s.key, g.live)[k];
            d in g.live && d in g.height &&
            var s2, g2 := s.(nel := s.nel - 1, lv := lv[0 := lv[0][d := s.free]], key := s.key[d := g.height[d]],
                             free := d),
                          Roles(g.live - {d}, g.height, [d] + g.free);
            Valid(s2, g2) && Contents(s2.key, g2.live) == Contents(s.key, g.live) - {k}
  {
    hide LevelOk, LevelsOk, KeysOk, FreeOk, Contents, ShapeOk;
    var d := Contents(s.key, g.live)[k];
    HolderLive(s.key, g.live, k);
    var live2, key2 := g.live - {d}, s.key[d := g.height[d]];
    ContentsShrink(s.key, g.live, d);
    KeyUnused(lv, s.key, live2, g.height, d, g.height[d]);
    FreeElements(s.lv[0], s.key, g.height, s.free, g.free);
    FreeKept(s.lv[0], s.key, lv[0], s.key, g.height, s.free, g.free);
    PushFree(lv[0], s.key, g.height, s.free, g.free, d);
    RelinkFree(lv, key2, live2, g.height, d, s.free);
  }

  lemma HolderLive(key: map<Node, int>, live: set<Node>, k: int)
    requires KeysOk(key, live) && k in Contents(key, live)
    ensures var d := Contents(key, live)[k]; d == Holder(key, live, k) && d in live && d.El? && key[d] == k
  {
  }

  /** The level 0 link of an element that is not in use does not matter to the levels. */
  lemma RelinkFree(lv: seq<Level>, key: map<Node, int>, live: set<Node>, height: map<Node, nat>, d: Node, to: Node)
    requires ShapeOk(lv, height) && LevelsOk(lv, key, live, height) && d.El? && d in height && d !in live
    ensures ShapeOk(lv[0 := lv[0][d := to]], height) && LevelsOk(lv[0 := lv[0][d := to]], key, live, height)
  {
    hide LevelOk;
    LevelRelink(lv[0], key, Members(live, height, 0), d, to);
  }

  lemma LevelRelink(link: Level, key: map<Node, int>, m: set<Node>, d: Node, to: Node)
    requires LevelOk(link, key, m) && d.El? && d !in m
    ensures LevelOk(link[d := to], key, m)
  {
    hide KeyOf;
  }
}
