/** The order of a skiplist: what following the links of a level visits. */
module SkipListOrder {
  import opened SkipListShapes
  import opened SkipList

  /** The elements that the links of a level visit after one of its members. */
  ghost function Chain(link: Level, key: map<Node, int>, m: set<Node>, p: Node): seq<Node>
    requires LevelOk(link, key, m) && KeysOk(key, m) && (p == Root || p in m)
    decreases INT_MAX - KeyOf(key, p)
  {
    Step(link, key, m, p);
    if link[p] == Nil then [] else [link[p]] + Chain(link, key, m, link[p])
  }

  lemma ChainStep(link: Level, key: map<Node, int>, m: set<Node>, p: Node)
    requires LevelOk(link, key, m) && KeysOk(key, m) && (p == Root || p in m)
    ensures p in link && (link[p] == Nil || link[p] in m) && KeyOf(key, p) < KeyOf(key, link[p]) <= INT_MAX
    ensures Chain(link, key, m, p) == if link[p] == Nil then [] else [link[p]] + Chain(link, key, m, link[p])
  {
    hide LevelOk;
    Step(link, key, m, p);
  }

  ghost predicate Sorted(key: map<Node, int>, s: seq<Node>) {
    forall i, j :: 0 <= i < j < |s| ==> KeyOf(key, s[i]) < KeyOf(key, s[j])
  }

  /** A chain visits exactly the members that come later, in key order. */
  lemma {:induction false} ChainVisits(link: Level, key: map<Node, int>, m: set<Node>, p: Node)
    requires LevelOk(link, key, m) && KeysOk(key, m) && (p == Root || p in m)
    ensures Sorted(key, Chain(link, key, m, p))
    ensures forall r :: r in Chain(link, key, m, p) <==> r in m && KeyOf(key, p) < KeyOf(key, r)
    decreases INT_MAX - KeyOf(key, p)
  {
    hide LevelOk, KeysOk, KeyOf;
    Step(link, key, m, p);
    NilKey(key);
    Below(key, m);
    var q := link[p];
    if q == Nil {
      forall r | r in m
        ensures !(KeyOf(key, p) < KeyOf(key, r))
      {
        Gap(link, key, m, p, r);
      }
    } else {
      ChainVisits(link, key, m, q);
      OwnKey(key, m, q);
      forall r | r in m && KeyOf(key, p) < KeyOf(key, r)
        ensures r == q || KeyOf(key, q) < KeyOf(key, r)
      {
        Gap(link, key, m, p, r);
      }
    }
  }

  lemma Below(key: map<Node, int>, m: set<Node>)
    requires KeysOk(key, m)
    ensures forall r :: r in m ==> KeyOf(key, Root) < KeyOf(key, r) < INT_MAX
  {
  }

  function Keep(s: seq<Node>, m: set<Node>): seq<Node> {
    if s == [] then [] else if s[0] in m then [s[0]] + Keep(s[1..], m) else Keep(s[1..], m)
  }

  lemma {:induction false} KeepSorted(key: map<Node, int>, s: seq<Node>, m: set<Node>)
    requires Sorted(key, s)
    ensures Sorted(key, Keep(s, m))
    ensures forall r :: r in Keep(s, m) <==> r in s && r in m
  {
    hide KeyOf;
    if s != [] {
      KeepSorted(key, s[1..], m);
      assert s == [s[0]] + s[1..];
      var t := Keep(s[1..], m);
      forall i | 0 <= i < |t|
        ensures KeyOf(key, s[0]) < KeyOf(key, t[i])
      {
        assert t[i] in s[1..];
      }
    }
  }

  /** Sorted sequences of the same elements are the same. */
  lemma {:induction false} SortedUnique(key: map<Node, int>, a: seq<Node>, b: seq<Node>)
    requires Sorted(key, a) && Sorted(key, b) && forall r :: r in a <==> r in b
    ensures a == b
  {
    hide KeyOf;
    FirstIn(b);
    if a != [] {
      SameFirst(key, a, b);
      assert a == [a[0]] + a[1..] && b == [b[0]] + b[1..];
      forall r
        ensures r in a[1..] <==> r in b[1..]
      {
        TailHas(key, a, r);
        TailHas(key, b, r);
      }
      SortedUnique(key, a[1..], b[1..]);
    }
  }

  lemma FirstIn(b: seq<Node>)
    ensures b == [] || b[0] in b
  {
  }

  lemma SameFirst(key: map<Node, int>, a: seq<Node>, b: seq<Node>)
    requires Sorted(key, a) && Sorted(key, b) && a != [] && forall r :: r in a <==> r in b
    ensures b != [] && a[0] == b[0]
  {
    hide KeyOf;
    assert a[0] in b;
    var i :| 0 <= i < |b| && b[i] == a[0];
    assert b[0] in a;
    var j :| 0 <= j < |a| && a[j] == b[0];
  }

  lemma TailHas(key: map<Node, int>, a: seq<Node>, r: Node)
    requires Sorted(key, a) && a != []
    ensures r in a[1..] <==> r in a && r != a[0]
  {
    hide KeyOf;
    if r in a && r != a[0] {
      var i :| 0 <= i < |a| && a[i] == r;
      assert a[1..][i - 1] == r;
    }
  }

  /** Every level is a sublist of the level below: of what that visits, it visits in the
      same order exactly the elements that have a link of the level. */
  lemma LevelIsSublist(s: List, g: Roles, l: nat)
    requires Valid(s, g) && l + 1 < MAX_HEIGHT
    ensures var m, m' := Members(g.live, g.height, l), Members(g.live, g.height, l + 1);
            LevelOk(s.lv[l], s.key, m) && LevelOk(s.lv[l + 1], s.key, m') &&
            KeysOk(s.key, m) && KeysOk(s.key, m') && m' <= m &&
            Chain(s.lv[l + 1], s.key, m', Root) == Keep(Chain(s.lv[l], s.key, m, Root), m')
  {
    hide LevelOk, LevelsOk, KeysOk, KeyOf, ShapeOk, FreeOk, RolesOk, Chain, Keep, Sorted;
    var m, m' := Members(g.live, g.height, l), Members(g.live, g.height, l + 1);
    LevelOf(s.lv, s.key, g.live, g.height, l);
    LevelOf(s.lv, s.key, g.live, g.height, l + 1);
    ChainVisits(s.lv[l], s.key, m, Root);
    ChainVisits(s.lv[l + 1], s.key, m', Root);
    KeepSorted(s.key, Chain(s.lv[l], s.key, m, Root), m');
    Below(s.key, m);
    SortedUnique(s.key, Chain(s.lv[l + 1], s.key, m', Root), Keep(Chain(s.lv[l], s.key, m, Root), m'));
  }

  method IterateLevel(link: Level, ghost key: map<Node, int>, ghost m: set<Node>) returns (els: seq<Node>)
    requires LevelOk(link, key, m) && KeysOk(key, m)
    ensures els == Chain(link, key, m, Root)
  {
    hide LevelOk, KeysOk, KeyOf, Chain;
    ghost var at := Root;
    ChainStep(link, key, m, Root);
    els := [];
    var el := link[Root];
    while el != Nil
      invariant (at == Root || at in m) && at in link && el == link[at]
      invariant Chain(link, key, m, Root) == els + Chain(link, key, m, at)
      decreases INT_MAX - KeyOf(key, at)
    {
      ChainStep(link, key, m, at);
      ChainStep(link, key, m, el);
      Reassociate(els, el, Chain(link, key, m, el));
      els, at, el := els + [el], el, link[el];
    }
    ChainStep(link, key, m, at);
    assert els + [] == els;
  }

  lemma Reassociate(a: seq<Node>, x: Node, b: seq<Node>)
    ensures a + ([x] + b) == (a + [x]) + b
  {
  }

  /** skiplist_iterate and skiplist_getnext: every element in use once, in key order. */
  method Iterate(s: List, ghost g: Roles) returns (els: seq<Node>)
    requires Valid(s, g)
    ensures Sorted(s.key, els) && forall r :: r in els <==> r in g.live
  {
    hide LevelOk, LevelsOk, KeysOk, KeyOf, FreeOk, RolesOk, Sorted, Chain, Members;
    ghost var m := Members(g.live, g.height, 0);
    BaseLevel(s, g);
    ChainVisits(s.lv[0], s.key, m, Root);
    els := IterateLevel(s.lv[0], s.key, m);
  }

  lemma BaseLevel(s: List, g: Roles)
    requires Valid(s, g)
    ensures var m := Members(g.live, g.height, 0);
            LevelOk(s.lv[0], s.key, m) && KeysOk(s.key, m) && m == g.live &&
            forall r :: r in m ==> KeyOf(s.key, Root) < KeyOf(s.key, r)
  {
    hide LevelOk, LevelsOk, KeysOk, KeyOf, ShapeOk, FreeOk;
    LevelOf(s.lv, s.key, g.live, g.height, 0);
    Below(s.key, Members(g.live, g.height, 0));
  }

  // ------------------------------------------------------------- deleting on the way

  /** The elements in use and their keys, as a map and as the list has them. */
  lemma MapFacts(s: List, g: Roles)
    requires Valid(s, g)
    ensures var c := Contents(s.key, g.live);
            && (forall k :: k in c ==> IsKey(k) && c[k] in g.live && c[k] in s.key && s.key[c[k]] == k)
            && (forall n :: n in g.live ==> n in s.key && s.key[n] in c && c[s.key[n]] == n)
  {
    hide LevelOk, LevelsOk, ShapeOk, FreeOk;
  }

  /** The place an iterator is at, after the elements with keys up to a bound: nowhere
      once there are no others, or else at the next one. */
  ghost predicate IterAt(m: map<int, Node>, last: int, it: Node) {
    if it == Nil then forall k :: k in m ==> k <= last
    else exists nk :: nk in m && m[nk] == it && last < nk && forall k :: k in m ==> k <= last || nk <= k
  }

  /** The link of an element leads an iterator on. */
  lemma NextIter(s: List, g: Roles, p: Node)
    requires Valid(s, g) && (p == Root || p in g.live)
    ensures |s.lv| == MAX_HEIGHT && p in s.lv[0] && IterAt(Contents(s.key, g.live), KeyOf(s.key, p), s.lv[0][p])
    ensures p in g.live ==> p in s.key && KeyOf(s.key, p) == s.key[p] && IsKey(s.key[p])
  {
    hide LevelOk, LevelsOk, KeysOk, FreeOk, Contents, KeyOf;
    var m := Members(g.live, g.height, 0);
    BaseLevel(s, g);
    MapFacts(s, g);
    ListKeys(s, g);
    Step(s.lv[0], s.key, m, p);
    var q := s.lv[0][p];
    NilKey(s.key);
    Below(s.key, m);
    var c := Contents(s.key, g.live);
    forall k | k in c
      ensures k <= KeyOf(s.key, p) || KeyOf(s.key, q) <= k
    {
      Gap(s.lv[0], s.key, m, p, c[k]);
    }
    if q != Nil {
      assert KeyOf(s.key, q) in c && c[KeyOf(s.key, q)] == q;
    }
  }

  lemma ListKeys(s: List, g: Roles)
    requires Valid(s, g)
    ensures forall n :: n in g.live ==>
              n.El? && n in s.key && KeyOf(s.key, n) == s.key[n] && IsKey(s.key[n]) && s.key[n] < INT_MAX
  {
    hide LevelOk, LevelsOk, FreeOk, ShapeOk;
  }

  /** What is left of a map once the elements with keys up to a bound were looked at. */
  ghost predicate LeftOf(m0: map<int, Node>, m: map<int, Node>, drop: Node -> bool, last: int) {
    m.Keys <= m0.Keys && forall k :: k in m0 ==> (k in m <==> last < k || !drop(m0[k])) && (k in m ==> m[k] == m0[k])
  }

  /** The elements visited: those with keys up to a bound, in key order. */
  ghost predicate Visited(m0: map<int, Node>, els: seq<Node>, ks: seq<int>, last: int) {
    |ks| == |els| && (forall i :: 0 <= i < |ks| ==> ks[i] in m0 && els[i] == m0[ks[i]] && ks[i] <= last) &&
    (forall i, j :: 0 <= i < j < |ks| ==> ks[i] < ks[j]) && forall k :: k in m0 && k <= last ==> k in ks
  }

  lemma VisitMore(m0: map<int, Node>, els: seq<Node>, ks: seq<int>, last: int, nk: int)
    requires Visited(m0, els, ks, last) && nk in m0 && last < nk && forall k :: k in m0 ==> k <= last || nk <= k
    ensures Visited(m0, els + [m0[nk]], ks + [nk], nk)
  {
    var t := ks + [nk];
    forall k | k in m0 && k <= nk
      ensures k in t
    {
      if k == nk {
        assert t[|ks|] == nk;
      }
    }
  }

  /** An iterator at a place in what is left is at that place in the whole. */
  lemma SameIter(m0: map<int, Node>, m: map<int, Node>, drop: Node -> bool, last: int, bound: int, it: Node)
    requires LeftOf(m0, m, drop, last) && last <= bound && IterAt(m, bound, it)
    ensures IterAt(m0, bound, it)
  {
    if it != Nil {
      var nk :| nk in m && m[nk] == it && bound < nk && forall k :: k in m ==> k <= bound || nk <= k;
      assert m0[nk] == it && forall k :: k in m0 ==> k <= bound || nk <= k;
    }
  }

  /** An element is looked at: it stays, or it goes. */
  lemma LeftMore(m0: map<int, Node>, m: map<int, Node>, m': map<int, Node>, drop: Node -> bool, last: int, nk: int)
    requires LeftOf(m0, m, drop, last) && nk in m0 && last < nk && forall k :: k in m0 ==> k <= last || nk <= k
    requires m' == if drop(m0[nk]) then m - {nk} else m
    ensures LeftOf(m0, m', drop, nk)
  {
  }

  lemma NothingVisited(m0: map<int, Node>, drop: Node -> bool, last: int)
    requires forall k :: k in m0 ==> last < k
    ensures Visited(m0, [], [], last) && LeftOf(m0, m0, drop, last)
  {
  }

  lemma AllVisited(m0: map<int, Node>, els: seq<Node>, ks: seq<int>, m: map<int, Node>, drop: Node -> bool, last: int)
    requires Visited(m0, els, ks, last) && LeftOf(m0, m, drop, last) && IterAt(m0, last, Nil) && last < INT_MAX
    ensures Visited(m0, els, ks, INT_MAX) && LeftOf(m0, m, drop, INT_MAX)
  {
  }

  /** One round: the iterator is moved on, and then the element may be deleted. */
  method Visit(list: SkipList, ghost m0: map<int, Node>, drop: Node -> bool, ghost last: int, el: Node)
    returns (it: Node, ghost nk: int)
    requires list.Ok() && LeftOf(m0, list.Map(), drop, last) && IterAt(m0, last, el) && el != Nil
    modifies list
    ensures list.Ok() && LeftOf(m0, list.Map(), drop, nk) && IterAt(m0, nk, it)
    ensures last < nk < INT_MAX && nk in m0 && m0[nk] == el && forall k :: k in m0 ==> k <= last || nk <= k
  {
    hide Valid, Contents, LeftOf, KeyOf;
    nk :| nk in m0 && m0[nk] == el && last < nk && forall k :: k in m0 ==> k <= last || nk <= k;
    LeftHas(m0, list.Map(), drop, last, nk);
    MapFacts(list.s, list.g);
    NextIter(list.s, list.g, el);
    it := list.s.lv[0][el];
    SameIter(m0, list.Map(), drop, last, nk, it);
    ghost var m := list.Map();
    if drop(el) {
      var gone := list.Delete(list.s.key[el]);
    }
    LeftMore(m0, m, list.Map(), drop, last, nk);
  }

  lemma LeftHas(m0: map<int, Node>, m: map<int, Node>, drop: Node -> bool, last: int, nk: int)
    requires LeftOf(m0, m, drop, last) && nk in m0 && last < nk
    ensures nk in m && m[nk] == m0[nk]
  {
  }

  /** The loop of mtable_reclaim over the entries: the iterator is moved on before the
      current element is deleted, so every element in use is visited once, in key order,
      whichever of them are deleted on the way, and exactly those are. */
  method IterateDeleting(list: SkipList, drop: Node -> bool) returns (els: seq<Node>, ghost ks: seq<int>)
    requires list.Ok()
    modifies list
    ensures list.Ok() && Visited(old(list.Map()), els, ks, INT_MAX)
    ensures LeftOf(old(list.Map()), list.Map(), drop, INT_MAX)
  {
    hide Valid, Contents, Visited, LeftOf, IterAt, KeyOf;
    ghost var m0, last := list.Map(), KeyOf(list.s.key, Root);
    NextIter(list.s, list.g, Root);
    RootFirst(list.s, list.g);
    var it := list.s.lv[0][Root];
    els, ks := [], [];
    NothingVisited(m0, drop, last);
    while it != Nil
      invariant list.Ok() && Visited(m0, els, ks, last) && LeftOf(m0, list.Map(), drop, last) && IterAt(m0, last, it)
      invariant last < INT_MAX
      decreases INT_MAX - last
    {
      var el := it;
      ghost var nk;
      it, nk := Visit(list, m0, drop, last, el);
      VisitMore(m0, els, ks, last, nk);
      last, ks, els := nk, ks + [nk], els + [el];
    }
    AllVisited(m0, els, ks, list.Map(), drop, last);
  }

  lemma RootFirst(s: List, g: Roles)
    requires Valid(s, g)
    ensures KeyOf(s.key, Root) < INT_MAX && forall k :: k in Contents(s.key, g.live) ==> KeyOf(s.key, Root) < k
  {
    hide LevelOk, LevelsOk, ShapeOk, FreeOk, KeysOk, Contents;
    MapFacts(s, g);
  }
}
