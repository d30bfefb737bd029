/**
 Searching a B-tree of an HFS or HFS Plus volume.

 The tree is laid out as Apple's Technical Note TN1150 says in its section on B-Trees:
 the records of every node are in key order, and an index record has the key of the
 first record of the node it points to.
 */
module HfsBTree {
  import opened Options
  import opened HfsNames

  datatype Node<K, D> = Leaf(keys: seq<K>, data: seq<D>) | Index(keys: seq<K>, children: seq<nat>)

  type Tree<K, D> = map<nat, Node<K, D>>

  ghost predicate Sorted<K>(cmp: (K, K) -> int, keys: seq<K>) {
    forall i, j :: 0 <= i < j < |keys| ==> cmp(keys[i], keys[j]) < 0
  }

  /** A record of a leaf below a node of a height. */
  ghost predicate Holds<K, D>(t: Tree<K, D>, id: nat, h: nat, k: K, d: D)
    decreases h
  {
    id in t &&
    if h == 0 then
      && t[id].Leaf? && |t[id].keys| == |t[id].data|
      && exists i :: 0 <= i < |t[id].keys| && t[id].keys[i] == k && t[id].data[i] == d
    else t[id].Index? && exists i :: 0 <= i < |t[id].children| && Holds(t, t[id].children[i], h - 1, k, d)
  }

  /** Every record below a node is before a key. */
  ghost predicate AllBefore<K(!new), D(!new)>(cmp: (K, K) -> int, t: Tree<K, D>, id: nat, h: nat, bound: K) {
    forall k, d :: Holds(t, id, h, k, d) ==> cmp(k, bound) < 0
  }

  ghost predicate WellFormed<K(!new), D(!new)>(cmp: (K, K) -> int, t: Tree<K, D>, id: nat, h: nat)
    decreases h
  {
    id in t && t[id].keys != [] && Sorted(cmp, t[id].keys) &&
    if h == 0 then t[id].Leaf? && |t[id].data| == |t[id].keys|
    else t[id].Index? && |t[id].children| == |t[id].keys| &&
         forall i :: 0 <= i < |t[id].keys| ==>
           WellFormed(cmp, t, t[id].children[i], h - 1) && t[t[id].children[i]].keys[0] == t[id].keys[i] &&
           (i + 1 < |t[id].keys| ==> AllBefore(cmp, t, t[id].children[i], h - 1, t[id].keys[i + 1]))
  }

  /** The search of one node: the last record that is not after the key, and how the key
      compares with it. */
  method SearchNode<K(!new)>(cmp: (K, K) -> int, keys: seq<K>, key: K) returns (index: int, found: bool)
    requires TotalPreorder(cmp) && keys != [] && Sorted(cmp, keys)
    ensures -1 <= index < |keys|
    ensures found ==> index >= 0 && cmp(key, keys[index]) == 0
    ensures !found && index >= 0 ==> cmp(key, keys[index]) > 0
    ensures index + 1 < |keys| ==> cmp(key, keys[index + 1]) < 0
    ensures index < 0 ==> !found
  {
    var lo, hi, result := 0, |keys| - 1, -1;
    index := 0;
    while lo <= hi
      invariant 0 <= lo <= hi + 1 <= |keys|
      invariant lo > 0 ==> cmp(key, keys[lo - 1]) > 0
      invariant hi + 1 < |keys| ==> cmp(key, keys[hi + 1]) < 0
      invariant result != 0 && (lo > hi ==> if result < 0 then true else index == hi)
      decreases hi - lo
    {
      index := (lo + hi) / 2;
      result := cmp(key, keys[index]);
      if result < 0 {
        hi := index - 1;
      } else if result > 0 {
        lo := index + 1;
      } else {
        NextAfter(cmp, keys, key, index);
        return index, true;
      }
    }
    if result < 0 {
      index := hi;
    }
    found := false;
  }

  lemma NextAfter<K(!new)>(cmp: (K, K) -> int, keys: seq<K>, key: K, i: nat)
    requires TotalPreorder(cmp) && Sorted(cmp, keys) && i < |keys| && cmp(key, keys[i]) == 0
    ensures i + 1 < |keys| ==> cmp(key, keys[i + 1]) < 0
  {
  }

  // ---------------------------------------------------------------------------- order

  lemma Less<K(!new)>(cmp: (K, K) -> int, a: K, b: K, c: K)
    requires TotalPreorder(cmp) && cmp(a, b) <= 0 && cmp(b, c) <= 0
    ensures cmp(a, c) <= 0 && cmp(c, a) >= 0
    ensures cmp(a, b) < 0 || cmp(b, c) < 0 ==> cmp(a, c) < 0 && cmp(c, a) > 0
  {
  }

  lemma Opposite<K(!new)>(cmp: (K, K) -> int, a: K, b: K)
    requires TotalPreorder(cmp)
    ensures cmp(a, b) <= 0 <==> cmp(b, a) >= 0
    ensures cmp(a, b) == 0 <==> cmp(b, a) == 0
    ensures cmp(a, a) == 0
  {
  }

  lemma Earlier<K(!new)>(cmp: (K, K) -> int, keys: seq<K>, i: nat, j: nat)
    requires TotalPreorder(cmp) && Sorted(cmp, keys) && i <= j < |keys|
    ensures cmp(keys[i], keys[j]) <= 0
  {
    Opposite(cmp, keys[i], keys[i]);
  }

  /** One child of an index node. */
  lemma Child<K(!new), D(!new)>(cmp: (K, K) -> int, t: Tree<K, D>, id: nat, h: nat, i: nat)
    requires WellFormed(cmp, t, id, h) && h > 0 && i < |t[id].keys|
    ensures var c := t[id].children[i];
            WellFormed(cmp, t, c, h - 1) && t[c].keys[0] == t[id].keys[i] &&
            (i + 1 < |t[id].keys| ==> AllBefore(cmp, t, c, h - 1, t[id].keys[i + 1]))
  {
    hide Sorted, AllBefore;
  }

  /** A node's first key is not after any record below it. */
  lemma {:induction false} FirstIsLeast<K(!new), D(!new)>(cmp: (K, K) -> int, t: Tree<K, D>, id: nat, h: nat,
                                                          k: K, d: D)
    requires TotalPreorder(cmp) && WellFormed(cmp, t, id, h) && Holds(t, id, h, k, d)
    ensures cmp(k, t[id].keys[0]) >= 0
    decreases h
  {
    hide TotalPreorder, WellFormed, AllBefore, Sorted;
    SortedKeys(cmp, t, id, h);
    if h == 0 {
      var i: nat :| i < |t[id].keys| && t[id].keys[i] == k && t[id].data[i] == d;
      Earlier(cmp, t[id].keys, 0, i);
      Opposite(cmp, t[id].keys[0], k);
    } else {
      var i: nat :| i < |t[id].children| && Holds(t, t[id].children[i], h - 1, k, d);
      Child(cmp, t, id, h, i);
      FirstIsLeast(cmp, t, t[id].children[i], h - 1, k, d);
      Earlier(cmp, t[id].keys, 0, i);
      Opposite(cmp, k, t[id].keys[i]);
      Less(cmp, t[id].keys[0], t[id].keys[i], k);
    }
  }

  /** Below an index node, a key can only be under the last record that is not after it. */
  lemma OtherChild<K(!new), D(!new)>(cmp: (K, K) -> int, t: Tree<K, D>, id: nat, h: nat, i: nat, key: K,
                                     j: nat, k: K, d: D)
    requires TotalPreorder(cmp) && WellFormed(cmp, t, id, h) && h > 0 && i < |t[id].keys| && j < |t[id].keys|
    requires cmp(key, t[id].keys[i]) >= 0 && (i + 1 < |t[id].keys| ==> cmp(key, t[id].keys[i + 1]) < 0)
    requires cmp(key, k) == 0 && Holds(t, t[id].children[j], h - 1, k, d)
    ensures j == i
  {
    hide TotalPreorder, WellFormed, Holds, AllBefore;
    SortedKeys(cmp, t, id, h);
    var keys := t[id].keys;
    Child(cmp, t, id, h, j);
    if j < i {
      Before(cmp, t, t[id].children[j], h - 1, keys[j + 1], k, d);
      Earlier(cmp, keys, j + 1, i);
      Opposite(cmp, key, keys[i]);
      Less(cmp, k, keys[j + 1], keys[i]);
      Less(cmp, k, keys[i], key);
    } else if j > i {
      FirstIsLeast(cmp, t, t[id].children[j], h - 1, k, d);
      Earlier(cmp, keys, i + 1, j);
      Less(cmp, key, keys[i + 1], keys[j]);
      Opposite(cmp, k, keys[j]);
      Less(cmp, key, keys[j], k);
    }
  }

  lemma SortedKeys<K(!new), D(!new)>(cmp: (K, K) -> int, t: Tree<K, D>, id: nat, h: nat)
    requires WellFormed(cmp, t, id, h)
    ensures id in t && t[id].keys != [] && Sorted(cmp, t[id].keys)
    ensures if h == 0 then t[id].Leaf? && |t[id].data| == |t[id].keys|
            else t[id].Index? && |t[id].children| == |t[id].keys|
  {
    hide Sorted, AllBefore;
  }

  lemma Before<K(!new), D(!new)>(cmp: (K, K) -> int, t: Tree<K, D>, id: nat, h: nat, bound: K, k: K, d: D)
    requires AllBefore(cmp, t, id, h, bound) && Holds(t, id, h, k, d)
    ensures cmp(k, bound) < 0
  {
    hide Holds;
  }

  /** The records with a key below an index node are those below one of its children. */
  lemma Descend<K(!new), D(!new)>(cmp: (K, K) -> int, t: Tree<K, D>, id: nat, h: nat, i: nat, key: K)
    requires TotalPreorder(cmp) && WellFormed(cmp, t, id, h) && h > 0 && i < |t[id].keys|
    requires cmp(key, t[id].keys[i]) >= 0 && (i + 1 < |t[id].keys| ==> cmp(key, t[id].keys[i + 1]) < 0)
    ensures forall k, d :: cmp(key, k) == 0 ==> (Holds(t, id, h, k, d) <==> Holds(t, t[id].children[i], h - 1, k, d))
  {
    hide TotalPreorder, WellFormed;
    SortedKeys(cmp, t, id, h);
    forall k, d | cmp(key, k) == 0
      ensures Holds(t, id, h, k, d) <==> Holds(t, t[id].children[i], h - 1, k, d)
    {
      if Holds(t, id, h, k, d) {
        var j: nat :| j < |t[id].children| && Holds(t, t[id].children[j], h - 1, k, d);
        OtherChild(cmp, t, id, h, i, key, j, k, d);
      }
    }
  }

  /** ReadBTreeEntry, for a key that is not before the first of the tree: ends, and finds a
      record exactly when one has an equal key. */
  method ReadBTreeEntry<K(!new), D(!new)>(cmp: (K, K) -> int, t: Tree<K, D>, root: nat, ghost height: nat, key: K)
    returns (r: Option<D>)
    requires TotalPreorder(cmp) && WellFormed(cmp, t, root, height) && cmp(key, t[root].keys[0]) >= 0
    ensures r.Some? ==> exists k :: cmp(key, k) == 0 && Holds(t, root, height, k, r.value)
    ensures r.None? ==> forall k, d :: cmp(key, k) == 0 ==> !Holds(t, root, height, k, d)
  {
    hide TotalPreorder, WellFormed, Holds;
    var cur := root;
    ghost var h := height;
    SortedKeys(cmp, t, cur, h);
    while t[cur].Index?
      invariant WellFormed(cmp, t, cur, h) && cur in t && t[cur].keys != [] && cmp(key, t[cur].keys[0]) >= 0
      invariant forall k, d :: cmp(key, k) == 0 ==> (Holds(t, root, height, k, d) <==> Holds(t, cur, h, k, d))
      decreases h
    {
      SortedKeys(cmp, t, cur, h);
      var i, _ := SearchNode(cmp, t[cur].keys, key);
      Descend(cmp, t, cur, h, i, key);
      Child(cmp, t, cur, h, i);
      cur := t[cur].children[i];
      h := h - 1;
      SortedKeys(cmp, t, cur, h);
    }
    SortedKeys(cmp, t, cur, h);
    var i, found := SearchNode(cmp, t[cur].keys, key);
    LeafAnswer(cmp, t, cur, key, i, found);
    r := if found then Some(t[cur].data[i]) else None;
  }

  lemma LeafAnswer<K(!new), D(!new)>(cmp: (K, K) -> int, t: Tree<K, D>, id: nat, key: K, i: int, found: bool)
    requires TotalPreorder(cmp) && WellFormed(cmp, t, id, 0) && 0 <= i < |t[id].keys|
    requires if found then cmp(key, t[id].keys[i]) == 0 else cmp(key, t[id].keys[i]) > 0
    requires i + 1 < |t[id].keys| ==> cmp(key, t[id].keys[i + 1]) < 0
    ensures found ==> Holds(t, id, 0, t[id].keys[i], t[id].data[i])
    ensures !found ==> forall k, d :: cmp(key, k) == 0 ==> !Holds(t, id, 0, k, d)
  {
    hide TotalPreorder;
    var keys := t[id].keys;
    forall j: nat | j < |keys| && !found
      ensures cmp(key, keys[j]) != 0
    {
      if j <= i {
        Earlier(cmp, keys, j, i);
        Opposite(cmp, key, keys[i]);
        Less(cmp, keys[j], keys[i], key);
      } else {
        Earlier(cmp, keys, i + 1, j);
        Less(cmp, key, keys[i + 1], keys[j]);
      }
    }
  }

  /** Records with equal keys are one record. */
  lemma {:induction false} OneRecord<K(!new), D(!new)>(cmp: (K, K) -> int, t: Tree<K, D>, id: nat, h: nat,
                                                       k: K, d: D, k2: K, d2: D)
    requires TotalPreorder(cmp) && WellFormed(cmp, t, id, h) && Holds(t, id, h, k, d) && Holds(t, id, h, k2, d2) &&
             cmp(k, k2) == 0
    ensures k == k2 && d == d2
    decreases h
  {
    hide TotalPreorder, WellFormed, AllBefore;
    SortedKeys(cmp, t, id, h);
    if h == 0 {
      var i: nat :| i < |t[id].keys| && t[id].keys[i] == k && t[id].data[i] == d;
      var j: nat :| j < |t[id].keys| && t[id].keys[j] == k2 && t[id].data[j] == d2;
      Opposite(cmp, k, k2);
      assert i == j;
    } else {
      var i: nat :| i < |t[id].children| && Holds(t, t[id].children[i], h - 1, k, d);
      var j: nat :| j < |t[id].children| && Holds(t, t[id].children[j], h - 1, k2, d2);
      UnderChild(cmp, t, id, h, i, k, d);
      OtherChild(cmp, t, id, h, i, k, j, k2, d2);
      Child(cmp, t, id, h, i);
      OneRecord(cmp, t, t[id].children[i], h - 1, k, d, k2, d2);
    }
  }

  /** A record below a child is not before its key, and before the next. */
  lemma UnderChild<K(!new), D(!new)>(cmp: (K, K) -> int, t: Tree<K, D>, id: nat, h: nat, i: nat, k: K, d: D)
    requires TotalPreorder(cmp) && WellFormed(cmp, t, id, h) && h > 0 && i < |t[id].keys| &&
             Holds(t, t[id].children[i], h - 1, k, d)
    ensures cmp(k, t[id].keys[i]) >= 0 && (i + 1 < |t[id].keys| ==> cmp(k, t[id].keys[i + 1]) < 0)
  {
    hide TotalPreorder, WellFormed, Holds, AllBefore;
    SortedKeys(cmp, t, id, h);
    Child(cmp, t, id, h, i);
    FirstIsLeast(cmp, t, t[id].children[i], h - 1, k, d);
    if i + 1 < |t[id].keys| {
      Before(cmp, t, t[id].children[i], h - 1, t[id].keys[i + 1], k, d);
    }
  }
}
