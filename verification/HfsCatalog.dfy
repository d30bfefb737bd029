/** Looking a name up in the catalog of an HFS Plus volume. */
module HfsCatalog {
  import opened Options
  import opened HfsNames
  import opened HfsBTree
  import Utf8

  /** The characters that the name of a key has room for. */
  const NAME_CHARS := 256

  /** A key names the file: in the same folder, under a name that differs only in case and
      in characters to ignore. */
  ghost predicate Names(fold: Fold, key: CatalogKey, k: CatalogKey) {
    key.parent == k.parent && (key.name == [] <==> k.name == []) && Folded(fold, key.name) == Folded(fold, k.name)
  }

  /** A key in the same folder under a name that differs in case only. */
  ghost predicate SameFile(fold: Fold, key: CatalogKey, k: CatalogKey) {
    key.parent == k.parent && SameFolds(fold, key.name, k.name)
  }

  /** The key of a file name: as many of its characters as there is room for. */
  ghost function KeyFor(parent: nat, fileName: seq<nat>): CatalogKey {
    var name := Utf8.Decode(fileName);
    CatalogKey(parent, if |name| <= NAME_CHARS then name else name[..NAME_CHARS])
  }

  method MakeKey(parent: nat, fileName: seq<nat>) returns (key: CatalogKey)
    requires Utf8.CString(fileName)
    ensures key == KeyFor(parent, fileName)
  {
    hide Utf8.Decode, Utf8.CString;
    var name := Utf8.DecodeString(fileName, 2 * NAME_CHARS);
    key := CatalogKey(parent, name);
  }

  /** ReadCatalogEntry: finds a record exactly when the folder has one of that name. */
  method ReadCatalogEntry<D(!new)>(fold: Fold, t: Tree<CatalogKey, D>, root: nat, ghost height: nat,
                                   parent: nat, fileName: seq<nat>)
    returns (r: Option<D>)
    requires Utf8.CString(fileName) && WellFormed((a, b) => Compare(fold, a, b), t, root, height)
    requires Compare(fold, KeyFor(parent, fileName), t[root].keys[0]) >= 0
    ensures r.Some? ==> exists k :: Names(fold, KeyFor(parent, fileName), k) && Holds(t, root, height, k, r.value)
    ensures r.None? ==> forall k, d :: Names(fold, KeyFor(parent, fileName), k) ==> !Holds(t, root, height, k, d)
    ensures forall k, d :: SameFile(fold, KeyFor(parent, fileName), k) && Holds(t, root, height, k, d) ==> r == Some(d)
  {
    hide WellFormed, Holds, TotalPreorder, Compare, KeyFor, Utf8.CString;
    CatalogOrder(fold);
    var key := MakeKey(parent, fileName);
    r := ReadBTreeEntry((a, b) => Compare(fold, a, b), t, root, height, key);
    forall k
      ensures Compare(fold, key, k) == 0 <==> Names(fold, key, k)
    {
      CompareEqual(fold, key, k);
    }
    forall k, d | SameFile(fold, key, k) && Holds(t, root, height, k, d)
      ensures r == Some(d)
    {
      SameFolded(fold, key.name, k.name);
      var k2 :| Names(fold, key, k2) && Holds(t, root, height, k2, r.value);
      CompareEqual(fold, k, k2);
      OneRecord((a, b) => Compare(fold, a, b), t, root, height, k, d, k2, r.value);
    }
  }
}
