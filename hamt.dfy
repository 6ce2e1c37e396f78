/**
 * The trie handle and its public operations (src/hamt.c:44-49, 118-128,
 * 312-360, 382, 497-728).
 *
 * A `Trie` holds the root table, the number of pairs and the key hash
 * function; key comparison is equality. The destructive operations update
 * `root` and `size` in place; the persistent ones return a fresh handle and
 * leave this one as it was.
 */
module Hamt {
  import opened HashState
  import opened Nodes
  import opened Wrappers
  import opened Lookup
  import opened Insertion
  import opened Removal

  /** `struct HamtImpl`. */
  class Trie<K(==), V> {
    const keyHash: HashFn<K>
    var root: Node<K, V>
    var size: nat

    /** The root is a valid table met at depth 0 and `size` counts its pairs. */
    ghost predicate Valid()
      reads this
    {
      root.Table? && Nodes.Valid(keyHash, root, 0) && size == |Contents(root)|
    }

    /** The finite map the trie represents. */
    ghost function Entries(): map<K, V>
      reads this
    {
      Contents(root)
    }

    /** `hamt_create`: an empty trie with a zeroed root. */
    constructor(keyHash: HashFn<K>)
      ensures Valid() && Entries() == map[] && size == 0
      ensures this.keyHash == keyHash
    {
      this.keyHash := keyHash;
      root := EmptyTable();
      size := 0;
      EmptyTableValid<K, V>(keyHash, 0);
    }

    /**
     * `hamt_dup` followed by the persistent operations' updates of the copy:
     * a new handle with the given root and size.
     */
    constructor Dup(keyHash: HashFn<K>, root: Node<K, V>, size: nat)
      ensures this.keyHash == keyHash && this.root == root && this.size == size
    {
      this.keyHash := keyHash;
      this.root := root;
      this.size := size;
    }

    /** `hamt_size`: the number of pairs. */
    function Size(): (n: nat)
      reads this
      requires Valid()
      ensures n == |Entries()|
    {
      size
    }

    /** `hamt_get`: the value stored for `key`, `None` for `NULL`. */
    function Get(key: K): (r: Option<V>)
      reads this
      requires Valid()
      ensures r == if key in Entries() then Some(Entries()[key]) else None
    {
      ValidIsWellFormed(keyHash, root, 0);
      GetFinds(keyHash, root, key);
      Lookup.Get(keyHash, root, key)
    }

    /**
     * `hamt_set`: store `value` under `key`; the size grows by one exactly when
     * `key` was absent. Every other key of the trie must diverge from `key` at
     * some depth, or `insert_table` would never stop descending.
     */
    method Set(key: K, value: V)
      modifies this
      requires Valid() && Separated(keyHash, root, key, 0)
      ensures Valid() && Entries() == old(Entries())[key := value]
      ensures size == if key in old(Entries()) then old(size) else old(size) + 1
    {
      var status, r := SetAt(keyHash, root, Start(keyHash, key), key, value);
      if status != Success {
        size := size + 1;
      }
      root := r;
    }

    /**
     * `hamt_pset`: a new trie holding the pairs of this one and `value` under
     * `key`; this trie is left as it was.
     */
    method PSet(key: K, value: V) returns (t: Trie<K, V>)
      requires Valid() && Separated(keyHash, root, key, 0)
      ensures fresh(t) && t.keyHash == keyHash
      ensures t.Valid() && t.Entries() == Entries()[key := value]
      ensures t.size == if key in Entries() then size else size + 1
    {
      var status, r := SetAt(keyHash, root, Start(keyHash, key), key, value);
      t := new Trie.Dup(keyHash, r, if status == Success then size else size + 1);
    }

    /**
     * `hamt_remove`: drop `key` and return its value, `None` when it was
     * absent; the size shrinks by one exactly when `key` was present.
     */
    method Remove(key: K) returns (r: Option<V>)
      modifies this
      requires Valid()
      ensures Valid() && Entries() == old(Entries()) - {key}
      ensures r == if key in old(Entries()) then Some(old(Entries())[key]) else None
      ensures size == if key in old(Entries()) then old(size) - 1 else old(size)
    {
      ValidIsWellFormed(keyHash, root, 0);
      RemoveFromRoot(keyHash, root, key);
      var rr := Rem(true, root, Start(keyHash, key), keyHash, key);
      root := rr.node;
      if rr.status != RemoveNotFound {
        size := size - 1;
      }
      r := rr.value;
    }

    /**
     * `hamt_premove`: a new trie holding the pairs of this one but `key`'s;
     * this trie is left as it was.
     */
    method PRemove(key: K) returns (t: Trie<K, V>)
      requires Valid()
      ensures fresh(t) && t.keyHash == keyHash
      ensures t.Valid() && t.Entries() == Entries() - {key}
      ensures t.size == if key in Entries() then size - 1 else size
    {
      ValidIsWellFormed(keyHash, root, 0);
      RemoveFromRoot(keyHash, root, key);
      var rr := Rem(true, root, Start(keyHash, key), keyHash, key);
      t := new Trie.Dup(keyHash, rr.node, if rr.status == RemoveNotFound then size else size - 1);
    }
  }

  /**
   * The removal walk from a valid root leaves a valid root without `key`,
   * returns `key`'s value and reports `RemoveNotFound` exactly when `key` was
   * absent.
   */
  lemma RemoveFromRoot<K, V>(hf: HashFn<K>, root: Node<K, V>, key: K)
    requires root.Table? && Nodes.Valid(hf, root, 0)
    ensures WellFormed(root)
    ensures var rr := Rem(true, root, Start(hf, key), hf, key);
      rr.node.Table? && Nodes.Valid(hf, rr.node, 0) && Contents(rr.node) == Contents(root) - {key} &&
      |Contents(rr.node)| == (if key in Contents(root) then |Contents(root)| - 1 else |Contents(root)|) &&
      (rr.status != RemoveNotFound <==> key in Contents(root)) &&
      rr.value == if key in Contents(root) then Some(Contents(root)[key]) else None
  {
    ValidIsWellFormed(hf, root, 0);
    var h := Start(hf, key);
    assert h == HashAt(hf, key, 0);
    RemCorrect(hf, true, root, h, key);
    CardinalityWithout(Contents(root), key);
  }

  /** Dropping a key of a map removes one pair; dropping an absent one none. */
  lemma CardinalityWithout<K, V>(m: map<K, V>, key: K)
    ensures |m - {key}| == if key in m then |m| - 1 else |m|
  {
    assert (m - {key}).Keys == m.Keys - {key};
    if key !in m {
      assert m - {key} == m;
    }
  }
}
