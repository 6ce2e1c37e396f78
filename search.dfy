/**
 * Lookup in the trie (src/hamt.c:130-171, 318-330).
 *
 * `search` walks from a table down the rows that the key's hash chunks select
 * and stops at the first row that is not a table. It stops with `NotFound`
 * when the chunk's bit is clear, `Success` when the row is a leaf holding the
 * key, and `KeyMismatch` when the row is a leaf holding another key.
 */
module Lookup {
  import opened Bits
  import opened HashState
  import opened Nodes
  import opened Wrappers

  datatype SearchStatus = Success | NotFound | KeyMismatch

  /**
   * `SearchResult`: the table where the search stopped, the leaf row met there
   * (`None` for `NULL`) and the hash state at that table.
   */
  datatype SearchResult<K, V> = SearchResult(status: SearchStatus, anchor: Node<K, V>, value: Option<Node<K, V>>, hash: Hash<K>)

  /** `search` from table `anchor` with hash state `h`. */
  function Search<K(==), V>(hf: HashFn<K>, anchor: Node<K, V>, h: Hash<K>, key: K): (r: SearchResult<K, V>)
    requires anchor.Table? && WellFormed(anchor) && h.shift <= 30
    ensures r.anchor.Table? && WellFormed(r.anchor)
    ensures r.hash.key == h.key && r.hash.depth >= h.depth && r.hash.shift <= 30
    ensures r.status == NotFound <==> r.value == None
    ensures r.value.Some? ==> r.value.value.Leaf? && (r.status == Success <==> r.value.value.key == key)
    decreases anchor
  {
    var expectedIndex := Index(h);
    if HasIndex(anchor.bitmap, expectedIndex) then
      var pos := GetPos(expectedIndex, anchor.bitmap);
      var next := anchor.rows[pos];
      if next.Leaf? then
        if key == next.key then SearchResult(Success, anchor, Some(next), h)
        else SearchResult(KeyMismatch, anchor, Some(next), h)
      else
        Search(hf, next, Next(hf, h), key)
    else
      SearchResult(NotFound, anchor, None, h)
  }

  /**
   * What `search` stops at: a clear chunk bit for `NotFound`; otherwise the leaf
   * that the chunk addresses, holding `key` for `Success` and another key for
   * `KeyMismatch`.
   */
  lemma {:induction false} SearchStops<K, V>(hf: HashFn<K>, anchor: Node<K, V>, h: Hash<K>, key: K)
    requires anchor.Table? && WellFormed(anchor) && h.shift <= 30
    ensures var r := Search(hf, anchor, h, key);
      (r.status == NotFound <==> !Bit(r.anchor.bitmap, Index(r.hash))) &&
      (r.value.Some? ==> Nodes.RowAt(r.anchor, Index(r.hash), r.value.value))
    decreases anchor
  {
    var i := Index(h);
    if Bit(anchor.bitmap, i) {
      var next := anchor.rows[GetPos(i, anchor.bitmap)];
      if next.Table? {
        SearchStops(hf, next, Next(hf, h), key);
      }
    }
  }

  /** On a set chunk bit, `search` looks at the row it addresses: a leaf ends the search, a table continues it. */
  lemma SearchInRow<K, V>(hf: HashFn<K>, anchor: Node<K, V>, h: Hash<K>, key: K, pos: nat)
    requires anchor.Table? && WellFormed(anchor) && h.shift <= 30
    requires Bit(anchor.bitmap, Index(h)) && pos == GetPos(Index(h), anchor.bitmap)
    ensures pos < |anchor.rows|
    ensures var next := anchor.rows[pos];
      Search(hf, anchor, h, key).status ==
        if next.Leaf? then (if key == next.key then Success else KeyMismatch)
        else Search(hf, next, Next(hf, h), key).status
  {
  }

  /**
   * Walking a valid table from the hash state of `key` at its depth succeeds
   * exactly when the table holds `key`, and then meets the leaf with its value.
   */
  lemma {:induction false} SearchFinds<K, V>(hf: HashFn<K>, n: Node<K, V>, d: nat, key: K)
    requires n.Table? && Valid(hf, n, d) && WellFormed(n)
    ensures var r := Search(hf, n, HashAt(hf, key, d), key);
      (r.status == Success <==> key in Contents(n)) &&
      (r.status == Success ==> r.value.value.value == Contents(n)[key])
  {
    var i := IndexAt(hf, key, d);
    ContentsByRoute(hf, n, d, key);
    if Bit(n.bitmap, i) {
      var next := n.rows[GetPos(i, n.bitmap)];
      if next.Table? {
        SearchFinds(hf, next, d + 1, key);
      }
    }
  }

  /** `hamt_get`: the value stored for `key`, or `None` for `NULL`. */
  function Get<K(==), V>(hf: HashFn<K>, root: Node<K, V>, key: K): (r: Option<V>)
    requires root.Table? && WellFormed(root)
    ensures var sr := Search(hf, root, Start(hf, key), key);
      (r.Some? <==> sr.status == Success) && (r.Some? ==> sr.value == Some(Leaf(key, r.value)))
  {
    var sr := Search(hf, root, Start(hf, key), key);
    if sr.status == Success then Some(sr.value.value.value) else None
  }

  /** On a valid trie, `Get` is lookup in the trie's contents. */
  lemma GetFinds<K, V>(hf: HashFn<K>, root: Node<K, V>, key: K)
    requires root.Table? && Valid(hf, root, 0) && WellFormed(root)
    ensures Get(hf, root, key) == if key in Contents(root) then Some(Contents(root)[key]) else None
  {
    SearchFinds(hf, root, 0, key);
  }
}
