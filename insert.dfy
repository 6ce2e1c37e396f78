/**
 * Destructive insertion (src/hamt.c:245-353).
 *
 * `set` searches for the key and then acts on the place where the search
 * stopped: it overwrites the value of the leaf holding the key, adds a leaf row
 * to the table whose chunk bit was clear (`insert_kv`), or turns the leaf that
 * holds a different key into a chain of tables ending in a two-row table
 * (`insert_table`). Nodes are values here, so `set` rebuilds the tables on the
 * search path instead of writing into them.
 */
module Insertion {
  import opened Bits
  import opened HashState
  import opened Nodes
  import opened Lookup

  /**
   * `insert_kv`: the table with a new leaf row for `key` at the clear chunk bit
   * that `h` selects, the position computed from the extended bitmap.
   */
  function InsertKv<K, V>(anchor: Node<K, V>, h: Hash<K>, key: K, value: V): (r: Node<K, V>)
    requires anchor.Table? && |anchor.rows| == Popcount(anchor.bitmap) && h.shift <= 30
    requires !Bit(anchor.bitmap, Index(h))
    ensures RowInserted(anchor, r, Index(h), Leaf(key, value))
  {
    var ix := Index(h);
    var newIndex := WithBit(anchor.bitmap, ix);
    var pos := GetPos(ix, newIndex);
    PosOfNewBit(anchor.bitmap, ix);
    var nRows := Popcount(anchor.bitmap);
    var extended := ExtendTable(anchor, nRows, ix, pos);
    Table(extended.bitmap, extended.rows[pos := Leaf(key, value)])
  }

  /**
   * `insert_kv` on a valid table whose chunk bit for `key` is clear keeps it
   * valid, adds exactly the new pair, and leaves a table below the root dense.
   */
  lemma InsertKvAdds<K, V>(hf: HashFn<K>, n: Node<K, V>, d: nat, key: K, value: V)
    requires n.Table? && Valid(hf, n, d) && !Bit(n.bitmap, IndexAt(hf, key, d))
    ensures var r := InsertKv(n, HashAt(hf, key, d), key, value);
      r.Table? && Valid(hf, r, d) && Contents(r) == Contents(n)[key := value] &&
      (Dense(n) ==> Dense(r))
  {
    var r := InsertKv(n, HashAt(hf, key, d), key, value);
    InsertRow(hf, n, d, IndexAt(hf, key, d), Leaf(key, value), r);
    UnionIsUpdate(Contents(n), key, value);
  }

  /**
   * The bitmap of `insert_table`'s final table, `(1 << index) | (1 << xIndex)`:
   * exactly the two chunks set, the smaller one addressing row 0.
   */
  function PairBitmap(xIndex: bv32, index: bv32): (b: bv32)
    requires xIndex < 32 && index < 32 && xIndex != index
    ensures Bit(b, xIndex) && Bit(b, index) && Popcount(b) == 2
    ensures GetPos(xIndex, b) == (if index < xIndex then 1 else 0) && GetPos(index, b) == (if xIndex < index then 1 else 0)
  {
    PairPos(index, xIndex);
    WithBit(Singleton(index), xIndex)
  }

  /**
   * The two-row table `insert_table` ends with: bits `xIndex` and `index` set,
   * and the leaves of the existing and the new key at the positions they
   * address, so in the order of their chunks.
   */
  function PairTable<K, V>(xIndex: bv32, x: K, xValue: V, index: bv32, key: K, value: V): (r: Node<K, V>)
    requires xIndex < 32 && index < 32 && xIndex != index
    ensures r.Table? && |r.rows| == 2 && r.bitmap == PairBitmap(xIndex, index)
    ensures r.rows == if xIndex < index then [Leaf(x, xValue), Leaf(key, value)] else [Leaf(key, value), Leaf(x, xValue)]
  {
    var bitmap := PairBitmap(xIndex, index);
    var xPos := GetPos(xIndex, bitmap);
    var pos := GetPos(index, bitmap);
    Table(bitmap, [EmptyTable(), EmptyTable()][xPos := Leaf(x, xValue)][pos := Leaf(key, value)])
  }

  /** The two-row table is valid and dense where both keys' chunks differ, and holds both pairs. */
  lemma PairTableValid<K, V>(hf: HashFn<K>, x: K, xValue: V, key: K, value: V, d: nat)
    requires x != key && IndexAt(hf, x, d) != IndexAt(hf, key, d)
    ensures var t := PairTable(IndexAt(hf, x, d), x, xValue, IndexAt(hf, key, d), key, value);
      t.Table? && Valid(hf, t, d) && Dense(t) && Contents(t) == map[x := xValue, key := value]
  {
    var xi, i := IndexAt(hf, x, d), IndexAt(hf, key, d);
    var t := PairTable(xi, x, xValue, i, key, value);
    PairPos(i, xi);
    var lo := if i < xi then Leaf(key, value) else Leaf(x, xValue);
    var hi := if i < xi then Leaf(x, xValue) else Leaf(key, value);
    assert t.rows == [lo, hi];
    forall j, k | 0 <= j < |t.rows| && k in Contents(t.rows[j])
      ensures Routes(hf, t.bitmap, d, k, j)
    {
      if k == key {
        assert Routes(hf, t.bitmap, d, key, if i < xi then 0 else 1);
      } else {
        assert k == x;
        assert Routes(hf, t.bitmap, d, x, if i < xi then 1 else 0);
      }
    }
    assert Valid(hf, t, d);
    RowsContentsPair(lo, hi);
    TwoPairs(x, xValue, key, value);
    assert Contents(t) == Contents(lo) + Contents(hi);
  }

  /** Two pairs with different keys, joined in either order. */
  lemma TwoPairs<K, V>(x: K, xValue: V, key: K, value: V)
    requires x != key
    ensures map[x := xValue] + map[key := value] == map[x := xValue, key := value]
    ensures map[key := value] + map[x := xValue] == map[x := xValue, key := value]
  {
  }

  /** The tables `insert_table`'s loop writes: one single-row table per chunk of `path`, above `bottom`. */
  function Chain<K, V>(path: seq<bv32>, bottom: Node<K, V>): (r: Node<K, V>)
    requires forall j :: 0 <= j < |path| ==> path[j] < 32
    ensures path == [] ==> r == bottom
    ensures path != [] ==> r.Table? && |r.rows| == 1 && Popcount(r.bitmap) == 1 && Bit(r.bitmap, path[0])
    ensures Contents(r) == Contents(bottom)
  {
    if path == [] then bottom
    else
      var c := Chain(path[1..], bottom);
      RowsContentsSingle(c);
      Table(Singleton(path[0]), [c])
  }

  /** A one-row table over a valid dense table whose keys all select chunk `p` is valid and dense. */
  lemma SingleRowValid<K, V>(hf: HashFn<K>, p: bv32, c: Node<K, V>, d: nat)
    requires p < 32 && c.Table? && Valid(hf, c, d + 1) && Dense(c)
    requires forall k :: k in Contents(c) ==> IndexAt(hf, k, d) == p
    ensures Valid(hf, Table(Singleton(p), [c]), d) && Dense(Table(Singleton(p), [c]))
    ensures Contents(Table(Singleton(p), [c])) == Contents(c)
  {
    RowsContentsSingle(c);
    SingletonPos(p);
  }

  /**
   * A chain over a valid dense table, along the chunks every key below it
   * shares, is valid and dense from the top of the chain and holds the same pairs.
   */
  lemma {:induction false} ChainValid<K, V>(hf: HashFn<K>, path: seq<bv32>, bottom: Node<K, V>, d: nat, e: nat)
    requires forall j :: 0 <= j < |path| ==> path[j] < 32
    requires e == d + |path| && bottom.Table? && Valid(hf, bottom, e) && Dense(bottom)
    requires forall k, j :: k in Contents(bottom) && 0 <= j < |path| ==> IndexAt(hf, k, d + j) == path[j]
    ensures Chain(path, bottom).Table? && Valid(hf, Chain(path, bottom), d) && Dense(Chain(path, bottom))
    ensures Contents(Chain(path, bottom)) == Contents(bottom)
  {
    if path != [] {
      var rest := path[1..];
      forall k, j | k in Contents(bottom) && 0 <= j < |rest|
        ensures IndexAt(hf, k, d + 1 + j) == rest[j]
      {
        assert IndexAt(hf, k, d + (j + 1)) == path[j + 1];
      }
      ChainValid(hf, rest, bottom, d + 1, e);
      var c := Chain(rest, bottom);
      forall k | k in Contents(c)
        ensures IndexAt(hf, k, d) == path[0]
      {
        assert IndexAt(hf, k, d + 0) == path[0];
      }
      SingleRowValid(hf, path[0], c, d);
    }
  }

  /**
   * The tables `insert_table` leaves: below the chunks `path` that both keys
   * share at depths `d` to `e - 1`, the two-row table of both pairs at depth
   * `e`, where their chunks differ.
   */
  lemma ChainOfPairValid<K, V>(hf: HashFn<K>, path: seq<bv32>, x: K, xValue: V, key: K, value: V, d: nat, e: nat)
    requires d <= e && x != key && IndexAt(hf, x, e) != IndexAt(hf, key, e)
    requires path == Chunks(hf, x, d, e) && path == Chunks(hf, key, d, e)
    ensures forall j :: 0 <= j < |path| ==> path[j] < 32
    ensures var t := Chain(path, PairTable(IndexAt(hf, x, e), x, xValue, IndexAt(hf, key, e), key, value));
      t.Table? && Valid(hf, t, d) && Dense(t) && Contents(t) == map[x := xValue, key := value]
  {
    ChunksAt(hf, x, d, e);
    ChunksAt(hf, key, d, e);
    var bottom := PairTable(IndexAt(hf, x, e), x, xValue, IndexAt(hf, key, e), key, value);
    PairTableValid(hf, x, xValue, key, value, e);
    forall k, j | k in Contents(bottom) && 0 <= j < |path|
      ensures IndexAt(hf, k, d + j) == path[j]
    {
    }
    ChainValid(hf, path, bottom, d, e);
  }

  /**
   * The loop of `insert_table`: both keys walk one level deeper while they
   * select the same chunk; `path` collects the shared chunks and the walk ends
   * at depth `e`, the first depth where the chunks differ.
   */
  method SharedChunks<K>(hf: HashFn<K>, x: K, key: K, h: Hash<K>, xh: Hash<K>, ghost n: nat)
    returns (path: seq<bv32>, nextHash: Hash<K>, xNextHash: Hash<K>, nextIndex: bv32, xNextIndex: bv32, ghost e: nat)
    requires h == HashAt(hf, key, h.depth) && xh == HashAt(hf, x, h.depth)
    requires DivergeWithin(hf, x, key, h.depth + 1, n)
    ensures h.depth + 1 <= e
    ensures nextHash == HashAt(hf, key, e) && xNextHash == HashAt(hf, x, e)
    ensures nextIndex == IndexAt(hf, key, e) && xNextIndex == IndexAt(hf, x, e) && nextIndex != xNextIndex
    ensures path == Chunks(hf, key, h.depth + 1, e) && path == Chunks(hf, x, h.depth + 1, e)
  {
    nextHash := Next(hf, h);
    xNextHash := Next(hf, xh);
    nextIndex := Index(nextHash);
    xNextIndex := Index(xNextHash);
    path := [];
    e := h.depth + 1;
    ghost var m := n;
    while xNextIndex == nextIndex
      invariant h.depth + 1 <= e && DivergeWithin(hf, x, key, e, m)
      invariant nextHash == HashAt(hf, key, e) && xNextHash == HashAt(hf, x, e)
      invariant nextIndex == Index(nextHash) && xNextIndex == Index(xNextHash)
      invariant path == Chunks(hf, key, h.depth + 1, e) && path == Chunks(hf, x, h.depth + 1, e)
      decreases m
    {
      path := path + [nextIndex];
      nextHash := Next(hf, nextHash);
      xNextHash := Next(hf, xNextHash);
      nextIndex := Index(nextHash);
      xNextIndex := Index(xNextHash);
      e, m := e + 1, m - 1;
    }
  }

  /**
   * `insert_table`: the leaf holding `leaf.key` becomes a chain of one-row
   * tables, one per level where the two keys select the same chunk, ending in a
   * two-row table holding both pairs. The existing key's hash state is rebuilt
   * with the generation in force at the leaf's depth; `Findings` in the README
   * explains how the source's `depth / 5` differs.
   */
  method InsertTable<K, V>(hf: HashFn<K>, leaf: Node<K, V>, h: Hash<K>, key: K, value: V) returns (r: Node<K, V>)
    requires leaf.Leaf? && leaf.key != key
    requires h == HashAt(hf, key, h.depth)
    requires Diverge(hf, leaf.key, key, h.depth + 1)
    ensures r.Table? && Valid(hf, r, h.depth + 1) && Dense(r)
    ensures Contents(r) == map[leaf.key := leaf.value, key := value]
  {
    var xHash := ExistingKeyHash(hf, leaf.key, h);
    ExistingKeyHashReplaysWalk(hf, key, leaf.key, h.depth);
    var xValue := leaf.value;
    ghost var n: nat :| DivergeWithin(hf, leaf.key, key, h.depth + 1, n);
    var path, nextHash, xNextHash, nextIndex, xNextIndex, e := SharedChunks(hf, leaf.key, key, h, xHash, n);
    ChainOfPairValid(hf, path, leaf.key, xValue, key, value, h.depth + 1, e);
    r := Chain(path, PairTable(xNextIndex, leaf.key, xValue, nextIndex, key, value));
  }

  /** Every key under `n` other than `key` selects a different chunk from `key` at some depth from `d` on. */
  ghost predicate Separated<K, V>(hf: HashFn<K>, n: Node<K, V>, key: K, d: nat)
  {
    forall k :: k in Contents(n) && k != key ==> Diverge(hf, k, key, d)
  }

  /**
   * Writing node `x` into the row that `key`'s chunk addresses, where `x` holds
   * that row's pairs with `key` set to `value`, sets `key` in the table.
   */
  lemma SetRow<K, V>(hf: HashFn<K>, anchor: Node<K, V>, d: nat, e: nat, key: K, value: V, i: bv32, pos: nat, x: Node<K, V>)
    requires e == d + 1 && anchor.Table? && Valid(hf, anchor, d)
    requires i == IndexAt(hf, key, d) && Bit(anchor.bitmap, i) && pos == GetPos(i, anchor.bitmap)
    requires pos < |anchor.rows| && Valid(hf, x, e) && Dense(x) && (x.Table? || anchor.rows[pos].Leaf?)
    requires Contents(x) == Contents(anchor.rows[pos])[key := value]
    ensures var r := Table(anchor.bitmap, anchor.rows[pos := x]);
      Valid(hf, r, d) && Contents(r) == Contents(anchor)[key := value] && (Dense(anchor) ==> Dense(r))
  {
    var b := anchor.bitmap;
    var next := anchor.rows[pos];
    RowSubmap(hf, anchor, d, pos);
    ContentsByRoute(hf, anchor, d, key);
    forall k | k in Contents(x)
      ensures Routes(hf, b, d, k, pos)
    {
      if k != key {
        assert Routes(hf, b, d, k, pos);
      }
    }
    var r := Table(b, anchor.rows[pos := x]);
    ReplaceRow(hf, anchor, d, pos, x, r);
    SwapSubmap(Contents(anchor), Contents(next), key, value);
  }

  /**
   * The row that `key`'s chunk addresses in a valid table: a valid dense node
   * whose keys other than `key` diverge from `key` one level further down.
   */
  lemma RowSeparated<K, V>(hf: HashFn<K>, anchor: Node<K, V>, d: nat, e: nat, key: K, i: bv32, pos: nat)
    requires e == d + 1 && anchor.Table? && Valid(hf, anchor, d) && Separated(hf, anchor, key, d)
    requires i == IndexAt(hf, key, d) && Bit(anchor.bitmap, i) && pos == GetPos(i, anchor.bitmap)
    ensures pos < |anchor.rows|
    ensures var next := anchor.rows[pos];
      Valid(hf, next, e) && Dense(next) && Separated(hf, next, key, e) &&
      (next.Leaf? && next.key != key ==> Diverge(hf, next.key, key, e))
  {
    var next := anchor.rows[pos];
    RowSubmap(hf, anchor, d, pos);
    forall k | k in Contents(next) && k != key
      ensures Diverge(hf, k, key, e)
    {
      RowKeysSelect(hf, anchor, d, i, k);
      DivergeDeeper(hf, k, key, d, e);
    }
    if next.Leaf? {
      assert next.key in Contents(next);
    }
  }

  /**
   * `set` where the search stops at a leaf: the leaf holding `key` gets the new
   * value, a leaf holding another key becomes the tables of `insert_table`.
   */
  method SetLeaf<K(==), V>(hf: HashFn<K>, next: Node<K, V>, h: Hash<K>, key: K, value: V) returns (status: SearchStatus, x: Node<K, V>)
    requires next.Leaf? && h == HashAt(hf, key, h.depth)
    requires next.key != key ==> Diverge(hf, next.key, key, h.depth + 1)
    ensures status == if key == next.key then Success else KeyMismatch
    ensures Valid(hf, x, Next(hf, h).depth) && Dense(x) && Contents(x) == Contents(next)[key := value]
  {
    if key == next.key {
      status := Success;
      x := Leaf(key, value);
    } else {
      status := KeyMismatch;
      x := InsertTable(hf, next, h, key, value);
    }
  }

  /**
   * `set` below table `anchor` met at the hash state `h` of `key`: the search
   * and the write at the place where it stops. A leaf with `key` gets the new
   * value (`Success`), a clear chunk bit gets a new leaf row (`NotFound`), and a
   * leaf with another key becomes the tables of `insert_table` (`KeyMismatch`).
   * The tables on the path are rebuilt with the changed row.
   */
  method SetAt<K(==), V>(hf: HashFn<K>, anchor: Node<K, V>, h: Hash<K>, key: K, value: V) returns (status: SearchStatus, r: Node<K, V>)
    requires anchor.Table? && Valid(hf, anchor, h.depth) && h == HashAt(hf, key, h.depth)
    requires Separated(hf, anchor, key, h.depth)
    ensures (ValidIsWellFormed(hf, anchor, h.depth); status == Search(hf, anchor, h, key).status)
    ensures status == Success <==> key in Contents(anchor)
    ensures r.Table? && Valid(hf, r, h.depth) && Contents(r) == Contents(anchor)[key := value]
    ensures Dense(anchor) ==> Dense(r)
    decreases anchor, 1
  {
    ValidIsWellFormed(hf, anchor, h.depth);
    if !HasIndex(anchor.bitmap, Index(h)) {
      status := NotFound;
      r := InsertKv(anchor, h, key, value);
      InsertKvAdds(hf, anchor, h.depth, key, value);
      ContentsByRoute(hf, anchor, h.depth, key);
    } else {
      status, r := SetInRow(hf, anchor, h, key, value);
    }
  }

  /** `set` where the chunk bit of `key` is set: the write goes into the row that chunk addresses. */
  method SetInRow<K(==), V>(hf: HashFn<K>, anchor: Node<K, V>, h: Hash<K>, key: K, value: V) returns (status: SearchStatus, r: Node<K, V>)
    requires anchor.Table? && Valid(hf, anchor, h.depth) && h == HashAt(hf, key, h.depth)
    requires Separated(hf, anchor, key, h.depth) && Bit(anchor.bitmap, Index(h))
    ensures (ValidIsWellFormed(hf, anchor, h.depth); status == Search(hf, anchor, h, key).status)
    ensures status == Success <==> key in Contents(anchor)
    ensures r.Table? && Valid(hf, r, h.depth) && Contents(r) == Contents(anchor)[key := value]
    ensures Dense(anchor) ==> Dense(r)
    decreases anchor, 0
  {
    ValidIsWellFormed(hf, anchor, h.depth);
    var i := Index(h);
    var pos := GetPos(i, anchor.bitmap);
    var next := anchor.rows[pos];
    ghost var d := h.depth;
    assert i == IndexAt(hf, key, d);
    var h' := Next(hf, h);
    SearchInRow(hf, anchor, h, key, pos);
    RowSeparated(hf, anchor, d, h'.depth, key, i, pos);
    ContentsByRoute(hf, anchor, d, key);
    var x: Node<K, V>;
    if next.Leaf? {
      status, x := SetLeaf(hf, next, h, key, value);
    } else {
      status, x := SetAt(hf, next, h', key, value);
    }
    SetRow(hf, anchor, d, h'.depth, key, value, i, pos, x);
    r := Table(anchor.bitmap, anchor.rows[pos := x]);
  }
}
