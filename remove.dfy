/**
 * Removal by path copying (src/hamt.c:614-728).
 *
 * `path_copy_rem_recurse` walks down the rows that the key's chunks select.
 * At the leaf holding the key it drops the row: it shrinks the table, except
 * below the root where a two-row table whose other row is a leaf is gathered
 * into that leaf. A gathered leaf moves up through every one-row table above
 * it. Nodes are values here, so the walk returns the rebuilt node instead of
 * writing into copies; the destructive and the persistent removal differ only
 * in where the copies live.
 */
module Removal {
  import opened Bits
  import opened HashState
  import opened Nodes
  import opened Wrappers

  datatype RemoveStatus = RemoveSuccess | RemoveGathered | RemoveNotFound

  /** `RemoveResult` with the node that takes the place of the table walked into. */
  datatype RemoveResult<K, V> = RemoveResult(status: RemoveStatus, value: Option<V>, node: Node<K, V>)

  /**
   * `path_copy_rem_recurse` from table `anchor` with hash state `h`; `atRoot`
   * says that `anchor` is the trie's root. With `asWritten` a walk that found
   * nothing below a table row still reports `RemoveSuccess`, as the source does
   * (src/hamt.c:682); without it that case reports `RemoveNotFound`.
   */
  function PathCopyRem<K(==), V>(asWritten: bool, atRoot: bool, anchor: Node<K, V>, h: Hash<K>, hf: HashFn<K>, key: K): (r: RemoveResult<K, V>)
    requires anchor.Table? && WellFormed(anchor) && h.shift <= 30
    ensures r.status == RemoveNotFound ==> r.value == None && r.node == anchor
    ensures !asWritten ==> (r.status == RemoveNotFound <==> r.value == None)
    ensures r.status == RemoveGathered ==> !atRoot && r.node.Leaf?
    decreases anchor
  {
    var b := anchor.bitmap;
    var expectedIndex := Index(h);
    if !HasIndex(b, expectedIndex) then
      RemoveResult(RemoveNotFound, None, anchor)
    else
      var pos := GetPos(expectedIndex, b);
      var next := anchor.rows[pos];
      var nRows := Popcount(b);
      if next.Leaf? then
        if key == next.key then FoundLeaf(atRoot, anchor, expectedIndex, pos)
        else
          RemoveResult(RemoveNotFound, None, anchor)
      else
        ThroughRow(asWritten, atRoot, anchor, pos, PathCopyRem(asWritten, false, next, Next(hf, h), hf, key))
  }

  /**
   * The leaf branch of `path_copy_rem_recurse` when row `pos`, addressed by
   * chunk `i`, is the leaf holding the key: the table shrinks while it has more
   * than two rows or is the root; a two-row table whose other row is a leaf is
   * gathered into it, and one whose other row is a table shrinks.
   */
  function FoundLeaf<K, V>(atRoot: bool, anchor: Node<K, V>, i: bv32, pos: nat): (r: RemoveResult<K, V>)
    requires anchor.Table? && WellFormed(anchor) && i < 32 && pos < |anchor.rows| && anchor.rows[pos].Leaf?
    ensures r.status != RemoveNotFound && r.value == Some(anchor.rows[pos].value)
    ensures r.status == RemoveGathered ==> !atRoot && r.node.Leaf?
  {
    var nRows := Popcount(anchor.bitmap);
    var value := anchor.rows[pos].value;
    if nRows > 2 || (nRows >= 1 && atRoot) then
      RemoveResult(RemoveSuccess, Some(value), ShrinkTable(anchor, nRows, i, pos))
    else if nRows == 2 then
      if anchor.rows[1 - pos].Leaf? then
        RemoveResult(RemoveGathered, Some(value), GatherTable(anchor, 1 - pos))
      else
        RemoveResult(RemoveSuccess, Some(value), ShrinkTable(anchor, nRows, i, pos))
    else
      // A one-row table below the root is left as it is.
      RemoveResult(RemoveSuccess, Some(value), anchor)
  }

  /**
   * The table-row branch of `path_copy_rem_recurse` once the walk below row
   * `pos` has returned `result`: the row takes the node left there, and a
   * gathered leaf moves up through a one-row table that is not the root.
   */
  function ThroughRow<K, V>(asWritten: bool, atRoot: bool, anchor: Node<K, V>, pos: nat, result: RemoveResult<K, V>): (r: RemoveResult<K, V>)
    requires anchor.Table? && WellFormed(anchor) && pos < |anchor.rows|
    ensures asWritten ==> r.status != RemoveNotFound
    ensures r.status == RemoveNotFound ==> r.value == None && r.node == anchor
    ensures r.status != RemoveNotFound ==> r.value == result.value
    ensures r.status == RemoveGathered ==> !atRoot && result.status == RemoveGathered && r.node == result.node
  {
    if !asWritten && result.status == RemoveNotFound then
      RemoveResult(RemoveNotFound, None, anchor)
    else
      var copy := Table(anchor.bitmap, anchor.rows[pos := result.node]);
      // `next != TABLE(root)`: the row is not the root's first row.
      if (!atRoot || pos != 0) && result.status == RemoveGathered && Popcount(anchor.bitmap) == 1 then
        RemoveResult(RemoveGathered, result.value, GatherTable(copy, 0))
      else
        RemoveResult(RemoveSuccess, result.value, copy)
  }

  /** The removal walk with the absent-key case reported as `RemoveNotFound`. */
  function Rem<K(==), V>(atRoot: bool, anchor: Node<K, V>, h: Hash<K>, hf: HashFn<K>, key: K): (r: RemoveResult<K, V>)
    requires anchor.Table? && WellFormed(anchor) && h.shift <= 30
    ensures r.status == RemoveNotFound <==> r.value == None
    ensures r.status == RemoveNotFound ==> r.node == anchor
  {
    PathCopyRem(false, atRoot, anchor, h, hf, key)
  }

  /** The removal walk as the source writes it. */
  function RemAsWritten<K(==), V>(atRoot: bool, anchor: Node<K, V>, h: Hash<K>, hf: HashFn<K>, key: K): (r: RemoveResult<K, V>)
    requires anchor.Table? && WellFormed(anchor) && h.shift <= 30
    ensures r.status == RemoveNotFound ==> r.value == None && r.node == anchor
    ensures r.status == RemoveGathered ==> !atRoot && r.node.Leaf?
  {
    PathCopyRem(true, atRoot, anchor, h, hf, key)
  }

  /**
   * What the removal walk from a table met at depth `d` promises: it reports
   * `RemoveNotFound` exactly when the key is absent and then changes nothing;
   * otherwise it returns the key's value. The node left in the table's place
   * holds every pair but the key's: a leaf when the walk gathered, which never
   * happens at the root, and otherwise a valid table, dense below the root.
   */
  ghost predicate RemovesKey<K, V>(hf: HashFn<K>, atRoot: bool, anchor: Node<K, V>, d: nat, key: K, r: RemoveResult<K, V>)
  {
    (r.status == RemoveNotFound <==> key !in Contents(anchor)) &&
    (r.status == RemoveNotFound ==> r.value == None && r.node == anchor) &&
    (r.status != RemoveNotFound ==> key in Contents(anchor) && r.value == Some(Contents(anchor)[key])) &&
    Contents(r.node) == Contents(anchor) - {key} &&
    (r.status == RemoveGathered ==> r.node.Leaf? && !atRoot) &&
    (r.status != RemoveGathered ==> r.node.Table? && Valid(hf, r.node, d) && (atRoot || Dense(r.node)))
  }

  /** The walk from a valid table, dense unless it is the root, removes the key as `RemovesKey` says. */
  lemma {:induction false} RemCorrect<K, V>(hf: HashFn<K>, atRoot: bool, anchor: Node<K, V>, h: Hash<K>, key: K)
    requires anchor.Table? && Valid(hf, anchor, h.depth) && h == HashAt(hf, key, h.depth)
    requires atRoot || Dense(anchor)
    ensures (ValidIsWellFormed(hf, anchor, h.depth); RemovesKey(hf, atRoot, anchor, h.depth, key, Rem(atRoot, anchor, h, hf, key)))
    decreases anchor
  {
    ValidIsWellFormed(hf, anchor, h.depth);
    var i := Index(h);
    if Bit(anchor.bitmap, i) && anchor.rows[GetPos(i, anchor.bitmap)].Table? {
      var pos := GetPos(i, anchor.bitmap);
      var next := anchor.rows[pos];
      var h' := Next(hf, h);
      ValidIsWellFormed(hf, next, h'.depth);
      RemCorrect(hf, false, next, h', key);
      RemoveThroughRow(hf, atRoot, anchor, h, h', key, i, pos);
    } else {
      RemoveInTable(hf, atRoot, anchor, h, key);
    }
  }

  /** Where the walk stops at `anchor`, it removes the key from it, if there. */
  lemma RemoveInTable<K, V>(hf: HashFn<K>, atRoot: bool, anchor: Node<K, V>, h: Hash<K>, key: K)
    requires anchor.Table? && Valid(hf, anchor, h.depth) && WellFormed(anchor) && h == HashAt(hf, key, h.depth)
    requires atRoot || Dense(anchor)
    requires Bit(anchor.bitmap, Index(h)) ==> anchor.rows[GetPos(Index(h), anchor.bitmap)].Leaf?
    ensures RemovesKey(hf, atRoot, anchor, h.depth, key, Rem(atRoot, anchor, h, hf, key))
  {
    var d := h.depth;
    var i := Index(h);
    assert i == IndexAt(hf, key, d);
    ContentsByRoute(hf, anchor, d, key);
    if Bit(anchor.bitmap, i) && key == anchor.rows[GetPos(i, anchor.bitmap)].key {
      var pos := GetPos(i, anchor.bitmap);
      assert Rem(atRoot, anchor, h, hf, key) == FoundLeaf(atRoot, anchor, i, pos);
      RemoveFoundLeaf(hf, atRoot, anchor, d, key, i, pos);
    } else {
      assert Rem(atRoot, anchor, h, hf, key) == RemoveResult(RemoveNotFound, None, anchor);
      NotFoundRemoves(hf, atRoot, anchor, d, key);
    }
  }

  /** The walk goes on below the table row the key's chunk addresses. */
  lemma RemoveThroughRow<K, V>(hf: HashFn<K>, atRoot: bool, anchor: Node<K, V>, h: Hash<K>, h': Hash<K>, key: K, i: bv32, pos: nat)
    requires anchor.Table? && Valid(hf, anchor, h.depth) && WellFormed(anchor) && h == HashAt(hf, key, h.depth)
    requires (atRoot || Dense(anchor)) && h' == Next(hf, h)
    requires i == Index(h) && Bit(anchor.bitmap, i) && pos == GetPos(i, anchor.bitmap) && pos < |anchor.rows|
    requires anchor.rows[pos].Table? && WellFormed(anchor.rows[pos])
    requires RemovesKey(hf, false, anchor.rows[pos], h'.depth, key, Rem(false, anchor.rows[pos], h', hf, key))
    ensures RemovesKey(hf, atRoot, anchor, h.depth, key, Rem(atRoot, anchor, h, hf, key))
  {
    var res := Rem(false, anchor.rows[pos], h', hf, key);
    assert Rem(atRoot, anchor, h, hf, key) == ThroughRow(false, atRoot, anchor, pos, res);
    ThroughRowRemoves(hf, atRoot, anchor, h.depth, h'.depth, key, i, pos, res);
  }

  /** The walk meets the leaf holding the key: the row is dropped, by shrinking or by gathering. */
  lemma RemoveFoundLeaf<K, V>(hf: HashFn<K>, atRoot: bool, anchor: Node<K, V>, d: nat, key: K, i: bv32, pos: nat)
    requires anchor.Table? && Valid(hf, anchor, d) && WellFormed(anchor) && (atRoot || Dense(anchor))
    requires i == IndexAt(hf, key, d) && Bit(anchor.bitmap, i) && pos == GetPos(i, anchor.bitmap) && pos < |anchor.rows|
    requires anchor.rows[pos].Leaf? && anchor.rows[pos].key == key
    ensures RemovesKey(hf, atRoot, anchor, d, key, FoundLeaf(atRoot, anchor, i, pos))
  {
    var nRows := Popcount(anchor.bitmap);
    var v := Some(anchor.rows[pos].value);
    if nRows > 2 || atRoot || anchor.rows[1 - pos].Table? {
      var m := ShrinkTable(anchor, |anchor.rows|, i, pos);
      assert nRows != 1 || atRoot;
      assert FoundLeaf(atRoot, anchor, i, pos) == RemoveResult(RemoveSuccess, v, m);
      ShrinkRemoves(hf, atRoot, anchor, d, key, i, pos);
    } else {
      assert nRows == 2;
      assert GatherTable(anchor, 1 - pos) == anchor.rows[1 - pos];
      assert FoundLeaf(atRoot, anchor, i, pos) == RemoveResult(RemoveGathered, v, anchor.rows[1 - pos]);
      GatherRemoves(hf, anchor, d, key, i, pos);
    }
  }

  /** Shrinking away the leaf row of the key, where the table keeps enough rows, removes the key. */
  lemma ShrinkRemoves<K, V>(hf: HashFn<K>, atRoot: bool, anchor: Node<K, V>, d: nat, key: K, i: bv32, pos: nat)
    requires anchor.Table? && Valid(hf, anchor, d)
    requires i == IndexAt(hf, key, d) && Bit(anchor.bitmap, i) && pos == GetPos(i, anchor.bitmap) && pos < |anchor.rows|
    requires anchor.rows[pos].Leaf? && anchor.rows[pos].key == key
    requires atRoot || |anchor.rows| > 2 || (|anchor.rows| == 2 && anchor.rows[1 - pos].Table?)
    ensures var m := ShrinkTable(anchor, |anchor.rows|, i, pos);
      RemovesKey(hf, atRoot, anchor, d, key, RemoveResult(RemoveSuccess, Some(anchor.rows[pos].value), m))
  {
    var m := ShrinkTable(anchor, |anchor.rows|, i, pos);
    ContentsByRoute(hf, anchor, d, key);
    assert Contents(anchor.rows[pos]).Keys == {key};
    assert RowRemoved(anchor, m, i);
    RemoveRow(hf, anchor, d, i, m);
    if !atRoot && |anchor.rows| == 2 {
      assert m.rows[0] == anchor.rows[1 - pos];
    }
  }

  /** Gathering the other leaf row of a two-row table removes the key. */
  lemma GatherRemoves<K, V>(hf: HashFn<K>, anchor: Node<K, V>, d: nat, key: K, i: bv32, pos: nat)
    requires anchor.Table? && Valid(hf, anchor, d) && |anchor.rows| == 2
    requires i == IndexAt(hf, key, d) && Bit(anchor.bitmap, i) && pos == GetPos(i, anchor.bitmap) && pos < 2
    requires anchor.rows[pos].Leaf? && anchor.rows[pos].key == key && anchor.rows[1 - pos].Leaf?
    ensures RemovesKey(hf, false, anchor, d, key, RemoveResult(RemoveGathered, Some(anchor.rows[pos].value), anchor.rows[1 - pos]))
  {
    var leaf, other := anchor.rows[pos], anchor.rows[1 - pos];
    RoutedRowOnly(hf, anchor, d, other.key, 1 - pos, pos);
    assert anchor.rows == [anchor.rows[0], anchor.rows[1]];
    RowsContentsPair(anchor.rows[0], anchor.rows[1]);
    PairMinus(key, leaf.value, other.key, other.value);
  }

  /** Two one-pair maps joined are the map of both pairs. */
  lemma PairUnion<K, V>(a: K, v: V, b: K, w: V)
    ensures map[a := v] + map[b := w] == map[a := v, b := w]
  {
  }

  /** Dropping one of two pairs with different keys leaves the other. */
  lemma PairMinus<K, V>(key: K, v: V, x: K, w: V)
    requires key != x
    ensures (map[key := v] + map[x := w]) - {key} == map[x := w]
    ensures (map[x := w] + map[key := v]) - {key} == map[x := w]
  {
  }

  /**
   * The walk went on below the table row the key's chunk addresses and removed
   * the key there as `RemovesKey` says: so it does from the table.
   */
  lemma ThroughRowRemoves<K, V>(hf: HashFn<K>, atRoot: bool, anchor: Node<K, V>, d: nat, e: nat, key: K, i: bv32, pos: nat, res: RemoveResult<K, V>)
    requires anchor.Table? && Valid(hf, anchor, d) && WellFormed(anchor) && (atRoot || Dense(anchor)) && e == d + 1
    requires i == IndexAt(hf, key, d) && Bit(anchor.bitmap, i) && pos == GetPos(i, anchor.bitmap) && pos < |anchor.rows|
    requires anchor.rows[pos].Table? && RemovesKey(hf, false, anchor.rows[pos], e, key, res)
    ensures RemovesKey(hf, atRoot, anchor, d, key, ThroughRow(false, atRoot, anchor, pos, res))
  {
    ContentsByRoute(hf, anchor, d, key);
    if res.status == RemoveNotFound {
      NotFoundRemoves(hf, atRoot, anchor, d, key);
    } else {
      var copy := Table(anchor.bitmap, anchor.rows[pos := res.node]);
      ReplaceRemoves(hf, anchor, d, e, key, i, pos, res);
      if (!atRoot || pos != 0) && res.status == RemoveGathered && Popcount(anchor.bitmap) == 1 {
        var g := GatherTable(copy, 0);
        assert g == res.node;
        GatheredRemoves(hf, anchor, d, key, res.value, g);
      } else {
        assert atRoot || Dense(copy);
        CopyRemoves(hf, atRoot, anchor, d, key, res.value, copy);
      }
    }
  }

  /** An absent key: nothing changes. */
  lemma NotFoundRemoves<K, V>(hf: HashFn<K>, atRoot: bool, anchor: Node<K, V>, d: nat, key: K)
    requires anchor.Table? && Valid(hf, anchor, d) && (atRoot || Dense(anchor)) && key !in Contents(anchor)
    ensures RemovesKey(hf, atRoot, anchor, d, key, RemoveResult(RemoveNotFound, None, anchor))
  {
    assert Contents(anchor) - {key} == Contents(anchor);
  }

  /** A present key, removed into a valid table. */
  lemma CopyRemoves<K, V>(hf: HashFn<K>, atRoot: bool, anchor: Node<K, V>, d: nat, key: K, value: Option<V>, copy: Node<K, V>)
    requires key in Contents(anchor) && value == Some(Contents(anchor)[key])
    requires copy.Table? && Valid(hf, copy, d) && (atRoot || Dense(copy)) && Contents(copy) == Contents(anchor) - {key}
    ensures RemovesKey(hf, atRoot, anchor, d, key, RemoveResult(RemoveSuccess, value, copy))
  {
  }

  /** A present key, removed into a leaf gathered below the root. */
  lemma GatheredRemoves<K, V>(hf: HashFn<K>, anchor: Node<K, V>, d: nat, key: K, value: Option<V>, leaf: Node<K, V>)
    requires key in Contents(anchor) && value == Some(Contents(anchor)[key])
    requires leaf.Leaf? && Contents(leaf) == Contents(anchor) - {key}
    ensures RemovesKey(hf, false, anchor, d, key, RemoveResult(RemoveGathered, value, leaf))
  {
  }

  /** The row that held the key takes the node the walk below it left: the table loses exactly the key. */
  lemma ReplaceRemoves<K, V>(hf: HashFn<K>, anchor: Node<K, V>, d: nat, e: nat, key: K, i: bv32, pos: nat, res: RemoveResult<K, V>)
    requires anchor.Table? && Valid(hf, anchor, d) && e == d + 1
    requires i == IndexAt(hf, key, d) && Bit(anchor.bitmap, i) && pos == GetPos(i, anchor.bitmap) && pos < |anchor.rows|
    requires RemovesKey(hf, false, anchor.rows[pos], e, key, res) && res.status != RemoveNotFound
    ensures var copy := Table(anchor.bitmap, anchor.rows[pos := res.node]);
      Valid(hf, copy, d) && Contents(copy) == Contents(anchor) - {key} &&
      key in Contents(anchor) && res.value == Some(Contents(anchor)[key])
  {
    var b := anchor.bitmap;
    var next := anchor.rows[pos];
    var copy := Table(b, anchor.rows[pos := res.node]);
    ContentsByRoute(hf, anchor, d, key);
    RowSubmap(hf, anchor, d, pos);
    forall k | k in Contents(res.node)
      ensures Routes(hf, b, d, k, pos)
    {
      assert k in Contents(next);
      assert Routes(hf, b, d, k, pos);
    }
    ReplaceRow(hf, anchor, d, pos, res.node, copy);
    RemoveFromSubmap(Contents(anchor), Contents(next), key);
  }

  /**
   * `w` agrees with `r`, a removal from `anchor`, whenever `r` found the key;
   * when `r` did not, `w` leaves `anchor` as it was and returns no value, but
   * may report `RemoveSuccess`.
   */
  ghost predicate AgreesOnFound<K, V>(anchor: Node<K, V>, r: RemoveResult<K, V>, w: RemoveResult<K, V>)
  {
    (r.status != RemoveNotFound ==> w == r) &&
    (r.status == RemoveNotFound ==> r.node == anchor && w.node == anchor && w.value == None && w.status != RemoveGathered)
  }

  /** The walk as written agrees with `Rem` whenever the key is found. */
  lemma {:induction false} RemAsWrittenAgrees<K, V>(hf: HashFn<K>, atRoot: bool, anchor: Node<K, V>, h: Hash<K>, key: K)
    requires anchor.Table? && WellFormed(anchor) && h.shift <= 30
    ensures AgreesOnFound(anchor, Rem(atRoot, anchor, h, hf, key), RemAsWritten(atRoot, anchor, h, hf, key))
    decreases anchor
  {
    var i := Index(h);
    if Bit(anchor.bitmap, i) && anchor.rows[GetPos(i, anchor.bitmap)].Table? {
      var next := anchor.rows[GetPos(i, anchor.bitmap)];
      RemAsWrittenAgrees(hf, false, next, Next(hf, h), key);
      AgreesThroughRow(hf, atRoot, anchor, h, key);
    } else {
      AgreesInTable(hf, atRoot, anchor, h, key);
    }
  }

  /** Where the walk stops at `anchor`, both walks return the same result. */
  lemma AgreesInTable<K, V>(hf: HashFn<K>, atRoot: bool, anchor: Node<K, V>, h: Hash<K>, key: K)
    requires anchor.Table? && WellFormed(anchor) && h.shift <= 30
    requires Bit(anchor.bitmap, Index(h)) ==> anchor.rows[GetPos(Index(h), anchor.bitmap)].Leaf?
    ensures AgreesOnFound(anchor, Rem(atRoot, anchor, h, hf, key), RemAsWritten(atRoot, anchor, h, hf, key))
  {
    var i := Index(h);
    if Bit(anchor.bitmap, i) && key == anchor.rows[GetPos(i, anchor.bitmap)].key {
      var pos := GetPos(i, anchor.bitmap);
      assert Rem(atRoot, anchor, h, hf, key) == FoundLeaf(atRoot, anchor, i, pos);
      assert RemAsWritten(atRoot, anchor, h, hf, key) == FoundLeaf(atRoot, anchor, i, pos);
    } else {
      assert Rem(atRoot, anchor, h, hf, key) == RemoveResult(RemoveNotFound, None, anchor);
      assert RemAsWritten(atRoot, anchor, h, hf, key) == RemoveResult(RemoveNotFound, None, anchor);
    }
  }

  /** Where the walk goes on below `anchor`, the agreement below carries over. */
  lemma AgreesThroughRow<K, V>(hf: HashFn<K>, atRoot: bool, anchor: Node<K, V>, h: Hash<K>, key: K)
    requires anchor.Table? && WellFormed(anchor) && h.shift <= 30
    requires Bit(anchor.bitmap, Index(h)) && anchor.rows[GetPos(Index(h), anchor.bitmap)].Table?
    requires var next := anchor.rows[GetPos(Index(h), anchor.bitmap)];
      AgreesOnFound(next, Rem(false, next, Next(hf, h), hf, key), RemAsWritten(false, next, Next(hf, h), hf, key))
    ensures AgreesOnFound(anchor, Rem(atRoot, anchor, h, hf, key), RemAsWritten(atRoot, anchor, h, hf, key))
  {
    var pos := GetPos(Index(h), anchor.bitmap);
    var next := anchor.rows[pos];
    var rc, wc := Rem(false, next, Next(hf, h), hf, key), RemAsWritten(false, next, Next(hf, h), hf, key);
    assert Rem(atRoot, anchor, h, hf, key) == ThroughRow(false, atRoot, anchor, pos, rc);
    assert RemAsWritten(atRoot, anchor, h, hf, key) == ThroughRow(true, atRoot, anchor, pos, wc);
    ThroughRowAgrees(atRoot, anchor, pos, rc, wc);
  }

  /** The table-row branch keeps the agreement of the walks below it. */
  lemma ThroughRowAgrees<K, V>(atRoot: bool, anchor: Node<K, V>, pos: nat, rc: RemoveResult<K, V>, wc: RemoveResult<K, V>)
    requires anchor.Table? && WellFormed(anchor) && pos < |anchor.rows|
    requires AgreesOnFound(anchor.rows[pos], rc, wc)
    ensures AgreesOnFound(anchor, ThroughRow(false, atRoot, anchor, pos, rc), ThroughRow(true, atRoot, anchor, pos, wc))
  {
    if rc.status == RemoveNotFound {
      assert anchor.rows[pos := wc.node] == anchor.rows;
    }
  }

  /** A key hash for the counterexample below: 32 and 64 hash to themselves, every other key to 0. */
  function SmallHash(): HashFn<int>
  {
    (k: int, g: nat) => if k == 32 then 32 else if k == 64 then 64 else 0
  }

  /** Keys 0 and 32 share the root's row 0 and sit in a two-row table below it. */
  function SmallTrie(): Node<int, int>
  {
    Table(1, [Table(3, [Leaf(0, 0), Leaf(32, 1)])])
  }

  /** Under `SmallHash`, keys 0, 32 and 64 all select chunk 0 at the root; one level down they select 0, 1 and 2. */
  lemma SmallHashChunks()
    ensures IndexAt(SmallHash(), 0, 0) == 0 && IndexAt(SmallHash(), 32, 0) == 0 && IndexAt(SmallHash(), 64, 0) == 0
    ensures IndexAt(SmallHash(), 0, 1) == 0 && IndexAt(SmallHash(), 32, 1) == 1 && IndexAt(SmallHash(), 64, 1) == 2
  {
    var hf := SmallHash();
    assert HashAt(hf, 0, 1) == Hash(0, 0, 1, 5);
    assert HashAt(hf, 32, 1) == Hash(32, 32, 1, 5);
    assert HashAt(hf, 64, 1) == Hash(64, 64, 1, 5);
    ShiftRightIsShift(0, 5);
    ShiftRightIsShift(32, 5);
    ShiftRightIsShift(64, 5);
    ShiftRightIsShift(0, 0);
    ShiftRightIsShift(32, 0);
    ShiftRightIsShift(64, 0);
  }

  /** The bitmaps of `SmallTrie`: bit 0 alone, and bits 0 and 1. */
  lemma SmallBitmaps()
    ensures Popcount(1) == 1 && Popcount(3) == 2
    ensures Bit(1, 0) && Bit(3, 0) && Bit(3, 1) && !Bit(3, 2)
    ensures GetPos(0, 1) == 0 && GetPos(0, 3) == 0 && GetPos(1, 3) == 1
  {
    SmallCount(1, 1);
    SmallCount(3, 2);
  }

  /** The two-row table of `SmallTrie`, at depth 1, is valid and dense. */
  lemma SmallInnerValid()
    ensures var inner: Node<int, int> := Table(3, [Leaf(0, 0), Leaf(32, 1)]);
      Valid(SmallHash(), inner, 1) && Dense(inner) && Contents(inner) == map[0 := 0, 32 := 1]
  {
    var hf := SmallHash();
    var rows: seq<Node<int, int>> := [Leaf(0, 0), Leaf(32, 1)];
    RowsContentsPair(rows[0], rows[1]);
    PairUnion(0, 0, 32, 1);
    SmallHashChunks();
    SmallBitmaps();
    forall j, k | 0 <= j < |rows| && k in Contents(rows[j])
      ensures Routes(hf, 3, 1, k, j)
    {
      assert k == if j == 0 then 0 else 32;
    }
  }

  /** `SmallTrie` is a valid trie holding 0 and 32. */
  lemma SmallTrieValid()
    ensures Valid(SmallHash(), SmallTrie(), 0) && WellFormed(SmallTrie())
    ensures Contents(SmallTrie()) == map[0 := 0, 32 := 1]
  {
    var hf := SmallHash();
    var inner: Node<int, int> := Table(3, [Leaf(0, 0), Leaf(32, 1)]);
    SmallInnerValid();
    RowsContentsSingle(inner);
    SmallHashChunks();
    SmallBitmaps();
    forall j, k | 0 <= j < 1 && k in Contents([inner][j])
      ensures Routes(hf, 1, 0, k, j)
    {
      assert j == 0 && (k == 0 || k == 32);
    }
    assert WellFormed(inner);
  }

  /**
   * Removing the absent key 64 from `SmallTrie`: the walk goes down row 0 and
   * finds chunk 2's bit clear one level down. `Rem` reports `RemoveNotFound`;
   * the walk as written reports `RemoveSuccess`, so `hamt_remove` and
   * `hamt_premove` decrement the size of a trie that did not hold the key.
   */
  lemma RemAsWrittenMiscounts()
    ensures Valid(SmallHash(), SmallTrie(), 0) && WellFormed(SmallTrie()) && 64 !in Contents(SmallTrie())
    ensures Rem(true, SmallTrie(), Start(SmallHash(), 64), SmallHash(), 64).status == RemoveNotFound
    ensures RemAsWritten(true, SmallTrie(), Start(SmallHash(), 64), SmallHash(), 64).status == RemoveSuccess
  {
    var hf := SmallHash();
    var root := SmallTrie();
    SmallTrieValid();
    SmallHashChunks();
    var h := Start(hf, 64);
    assert h == HashAt(hf, 64, 0);
    var h' := Next(hf, h);
    assert h' == HashAt(hf, 64, 1);
    var inner := root.rows[0];
    assert Bit(1, 0) && GetPos(0, 1) == 0 && !Bit(3, 2);
    assert Rem(false, inner, h', hf, 64) == RemoveResult(RemoveNotFound, None, inner);
    assert RemAsWritten(false, inner, h', hf, 64) == RemoveResult(RemoveNotFound, None, inner);
    assert Rem(true, root, h, hf, 64) == ThroughRow(false, true, root, 0, Rem(false, inner, h', hf, 64));
    assert RemAsWritten(true, root, h, hf, 64) == ThroughRow(true, true, root, 0, RemAsWritten(false, inner, h', hf, 64));
  }
}
