/**
 * Trie nodes and the table operations on them (src/hamt.c:12-40, 180-243).
 *
 * A node is a value: a leaf with a key and its value, or a table with a 32-bit
 * bitmap and one row per set bit (the source's tagged union `HamtNode`).
 * `Contents` maps a node to the key/value pairs stored under it, `Valid` is the
 * routing invariant that every key sits in the row its hash chunk selects, and
 * `Dense` is the shape every table below the root keeps.
 */
module Nodes {
  import opened Bits
  import opened HashState

  datatype Node<K, V> = Leaf(key: K, value: V) | Table(bitmap: bv32, rows: seq<Node<K, V>>)

  /** A zeroed `HamtNode`: no bits, no rows. A fresh trie's root is one. */
  function EmptyTable<K, V>(): (r: Node<K, V>)
    ensures r.Table? && |r.rows| == 0 && Popcount(r.bitmap) == 0
    ensures forall j: bv32 :: j < 32 ==> !Bit(r.bitmap, j)
  {
    PopcountKnownAnswers();
    Table(0, [])
  }

  /** The zeroed table is a valid table with no pairs. */
  lemma EmptyTableValid<K, V>(hf: HashFn<K>, d: nat)
    ensures Valid(hf, EmptyTable<K, V>(), d) && WellFormed(EmptyTable<K, V>()) && Contents(EmptyTable<K, V>()) == map[]
  {
    PopcountKnownAnswers();
  }

  /** The key/value pairs stored under `n`. */
  ghost function Contents<K, V>(n: Node<K, V>): map<K, V>
  {
    match n
    case Leaf(k, v) => map[k := v]
    case Table(_, rows) => RowsContents(rows)
  }

  ghost function RowsContents<K, V>(rows: seq<Node<K, V>>): map<K, V>
  {
    if rows == [] then map[] else Contents(rows[0]) + RowsContents(rows[1..])
  }

  lemma RowsContentsSingle<K, V>(x: Node<K, V>)
    ensures RowsContents([x]) == Contents(x)
  {
    assert [x][1..] == [];
    assert Contents(x) + map[] == Contents(x);
  }

  lemma RowsContentsPair<K, V>(x: Node<K, V>, y: Node<K, V>)
    ensures RowsContents([x, y]) == Contents(x) + Contents(y)
  {
    assert [x, y][1..] == [y];
    RowsContentsSingle(y);
  }

  /** Every table has exactly one row per set bit of its bitmap. */
  ghost predicate WellFormed<K, V>(n: Node<K, V>)
  {
    match n
    case Leaf(_, _) => true
    case Table(b, rows) =>
      |rows| == Popcount(b) && forall j :: 0 <= j < |rows| ==> WellFormed(rows[j])
  }

  /** The row of table `n` that chunk `i` addresses is `x`. */
  predicate RowAt<K(==), V(==)>(n: Node<K, V>, i: bv32, x: Node<K, V>)
    requires n.Table? && i < 32
  {
    Bit(n.bitmap, i) && GetPos(i, n.bitmap) < |n.rows| && n.rows[GetPos(i, n.bitmap)] == x
  }

  /** Key `k` belongs in row `j` of a table with bitmap `b` at depth `d`. */
  ghost predicate Routes<K>(hf: HashFn<K>, b: bv32, d: nat, k: K, j: nat)
  {
    Bit(b, IndexAt(hf, k, d)) && GetPos(IndexAt(hf, k, d), b) == j
  }

  /**
   * A table below the root holds at least two rows, or one row that is itself a
   * table: removal gathers a table left with a single leaf into its parent.
   */
  ghost predicate Dense<K, V>(n: Node<K, V>)
  {
    n.Table? ==> |n.rows| >= 2 || (|n.rows| == 1 && n.rows[0].Table?)
  }

  /**
   * The routing invariant of a node met at depth `d`: every table is well formed,
   * every key under row `j` of a table routes to row `j`, and every table below
   * is dense.
   */
  ghost predicate Valid<K, V>(hf: HashFn<K>, n: Node<K, V>, d: nat)
  {
    match n
    case Leaf(_, _) => true
    case Table(b, rows) =>
      |rows| == Popcount(b) &&
      (forall j :: 0 <= j < |rows| ==> Valid(hf, rows[j], d + 1) && Dense(rows[j])) &&
      (forall j, k :: 0 <= j < |rows| && k in Contents(rows[j]) ==> Routes(hf, b, d, k, j))
  }

  lemma {:induction false} ValidIsWellFormed<K, V>(hf: HashFn<K>, n: Node<K, V>, d: nat)
    requires Valid(hf, n, d)
    ensures WellFormed(n)
  {
    if n.Table? {
      forall j | 0 <= j < |n.rows|
        ensures WellFormed(n.rows[j])
      {
        ValidIsWellFormed(hf, n.rows[j], d + 1);
      }
    }
  }

  /**
   * `mem_extend_table`: a table with one more row, a zeroed one at `pos`, and
   * bit `index` set; the rows before `pos` stay in place and the rest move up.
   */
  function ExtendTable<K, V>(anchor: Node<K, V>, nRows: nat, index: bv32, pos: nat): (r: Node<K, V>)
    requires anchor.Table? && nRows == |anchor.rows| && pos <= nRows && index < 32
    ensures r.Table? && |r.rows| == nRows + 1 && r.rows[pos] == EmptyTable()
    ensures forall j :: 0 <= j < pos ==> r.rows[j] == anchor.rows[j]
    ensures forall j :: pos < j <= nRows ==> r.rows[j] == anchor.rows[j - 1]
    ensures forall j: bv32 :: j < 32 ==> Bit(r.bitmap, j) == (Bit(anchor.bitmap, j) || j == index)
    ensures !Bit(anchor.bitmap, index) ==> Popcount(r.bitmap) == Popcount(anchor.bitmap) + 1
  {
    // With no rows both copies are empty, so one expression covers both branches of the source.
    Table(WithBit(anchor.bitmap, index), anchor.rows[..pos] + [EmptyTable()] + anchor.rows[pos..])
  }

  /**
   * `mem_shrink_table`: a table without row `pos` and with bit `index` cleared;
   * a table with no rows becomes a zeroed one.
   */
  function ShrinkTable<K, V>(anchor: Node<K, V>, nRows: nat, index: bv32, pos: nat): (r: Node<K, V>)
    requires anchor.Table? && nRows == |anchor.rows| && index < 32 && (nRows > 0 ==> pos < nRows)
    ensures r.Table?
    ensures nRows == 0 ==> r == EmptyTable()
    ensures nRows > 0 ==> |r.rows| == nRows - 1
    ensures nRows > 0 ==> forall j :: 0 <= j < pos ==> r.rows[j] == anchor.rows[j]
    ensures nRows > 0 ==> forall j :: pos <= j < nRows - 1 ==> r.rows[j] == anchor.rows[j + 1]
    ensures nRows > 0 ==> forall j: bv32 :: j < 32 ==> Bit(r.bitmap, j) == (Bit(anchor.bitmap, j) && j != index)
    ensures nRows > 0 && Bit(anchor.bitmap, index) ==> Popcount(r.bitmap) + 1 == Popcount(anchor.bitmap)
  {
    if nRows > 0 then
      Table(WithoutBit(anchor.bitmap, index), anchor.rows[..pos] + anchor.rows[pos + 1..])
    else
      EmptyTable()
  }

  /**
   * `mem_gather_table`: the node takes over the key and value of row `pos` of
   * its one- or two-row table. Gathering a one-row table keeps its contents;
   * gathering a two-row table keeps the pairs of row `pos` and drops those of
   * the other row.
   */
  function GatherTable<K, V>(anchor: Node<K, V>, pos: nat): (r: Node<K, V>)
    requires anchor.Table? && (pos == 0 || pos == 1)
    requires (Popcount(anchor.bitmap) == 1 || Popcount(anchor.bitmap) == 2) && |anchor.rows| == Popcount(anchor.bitmap)
    requires pos < |anchor.rows|
    ensures r == anchor.rows[pos]
    ensures |anchor.rows| == 1 ==> Contents(r) == Contents(anchor)
    ensures |anchor.rows| == 2 ==>
      Contents(r) == Contents(anchor.rows[pos]) &&
      Contents(anchor) == Contents(anchor.rows[0]) + Contents(anchor.rows[1])
  {
    if |anchor.rows| == 1 then
      RowsContentsSingle(anchor.rows[0]);
      assert anchor.rows == [anchor.rows[0]];
      anchor.rows[pos]
    else
      RowsContentsPair(anchor.rows[0], anchor.rows[1]);
      assert anchor.rows == [anchor.rows[0], anchor.rows[1]];
      anchor.rows[pos]
  }

  /** Extending a table and shrinking it again at the same index and position restores it. */
  lemma ShrinkUndoesExtend<K, V>(anchor: Node<K, V>, nRows: nat, index: bv32, pos: nat)
    requires anchor.Table? && nRows == |anchor.rows| && pos <= nRows && index < 32
    requires !Bit(anchor.bitmap, index)
    ensures ShrinkTable(ExtendTable(anchor, nRows, index, pos), nRows + 1, index, pos) == anchor
  {
    var e := ExtendTable(anchor, nRows, index, pos);
    var s := ShrinkTable(e, nRows + 1, index, pos);
    assert s.rows == anchor.rows;
    WithoutUndoesWith(anchor.bitmap, index);
  }

  /** Adding a pair by map union is the same as updating the map. */
  lemma UnionIsUpdate<K, V>(m: map<K, V>, k: K, v: V)
    ensures m + map[k := v] == m[k := v]
  {
  }

  /** Two maps that agree on their keys and values are equal. */
  lemma MapsAgree<K, V>(a: map<K, V>, b: map<K, V>)
    requires forall k :: k in a <==> k in b
    requires forall k :: k in a ==> a[k] == b[k]
    ensures a == b
  {
  }

  /**
   * Swapping a submap `r` of `c` that holds `key` whenever `c` does for `r`
   * with `key` set to `value` sets `key` to `value` in `c`.
   */
  lemma SwapSubmap<K, V>(c: map<K, V>, r: map<K, V>, key: K, value: V)
    requires forall k :: k in r ==> k in c && c[k] == r[k]
    requires key in c ==> key in r
    ensures (c - r.Keys) + r[key := value] == c[key := value]
  {
    var lhs := (c - r.Keys) + r[key := value];
    MapsAgree(lhs, c[key := value]);
  }

  /** Swapping a submap `r` of `c` for `r` without `key` removes `key` from `c`. */
  lemma RemoveFromSubmap<K, V>(c: map<K, V>, r: map<K, V>, key: K)
    requires forall k :: k in r ==> k in c && c[k] == r[k]
    requires key in c ==> key in r
    ensures (c - r.Keys) + (r - {key}) == c - {key}
  {
    MapsAgree((c - r.Keys) + (r - {key}), c - {key});
  }

  /** When no row but `p` can hold `k`, the rows hold `k` exactly when row `p` does, with its value. */
  lemma {:induction false} RowsContentsOnly<K, V>(rows: seq<Node<K, V>>, k: K, p: int)
    requires forall j :: 0 <= j < |rows| && j != p ==> k !in Contents(rows[j])
    ensures k in RowsContents(rows) <==> 0 <= p < |rows| && k in Contents(rows[p])
    ensures k in RowsContents(rows) ==> RowsContents(rows)[k] == Contents(rows[p])[k]
  {
    if rows != [] {
      forall j | 0 <= j < |rows[1..]| && j != p - 1
        ensures k !in Contents(rows[1..][j])
      {
        assert rows[1..][j] == rows[j + 1];
      }
      RowsContentsOnly(rows[1..], k, p - 1);
      if p != 0 {
        assert k !in Contents(rows[0]);
      }
    }
  }

  /**
   * Lookup by route: a valid table holds `k` exactly when the bit of `k`'s chunk
   * is set and the row that bit addresses holds `k`, with the same value.
   */
  lemma ContentsByRoute<K, V>(hf: HashFn<K>, n: Node<K, V>, d: nat, k: K)
    requires n.Table? && Valid(hf, n, d)
    ensures k in Contents(n) <==>
      Bit(n.bitmap, IndexAt(hf, k, d)) && k in Contents(n.rows[GetPos(IndexAt(hf, k, d), n.bitmap)])
    ensures k in Contents(n) ==>
      Contents(n)[k] == Contents(n.rows[GetPos(IndexAt(hf, k, d), n.bitmap)])[k]
  {
    var i := IndexAt(hf, k, d);
    var p := GetPos(i, n.bitmap);
    forall j | 0 <= j < |n.rows| && j != p
      ensures k !in Contents(n.rows[j])
    {
    }
    RowsContentsOnly(n.rows, k, p);
    if p < |n.rows| && k in Contents(n.rows[p]) {
      assert Routes(hf, n.bitmap, d, k, p);
    }
  }

  /** Each row of a valid table holds a part of the table's pairs. */
  lemma RowSubmap<K, V>(hf: HashFn<K>, n: Node<K, V>, d: nat, j: nat)
    requires n.Table? && Valid(hf, n, d) && j < |n.rows|
    ensures forall k :: k in Contents(n.rows[j]) ==> k in Contents(n) && Contents(n)[k] == Contents(n.rows[j])[k]
  {
    forall k | k in Contents(n.rows[j])
      ensures k in Contents(n) && Contents(n)[k] == Contents(n.rows[j])[k]
    {
      assert Routes(hf, n.bitmap, d, k, j);
      ContentsByRoute(hf, n, d, k);
    }
  }

  /** Every key under the row that chunk `i` addresses selects chunk `i`. */
  lemma RowKeysSelect<K, V>(hf: HashFn<K>, n: Node<K, V>, d: nat, i: bv32, k: K)
    requires n.Table? && Valid(hf, n, d) && i < 32 && Bit(n.bitmap, i)
    requires k in Contents(n.rows[GetPos(i, n.bitmap)])
    ensures IndexAt(hf, k, d) == i
  {
    assert Routes(hf, n.bitmap, d, k, GetPos(i, n.bitmap));
    PosOrdered(n.bitmap, IndexAt(hf, k, d), i);
  }

  /** A key routed to row `j` is held by no other row of a valid table. */
  lemma RoutedRowOnly<K, V>(hf: HashFn<K>, n: Node<K, V>, d: nat, k: K, j: nat, j': nat)
    requires n.Table? && Valid(hf, n, d) && j < |n.rows| && j' < |n.rows| && j != j'
    requires k in Contents(n.rows[j])
    ensures k !in Contents(n.rows[j'])
  {
    assert Routes(hf, n.bitmap, d, k, j);
  }

  /**
   * Replacing row `j` of a valid table by a valid dense node whose keys all route
   * to row `j` keeps the table valid and swaps that row's pairs for the node's.
   */
  lemma ReplaceRow<K, V>(hf: HashFn<K>, n: Node<K, V>, d: nat, j: nat, x: Node<K, V>, m: Node<K, V>)
    requires n.Table? && Valid(hf, n, d) && j < |n.rows|
    requires Valid(hf, x, d + 1) && Dense(x)
    requires forall k :: k in Contents(x) ==> Routes(hf, n.bitmap, d, k, j)
    requires m == Table(n.bitmap, n.rows[j := x])
    ensures Valid(hf, m, d)
    ensures Contents(m) == (Contents(n) - Contents(n.rows[j]).Keys) + Contents(x)
  {
    forall j', k | 0 <= j' < |m.rows| && k in Contents(m.rows[j'])
      ensures Routes(hf, m.bitmap, d, k, j')
    {
      if j' != j {
        assert m.rows[j'] == n.rows[j'];
      }
    }
    assert Valid(hf, m, d);
    var rhs := (Contents(n) - Contents(n.rows[j]).Keys) + Contents(x);
    forall k: K | k in Contents(m)
      ensures k in rhs && Contents(m)[k] == rhs[k]
    {
      ContentsByRoute(hf, m, d, k);
      ContentsByRoute(hf, n, d, k);
      if !Routes(hf, n.bitmap, d, k, j) {
        assert k !in Contents(x);
        assert k !in Contents(n.rows[j]);
      }
    }
    forall k: K | k in rhs
      ensures k in Contents(m)
    {
      ContentsByRoute(hf, m, d, k);
      ContentsByRoute(hf, n, d, k);
      if !Routes(hf, n.bitmap, d, k, j) {
        assert k !in Contents(x);
        assert k !in Contents(n.rows[j]);
      }
    }
    MapsAgree(Contents(m), rhs);
  }

  /**
   * `m` is table `n` with node `x` inserted at the position of the clear chunk
   * bit `i`, and that bit set: the shape `mem_extend_table` and a row write leave.
   */
  ghost predicate RowInserted<K, V>(n: Node<K, V>, m: Node<K, V>, i: bv32, x: Node<K, V>)
    requires n.Table? && i < 32 && |n.rows| == Popcount(n.bitmap)
  {
    m.Table? && |m.rows| == |n.rows| + 1 && Popcount(m.bitmap) == Popcount(n.bitmap) + 1 &&
    (forall j: bv32 :: j < 32 ==> Bit(m.bitmap, j) == (Bit(n.bitmap, j) || j == i)) &&
    m.rows[GetPos(i, n.bitmap)] == x &&
    (forall j :: 0 <= j < GetPos(i, n.bitmap) ==> m.rows[j] == n.rows[j]) &&
    (forall j :: GetPos(i, n.bitmap) < j <= |n.rows| ==> m.rows[j] == n.rows[j - 1])
  }

  /**
   * `m` is table `n` without the row at the position of the set chunk bit `i`,
   * and with that bit cleared: the shape `mem_shrink_table` leaves.
   */
  ghost predicate RowRemoved<K, V>(n: Node<K, V>, m: Node<K, V>, i: bv32)
    requires n.Table? && i < 32 && |n.rows| == Popcount(n.bitmap) && Bit(n.bitmap, i)
  {
    m.Table? && |m.rows| == |n.rows| - 1 && Popcount(m.bitmap) + 1 == Popcount(n.bitmap) &&
    (forall j: bv32 :: j < 32 ==> Bit(m.bitmap, j) == (Bit(n.bitmap, j) && j != i)) &&
    (forall j :: 0 <= j < GetPos(i, n.bitmap) ==> m.rows[j] == n.rows[j]) &&
    (forall j :: GetPos(i, n.bitmap) <= j < |n.rows| - 1 ==> m.rows[j] == n.rows[j + 1])
  }

  /** After an insertion at chunk `i`, every other chunk of `n` addresses the same row, shifted past the new one. */
  lemma InsertedRowShift<K, V>(n: Node<K, V>, m: Node<K, V>, i: bv32, x: Node<K, V>, q: bv32)
    requires n.Table? && i < 32 && |n.rows| == Popcount(n.bitmap) && !Bit(n.bitmap, i)
    requires RowInserted(n, m, i, x)
    requires q < 32 && Bit(n.bitmap, q)
    ensures Bit(m.bitmap, q)
    ensures GetPos(q, m.bitmap) ==
      if GetPos(q, n.bitmap) < GetPos(i, n.bitmap) then GetPos(q, n.bitmap) else GetPos(q, n.bitmap) + 1
    ensures m.rows[GetPos(q, m.bitmap)] == n.rows[GetPos(q, n.bitmap)]
  {
    PosAfterInsert(n.bitmap, m.bitmap, i, q);
    AddedRowShift(n.rows, m.rows, GetPos(i, n.bitmap), GetPos(q, n.bitmap));
  }

  /** Row `p` of `rows` is found one place later from the added row `pi` on. */
  lemma AddedRowShift<K, V>(rows: seq<Node<K, V>>, rows': seq<Node<K, V>>, pi: nat, p: nat)
    requires |rows'| == |rows| + 1 && p < |rows| && pi <= |rows|
    requires forall j :: 0 <= j < pi ==> rows'[j] == rows[j]
    requires forall j :: pi < j <= |rows| ==> rows'[j] == rows[j - 1]
    ensures rows'[if p < pi then p else p + 1] == rows[p]
  {
    if p >= pi {
      assert rows'[p + 1] == rows[(p + 1) - 1];
    }
  }

  /** After an insertion at chunk `i`, chunk `i` addresses the new row. */
  lemma InsertedRowAt<K, V>(n: Node<K, V>, m: Node<K, V>, i: bv32, x: Node<K, V>)
    requires n.Table? && i < 32 && |n.rows| == Popcount(n.bitmap) && !Bit(n.bitmap, i)
    requires RowInserted(n, m, i, x)
    ensures Bit(m.bitmap, i) && GetPos(i, m.bitmap) == GetPos(i, n.bitmap)
    ensures m.rows[GetPos(i, m.bitmap)] == x
  {
    CountOneMore(n.bitmap, m.bitmap, i, i);
  }

  lemma InsertRowRoutes<K, V>(hf: HashFn<K>, n: Node<K, V>, d: nat, i: bv32, x: Node<K, V>, m: Node<K, V>, j': nat, k: K)
    requires n.Table? && Valid(hf, n, d) && i < 32 && !Bit(n.bitmap, i)
    requires forall k :: k in Contents(x) ==> IndexAt(hf, k, d) == i
    requires RowInserted(n, m, i, x)
    requires j' < |m.rows| && k in Contents(m.rows[j'])
    ensures Routes(hf, m.bitmap, d, k, j')
  {
    var p := GetPos(i, n.bitmap);
    var ik := IndexAt(hf, k, d);
    if j' == p {
      InsertedRowAt(n, m, i, x);
    } else if j' < p {
      assert m.rows[j'] == n.rows[j'];
      assert Routes(hf, n.bitmap, d, k, j');
      InsertedRowShift(n, m, i, x, ik);
    } else {
      assert m.rows[j'] == n.rows[j' - 1];
      assert Routes(hf, n.bitmap, d, k, j' - 1);
      InsertedRowShift(n, m, i, x, ik);
    }
  }

  lemma InsertRowKey<K, V>(hf: HashFn<K>, n: Node<K, V>, d: nat, i: bv32, x: Node<K, V>, m: Node<K, V>, k: K)
    requires n.Table? && Valid(hf, n, d) && i < 32 && !Bit(n.bitmap, i)
    requires forall k :: k in Contents(x) ==> IndexAt(hf, k, d) == i
    requires RowInserted(n, m, i, x) && Valid(hf, m, d)
    ensures k in Contents(m) <==> k in Contents(n) + Contents(x)
    ensures k in Contents(m) ==> Contents(m)[k] == (Contents(n) + Contents(x))[k]
  {
    var ik := IndexAt(hf, k, d);
    ContentsByRoute(hf, m, d, k);
    ContentsByRoute(hf, n, d, k);
    if ik == i {
      InsertedRowAt(n, m, i, x);
    } else {
      assert k !in Contents(x);
      if Bit(n.bitmap, ik) {
        InsertedRowShift(n, m, i, x, ik);
      }
    }
  }

  /**
   * Inserting node `x` at the position of the clear chunk bit `i` keeps a valid
   * table valid and adds the pairs of `x`, whose keys all route through chunk `i`.
   */
  lemma InsertRow<K, V>(hf: HashFn<K>, n: Node<K, V>, d: nat, i: bv32, x: Node<K, V>, m: Node<K, V>)
    requires n.Table? && Valid(hf, n, d) && i < 32 && !Bit(n.bitmap, i)
    requires Valid(hf, x, d + 1) && Dense(x)
    requires forall k :: k in Contents(x) ==> IndexAt(hf, k, d) == i
    requires RowInserted(n, m, i, x)
    ensures Valid(hf, m, d)
    ensures Contents(m) == Contents(n) + Contents(x)
  {
    forall j', k | 0 <= j' < |m.rows| && k in Contents(m.rows[j'])
      ensures Routes(hf, m.bitmap, d, k, j')
    {
      InsertRowRoutes(hf, n, d, i, x, m, j', k);
    }
    forall j' | 0 <= j' < |m.rows|
      ensures Valid(hf, m.rows[j'], d + 1) && Dense(m.rows[j'])
    {
      var p := GetPos(i, n.bitmap);
      if j' < p {
        assert m.rows[j'] == n.rows[j'];
      } else if j' > p {
        assert m.rows[j'] == n.rows[j' - 1];
      }
    }
    assert Valid(hf, m, d);
    var rhs := Contents(n) + Contents(x);
    forall k: K | k in Contents(m)
      ensures k in rhs && Contents(m)[k] == rhs[k]
    {
      InsertRowKey(hf, n, d, i, x, m, k);
    }
    forall k: K | k in rhs
      ensures k in Contents(m)
    {
      InsertRowKey(hf, n, d, i, x, m, k);
    }
    MapsAgree(Contents(m), rhs);
  }

  /** After the removal at chunk `i`, every other chunk of `n` addresses the same row, shifted into the gap. */
  lemma RemovedRowShift<K, V>(n: Node<K, V>, m: Node<K, V>, i: bv32, q: bv32)
    requires n.Table? && i < 32 && |n.rows| == Popcount(n.bitmap) && Bit(n.bitmap, i)
    requires RowRemoved(n, m, i)
    requires q < 32 && Bit(n.bitmap, q) && q != i
    ensures Bit(m.bitmap, q)
    ensures GetPos(q, m.bitmap) ==
      if GetPos(q, n.bitmap) < GetPos(i, n.bitmap) then GetPos(q, n.bitmap) else GetPos(q, n.bitmap) - 1
    ensures GetPos(q, n.bitmap) != GetPos(i, n.bitmap)
    ensures m.rows[GetPos(q, m.bitmap)] == n.rows[GetPos(q, n.bitmap)]
  {
    PosAfterRemove(n.bitmap, m.bitmap, i, q);
    DroppedRowShift(n.rows, m.rows, GetPos(i, n.bitmap), GetPos(q, n.bitmap));
  }

  /** Row `p` of `rows` is found one place earlier past the dropped row `pi`. */
  lemma DroppedRowShift<K, V>(rows: seq<Node<K, V>>, rows': seq<Node<K, V>>, pi: nat, p: nat)
    requires |rows'| + 1 == |rows| && p < |rows| && pi < |rows| && p != pi
    requires forall j :: 0 <= j < pi ==> rows'[j] == rows[j]
    requires forall j :: pi <= j < |rows'| ==> rows'[j] == rows[j + 1]
    ensures (if p < pi then p else p - 1) < |rows'|
    ensures rows'[if p < pi then p else p - 1] == rows[p]
  {
    if p > pi {
      assert rows'[p - 1] == rows[(p - 1) + 1];
    }
  }

  lemma RemoveRowRoutes<K, V>(hf: HashFn<K>, n: Node<K, V>, d: nat, i: bv32, m: Node<K, V>, j': nat, k: K)
    requires n.Table? && Valid(hf, n, d) && i < 32 && Bit(n.bitmap, i)
    requires RowRemoved(n, m, i)
    requires j' < |m.rows| && k in Contents(m.rows[j'])
    ensures Routes(hf, m.bitmap, d, k, j')
  {
    var b := n.bitmap;
    var ik := IndexAt(hf, k, d);
    if j' < GetPos(i, b) {
      assert m.rows[j'] == n.rows[j'];
      assert Routes(hf, b, d, k, j');
    } else {
      assert m.rows[j'] == n.rows[j' + 1];
      assert Routes(hf, b, d, k, j' + 1);
    }
    RemovedRowShift(n, m, i, ik);
  }

  lemma RemoveRowKey<K, V>(hf: HashFn<K>, n: Node<K, V>, d: nat, i: bv32, m: Node<K, V>, k: K)
    requires n.Table? && Valid(hf, n, d) && i < 32 && Bit(n.bitmap, i)
    requires RowRemoved(n, m, i) && Valid(hf, m, d)
    ensures k in Contents(m) <==> k in Contents(n) - Contents(n.rows[GetPos(i, n.bitmap)]).Keys
    ensures k in Contents(m) ==> Contents(m)[k] == Contents(n)[k]
  {
    var p := GetPos(i, n.bitmap);
    var ik := IndexAt(hf, k, d);
    ContentsByRoute(hf, m, d, k);
    ContentsByRoute(hf, n, d, k);
    if ik != i && Bit(n.bitmap, ik) {
      RemovedRowShift(n, m, i, ik);
      if k in Contents(n.rows[GetPos(ik, n.bitmap)]) {
        RoutedRowOnly(hf, n, d, k, GetPos(ik, n.bitmap), p);
      }
    }
  }

  /**
   * Removing the row at the position of the set chunk bit `i` keeps a valid table
   * valid and drops exactly the keys of that row.
   */
  lemma RemoveRow<K, V>(hf: HashFn<K>, n: Node<K, V>, d: nat, i: bv32, m: Node<K, V>)
    requires n.Table? && Valid(hf, n, d) && i < 32 && Bit(n.bitmap, i)
    requires RowRemoved(n, m, i)
    ensures Valid(hf, m, d)
    ensures Contents(m) == Contents(n) - Contents(n.rows[GetPos(i, n.bitmap)]).Keys
  {
    var p := GetPos(i, n.bitmap);
    forall j', k | 0 <= j' < |m.rows| && k in Contents(m.rows[j'])
      ensures Routes(hf, m.bitmap, d, k, j')
    {
      RemoveRowRoutes(hf, n, d, i, m, j', k);
    }
    forall j' | 0 <= j' < |m.rows|
      ensures Valid(hf, m.rows[j'], d + 1) && Dense(m.rows[j'])
    {
      if j' < p {
        assert m.rows[j'] == n.rows[j'];
      } else {
        assert m.rows[j'] == n.rows[j' + 1];
      }
    }
    assert Valid(hf, m, d);
    var rhs := Contents(n) - Contents(n.rows[p]).Keys;
    forall k: K | k in Contents(m)
      ensures k in rhs && Contents(m)[k] == rhs[k]
    {
      RemoveRowKey(hf, n, d, i, m, k);
    }
    forall k: K | k in rhs
      ensures k in Contents(m)
    {
      RemoveRowKey(hf, n, d, i, m, k);
    }
    MapsAgree(Contents(m), rhs);
  }
}
