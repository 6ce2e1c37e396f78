/**
 * Hash-state management of the trie walk (src/hamt.c:50-57, 89-103).
 *
 * A `Hash` records the key, the 32-bit hash in force, the depth of the walk and
 * the bit offset of the current 5-bit chunk. The generation passed to the key
 * hash function is the source's rehash argument: once the 30 usable bits of a
 * hash are used up, the key is hashed again with a new generation.
 */
module HashState {

  /** `HamtKeyHashFn`: a 32-bit hash of a key for a given generation. */
  type HashFn<!K> = (K, nat) -> bv32

  /** `struct Hash` (the hash function itself is passed alongside). */
  datatype Hash<K> = Hash(key: K, hash: bv32, depth: nat, shift: nat)

  /** The hash state at the root, as `set`, `hamt_get` and `hamt_remove` build it. */
  function Start<K>(hf: HashFn<K>, key: K): (h: Hash<K>)
    ensures h.key == key && h.depth == 0 && h.shift == 0
  {
    Hash(key, hf(key, 0), 0, 0)
  }

  /**
   * `hash_next`: one level deeper, five bits further; when the offset passes 30
   * the key is rehashed with generation `depth / 5` and the offset restarts at 0.
   */
  function Next<K>(hf: HashFn<K>, h: Hash<K>): (r: Hash<K>)
    ensures r.key == h.key && r.depth == h.depth + 1
    ensures r.shift <= 30
  {
    var depth := h.depth + 1;
    var shift := h.shift + 5;
    if shift > 30 then Hash(h.key, hf(h.key, depth / 5), depth, 0)
    else Hash(h.key, h.hash, depth, shift)
  }

  /** `hash_get_index`: the 5-bit chunk of the hash at the current offset. */
  function Index<K>(h: Hash<K>): (r: bv32)
    requires h.shift < 32
    ensures r < 32
  {
    ShiftRight(h.hash, h.shift) & 0x1f
  }

  /** `x >> n`, one bit at a time. */
  function ShiftRight(x: bv32, n: nat): bv32
  {
    if n == 0 then x else ShiftRight(x >> 1, n - 1)
  }

  /** Shifting by one after shifting by `m` is shifting by `m + 1`. */
  lemma ShiftOneMore(x: bv32, m: bv32)
    requires m < 31
    ensures (x >> 1) >> m == x >> (m + 1)
  {}

  lemma PredecessorAsNat(m: bv32)
    requires 0 < m < 32
    ensures (m - 1) as nat == m as nat - 1
  {}

  /** The stepwise shift is the machine shift `x >> m`. */
  lemma {:induction false} ShiftRightIsShift(x: bv32, m: bv32)
    requires m < 32
    ensures ShiftRight(x, m as nat) == x >> m
  {
    if m > 0 {
      ShiftRightIsShift(x >> 1, m - 1);
      PredecessorAsNat(m);
      ShiftOneMore(x, m - 1);
    }
  }

  /** The hash state reached by walking `key` from the root down to depth `d`. */
  ghost function HashAt<K>(hf: HashFn<K>, key: K, d: nat): (h: Hash<K>)
    ensures h.key == key && h.depth == d && h.shift <= 30
  {
    if d == 0 then Start(hf, key) else Next(hf, HashAt(hf, key, d - 1))
  }

  /** The chunk index that routes `key` at depth `d`. */
  ghost function IndexAt<K>(hf: HashFn<K>, key: K, d: nat): (r: bv32)
    ensures r < 32
  {
    Index(HashAt(hf, key, d))
  }

  /** The depth of the last rehash at or above depth `d`: every seventh level rehashes. */
  function RehashDepth(d: nat): (r: nat)
    ensures r <= d < r + 7
  {
    if d < 7 then 0 else RehashDepth(d - 7) + 7
  }

  /** The generation of the hash in force at depth `d`: the depth of the last rehash, divided by five. */
  function Generation(d: nat): nat
  {
    RehashDepth(d) / 5
  }

  /**
   * The walk in closed form: at depth `d` the offset is five bits per level
   * since the last rehash, and the hash in force is the key's hash for
   * generation `Generation(d)`.
   */
  lemma {:induction false} HashAtClosedForm<K>(hf: HashFn<K>, key: K, d: nat)
    ensures HashAt(hf, key, d) == Hash(key, hf(key, Generation(d)), d, 5 * (d - RehashDepth(d)))
  {
    if d > 0 {
      HashAtClosedForm(hf, key, d - 1);
      RehashStep(d);
      var up := d - 1 - RehashDepth(d - 1);
      assert 0 <= up < 7;
      if up == 6 {
        assert HashAt(hf, key, d) == Hash(key, hf(key, d / 5), d, 0);
      } else {
        assert HashAt(hf, key, d) == Hash(key, hf(key, Generation(d - 1)), d, 5 * up + 5);
      }
    }
  }

  /** One level down, the last rehash moves to `d` exactly when six levels have passed since it. */
  lemma {:induction false} RehashStep(d: nat)
    requires d > 0
    ensures d - 1 - RehashDepth(d - 1) == 6 ==> RehashDepth(d) == d
    ensures d - 1 - RehashDepth(d - 1) != 6 ==> RehashDepth(d) == RehashDepth(d - 1)
  {
    if d >= 8 {
      RehashStep(d - 7);
    }
  }

  /**
   * The hash state `insert_table` rebuilds for the key `existing` already stored
   * in a leaf at the depth of `h`, with the generation in force at that depth.
   */
  function ExistingKeyHash<K>(hf: HashFn<K>, existing: K, h: Hash<K>): (r: Hash<K>)
    ensures r.key == existing && r.depth == h.depth && r.shift == h.shift
  {
    Hash(existing, hf(existing, Generation(h.depth)), h.depth, h.shift)
  }

  /** The rebuilt state is exactly where a walk of `existing` from the root would be. */
  lemma ExistingKeyHashReplaysWalk<K>(hf: HashFn<K>, key: K, existing: K, d: nat)
    ensures ExistingKeyHash(hf, existing, HashAt(hf, key, d)) == HashAt(hf, existing, d)
  {
    HashAtClosedForm(hf, key, d);
    HashAtClosedForm(hf, existing, d);
  }

  /** `insert_table`'s rebuilt state as the source writes it: generation `depth / 5`. */
  function ExistingKeyHashAsWritten<K>(hf: HashFn<K>, existing: K, h: Hash<K>): (r: Hash<K>)
    ensures r.key == existing && r.depth == h.depth && r.shift == h.shift
  {
    Hash(existing, hf(existing, h.depth / 5), h.depth, h.shift)
  }

  /**
   * At the depths where `depth / 5` is the generation in force (all depths below
   * 5, for instance) the source's rebuilt state is the right one.
   */
  lemma ExistingKeyHashAsWrittenAgreesEarly<K>(hf: HashFn<K>, key: K, existing: K, d: nat)
    requires Generation(d) == d / 5
    ensures ExistingKeyHashAsWritten(hf, existing, HashAt(hf, key, d)) == HashAt(hf, existing, d)
  {
    HashAtClosedForm(hf, key, d);
    HashAtClosedForm(hf, existing, d);
  }

  /** The depths below 5 are such depths; depth 5 is the first that is not. */
  lemma GenerationOfEarlyDepths(d: nat)
    ensures d < 5 ==> Generation(d) == d / 5
    ensures Generation(5) != 5 / 5
  {
  }

  /**
   * The key hash of the misrouting example: in generation 0 it is the key
   * itself for keys 0x02000000 and 0x40000000 and 0 for every other key; in
   * every later generation it is `0xC0000000`.
   */
  function MisrouteHash(): HashFn<int>
  {
    (k: int, g: nat) =>
      if g > 0 then 0xC000_0000
      else if k == 0x0200_0000 then 0x0200_0000
      else if k == 0x4000_0000 then 0x4000_0000
      else 0
  }

  /** Above the first rehash, the chunk at depth `d` is bits `5 * d` on of the generation-0 hash. */
  lemma EarlyIndexAt<K>(hf: HashFn<K>, key: K, d: nat)
    requires d < 7
    ensures IndexAt(hf, key, d) == ShiftRight(hf(key, 0), 5 * d) & 0x1f
  {
    HashAtClosedForm(hf, key, d);
  }

  /**
   * The chunks of keys 0, 0x02000000 and 0x40000000 under `MisrouteHash`.
   * Inserting 0 and then 0x02000000 stores key 0 in a leaf of a two-row table
   * at depth 5, since the two keys first part there; inserting 0x40000000
   * next walks down to that leaf, since it shares every chunk of key 0 down to
   * depth 5, and the two keys first part at depth 6.
   */
  lemma MisrouteHashChunks()
    ensures forall d: nat :: d < 5 ==> IndexAt(MisrouteHash(), 0x0200_0000, d) == IndexAt(MisrouteHash(), 0, d)
    ensures IndexAt(MisrouteHash(), 0, 5) == 0 && IndexAt(MisrouteHash(), 0x0200_0000, 5) == 1
    ensures forall d: nat :: d <= 5 ==> IndexAt(MisrouteHash(), 0x4000_0000, d) == IndexAt(MisrouteHash(), 0, d)
    ensures IndexAt(MisrouteHash(), 0, 6) == 0 && IndexAt(MisrouteHash(), 0x4000_0000, 6) == 1
  {
    forall d: nat | d < 7 {
      MisrouteHashChunksAt(d);
    }
  }

  /** The chunks of the three keys at one depth above the first rehash. */
  lemma MisrouteHashChunksAt(d: nat)
    requires d < 7
    ensures IndexAt(MisrouteHash(), 0, d) == 0
    ensures IndexAt(MisrouteHash(), 0x0200_0000, d) == if d == 5 then 1 else 0
    ensures IndexAt(MisrouteHash(), 0x4000_0000, d) == if d == 6 then 1 else 0
  {
    var hf := MisrouteHash();
    EarlyIndexAt(hf, 0, d);
    EarlyIndexAt(hf, 0x0200_0000, d);
    EarlyIndexAt(hf, 0x4000_0000, d);
    SingleBitChunks(d);
  }

  /** Of the generation-0 hashes, 0 has no set bit, bit 25 lies in chunk 5 and bit 30 in chunk 6. */
  lemma SingleBitChunks(d: nat)
    requires d < 7
    ensures ShiftRight(0, 5 * d) & 0x1f == 0
    ensures ShiftRight(0x0200_0000, 5 * d) & 0x1f == if d == 5 then 1 else 0
    ensures ShiftRight(0x4000_0000, 5 * d) & 0x1f == if d == 6 then 1 else 0
  {
    if d == 0 {
      ThreeShifts(0);
    } else if d == 1 {
      ThreeShifts(5);
    } else if d == 2 {
      ThreeShifts(10);
    } else if d == 3 {
      ThreeShifts(15);
    } else if d == 4 {
      ThreeShifts(20);
    } else if d == 5 {
      ThreeShifts(25);
    } else {
      ThreeShifts(30);
    }
  }

  /** The stepwise shift of the three generation-0 hashes is the machine shift. */
  lemma ThreeShifts(m: bv32)
    requires m < 32
    ensures ShiftRight(0, m as nat) == 0
    ensures ShiftRight(0x0200_0000, m as nat) == 0x0200_0000 >> m
    ensures ShiftRight(0x4000_0000, m as nat) == 0x4000_0000 >> m
  {
    ShiftRightIsShift(0, m);
    ShiftRightIsShift(0x0200_0000, m);
    ShiftRightIsShift(0x4000_0000, m);
  }

  /**
   * The collision of `MisrouteHashChunks`, met at depth 5 when 0x40000000 is
   * inserted: the source rebuilds the state of the existing key 0 with
   * generation 1, so at depth 6 it files key 0 under chunk 3 and the new key
   * under chunk 1, while every later walk of key 0 looks under chunk 0, a row
   * that table does not have.
   */
  lemma ExistingKeyHashAsWrittenMisroutes()
    ensures var h := HashAt(MisrouteHash(), 0x4000_0000, 5);
      Index(Next(MisrouteHash(), ExistingKeyHashAsWritten(MisrouteHash(), 0, h))) == 3 &&
      Index(Next(MisrouteHash(), ExistingKeyHash(MisrouteHash(), 0, h))) == 0 &&
      IndexAt(MisrouteHash(), 0x4000_0000, 6) == 1 &&
      IndexAt(MisrouteHash(), 0, 6) == 0
  {
    var hf := MisrouteHash();
    HashAtClosedForm(hf, 0x4000_0000, 5);
    var w := Next(hf, ExistingKeyHashAsWritten(hf, 0, HashAt(hf, 0x4000_0000, 5)));
    assert w == Hash(0, 0xC000_0000, 6, 30);
    ShiftRightIsShift(0xC000_0000, 30);
    ExistingKeyHashReplaysWalk(hf, 0x4000_0000, 0, 5);
    MisrouteHashChunks();
  }

  /**
   * Keys `a` and `b` select different chunks at some depth from `d` on: the
   * condition under which `insert_table`'s loop ends.
   */
  ghost predicate Diverge<K>(hf: HashFn<K>, a: K, b: K, d: nat)
  {
    exists n: nat :: DivergeWithin(hf, a, b, d, n)
  }

  /** Keys `a` and `b` select different chunks at one of the depths `d` to `d + n`. */
  ghost predicate DivergeWithin<K>(hf: HashFn<K>, a: K, b: K, d: nat, n: nat)
    decreases n
  {
    IndexAt(hf, a, d) != IndexAt(hf, b, d) || (n > 0 && DivergeWithin(hf, a, b, d + 1, n - 1))
  }

  /** A key hash that sends every key to 0 in every generation. */
  function ConstantHash(): HashFn<int>
  {
    (k: int, g: nat) => 0
  }

  /** Under `ConstantHash`, keys 0 and 1 select the same chunk at every depth. */
  lemma ConstantHashAgrees(d: nat)
    ensures IndexAt(ConstantHash(), 0, d) == IndexAt(ConstantHash(), 1, d)
  {
    HashAtClosedForm(ConstantHash(), 0, d);
    HashAtClosedForm(ConstantHash(), 1, d);
  }

  /**
   * Keys 0 and 1 never diverge under `ConstantHash`: the condition of
   * `insert_table`'s loop holds at every depth, so the loop never ends.
   */
  lemma ConstantHashNeverDiverges(d: nat)
    ensures !Diverge(ConstantHash(), 0, 1, d)
  {
    forall n: nat
      ensures !DivergeWithin(ConstantHash(), 0, 1, d, n)
    {
      AgreeWithin(d, n);
    }
  }

  lemma {:induction false} AgreeWithin(d: nat, n: nat)
    ensures !DivergeWithin(ConstantHash(), 0, 1, d, n)
    decreases n
  {
    ConstantHashAgrees(d);
    if n > 0 {
      AgreeWithin(d + 1, n - 1);
    }
  }

  /** The divergence is at a depth from `d + 1` on when the chunks at `d` agree. */
  lemma DivergeDeeper<K>(hf: HashFn<K>, a: K, b: K, d: nat, e: nat)
    requires e == d + 1 && Diverge(hf, a, b, d) && IndexAt(hf, a, d) == IndexAt(hf, b, d)
    ensures Diverge(hf, a, b, e)
  {
    var n: nat :| DivergeWithin(hf, a, b, d, n);
    assert DivergeWithin(hf, a, b, e, n - 1);
  }

  /** Any depth where the chunks differ witnesses divergence from every depth above it. */
  lemma {:induction false} DivergeAt<K>(hf: HashFn<K>, a: K, b: K, d: nat, e: nat)
    requires d <= e && IndexAt(hf, a, e) != IndexAt(hf, b, e)
    ensures DivergeWithin(hf, a, b, d, e - d)
    decreases e - d
  {
    if d < e {
      DivergeAt(hf, a, b, d + 1, e);
    }
  }

  /** The chunks that `key` selects at depths `d` to `e - 1`, from the top down. */
  ghost function Chunks<K>(hf: HashFn<K>, key: K, d: nat, e: nat): (r: seq<bv32>)
    requires d <= e
    ensures |r| == e - d
    decreases e - d
  {
    if e == d then [] else Chunks(hf, key, d, e - 1) + [IndexAt(hf, key, e - 1)]
  }

  /** The chunks, one depth at a time. */
  lemma {:induction false} ChunksAt<K>(hf: HashFn<K>, key: K, d: nat, e: nat)
    requires d <= e
    ensures forall j :: 0 <= j < e - d ==> Chunks(hf, key, d, e)[j] < 32 && Chunks(hf, key, d, e)[j] == IndexAt(hf, key, d + j)
    decreases e - d
  {
    if d < e {
      ChunksAt(hf, key, d, e - 1);
      var front := Chunks(hf, key, d, e - 1);
      assert Chunks(hf, key, d, e) == front + [IndexAt(hf, key, e - 1)];
      forall j | 0 <= j < e - d
        ensures Chunks(hf, key, d, e)[j] == IndexAt(hf, key, d + j)
      {
        if j < e - 1 - d {
          assert Chunks(hf, key, d, e)[j] == front[j];
        } else {
          assert d + j == e - 1;
        }
      }
    }
  }
}
