/**
 * The table cache (src/cache.c): one pool allocator per table size 1..32.
 *
 * A pool serves tables of `tableSize` rows. It keeps a chain of chunks (the
 * newest first), a high-water mark `bufIx` into the newest chunk, the number
 * of tables served from chunks, and an intrusive LIFO freelist. Memory is not
 * modelled: a served table is named by its address, the chunk it lies in
 * (numbered from the oldest, 0) and its first row inside that chunk.
 *
 * `Pool` and the functions on it state what one call does; the classes
 * `TableAllocator` and `TableCache` are the imperative allocator and cache,
 * proved against those functions.
 */
module TableCache {
  import opened Arith

  /** A table's address: chunk number (oldest is 0) and its first row. */
  datatype Addr = Addr(chunk: nat, row: nat)

  /**
   * `struct table_allocator` as a value: `chain` holds the chunk sizes in
   * rows, newest first, as the linked chunk list does.
   */
  datatype Pool = Pool(chain: seq<nat>, size: nat, bufIx: nat, chunkCount: nat, tableSize: nat, fl: seq<Addr>)

  function Sum(s: seq<nat>): nat
  {
    if s == [] then 0 else s[0] + Sum(s[1..])
  }

  /**
   * The chunk sizes of a chain, newest first: each a whole, non-zero number of
   * `t`-row tables and twice the size of the next older one.
   */
  ghost predicate ChainOk(chain: seq<nat>, t: nat)
    requires t >= 1
  {
    chain != [] ==>
      chain[0] >= t && chain[0] % t == 0 &&
      (|chain| > 1 ==> chain[0] == 2 * chain[1]) &&
      ChainOk(chain[1..], t)
  }

  /**
   * The pool invariant: the chain has `chunkCount` links and doubles; the
   * high-water mark is a table boundary inside the newest chunk; and the tables
   * served from chunks fill every older chunk and the newest one up to `bufIx`.
   */
  ghost predicate PoolValid(p: Pool)
  {
    p.tableSize >= 1 && |p.chain| >= 1 && p.chunkCount == |p.chain| &&
    ChainOk(p.chain, p.tableSize) &&
    p.bufIx <= p.chain[0] && p.bufIx % p.tableSize == 0 &&
    p.size * p.tableSize == Sum(p.chain[1..]) + p.bufIx
  }

  /** The size in rows of chunk number `c`. */
  function ChunkSize(p: Pool, c: nat): nat
    requires c < |p.chain|
  {
    p.chain[|p.chain| - 1 - c]
  }

  /** `x` is a table-aligned address inside one of the pool's chunks. */
  ghost predicate IsSlot(p: Pool, x: Addr)
    requires p.tableSize >= 1
  {
    x.chunk < |p.chain| && x.row < ChunkSize(p, x.chunk) && x.row % p.tableSize == 0
  }

  /** `x` has been served from a chunk: a slot of an older chunk, or of the newest one below `bufIx`. */
  ghost predicate IsServed(p: Pool, x: Addr)
    requires p.tableSize >= 1
  {
    IsSlot(p, x) && (x.chunk < |p.chain| - 1 || x.row < p.bufIx)
  }

  /** `table_allocator_create`: one chunk of `initialCacheSize` tables, nothing served. */
  function CreatePool(initialCacheSize: nat, tableSize: nat): (r: Pool)
    ensures |r.chain| == 1 && Sum(r.chain) == initialCacheSize * tableSize
    ensures r.size == 0 && r.bufIx == 0 && r.fl == [] && r.tableSize == tableSize
  {
    Pool([initialCacheSize * tableSize], 0, 0, 1, tableSize, [])
  }

  /** The chunk `table_allocator_alloc` prepends to a full pool: twice the size of the newest. */
  function NewChunk(p: Pool): (r: Pool)
    requires |p.chain| >= 1
    ensures |r.chain| == |p.chain| + 1 && r.chain[1..] == p.chain && r.chain[0] == 2 * p.chain[0]
    ensures Sum(r.chain) == 2 * p.chain[0] + Sum(p.chain)
    ensures r.bufIx == 0 && r.size == p.size && r.fl == p.fl && r.tableSize == p.tableSize
  {
    p.(chain := [p.chain[0] * 2] + p.chain, bufIx := 0, chunkCount := p.chunkCount + 1)
  }

  /**
   * `table_allocator_alloc`: the freelist head when there is one; otherwise the
   * next table of the newest chunk, after prepending a new chunk when it is full.
   */
  function AllocPool(p: Pool): (r: (Pool, Addr))
    requires |p.chain| >= 1
    ensures |r.0.chain| >= 1 && r.0.tableSize == p.tableSize
    ensures p.fl != [] ==> r.1 == p.fl[0] && r.0.fl == p.fl[1..] && r.0.chain == p.chain && r.0.size == p.size && r.0.bufIx == p.bufIx
    ensures p.fl == [] ==> r.0.fl == [] && r.0.size == p.size + 1 && r.1.chunk == |r.0.chain| - 1 && r.0.bufIx == r.1.row + p.tableSize
    ensures p.fl == [] && p.bufIx < p.chain[0] ==> r.0.chain == p.chain
    ensures p.fl == [] && p.bufIx == p.chain[0] ==> r.0.chain[1..] == p.chain && r.1.row == 0
  {
    if p.fl != [] then
      (p.(fl := p.fl[1..]), p.fl[0])
    else
      var q := if p.bufIx == p.chain[0] then NewChunk(p) else p;
      (q.(bufIx := q.bufIx + q.tableSize, size := q.size + 1), Addr(|q.chain| - 1, q.bufIx))
  }

  /** `table_allocator_free`: push `a` on the front of the freelist. */
  function FreePool(p: Pool, a: Addr): (r: Pool)
    ensures r.fl == [a] + p.fl && r.(fl := p.fl) == p
  {
    p.(fl := [a] + p.fl)
  }

  /** `n` allocations in a row and the addresses they return, in order. */
  function AllocMany(p: Pool, n: nat): (r: (Pool, seq<Addr>))
    requires |p.chain| >= 1
    ensures |r.0.chain| >= 1 && |r.1| == n && r.0.tableSize == p.tableSize
    decreases n
  {
    if n == 0 then (p, [])
    else
      var (q, a) := AllocPool(p);
      var (q', addrs) := AllocMany(q, n - 1);
      (q', [a] + addrs)
  }

  /** Free `addrs` in order. */
  function FreeMany(p: Pool, addrs: seq<Addr>): Pool
    decreases |addrs|
  {
    if addrs == [] then p else FreeMany(FreePool(p, addrs[0]), addrs[1..])
  }

  /** The sizes of an `n`-link chain doubling from `c0`, newest first. */
  function Doubling(c0: nat, n: nat): seq<nat>
  {
    if n == 0 then [] else [c0 * Pow2(n - 1)] + Doubling(c0, n - 1)
  }

  /** The pool of `n` chunks grown from `b` tables of `ts` rows, every chunk full. */
  function FullPool(b: nat, ts: nat, n: nat): Pool
    requires n >= 1
  {
    Pool(Doubling(b * ts, n), b * (Pow2(n) - 1), b * ts * Pow2(n - 1), n, ts, [])
  }

  // Arithmetic on table boundaries.

  lemma MulMod(k: nat, t: nat)
    requires t >= 1
    ensures (k * t) % t == 0
  {
    var q := (k * t) / t;
    var r := (k * t) % t;
    assert k * t == q * t + r;
    assert (k - q) * t == r;
    if k - q >= 1 {
      MulLe(1, k - q, t);
    } else if k - q <= -1 {
      MulLe(k - q, -1, t);
    }
  }

  /** The table boundary after `a` is `a + t`: no boundary lies strictly between. */
  lemma NextMultiple(a: nat, b: nat, t: nat)
    requires t >= 1 && a % t == 0 && b % t == 0 && a < b
    ensures a + t <= b
  {
    var x := a / t;
    var y := b / t;
    assert a == x * t;
    assert b == y * t;
    if x >= y {
      MulLe(y, x, t);
    } else {
      MulLe(x + 1, y, t);
    }
  }

  lemma AddMultiple(a: nat, b: nat, t: nat)
    requires t >= 1 && a % t == 0 && b % t == 0
    ensures (a + b) % t == 0
  {
    var x := a / t;
    var y := b / t;
    assert a == x * t;
    assert b == y * t;
    assert a + b == (x + y) * t;
    MulMod(x + y, t);
  }

  lemma Distribute(a: nat, m: nat, t: nat)
    ensures (a + m) * t == a * t + m * t
  {
  }

  // The invariant.

  /** A new pool is valid and has served nothing, for a non-zero initial size. */
  lemma CreateValid(initialCacheSize: nat, tableSize: nat)
    requires initialCacheSize >= 1 && tableSize >= 1
    ensures PoolValid(CreatePool(initialCacheSize, tableSize))
    ensures forall x :: !IsServed(CreatePool(initialCacheSize, tableSize), x)
  {
    MulMod(initialCacheSize, tableSize);
    MulLe(1, initialCacheSize, tableSize);
    var p := CreatePool(initialCacheSize, tableSize);
    assert p.chain[1..] == [];
  }

  /** Prepending a chunk of twice the newest one's size keeps the chain doubling. */
  lemma ChainPrepend(chain: seq<nat>, t: nat)
    requires t >= 1 && |chain| >= 1 && ChainOk(chain, t)
    ensures ChainOk([chain[0] * 2] + chain, t)
  {
    AddMultiple(chain[0], chain[0], t);
    assert ([chain[0] * 2] + chain)[1..] == chain;
  }

  /** Moving the high-water mark by whole tables inside the newest chunk keeps the invariant. */
  lemma FillValid(p: Pool, m: nat)
    requires PoolValid(p) && p.bufIx + m * p.tableSize <= p.chain[0]
    ensures PoolValid(p.(bufIx := p.bufIx + m * p.tableSize, size := p.size + m))
  {
    var t := p.tableSize;
    MulMod(m, t);
    AddMultiple(p.bufIx, m * t, t);
    Distribute(p.size, m, t);
  }

  /** Serving the first table of a new chunk, prepended to a full pool, keeps the invariant. */
  lemma NewChunkValid(p: Pool)
    requires PoolValid(p) && p.bufIx == p.chain[0]
    ensures PoolValid(NewChunk(p).(bufIx := p.tableSize, size := p.size + 1))
  {
    var t := p.tableSize;
    var q := NewChunk(p).(bufIx := t, size := p.size + 1);
    ChainPrepend(p.chain, t);
    MulMod(1, t);
    Distribute(p.size, 1, t);
    assert q.chain[1..] == p.chain;
    assert Sum(p.chain) == p.chain[0] + Sum(p.chain[1..]);
  }

  /** Allocation keeps the invariant. */
  lemma AllocKeepsValid(p: Pool)
    requires PoolValid(p)
    ensures PoolValid(AllocPool(p).0)
  {
    var t := p.tableSize;
    if p.fl == [] {
      if p.bufIx == p.chain[0] {
        NewChunkValid(p);
      } else {
        NextMultiple(p.bufIx, p.chain[0], t);
        FillValid(p, 1);
        assert AllocPool(p).0 == p.(bufIx := p.bufIx + 1 * t, size := p.size + 1);
      }
    }
  }

  /** Freeing keeps the invariant. */
  lemma FreeKeepsValid(p: Pool, a: Addr)
    requires PoolValid(p)
    ensures PoolValid(FreePool(p, a)) && FreePool(p, a).fl == [a] + p.fl
  {
  }

  // One call.

  /**
   * Serving from a full newest chunk: the first table of the new chunk, which
   * is the only address added to the served ones.
   */
  lemma ServeNewChunk(p: Pool)
    requires PoolValid(p) && p.fl == [] && p.bufIx == p.chain[0]
    ensures var (q, a) := AllocPool(p);
      a == Addr(|p.chain|, 0) && a.row + p.tableSize <= ChunkSize(q, a.chunk) && IsSlot(q, a) && !IsServed(p, a) &&
      forall x :: IsServed(q, x) <==> IsServed(p, x) || x == a
  {
    var t := p.tableSize;
    var (q, a) := AllocPool(p);
    assert q == NewChunk(p).(bufIx := t, size := p.size + 1);
    forall x
      ensures IsServed(q, x) <==> IsServed(p, x) || x == a
    {
      NewChunkServes(p, x);
    }
    MulMod(0, t);
    MulLe(1, 2, t);
  }

  /** After serving from a new chunk, `x` is served exactly when it was before or is row 0 of that chunk. */
  lemma NewChunkServes(p: Pool, x: Addr)
    requires p.tableSize >= 1 && |p.chain| >= 1 && p.bufIx == p.chain[0] && p.chain[0] >= p.tableSize
    ensures var q := NewChunk(p).(bufIx := p.tableSize, size := p.size + 1);
      IsServed(q, x) <==> IsServed(p, x) || x == Addr(|p.chain|, 0)
  {
    var t := p.tableSize;
    var q := NewChunk(p).(bufIx := t, size := p.size + 1);
    assert q.chain == [p.chain[0] * 2] + p.chain && q.tableSize == t;
    if x.chunk < |p.chain| {
      assert ChunkSize(q, x.chunk) == ChunkSize(p, x.chunk);
      assert IsServed(q, x) == IsSlot(p, x);
      assert IsServed(p, x) == IsSlot(p, x);
    } else if x.chunk == |p.chain| {
      assert !IsServed(p, x);
      if x.row < t {
        assert x.row % t == x.row;
        assert IsServed(q, x) <==> x.row == 0;
      } else {
        assert !IsServed(q, x);
      }
    } else {
      assert !IsServed(q, x) && !IsServed(p, x);
    }
  }

  /**
   * Serving from a newest chunk with room: the table at the high-water mark,
   * which is the only address added to the served ones.
   */
  lemma ServeSameChunk(p: Pool)
    requires PoolValid(p) && p.fl == [] && p.bufIx < p.chain[0]
    ensures var (q, a) := AllocPool(p);
      a == Addr(|p.chain| - 1, p.bufIx) && a.row + p.tableSize <= ChunkSize(q, a.chunk) && IsSlot(q, a) && !IsServed(p, a) &&
      forall x :: IsServed(q, x) <==> IsServed(p, x) || x == a
  {
    var t := p.tableSize;
    var (q, a) := AllocPool(p);
    NextMultiple(p.bufIx, p.chain[0], t);
    forall x
      ensures IsServed(q, x) <==> IsServed(p, x) || x == a
    {
      if x.chunk == |p.chain| - 1 && p.bufIx < x.row && x.row % t == 0 {
        NextMultiple(p.bufIx, x.row, t);
      }
    }
  }

  /**
   * A table served from a chunk lies inside that chunk on a table boundary, was
   * not served before, and is the only address added to the served ones.
   */
  lemma AllocFromChunk(p: Pool)
    requires PoolValid(p) && p.fl == []
    ensures var (q, a) := AllocPool(p);
      IsSlot(q, a) && a.row + p.tableSize <= ChunkSize(q, a.chunk) && !IsServed(p, a) &&
      (forall x :: IsServed(q, x) <==> IsServed(p, x) || x == a) && q.fl == []
  {
    if p.bufIx == p.chain[0] {
      ServeNewChunk(p);
    } else {
      ServeSameChunk(p);
    }
  }

  /** Freeing `a` and allocating again returns `a` and restores the pool: the freelist is LIFO. */
  lemma FreeThenAlloc(p: Pool, a: Addr)
    requires |p.chain| >= 1
    ensures AllocPool(FreePool(p, a)) == (p, a)
  {
    assert ([a] + p.fl)[1..] == p.fl;
  }

  /**
   * Two allocations from the same chunk, with nothing on the freelist, are
   * exactly `tableSize` rows apart.
   */
  lemma Stride(p: Pool)
    requires PoolValid(p) && p.fl == []
    requires AllocPool(p).0.bufIx < AllocPool(p).0.chain[0]
    ensures var (q, a) := AllocPool(p);
      var b := AllocPool(q).1;
      b.chunk == a.chunk && b.row == a.row + p.tableSize
  {
  }

  // Many calls.

  /** Allocating `x + y` tables is allocating `x` and then `y`. */
  lemma {:induction false} AllocManyAppend(p: Pool, x: nat, y: nat)
    requires |p.chain| >= 1
    ensures AllocMany(p, x + y).0 == AllocMany(AllocMany(p, x).0, y).0
    decreases x
  {
    if x > 0 {
      AllocManyAppend(AllocPool(p).0, x - 1, y);
    }
  }

  /** Allocating `m` tables that fit in the newest chunk only moves the high-water mark. */
  lemma {:induction false} FillWithin(p: Pool, m: nat)
    requires |p.chain| >= 1 && p.tableSize >= 1 && p.fl == []
    requires p.bufIx + m * p.tableSize <= p.chain[0]
    ensures AllocMany(p, m).0 == p.(bufIx := p.bufIx + m * p.tableSize, size := p.size + m)
    decreases m
  {
    if m > 0 {
      var t := p.tableSize;
      Distribute(1, m - 1, t);
      var q := AllocPool(p).0;
      assert q == p.(bufIx := p.bufIx + t, size := p.size + 1);
      FillWithin(q, m - 1);
    }
  }

  /** The addresses returned while the freelist is empty each appear once, and are exactly the newly served ones. */
  lemma {:induction false} AllocManyServed(p: Pool, n: nat)
    requires PoolValid(p) && p.fl == []
    ensures PoolValid(AllocMany(p, n).0) && AllocMany(p, n).0.fl == []
    ensures forall x :: IsServed(p, x) ==> IsServed(AllocMany(p, n).0, x)
    ensures forall x ::
      multiset(AllocMany(p, n).1)[x] == if IsServed(AllocMany(p, n).0, x) && !IsServed(p, x) then 1 else 0
    decreases n
  {
    if n > 0 {
      var q1 := AllocPool(p).0;
      var a := AllocPool(p).1;
      AllocFromChunk(p);
      AllocKeepsValid(p);
      AllocManyServed(q1, n - 1);
      var q := AllocMany(q1, n - 1).0;
      var rest := AllocMany(q1, n - 1).1;
      assert AllocMany(p, n).0 == q;
      assert AllocMany(p, n).1 == [a] + rest;
      forall x
        ensures multiset([a] + rest)[x] == if IsServed(q, x) && !IsServed(p, x) then 1 else 0
      {
        CountStep(a, rest, x, IsServed(p, x), IsServed(q1, x), IsServed(q, x));
      }
    }
  }

  /**
   * One step of the count: `a` is newly served by the first allocation and
   * `rest` holds the addresses newly served after it.
   */
  lemma CountStep(a: Addr, rest: seq<Addr>, x: Addr, before: bool, mid: bool, after: bool)
    requires mid <==> before || x == a
    requires x == a ==> !before
    requires mid ==> after
    requires multiset(rest)[x] == if after && !mid then 1 else 0
    ensures multiset([a] + rest)[x] == if after && !before then 1 else 0
  {
    assert multiset([a] + rest)[x] == (if x == a then 1 else 0) + multiset(rest)[x];
  }

  /** Products of three factors in any grouping. */
  lemma MulRegroup(b: nat, ts: nat, e: nat)
    ensures (b * e) * ts == b * ts * e && (b * ts * e) * 2 == b * ts * (2 * e)
  {
  }

  /** The counts behind one more doubling: `2^n * b` more tables fill chunk `n + 1` exactly. */
  lemma FullStepCounts(b: nat, ts: nat, n: nat)
    requires b >= 1 && ts >= 1 && n >= 1
    ensures b * Pow2(n) >= 1
    ensures (b * ts * Pow2(n - 1)) * 2 == b * ts * Pow2(n)
    ensures ts + (b * Pow2(n) - 1) * ts == b * ts * Pow2(n)
    ensures b * (Pow2(n) - 1) + 1 + (b * Pow2(n) - 1) == b * (Pow2(n + 1) - 1)
  {
    var e := Pow2(n - 1);
    var m := b * Pow2(n);
    assert Pow2(n) == 2 * e;
    assert Pow2(n + 1) == 2 * Pow2(n);
    MulLe(1, b, Pow2(n));
    Distribute(1, m - 1, ts);
    MulRegroup(b, ts, e);
    MulRegroup(b, ts, Pow2(n));
    assert b * (Pow2(n + 1) - 1) == 2 * m - b;
    assert b * (Pow2(n) - 1) == m - b;
  }

  /** The counts of the first chunk and of one more doubling, from the sum over `k < n` of `2^k * b`. */
  lemma FullAfterCounts(b: nat, ts: nat, n: nat)
    requires n >= 1
    ensures n == 1 ==> b * (Pow2(n) - 1) == b && b * ts * Pow2(n - 1) == b * ts && Doubling(b * ts, n) == [b * ts]
    ensures n > 1 ==> b * (Pow2(n) - 1) == b * (Pow2(n - 1) - 1) + b * Pow2(n - 1)
  {
    assert Pow2(n) == 2 * Pow2(n - 1);
    if n == 1 {
      assert Doubling(b * ts, 1) == [b * ts * Pow2(0)];
    }
  }

  /**
   * Allocating, from a pool whose newest chunk is full, as many tables as the
   * next chunk holds fills exactly that new chunk.
   */
  lemma FillNewChunk(f: Pool, m: nat)
    requires PoolValid(f) && f.fl == [] && f.bufIx == f.chain[0]
    requires m >= 1 && m * f.tableSize == f.chain[0] * 2
    ensures var g := NewChunk(f).(bufIx := f.chain[0] * 2, size := f.size + m);
      AllocMany(f, m).0 == g && PoolValid(g)
  {
    var t := f.tableSize;
    var p1 := AllocPool(f).0;
    assert p1 == NewChunk(f).(bufIx := t, size := f.size + 1);
    NewChunkValid(f);
    assert AllocMany(f, m).0 == AllocMany(p1, m - 1).0;
    Distribute(1, m - 1, t);
    FillWithin(p1, m - 1);
    FillValid(p1, m - 1);
  }

  /** The full `n + 1`-chunk pool is the full `n`-chunk pool with one more full chunk. */
  lemma FullPoolNext(b: nat, ts: nat, n: nat)
    requires b >= 1 && ts >= 1 && n >= 1
    ensures var f := FullPool(b, ts, n);
      FullPool(b, ts, n + 1) == NewChunk(f).(bufIx := f.chain[0] * 2, size := f.size + b * Pow2(n))
  {
    FullStepCounts(b, ts, n);
    var c0 := b * ts;
    assert Doubling(c0, n + 1) == [c0 * Pow2(n)] + Doubling(c0, n);
  }

  /**
   * Allocating `2^n * b` more tables from the full `n`-chunk pool gives the
   * full `n + 1`-chunk pool.
   */
  lemma FullStep(b: nat, ts: nat, n: nat)
    requires b >= 1 && ts >= 1 && n >= 1 && PoolValid(FullPool(b, ts, n))
    ensures AllocMany(FullPool(b, ts, n), b * Pow2(n)).0 == FullPool(b, ts, n + 1)
    ensures PoolValid(FullPool(b, ts, n + 1))
  {
    FullStepCounts(b, ts, n);
    MulRegroup(b, ts, Pow2(n));
    FullPoolNext(b, ts, n);
    FillNewChunk(FullPool(b, ts, n), b * Pow2(n));
  }

  /**
   * Allocating the sum over `k < n` of `2^k * b` tables from a new pool of `b`
   * tables leaves exactly the full `n`-chunk pool.
   */
  lemma {:induction false} FullAfter(b: nat, ts: nat, n: nat)
    requires b >= 1 && ts >= 1 && n >= 1
    ensures AllocMany(CreatePool(b, ts), b * (Pow2(n) - 1)).0 == FullPool(b, ts, n)
    ensures PoolValid(FullPool(b, ts, n))
  {
    var p0 := CreatePool(b, ts);
    CreateValid(b, ts);
    FullAfterCounts(b, ts, n);
    if n == 1 {
      FillWithin(p0, b);
      FillValid(p0, b);
    } else {
      FullAfter(b, ts, n - 1);
      AllocManyAppend(p0, b * (Pow2(n - 1) - 1), b * Pow2(n - 1));
      FullStep(b, ts, n - 1);
    }
  }

  /** A pool whose newest chunk is full has served every slot. */
  lemma ServedFull(p: Pool)
    requires PoolValid(p) && p.bufIx == p.chain[0]
    ensures forall x :: IsServed(p, x) <==> IsSlot(p, x)
  {
  }

  /** Freeing `addrs` puts exactly them on the freelist. */
  lemma {:induction false} FreeManyPushes(p: Pool, addrs: seq<Addr>)
    ensures multiset(FreeMany(p, addrs).fl) == multiset(addrs) + multiset(p.fl)
    ensures FreeMany(p, addrs).chain == p.chain && FreeMany(p, addrs).size == p.size && FreeMany(p, addrs).bufIx == p.bufIx
    decreases |addrs|
  {
    if addrs != [] {
      FreeManyPushes(FreePool(p, addrs[0]), addrs[1..]);
      assert addrs == [addrs[0]] + addrs[1..];
    }
  }

  /**
   * Exhausting `n` chunks of a new pool creates exactly `n` chunks, counts every
   * table in `size`, uses every row of every chunk, and returning every table in
   * any order leaves a freelist that holds each slot of each chunk exactly once.
   */
  lemma FreelistCovers(b: nat, ts: nat, n: nat, order: seq<Addr>)
    requires b >= 1 && ts >= 1 && n >= 1
    requires multiset(order) == multiset(AllocMany(CreatePool(b, ts), b * (Pow2(n) - 1)).1)
    ensures var q := AllocMany(CreatePool(b, ts), b * (Pow2(n) - 1)).0;
      q.chunkCount == n && |q.chain| == n && q.size == b * (Pow2(n) - 1) && q.size * ts == Sum(q.chain) &&
      forall x :: multiset(FreeMany(q, order).fl)[x] == if IsSlot(q, x) then 1 else 0
  {
    var p0 := CreatePool(b, ts);
    var (q, addrs) := AllocMany(p0, b * (Pow2(n) - 1));
    FullAfter(b, ts, n);
    CreateValid(b, ts);
    AllocManyServed(p0, b * (Pow2(n) - 1));
    ServedFull(q);
    FreeManyPushes(q, order);
    assert Sum(q.chain) == q.chain[0] + Sum(q.chain[1..]);
  }

  /** `struct table_allocator`, updated in place. */
  class TableAllocator {
    var chain: seq<nat>
    var size: nat
    var bufIx: nat
    var chunkCount: nat
    const tableSize: nat
    var fl: seq<Addr>

    ghost function State(): Pool
      reads this
    {
      Pool(chain, size, bufIx, chunkCount, tableSize, fl)
    }

    ghost predicate Valid()
      reads this
    {
      PoolValid(State())
    }

    /** `table_allocator_create`. */
    constructor(initialCacheSize: nat, tableSize: nat)
      requires initialCacheSize >= 1 && tableSize >= 1
      ensures Valid() && State() == CreatePool(initialCacheSize, tableSize)
      ensures size == 0 && bufIx == 0 && chunkCount == 1 && fl == [] && this.tableSize == tableSize
      ensures chain == [initialCacheSize * tableSize]
    {
      chain := [initialCacheSize * tableSize];
      size := 0;
      bufIx := 0;
      chunkCount := 1;
      this.tableSize := tableSize;
      fl := [];
      new;
      CreateValid(initialCacheSize, tableSize);
    }

    /** `table_allocator_alloc`. */
    method Alloc() returns (p: Addr)
      modifies this
      requires Valid()
      ensures Valid() && (State(), p) == AllocPool(old(State()))
      ensures old(fl) != [] ==>
        p == old(fl)[0] && fl == old(fl)[1..] &&
        chain == old(chain) && size == old(size) && bufIx == old(bufIx) && chunkCount == old(chunkCount)
    {
      AllocKeepsValid(State());
      if fl != [] {
        p := fl[0];
        fl := fl[1..];
        return;
      }
      if bufIx == chain[0] {
        chain := [chain[0] * 2] + chain;
        bufIx := 0;
        chunkCount := chunkCount + 1;
      }
      p := Addr(|chain| - 1, bufIx);
      bufIx := bufIx + tableSize;
      size := size + 1;
    }

    /** `table_allocator_free`. */
    method Free(p: Addr)
      modifies this
      requires Valid()
      ensures Valid() && State() == FreePool(old(State()), p)
      ensures fl == [p] + old(fl) && chain == old(chain) && size == old(size) && bufIx == old(bufIx)
    {
      fl := [p] + fl;
    }
  }

  /** `struct hamt_table_cache`: pool `i` serves tables of `i + 1` rows. */
  class TableCache {
    const pools: seq<TableAllocator>

    ghost predicate Valid()
      reads this, pools
    {
      |pools| <= 32 &&
      (forall i, j :: 0 <= i < j < |pools| ==> pools[i] != pools[j]) &&
      forall i :: 0 <= i < |pools| ==> pools[i].Valid() && pools[i].tableSize == i + 1
    }

    /**
     * `hamt_table_cache_create`: one pool per entry of `initialBucketSizes`, whose
     * length is the configured bucket count.
     */
    constructor(initialBucketSizes: seq<nat>)
      requires |initialBucketSizes| <= 32
      requires forall i :: 0 <= i < |initialBucketSizes| ==> initialBucketSizes[i] >= 1
      ensures Valid() && |pools| == |initialBucketSizes|
      ensures forall i :: 0 <= i < |pools| ==> fresh(pools[i]) && pools[i].State() == CreatePool(initialBucketSizes[i], i + 1)
    {
      var ps: seq<TableAllocator> := [];
      for i := 0 to |initialBucketSizes|
        invariant |ps| == i
        invariant forall j, k :: 0 <= j < k < i ==> ps[j] != ps[k]
        invariant forall j :: 0 <= j < i ==> fresh(ps[j]) && ps[j].Valid() && ps[j].tableSize == j + 1
        invariant forall j :: 0 <= j < i ==> ps[j].State() == CreatePool(initialBucketSizes[j], j + 1)
      {
        var a := new TableAllocator(initialBucketSizes[i], i + 1);
        ps := ps + [a];
      }
      pools := ps;
    }

    /** `hamt_table_cache_alloc`: allocate from the pool of `n`-row tables, and from no other. */
    method Alloc(n: nat) returns (p: Addr)
      requires Valid() && 1 <= n <= |pools|
      modifies pools[n - 1]
      ensures Valid() && (pools[n - 1].State(), p) == AllocPool(old(pools[n - 1].State()))
      ensures forall i :: 0 <= i < |pools| && i != n - 1 ==> pools[i].State() == old(pools[i].State())
    {
      p := pools[n - 1].Alloc();
    }

    /** `hamt_table_cache_free`: return `p` to the pool of `n`-row tables, and to no other. */
    method Free(n: nat, p: Addr)
      requires Valid() && 1 <= n <= |pools|
      modifies pools[n - 1]
      ensures Valid() && pools[n - 1].State() == FreePool(old(pools[n - 1].State()), p)
      ensures forall i :: 0 <= i < |pools| && i != n - 1 ==> pools[i].State() == old(pools[i].State())
    {
      pools[n - 1].Free(p);
    }
  }
}
