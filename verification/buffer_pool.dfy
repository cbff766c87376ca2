/** The pool of reusable packet buffers
    (crates/infrarust/src/network/packet/io/buffer_pool.rs).  A buffer is
    its contents and its capacity; the lock around the pool and the
    thread-local pool are not modelled, so each operation takes a pool
    and returns the pool it leaves behind. */
module BufferPool {
  import opened Wrappers
  import opened Bytes

  const DEFAULT_BUFFER_CAPACITY: nat := 8192
  const MAX_POOL_SIZE: nat := 32

  /** `BytesMut`: the bytes held and the room allocated for them. */
  datatype Buffer = Buffer(contents: seq<byte>, capacity: nat)

  predicate ValidBuffer(b: Buffer) {
    |b.contents| <= b.capacity
  }

  /** `BytesMut::with_capacity` */
  function Allocate(capacity: nat): (b: Buffer)
    ensures ValidBuffer(b) && b.contents == [] && b.capacity == capacity
  {
    Buffer([], capacity)
  }

  /** `BytesMut::clear`: the bytes go and the room stays. */
  function Clear(b: Buffer): (r: Buffer)
    ensures ValidBuffer(r) && r.contents == [] && r.capacity == b.capacity
  {
    b.(contents := [])
  }

  /** `BytesMut::reserve`: room for at least `additional` more bytes than
      are held; nothing changes when there is room already.  An allocator
      may give more; the model gives exactly what is asked. */
  function Reserve(b: Buffer, additional: nat): (r: Buffer)
    requires ValidBuffer(b)
    ensures ValidBuffer(r) && r.contents == b.contents
    ensures r.capacity >= b.capacity && r.capacity >= |b.contents| + additional
  {
    if b.capacity >= |b.contents| + additional then b
    else b.(capacity := |b.contents| + additional)
  }

  /** `BufferPool` */
  datatype Pool = Pool(buffers: seq<Buffer>, defaultCapacity: nat, maxPoolSize: nat)

  /** What the pool keeps true: no more buffers than its bound, each empty. */
  predicate Valid(p: Pool) {
    |p.buffers| <= p.maxPoolSize && forall i :: 0 <= i < |p.buffers| ==> p.buffers[i].contents == []
  }

  /** `BufferPool::with_capacity` */
  function WithCapacity(defaultCapacity: nat, maxPoolSize: nat): (p: Pool)
    ensures Valid(p) && p.buffers == []
    ensures p.defaultCapacity == defaultCapacity && p.maxPoolSize == maxPoolSize
  {
    Pool([], defaultCapacity, maxPoolSize)
  }

  /** `BufferPool::new`: 8 KiB buffers, at most 32 kept. */
  function New(): (p: Pool)
    ensures Valid(p) && p.buffers == [] && p.defaultCapacity == 8192 && p.maxPoolSize == 32
  {
    WithCapacity(DEFAULT_BUFFER_CAPACITY, MAX_POOL_SIZE)
  }

  /** `get`: the most recently returned buffer, or a fresh one of the
      default capacity when the pool is empty. */
  function Get(p: Pool): (r: (Buffer, Pool))
    ensures r.1.defaultCapacity == p.defaultCapacity && r.1.maxPoolSize == p.maxPoolSize
    ensures p.buffers != [] ==> r.0 == p.buffers[|p.buffers| - 1] && r.1.buffers == p.buffers[..|p.buffers| - 1]
    ensures p.buffers != [] ==> multiset(r.1.buffers) + multiset{r.0} == multiset(p.buffers)
    ensures p.buffers == [] ==> r.0 == Allocate(p.defaultCapacity) && r.1 == p
  {
    if p.buffers == [] then (Allocate(p.defaultCapacity), p)
    else
      var last := |p.buffers| - 1;
      assert p.buffers == p.buffers[..last] + [p.buffers[last]];
      (p.buffers[last], p.(buffers := p.buffers[..last]))
  }

  /** The first pooled buffer with room for `min` bytes, if any. */
  function FirstFitting(buffers: seq<Buffer>, min: nat, from: nat): (r: Option<nat>)
    requires from <= |buffers|
    ensures r.Some? ==> from <= r.value < |buffers| && buffers[r.value].capacity >= min
    ensures r.Some? ==> forall j :: from <= j < r.value ==> buffers[j].capacity < min
    ensures r.None? ==> forall j :: from <= j < |buffers| ==> buffers[j].capacity < min
    decreases |buffers| - from
  {
    if from == |buffers| then None
    else if buffers[from].capacity >= min then Some(from)
    else FirstFitting(buffers, min, from + 1)
  }

  /** `Vec::swap_remove`: the last element takes the place of the one
      removed. */
  function SwapRemove<T>(s: seq<T>, i: nat): (r: seq<T>)
    requires i < |s|
    ensures |r| == |s| - 1
    ensures multiset(r) + multiset{s[i]} == multiset(s)
    ensures forall j :: 0 <= j < |r| && j != i ==> r[j] == s[j]
    ensures i < |r| ==> r[i] == s[|s| - 1]
  {
    var r := s[i := s[|s| - 1]][..|s| - 1];
    SwapRemoveKeepsElements(s, i, r);
    r
  }

  lemma SwapRemoveKeepsElements<T>(s: seq<T>, i: nat, r: seq<T>)
    requires i < |s| && r == s[i := s[|s| - 1]][..|s| - 1]
    ensures multiset(r) + multiset{s[i]} == multiset(s)
  {
    var last := |s| - 1;
    var t := s[i := s[last]];
    assert t == r + [s[last]];
    assert multiset(t) == multiset(r) + multiset{s[last]};
    assert multiset(t) == multiset(s) - multiset{s[i]} + multiset{s[last]};
  }

  /** `get_with_capacity` as written: the first pooled buffer that is big
      enough; failing that, the most recently returned one, after
      reserving `min - capacity` more bytes; failing that, a fresh buffer
      of the larger of `min` and the default capacity.  A reservation
      counts from the bytes held, which a pooled buffer has none of, so
      the buffer reused only grows to `min` less its old capacity: a
      buffer of at least half the size asked for is returned unchanged. */
  function GetWithCapacityAsWritten(p: Pool, min: nat): (r: (Buffer, Pool))
    requires Valid(p)
    ensures r.0.capacity >= min || (FirstFitting(p.buffers, min, 0).None? && p.buffers != []
                                    && r.0.capacity >= p.buffers[|p.buffers| - 1].capacity
                                    && r.0.capacity + p.buffers[|p.buffers| - 1].capacity >= min)
  {
    match FirstFitting(p.buffers, min, 0)
    case Some(pos) => (p.buffers[pos], p.(buffers := SwapRemove(p.buffers, pos)))
    case None =>
      if p.buffers != [] then
        var last := |p.buffers| - 1;
        var buf := p.buffers[last];
        assert buf.contents == [];
        (if buf.capacity < min then Reserve(buf, min - buf.capacity) else buf, p.(buffers := p.buffers[..last]))
      else (Allocate(if min >= p.defaultCapacity then min else p.defaultCapacity), p)
  }

  /** A pool holding one 4 KiB buffer, asked for 6000 bytes, hands back
      the 4 KiB buffer. */
  lemma AsWrittenReturnsSmallBuffer()
    ensures var p := Pool([Buffer([], 4096)], DEFAULT_BUFFER_CAPACITY, MAX_POOL_SIZE);
            Valid(p) && GetWithCapacityAsWritten(p, 6000).0.capacity == 4096
  {
    var p := Pool([Buffer([], 4096)], DEFAULT_BUFFER_CAPACITY, MAX_POOL_SIZE);
    assert FirstFitting(p.buffers, 6000, 1) == None;
  }

  /** `get_with_capacity` as intended: as written, but the reused buffer
      reserves room for `min` bytes beyond what it holds. */
  function GetWithCapacity(p: Pool, min: nat): (r: (Buffer, Pool))
    requires Valid(p)
    ensures r.0.capacity >= min && ValidBuffer(r.0) && r.0.contents == []
    ensures r.1.defaultCapacity == p.defaultCapacity && r.1.maxPoolSize == p.maxPoolSize
    ensures FirstFitting(p.buffers, min, 0).Some?
            ==> r.0 == p.buffers[FirstFitting(p.buffers, min, 0).value]
                && multiset(r.1.buffers) + multiset{r.0} == multiset(p.buffers)
    ensures FirstFitting(p.buffers, min, 0).None? && p.buffers != []
            ==> r.0.capacity >= p.buffers[|p.buffers| - 1].capacity && r.1.buffers == p.buffers[..|p.buffers| - 1]
    ensures p.buffers == [] ==> r.0 == Allocate(if min >= p.defaultCapacity then min else p.defaultCapacity) && r.1 == p
  {
    match FirstFitting(p.buffers, min, 0)
    case Some(pos) => (p.buffers[pos], p.(buffers := SwapRemove(p.buffers, pos)))
    case None =>
      if p.buffers != [] then
        var last := |p.buffers| - 1;
        var buf := p.buffers[last];
        assert buf.contents == [];
        (if buf.capacity < min then Reserve(buf, min - |buf.contents|) else buf, p.(buffers := p.buffers[..last]))
      else (Allocate(if min >= p.defaultCapacity then min else p.defaultCapacity), p)
  }

  /** `put`: the buffer is emptied and kept only while the pool has room. */
  function Put(p: Pool, b: Buffer): (r: Pool)
    ensures r.defaultCapacity == p.defaultCapacity && r.maxPoolSize == p.maxPoolSize
    ensures |p.buffers| < p.maxPoolSize ==> r.buffers == p.buffers + [Clear(b)]
    ensures |p.buffers| >= p.maxPoolSize ==> r == p
  {
    if |p.buffers| < p.maxPoolSize then p.(buffers := p.buffers + [Clear(b)]) else p
  }

  /** `len`, `is_empty` and `clear`. */
  function Len(p: Pool): (n: nat)
    ensures n == |p.buffers|
  {
    |p.buffers|
  }

  function IsEmpty(p: Pool): (r: bool)
    ensures r <==> Len(p) == 0
  {
    |p.buffers| == 0
  }

  function ClearPool(p: Pool): (r: Pool)
    ensures Valid(r) && Len(r) == 0 && r.maxPoolSize == p.maxPoolSize && r.defaultCapacity == p.defaultCapacity
  {
    p.(buffers := [])
  }

  /** Every operation keeps the pool within its bound and its buffers
      empty. */
  lemma PoolStaysValid(p: Pool, b: Buffer, min: nat)
    requires Valid(p)
    ensures Valid(Get(p).1)
    ensures Valid(GetWithCapacity(p, min).1)
    ensures Valid(Put(p, b))
    ensures Len(Put(p, b)) <= p.maxPoolSize
  {
    var r := GetWithCapacity(p, min).1;
    assert forall i :: 0 <= i < |r.buffers| ==> r.buffers[i] in p.buffers by {
      forall i | 0 <= i < |r.buffers| ensures r.buffers[i] in p.buffers {
        assert r.buffers[i] in multiset(r.buffers);
      }
    }
  }

  /** A buffer returned to a pool with room is the next one handed out,
      emptied, and the pool is as before. */
  lemma PutThenGet(p: Pool, b: Buffer)
    requires |p.buffers| < p.maxPoolSize
    ensures Get(Put(p, b)) == (Clear(b), p)
  {
    assert (p.buffers + [Clear(b)])[..|p.buffers|] == p.buffers;
  }

  /** A request served from a non-empty pool takes exactly one buffer
      out of it. */
  lemma GetWithCapacityTakesOne(p: Pool, min: nat)
    requires Valid(p) && p.buffers != []
    ensures Len(GetWithCapacity(p, min).1) == Len(p) - 1
  {
  }
}
