/** `BufferPool` (src/memory/buffer_pool.rs): byte buffers kept for reuse in one
    queue per size class. A `Vec<u8>` is its contents and its capacity. The lock
    around the queues is left out, and the memory counter and limit the pool holds
    are never consulted. */
module BufferPool {
  import opened Base

  /** The size classes `new` creates a queue for. */
  const SIZE_CLASSES: seq<nat> := [256, 1024, 4096, 16384, 65536]

  /** The most buffers a queue keeps. */
  const MAX_QUEUED: nat := 100

  /** A `Vec<u8>`: its bytes and the capacity it holds. */
  datatype Buffer = Buffer(data: seq<Byte>, capacity: nat)

  /** `n` zero bytes. */
  function Zeros(n: nat): (r: seq<Byte>)
    ensures |r| == n && forall i :: 0 <= i < n ==> r[i] == 0
  {
    seq(n, _ => 0)
  }

  function Pow2(e: nat): (r: nat)
    ensures r >= 1
  {
    if e == 0 then 1 else 2 * Pow2(e - 1)
  }

  /** Powers of two grow with their exponent. */
  lemma {:induction false} Pow2Monotone(e: nat, f: nat)
    requires e <= f
    ensures Pow2(e) <= Pow2(f)
    decreases f
  {
    if e < f {
      Pow2Monotone(e, f - 1);
    }
  }

  /** The least exponent from `e` on whose power of two is at least `n`. */
  function CeilLog2From(n: nat, e: nat): (r: nat)
    requires e == 0 || Pow2(e - 1) < n
    ensures Pow2(r) >= n && r >= e && (r == 0 || Pow2(r - 1) < n)
    decreases n - Pow2(e)
  {
    if Pow2(e) >= n then e else CeilLog2From(n, e + 1)
  }

  /** The exponent of `next_power_of_two(n)`. */
  function CeilLog2(n: nat): (e: nat)
    ensures Pow2(e) >= n && (e == 0 || Pow2(e - 1) < n)
  {
    CeilLog2From(n, 0)
  }

  /** `usize::next_power_of_two`: the least power of two at least `n`, 1 for 0. The
      overflow past `usize::MAX` is not modelled. */
  function NextPow2(n: nat): nat
  {
    Pow2(CeilLog2(n))
  }

  /** `next_power_of_two(n)` is at least `n` and no larger than any power of two at
      least `n`. */
  lemma NextPow2Least(n: nat, f: nat)
    ensures n <= NextPow2(n)
    ensures Pow2(f) >= n ==> NextPow2(n) <= Pow2(f)
  {
    var e := CeilLog2(n);
    if f < e {
      Pow2Monotone(f, e - 1);
    } else {
      Pow2Monotone(e, f);
    }
  }

  /** A power of two is its own size class. */
  lemma NextPow2OfPow2(e: nat)
    ensures NextPow2(Pow2(e)) == Pow2(e)
  {
    NextPow2Least(Pow2(e), e);
  }

  /** A queued buffer is empty and belongs to the class of its capacity. */
  predicate Parked(b: Buffer, sizeClass: nat)
  {
    b.data == [] && NextPow2(b.capacity) == sizeClass
  }

  /** `BufferPool`. */
  class BufferPool {
    var pools: map<nat, seq<Buffer>>
    var totalMemory: nat
    const memoryLimit: nat

    /** Exactly the size classes have a queue, none holds more than `MAX_QUEUED`
        buffers, and every queued buffer is parked in its own class. */
    predicate Valid()
      reads this
    {
      pools.Keys == set c | c in SIZE_CLASSES &&
      forall c :: c in pools ==>
        |pools[c]| <= MAX_QUEUED && forall j :: 0 <= j < |pools[c]| ==> Parked(pools[c][j], c)
    }

    /** `BufferPool::new`: an empty queue for every size class. */
    constructor (memoryLimit: nat)
      ensures Valid() && pools == map c | c in SIZE_CLASSES :: []
      ensures totalMemory == 0 && this.memoryLimit == memoryLimit
    {
      var m: map<nat, seq<Buffer>> := map[];
      for i := 0 to |SIZE_CLASSES|
        invariant m == map c | c in SIZE_CLASSES[..i] :: []
      {
        m := m[SIZE_CLASSES[i] := []];
        assert SIZE_CLASSES[..i + 1] == SIZE_CLASSES[..i] + [SIZE_CLASSES[i]];
      }
      assert SIZE_CLASSES[..|SIZE_CLASSES|] == SIZE_CLASSES;
      pools := m;
      totalMemory := 0;
      this.memoryLimit := memoryLimit;
    }

    /** `BufferPool::get`: the front buffer of the size class of `size` if one is
        queued, otherwise a fresh zeroed buffer as long as the class. */
    method Get(size: nat) returns (buf: Buffer)
      requires Valid()
      modifies this
      ensures Valid()
      ensures var c := NextPow2(size);
              if c in old(pools) && old(pools)[c] != [] then
                buf == old(pools)[c][0] && pools == old(pools)[c := old(pools)[c][1..]]
              else
                buf == Buffer(Zeros(c), c) && pools == old(pools)
      ensures totalMemory == old(totalMemory)
    {
      var c := NextPow2(size);
      if c in pools && pools[c] != [] {
        buf := pools[c][0];
        pools := pools[c := pools[c][1..]];
        return;
      }
      buf := Buffer(Zeros(c), c);
    }

    /** `BufferPool::return_buffer`: the buffer, cleared, joins the back of the
        queue of its capacity's class when that class exists and its queue holds
        fewer than `MAX_QUEUED`; otherwise it is dropped. */
    method ReturnBuffer(buf: Buffer)
      requires Valid()
      modifies this
      ensures Valid()
      ensures var c := NextPow2(buf.capacity);
              if c in old(pools) && |old(pools)[c]| < MAX_QUEUED then
                pools == old(pools)[c := old(pools)[c] + [Buffer([], buf.capacity)]]
              else
                pools == old(pools)
      ensures totalMemory == old(totalMemory)
    {
      var c := NextPow2(buf.capacity);
      var cleared := buf.(data := []);
      if c in pools {
        if |pools[c]| < MAX_QUEUED {
          pools := pools[c := pools[c] + [cleared]];
        }
      }
    }
  }

  /** What `get` hands out lies in the size class asked for: either a parked buffer
      of that class, empty, or a fresh zeroed one whose capacity is the class and
      at least the size asked for. A parked buffer's capacity can be below the
      size asked for, since it is parked under the class its capacity rounds up to. */
  lemma GetInClass(pools: map<nat, seq<Buffer>>, size: nat)
    requires forall c :: c in pools ==> forall j :: 0 <= j < |pools[c]| ==> Parked(pools[c][j], c)
    ensures var c := NextPow2(size);
            c in pools && pools[c] != [] ==> pools[c][0].data == [] && NextPow2(pools[c][0].capacity) == c
    ensures var c := NextPow2(size);
            NextPow2(c) == c && size <= c
  {
    NextPow2Least(size, 0);
    NextPow2OfPow2(CeilLog2(size));
  }
}
