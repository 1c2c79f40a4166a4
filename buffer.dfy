/**
 * The growable buffer of bes/foundation/buffer.h and buffer.c.
 *
 * A buffer is the pointer to its element 0 (the handle); NULL is the empty
 * buffer. A non-NULL handle sits just past a 16-byte header {capacity, size},
 * and the header itself is the payload of one allocation of the aligned heap.
 * The class holds the handle, the two header fields and the element slots of
 * the storage (|slots| == capacity); the heap is the Memory.Heap the storage
 * comes from. Every operation that may allocate takes the address the
 * underlying allocator returns for its one request (`answer`, 0 for failure).
 */
module Buffers {

  import opened Memory

  /** sizeof(bes_buffer_data): the header {capacity, size} padded to BES_ALIGNMENT. */
  const BUFFER_HEADER: nat := 16

  class Buffer<T(0)> {
    /** The heap every allocation of this buffer goes through. */
    const heap: Heap
    /** sizeof *BUFFER: the size in bytes of one element. */
    const typeSize: nat

    /** The BES_BUFFER(T) pointer itself; NULL for the empty buffer. */
    var handle: nat
    /** The header's capacity field. */
    var capacity: nat
    /** The header's size field. */
    var size: nat
    /** The element storage following the header. */
    var slots: seq<T>

    /**
     * The buffer invariant: the storage is a live heap allocation big enough
     * for the header and `capacity` elements, and one slot is always free.
     */
    ghost predicate Valid()
      reads this, heap
    {
      && heap.Valid()
      && (handle == NULL ==> capacity == 0 && size == 0 && slots == [])
      && (handle != NULL ==>
            && handle >= BUFFER_HEADER
            && heap.Live(handle - BUFFER_HEADER)
            && heap.headers[handle - BUFFER_HEADER - HEADER].size == AlignUp(typeSize * capacity + BUFFER_HEADER)
            && size < capacity
            && |slots| == capacity)
    }

    /** The storage was released by a failed regrow while the handle still points at it. */
    ghost predicate Dangling()
      reads this, heap
    {
      handle >= BUFFER_HEADER && !heap.Live(handle - BUFFER_HEADER)
    }

    /** The elements in use. */
    ghost function Elements(): (s: seq<T>)
      reads this, heap
      requires Valid()
      ensures |s| == size
    {
      slots[..size]
    }

    /**
     * The capacity bes_buffer_grow computes for n more elements: always room
     * for n with a slot to spare, and at least double a present capacity.
     */
    function GrownCapacity(n: nat): (c: nat)
      reads this
      ensures handle == NULL || 0 < capacity ==> n < c
      ensures handle != NULL ==> 2 * capacity <= c
      ensures handle != NULL && size < capacity ==> size + n < c && capacity < c
    {
      if handle != NULL then 2 * capacity + n else n + 1
    }

    /** bes_buffer_try_grow's fast path: n more elements fit with a slot to spare (the strict `<`). */
    predicate Fits(n: nat)
      reads this
    {
      handle != NULL && size + n < capacity
    }

    /** The one call bes_buffer_grow makes into the allocator: reallocate the recorded base, or allocate. */
    ghost function GrowCall(n: nat): Call
      reads this, heap
      requires Valid() && heap.allocator.Some?
    {
      var bytes := Request(typeSize * GrownCapacity(n) + BUFFER_HEADER);
      if handle != NULL then
        Reallocate(heap.allocator.value, heap.headers[handle - BUFFER_HEADER - HEADER].base, bytes)
      else
        Allocate(heap.allocator.value, bytes)
    }

    /**
     * The heap headers once bes_buffer_grow has succeeded with the block at
     * `answer`: the old block's header (if any) is gone and the new one
     * records the grown storage.
     */
    ghost function GrownHeaders(n: nat, answer: nat): map<nat, AllocHeader>
      reads this, heap
      requires Valid()
    {
      var kept := if handle != NULL then heap.headers - {handle - BUFFER_HEADER - HEADER} else heap.headers;
      kept[Payload(answer) - HEADER := AllocHeader(AlignUp(typeSize * GrownCapacity(n) + BUFFER_HEADER), answer)]
    }

    /**
     * The effect of bes_buffer_grow(n) on the handle, the capacity and the
     * heap. It succeeds exactly when the allocator answers. On success the
     * handle moves to the new block, the capacity is GrownCapacity(n), and
     * the heap made the one call and holds the new header. On failure the
     * handle is kept: from NULL nothing else happens, and otherwise the old
     * storage is also freed through bes_free.
     */
    twostate predicate Grew(n: nat, answer: nat, ok: bool)
      reads this, heap
      requires old(Valid()) && old(heap.allocator).Some?
    {
      && (ok <==> answer != NULL)
      && (ok ==>
            && handle == Payload(answer) + BUFFER_HEADER
            && capacity == old(GrownCapacity(n))
            && heap.calls == old(heap.calls) + [old(GrowCall(n))]
            && heap.headers == old(GrownHeaders(n, answer)))
      && (!ok ==> handle == old(handle))
      && (!ok && old(handle) == NULL ==>
            heap.calls == old(heap.calls) + [old(GrowCall(n))] && heap.headers == old(heap.headers))
      && (!ok && old(handle) != NULL ==>
            && heap.calls == old(heap.calls) + [old(GrowCall(n)),
                 Deallocate(old(heap.allocator).value, old(handle) - BUFFER_HEADER - HEADER)]
            && heap.headers == old(heap.headers) - {old(handle) - BUFFER_HEADER - HEADER})
    }

    /**
     * The effect of bes_buffer_try_grow(n): on the fast path it succeeds and
     * the handle, the capacity and the heap are untouched; otherwise it is
     * bes_buffer_grow(n).
     */
    twostate predicate TriedGrow(n: nat, answer: nat, ok: bool)
      reads this, heap
      requires old(Valid()) && old(heap.allocator).Some?
    {
      if old(Fits(n)) then
        && ok
        && handle == old(handle)
        && capacity == old(capacity)
        && heap.calls == old(heap.calls)
        && heap.headers == old(heap.headers)
      else
        Grew(n, answer, ok)
    }

    /** Growth by n elements does not wrap the byte count handed to the heap. */
    predicate GrowFits(n: nat)
      reads this
    {
      Request(typeSize * GrownCapacity(n) + BUFFER_HEADER) <= SIZE_MAX
    }

    /** The allocator's answer to the request of a growth follows malloc/realloc semantics. */
    predicate Acceptable(answer: nat)
      reads this, heap
    {
      answer == NULL || (handle != NULL && Payload(answer) == handle - BUFFER_HEADER) || heap.FreshBlock(answer)
    }

    /**
     * BES_BUFFER_INITIALIZER: a buffer of elements of typeSize bytes, empty.
     * typeSize is `sizeof *BUFFER`, which C never makes 0.
     */
    constructor (heap: Heap, typeSize: nat)
      requires heap.Valid() && typeSize >= 1
      ensures this.heap == heap && this.typeSize == typeSize
      ensures handle == NULL && Valid() && Elements() == []
    {
      this.heap := heap;
      this.typeSize := typeSize;
      handle := NULL;
      capacity := 0;
      size := 0;
      slots := [];
    }

    /** bes_buffer_size: 0 for the NULL handle, the header's size otherwise. */
    function Size(): (n: nat)
      reads this, heap
      ensures Valid() ==> n == |Elements()|
      ensures handle == NULL ==> n == 0
    {
      if handle != NULL then size else 0
    }

    /**
     * bes_buffer_grow. From NULL: a fresh allocation for n + 1 elements with
     * size 0. Otherwise: the storage is reallocated for 2 * capacity + n
     * elements, and when that fails the old storage is freed while the
     * handle is left pointing at it.
     */
    method Grow(n: nat, answer: nat) returns (ok: bool)
      requires Valid() && heap.allocator.Some?
      requires GrowFits(n) && Acceptable(answer)
      modifies this, heap`headers, heap`calls
      ensures Grew(n, answer, ok)
      ensures size == old(size)
      ensures ok ==> Valid() && slots[..old(capacity)] == old(slots) && size + n < capacity
      ensures !ok && old(handle) == NULL ==> Valid()
      ensures !ok && old(handle) != NULL ==> Dangling()
    {
      var filler: T := *;
      if handle != NULL {
        var meta := handle - BUFFER_HEADER;
        var count := 2 * capacity + n;
        var data := heap.Realloc(meta, typeSize * count + BUFFER_HEADER, answer);
        if data == NULL {
          heap.Free(meta);
          return false;
        }
        capacity := count;
        slots := slots + seq(count - |slots|, _ => filler);
        handle := data + BUFFER_HEADER;
      } else {
        var count := n + 1;
        var data := heap.Malloc(typeSize * count + BUFFER_HEADER, answer);
        if data == NULL {
          return false;
        }
        size := 0;
        capacity := count;
        slots := seq(count, _ => filler);
        handle := data + BUFFER_HEADER;
      }
      ok := true;
    }

    /**
     * bes_buffer_try_grow: nothing happens while n more elements fit with a
     * slot to spare (the strict `<`); otherwise bes_buffer_grow. The size
     * never changes.
     */
    method TryGrow(n: nat, answer: nat) returns (ok: bool)
      requires Valid() && heap.allocator.Some?
      requires GrowFits(n) && Acceptable(answer)
      modifies this, heap`headers, heap`calls
      ensures TriedGrow(n, answer, ok)
      ensures size == old(size)
      ensures old(Fits(n)) ==> slots == old(slots)
      ensures ok ==> Valid() && size + n < capacity && slots[..old(capacity)] == old(slots)
      ensures !ok && old(handle) == NULL ==> Valid()
      ensures !ok && old(handle) != NULL ==> Dangling()
    {
      if Fits(n) {
        ok := true;
      } else {
        ok := Grow(n, answer);
      }
    }

    /** bes_buffer_expand: on success the size grows by exactly n; the earlier elements are kept. */
    method Expand(n: nat, answer: nat) returns (ok: bool)
      requires Valid() && heap.allocator.Some?
      requires GrowFits(n) && Acceptable(answer)
      modifies this, heap`headers, heap`calls
      ensures TriedGrow(n, answer, ok)
      ensures ok ==> Valid() && size == old(Size()) + n && size < capacity
      ensures ok ==> Elements()[..old(Size())] == old(Elements())
      ensures !ok ==> size == old(size)
      ensures !ok && old(handle) == NULL ==> Valid()
      ensures !ok && old(handle) != NULL ==> Dangling()
    {
      ok := TryGrow(n, answer);
      if ok {
        size := size + n;
      }
    }

    /** bes_buffer_push: on success v is stored at the old size and every earlier element is kept. */
    method Push(v: T, answer: nat) returns (ok: bool)
      requires Valid() && heap.allocator.Some?
      requires GrowFits(1) && Acceptable(answer)
      modifies this, heap`headers, heap`calls
      ensures TriedGrow(1, answer, ok)
      ensures ok ==> Valid() && Elements() == old(Elements()) + [v] && size < capacity
      ensures !ok ==> size == old(size)
      ensures !ok && old(handle) == NULL ==> Valid()
      ensures !ok && old(handle) != NULL ==> Dangling()
    {
      ok := TryGrow(1, answer);
      if ok {
        ghost var kept := slots[..size];
        slots := slots[size := v];
        size := size + 1;
        assert slots[..size] == kept + [v];
      }
    }

    /**
     * bes_buffer_resize. A present buffer at least k long is cut to k without
     * touching the storage; a shorter one is expanded by the difference; the
     * NULL buffer is grown by k (capacity k + 1) and its size set to k.
     */
    method Resize(k: nat, answer: nat) returns (ok: bool)
      requires Valid() && heap.allocator.Some?
      requires handle != NULL && size < k ==> GrowFits(k - size)
      requires handle == NULL ==> GrowFits(k)
      requires Acceptable(answer)
      modifies this, heap`headers, heap`calls
      ensures old(handle) != NULL && old(size) >= k ==>
        ok && Valid() && handle == old(handle) && capacity == old(capacity) && slots == old(slots) &&
        size == k && heap.calls == old(heap.calls) && heap.headers == old(heap.headers)
      ensures old(handle) != NULL && old(size) < k ==> TriedGrow(k - old(size), answer, ok)
      ensures old(handle) == NULL ==> Grew(k, answer, ok)
      ensures ok ==> Valid() && size == k && size < capacity
      ensures ok ==> (Elements()[..if k < old(Size()) then k else old(Size())] ==
                      old(Elements())[..if k < old(Size()) then k else old(Size())])
      ensures !ok ==> size == old(size)
      ensures !ok && old(handle) == NULL ==> Valid()
      ensures !ok && old(handle) != NULL ==> Dangling()
    {
      if handle != NULL {
        if size >= k {
          size := k;
          ok := true;
        } else {
          ok := Expand(k - size, answer);
        }
      } else {
        ok := Grow(k, answer);
        if ok {
          size := k;
        }
      }
    }

    /** The copy into the buffer's storage: d replaces the elements from `at` on. */
    method Store(at: nat, d: seq<T>)
      requires Valid() && at + |d| <= size
      modifies this`slots
      ensures Valid()
      ensures Elements() == old(Elements())[..at] + d + old(Elements())[at + |d|..]
    {
      slots := slots[..at] + d + slots[at + |d|..];
    }

    /** bes_buffer_clear: the size drops to 0; capacity and storage are kept; NULL is left alone. */
    method Clear()
      requires Valid()
      modifies this`size
      ensures Valid() && Elements() == [] && Size() == 0
    {
      if handle != NULL {
        size := 0;
      }
    }

    /**
     * bes_buffer_free: a present buffer's allocation is released through
     * bes_buffer_delete (bes_free on the header address) and the handle reset
     * to NULL; NULL is left alone.
     */
    method Free()
      requires Valid()
      requires handle != NULL ==> heap.allocator.Some?
      modifies this, heap`headers, heap`calls
      ensures Valid() && handle == NULL && Size() == 0
      ensures old(handle) == NULL ==> heap.calls == old(heap.calls) && heap.headers == old(heap.headers)
      ensures old(handle) != NULL ==>
        heap.calls == old(heap.calls) + [Deallocate(heap.allocator.value, old(handle) - BUFFER_HEADER - HEADER)]
      ensures old(handle) != NULL ==> heap.headers == old(heap.headers) - {old(handle) - BUFFER_HEADER - HEADER}
    {
      if handle != NULL {
        Delete();
        handle := NULL;
        capacity := 0;
        size := 0;
        slots := [];
      }
    }

    /** bes_buffer_delete: bes_free on the buffer header, which is the heap payload. */
    method Delete()
      requires Valid() && handle != NULL && heap.allocator.Some?
      modifies heap`headers, heap`calls
      ensures heap.calls == old(heap.calls) + [Deallocate(heap.allocator.value, handle - BUFFER_HEADER - HEADER)]
      ensures heap.headers == old(heap.headers) - {handle - BUFFER_HEADER - HEADER}
    {
      heap.Free(handle - BUFFER_HEADER);
    }
  }

  /**
   * bes_buffer_write: expands a byte buffer by |d| and copies d into the new
   * tail (bes_memcpy, taken here as a plain byte copy). A failed expansion
   * is reported, with the effects of bes_buffer_grow's failure.
   */
  method Write(b: Buffer<bv8>, d: seq<bv8>, answer: nat) returns (ok: bool)
    requires b.Valid() && b.heap.allocator.Some? && b.typeSize == 1
    requires b.GrowFits(|d|) && b.Acceptable(answer)
    modifies b, b.heap`headers, b.heap`calls
    ensures b.TriedGrow(|d|, answer, ok)
    ensures ok ==> b.Valid() && b.Elements() == old(b.Elements()) + d
    ensures !ok ==> b.size == old(b.size)
    ensures !ok && old(b.handle) == NULL ==> b.Valid()
    ensures !ok && old(b.handle) != NULL ==> b.Dangling()
  {
    var current := b.Size();
    ok := b.Expand(|d|, answer);
    if ok {
      b.Store(current, d);
    }
  }

  /**
   * bes_buffer_read: the bounds check `offset + n > size` comes first, so a
   * read past the end fails even when n is 0; a zero-length read in bounds
   * succeeds without copying; otherwise n bytes from the cursor are copied
   * out and the cursor advances by n.
   */
  method Read(out: array<bv8>, n: nat, offset: nat, b: Buffer<bv8>) returns (ok: bool, offset': nat)
    requires b.Valid()
    requires offset + n <= SIZE_MAX
    requires n <= out.Length
    modifies out
    ensures ok <==> offset + n <= b.Size()
    ensures !ok || n == 0 ==> offset' == offset && out[..] == old(out[..])
    ensures ok ==> offset' == offset + n
    ensures ok ==> out[..n] == b.Elements()[offset..offset + n] && out[n..] == old(out[n..])
  {
    var bufferSize := b.Size();
    if offset + n > bufferSize {
      return false, offset;
    }
    if n == 0 {
      return true, offset;
    }
    forall i | 0 <= i < n {
      out[i] := b.slots[offset + i];
    }
    return true, offset + n;
  }

  /**
   * Writing d into an empty byte buffer and reading |d| bytes back from
   * cursor 0 gives d, and moves the cursor to |d|.
   */
  method WriteThenRead(b: Buffer<bv8>, d: seq<bv8>, answer: nat, out: array<bv8>)
    returns (written: bool, read: bool, offset: nat)
    requires b.Valid() && b.heap.allocator.Some? && b.typeSize == 1 && b.handle == NULL
    requires b.GrowFits(|d|) && b.Acceptable(answer)
    requires |d| <= out.Length && |d| <= SIZE_MAX
    modifies b, b.heap`headers, b.heap`calls, out
    ensures written <==> answer != NULL
    ensures written ==> read && offset == |d| && out[..|d|] == d
  {
    written := Write(b, d, answer);
    read, offset := false, 0;
    if written {
      read, offset := Read(out, |d|, 0, b);
    }
  }

  function Pow2(k: nat): (p: nat)
    ensures p >= 1
  {
    if k == 0 then 1 else 2 * Pow2(k - 1)
  }

  /**
   * The capacity of a buffer filled by push alone, after its k-th regrowth:
   * the first push from NULL grows by one element to 2 slots, and every
   * later regrowth by one element doubles the capacity and adds one.
   */
  function PushCapacity(k: nat): nat {
    if k == 0 then 2 else 2 * PushCapacity(k - 1) + 1
  }

  /**
   * Growth is geometric: after k regrowths by push the capacity is
   * 3 * 2^k - 1, at least 2^(k+1).
   */
  lemma {:induction false} PushCapacityGeometric(k: nat)
    ensures PushCapacity(k) + 1 == 3 * Pow2(k)
    ensures PushCapacity(k) >= Pow2(k + 1)
  {
    if k > 0 {
      PushCapacityGeometric(k - 1);
    }
  }

  /**
   * One successful push moves a buffer along the PushCapacity schedule: from
   * NULL to its first entry, and otherwise either not at all (the fast path)
   * or by one step, which happens only when just the spare slot was left.
   */
  twostate lemma PushAdvancesSchedule<T(0)>(b: Buffer<T>, k: nat, answer: nat)
    requires old(b.Valid()) && old(b.heap.allocator).Some?
    requires old(b.handle) == NULL || old(b.capacity) == PushCapacity(k)
    requires b.TriedGrow(1, answer, true)
    ensures old(b.handle) == NULL ==> b.capacity == PushCapacity(0)
    ensures old(b.handle) != NULL && old(b.Fits(1)) ==> b.capacity == PushCapacity(k)
    ensures old(b.handle) != NULL && !old(b.Fits(1)) ==>
      b.capacity == PushCapacity(k + 1) && old(b.size) + 1 == old(b.capacity)
  {
  }

  /**
   * Growing one buffer leaves every other buffer on the same heap valid:
   * the growth removes only its own header and adds one for a block the
   * allocator handed out afresh (or for its own block, reallocated in place).
   */
  twostate lemma GrowthKeepsOtherBuffers<T(0), U(0)>(a: Buffer<T>, b: Buffer<U>, n: nat, answer: nat, ok: bool)
    requires old(a.Valid()) && old(a.heap.allocator).Some? && old(a.Acceptable(answer))
    requires a.TriedGrow(n, answer, ok) && a.heap.allocator == old(a.heap.allocator)
    requires old(b.Valid()) && b.heap == a.heap && unchanged(b)
    requires old(b.handle) != NULL ==> old(a.handle) != old(b.handle)
    ensures b.Valid()
  {
  }
}
