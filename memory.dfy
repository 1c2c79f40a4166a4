/**
 * The aligned heap of bes/foundation/memory.c.
 *
 * Addresses are natural numbers and NULL is 0. The allocator installed with
 * bes_allocator_set is not code this model can see: each call into it is
 * recorded in a trace, and the address it hands back is a parameter of the
 * operation that makes the call (0 when the allocator fails).
 *
 * Every payload handed out is 16-aligned and is preceded by a 16-byte
 * header {size, base} recording the rounded request and the address the
 * allocator actually returned.
 */
module Memory {

  import opened Wrappers

  const NULL: nat := 0

  /** BES_ALIGNMENT (bes/foundation/config.h). */
  const ALIGNMENT: nat := 16

  /** sizeof(bes_alloc_header): {bes_size, pointer} rounded up to ALIGNMENT. */
  const HEADER: nat := 16

  /** The largest value of bes_size on the 64-bit targets the library is built for. */
  const SIZE_MAX: nat := 0xFFFF_FFFF_FFFF_FFFF

  /** `(n + ALIGNMENT - 1) & -ALIGNMENT`: clearing the low four bits rounds down to a multiple of 16. */
  function AlignUp(n: nat): (r: nat)
    ensures r % ALIGNMENT == 0
    ensures n <= r < n + ALIGNMENT
  {
    (n + ALIGNMENT - 1) / ALIGNMENT * ALIGNMENT
  }

  /** The rounded size is the least multiple of ALIGNMENT that is at least n. */
  lemma AlignUpIsLeast(n: nat, m: nat)
    requires m % ALIGNMENT == 0 && n <= m
    ensures AlignUp(n) <= m
  {
  }

  /** The number of bytes asked of the allocator for a request of n bytes. */
  function Request(n: nat): (r: nat)
    ensures r % ALIGNMENT == 0
    ensures n + HEADER + ALIGNMENT <= r < n + HEADER + 2 * ALIGNMENT
  {
    AlignUp(n) + HEADER + ALIGNMENT
  }

  /** The aligned address returned for an allocation whose underlying base is `base`. */
  function Payload(base: nat): (p: nat)
    ensures p % ALIGNMENT == 0
    ensures base + HEADER <= p <= base + HEADER + ALIGNMENT - 1
  {
    (base + HEADER + ALIGNMENT - 1) / ALIGNMENT * ALIGNMENT
  }

  /** The header and the rounded payload of an n-byte request lie inside the block the allocator returned. */
  lemma PayloadFitsInBlock(base: nat, n: nat)
    ensures base <= Payload(base) - HEADER
    ensures Payload(base) + AlignUp(n) <= base + Request(n)
  {
  }

  /**
   * bes_free hands `ptr - HEADER` to the allocator instead of the recorded
   * base: the two agree exactly when the allocator's base was already
   * 16-aligned.
   */
  lemma FreedAddressIsBaseIffAligned(base: nat)
    ensures Payload(base) - HEADER == base <==> base % ALIGNMENT == 0
  {
    if base % ALIGNMENT == 0 {
      assert (base + HEADER + ALIGNMENT - 1) / ALIGNMENT == base / ALIGNMENT + 1;
    }
  }

  /** A concrete base where the two differ: the allocator gets back an address it never returned. */
  lemma FreedAddressDiffersForUnalignedBase()
    ensures Payload(8) == 32 && Payload(8) - HEADER == 16 != 8
  {
  }

  /**
   * The gap between a block's base and its payload: 16 for an aligned
   * base, and 32 - base % 16 otherwise.
   */
  lemma {:induction false} PayloadGap(base: nat)
    ensures Payload(base) - base == if base % ALIGNMENT == 0 then HEADER else HEADER + ALIGNMENT - base % ALIGNMENT
  {
    var q, r := base / ALIGNMENT, base % ALIGNMENT;
    assert base == ALIGNMENT * q + r;
    if r == 0 {
      assert (base + HEADER + ALIGNMENT - 1) / ALIGNMENT == q + 1;
    } else {
      assert (base + HEADER + ALIGNMENT - 1) / ALIGNMENT == q + 2;
    }
  }

  /**
   * bes_realloc lets the allocator copy the block from its base, then puts
   * the payload at the aligned address past the new base. The payload keeps
   * its offset in the block exactly when the two bases agree modulo 16;
   * otherwise the copied header and data sit at a different offset.
   */
  lemma ReallocKeepsOffsetIffSameResidue(original: nat, resize: nat)
    ensures Payload(resize) - resize == Payload(original) - original <==> resize % ALIGNMENT == original % ALIGNMENT
  {
    PayloadGap(original);
    PayloadGap(resize);
  }

  /** A concrete pair of bases where the payload moves by 8 bytes within the copied block. */
  lemma ReallocShiftExample()
    ensures Payload(16) - 16 == 16 && Payload(8) - 8 == 24
  {
  }

  /** The allocator record: presence of its three function pointers, and its aux value. */
  datatype Allocator = Allocator(allocate: bool, reallocate: bool, deallocate: bool, aux: nat)
  {
    predicate Complete() { allocate && reallocate && deallocate }
  }

  /** The header stored just below every payload. */
  datatype AllocHeader = AllocHeader(size: nat, base: nat)

  /** One call made into the installed allocator, with the allocator it went to. */
  datatype Call =
    | Allocate(via: Allocator, size: nat)
    | Reallocate(via: Allocator, data: nat, size: nat)
    | Deallocate(via: Allocator, data: nat)

  class Heap {
    /** g_bes_allocator; None until an allocator is installed. */
    var allocator: Option<Allocator>
    /** The headers written in memory, by the address of the header (payload - HEADER). */
    var headers: map<nat, AllocHeader>
    /** Every call made into the installed allocator, oldest first. */
    var calls: seq<Call>

    ghost predicate Valid()
      reads this
    {
      allocator.Some? ==> allocator.value.Complete()
    }

    /** A payload address handed out by Malloc or Realloc and not yet freed. */
    predicate Live(p: nat)
      reads this
    {
      p >= HEADER && p - HEADER in headers
    }

    /** The allocator's contract (malloc semantics): a new block does not overlap a live payload. */
    predicate FreshBlock(base: nat)
      reads this
    {
      base == NULL || !Live(Payload(base))
    }

    constructor ()
      ensures Valid()
      ensures allocator == None && headers == map[] && calls == []
    {
      allocator := None;
      headers := map[];
      calls := [];
    }

    /** bes_allocator_set: installs the allocator only when all three operations are present. */
    method SetAllocator(a: Allocator) returns (ok: bool)
      requires Valid()
      modifies this`allocator
      ensures Valid()
      ensures ok <==> a.Complete()
      ensures allocator == if ok then Some(a) else old(allocator)
    {
      if a.allocate && a.reallocate && a.deallocate {
        allocator := Some(a);
        ok := true;
      } else {
        ok := false;
      }
    }

    /**
     * bes_malloc. `answer` is what the installed allocator returns for the
     * one request this makes.
     */
    method Malloc(size: nat, answer: nat) returns (p: nat)
      requires Valid() && allocator.Some?
      requires Request(size) <= SIZE_MAX
      requires FreshBlock(answer)
      modifies this`headers, this`calls
      ensures calls == old(calls) + [Allocate(allocator.value, Request(size))]
      ensures answer == NULL ==> p == NULL && headers == old(headers)
      ensures answer != NULL ==> p == Payload(answer) && p % ALIGNMENT == 0
      ensures answer != NULL ==> headers == old(headers)[p - HEADER := AllocHeader(AlignUp(size), answer)]
    {
      var rounded := AlignUp(size);
      var base := answer;
      calls := calls + [Allocate(allocator.value, rounded + HEADER + ALIGNMENT)];
      if base != NULL {
        var aligned := Payload(base);
        headers := headers[aligned - HEADER := AllocHeader(rounded, base)];
        p := aligned;
      } else {
        p := NULL;
      }
    }

    /**
     * bes_realloc. A NULL pointer is bes_malloc; otherwise the recorded base,
     * not the payload address, is handed to the allocator's reallocate.
     */
    method Realloc(ptr: nat, size: nat, answer: nat) returns (p: nat)
      requires Valid() && allocator.Some?
      requires ptr != NULL ==> Live(ptr)
      requires Request(size) <= SIZE_MAX
      requires answer == NULL || (ptr != NULL && Payload(answer) == ptr) || FreshBlock(answer)
      modifies this`headers, this`calls
      ensures ptr == NULL ==> calls == old(calls) + [Allocate(allocator.value, Request(size))]
      ensures ptr != NULL ==>
        calls == old(calls) + [Reallocate(allocator.value, old(headers)[ptr - HEADER].base, Request(size))]
      ensures answer == NULL ==> p == NULL && headers == old(headers)
      ensures answer != NULL ==> p == Payload(answer) && p % ALIGNMENT == 0
      ensures answer != NULL && ptr == NULL ==>
        headers == old(headers)[p - HEADER := AllocHeader(AlignUp(size), answer)]
      ensures answer != NULL && ptr != NULL ==>
        headers == (old(headers) - {ptr - HEADER})[p - HEADER := AllocHeader(AlignUp(size), answer)]
    {
      if ptr != NULL {
        var rounded := AlignUp(size);
        var node := ptr - HEADER;
        var original := headers[node].base;
        calls := calls + [Reallocate(allocator.value, original, rounded + HEADER + ALIGNMENT)];
        var resize := answer;
        if resize != NULL {
          var aligned := Payload(resize);
          headers := (headers - {node})[aligned - HEADER := AllocHeader(rounded, resize)];
          p := aligned;
        } else {
          p := NULL;
        }
      } else {
        p := Malloc(size, answer);
      }
    }

    /**
     * bes_free: NULL is ignored; otherwise deallocate is called once, on the
     * header address `ptr - HEADER` (see FreedAddressIsBaseIffAligned).
     */
    method Free(ptr: nat)
      requires Valid() && allocator.Some?
      requires ptr != NULL ==> Live(ptr)
      modifies this`headers, this`calls
      ensures ptr == NULL ==> calls == old(calls) && headers == old(headers)
      ensures ptr != NULL ==> calls == old(calls) + [Deallocate(allocator.value, ptr - HEADER)]
      ensures ptr != NULL ==> headers == old(headers) - {ptr - HEADER}
    {
      if ptr != NULL {
        var node := ptr - HEADER;
        calls := calls + [Deallocate(allocator.value, node)];
        headers := headers - {node};
      }
    }
  }
}
