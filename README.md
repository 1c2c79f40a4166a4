# Foundation: aligned heap, growable buffer, byte strings and byte swaps

This project models the core of the `bes/foundation` C library in Dafny and proves properties of the model:

- **Aligned heap** (`bes/foundation/memory.c`, module `Memory`).
  - Addresses are natural numbers and `NULL` is 0.
  - Every payload is 16-aligned and sits just past a 16-byte header `{size, base}`.
  - The installed allocator is a field of the `Heap` class. Each call into it is recorded in a trace `calls`.
  - The address the allocator returns is a parameter (`answer`, 0 for failure) of the operation that asks for it.
- **Growable buffer** (`bes/foundation/buffer.h` macros and `bes/foundation/buffer.c`, module `Buffers`).
  - A `Buffer<T>` class holds:
    - the handle (the address of element 0, `NULL` for the empty buffer);
    - the header fields `capacity` and `size`;
    - the element slots.
  - Its storage is an allocation of the aligned heap.
  - `write` and `read` move bytes in and out behind a cursor.
- **Byte strings** (`bes/foundation/string.c`).
  - Module `CStrings` holds `memcmp`, `strlen`, `strcmp`, `strchrnul`, `strchr`, `strspn`, `strcspn` (with the 256-bit byte set), `strtok`, `stpcpy` and `strcpy`.
  - Module `Atoi` holds the flag-word state machine of `atoi`.
  - Module `Utf` holds the two-pass UTF-8/UTF-16 converters.
  - A C string is a `seq<bv8>` holding a NUL, and a pointer into it is an index. Destinations the routines write are `array<bv8>` or `array<bv16>`.
- **Byte swaps** (`bes/foundation/bswap.h`, module `Bswap`): 16-, 32- and 64-bit byte reversal on bit-vectors.

Each routine that works by a loop is a method proved against a specification function. Each routine that computes a value is a function. The properties the library promises are lemmas about those functions.

The model follows the code where the code does something other than what the library's design describes or what the standards describe:

- **`bes_free`** deallocates `ptr - header`, not the base recorded in the header. `Memory.FreedAddressIsBaseIffAligned` shows the two agree exactly when the allocator's base was already 16-aligned.
- **`resize` from `NULL`** goes through `bes_buffer_grow`, so the capacity is `k + 1`, not `k`.
- **A failed regrow** frees the old storage but leaves the caller's handle pointing at it (`Dangling`).
- **The UTF-8 reader** tests the current byte for the continuation form.
  - A multibyte sequence therefore yields one unit holding only its lead byte's value bits.
  - A lead byte whose value bits are all zero (E0 A0 80) yields a zero unit, which ends the wide string early.
  - The surrogate-pair branch of the reader can never be taken.
- **The UTF-8 writer** masks the last byte of a three-byte sequence with 0xEF instead of 0x3F (RFC 3629, section 3).
- **`atoi`**: a sign byte after the digits clears the minus flag, so `"-5-"` gives 5.

## Model

| member | source | states |
|---|---|---|
| Memory.AlignUp | bes/foundation/memory.c:67 | the rounded size is a multiple of 16 and lies in `[n, n + 15]` |
| Memory.AlignUpIsLeast | bes/foundation/memory.c:67 | the rounded size is the least multiple of 16 that is at least the request |
| Memory.Payload | bes/foundation/memory.c:74 | the payload address is 16-aligned and lies in `[base + header, base + header + 15]` |
| Memory.PayloadFitsInBlock | bes/foundation/memory.c:70-78 | the header below the payload and the rounded payload both fit in the `rounded + header + 16` bytes requested |
| Memory.FreedAddressIsBaseIffAligned | bes/foundation/memory.c:123-127 | the address `bes_free` hands to `deallocate` equals the recorded base if and only if that base is 16-aligned |
| Memory.FreedAddressDiffersForUnalignedBase | bes/foundation/memory.c:74-78 | for base 8 the payload is 32, and `bes_free` would deallocate 16, not 8 |
| Memory.Request | bes/foundation/memory.c:70 | the byte count asked of the allocator is a multiple of 16 and exceeds the request by 32 to 47 bytes |
| Memory.PayloadGap | bes/foundation/memory.c:74 | the payload lies 16 bytes past an aligned base and `32 - base % 16` bytes past any other |
| Memory.ReallocKeepsOffsetIffSameResidue | bes/foundation/memory.c:99-109 | after the allocator copies the block from its base, the payload keeps its offset in the block if and only if the new base agrees with the old one modulo 16 |
| Memory.ReallocShiftExample | bes/foundation/memory.c:99-109 | bases 16 and 8 put the payload 16 and 24 bytes into the block, so a move between them shifts header and data by 8 bytes |
| Memory.Heap.SetAllocator | bes/foundation/memory.c:5-17 | succeeds and installs the allocator exactly when all three operations are present; otherwise keeps the previous one |
| Memory.Heap.Malloc | bes/foundation/memory.c:60-84 | asks the allocator once for `AlignUp(size) + 32` bytes; on failure returns NULL and writes no header; on success returns the aligned payload and records `{rounded size, base}` in the header just below it |
| Memory.Heap.Realloc | bes/foundation/memory.c:86-116 | from NULL it behaves as `Malloc`; otherwise it reallocates the recorded base, not the payload, and on success rewrites the header at the new payload |
| Memory.Heap.Free | bes/foundation/memory.c:118-128 | on NULL it does nothing; otherwise it calls `deallocate` exactly once, on `ptr - header`, and drops that header |
| Buffers.Buffer.constructor | bes/foundation/buffer.h:71 | a new buffer has the NULL handle, no elements, and is valid on the given heap |
| Buffers.Buffer.Size | bes/foundation/buffer.h:105-106 | 0 for the NULL handle, the number of elements in use otherwise |
| Buffers.Buffer.GrownCapacity | bes/foundation/buffer.c:15-24 | the grown capacity leaves room for n more elements with a spare slot, and at least doubles a present capacity |
| Buffers.Buffer.Grow | bes/foundation/buffer.c:5-38 | `Grew`: succeeds exactly when the allocator answers; on success the handle sits 16 bytes past the new payload, capacity is `GrownCapacity(n)`, the heap made exactly the one `Reallocate`/`Allocate` call and its headers are the old ones less the old block plus the new block; `size` and the old slots are kept (given an unshifted payload, see Left out) and `size + n < capacity`; on failure from NULL the heap only records the call; on failure otherwise it also calls `Deallocate`, drops the old header and leaves the handle dangling |
| Buffers.Buffer.TryGrow | bes/foundation/buffer.h:95-98 | `TriedGrow`: when `size + n < capacity` on a non-NULL handle it succeeds and handle, capacity, slots, heap headers and call trace are all unchanged; otherwise it is `Grow` with the same heap effect; it never changes `size` |
| Buffers.Buffer.Expand | bes/foundation/buffer.h:118-121 | the heap, handle and capacity change as for `TryGrow(n)`; on success `size` grows by exactly n, the earlier elements are kept (given an unshifted payload) and `size < capacity`; on failure `size` is unchanged and the buffer is valid or dangling, as for `Grow` |
| Buffers.Buffer.Push | bes/foundation/buffer.h:134-137 | the heap, handle and capacity change as for `TryGrow(1)`; on success the elements are the old ones followed by v (across a regrowth given an unshifted payload) |
| Buffers.Buffer.Resize | bes/foundation/buffer.h:175-182 | shrinking sets `size = k` and cannot fail, leaving handle, capacity, slots and heap alone; growing is `TryGrow(k - size)` on the heap, handle and capacity; from NULL it is `Grow(k)`, so the handle moves to the new block and the capacity is `k + 1`; on success `size = k` and the common prefix of the elements is kept (given an unshifted payload) |
| Buffers.Buffer.Clear | bes/foundation/buffer.h:189-190 | `size` becomes 0; capacity, handle and storage are kept; no-op on NULL |
| Buffers.Buffer.Free | bes/foundation/buffer.h:156-157 | on a non-NULL handle it frees the storage through the heap and sets the handle to NULL; no-op on NULL |
| Buffers.Buffer.Delete | bes/foundation/buffer.c:40-48 | deallocates the heap block under the buffer header |
| Buffers.PushCapacityGeometric | bes/foundation/buffer.c:15 | after k regrowths by push the capacity is `3 * 2^k - 1`, so at least `2^(k+1)` |
| Buffers.PushAdvancesSchedule | bes/foundation/buffer.h:134-137 | a successful push takes a buffer from NULL to capacity 2, and from the k-th capacity of the schedule either nowhere (the fast path) or to the next one, which only happens when just the spare slot was left |
| Buffers.GrowthKeepsOtherBuffers | bes/foundation/buffer.c:5-38 | growing one buffer leaves any other valid buffer on the same heap, with a different handle, valid |
| Buffers.Buffer.Store | bes/foundation/buffer.c:60 | the copied elements replace those from `at` on and every other element is kept |
| Buffers.Write | bes/foundation/buffer.c:50-62 | the heap, handle and capacity change as for `TryGrow(size of d)`; on success the bytes are the old bytes followed by d (given an unshifted payload); it fails only when the expansion fails |
| Buffers.Read | bes/foundation/buffer.c:64-91 | succeeds if and only if `offset + n <= size`; on failure, or for zero bytes, the cursor and the output are unchanged; on success it copies `buffer[offset, offset + n)` and advances the cursor by n |
| Buffers.WriteThenRead | bes/foundation/buffer.c:50-91 | writing d into an empty byte buffer and reading as many bytes from cursor 0 gives d back |
| CStrings.Length | bes/foundation/string.c:473-491 | the index of the first NUL: every byte before it is non-NUL |
| CStrings.Memcmp | bes/foundation/string.c:177-184 | 0 exactly when the first n bytes match; otherwise the unsigned difference of the first mismatching pair |
| CStrings.Strlen | bes/foundation/string.c:473-491 | returns the index of the first NUL |
| CStrings.Strcmp | bes/foundation/string.c:525-530 | 0 exactly when the two strings are equal; otherwise the unsigned difference at the first position where they differ |
| CStrings.ByteOf | bes/foundation/string.c:496 | the `int` argument becomes that byte when it is 0 to 255, and wraps by 256 when it is a negative `char` value |
| CStrings.Strchrnul | bes/foundation/string.c:493-516 | the first index holding `(byte)c` or the terminator, with no `(byte)c` before it |
| CStrings.Strchr | bes/foundation/string.c:518-523 | an index exactly when `(byte)c` occurs up to and including the terminator, and then the first such index |
| CStrings.Span | bes/foundation/string.c:601-623 | the longest prefix made only of bytes of the set |
| CStrings.ComplementSpan | bes/foundation/string.c:583-599 | the longest prefix made only of bytes not in the set, ending at the terminator at the latest |
| CStrings.WithBit | bes/foundation/string.c:13-14 | setting bit j of a word sets bit j and leaves every other bit as it was |
| CStrings.AddMember | bes/foundation/string.c:595 | setting the bit of x in the 256-bit set adds exactly x |
| CStrings.ByteSet | bes/foundation/string.c:617-619 | the bit set built from the bytes of c holds exactly the bytes of c |
| CStrings.Strspn | bes/foundation/string.c:601-623 | equals `Span` in all three cases: empty set, one byte and bit set |
| CStrings.SpanUnique | bes/foundation/string.c:601-623 | any prefix length with the span's two properties is the span |
| CStrings.Strcspn | bes/foundation/string.c:583-599 | equals `ComplementSpan`, both on the strchrnul path for sets of at most one byte and on the bit-set path |
| CStrings.ShortSetSpan | bes/foundation/string.c:588-591 | for a set of at most one byte, the `strchrnul` index is the complement span |
| CStrings.ComplementSpanUnique | bes/foundation/string.c:583-599 | any prefix length with the complement span's two properties is the complement span |
| CStrings.TokenStart | bes/foundation/string.c:633 | the token start lies at or after the scan start, inside the string and before its terminator |
| CStrings.TokenStartSkipsSeparators | bes/foundation/string.c:633 | the token starts after a run of separators, at a byte that is not a separator |
| CStrings.TokenEnd | bes/foundation/string.c:639 | the token end lies at or after the token start and inside the string |
| CStrings.TokenEndStopsAtSeparator | bes/foundation/string.c:639 | the token end lies at the first separator or the terminator, with no NUL or separator before it |
| CStrings.Tokenize | bes/foundation/string.c:625-650 | the buffer keeps its length; no token means no save position and an unchanged buffer; a token starts at a non-NUL byte at or after the start |
| CStrings.TokenizeCases | bes/foundation/string.c:639-647 | if the token runs to the terminator the save position is cleared; otherwise NUL is written over the separator and the save position is just past it |
| CStrings.TokenizeYieldsToken | bes/foundation/string.c:625-650 | the returned token is a non-empty C string without separators, equal to the original bytes, and nothing before it changes |
| CStrings.TokenizeResumes | bes/foundation/string.c:640-642 | the save position lies inside the buffer and still has a terminator after it, so the next call can resume there |
| CStrings.NulAfterTerminator | bes/foundation/string.c:642 | writing the token's NUL leaves a terminator after the save position |
| CStrings.TokenIsCString | bes/foundation/string.c:642 | after the write, the token read from its start is exactly the bytes between its start and the separator |
| CStrings.Strtok | bes/foundation/string.c:625-650 | with no string and no save position it returns NULL and changes nothing; otherwise the token, the new save position and the new buffer are those of `Tokenize` |
| CStrings.SkipSeparators | bes/foundation/string.c:633 | the start after skipping the separators is `TokenStart` |
| CStrings.FindTokenEnd | bes/foundation/string.c:639 | the token end found is `TokenEnd` |
| CStrings.Stpcpy | bes/foundation/string.c:652-673 | copies the string and its terminator, leaves the rest of dest unchanged, and returns the index of the copied terminator |
| CStrings.Strcpy | bes/foundation/string.c:675-680 | dest holds the same C string as src afterwards |
| CStrings.PrefixLength | bes/foundation/string.c:670 | two strings sharing a prefix through the terminator have the same length and content |
| Atoi.Digit | bes/foundation/string.c:570 | a digit byte has a value from 0 to 9 |
| Atoi.DigitIsOffset | bes/foundation/string.c:577 | that value is the byte minus 48 |
| Atoi.Step | bes/foundation/string.c:566-574 | the accumulate flag is set exactly on a digit byte, and NUL stops the machine |
| Atoi.Scan | bes/foundation/string.c:564-579 | the machine always stops; a non-negative accumulator only grows |
| Atoi.Atoi | bes/foundation/string.c:559-581 | the loop computes `Value`: the accumulated magnitude, negated when the minus flag survives |
| Atoi.Value | bes/foundation/string.c:580 | the result is the scanned magnitude or its negation, negative only when the minus flag survived and positive only when it did not |
| Atoi.AccumulateIsDecimal | bes/foundation/string.c:575-578 | accumulating digits onto r gives r times 10 to the number of digits, plus their decimal value |
| Atoi.DecimalOfTail | bes/foundation/string.c:577 | a decimal number's leading digit weighs 10 to the number of the digits after it |
| Atoi.ScanBlanks | bes/foundation/string.c:572-573 | blanks before the digits leave the machine where it was |
| Atoi.ScanDigits | bes/foundation/string.c:570-571 | a run of digits sets the digit flags and accumulates the run |
| Atoi.StepOnDigit | bes/foundation/string.c:570-571 | a digit sets the flags 2 and 8 and keeps the machine running |
| Atoi.StopAfterDigits | bes/foundation/string.c:566-574 | the first non-digit after the digits stops the machine; the minus flag survives unless that byte is a sign |
| Atoi.AtoiSkipsLeadingBlanks | bes/foundation/string.c:572-573 | leading blanks do not change the result |
| Atoi.AtoiDigits | bes/foundation/string.c:559-581 | digits followed by a non-digit give their decimal value ("100 200" gives 100) |
| Atoi.AtoiSigned | bes/foundation/string.c:566-569 | a sign, blanks, then digits give minus the decimal value after '-' (" - 100" gives -100), unless a sign byte ends the digits, which drops the minus |
| Atoi.ScanSign | bes/foundation/string.c:566-569 | a leading '-' or '+' moves the machine to the after-sign state |
| Atoi.AtoiTwoSigns | bes/foundation/string.c:566-569 | two signs before any digit give 0 |
| Atoi.AtoiDroppedMinusExample | bes/foundation/string.c:567 | "-5-" gives 5 |
| Utf.WideLength | bes/foundation/string.c:357 | the index of the first zero unit of a wide string |
| Utf.LeadBits | bes/foundation/string.c:299-318 | the value bits kept from a byte that starts a character: at most 0x7F, and the byte itself below 0x80 |
| Utf.UnitsOfByte | bes/foundation/string.c:320-339 | a continuation byte emits no unit and any other byte exactly one |
| Utf.NextCodePoint | bes/foundation/string.c:299-318 | after any byte that is not a continuation byte the code point is that byte's lead bits |
| Utf.Utf16Of | bes/foundation/string.c:295-340 | at most one unit per byte, each at most 0x7F |
| Utf.Utf8ToUtf16Core | bes/foundation/string.c:287-346 | the count equals the number of units, and with a destination exactly those units are written, nothing past them |
| Utf.Utf8ToUtf16 | bes/foundation/string.c:427-448 | requests `(count + 1) * 2` bytes; on failure returns false; on success the block holds the units of the first pass followed by a zero unit at index count |
| Utf.Utf16OfPrefix | bes/foundation/string.c:295-340 | the units for a prefix of the bytes are a prefix of the units for all of them |
| Utf.Utf16OfCountsLeadBytes | bes/foundation/string.c:320-339 | the unit count is the number of bytes that are not continuation bytes |
| Utf.Utf8Bytes | bes/foundation/string.c:374-415 | one byte up to 0x7F, four bytes exactly above 0xFFFF |
| Utf.WriteUnit | bes/foundation/string.c:359-417 | a high surrogate writes nothing; any other unit clears the pending code point; a unit that is not a surrogate is written as its own code point |
| Utf.Utf8Of | bes/foundation/string.c:357-419 | at most four bytes per unit |
| Utf.Utf16ToUtf8Core | bes/foundation/string.c:349-425 | the count equals the number of bytes, and with a destination exactly those bytes are written, nothing past them |
| Utf.WriteStep | bes/foundation/string.c:359-417 | one unit of the writer writes that unit's bytes after the earlier ones and hands on the pending code point |
| Utf.WriteBytes | bes/foundation/string.c:378-414 | the bytes are stored after the first `at` bytes, and nothing else changes |
| Utf.Utf16ToUtf8 | bes/foundation/string.c:450-471 | requests `count + 1` bytes; on failure returns false; on success the block holds the bytes of the first pass followed by NUL at index count |
| Utf.Utf8OfPrefix | bes/foundation/string.c:357-419 | the bytes for a prefix of the units are a prefix of the bytes for all of them |
| Utf.Utf16OfAscii | bes/foundation/string.c:299-301 | ASCII bytes become units of the same values |
| Utf.Utf8OfAscii | bes/foundation/string.c:371-382 | ASCII units become bytes of the same values, with no code point left pending |
| Utf.AsciiRoundTrip | bes/foundation/string.c:427-471 | an ASCII string converted to UTF-16 and back is unchanged |
| Utf.AsciiWideRoundTrip | bes/foundation/string.c:427-471 | an ASCII wide string converted to UTF-8 and back is unchanged |
| Utf.MultibyteKeepsLeadBits | bes/foundation/string.c:307-320 | C3 A9 ("é") becomes the single unit 0x03 |
| Utf.ZeroLeadBitsEndString | bes/foundation/string.c:311-320 | E0 A0 80 becomes the single unit 0, which ends the wide string |
| Utf.PairCodePoint | bes/foundation/string.c:361-367 | a surrogate pair stands for a code point from 0x10000 to 0x10FFFF |
| Utf.PairBits | bes/foundation/string.c:361-367 | the writer's shift-and-or gives the same code point as the addition of RFC 2781, section 2.2 |
| Utf.SurrogatePair | bes/foundation/string.c:359-417 | a high surrogate followed by a low surrogate is written as the four bytes of the pair's code point |
| Utf.SurrogatePairExample | bes/foundation/string.c:404-415 | D83D DE00 (U+1F600) is written F0 9F 98 80 |
| Utf.ThreeByteMask | bes/foundation/string.c:401 | U+0810 is written E0 A0 80: the 0xEF mask drops bit 4 of the last byte |
| Bswap.BswapU16 | bes/foundation/bswap.h:6-10 | byte i of the result is byte `1 - i` of the input |
| Bswap.BswapU32 | bes/foundation/bswap.h:12-17 | byte i of the result is byte `3 - i` of the input |
| Bswap.BswapU64 | bes/foundation/bswap.h:19-25 | byte i of the result is byte `7 - i` of the input |
| Bswap.Bytes16Determine | bes/foundation/bswap.h:6-10 | two 16-bit words with the same bytes are equal |
| Bswap.Bytes32Determine | bes/foundation/bswap.h:12-17 | two 32-bit words with the same bytes are equal |
| Bswap.Bytes64Determine | bes/foundation/bswap.h:19-25 | two 64-bit words with the same bytes are equal |
| Bswap.BswapU16Involution | bes/foundation/bswap.h:6-10 | swapping twice gives the input back |
| Bswap.BswapU32Involution | bes/foundation/bswap.h:12-17 | swapping twice gives the input back |
| Bswap.BswapU64Involution | bes/foundation/bswap.h:19-25 | swapping twice gives the input back |
| Bswap.TestVectors | bes/foundation/bswap.h:6-25 | 0xAABB, 0xAABBCCDD and 0xAABBCCDDEEFF1234 swap to 0xBBAA, 0xDDCCBBAA and 0x3412FFEEDDCCBBAA |

## Left out

- Floating point: `bes_atof` and all of `bes/foundation/math.c` are not part of this model.
- `bes_memcpy` and `bes_memset`, and the word-at-a-time fast paths of `strlen`, `strchrnul` and `stpcpy`. They depend on pointer alignment and type punning, so each routine is modelled by the byte loop those paths stand for. Copies inside `write`, `read` and `realloc` are plain element copies.
- `bes_bswap_is_big_endian` and `bes_bswap_is_lil_endian`: they depend on the platform's byte order.
- The stream layer (`bes/foundation/stream.c`) and the test harness.
- Thread locality and concurrent use of the installed allocator: the allocator is one field of the `Heap` object.
- The allocator itself is not visible code. Each call is recorded, and its answer is a parameter. The answer must be NULL or a block whose payload is not live; a reallocation may also answer with the block being resized.
- Memory.Heap.Malloc, Memory.Heap.Realloc and Buffers.Buffer.Grow: unsigned wrap-around of the size arithmetic is excluded by a `requires` bound against `SIZE_MAX` (2^64 - 1), not modelled.
- Buffers.Buffer.Grow: the model keeps the slots of a reallocated buffer. `bes_realloc` lets the allocator copy the block from its base and then re-derives the payload from the new base, so when the new base differs from the old one modulo 16 the copied header and elements sit 1 to 15 bytes away from where the new handle reads them (`Memory.ReallocKeepsOffsetIffSameResidue`). The model does not represent bytes at that level, so its promise that the elements are kept holds only for a reallocation that keeps the base's residue modulo 16.
- Buffers.Buffer.TryGrow: keeps the slots on regrowth only under the same condition as `Grow`.
- Buffers.Buffer.Expand: keeps the earlier elements on regrowth only under the same condition as `Grow`.
- Buffers.Buffer.Push: keeps the earlier elements on regrowth only under the same condition as `Grow`.
- Buffers.Buffer.Resize: keeps the common prefix on regrowth only under the same condition as `Grow`.
- Buffers.Write: keeps the earlier bytes on regrowth only under the same condition as `Grow`.
- Buffers.PushCapacityGeometric: the count of reallocations over a whole run of N pushes (about log2 N) is not stated as one lemma; the schedule and each push's step along it are (`Buffers.PushAdvancesSchedule`).
- Memory.Heap.Realloc: the heap's behaviour after a failed reallocation is the allocator's; the model leaves the header map unchanged.
- Atoi.Atoi: signed overflow of `ret * 10 + *str` is excluded by requiring the magnitude plus 48 to fit in a 32-bit `int`.
- Utf.Utf8ToUtf16 and Utf.Utf16ToUtf8: the destination array stands for the heap block at the returned address. The link between the two is not modelled.
- Utf.Utf8ToUtf16Core: the surrogate branch (`code_point > 0xFFFF`) cannot be reached, because a unit is only emitted at a byte whose value bits are at most 0x7F. The model asserts it is unreachable instead of modelling its writes.
- Utf.Utf8ToUtf16Core and Utf.Utf16ToUtf8Core: the optional length out-pointer is modelled as the returned count on both passes.
- Buffers.Read: the debug assertions that the output, the cursor and the buffer are non-NULL are not modelled. A NULL buffer is read as one of size 0.
- The general Unicode round trip does not hold for this code and is not stated. Only ASCII text round-trips, which `Utf.AsciiRoundTrip` and `Utf.AsciiWideRoundTrip` prove.
