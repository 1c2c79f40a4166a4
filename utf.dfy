/**
 * The UTF-8 and UTF-16 converters of bes/foundation/string.c. Each is a
 * core loop run twice by its wrapper: once without a destination, to count
 * the units the result needs, and once into a block of that size taken from
 * the aligned heap, which the wrapper then terminates.
 *
 * The loops are modelled as written, not as RFC 3629 and RFC 2781 describe:
 * the UTF-8 reader emits a unit only at a byte that is not a continuation
 * byte, before the continuation bytes are read, so a multibyte sequence
 * yields the value bits of its lead byte alone; and the UTF-8 writer masks
 * the last byte of a three-byte sequence with 0xEF.
 */
module Utf {

  import opened CStrings
  import opened Memory

  const WIDE_NUL: bv16 := 0

  /** The index of the first zero unit of a wide string. */
  function WideLength(s: seq<bv16>): (n: nat)
    requires WIDE_NUL in s
    ensures n < |s| && s[n] == WIDE_NUL
    ensures forall j :: 0 <= j < n ==> s[j] != WIDE_NUL
  {
    WideNulFrom(s, 0)
  }

  /** The index of the first zero unit at or after i, when none comes before i. */
  function WideNulFrom(s: seq<bv16>, i: nat): (n: nat)
    requires WIDE_NUL in s && i <= |s|
    requires forall j :: 0 <= j < i ==> s[j] != WIDE_NUL
    ensures i <= n < |s| && s[n] == WIDE_NUL
    ensures forall j :: 0 <= j < n ==> s[j] != WIDE_NUL
    decreases |s| - i
  {
    if s[i] == WIDE_NUL then i else WideNulFrom(s, i + 1)
  }

  /** The units of a wide string, without its terminator. */
  function WideContent(s: seq<bv16>): (t: seq<bv16>)
    requires WIDE_NUL in s
    ensures WIDE_NUL !in t
  {
    s[..WideLength(s)]
  }

  // ---------------------------------------------------------------------
  // UTF-8 to UTF-16
  // ---------------------------------------------------------------------

  /** A byte of the form 10xxxxxx, which continues a multibyte sequence. */
  predicate IsContinuation(ch: bv8) {
    ch & 0xC0 == 0x80
  }

  /**
   * The value bits the reader keeps from a byte that starts a character:
   * the whole byte below 0x80, else 5, 4 or 3 low bits by the lead byte's
   * form.
   */
  function LeadBits(ch: bv8): (v: bv8)
    ensures v <= 0x7F
    ensures ch <= 0x7F ==> v == ch
  {
    if ch <= 0x7F then ch
    else if ch <= 0xDF then ch & 0x1F
    else if ch <= 0xEF then ch & 0x0F
    else ch & 0x07
  }

  /** The UTF-16 units the reader emits at byte ch: none at a continuation byte, else one. */
  function UnitsOfByte(ch: bv8): (r: seq<bv16>)
    ensures |r| == (if IsContinuation(ch) then 0 else 1)
  {
    if IsContinuation(ch) then [] else [LeadBits(ch) as bv16]
  }

  /** What bes_utf8_to_utf16 produces for the bytes of a C string. */
  function Utf16Of(bytes: seq<bv8>): (r: seq<bv16>)
    ensures |r| <= |bytes|
    ensures forall k :: 0 <= k < |r| ==> r[k] <= 0x7F
  {
    if |bytes| == 0 then []
    else Utf16Of(bytes[..|bytes| - 1]) + UnitsOfByte(bytes[|bytes| - 1])
  }

  /** The code point the reader holds after byte ch, when it held cp before. */
  function NextCodePoint(cp: bv32, ch: bv8): (r: bv32)
    ensures !IsContinuation(ch) ==> r == LeadBits(ch) as bv32
  {
    if ch <= 0x7F then ch as bv32
    else if ch <= 0xBF then (cp << 6) | (ch & 0x3F) as bv32
    else if ch <= 0xDF then (ch & 0x1F) as bv32
    else if ch <= 0xEF then (ch & 0x0F) as bv32
    else (ch & 0x07) as bv32
  }

  /**
   * bes_utf8_to_utf16_core: counts, and when destination is non-null
   * writes, the UTF-16 units for the C string source.
   */
  method Utf8ToUtf16Core(source: seq<bv8>, destination: array?<bv16>) returns (count: nat)
    requires NUL in source
    requires destination != null ==> |Utf16Of(Content(source))| <= destination.Length
    modifies destination
    ensures count == |Utf16Of(Content(source))|
    ensures destination != null ==> destination[..count] == Utf16Of(Content(source))
    ensures destination != null ==> forall k :: count <= k < destination.Length ==> destination[k] == old(destination[k])
  {
    var n := 0;
    var codePoint: bv32 := 0;
    var i := 0;
    ghost var units: seq<bv16> := [];
    ghost var total := |Utf16Of(Content(source))|;
    while source[i] != NUL
      invariant i <= Length(source)
      invariant units == Utf16Of(source[..i])
      invariant n == |units| <= total
      invariant destination != null ==> destination[..n] == units
      invariant destination != null ==> forall k :: n <= k < destination.Length ==> destination[k] == old(destination[k])
      decreases Length(source) - i
    {
      var ch := source[i];
      codePoint := NextCodePoint(codePoint, ch);
      Utf16Step(source, i);
      if !IsContinuation(ch) && codePoint <= 0x10FFFF {
        if codePoint > 0xFFFF {
          assert false;
        } else if codePoint < 0xD800 || codePoint >= 0xE000 {
          if destination != null {
            destination[n] := codePoint as bv16;
          }
          n := n + 1;
        }
      }
      units := units + UnitsOfByte(ch);
      i := i + 1;
    }
    assert source[..i] == Content(source);
    count := n;
  }

  /**
   * bes_utf8_to_utf16: counts the units, takes (count + 1) units from the
   * heap, fills them and terminates them. On allocation failure it returns
   * false and writes nothing. The array stands for the block at the
   * returned address.
   */
  method Utf8ToUtf16(heap: Heap, source: seq<bv8>, answer: nat)
    returns (ok: bool, address: nat, destination: array?<bv16>)
    requires heap.Valid() && heap.allocator.Some?
    requires NUL in source
    requires Request((|Utf16Of(Content(source))| + 1) * 2) <= SIZE_MAX
    requires heap.FreshBlock(answer)
    modifies heap`headers, heap`calls
    ensures heap.calls == old(heap.calls) + [Allocate(old(heap.allocator.value), Request((|Utf16Of(Content(source))| + 1) * 2))]
    ensures ok <==> answer != NULL
    ensures !ok ==> heap.headers == old(heap.headers)
    ensures ok ==> address == Payload(answer) && heap.Live(address)
    ensures ok ==> destination != null && fresh(destination)
    ensures ok ==> destination.Length == |Utf16Of(Content(source))| + 1
    ensures ok ==> destination[..destination.Length - 1] == Utf16Of(Content(source))
    ensures ok ==> destination[destination.Length - 1] == WIDE_NUL
  {
    var length := Utf8ToUtf16Core(source, null);
    address := heap.Malloc((length + 1) * 2, answer);
    if address == NULL {
      return false, address, null;
    }
    destination := new bv16[length + 1];
    var written := Utf8ToUtf16Core(source, destination);
    destination[length] := WIDE_NUL;
    ok := true;
  }

  /** One step of the reader: the units for source[..i + 1] extend those for source[..i]. */
  lemma Utf16Step(source: seq<bv8>, i: nat)
    requires NUL in source && i < Length(source)
    ensures Utf16Of(source[..i + 1]) == Utf16Of(source[..i]) + UnitsOfByte(source[i])
    ensures |Utf16Of(source[..i + 1])| <= |Utf16Of(Content(source))|
  {
    assert source[..i + 1][..i] == source[..i];
    assert source[..i + 1] == Content(source)[..i + 1];
    Utf16OfPrefix(Content(source), i + 1);
  }

  /** The units for a prefix of the bytes are a prefix of the units for all of them. */
  lemma {:induction false} Utf16OfPrefix(bytes: seq<bv8>, i: nat)
    requires i <= |bytes|
    ensures Utf16Of(bytes[..i]) <= Utf16Of(bytes)
    decreases |bytes|
  {
    if i < |bytes| {
      var init := bytes[..|bytes| - 1];
      Utf16OfPrefix(init, i);
      assert init[..i] == bytes[..i];
    } else {
      assert bytes[..i] == bytes;
    }
  }

  // ---------------------------------------------------------------------
  // UTF-16 to UTF-8
  // ---------------------------------------------------------------------

  predicate IsHighSurrogate(e: bv16) {
    0xD800 <= e <= 0xDBFF
  }

  predicate IsLowSurrogate(e: bv16) {
    0xDC00 <= e <= 0xDFFF
  }

  /**
   * The bytes the writer emits for code point c: one byte up to 0x7F, two
   * up to 0x7FF, three up to 0xFFFF (the last masked with 0xEF), else four.
   */
  function Utf8Bytes(c: bv32): (r: seq<bv8>)
    ensures 1 <= |r| <= 4
    ensures |r| == 1 <==> c <= 0x7F
    ensures |r| == 4 <==> c > 0xFFFF
    ensures c <= 0x7F ==> r == [c as bv8]
  {
    if c <= 0x7F then
      [c as bv8]
    else if c <= 0x7FF then
      [(0xC0 | ((c >> 6) & 0x1F)) as bv8, (0x80 | (c & 0x3F)) as bv8]
    else if c <= 0xFFFF then
      [(0xE0 | ((c >> 12) & 0x0F)) as bv8, (0x80 | ((c >> 6) & 0x3F)) as bv8, (0x80 | (c & 0xEF)) as bv8]
    else
      [(0xF0 | ((c >> 18) & 0x07)) as bv8, (0x80 | ((c >> 12) & 0x3F)) as bv8,
       (0x80 | ((c >> 6) & 0x3F)) as bv8, (0x80 | (c & 0x3F)) as bv8]
  }

  /** The code point the writer holds, and the bytes it has written. */
  datatype Written = Written(codePoint: bv32, bytes: seq<bv8>)

  /**
   * One unit of the writer: a high surrogate only sets the pending code
   * point; a low surrogate completes it; any other unit replaces it. After
   * any unit but a high surrogate the code point is written and cleared.
   */
  function WriteUnit(cp: bv32, e: bv16): (r: Written)
    ensures IsHighSurrogate(e) <==> r.bytes == []
    ensures !IsHighSurrogate(e) ==> r.codePoint == 0
    ensures !IsHighSurrogate(e) && !IsLowSurrogate(e) ==> r.bytes == Utf8Bytes(e as bv32)
  {
    if IsHighSurrogate(e) then
      Written(((e - 0xD800) as bv32 << 10) + 0x10000, [])
    else
      var c := if IsLowSurrogate(e) then cp | (e - 0xDC00) as bv32 else e as bv32;
      Written(0, Utf8Bytes(c))
  }

  /** What bes_utf16_to_utf8 produces for the units of a wide string, with the code point left pending. */
  function Utf8Of(units: seq<bv16>): (r: Written)
    ensures |r.bytes| <= 4 * |units|
  {
    if |units| == 0 then Written(0, [])
    else
      var before := Utf8Of(units[..|units| - 1]);
      var step := WriteUnit(before.codePoint, units[|units| - 1]);
      Written(step.codePoint, before.bytes + step.bytes)
  }

  /**
   * bes_utf16_to_utf8_core: counts, and when destination is non-null
   * writes, the UTF-8 bytes for the wide string source.
   */
  method Utf16ToUtf8Core(source: seq<bv16>, destination: array?<bv8>) returns (count: nat)
    requires WIDE_NUL in source
    requires destination != null ==> |Utf8Of(WideContent(source)).bytes| <= destination.Length
    modifies destination
    ensures count == |Utf8Of(WideContent(source)).bytes|
    ensures destination != null ==> destination[..count] == Utf8Of(WideContent(source)).bytes
    ensures destination != null ==> forall k :: count <= k < destination.Length ==> destination[k] == old(destination[k])
  {
    var n := 0;
    var codePoint: bv32 := 0;
    var i := 0;
    ghost var bytes: seq<bv8> := [];
    ghost var total := |Utf8Of(WideContent(source)).bytes|;
    while source[i] != WIDE_NUL
      invariant i <= WideLength(source)
      invariant Utf8Of(source[..i]) == Written(codePoint, bytes)
      invariant n == |bytes| <= total
      invariant destination != null ==> destination[..n] == bytes
      invariant destination != null ==> forall k :: n <= k < destination.Length ==> destination[k] == old(destination[k])
      decreases WideLength(source) - i
    {
      var e := source[i];
      Utf8Step(source, i);
      ghost var step := WriteUnit(codePoint, e);
      codePoint, n := WriteStep(destination, n, codePoint, e);
      bytes := bytes + step.bytes;
      i := i + 1;
    }
    assert source[..i] == WideContent(source);
    count := n;
  }

  /** One step of the writer: the state after source[..i + 1] follows from the state after source[..i]. */
  lemma Utf8Step(source: seq<bv16>, i: nat)
    requires WIDE_NUL in source && i < WideLength(source)
    ensures Utf8Of(source[..i + 1]).codePoint == WriteUnit(Utf8Of(source[..i]).codePoint, source[i]).codePoint
    ensures Utf8Of(source[..i + 1]).bytes == Utf8Of(source[..i]).bytes + WriteUnit(Utf8Of(source[..i]).codePoint, source[i]).bytes
    ensures |Utf8Of(source[..i + 1]).bytes| <= |Utf8Of(WideContent(source)).bytes|
  {
    assert source[..i + 1][..i] == source[..i];
    assert source[..i + 1] == WideContent(source)[..i + 1];
    Utf8OfPrefix(WideContent(source), i + 1);
  }

  /** The bytes for a prefix of the bytes for all of them. */
  lemma {:induction false} Utf8OfPrefix(units: seq<bv16>, i: nat)
    requires i <= |units|
    ensures Utf8Of(units[..i]).bytes <= Utf8Of(units).bytes
    decreases |units|
  {
    if i < |units| {
      var init := units[..|units| - 1];
      Utf8OfPrefix(init, i);
      assert init[..i] == units[..i];
    } else {
      assert units[..i] == units;
    }
  }

  /** The loop body of the writer: writes the bytes for unit e after the first at bytes. */
  method WriteStep(destination: array?<bv8>, at: nat, codePoint: bv32, e: bv16) returns (next: bv32, end: nat)
    requires destination != null ==> at + |WriteUnit(codePoint, e).bytes| <= destination.Length
    modifies destination
    ensures next == WriteUnit(codePoint, e).codePoint
    ensures end == at + |WriteUnit(codePoint, e).bytes|
    ensures destination != null ==> destination[..end] == old(destination[..at]) + WriteUnit(codePoint, e).bytes
    ensures destination != null ==> forall k :: end <= k < destination.Length ==> destination[k] == old(destination[k])
  {
    var step := WriteUnit(codePoint, e);
    if destination != null {
      WriteBytes(destination, at, step.bytes);
    }
    next := step.codePoint;
    end := at + |step.bytes|;
  }

  /** Stores bytes at destination[at..], one at a time, as the writer's `*destination++ = ...` does. */
  method WriteBytes(destination: array<bv8>, at: nat, bytes: seq<bv8>)
    requires at + |bytes| <= destination.Length
    modifies destination
    ensures destination[..at + |bytes|] == old(destination[..at]) + bytes
    ensures forall k :: at + |bytes| <= k < destination.Length ==> destination[k] == old(destination[k])
  {
    var k := 0;
    while k < |bytes|
      invariant k <= |bytes|
      invariant destination[..at + k] == old(destination[..at]) + bytes[..k]
      invariant forall j :: at + k <= j < destination.Length ==> destination[j] == old(destination[j])
    {
      destination[at + k] := bytes[k];
      k := k + 1;
    }
    assert bytes[..k] == bytes;
  }

  /**
   * bes_utf16_to_utf8: counts the bytes, takes count + 1 bytes from the
   * heap, fills them and terminates them. On allocation failure it returns
   * false and writes nothing. The array stands for the block at the
   * returned address.
   */
  method Utf16ToUtf8(heap: Heap, source: seq<bv16>, answer: nat)
    returns (ok: bool, address: nat, destination: array?<bv8>)
    requires heap.Valid() && heap.allocator.Some?
    requires WIDE_NUL in source
    requires Request(|Utf8Of(WideContent(source)).bytes| + 1) <= SIZE_MAX
    requires heap.FreshBlock(answer)
    modifies heap`headers, heap`calls
    ensures heap.calls == old(heap.calls) + [Allocate(old(heap.allocator.value), Request(|Utf8Of(WideContent(source)).bytes| + 1))]
    ensures ok <==> answer != NULL
    ensures !ok ==> heap.headers == old(heap.headers)
    ensures ok ==> address == Payload(answer) && heap.Live(address)
    ensures ok ==> destination != null && fresh(destination)
    ensures ok ==> destination.Length == |Utf8Of(WideContent(source)).bytes| + 1
    ensures ok ==> destination[..destination.Length - 1] == Utf8Of(WideContent(source)).bytes
    ensures ok ==> destination[destination.Length - 1] == NUL
  {
    var length := Utf16ToUtf8Core(source, null);
    address := heap.Malloc(length + 1, answer);
    if address == NULL {
      return false, address, null;
    }
    destination := new bv8[length + 1];
    var written := Utf16ToUtf8Core(source, destination);
    destination[length] := NUL;
    ok := true;
  }

  // ---------------------------------------------------------------------
  // Properties
  // ---------------------------------------------------------------------

  /** Bytes and units below 0x80 other than the terminator. */
  predicate IsAscii(bytes: seq<bv8>) {
    forall k :: 0 <= k < |bytes| ==> 0 < bytes[k] <= 0x7F
  }

  predicate IsAsciiWide(units: seq<bv16>) {
    forall k :: 0 <= k < |units| ==> 0 < units[k] <= 0x7F
  }

  /** A byte as a UTF-16 unit of the same value. */
  function WidenByte(b: bv8): bv16 {
    b as bv16
  }

  /** Bytes as UTF-16 units of the same values. */
  function Widen(bytes: seq<bv8>): (r: seq<bv16>)
    ensures |r| == |bytes|
    ensures forall k :: 0 <= k < |bytes| ==> r[k] == WidenByte(bytes[k])
  {
    seq(|bytes|, k requires 0 <= k < |bytes| => WidenByte(bytes[k]))
  }

  /** The positions of the bytes that are not continuation bytes. */
  function LeadPositions(bytes: seq<bv8>): (r: set<nat>)
    ensures forall k :: k in r ==> k < |bytes|
  {
    set k: nat | k < |bytes| && !IsContinuation(bytes[k])
  }

  /** The UTF-8 reader emits one unit per byte that is not a continuation byte. */
  lemma {:induction false} Utf16OfCountsLeadBytes(bytes: seq<bv8>)
    ensures |Utf16Of(bytes)| == |LeadPositions(bytes)|
  {
    if |bytes| > 0 {
      var last := |bytes| - 1;
      var init := bytes[..last];
      Utf16OfCountsLeadBytes(init);
      var before := LeadPositions(init);
      assert last !in before;
      if IsContinuation(bytes[last]) {
        assert LeadPositions(bytes) == before;
      } else {
        assert LeadPositions(bytes) == before + {last};
      }
    }
  }

  /** ASCII text passes through the UTF-8 reader unchanged. */
  lemma {:induction false} Utf16OfAscii(bytes: seq<bv8>)
    requires IsAscii(bytes)
    ensures Utf16Of(bytes) == Widen(bytes)
  {
    if |bytes| > 0 {
      var init := bytes[..|bytes| - 1];
      Utf16OfAscii(init);
      assert Widen(bytes) == Widen(init) + [bytes[|bytes| - 1] as bv16];
    }
  }

  /** ASCII units pass through the UTF-8 writer unchanged, with no code point left pending. */
  lemma {:induction false} Utf8OfAscii(units: seq<bv16>)
    requires IsAsciiWide(units)
    ensures Utf8Of(units).codePoint == 0
    ensures Widen(Utf8Of(units).bytes) == units
  {
    if |units| > 0 {
      var init := units[..|units| - 1];
      Utf8OfAscii(init);
      var last := units[|units| - 1];
      AsciiUnit(last);
      assert Widen(Utf8Of(units).bytes) == Widen(Utf8Of(init).bytes) + [last];
    }
  }

  /** The writer writes an ASCII unit as the one byte of the same value. */
  lemma AsciiUnit(e: bv16)
    requires 0 < e <= 0x7F
    ensures WriteUnit(0, e) == Written(0, [e as bv32 as bv8])
    ensures WidenByte(e as bv32 as bv8) == e
  {
  }

  /** An ASCII C string converted to UTF-16 and back gives its bytes again. */
  lemma AsciiRoundTrip(bytes: seq<bv8>)
    requires IsAscii(bytes)
    ensures Utf8Of(Utf16Of(bytes)).bytes == bytes
  {
    Utf16OfAscii(bytes);
    Utf8OfAscii(Widen(bytes));
    assert Widen(Utf8Of(Widen(bytes)).bytes) == Widen(bytes);
    WidenInjective(Utf8Of(Widen(bytes)).bytes, bytes);
  }

  /** An ASCII wide string converted to UTF-8 and back gives its units again. */
  lemma AsciiWideRoundTrip(units: seq<bv16>)
    requires IsAsciiWide(units)
    ensures Utf16Of(Utf8Of(units).bytes) == units
  {
    Utf8OfAscii(units);
    var bytes := Utf8Of(units).bytes;
    assert IsAscii(bytes) by {
      forall k | 0 <= k < |bytes|
        ensures 0 < bytes[k] <= 0x7F
      {
        assert Widen(bytes)[k] == units[k];
      }
    }
    Utf16OfAscii(bytes);
  }

  lemma WidenInjective(a: seq<bv8>, b: seq<bv8>)
    requires Widen(a) == Widen(b)
    ensures a == b
  {
    assert |a| == |b|;
    forall k | 0 <= k < |a|
      ensures a[k] == b[k]
    {
      assert Widen(a)[k] == Widen(b)[k];
    }
  }

  /** A two-byte sequence yields only its lead byte's value bits: "é" (C3 A9) becomes the unit 0x03. */
  lemma MultibyteKeepsLeadBits()
    ensures Utf16Of([0xC3, 0xA9]) == [0x03]
  {
    assert [0xC3, 0xA9][..1] == [0xC3 as bv8];
    assert [0xC3 as bv8][..0] == [];
  }

  /**
   * A lead byte whose value bits are all zero, as in E0 A0 80 (U+0800),
   * yields a zero unit, which ends the converted wide string early.
   */
  lemma ZeroLeadBitsEndString()
    ensures Utf16Of([0xE0, 0xA0, 0x80]) == [0x0000]
  {
    assert [0xE0, 0xA0, 0x80][..2] == [0xE0 as bv8, 0xA0];
    assert [0xE0 as bv8, 0xA0][..1] == [0xE0 as bv8];
    assert [0xE0 as bv8][..0] == [];
  }

  /** The code point a surrogate pair stands for (section 2.2 of RFC 2781). */
  function PairCodePoint(hi: bv16, lo: bv16): (c: bv32)
    requires IsHighSurrogate(hi) && IsLowSurrogate(lo)
    ensures 0x10000 <= c <= 0x10FFFF
  {
    0x10000 + (hi - 0xD800) as bv32 * 0x400 + (lo - 0xDC00) as bv32
  }

  /** The writer's shift-and-or forms the same code point as the addition of RFC 2781. */
  lemma PairBits(hi: bv16, lo: bv16)
    requires IsHighSurrogate(hi) && IsLowSurrogate(lo)
    ensures (((hi - 0xD800) as bv32 << 10) + 0x10000) | (lo - 0xDC00) as bv32 == PairCodePoint(hi, lo)
  {
  }

  /** A high surrogate followed by a low surrogate is written as the four bytes of the pair's code point. */
  lemma SurrogatePair(hi: bv16, lo: bv16)
    requires IsHighSurrogate(hi) && IsLowSurrogate(lo)
    ensures Utf8Of([hi, lo]) == Written(0, Utf8Bytes(PairCodePoint(hi, lo)))
    ensures |Utf8Of([hi, lo]).bytes| == 4
  {
    assert [hi, lo][..1] == [hi];
    assert [hi][..0] == [];
    PairBits(hi, lo);
  }

  /** U+1F600, the surrogate pair D83D DE00, is written F0 9F 98 80. */
  lemma SurrogatePairExample()
    ensures Utf8Of([0xD83D, 0xDE00]).bytes == [0xF0, 0x9F, 0x98, 0x80]
  {
    SurrogatePair(0xD83D, 0xDE00);
  }

  /** U+0810 is written E0 A0 80: the 0xEF mask drops bit 4 of the last byte. */
  lemma ThreeByteMask()
    ensures Utf8Bytes(0x0810) == [0xE0, 0xA0, 0x80]
  {
  }
}
