/**
 * The byte-level string routines of bes/foundation/string.c.
 *
 * A C string is a byte sequence holding a NUL; its content is everything
 * before the first NUL. Pointers into a string are indices. The
 * word-at-a-time fast paths of strlen, strchrnul and stpcpy are not
 * modelled: each routine is the byte loop those paths are equivalent to.
 */
module CStrings {

  import opened Wrappers

  const NUL: bv8 := 0

  /** The index of the first NUL: the length of the C string s. */
  function Length(s: seq<bv8>): (n: nat)
    requires NUL in s
    ensures n < |s| && s[n] == NUL
    ensures forall j :: 0 <= j < n ==> s[j] != NUL
  {
    NulFrom(s, 0)
  }

  /** The index of the first NUL at or after i, when none comes before i. */
  function NulFrom(s: seq<bv8>, i: nat): (n: nat)
    requires NUL in s && i <= |s|
    requires forall j :: 0 <= j < i ==> s[j] != NUL
    ensures i <= n < |s| && s[n] == NUL
    ensures forall j :: 0 <= j < n ==> s[j] != NUL
    decreases |s| - i
  {
    if s[i] == NUL then i else NulFrom(s, i + 1)
  }

  /** The bytes of the C string s, without its terminator. */
  function Content(s: seq<bv8>): (t: seq<bv8>)
    requires NUL in s
    ensures NUL !in t
  {
    s[..Length(s)]
  }

  /** The length of the longest prefix of s made of bytes of the set c (strspn). */
  function Span(s: seq<bv8>, c: seq<bv8>): (n: nat)
    requires NUL in s && NUL in c
    ensures n <= Length(s)
    ensures forall j :: 0 <= j < n ==> s[j] in Content(c)
    ensures s[n] !in Content(c)
  {
    SpanFrom(s, c, 0)
  }

  /** Span, continued from index i of s. */
  function SpanFrom(s: seq<bv8>, c: seq<bv8>, i: nat): (n: nat)
    requires NUL in s && NUL in c && i <= Length(s)
    requires forall j :: 0 <= j < i ==> s[j] in Content(c)
    ensures i <= n <= Length(s)
    ensures forall j :: 0 <= j < n ==> s[j] in Content(c)
    ensures s[n] !in Content(c)
    decreases Length(s) - i
  {
    if s[i] != NUL && s[i] in Content(c) then SpanFrom(s, c, i + 1) else i
  }

  /** The length of the longest prefix of s made of bytes not in the set c (strcspn). */
  function ComplementSpan(s: seq<bv8>, c: seq<bv8>): (n: nat)
    requires NUL in s && NUL in c
    ensures n <= Length(s)
    ensures forall j :: 0 <= j < n ==> s[j] !in Content(c)
    ensures n == Length(s) || s[n] in Content(c)
  {
    ComplementSpanFrom(s, c, 0)
  }

  /** ComplementSpan, continued from index i of s. */
  function ComplementSpanFrom(s: seq<bv8>, c: seq<bv8>, i: nat): (n: nat)
    requires NUL in s && NUL in c && i <= Length(s)
    requires forall j :: 0 <= j < i ==> s[j] !in Content(c)
    ensures i <= n <= Length(s)
    ensures forall j :: 0 <= j < n ==> s[j] !in Content(c)
    ensures n == Length(s) || s[n] in Content(c)
    decreases Length(s) - i
  {
    if s[i] == NUL || s[i] in Content(c) then i else ComplementSpanFrom(s, c, i + 1)
  }

  /**
   * bes_memcmp: 0 when the first n bytes agree, otherwise the difference of
   * the first pair that differs, as unsigned bytes.
   */
  method Memcmp(l: seq<bv8>, r: seq<bv8>, n: nat) returns (d: int)
    requires n <= |l| && n <= |r|
    ensures d == 0 <==> l[..n] == r[..n]
    ensures d != 0 ==> exists k :: 0 <= k < n && l[..k] == r[..k] && d == l[k] as int - r[k] as int
  {
    var i := 0;
    while i < n && l[i] == r[i]
      invariant i <= n
      invariant l[..i] == r[..i]
    {
      i := i + 1;
    }
    if i < n {
      d := l[i] as int - r[i] as int;
      assert l[..n][i] != r[..n][i];
    } else {
      d := 0;
    }
  }

  /** bes_strlen: the index of the first NUL. */
  method Strlen(s: seq<bv8>) returns (n: nat)
    requires NUL in s
    ensures n < |s| && s[n] == NUL && NUL !in s[..n]
    ensures n == Length(s)
  {
    n := 0;
    while s[n] != NUL
      invariant n <= Length(s)
      decreases Length(s) - n
      invariant NUL !in s[..n]
    {
      n := n + 1;
    }
  }

  /**
   * bes_strcmp: 0 exactly when the two strings are equal; otherwise the
   * difference of the first pair of bytes that differ, as unsigned bytes
   * (a terminator counts as a byte smaller than any other).
   */
  method Strcmp(l: seq<bv8>, r: seq<bv8>) returns (d: int)
    requires NUL in l && NUL in r
    ensures d == 0 <==> Content(l) == Content(r)
    ensures exists k :: (0 <= k <= Length(l) && k <= Length(r) && l[..k] == r[..k] &&
                         d == l[k] as int - r[k] as int && (l[k] == r[k] ==> l[k] == NUL))
  {
    var i := 0;
    while l[i] == r[i] && l[i] != NUL
      invariant i <= Length(l) && i <= Length(r)
      decreases Length(l) - i
      invariant l[..i] == r[..i]
    {
      i := i + 1;
    }
    d := l[i] as int - r[i] as int;
    if d == 0 {
      assert i == Length(l) == Length(r);
    } else if i == Length(l) || i == Length(r) {
      assert Content(l)[..i] == Content(r)[..i];
      assert |Content(l)| != |Content(r)|;
    } else {
      assert Content(l)[i] != Content(r)[i];
    }
  }

  /** The byte c is converted to: `(bes_byte)c`. */
  function ByteOf(c: int): (b: bv8)
    ensures 0 <= c < 256 ==> b == c as bv8
    ensures -256 <= c < 0 ==> b == (c + 256) as bv8
  {
    var m := c % 256;
    assert 0 <= c < 256 ==> m == c;
    assert -256 <= c < 0 ==> m == c + 256;
    m as bv8
  }

  /**
   * bes_strchrnul: the index of the first occurrence of the byte c, or of
   * the terminator when c does not occur (c = 0 finds the terminator).
   */
  method Strchrnul(s: seq<bv8>, c: int) returns (i: nat)
    requires NUL in s
    ensures i <= Length(s)
    ensures s[i] == NUL || s[i] == ByteOf(c)
    ensures forall j :: 0 <= j < i ==> s[j] != ByteOf(c)
  {
    var b := ByteOf(c);
    if b == NUL {
      i := Strlen(s);
      return;
    }
    i := 0;
    while s[i] != NUL && s[i] != b
      invariant i <= Length(s)
      decreases Length(s) - i
      invariant forall j :: 0 <= j < i ==> s[j] != b
    {
      i := i + 1;
    }
  }

  /**
   * bes_strchr: the index of the first occurrence of the byte c in s,
   * terminator included, or None when it does not occur.
   */
  method Strchr(s: seq<bv8>, c: int) returns (r: Option<nat>)
    requires NUL in s
    ensures r.Some? <==> ByteOf(c) in s[..Length(s) + 1]
    ensures r.Some? ==> r.value <= Length(s) && s[r.value] == ByteOf(c) && ByteOf(c) !in s[..r.value]
  {
    var i := Strchrnul(s, c);
    if s[i] == ByteOf(c) {
      r := Some(i);
    } else {
      r := None;
      assert i == Length(s);
    }
  }

  /** BES_BITOP's word index of byte b in a 256-bit set held in four 64-bit words. */
  function WordIndex(b: bv8): (k: nat)
    ensures k < 4
  {
    if b < 64 then 0 else if b < 128 then 1 else if b < 192 then 2 else 3
  }

  /** The word index is BES_BITOP's `b / 64`. */
  lemma WordIndexIsQuotient(b: bv8)
    ensures WordIndex(b) == (b / 64) as int
  {
  }

  /** BES_BITOP's bit position `b % 64` within that word. */
  function Offset(b: bv8): (j: bv8)
    ensures j < 64
  {
    b % 64
  }

  predicate Bit(w: bv64, j: bv8)
    requires j < 64
  {
    (w >> j) & 1 == 1
  }

  /** BES_BITOP with |=: the word with bit j set, and every other bit as it was. */
  function WithBit(w: bv64, j: bv8): (r: bv64)
    requires j < 64
    ensures forall i: bv8 :: i < 64 ==> (Bit(r, i) <==> Bit(w, i) || i == j)
  {
    var r := w | (1 << j);
    assert forall i: bv8 :: i < 64 ==> (Bit(r, i) <==> Bit(w, i) || i == j) by {
      forall i: bv8 | i < 64
        ensures Bit(r, i) <==> Bit(w, i) || i == j
      {
        SetBit(w, j, i);
      }
    }
    r
  }

  /** Membership of byte b in the set (BES_BITOP with &). */
  predicate Member(words: seq<bv64>, b: bv8)
    requires |words| == 4
  {
    Bit(words[WordIndex(b)], Offset(b))
  }

  /** The words after BES_BITOP with |= adds byte x. */
  function Add(words: seq<bv64>, x: bv8): seq<bv64>
    requires |words| == 4
  {
    words[WordIndex(x) := WithBit(words[WordIndex(x)], Offset(x))]
  }

  /** Adding x to the set adds x and nothing else. */
  lemma AddMember(words: seq<bv64>, x: bv8, b: bv8)
    requires |words| == 4
    ensures Member(Add(words, x), b) <==> Member(words, b) || b == x
  {
    if WordIndex(b) == WordIndex(x) {
      SetBit(words[WordIndex(x)], Offset(x), Offset(b));
      SameWord(x, b);
    }
  }

  lemma SameWord(x: bv8, b: bv8)
    requires WordIndex(x) == WordIndex(b)
    ensures b == x <==> Offset(b) == Offset(x)
  {
  }

  lemma SetBit(w: bv64, k: bv8, j: bv8)
    requires k < 64 && j < 64
    ensures ((w | (1 << k)) >> j) & 1 == 1 <==> (w >> j) & 1 == 1 || j == k
  {
  }

  /** The 256-bit set of the bytes of the C string c, built as bes_strspn and bes_strcspn build it. */
  method ByteSet(c: seq<bv8>) returns (words: array<bv64>)
    requires NUL in c
    ensures fresh(words) && words.Length == 4
    ensures forall b :: Member(words[..], b) <==> b in Content(c)
  {
    words := new bv64[4](_ => 0);
    var i := 0;
    while c[i] != NUL
      invariant i <= Length(c)
      decreases Length(c) - i
      invariant forall b :: Member(words[..], b) <==> b in c[..i]
    {
      ghost var before := words[..];
      words[WordIndex(c[i])] := WithBit(words[WordIndex(c[i])], Offset(c[i]));
      assert words[..] == Add(before, c[i]);
      forall b ensures Member(words[..], b) <==> Member(before, b) || b == c[i] {
        AddMember(before, c[i], b);
      }
      assert c[..i + 1] == c[..i] + [c[i]];
      i := i + 1;
    }
  }

  /**
   * bes_strspn: an empty set gives 0; a one-byte set is matched byte by
   * byte; otherwise the set is built as 256 bits and the prefix of members
   * measured.
   */
  method Strspn(s: seq<bv8>, c: seq<bv8>) returns (n: nat)
    requires NUL in s && NUL in c
    ensures n == Span(s, c)
  {
    if c[0] == NUL {
      return 0;
    }
    if c[1] == NUL {
      assert Content(c) == [c[0]];
      n := 0;
      while s[n] == c[0]
        invariant n <= Length(s)
        invariant forall j :: 0 <= j < n ==> s[j] == c[0]
        decreases Length(s) - n
      {
        n := n + 1;
      }
      SpanUnique(s, c, n);
      return;
    }
    var byteSet := ByteSet(c);
    n := 0;
    while s[n] != NUL && Member(byteSet[..], s[n])
      invariant n <= Length(s)
      invariant forall j :: 0 <= j < n ==> s[j] in Content(c)
      decreases Length(s) - n
    {
      n := n + 1;
    }
    SpanUnique(s, c, n);
  }

  /** Span is the only length its contract allows. */
  lemma SpanUnique(s: seq<bv8>, c: seq<bv8>, n: nat)
    requires NUL in s && NUL in c
    requires n <= Length(s)
    requires forall j :: 0 <= j < n ==> s[j] in Content(c)
    requires s[n] !in Content(c)
    ensures n == Span(s, c)
  {
  }

  /** Converting a byte to int and back through ByteOf gives the byte. */
  lemma ByteOfByte(b: bv8)
    ensures ByteOf(b as int) == b
  {
    assert (b as int) % 256 == b as int;
  }

  /**
   * bes_strcspn: an empty or one-byte set is bes_strchrnul on its first
   * byte; otherwise the set is built as 256 bits and the prefix of
   * non-members measured.
   */
  method Strcspn(s: seq<bv8>, c: seq<bv8>) returns (n: nat)
    requires NUL in s && NUL in c
    ensures n == ComplementSpan(s, c)
  {
    if c[0] == NUL || c[1] == NUL {
      n := Strchrnul(s, c[0] as int);
      ByteOfByte(c[0]);
      ShortSetSpan(s, c, n);
      return;
    }
    var byteSet := ByteSet(c);
    n := 0;
    while s[n] != NUL && !Member(byteSet[..], s[n])
      invariant n <= Length(s)
      invariant forall j :: 0 <= j < n ==> s[j] !in Content(c)
      decreases Length(s) - n
    {
      n := n + 1;
    }
    ComplementSpanUnique(s, c, n);
  }

  /** With at most one byte in the set, the complement span ends at that byte or the terminator. */
  lemma ShortSetSpan(s: seq<bv8>, c: seq<bv8>, n: nat)
    requires NUL in s && NUL in c && (c[0] == NUL || c[1] == NUL)
    requires n <= Length(s)
    requires s[n] == NUL || s[n] == c[0]
    requires forall j :: 0 <= j < n ==> s[j] != c[0]
    ensures n == ComplementSpan(s, c)
  {
    assert Content(c) == [] || Content(c) == [c[0]];
    ComplementSpanUnique(s, c, n);
  }

  /** ComplementSpan is the only length its contract allows. */
  lemma ComplementSpanUnique(s: seq<bv8>, c: seq<bv8>, n: nat)
    requires NUL in s && NUL in c
    requires n <= Length(s)
    requires forall j :: 0 <= j < n ==> s[j] !in Content(c)
    requires n == Length(s) || s[n] in Content(c)
    ensures n == ComplementSpan(s, c)
  {
  }

  /** Where strtok's token starts when it scans s from index `from`: past the leading separators. */
  function TokenStart(s: seq<bv8>, from: nat, sep: seq<bv8>): (t: nat)
    requires from < |s| && NUL in s[from..] && NUL in sep
    ensures from <= t < |s| && NUL in s[t..]
  {
    var k := Span(s[from..], sep);
    assert s[from + k..][Length(s[from..]) - k] == NUL;
    from + k
  }

  /** The token starts after a run of separators, at a byte that is not one. */
  lemma TokenStartSkipsSeparators(s: seq<bv8>, from: nat, sep: seq<bv8>)
    requires from < |s| && NUL in s[from..] && NUL in sep
    ensures var t := TokenStart(s, from, sep);
      && (forall j :: from <= j < t ==> s[j] in Content(sep))
      && s[t] !in Content(sep)
  {
    var k := Span(s[from..], sep);
    assert forall j :: from <= j < from + k ==> s[from..][j - from] == s[j];
  }

  /** Where the token starting at t ends: at the first separator or terminator. */
  function TokenEnd(s: seq<bv8>, t: nat, sep: seq<bv8>): (q: nat)
    requires t < |s| && NUL in s[t..] && NUL in sep
    ensures t <= q < |s|
  {
    var k := ComplementSpan(s[t..], sep);
    t + k
  }

  /** The token runs over bytes that are neither NUL nor separators, up to a NUL or a separator. */
  lemma TokenEndStopsAtSeparator(s: seq<bv8>, t: nat, sep: seq<bv8>)
    requires t < |s| && NUL in s[t..] && NUL in sep
    ensures var q := TokenEnd(s, t, sep);
      && q <= t + Length(s[t..])
      && (forall j :: t <= j < q ==> s[j] != NUL && s[j] !in Content(sep))
      && (s[q] == NUL || s[q] in Content(sep))
  {
    var k := ComplementSpan(s[t..], sep);
    assert forall j :: t <= j < t + k ==> s[t..][j - t] == s[j];
  }

  /** What one call of strtok returns, leaves in the saved pointer and leaves in the buffer. */
  datatype Tokenized = Tokenized(token: Option<nat>, next: Option<nat>, buf: seq<bv8>)

  /**
   * One strtok step on the string starting at index `from` of s: NULL when
   * only separators remain; otherwise the token start, with the separator
   * ending it overwritten by NUL and the scan resuming just past it, or no
   * resumption when the token runs to the terminator.
   */
  function Tokenize(s: seq<bv8>, from: nat, sep: seq<bv8>): (r: Tokenized)
    requires from < |s| && NUL in s[from..] && NUL in sep
    ensures |r.buf| == |s|
    ensures r.token.None? ==> r.next.None? && r.buf == s
    ensures r.token.Some? ==> from <= r.token.value < |s| && s[r.token.value] != NUL
  {
    var t := TokenStart(s, from, sep);
    if s[t] == NUL then
      Tokenized(None, None, s)
    else
      var q := TokenEnd(s, t, sep);
      if s[q] == NUL then Tokenized(Some(t), None, s)
      else Tokenized(Some(t), Some(q + 1), s[q := NUL])
  }

  /**
   * The token strtok returns is a non-empty C string in the new buffer
   * holding exactly the bytes up to the next separator, none of them a
   * separator; everything before the token and the rest of the string
   * after its end are unchanged.
   */
  lemma TokenizeYieldsToken(s: seq<bv8>, from: nat, sep: seq<bv8>)
    requires from < |s| && NUL in s[from..] && NUL in sep
    requires Tokenize(s, from, sep).token.Some?
    ensures var r := Tokenize(s, from, sep);
      var t := r.token.value;
      var q := TokenEnd(s, t, sep);
      && NUL in r.buf[t..]
      && Content(r.buf[t..]) == s[t..q]
      && Content(r.buf[t..]) != []
      && (forall x :: x in Content(r.buf[t..]) ==> x !in Content(sep))
      && r.buf[..q] == s[..q] && r.buf[q + 1..] == s[q + 1..]
  {
    var r := Tokenize(s, from, sep);
    var t := r.token.value;
    var q := TokenEnd(s, t, sep);
    TokenEndStopsAtSeparator(s, t, sep);
    assert r.buf[q] == NUL;
    assert r.buf[..q] == s[..q];
    TokenIsCString(s, r.buf, t, q, sep);
  }

  /** Tokenize, one case at a time, in terms of where the token starts and ends. */
  lemma TokenizeCases(s: seq<bv8>, from: nat, sep: seq<bv8>, t: nat, q: nat)
    requires from < |s| && NUL in s[from..] && NUL in sep
    requires t == TokenStart(s, from, sep) && s[t] != NUL && q == TokenEnd(s, t, sep)
    ensures s[q] == NUL ==> Tokenize(s, from, sep) == Tokenized(Some(t), None, s)
    ensures s[q] != NUL ==> Tokenize(s, from, sep) == Tokenized(Some(t), Some(q + 1), s[q := NUL])
  {
    var r := Tokenize(s, from, sep);
    assert r.token == Some(t);
    if s[q] == NUL {
      assert r.buf == s;
    } else {
      assert r.buf == s[q := NUL];
    }
  }

  /**
   * When the scan resumes, it resumes just past the separator that ended
   * the token, and the rest of the string is still a C string there.
   */
  lemma TokenizeResumes(s: seq<bv8>, from: nat, sep: seq<bv8>)
    requires from < |s| && NUL in s[from..] && NUL in sep
    requires Tokenize(s, from, sep).next.Some?
    ensures var r := Tokenize(s, from, sep);
      var q := TokenEnd(s, r.token.value, sep);
      && r.next.value == q + 1 && s[q] in Content(sep)
      && r.next.value < |s| && NUL in r.buf[r.next.value..]
  {
    var t := TokenStart(s, from, sep);
    var q := TokenEnd(s, t, sep);
    TokenizeCases(s, from, sep, t, q);
    TokenEndStopsAtSeparator(s, t, sep);
    var l := t + Length(s[t..]);
    assert s[t..][l - t] == NUL;
    NulAfterTerminator(s, q, l);
  }

  /** Overwriting an earlier byte with NUL keeps a later terminator. */
  lemma NulAfterTerminator(s: seq<bv8>, q: nat, l: nat)
    requires q < l < |s| && s[l] == NUL
    ensures NUL in s[q := NUL][q + 1..]
  {
    assert s[q := NUL][q + 1..][l - q - 1] == NUL;
  }

  /**
   * bes_strtok. The string is s, or the saved pointer p when s is NULL;
   * with both NULL it returns NULL and changes nothing. Otherwise it does
   * one Tokenize step.
   */
  method Strtok(buf: array<bv8>, s: Option<nat>, sep: seq<bv8>, p: Option<nat>)
    returns (tok: Option<nat>, p': Option<nat>)
    requires NUL in sep
    requires s.Some? ==> s.value < buf.Length && NUL in buf[s.value..]
    requires s.None? && p.Some? ==> p.value < buf.Length && NUL in buf[p.value..]
    modifies buf
    ensures s.None? && p.None? ==> tok.None? && p'.None? && buf[..] == old(buf[..])
    ensures s.Some? || p.Some? ==>
      Tokenized(tok, p', buf[..]) == Tokenize(old(buf[..]), if s.Some? then s.value else p.value, sep)
  {
    var from: nat;
    if s.Some? {
      from := s.value;
    } else if p.Some? {
      from := p.value;
    } else {
      return None, p;
    }
    ghost var sb := buf[..];
    var start := SkipSeparators(buf, from, sep);
    if buf[start] == NUL {
      assert Tokenize(sb, from, sep) == Tokenized(None, None, sb);
      return None, None;
    }
    var stop := FindTokenEnd(buf, start, sep);
    TokenizeCases(sb, from, sep, start, stop);
    tok := Some(start);
    if buf[stop] != NUL {
      buf[stop] := NUL;
      p' := Some(stop + 1);
    } else {
      p' := None;
    }
  }

  /** bes_strtok's first step: s += bes_strspn(s, sep). */
  method SkipSeparators(buf: array<bv8>, from: nat, sep: seq<bv8>) returns (t: nat)
    requires from < buf.Length && NUL in buf[from..] && NUL in sep
    ensures t == TokenStart(buf[..], from, sep)
  {
    var k := Strspn(buf[from..], sep);
    assert buf[from..] == buf[..][from..];
    t := from + k;
  }

  /** bes_strtok's second step: the token ends at s + bes_strcspn(s, sep). */
  method FindTokenEnd(buf: array<bv8>, t: nat, sep: seq<bv8>) returns (q: nat)
    requires t < buf.Length && NUL in buf[t..] && NUL in sep
    ensures q == TokenEnd(buf[..], t, sep)
  {
    var k := Strcspn(buf[t..], sep);
    assert buf[t..] == buf[..][t..];
    q := t + k;
  }

  /** A token of non-NUL bytes followed by a NUL is a C string holding exactly those bytes. */
  lemma TokenIsCString(before: seq<bv8>, after: seq<bv8>, t: nat, q: nat, sep: seq<bv8>)
    requires t < q < |before| == |after|
    requires forall j :: t <= j < q ==> before[j] != NUL
    requires after[..q] == before[..q] && after[q] == NUL
    ensures NUL in after[t..] && Length(after[t..]) == q - t
    ensures Content(after[t..]) == before[t..q]
  {
    assert after[t..][q - t] == NUL;
    assert forall j :: 0 <= j < q - t ==> after[t..][j] == before[t + j];
    assert Content(after[t..]) == after[t..q];
  }

  /**
   * bes_stpcpy: copies src up to and including its terminator and returns
   * the index of the terminator in dest.
   */
  method Stpcpy(dest: array<bv8>, src: seq<bv8>) returns (end: nat)
    requires NUL in src && Length(src) < dest.Length
    modifies dest
    ensures end == Length(src)
    ensures dest[..end + 1] == src[..end + 1]
    ensures dest[end + 1..] == old(dest[end + 1..])
  {
    end := 0;
    dest[end] := src[end];
    while dest[end] != NUL
      invariant end <= Length(src)
      invariant dest[..end + 1] == src[..end + 1]
      invariant forall j :: end < j < dest.Length ==> dest[j] == old(dest[j])
      decreases Length(src) - end
    {
      end := end + 1;
      dest[end] := src[end];
    }
  }

  /** bes_strcpy: bes_stpcpy, keeping dest: dest now holds the C string src. */
  method Strcpy(dest: array<bv8>, src: seq<bv8>)
    requires NUL in src && Length(src) < dest.Length
    modifies dest
    ensures NUL in dest[..] && Content(dest[..]) == Content(src)
    ensures dest[Length(src) + 1..] == old(dest[Length(src) + 1..])
  {
    var end := Stpcpy(dest, src);
    assert dest[..][..end + 1] == src[..end + 1];
    PrefixLength(dest[..], src, end);
  }

  /** Two byte sequences that agree up to a NUL at index n are C strings with the same content. */
  lemma PrefixLength(a: seq<bv8>, b: seq<bv8>, n: nat)
    requires n < |a| && n < |b| && a[..n + 1] == b[..n + 1]
    requires NUL in b && n == Length(b)
    ensures NUL in a && Length(a) == n && Content(a) == Content(b)
  {
    assert a[n] == b[n];
    assert forall j :: 0 <= j < n ==> a[j] == b[j];
    assert a[..n] == b[..n];
  }
}
