/**
 * ByteArray: the growable byte buffer of the framework.
 *
 * The buffer `data` holds `size` bytes of content, and every cell from
 * `size` to the end of the allocation `serve` is zero, so the content can
 * always also be read as a C string. Searches, replacement and splicing are
 * delegated to the routines of module General.
 */
module ByteArrays {
  import opened Bytes
  import opened General

  /** The default capacity of a buffer built without a size (EYRE_BA_SERVE). */
  const DefaultServe: nat := 1024

  /** The sentinel `unsigned int` that stands for "not given" in the interface. */
  const Unsized: nat := 0xffff_ffff

  /** The modulus of the 32-bit `unsigned int` arithmetic of the source. */
  const U32: nat := 0x1_0000_0000

  /** The capacity `append` asks for when `need` bytes must fit in `serve`. */
  function GrownServe(serve: nat, need: nat): (r: nat)
    ensures r >= need + 1 && r >= serve
    ensures serve >= need + 1 ==> r == serve
    ensures serve < need + 1 ==> r == (if 2 * serve < need + 1 then need + 1 else 2 * serve)
  {
    if serve < need + 1 then (if serve * 2 < need + 1 then need + 1 else serve * 2) else serve
  }

  /** `s` copied behind the first `at` bytes of a buffer whose tail from `at` is zero. */
  method CopyAfter(d: array<byte>, at: nat, s: Bytes)
    requires at + |s| < d.Length
    requires forall i :: at <= i < d.Length ==> d[i] == NUL
    modifies d
    ensures d[..at + |s|] == old(d[..at]) + s
    ensures forall i :: at + |s| <= i < d.Length ==> d[i] == NUL
  {
    ghost var before := d[..];
    Memcpy(d, at, s);
    assert d[..] == before[..at] + s + before[at + |s|..];
    assert d[..at + |s|] == before[..at] + s;
    forall i | at + |s| <= i < d.Length ensures d[i] == NUL {
      assert d[i] == before[i];
    }
  }

  /** The bytes `mid(offset, n)` copies: `n` of them, or the rest when `n` is negative or too large. */
  function MidBytes(s: Bytes, offset: nat, n: int): (r: Bytes)
    requires offset <= |s|
    ensures 0 <= n <= |s| - offset ==> r == s[offset..offset + n]
    ensures (n < 0 || n > |s| - offset) ==> r == s[offset..]
  {
    if n < 0 || n > |s| - offset then s[offset..] else s[offset..offset + n]
  }

  /** Two adjacent mids, the second taking the rest, give back the tail they cover. */
  lemma MidJoin(s: Bytes, offset: nat, n: nat)
    requires offset + n <= |s|
    ensures MidBytes(s, offset, n) + MidBytes(s, offset + n, -1) == s[offset..]
  {
    assert s[offset..offset + n] + s[offset + n..] == s[offset..];
  }

  /**
   * memcmp over the first `n` bytes, comparing them as unsigned: negative,
   * zero or positive as `a` is below, equal to or above `b`.
   */
  function MemCmp(a: Bytes, b: Bytes, n: nat): (r: int)
    requires n <= |a| && n <= |b|
    ensures r == 0 <==> a[..n] == b[..n]
    ensures -1 <= r <= 1
  {
    if n == 0 then 0
    else if a[0] < b[0] then -1
    else if a[0] > b[0] then 1
    else
      var r' := MemCmp(a[1..], b[1..], n - 1);
      assert a[..n] == [a[0]] + a[1..][..n - 1];
      assert b[..n] == [b[0]] + b[1..][..n - 1];
      r'
  }

  /** memcmp only looks at the bytes it is told to compare. */
  lemma {:induction false} MemCmpPrefix(a: Bytes, b: Bytes, a': Bytes, b': Bytes, n: nat)
    requires n <= |a| && n <= |b| && n <= |a'| && n <= |b'|
    requires a[..n] == a'[..n] && b[..n] == b'[..n]
    ensures MemCmp(a, b, n) == MemCmp(a', b', n)
  {
    if n > 0 {
      assert a[0] == a[..n][0] == a'[..n][0] == a'[0];
      assert b[0] == b[..n][0] == b'[..n][0] == b'[0];
      assert a[1..][..n - 1] == a[..n][1..] == a'[..n][1..] == a'[1..][..n - 1];
      assert b[1..][..n - 1] == b[..n][1..] == b'[..n][1..] == b'[1..][..n - 1];
      MemCmpPrefix(a[1..], b[1..], a'[1..], b'[1..], n - 1);
    }
  }

  /** Swapping the operands of memcmp negates its sign. */
  lemma {:induction false} MemCmpSwap(a: Bytes, b: Bytes, n: nat)
    requires n <= |a| && n <= |b|
    ensures MemCmp(a, b, n) == -MemCmp(b, a, n)
  {
    if n > 0 && a[0] == b[0] {
      MemCmpSwap(a[1..], b[1..], n - 1);
    }
  }

  /** `<` of two buffers: memcmp over the shorter size plus its zero terminator. */
  predicate LessBytes(a: Bytes, b: Bytes)
  {
    var n := if |a| < |b| then |a| else |b|;
    MemCmp(a + [NUL], b + [NUL], n + 1) < 0
  }

  /** No buffer is below itself. */
  lemma LessIrreflexive(a: Bytes)
    ensures !LessBytes(a, a)
  {
  }

  /** Of two buffers at most one is below the other. */
  lemma LessAsymmetric(a: Bytes, b: Bytes)
    ensures !(LessBytes(a, b) && LessBytes(b, a))
  {
    var n := if |a| < |b| then |a| else |b|;
    MemCmpSwap(a + [NUL], b + [NUL], n + 1);
  }

  /**
   * A trailing zero byte is invisible to `<`: "a\0" and "a" differ, yet
   * neither is below the other, so `<` is no strict total order once a
   * buffer holds zero bytes.
   */
  lemma LessBlindToTrailingZero()
    ensures var a: Bytes := ['a', NUL];
            var b: Bytes := ['a'];
            a != b && !LessBytes(a, b) && !LessBytes(b, a)
  {
    var a: Bytes := ['a', NUL];
    var b: Bytes := ['a'];
    assert (a + [NUL])[..2] == (b + [NUL])[..2];
  }

  /**
   * `buf == str` against a C string `t`: the buffer starts with `t` and every
   * byte after it is zero.
   */
  predicate ZeroPadded(c: Bytes, t: Bytes)
  {
    |t| <= |c| && c[..|t|] == t && forall i :: |t| <= i < |c| ==> c[i] == NUL
  }

  /** A prefix of `c` free of NUL and followed by a NUL (or by nothing) is the C string of `c`. */
  lemma {:induction false} CStrIsPrefix(c: Bytes, t: Bytes)
    requires |t| <= |c| && t == c[..|t|] && !Has(t, NUL)
    requires |t| < |c| ==> c[|t|] == NUL
    ensures CStr(c) == t
    decreases |t|
  {
    if |t| > 0 {
      assert t[0] != NUL;
      forall i | 0 <= i < |t| - 1 ensures t[1..][i] != NUL {
        assert t[1..][i] == t[i + 1];
      }
      CStrIsPrefix(c[1..], t[1..]);
      assert t == [t[0]] + t[1..];
    }
  }

  /** A buffer equal to a C string holds that string as its own C string. */
  lemma ZeroPaddedCStr(c: Bytes, str: Bytes)
    requires ZeroPadded(c, CStr(str))
    ensures CStr(c) == CStr(str)
  {
    CStrIsPrefix(c, CStr(str));
  }

  /** `r` holds the bytes of `s` in reverse order. */
  ghost predicate Mirrors(r: Bytes, s: Bytes)
  {
    |r| == |s| && forall i :: 0 <= i < |s| ==> r[i] == s[|s| - 1 - i]
  }

  lemma RevMatchForward(s: Bytes, t: Bytes, ri: int)
    requires 0 <= ri && ri + |t| <= |s|
    requires MatchAt(Rev(s), Rev(t), ri)
    ensures MatchAt(s, t, |s| - ri - |t|)
  {
    MirrorMatchForward(s, t, Rev(s), Rev(t), ri);
  }

  lemma MirrorMatchForward(s: Bytes, t: Bytes, rs: Bytes, rt: Bytes, ri: int)
    requires 0 <= ri && ri + |t| <= |s| && Mirrors(rs, s) && Mirrors(rt, t)
    requires MatchAt(rs, rt, ri)
    ensures MatchAt(s, t, |s| - ri - |t|)
  {
    var j := |s| - ri - |t|;
    forall k | 0 <= k < |t| ensures s[j..j + |t|][k] == t[k] {
      var m := |t| - 1 - k;
      assert rs[ri..ri + |t|][m] == rt[m];
      assert rs[ri + m] == s[j + k];
      assert rt[m] == t[k];
    }
    assert s[j..j + |t|] == t;
  }

  lemma RevMatchBackward(s: Bytes, t: Bytes, ri: int)
    requires 0 <= ri && ri + |t| <= |s|
    requires MatchAt(s, t, |s| - ri - |t|)
    ensures MatchAt(Rev(s), Rev(t), ri)
  {
    MirrorMatchBackward(s, t, Rev(s), Rev(t), ri);
  }

  lemma MirrorMatchBackward(s: Bytes, t: Bytes, rs: Bytes, rt: Bytes, ri: int)
    requires 0 <= ri && ri + |t| <= |s| && Mirrors(rs, s) && Mirrors(rt, t)
    requires MatchAt(s, t, |s| - ri - |t|)
    ensures MatchAt(rs, rt, ri)
  {
    var j := |s| - ri - |t|;
    forall m | 0 <= m < |t| ensures rs[ri..ri + |t|][m] == rt[m] {
      var k := |t| - 1 - m;
      assert s[j..j + |t|][k] == t[k];
      assert rs[ri + m] == s[j + k];
      assert rt[m] == t[k];
    }
    assert rs[ri..ri + |t|] == rt;
  }

  /** Occurrences of `t` in `s` and of the reversed `t` in the reversed `s` mirror each other. */
  lemma RevMatch(s: Bytes, t: Bytes, ri: int)
    requires 0 <= ri && ri + |t| <= |s|
    ensures MatchAt(Rev(s), Rev(t), ri) <==> MatchAt(s, t, |s| - ri - |t|)
  {
    if MatchAt(Rev(s), Rev(t), ri) {
      RevMatchForward(s, t, ri);
    }
    if MatchAt(s, t, |s| - ri - |t|) {
      RevMatchBackward(s, t, ri);
    }
  }

  /**
   * The first match of the reversed tag in the reversed buffer at or after
   * `revOff` is, read forwards, the last match at or before `o`.
   */
  lemma RevFirstIsLast(s: Bytes, t: Bytes, o: nat, revOff: nat, ri: int)
    requires |t| > 0 && o <= |s|
    requires revOff == (if |s| - o >= |t| then |s| - o - |t| else 0)
    requires FirstMatch(Rev(s), Rev(t), revOff, ri)
    ensures LastMatch(s, t, o, if ri == -1 then -1 else |s| - ri - |t|)
  {
    var r := if ri == -1 then -1 else |s| - ri - |t|;
    if ri != -1 {
      RevMatch(s, t, ri);
    }
    forall j | r < j <= o ensures !MatchAt(s, t, j) {
      if 0 <= j && j + |t| <= |s| {
        RevMatch(s, t, |s| - j - |t|);
      }
    }
  }

  /** The parts `split` cuts from position `from` on, the current part having started at `start`. */
  function PartsFrom(s: Bytes, tag: Bytes, from: nat, start: nat): (r: seq<Bytes>)
    requires |tag| > 0 && start <= from <= |s|
    ensures |r| >= 1
    decreases |s| - from
  {
    if from + |tag| > |s| then [s[start..]]
    else if MatchAt(s, tag, from) then [s[start..from]] + PartsFrom(s, tag, from + |tag|, from + |tag|)
    else PartsFrom(s, tag, from + 1, start)
  }

  /** The parts of `split(tag)`: the whole buffer for an empty tag. */
  function SplitParts(s: Bytes, tag: Bytes): seq<Bytes>
  {
    if |tag| == 0 then [s] else PartsFrom(s, tag, 0, 0)
  }

  /** The parts joined back together with `sep` between neighbours. */
  function Join(parts: seq<Bytes>, sep: Bytes): Bytes
  {
    if |parts| == 0 then []
    else if |parts| == 1 then parts[0]
    else parts[0] + sep + Join(parts[1..], sep)
  }

  lemma {:induction false} PartsFromJoin(s: Bytes, tag: Bytes, from: nat, start: nat)
    requires |tag| > 0 && start <= from <= |s|
    ensures Join(PartsFrom(s, tag, from, start), tag) == s[start..]
    decreases |s| - from
  {
    if from + |tag| > |s| {
    } else if MatchAt(s, tag, from) {
      var rest := PartsFrom(s, tag, from + |tag|, from + |tag|);
      PartsFromJoin(s, tag, from + |tag|, from + |tag|);
      var parts := [s[start..from]] + rest;
      assert parts[1..] == rest;
      assert Join(parts, tag) == s[start..from] + tag + s[from + |tag|..];
      assert s[start..] == s[start..from] + s[from..from + |tag|] + s[from + |tag|..];
    } else {
      PartsFromJoin(s, tag, from + 1, start);
    }
  }

  /** Joining the parts of a split with its tag gives back the buffer. */
  lemma SplitJoin(s: Bytes, tag: Bytes)
    ensures Join(SplitParts(s, tag), tag) == s
  {
    if |tag| > 0 {
      PartsFromJoin(s, tag, 0, 0);
    }
  }

  lemma {:induction false} PartsFromCount(s: Bytes, tag: Bytes, from: nat, start: nat)
    requires |tag| > 0 && start <= from <= |s|
    ensures |PartsFrom(s, tag, from, start)| == CountFrom(s, tag, from) + 1
    decreases |s| - from
  {
    if from + |tag| > |s| {
    } else if MatchAt(s, tag, from) {
      PartsFromCount(s, tag, from + |tag|, from + |tag|);
    } else {
      PartsFromCount(s, tag, from + 1, start);
    }
  }

  /**
   * A split has one part more than there are non-overlapping occurrences of
   * its tag, and a single part for the empty tag.
   */
  lemma SplitCount(s: Bytes, tag: Bytes)
    ensures |tag| == 0 ==> SplitParts(s, tag) == [s]
    ensures |tag| > 0 ==> |SplitParts(s, tag)| == CountFrom(s, tag, 0) + 1
  {
    if |tag| > 0 {
      PartsFromCount(s, tag, 0, 0);
    }
  }

  /** From a found first match the parts jump over the gap in one step. */
  lemma {:induction false} PartsJump(s: Bytes, tag: Bytes, from: nat, start: nat, i: int)
    requires |tag| > 0 && start <= from <= |s|
    requires FirstMatch(s, tag, from, i)
    ensures i == -1 ==> PartsFrom(s, tag, from, start) == [s[start..]]
    ensures i != -1 ==> (i + |tag| <= |s| &&
      PartsFrom(s, tag, from, start) == [s[start..i]] + PartsFrom(s, tag, i + |tag|, i + |tag|))
    decreases |s| - from
  {
    if from + |tag| > |s| {
      assert i == -1;
    } else if MatchAt(s, tag, from) {
      assert i == from;
    } else {
      assert i == -1 || from + 1 <= i;
      PartsJump(s, tag, from + 1, start, i);
    }
  }

  /** The parts of a split still to come once the scan resumes at `pos`. */
  function PartsAfter(s: Bytes, tag: Bytes, pos: nat): seq<Bytes>
    requires pos <= |s|
  {
    if |tag| == 0 then [s[pos..]] else PartsFrom(s, tag, pos, pos)
  }

  /** One search step of split: its result decides the next part and where the scan resumes. */
  lemma PartsAfterJump(s: Bytes, tag: Bytes, pos: nat, i: int)
    requires pos <= |s|
    requires |tag| == 0 ==> i == -1
    requires |tag| > 0 ==> FirstMatch(s, tag, pos, i)
    ensures i == -1 ==> PartsAfter(s, tag, pos) == [s[pos..]]
    ensures i != -1 ==> (pos <= i && i + |tag| <= |s| && |tag| > 0 &&
                         PartsAfter(s, tag, pos) == [s[pos..i]] + PartsAfter(s, tag, i + |tag|))
  {
    if |tag| > 0 {
      PartsJump(s, tag, pos, pos, i);
    }
  }

  /** The distance lastIndexOf computes back from the end, in 32-bit unsigned arithmetic. */
  lemma WrapStart(size: nat, o: nat)
    requires size < U32 && o < U32
    ensures o <= size ==> (size + U32 - o) % U32 == size - o
    ensures o > size ==> (size + U32 - o) % U32 == size + U32 - o
  {
    if o <= size {
      assert size + U32 - o == (size - o) + U32;
    }
  }

  /**
   * lastIndexOf on the content `s` from the start position `o`: the
   * distance from the end is taken modulo 2^32, the reversed tag is searched
   * in the reversed content from there, and the index is mirrored back.
   */
  method LastIndexIn(s: Bytes, tag: Bytes, o: nat) returns (r: int)
    requires |tag| > 0 && |s| < U32 && o < U32
    ensures o <= |s| ==> LastMatch(s, tag, o, r)
    ensures o > |s| ==> r == -1
  {
    var start := (|s| + U32 - o) % U32;
    WrapStart(|s|, o);
    var revOff := if start >= |tag| then start - |tag| else 0;
    var ri := RevSearch(s, tag, revOff);
    if o <= |s| {
      assert start == |s| - o;
      RevFirstIsLast(s, tag, o, revOff, ri);
    } else {
      assert start == |s| + U32 - o;
      assert revOff + |tag| > |s|;
    }
    if ri == -1 {
      return -1;
    }
    r := |s| - ri - |tag|;
  }

  /** The search lastIndexOf runs: the reversed tag in the reversed content, from `revOff` on. */
  method RevSearch(s: Bytes, tag: Bytes, revOff: nat) returns (ri: int)
    requires |tag| > 0
    ensures FirstMatch(Rev(s), Rev(tag), revOff, ri)
  {
    var rdata := Rev(s);
    var rtag := Rev(tag);
    var next := KmpGetNext(rtag);
    ri := KmpSearch(rdata, rtag, next, revOff);
  }

  /** Moving the next part from the pending parts to the collected ones. */
  lemma PartsStep(parts: seq<Bytes>, part: Bytes, pending: seq<Bytes>, rest: seq<Bytes>)
    requires pending == [part] + rest
    ensures parts + pending == (parts + [part]) + rest
  { }

  class ByteArray {
    /** The allocation (`m_data`); its length is the capacity. */
    var data: array<byte>
    /** The content length (`m_size`). */
    var size: nat
    /** The capacity (`m_serve`). */
    var serve: nat

    /** Room for the content and at least one more byte, and only zeros after the content. */
    ghost predicate Valid()
      reads this, data
    {
      serve == data.Length && size + 1 <= serve &&
      forall i :: size <= i < serve ==> data[i] == NUL
    }

    /** The content. */
    function Contents(): Bytes
      reads this, data
      requires Valid()
    {
      data[..size]
    }

    /**
     * An empty buffer with room for `serve` bytes plus the terminator, or
     * with the default capacity when `serve` is the sentinel.
     */
    constructor (serve: nat)
      requires serve <= Unsized
      ensures Valid() && fresh(data)
      ensures Contents() == []
      ensures this.serve == if serve == Unsized then DefaultServe else serve + 1
    {
      var s := if serve == Unsized then DefaultServe else serve + 1;
      data := new byte[s](_ => NUL);
      size := 0;
      this.serve := s;
    }

    /** A buffer holding a copy of `s`. */
    constructor FromBytes(s: Bytes)
      ensures Valid() && fresh(data)
      ensures Contents() == s && serve == |s| + 1
    {
      var d := new byte[|s| + 1](_ => NUL);
      Memcpy(d, 0, s);
      assert d[..|s|] == s;
      data := d;
      size := |s|;
      serve := |s| + 1;
    }

    /** set: the content becomes a copy of `s`, in an allocation of exactly |s| + 1 bytes. */
    method Set(s: Bytes)
      modifies this
      ensures Valid() && fresh(data)
      ensures Contents() == s && serve == |s| + 1
    {
      var d := new byte[|s| + 1](_ => NUL);
      Memcpy(d, 0, s);
      assert d[..|s|] == s;
      data := d;
      size := |s|;
      serve := |s| + 1;
    }

    /**
     * reserve: the capacity becomes `s`; content that no longer fits with
     * its terminator is cut to `s - 1` bytes, and the rest is zeroed.
     */
    method Reserve(s: nat)
      requires Valid() && s >= 1
      modifies this
      ensures Valid() && fresh(data)
      ensures serve == s
      ensures size == if old(size) > s - 1 then s - 1 else old(size)
      ensures Contents() == old(Contents())[..size]
    {
      var keep := if size > s - 1 then s - 1 else size;
      var d := new byte[s](_ => NUL);
      Memcpy(d, 0, data[..keep]);
      assert d[..keep] == data[..keep];
      data := d;
      size := keep;
      serve := s;
    }

    /**
     * append: `s` is placed after the content. When the content and its
     * terminator would not fit, the capacity first grows to twice the old
     * one, or to exactly what is needed when that is more.
     */
    method Append(s: Bytes)
      requires Valid()
      modifies this, data
      ensures Valid()
      ensures Contents() == old(Contents()) + s
      ensures serve == GrownServe(old(serve), old(size) + |s|)
    {
      var sv := serve;
      var need := size + |s|;
      if sv < need + 1 {
        if sv * 2 < need + 1 {
          sv := need + 1;
        } else {
          sv := sv * 2;
        }
        Reserve(sv);
      }
      CopyAfter(data, size, s);
      size := need;
    }

    /** append(char): one byte appended. */
    method AppendByte(c: byte)
      requires Valid()
      modifies this, data
      ensures Valid()
      ensures Contents() == old(Contents()) + [c]
    {
      Append([c]);
    }

    /** at: the byte at `pos`, or zero past the content. */
    function At(pos: nat): (r: byte)
      reads this, data
      requires Valid()
      ensures pos < |Contents()| ==> r == Contents()[pos]
      ensures pos >= |Contents()| ==> r == NUL
    {
      if pos < size then data[pos] else NUL
    }

    /** mid: a new buffer with `n` bytes from `offset`, or the rest when `n` is negative or too large. */
    method Mid(offset: nat, n: int) returns (r: ByteArray)
      requires Valid() && offset <= size
      ensures fresh(r) && fresh(r.data) && r.Valid()
      ensures r.Contents() == MidBytes(Contents(), offset, n)
    {
      var len := n;
      if len < 0 || len > size - offset {
        len := size - offset;
      }
      r := new ByteArray.FromBytes(data[offset..offset + len]);
    }

    /** indexOf: -1 for an empty tag, otherwise the first occurrence at or after `offset`. */
    method IndexOf(tag: Bytes, offset: nat) returns (r: int)
      requires Valid()
      ensures |tag| == 0 ==> r == -1
      ensures |tag| > 0 ==> FirstMatch(Contents(), tag, offset, r)
    {
      if |tag| == 0 {
        return -1;
      }
      var next := KmpGetNext(tag);
      r := KmpSearch(data[..size], tag, next, offset);
    }

    /** The start position lastIndexOf searches back from; the sentinel stands for size - 1 in 32 bits. */
    function LastFrom(offset: nat): nat
      reads this
    {
      if offset == Unsized then (size + U32 - 1) % U32 else offset
    }

    /**
     * lastIndexOf: -1 for an empty tag, otherwise the last occurrence at or
     * before the start position; a start position past the content finds
     * nothing, because the reversed offset wraps around in 32 bits.
     */
    method LastIndexOf(tag: Bytes, offset: nat) returns (r: int)
      requires Valid() && offset <= Unsized && size < U32
      ensures |tag| == 0 ==> r == -1
      ensures |tag| > 0 && LastFrom(offset) <= size ==> LastMatch(Contents(), tag, LastFrom(offset), r)
      ensures |tag| > 0 && LastFrom(offset) > size ==> r == -1
    {
      if |tag| == 0 {
        return -1;
      }
      var o := offset;
      if o == Unsized {
        o := (size + U32 - 1) % U32;
      }
      assert o == LastFrom(offset) && data[..size] == Contents();
      r := LastIndexIn(data[..size], tag, o);
    }

    /**
     * split: the parts between the non-overlapping occurrences of `tag`,
     * found left to right; the whole buffer when `tag` is empty.
     */
    method Split(tag: Bytes) returns (parts: seq<Bytes>)
      requires Valid()
      ensures parts == SplitParts(Contents(), tag)
    {
      var s := data[..size];
      // the first round of the do-while: the scan starts at index_ = -tagsize + tagsize = 0
      var index_ := 0;
      var index := IndexOf(tag, index_);
      parts := [];
      while index != -1
        invariant 0 <= index_ <= size
        invariant |tag| == 0 ==> index == -1
        invariant |tag| > 0 ==> FirstMatch(s, tag, index_, index)
        invariant parts + PartsAfter(s, tag, index_) == SplitParts(s, tag)
        decreases size - index_
      {
        PartsAfterJump(s, tag, index_, index);
        var part := MidBytes(s, index_, index - index_);
        PartsStep(parts, part, PartsAfter(s, tag, index_), PartsAfter(s, tag, index + |tag|));
        parts := parts + [part];
        index_ := index + |tag|;
        index := IndexOf(tag, index_);
      }
      PartsAfterJump(s, tag, index_, index);
      assert PartsAfter(s, tag, index_) == [s[index_..]];
      var last := MidBytes(s, index_, size - index_);
      assert last == s[index_..];
      parts := parts + [last];
      assert parts == SplitParts(s, tag);
      assert s == Contents();
    }

    /** replace(tag, to): every non-overlapping occurrence of `tag` becomes `to`; an empty tag changes nothing. */
    method Replace(tag: Bytes, to: Bytes)
      requires Valid()
      modifies this
      ensures Valid()
      ensures |tag| == 0 ==> Contents() == old(Contents()) && data == old(data)
      ensures |tag| > 0 ==> Contents() == ReplaceAll(old(Contents()), tag, to) && fresh(data)
      ensures |tag| > 0 ==> size == old(size) + (|to| - |tag|) * CountFrom(old(Contents()), tag, 0)
    {
      if |tag| == 0 {
        return;
      }
      var d, sz, sv := ByteReplace(data[..size], tag, to);
      data := d;
      size := sz;
      serve := sv;
    }

    /** replace(offset, range, to): the range, clamped to the content, becomes `to`. */
    method ReplaceRange(offset: nat, range: nat, to: Bytes)
      requires Valid()
      modifies this
      ensures Valid() && fresh(data)
      ensures Contents() == Change(old(Contents()), to, offset, range)
    {
      var d, sz, sv := ByteChange(data[..size], to, offset, range);
      data := d;
      size := sz;
      serve := sv;
    }

    /** insert: `to` placed at `offset`, or appended when `offset` is past the content. */
    method Insert(offset: nat, to: Bytes)
      requires Valid()
      modifies this
      ensures Valid() && fresh(data)
      ensures Contents() == Change(old(Contents()), to, offset, 0)
    {
      ReplaceRange(offset, 0, to);
    }

    /** `==` between buffers: sizes equal and memcmp over the content finds no difference. */
    predicate Equals(other: ByteArray)
      reads this, data, other, other.data
      requires Valid() && other.Valid()
      ensures Equals(other) <==> Contents() == other.Contents()
    {
      size == other.size && MemCmp(data[..size], other.data[..other.size], size) == 0
    }

    /** `==` against a C string: the string's bytes first, then nothing but zeros. */
    method EqualsCStr(str: Bytes) returns (r: bool)
      requires Valid()
      ensures r <==> ZeroPadded(Contents(), CStr(str))
    {
      var t := CStr(str);
      var len := |t|;
      if size < len {
        return false;
      }
      var i := 0;
      while i < len
        invariant 0 <= i <= len
        invariant data[..i] == t[..i]
      {
        if data[i] != t[i] {
          assert Contents()[..len][i] != t[i];
          return false;
        }
        i := i + 1;
      }
      assert Contents()[..len] == t;
      i := len;
      while i < size
        invariant len <= i <= size
        invariant forall j :: len <= j < i ==> data[j] == NUL
      {
        if data[i] != NUL {
          assert Contents()[i] != NUL;
          return false;
        }
        i := i + 1;
      }
      return true;
    }

    /** `<`: memcmp over the shorter size plus one, so the terminator takes part. */
    predicate Less(other: ByteArray)
      reads this, data, other, other.data
      requires Valid() && other.Valid()
      ensures Less(other) <==> LessBytes(Contents(), other.Contents())
    {
      var n := if size < other.size then size else other.size;
      var a, b := Contents(), other.Contents();
      assert data[..n + 1] == (a + [NUL])[..n + 1];
      assert other.data[..n + 1] == (b + [NUL])[..n + 1];
      MemCmpPrefix(data[..], other.data[..], a + [NUL], b + [NUL], n + 1);
      MemCmp(data[..], other.data[..], n + 1) < 0
    }

    /** The offset `operator[]` gives its iterator: an offset past the content becomes 0. */
    function IterOffset(offset: nat): (r: nat)
      reads this
      ensures r <= size
      ensures offset <= size ==> r == offset
    {
      if offset > size then 0 else offset
    }

    /** Reading through an iterator: the byte there, the terminator at the end. */
    function IterGet(offset: nat): (r: byte)
      reads this, data
      requires Valid()
      ensures r == if IterOffset(offset) < size then Contents()[IterOffset(offset)] else NUL
    {
      data[IterOffset(offset)]
    }

    /**
     * `(*this)[offset] = c`: one byte written at the iterator's offset; at or
     * past the end of the content nothing changes.
     */
    method IterSet(offset: nat, c: byte)
      requires Valid()
      modifies data
      ensures Valid()
      ensures var p := IterOffset(offset);
              Contents() == if p < size then old(Contents())[p := c] else old(Contents())
    {
      var p := IterOffset(offset);
      if p >= size {
        return;
      }
      data[p] := c;
    }
  }
}
