/**
 * General: the byte algorithms every buffer operation is built from --
 * Knuth-Morris-Pratt failure table and search, replace-all and splice.
 *
 * The C routines take a pointer and a length; here a buffer is a `Bytes`
 * value, and the freshly allocated results are `array`s whose last cell
 * holds the zero terminator, as the routines lay them out.
 */
module General {
  import opened Bytes

  // ---------------------------------------------------------------------
  // Borders and partial matches
  // ---------------------------------------------------------------------

  /** `b` is the length of a proper border of `w`: a prefix that is also a suffix. */
  ghost predicate IsBorder(w: Bytes, b: int)
  {
    0 <= b < |w| && w[..b] == w[|w| - b..]
  }

  /**
   * The text `src[lo..hi]` ends with the first `l` bytes of `tag`:
   * a partial match of length `l` is pending at position `hi`.
   */
  ghost predicate EndsWith(src: Bytes, lo: int, hi: int, tag: Bytes, l: int)
  {
    0 <= l <= |tag| && 0 <= lo && lo + l <= hi <= |src| && src[hi - l..hi] == tag[..l]
  }

  /**
   * The failure-table entry for position `q` is `v`: `v + 1` is the length
   * of the longest proper border of `tag[..q + 1]`.
   */
  ghost predicate NextOk(tag: Bytes, q: int, v: int)
    requires 0 <= q < |tag|
  {
    LongestBorder(tag[..q + 1], v + 1)
  }

  /** `n` is the length of the longest proper border of `w`. */
  ghost predicate LongestBorder(w: Bytes, n: int)
  {
    IsBorder(w, n) && forall b :: n < b < |w| ==> !IsBorder(w, b)
  }

  /** No partial match longer than `l`, up to `bound`, is pending at `hi`. */
  ghost predicate NoLonger(src: Bytes, lo: int, hi: int, tag: Bytes, l: int, bound: int)
  {
    forall m :: l < m <= bound ==> !EndsWith(src, lo, hi, tag, m)
  }

  /** A whole failure table for `tag`, as kmpGetNext lays it out. */
  ghost predicate IsNextTable(tag: Bytes, next: seq<int>)
  {
    |next| == |tag| + 1 &&
    next[0] == -1 &&
    forall q :: 0 <= q < |tag| ==> NextOk(tag, q, next[q])
  }

  /** A border of `tag[..q]` is a partial match of `tag` against itself ending at `q`. */
  lemma BorderIsSelfPartial(tag: Bytes, q: int, b: int)
    requires 1 <= q <= |tag|
    ensures IsBorder(tag[..q], b) <==> EndsWith(tag, 1, q, tag, b)
  {
    if 0 <= b < q {
      assert tag[..q][..b] == tag[..b];
      assert tag[..q][q - b..] == tag[q - b..q];
    }
  }

  /** A partial match grows by one byte exactly when the next byte agrees. */
  lemma PartialExtend(src: Bytes, lo: int, hi: int, tag: Bytes, l: int)
    requires 0 <= lo <= hi < |src|
    requires 0 <= l < |tag|
    ensures EndsWith(src, lo, hi + 1, tag, l + 1) <==>
            (EndsWith(src, lo, hi, tag, l) && tag[l] == src[hi])
  {
    if lo + l <= hi {
      assert src[hi - l..hi + 1] == src[hi - l..hi] + [src[hi]];
      assert tag[..l + 1] == tag[..l] + [tag[l]];
      if src[hi - l..hi + 1] == tag[..l + 1] {
        assert src[hi - l..hi] == src[hi - l..hi + 1][..l];
        assert tag[..l] == tag[..l + 1][..l];
        assert src[hi] == src[hi - l..hi + 1][l];
      }
    }
  }

  /** Two pending partial matches: the shorter is a border of the longer. */
  lemma PartialIsBorder(src: Bytes, lo: int, hi: int, tag: Bytes, big: int, l: int)
    requires EndsWith(src, lo, hi, tag, big) && EndsWith(src, lo, hi, tag, l)
    requires l < big
    ensures IsBorder(tag[..big], l)
  {
    var w := tag[..big];
    assert w[..l] == tag[..l];
    calc {
      w[big - l..];
      src[hi - big..hi][big - l..];
      src[hi - l..hi];
    }
  }

  /** A border of a pending partial match is itself pending. */
  lemma BorderIsPartial(src: Bytes, lo: int, hi: int, tag: Bytes, big: int, l: int)
    requires EndsWith(src, lo, hi, tag, big)
    requires IsBorder(tag[..big], l)
    ensures EndsWith(src, lo, hi, tag, l)
  {
    var w := tag[..big];
    assert w[..l] == tag[..l];
    calc {
      src[hi - l..hi];
      src[hi - big..hi][big - l..];
      w[big - l..];
    }
  }

  /** A full-length pending partial match is an occurrence. */
  lemma FullPartialIsMatch(src: Bytes, lo: int, hi: int, tag: Bytes)
    requires 0 <= lo && |tag| <= hi
    ensures EndsWith(src, lo, hi, tag, |tag|) <==> (lo <= hi - |tag| && MatchAt(src, tag, hi - |tag|))
  {
    assert tag[..|tag|] == tag;
  }

  /**
   * One step of the fall-back chain `k := next[k]`. If every partial match
   * longer than `k + 1` (and shorter than `bound`) fails to extend with `c`,
   * and `k + 1` does not extend either, then after the step the same holds
   * for the new, shorter candidate.
   */
  lemma ChainStep(src: Bytes, lo: int, hi: int, tag: Bytes, c: byte, bound: int, k: int, k': int)
    requires 0 <= k && k + 1 < bound <= |tag|
    requires NextOk(tag, k, k')
    requires EndsWith(src, lo, hi, tag, k + 1)
    requires tag[k + 1] != c
    requires forall l :: k + 1 < l < bound && EndsWith(src, lo, hi, tag, l) ==> tag[l] != c
    ensures -1 <= k' < k
    ensures EndsWith(src, lo, hi, tag, k' + 1)
    ensures forall l :: k' + 1 < l < bound && EndsWith(src, lo, hi, tag, l) ==> tag[l] != c
  {
    BorderIsPartial(src, lo, hi, tag, k + 1, k' + 1);
    forall l | k' + 1 < l < bound && EndsWith(src, lo, hi, tag, l)
      ensures tag[l] != c
    {
      if l < k + 1 {
        PartialIsBorder(src, lo, hi, tag, k + 1, l);
      }
    }
  }

  /**
   * After the fall-back chain stops at `k` and the match is extended when
   * possible, the new `k + 1` is the longest partial match at `hi + 1`.
   */
  lemma ChainEnd(src: Bytes, lo: int, hi: int, tag: Bytes, bound: int, k: int)
    requires 0 <= lo <= hi < |src|
    requires -1 <= k && k + 1 < bound <= |tag|
    requires EndsWith(src, lo, hi, tag, k + 1)
    requires k == -1 || tag[k + 1] == src[hi]
    requires forall l :: k + 1 < l < bound && EndsWith(src, lo, hi, tag, l) ==> tag[l] != src[hi]
    ensures var k2 := if tag[k + 1] == src[hi] then k + 1 else k;
            EndsWith(src, lo, hi + 1, tag, k2 + 1) && NoLonger(src, lo, hi + 1, tag, k2 + 1, bound)
  {
    var k2 := if tag[k + 1] == src[hi] then k + 1 else k;
    var hi1 := hi + 1;
    if tag[k + 1] == src[hi] {
      PartialExtend(src, lo, hi, tag, k + 1);
    } else {
      assert tag[..0] == src[hi1..hi1];
    }
    forall l | k2 + 1 < l <= bound
      ensures !EndsWith(src, lo, hi1, tag, l)
    {
      PartialExtend(src, lo, hi, tag, l - 1);
      if l - 1 == 0 {
        assert k == -1 && tag[0] != src[hi];
      }
    }
  }

  /** A table entry, read as the pending self-match of `tag` at `q`. */
  lemma NextOkAsPartial(tag: Bytes, q: int, v: int)
    requires 1 <= q < |tag|
    requires NextOk(tag, q - 1, v)
    ensures EndsWith(tag, 1, q, tag, v + 1)
    ensures NoLonger(tag, 1, q, tag, v + 1, q)
  {
    BorderIsSelfPartial(tag, q, v + 1);
    forall l | v + 1 < l <= q
      ensures !EndsWith(tag, 1, q, tag, l)
    {
      BorderIsSelfPartial(tag, q, l);
    }
  }

  /** The longest pending self-match at `q + 1` is the table entry for `q`. */
  lemma PartialAsNextOk(tag: Bytes, q: int, v: int)
    requires 1 <= q < |tag|
    requires EndsWith(tag, 1, q + 1, tag, v + 1)
    requires NoLonger(tag, 1, q + 1, tag, v + 1, q)
    ensures NextOk(tag, q, v)
  {
    var q1 := q + 1;
    var w := tag[..q1];
    BorderIsSelfPartial(tag, q1, v + 1);
    forall b | v + 1 < b < |w|
      ensures !IsBorder(w, b)
    {
      BorderIsSelfPartial(tag, q1, b);
    }
  }

  // ---------------------------------------------------------------------
  // kmpGetNext / kmpSearch
  // ---------------------------------------------------------------------

  /**
   * The failure table of `tag`, one entry more than `tag` has bytes; the
   * entry for position `q` is one less than the longest proper border of
   * `tag[..q + 1]`, and the extra last entry keeps the resize's zero.
   */
  method KmpGetNext(tag: Bytes) returns (next: seq<int>)
    ensures IsNextTable(tag, next)
    ensures |tag| > 0 ==> next[|tag|] == 0
  {
    var a: seq<int> := seq(|tag| + 1, _ => 0);
    a := a[0 := -1];
    var k := -1;
    if |tag| > 0 {
      assert NextOk(tag, 0, -1);
    }
    var q := 1;
    while q < |tag|
      invariant 1 <= q && (q <= |tag| || |tag| == 0)
      invariant |a| == |tag| + 1 && a[0] == -1
      invariant forall j :: 0 <= j < q && j < |tag| ==> NextOk(tag, j, a[j])
      invariant forall j :: q <= j <= |tag| && 0 < j ==> a[j] == 0
      invariant q < |tag| ==> k == a[q - 1]
    {
      // The pending match against tag[1..q] is the border recorded for q - 1.
      NextOkAsPartial(tag, q, k);
      k := FallBack(tag, 1, q, tag, a, q, k);
      ChainEnd(tag, 1, q, tag, q, k);
      if tag[k + 1] == tag[q] {
        k := k + 1;
      }
      PartialAsNextOk(tag, q, k);
      a := a[q := k];
      q := q + 1;
    }
    next := a;
  }

  /**
   * The fall-back chain both kmpGetNext and kmpSearch run: `k := next[k]`
   * while the pending partial match cannot be extended by `src[hi]`.
   */
  method FallBack(src: Bytes, lo: int, hi: int, tag: Bytes, next: seq<int>, bound: int, k0: int) returns (k: int)
    requires 0 <= lo <= hi < |src| && bound <= |tag| && -1 <= k0 < bound - 1
    requires bound - 1 <= |next| && forall j :: 0 <= j < bound - 1 ==> NextOk(tag, j, next[j])
    requires EndsWith(src, lo, hi, tag, k0 + 1) && NoLonger(src, lo, hi, tag, k0 + 1, bound)
    ensures -1 <= k <= k0
    ensures EndsWith(src, lo, hi, tag, k + 1)
    ensures k == -1 || tag[k + 1] == src[hi]
    ensures forall l :: k + 1 < l < bound && EndsWith(src, lo, hi, tag, l) ==> tag[l] != src[hi]
  {
    k := k0;
    while k > -1 && tag[k + 1] != src[hi]
      invariant -1 <= k <= k0
      invariant EndsWith(src, lo, hi, tag, k + 1)
      invariant forall l :: k + 1 < l < bound && EndsWith(src, lo, hi, tag, l) ==> tag[l] != src[hi]
      decreases k
    {
      ChainStep(src, lo, hi, tag, src[hi], bound, k, next[k]);
      k := next[k];
    }
  }

  /** No occurrence of `tag` at or after `offset` ends at or before `hi`. */
  ghost predicate NoMatchBefore(src: Bytes, tag: Bytes, offset: int, hi: int)
  {
    forall j :: offset <= j && j + |tag| <= hi ==> !MatchAt(src, tag, j)
  }

  /** Advancing the scan past `src[hi]` when no full match is pending there. */
  lemma NoMatchExtend(src: Bytes, tag: Bytes, offset: int, hi: int, l: int)
    requires 0 <= offset <= hi < |src| && 0 <= l < |tag|
    requires NoMatchBefore(src, tag, offset, hi)
    requires NoLonger(src, offset, hi + 1, tag, l, |tag|)
    ensures NoMatchBefore(src, tag, offset, hi + 1)
  {
    var hi1 := hi + 1;
    if |tag| <= hi1 {
      FullPartialIsMatch(src, offset, hi1, tag);
      assert !EndsWith(src, offset, hi1, tag, |tag|);
    }
  }

  /** A full match pending at `hi`, with none before it, is the first match. */
  lemma FoundFirst(src: Bytes, tag: Bytes, offset: nat, hi: int)
    requires |tag| <= hi
    requires NoMatchBefore(src, tag, offset, hi - 1)
    requires EndsWith(src, offset, hi, tag, |tag|)
    ensures FirstMatch(src, tag, offset, hi - |tag|)
  {
    FullPartialIsMatch(src, offset, hi, tag);
  }

  /** A scan that reached the end without a match: there is none. */
  lemma NotFound(src: Bytes, tag: Bytes, offset: nat, hi: int)
    requires |src| <= hi
    requires NoMatchBefore(src, tag, offset, hi)
    ensures FirstMatch(src, tag, offset, -1)
  {
  }

  /**
   * Knuth-Morris-Pratt search of `tag` in `src` from `offset`, driven by a
   * failure table: the first occurrence at or after `offset`, or -1.
   */
  method KmpSearch(src: Bytes, tag: Bytes, next: seq<int>, offset: nat) returns (r: int)
    requires |tag| > 0
    requires IsNextTable(tag, next)
    ensures FirstMatch(src, tag, offset, r)
  {
    var k := -1;
    var i := offset;
    while i < |src|
      invariant offset <= i
      invariant -1 <= k < |tag| - 1
      invariant offset <= |src| ==> EndsWith(src, offset, i, tag, k + 1)
      invariant NoLonger(src, offset, i, tag, k + 1, |tag|)
      invariant NoMatchBefore(src, tag, offset, i)
    {
      k := FallBack(src, offset, i, tag, next, |tag|, k);
      ChainEnd(src, offset, i, tag, |tag|, k);
      if tag[k + 1] == src[i] {
        k := k + 1;
      }
      if k == |tag| - 1 {
        FoundFirst(src, tag, offset, i + 1);
        return i - |tag| + 1;
      }
      NoMatchExtend(src, tag, offset, i, k + 1);
      i := i + 1;
    }
    NotFound(src, tag, offset, i);
    r := -1;
  }

  // ---------------------------------------------------------------------
  // byteReplace
  // ---------------------------------------------------------------------

  /** Number of non-overlapping occurrences of `tag`, scanning left to right from `from`. */
  function CountFrom(src: Bytes, tag: Bytes, from: nat): nat
    requires |tag| > 0
    decreases |src| - from
  {
    if from + |tag| > |src| then 0
    else if MatchAt(src, tag, from) then 1 + CountFrom(src, tag, from + |tag|)
    else CountFrom(src, tag, from + 1)
  }

  /**
   * `src[from..]` with every occurrence of `tag`, found left to right and
   * without overlap, replaced by `to`.
   */
  function ReplaceFrom(src: Bytes, tag: Bytes, to: Bytes, from: nat): Bytes
    requires |tag| > 0 && from <= |src|
    decreases |src| - from
  {
    if from + |tag| > |src| then src[from..]
    else if MatchAt(src, tag, from) then to + ReplaceFrom(src, tag, to, from + |tag|)
    else [src[from]] + ReplaceFrom(src, tag, to, from + 1)
  }

  /**
   * The same replacement stated on the remaining text alone: the
   * reference definition that makes "ReplaceFrom only looks ahead" plain.
   */
  function ReplaceSeq(t: Bytes, tag: Bytes, to: Bytes): Bytes
    requires |tag| > 0
    decreases |t|
  {
    if |t| < |tag| then t
    else if t[..|tag|] == tag then to + ReplaceSeq(t[|tag|..], tag, to)
    else [t[0]] + ReplaceSeq(t[1..], tag, to)
  }

  /** ReplaceSeq on a text that starts with `tag`. */
  lemma ReplaceSeqMatch(t: Bytes, tag: Bytes, to: Bytes)
    requires 0 < |tag| <= |t| && t[..|tag|] == tag
    ensures ReplaceSeq(t, tag, to) == to + ReplaceSeq(t[|tag|..], tag, to)
  { }

  /** ReplaceFrom at `from` is ReplaceSeq of the text from `from` on. */
  lemma ReplaceFromIsSeq(src: Bytes, tag: Bytes, to: Bytes, from: nat)
    requires |tag| > 0 && from <= |src|
    ensures ReplaceFrom(src, tag, to, from) == ReplaceSeq(src[from..], tag, to)
  {
    ReplacesAsSeqFrom(src, tag, to, from);
  }

  /** ReplaceFrom from `from` on agrees with ReplaceSeq of the rest. */
  ghost predicate ReplacesAsSeq(src: Bytes, tag: Bytes, to: Bytes, from: nat)
    requires |tag| > 0 && from <= |src|
  {
    ReplaceFrom(src, tag, to, from) == ReplaceSeq(src[from..], tag, to)
  }

  lemma {:induction false} ReplacesAsSeqFrom(src: Bytes, tag: Bytes, to: Bytes, from: nat)
    requires |tag| > 0 && from <= |src|
    ensures ReplacesAsSeq(src, tag, to, from)
    decreases |src| - from
  {
    if from + |tag| <= |src| {
      if MatchAt(src, tag, from) {
        ReplacesAsSeqFrom(src, tag, to, from + |tag|);
        ReplaceFromIsSeqMatch(src, tag, to, from);
      } else {
        ReplacesAsSeqFrom(src, tag, to, from + 1);
        ReplaceFromIsSeqSkip(src, tag, to, from);
      }
    }
  }

  /** ReplacesAsSeq at an occurrence, from its instance past the occurrence. */
  lemma ReplaceFromIsSeqMatch(src: Bytes, tag: Bytes, to: Bytes, from: nat)
    requires |tag| > 0 && from + |tag| <= |src| && MatchAt(src, tag, from)
    requires ReplacesAsSeq(src, tag, to, from + |tag|)
    ensures ReplacesAsSeq(src, tag, to, from)
  {
    SuffixSplit(src, from, |tag|);
    ReplaceFromMatch(src, tag, to, from);
    ReplaceSeqMatch(src[from..], tag, to);
  }

  /** ReplacesAsSeq where no occurrence starts, from its instance one byte further. */
  lemma ReplaceFromIsSeqSkip(src: Bytes, tag: Bytes, to: Bytes, from: nat)
    requires |tag| > 0 && from + |tag| <= |src| && !MatchAt(src, tag, from)
    requires ReplacesAsSeq(src, tag, to, from + 1)
    ensures ReplacesAsSeq(src, tag, to, from)
  {
    SuffixSplit(src, from, |tag|);
    SuffixSplit(src, from, 1);
    ReplaceFromSkip(src, tag, to, from);
    ReplaceSeqSkip(src[from..], tag, to);
  }

  /** One step of ReplaceFrom at an occurrence. */
  lemma ReplaceFromMatch(src: Bytes, tag: Bytes, to: Bytes, from: nat)
    requires |tag| > 0 && from + |tag| <= |src| && MatchAt(src, tag, from)
    ensures ReplaceFrom(src, tag, to, from) == to + ReplaceFrom(src, tag, to, from + |tag|)
  { }

  /** One step of ReplaceFrom where no occurrence starts. */
  lemma ReplaceFromSkip(src: Bytes, tag: Bytes, to: Bytes, from: nat)
    requires |tag| > 0 && from + |tag| <= |src| && !MatchAt(src, tag, from)
    ensures ReplaceFrom(src, tag, to, from) == [src[from]] + ReplaceFrom(src, tag, to, from + 1)
  { }

  /** ReplaceSeq on a text that does not start with `tag`. */
  lemma ReplaceSeqSkip(t: Bytes, tag: Bytes, to: Bytes)
    requires 0 < |tag| <= |t| && t[..|tag|] != tag
    ensures ReplaceSeq(t, tag, to) == [t[0]] + ReplaceSeq(t[1..], tag, to)
  { }

  function ReplaceAll(src: Bytes, tag: Bytes, to: Bytes): Bytes
    requires |tag| > 0
  {
    ReplaceFrom(src, tag, to, 0)
  }

  /**
   * Jumping from `from` straight to the first match `i` (or the end):
   * the count over the skipped stretch.
   */
  lemma {:induction false} CountJump(src: Bytes, tag: Bytes, from: nat, i: int)
    requires |tag| > 0 && from <= |src|
    requires FirstMatch(src, tag, from, i)
    ensures CountFrom(src, tag, from) == if i == -1 then 0 else 1 + CountFrom(src, tag, i + |tag|)
    decreases |src| - from
  {
    if from + |tag| > |src| {
      assert i == -1;
    } else if MatchAt(src, tag, from) {
      assert i == from;
    } else {
      CountJump(src, tag, from + 1, i);
    }
  }

  /** The same jump for the replacement: the skipped stretch is copied unchanged. */
  lemma {:induction false} ReplaceJump(src: Bytes, tag: Bytes, to: Bytes, from: nat, i: int)
    requires |tag| > 0 && from <= i && MatchAt(src, tag, i)
    requires FirstMatch(src, tag, from, i)
    ensures ReplaceFrom(src, tag, to, from) == src[from..i] + to + ReplaceFrom(src, tag, to, i + |tag|)
    decreases i - from
  {
    if from < i {
      assert !MatchAt(src, tag, from);
      ReplaceJump(src, tag, to, from + 1, i);
      ReplaceStep(src, tag, to, from);
      JumpCase(src, from, i, to, ReplaceFrom(src, tag, to, i + |tag|), ReplaceFrom(src, tag, to, from + 1), ReplaceFrom(src, tag, to, from));
    }
  }

  /** One skipped byte in front of a jump. */
  lemma JumpCase(s: Bytes, from: int, i: int, mid: Bytes, r: Bytes, r1: Bytes, r0: Bytes)
    requires 0 <= from < i <= |s|
    requires r1 == s[from + 1..i] + mid + r && r0 == [s[from]] + r1
    ensures r0 == s[from..i] + mid + r
  {
    ConsSlice(s, from, i, mid, r);
  }

  lemma ConsSlice(s: Bytes, from: int, i: int, mid: Bytes, r: Bytes)
    requires 0 <= from < i <= |s|
    ensures [s[from]] + (s[from + 1..i] + mid + r) == s[from..i] + mid + r
  {
    assert s[from..i] == [s[from]] + s[from + 1..i];
  }

  /** With no occurrence left, the rest is copied unchanged. */
  lemma {:induction false} ReplaceNone(src: Bytes, tag: Bytes, to: Bytes, from: nat)
    requires |tag| > 0 && from <= |src|
    requires FirstMatch(src, tag, from, -1)
    ensures ReplaceFrom(src, tag, to, from) == src[from..]
    decreases |src| - from
  {
    if from + |tag| <= |src| {
      assert !MatchAt(src, tag, from);
      ReplaceNone(src, tag, to, from + 1);
      ReplaceStep(src, tag, to, from);
      assert src[from..] == [src[from]] + src[from + 1..];
    }
  }

  /** One byte that starts no occurrence is copied. */
  lemma ReplaceStep(src: Bytes, tag: Bytes, to: Bytes, from: nat)
    requires |tag| > 0 && from + |tag| <= |src| && !MatchAt(src, tag, from)
    ensures ReplaceFrom(src, tag, to, from) == [src[from]] + ReplaceFrom(src, tag, to, from + 1)
  {
  }

  /** Each replacement changes the length by `|to| - |tag|`. */
  lemma {:induction false} ReplaceLength(src: Bytes, tag: Bytes, to: Bytes, from: nat)
    requires |tag| > 0 && from <= |src|
    ensures |ReplaceFrom(src, tag, to, from)| == |src| - from + (|to| - |tag|) * CountFrom(src, tag, from)
    decreases |src| - from
  {
    var d := |to| - |tag|;
    if from + |tag| > |src| {
      MulZero(d);
    } else if MatchAt(src, tag, from) {
      ReplaceLength(src, tag, to, from + |tag|);
      MulStep(d, CountFrom(src, tag, from + |tag|));
    } else {
      ReplaceLength(src, tag, to, from + 1);
    }
  }

  lemma MulZero(d: int)
    ensures d * 0 == 0
  {
  }

  lemma MulStep(d: int, c: int)
    ensures d * (1 + c) == d + d * c
  {
  }

  /** Replacing a tag by itself changes nothing. */
  lemma {:induction false} ReplaceBySelf(src: Bytes, tag: Bytes, from: nat)
    requires |tag| > 0 && from <= |src|
    ensures ReplaceFrom(src, tag, tag, from) == src[from..]
    decreases |src| - from
  {
    if from + |tag| > |src| {
    } else if MatchAt(src, tag, from) {
      ReplaceBySelf(src, tag, from + |tag|);
      assert src[from..] == src[from..from + |tag|] + src[from + |tag|..];
    } else {
      ReplaceBySelf(src, tag, from + 1);
      assert src[from..] == [src[from]] + src[from + 1..];
    }
  }

  /**
   * When the tag is one byte `c` and the replacement does not contain `c`,
   * the result contains no `c` at all: every occurrence is replaced.
   */
  lemma {:induction false} ReplaceByteRemovesIt(src: Bytes, c: byte, to: Bytes, from: nat)
    requires from <= |src| && !Has(to, c)
    ensures !Has(ReplaceFrom(src, [c], to, from), c)
    decreases |src| - from
  {
    var r := ReplaceFrom(src, [c], to, from);
    if from + 1 > |src| {
    } else {
      ReplaceByteRemovesIt(src, c, to, from + 1);
      var rest := ReplaceFrom(src, [c], to, from + 1);
      var head := if MatchAt(src, [c], from) then to else [src[from]];
      assert r == head + rest;
      assert src[from..from + 1] == [src[from]];
      assert !Has(head, c);
      forall p | 0 <= p < |r| ensures r[p] != c {
        if p >= |head| {
          assert r[p] == rest[p - |head|];
        } else {
          assert r[p] == head[p];
        }
      }
    }
  }

  /** memcpy: `s` written into `dst` at `at`, every other cell kept. */
  method Memcpy(dst: array<byte>, at: nat, s: Bytes)
    requires at + |s| <= dst.Length
    modifies dst
    ensures dst[..] == old(dst[..])[..at] + s + old(dst[..])[at + |s|..]
  {
    ghost var before := dst[..];
    var n := 0;
    while n < |s|
      invariant 0 <= n <= |s|
      invariant forall p :: 0 <= p < dst.Length && !(at <= p < at + n) ==> dst[p] == before[p]
      invariant forall p :: at <= p < at + n ==> dst[p] == s[p - at]
    {
      dst[at + n] := s[n];
      n := n + 1;
    }
    assert dst[..] == before[..at] + s + before[at + |s|..];
  }

  /** After a Memcpy, the written prefix is the old prefix followed by `s`. */
  lemma MemcpyPrefix(before: Bytes, after: Bytes, at: nat, s: Bytes)
    requires at + |s| <= |before|
    requires after == before[..at] + s + before[at + |s|..]
    ensures after[..at + |s|] == before[..at] + s
  {
    assert after[..at + |s|] == (before[..at] + s + before[at + |s|..])[..at + |s|];
  }

  /** The counting pass of byteReplace: occurrences of `tag`, found with the table `next`. */
  method CountTags(src: Bytes, tag: Bytes, next: seq<int>) returns (cnt: nat)
    requires |tag| > 0 && IsNextTable(tag, next)
    ensures cnt == CountFrom(src, tag, 0)
  {
    cnt := 0;
    var from := 0;
    var index := KmpSearch(src, tag, next, 0);
    while index != -1
      invariant from <= |src| && FirstMatch(src, tag, from, index)
      invariant cnt + CountFrom(src, tag, from) == CountFrom(src, tag, 0)
      decreases |src| - from
    {
      CountJump(src, tag, from, index);
      cnt := cnt + 1;
      from := index + |tag|;
      index := KmpSearch(src, tag, next, from);
    }
    CountJump(src, tag, from, index);
  }

  /** The two memcpy calls of one replacement: the gap before the occurrence, then `to`. */
  method WriteAt(result: array<byte>, out: nat, gap: Bytes, to: Bytes)
    requires out + |gap| + |to| <= result.Length
    modifies result
    ensures result[..out + |gap| + |to|] == old(result[..out]) + gap + to
  {
    ghost var before := result[..];
    Memcpy(result, out, gap);
    MemcpyPrefix(before, result[..], out, gap);
    ghost var middle := result[..];
    Memcpy(result, out + |gap|, to);
    MemcpyPrefix(middle, result[..], out + |gap|, to);
  }

  /** A replacement written: the written prefix grows by `gap + to`, and `rest` is still to come. */
  lemma WriteStep(whole: Bytes, pre: Bytes, gap: Bytes, to: Bytes, rest: Bytes, now: Bytes)
    requires whole == pre + (gap + to + rest) && now == pre + gap + to
    ensures whole == now + rest
  { }

  /**
   * The copying pass of byteReplace: the gaps between occurrences and a
   * copy of `to` for each occurrence, written into `result` from 0. The
   * write position `out` is the source's `index_ + (tosize - tagsize) * ci`
   * (`ci` replacements done so far), kept as a running sum.
   */
  method WriteReplaced(result: array<byte>, src: Bytes, tag: Bytes, to: Bytes, next: seq<int>)
    requires |tag| > 0 && IsNextTable(tag, next)
    requires |ReplaceAll(src, tag, to)| < result.Length
    modifies result
    ensures result[..|ReplaceAll(src, tag, to)|] == ReplaceAll(src, tag, to)
  {
    ghost var whole := ReplaceAll(src, tag, to);
    var index_ := 0;
    var out := 0;
    var done := false;
    while !done
      invariant 0 <= index_ <= |src|
      invariant !done ==> 0 <= out <= |whole|
      invariant !done ==> whole == result[..out] + ReplaceFrom(src, tag, to, index_)
      invariant done ==> result[..|whole|] == whole
      decreases if done then 0 else |src| - index_ + 1
    {
      var index := KmpSearch(src, tag, next, index_);
      if index != -1 {
        ReplaceJump(src, tag, to, index_, index);
        ghost var pre := result[..out];
        var gap := src[index_..index];
        index_ := index + |tag|;
        ghost var rest := ReplaceFrom(src, tag, to, index_);
        assert |whole| == out + |gap| + |to| + |rest|;
        WriteAt(result, out, gap, to);
        WriteStep(whole, pre, gap, to, rest, result[..out + |gap| + |to|]);
        out := out + |gap| + |to|;
      } else {
        ReplaceNone(src, tag, to, index_);
        ghost var before := result[..];
        var gap := src[index_..];
        assert |whole| == out + |gap|;
        Memcpy(result, out, gap);
        MemcpyPrefix(before, result[..], out, gap);
        done := true;
      }
    }
  }

  /**
   * byteReplace: a fresh zero-terminated buffer holding `src` with every
   * occurrence of `tag` replaced by `to`; `resultSize` bytes of content and
   * `resultServe` bytes allocated. The callers never pass an empty tag.
   */
  method ByteReplace(src: Bytes, tag: Bytes, to: Bytes)
    returns (result: array<byte>, resultSize: nat, resultServe: nat)
    requires |tag| > 0
    ensures fresh(result)
    ensures resultSize == |src| + (|to| - |tag|) * CountFrom(src, tag, 0)
    ensures resultServe == resultSize + 1 == result.Length
    ensures result[..resultSize] == ReplaceAll(src, tag, to)
    ensures result[resultSize] == NUL
  {
    var next := KmpGetNext(tag);
    var cnt := CountTags(src, tag, next);
    ReplaceLength(src, tag, to, 0);
    resultSize := |src| + (|to| - |tag|) * cnt;
    resultServe := resultSize + 1;
    result := new byte[resultServe](_ => NUL);
    WriteReplaced(result, src, tag, to, next);
    result[resultSize] := NUL;
  }

  // ---------------------------------------------------------------------
  // byteChange
  // ---------------------------------------------------------------------

  /**
   * `src` with the `range` bytes at `offset` replaced by `to`. An offset
   * past the end appends; a range running past the end stops there.
   */
  function Change(src: Bytes, to: Bytes, offset: nat, range: nat): Bytes
  {
    var off := if offset > |src| then |src| else offset;
    var len := if offset > |src| then 0 else if offset + range > |src| then |src| - offset else range;
    src[..off] + to + src[off + len..]
  }

  /** A change that lies inside the text replaces exactly `src[offset..end]`. */
  lemma ChangeWithin(src: Bytes, to: Bytes, offset: nat, end: nat)
    requires offset <= end <= |src|
    ensures Change(src, to, offset, end - offset) == src[..offset] + to + src[end..]
  {
  }

  /** Inserting `to` and then removing as many bytes at the same place restores `src`. */
  lemma ChangeUndo(src: Bytes, to: Bytes, offset: nat)
    requires offset <= |src|
    ensures Change(Change(src, to, offset, 0), [], offset, |to|) == src
  {
    var mid := Change(src, to, offset, 0);
    assert mid == src[..offset] + to + src[offset..];
    assert mid[..offset] == src[..offset];
    assert mid[offset + |to|..] == src[offset..];
  }

  /** Replacing a span twice at the same place: the second replacement is all that is left. */
  lemma ChangeTwice(src: Bytes, v1: Bytes, v2: Bytes, offset: nat, end: nat)
    requires offset <= end <= |src|
    ensures Change(Change(src, v1, offset, end - offset), v2, offset, |v1|) == Change(src, v2, offset, end - offset)
  {
    var mid := src[..offset] + v1 + src[end..];
    ChangeWithin(src, v1, offset, end);
    ChangeWithin(mid, v2, offset, offset + |v1|);
    ChangeWithin(src, v2, offset, end);
    assert mid[..offset] == src[..offset];
    assert mid[offset + |v1|..] == src[end..];
  }

  /** Rewriting the middle part of an inserted block is inserting the rewritten block. */
  lemma InsertTwice(src: Bytes, at: nat, pre: Bytes, v1: Bytes, v2: Bytes, post: Bytes, vo: nat)
    requires at <= |src| && vo == at + |pre|
    ensures Change(Change(src, pre + v1 + post, at, 0), v2, vo, |v1|) == Change(src, pre + v2 + post, at, 0)
  {
    var mid := src[..at] + (pre + v1 + post) + src[at..];
    ChangeWithin(src, pre + v1 + post, at, at);
    ChangeWithin(mid, v2, vo, vo + |v1|);
    ChangeWithin(src, pre + v2 + post, at, at);
    assert mid[..vo] == src[..at] + pre;
    assert mid[vo + |v1|..] == post + src[at..];
  }

  /** A line inserted just after a newline, removed together with that newline, leaves the text as it was. */
  lemma InsertLineUndo(src: Bytes, at: nat, line: Bytes, nl: byte, ins: Bytes, n: nat)
    requires 0 < at <= |src| && src[at - 1] == nl && ins == line + [nl] && n == |line| + 1
    ensures Change(Change(src, ins, at, 0), [], at - 1, n) == src
  {
    var mid := src[..at] + (line + [nl]) + src[at..];
    ChangeWithin(src, line + [nl], at, at);
    ChangeWithin(mid, [], at - 1, at + |line|);
    assert mid[..at - 1] == src[..at - 1];
    assert mid[at + |line|..] == [nl] + src[at..];
    assert src == src[..at - 1] + [nl] + src[at..];
  }

  /** A change that ends before the last byte keeps that byte last. */
  lemma ChangeKeepsLast(src: Bytes, to: Bytes, offset: nat, end: nat)
    requires offset <= end < |src|
    ensures var r := Change(src, to, offset, end - offset); |r| > 0 && r[|r| - 1] == src[|src| - 1]
  {
    ChangeWithin(src, to, offset, end);
  }

  /** A change at or past the end appends, whatever the range. */
  lemma ChangePastEnd(src: Bytes, to: Bytes, offset: nat, range: nat)
    requires offset >= |src|
    ensures Change(src, to, offset, range) == src + to
  {
    assert src[..|src|] == src;
  }

  /** A change inside the buffer keeps the bytes around the replaced range. */
  lemma ChangeKeeps(src: Bytes, to: Bytes, offset: nat, range: nat)
    requires offset + range <= |src|
    ensures var r := Change(src, to, offset, range);
            |r| == |src| - range + |to| &&
            r[..offset] == src[..offset] &&
            r[offset..offset + |to|] == to &&
            r[offset + |to|..] == src[offset + range..]
  {
  }

  /** Three consecutive Memcpy calls lay `a + b + c` out from position 0. */
  lemma ThreeCopies(s0: Bytes, s1: Bytes, s2: Bytes, s3: Bytes, a: Bytes, b: Bytes, c: Bytes, p: nat, q: nat)
    requires p == |a| && q == p + |b| && q + |c| <= |s0|
    requires s1 == s0[..0] + a + s0[0 + |a|..]
    requires s2 == s1[..p] + b + s1[p + |b|..]
    requires s3 == s2[..q] + c + s2[q + |c|..]
    ensures s3[..q + |c|] == a + b + c
  {
    MemcpyPrefix(s0, s1, 0, a);
    MemcpyPrefix(s1, s2, p, b);
    MemcpyPrefix(s2, s3, q, c);
  }

  /**
   * byteChange: a fresh zero-terminated buffer holding `src` with the
   * clamped range at `srcOffset` replaced by `to`.
   */
  method ByteChange(src: Bytes, to: Bytes, srcOffset: nat, srcRange: nat)
    returns (result: array<byte>, resultSize: nat, resultServe: nat)
    ensures fresh(result)
    ensures resultServe == resultSize + 1 == result.Length
    ensures result[..resultSize] == Change(src, to, srcOffset, srcRange)
    ensures result[resultSize] == NUL
  {
    var offset := srcOffset;
    var range := srcRange;
    if offset > |src| {
      offset := |src|;
      range := 0;
    } else if offset + range > |src| {
      range := |src| - offset;
    }
    var head, tail := src[..offset], src[offset + range..];
    assert Change(src, to, srcOffset, srcRange) == head + to + tail;
    resultSize := |src| + |to| - range;
    resultServe := resultSize + 1;
    result := CopyThree(head, to, tail);
  }

  /** The three memcpy calls of byteChange into a fresh zeroed buffer with room for the terminator. */
  method CopyThree(head: Bytes, to: Bytes, tail: Bytes) returns (result: array<byte>)
    ensures fresh(result) && result.Length == |head| + |to| + |tail| + 1
    ensures result[..|head| + |to| + |tail|] == head + to + tail
    ensures result[|head| + |to| + |tail|] == NUL
  {
    var size := |head| + |to| + |tail|;
    result := new byte[size + 1](_ => NUL);
    ghost var s0 := result[..];
    Memcpy(result, 0, head);
    ghost var s1 := result[..];
    Memcpy(result, |head|, to);
    ghost var s2 := result[..];
    Memcpy(result, |head| + |to|, tail);
    ThreeCopies(s0, s1, s2, result[..], head, to, tail, |head|, |head| + |to|);
    ghost var s3 := result[..];
    result[size] := NUL;
    assert result[..size] == s3[..size];
  }

  /** Pieces free of a byte make results free of it. */
  lemma AbsentConcat(a: Bytes, b: Bytes, c: byte)
    requires !Has(a, c) && !Has(b, c)
    ensures !Has(a + b, c)
  {
    forall p | 0 <= p < |a + b| ensures (a + b)[p] != c {
      if p < |a| {
        assert (a + b)[p] == a[p];
      } else {
        assert (a + b)[p] == b[p - |a|];
      }
    }
  }

  lemma AbsentSlice(s: Bytes, i: nat, j: nat, c: byte)
    requires i <= j <= |s| && !Has(s, c)
    ensures !Has(s[i..j], c)
  {
    forall p | 0 <= p < j - i ensures s[i..j][p] != c {
      assert s[i..j][p] == s[i + p];
    }
  }

  lemma AbsentChange(s: Bytes, to: Bytes, offset: nat, range: nat, c: byte)
    requires !Has(s, c) && !Has(to, c)
    ensures !Has(Change(s, to, offset, range), c)
  {
    var off := if offset > |s| then |s| else offset;
    var len := if offset > |s| then 0 else if offset + range > |s| then |s| - offset else range;
    AbsentSlice(s, 0, off, c);
    AbsentSlice(s, off + len, |s|, c);
    AbsentConcat(s[..off], to, c);
    AbsentConcat(s[..off] + to, s[off + len..], c);
  }

  lemma {:induction false} AbsentReplace(s: Bytes, tag: Bytes, to: Bytes, from: nat, c: byte)
    requires |tag| > 0 && from <= |s| && !Has(s, c) && !Has(to, c)
    ensures !Has(ReplaceFrom(s, tag, to, from), c)
    decreases |s| - from
  {
    if from + |tag| > |s| {
      AbsentSlice(s, from, |s|, c);
    } else if MatchAt(s, tag, from) {
      AbsentReplace(s, tag, to, from + |tag|, c);
      AbsentConcat(to, ReplaceFrom(s, tag, to, from + |tag|), c);
    } else {
      AbsentReplace(s, tag, to, from + 1, c);
      AbsentSlice(s, from, from + 1, c);
      assert s[from..from + 1] == [s[from]];
      AbsentConcat([s[from]], ReplaceFrom(s, tag, to, from + 1), c);
    }
  }
}
