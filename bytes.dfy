/**
 * Bytes: the octet type that every buffer of the library is made of, and
 * the search specification that the library's substring search implements.
 *
 * A byte is a character below 256, so that protocol literals such as "c:"
 * can be written as they appear on the wire.
 */
module Bytes {

  type byte = c: char | c as int < 256

  type Bytes = seq<byte>

  const NUL: byte := 0 as char

  /** `tag` occurs in `s` starting at `i`. */
  predicate MatchAt(s: Bytes, tag: Bytes, i: int)
  {
    0 <= i && i + |tag| <= |s| && s[i..i + |tag|] == tag
  }

  /**
   * `r` is the least index at or after `from` at which `tag` occurs in `s`,
   * or -1 when there is none: the result every search routine of the
   * library promises.
   */
  ghost predicate FirstMatch(s: Bytes, tag: Bytes, from: int, r: int)
  {
    (r == -1 || (from <= r && MatchAt(s, tag, r))) &&
    forall j :: from <= j && (r == -1 || j < r) ==> !MatchAt(s, tag, j)
  }

  /** At most one index is the first match. */
  lemma FirstMatchUnique(s: Bytes, tag: Bytes, from: int, r1: int, r2: int)
    requires FirstMatch(s, tag, from, r1) && FirstMatch(s, tag, from, r2)
    ensures r1 == r2
  {
  }

  /** The first occurrence of a non-empty `tag` at or after `from`: the reference search. */
  function Find(s: Bytes, tag: Bytes, from: nat): (r: int)
    requires |tag| > 0
    ensures FirstMatch(s, tag, from, r)
    decreases |s| - from
  {
    if from + |tag| > |s| then -1
    else if s[from..from + |tag|] == tag then from
    else Find(s, tag, from + 1)
  }

  /** Whether the byte `b` occurs in `s`. */
  predicate Has(s: Bytes, b: byte)
  {
    exists i :: 0 <= i < |s| && s[i] == b
  }

  /** A byte occurs in a concatenation exactly when it occurs in one of the pieces. */
  lemma HasConcat(a: Bytes, b: Bytes, c: byte)
    ensures Has(a + b, c) <==> Has(a, c) || Has(b, c)
  {
    if Has(a + b, c) {
      var i :| 0 <= i < |a + b| && (a + b)[i] == c;
      if i < |a| {
        assert a[i] == c;
      } else {
        assert b[i - |a|] == c;
      }
    }
    if Has(a, c) {
      var i :| 0 <= i < |a| && a[i] == c;
      assert (a + b)[i] == c;
    }
    if Has(b, c) {
      var i :| 0 <= i < |b| && b[i] == c;
      assert (a + b)[|a| + i] == c;
    }
  }

  /**
   * The C string held by `s`: its bytes before the first NUL (all of `s`
   * when it holds none), as strlen measures it.
   */
  function CStr(s: Bytes): (r: Bytes)
    ensures |r| <= |s| && r == s[..|r|]
    ensures !Has(r, NUL)
    ensures |r| < |s| ==> s[|r|] == NUL
  {
    if |s| == 0 || s[0] == NUL then []
    else [s[0]] + CStr(s[1..])
  }

  /** `s` back to front, as std::reverse leaves it. */
  function Rev(s: Bytes): (r: Bytes)
    ensures |r| == |s|
    ensures forall i :: 0 <= i < |s| ==> r[i] == s[|s| - 1 - i]
  {
    if |s| == 0 then [] else Rev(s[1..]) + [s[0]]
  }

  /**
   * `r` is the greatest index at or before `upto` at which `tag` occurs in
   * `s`, or -1 when there is none.
   */
  ghost predicate LastMatch(s: Bytes, tag: Bytes, upto: int, r: int)
  {
    (r == -1 || (r <= upto && MatchAt(s, tag, r))) &&
    forall j :: r < j <= upto ==> !MatchAt(s, tag, j)
  }

  /** The strings listed in a sequence. */
  function Members(ids: seq<Bytes>): (r: set<Bytes>)
    ensures forall k :: 0 <= k < |ids| ==> ids[k] in r
    decreases |ids|
  {
    if |ids| == 0 then {} else Members(ids[..|ids| - 1]) + {ids[|ids| - 1]}
  }

  /** The suffix from `i`, cut `n` bytes in. */
  lemma SuffixSplit(s: Bytes, i: nat, n: nat)
    requires i + n <= |s|
    ensures s[i..][..n] == s[i..i + n] && s[i..][n..] == s[i + n..]
  { }
}
