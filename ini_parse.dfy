/**
 * Ini: IniParse, the in-memory editor for `[section]` / `key=value` text.
 *
 * The text is a String value held by the parser. A section `[p]` counts
 * only where its header starts a line and is followed by a newline; the
 * section runs to the next line that starts with `[`. A key is written
 * `section/child`; the child's value runs from after `child=` to the end
 * of its line.
 */
module Ini {
  import opened Bytes
  import opened General
  import opened ByteArrays
  import opened Strings

  const NL: byte := '\n'
  const CR: byte := '\r'
  /** The newline as a one-byte tag. */
  const Newline: Bytes := [NL]
  /** A line starting with `[`: where the next section begins. */
  const SectionStart: Bytes := [NL, '[']
  /** What splits a key into section and child. */
  const KeySep: Bytes := "/"
  /** What splits an item line into child and value. */
  const ItemSep: Bytes := "="

  /** The text a String can hold: no zero byte. */
  predicate IsText(s: Bytes)
  {
    !Has(s, NUL)
  }

  /** `"[" + parent + "]"`. */
  function Bracket(parent: Bytes): (r: Bytes)
    ensures |r| == |parent| + 2 && r[0] == '[' && r[|r| - 1] == ']'
  {
    "[" + parent + "]"
  }

  /** `"\n" + child + "="`, the marker of a child line. */
  function ChildTag(child: Bytes): (r: Bytes)
    ensures |r| == |child| + 2 && r[0] == NL && r[|r| - 1] == '='
  {
    Newline + child + ItemSep
  }

  /** `ext` occurs at `p`, at the start of a line, and a newline follows it. */
  predicate LineHeader(s: Bytes, ext: Bytes, p: int)
  {
    MatchAt(s, ext, p) && (p == 0 || s[p - 1] == NL) && AtOr(s, p + |ext|) == NL
  }

  /** The first header line `ext` at or after `from`, or -1. */
  function FindHeader(s: Bytes, ext: Bytes, from: nat): (r: int)
    requires |ext| > 0
    ensures r == -1 || (from <= r && LineHeader(s, ext, r))
    ensures forall j :: from <= j && (r == -1 || j < r) ==> !LineHeader(s, ext, j)
    decreases |s| - from
  {
    if from + |ext| > |s| then -1
    else if LineHeader(s, ext, from) then from
    else FindHeader(s, ext, from + 1)
  }

  /**
   * The do-while of parentPosRange, one round: searching from `from`
   * lands on the next occurrence; if that is no header line, the search
   * goes on after it.
   */
  lemma {:induction false} HeaderJump(s: Bytes, ext: Bytes, from: nat)
    requires |ext| > 0
    ensures var r := Find(s, ext, from);
            FindHeader(s, ext, from) == if r == -1 then -1 else if LineHeader(s, ext, r) then r else FindHeader(s, ext, r + 1)
    decreases |s| - from
  {
    var r := Find(s, ext, from);
    if from + |ext| <= |s| && r != from {
      HeaderJump(s, ext, from + 1);
    }
  }

  /** The do-while of parentPosRange at the occurrence `p`: the first header line is `p` or lies after it. */
  ghost predicate HeadersLeft(s: Bytes, ext: Bytes, p: int)
    requires |ext| > 0
  {
    (p == -1 || MatchAt(s, ext, p)) &&
    FindHeader(s, ext, 0) == if p == -1 then -1 else if LineHeader(s, ext, p) then p else FindHeader(s, ext, p + 1)
  }

  /** The loop test of parentPosRange, on an occurrence, is LineHeader. */
  lemma HeaderTest(s: Bytes, ext: Bytes, p: int)
    requires MatchAt(s, ext, p)
    ensures LineHeader(s, ext, p) <==> ((p == 0 || AtOr(s, p - 1) == NL) && AtOr(s, p + |ext|) == NL)
  {
  }

  /** An occurrence that is no header line sends the do-while on to the next one. */
  lemma HeaderNext(s: Bytes, ext: Bytes, p: int, q: int)
    requires |ext| > 0 && HeadersLeft(s, ext, p) && p != -1
    requires !((p == 0 || AtOr(s, p - 1) == NL) && AtOr(s, p + |ext|) == NL)
    requires q == Find(s, ext, p + 1)
    ensures HeadersLeft(s, ext, q) && (q == -1 || p < q)
  {
    HeaderTest(s, ext, p);
    assert FindHeader(s, ext, 0) == FindHeader(s, ext, p + 1);
    HeaderJump(s, ext, p + 1);
  }

  /**
   * The do-while of parentPosRange: from one occurrence of `ext` to the
   * next until one starts a line and is followed by a newline.
   */
  method HeaderSearch(s: Bytes, ext: Bytes) returns (p: int)
    requires |ext| > 0
    ensures p == FindHeader(s, ext, 0)
  {
    p := Search(s, ext, 0);
    HeaderJump(s, ext, 0);
    while p != -1 && !((p == 0 || AtOr(s, p - 1) == NL) && AtOr(s, p + |ext|) == NL)
      invariant HeadersLeft(s, ext, p)
      decreases if p == -1 then 0 else |s| + 1 - p
    {
      var q := Search(s, ext, p + 1);
      HeaderNext(s, ext, p, q);
      p := q;
    }
    if p != -1 {
      HeaderTest(s, ext, p);
    }
  }

  /** Where a section is: `[` of its header, the newline ending the header, and one past its last byte. */
  datatype Section = Absent | Section(offset: nat, index: nat, end: nat)

  /** parentPosRange: the first header line `[parent]` and the span of its section. */
  function ParentRange(s: Bytes, parent: Bytes): (r: Section)
    ensures r.Section? ==> r.offset + |Bracket(parent)| == r.index < r.end <= |s|
    ensures r.Section? ==> LineHeader(s, Bracket(parent), r.offset) && s[r.index] == NL
  {
    var ext := Bracket(parent);
    var p := FindHeader(s, ext, 0);
    if p == -1 then Absent
    else
      var i := p + |ext|;
      var e := Find(s, SectionStart, i);
      Section(p, i, if e == -1 then |s| else e + 1)
  }

  /** The section found is the first header line `[parent]`, and there is none when it is absent. */
  lemma ParentRangeIsFirstHeader(s: Bytes, parent: Bytes)
    ensures ParentRange(s, parent).Absent? <==> forall j :: !LineHeader(s, Bracket(parent), j)
    ensures ParentRange(s, parent).Section? ==>
      forall j :: 0 <= j < ParentRange(s, parent).offset ==> !LineHeader(s, Bracket(parent), j)
  {
    var r := ParentRange(s, parent);
    if r.Section? {
      assert LineHeader(s, Bracket(parent), r.offset);
    } else {
      forall j ensures !LineHeader(s, Bracket(parent), j) {
        if j >= 0 {
          assert FindHeader(s, Bracket(parent), 0) == -1;
        }
      }
    }
  }

  /** The section ends before the next line starting with `[`, or at the end of the text. */
  lemma ParentRangeEnd(s: Bytes, parent: Bytes)
    requires ParentRange(s, parent).Section?
    ensures var r := ParentRange(s, parent);
            (r.end == |s| || (s[r.end - 1] == NL && s[r.end] == '[')) &&
            forall j :: r.index <= j < r.end - 1 ==> !MatchAt(s, SectionStart, j)
  {
    var r := ParentRange(s, parent);
    var e := Find(s, SectionStart, r.index);
    if e != -1 {
      assert s[e..e + 2] == SectionStart;
      assert s[e] == NL && s[e + 1] == '[';
    }
  }

  /** `ext` is a header line at `p` and at no earlier position. */
  ghost predicate FirstHeader(s: Bytes, ext: Bytes, p: nat)
  {
    LineHeader(s, ext, p) && forall j :: 0 <= j < p ==> !LineHeader(s, ext, j)
  }

  /** `sec` spans the first header line `ext` and what follows it up to `er`, the first `\n[` after the header, or -1. */
  ghost predicate SectionAt(s: Bytes, ext: Bytes, sec: Section, er: int)
  {
    sec.Section? && sec.offset + |ext| == sec.index < sec.end <= |s| && FirstHeader(s, ext, sec.offset) &&
    FirstMatch(s, SectionStart, sec.index, er) && sec.end == (if er == -1 then |s| else er + 1)
  }

  /** ParentRange from the two searches it makes. */
  lemma ParentRangeIs(s: Bytes, parent: Bytes, sec: Section, er: int)
    requires SectionAt(s, Bracket(parent), sec, er)
    ensures ParentRange(s, parent) == sec
  {
    var ext := Bracket(parent);
    var r := FindHeader(s, ext, 0);
    assert r == sec.offset by {
      assert LineHeader(s, ext, sec.offset);
    }
    FirstMatchUnique(s, SectionStart, sec.index, Find(s, SectionStart, sec.index), er);
  }

  /** The searches behind a section ParentRange finds. */
  lemma ParentRangeParts(s: Bytes, parent: Bytes) returns (er: int)
    requires ParentRange(s, parent).Section?
    ensures SectionAt(s, Bracket(parent), ParentRange(s, parent), er)
  {
    ParentRangeIsFirstHeader(s, parent);
    er := Find(s, SectionStart, ParentRange(s, parent).index);
  }

  /** The outcome of valueIndex. */
  datatype Slot =
    | FormatError
    | NoParent(at: nat)
    | NoChild(at: nat)
    | Found(child: nat, valOffset: nat, valEnd: nat)

  /**
   * valueIndex: the key must split at `/` into exactly two parts; the
   * child is looked for only inside its section, and its value runs to
   * the next newline of the section or to the section's end.
   */
  function Locate(s: Bytes, key: Bytes): (r: Slot)
    ensures r.NoParent? ==> r.at == |s|
    ensures r.NoChild? ==> r.at <= |s|
    ensures r.Found? ==> 0 < r.child <= r.valOffset <= r.valEnd <= |s|
  {
    var keys := SplitParts(key, KeySep);
    if |keys| != 2 then FormatError
    else match ParentRange(s, keys[0])
      case Absent => NoParent(|s|)
      case Section(_, i, e) =>
        var range := s[i..e];
        var ce := ChildTag(keys[1]);
        var ci := Find(range, ce, 0);
        if ci == -1 then NoChild(e)
        else
          var ce2 := Find(range, Newline, ci + |ce|);
          Found(i + ci + 1, i + ci + |ce|, i + if ce2 == -1 then |range| else ce2)
  }

  /** value: the bytes of the located value, or `failVal`. */
  function ValueOf(s: Bytes, key: Bytes, failVal: Bytes): (r: Bytes)
    ensures |SplitParts(key, KeySep)| != 2 ==> r == failVal
    ensures Locate(s, key).Found? ==> !Has(r, NL)
  {
    match Locate(s, key)
    case Found(_, vo, ve) => FoundIsValueLine(s, key); s[vo..ve]
    case _ => failVal
  }

  /** The result of an editing call: its status and the new text. */
  datatype Edited = Edited(ok: bool, text: Bytes)

  /**
   * setValue: a located value is replaced in place; a missing child is
   * inserted at its section's end, a missing section appended with it.
   * Only a malformed key is refused, and it leaves the text alone.
   */
  function AfterSet(s: Bytes, key: Bytes, val: Bytes): (r: Edited)
    ensures r.ok <==> |SplitParts(key, KeySep)| == 2
    ensures !r.ok ==> r.text == s
  {
    var keys := SplitParts(key, KeySep);
    match Locate(s, key)
    case FormatError => Edited(false, s)
    case Found(_, vo, ve) => Edited(true, Change(s, val, vo, ve - vo))
    case NoParent(at) => Edited(true, Change(s, Bracket(keys[0]) + Newline + keys[1] + ItemSep + val + Newline, at, 0))
    case NoChild(at) => Edited(true, Change(s, keys[1] + ItemSep + val + Newline, at, 0))
  }

  /**
   * cleanItem as it is written: the status of valueIndex is kept in a
   * `bool`, so a present key reads as `false` (status 0), every other
   * status as `true`, and neither equals the format-error status 3. The
   * located item goes together with the newline before it, and the call
   * reports success whatever the key.
   */
  function CleanItemAsWritten(s: Bytes, key: Bytes): (r: Edited)
    ensures r.ok
    ensures |r.text| <= |s| && (!Locate(s, key).Found? ==> r.text == s)
  {
    match Locate(s, key)
    case Found(c, _, ve) => Edited(true, Change(s, [], c - 1, ve - c + 1))
    case _ => Edited(true, s)
  }

  /**
   * cleanItem as its format-error branch intends: the same edit, but a
   * malformed key is reported as a failure.
   */
  function AfterCleanItem(s: Bytes, key: Bytes): (r: Edited)
    ensures r.ok <==> |SplitParts(key, KeySep)| == 2
    ensures r.text == CleanItemAsWritten(s, key).text
  {
    match Locate(s, key)
    case FormatError => Edited(false, s)
    case Found(c, _, ve) => Edited(true, Change(s, [], c - 1, ve - c + 1))
    case _ => Edited(true, s)
  }

  /** The two readings of cleanItem differ on every malformed key, such as `a`. */
  lemma CleanItemStatusLost(s: Bytes)
    ensures CleanItemAsWritten(s, "a").ok && !AfterCleanItem(s, "a").ok
  {
    assert "a"[0..1][0] != KeySep[0];
    assert PartsFrom("a", KeySep, 1, 0) == ["a"];
  }

  /** cleanParent: the whole section, header included, is cut out; an absent section leaves the text alone. */
  function AfterCleanParent(s: Bytes, parent: Bytes): (r: Bytes)
    ensures ParentRange(s, parent).Section? ==> |r| == |s| - (ParentRange(s, parent).end - ParentRange(s, parent).offset)
    ensures ParentRange(s, parent).Absent? ==> r == s
  {
    match ParentRange(s, parent)
    case Section(o, _, e) => Change(s, [], o, e - o)
    case Absent => s
  }

  /** String::indexOf on the text: the library's search. */
  method Search(s: Bytes, tag: Bytes, from: nat) returns (r: int)
    requires |tag| > 0
    ensures r == Find(s, tag, from)
  {
    var next := KmpGetNext(tag);
    r := KmpSearch(s, tag, next, from);
    FirstMatchUnique(s, tag, from, r, Find(s, tag, from));
  }

  // ---------------------------------------------------------------------
  // Searches in edited texts
  // ---------------------------------------------------------------------

  lemma SameSlice(s: Bytes, t: Bytes, k: nat, i: nat, j: nat)
    requires k <= |s| && k <= |t| && s[..k] == t[..k] && i <= j <= k
    ensures s[i..j] == t[i..j]
  {
    forall p | 0 <= p < j - i ensures s[i..j][p] == t[i..j][p] {
      assert s[i + p] == s[..k][i + p] == t[..k][i + p] == t[i + p];
    }
  }

  /** A match found inside a prefix two texts share is found in both. */
  lemma FindPrefix(s: Bytes, t: Bytes, tag: Bytes, from: nat, k: nat, r: int)
    requires |tag| > 0 && k <= |s| && k <= |t| && s[..k] == t[..k]
    requires FirstMatch(s, tag, from, r) && r != -1 && r + |tag| <= k
    ensures FirstMatch(t, tag, from, r)
  {
    SameSlice(s, t, k, r, r + |tag|);
    forall j | from <= j < r ensures !MatchAt(t, tag, j) {
      assert !MatchAt(s, tag, j);
      SameSlice(s, t, k, j, j + |tag|);
    }
  }

  /** The first header line stays first when the bytes up to just past it are kept. */
  lemma HeaderPrefix(s: Bytes, t: Bytes, ext: Bytes, k: nat, p: nat)
    requires |ext| > 0 && k <= |s| && k <= |t| && s[..k] == t[..k]
    requires FirstHeader(s, ext, p) && p + |ext| < k
    ensures FirstHeader(t, ext, p)
  {
    forall j | 0 <= j <= p ensures LineHeader(t, ext, j) <==> LineHeader(s, ext, j) {
      SameSlice(s, t, k, j, j + |ext|);
      assert s[j + |ext|] == s[..k][j + |ext|] == t[..k][j + |ext|] == t[j + |ext|];
      if j > 0 {
        assert s[j - 1] == s[..k][j - 1] == t[..k][j - 1] == t[j - 1];
      }
    }
  }

  /**
   * Replacing a newline-free stretch `x` by a newline-free `y` moves every
   * later match of a tag that starts with a newline by the length change,
   * provided no match starts in `A`.
   */
  lemma FindShift(A: Bytes, x: Bytes, y: Bytes, B: Bytes, tag: Bytes, from: nat, r: int, r': int)
    requires 1 <= |tag| <= 2 && tag[0] == NL
    requires from <= |A| && (from == |A| || |tag| == 1 || A[|A| - 1] != NL)
    requires !Has(x, NL) && !Has(y, NL)
    requires FirstMatch(A + x + B, tag, from, r) && (r == -1 || r >= |A| + |x|)
    requires r' == if r == -1 then -1 else r - |x| + |y|
    ensures FirstMatch(A + y + B, tag, from, r')
  {
    var s, t := A + x + B, A + y + B;
    if r != -1 {
      TailSlice(A, x, B, r, |tag|);
      TailSlice(A, y, B, r', |tag|);
    }
    forall j | from <= j && (r' == -1 || j < r') ensures !MatchAt(t, tag, j) {
      if j + |tag| <= |A| {
        MatchInHead(A, x, y, B, tag, j);
      } else if j >= |A| + |y| {
        MatchInTail(A, x, y, B, tag, j);
      } else {
        NoStraddle(A, y, B, tag, from, j);
      }
    }
  }

  /** A match before the replaced stretch is a match of the old text. */
  lemma MatchInHead(A: Bytes, x: Bytes, y: Bytes, B: Bytes, tag: Bytes, j: nat)
    requires j + |tag| <= |A|
    ensures MatchAt(A + y + B, tag, j) ==> MatchAt(A + x + B, tag, j)
  {
    HeadSlice(A, x, B, j, |tag|);
    HeadSlice(A, y, B, j, |tag|);
  }

  /** A match after the replaced stretch is a match of the old text, moved by the length change. */
  lemma MatchInTail(A: Bytes, x: Bytes, y: Bytes, B: Bytes, tag: Bytes, j: nat)
    requires j >= |A| + |y|
    ensures MatchAt(A + y + B, tag, j) ==> MatchAt(A + x + B, tag, j - |y| + |x|)
  {
    if MatchAt(A + y + B, tag, j) {
      TailSlice(A, y, B, j, |tag|);
      TailSlice(A, x, B, j - |y| + |x|, |tag|);
    }
  }

  /** A tag of at most two bytes that starts with a newline cannot start in a newline-free `y` or end in it. */
  lemma NoStraddle(A: Bytes, y: Bytes, B: Bytes, tag: Bytes, from: nat, j: nat)
    requires 1 <= |tag| <= 2 && tag[0] == NL && !Has(y, NL)
    requires from <= |A| && (from == |A| || |tag| == 1 || A[|A| - 1] != NL)
    requires from <= j < |A| + |y| && j + |tag| > |A|
    ensures !MatchAt(A + y + B, tag, j)
  {
  }

  /** FindShift for a text `s` whose stretch `s[a..b]` is replaced by `y`. */
  lemma Reshift(s: Bytes, t: Bytes, a: nat, b: nat, y: Bytes, tag: Bytes, from: nat, r: int, r': int)
    requires a <= b <= |s| && t == s[..a] + y + s[b..]
    requires 1 <= |tag| <= 2 && tag[0] == NL
    requires from <= a && (from == a || |tag| == 1 || s[a - 1] != NL)
    requires !Has(s[a..b], NL) && !Has(y, NL)
    requires FirstMatch(s, tag, from, r) && (r == -1 || r >= b)
    requires r' == if r == -1 then -1 else r - (b - a) + |y|
    ensures FirstMatch(t, tag, from, r')
  {
    Split3(s, a, b);
    FindShift(s[..a], s[a..b], y, s[b..], tag, from, r, r');
  }

  lemma Split3(s: Bytes, a: nat, b: nat)
    requires a <= b <= |s|
    ensures s == s[..a] + s[a..b] + s[b..] && |s[..a]| == a
    ensures a > 0 ==> s[..a][a - 1] == s[a - 1]
  {
  }

  /** Two-piece forms of HeadSlice and TailSlice. */
  lemma HeadSlice2(A: Bytes, B: Bytes, j: nat, n: nat)
    requires j + n <= |A|
    ensures (A + B)[j..j + n] == A[j..j + n]
  {
  }

  lemma TailSlice2(A: Bytes, B: Bytes, j: nat, n: nat)
    requires |A| <= j && j + n <= |A| + |B|
    ensures (A + B)[j..j + n] == B[j - |A|..j - |A| + n]
  {
  }

  /**
   * Inserting a line break followed by a newline-free text that does not
   * start with `[` creates no `\n[` and moves every later one by its length.
   */
  lemma FindInsert(A: Bytes, y: Bytes, T: Bytes, from: nat, r: int, r': int)
    requires from <= |A| && 2 <= |y| && y[0] == NL && y[1] != '[' && !Has(y[1..], NL)
    requires FirstMatch(A + T, SectionStart, from, r) && (r == -1 || r >= |A|)
    requires r' == if r == -1 then -1 else r + |y|
    ensures FirstMatch(A + y + T, SectionStart, from, r')
  {
    var s, t := A + T, A + y + T;
    if r != -1 {
      TailSlice(A, y, T, r', 2);
      TailSlice2(A, T, r, 2);
    }
    forall j | from <= j && (r' == -1 || j < r') ensures !MatchAt(t, SectionStart, j) {
      if j + 2 <= |t| {
        if j + 2 <= |A| {
          HeadSlice(A, y, T, j, 2);
          HeadSlice2(A, T, j, 2);
          assert !MatchAt(s, SectionStart, j);
        } else if j >= |A| + |y| {
          TailSlice(A, y, T, j, 2);
          TailSlice2(A, T, j - |y|, 2);
          assert !MatchAt(s, SectionStart, j - |y|);
        } else {
          InsertedNoStart(A, y, T, j);
        }
      }
    }
  }

  /** No `\n[` starts inside or just before an inserted `y` that is a newline and then a text without `[` first or newlines. */
  lemma InsertedNoStart(A: Bytes, y: Bytes, T: Bytes, j: nat)
    requires 2 <= |y| && y[0] == NL && y[1] != '[' && !Has(y[1..], NL)
    requires |A| < j + 2 && j < |A| + |y| && j + 2 <= |A| + |y| + |T|
    ensures !MatchAt(A + y + T, SectionStart, j)
  {
    var t := A + y + T;
    assert t[j..j + 2] == [t[j], t[j + 1]];
    if j + 1 == |A| {
      assert t[j + 1] == y[0];
    } else if j == |A| {
      assert t[j + 1] == y[1];
    } else {
      assert t[j] == y[j - |A|] == y[1..][j - |A| - 1];
    }
  }

  lemma HeadSlice(A: Bytes, x: Bytes, B: Bytes, j: nat, n: nat)
    requires j + n <= |A|
    ensures (A + x + B)[j..j + n] == A[j..j + n]
  {
  }

  lemma TailSlice(A: Bytes, x: Bytes, B: Bytes, j: nat, n: nat)
    requires |A| + |x| <= j && j + n <= |A| + |x| + |B|
    ensures (A + x + B)[j..j + n] == B[j - |A| - |x|..j - |A| - |x| + n]
  {
  }

  /** No newline lies between `from` and the first newline at or after it. */
  lemma NoNewlineUntil(s: Bytes, from: nat, r: int)
    requires from <= |s| && FirstMatch(s, Newline, from, r)
    ensures r == -1 || from <= r < |s|
    ensures !Has(s[from..if r == -1 then |s| else r], NL)
  {
    var end := if r == -1 then |s| else r;
    if Has(s[from..end], NL) {
      var p :| 0 <= p < end - from && s[from..end][p] == NL;
      assert s[from + p..from + p + 1] == [NL];
      assert MatchAt(s, Newline, from + p);
    }
  }

  /**
   * Inside a section: replacing the value after the first `ce` by a
   * newline-free `val` keeps that first match and moves the end of the
   * value line to the end of `val`.
   */
  lemma ValueChange(range: Bytes, ce: Bytes, val: Bytes, ci: int, c2: int)
    requires |ce| > 0 && FirstMatch(range, ce, 0, ci) && ci != -1
    requires FirstMatch(range, Newline, ci + |ce|, c2) && !Has(val, NL)
    ensures var ve := if c2 == -1 then |range| else c2;
            var range' := range[..ci + |ce|] + val + range[ve..];
            FirstMatch(range', ce, 0, ci) &&
            FirstMatch(range', Newline, ci + |ce|, if c2 == -1 then -1 else ci + |ce| + |val|)
  {
    var k := ci + |ce|;
    NoNewlineUntil(range, k, c2);
    var ve := if c2 == -1 then |range| else c2;
    var range' := range[..k] + val + range[ve..];
    assert range'[..k] == range[..k];
    FindPrefix(range, range', ce, 0, k, ci);
    assert range == range[..k] + range[k..ve] + range[ve..];
    FindShift(range[..k], range[k..ve], val, range[ve..], Newline, k, c2, if c2 == -1 then -1 else k + |val|);
  }

  /** A value line ends before the section's closing `\n[`. */
  lemma ValueBeforeEnd(s: Bytes, i: nat, e: nat, ce: Bytes, ci: int, c2: int, er: int)
    requires i <= e <= |s| && |ce| > 0 && ce[|ce| - 1] != NL
    requires FirstMatch(s, SectionStart, i, er) && e == (if er == -1 then |s| else er + 1)
    requires MatchAt(s[i..e], ce, ci) && FirstMatch(s[i..e], Newline, ci + |ce|, c2)
    ensures er == -1 || (c2 != -1 && i + c2 <= er)
  {
    var range := s[i..e];
    if er != -1 {
      assert s[er..er + 2] == SectionStart;
      assert s[er] == s[er..er + 2][0] == NL;
      assert |range| == er + 1 - i && range[|range| - 1] == s[er];
      assert range[ci + |ce| - 1] == range[ci..ci + |ce|][|ce| - 1] == ce[|ce| - 1];
      assert range[|range| - 1..|range|] == Newline;
      assert MatchAt(range, Newline, |range| - 1);
    }
  }

  /**
   * Replacing a newline-free stretch inside a section's body, after a
   * byte that is no newline, keeps the section and moves its end by the
   * length change.
   */
  lemma SectionAfterValue(s: Bytes, t: Bytes, ext: Bytes, sec: Section, er: int, vo: nat, ve: nat, val: Bytes, er': int)
    requires |ext| > 0 && SectionAt(s, ext, sec, er)
    requires sec.index < vo <= ve <= |s| && s[vo - 1] != NL
    requires !Has(s[vo..ve], NL) && !Has(val, NL) && (er == -1 || ve <= er)
    requires t == s[..vo] + val + s[ve..] && er' == if er == -1 then -1 else er - (ve - vo) + |val|
    ensures SectionAt(t, ext, Section(sec.offset, sec.index, sec.end - (ve - vo) + |val|), er')
  {
    HeaderPrefix(s, t, ext, vo, sec.offset);
    Reshift(s, t, vo, ve, val, SectionStart, sec.index, er, er');
  }

  /** Locate from the searches it makes: a section, then a child tag in it and the newline after it. */
  lemma LocateIs(s: Bytes, key: Bytes, sec: Section, er: int, ci: int, c2: int, child: nat, vo: nat, ve: nat)
    requires |SplitParts(key, KeySep)| == 2 && SectionAt(s, Bracket(SplitParts(key, KeySep)[0]), sec, er)
    requires FirstMatch(s[sec.index..sec.end], ChildTag(SplitParts(key, KeySep)[1]), 0, ci) && ci != -1
    requires FirstMatch(s[sec.index..sec.end], Newline, ci + |ChildTag(SplitParts(key, KeySep)[1])|, c2)
    requires child == sec.index + ci + 1 && vo == sec.index + ci + |ChildTag(SplitParts(key, KeySep)[1])|
    requires ve == sec.index + if c2 == -1 then sec.end - sec.index else c2
    ensures Locate(s, key) == Found(child, vo, ve)
  {
    var range := s[sec.index..sec.end];
    var ce := ChildTag(SplitParts(key, KeySep)[1]);
    ParentRangeIs(s, SplitParts(key, KeySep)[0], sec, er);
    FirstMatchUnique(range, ce, 0, Find(range, ce, 0), ci);
    FirstMatchUnique(range, Newline, ci + |ce|, Find(range, Newline, ci + |ce|), c2);
  }

  /** The searches Locate makes for `parent/name`: the section, the child tag at `ci` and the line end at `c2`. */
  ghost predicate SlotAt(s: Bytes, parent: Bytes, name: Bytes, sec: Section, er: int, ci: int, c2: int)
  {
    SectionAt(s, Bracket(parent), sec, er) && sec.index <= sec.end <= |s| &&
    FirstMatch(s[sec.index..sec.end], ChildTag(name), 0, ci) &&
    FirstMatch(s[sec.index..sec.end], Newline, ci + |name| + 2, c2)
  }

  /** LocateIs with the two halves of the key named. */
  lemma LocateIsParts(s: Bytes, key: Bytes, parent: Bytes, name: Bytes, sec: Section, er: int, ci: int, c2: int, child: nat, vo: nat, ve: nat)
    requires |SplitParts(key, KeySep)| == 2 && parent == SplitParts(key, KeySep)[0] && name == SplitParts(key, KeySep)[1]
    requires SlotAt(s, parent, name, sec, er, ci, c2) && ci != -1
    requires child == sec.index + ci + 1 && vo == sec.index + ci + |name| + 2
    requires ve == sec.index + if c2 == -1 then sec.end - sec.index else c2
    ensures Locate(s, key) == Found(child, vo, ve)
  {
    LocateIs(s, key, sec, er, ci, c2, child, vo, ve);
  }

  /** The section body of a text whose stretch `s[a..b]` inside it is replaced by `y`. */
  lemma ChangeInside(s: Bytes, a: nat, b: nat, y: Bytes, i: nat, e: nat, e': nat, k: nat, m: nat)
    requires a == i + k && b == i + m && i <= a <= b <= e <= |s| && e' == e - (b - a) + |y|
    ensures (s[..a] + y + s[b..])[i..e'] == s[i..e][..k] + y + s[i..e][m..]
  {
  }

  /** The value a child tag leads to inside `s[i..e]`: after a byte that is no newline, and newline-free. */
  lemma ValueShape(s: Bytes, i: nat, e: nat, ce: Bytes, ci: int, c2: int, vo: nat, ve: nat)
    requires i <= e <= |s| && |ce| > 0 && ce[|ce| - 1] != NL
    requires MatchAt(s[i..e], ce, ci) && FirstMatch(s[i..e], Newline, ci + |ce|, c2)
    requires vo == i + ci + |ce| && ve == i + (if c2 == -1 then e - i else c2)
    ensures i < vo <= ve <= e && s[vo - 1] != NL && !Has(s[vo..ve], NL)
  {
    var range := s[i..e];
    var k := ci + |ce|;
    NoNewlineUntil(range, k, c2);
    forall p | 0 <= p < ve - vo ensures s[vo..ve][p] == range[k..ve - i][p] {
    }
    assert s[vo..ve] == range[k..ve - i];
    assert s[vo - 1] == range[k - 1] == range[ci..k][|ce| - 1];
  }

  /** ValueChange stated on the whole text. */
  lemma ValueChangeAt(s: Bytes, val: Bytes, i: nat, e: nat, e': nat, ce: Bytes, ci: int, c2: int, c2': int, vo: nat, ve: nat)
    requires i <= e <= |s| && |ce| > 0 && !Has(val, NL)
    requires FirstMatch(s[i..e], ce, 0, ci) && ci != -1 && FirstMatch(s[i..e], Newline, ci + |ce|, c2)
    requires vo == i + ci + |ce| && ve == i + (if c2 == -1 then e - i else c2) && e' == e - (ve - vo) + |val|
    requires c2' == if c2 == -1 then -1 else ci + |ce| + |val|
    ensures ve <= e
    ensures FirstMatch((s[..vo] + val + s[ve..])[i..e'], ce, 0, ci)
    ensures FirstMatch((s[..vo] + val + s[ve..])[i..e'], Newline, ci + |ce|, c2')
  {
    var range := s[i..e];
    ValueChange(range, ce, val, ci, c2);
    ChangeInside(s, vo, ve, val, i, e, e', ci + |ce|, if c2 == -1 then |range| else c2);
  }

  /** SetFoundLocate on the searches Locate makes in `s`. */
  lemma SetFoundAt(s: Bytes, key: Bytes, val: Bytes, sec: Section, er: int, ci: int, c2: int, vo: nat, ve: nat)
    requires |SplitParts(key, KeySep)| == 2 && !Has(val, NL)
    requires SectionAt(s, Bracket(SplitParts(key, KeySep)[0]), sec, er)
    requires FirstMatch(s[sec.index..sec.end], ChildTag(SplitParts(key, KeySep)[1]), 0, ci) && ci != -1
    requires FirstMatch(s[sec.index..sec.end], Newline, ci + |ChildTag(SplitParts(key, KeySep)[1])|, c2)
    requires vo == sec.index + ci + |ChildTag(SplitParts(key, KeySep)[1])|
    requires ve == sec.index + if c2 == -1 then sec.end - sec.index else c2
    ensures Locate(s[..vo] + val + s[ve..], key) == Found(sec.index + ci + 1, vo, vo + |val|)
  {
    var keys := SplitParts(key, KeySep);
    var ce := ChildTag(keys[1]);
    var i, e := sec.index, sec.end;
    var s' := s[..vo] + val + s[ve..];
    ValueShape(s, i, e, ce, ci, c2, vo, ve);
    ValueBeforeEnd(s, i, e, ce, ci, c2, er);
    var er' := if er == -1 then -1 else er - (ve - vo) + |val|;
    SectionAfterValue(s, s', Bracket(keys[0]), sec, er, vo, ve, val, er');
    var e' := e - (ve - vo) + |val|;
    var c2' := if c2 == -1 then -1 else ci + |ce| + |val|;
    ValueChangeAt(s, val, i, e, e', ce, ci, c2, c2', vo, ve);
    LocateIs(s', key, Section(sec.offset, i, e'), er', ci, c2', i + ci + 1, vo, vo + |val|);
  }

  /** The searches behind a Found slot. */
  lemma FoundSearches(s: Bytes, key: Bytes, child: nat, vo: nat, ve: nat) returns (sec: Section, er: int, ci: int, c2: int)
    requires Locate(s, key) == Found(child, vo, ve)
    ensures |SplitParts(key, KeySep)| == 2
    ensures SectionAt(s, Bracket(SplitParts(key, KeySep)[0]), sec, er)
    ensures FirstMatch(s[sec.index..sec.end], ChildTag(SplitParts(key, KeySep)[1]), 0, ci) && ci != -1
    ensures FirstMatch(s[sec.index..sec.end], Newline, ci + |ChildTag(SplitParts(key, KeySep)[1])|, c2)
    ensures child == sec.index + ci + 1 && vo == sec.index + ci + |ChildTag(SplitParts(key, KeySep)[1])|
    ensures ve == sec.index + if c2 == -1 then sec.end - sec.index else c2
  {
    var keys := SplitParts(key, KeySep);
    var ce := ChildTag(keys[1]);
    sec := ParentRange(s, keys[0]);
    er := ParentRangeParts(s, keys[0]);
    var range := s[sec.index..sec.end];
    ci := Find(range, ce, 0);
    c2 := Find(range, Newline, ci + |ce|);
  }

  /**
   * What a Found slot means: the child's line starts after a newline with
   * `child=`, and the value is the rest of that line, newline-free and
   * ended by a newline or by the end of the text.
   */
  lemma FoundIsValueLine(s: Bytes, key: Bytes)
    requires Locate(s, key).Found?
    ensures s[Locate(s, key).child - 1] == NL
    ensures s[Locate(s, key).child..Locate(s, key).valOffset] == SplitParts(key, KeySep)[1] + ItemSep
    ensures !Has(s[Locate(s, key).valOffset..Locate(s, key).valEnd], NL)
    ensures Locate(s, key).valEnd == |s| || s[Locate(s, key).valEnd] == NL
  {
    var c, vo, ve := Locate(s, key).child, Locate(s, key).valOffset, Locate(s, key).valEnd;
    var sec, er, ci, c2 := FoundSearches(s, key, c, vo, ve);
    var ce := ChildTag(SplitParts(key, KeySep)[1]);
    ValueLineAt(s, sec.index, sec.end, ce, er, ci, c2, c, vo, ve);
    assert ce[1..] == SplitParts(key, KeySep)[1] + ItemSep;
  }

  /** FoundIsValueLine on the searches Locate makes. */
  lemma ValueLineAt(s: Bytes, i: nat, e: nat, ce: Bytes, er: int, ci: int, c2: int, c: nat, vo: nat, ve: nat)
    requires i <= e <= |s| && |ce| >= 2 && ce[0] == NL && ce[|ce| - 1] != NL
    requires FirstMatch(s, SectionStart, i, er) && e == (if er == -1 then |s| else er + 1)
    requires MatchAt(s[i..e], ce, ci) && FirstMatch(s[i..e], Newline, ci + |ce|, c2)
    requires c == i + ci + 1 && vo == i + ci + |ce| && ve == i + (if c2 == -1 then e - i else c2)
    ensures 0 < c <= vo <= ve <= |s| && s[c - 1] == NL && s[c..vo] == ce[1..]
    ensures !Has(s[vo..ve], NL) && (ve == |s| || s[ve] == NL)
  {
    var range := s[i..e];
    ValueShape(s, i, e, ce, ci, c2, vo, ve);
    ValueBeforeEnd(s, i, e, ce, ci, c2, er);
    assert s[c - 1..vo] == range[ci..ci + |ce|] == ce;
    assert s[c - 1] == s[c - 1..vo][0];
    assert s[c..vo] == s[c - 1..vo][1..];
    if c2 != -1 {
      assert s[ve] == range[c2] == range[c2..c2 + 1][0];
    }
  }

  /** A located value replaced by a newline-free `val` is located again, holding `val`. */
  lemma SetFoundLocate(s: Bytes, key: Bytes, val: Bytes, child: nat, vo: nat, ve: nat)
    requires !Has(val, NL) && Locate(s, key) == Found(child, vo, ve)
    ensures ReadsAt(Change(s, val, vo, ve - vo), key, val, child, vo)
  {
    var sec, er, ci, c2 := FoundSearches(s, key, child, vo, ve);
    SetFoundAt(s, key, val, sec, er, ci, c2, vo, ve);
    ChangeWithin(s, val, vo, ve);
    assert (s[..vo] + val + s[ve..])[vo..vo + |val|] == val;
    ReadsAtIntro(Change(s, val, vo, ve - vo), key, val, child, vo);
  }

  // ---------------------------------------------------------------------
  // setValue on a missing child
  // ---------------------------------------------------------------------

  /** The text is empty or its last line is ended. */
  predicate EndsLine(s: Bytes)
  {
    |s| == 0 || s[|s| - 1] == NL
  }

  /** A child name that setValue can write as a line of its own: no newline, no leading `[`. */
  predicate ChildLine(child: Bytes)
  {
    !Has(child, NL) && (|child| == 0 || child[0] != '[')
  }

  /** The line `child=val` is newline-free and does not start with `[`. */
  lemma ItemLine(child: Bytes, val: Bytes)
    requires ChildLine(child) && !Has(val, NL)
    ensures var l := child + ItemSep + val; |l| > 0 && l[0] != '[' && !Has(l, NL)
  {
    AbsentConcat(child, ItemSep, NL);
    AbsentConcat(child + ItemSep, val, NL);
  }

  /** Inserting a line at the end of a section that is ended by a newline. */
  lemma InsertLineForm(s: Bytes, e: nat, l: Bytes)
    requires 0 < e <= |s| && s[e - 1] == NL
    ensures s[..e] + (l + Newline) + s[e..] == s[..e - 1] + (Newline + l) + s[e - 1..]
    ensures s == s[..e - 1] + s[e - 1..] && (Newline + l)[1..] == l
  {
  }

  /** A new line at a section's end keeps the section, which then ends after that line. */
  lemma SectionAfterInsert(s: Bytes, t: Bytes, ext: Bytes, sec: Section, er: int, l: Bytes, er': int)
    requires |ext| > 0 && SectionAt(s, ext, sec, er) && s[sec.end - 1] == NL
    requires |l| > 0 && l[0] != '[' && !Has(l, NL)
    requires t == s[..sec.end] + (l + Newline) + s[sec.end..] && er' == if er == -1 then -1 else er + |l| + 1
    ensures SectionAt(t, ext, Section(sec.offset, sec.index, sec.end + |l| + 1), er')
  {
    var e := sec.end;
    assert t[..e] == s[..e];
    HeaderPrefix(s, t, ext, e, sec.offset);
    InsertLineForm(s, e, l);
    FindInsert(s[..e - 1], Newline + l, s[e - 1..], sec.index, er, er');
  }

  /** A child line appended to a section without that child is the first match of its tag. */
  lemma ChildAppended(range: Bytes, child: Bytes, val: Bytes)
    requires |range| > 0 && range[|range| - 1] == NL && !Has(child, NL)
    requires FirstMatch(range, ChildTag(child), 0, -1)
    ensures FirstMatch(range + (child + ItemSep + val + Newline), ChildTag(child), 0, |range| - 1)
  {
    var ins := child + ItemSep + val + Newline;
    var t, ce := range + ins, ChildTag(child);
    assert t[|range| - 1..|range| - 1 + |ce|] == ce;
    forall j | 0 <= j < |range| - 1 ensures !MatchAt(t, ce, j) {
      if j + |ce| > |range| {
        var d := |range| - 1 - j;
        assert ce[d] == child[d - 1];
        assert t[j..j + |ce|][d] == NL;
      } else {
        HeadSlice2(range, ins, j, |ce|);
        assert !MatchAt(range, ce, j);
      }
    }
  }

  /** The newline ending `val` is the first one after `A`. */
  lemma NewlineAfter(A: Bytes, val: Bytes)
    requires !Has(val, NL)
    ensures FirstMatch(A + val + Newline, Newline, |A|, |A| + |val|)
  {
    var t := A + val + Newline;
    assert t[|A| + |val|..|A| + |val| + 1] == Newline;
    forall j | |A| <= j < |A| + |val| ensures !MatchAt(t, Newline, j) {
      assert t[j..j + 1][0] == t[j] == val[j - |A|];
    }
  }

  /** The section body once the line `child=val` is appended to it: the child and its value are found there. */
  lemma ChildLineAt(s: Bytes, i: nat, e: nat, child: Bytes, val: Bytes, l: Bytes)
    requires i < e <= |s| && s[e - 1] == NL && !Has(child, NL) && !Has(val, NL) && l == child + ItemSep + val
    requires FirstMatch(s[i..e], ChildTag(child), 0, -1)
    ensures FirstMatch((s[..e] + (l + Newline) + s[e..])[i..e + |l| + 1], ChildTag(child), 0, e - i - 1)
    ensures FirstMatch((s[..e] + (l + Newline) + s[e..])[i..e + |l| + 1], Newline, e - i - 1 + |ChildTag(child)|, e - i + |child| + 1 + |val|)
  {
    var range := s[i..e];
    assert (s[..e] + (l + Newline) + s[e..])[i..e + |l| + 1] == range + (l + Newline);
    ChildAppended(range, child, val);
    NewlineAfter(range + child + ItemSep, val);
    assert range + child + ItemSep + val + Newline == range + (l + Newline);
  }

  /** The text once the line `child=val` is written at the end of section `sec` of `s`. */
  lemma NoChildText(s: Bytes, t: Bytes, ext: Bytes, sec: Section, er: int, child: Bytes, val: Bytes, l: Bytes, er': int, ci: int, c2: int)
    requires |ext| > 0 && SectionAt(s, ext, sec, er) && s[sec.end - 1] == NL
    requires ChildLine(child) && !Has(val, NL) && l == child + ItemSep + val
    requires t == s[..sec.end] + (l + Newline) + s[sec.end..] && er' == if er == -1 then -1 else er + |l| + 1
    requires FirstMatch(s[sec.index..sec.end], ChildTag(child), 0, -1)
    requires ci == sec.end - sec.index - 1 && c2 == sec.end - sec.index + |child| + 1 + |val|
    ensures SectionAt(t, ext, Section(sec.offset, sec.index, sec.end + |l| + 1), er')
    ensures FirstMatch(t[sec.index..sec.end + |l| + 1], ChildTag(child), 0, ci)
    ensures FirstMatch(t[sec.index..sec.end + |l| + 1], Newline, ci + |ChildTag(child)|, c2)
  {
    ItemLine(child, val);
    SectionAfterInsert(s, t, ext, sec, er, l, er');
    ChildLineAt(s, sec.index, sec.end, child, val, l);
  }

  /** NoChildText as the searches Locate makes. */
  lemma NoChildSlot(s: Bytes, t: Bytes, parent: Bytes, sec: Section, er: int, child: Bytes, val: Bytes, l: Bytes, er': int, ci: int, c2: int, sec': Section)
    requires SectionAt(s, Bracket(parent), sec, er) && s[sec.end - 1] == NL
    requires ChildLine(child) && !Has(val, NL) && l == child + ItemSep + val
    requires t == s[..sec.end] + (l + Newline) + s[sec.end..] && er' == if er == -1 then -1 else er + |l| + 1
    requires FirstMatch(s[sec.index..sec.end], ChildTag(child), 0, -1)
    requires ci == sec.end - sec.index - 1 && c2 == sec.end - sec.index + |child| + 1 + |val|
    requires sec' == Section(sec.offset, sec.index, sec.end + |l| + 1)
    ensures SlotAt(t, parent, child, sec', er', ci, c2)
  {
    NoChildText(s, t, Bracket(parent), sec, er, child, val, l, er', ci, c2);
  }

  /** SetNoChildLocate on the searches Locate makes in `s`. */
  lemma SetNoChildAt(s: Bytes, key: Bytes, val: Bytes, sec: Section, er: int, child: Bytes, e: nat, t: Bytes, vo: nat)
    requires |SplitParts(key, KeySep)| == 2 && child == SplitParts(key, KeySep)[1] && ChildLine(child) && !Has(val, NL)
    requires SectionAt(s, Bracket(SplitParts(key, KeySep)[0]), sec, er) && e == sec.end && s[e - 1] == NL
    requires FirstMatch(s[sec.index..sec.end], ChildTag(child), 0, -1)
    requires t == s[..e] + (child + ItemSep + val + Newline) + s[e..] && vo == e + |child| + 1
    ensures Locate(t, key) == Found(e, vo, vo + |val|)
  {
    var parent := SplitParts(key, KeySep)[0];
    var l := child + ItemSep + val;
    var er' := if er == -1 then -1 else er + |l| + 1;
    var ci, c2 := e - sec.index - 1, e - sec.index + |child| + 1 + |val|;
    var sec' := Section(sec.offset, sec.index, sec.end + |l| + 1);
    NoChildSlot(s, t, parent, sec, er, child, val, l, er', ci, c2, sec');
    LocateIsParts(t, key, parent, child, sec', er', ci, c2, e, vo, vo + |val|);
  }

  /** The searches behind a NoChild slot. */
  lemma NoChildSearches(s: Bytes, key: Bytes, e: nat) returns (sec: Section, er: int)
    requires EndsLine(s) && Locate(s, key) == NoChild(e)
    ensures |SplitParts(key, KeySep)| == 2 && SectionAt(s, Bracket(SplitParts(key, KeySep)[0]), sec, er)
    ensures e == sec.end && s[e - 1] == NL
    ensures FirstMatch(s[sec.index..sec.end], ChildTag(SplitParts(key, KeySep)[1]), 0, -1)
  {
    var keys := SplitParts(key, KeySep);
    sec := ParentRange(s, keys[0]);
    ParentRangeEnd(s, keys[0]);
    er := ParentRangeParts(s, keys[0]);
  }

  /** A missing child is written at its section's end and is then located with the value given. */
  lemma SetNoChildLocate(s: Bytes, key: Bytes, val: Bytes, child: Bytes, e: nat, c: nat, vo: nat)
    requires |SplitParts(key, KeySep)| == 2 && child == SplitParts(key, KeySep)[1] && ChildLine(child) && !Has(val, NL)
    requires EndsLine(s) && Locate(s, key) == NoChild(e) && c == e && vo == e + |child| + 1
    ensures ReadsAt(Change(s, child + ItemSep + val + Newline, e, 0), key, val, c, vo)
  {
    var sec, er := NoChildSearches(s, key, e);
    SetNoChildAt(s, key, val, sec, er, child, e, s[..e] + (child + ItemSep + val + Newline) + s[e..], vo);
    LocateAfterInsert(s, key, child + ItemSep + val + Newline, e, Found(c, vo, vo + |val|));
    InsertedValue(s, e, child + ItemSep, val, Newline, vo);
    ReadsAtIntro(Change(s, child + ItemSep + val + Newline, e, 0), key, val, c, vo);
  }

  /** Locate on an inserted text, written as the change that inserts it. */
  lemma LocateAfterInsert(s: Bytes, key: Bytes, ins: Bytes, e: nat, r: Slot)
    requires e <= |s| && Locate(s[..e] + ins + s[e..], key) == r
    ensures Locate(Change(s, ins, e, 0), key) == r
  {
    ChangeWithin(s, ins, e, e);
  }

  /** The value inside a line inserted at `at`. */
  lemma InsertedValue(s: Bytes, at: nat, pre: Bytes, val: Bytes, post: Bytes, vo: nat)
    requires at <= |s| && vo == at + |pre|
    ensures vo + |val| <= |Change(s, pre + val + post, at, 0)| && Change(s, pre + val + post, at, 0)[vo..vo + |val|] == val
  {
    var t := s[..at] + (pre + val + post) + s[at..];
    assert Change(s, pre + val + post, at, 0) == t;
    forall k | 0 <= k < |val| ensures t[at + |pre|..at + |pre| + |val|][k] == val[k] {
      assert t[at + |pre| + k] == (pre + val + post)[|pre| + k];
    }
  }

  // ---------------------------------------------------------------------
  // setValue on a missing section
  // ---------------------------------------------------------------------

  /** A header line appended to a text without one, and ended by a newline, is the first header line. */
  lemma HeaderAppended(s: Bytes, ext: Bytes, rest: Bytes)
    requires EndsLine(s) && |ext| >= 2 && ext[0] == '[' && !Has(ext, NL) && |rest| > 0 && rest[0] == NL
    requires forall j :: !LineHeader(s, ext, j)
    ensures FirstHeader(s + ext + rest, ext, |s|)
  {
    var t := s + ext + rest;
    assert t[|s|..|s| + |ext|] == ext;
    assert t[|s| + |ext|] == rest[0];
    forall j | 0 <= j < |s| ensures !LineHeader(t, ext, j) {
      if j + |ext| < |s| {
        HeadSlice(s, ext, rest, j, |ext|);
        assert t[j + |ext|] == s[j + |ext|];
        assert !LineHeader(s, ext, j);
      } else if j + |ext| == |s| {
        assert t[|s|] == ext[0];
      }
    }
  }

  /** No line starting with `[` begins in a last line `y` whose second byte is no `[`. */
  lemma NoSectionStart(t: Bytes, i: nat, y: Bytes)
    requires i <= |t| && t[i..] == y + Newline && |y| >= 2 && y[0] == NL && y[1] != '[' && !Has(y[1..], NL)
    ensures FirstMatch(t, SectionStart, i, -1)
  {
    forall j | i <= j ensures !MatchAt(t, SectionStart, j) {
      if j + 2 <= |t| {
        assert t[j..j + 2][0] == t[j] && t[j..j + 2][1] == t[j + 1];
        if j > i {
          assert t[j] == y[1..][j - i - 1];
        } else {
          assert t[j + 1] == y[1];
        }
      }
    }
  }

  /** The section setValue appends for a missing parent: its header, then `child=val`. */
  lemma NoParentText(s: Bytes, t: Bytes, parent: Bytes, child: Bytes, val: Bytes)
    requires EndsLine(s) && !Has(parent, NL) && ChildLine(child) && !Has(val, NL)
    requires ParentRange(s, parent).Absent? && t == s + Bracket(parent) + (ChildTag(child) + val + Newline)
    ensures SectionAt(t, Bracket(parent), Section(|s|, |s| + |parent| + 2, |t|), -1)
    ensures t[|s| + |parent| + 2..|t|] == ChildTag(child) + val + Newline
  {
    var ext, y := Bracket(parent), ChildTag(child) + val;
    ParentRangeIsFirstHeader(s, parent);
    AbsentConcat("[", parent, NL);
    AbsentConcat("[" + parent, "]", NL);
    HeaderAppended(s, ext, y + Newline);
    ItemLine(child, val);
    assert y[1..] == child + ItemSep + val;
    NoSectionStart(t, |s| + |ext|, y);
  }

  /** SetNoParentLocate on the text setValue builds. */
  lemma SetNoParentAt(s: Bytes, key: Bytes, val: Bytes, parent: Bytes, child: Bytes, t: Bytes)
    requires |SplitParts(key, KeySep)| == 2 && parent == SplitParts(key, KeySep)[0] && child == SplitParts(key, KeySep)[1]
    requires !Has(parent, NL) && ChildLine(child) && !Has(val, NL) && EndsLine(s) && ParentRange(s, parent).Absent?
    requires t == s + Bracket(parent) + (ChildTag(child) + val + Newline)
    ensures Locate(t, key) == Found(|s| + |parent| + 3, |s| + |parent| + |child| + 4, |s| + |parent| + |child| + 4 + |val|)
  {
    var ce := ChildTag(child);
    NoParentText(s, t, parent, child, val);
    var i := |s| + |parent| + 2;
    NewlineAfter(ce, val);
    assert t[i..|t|][..|ce|] == ce;
    LocateIs(t, key, Section(|s|, i, |t|), -1, 0, |ce| + |val|, i + 1, i + |ce|, i + |ce| + |val|);
  }

  /** A missing parent is appended with the item, which is then located with the value given. */
  lemma SetNoParentLocate(s: Bytes, key: Bytes, val: Bytes, parent: Bytes, child: Bytes, c: nat, vo: nat)
    requires |SplitParts(key, KeySep)| == 2 && parent == SplitParts(key, KeySep)[0] && child == SplitParts(key, KeySep)[1]
    requires !Has(parent, NL) && ChildLine(child) && !Has(val, NL) && EndsLine(s) && Locate(s, key).NoParent?
    requires c == |s| + |parent| + 3 && vo == |s| + |parent| + |child| + 4
    ensures ReadsAt(Change(s, Bracket(parent) + Newline + child + ItemSep + val + Newline, |s|, 0), key, val, c, vo)
  {
    var ins := Bracket(parent) + Newline + child + ItemSep + val + Newline;
    NoParentSearches(s, key);
    NoParentLine(s, parent, child, val);
    SetNoParentAt(s, key, val, parent, child, s + Bracket(parent) + (ChildTag(child) + val + Newline));
    LocateAfterInsert(s, key, ins, |s|, Found(c, vo, vo + |val|));
    InsertedValue(s, |s|, Bracket(parent) + Newline + child + ItemSep, val, Newline, vo);
    ReadsAtIntro(Change(s, ins, |s|, 0), key, val, c, vo);
  }

  /** The search behind a NoParent slot. */
  lemma NoParentSearches(s: Bytes, key: Bytes)
    requires Locate(s, key).NoParent?
    ensures |SplitParts(key, KeySep)| == 2 && ParentRange(s, SplitParts(key, KeySep)[0]).Absent?
  {
  }

  /** The lines setValue appends for a missing parent, regrouped as header and child tag. */
  lemma NoParentLine(s: Bytes, parent: Bytes, child: Bytes, val: Bytes)
    ensures s[..|s|] + (Bracket(parent) + Newline + child + ItemSep + val + Newline) + s[|s|..] ==
            s + Bracket(parent) + (ChildTag(child) + val + Newline)
  {
    assert s[..|s|] == s && s[|s|..] == [];
  }

  // ---------------------------------------------------------------------
  // What the editing calls promise together
  // ---------------------------------------------------------------------

  /** A key setValue can write back as a line: `section/child`, the section newline-free, the child a ChildLine. */
  predicate WritableKey(key: Bytes)
  {
    |SplitParts(key, KeySep)| == 2 && !Has(SplitParts(key, KeySep)[0], NL) && ChildLine(SplitParts(key, KeySep)[1])
  }

  /** After setValue, the key is located at child `c` with its value at `vo`, and the value there is `val`. */
  ghost predicate ReadsBack(s: Bytes, key: Bytes, val: Bytes, c: nat, vo: nat)
  {
    ReadsAt(AfterSet(s, key, val).text, key, val, c, vo)
  }

  /** In `t`, the key is located at child `c` with its value at `vo`, and the value there is `val`. */
  ghost predicate ReadsAt(t: Bytes, key: Bytes, val: Bytes, c: nat, vo: nat)
  {
    Locate(t, key) == Found(c, vo, vo + |val|) && vo + |val| <= |t| && t[vo..vo + |val|] == val
  }

  lemma ReadsAtIntro(t: Bytes, key: Bytes, val: Bytes, c: nat, vo: nat)
    requires Locate(t, key) == Found(c, vo, vo + |val|) && t[vo..vo + |val|] == val
    ensures ReadsAt(t, key, val, c, vo)
  { }

  /** The item setValue writes for a writable key is located afterwards, holding the value. */
  lemma SetLocates(s: Bytes, key: Bytes, val: Bytes) returns (c: nat, vo: nat)
    requires WritableKey(key) && !Has(val, NL) && EndsLine(s)
    ensures ReadsBack(s, key, val, c, vo)
  {
    var keys := SplitParts(key, KeySep);
    var r := Locate(s, key);
    if r.Found? {
      c, vo := r.child, r.valOffset;
      SetFoundWrites(s, key, val, c, vo, r.valEnd);
    } else if r.NoChild? {
      c, vo := r.at, r.at + |keys[1]| + 1;
      SetNoChildWrites(s, key, val, keys[1], r.at, c, vo);
    } else {
      c, vo := |s| + |keys[0]| + 3, |s| + |keys[0]| + |keys[1]| + 4;
      SetNoParentWrites(s, key, val, keys[0], keys[1], c, vo);
    }
  }

  lemma SetFoundWrites(s: Bytes, key: Bytes, val: Bytes, c: nat, vo: nat, ve: nat)
    requires !Has(val, NL) && Locate(s, key) == Found(c, vo, ve)
    ensures ReadsBack(s, key, val, c, vo)
  {
    var t := Change(s, val, vo, ve - vo);
    assert AfterSet(s, key, val).text == t;
    SetFoundLocate(s, key, val, c, vo, ve);
  }

  lemma SetNoChildWrites(s: Bytes, key: Bytes, val: Bytes, child: Bytes, e: nat, c: nat, vo: nat)
    requires |SplitParts(key, KeySep)| == 2 && child == SplitParts(key, KeySep)[1] && ChildLine(child) && !Has(val, NL)
    requires EndsLine(s) && Locate(s, key) == NoChild(e) && c == e && vo == e + |child| + 1
    ensures ReadsBack(s, key, val, c, vo)
  {
    var t := Change(s, child + ItemSep + val + Newline, e, 0);
    NoChildSetText(s, key, val, child, e);
    SetNoChildLocate(s, key, val, child, e, c, vo);
  }

  lemma SetNoParentWrites(s: Bytes, key: Bytes, val: Bytes, parent: Bytes, child: Bytes, c: nat, vo: nat)
    requires |SplitParts(key, KeySep)| == 2 && parent == SplitParts(key, KeySep)[0] && child == SplitParts(key, KeySep)[1]
    requires !Has(parent, NL) && ChildLine(child) && !Has(val, NL) && EndsLine(s) && Locate(s, key).NoParent?
    requires c == |s| + |parent| + 3 && vo == |s| + |parent| + |child| + 4
    ensures ReadsBack(s, key, val, c, vo)
  {
    var t := Change(s, Bracket(parent) + Newline + child + ItemSep + val + Newline, |s|, 0);
    NoParentSetText(s, key, val, parent, child);
    SetNoParentLocate(s, key, val, parent, child, c, vo);
  }

  /** The text setValue builds for a missing child. */
  lemma NoChildSetText(s: Bytes, key: Bytes, val: Bytes, child: Bytes, e: nat)
    requires |SplitParts(key, KeySep)| == 2 && child == SplitParts(key, KeySep)[1] && Locate(s, key) == NoChild(e)
    ensures AfterSet(s, key, val).text == Change(s, child + ItemSep + val + Newline, e, 0)
  { }

  /** The text setValue builds for a missing parent. */
  lemma NoParentSetText(s: Bytes, key: Bytes, val: Bytes, parent: Bytes, child: Bytes)
    requires |SplitParts(key, KeySep)| == 2 && parent == SplitParts(key, KeySep)[0] && child == SplitParts(key, KeySep)[1]
    requires Locate(s, key).NoParent?
    ensures AfterSet(s, key, val).text == Change(s, Bracket(parent) + Newline + child + ItemSep + val + Newline, |s|, 0)
  { }

  /** setValue then value: the value set is read back. */
  lemma SetThenValue(s: Bytes, key: Bytes, val: Bytes, failVal: Bytes)
    requires WritableKey(key) && !Has(val, NL) && EndsLine(s)
    ensures AfterSet(s, key, val).ok && ValueOf(AfterSet(s, key, val).text, key, failVal) == val
  {
    var c, vo := SetLocates(s, key, val);
  }

  /** The text setValue builds for a located value. */
  lemma FoundSetText(s: Bytes, key: Bytes, val: Bytes, c: nat, vo: nat, ve: nat)
    requires Locate(s, key) == Found(c, vo, ve)
    ensures AfterSet(s, key, val).text == Change(s, val, vo, ve - vo)
  { }

  /** The text cleanItem leaves for a located item. */
  lemma FoundCleanText(s: Bytes, key: Bytes, c: nat, vo: nat, ve: nat, n: nat)
    requires Locate(s, key) == Found(c, vo, ve) && n == ve - c + 1
    ensures AfterCleanItem(s, key) == Edited(true, Change(s, [], c - 1, n))
  { }

  /** Setting a located key to the value it holds leaves the text as it was. */
  lemma SetSameValue(s: Bytes, key: Bytes, failVal: Bytes)
    requires Locate(s, key).Found?
    ensures AfterSet(s, key, ValueOf(s, key, failVal)) == Edited(true, s)
  {
    var r := Locate(s, key);
    SetSameValueAt(s, key, s[r.valOffset..r.valEnd], r.child, r.valOffset, r.valEnd);
  }

  lemma SetSameValueAt(s: Bytes, key: Bytes, v: Bytes, c: nat, vo: nat, ve: nat)
    requires Locate(s, key) == Found(c, vo, ve) && v == s[vo..ve]
    ensures AfterSet(s, key, v) == Edited(true, s)
  {
    FoundSetText(s, key, v, c, vo, ve);
    ChangeWithin(s, v, vo, ve);
    assert s[..vo] + v + s[ve..] == s;
  }

  /** Two setValue calls on one key: the first value is overwritten. */
  ghost predicate Overwrites(s: Bytes, key: Bytes, v1: Bytes, v2: Bytes)
  {
    AfterSet(AfterSet(s, key, v1).text, key, v2) == AfterSet(s, key, v2)
  }

  /** setValue twice on a writable key is setValue once with the second value. */
  lemma SetTwice(s: Bytes, key: Bytes, v1: Bytes, v2: Bytes)
    requires WritableKey(key) && !Has(v1, NL) && EndsLine(s)
    ensures AfterSet(AfterSet(s, key, v1).text, key, v2) == AfterSet(s, key, v2)
  {
    SetTwiceCases(s, key, v1, v2);
  }

  lemma SetTwiceCases(s: Bytes, key: Bytes, v1: Bytes, v2: Bytes)
    requires WritableKey(key) && !Has(v1, NL) && EndsLine(s)
    ensures Overwrites(s, key, v1, v2)
  {
    var keys := SplitParts(key, KeySep);
    var r := Locate(s, key);
    if r.Found? {
      SetTwiceFound(s, key, v1, v2, r.child, r.valOffset, r.valEnd);
    } else if r.NoChild? {
      SetTwiceNoChild(s, key, v1, v2, keys[1], r.at, r.at + |keys[1]| + 1);
    } else {
      SetTwiceNoParent(s, key, v1, v2, keys[0], keys[1], |s| + |keys[0]| + 3, |s| + |keys[0]| + |keys[1]| + 4);
    }
  }

  lemma SetTwiceFound(s: Bytes, key: Bytes, v1: Bytes, v2: Bytes, c: nat, vo: nat, ve: nat)
    requires !Has(v1, NL) && Locate(s, key) == Found(c, vo, ve)
    ensures Overwrites(s, key, v1, v2)
  {
    var t := Change(s, v1, vo, ve - vo);
    FoundSetText(s, key, v1, c, vo, ve);
    FoundSetText(s, key, v2, c, vo, ve);
    SetFoundLocate(s, key, v1, c, vo, ve);
    FoundSetText(t, key, v2, c, vo, vo + |v1|);
    ChangeTwice(s, v1, v2, vo, ve);
  }

  lemma SetTwiceNoChild(s: Bytes, key: Bytes, v1: Bytes, v2: Bytes, child: Bytes, e: nat, vo: nat)
    requires |SplitParts(key, KeySep)| == 2 && child == SplitParts(key, KeySep)[1] && ChildLine(child) && !Has(v1, NL)
    requires EndsLine(s) && Locate(s, key) == NoChild(e) && vo == e + |child| + 1
    ensures Overwrites(s, key, v1, v2)
  {
    var t := Change(s, child + ItemSep + v1 + Newline, e, 0);
    NoChildSetText(s, key, v1, child, e);
    NoChildSetText(s, key, v2, child, e);
    SetNoChildLocate(s, key, v1, child, e, e, vo);
    FoundSetText(t, key, v2, e, vo, vo + |v1|);
    InsertTwice(s, e, child + ItemSep, v1, v2, Newline, vo);
  }

  lemma SetTwiceNoParent(s: Bytes, key: Bytes, v1: Bytes, v2: Bytes, parent: Bytes, child: Bytes, c: nat, vo: nat)
    requires |SplitParts(key, KeySep)| == 2 && parent == SplitParts(key, KeySep)[0] && child == SplitParts(key, KeySep)[1]
    requires !Has(parent, NL) && ChildLine(child) && !Has(v1, NL) && EndsLine(s) && Locate(s, key).NoParent?
    requires c == |s| + |parent| + 3 && vo == |s| + |parent| + |child| + 4
    ensures Overwrites(s, key, v1, v2)
  {
    var pre := Bracket(parent) + Newline + child + ItemSep;
    var t := Change(s, pre + v1 + Newline, |s|, 0);
    NoParentSetText(s, key, v1, parent, child);
    NoParentSetText(s, key, v2, parent, child);
    SetNoParentLocate(s, key, v1, parent, child, c, vo);
    FoundSetText(t, key, v2, c, vo, vo + |v1|);
    InsertTwice(s, |s|, pre, v1, v2, Newline, vo);
  }

  /** An item setValue adds to an existing section, cleanItem takes out again. */
  lemma SetNewItemThenClean(s: Bytes, key: Bytes, val: Bytes)
    requires WritableKey(key) && !Has(val, NL) && EndsLine(s) && Locate(s, key).NoChild?
    ensures AfterCleanItem(AfterSet(s, key, val).text, key) == Edited(true, s)
  {
    var child, e := SplitParts(key, KeySep)[1], Locate(s, key).at;
    SetNewItemThenCleanAt(s, key, val, child, e, e + |child| + 1);
  }

  lemma SetNewItemThenCleanAt(s: Bytes, key: Bytes, val: Bytes, child: Bytes, e: nat, vo: nat)
    requires |SplitParts(key, KeySep)| == 2 && child == SplitParts(key, KeySep)[1] && ChildLine(child) && !Has(val, NL)
    requires EndsLine(s) && Locate(s, key) == NoChild(e) && vo == e + |child| + 1
    ensures AfterCleanItem(AfterSet(s, key, val).text, key) == Edited(true, s)
  {
    var t := Change(s, child + ItemSep + val + Newline, e, 0);
    NoChildSetText(s, key, val, child, e);
    SetNoChildLocate(s, key, val, child, e, e, vo);
    var sec, er := NoChildSearches(s, key, e);
    var n := |child| + |val| + 2;
    FoundCleanText(t, key, e, vo, vo + |val|, n);
    InsertLineUndo(s, e, child + ItemSep + val, NL, child + ItemSep + val + Newline, n);
  }

  /** A section setValue appends, cleanParent takes out again. */
  lemma SetNewSectionThenClean(s: Bytes, key: Bytes, val: Bytes)
    requires WritableKey(key) && !Has(val, NL) && EndsLine(s) && Locate(s, key).NoParent?
    ensures AfterCleanParent(AfterSet(s, key, val).text, SplitParts(key, KeySep)[0]) == s
  {
    var keys := SplitParts(key, KeySep);
    SetNewSectionThenCleanAt(s, key, val, keys[0], keys[1]);
  }

  lemma SetNewSectionThenCleanAt(s: Bytes, key: Bytes, val: Bytes, parent: Bytes, child: Bytes)
    requires |SplitParts(key, KeySep)| == 2 && parent == SplitParts(key, KeySep)[0] && child == SplitParts(key, KeySep)[1]
    requires !Has(parent, NL) && ChildLine(child) && !Has(val, NL) && EndsLine(s) && Locate(s, key).NoParent?
    ensures AfterCleanParent(AfterSet(s, key, val).text, parent) == s
  {
    var ins := Bracket(parent) + Newline + child + ItemSep + val + Newline;
    var t := s + Bracket(parent) + (ChildTag(child) + val + Newline);
    NoParentSetText(s, key, val, parent, child);
    NoParentSearches(s, key);
    NoParentLine(s, parent, child, val);
    ChangeWithin(s, ins, |s|, |s|);
    assert AfterSet(s, key, val).text == t;
    NoParentText(s, t, parent, child, val);
    ParentRangeIs(t, parent, Section(|s|, |s| + |parent| + 2, |t|), -1);
    ChangeWithin(t, [], |s|, |t|);
    assert t[..|s|] == s;
  }

  /** A located value ends before the last byte of a text that ends its lines. */
  lemma FoundBeforeEnd(s: Bytes, key: Bytes)
    requires EndsLine(s) && Locate(s, key).Found?
    ensures Locate(s, key).valEnd < |s|
  {
    var c, vo, ve := Locate(s, key).child, Locate(s, key).valOffset, Locate(s, key).valEnd;
    var child := SplitParts(key, KeySep)[1];
    FoundIsValueLine(s, key);
    assert s[vo - 1] == s[c..vo][|child|] == '=';
    if vo < ve {
      NewlineFreeLast(s, vo, ve);
    }
  }

  /** The last byte of a newline-free span is not a newline. */
  lemma NewlineFreeLast(s: Bytes, i: nat, j: nat)
    requires i < j <= |s| && !Has(s[i..j], NL)
    ensures s[j - 1] != NL
  {
    assert s[i..j][j - 1 - i] == s[j - 1];
  }

  /** setValue keeps the last line ended. */
  lemma SetKeepsEndsLine(s: Bytes, key: Bytes, val: Bytes)
    requires EndsLine(s)
    ensures EndsLine(AfterSet(s, key, val).text)
  {
    var keys := SplitParts(key, KeySep);
    var r := Locate(s, key);
    if r.Found? {
      FoundBeforeEnd(s, key);
      FoundSetText(s, key, val, r.child, r.valOffset, r.valEnd);
      ChangeKeepsLast(s, val, r.valOffset, r.valEnd);
    } else if r.NoChild? {
      NoChildSetText(s, key, val, keys[1], r.at);
      InsertKeepsEndsLine(s, keys[1] + ItemSep + val + Newline, r.at);
    } else if r.NoParent? {
      NoParentSetText(s, key, val, keys[0], keys[1]);
      InsertKeepsEndsLine(s, Bracket(keys[0]) + Newline + keys[1] + ItemSep + val + Newline, |s|);
    }
  }

  /** Inserting a block that ends its line keeps the last line ended. */
  lemma InsertKeepsEndsLine(s: Bytes, ins: Bytes, e: nat)
    requires EndsLine(s) && e <= |s| && |ins| > 0 && ins[|ins| - 1] == NL
    ensures EndsLine(Change(s, ins, e, 0))
  {
    ChangeWithin(s, ins, e, e);
    if e < |s| {
      ChangeKeepsLast(s, ins, e, e);
    }
  }

  /** cleanItem keeps the last line ended. */
  lemma CleanItemKeepsEndsLine(s: Bytes, key: Bytes)
    requires EndsLine(s)
    ensures EndsLine(AfterCleanItem(s, key).text)
  {
    var r := Locate(s, key);
    if r.Found? {
      FoundBeforeEnd(s, key);
      FoundCleanText(s, key, r.child, r.valOffset, r.valEnd, r.valEnd - r.child + 1);
      ChangeKeepsLast(s, [], r.child - 1, r.valEnd);
    }
  }

  /** cleanParent keeps the last line ended. */
  lemma CleanParentKeepsEndsLine(s: Bytes, parent: Bytes)
    requires EndsLine(s)
    ensures EndsLine(AfterCleanParent(s, parent))
  {
    if ParentRange(s, parent).Section? {
      var sec := ParentRange(s, parent);
      var er := ParentRangeParts(s, parent);
      ChangeWithin(s, [], sec.offset, sec.end);
      if sec.end < |s| {
        ChangeKeepsLast(s, [], sec.offset, sec.end);
      } else if sec.offset > 0 {
        assert LineHeader(s, Bracket(parent), sec.offset);
        assert AfterCleanParent(s, parent) == s[..sec.offset];
      }
    }
  }

  // ---------------------------------------------------------------------
  // setText: the normal form of a text
  // ---------------------------------------------------------------------

  /** Two newlines in a row, the tag setText collapses. */
  const BlankLine: Bytes := [NL, NL]

  /** No newline directly follows a newline. */
  predicate NoBlankLine(s: Bytes)
  {
    forall j :: 0 <= j < |s| - 1 ==> !(s[j] == NL && s[j + 1] == NL)
  }

  /** The text with every newline that directly follows a newline dropped: each run of newlines becomes one. */
  function Squeeze(s: Bytes): (r: Bytes)
    ensures |r| <= |s|
    ensures |s| > 0 ==> |r| > 0 && r[0] == s[0]
    decreases |s|
  {
    if |s| == 0 then []
    else if |s| >= 2 && s[0] == NL && s[1] == NL then Squeeze(s[1..])
    else [s[0]] + Squeeze(s[1..])
  }

  /** setText: carriage returns removed, runs of newlines collapsed, and a last line that is not ended gets a newline. */
  function Normalized(t: Bytes): Bytes
  {
    var b := Squeeze(ReplaceAll(t, [CR], []));
    if |b| != 0 && b[|b| - 1] != NL then b + [NL] else b
  }

  /** Squeeze on a text given by its first byte and the rest. */
  lemma SqueezeCons(c: byte, x: Bytes)
    ensures Squeeze([c] + x) == if c == NL && |x| > 0 && x[0] == NL then Squeeze(x) else [c] + Squeeze(x)
  {
    assert ([c] + x)[1..] == x;
  }

  /** The result of Squeeze has no blank line. */
  lemma {:induction false} SqueezeNoBlank(s: Bytes)
    ensures NoBlankLine(Squeeze(s))
    decreases |s|
  {
    if |s| > 0 {
      SqueezeNoBlank(s[1..]);
      if !(|s| >= 2 && s[0] == NL && s[1] == NL) {
        var r := Squeeze(s[1..]);
        forall j | 0 <= j < |[s[0]] + r| - 1 ensures !(([s[0]] + r)[j] == NL && ([s[0]] + r)[j + 1] == NL) {
          if j > 0 {
            assert ([s[0]] + r)[j] == r[j - 1] && ([s[0]] + r)[j + 1] == r[j];
          }
        }
      }
    }
  }

  /** A text without blank lines is its own Squeeze. */
  lemma {:induction false} SqueezeFixed(s: Bytes)
    requires NoBlankLine(s)
    ensures Squeeze(s) == s
    decreases |s|
  {
    if |s| > 0 {
      assert NoBlankLine(s[1..]) by {
        forall j | 0 <= j < |s[1..]| - 1 ensures !(s[1..][j] == NL && s[1..][j + 1] == NL) {
          assert s[1..][j] == s[j + 1] && s[1..][j + 1] == s[j + 2];
        }
      }
      SqueezeFixed(s[1..]);
      assert s == [s[0]] + s[1..];
    }
  }

  /** Squeeze keeps out a byte the text does not hold. */
  lemma {:induction false} SqueezeAbsent(s: Bytes, c: byte)
    requires !Has(s, c)
    ensures !Has(Squeeze(s), c)
    decreases |s|
  {
    if |s| > 0 {
      assert s == [s[0]] + s[1..];
      HasConcat([s[0]], s[1..], c);
      SqueezeAbsent(s[1..], c);
      HasConcat([s[0]], Squeeze(s[1..]), c);
    }
  }

  /**
   * One pass of `replace("\n\n", "\n")` leaves the Squeeze unchanged, and
   * the text starts with a newline before the pass exactly when it does after.
   */
  ghost predicate SqueezeKept(s: Bytes)
  {
    var r := ReplaceSeq(s, BlankLine, Newline);
    Squeeze(r) == Squeeze(s) && ((|r| > 0 && r[0] == NL) <==> (|s| > 0 && s[0] == NL))
  }

  lemma {:induction false} SqueezeReplace(s: Bytes)
    ensures SqueezeKept(s)
    decreases |s|
  {
    if |s| >= 2 {
      assert s[..2] == [s[0], s[1]];
      if s[..2] == BlankLine {
        SqueezeReplace(s[2..]);
        SqueezeReplaceMatch(s);
      } else {
        SqueezeReplace(s[1..]);
        SqueezeReplaceSkip(s);
      }
    }
  }

  /** SqueezeReplace where the text starts with `\n\n`. */
  lemma SqueezeReplaceMatch(s: Bytes)
    requires |s| >= 2 && s[0] == NL && s[1] == NL && SqueezeKept(s[2..])
    ensures SqueezeKept(s)
  {
    var t := s[2..];
    assert s[..2] == BlankLine;
    ReplaceSeqMatch(s, BlankLine, Newline);
    SqueezeCons(NL, ReplaceSeq(t, BlankLine, Newline));
    SqueezeCons(NL, t);
    assert s[1..] == [NL] + t;
  }

  /** SqueezeReplace where the text does not start with `\n\n`. */
  lemma SqueezeReplaceSkip(s: Bytes)
    requires |s| >= 2 && !(s[0] == NL && s[1] == NL) && SqueezeKept(s[1..])
    ensures SqueezeKept(s)
  {
    var t := s[1..];
    assert s[..2] == [s[0], s[1]] != BlankLine;
    ReplaceSeqSkip(s, BlankLine, Newline);
    SqueezeCons(s[0], ReplaceSeq(t, BlankLine, Newline));
    SqueezeCons(s[0], t);
    assert s == [s[0]] + t;
  }

  /** A pass over a text holding a blank line shortens it. */
  lemma ReplaceShrinks(s: Bytes)
    requires Find(s, BlankLine, 0) != -1
    ensures |ReplaceAll(s, BlankLine, Newline)| < |s|
  {
    ReplaceLength(s, BlankLine, Newline, 0);
    CountJump(s, BlankLine, 0, Find(s, BlankLine, 0));
  }

  /** No blank line is found exactly when the text has none. */
  lemma NoBlankFound(s: Bytes)
    requires Find(s, BlankLine, 0) == -1
    ensures NoBlankLine(s)
  {
    forall j | 0 <= j < |s| - 1 ensures !(s[j] == NL && s[j + 1] == NL) {
      assert !MatchAt(s, BlankLine, j);
      assert s[j..j + 2] == [s[j], s[j + 1]];
    }
  }

  /** The loop of setText: passes of `replace("\n\n", "\n")` until no `\n\n` is left. */
  method Collapse(s: Bytes) returns (r: Bytes)
    ensures r == Squeeze(s)
  {
    r := s;
    var at := Search(r, BlankLine, 0);
    while at != -1
      invariant at == Find(r, BlankLine, 0)
      invariant Squeeze(r) == Squeeze(s)
      decreases |r|
    {
      ReplaceShrinks(r);
      SqueezeReplace(r);
      ReplaceFromIsSeq(r, BlankLine, Newline, 0);
      assert r[0..] == r;
      r := ReplaceAll(r, BlankLine, Newline);
      at := Search(r, BlankLine, 0);
    }
    NoBlankFound(r);
    SqueezeFixed(r);
  }

  /** Removing every carriage return leaves none. */
  lemma {:induction false} DropAbsent(t: Bytes, c: byte)
    ensures !Has(ReplaceSeq(t, [c], []), c)
    decreases |t|
  {
    if |t| >= 1 {
      if t[..1] == [c] {
        ReplaceSeqMatch(t, [c], []);
        DropAbsent(t[1..], c);
      } else {
        ReplaceSeqSkip(t, [c], []);
        DropAbsent(t[1..], c);
        assert t[0] != c by { assert t[..1] == [t[0]]; }
        HasConcat([t[0]], ReplaceSeq(t[1..], [c], []), c);
      }
    }
  }

  /** Removing a byte the text does not hold changes nothing. */
  lemma {:induction false} DropNothing(t: Bytes, c: byte)
    requires !Has(t, c)
    ensures ReplaceSeq(t, [c], []) == t
    decreases |t|
  {
    if |t| >= 1 {
      assert t[..1] == [t[0]] && t[0] != c;
      ReplaceSeqSkip(t, [c], []);
      assert !Has(t[1..], c) by { HasConcat([t[0]], t[1..], c); assert t == [t[0]] + t[1..]; }
      DropNothing(t[1..], c);
      assert t == [t[0]] + t[1..];
    }
  }

  /** ReplaceAll of a one-byte tag with nothing, on the whole text. */
  lemma DropAll(t: Bytes, c: byte)
    ensures ReplaceAll(t, [c], []) == ReplaceSeq(t, [c], [])
  {
    ReplaceFromIsSeq(t, [c], [], 0);
    assert t[0..] == t;
  }

  /** After setText the text holds no `\r`, no `\n\n`, and ends with a newline unless it is empty. */
  lemma NormalizedShape(t: Bytes)
    ensures var r := Normalized(t); !Has(r, CR) && NoBlankLine(r) && EndsLine(r)
  {
    var a := ReplaceAll(t, [CR], []);
    DropAll(t, CR);
    DropAbsent(t, CR);
    var b := Squeeze(a);
    SqueezeNoBlank(a);
    SqueezeAbsent(a, CR);
    if |b| != 0 && b[|b| - 1] != NL {
      HasConcat(b, [NL], CR);
      var r := b + [NL];
      forall j | 0 <= j < |r| - 1 ensures !(r[j] == NL && r[j + 1] == NL) {
        if j < |b| - 1 {
          assert r[j] == b[j] && r[j + 1] == b[j + 1];
        }
      }
    }
  }

  /** A text already in normal form is kept by setText. */
  lemma NormalizedFixed(t: Bytes)
    requires !Has(t, CR) && NoBlankLine(t) && EndsLine(t)
    ensures Normalized(t) == t
  {
    DropAll(t, CR);
    DropNothing(t, CR);
    SqueezeFixed(t);
  }

  /** setText twice is setText once. */
  lemma NormalizedIdempotent(t: Bytes)
    ensures Normalized(Normalized(t)) == Normalized(t)
  {
    NormalizedShape(t);
    NormalizedFixed(Normalized(t));
  }

  // ---------------------------------------------------------------------
  // parents and childs
  // ---------------------------------------------------------------------

  /** `[`, where the first section name is looked for. */
  const Open: Bytes := "["
  /** `]`, which ends a section name. */
  const Close: Bytes := "]"

  /**
   * The loop of parents from `index`: the name up to the next `]`, then on
   * from the next line starting with `[`. The first name is taken from
   * after a `[` found anywhere, each later one from after a `\n[`; a `[`
   * without a `]` after it ends the list.
   */
  function ParentsFrom(s: Bytes, index: int, first: bool): seq<Bytes>
    requires index == -1 || (first && MatchAt(s, Open, index)) || (!first && MatchAt(s, SectionStart, index))
    decreases if index == -1 then 0 else |s| + 1 - index
  {
    if index == -1 then []
    else
      var end := Find(s, Close, index);
      if end == -1 then []
      else
        assert end > index by { assert s[index..index + 1] == [s[index]]; assert s[end..end + 1] == [s[end]]; }
        var k := if first then 1 else 2;
        [MidBytes(s, index + k, end - index - k)] + ParentsFrom(s, Find(s, SectionStart, end), false)
  }

  /** One round of the parents loop, with the search for `]` already made. */
  lemma ParentsUnfold(s: Bytes, index: int, first: bool, end: int)
    requires index == -1 || (first && MatchAt(s, Open, index)) || (!first && MatchAt(s, SectionStart, index))
    requires index != -1 && end == Find(s, Close, index)
    ensures end == -1 ==> ParentsFrom(s, index, first) == []
    ensures end != -1 ==> (index < end < |s| &&
              var k := if first then 1 else 2;
              ParentsFrom(s, index, first) == [MidBytes(s, index + k, end - index - k)] + ParentsFrom(s, Find(s, SectionStart, end), false))
  {
    if end != -1 {
      assert s[index..index + 1] == [s[index]];
      assert s[end..end + 1] == [s[end]];
    }
  }

  /** The names found so far, followed by those the loop finds from `index` on, are all the names. */
  ghost predicate ParentsLeft(s: Bytes, result: seq<Bytes>, index: int, first: bool)
  {
    (index == -1 || (first && MatchAt(s, Open, index)) || (!first && MatchAt(s, SectionStart, index))) &&
    result + ParentsFrom(s, index, first) == ParentsOf(s)
  }

  /** A round of the parents loop that finds a `]` keeps ParentsLeft. */
  lemma ParentsAdvance(s: Bytes, result: seq<Bytes>, index: int, first: bool, end: int)
    requires index != -1 && ParentsLeft(s, result, index, first) && end == Find(s, Close, index) && end != -1
    ensures index < end < |s|
    ensures var k := if first then 1 else 2;
            ParentsLeft(s, result + [MidBytes(s, index + k, end - index - k)], Find(s, SectionStart, end), false)
  {
    ParentsUnfold(s, index, first, end);
    var k := if first then 1 else 2;
    var name := MidBytes(s, index + k, end - index - k);
    var rest := ParentsFrom(s, Find(s, SectionStart, end), false);
    assert (result + [name]) + rest == result + ([name] + rest);
  }

  /** A round of the parents loop that finds no `]` ends it with all the names. */
  lemma ParentsStop(s: Bytes, result: seq<Bytes>, index: int, first: bool)
    requires index != -1 && ParentsLeft(s, result, index, first) && Find(s, Close, index) == -1
    ensures ParentsLeft(s, result, -1, first)
  {
    ParentsUnfold(s, index, first, -1);
    assert result + [] == result;
  }

  /** parents: the section names in the order of the text. */
  function ParentsOf(s: Bytes): seq<Bytes>
  {
    ParentsFrom(s, Find(s, Open, 0), true)
  }

  /** The child name of an item line: the part before `=`, when the line splits at `=` into exactly two parts. */
  ghost predicate NamesChild(line: Bytes, x: Bytes)
  {
    |SplitParts(line, ItemSep)| == 2 && SplitParts(line, ItemSep)[0] == x
  }

  /** The child names of the item lines, in order. */
  function ChildNames(items: seq<Bytes>): seq<Bytes>
  {
    if |items| == 0 then []
    else
      var keys := SplitParts(items[|items| - 1], ItemSep);
      ChildNames(items[..|items| - 1]) + (if |keys| == 2 then [keys[0]] else [])
  }

  /** childs: the child names of the lines of the section after its header line, or none when it is absent. */
  function ChildsOf(s: Bytes, parent: Bytes): seq<Bytes>
  {
    match ParentRange(s, parent)
    case Section(_, i, e) => ChildNames(SplitParts(s[i + 1..e], Newline))
    case Absent => []
  }

  /** A name is listed exactly when some line splits into it and a value, with no second `=`. */
  lemma {:induction false} ChildNamesMembers(items: seq<Bytes>, x: Bytes)
    ensures x in ChildNames(items) <==> exists k :: 0 <= k < |items| && NamesChild(items[k], x)
    decreases |items|
  {
    if |items| > 0 {
      var init := items[..|items| - 1];
      ChildNamesMembers(init, x);
      if x in ChildNames(items) {
        if x in ChildNames(init) {
          var k :| 0 <= k < |init| && NamesChild(init[k], x);
          assert items[k] == init[k];
        } else {
          assert NamesChild(items[|items| - 1], x);
        }
      }
      if exists k :: 0 <= k < |items| && NamesChild(items[k], x) {
        var k :| 0 <= k < |items| && NamesChild(items[k], x);
        if k < |items| - 1 {
          assert init[k] == items[k];
        }
      }
    }
  }

  /** childs lists every name a line of the section gives, and nothing else. */
  lemma ChildsOfLines(s: Bytes, parent: Bytes, x: Bytes)
    ensures x in ChildsOf(s, parent) <==>
            ParentRange(s, parent).Section? &&
            var sec := ParentRange(s, parent);
            var lines := SplitParts(s[sec.index + 1..sec.end], Newline);
            exists k :: 0 <= k < |lines| && NamesChild(lines[k], x)
  {
    if ParentRange(s, parent).Section? {
      var sec := ParentRange(s, parent);
      ChildNamesMembers(SplitParts(s[sec.index + 1..sec.end], Newline), x);
    }
  }

  // ---------------------------------------------------------------------
  // IniParse
  // ---------------------------------------------------------------------

  const KeyExist: int := 0
  const NoParentStatus: int := 1
  const NoChildStatus: int := 2
  const KeyFormatError: int := 3
  const ParentExist: int := 0

  /** The status valueIndex returns for an outcome. */
  function StatusOf(r: Slot): (st: int)
    ensures st == KeyExist <==> r.Found?
    ensures st == NoParentStatus <==> r.NoParent?
    ensures st == NoChildStatus <==> r.NoChild?
    ensures st == KeyFormatError <==> r.FormatError?
  {
    match r
    case Found(_, _, _) => KeyExist
    case NoParent(_) => NoParentStatus
    case NoChild(_) => NoChildStatus
    case FormatError => KeyFormatError
  }

  /** The parser: its text, edited in place. */
  class IniParse {
    /** m_text. */
    var text: Bytes

    /** IniParse(text): the text is kept as it is given, without what setText does to it. */
    constructor (t: Bytes)
      ensures text == t
    {
      text := t;
    }

    /** setText: the text given, in normal form. */
    method SetText(t: Bytes)
      modifies this
      ensures text == Normalized(t)
    {
      text := t;
      text := ReplaceAll(text, [CR], []);
      text := Collapse(text);
      if |text| != 0 && text[|text| - 1] != NL {
        text := text + [NL];
      }
    }

    method GetText() returns (r: Bytes)
      ensures r == text
    {
      r := text;
    }

    /**
     * parentPosRange: the do-while looks at each occurrence of `[parent]`
     * until one starts a line and is followed by a newline; without one,
     * all three positions are the size of the text.
     */
    method ParentPosRange(parent: Bytes) returns (st: int, offset: nat, index: nat, end: nat)
      ensures ParentRange(text, parent).Absent? ==> st == NoParentStatus && offset == index == end == |text|
      ensures ParentRange(text, parent).Section? ==> st == ParentExist && ParentRange(text, parent) == Section(offset, index, end)
    {
      var s := text;
      var ext := Bracket(parent);
      var p := HeaderSearch(s, ext);
      if p == -1 {
        return NoParentStatus, |s|, |s|, |s|;
      }
      offset := p;
      index := p + |ext|;
      var e := Search(s, SectionStart, index);
      end := if e == -1 then |s| else e + 1;
      st := ParentExist;
    }

    /** valueIndex: the status and, for a present or missing key, the positions the status stands for. */
    method ValueIndex(key: Bytes) returns (st: int, c: nat, vo: nat, ve: nat)
      ensures st == StatusOf(Locate(text, key))
      ensures Locate(text, key).Found? ==> Locate(text, key) == Found(c, vo, ve)
      ensures (Locate(text, key).NoParent? || Locate(text, key).NoChild?) ==> c == vo == ve == Locate(text, key).at
    {
      var keys := SplitParts(key, KeySep);
      if |keys| != 2 {
        return KeyFormatError, 0, 0, 0;
      }
      var pst, po, pi, pe := ParentPosRange(keys[0]);
      if pst != ParentExist {
        return NoParentStatus, |text|, |text|, |text|;
      }
      var range := MidBytes(text, pi, pe - pi);
      var ce := ChildTag(keys[1]);
      var ci := Search(range, ce, 0);
      if ci == -1 {
        return NoChildStatus, pe, pe, pe;
      }
      var ce2 := Search(range, Newline, ci + |ce|);
      if ce2 == -1 {
        ce2 := |range|;
      }
      return KeyExist, pi + ci + 1, pi + ci + |ce|, pi + ce2;
    }

    /** value: the located value, or `failVal` when the key is missing or malformed. */
    method Value(key: Bytes, failVal: Bytes) returns (r: Bytes)
      ensures r == ValueOf(text, key, failVal)
    {
      var st, c, vo, ve := ValueIndex(key);
      if st != KeyExist {
        return failVal;
      }
      r := MidBytes(text, vo, ve - vo);
    }

    /** setValue: the edit AfterSet describes, and whether the key was well formed. */
    method SetValue(key: Bytes, val: Bytes) returns (ok: bool)
      modifies this
      ensures Edited(ok, text) == AfterSet(old(text), key, val)
    {
      var st, c, vo, ve := ValueIndex(key);
      if st == KeyFormatError {
        return false;
      }
      if st == KeyExist {
        text := Change(text, val, vo, ve - vo);
      } else {
        var keys := SplitParts(key, KeySep);
        if st == NoParentStatus {
          text := Change(text, Bracket(keys[0]) + Newline + keys[1] + ItemSep + val + Newline, c, 0);
        } else if st == NoChildStatus {
          text := Change(text, keys[1] + ItemSep + val + Newline, c, 0);
        }
      }
      return true;
    }

    /** cleanItem, with the status kept as the number valueIndex returns, so that a malformed key is refused. */
    method CleanItem(key: Bytes) returns (ok: bool)
      modifies this
      ensures Edited(ok, text) == AfterCleanItem(old(text), key)
    {
      var st, c, vo, ve := ValueIndex(key);
      if st == KeyFormatError {
        return false;
      }
      if st == KeyExist {
        text := Change(text, [], c - 1, ve - c + 1);
      }
      return true;
    }

    /** cleanParent: the section, header line included, is cut out. */
    method CleanParent(parent: Bytes)
      modifies this
      ensures text == AfterCleanParent(old(text), parent)
    {
      var st, o, i, e := ParentPosRange(parent);
      if st == ParentExist {
        text := Change(text, [], o, e - o);
      }
    }

    /** parents: the loop from one section name to the next. */
    method Parents() returns (result: seq<Bytes>)
      ensures result == ParentsOf(text)
    {
      var s := text;
      result := [];
      var index := Search(s, Open, 0);
      var first := true;
      while index != -1
        invariant index == -1 || (first && MatchAt(s, Open, index)) || (!first && MatchAt(s, SectionStart, index))
        invariant ParentsLeft(s, result, index, first)
        decreases if index == -1 then 0 else |s| + 1 - index
      {
        var end := Search(s, Close, index);
        if end != -1 {
          ParentsAdvance(s, result, index, first, end);
          if first {
            result := result + [MidBytes(s, index + 1, end - index - 1)];
            first := false;
          } else {
            result := result + [MidBytes(s, index + 2, end - index - 2)];
          }
          index := Search(s, SectionStart, end);
        } else {
          ParentsStop(s, result, index, first);
          index := -1;
        }
      }
    }

    /** childs: a loop over the lines of the section, keeping the name of each that splits at `=` into two parts. */
    method Childs(parent: Bytes) returns (result: seq<Bytes>)
      ensures result == ChildsOf(text, parent)
    {
      result := [];
      var st, o, i, e := ParentPosRange(parent);
      if st == ParentExist {
        var range := MidBytes(text, i + 1, e - i - 1);
        var items := SplitParts(range, Newline);
        var count := |items|;
        for k := 0 to count
          invariant result == ChildNames(items[..k])
        {
          var keys := SplitParts(items[k], ItemSep);
          if |keys| == 2 {
            result := result + [keys[0]];
          }
          assert items[..k + 1][..k] == items[..k];
        }
        assert items[..count] == items;
      }
    }
  }
}
