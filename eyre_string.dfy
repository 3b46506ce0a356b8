/**
 * Strings: the text class of the framework, on its UTF-8 path.
 *
 * A String owns one ByteArray whose content never holds a zero byte: every
 * way in (a C string, a ByteArray, an appended character, a written byte)
 * stops at or refuses the first NUL. On top of the buffer operations it
 * offers decimal printing and parsing of unsigned numbers and `%n`
 * templating through `arg`.
 */
module Strings {
  import opened Bytes
  import opened General
  import opened ByteArrays

  predicate IsDigit(c: byte)
  {
    '0' <= c <= '9'
  }

  predicate AllDigits(s: Bytes)
  {
    forall i :: 0 <= i < |s| ==> IsDigit(s[i])
  }

  function DigitChar(k: nat): (c: byte)
    requires k < 10
    ensures IsDigit(c) && c as int - '0' as int == k
  {
    ('0' as int + k) as char
  }

  function DigitValue(c: byte): (k: nat)
    requires IsDigit(c)
    ensures k < 10 && DigitChar(k) == c
  {
    c as int - '0' as int
  }

  /** fromNumber(unsigned long long): the decimal digits of `n`, as "%llu" prints them. */
  function Decimal(n: nat): (r: Bytes)
    ensures |r| >= 1 && AllDigits(r)
    ensures r[0] == '0' ==> n == 0
    decreases n
  {
    if n < 10 then [DigitChar(n)] else Decimal(n / 10) + [DigitChar(n % 10)]
  }

  /** The number a run of decimal digits denotes. */
  function DigitsValue(d: Bytes): nat
    requires AllDigits(d)
  {
    if |d| == 0 then 0 else 10 * DigitsValue(d[..|d| - 1]) + DigitValue(d[|d| - 1])
  }

  /** The run of digits `s` starts with. */
  function LeadingDigits(s: Bytes): (r: Bytes)
    ensures |r| <= |s| && r == s[..|r|] && AllDigits(r)
    ensures |r| < |s| ==> !IsDigit(s[|r|])
  {
    if |s| == 0 || !IsDigit(s[0]) then [] else [s[0]] + LeadingDigits(s[1..])
  }

  /**
   * toUInt64: what "%llu" reads from the start of the text: the value of
   * its leading digits, and 0 (the untouched initial result) when it does
   * not start with a digit.
   */
  function ParseU64(s: Bytes): nat
  {
    DigitsValue(LeadingDigits(s))
  }

  lemma {:induction false} DecimalValue(n: nat)
    ensures DigitsValue(Decimal(n)) == n
    decreases n
  {
    if n >= 10 {
      var d := Decimal(n / 10);
      DecimalValue(n / 10);
      assert (d + [DigitChar(n % 10)])[..|d|] == d;
    }
  }

  lemma {:induction false} LeadingOfDigits(d: Bytes, rest: Bytes)
    requires AllDigits(d)
    requires |rest| == 0 || !IsDigit(rest[0])
    ensures LeadingDigits(d + rest) == d
    decreases |d|
  {
    if |d| > 0 {
      assert (d + rest)[1..] == d[1..] + rest;
      LeadingOfDigits(d[1..], rest);
      assert d == [d[0]] + d[1..];
    } else {
      assert d + rest == rest;
    }
  }

  /**
   * Printing a number and reading it back gives the number, also when a
   * non-digit follows the digits.
   */
  lemma ParseDecimal(n: nat, rest: Bytes)
    requires |rest| == 0 || !IsDigit(rest[0])
    ensures ParseU64(Decimal(n) + rest) == n
  {
    LeadingOfDigits(Decimal(n), rest);
    DecimalValue(n);
  }

  /** toUInt64(fromNumber(n)) == n. */
  lemma DecimalRoundTrip(n: nat)
    ensures ParseU64(Decimal(n)) == n
  {
    ParseDecimal(n, []);
    assert Decimal(n) + [] == Decimal(n);
  }

  /** A text that does not start with a digit reads as 0. */
  lemma NonNumericIsZero(s: Bytes)
    requires |s| == 0 || !IsDigit(s[0])
    ensures ParseU64(s) == 0
  {
  }

  /** The character at `p`, or zero past the end, as `at` reads it. */
  function AtOr(s: Bytes, p: nat): (c: byte)
    ensures p < |s| ==> c == s[p]
    ensures p >= |s| ==> c == NUL
  {
    if p < |s| then s[p] else NUL
  }

  /**
   * The number of the `%n` tag starting at `i`: `%` then a digit other than
   * 0, and a second digit when one follows; 0 when no tag starts at `i`.
   */
  function TagNumberAt(s: Bytes, i: nat): (n: nat)
    requires i < |s|
    ensures n < 100
    ensures n > 0 ==> s[i] == '%' && IsDigit(AtOr(s, i + 1)) && AtOr(s, i + 1) != '0'
  {
    if s[i] == '%' && IsDigit(AtOr(s, i + 1)) && AtOr(s, i + 1) != '0' then
      var d1 := DigitValue(AtOr(s, i + 1));
      if IsDigit(AtOr(s, i + 2)) then d1 * 10 + DigitValue(AtOr(s, i + 2)) else d1
    else 0
  }

  /** The smallest tag number at or after `i`, starting from the bound `cur` (100 means none). */
  function MinTagFrom(s: Bytes, i: nat, cur: nat): nat
    decreases |s| - i
  {
    if i >= |s| then cur
    else
      var t := TagNumberAt(s, i);
      MinTagFrom(s, i + 1, if t > 0 && t < cur then t else cur)
  }

  /** argFindMinTag: the tag `%n` with the least number in the text, or "" when there is none. */
  function ArgTag(s: Bytes): Bytes
  {
    var n := MinTagFrom(s, 0, 100);
    if 0 < n < 100 then ['%'] + Decimal(n) else []
  }

  /** Tag numbers at or after `i` that are below `cur`. */
  ghost predicate TagBelow(s: Bytes, i: nat, cur: nat, n: nat)
  {
    exists j :: i <= j < |s| && TagNumberAt(s, j) == n && 0 < n < cur
  }

  lemma {:induction false} MinTagFromLeast(s: Bytes, i: nat, cur: nat)
    requires cur <= 100
    ensures var m := MinTagFrom(s, i, cur);
            m <= cur &&
            (m < cur ==> TagBelow(s, i, cur, m)) &&
            (forall j :: i <= j < |s| && TagNumberAt(s, j) > 0 ==> m <= TagNumberAt(s, j) || cur <= TagNumberAt(s, j))
    decreases |s| - i
  {
    if i < |s| {
      var t := TagNumberAt(s, i);
      var cur' := if t > 0 && t < cur then t else cur;
      MinTagFromLeast(s, i + 1, cur');
      var m := MinTagFrom(s, i, cur);
      if m < cur' {
        var j :| i + 1 <= j < |s| && TagNumberAt(s, j) == m && 0 < m < cur';
        assert TagBelow(s, i, cur, m);
      } else if m < cur {
        assert TagNumberAt(s, i) == m;
        assert TagBelow(s, i, cur, m);
      }
    }
  }

  /**
   * argFindMinTag finds "" exactly when no `%n` tag occurs, and otherwise
   * `%` followed by the least tag number occurring in the text.
   */
  lemma ArgTagIsLeast(s: Bytes)
    ensures ArgTag(s) == [] <==> forall j :: 0 <= j < |s| ==> TagNumberAt(s, j) == 0
    ensures ArgTag(s) != [] ==>
              exists n: nat :: (ArgTag(s) == ['%'] + Decimal(n) &&
                                (exists j :: 0 <= j < |s| && TagNumberAt(s, j) == n) &&
                                (forall j :: 0 <= j < |s| && TagNumberAt(s, j) > 0 ==> n <= TagNumberAt(s, j)))
  {
    MinTagFromLeast(s, 0, 100);
    var m := MinTagFrom(s, 0, 100);
    if m < 100 {
      assert TagBelow(s, 0, 100, m);
    }
  }

  /** Without a `%` between `from` and `i` the scan for the least tag skips straight to `i`. */
  lemma {:induction false} MinTagJump(s: Bytes, from: nat, i: int, cur: nat)
    requires FirstMatch(s, ['%'], from, i)
    ensures i == -1 ==> MinTagFrom(s, from, cur) == cur
    ensures i != -1 ==> i < |s| && MinTagFrom(s, from, cur) == MinTagFrom(s, i, cur)
    decreases |s| - from
  {
    if from < |s| && from != i {
      assert !MatchAt(s, ['%'], from);
      assert s[from..from + 1] == [s[from]];
      MinTagJump(s, from + 1, i, cur);
    }
  }

  /** The bound after a `%` followed by `c1` and `c2`: the tag's number when it is a smaller tag. */
  function TagMin(cur: nat, c1: byte, c2: byte): (next: nat)
    ensures next <= cur
  {
    var t := if !IsDigit(c1) || DigitValue(c1) == 0 then 0
             else if IsDigit(c2) then DigitValue(c1) * 10 + DigitValue(c2) else DigitValue(c1);
    if t > 0 && t < cur then t else cur
  }

  /** The body of argFindMinTag's loop: the number after one `%`, kept when it is smaller. */
  method MinWithTag(minNumber: nat, c1: byte, c2: byte) returns (r: nat)
    ensures r == TagMin(minNumber, c1, c2)
  {
    r := minNumber;
    if IsDigit(c1) {
      var tempNumber := DigitValue(c1);
      if tempNumber != 0 {
        if IsDigit(c2) {
          tempNumber := tempNumber * 10;
          tempNumber := tempNumber + DigitValue(c2);
        }
        if tempNumber > 0 && tempNumber < r {
          r := tempNumber;
        }
      }
    }
  }

  /** One `%` visited by the scan for the least tag: the bound becomes the tag's number when that is smaller. */
  lemma MinTagStep(s: Bytes, i: nat, cur: nat, c1: byte, c2: byte, next: nat)
    requires i < |s| && s[i] == '%' && c1 == AtOr(s, i + 1) && c2 == AtOr(s, i + 2)
    requires next == TagMin(cur, c1, c2)
    ensures MinTagFrom(s, i, cur) == MinTagFrom(s, i + 1, next)
  {
  }

  /** The occurrence of `tag` at `i` is replaced: it is three bytes long or no digit follows it. */
  predicate Replaceable(s: Bytes, tag: Bytes, i: nat)
  {
    |tag| == 3 || !IsDigit(AtOr(s, i + 2))
  }

  /**
   * replaceForArg from `i` on: each occurrence of `tag` found left to right
   * is replaced by `to` when replaceable and skipped otherwise; the scan
   * resumes after the inserted text, which is therefore never rescanned.
   */
  function ArgFrom(s: Bytes, tag: Bytes, to: Bytes, i: nat): Bytes
    requires |tag| > 0
    decreases |s| - i
  {
    if i + |tag| > |s| then s
    else if MatchAt(s, tag, i) then
      if Replaceable(s, tag, i) then ArgFrom(Change(s, to, i, |tag|), tag, to, i + |to|)
      else ArgFrom(s, tag, to, i + |tag|)
    else ArgFrom(s, tag, to, i + 1)
  }

  /** replaceForArg as a whole: nothing happens for the empty tag. */
  function ArgResult(s: Bytes, tag: Bytes, to: Bytes): Bytes
  {
    if |tag| == 0 then s else ArgFrom(s, tag, to, 0)
  }

  /** `arg(to)`: the least tag replaced by `to`. */
  function ArgOf(s: Bytes, to: Bytes): Bytes
  {
    ArgResult(s, ArgTag(s), to)
  }

  /** The step replaceForArg takes at a found occurrence. */
  function ArgStepAt(s: Bytes, tag: Bytes, to: Bytes, i: nat): Bytes
    requires |tag| > 0 && MatchAt(s, tag, i)
  {
    if Replaceable(s, tag, i) then ArgFrom(Change(s, to, i, |tag|), tag, to, i + |to|)
    else ArgFrom(s, tag, to, i + |tag|)
  }

  /** The two outcomes of a step at an occurrence. */
  lemma ArgStepCases(s: Bytes, tag: Bytes, to: Bytes, i: nat)
    requires |tag| > 0 && MatchAt(s, tag, i)
    ensures Replaceable(s, tag, i) ==> ArgStepAt(s, tag, to, i) == ArgFrom(Change(s, to, i, |tag|), tag, to, i + |to|)
    ensures !Replaceable(s, tag, i) ==> ArgStepAt(s, tag, to, i) == ArgFrom(s, tag, to, i + |tag|)
  {
  }

  /** Between `from` and the first occurrence the scan of replaceForArg changes nothing. */
  lemma {:induction false} ArgJump(s: Bytes, tag: Bytes, to: Bytes, from: nat, i: int)
    requires |tag| > 0 && FirstMatch(s, tag, from, i)
    ensures i == -1 ==> ArgFrom(s, tag, to, from) == s
    ensures i != -1 ==> MatchAt(s, tag, i) && ArgFrom(s, tag, to, from) == ArgStepAt(s, tag, to, i)
    decreases |s| - from
  {
    if from + |tag| <= |s| && from != i {
      ArgJump(s, tag, to, from + 1, i);
    }
  }

  /** One round of replaceForArg: from the next occurrence on, the scan resumes with the same result. */
  lemma ArgAdvance(s: Bytes, tag: Bytes, to: Bytes, from: nat, found: int, s': Bytes, index: nat)
    requires |tag| > 0 && FirstMatch(s, tag, from, found) && found != -1
    requires Replaceable(s, tag, found) ==> s' == Change(s, to, found, |tag|) && index == found + |to|
    requires !Replaceable(s, tag, found) ==> s' == s && index == found + |tag|
    ensures ArgFrom(s', tag, to, index) == ArgFrom(s, tag, to, from)
  {
    ArgJump(s, tag, to, from, found);
    ArgStepCases(s, tag, to, found);
  }

  /** Text that no longer holds the tag is left as it is. */
  lemma {:induction false} ArgWithoutTag(s: Bytes, tag: Bytes, to: Bytes, i: nat)
    requires |tag| > 0
    requires forall j :: i <= j ==> !MatchAt(s, tag, j)
    ensures ArgFrom(s, tag, to, i) == s
    decreases |s| - i
  {
    if i + |tag| <= |s| {
      ArgWithoutTag(s, tag, to, i + 1);
    }
  }

  /** `arg` on a text without any `%n` tag leaves it unchanged. */
  lemma ArgNoTag(s: Bytes, to: Bytes)
    requires forall j :: 0 <= j < |s| ==> TagNumberAt(s, j) == 0
    ensures ArgOf(s, to) == s
  {
    ArgTagIsLeast(s);
  }

  /** Every occurrence of `tag` at or after `i` is replaceable. */
  ghost predicate AllReplaceable(s: Bytes, tag: Bytes, i: nat)
  {
    forall j :: i <= j && MatchAt(s, tag, j) ==> Replaceable(s, tag, j)
  }

  lemma ArgShift(s: Bytes, tag: Bytes, to: Bytes, i: nat)
    requires |tag| > 0 && i + |tag| <= |s|
    requires AllReplaceable(s, tag, i + |tag|)
    ensures var s' := Change(s, to, i, |tag|);
            s'[..i + |to|] == s[..i] + to &&
            s'[i + |to|..] == s[i + |tag|..] &&
            AllReplaceable(s', tag, i + |to|)
  {
    var s' := Change(s, to, i, |tag|);
    var d := |tag| - |to|;
    assert s' == s[..i] + to + s[i + |tag|..];
    forall j | i + |to| <= j && MatchAt(s', tag, j) ensures Replaceable(s', tag, j) {
      var jj: nat := j + d;
      assert s'[j..j + |tag|] == s[jj..jj + |tag|];
      assert MatchAt(s, tag, jj);
      assert AtOr(s', j + 2) == AtOr(s, jj + 2);
    }
  }

  /**
   * When every occurrence is replaceable (always so for a three-byte tag),
   * replaceForArg is exactly the left-to-right replacement of every
   * non-overlapping occurrence that byteReplace performs.
   */
  lemma ArgIsReplaceAll(s: Bytes, tag: Bytes, to: Bytes, i: nat)
    requires |tag| > 0 && i <= |s|
    requires AllReplaceable(s, tag, i)
    ensures ArgFrom(s, tag, to, i) == s[..i] + ReplaceSeq(s[i..], tag, to)
  {
    ArgIsSeqFrom(s, tag, to, i);
  }

  /** replaceForArg from `i` on is the prefix followed by ReplaceSeq of the rest. */
  ghost predicate ArgIsSeq(s: Bytes, tag: Bytes, to: Bytes, i: nat)
    requires |tag| > 0 && i <= |s|
  {
    ArgFrom(s, tag, to, i) == s[..i] + ReplaceSeq(s[i..], tag, to)
  }

  lemma {:induction false} ArgIsSeqFrom(s: Bytes, tag: Bytes, to: Bytes, i: nat)
    requires |tag| > 0 && i <= |s|
    requires AllReplaceable(s, tag, i)
    ensures ArgIsSeq(s, tag, to, i)
    decreases |s| - i
  {
    if i + |tag| > |s| {
      assert s[..i] + s[i..] == s;
    } else if MatchAt(s, tag, i) {
      var s' := Change(s, to, i, |tag|);
      ArgShift(s, tag, to, i);
      ArgIsSeqFrom(s', tag, to, i + |to|);
      assert Replaceable(s, tag, i);
      ArgUnfoldMatch(s, tag, to, i);
      ArgMatchCase(s, tag, to, i, s', ArgFrom(s', tag, to, i + |to|));
    } else {
      ArgIsSeqFrom(s, tag, to, i + 1);
      ArgSkipCase(s, tag, to, i);
    }
  }

  /** The result of the replaced text after the inserted bytes, read as the result from the occurrence. */
  lemma ArgMatchCase(s: Bytes, tag: Bytes, to: Bytes, i: nat, s': Bytes, r: Bytes)
    requires |tag| > 0 && i + |tag| <= |s| && s[i..i + |tag|] == tag && i + |to| <= |s'|
    requires s'[..i + |to|] == s[..i] + to && s'[i + |to|..] == s[i + |tag|..]
    requires r == s'[..i + |to|] + ReplaceSeq(s'[i + |to|..], tag, to)
    ensures r == s[..i] + ReplaceSeq(s[i..], tag, to)
  {
    SuffixSplit(s, i, |tag|);
    ReplaceSeqMatch(s[i..], tag, to);
    AppendAssoc(s[..i], to, ReplaceSeq(s[i + |tag|..], tag, to));
  }

  lemma AppendAssoc(a: Bytes, b: Bytes, c: Bytes)
    ensures (a + b) + c == a + (b + c)
  { }


  /** ArgIsSeq where no occurrence starts, from ArgIsSeq one byte further. */
  lemma ArgSkipCase(s: Bytes, tag: Bytes, to: Bytes, i: nat)
    requires |tag| > 0 && i + |tag| <= |s| && !MatchAt(s, tag, i)
    requires ArgIsSeq(s, tag, to, i + 1)
    ensures ArgIsSeq(s, tag, to, i)
  {
    var t := s[i..];
    assert t[..|tag|] != tag;
    assert t[1..] == s[i + 1..];
    assert s[..i + 1] == s[..i] + [s[i]];
  }

  /** One step of replaceForArg at a replaceable occurrence. */
  lemma ArgUnfoldMatch(s: Bytes, tag: Bytes, to: Bytes, i: nat)
    requires |tag| > 0 && i + |tag| <= |s| && MatchAt(s, tag, i) && Replaceable(s, tag, i)
    ensures ArgFrom(s, tag, to, i) == ArgFrom(Change(s, to, i, |tag|), tag, to, i + |to|)
  { }

  /** On a whole text whose every occurrence is replaceable, replaceForArg is byteReplace. */
  lemma ArgIsReplace(s: Bytes, tag: Bytes, to: Bytes)
    requires |tag| > 0 && AllReplaceable(s, tag, 0)
    ensures ArgResult(s, tag, to) == ReplaceAll(s, tag, to)
  {
    ArgIsReplaceAll(s, tag, to, 0);
    ReplaceFromIsSeq(s, tag, to, 0);
    assert s[..0] == [] && s[0..] == s;
  }

  /** Replacing a tag by itself changes nothing. */
  lemma {:induction false} ArgBySelf(s: Bytes, tag: Bytes, i: nat)
    requires |tag| > 0
    ensures ArgFrom(s, tag, tag, i) == s
    decreases |s| - i
  {
    if i + |tag| <= |s| {
      if MatchAt(s, tag, i) {
        assert Change(s, tag, i, |tag|) == s[..i] + s[i..i + |tag|] + s[i + |tag|..] == s;
        ArgBySelf(s, tag, i + |tag|);
      } else {
        ArgBySelf(s, tag, i + 1);
      }
    }
  }

  // ---------------------------------------------------------------------
  // Worked examples of arg
  //
  // Templates are taken apart at their tags: the scans read forward only,
  // so a stretch without `%` passes unchanged and each tag is one step.
  // ---------------------------------------------------------------------

  /** The scan for the least tag reads forward only: behind a prefix it runs as on the rest. */
  lemma {:induction false} MinTagBehind(p: Bytes, q: Bytes, i: nat, cur: nat)
    requires i <= |q|
    ensures MinTagFrom(p + q, |p| + i, cur) == MinTagFrom(q, i, cur)
    decreases |q| - i
  {
    if i < |q| {
      var s := p + q;
      assert s[|p| + i] == q[i];
      assert AtOr(s, |p| + i + 1) == AtOr(q, i + 1);
      assert AtOr(s, |p| + i + 2) == AtOr(q, i + 2);
      var t := TagNumberAt(q, i);
      MinTagBehind(p, q, i + 1, if t > 0 && t < cur then t else cur);
    }
  }

  /** A stretch without `%` holds no tag: the scan passes over it unchanged. */
  lemma {:induction false} MinTagSkip(p: Bytes, q: Bytes, i: nat, cur: nat)
    requires i <= |p| && '%' !in p
    ensures MinTagFrom(p + q, i, cur) == MinTagFrom(q, 0, cur)
    decreases |p| - i
  {
    if i < |p| {
      assert (p + q)[i] == p[i];
      MinTagSkip(p, q, i + 1, cur);
    } else {
      MinTagBehind(p, q, 0, cur);
    }
  }

  /** A tag `%d` that no further digit follows lowers the bound to `d`. */
  lemma MinTagOver(d: byte, q: Bytes, cur: nat)
    requires IsDigit(d) && d != '0' && EndsTag(q)
    ensures MinTagFrom(['%', d] + q, 0, cur) == MinTagFrom(q, 0, if DigitValue(d) < cur then DigitValue(d) else cur)
  {
    var s := ['%', d] + q;
    var next := if DigitValue(d) < cur then DigitValue(d) else cur;
    assert AtOr(s, 1) == d;
    assert AtOr(s, 2) == AtOr(q, 0);
    assert TagNumberAt(s, 0) == DigitValue(d);
    assert s == ['%'] + ([d] + q);
    MinTagBehind(['%'], [d] + q, 0, next);
    MinTagSkip([d], q, 0, next);
  }

  /** Once the bound is 1 no tag can lower it. */
  lemma MinTagAtOne(s: Bytes, i: nat)
    ensures MinTagFrom(s, i, 1) == 1
  {
    MinTagFromLeast(s, i, 1);
  }

  /** A template whose first tag is `%1` has `%1` as its least tag. */
  lemma ArgTagOne(a: Bytes, q: Bytes)
    requires '%' !in a && EndsTag(q)
    ensures ArgTag(a + ("%1" + q)) == "%1"
  {
    MinTagSkip(a, "%1" + q, 0, 100);
    MinTagOver('1', q, 100);
    MinTagAtOne(q, 0);
    assert Decimal(1) == "1";
  }

  /** At an offset behind a prefix, the match, the digit test and the change all see only the rest. */
  lemma ArgBehindStep(p: Bytes, q: Bytes, tag: Bytes, to: Bytes, i: nat)
    requires i + |tag| <= |q|
    ensures MatchAt(p + q, tag, |p| + i) == MatchAt(q, tag, i)
    ensures Replaceable(p + q, tag, |p| + i) == Replaceable(q, tag, i)
    ensures Change(p + q, to, |p| + i, |tag|) == p + Change(q, to, i, |tag|)
  {
    var s := p + q;
    assert s[|p| + i..|p| + i + |tag|] == q[i..i + |tag|];
    assert AtOr(s, |p| + i + 2) == AtOr(q, i + 2);
    assert s[..|p| + i] == p + q[..i];
    assert s[|p| + i + |tag|..] == q[i + |tag|..];
  }

  /** replaceForArg reads forward only: behind a prefix it runs as on the rest. */
  lemma {:induction false} ArgBehind(p: Bytes, q: Bytes, tag: Bytes, to: Bytes, i: nat)
    requires |tag| > 0
    ensures ArgFrom(p + q, tag, to, |p| + i) == p + ArgFrom(q, tag, to, i)
    decreases |q| - i, 1
  {
    if i + |tag| <= |q| {
      ArgBehindStep(p, q, tag, to, i);
      if MatchAt(q, tag, i) && Replaceable(q, tag, i) {
        ArgBehindReplace(p, q, tag, to, i);
      } else {
        ArgBehindPass(p, q, tag, to, i);
      }
    } else {
      assert ArgFrom(p + q, tag, to, |p| + i) == p + q;
    }
  }

  /** ArgBehind at a replaced occurrence. */
  lemma {:induction false} ArgBehindReplace(p: Bytes, q: Bytes, tag: Bytes, to: Bytes, i: nat)
    requires |tag| > 0 && i + |tag| <= |q| && MatchAt(q, tag, i) && Replaceable(q, tag, i)
    requires MatchAt(p + q, tag, |p| + i) && Replaceable(p + q, tag, |p| + i)
    requires Change(p + q, to, |p| + i, |tag|) == p + Change(q, to, i, |tag|)
    ensures ArgFrom(p + q, tag, to, |p| + i) == p + ArgFrom(q, tag, to, i)
    decreases |q| - i, 0
  {
    var q' := Change(q, to, i, |tag|);
    ArgReplaceStep(p + q, p + q', tag, to, |p| + i, |p| + (i + |to|));
    ArgBehind(p, q', tag, to, i + |to|);
  }

  /** One replacing step of replaceForArg, with the changed text and the next position given. */
  lemma ArgReplaceStep(s: Bytes, s': Bytes, tag: Bytes, to: Bytes, i: nat, j: nat)
    requires |tag| > 0 && i + |tag| <= |s| && MatchAt(s, tag, i) && Replaceable(s, tag, i)
    requires s' == Change(s, to, i, |tag|) && j == i + |to|
    ensures ArgFrom(s, tag, to, i) == ArgFrom(s', tag, to, j)
  {
  }

  /** ArgBehind where the scan moves on without a change. */
  lemma {:induction false} ArgBehindPass(p: Bytes, q: Bytes, tag: Bytes, to: Bytes, i: nat)
    requires |tag| > 0 && i + |tag| <= |q| && !(MatchAt(q, tag, i) && Replaceable(q, tag, i))
    requires MatchAt(p + q, tag, |p| + i) == MatchAt(q, tag, i)
    requires Replaceable(p + q, tag, |p| + i) == Replaceable(q, tag, i)
    ensures ArgFrom(p + q, tag, to, |p| + i) == p + ArgFrom(q, tag, to, i)
    decreases |q| - i, 0
  {
    var j := if MatchAt(q, tag, i) then i + |tag| else i + 1;
    assert ArgFrom(p + q, tag, to, |p| + i) == ArgFrom(p + q, tag, to, |p| + j);
    ArgBehind(p, q, tag, to, j);
  }

  /** A stretch without `%` holds no tag: replaceForArg passes over it unchanged. */
  lemma {:induction false} ArgSkip(p: Bytes, q: Bytes, tag: Bytes, to: Bytes, i: nat)
    requires |tag| > 0 && tag[0] == '%' && i <= |p| && '%' !in p
    ensures ArgFrom(p + q, tag, to, i) == p + ArgFrom(q, tag, to, 0)
    decreases |p| - i
  {
    if i < |p| {
      if i + |tag| <= |p + q| {
        assert (p + q)[i..i + |tag|][0] == p[i];
      }
      ArgSkip(p, q, tag, to, i + 1);
    } else {
      ArgBehind(p, q, tag, to, 0);
    }
  }

  /** Text without `%` holds no tag: replaceForArg leaves it as it is. */
  lemma ArgFree(e: Bytes, tag: Bytes, to: Bytes)
    requires |tag| > 0 && tag[0] == '%' && '%' !in e
    ensures ArgFrom(e, tag, to, 0) == e
  {
    assert e + [] == e;
    ArgSkip(e, [], tag, to, 0);
    assert ArgFrom([], tag, to, 0) == [];
  }

  /** The tag itself, when replaceable, becomes `to`. */
  lemma ArgOver(tag: Bytes, q: Bytes, to: Bytes)
    requires |tag| > 0 && Replaceable(tag + q, tag, 0)
    ensures ArgFrom(tag + q, tag, to, 0) == to + ArgFrom(q, tag, to, 0)
  {
    var s := tag + q;
    assert s[0..|tag|] == tag;
    assert Change(s, to, 0, |tag|) == to + q;
    ArgBehind(to, q, tag, to, 0);
  }

  /** Another two-byte tag `%d` is left as it is. */
  lemma ArgPast(d: byte, q: Bytes, tag: Bytes, to: Bytes)
    requires |tag| == 2 && tag[0] == '%' && IsDigit(d) && tag[1] != d
    ensures ArgFrom(['%', d] + q, tag, to, 0) == ['%', d] + ArgFrom(q, tag, to, 0)
  {
    var s := ['%', d] + q;
    assert s[0..2][1] == d;
    assert s == ['%'] + ([d] + q);
    ArgBehind(['%'], [d] + q, tag, to, 0);
    ArgSkip([d], q, tag, to, 0);
  }

  /** The text after a tag does not extend its number. */
  predicate EndsTag(b: Bytes)
  {
    b == [] || !IsDigit(b[0])
  }

  /** The scan for the least tag over `a %d c`, `d` a tag digit and `a`, `c` without `%`. */
  lemma MinTagOnce(a: Bytes, d: byte, c: Bytes, cur: nat)
    requires IsDigit(d) && d != '0'
    requires '%' !in a && '%' !in c && EndsTag(c)
    ensures MinTagFrom(a + (['%', d] + c), 0, cur) == if DigitValue(d) < cur then DigitValue(d) else cur
  {
    MinTagSkip(a, ['%', d] + c, 0, cur);
    MinTagOver(d, c, cur);
    assert c + [] == c;
    MinTagSkip(c, [], 0, if DigitValue(d) < cur then DigitValue(d) else cur);
  }

  /** replaceForArg over `a t c`, `t` a replaceable tag and `a`, `c` without `%`. */
  lemma ArgOnce(a: Bytes, t: Bytes, c: Bytes, to: Bytes)
    requires |t| > 0 && t[0] == '%' && Replaceable(t + c, t, 0)
    requires '%' !in a && '%' !in c
    ensures ArgFrom(a + (t + c), t, to, 0) == a + (to + c)
  {
    ArgSkip(a, t + c, t, to, 0);
    ArgOver(t, c, to);
    ArgFree(c, t, to);
  }

  /** The least tag of a template `a %d b %d c` is `%d`. */
  lemma ArgTagTwice(a: Bytes, d: byte, b: Bytes, c: Bytes)
    requires IsDigit(d) && d != '0'
    requires '%' !in a && '%' !in b && '%' !in c && EndsTag(b) && EndsTag(c)
    ensures ArgTag(a + (['%', d] + (b + (['%', d] + c)))) == ['%', d]
  {
    var n := DigitValue(d);
    MinTagSkip(a, ['%', d] + (b + (['%', d] + c)), 0, 100);
    MinTagOver(d, b + (['%', d] + c), 100);
    MinTagOnce(b, d, c, n);
    assert Decimal(n) == [d];
  }

  /** A template `a %d b %d c` whose only tag, written twice, is `%d`: both become `to`. */
  lemma ArgTwice(a: Bytes, d: byte, b: Bytes, c: Bytes, to: Bytes)
    requires IsDigit(d) && d != '0'
    requires '%' !in a && '%' !in b && '%' !in c && EndsTag(b) && EndsTag(c)
    ensures ArgOf(a + ['%', d] + b + ['%', d] + c, to) == a + to + b + to + c
  {
    var t := ['%', d];
    var s := a + (t + (b + (t + c)));
    assert a + t + b + t + c == s;
    assert a + to + b + to + c == a + (to + (b + (to + c)));
    assert ArgTag(s) == t by {
      ArgTagTwice(a, d, b, c);
    }
    assert ArgFrom(s, t, to, 0) == a + (to + (b + (to + c))) by {
      ArgSkip(a, t + (b + (t + c)), t, to, 0);
      ArgOver(t, b + (t + c), to);
      ArgOnce(b, t, c, to);
    }
  }

  /** replaceForArg of `%1` over `c %1 d %2 e`: the `%1` becomes `x`, the `%2` stays, the scan goes on in `e`. */
  lemma ArgOneThenTwo(c: Bytes, d: Bytes, e: Bytes, x: Bytes)
    requires '%' !in c && '%' !in d && EndsTag(d)
    ensures ArgFrom(c + ("%1" + (d + ("%2" + e))), "%1", x, 0) == c + (x + (d + ("%2" + ArgFrom(e, "%1", x, 0))))
  {
    ArgSkip(c, "%1" + (d + ("%2" + e)), "%1", x, 0);
    ArgOver("%1", d + ("%2" + e), x);
    ArgSkip(d, "%2" + e, "%1", x, 0);
    ArgPast('2', e, "%1", x);
  }

  /** ArgFirstOfPair on the template written right-nested. */
  lemma ArgFirstOfPairNested(a: Bytes, b: Bytes, c: Bytes, d: Bytes, e: Bytes, x: Bytes)
    requires '%' !in a && '%' !in b && '%' !in c && '%' !in d && '%' !in e
    requires EndsTag(b) && EndsTag(c) && EndsTag(d) && EndsTag(e)
    ensures ArgOf(a + ("%1" + (b + ("%2" + (c + ("%1" + (d + ("%2" + e))))))), x)
            == a + (x + (b + ("%2" + (c + (x + (d + ("%2" + e)))))))
  {
    var t1: Bytes, t2: Bytes := "%1", "%2";
    var q3 := c + (t1 + (d + (t2 + e)));
    ArgTagOne(a, b + (t2 + q3));
    ArgFree(e, t1, x);
    ArgOneThenTwo(c, d, e, x);
    ArgOneThenTwo(a, b, q3, x);
  }

  /**
   * The first `arg` on a template `a %1 b %2 c %1 d %2 e`: both `%1` become
   * `x` and the `%2` tags stay.
   */
  lemma ArgFirstOfPair(a: Bytes, b: Bytes, c: Bytes, d: Bytes, e: Bytes, x: Bytes)
    requires '%' !in a && '%' !in b && '%' !in c && '%' !in d && '%' !in e
    requires EndsTag(b) && EndsTag(c) && EndsTag(d) && EndsTag(e)
    ensures ArgOf(a + "%1" + b + "%2" + c + "%1" + d + "%2" + e, x)
            == (a + x + b) + "%2" + (c + x + d) + "%2" + e
  {
    assert a + "%1" + b + "%2" + c + "%1" + d + "%2" + e == a + ("%1" + (b + ("%2" + (c + ("%1" + (d + ("%2" + e)))))));
    assert (a + x + b) + "%2" + (c + x + d) + "%2" + e == a + (x + (b + ("%2" + (c + (x + (d + ("%2" + e)))))));
    ArgFirstOfPairNested(a, b, c, d, e, x);
  }

  /**
   * `arg(x).arg(y)` on a template `a %1 b %2 c %1 d %2 e`: each `%1`
   * becomes `x` and then each `%2` becomes `y`. The text `c` must not be
   * empty, or the `%2` before it would take digits from `x`.
   */
  lemma ArgPair(a: Bytes, b: Bytes, c: Bytes, d: Bytes, e: Bytes, x: Bytes, y: Bytes)
    requires '%' !in a && '%' !in b && '%' !in c && '%' !in d && '%' !in e && '%' !in x
    requires EndsTag(b) && c != [] && EndsTag(c) && EndsTag(d) && EndsTag(e)
    ensures ArgOf(ArgOf(a + "%1" + b + "%2" + c + "%1" + d + "%2" + e, x), y)
            == a + x + b + y + c + x + d + y + e
  {
    ArgFirstOfPair(a, b, c, d, e, x);
    PieceFree(a, x, b);
    PieceFree(c, x, d);
    PieceEndsTag(c, x, d);
    ArgSecondOfPair(a + x + b, c + x + d, e, y);
    PairJoin(a, b, c, d, e, x, y);
  }

  /** A piece made of three texts without `%` has no `%`. */
  lemma PieceFree(a: Bytes, x: Bytes, b: Bytes)
    requires '%' !in a && '%' !in x && '%' !in b
    ensures '%' !in a + x + b
  {
  }

  /** A piece that starts with a non-empty text that is not a digit ends a tag. */
  lemma PieceEndsTag(c: Bytes, x: Bytes, d: Bytes)
    requires c != [] && EndsTag(c)
    ensures EndsTag(c + x + d)
  {
    assert (c + x + d)[0] == c[0];
  }

  /** The second `arg` of a pair: both `%2` become `y`. */
  lemma ArgSecondOfPair(p: Bytes, q: Bytes, e: Bytes, y: Bytes)
    requires '%' !in p && '%' !in q && '%' !in e && EndsTag(q) && EndsTag(e)
    ensures ArgOf(p + "%2" + q + "%2" + e, y) == p + y + q + y + e
  {
    var t2: Bytes := "%2";
    assert t2 == ['%', '2'];
    ArgTwice(p, '2', q, e, y);
  }

  /** Regrouping the result of a pair of `arg` calls. */
  lemma PairJoin(a: Bytes, b: Bytes, c: Bytes, d: Bytes, e: Bytes, x: Bytes, y: Bytes)
    ensures (a + x + b) + y + (c + x + d) + y + e == a + x + b + y + c + x + d + y + e
  {
  }

  /** A template `a %1 b` with one tag: it becomes `to`. */
  lemma ArgSingle(a: Bytes, b: Bytes, to: Bytes)
    requires '%' !in a && '%' !in b && EndsTag(b)
    ensures ArgOf(a + "%1" + b, to) == a + to + b
  {
    assert a + "%1" + b == a + ("%1" + b);
    assert a + to + b == a + (to + b);
    ArgTagOne(a, b);
    ArgOnce(a, "%1", b, to);
  }

  /**
   * The worked examples of `arg` in the String header. Each template is
   * written as its pieces around the tags, and the result likewise.
   */
  lemma ArgExampleHello()
    ensures ArgOf("hello " + "%1" + " world", "new") == "hello " + "new" + " world"
  {
    ArgSingle("hello ", " world", "new");
  }

  /** One tag written twice: both occurrences take the same text. */
  lemma ArgExampleInfo()
    ensures ArgOf("info:\n  name: " + "%1" + " ... app_user_name: " + "%1" + " ...", "Eyre")
            == "info:\n  name: " + "Eyre" + " ... app_user_name: " + "Eyre" + " ..."
  {
    ArgTwice("info:\n  name: ", '1', " ... app_user_name: ", " ...", "Eyre");
  }

  /** Two tags filled by two calls, the least one first. */
  lemma ArgExampleName()
    ensures ArgOf(ArgOf("name: " + "%1" + " " + "%2" + ", first name: " + "%1" + ", last name: " + "%2" + ".", "Eyre"), "Turing")
            == "name: " + "Eyre" + " " + "Turing" + ", first name: " + "Eyre" + ", last name: " + "Turing" + "."
  {
    ArgPair("name: ", " ", ", first name: ", ", last name: ", ".", "Eyre", "Turing");
  }

  /** A NUL-free text is its own C string. */
  lemma CStrOfFree(s: Bytes)
    requires !Has(s, NUL)
    ensures CStr(s) == s
  {
    CStrIsPrefix(s, s);
  }

  class String {
    /** The buffer (`m_data`); a String never swaps it for another one. */
    const m: ByteArray

    /** A valid buffer whose content holds no zero byte. */
    ghost predicate Valid()
      reads this, m, m.data
    {
      m.Valid() && !Has(m.Contents(), NUL)
    }

    function Contents(): Bytes
      reads this, m, m.data
      requires Valid()
    {
      m.Contents()
    }

    /** String(const char *str, CODEC_UTF8): the bytes of the C string. */
    constructor FromCStr(str: Bytes)
      ensures Valid() && fresh(m) && fresh(m.data)
      ensures Contents() == CStr(str)
    {
      m := new ByteArray.FromBytes(CStr(str));
    }

    /**
     * String(const ByteArray &b, CODEC_UTF8): built from the buffer read as
     * a C string, so only the bytes before its first zero byte are kept.
     */
    constructor FromByteArray(b: ByteArray)
      requires b.Valid()
      ensures Valid() && fresh(m) && fresh(m.data)
      ensures Contents() == CStr(b.Contents())
    {
      var whole := b.data[..];
      var c := CStr(b.Contents());
      CStrIsPrefix(b.Contents(), c);
      CStrIsPrefix(whole, c);
      m := new ByteArray.FromBytes(CStr(whole));
    }

    /** append(const char *str): the C string's bytes after the content. */
    method Append(str: Bytes)
      requires Valid()
      modifies m, m.data
      ensures Valid()
      ensures Contents() == old(Contents()) + CStr(str)
    {
      AbsentConcat(m.Contents(), CStr(str), NUL);
      m.Append(CStr(str));
    }

    /** append(char): refused for the zero byte, which leaves the text as it is. */
    method AppendChar(c: byte) returns (ok: bool)
      requires Valid()
      modifies m, m.data
      ensures Valid()
      ensures ok <==> c != NUL
      ensures Contents() == if ok then old(Contents()) + [c] else old(Contents())
    {
      if c == NUL {
        return false;
      }
      AbsentConcat(m.Contents(), [c], NUL);
      m.AppendByte(c);
      return true;
    }

    function Size(): (n: nat)
      reads this, m, m.data
      requires Valid()
      ensures n == |Contents()|
    {
      m.size
    }

    function At(pos: nat): (c: byte)
      reads this, m, m.data
      requires Valid()
      ensures c == AtOr(Contents(), pos)
    {
      m.At(pos)
    }

    /** indexOf(const char *str, offset): the first occurrence of the C string, -1 for an empty one. */
    method IndexOf(str: Bytes, offset: nat) returns (r: int)
      requires Valid()
      ensures |CStr(str)| == 0 ==> r == -1
      ensures |CStr(str)| > 0 ==> FirstMatch(Contents(), CStr(str), offset, r)
    {
      r := m.IndexOf(CStr(str), offset);
    }

    /** mid: a new String with the bytes between `offset` and `offset + n`, clamped as for ByteArray. */
    method Mid(offset: nat, n: int) returns (r: String)
      requires Valid() && offset <= Size()
      ensures fresh(r) && fresh(r.m) && fresh(r.m.data) && r.Valid()
      ensures r.Contents() == MidBytes(Contents(), offset, n)
    {
      var b := m.Mid(offset, n);
      AbsentSlice(Contents(), offset, offset + |b.Contents()|, NUL);
      CStrOfFree(b.Contents());
      r := new String.FromByteArray(b);
    }

    /** split(const char *tag): the buffer's parts, each turned back into a String. */
    method Split(tag: Bytes) returns (parts: seq<Bytes>)
      requires Valid()
      ensures parts == SplitParts(Contents(), CStr(tag))
      ensures forall k :: 0 <= k < |parts| ==> !Has(parts[k], NUL)
    {
      var bparts := m.Split(CStr(tag));
      PartsFree(Contents(), CStr(tag));
      parts := [];
      var i := 0;
      while i < |bparts|
        invariant 0 <= i <= |bparts|
        invariant parts == bparts[..i]
      {
        CStrOfFree(bparts[i]);
        parts := parts + [CStr(bparts[i])];
        i := i + 1;
      }
    }

    /** replace(tag, to) with C strings: byteReplace of their bytes; an empty tag changes nothing. */
    method Replace(tag: Bytes, to: Bytes)
      requires Valid()
      modifies m
      ensures Valid()
      ensures Contents() == if |CStr(tag)| == 0 then old(Contents()) else ReplaceAll(old(Contents()), CStr(tag), CStr(to))
    {
      if |CStr(tag)| > 0 {
        AbsentReplace(m.Contents(), CStr(tag), CStr(to), 0, NUL);
      }
      m.Replace(CStr(tag), CStr(to));
    }

    /** replace(offset, range, to): byteChange with the C string's bytes. */
    method ReplaceRange(offset: nat, range: nat, to: Bytes)
      requires Valid()
      modifies m
      ensures Valid()
      ensures Contents() == Change(old(Contents()), CStr(to), offset, range)
    {
      AbsentChange(m.Contents(), CStr(to), offset, range, NUL);
      m.ReplaceRange(offset, range, CStr(to));
    }

    /** insert: a replacement of an empty range. */
    method Insert(offset: nat, to: Bytes)
      requires Valid()
      modifies m
      ensures Valid()
      ensures Contents() == Change(old(Contents()), CStr(to), offset, 0)
    {
      ReplaceRange(offset, 0, to);
    }

    /**
     * `(*this)[offset] = c`: an offset past the end becomes 0; then nothing
     * is written at or past the end or for the zero byte, and otherwise
     * exactly that one byte changes.
     */
    method IterSet(offset: nat, c: byte)
      requires Valid()
      modifies m.data
      ensures Valid()
      ensures var p := if offset > old(Size()) then 0 else offset;
              Contents() == if p < old(Size()) && c != NUL then old(Contents())[p := c] else old(Contents())
    {
      var p := m.IterOffset(offset);
      if p >= m.size || c == NUL {
        return;
      }
      ghost var before := Contents();
      m.IterSet(p, c);
      forall q | 0 <= q < |Contents()| ensures Contents()[q] != NUL {
        if q != p {
          assert Contents()[q] == before[q];
        }
      }
    }

    /** toUInt64: the number the text starts with. */
    function ToUInt64(): nat
      reads this, m, m.data
      requires Valid()
    {
      ParseU64(Contents())
    }

    /** argFindMinTag: a scan from one `%` to the next, keeping the least tag number seen. */
    method ArgFindMinTag() returns (tag: Bytes)
      requires Valid()
      ensures tag == ArgTag(Contents())
    {
      ghost var s := Contents();
      var minNumber := 100;
      var from: nat := 0;
      CStrOfFree(['%']);
      var index := IndexOf(['%'], from);
      while index != -1
        invariant FirstMatch(s, ['%'], from, index)
        invariant minNumber <= 100
        invariant MinTagFrom(s, from, minNumber) == MinTagFrom(s, 0, 100)
        decreases |s| + 1 - from
      {
        MinTagJump(s, from, index, minNumber);
        ghost var cur := minNumber;
        var c1 := At(index + 1);
        var c2 := At(index + 2);
        minNumber := MinWithTag(minNumber, c1, c2);
        MinTagStep(s, index, cur, c1, c2, minNumber);
        from := index + 1;
        index := IndexOf(['%'], from);
      }
      MinTagJump(s, from, index, minNumber);
      if minNumber < 100 && minNumber > 0 {
        return ['%'] + Decimal(minNumber);
      }
      return [];
    }

    /**
     * replaceForArg(tag, to): every occurrence of `tag` the scan meets is
     * replaced by the C string `to`, except a two-byte tag followed by a
     * digit, which is stepped over.
     */
    method ReplaceForArg(tag: Bytes, to: Bytes)
      requires Valid() && !Has(tag, NUL)
      modifies m
      ensures Valid()
      ensures Contents() == ArgResult(old(Contents()), tag, CStr(to))
    {
      CStrOfFree(tag);
      var tagsize := |tag|;
      var t := CStr(to);
      var index: nat := 0;
      var found := IndexOf(tag, index);
      while found != -1
        invariant Valid()
        invariant |tag| == 0 ==> found == -1 && Contents() == old(Contents())
        invariant |tag| > 0 ==> FirstMatch(Contents(), tag, index, found)
        invariant |tag| > 0 ==> ArgFrom(Contents(), tag, t, index) == ArgResult(old(Contents()), tag, t)
        decreases if found == -1 then 0 else |Contents()| + 1 - found
      {
        ghost var before, from := Contents(), index;
        if tagsize == 3 || !IsDigit(At(found + 2)) {
          ReplaceRange(found, tagsize, to);
          index := found + |t|;
        } else {
          index := found + tagsize;
        }
        ArgAdvance(before, tag, t, from, found, Contents(), index);
        found := IndexOf(tag, index);
      }
      if |tag| > 0 {
        ArgJump(Contents(), tag, t, index, found);
      }
    }

    /** arg(to): the least `%n` tag replaced by the C string `to`. */
    method Arg(to: Bytes)
      requires Valid()
      modifies m
      ensures Valid()
      ensures Contents() == ArgOf(old(Contents()), CStr(to))
    {
      var tag := ArgFindMinTag();
      ArgTagFree(Contents());
      ReplaceForArg(tag, to);
    }
  }

  /** A tag `%n` holds no zero byte. */
  lemma ArgTagFree(s: Bytes)
    ensures !Has(ArgTag(s), NUL)
  {
    var t := ArgTag(s);
    forall p | 0 <= p < |t| ensures t[p] != NUL {
      if p > 0 {
        assert t[p] == Decimal(MinTagFrom(s, 0, 100))[p - 1];
      }
    }
  }

  lemma {:induction false} PartsFromFree(s: Bytes, tag: Bytes, from: nat, start: nat)
    requires |tag| > 0 && start <= from <= |s| && !Has(s, NUL)
    ensures forall k :: 0 <= k < |PartsFrom(s, tag, from, start)| ==> !Has(PartsFrom(s, tag, from, start)[k], NUL)
    decreases |s| - from
  {
    if from + |tag| > |s| {
      AbsentSlice(s, start, |s|, NUL);
    } else if MatchAt(s, tag, from) {
      AbsentSlice(s, start, from, NUL);
      PartsFromFree(s, tag, from + |tag|, from + |tag|);
    } else {
      PartsFromFree(s, tag, from + 1, start);
    }
  }

  /** The parts of a NUL-free text are NUL-free. */
  lemma PartsFree(s: Bytes, tag: Bytes)
    requires !Has(s, NUL)
    ensures forall k :: 0 <= k < |SplitParts(s, tag)| ==> !Has(SplitParts(s, tag)[k], NUL)
  {
    if |tag| > 0 {
      PartsFromFree(s, tag, 0, 0);
    }
  }
}
