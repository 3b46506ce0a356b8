/*
 * Jsons: the framework's JSON value (eyrelib/framework/lib/eyre_json.cpp).
 *
 * A value is one of seven kinds (the `m_type` tags). The text reader
 * `parseFromText` is a loose one: it skips blanks and commas anywhere, keys
 * are taken verbatim between quotes, and strings are unescaped by
 * `descript`, the inverse of `escape` on the five escapable bytes.
 *
 * Children of arrays and objects are held as values: `set` and
 * `JsonArray::append` store a fresh deep copy of their argument, so no child
 * is shared with the caller.
 */
module Jsons {
  import opened Bytes
  import opened ByteArrays
  import Strings

  // ---------------------------------------------------------------------
  // Kinds and results
  // ---------------------------------------------------------------------

  /** The `m_type` tags (JSON_NULL .. JSON_OBJECT). */
  const TypeNull: int := -1
  const TypeNone: int := 0
  const TypeBoolean: int := 1
  const TypeNumber: int := 2
  const TypeString: int := 3
  const TypeArray: int := 4
  const TypeObject: int := 5

  /** The results of `set`. */
  const SetFail: int := 0
  const SetAppend: int := 1
  const SetUpdate: int := 2

  /**
   * A JSON value. `Null` is the failure value `JsonNone` that lookups and
   * failed parses hand back; `None` is a value holding no data yet. A number
   * keeps the digits it was read from: its conversion to a double is not
   * part of this model.
   */
  datatype Value =
    | Null
    | None
    | Bool(b: bool)
    | Num(text: Bytes)
    | Str(s: Bytes)
    | Arr(items: seq<Value>)
    | Obj(fields: map<Bytes, Value>)

  /** The `m_type` tag of a value. */
  function TypeOf(v: Value): (t: int)
    ensures TypeNull <= t <= TypeObject
    ensures t == TypeNull <==> v.Null?
    ensures t == TypeNone <==> v.None?
    ensures t == TypeArray <==> v.Arr?
    ensures t == TypeObject <==> v.Obj?
  {
    match v
    case Null => TypeNull
    case None => TypeNone
    case Bool(_) => TypeBoolean
    case Num(_) => TypeNumber
    case Str(_) => TypeString
    case Arr(_) => TypeArray
    case Obj(_) => TypeObject
  }

  /**
   * The shape every operation keeps: an array holds at least one element and
   * an object at least one key; emptied containers fall back to `None`.
   */
  predicate Canonical(v: Value)
  {
    (v.Arr? ==> v.items != []) && (v.Obj? ==> v.fields != map[])
  }

  /**
   * The copy made by `new Json(val, parent)`: a NULL source becomes NONE
   * (eyre_json.cpp:33-37), and the elements of an array and the values of
   * an object are copied the same way (51-68).
   */
  function Copy(v: Value): (c: Value)
    ensures !c.Null?
    ensures Canonical(v) ==> Canonical(c)
    ensures !v.Null? ==> TypeOf(c) == TypeOf(v)
    ensures v.Arr? ==> c.Arr? && |c.items| == |v.items| &&
                       forall i :: 0 <= i < |v.items| ==> c.items[i] == Copy(v.items[i])
    ensures v.Obj? ==> c.Obj? && c.fields.Keys == v.fields.Keys &&
                       forall k :: k in v.fields ==> c.fields[k] == Copy(v.fields[k])
  {
    match v
    case Null => None
    case Arr(items) => Arr(seq(|items|, i requires 0 <= i < |items| => Copy(items[i])))
    case Obj(fields) => Obj(map k | k in fields :: Copy(fields[k]))
    case _ => v
  }

  /** No `Null` at any depth: the values a Json built by the source's own operations holds. */
  predicate NullFree(v: Value)
  {
    match v
    case Null => false
    case Arr(items) => forall i :: 0 <= i < |items| ==> NullFree(items[i])
    case Obj(fields) => forall k :: k in fields ==> NullFree(fields[k])
    case _ => true
  }

  /** A copy holds no `Null`, and a value without one is its own copy. */
  lemma {:induction false} CopyNullFree(v: Value)
    ensures NullFree(Copy(v))
    ensures NullFree(v) ==> Copy(v) == v
  {
    match v
    case Arr(items) =>
      forall i | 0 <= i < |items| ensures NullFree(Copy(items[i])) && (NullFree(items[i]) ==> Copy(items[i]) == items[i]) {
        CopyNullFree(items[i]);
      }
      if NullFree(v) {
        assert Copy(v).items == items;
      }
    case Obj(fields) =>
      forall k | k in fields ensures NullFree(Copy(fields[k])) && (NullFree(fields[k]) ==> Copy(fields[k]) == fields[k]) {
        CopyNullFree(fields[k]);
      }
      if NullFree(v) {
        assert Copy(v).fields == fields;
      }
    case _ =>
  }

  // ---------------------------------------------------------------------
  // escape / descript
  // ---------------------------------------------------------------------

  const LF: byte := '\n'
  const CR: byte := '\r'
  const TAB: byte := '\t'
  const Quote: byte := '"'
  const Backslash: byte := '\\'

  /** The keys of the escape table: the bytes `escape` rewrites. */
  predicate Escapable(c: byte)
  {
    c == CR || c == LF || c == TAB || c == Quote || c == Backslash
  }

  /** The escape table: each escapable byte as a backslash and a letter. */
  function EscapeOf(c: byte): (r: Bytes)
    requires Escapable(c)
    ensures |r| == 2 && r[0] == Backslash && Unescapes(r[1]) && UnescapeOf(r[1]) == c
  {
    if c == CR then ['\\', 'r']
    else if c == LF then ['\\', 'n']
    else if c == TAB then ['\\', 't']
    else if c == Quote then ['\\', '"']
    else ['\\', '\\']
  }

  /** The keys of the unescape table: the letters a backslash may introduce. */
  predicate Unescapes(c: byte)
  {
    c == 'r' || c == 'n' || c == 't' || c == Quote || c == Backslash
  }

  /** The unescape table. */
  function UnescapeOf(c: byte): (r: byte)
    requires Unescapes(c)
    ensures r != NUL && Escapable(r)
  {
    if c == 'r' then CR
    else if c == 'n' then LF
    else if c == 't' then TAB
    else c
  }

  /** What `String += c` stores: the zero byte is refused. */
  function Keep(c: byte): (r: Bytes)
    ensures |r| <= 1
    ensures c != NUL <==> r == [c]
  {
    if c == NUL then [] else [c]
  }

  /** What `escape` emits for one byte. */
  function EscapeChar(c: byte): (r: Bytes)
  {
    if Escapable(c) then EscapeOf(c) else Keep(c)
  }

  /** What `descript` emits for a backslash followed by `c`: nothing for an unknown letter. */
  function DescriptChar(c: byte): (r: Bytes)
  {
    if Unescapes(c) then [UnescapeOf(c)] else []
  }

  /** The reference definition of `escape`. */
  function Escape(s: Bytes): (r: Bytes)
    ensures |r| <= 2 * |s|
  {
    if |s| == 0 then [] else EscapeChar(s[0]) + Escape(s[1..])
  }

  /**
   * The reference definition of `descript`: a backslash and the byte after
   * it become one byte (or nothing, for an unknown letter); a backslash at
   * the very end reads the zero byte past the text, which `+=` refuses.
   */
  function Descript(s: Bytes): (r: Bytes)
    ensures |r| <= |s|
  {
    if |s| == 0 then []
    else if s[0] == Backslash then (if |s| == 1 then [] else DescriptChar(s[1]) + Descript(s[2..]))
    else Keep(s[0]) + Descript(s[1..])
  }

  /** `descript` reads `s` as whole escape pairs and plain bytes, with no backslash left open at the end. */
  predicate Closed(s: Bytes)
  {
    |s| == 0 ||
    (s[0] == Backslash && |s| >= 2 && Closed(s[2..])) ||
    (s[0] != Backslash && Closed(s[1..]))
  }

  /** Json::escape: each byte through the escape table, any other byte appended as it is. */
  method EscapeText(str: Bytes) returns (r: Bytes)
    ensures r == Escape(str)
  {
    r := [];
    var i := 0;
    while i < |str|
      invariant i <= |str|
      invariant EscapedUpTo(str, i, r)
    {
      var c := str[i];
      if Escapable(c) {
        EscapeAdvance(str, i, r, EscapeOf(c));
        r := r + EscapeOf(c);
      } else if c != NUL {
        EscapeAdvance(str, i, r, [c]);
        r := r + [c];
      } else {
        EscapeAdvance(str, i, r, []);
        assert r + [] == r;
      }
      i := i + 1;
    }
    assert str[|str|..] == [];
  }

  /** `r` is what `escape` has emitted for the bytes before `i`. */
  ghost predicate EscapedUpTo(s: Bytes, i: nat, r: Bytes)
    requires i <= |s|
  {
    r + Escape(s[i..]) == Escape(s)
  }

  /** One step of `escape`'s loop: the byte at `i` adds its table entry. */
  lemma EscapeAdvance(s: Bytes, i: nat, r: Bytes, piece: Bytes)
    requires i < |s| && EscapedUpTo(s, i, r) && piece == EscapeChar(s[i])
    ensures EscapedUpTo(s, i + 1, r + piece)
  {
    assert s[i..][1..] == s[i + 1..];
    assert Escape(s[i..]) == piece + Escape(s[i + 1..]);
    assert r + piece + Escape(s[i + 1..]) == r + (piece + Escape(s[i + 1..]));
  }

  /** The suffix from `i`, empty once `i` has run past the end. */
  function Tail(s: Bytes, i: nat): (r: Bytes)
  {
    if i <= |s| then s[i..] else []
  }

  /** `r` is what `descript` has emitted for the bytes before `i`. */
  ghost predicate DescriptedUpTo(s: Bytes, i: nat, r: Bytes)
  {
    r + Descript(Tail(s, i)) == Descript(s)
  }

  /** A backslash and the byte after it add that byte's table entry. */
  lemma DescriptPair(s: Bytes, i: nat, r: Bytes, piece: Bytes)
    requires i + 1 < |s| && s[i] == Backslash && DescriptedUpTo(s, i, r) && piece == DescriptChar(s[i + 1])
    ensures DescriptedUpTo(s, i + 2, r + piece)
  {
    var t := s[i..];
    assert t[2..] == s[i + 2..];
    assert Descript(t) == piece + Descript(s[i + 2..]);
    assert r + piece + Descript(s[i + 2..]) == r + (piece + Descript(s[i + 2..]));
  }

  /** A backslash in the last position adds nothing, and the scan ends one past the text. */
  lemma DescriptLone(s: Bytes, i: nat, r: Bytes)
    requires i + 1 == |s| && s[i] == Backslash && DescriptedUpTo(s, i, r)
    ensures DescriptedUpTo(s, i + 2, r)
  {
    assert Descript(Tail(s, i)) == [];
    assert r + [] == r;
  }

  /** Any other byte is appended, unless it is the zero byte. */
  lemma DescriptPlain(s: Bytes, i: nat, r: Bytes, piece: Bytes)
    requires i < |s| && s[i] != Backslash && DescriptedUpTo(s, i, r) && piece == Keep(s[i])
    ensures DescriptedUpTo(s, i + 1, r + piece)
  {
    var t := s[i..];
    assert t[1..] == s[i + 1..];
    assert Descript(t) == piece + Descript(s[i + 1..]);
    assert r + piece + Descript(s[i + 1..]) == r + (piece + Descript(s[i + 1..]));
  }

  /**
   * Json::descript: a backslash moves `i` on to the next byte, which goes
   * through the unescape table; at the end of the text `i` runs one past it
   * and the zero byte read there is refused.
   */
  method DescriptText(str: Bytes) returns (r: Bytes)
    ensures r == Descript(str)
  {
    r := [];
    var i: nat := 0;
    assert Tail(str, 0) == str;
    while i < |str|
      invariant i <= |str| + 1
      invariant DescriptedUpTo(str, i, r)
      decreases |str| + 1 - i
    {
      ghost var at := i;
      var escaped := false;
      if str[i] == Backslash {
        i := i + 1;
        escaped := i < |str|;
      }
      if escaped {
        var c := str[i];
        if Unescapes(c) {
          DescriptPair(str, at, r, [UnescapeOf(c)]);
          r := r + [UnescapeOf(c)];
        } else {
          DescriptPair(str, at, r, []);
          assert r + [] == r;
        }
      } else {
        var c := Strings.AtOr(str, i);
        if i == at {
          DescriptPlain(str, at, r, Keep(c));
        } else {
          DescriptLone(str, at, r);
        }
        if c != NUL {
          r := r + [c];
        } else {
          assert r + [] == r;
        }
      }
      i := i + 1;
    }
    assert Tail(str, i) == [];
  }

  /** `descript` distributes over a concatenation whose first part leaves no backslash open. */
  lemma {:induction false} DescriptConcat(a: Bytes, b: Bytes)
    requires Closed(a)
    ensures Descript(a + b) == Descript(a) + Descript(b)
    decreases |a|
  {
    if |a| == 0 {
      assert a + b == b;
    } else if a[0] == Backslash {
      assert (a + b)[2..] == a[2..] + b;
      DescriptConcat(a[2..], b);
    } else {
      assert (a + b)[1..] == a[1..] + b;
      DescriptConcat(a[1..], b);
    }
  }

  /** A backslash followed by a letter outside the table is dropped together with it. */
  lemma DescriptDropsUnknown(a: Bytes, c: byte, b: Bytes)
    requires Closed(a) && !Unescapes(c)
    ensures Descript(a + [Backslash, c] + b) == Descript(a) + Descript(b)
  {
    var p: Bytes := [Backslash, c] + b;
    assert p[0] == Backslash && p[1] == c && p[2..] == b;
    assert Descript(p) == Descript(b) by {
      assert Descript(p) == DescriptChar(c) + Descript(b);
      assert DescriptChar(c) == [];
    }
    DescriptConcat(a, p);
    assert a + [Backslash, c] + b == a + p;
  }

  /** A lone backslash at the end of the text is dropped. */
  lemma DescriptDropsTrailing(a: Bytes)
    requires Closed(a)
    ensures Descript(a + [Backslash]) == Descript(a)
  {
    DescriptConcat(a, [Backslash]);
  }

  /** The output of `escape` leaves no backslash open. */
  lemma {:induction false} EscapeClosed(s: Bytes)
    ensures Closed(Escape(s))
    decreases |s|
  {
    if |s| > 0 {
      EscapeClosed(s[1..]);
      var e := EscapeChar(s[0]);
      var rest := Escape(s[1..]);
      if Escapable(s[0]) {
        assert (e + rest)[2..] == rest;
      } else if s[0] != NUL {
        assert (e + rest)[1..] == rest;
      } else {
        assert e + rest == rest;
      }
    }
  }

  /** The output of `escape` holds no raw line break, carriage return or tab. */
  lemma {:induction false} EscapeOneLine(s: Bytes)
    ensures forall i :: 0 <= i < |Escape(s)| ==> Escape(s)[i] != LF && Escape(s)[i] != CR && Escape(s)[i] != TAB
    decreases |s|
  {
    if |s| > 0 {
      EscapeOneLine(s[1..]);
      var e := EscapeChar(s[0]);
      var rest := Escape(s[1..]);
      forall i | 0 <= i < |e + rest|
        ensures (e + rest)[i] != LF && (e + rest)[i] != CR && (e + rest)[i] != TAB
      {
        if i >= |e| {
          assert (e + rest)[i] == rest[i - |e|];
        }
      }
    }
  }

  /** `descript` undoes `escape` on every text free of zero bytes (every String). */
  lemma {:induction false} EscapeRoundTrip(s: Bytes)
    requires !Has(s, NUL)
    ensures Descript(Escape(s)) == s
    decreases |s|
  {
    if |s| > 0 {
      assert !Has(s[1..], NUL) by {
        forall i | 0 <= i < |s[1..]| ensures s[1..][i] != NUL {
          assert s[1..][i] == s[i + 1];
        }
      }
      EscapeRoundTrip(s[1..]);
      var e := EscapeChar(s[0]);
      var rest := Escape(s[1..]);
      assert s[0] != NUL;
      if Escapable(s[0]) {
        assert (e + rest)[2..] == rest;
      } else {
        assert (e + rest)[1..] == rest;
      }
      assert s == [s[0]] + s[1..];
    }
  }

  // ---------------------------------------------------------------------
  // parseFromText
  // ---------------------------------------------------------------------

  /** The bytes the reader skips between values: space, line feed, carriage return and comma. */
  predicate IsSep(c: byte)
  {
    c == ' ' || c == LF || c == CR || c == ','
  }

  /** The first position at or after `beg` (or `beg` itself, past the end) that is not a separator. */
  function SkipSeps(t: Bytes, beg: nat): (p: nat)
    ensures beg <= p
    ensures p < |t| ==> !IsSep(t[p])
    ensures beg < |t| ==> p <= |t|
    ensures forall k :: beg <= k < p ==> k < |t| && IsSep(t[k])
    decreases |t| - beg
  {
    if beg < |t| && IsSep(t[beg]) then SkipSeps(t, beg + 1) else beg
  }

  /** What `*endpos` ends up holding: not written, or a position. */
  datatype EndPos = Untouched | At(pos: nat)

  /**
   * The outcome of a call: the value returned and the end position, or
   * `Diverges` when an enclosing loop would re-read the same byte forever
   * because a nested call left `*endpos` unwritten.
   */
  datatype Parsed = Parsed(json: Value, end: EndPos) | Diverges

  /** The measure the reader's recursion descends on. */
  function Left(t: Bytes, b: nat): nat
  {
    if b <= |t| then |t| - b else 0
  }

  /**
   * Json::parseFromText(text, beg, &endpos): after the separators, the first
   * byte picks an object, an array, a string, a number, or one of the
   * literals true/false/null; no text at all gives JsonNone without writing
   * the end position, and an unknown byte gives an empty value without
   * writing it.
   */
  function Parse(t: Bytes, beg: nat): (r: Parsed)
    ensures r.Parsed? && r.end.At? ==> beg < r.end.pos
    decreases Left(t, beg), 0
  {
    var p := SkipSeps(t, beg);
    if p >= |t| then Parsed(Null, Untouched)
    else if t[p] == '{' then ObjectFrom(t, p + 1, map[])
    else if t[p] == '[' then ArrayFrom(t, p + 1, [])
    else if t[p] == Quote then StringAt(t, p)
    else if Strings.IsDigit(t[p]) then NumberAt(t, p)
    else if t[p] == 't' then LiteralAt(t, p, "true", Bool(true))
    else if t[p] == 'f' then LiteralAt(t, p, "false", Bool(false))
    else if t[p] == 'n' then LiteralAt(t, p, "null", None)
    else Parsed(None, Untouched)
  }

  /**
   * The object loop from `b`: a `}` (or the end) closes it one past that
   * position; each key is a quoted run followed by `:` and a nested value
   * stored under it; a byte other than a quote where a key belongs, an
   * unclosed key or a missing `:` gives JsonNone ending at the text's length.
   */
  function ObjectFrom(t: Bytes, b: nat, fields: map<Bytes, Value>): (r: Parsed)
    ensures r.Parsed? && r.end.At? ==> b < r.end.pos
    decreases Left(t, b), 1
  {
    if b >= |t| || t[b] == '}' then Parsed(if fields == map[] then None else Obj(fields), At(b + 1))
    else if IsSep(t[b]) then ObjectFrom(t, b + 1, fields)
    else if t[b] != Quote then Parsed(Null, At(|t|))
    else
      var e := Find(t, [Quote], b + 1);
      if e == -1 then Parsed(Null, At(|t|))
      else
        var c := Find(t, ":", e + 1);
        if c == -1 then Parsed(Null, At(|t|))
        else
          match Parse(t, c + 1)
          case Diverges => Diverges
          case Parsed(_, Untouched) => Diverges
          case Parsed(v, At(n)) => ObjectFrom(t, n, fields[t[b + 1..e] := Copy(v)])
  }

  /** The array loop from `b`: a `]` (or the end) closes it; every other non-separator starts an element. */
  function ArrayFrom(t: Bytes, b: nat, items: seq<Value>): (r: Parsed)
    ensures r.Parsed? && r.end.At? ==> b < r.end.pos
    decreases Left(t, b), 1
  {
    if b >= |t| || t[b] == ']' then Parsed(if items == [] then None else Arr(items), At(b + 1))
    else if IsSep(t[b]) then ArrayFrom(t, b + 1, items)
    else
      match Parse(t, b)
      case Diverges => Diverges
      case Parsed(_, Untouched) => Diverges
      case Parsed(v, At(n)) => ArrayFrom(t, n, items + [Copy(v)])
  }

  /**
   * The scan for a string's closing quote from `e`: a backslash makes the
   * byte after it ordinary; the result is the text's length when no quote
   * closes the string.
   */
  function QuoteEnd(t: Bytes, e: nat, en: bool): (r: nat)
    requires e <= |t|
    ensures e <= r <= |t|
    ensures r < |t| ==> t[r] == Quote
    decreases |t| - e
  {
    if e == |t| then e
    else if en then QuoteEnd(t, e + 1, false)
    else if t[e] == Backslash then QuoteEnd(t, e + 1, true)
    else if t[e] == Quote then e
    else QuoteEnd(t, e + 1, false)
  }

  /** A string from the quote at `p`: its body unescaped, ending one past the closing quote. */
  function StringAt(t: Bytes, p: nat): (r: Parsed)
    requires p < |t|
    ensures r.Parsed? && r.end.At? && p < r.end.pos
  {
    var e := QuoteEnd(t, p + 1, false);
    if e >= |t| then Parsed(Null, At(|t|))
    else Parsed(Str(Descript(t[p + 1..e])), At(e + 1))
  }

  /** The end of the run of digits and dots from `e`. */
  function DigitsEnd(t: Bytes, e: nat): (r: nat)
    requires e <= |t|
    ensures e <= r <= |t|
    ensures r < |t| ==> !(Strings.IsDigit(t[r]) || t[r] == '.')
    decreases |t| - e
  {
    if e < |t| && (Strings.IsDigit(t[e]) || t[e] == '.') then DigitsEnd(t, e + 1) else e
  }

  /**
   * A number from the digit at `p`: the run of digits and dots, ending one
   * past the byte that stops it; a run reaching the end of the text gives
   * JsonNone.
   */
  function NumberAt(t: Bytes, p: nat): (r: Parsed)
    requires p < |t|
    ensures r.Parsed? && r.end.At? && p < r.end.pos
  {
    var e := DigitsEnd(t, p);
    if e >= |t| then Parsed(Null, At(|t|))
    else Parsed(Num(t[p..e]), At(e + 1))
  }

  /** A literal at `p`: `mid(p, |word|)` must equal the word, else JsonNone ending at the text's length. */
  function LiteralAt(t: Bytes, p: nat, word: Bytes, v: Value): (r: Parsed)
    requires p < |t| && |word| > 0
    ensures r.Parsed? && r.end.At? && p < r.end.pos
  {
    if MidBytes(t, p, |word|) != word then Parsed(Null, At(|t|))
    else Parsed(v, At(p + |word|))
  }

  /** Every byte from `beg` up to `p` is a separator inside the text. */
  ghost predicate SepsBetween(t: Bytes, beg: nat, p: nat)
  {
    p <= |t| && forall k :: beg <= k < p ==> IsSep(t[k])
  }

  /** Separators before a value change nothing. */
  lemma {:induction false} SkipSepsFrom(t: Bytes, beg: nat, p: nat)
    requires beg <= p
    requires SepsBetween(t, beg, p)
    ensures SkipSeps(t, beg) == SkipSeps(t, p)
    decreases p - beg
  {
    if beg < p {
      assert IsSep(t[beg]);
      SkipSepsFrom(t, beg + 1, p);
    }
  }

  /** The reader skips leading spaces, line breaks, carriage returns and commas. */
  lemma ParseSkipsSeparators(t: Bytes, beg: nat, p: nat)
    requires beg <= p
    requires SepsBetween(t, beg, p)
    ensures Parse(t, beg) == Parse(t, p)
  {
    SkipSepsFrom(t, beg, p);
  }

  /** A text holding nothing but separators from `beg` gives JsonNone and leaves the end position unwritten. */
  lemma ParseBlank(t: Bytes, beg: nat)
    requires forall k :: beg <= k < |t| ==> IsSep(t[k])
    ensures Parse(t, beg) == Parsed(Null, Untouched)
  {
  }

  /** The literal whose first byte is `c`. */
  function WordOf(c: byte): (w: Bytes)
    requires c == 't' || c == 'f' || c == 'n'
    ensures |w| > 0 && w[0] == c
  {
    if c == 't' then "true" else if c == 'f' then "false" else "null"
  }

  /** What a well-formed literal reads as. */
  function LiteralValue(c: byte): Value
    requires c == 't' || c == 'f' || c == 'n'
  {
    if c == 't' then Bool(true) else if c == 'f' then Bool(false) else None
  }

  /**
   * After the separators, a literal ends exactly after its word (at p+4
   * for true and null, p+5 for false); a first byte t, f or n not followed
   * by the rest of the word gives JsonNone ending at the text's length.
   */
  lemma ParseLiteral(t: Bytes, beg: nat, p: nat)
    requires beg <= p < |t|
    requires SepsBetween(t, beg, p)
    requires t[p] == 't' || t[p] == 'f' || t[p] == 'n'
    ensures MatchAt(t, WordOf(t[p]), p) ==> Parse(t, beg) == Parsed(LiteralValue(t[p]), At(p + |WordOf(t[p])|))
    ensures !MatchAt(t, WordOf(t[p]), p) ==> Parse(t, beg) == Parsed(Null, At(|t|))
  {
    SkipSepsFrom(t, beg, p);
    assert SkipSeps(t, p) == p;
    var w := WordOf(t[p]);
    assert MidBytes(t, p, |w|) == w <==> MatchAt(t, w, p);
  }

  /** Where `t` holds `e + rest` from `k`: the first bytes of `e`, and `rest` after them. */
  lemma SpliceAt(t: Bytes, k: nat, e: Bytes, rest: Bytes)
    requires k + |e| + |rest| <= |t| && t[k..k + |e| + |rest|] == e + rest
    ensures t[k + |e|..k + |e| + |rest|] == rest
    ensures forall j :: 0 <= j < |e| ==> t[k + j] == e[j]
  {
    assert t[k + |e|..k + |e| + |rest|] == (e + rest)[|e|..];
    forall j | 0 <= j < |e| ensures t[k + j] == e[j] {
      assert t[k + j] == t[k..k + |e| + |rest|][j];
    }
  }

  /** The scan for the closing quote steps over what `escape` emits for one byte. */
  lemma QuoteEndStep(t: Bytes, k: nat, c: byte, e: Bytes)
    requires e == EscapeChar(c) && k + |e| < |t|
    requires forall j :: 0 <= j < |e| ==> t[k + j] == e[j]
    ensures QuoteEnd(t, k, false) == QuoteEnd(t, k + |e|, false)
  {
    if Escapable(c) {
      assert t[k + 0] == e[0] == Backslash;
      assert QuoteEnd(t, k, false) == QuoteEnd(t, k + 1, true);
    } else if c != NUL {
      assert t[k + 0] == e[0] == c;
    }
  }

  /** The scan for the closing quote passes over everything `escape` emits. */
  lemma {:induction false} QuoteEndEscaped(t: Bytes, k: nat, s: Bytes, es: Bytes)
    requires es == Escape(s)
    requires k + |es| < |t| && t[k..k + |es|] == es && t[k + |es|] == Quote
    ensures QuoteEnd(t, k, false) == k + |es|
    decreases |s|
  {
    if |s| > 0 {
      var e := EscapeChar(s[0]);
      var rest := Escape(s[1..]);
      assert es == e + rest;
      SpliceAt(t, k, e, rest);
      QuoteEndEscaped(t, k + |e|, s[1..], rest);
      QuoteEndStep(t, k, s[0], e);
    }
  }

  // ---------------------------------------------------------------------
  // toString (scalars)
  // ---------------------------------------------------------------------

  /** The kinds whose printing this model covers. */
  predicate Scalar(v: Value)
  {
    v.Null? || v.None? || v.Bool? || v.Str?
  }

  /**
   * Json::toString on a scalar: `null` for NULL and NONE, `true`/`false`,
   * and a string escaped between quotes.
   */
  function ToString(v: Value): (r: Bytes)
    requires Scalar(v)
    ensures |r| > 0
  {
    match v
    case Bool(b) => if b then "true" else "false"
    case Str(s) => [Quote] + Escape(s) + [Quote]
    case _ => "null"
  }

  /** A printed string reads back as the same string, ending right after its closing quote. */
  lemma StringRoundTrip(s: Bytes, rest: Bytes)
    requires !Has(s, NUL)
    ensures Parse(ToString(Str(s)) + rest, 0) == Parsed(Str(s), At(|ToString(Str(s))|))
  {
    var e := Escape(s);
    var t := ToString(Str(s)) + rest;
    assert t == [Quote] + e + [Quote] + rest;
    assert t[1..1 + |e|] == e;
    assert t[1 + |e|] == Quote;
    QuoteEndEscaped(t, 1, s, e);
    EscapeRoundTrip(s);
    assert SkipSeps(t, 0) == 0;
  }

  /**
   * Every printed scalar reads back as itself, except that JsonNone prints
   * as `null`, which reads as an empty value; the end position is the
   * printed length, whatever follows.
   */
  lemma ScalarRoundTrip(v: Value, rest: Bytes)
    requires Scalar(v)
    requires v.Str? ==> !Has(v.s, NUL)
    ensures Parse(ToString(v) + rest, 0) == Parsed(Copy(v), At(|ToString(v)|))
  {
    var t := ToString(v) + rest;
    if v.Str? {
      StringRoundTrip(v.s, rest);
    } else {
      assert t[..|ToString(v)|] == ToString(v);
      ParseLiteral(t, 0, 0);
    }
  }

  /** An element the reader cannot start leaves its end position unwritten, so the array loop never ends. */
  lemma UnknownElementDiverges()
    ensures Parse("[x]", 0) == Diverges
  {
    var t: Bytes := "[x]";
    assert SkipSeps(t, 0) == 0;
    assert SkipSeps(t, 1) == 1;
    assert Parse(t, 1) == Parsed(None, Untouched);
  }

  // ---------------------------------------------------------------------
  // Object and array operations on values
  // ---------------------------------------------------------------------

  /** Json::keyExist: only an object has keys. */
  predicate KeyExists(v: Value, key: Bytes)
  {
    v.Obj? && key in v.fields
  }

  datatype SetResult = SetResult(status: int, json: Value)

  /**
   * Json::set: refused (JSON_FAIL) unless the value is an object or empty;
   * otherwise a copy of `x` is stored under `key`, reported as an update
   * when the key was there and as an append when it was not.
   */
  function SetKey(v: Value, key: Bytes, x: Value): (r: SetResult)
    ensures r.status == SetFail <==> !(v.None? || v.Obj?)
    ensures r.status == SetFail ==> r.json == v
    ensures r.status == SetUpdate <==> KeyExists(v, key)
    ensures r.status == SetAppend <==> (v.None? || v.Obj?) && !KeyExists(v, key)
    ensures r.status != SetFail ==> KeyExists(r.json, key) && r.json.fields[key] == Copy(x)
    ensures r.status != SetFail ==>
      forall k :: k != key ==> KeyExists(r.json, k) == KeyExists(v, k) && (KeyExists(v, k) ==> r.json.fields[k] == v.fields[k])
    ensures Canonical(v) ==> Canonical(r.json)
  {
    if !(v.None? || v.Obj?) then SetResult(SetFail, v)
    else
      var before := if v.Obj? then v.fields else map[];
      SetResult(if key in before then SetUpdate else SetAppend, Obj(before[key := Copy(x)]))
  }

  datatype Removed = Removed(ok: bool, json: Value)

  /**
   * Json::remove: false for a non-object or a missing key; otherwise the key
   * goes, and an object left without keys becomes empty (NONE).
   */
  function RemoveKey(v: Value, key: Bytes): (r: Removed)
    ensures r.ok <==> KeyExists(v, key)
    ensures !r.ok ==> r.json == v
    ensures r.ok ==> !KeyExists(r.json, key)
    ensures r.ok ==>
      forall k :: k != key ==> KeyExists(r.json, k) == KeyExists(v, k) && (KeyExists(v, k) ==> r.json.fields[k] == v.fields[k])
    ensures r.ok ==> (r.json.None? <==> v.fields.Keys == {key})
    ensures Canonical(v) ==> Canonical(r.json)
  {
    if !KeyExists(v, key) then Removed(false, v)
    else
      var rest := v.fields - {key};
      assert rest.Keys == v.fields.Keys - {key};
      assert forall k :: k in rest <==> k in v.fields && k != key;
      Removed(true, if rest == map[] then None else Obj(rest))
  }

  /** Removing a key just stored under a fresh name gives back the value as it was. */
  lemma SetThenRemove(v: Value, key: Bytes, x: Value)
    requires Canonical(v) && (v.None? || v.Obj?) && !KeyExists(v, key)
    ensures RemoveKey(SetKey(v, key, x).json, key) == Removed(true, v)
  {
    if v.Obj? {
      assert v.fields[key := Copy(x)] - {key} == v.fields;
    }
  }

  /** JsonArray::size: the element count of an array, zero for anything else. */
  function SizeOf(v: Value): (n: nat)
    ensures n > 0 ==> v.Arr?
  {
    if v.Arr? then |v.items| else 0
  }

  /** The elements of an array, none for anything else. */
  function ItemsOf(v: Value): (s: seq<Value>)
    ensures |s| == SizeOf(v)
  {
    if v.Arr? then v.items else []
  }

  /**
   * JsonArray::append: refused unless the value is an array or empty;
   * otherwise a copy of `x` goes at the end and the value is an array.
   */
  function ArrayAppend(v: Value, x: Value): (r: Value)
    ensures (v.None? || v.Arr?) ==> r.Arr? && r.items == ItemsOf(v) + [Copy(x)]
    ensures (v.None? || v.Arr?) ==> SizeOf(r) == SizeOf(v) + 1
    ensures !(v.None? || v.Arr?) ==> r == v
    ensures Canonical(v) ==> Canonical(r)
  {
    if v.Arr? then Arr(v.items + [Copy(x)])
    else if v.None? then Arr([Copy(x)])
    else v
  }

  /**
   * JsonArray::remove, with the type reset that line 995 means to make: an
   * index past the end is refused; otherwise that element goes, and an
   * array left without elements becomes empty (NONE).
   */
  function ArrayRemove(v: Value, index: nat): (r: Removed)
    ensures r.ok <==> index < SizeOf(v)
    ensures !r.ok ==> r.json == v
    ensures r.ok ==> ItemsOf(r.json) == ItemsOf(v)[..index] + ItemsOf(v)[index + 1..]
    ensures r.ok ==> (r.json.None? <==> SizeOf(v) == 1) && (r.json.Arr? <==> SizeOf(v) > 1)
    ensures Canonical(v) ==> Canonical(r.json)
  {
    if index >= SizeOf(v) then Removed(false, v)
    else
      var rest := v.items[..index] + v.items[index + 1..];
      Removed(true, if rest == [] then None else Arr(rest))
  }

  /** JsonArray::remove as written: line 995 compares the type instead of assigning it. */
  function ArrayRemoveAsWritten(v: Value, index: nat): (r: Removed)
    ensures r.ok <==> index < SizeOf(v)
    ensures r.ok ==> r.json.Arr? && r.json.items == ItemsOf(v)[..index] + ItemsOf(v)[index + 1..]
  {
    if index >= SizeOf(v) then Removed(false, v)
    else Removed(true, Arr(v.items[..index] + v.items[index + 1..]))
  }

  /** Removing the element just appended gives back the value as it was. */
  lemma AppendThenRemove(v: Value, x: Value)
    requires Canonical(v) && (v.None? || v.Arr?)
    ensures ArrayRemove(ArrayAppend(v, x), SizeOf(v)) == Removed(true, v)
  {
    var a := ArrayAppend(v, x);
    assert a.items[..SizeOf(v)] + a.items[SizeOf(v) + 1..] == ItemsOf(v);
  }

  /**
   * As written, emptying an array leaves it an ARRAY with no elements: the
   * shape no other operation produces, which prints as `[]` and which
   * `set` then refuses, where an untouched empty value accepts the key.
   */
  lemma RemoveLastKeepsArray()
    ensures var r := ArrayRemoveAsWritten(ArrayAppend(None, Bool(true)), 0);
      r.ok && r.json == Arr([]) && !Canonical(r.json) && SetKey(r.json, "k", None).status == SetFail
    ensures var r := ArrayRemove(ArrayAppend(None, Bool(true)), 0);
      r.ok && r.json == None && SetKey(r.json, "k", None).status == SetAppend
  {
  }

  // ---------------------------------------------------------------------
  // Assignment
  // ---------------------------------------------------------------------

  /**
   * asObject(const Json &val): the target becomes empty, then takes copies
   * of `val`'s keys; a source that is not an object brings nothing.
   */
  function ObjectPart(src: Value): (r: Value)
    ensures r.None? || r.Obj?
    ensures r.Obj? <==> src.Obj? && src.fields != map[]
    ensures r.Obj? ==> r.fields.Keys == src.fields.Keys && forall k :: k in src.fields ==> r.fields[k] == Copy(src.fields[k])
  {
    if src.Obj? && src.fields != map[] then Copy(src) else None
  }

  /** operator=(const Json &) as written: a NULL target stays, any other takes only `src`'s object part. */
  function AssignAsWritten(dst: Value, src: Value): (r: Value)
    ensures dst.Null? ==> r == dst
    ensures !dst.Null? ==> r.None? || r.Obj?
  {
    if dst.Null? then dst else ObjectPart(src)
  }

  /** operator=(const Json &) as evidently intended: a NULL target stays, any other becomes a copy of `src`. */
  function AssignCopy(dst: Value, src: Value): (r: Value)
    ensures dst.Null? ==> r == dst
    ensures !dst.Null? ==> NullFree(r)
    ensures !dst.Null? && NullFree(src) ==> r == src
    ensures !dst.Null? && src.Null? ==> r == None
    ensures !dst.Null? && !src.Null? ==> TypeOf(r) == TypeOf(src)
  {
    CopyNullFree(src);
    if dst.Null? then dst else Copy(src)
  }

  /** As written, assigning a boolean (or a string, number or array) Json leaves the target empty. */
  lemma AssignDropsScalars()
    ensures AssignAsWritten(None, Bool(true)) == None
    ensures AssignCopy(None, Bool(true)) == Bool(true)
  {
  }

  /** Every mutator leaves a NULL value as it is. */
  lemma NullFrozen(key: Bytes, x: Value, index: nat)
    ensures SetKey(Null, key, x) == SetResult(SetFail, Null)
    ensures RemoveKey(Null, key) == Removed(false, Null)
    ensures ArrayAppend(Null, x) == Null
    ensures ArrayRemove(Null, index) == Removed(false, Null)
    ensures AssignCopy(Null, x) == Null
  {
  }

  // ---------------------------------------------------------------------
  // The Json class
  // ---------------------------------------------------------------------

  class Json {
    /** `m_type`. */
    var kind: int
    /** `m_bolval`. */
    var bolval: bool
    /** `m_numval`, kept as the number's digits. */
    var numval: Bytes
    /** `m_strval`. */
    var strval: Bytes
    /** `m_arrval`: copies of the elements. */
    var arrval: seq<Value>
    /** `m_objval`: copies of the values, by key. */
    var objval: map<Bytes, Value>

    /** A known tag, and container data held exactly by a non-empty array or object. */
    ghost predicate Valid()
      reads this
    {
      TypeNull <= kind <= TypeObject &&
      (kind == TypeArray <==> arrval != []) &&
      (kind == TypeObject <==> objval != map[])
    }

    /** The value the fields hold. */
    function ToValue(): (v: Value)
      reads this
      ensures Valid() ==> TypeOf(v) == kind && Canonical(v)
    {
      if kind == TypeNull then Null
      else if kind == TypeBoolean then Bool(bolval)
      else if kind == TypeNumber then Num(numval)
      else if kind == TypeString then Str(strval)
      else if kind == TypeArray then Arr(arrval)
      else if kind == TypeObject then Obj(objval)
      else None
    }

    /** Json(): an empty value. */
    constructor ()
      ensures Valid() && ToValue() == None
    {
      kind := TypeNone;
      bolval := false;
      numval := [];
      strval := [];
      arrval := [];
      objval := map[];
    }

    /** Json::null(): the failure value. */
    constructor NullValue()
      ensures Valid() && ToValue() == Null
    {
      kind := TypeNull;
      bolval := false;
      numval := [];
      strval := [];
      arrval := [];
      objval := map[];
    }

    /** cleanOldTypeData: the container data of an array or an object is dropped. */
    method CleanOldTypeData()
      requires Valid()
      modifies this
      ensures kind == old(kind) && bolval == old(bolval) && numval == old(numval) && strval == old(strval)
      ensures arrval == [] && objval == map[]
    {
      if kind == TypeArray {
        arrval := [];
      } else if kind == TypeObject {
        objval := map[];
      }
    }

    /** asBoolean / operator=(bool): ignored on NULL, otherwise the value becomes the boolean. */
    method AsBoolean(val: bool)
      requires Valid()
      modifies this
      ensures Valid()
      ensures old(kind) == TypeNull ==> ToValue() == Null
      ensures old(kind) != TypeNull ==> ToValue() == Bool(val)
    {
      if kind == TypeNull {
        return;
      }
      CleanOldTypeData();
      kind := TypeBoolean;
      bolval := val;
    }

    /** asNumber / operator=(double): ignored on NULL, otherwise the value becomes the number. */
    method AsNumber(val: Bytes)
      requires Valid()
      modifies this
      ensures Valid()
      ensures old(kind) == TypeNull ==> ToValue() == Null
      ensures old(kind) != TypeNull ==> ToValue() == Num(val)
    {
      if kind == TypeNull {
        return;
      }
      CleanOldTypeData();
      kind := TypeNumber;
      numval := val;
    }

    /** asString / operator=(const String &): ignored on NULL, otherwise the value becomes the string. */
    method AsString(val: Bytes)
      requires Valid()
      modifies this
      ensures Valid()
      ensures old(kind) == TypeNull ==> ToValue() == Null
      ensures old(kind) != TypeNull ==> ToValue() == Str(val)
    {
      if kind == TypeNull {
        return;
      }
      CleanOldTypeData();
      kind := TypeString;
      strval := val;
    }

    /** asArray() / asObject(): ignored on NULL, otherwise the value is emptied to NONE. */
    method Clear()
      requires Valid()
      modifies this
      ensures Valid()
      ensures old(kind) == TypeNull ==> ToValue() == Null
      ensures old(kind) != TypeNull ==> ToValue() == None
    {
      if kind == TypeNull {
        return;
      }
      CleanOldTypeData();
      kind := TypeNone;
    }

    /**
     * asArray(const JsonArray &) / operator=(const JsonArray &): ignored on
     * NULL; otherwise emptied, then a copy of each element is appended, the
     * value turning ARRAY with the first one.
     */
    method AsArray(val: seq<Value>)
      requires Valid()
      modifies this
      ensures Valid()
      ensures old(kind) == TypeNull ==> ToValue() == Null
      ensures old(kind) != TypeNull ==> ToValue() == if val == [] then None else Arr(CopyAll(val))
    {
      if kind == TypeNull {
        return;
      }
      Clear();
      for i := 0 to |val|
        invariant Valid() && objval == map[]
        invariant arrval == CopyAll(val[..i])
        invariant i == 0 ==> kind == TypeNone
        invariant i > 0 ==> kind == TypeArray
      {
        kind := TypeArray;
        assert val[..i + 1][..i] == val[..i];
        arrval := arrval + [Copy(val[i])];
      }
      assert val[..|val|] == val;
    }

    /**
     * asObject(const Json &val): ignored on NULL; otherwise emptied, then a
     * copy of each of `val`'s keys is stored, the value turning OBJECT with
     * the first one.
     */
    method AsObject(val: Value)
      requires Valid() && Canonical(val)
      modifies this
      ensures Valid()
      ensures old(kind) == TypeNull ==> ToValue() == Null
      ensures old(kind) != TypeNull ==> ToValue() == ObjectPart(val)
    {
      if kind == TypeNull {
        return;
      }
      Clear();
      if val.Obj? {
        kind := TypeObject;
        objval := map k | k in val.fields :: Copy(val.fields[k]);
      }
    }

    /** operator=(const Json &), as evidently intended: the value becomes a copy of `src`. */
    method Assign(src: Value)
      requires Valid() && Canonical(src)
      modifies this
      ensures Valid()
      ensures ToValue() == AssignCopy(old(ToValue()), src)
    {
      if kind == TypeNull {
        return;
      }
      match src
      case Null => Clear();
      case None => Clear();
      case Bool(b) => AsBoolean(b);
      case Num(n) => AsNumber(n);
      case Str(s) => AsString(s);
      case Arr(items) =>
        AsArray(items);
        assert CopyAll(items) == Copy(src).items;
      case Obj(fields) => AsObject(src);
    }

    /** Json::type. */
    function Type(): (t: int)
      reads this
      requires Valid()
      ensures t == TypeOf(ToValue())
    {
      kind
    }

    /** Json::keyExist: the key is there and the value is an object. */
    function KeyExist(key: Bytes): (b: bool)
      reads this
      requires Valid()
      ensures b == KeyExists(ToValue(), key)
    {
      kind == TypeObject && key in objval
    }

    /** Json::set. */
    method Set(key: Bytes, val: Value) returns (status: int)
      requires Valid()
      modifies this
      ensures Valid()
      ensures status == SetKey(old(ToValue()), key, val).status
      ensures ToValue() == SetKey(old(ToValue()), key, val).json
    {
      if kind != TypeObject && kind != TypeNone {
        return SetFail;
      }
      if KeyExist(key) {
        status := SetUpdate;
      } else {
        status := SetAppend;
      }
      objval := objval[key := Copy(val)];
      assert key in objval;
      if kind == TypeNone {
        kind := TypeObject;
      }
    }

    /** Json::remove. */
    method Remove(key: Bytes) returns (ok: bool)
      requires Valid()
      modifies this
      ensures Valid()
      ensures ok == RemoveKey(old(ToValue()), key).ok
      ensures ToValue() == RemoveKey(old(ToValue()), key).json
    {
      if kind != TypeObject {
        return false;
      }
      if key !in objval {
        return false;
      }
      objval := objval - {key};
      if objval == map[] {
        kind := TypeNone;
      }
      return true;
    }

    /** Json::toArray: a view on this value when it is an array or empty, otherwise on a NULL value. */
    method ToArray() returns (a: JsonArray)
      requires Valid()
      ensures kind == TypeArray || kind == TypeNone ==> a.json == this
      ensures !(kind == TypeArray || kind == TypeNone) ==> fresh(a.json) && a.json.Valid() && a.json.ToValue() == Null
    {
      if kind != TypeArray && kind != TypeNone {
        var none := new Json.NullValue();
        a := new JsonArray(none);
        return;
      }
      a := new JsonArray(this);
    }
  }

  /** Copies of each value, in order. */
  function CopyAll(s: seq<Value>): (r: seq<Value>)
    ensures |r| == |s| && forall i :: 0 <= i < |s| ==> r[i] == Copy(s[i])
  {
    if |s| == 0 then [] else CopyAll(s[..|s| - 1]) + [Copy(s[|s| - 1])]
  }

  /** JsonArray: a handle on a Json used as a list. */
  class JsonArray {
    /** `m_json`. */
    const json: Json

    constructor (j: Json)
      ensures json == j
    {
      json := j;
    }

    /** JsonArray::size. */
    function Size(): (n: nat)
      reads json
      requires json.Valid()
      ensures n == SizeOf(json.ToValue())
    {
      if json.kind != TypeArray && json.kind != TypeNone then 0 else |json.arrval|
    }

    /** JsonArray::append. */
    method Append(x: Value)
      requires json.Valid()
      modifies json
      ensures json.Valid()
      ensures json.ToValue() == ArrayAppend(old(json.ToValue()), x)
    {
      if json.kind != TypeArray && json.kind != TypeNone {
        return;
      }
      json.arrval := json.arrval + [Copy(x)];
      json.kind := TypeArray;
    }

    /** JsonArray::remove, with the type reset of line 995 made an assignment. */
    method Remove(index: nat) returns (ok: bool)
      requires json.Valid()
      modifies json
      ensures json.Valid()
      ensures ok == ArrayRemove(old(json.ToValue()), index).ok
      ensures json.ToValue() == ArrayRemove(old(json.ToValue()), index).json
    {
      if index >= Size() {
        return false;
      }
      json.arrval := json.arrval[..index] + json.arrval[index + 1..];
      if |json.arrval| == 0 {
        json.kind := TypeNone;
      }
      return true;
    }
  }
}
