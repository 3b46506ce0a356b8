/**
 * FrameCodec: the tunnel's framing, shared by the server and the client.
 *
 * Four frames travel over the tunnel connection:
 *   c:<id>#                  a user connected
 *   d:<id>#                  a user disconnected
 *   m:<id>;<length>#<data>   <length> bytes of data for or from a user
 *   a#                       the client is alive
 *
 * `messageRead` decodes them incrementally. Its state is the unfinished
 * header (`head`), the payload collected so far (`buffer`), the payload's
 * owner (`sender`) and the number of payload bytes still expected
 * (`restBufferSize`). The reference semantics here consumes one byte at a
 * time (`Step`, folded by `Run`); the chunked loop of the source is proved
 * to agree with it, which makes the decoder blind to how the stream is cut.
 */
module FrameCodec {
  import opened Bytes
  import opened ByteArrays
  import opened Strings
  import opened General

  /** An entry of `m_messages`: its `type` field is the constructor. */
  datatype Event = Connect(id: Bytes) | Disconnect(id: Bytes) | Message(id: Bytes, data: Bytes) | Alive

  /** The decoder's globals `head`, `buffer`, `sender` and `restBufferSize`. */
  datatype Decoder = Decoder(head: Bytes, buffer: Bytes, sender: Bytes, rest: nat)

  /** A decoder state together with the events produced on the way to it. */
  datatype Fed = Fed(dec: Decoder, events: seq<Event>)

  const Hash: byte := '#'
  const Colon: byte := ':'
  const Semicolon: byte := ';'

  /** The start state, and the state between two frames of a well-formed stream (`sender` aside). */
  predicate Ready(d: Decoder)
  {
    d.head == [] && d.buffer == [] && d.rest == 0
  }

  /** What the decoder keeps true: the unfinished header holds no `#`, and no payload is buffered outside a message. */
  predicate Sane(d: Decoder)
  {
    !Has(d.head, Hash) && (d.rest == 0 ==> d.buffer == [])
  }

  /**
   * A complete header `h` (the bytes before `#`) acted upon: split at `:`,
   * its first field compared as `ByteArray == "c"` compares (the field may
   * carry trailing zero bytes), ids taken up to their first NUL. An `m`
   * header arms the payload; `c`, `d` and `a` headers emit an event; any
   * other header is dropped.
   */
  function HeaderEffect(d: Decoder, h: Bytes): Fed
  {
    var info := SplitParts(h, [Colon]);
    if ZeroPadded(info[0], "c") then
      if |info| == 2 then Fed(d, [Connect(CStr(info[1]))]) else Fed(d, [])
    else if ZeroPadded(info[0], "d") then
      if |info| == 2 then Fed(d, [Disconnect(CStr(info[1]))]) else Fed(d, [])
    else if ZeroPadded(info[0], "m") then
      if |info| == 2 && |SplitParts(info[1], [Semicolon])| == 2 then
        var field := SplitParts(info[1], [Semicolon]);
        Fed(d.(sender := CStr(field[0]), rest := ParseU64(CStr(field[1]))), [])
      else Fed(d, [])
    else if ZeroPadded(info[0], "a") then Fed(d, [Alive])
    else Fed(d, [])
  }

  /** One byte of the stream: a payload byte while one is expected, else a header byte or the `#` that ends a header. */
  function Step(d: Decoder, c: byte): Fed
  {
    if d.rest > 0 then
      if d.rest == 1 then Fed(Decoder(d.head, [], [], 0), [Message(d.sender, d.buffer + [c])])
      else Fed(d.(buffer := d.buffer + [c], rest := d.rest - 1), [])
    else if c == Hash then HeaderEffect(d.(head := []), d.head)
    else Fed(d.(head := d.head + [c]), [])
  }

  /** The bytes of `s` consumed one at a time. */
  function Run(d: Decoder, s: Bytes): Fed
    decreases |s|
  {
    if |s| == 0 then Fed(d, [])
    else
      var f := Step(d, s[0]);
      var g := Run(f.dec, s[1..]);
      Fed(g.dec, f.events + g.events)
  }

  /** Continuing from `f` with the bytes `s`: the events so far, followed by the new ones. */
  function Then(f: Fed, s: Bytes): Fed
  {
    var g := Run(f.dec, s);
    Fed(g.dec, f.events + g.events)
  }

  /** The header frames as `onNewConnecting`, `onDisconnected` and the heartbeat build them. */
  function ConnectFrame(id: Bytes): (r: Bytes)
  {
    "c:" + id + [Hash]
  }

  function DisconnectFrame(id: Bytes): (r: Bytes)
  {
    "d:" + id + [Hash]
  }

  function AliveFrame(): (r: Bytes)
  {
    "a" + [Hash]
  }

  /** The header of a data frame, without its closing `#`. */
  function MessageHeader(id: Bytes, len: Bytes): (r: Bytes)
  {
    "m:" + id + [Semicolon] + len
  }

  /** A data frame as `onRead` builds it: the header with the decimal length, `#`, then the data. */
  function MessageFrame(id: Bytes, data: Bytes): (r: Bytes)
  {
    MessageHeader(id, Decimal(|data|)) + [Hash] + data
  }

  /** The frame that carries an event. */
  function Encode(e: Event): Bytes
  {
    match e
    case Connect(id) => ConnectFrame(id)
    case Disconnect(id) => DisconnectFrame(id)
    case Message(id, data) => MessageFrame(id, data)
    case Alive => AliveFrame()
  }

  /** The frames of several events, back to back. */
  function EncodeAll(es: seq<Event>): Bytes
  {
    if |es| == 0 then [] else Encode(es[0]) + EncodeAll(es[1..])
  }

  /** An id that survives a `c:`/`d:` frame: no field separator, no `#`, no NUL. */
  predicate HeaderId(id: Bytes)
  {
    !Has(id, Colon) && !Has(id, Hash) && !Has(id, NUL)
  }

  /** An event whose frame decodes back to it: ids fit their frames and a data frame is not empty. */
  predicate Encodable(e: Event)
  {
    match e
    case Connect(id) => HeaderId(id)
    case Disconnect(id) => HeaderId(id)
    case Message(id, data) => HeaderId(id) && !Has(id, Semicolon) && |data| > 0
    case Alive => true
  }

  // ---------------------------------------------------------------------
  // The stream can be cut anywhere.

  /** Feeding `a + b` is feeding `a` and then `b`: the events do not depend on how the stream arrives in chunks. */
  lemma {:induction false} RunAppend(d: Decoder, a: Bytes, b: Bytes)
    ensures Run(d, a + b) == Then(Run(d, a), b)
    decreases |a|
  {
    if |a| == 0 {
      assert a + b == b;
      assert [] + Run(d, b).events == Run(d, b).events;
    } else {
      var f := Step(d, a[0]);
      assert (a + b)[0] == a[0];
      assert (a + b)[1..] == a[1..] + b;
      RunAppend(f.dec, a[1..], b);
      var g := Run(f.dec, a[1..]);
      var h := Run(g.dec, b);
      assert f.events + (g.events + h.events) == (f.events + g.events) + h.events;
    }
  }

  /** Each byte keeps the decoder sane. */
  lemma StepSane(d: Decoder, c: byte)
    requires Sane(d)
    ensures Sane(Step(d, c).dec)
  {
    if d.rest == 0 && c != Hash {
      HasConcat(d.head, [c], Hash);
    }
  }

  lemma {:induction false} RunSane(d: Decoder, s: Bytes)
    requires Sane(d)
    ensures Sane(Run(d, s).dec)
    decreases |s|
  {
    if |s| > 0 {
      StepSane(d, s[0]);
      RunSane(Step(d, s[0]).dec, s[1..]);
    }
  }

  // ---------------------------------------------------------------------
  // How the chunked loop of messageRead consumes a chunk.

  /** Fewer payload bytes than expected are only buffered. */
  lemma {:induction false} PayloadPrefix(d: Decoder, m: Bytes, k: nat)
    requires k < d.rest && k <= |m|
    ensures Run(d, m) == Run(d.(buffer := d.buffer + m[..k], rest := d.rest - k), m[k..])
    decreases k
  {
    if k == 0 {
      assert d.buffer + m[..0] == d.buffer;
      assert d.(buffer := d.buffer, rest := d.rest) == d;
    } else {
      var d1 := d.(buffer := d.buffer + [m[0]], rest := d.rest - 1);
      assert Step(d, m[0]) == Fed(d1, []);
      PayloadPrefix(d1, m[1..], k - 1);
      assert m[1..][..k - 1] == m[1..k];
      assert d.buffer + m[..k] == d1.buffer + m[1..k];
      assert m[1..][k - 1..] == m[k..];
      assert [] + Run(d1, m[1..]).events == Run(d1, m[1..]).events;
    }
  }

  /** The last expected payload byte completes the message; the bytes after it are read afresh. */
  lemma PayloadEnd(d: Decoder, m: Bytes)
    requires 0 < d.rest <= |m|
    ensures Run(d, m) == Then(Fed(Decoder(d.head, [], [], 0), [Message(d.sender, d.buffer + m[..d.rest])]), m[d.rest..])
  {
    var k := d.rest - 1;
    PayloadPrefix(d, m, k);
    var d1 := d.(buffer := d.buffer + m[..k], rest := 1);
    var t := m[k..];
    assert t[0] == m[k];
    assert d1.buffer + [t[0]] == d.buffer + m[..d.rest];
    assert t[1..] == m[d.rest..];
  }

  /** Header bytes without `#` only grow `head`. */
  lemma {:induction false} HeadGrows(d: Decoder, m: Bytes)
    requires d.rest == 0 && !Has(m, Hash)
    ensures Run(d, m) == Fed(d.(head := d.head + m), [])
    decreases |m|
  {
    if |m| == 0 {
      assert d.head + m == d.head;
    } else {
      assert m[0] != Hash;
      assert !Has(m[1..], Hash) by {
        assert m == [m[0]] + m[1..];
        HasConcat([m[0]], m[1..], Hash);
      }
      var d1 := d.(head := d.head + [m[0]]);
      HeadGrows(d1, m[1..]);
      assert d1.head + m[1..] == d.head + m;
    }
  }

  /** The loop's `message = head + message; head = ""` does not change what follows. */
  lemma HeadMoved(d: Decoder, m: Bytes)
    requires d.rest == 0 && !Has(d.head, Hash)
    ensures Run(d, m) == Run(d.(head := []), d.head + m)
  {
    var d0 := d.(head := []);
    RunAppend(d0, d.head, m);
    HeadGrows(d0, d.head);
    assert [] + d.head == d.head;
    assert d0.(head := d.head) == d;
    assert [] + Run(d, m).events == Run(d, m).events;
  }

  /** The first `#` of the chunk ends the header; the bytes after it are read afresh. */
  lemma HeaderEnds(d: Decoder, m: Bytes, p: nat)
    requires d.rest == 0 && p < |m| && m[p] == Hash && !Has(m[..p], Hash)
    ensures Run(d, m) == Then(HeaderEffect(d.(head := []), d.head + m[..p]), m[p + 1..])
  {
    assert m == m[..p] + m[p..];
    RunAppend(d, m[..p], m[p..]);
    HeadGrows(d, m[..p]);
    var d1 := d.(head := d.head + m[..p]);
    assert m[p..][0] == Hash && m[p..][1..] == m[p + 1..];
    var f := HeaderEffect(d1.(head := []), d1.head);
    var g := Run(f.dec, m[p + 1..]);
    assert [] + (f.events + g.events) == f.events + g.events;
  }

  // ---------------------------------------------------------------------
  // Splitting headers at a single separator.

  /** A match of a one-byte tag is an occurrence of that byte. */
  lemma MatchByte(s: Bytes, c: byte, j: int)
    ensures MatchAt(s, [c], j) <==> 0 <= j < |s| && s[j] == c
  {
    if 0 <= j < |s| {
      assert s[j..j + 1] == [s[j]];
    }
  }

  /** A text without the separator splits into itself alone. */
  lemma SplitNone(a: Bytes, c: byte)
    requires !Has(a, c)
    ensures SplitParts(a, [c]) == [a]
  {
    forall j | 0 <= j ensures !MatchAt(a, [c], j) {
      MatchByte(a, c, j);
    }
    PartsJump(a, [c], 0, 0, -1);
  }

  /** One separator between two pieces free of it splits into the two pieces. */
  lemma SplitOne(a: Bytes, c: byte, b: Bytes)
    requires !Has(a, c) && !Has(b, c)
    ensures SplitParts(a + [c] + b, [c]) == [a, b]
  {
    var s := a + [c] + b;
    var p := |a|;
    forall j | 0 <= j < p ensures !MatchAt(s, [c], j) {
      MatchByte(s, c, j);
      assert s[j] == a[j];
    }
    MatchByte(s, c, p);
    assert FirstMatch(s, [c], 0, p);
    PartsJump(s, [c], 0, 0, p);
    forall j | p + 1 <= j ensures !MatchAt(s, [c], j) {
      MatchByte(s, c, j);
      if j < |s| {
        assert s[j] == b[j - p - 1];
      }
    }
    PartsJump(s, [c], p + 1, p + 1, -1);
    assert s[..p] == a;
    assert s[p + 1..] == b;
  }

  // ---------------------------------------------------------------------
  // Header dispatch, header by header.

  /** A `c`/`d` header with a NUL-free id in its second field. */
  lemma ConnectHeader(d: Decoder, id: Bytes)
    requires HeaderId(id)
    ensures HeaderEffect(d, "c:" + id) == Fed(d, [Connect(id)])
    ensures HeaderEffect(d, "d:" + id) == Fed(d, [Disconnect(id)])
  {
    assert "c:" + id == "c" + [Colon] + id;
    assert "d:" + id == "d" + [Colon] + id;
    SplitOne("c", Colon, id);
    SplitOne("d", Colon, id);
    CStrOfFree(id);
  }

  /** A `c` or `d` header whose `:`-split does not give exactly two fields produces nothing. */
  lemma ConnectFieldCount(d: Decoder, h: Bytes)
    requires var info := SplitParts(h, [Colon]);
             (ZeroPadded(info[0], "c") || ZeroPadded(info[0], "d")) && |info| != 2
    ensures HeaderEffect(d, h) == Fed(d, [])
  {
  }

  /** A header whose first field is `a` produces Alive, whatever follows. */
  lemma AliveHeader(d: Decoder, h: Bytes)
    requires var info := SplitParts(h, [Colon]);
             ZeroPadded(info[0], "a")
    ensures HeaderEffect(d, h) == Fed(d, [Alive])
  {
    var info := SplitParts(h, [Colon]);
    assert info[0][..1] == "a";
  }

  /** A header whose first field is none of `c`, `d`, `m`, `a` is dropped. */
  lemma UnknownHeader(d: Decoder, h: Bytes)
    requires var info := SplitParts(h, [Colon]);
             !ZeroPadded(info[0], "c") && !ZeroPadded(info[0], "d") &&
             !ZeroPadded(info[0], "m") && !ZeroPadded(info[0], "a")
    ensures HeaderEffect(d, h) == Fed(d, [])
  {
  }

  /** A header `m:<tail>` with one `:` reads its tail as `<id>;<length>`. */
  lemma DataHeader(d: Decoder, tail: Bytes)
    requires !Has(tail, Colon)
    ensures var field := SplitParts(tail, [Semicolon]);
            HeaderEffect(d, "m:" + tail) ==
              if |field| == 2 then Fed(d.(sender := CStr(field[0]), rest := ParseU64(CStr(field[1]))), [])
              else Fed(d, [])
  {
    assert "m:" + tail == "m" + [Colon] + tail;
    SplitOne("m", Colon, tail);
    assert !ZeroPadded("m", "c") && !ZeroPadded("m", "d") && ZeroPadded("m", "m");
  }

  /** An `m` header arms the payload with the sender and the parsed length. */
  lemma MessageHeaderArms(d: Decoder, id: Bytes, len: Bytes)
    requires HeaderId(id) && !Has(id, Semicolon)
    requires !Has(len, Colon) && !Has(len, Semicolon)
    ensures HeaderEffect(d, MessageHeader(id, len)) == Fed(d.(sender := id, rest := ParseU64(CStr(len))), [])
  {
    var tail := id + [Semicolon] + len;
    HasConcat(id, [Semicolon], Colon);
    HasConcat(id + [Semicolon], len, Colon);
    assert MessageHeader(id, len) == "m:" + tail;
    DataHeader(d, tail);
    SplitOne(id, Semicolon, len);
    CStrOfFree(id);
  }

  // ---------------------------------------------------------------------
  // Round trips.

  /** A complete header frame read by a decoder between frames. */
  lemma HeaderFrame(d: Decoder, h: Bytes)
    requires d.rest == 0 && d.head == [] && !Has(h, Hash)
    ensures Run(d, h + [Hash]) == HeaderEffect(d, h)
  {
    var m := h + [Hash];
    assert m[..|h|] == h;
    HeaderEnds(d, m, |h|);
    assert [] + h == h;
    assert d.(head := []) == d;
    assert m[|h| + 1..] == [];
    var f := HeaderEffect(d, h);
    assert f.events + [] == f.events;
  }

  /** Digits hold no separator. */
  lemma DigitsFree(s: Bytes, c: byte)
    requires AllDigits(s) && !IsDigit(c)
    ensures !Has(s, c)
  {
  }

  /** `c:<id>#` and `d:<id>#` read back as the one event they carry. */
  lemma ConnectRoundTrip(d: Decoder, id: Bytes)
    requires Ready(d) && HeaderId(id)
    ensures Run(d, ConnectFrame(id)) == Fed(d, [Connect(id)])
    ensures Run(d, DisconnectFrame(id)) == Fed(d, [Disconnect(id)])
  {
    assert ConnectFrame(id) == ("c:" + id) + [Hash];
    assert DisconnectFrame(id) == ("d:" + id) + [Hash];
    HasConcat("c:", id, Hash);
    HasConcat("d:", id, Hash);
    HeaderFrame(d, "c:" + id);
    HeaderFrame(d, "d:" + id);
    ConnectHeader(d, id);
  }

  /** The header of a data frame arms the decoder for the printed length. */
  lemma DataHeaderFrame(d: Decoder, id: Bytes, n: nat)
    requires Ready(d) && HeaderId(id) && !Has(id, Semicolon)
    ensures Run(d, MessageHeader(id, Decimal(n)) + [Hash]) == Fed(d.(sender := id, rest := n), [])
  {
    var len := Decimal(n);
    DigitsFree(len, Colon);
    DigitsFree(len, Semicolon);
    DigitsFree(len, Hash);
    DigitsFree(len, NUL);
    HasConcat("m:", id, Hash);
    HasConcat("m:" + id, [Semicolon], Hash);
    HasConcat("m:" + id + [Semicolon], len, Hash);
    HeaderFrame(d, MessageHeader(id, len));
    MessageHeaderArms(d, id, len);
    CStrOfFree(len);
    DecimalRoundTrip(n);
  }

  /** `m:<id>;<|data|>#<data>` reads back as the message, byte for byte. */
  lemma MessageRoundTrip(d: Decoder, id: Bytes, data: Bytes)
    requires Ready(d) && HeaderId(id) && !Has(id, Semicolon) && |data| > 0
    ensures Run(d, MessageFrame(id, data)) == Fed(Decoder([], [], [], 0), [Message(id, data)])
  {
    var h := MessageHeader(id, Decimal(|data|));
    RunAppend(d, h + [Hash], data);
    DataHeaderFrame(d, id, |data|);
    var d1 := d.(sender := id, rest := |data|);
    PayloadEnd(d1, data);
    assert data[..|data|] == data && data[|data|..] == [];
    assert [] + data == data;
  }

  /** `a#` reads back as Alive. */
  lemma AliveRoundTrip(d: Decoder)
    requires Ready(d)
    ensures Run(d, AliveFrame()) == Fed(d, [Alive])
  {
    HeaderFrame(d, "a");
    SplitNone("a", Colon);
  }

  /**
   * Every encodable event, framed and read by a decoder between frames,
   * comes back as exactly that event, and leaves the decoder between
   * frames again.
   */
  lemma RoundTrip(d: Decoder, e: Event)
    requires Ready(d) && Encodable(e)
    ensures Run(d, Encode(e)).events == [e]
    ensures Ready(Run(d, Encode(e)).dec)
  {
    match e {
      case Connect(id) => ConnectRoundTrip(d, id);
      case Disconnect(id) => ConnectRoundTrip(d, id);
      case Message(id, data) => MessageRoundTrip(d, id, data);
      case Alive => AliveRoundTrip(d);
    }
  }

  /** A stream of N encodable frames yields their N events, in order. */
  lemma {:induction false} FramesInOrder(d: Decoder, es: seq<Event>)
    requires Ready(d)
    requires forall k :: 0 <= k < |es| ==> Encodable(es[k])
    ensures Run(d, EncodeAll(es)).events == es
    ensures Ready(Run(d, EncodeAll(es)).dec)
    decreases |es|
  {
    if |es| > 0 {
      RunAppend(d, Encode(es[0]), EncodeAll(es[1..]));
      RoundTrip(d, es[0]);
      var d1 := Run(d, Encode(es[0])).dec;
      FramesInOrder(d1, es[1..]);
      assert es == [es[0]] + es[1..];
    }
  }

  /** A data frame whose length field reads as 0 (an empty or non-numeric length) arms nothing and yields no event. */
  lemma ZeroLength(d: Decoder, id: Bytes, len: Bytes)
    requires Ready(d)
    requires HeaderId(id) && !Has(id, Semicolon)
    requires !Has(len, Colon) && !Has(len, Semicolon) && !Has(len, Hash)
    requires ParseU64(CStr(len)) == 0
    ensures Run(d, MessageHeader(id, len) + [Hash]).events == []
    ensures Ready(Run(d, MessageHeader(id, len) + [Hash]).dec)
  {
    HasConcat("m:", id, Hash);
    HasConcat("m:" + id, [Semicolon], Hash);
    HasConcat("m:" + id + [Semicolon], len, Hash);
    HeaderFrame(d, MessageHeader(id, len));
    MessageHeaderArms(d, id, len);
  }

  /** What a search for a one-byte tag from the start found. */
  lemma FoundByte(s: Bytes, c: byte, p: int)
    requires FirstMatch(s, [c], 0, p)
    ensures p == -1 ==> !Has(s, c)
    ensures p != -1 ==> 0 <= p < |s| && s[p] == c && !Has(s[..p], c)
  {
    if p == -1 {
      forall i | 0 <= i < |s| ensures s[i] != c {
        MatchByte(s, c, i);
      }
    } else {
      MatchByte(s, c, p);
      forall i | 0 <= i < p ensures s[..p][i] != c {
        MatchByte(s, c, i);
      }
    }
  }

  /** One header round of messageRead on a chunk, against the byte-by-byte reading. */
  lemma HeaderRound(d: Decoder, msg: Bytes, p: int)
    requires Sane(d) && d.rest == 0
    requires FirstMatch(d.head + msg, [Hash], 0, p)
    ensures p == -1 ==> !Has(d.head + msg, Hash) && Run(d, msg) == Fed(d.(head := d.head + msg), [])
    ensures p != -1 ==> (|d.head| <= p < |d.head + msg| &&
      Run(d, msg) == Then(HeaderEffect(d.(head := []), (d.head + msg)[..p]), (d.head + msg)[p + 1..]))
  {
    var c := d.head + msg;
    var d0 := d.(head := []);
    HeadMoved(d, msg);
    FoundByte(c, Hash, p);
    if p == -1 {
      HeadGrows(d0, c);
      assert [] + c == c;
    } else {
      assert p >= |d.head|;
      HeaderEnds(d0, c, p);
      assert [] + c[..p] == c[..p];
    }
  }

  lemma EventsAssoc(a: seq<Event>, b: seq<Event>, c: seq<Event>)
    ensures (a + b) + c == a + (b + c)
  {
  }

  // ---------------------------------------------------------------------
  // The decoder as the source runs it.

  /**
   * The decoder's globals and the event queue (`m_messages`). One copy of
   * `messageRead` lives in the server and one in the client; they are the
   * same code, modelled once here.
   */
  class FrameReader {
    var head: Bytes
    var buffer: Bytes
    var sender: Bytes
    var rest: nat
    var messages: seq<Event>

    function State(): Decoder
      reads this
    {
      Decoder(head, buffer, sender, rest)
    }

    predicate Valid()
      reads this
    {
      Sane(State())
    }

    /** The globals as the program starts: all empty, nothing expected, nothing queued. */
    constructor ()
      ensures Valid() && Ready(State()) && sender == [] && messages == []
    {
      head, buffer, sender, rest := [], [], [], 0;
      messages := [];
    }

    /** The `headInfo` dispatch of `messageRead` for one complete header. */
    method HandleHeader(h: Bytes)
      modifies this
      ensures State() == HeaderEffect(old(State()), h).dec
      ensures messages == old(messages) + HeaderEffect(old(State()), h).events
    {
      var headInfo := SplitParts(h, [Colon]);
      if ZeroPadded(headInfo[0], "c") {
        if |headInfo| == 2 {
          messages := messages + [Connect(CStr(headInfo[1]))];
        }
      } else if ZeroPadded(headInfo[0], "d") {
        if |headInfo| == 2 {
          messages := messages + [Disconnect(CStr(headInfo[1]))];
        }
      } else if ZeroPadded(headInfo[0], "m") {
        if |headInfo| == 2 {
          var info := SplitParts(headInfo[1], [Semicolon]);
          if |info| == 2 {
            sender := CStr(info[0]);
            rest := ParseU64(CStr(info[1]));
          }
        }
      } else if ZeroPadded(headInfo[0], "a") {
        messages := messages + [Alive];
      }
    }

    /**
     * The payload part of one round of messageRead: bytes go to `buffer`
     * until `restBufferSize` runs out, which queues the message.
     */
    method TakePayload(msg: Bytes) returns (r: Bytes)
      requires Valid() && rest > 0 && |msg| > 0
      modifies this
      ensures Valid() && |r| < |msg|
      ensures Run(State(), r).dec == Run(old(State()), msg).dec
      ensures messages + Run(State(), r).events == old(messages) + Run(old(State()), msg).events
    {
      var len := |msg|;
      if rest > len {
        PayloadPrefix(State(), msg, len);
        assert msg[..len] == msg && msg[len..] == [];
        buffer := buffer + msg;
        r := [];
        rest := rest - len;
      } else {
        PayloadEnd(State(), msg);
        buffer := buffer + MidBytes(msg, 0, rest);
        r := MidBytes(msg, rest, -1);
        rest := 0;
      }
      if rest == 0 {
        messages := messages + [Message(sender, buffer)];
        sender := [];
        buffer := [];
      }
    }

    /**
     * The header part of one round of messageRead: `head` is put in front
     * of the chunk, and either the chunk holds a `#` and the header before
     * it is dispatched, or the whole chunk waits in `head`.
     */
    method TakeHeader(msg: Bytes) returns (r: Bytes)
      requires Valid() && rest == 0
      modifies this
      ensures Valid() && (r == [] || |r| < |msg|)
      ensures Run(State(), r).dec == Run(old(State()), msg).dec
      ensures messages + Run(State(), r).events == old(messages) + Run(old(State()), msg).events
    {
      ghost var d := State();
      var message := head + msg;
      head := [];
      var next := KmpGetNext([Hash]);
      var endSymPos := KmpSearch(message, [Hash], next, 0);
      HeaderRound(d, msg, endSymPos);
      if endSymPos == -1 {
        head := head + message;
        r := [];
        assert [] + messages == messages;
      } else {
        var h := MidBytes(message, 0, endSymPos);
        HandleHeader(h);
        r := MidBytes(message, endSymPos + 1, -1);
        EventsAssoc(old(messages), HeaderEffect(d.(head := []), h).events, Run(State(), r).events);
      }
    }

    /**
     * messageRead(message): the chunk is consumed in rounds (payload bytes
     * while some are expected, then up to the next `#`) with the same
     * outcome as reading it byte by byte.
     */
    method MessageRead(message: Bytes)
      requires Valid()
      modifies this
      ensures Valid()
      ensures State() == Run(old(State()), message).dec
      ensures messages == old(messages) + Run(old(State()), message).events
    {
      ghost var goal := Run(State(), message);
      ghost var queued := messages;
      var msg := message;
      while |msg| > 0
        invariant Valid()
        invariant Run(State(), msg).dec == goal.dec
        invariant messages + Run(State(), msg).events == queued + goal.events
        decreases |msg|
      {
        if rest > 0 {
          msg := TakePayload(msg);
          if rest > 0 {
            continue;
          }
        }
        msg := TakeHeader(msg);
      }
      assert messages + [] == messages;
    }
  }
}
