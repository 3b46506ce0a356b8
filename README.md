# tunnel — a verified model of the TCP tunnel and its framework

The tunnel forwards TCP users across a single connection. A public
**server** accepts users on a proxy port. A private **client** keeps a
tunnel connection to the server and opens one backend connection to the
real service per user. The two talk in four frames: `c:<id>#` means a user
connected, `d:<id>#` means a user left, `m:<id>;<length>#<data>` carries
data, and `a#` is the client's heartbeat. Both ends decode the stream with
the same incremental reader, `messageRead`.

Below the tunnel sits the framework library. `ByteArray` is a growable,
always zero-terminated byte buffer. `general.cpp` holds KMP search,
replace-all and splice. `String` is NUL-free text with decimal numbers and
`%n` templating. `IniParse` edits `[section]` / `key=value` text in place.
`Json` is a loose JSON value with escaping and a text reader.

The model has one Dafny module per source file:

- `Bytes` (bytes.dfy): the byte type and the search specification shared by all modules.
- `General` (general.dfy): `general.cpp`.
- `ByteArrays` (byte_array.dfy): `byte_array.cpp`.
- `Strings` (eyre_string.dfy): `eyre_string.cpp`.
- `FrameCodec` (frame_codec.dfy): `messageRead` and the frame builders, which are identical in `server.cpp` and `client.cpp`.
- `Server` (server.dfy): `server.cpp`.
- `Client` (client.dfy): `client.cpp`.
- `Ini` (ini_parse.dfy): `IniParse` in `ini_settings.cpp`.
- `Jsons` (eyre_json.dfy): `eyre_json.cpp`.

Code that updates state in place is modelled as imperative Dafny:

- The buffer classes (`ByteArray`, `String`, `IniParse`, `Json`, `JsonArray`).
- The decoder (`FrameReader`).
- The two programs' global state (`TunnelServer`, `TunnelClient`).
- The loops (KMP, `byteReplace`, `argFindMinTag`, `replaceForArg`, `setText`, `escape`, `descript`).

Each method is proved against a specification function. The properties are
proved as lemmas about those functions.

Sockets are names, not connections. The server and client record what
they do to sockets in an outbox of writes, aborts and drops. Threads become
a serial sequence of handler calls. Time becomes integer ticks. Where a
backend connection would come up is an oracle parameter (`Client.Attempt`).
A session id comes from the socket's address in the source, so here it is
a parameter that must not be in the users table yet.

## Model

| member | source | states |
|---|---|---|
| Bytes.Find | eyrelib/framework/lib/general.cpp:178-198 | the search result is the least occurrence index of a non-empty tag at or after `from`, or -1 |
| Bytes.FirstMatchUnique | eyrelib/framework/lib/general.cpp:178-198 | the search specification determines the result uniquely |
| Bytes.CStr | eyrelib/framework/lib/eyre_string.cpp:22-49 | reading a buffer as a C string gives its longest NUL-free prefix, cut at the first zero byte |
| Bytes.Rev | eyrelib/framework/lib/byte_array.cpp:414-451 | the reversed buffer the backward search works on: byte i is byte n-1-i of the original |
| General.KmpGetNext | eyrelib/framework/lib/general.cpp:151-170 | the computed table has next[0] = -1, and next[q]+1 is the length of the longest proper border of tag[..q+1]; the final entry is 0 |
| General.FallBack | eyrelib/framework/lib/general.cpp:184-187 | the inner `while(k>-1 && tag[k+1]!=src[i]) k=next[k]` loop stops at the longest pending partial match that the next byte extends, skipping no longer one |
| General.KmpSearch | eyrelib/framework/lib/general.cpp:178-198 | for a non-empty tag and a correct table, the result is the least i >= offset where tag occurs, or -1 if there is none |
| General.NextOkAsPartial | eyrelib/framework/lib/general.cpp:151-170 | a table entry is exactly the longest partial match the search may fall back to |
| General.CountTags | eyrelib/framework/lib/general.cpp:55-62 | the counting loop (search resumes at index+tagsize) counts the non-overlapping left-to-right occurrences |
| General.ReplaceLength | eyrelib/framework/lib/general.cpp:77 | the replaced text has length srcsize + (tosize - tagsize) * cnt |
| General.ReplaceBySelf | eyrelib/framework/lib/general.cpp:12-125 | replacing a tag by itself leaves the text unchanged |
| General.ReplaceByteRemovesIt | eyrelib/framework/lib/general.cpp:12-125 | replacing every occurrence of a byte by text free of that byte leaves no occurrence |
| General.AbsentReplace | eyrelib/framework/lib/general.cpp:12-125 | replace introduces no byte that is absent from both the source and the replacement |
| General.Memcpy | eyrelib/framework/lib/general.cpp:108-117 | `memcpy` overwrites exactly the cells [at, at+\|s\|) with s and leaves the others unchanged |
| General.WriteReplaced | eyrelib/framework/lib/general.cpp:95-121 | the copy loop writes the replaced text into the result buffer |
| General.ByteReplace | eyrelib/framework/lib/general.cpp:12-125 | the fresh result holds the source with each counted occurrence replaced and the gaps copied; resultSize = srcsize + (tosize-tagsize)*cnt, resultServe = resultSize+1, and result[resultSize] == 0 |
| General.ChangeWithin | eyrelib/framework/lib/general.cpp:127-149 | within bounds the splice is src[..offset] + to + src[offset+range..] |
| General.ChangePastEnd | eyrelib/framework/lib/general.cpp:131-135 | an offset beyond the end is clamped to the end with range 0: the splice appends |
| General.ChangeKeeps | eyrelib/framework/lib/general.cpp:141-148 | the splice has size srcsize + tosize - range; the bytes before offset and after offset+range are unchanged and `to` sits at offset |
| General.ChangeUndo | eyrelib/framework/lib/general.cpp:127-149 | deleting what was just inserted restores the source |
| General.ChangeTwice | eyrelib/framework/lib/general.cpp:127-149 | splicing v2 over a just-spliced v1 equals splicing v2 directly |
| General.AbsentChange | eyrelib/framework/lib/general.cpp:127-149 | a splice introduces no byte absent from both inputs |
| General.ByteChange | eyrelib/framework/lib/general.cpp:127-149 | the fresh result is the clamped splice, zero-terminated, with resultServe = resultSize+1 |
| General.CopyThree | eyrelib/framework/lib/general.cpp:144-147 | the three `memcpy`s lay out head + to + tail followed by a zero byte |
| ByteArrays.GrownServe | eyrelib/framework/lib/byte_array.cpp:130-142 | the grown capacity is at least need+1 and at least the old capacity; it is kept when it already fits, otherwise it is max(2*serve, need+1) |
| ByteArrays.CopyAfter | eyrelib/framework/lib/byte_array.cpp:51-80 | copying into a buffer places the bytes after the kept prefix and zero-fills the tail |
| ByteArrays.MidBytes | eyrelib/framework/lib/byte_array.cpp:595-603 | mid(offset, n) is bytes [offset, offset+n) when n fits, and the whole remainder when n is negative or too large |
| ByteArrays.MidJoin | eyrelib/framework/lib/byte_array.cpp:595-603 | mid(o, n) followed by mid(o+n) reassembles the remainder from o |
| ByteArrays.MemCmp | eyrelib/framework/lib/byte_array.cpp:634-643 | the `memcmp` result is 0 exactly when the first n bytes agree, and lies in -1..1 |
| ByteArrays.MemCmpSwap | eyrelib/framework/lib/byte_array.cpp:634-643 | swapping the operands negates the comparison |
| ByteArrays.LessIrreflexive | eyrelib/framework/lib/byte_array.cpp:634-643 | `<` is irreflexive |
| ByteArrays.LessAsymmetric | eyrelib/framework/lib/byte_array.cpp:634-643 | `<` is asymmetric |
| ByteArrays.LessBlindToTrailingZero | eyrelib/framework/lib/byte_array.cpp:634-643 | "a\0" and "a" differ in size, yet neither is less than the other: `<` runs memcmp over the shorter size plus its zero terminator, so it is no strict total order once a buffer holds zero bytes |
| ByteArrays.CStrIsPrefix | eyrelib/framework/lib/byte_array.cpp:295-317 | the C-string reading of a zero-padded buffer is its content |
| ByteArrays.RevMatch | eyrelib/framework/lib/byte_array.cpp:414-451 | a match in the reversed text at ri is a match in the original at n - ri - \|tag\| |
| ByteArrays.RevFirstIsLast | eyrelib/framework/lib/byte_array.cpp:414-451 | the first match in the reversed text is the last match at or before the offset in the original |
| ByteArrays.LastIndexIn | eyrelib/framework/lib/byte_array.cpp:414-451 | the backward search returns the last occurrence starting at or before the offset, or -1 |
| ByteArrays.RevSearch | eyrelib/framework/lib/byte_array.cpp:414-451 | the reversed-buffer KMP search returns the first match after the mirrored offset |
| ByteArrays.SplitJoin | eyrelib/framework/lib/byte_array.cpp:605-627 | joining the parts of split(tag) with tag reproduces the input |
| ByteArrays.SplitCount | eyrelib/framework/lib/byte_array.cpp:605-627 | an empty tag gives one part; otherwise the part count is the number of non-overlapping occurrences plus 1 |
| ByteArrays.PartsJump | eyrelib/framework/lib/byte_array.cpp:610-625 | one round of the do-while: no further match ends the parts with the rest; a match at i cuts off s[start..i] and resumes after the tag |
| ByteArrays.WrapStart | eyrelib/framework/lib/byte_array.cpp:414-451 | the 32-bit `unsigned int` start position of lastIndexOf wraps exactly when the offset exceeds the size |
| ByteArrays.ByteArray.constructor | eyrelib/framework/lib/byte_array.cpp:17-44 | a new buffer is empty and valid, with capacity serve+1, or the default when no size is given |
| ByteArrays.ByteArray.FromBytes | eyrelib/framework/lib/byte_array.cpp:96-105 | a buffer built from bytes holds exactly those bytes, with capacity size+1 |
| ByteArrays.ByteArray.Set | eyrelib/framework/lib/byte_array.cpp:51-80 | set replaces the content and keeps the buffer invariant: capacity size+1, zero tail |
| ByteArrays.ByteArray.Reserve | eyrelib/framework/lib/byte_array.cpp:339-364 | reserve(s) sets the capacity to s and truncates the content to s-1 bytes when it no longer fits, keeping the invariant |
| ByteArrays.ByteArray.Append | eyrelib/framework/lib/byte_array.cpp:124-162 | append places exactly the given bytes after the old content; the capacity becomes GrownServe; the invariant is kept |
| ByteArrays.ByteArray.AppendByte | eyrelib/framework/lib/byte_array.cpp:164-170 | appending one byte adds that byte at the end |
| ByteArrays.ByteArray.At | eyrelib/framework/lib/byte_array.cpp:583-593 | at(pos) is the byte at pos when pos < size, and 0 otherwise |
| ByteArrays.ByteArray.Mid | eyrelib/framework/lib/byte_array.cpp:595-603 | mid returns a fresh valid buffer holding MidBytes of the content |
| ByteArrays.ByteArray.IndexOf | eyrelib/framework/lib/byte_array.cpp:396-407 | an empty needle gives -1; otherwise the result is the first occurrence at or after offset |
| ByteArrays.ByteArray.LastIndexOf | eyrelib/framework/lib/byte_array.cpp:414-451 | an empty needle gives -1; otherwise the result is the last occurrence starting at or before the (defaulted) offset |
| ByteArrays.ByteArray.Split | eyrelib/framework/lib/byte_array.cpp:605-627 | the do-while loop returns exactly the parts SplitParts specifies |
| ByteArrays.ByteArray.Replace | eyrelib/framework/lib/byte_array.cpp:485-509 | an empty tag is a no-op; otherwise the content becomes the replace-all result, of size old + (\|to\|-\|tag\|)*count |
| ByteArrays.ByteArray.ReplaceRange | eyrelib/framework/lib/byte_array.cpp:553-566 | the content becomes the clamped splice of the old content |
| ByteArrays.ByteArray.Insert | eyrelib/framework/lib/byte_array.cpp:573-576 | insert is the splice with range 0 |
| ByteArrays.ByteArray.Equals | eyrelib/framework/lib/byte_array.cpp:286-293 | `==` between buffers holds iff sizes and bytes are equal |
| ByteArrays.ByteArray.EqualsCStr | eyrelib/framework/lib/byte_array.cpp:295-317 | `==` against a C string holds iff the content starts with it and every remaining byte is 0 |
| ByteArrays.ByteArray.Less | eyrelib/framework/lib/byte_array.cpp:634-643 | `<` is LessBytes on the contents |
| ByteArrays.ByteArray.IterOffset | eyrelib/framework/lib/byte_array.cpp:544-551 | operator[] maps an offset beyond the size to 0 and keeps the others |
| ByteArrays.ByteArray.IterGet | eyrelib/framework/lib/byte_array.cpp:674-677 | reading through the iterator gives the byte at the mapped offset, or 0 at the end |
| ByteArrays.ByteArray.IterSet | eyrelib/framework/lib/byte_array.cpp:684-695 | writing through the iterator changes exactly the byte at the mapped offset when it is inside the content, and nothing otherwise |
| Strings.DigitChar | eyrelib/framework/lib/eyre_string.cpp:829-834 | the printed digit of k is a decimal digit whose value is k |
| Strings.Decimal | eyrelib/framework/lib/eyre_string.cpp:829-834 | fromNumber(n) is a non-empty digit string without a leading zero unless n = 0 |
| Strings.LeadingDigits | eyrelib/framework/lib/eyre_string.cpp:772-782 | the run `%llu` reads is the longest digit prefix |
| Strings.DecimalValue | eyrelib/framework/lib/eyre_string.cpp:829-834 | the digits of fromNumber(n) have value n |
| Strings.ParseDecimal | eyrelib/framework/lib/eyre_string.cpp:772-782 | toUInt64 of fromNumber(n) followed by any non-digit-led text is n, as the framing length field needs |
| Strings.DecimalRoundTrip | eyrelib/framework/lib/eyre_string.cpp:772-782 | toUInt64(fromNumber(n)) == n |
| Strings.NonNumericIsZero | eyrelib/framework/lib/eyre_string.cpp:772-782 | text that does not start with a digit parses to 0 |
| Strings.AtOr | eyrelib/framework/lib/eyre_string.cpp:622-625 | at(pos) is the byte at pos, or 0 past the end |
| Strings.TagNumberAt | eyrelib/framework/lib/eyre_string.cpp:861-881 | a tag number is below 100, and is positive only at a `%` followed by a non-zero digit |
| Strings.TagMin | eyrelib/framework/lib/eyre_string.cpp:861-881 | one step of the minimum search never raises the minimum |
| Strings.MinWithTag | eyrelib/framework/lib/eyre_string.cpp:866-880 | the loop body's digit arithmetic computes TagMin |
| Strings.MinTagFromLeast | eyrelib/framework/lib/eyre_string.cpp:855-885 | the scan's result is the least tag number seen, or the starting bound |
| Strings.ArgTagIsLeast | eyrelib/framework/lib/eyre_string.cpp:855-885 | argFindMinTag is "" iff no `%n` tag occurs; otherwise it is `%n` for an n that occurs and is least among all occurring tags |
| Strings.ArgJump | eyrelib/framework/lib/eyre_string.cpp:887-905 | each round of replaceForArg resumes at the next occurrence of the tag, or stops |
| Strings.ArgStepCases | eyrelib/framework/lib/eyre_string.cpp:892-903 | a replaceable occurrence is replaced and the scan resumes after the inserted text; a two-byte tag followed by a digit is skipped |
| Strings.ArgIsReplace | eyrelib/framework/lib/eyre_string.cpp:887-905 | when every occurrence is replaceable, replaceForArg is replace-all: inserted text is not rescanned |
| Strings.ArgWithoutTag | eyrelib/framework/lib/eyre_string.cpp:887-905 | a text without the tag is left unchanged |
| Strings.ArgNoTag | eyrelib/framework/lib/eyre_string.cpp:912-920 | arg on a text with no `%n` tag leaves it unchanged, because the empty tag is never found |
| Strings.ArgBySelf | eyrelib/framework/lib/eyre_string.cpp:887-905 | replacing a tag by itself leaves the text unchanged |
| Strings.ArgTagFree | eyrelib/framework/lib/eyre_string.cpp:855-885 | the found tag holds no zero byte |
| Strings.ArgSingle | eyrelib/framework/lib/eyre_string.cpp:855-920 | arg on a template with one `%1` tag, the text around it free of `%`, puts `to` in its place |
| Strings.ArgTwice | eyrelib/framework/lib/eyre_string.cpp:855-920 | arg on a template whose only tag `%d` occurs twice puts `to` in both places |
| Strings.ArgFirstOfPair | eyrelib/framework/lib/eyre_string.cpp:855-920 | arg on a template with `%1` and `%2` each twice replaces both `%1` and keeps both `%2` |
| Strings.ArgExampleHello | eyrelib/framework/inc/eyre_string.h:168-170 | "hello %1 world" with "new" gives "hello new world" |
| Strings.ArgExampleInfo | eyrelib/framework/inc/eyre_string.h:172-174 | "info:\n  name: %1 ... app_user_name: %1 ..." with "Eyre" gives "info:\n  name: Eyre ... app_user_name: Eyre ..." |
| Strings.ArgExampleName | eyrelib/framework/inc/eyre_string.h:176-178 | "name: %1 %2, first name: %1, last name: %2." with "Eyre" and then "Turing" gives "name: Eyre Turing, first name: Eyre, last name: Turing." |
| Strings.PartsFree | eyrelib/framework/lib/eyre_string.cpp:538-573 | the parts of a NUL-free text hold no zero byte |
| Strings.String.FromCStr | eyrelib/framework/lib/eyre_string.cpp:22-49 | a String from a C string holds the bytes before its first zero |
| Strings.String.FromByteArray | eyrelib/framework/lib/eyre_string.cpp:51-79 | a String from a ByteArray keeps only the bytes before the first zero byte |
| Strings.String.Append | eyrelib/framework/lib/eyre_string.cpp:298-323 | append adds the C-string prefix of its argument |
| Strings.String.AppendChar | eyrelib/framework/lib/eyre_string.cpp:330-346 | append(c) succeeds iff c is not 0; on success it adds c, on failure nothing changes |
| Strings.String.Size | eyrelib/framework/lib/eyre_string.cpp:424-427 | size is the content's length |
| Strings.String.At | eyrelib/framework/lib/eyre_string.cpp:622-625 | at(pos) is the byte at pos, or 0 past the end |
| Strings.String.IndexOf | eyrelib/framework/lib/eyre_string.cpp:107-134 | an empty needle gives -1; otherwise the first occurrence at or after offset |
| Strings.String.Mid | eyrelib/framework/lib/eyre_string.cpp:532-535 | mid is MidBytes of the content, as a fresh String |
| Strings.String.Split | eyrelib/framework/lib/eyre_string.cpp:538-573 | split gives SplitParts by the tag's C string, and every part is NUL-free |
| Strings.String.Replace | eyrelib/framework/lib/eyre_string.cpp:444-514 | an empty tag is a no-op; otherwise the content becomes the replace-all result |
| Strings.String.ReplaceRange | eyrelib/framework/lib/eyre_string.cpp:581-605 | the content becomes the clamped splice with the replacement's C string |
| Strings.String.Insert | eyrelib/framework/lib/eyre_string.cpp:612-615 | insert is the splice with range 0 |
| Strings.String.IterSet | eyrelib/framework/lib/eyre_string.cpp:671-697 | after operator[] maps an offset beyond the size to 0, writing c changes exactly that byte when it is inside the text and c != 0, and nothing otherwise |
| Strings.String.ArgFindMinTag | eyrelib/framework/lib/eyre_string.cpp:855-885 | the while loop returns ArgTag of the content |
| Strings.String.ReplaceForArg | eyrelib/framework/lib/eyre_string.cpp:887-905 | the while loop leaves the content as ArgResult of the old content |
| Strings.String.Arg | eyrelib/framework/lib/eyre_string.cpp:912-920 | arg replaces the least `%n` tag, as ArgOf specifies |
| FrameCodec.RunAppend | server/server.cpp:210-299 | fragmentation invariance: decoding a + b equals decoding a and then b from the resulting state, events concatenated |
| FrameCodec.RunSane | server/server.cpp:210-299 | the decoder never holds a `#` in its pending head, and holds no payload when none is expected |
| FrameCodec.PayloadPrefix | server/server.cpp:216-222 | while the remaining payload is longer than the chunk, the chunk is buffered and the count decremented |
| FrameCodec.PayloadEnd | server/server.cpp:223-237 | the chunk that completes the payload emits exactly one Message and resets sender and buffer |
| FrameCodec.HeadGrows | server/server.cpp:243-250 | a chunk without `#` is only appended to the pending head |
| FrameCodec.HeaderEnds | server/server.cpp:243-253 | at the first `#`, the pending head plus the chunk up to it is one header, and parsing continues after it |
| FrameCodec.ConnectHeader | server/server.cpp:256-275 | `c:<id>` enqueues exactly Connect(id) and `d:<id>` exactly Disconnect(id) |
| FrameCodec.ConnectFieldCount | server/server.cpp:259-269 | a `c`/`d` header without exactly two `:`-fields enqueues nothing |
| FrameCodec.AliveHeader | server/server.cpp:289-294 | a header whose first field is `a` enqueues Alive, whatever follows |
| FrameCodec.UnknownHeader | server/server.cpp:255-295 | a header with an unknown first field is dropped |
| FrameCodec.DataHeader | server/server.cpp:276-288 | an `m` header with two `;`-fields arms sender and length; otherwise it is ignored |
| FrameCodec.ConnectRoundTrip | server/server.cpp:256-275 | decoding `c:<id>#` / `d:<id>#` yields exactly Connect(id) / Disconnect(id) |
| FrameCodec.MessageRoundTrip | server/server.cpp:317-318 | for a non-empty payload, decoding the data frame yields exactly Message(id, data), byte for byte |
| FrameCodec.AliveRoundTrip | client/client.cpp:368 | decoding `a#` yields exactly Alive |
| FrameCodec.RoundTrip | server/server.cpp:210-299 | every encodable event decodes to itself and leaves the decoder ready |
| FrameCodec.FramesInOrder | server/server.cpp:212-296 | a stream of N encoded frames back to back yields the N events in order |
| FrameCodec.ZeroLength | server/server.cpp:285 | an `m` header whose length parses to 0, including a non-numeric one, arms nothing and enqueues nothing |
| FrameCodec.FrameReader.constructor | server/server.cpp:34-45 | the decoder starts empty with no pending message |
| FrameCodec.FrameReader.HandleHeader | server/server.cpp:253-294 | one header's dispatch applies HeaderEffect to the state and the queue |
| FrameCodec.FrameReader.TakePayload | server/server.cpp:214-241 | consuming payload bytes keeps the state and queue on the byte-at-a-time semantics |
| FrameCodec.FrameReader.TakeHeader | server/server.cpp:243-297 | consuming a header keeps the state and queue on the byte-at-a-time semantics |
| FrameCodec.FrameReader.MessageRead | server/server.cpp:210-299 | the chunked loop leaves the state and queue exactly as Run of the chunk specifies |
| Server.Echo | server/server.cpp:196-205 | a user's disconnect is echoed as `d:<id>#` on the tunnel if one is attached, and nothing otherwise |
| Server.Aborts | server/server.cpp:175-181 | the tunnel-loss loop aborts each user once |
| Server.AbortsEach | server/server.cpp:175-181 | the k-th abort is the k-th user of the loop, taken in an arbitrary order |
| Server.ServeAllUsers | server/server.cpp:337-404 | after handleEvent the users table is the old one minus the ids of Disconnect events |
| Server.ServeAllAddressed | server/server.cpp:337-404 | every write or abort handleEvent emits goes to a user registered beforehand, or to the tunnel |
| Server.ServeAllDelivers | server/server.cpp:344-369 | without Disconnect events, handleEvent writes each Message's data to its registered user and nothing for an unregistered id |
| Server.TunnelToUser | server/server.cpp:337-404 | a data frame for a registered user, decoded and handled, writes exactly that data to that user |
| Server.TunnelServer.constructor | server/server.cpp:22-45 | the server starts with no users, no tunnel, an empty outbox and a ready decoder |
| Server.TunnelServer.OnTunnelConnecting | server/server.cpp:71-84 | a new tunnel replaces the old one, which is aborted with its callback removed, so the users table is kept |
| Server.TunnelServer.OnUserConnecting | server/server.cpp:85-116 | with no tunnel the user is aborted and never registered; otherwise it is registered and `c:<id>#` is sent on the tunnel |
| Server.TunnelServer.OnTunnelDisconnected | server/server.cpp:168-184 | tunnel loss clears the tunnel, aborts every user once with its callback removed, and leaves the users table empty |
| Server.TunnelServer.OnUserDisconnected | server/server.cpp:185-206 | a registered user's disconnect removes its id and echoes `d:<id>#` when a tunnel is attached |
| Server.TunnelServer.OnTunnelRead | server/server.cpp:303-306 | tunnel data goes to the decoder and nowhere else |
| Server.TunnelServer.OnUserRead | server/server.cpp:307-325 | user data is framed as `m:<id>;<len>#<data>` and sent on the tunnel when one is attached |
| Server.TunnelServer.OnManagerRead | server/server.cpp:326-334 | any bytes from a manager connection set beKilled and change nothing else |
| Server.TunnelServer.HandleEvent | server/server.cpp:337-404 | the queue is served as ServeAll specifies and then emptied, and the result is !beKilled |
| Client.AwaitConnect | client/client.cpp:284-294 | the countdown ends positive exactly when the backend is up before the limit, and then limit - timeout ticks have passed |
| Client.ServeOneNamed | client/client.cpp:264-348 | every mapped socket is one created earlier, and each Connect creates one socket |
| Client.ServeOneInverse | client/client.cpp:264-348 | one event keeps `users` and `users_` mutually inverse when a Connect names an unmapped id |
| Client.ServeAllInverse | client/client.cpp:258-350 | the maps stay mutually inverse across a whole queue of such events |
| Client.DuplicateConnectBreaksInverse | client/client.cpp:305-306 | a second Connect for a mapped id leaves a stale entry in `users_`, so the maps are no longer inverse |
| Client.ConnectOutcome | client/client.cpp:266-309 | Connect(id) maps the new backend in both maps iff the attempt registers in time; otherwise it sends exactly one `d:<id>#`, drops the socket and maps nothing |
| Client.ZeroTimeoutRefuses | client/client.cpp:284-302 | with a timeout of 0 every Connect is refused with `d:<id>#` |
| Client.ServeAllDelivers | client/client.cpp:325-346 | each Message's data is written only to the backend mapped to its id; an unmapped id writes nothing |
| Client.TunnelToBackend | client/client.cpp:120-209 | a data frame for a mapped id, decoded and handled, writes exactly that data to that backend |
| Client.Period | client/client.cpp:357 | the heartbeat period is heart*1000 in 32-bit unsigned arithmetic |
| Client.Beat | client/client.cpp:352-376 | one tick sends `a#` only while connected with the counter at 0, and otherwise a disconnected tick or a sent beat resets the counter |
| Client.BeatsDelay | client/client.cpp:360-366 | no beat is sent while the counter counts down |
| Client.BeatsEvery | client/client.cpp:352-376 | exactly m beats are sent in m*(period+1) connected ticks |
| Client.Drops | client/client.cpp:72-80 | the tunnel-loss loop deletes each mapped backend once |
| Client.DropAll | client/client.cpp:72-80 | the loop over `users` drops every mapped backend, once each |
| Client.InverseSockets | client/client.cpp:18-19 | when the maps are inverse, the keys of `users_` are exactly the mapped sockets |
| Client.TunnelClient.constructor | client/client.cpp:16-44 | the client starts with both maps empty, the heartbeat counter at 0 and a ready decoder |
| Client.TunnelClient.OnTunnelDisconnected | client/client.cpp:66-85 | tunnel loss empties both maps, drops every backend once, and starts a reconnect |
| Client.TunnelClient.OnBackendDisconnected | client/client.cpp:86-101 | a mapped backend's disconnect sends `d:<id>#` once and erases both entries; the socket is deleted either way; the maps stay inverse |
| Client.TunnelClient.OnTunnelRead | client/client.cpp:213-216 | tunnel data goes to the decoder and nowhere else |
| Client.TunnelClient.OnBackendRead | client/client.cpp:217-241 | backend data d is sent as `m:<id>;<\|d\|>#d` only when that backend is mapped |
| Client.TunnelClient.ServeEvent | client/client.cpp:264-348 | one queued event changes the maps and outbox as ServeOne specifies |
| Client.TunnelClient.HandleEvent | client/client.cpp:258-377 | the queue is served as ServeAll specifies and emptied, then the heartbeat counter and `a#` follow Beat |
| Ini.FindHeader | eyrelib/framework/lib/ini_settings.cpp:62-87 | the header search finds `[parent]` only where it starts a line and is followed by a newline |
| Ini.HeaderSearch | eyrelib/framework/lib/ini_settings.cpp:68-80 | the do-while over offsets returns the first qualifying header |
| Ini.ParentRangeIsFirstHeader | eyrelib/framework/lib/ini_settings.cpp:62-87 | a section is absent iff no qualifying header exists; a found one is the first |
| Ini.ParentRangeEnd | eyrelib/framework/lib/ini_settings.cpp:62-87 | a section ends at the text's end or before the next line starting with `[`, and contains no such line |
| Ini.Locate | eyrelib/framework/lib/ini_settings.cpp:103-149 | the shared search reports a missing section at the end of the text, a missing child inside its section, and a found value's bounds in order |
| Ini.StatusOf | eyrelib/framework/lib/ini_settings.cpp:103-149 | each status code corresponds to exactly one search outcome |
| Ini.ValueOf | eyrelib/framework/lib/ini_settings.cpp:151-159 | a key without exactly two `/`-parts gives failVal; a found value holds no newline |
| Ini.AfterSet | eyrelib/framework/lib/ini_settings.cpp:161-186 | setValue succeeds iff the key has two `/`-parts; on failure the text is unchanged |
| Ini.FoundSetText | eyrelib/framework/lib/ini_settings.cpp:169-172 | on an existing key only the bytes [valOffset, valEnd) are replaced |
| Ini.NoChildSetText | eyrelib/framework/lib/ini_settings.cpp:173-178 | a new child's line `child=value\n` is inserted at the end of its section |
| Ini.NoParentSetText | eyrelib/framework/lib/ini_settings.cpp:179-184 | a new section `[parent]\nchild=value\n` is appended to the text |
| Ini.SetThenValue | eyrelib/framework/lib/ini_settings.cpp:151-186 | for a writable key and a newline-free value, value(k) after setValue(k, v) returns v |
| Ini.SetSameValue | eyrelib/framework/lib/ini_settings.cpp:161-186 | writing back the value read changes nothing |
| Ini.SetTwice | eyrelib/framework/lib/ini_settings.cpp:161-186 | two setValue calls on the same key equal the second alone |
| Ini.SetNewItemThenClean | eyrelib/framework/lib/ini_settings.cpp:161-201 | cleanItem undoes the insertion of a new child |
| Ini.SetNewSectionThenClean | eyrelib/framework/lib/ini_settings.cpp:161-216 | cleanParent undoes the appending of a new section |
| Ini.CleanItemAsWritten | eyrelib/framework/lib/ini_settings.cpp:188-201 | the source's cleanItem: always returns true, and changes nothing unless the key is found |
| Ini.FoundCleanText | eyrelib/framework/lib/ini_settings.cpp:192-199 | for a found key, the preceding `\n` is deleted together with `child=value` |
| Ini.AfterCleanItem | eyrelib/framework/lib/ini_settings.cpp:188-201 | the corrected cleanItem: the same edit, and the result is true iff the key is well-formed |
| Ini.CleanItemStatusLost | eyrelib/framework/lib/ini_settings.cpp:191-195 | on a malformed key such as `a` the source returns true, while the corrected reading returns false |
| Ini.AfterCleanParent | eyrelib/framework/lib/ini_settings.cpp:209-216 | cleanParent removes exactly [offset, end) of a found section, and is a no-op when it is absent |
| Ini.SetKeepsEndsLine | eyrelib/framework/lib/ini_settings.cpp:161-186 | setValue keeps a text that ends in a newline so |
| Ini.CleanItemKeepsEndsLine | eyrelib/framework/lib/ini_settings.cpp:188-201 | cleanItem keeps a text that ends in a newline so |
| Ini.CleanParentKeepsEndsLine | eyrelib/framework/lib/ini_settings.cpp:209-216 | cleanParent keeps a text that ends in a newline so |
| Ini.Squeeze | eyrelib/framework/lib/ini_settings.cpp:40-43 | collapsing `\n\n` never lengthens the text and keeps its first byte |
| Ini.SqueezeNoBlank | eyrelib/framework/lib/ini_settings.cpp:40-43 | after collapsing, the text holds no `\n\n` |
| Ini.Collapse | eyrelib/framework/lib/ini_settings.cpp:40-43 | the while loop computes Squeeze |
| Ini.NormalizedShape | eyrelib/framework/lib/ini_settings.cpp:34-46 | after setText the text holds no `\r` and no `\n\n`, and a non-empty text ends in `\n` |
| Ini.NormalizedFixed | eyrelib/framework/lib/ini_settings.cpp:34-46 | setText leaves an already normal text unchanged |
| Ini.NormalizedIdempotent | eyrelib/framework/lib/ini_settings.cpp:34-46 | setText twice equals setText once |
| Ini.ParentsUnfold | eyrelib/framework/lib/ini_settings.cpp:218-241 | each round of parents() takes the name between `[` and `]` and continues at the next line starting with `[` |
| Ini.ChildNamesMembers | eyrelib/framework/lib/ini_settings.cpp:250-259 | a name is listed iff some line splits into exactly two `=`-parts with that name first |
| Ini.ChildsOfLines | eyrelib/framework/lib/ini_settings.cpp:243-262 | childs(p) lists x iff section p exists and some line of it splits into exactly two `=`-parts with key x |
| Ini.IniParse.constructor | eyrelib/framework/lib/ini_settings.cpp:19-22 | the parser holds the given text unchanged |
| Ini.IniParse.SetText | eyrelib/framework/lib/ini_settings.cpp:34-46 | setText stores the normalised text |
| Ini.IniParse.GetText | eyrelib/framework/lib/ini_settings.cpp:48-51 | getText returns the text |
| Ini.IniParse.ParentPosRange | eyrelib/framework/lib/ini_settings.cpp:62-87 | an absent section gives the no-parent status with all positions at the end; a found one gives its offset, index and end |
| Ini.IniParse.ValueIndex | eyrelib/framework/lib/ini_settings.cpp:103-149 | the status and positions are those Locate specifies |
| Ini.IniParse.Value | eyrelib/framework/lib/ini_settings.cpp:151-159 | value returns ValueOf the text |
| Ini.IniParse.SetValue | eyrelib/framework/lib/ini_settings.cpp:161-186 | the result and new text are AfterSet of the old text |
| Ini.IniParse.CleanItem | eyrelib/framework/lib/ini_settings.cpp:188-201 | the result and new text are AfterCleanItem of the old text |
| Ini.IniParse.CleanParent | eyrelib/framework/lib/ini_settings.cpp:209-216 | the new text is AfterCleanParent of the old text |
| Ini.IniParse.Parents | eyrelib/framework/lib/ini_settings.cpp:218-241 | the loop returns ParentsOf the text |
| Ini.IniParse.Childs | eyrelib/framework/lib/ini_settings.cpp:243-262 | the loop returns ChildsOf the text and section |
| Jsons.TypeOf | eyrelib/framework/lib/eyre_json.cpp:292-295 | the type tag is in range, and each tag corresponds to exactly one kind of value |
| Jsons.Copy | eyrelib/framework/lib/eyre_json.cpp:26-86 | a copy is never NULL, keeps the kind of a non-NULL value, copies each array element and each object value in the same way, and keeps a well-formed value well-formed |
| Jsons.CopyNullFree | eyrelib/framework/lib/eyre_json.cpp:26-76 | a copy holds no NULL at any depth, and a value without a NULL anywhere is its own copy |
| Jsons.Escape | eyrelib/framework/lib/eyre_json.cpp:885-904 | an escaped text is at most twice as long |
| Jsons.Descript | eyrelib/framework/lib/eyre_json.cpp:917-939 | an unescaped text is never longer |
| Jsons.EscapeText | eyrelib/framework/lib/eyre_json.cpp:885-904 | the escape loop computes Escape |
| Jsons.DescriptText | eyrelib/framework/lib/eyre_json.cpp:917-939 | the descript loop computes Descript |
| Jsons.DescriptConcat | eyrelib/framework/lib/eyre_json.cpp:917-939 | descript of a text ending outside an escape distributes over concatenation |
| Jsons.DescriptDropsUnknown | eyrelib/framework/lib/eyre_json.cpp:925-935 | a backslash and an unknown escape character are both dropped |
| Jsons.DescriptDropsTrailing | eyrelib/framework/lib/eyre_json.cpp:925-935 | a trailing lone backslash is dropped |
| Jsons.EscapeOneLine | eyrelib/framework/lib/eyre_json.cpp:874-904 | escaped text holds no LF, CR or TAB |
| Jsons.EscapeRoundTrip | eyrelib/framework/lib/eyre_json.cpp:874-939 | descript(escape(s)) == s for every NUL-free s |
| Jsons.SkipSeps | eyrelib/framework/lib/eyre_json.cpp:388-392 | the skip loop stops at the first byte that is not a space, LF, CR or comma |
| Jsons.Parse | eyrelib/framework/lib/eyre_json.cpp:385-576 | whenever parseFromText sets endpos, it moves past beg |
| Jsons.ObjectFrom | eyrelib/framework/lib/eyre_json.cpp:405-452 | the object loop's endpos moves forward |
| Jsons.ArrayFrom | eyrelib/framework/lib/eyre_json.cpp:453-473 | the array loop's endpos moves forward |
| Jsons.QuoteEnd | eyrelib/framework/lib/eyre_json.cpp:478-489 | the closing-quote search stops at a quote or at the end |
| Jsons.StringAt | eyrelib/framework/lib/eyre_json.cpp:474-507 | the string path always sets endpos past the opening quote |
| Jsons.DigitsEnd | eyrelib/framework/lib/eyre_json.cpp:510-515 | the number scan stops at the first byte that is neither a digit nor `.` |
| Jsons.NumberAt | eyrelib/framework/lib/eyre_json.cpp:508-525 | the number path always sets endpos past its start |
| Jsons.LiteralAt | eyrelib/framework/lib/eyre_json.cpp:526-573 | the literal path always sets endpos past its start |
| Jsons.ParseSkipsSeparators | eyrelib/framework/lib/eyre_json.cpp:388-392 | leading spaces, newlines, CRs and commas do not change the result |
| Jsons.ParseBlank | eyrelib/framework/lib/eyre_json.cpp:388-396 | blank input yields the null value with endpos untouched |
| Jsons.ParseLiteral | eyrelib/framework/lib/eyre_json.cpp:526-573 | `true`/`false`/`null` yield their value with endpos at the next byte; a malformed literal yields the null value with endpos at the end |
| Jsons.QuoteEndEscaped | eyrelib/framework/lib/eyre_json.cpp:478-489 | the closing-quote search skips over the whole of an escaped text |
| Jsons.UnknownElementDiverges | eyrelib/framework/lib/eyre_json.cpp:453-473 | an array holding an unknown element never terminates: "[x]" diverges |
| Jsons.ToString | eyrelib/framework/lib/eyre_json.cpp:641-670 | a scalar prints as non-empty text |
| Jsons.StringRoundTrip | eyrelib/framework/lib/eyre_json.cpp:474-507 | parsing a printed string, followed by anything, yields that string with endpos just after it |
| Jsons.ScalarRoundTrip | eyrelib/framework/lib/eyre_json.cpp:641-670 | parsing a printed scalar yields its copy (NULL reads back as NONE's `null`) with endpos just after it |
| Jsons.SetKey | eyrelib/framework/lib/eyre_json.cpp:342-364 | FAIL iff the value is neither OBJECT nor NONE, and then nothing changes; UPDATE iff the key exists; APPEND iff it is new; afterwards the key holds a copy of the value and every other key is unchanged |
| Jsons.RemoveKey | eyrelib/framework/lib/eyre_json.cpp:366-383 | remove succeeds iff the object has the key; it removes only that key, and removing the last key turns the type to NONE |
| Jsons.SetThenRemove | eyrelib/framework/lib/eyre_json.cpp:342-383 | removing a key just added restores the value |
| Jsons.ArrayAppend | eyrelib/framework/lib/eyre_json.cpp:976-984 | append turns NONE into ARRAY and adds a copy at the end, growing the size by 1; other kinds are unchanged |
| Jsons.ArrayRemove | eyrelib/framework/lib/eyre_json.cpp:986-998 | the corrected remove: succeeds iff the index is in range, removes only that element, and an emptied array becomes NONE |
| Jsons.ArrayRemoveAsWritten | eyrelib/framework/lib/eyre_json.cpp:986-998 | the source's remove: the same removal, but the type stays ARRAY |
| Jsons.AppendThenRemove | eyrelib/framework/lib/eyre_json.cpp:976-998 | removing the element just appended restores the value |
| Jsons.RemoveLastKeepsArray | eyrelib/framework/lib/eyre_json.cpp:995 | as written, emptying an array leaves an empty ARRAY on which `set` fails; corrected, it becomes NONE and `set` appends |
| Jsons.AssignAsWritten | eyrelib/framework/lib/eyre_json.cpp:695-703 | the source's operator=: a non-NULL target always ends as NONE or OBJECT |
| Jsons.AssignCopy | eyrelib/framework/lib/eyre_json.cpp:695-703 | the corrected operator=: a NULL target is unchanged; otherwise the target holds no NULL, has the source's kind (NONE for a NULL source), and is the source itself when that holds no NULL |
| Jsons.AssignDropsScalars | eyrelib/framework/lib/eyre_json.cpp:231-245 | as written, assigning a Json that holds `true` to NONE leaves NONE; corrected, it gives `true` |
| Jsons.NullFrozen | eyrelib/framework/lib/eyre_json.cpp:158-194 | a JSON_NULL value is never modified: `set` fails, `remove` fails, append, array remove and assignment change nothing |
| Jsons.CopyAll | eyrelib/framework/lib/eyre_json.cpp:210-217 | copying an array copies each element in place |
| Jsons.Json.ToValue | eyrelib/framework/lib/eyre_json.cpp:135-156 | a valid object's fields denote a well-formed value of its type tag |
| Jsons.Json.constructor | eyrelib/framework/lib/eyre_json.cpp:20-24 | a new Json is NONE |
| Jsons.Json.NullValue | eyrelib/framework/lib/eyre_json.cpp:13-18 | Json::null() is NULL |
| Jsons.Json.CleanOldTypeData | eyrelib/framework/lib/eyre_json.cpp:135-156 | the old array and object data are dropped and nothing else changes |
| Jsons.Json.AsBoolean | eyrelib/framework/lib/eyre_json.cpp:158-167 | NULL is left alone; otherwise the value becomes the boolean |
| Jsons.Json.AsNumber | eyrelib/framework/lib/eyre_json.cpp:169-178 | NULL is left alone; otherwise the value becomes the number |
| Jsons.Json.AsString | eyrelib/framework/lib/eyre_json.cpp:185-194 | NULL is left alone; otherwise the value becomes the string |
| Jsons.Json.Clear | eyrelib/framework/lib/eyre_json.cpp:196-204 | asArray()/asObject() leave NULL alone and otherwise make the value NONE |
| Jsons.Json.AsArray | eyrelib/framework/lib/eyre_json.cpp:206-219 | NULL is left alone; otherwise the value becomes a copy of the array, or NONE for an empty one |
| Jsons.Json.AsObject | eyrelib/framework/lib/eyre_json.cpp:231-245 | NULL is left alone; otherwise the value becomes NONE, or an object with the argument's keys each holding a copy of its value |
| Jsons.Json.Assign | eyrelib/framework/lib/eyre_json.cpp:695-703 | the corrected operator= changes the value as AssignCopy specifies |
| Jsons.Json.Type | eyrelib/framework/lib/eyre_json.cpp:292-295 | type() is TypeOf the value |
| Jsons.Json.KeyExist | eyrelib/framework/lib/eyre_json.cpp:333-340 | keyExist holds iff the value is an object holding the key |
| Jsons.Json.Set | eyrelib/framework/lib/eyre_json.cpp:342-364 | the status and new value are those of SetKey |
| Jsons.Json.Remove | eyrelib/framework/lib/eyre_json.cpp:366-383 | the result and new value are those of RemoveKey |
| Jsons.Json.ToArray | eyrelib/framework/lib/eyre_json.cpp:324-331 | an ARRAY or NONE value is wrapped as itself; any other kind gives a wrapper around a fresh NULL |
| Jsons.JsonArray.constructor | eyrelib/framework/lib/eyre_json.cpp:941-945 | the wrapper refers to the given Json |
| Jsons.JsonArray.Size | eyrelib/framework/lib/eyre_json.cpp:967-974 | size is the element count of an ARRAY and 0 otherwise |
| Jsons.JsonArray.Append | eyrelib/framework/lib/eyre_json.cpp:976-984 | append changes the value as ArrayAppend specifies |
| Jsons.JsonArray.Remove | eyrelib/framework/lib/eyre_json.cpp:986-998 | the corrected remove changes the value as ArrayRemove specifies |

## Left out

- Sockets, `select` loops, threads and mutexes: handlers run one at a time, and sockets are names with an outbox of actions. Two socket facts are built in: `abort` fires the disconnect callback once unless it was cleared or the socket is already gone, and the server's `TcpServer` keeps one entry per client. Sleeps, `main` and the Windows branches are left out; the heartbeat uses the Linux period heart*1000.
- Server.TunnelServer.OnUserConnecting: session ids are pointer prints (`sprintf("%p")`), so a fresh id is a parameter with the precondition that it is not registered.
- Server.TunnelServer.OnUserDisconnected: `users.erase(users.find(id))` on an unregistered id is undefined behaviour, so the method requires a registered id.
- The manager connection's disconnect is not modelled. server/server.cpp:122-127 gives it the shared onDisconnected callback, whose user branch (185-206) would then run `users.erase(users.end())`, which is undefined behaviour, and send `d:<manager id>#` to the tunnel.
- Server.Aborts, Server.AbortsEach, Server.TunnelServer.OnTunnelDisconnected, Client.DropAll: the loops over `users` (server/server.cpp:175-181, client/client.cpp:72-80) visit a `std::map` in key order. The model takes the users in an arbitrary order, so the proved facts hold for every order, and the key order itself is not stated.
- FrameCodec.FrameReader.MessageRead: the decoder state is never reset when a tunnel is lost or replaced, and the model keeps it so.
- Client.TunnelClient.HandleEvent: a backend connect is decided by an `Attempt` oracle per Connect event: it says whether the connect call fails at once and after how many ticks the socket would be up. The timeout path's `delete` without clearing the disconnect callback is not modelled.
- Client.ServeAllInverse: the inverse-maps invariant needs each Connect to name an unmapped id. The source does not check this; DuplicateConnectBreaksInverse shows the inverse breaking on a duplicate.
- ByteArrays.ByteArray.Reserve: requires s >= 1. reserve(0) skips the truncation, because `m_serve-NEED_ADD` wraps (eyrelib/framework/lib/byte_array.cpp:346). It then clears `m_serve-m_size` bytes at line 354, a wrapped length whenever the content is not empty, which is undefined behaviour.
- ByteArray and String use unbounded sizes. The 32-bit `unsigned int` wrap of sizes and offsets is not modelled, except for the start position of `lastIndexOf` (WrapStart) and the heartbeat period (Period).
- `malloc`/`realloc` failure branches, ownership and leaks are left out. The buffers' `new`/`delete` become fresh arrays.
- List and KMP-table values are sequences, not vectors.
- GBK and iconv conversion, the Win32 code pages and `fromString` with a GBK codec are foreign-library calls. Only the UTF-8 identity path is modelled.
- Stream operators, `getline`, console output and `printMessage` are left out.
- Strings.ParseU64: `toUInt64` is modelled as the value of the leading digit run, and 0 when there is none. `sscanf`'s leading whitespace, signs and 64-bit overflow are not modelled. `fromNumber` is modelled for unsigned integers only.
- Floating point (`toFloat`, `toDouble`, `fromNumber(double)`) and the other integer widths of `toInt`/`arg(int)` are left out.
- String's `lastIndexOf` and comparison operators are not modelled. They delegate to ByteArray, whose versions are.
- IniParse holds its text as bytes. The `IniSettings` class and the eyre_file.cpp file I/O it wraps are not part of this model.
- Ini.SetThenValue: the read-after-write laws assume a well-formed key (`WritableKey`: no newline or bracket in the section and child names) and a text that ends in a newline (`EndsLine`). The constructor does not normalise its text, so these are premises, not facts.
- Jsons.Json.ToArray: the returned JsonArray is modelled as referring to the receiver. The elided copy-constructor path of the C++ return is not modelled.
- Jsons.Copy: the copy constructor reads `m_type` before initialising it (eyre_json.cpp:83-86 with 28). Copy models the evident intent, with NULL copied as NONE. Object-level round trips through that path are not proved.
- Jsons.Value: children are held as values, so aliasing through `operator[]`, its Iterator and `parent()` is not modelled.
- Jsons.NumberAt: number text is kept as the digit text scanned, without `toDouble`. The number path's endpos lands one byte past the scanned digits, as written.
- Jsons.ToString: only scalars are printed (`true`, `false`, `null` and quoted strings). Printing numbers, arrays and objects is not modelled: that needs folding, padding and `std::map` key order.
- Jsons.Parse: input on which parseFromText loops forever (an array or object whose element sets no endpos) is modelled by the `Diverges` result. The failure paths give `Null` at the top level. Returning `JsonNone` by value goes through the copy constructor, which under Copy's reading would hand back NONE; that top-level copy is not modelled. Nested results are copied with Copy.
- Keys listing (`keys()`) and the typed getters (`boolean`, `number`, `string`) are not modelled.

## Findings

| source | as written | input that shows it | evidently intended | confidence | as-written member | corrected member |
|---|---|---|---|---|---|---|
| eyrelib/framework/lib/eyre_json.cpp:995 | `m_json->m_type == JSON_NONE;` compares and discards, so an array emptied by `remove` stays JSON_ARRAY | append one element to a NONE value, then remove(0): the type stays ARRAY, and `set` on it then fails | assign JSON_NONE, as `Json::remove` does for the last key | high, not executed | Jsons.ArrayRemoveAsWritten, Jsons.RemoveLastKeepsArray | Jsons.ArrayRemove, Jsons.JsonArray.Remove |
| eyrelib/framework/lib/eyre_json.cpp:695-703 | `operator=(const Json&)` calls `asObject(json)`, which keeps only an object's fields | assign a Json that holds `true` to a NONE value (`j = Json(true)`, which takes `operator=(const Json&)`, not `operator=(bool)`): the result is NONE | copy the source's kind and data, as the copy constructor does | medium, not executed | Jsons.AssignAsWritten, Jsons.AssignDropsScalars | Jsons.AssignCopy, Jsons.Json.Assign |
| eyrelib/framework/lib/ini_settings.cpp:191-195 | the status of `valueIndex` is stored in a `bool`, which never equals INI_KEY_FORMAT_ERROR, so the format-error branch is dead and cleanItem returns true for every key | cleanItem("a"), a key without `/`, returns true | return false for a malformed key, as the branch at line 192 says | high, not executed | Ini.CleanItemAsWritten, Ini.CleanItemStatusLost | Ini.AfterCleanItem, Ini.IniParse.CleanItem |
