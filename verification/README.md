# Douyu chat client and live service, modelled in Dafny

This project models the core of a Douyu live-streaming client. It covers
three layers:

- **The binary framing of the Douyu chat (danmaku) protocol.** This is a
  little-endian `BinaryWriter`/`BinaryReader` pair (`binary.dfy`). A frame
  carries a 4-byte length, the same length again, a 2-byte packet type, an
  "encrypted" byte, a reserved byte, the UTF-8 body and a trailing zero
  byte (`frame.dfy`). The UTF-8 encoder and decoder follow the WHATWG
  Encoding Standard, as `TextEncoder`/`TextDecoder` do (`utf8.dfy`).
- **The STT text format and chat decoding.** STT is the `key@=value/` text
  format, with `@S` standing for `/` and `@A` standing for `@`. It is
  parsed into objects, arrays and scalars (`stt.dfy`). A received frame
  becomes a chat message with a user name, a text and a colour
  (`message.dfy`). The JavaScript string operations all of this relies on
  live in `jsstrings.dfy`: `includes`, `startsWith`, `split`, `join`,
  `String(n)` and `parseInt`.
- **The connection life cycle of `DouyuDanmaku` (`connection.dfy`).**
  This is a state machine over the client's fields. It is driven by events:
  `start`, `stop`, `setCallbacks`, socket open/close/message/error, the
  server starting to close a socket, a heartbeat tick, and the reconnect
  timer. Each step yields the effects the client asks of its environment:
  open or close a socket, send a frame, set or clear a timer, call a user
  handler.
- **The pure data shaping of `DouyuLive` (`live.dfy`).** This covers:
  - the CDN ordering (`scdn*` last, stable) and the quality list;
  - the play-request query string;
  - the live/record flags;
  - the recommended and followed room lists;
  - the HTML-entity decoding of the stream name.

Each operation is a pure function, and every step is deterministic. Sockets
and timers are named by handles the client allocates from a counter. User
callbacks are opaque handler ids. HTTP responses and the signature are
inputs.

## Model

| member | source | states |
|---|---|---|
| Binary.ToInt32 | src/utils/binary.ts:25-31 | the 32-bit signed reading of a number lies in [-2^31, 2^31) and is congruent to it modulo 2^32 |
| Binary.ToUint32 | src/utils/binary.ts:25-31 | the unsigned 32-bit reading lies in [0, 2^32) and is congruent to the number modulo 2^32 |
| Binary.WriteInt | src/utils/binary.ts:25-31 | writeInt appends exactly `length` bytes (none for length ≤ 0). Earlier bytes are untouched and every new byte is below 256. Little-endian puts byte i of the two's-complement value at offset i, big-endian mirrors that, and shifts wrap every four bytes |
| Binary.IntBytesValue | src/utils/binary.ts:25-31 | the bytes written for a 1-, 2-, 3- or 4-byte field read back, little-endian, as the value modulo 2^8, 2^16, 2^24 or 2^32 |
| Binary.IntBytesRepeat | src/utils/binary.ts:25-31 | a field longer than 4 bytes repeats the 4-byte pattern, because JavaScript shift counts are taken modulo 32 |
| Binary.WriteBytes | src/utils/binary.ts:37-39 | writeBytes appends the given bytes after the old contents |
| Binary.NewWriter | src/utils/binary.ts:7-9 | a writer starts from the given contents |
| Binary.Buffer | src/utils/binary.ts:15-17 | the buffer is the contents as bytes, with every in-range value kept |
| Binary.NewReader | src/utils/binary.ts:58 | a reader starts at position 0 of its buffer |
| Binary.ReadByte | src/utils/binary.ts:63-68 | readByte fails exactly when the position has reached the end; otherwise it yields the byte there and advances one |
| Binary.ReadBytes | src/utils/binary.ts:96-102 | readBytes of n ≤ 0 yields nothing and does not move. n within the remaining bytes yields exactly those bytes and advances n. More than remain fails |
| Binary.ReadShort | src/utils/binary.ts:74-79 | readShort needs two bytes; it yields a value in [0, 65535] combined in the requested byte order and advances two |
| Binary.ReadInt32 | src/utils/binary.ts:85-90 | readInt32 needs four bytes; it yields a signed value whose sign is the top bit of the most significant byte for the byte order, and advances four |
| Binary.ReadInt32Value | src/utils/binary.ts:85-90 | the value read is the four bytes taken as an unsigned number least significant byte first (most significant first for big-endian), then read as a signed 32-bit integer |
| Binary.WriteIntReadShort | src/utils/binary.ts:25-31 | a 2-byte field written and read back in the same byte order gives the value modulo 2^16 |
| Binary.WriteIntReadInt32 | src/utils/binary.ts:85-90 | a 4-byte field written and read back in the same byte order gives the value's signed 32-bit reading |
| Binary.WriteIntFourBytes | src/utils/binary.ts:25-31 | the four bytes of a 4-byte field are the low-to-high bytes of the unsigned value, reversed for big-endian |
| Binary.Remaining | src/utils/binary.ts:114-116 | remaining is the count of unread bytes |
| Binary.HasMore | src/utils/binary.ts:107-109 | hasMore holds exactly when some byte is unread |
| Utf8.Encode | src/utils/binary.ts:45-49 | the encoding has at least one byte per character, and an ASCII string encodes to its own character codes, one byte each |
| Utf8.EncodeChar | src/utils/binary.ts:45-49 | a character encodes to one to four bytes, and to one exactly when it is ASCII |
| Utf8.WriteString | src/utils/binary.ts:45-49 | writeString appends the UTF-8 encoding of the string after the old contents |
| Utf8.EncodeLengthVersusJsLength | src/services/douyuDanmaku.ts:207-212 | a string's UTF-8 byte count is at least its UTF-16 length, and equal exactly when the string is ASCII |
| Utf8.EncodeAppend | src/utils/binary.ts:45-49 | encoding distributes over concatenation |
| Utf8.DecodeStreamEncode | src/services/douyuDanmaku.ts:245-246 | the decoder recovers every string from its encoding |
| Utf8.DecodeEncode | src/services/douyuDanmaku.ts:245-246 | `TextDecoder.decode` of an encoding gives the string back, minus a leading byte order mark |
| Utf8.DecodeStream | src/services/douyuDanmaku.ts:245-246 | the decoder yields at most one character per byte, and ASCII bytes decode to the characters with the same codes |
| Utf8.Decode | src/services/douyuDanmaku.ts:245-246 | `TextDecoder.decode` yields at most one character per byte, and ASCII bytes decode to the characters with the same codes |
| Utf8.TruncatedSequence | src/services/douyuDanmaku.ts:245-246 | a cut-off multi-byte sequence decodes to one U+FFFD |
| Utf8.BrokenSequenceRestoresByte | src/services/douyuDanmaku.ts:245-246 | a lead byte followed by a non-continuation byte gives U+FFFD, and the second byte is decoded again |
| Frame.Serialize | src/services/douyuDanmaku.ts:205-219 | the frame is 12 header bytes, the encoded body and one more byte |
| Frame.SerializeLayout | src/services/douyuDanmaku.ts:210-218 | in a serialized frame, bytes 4 to 7 repeat bytes 0 to 3, bytes 8 and 9 are `B1 02` (689 little-endian), bytes 10 and 11 are zero, the body's UTF-8 encoding follows the header, and the last byte is zero |
| Frame.SerializeLengthField | src/services/douyuDanmaku.ts:210-211 | the first length field of a serialized frame holds 9 plus the body's UTF-16 length, modulo 2^32 |
| Frame.Compose | src/services/douyuDanmaku.ts:210-218 | a frame is 12 header bytes, the encoded body and one more byte |
| Frame.HeaderLayout | src/services/douyuDanmaku.ts:210-214 | the header repeats the length field, then holds `B1 02` and two zero bytes |
| Frame.ComposeLayout | src/services/douyuDanmaku.ts:210-218 | every frame has the second length field equal to the first, packet type 689, zero flag and reserved bytes, and a zero last byte |
| Frame.ComposeFacts | src/services/douyuDanmaku.ts:210-218 | a frame has the fixed layout, the length field 9 plus the counted length modulo 2^32, and the body's encoding after the header |
| Frame.ComposeLength | src/services/douyuDanmaku.ts:210-211 | the first length field of a frame holds 9 plus the counted length, modulo 2^32 |
| Frame.ComposeBody | src/services/douyuDanmaku.ts:215 | the bytes after the header are the body's UTF-8 encoding |
| Frame.Deserialize | src/services/douyuDanmaku.ts:229-249 | a buffer yields a body exactly when it holds the header, the announced body and the trailing byte. The body is the UTF-8 decoding of the announced bytes; a length field below 9 announces an empty body |
| Frame.DeserializeFrame | src/services/douyuDanmaku.ts:229-249 | for a frame that announces `length` body bytes, reading succeeds exactly when that many are present and yields their decoding |
| Frame.DeserializeCompose | src/services/douyuDanmaku.ts:205-249 | reading a composed frame gives back the first `length` bytes of the encoding, decoded, exactly when `length` does not exceed the encoding |
| Frame.DeserializeSerialize | src/services/douyuDanmaku.ts:205-249 | as written, reading back a serialized body yields the decoding of only the first `body.length` bytes of its encoding |
| Frame.DeserializeSerializeAscii | src/services/douyuDanmaku.ts:205-249 | ASCII bodies survive the round trip as written |
| Frame.SerializeLosesNonAscii | src/services/douyuDanmaku.ts:211-212 | as written, the body "é" comes back as U+FFFD |
| Frame.SerializeBytes | src/services/douyuDanmaku.ts:205-219 | the corrected frame is 12 header bytes, the encoded body and one more byte |
| Frame.SerializeBytesLayout | src/services/douyuDanmaku.ts:210-218 | the corrected frame has the same fixed layout, its length field holds 9 plus the body's UTF-8 byte count modulo 2^32, and the encoding follows the header |
| Frame.DeserializeSerializeBytes | src/services/douyuDanmaku.ts:205-249 | with the corrected length every body survives the round trip, minus a leading byte order mark |
| Frame.SerializeBytesKeepsNonAscii | src/services/douyuDanmaku.ts:205-249 | with the corrected length the body "é" comes back intact |
| JsStrings.Split | src/services/douyuDanmaku.ts:257 | split yields at least one piece and more than one exactly when the separator occurs. The first piece is a prefix, and no piece is longer than the input |
| JsStrings.JoinSplit | src/services/douyuDanmaku.ts:288 | joining the pieces of a split with the same separator gives the string back |
| JsStrings.SplitPiecesAreFree | src/services/douyuDanmaku.ts:257 | no piece of a split contains the separator |
| JsStrings.ReplaceAll | src/services/douyuDanmaku.ts:288 | `split(p).join(r)` leaves a string without `p` unchanged, and shortens one containing it when `r` is shorter |
| JsStrings.IncludesIffOccurs | src/services/douyuDanmaku.ts:255 | `includes` holds exactly when the pattern occurs at some position |
| JsStrings.ParseInt | src/services/douyuDanmaku.ts:187 | `parseInt` of text without a digit is NaN, and of text starting with a digit a non-negative number |
| JsStrings.ParseIntOfString | src/services/douyuDanmaku.ts:187 | `parseInt` of the decimal text of an integer, followed by anything that is not a digit, gives the integer back |
| JsStrings.DigitsOfNat | src/services/douyuDanmaku.ts:187 | the decimal digits of a natural number read back as that number |
| JsStrings.DigitPrefix | src/services/douyuDanmaku.ts:187 | the digit run `parseInt` reads is a prefix, all digits, and stops at a non-digit |
| Stt.Parse | src/services/douyuDanmaku.ts:254-282 | an object parsed from STT text has at least one member |
| Stt.Unescape | src/services/douyuDanmaku.ts:287-289 | unescaping never lengthens, strictly shortens text holding `@S` or `@A`, and leaves text without `@` unchanged |
| Stt.UnescapeEscape | src/services/douyuDanmaku.ts:287-289 | unescaping undoes the STT escape (`/` to `@S`, `@` to `@A`) of any text |
| Stt.UnescapeNotIdempotent | src/services/douyuDanmaku.ts:287-289 | unescaping twice is not unescaping once: `@AS` becomes `@S` and then `/` |
| Stt.ParseJoin | src/services/douyuDanmaku.ts:255-264 | joining two or more pieces with `//` and parsing gives an array with one element per piece, each the parse of that piece, in order (pieces non-empty, free of `//`, and not ending in `/` before a separator) |
| Stt.ParseRecord | src/services/douyuDanmaku.ts:265-276 | text containing `@=` parses to an object with at least one member |
| Stt.ObjectFields | src/services/douyuDanmaku.ts:265-276 | an object's keys are exactly the keys of its non-empty `/`-fields, and each key maps to the unescaped, parsed value of the last field with that key |
| Stt.Assign | src/services/douyuDanmaku.ts:266-275 | filling an object keeps its old keys, adds every key assigned and no others |
| Stt.AssignLast | src/services/douyuDanmaku.ts:274 | a key holds the value of its last assignment |
| Stt.AssignKeeps | src/services/douyuDanmaku.ts:274 | a key never assigned keeps its old value |
| Stt.EscapedShape | src/services/douyuDanmaku.ts:255-281 | escaped text holds no `//` and no `@=`, and holds `@A=` exactly when the original text held `@=`, so it reaches one of the last two branches |
| Stt.ParseEscapedAssign | src/services/douyuDanmaku.ts:277-278 | escaped text whose original held `@=` is unescaped and parsed again, so it parses to what the original parses to |
| Stt.ParseEscapedScalar | src/services/douyuDanmaku.ts:279-281 | escaped text whose original held no `@=` parses to the original text as a string, whatever `//` or `@` it held |
| Stt.ParsePlain | src/services/douyuDanmaku.ts:279-281 | text without `@` and without `//` parses to itself as a scalar |
| Stt.ParseRender | src/services/douyuDanmaku.ts:254-282 | a rendered list of well-formed `key@=value/` fields parses to the object assigning each key its unescaped, parsed value in order |
| Stt.ParseEscapedRender | src/services/douyuDanmaku.ts:254-289 | rendering fields with escaped values and parsing gives the object mapping each key to its original value parsed: escaping and parsing are inverse for records |
| Stt.ParseUnescapesTwice | src/services/douyuDanmaku.ts:273-281 | a value is unescaped once as a field and again as a scalar, so `k@=@AS/` gives `k` the value `/` rather than `@S` |
| Message.Get | src/services/douyuDanmaku.ts:184 | a member read from a parsed value is never null, and is defined exactly when the value is an object holding the key, so the `dms === null` test never fires |
| Message.GetColor | src/services/douyuDanmaku.ts:294-311 | codes 1 to 6 give their own colour channels in 0..255, and every other code gives white |
| Message.ColorsDistinct | src/services/douyuDanmaku.ts:294-311 | the six codes give six different colours |
| Message.ColorCodeOf | src/services/douyuDanmaku.ts:187 | a `col` member holding the decimal text of a number yields that number as the colour code |
| Message.JsText | src/services/douyuDanmaku.ts:189-191 | `toString` of an empty array is empty, and of a one-element array is that element's text |
| Message.ColorCode | src/services/douyuDanmaku.ts:187 | a missing or empty `col` gives colour code 0 |
| Message.PropertyString | src/services/douyuDanmaku.ts:190-191 | `x?.toString() \|\| ''` is the member's text, or empty when the member is missing |
| Message.DecodeMessage | src/services/douyuDanmaku.ts:172-200 | a frame yields a message exactly when it deserializes, its body's `type` reads as `chatmsg`, and none of the `type`, `col`, `nn` and `txt` conversions throws (a throw ends in the `catch`). The message is then a chat whose sender and text are the strings of `nn` and `txt` (empty when missing), with the colour of the `col` code |
| Message.ThrowingNameDropsChat | src/services/douyuDanmaku.ts:172-200 | a chat whose `nn` member has its own `toString` key throws while being read, and the message is dropped |
| Message.DecodeChatFrame | src/services/douyuDanmaku.ts:172-224 | a chat body with name, text and colour, framed with the byte length, decodes to a chat message carrying them, with name and text as parsed STT values |
| Message.DecodePlainChat | src/services/douyuDanmaku.ts:172-224 | a name and text without `@` or `//` come back verbatim, with the colour of the code |
| Message.SlashedNameBecomesList | src/services/douyuDanmaku.ts:187-193 | a user name `a//b` is parsed as an array and reaches the handler as `a,b` |
| Message.ChatObject | src/services/douyuDanmaku.ts:178-193 | parsing a chat body gives an object whose `type`, `nn`, `txt` and `col` members carry what was rendered |
| Connection.StartOf | src/services/douyuDanmaku.ts:33-37 | start records the room and clears the stop flag. Mid-attempt it changes nothing else; otherwise the next handle becomes the current socket, CONNECTING, and is opened to the server URL |
| Connection.OnOpen | src/services/douyuDanmaku.ts:54-59 | an open ends the attempt, marks the socket OPEN, replaces the heartbeat interval with a new one at the next handle, calls onReady first when set, and ends by setting the 45-second interval |
| Connection.OnClose | src/services/douyuDanmaku.ts:70-77 | a close ends the attempt, marks the socket CLOSED and clears the heartbeat. After stop the reconnect is untouched; otherwise the pending reconnect is replaced by a new one at the next handle |
| Connection.OnReconnect | src/services/douyuDanmaku.ts:130-134 | a firing reconnect forgets its timeout; after stop it asks for nothing, and otherwise, with no attempt under way, opens the next handle to the server URL |
| Connection.StopOf | src/services/douyuDanmaku.ts:158-167 | stop sets the flag, drops the socket, the handlers, the heartbeat and the reconnect with their timers, and closes the socket it had and no other |
| Connection.OnClosing | src/services/douyuDanmaku.ts:99-103 | when the server starts closing an OPEN socket, its readyState turns CLOSING and nothing else changes |
| Connection.Step | src/services/douyuDanmaku.ts:26-167 | no event reuses a handle or forgets a socket; stop sets the stop flag and only start clears it |
| Connection.SetCallbacksOf | src/services/douyuDanmaku.ts:26-28 | setCallbacks replaces each handler it is given and keeps the others, changing nothing else |
| Connection.Connect | src/services/douyuDanmaku.ts:42-53 | connect does nothing while an attempt is under way. Otherwise it opens one new socket to the server URL, which becomes the current one in state CONNECTING, without closing the socket it replaces |
| Connection.SendMessage | src/services/douyuDanmaku.ts:99-103 | a frame is sent, on the current socket, exactly when that socket exists and is OPEN |
| Connection.StartHeartbeat | src/services/douyuDanmaku.ts:108-113 | starting the heartbeat clears the old interval and leaves exactly one new one |
| Connection.StopHeartbeat | src/services/douyuDanmaku.ts:118-123 | stopping the heartbeat clears its interval and forgets its handle, changing nothing else |
| Connection.ScheduleReconnect | src/services/douyuDanmaku.ts:128-135 | scheduling a reconnect cancels the pending one and leaves one new timeout |
| Connection.StopReconnect | src/services/douyuDanmaku.ts:140-145 | stopping the reconnect cancels its timeout and forgets its handle, changing nothing else |
| Connection.OnMessage | src/services/douyuDanmaku.ts:61-64 | a received frame changes no client state and causes at most one handler call |
| Connection.InitialInv | src/services/douyuDanmaku.ts:8-16 | a new client satisfies the invariant: handles are fresh, the current socket is known, and the live intervals are exactly the heartbeat's |
| Connection.StepInv | src/services/douyuDanmaku.ts:26-167 | every event the environment can deliver preserves the invariant |
| Connection.RunInv | src/services/douyuDanmaku.ts:26-167 | every admissible event sequence from an invariant state keeps the invariant; in particular at most one heartbeat interval is ever live |
| Connection.OpenedJoinsRoom | src/services/douyuDanmaku.ts:54-59 | when the current socket opens: onReady is called, then login and joingroup for the room are sent on that socket, and exactly one heartbeat runs |
| Connection.SendsOnlyWhenOpen | src/services/douyuDanmaku.ts:88-103 | no event sends a frame except on the current socket while it is OPEN, and a socket the server has started closing is not OPEN |
| Connection.NoHeartbeatWhileClosing | src/services/douyuDanmaku.ts:99-103 | after the server starts closing the current socket, a heartbeat tick sends nothing |
| Connection.ClosedSchedulesReconnect | src/services/douyuDanmaku.ts:70-77 | a drop of a client that was not stopped clears the heartbeat, tells onClose once with the reconnect notice, and leaves exactly one reconnect pending after 3000 ms |
| Connection.ClosedAfterStop | src/services/douyuDanmaku.ts:70-77 | after stop, a drop tells nobody and schedules no reconnect |
| Connection.ReconnectOnlyIfNotStopped | src/services/douyuDanmaku.ts:128-135 | a firing reconnect opens a socket exactly when the client was not stopped and no attempt is under way |
| Connection.StopClears | src/services/douyuDanmaku.ts:158-167 | stop leaves no heartbeat, no reconnect, no current socket and no handlers, and closes the socket it had |
| Connection.StopIdempotent | src/services/douyuDanmaku.ts:158-167 | stopping a stopped client changes nothing and asks for nothing |
| Connection.StartConnects | src/services/douyuDanmaku.ts:33-37 | start records the room, clears the stop flag and, unless an attempt is under way, opens exactly one new socket |
| Connection.ReceivedDelivers | src/services/douyuDanmaku.ts:61-64 | a frame reaches onMessage exactly when it decodes to a chat message and the handler is set, and nothing else changes |
| Live.SortedCdns | src/services/douyuLive.ts:68-82 | the sorted CDN list is a permutation of the input, every non-`scdn` name comes before every `scdn` name, and each group keeps its order (a stable sort) |
| Live.SortCdns | src/services/douyuLive.ts:68-82 | sorting keeps exactly the CDN names given, as a multiset |
| Live.SortIsPartition | src/services/douyuLive.ts:74-81 | the insertion sort under the comparator equals the non-`scdn` names followed by the `scdn` names, each in input order |
| Live.KindMultiset | src/services/douyuLive.ts:74-81 | the two groups together hold exactly the input names |
| Live.Qualities | src/services/douyuLive.ts:66-99 | there is one quality per rate, in order, each carrying the sorted CDN list. None come back when the request fails or the response has no rates |
| Live.QualityList | src/services/douyuLive.ts:85-93 | each quality takes the name and rate of its rate entry |
| Live.ParamsReadBack | src/services/douyuLive.ts:186-193 | the query starts with the signature, carries the CDN after `&cdn=`, has the rate read back by `parseInt` after `&rate=`, and ends with the fixed version tail |
| Live.BuildParams | src/services/douyuLive.ts:186-193 | the query is as long as its six pieces together |
| Live.Flags | src/services/douyuLive.ts:117-118 | a room is a recording exactly when `videoLoop` is 1, live exactly when it shows and is not a recording, and never both |
| Live.Rows | src/services/douyuLive.ts:273-274 | iterating `rl` throws exactly when it is truthy but neither an array nor a string; an array gives its rows and anything else none |
| Live.RoomList | src/services/douyuLive.ts:273-289 | a row list yields rooms exactly when no row is null or undefined (reading its member throws) and no kept row has a member whose `toString` throws; never more rooms than rows |
| Live.RoomListAppend | src/services/douyuLive.ts:274-288 | the rooms of two row lists are the rooms of the first followed by those of the second, and a throw in either part throws for the whole |
| Live.RoomListOne | src/services/douyuLive.ts:274-288 | a single row throws when it is null or undefined or a kept row with a throwing member, and otherwise gives its shaped room exactly when it is kept |
| Live.KeptIndices | src/services/douyuLive.ts:274-278 | the positions of the kept rows: each in range and kept, strictly increasing, and every kept row's position among them |
| Live.RoomListContent | src/services/douyuLive.ts:274-288 | when no row throws, the rooms are exactly the kept rows, at their increasing positions, each shaped |
| Live.HasMore | src/services/douyuLive.ts:291 | the comparison throws exactly when converting the count throws; a falsy count reads as 1, a number as itself and `true` as 1 |
| Live.HasMoreOfText | src/services/douyuLive.ts:291 | a count given as the decimal text of an integer compares as that integer |
| Live.HasMoreOfList | src/services/douyuLive.ts:291 | a count given as an array of one number compares as that number, and an empty array as 0 |
| JsStrings.StringToNumber | src/services/douyuLive.ts:291 | the implicit conversion of a string to a number: blank text is 0, and text with no digit is NaN |
| JsStrings.StringToNumberOfString | src/services/douyuLive.ts:291 | converting an integer's decimal text back to a number gives the integer |
| Live.RecommendRooms | src/services/douyuLive.ts:257-304 | a failed request or a null response gives no rooms and no further pages |
| Live.RecommendContent | src/services/douyuLive.ts:273-302 | for a response whose `rl` can be iterated (an array, or a missing, falsy or string value, which gives no rows): when a row throws, no rooms and no further pages; otherwise the rows with `type` 1, at their positions in order and shaped with their defaults, with the page flag, unless the page comparison throws |
| Live.FollowRooms | src/services/douyuLive.ts:310-349 | a failed request gives no rooms |
| Live.ThrowingNameEmptiesPage | src/services/douyuLive.ts:280-302 | a live row whose `nn` has its own `toString` member throws in the loop, so the page is empty with no further pages |
| Live.ThrowingCountEmptiesFollow | src/services/douyuLive.ts:331-347 | a followed row whose `hot` has its own `toString` member throws in `parseInt`, so the follow list is empty |
| Live.RowsThrowEmptiesPage | src/services/douyuLive.ts:273-302 | a truthy `rl` that cannot be iterated throws in the loop, so the page and the follow list are empty; a missing or falsy `rl` gives no rooms with the page flag still computed |
| Live.FollowContent | src/services/douyuLive.ts:328-347 | for a response whose `rl` can be iterated (an array, or a missing, falsy or string value, which gives no rows): when a row throws, no rooms; otherwise exactly the rows with `show_status` 1, at their positions in order, each shaped |
| Live.ParsedCountOf | src/services/douyuLive.ts:334 | a missing `hot` count reads as 0 and a numeric one as itself |
| Live.TextOrEmpty | src/services/douyuLive.ts:281-285 | `x?.toString() \|\| ''` gives nothing for null or undefined, a string itself, a number its decimal text, a boolean `true` or `false`, an object `[object Object]`, and an array its elements' texts joined with commas, null and undefined elements as empty text |
| Live.ElementTextsJoin | src/services/douyuLive.ts:281-285 | an array's text is the comma join of its elements' texts, as `Array.prototype.toString` calls `join` |
| Live.MatchLength | src/services/douyuLive.ts:250 | an entity match starts with `&`, ends with `;` and is at least three characters long |
| Live.HtmlUnescape | src/services/douyuLive.ts:242-251 | as written, `_htmlUnescape` returns every string unchanged |
| Live.HtmlUnescapeKeepsAmp | src/services/douyuLive.ts:242-251 | as written, `a&amp;b` stays `a&amp;b` |
| Live.ReplaceShortKeys | src/services/douyuLive.ts:243-250 | entity replacement over a table whose keys are all shorter than three characters changes nothing |
| Live.HtmlDecodeEscape | src/services/douyuLive.ts:242-251 | the corrected decoder undoes HTML escaping of `&`, `<`, `>` and `"` for every string |
| Live.HtmlDecodeAmp | src/services/douyuLive.ts:242-251 | the corrected decoder turns `a&amp;b` into `a&b` |

## Left out

- Timing is not modelled: timers are handles that the environment fires. The 45-second heartbeat and the 3-second reconnect delay appear only as constants on the effects.
- Sockets are modelled as readyState values per handle. The WebSocket object, the network and the `binaryType` setting are not modelled.
- The `catch` branch of `connect` is not modelled. It would clear the attempt flag, log, and tell `onClose` "连接失败", with no reconnect scheduled, so the client would stay disconnected. The URL is a fixed valid `wss:` address, so the constructor does not throw.
- The `onerror` handler only logs, so its event changes nothing.
- User handlers are assumed not to call back into the client while they run, and to return normally. A handler that throws is not modelled.
- Connection.OnOpen: a throwing `onReady` would end `onopen` before the login, the join and the heartbeat (src/services/douyuDanmaku.ts:56-58), so the client would sit in the room's socket without joining. The model always sends them.
- Connection.OnClose: a throwing `onClose` would skip `scheduleReconnect` (src/services/douyuDanmaku.ts:74-75), so the client would never reconnect. The model, and Connection.ClosedSchedulesReconnect, assume the handler returns.
- `setCallbacks` with a member explicitly set to `undefined` is not modelled; a handler is either given or not.
- `console` logging is not modelled.
- Numbers in JSON responses are integers; floating point and `NaN` arithmetic are not modelled. A truthy `ol` that is not a number gives an unknown count (None).
- Live.HasMore: a `pgcnt` string in a numeric form other than a signed decimal integer (a fraction, an exponent, hexadecimal, `Infinity`) is read as NaN, so the comparison is false. JsStrings.StringToNumber represents only integers.
- CDN names are taken to be strings.
- The HTTP requests are inputs, not modelled: `fetch`, headers, status checks and JSON parsing. This covers `_getRoomInfo`, `_getCrptext`, `_getPlayInfo`, `getLiveStream` and the plumbing of `_getPlayUrl`. A failed request is the None input.
- The signature (`DouyuSign.getSign`) is an input. Its implementation is not part of this model.
- Of `getRoomInfo`, only the live/record flags are modelled; the other fields are copied through.
- The router, the build configuration and the type declarations are not part of this model.
- Utf8: JavaScript strings may hold lone surrogates, but Dafny strings cannot, so `TextEncoder`'s replacement of lone surrogates is not modelled.
- Stt.Parse: its own contract states only that an object has a member. Each branch is stated by a lemma: Stt.ParseJoin for `//`, Stt.ObjectFields and Stt.ParseRender for `@=`, Stt.ParseEscapedAssign for `@A=`, and Stt.ParseEscapedScalar and Stt.ParsePlain for the scalar.
- Message.JsText: a `__proto__` key in STT text sets the object's prototype in JavaScript rather than adding a member, so later lookups go through that prototype. This is not modelled: every key is an own member. An own `toString` key is modelled, as a throw.
- Message.DecodeMessage: lookups through a prototype set by a `__proto__` key are not modelled. The throwing `toString` path is.
- Frame.Serialize: the `catch` at src/services/douyuDanmaku.ts:220-223, which returns an empty frame, is not modelled. Nothing in the body can throw for a body of realistic size. A very long body could: `writeBytes` spreads the encoded bytes into the arguments of `push` (src/utils/binary.ts:38), which raises a `RangeError` past the engine's limit on the number of arguments.
- Live.RecommendRooms: its own contract covers only the failure paths. The other paths are stated by Live.RecommendContent, for an iterable `rl`, and Live.RowsThrowEmptiesPage, for one that is not.
- Live.FollowRooms: its own contract covers only the failure path. The other paths are stated by Live.FollowContent, for an iterable `rl`, and Live.RowsThrowEmptiesPage, for one that is not.

## Findings

| source | as written | input that shows it | evidently intended | confidence | as-written member | corrected member |
|---|---|---|---|---|---|---|
| src/services/douyuDanmaku.ts:211-212 | both length fields are `4 + 4 + body.length + 1`, where `body.length` counts UTF-16 code units rather than the UTF-8 bytes written | body "é" (2 bytes, length 1): the reader takes one body byte and decodes U+FFFD | the length counts the encoded bytes, so every body survives the frame | high, not executed | Frame.SerializeLosesNonAscii | Frame.DeserializeSerializeBytes |
| src/services/douyuLive.ts:243-250 | the entity table's keys are the single characters `&`, `<`, `>` and `"`, which the pattern `&[a-zA-Z0-9#]+;` can never match, so every match is returned unchanged | `a&amp;b` stays `a&amp;b` | `&amp;`, `&lt;`, `&gt;` and `&quot;` are decoded to their characters | medium, not executed | Live.HtmlUnescape | Live.HtmlDecodeEscape |
