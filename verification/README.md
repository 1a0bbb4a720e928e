# Algorithms of the Beken Arduino core, proved

A model of the algorithmic parts of the Arduino API core, of the protocol libraries that come with it and of
its flash image packer, with proofs of what each is for. Every object whose methods change its fields is a
class here, every algorithm that works in place keeps its array, and each such method is proved against a
specification about which the properties are then proved.

| file | models |
|---|---|
| `StreamFind.dfy` | the on-line multi-pattern matcher of `Stream` |
| `SpscQueue.dfy` | the lock-free queue: its two threads step by step, and the object |
| `DmaPool.dfy` | the DMA buffer pool and its memory layout |
| `ReplaceTheory.dfy`, `StringReplace.dfy` | `String::replace`: when it is right, and the code in its buffer |
| `PrintNumber.dfy` | printing of 32-bit and 64-bit numbers |
| `IpText.dfy`, `IpAddress.dfy` | texts of IPv4 and IPv6 addresses, and the parser and printer |
| `UrlMachine.dfy`, `UrlParser.dfy` | the two machines of the URL parser, and the parser |
| `UrlLayout.dfy`, `UrlRoundTrip.dfy`, `UrlLanguage.dfy` | where the fields lie, rendering followed by parsing, and exactly what is accepted |
| `Base64.dfy` | the three encoders and HTTP basic credentials |
| `WebSocket.dfy` | framing, masking and message reading |
| `HttpChunked.dfy` | reading of response bodies, chunked or not |
| `MqttFormat.dfy`, `MqttSession.dfy`, `MqttClient.dfy`, `MqttServer.dfy` | MQTT packets, the session over whole runs, the client, and a server that reads its packets |
| `ImagePacker.dfy`, `CrcRemainder.dfy` | checksummed blocks and the layout of the flash image, and what the checksum is |
| `Common.dfy`, `Arith.dfy`, `Bits.dfy` | byte and word types, division, exclusive-or |

`dafny verify dfyconfig.toml` checks everything.

## How the source is represented

- The environment is a parameter. A stream is the bytes that arrive before a read times out; a connection is
  the bytes sent and the bytes arrived but not read, and it accepts everything that is sent; `millis()` and
  random keys are arguments; a buffer that `malloc` returns is an address.
- C strings are given without their NUL. Where code reads a buffer as a C string, the model does so too
  (`Common.CString`).
- The loads, stores and slot accesses of the queue are separate steps, interleaved in any order, under release
  and acquire order: a load of the other thread's index returns any store not older than the last one seen, and
  what happens before that store is all that the loading thread knows of the slots. A read of a slot may return
  every write that is not known to be overwritten.
- `char` is signed, as the build sets it (`dist/sdk/bk7239n/flags/cpp_flags`, line 18). The character tests of the
  C library answer no outside ASCII.
- Bits joined with `|` that cannot overlap are added. Integer widths are written out where a value can
  leave them: 16-bit chunks when printing, 16-bit URL offsets, 16-bit message identifiers and lengths and the
  32-bit clock in MQTT, 64-bit message sizes, the 16-bit register against the unbounded checksum.

## Where the code does less than it seems to promise

- `String::replace` with different lengths replaces from the back and may use text it has just written. It is
  right on every text exactly for the pairs of `ReplaceTheory.Safe`; for every other pair a text is
  constructed on which it goes wrong. A longer replacement stays within the buffer grown for it on every text
  exactly for the pairs of `ReplaceTheory.NoCatch`; "aa" by "abb" on "aaa" does not.
- Printing through the C-string versions stops at the digit 208: every number is printed whole exactly in bases
  up to 208, and 208 in a larger base prints as nothing. All versions print different numbers differently exactly
  in bases up to 128: the digits 121 and 128 have the same character.
- `push` may fail on a queue with room when its load of the other index is stale; never when it is the newest.
- `b64_encode` asks for less room than it fills exactly when the input is not whole groups of three: offered one
  character for one byte, it fills four.
- The URL parser refuses a fragment straight behind the host: a full URL of legal parts is accepted exactly when
  its fragment follows a path or a query.
- `fromString6` refuses a "::" at either end that stands for a single group: an empty side counts as one. Beyond
  the forms of RFC 4291, with any number of leading zeros in a group, it accepts exactly the texts with a single
  colon in front of the first group, as if a 0 preceded it.
- A WebSocket read that is not fully satisfied puts the mask out of step unless the shortage is a multiple of
  four; a payload of 65535 bytes is not sent in the shortest form; a ping that arrives while a message is
  being assembled ends up in that message, which is the right answer exactly when it is an empty pong.
- `PubSubClient::connect` accepts any packet of four bytes that ends with 0, of whatever type.
- A message of quality of service 2, which the client never asks for, is delivered with its identifier in front of
  the payload and is not answered; a PUBLISH packet with fewer than two bytes of body takes bytes of the next one.
- `beginPublish` sends a wrong header when the remaining length needs more than 16 bits.
- `subscribe` checks for nine bytes besides the topic and writes ten: a topic that passes fits exactly when it
  leaves more than nine.
- The order in which the sections of an image are listed can decide: all orders are accepted exactly when two
  sections at one address are both empty and otherwise the earlier ends before the later starts.

## Model

| member | source | states |
|---|---|---|
| `StreamFind.Stream.TimedRead` | components/arduino-beken-core/include/api/Stream.cpp:33-42 | a read delivers the next byte and advances by one, or answers -1 and stays when the input has run out |
| `StreamFind.OpenBelow` | components/arduino-beken-core/include/api/Stream.cpp:300-313 | a shorter prefix of a target ends the consumed bytes exactly when the target agrees with itself under the shift the fall-back loop compares |
| `StreamFind.FallBack` | components/arduino-beken-core/include/api/Stream.cpp:287-316 | after a mismatch the fall-back finds the longest prefix of the target that ends the consumed bytes with the new byte added, although it only compares the target with itself |
| `StreamFind.StepTarget` | components/arduino-beken-core/include/api/Stream.cpp:271-316 | one byte offered to one target: it reports a match exactly when the target ends the consumed bytes, and otherwise leaves the longest open proper prefix as index |
| `StreamFind.FeedAll` | components/arduino-beken-core/include/api/Stream.cpp:271-317 | one byte offered to all targets: the smallest target that ends the consumed bytes is reported, or every index is again the longest open prefix |
| `StreamFind.FindMulti` | components/arduino-beken-core/include/api/Stream.cpp:258-321 | the result is the smallest target completed by the first prefix of the input that any target ends; -1 after the whole input when there is none; an empty target is found before anything is read |
| `StreamFind.FindUntil` | components/arduino-beken-core/include/api/Stream.cpp:116-125 | true exactly when some prefix of the input ends with the target and no shorter one with the terminator; the bytes up to the first of the two are consumed, all when neither comes |
| `StreamFind.FindIsNaiveSearch` | components/arduino-beken-core/include/api/Stream.cpp:94-105 | without a terminator the answer is whether the target occurs in the input |
| `StreamFind.OutcomeUnique` | components/arduino-beken-core/include/api/Stream.cpp:258-321 | the specification of the search determines the answer and the number of bytes consumed |
| `StreamFind.OutcomeIsNaiveSearch` | components/arduino-beken-core/include/api/Stream.cpp:258-321 | -1 exactly when no target occurs anywhere in the input; a hit is a real occurrence, and no target occurs in any shorter prefix |
| `SpscQueue.TestsAreExact` | components/arduino-beken-core/include/api/DMAPool.h:68-90 | whichever store of the other index a load returns, the full test and the empty test on wrapped indices are right about the positions seen |
| `SpscQueue.RunInv` | components/arduino-beken-core/include/api/DMAPool.h:68-90 | every state of every interleaving, with any loads release and acquire order allows, keeps the stores, the slot accesses and the two histories consistent |
| `SpscQueue.EveryRunIsSafe` | components/arduino-beken-core/include/api/DMAPool.h:68-90 | in every interleaving of one producer and one consumer, a load returning any store not older than the last one seen: popped is a prefix of pushed, occupancy is at most capacity - 1, and no slot access races with another |
| `SpscQueue.StepRefinesAtomicQueue` | components/arduino-beken-core/include/api/DMAPool.h:68-90 | every step of every such run is a step of an atomic bounded FIFO queue; a slot is read with the oldest item; push fails on a full queue and, when it loads the newest store, only then; pop likewise on an empty one |
| `SpscQueue.ReadsOldest` | components/arduino-beken-core/include/api/DMAPool.h:79-90 | of everything that a read of the slot may return, including overwritten and concurrent writes, only the oldest item is possible |
| `SpscQueue.StaleLoadFails` | components/arduino-beken-core/include/api/DMAPool.h:68-77 | in a reachable state with an empty queue a stale load makes push fail |
| `SpscQueue.SPSCQueue.constructor` | components/arduino-beken-core/include/api/DMAPool.h:45-54 | a new queue is empty and has one slot more than asked for; size 0 gives no slots |
| `SpscQueue.SPSCQueue.Empty` | components/arduino-beken-core/include/api/DMAPool.h:60-62 | head equals tail exactly when nothing is queued |
| `SpscQueue.SPSCQueue.Push` | components/arduino-beken-core/include/api/DMAPool.h:68-77 | appends exactly when fewer than capacity - 1 items are queued, and changes nothing otherwise |
| `SpscQueue.SPSCQueue.Pop` | components/arduino-beken-core/include/api/DMAPool.h:79-90 | takes the oldest item, or only looks at it; None exactly on an empty queue |
| `DmaPool.StepConserves` | components/arduino-beken-core/include/api/DMAPool.h:267-307 | alloc, release and flush keep every buffer in exactly one of the two queues or a client's hands |
| `DmaPool.CountsAddUp` | components/arduino-beken-core/include/api/DMAPool.h:267-307 | the three places add up to the number of buffers and each buffer is in one of them once |
| `DmaPool.EveryRunConserves` | components/arduino-beken-core/include/api/DMAPool.h:267-307 | over every run no buffer is lost or duplicated, and while a client holds one both queues have room for it |
| `DmaPool.EveryRunIsFifo` | components/arduino-beken-core/include/api/DMAPool.h:267-307 | over every run readers and flush get the buffers of the ready queue in the order of their release, and writers those of the free queue |
| `DmaPool.ClearLowIsFloor` | components/arduino-beken-core/include/api/DMAPool.h:199-208 | clearing the low bits is rounding down to a multiple of the power of two |
| `DmaPool.AlignedMallocFits` | components/arduino-beken-core/include/api/DMAPool.h:199-208 | for an even power of two the pointer is aligned, the stashed word in front of it is inside the malloc block and so are the bytes behind it |
| `DmaPool.AlignedMallocFails` | components/arduino-beken-core/include/api/DMAPool.h:199-208 | no pointer exactly when malloc failed or the alignment is not even |
| `DmaPool.FlagBits` | components/arduino-beken-core/include/api/DMAPool.h:93-98 | the flag words are 1 and 2 |
| `DmaPool.BufferFits` | components/arduino-beken-core/include/api/DMAPool.h:218-243 | every buffer is aligned, long enough, and inside the block of n rounded sizes |
| `DmaPool.BuffersDisjoint` | components/arduino-beken-core/include/api/DMAPool.h:218-243 | different buffers do not overlap |
| `DmaPool.DMAPool.constructor` | components/arduino-beken-core/include/api/DMAPool.h:218-243 | the free queue holds one buffer per slice of the block in address order, none when there is no memory, and nothing is held |
| `DmaPool.DMAPool.Alloc` | components/arduino-beken-core/include/api/DMAPool.h:276-290 | takes from the ready or the free queue as a conservation step; null exactly when that queue is empty; its flags become those asked for and no other buffer's flags change |
| `DmaPool.DMAPool.Free` | components/arduino-beken-core/include/api/DMAPool.h:292-307 | both pushes always succeed; READ-flagged buffers, and flagged ones freed without flags, go to the free queue, others to the ready queue |
| `DmaPool.DMAPool.Release` | components/arduino-beken-core/include/api/DMAPool.h:157-161 | a held buffer goes back by its own flags; one without an address is left where it is |
| `DmaPool.DMAPool.Flush` | components/arduino-beken-core/include/api/DMAPool.h:267-274 | every ready buffer becomes a free one, in order, behind those already free |
| `ReplaceTheory.BackIsReplaceAll` | components/arduino-beken-core/include/api/String.cpp:653-680 | for an unbordered pattern that no replacement can complete, the backward pass is left-to-right replacement |
| `ReplaceTheory.SafeIsEnough` | components/arduino-beken-core/include/api/String.cpp:636-682 | for every safe pair the result is left-to-right non-overlapping replacement of every text |
| `ReplaceTheory.UnsafeGoesWrong` | components/arduino-beken-core/include/api/String.cpp:636-682 | for every pair of different lengths that is not safe, a text is constructed on which the result is different |
| `ReplaceTheory.ReplaceIsRightExactlyWhenSafe` | components/arduino-beken-core/include/api/String.cpp:636-682 | replace is left-to-right replacement of every text if and only if the lengths are equal, or the pattern is one repeated letter and the replacement empty, or the pattern has no border and no proper suffix of it is comparable by prefix with the replacement |
| `ReplaceTheory.ReplaceAllLength` | components/arduino-beken-core/include/api/String.cpp:643-669 | the size added up by the forward scan is the length of the left-to-right result |
| `ReplaceTheory.GrowthFitsExactly` | components/arduino-beken-core/include/api/String.cpp:636-682 | for a longer replacement, the backward pass makes on every text at most the replacements the forward scan counted, so that the grown buffer is enough, if and only if no proper suffix of the pattern is comparable by prefix with the replacement |
| `ReplaceTheory.GrowthOverruns` | components/arduino-beken-core/include/api/String.cpp:636-682 | "aa" by "abb" on "aaa": one replacement is counted and at least two are made |
| `ReplaceTheory.SafeHitsAgree` | components/arduino-beken-core/include/api/String.cpp:636-682 | for every safe pair of different lengths both passes make the same number of replacements, and the size computed in advance is the final length |
| `StringReplace.ArduinoString.LastIndexOf` | components/arduino-beken-core/include/api/String.cpp:597-608 | repeated forward searches find the last occurrence not beyond the limit, -1 exactly when there is none |
| `StringReplace.ArduinoString.SizeNeeded` | components/arduino-beken-core/include/api/String.cpp:645-668 | the forward scan adds the length difference once for each left-to-right occurrence |
| `StringReplace.ArduinoString.ReplaceForward` | components/arduino-beken-core/include/api/String.cpp:641-645 | overwriting in place computes left-to-right replacement for equal lengths |
| `StringReplace.ArduinoString.Splice` | components/arduino-beken-core/include/api/String.cpp:655-663 | shifting the tail in the buffer, ending it and copying the replacement in leaves front, replacement and tail |
| `StringReplace.ArduinoString.ReplaceBackward` | components/arduino-beken-core/include/api/String.cpp:653-681 | the in-place loop computes the backward replacement within the capacity |
| `StringReplace.ArduinoString.Replace` | components/arduino-beken-core/include/api/String.cpp:636-682 | the text becomes what the backward or forward specification says, and left-to-right replacement for every safe or equal-length pair; growth stays within the capacity whenever no proper suffix of the pattern is comparable with the replacement |
| `StringReplace.ArduinoString.ChangeBuffer` | components/arduino-beken-core/include/api/String.cpp:176-185 | reallocation keeps the text |
| `PrintNumber.DigitsDenote` | components/arduino-beken-core/include/api/Print.cpp:261-281 | the digit sequence has the value of the number, and no leading zero unless the number is 0 |
| `PrintNumber.DigitsUnique` | components/arduino-beken-core/include/api/Print.cpp:261-281 | no other digit sequence has that value and no leading zero |
| `PrintNumber.DigitsBound` | components/arduino-beken-core/include/api/Print.cpp:284-288 | a number below 2 to the k has at most k digits, so 64 fit the buffer |
| `PrintNumber.ChunkSplit` | components/arduino-beken-core/include/api/Print.cpp:309-323 | dividing by a power of the base splits off exactly that many digits |
| `PrintNumber.ChunkPower` | components/arduino-beken-core/include/api/Print.cpp:300-307 | the loop finds the least power of the base that is not below 65535 / base, and it fits 16 bits |
| `PrintNumber.Print32` | components/arduino-beken-core/include/api/Print.cpp:241-259 | the 32-bit loop prints the digits, each as the signed char the build gives it, read back as a C string |
| `PrintNumber.PrintReference64` | components/arduino-beken-core/include/api/Print.cpp:261-281 | the commented reference loop prints the same characters, read back as a C string |
| `PrintNumber.Print64` | components/arduino-beken-core/include/api/Print.cpp:284-340 | the chunked version stores at most 64 digits and prints the same character for every digit of the number, in every base; 16-bit arithmetic never overflows |
| `PrintNumber.SameTextExactlyWithoutNul` | components/arduino-beken-core/include/api/Print.cpp:241-340 | the C-string versions and the fast version print the same text of one number exactly when no digit is 208, whose character as a signed char is NUL |
| `PrintNumber.WholeExactlyUpTo208` | components/arduino-beken-core/include/api/Print.cpp:241-340 | for 32-bit and for 64-bit numbers: every number is printed whole through the C string if and only if the base is at most 208; above it 208 itself prints as nothing |
| `PrintNumber.DistinctExactlyUpTo128` | components/arduino-beken-core/include/api/Print.cpp:241-340 | each version prints different numbers differently if and only if the base is at most 128; above it 121 and 128 print alike |
| `PrintNumber.HexOfPrinted` | components/arduino-beken-core/include/api/Print.cpp:241-340 | every number printed in base 16 is read back by the hexadecimal readers as itself |
| `IpText.QuadIsRead` | components/arduino-beken-core/include/api/IPAddress.cpp:131-181 | four decimal numbers up to 255 with dots between them are read as those four bytes |
| `IpText.AcceptedQuads` | components/arduino-beken-core/include/api/IPAddress.cpp:131-181 | the IPv4 parser accepts four octets of decimal digits with dots between them, leading zeros allowed, as their values, and nothing else |
| `IpText.FullFormIsRead` | components/arduino-beken-core/include/api/IPAddress.cpp:183-249 | groups without "::" are read as their values exactly when there are eight |
| `IpText.CompressedFormIsRead` | components/arduino-beken-core/include/api/IPAddress.cpp:183-249 | groups(L)::groups(R) is read as L, zeros, R exactly when the two sides, an empty one counted as one group, have at most seven groups together |
| `IpText.AcceptedTexts` | components/arduino-beken-core/include/api/IPAddress.cpp:183-249 | fromString6 accepts a text as eight groups if and only if it is one of the two forms with that value, or becomes one when a 0 is put in front of its leading colon |
| `IpText.LeadingColon` | components/arduino-beken-core/include/api/IPAddress.cpp:183-249 | a colon and seven groups are read as 0 and those groups |
| `IpText.ParseIgnoresCase` | components/arduino-beken-core/include/api/IPAddress.cpp:183-193 | the case of the letters does not matter to fromString6 |
| `IpText.HexTextIsGroup` | components/arduino-beken-core/include/api/IPAddress.cpp:330-343 | a group printed without leading zeros, in lower case, is read as its value |
| `IpText.PrintedIsRead` | components/arduino-beken-core/include/api/IPAddress.cpp:302-355 | canonical text is read back as its groups |
| `IpText.PrintedIsNotQuad` | components/arduino-beken-core/include/api/IPAddress.cpp:124-181 | the dotted-quad parser fails on every canonical IPv6 text |
| `IpText.FullTextIsRead` | components/arduino-beken-core/include/api/IPAddress.cpp:104-113 | eight groups of four digits are read back as the groups |
| `IpText.LeftmostLongestUnique` | components/arduino-beken-core/include/api/IPAddress.cpp:307-327 | at most one run is the leftmost of the longest |
| `IpText.CanonicalIsInjective` | components/arduino-beken-core/include/api/IPAddress.cpp:302-355 | different addresses print differently |
| `IpAddress.IPAddress.FromString4` | components/arduino-beken-core/include/api/IPAddress.cpp:131-181 | succeeds exactly on the texts the specification accepts and stores those bytes; the scanner is the specification |
| `IpAddress.IPAddress.MoveTail` | components/arduino-beken-core/include/api/IPAddress.cpp:241-242 | the backward shift moves the groups behind "::" to the end and reads no byte it has overwritten |
| `IpAddress.IPAddress.Expand` | components/arduino-beken-core/include/api/IPAddress.cpp:236-245 | whatever the bytes held before, the groups behind "::" go to the end and zeros in between |
| `IpAddress.IPAddress.FromString6` | components/arduino-beken-core/include/api/IPAddress.cpp:183-249 | succeeds exactly on the texts the specification accepts and stores those groups, the split point being right even when the group before "::" is zero |
| `IpAddress.IPAddress.FromString` | components/arduino-beken-core/include/api/IPAddress.cpp:124-129 | IPv4 first, then IPv6: what is stored is the address the text reads as, and on failure it reads as none |
| `IpAddress.IPAddress.FindRun` | components/arduino-beken-core/include/api/IPAddress.cpp:307-327 | the counters find the leftmost of the longest runs of two or more zero groups, -1 exactly when there is none |
| `IpAddress.IPAddress.PrintTo` | components/arduino-beken-core/include/api/IPAddress.cpp:302-365 | prints the canonical text with exactly that run compressed, or the dotted quad; the text reads as the printed address and as no other |
| `IpAddress.IPAddress.ToString` | components/arduino-beken-core/include/api/IPAddress.cpp:97-122 | the text reads as the address and as no other |
| `IpAddress.PrintToRoundTrip` | components/arduino-beken-core/include/api/IPAddress.cpp:124-365 | reading back what printTo wrote gives the same type and the same bytes, IPv4 and IPv6 |
| `IpAddress.ToStringRoundTrip` | components/arduino-beken-core/include/api/IPAddress.cpp:97-249 | reading back what toString wrote gives the same type and the same bytes, IPv4 and IPv6 |
| `UrlMachine.MatchesUnique` | libraries/Websocket/src/utility/URLParser/http_parser.c:493-549 | field set and spans are determined by the labels of the characters |
| `UrlMachine.ClassesAreStandard` | libraries/Websocket/src/utility/URLParser/http_parser.c:50-155 | the character classes are those of RFC 3986 and RFC 6874, or what is left of them: hosts have no sub-delimiters, other fields any printable character but # and ? |
| `UrlParser.ParseHost` | libraries/Websocket/src/utility/URLParser/http_parser.c:393-473 | succeeds exactly when the host machine accepts the host text, and then userinfo, host and port spans, stored in 16 bits, are those of its labels |
| `UrlParser.FirstPass` | libraries/Websocket/src/utility/URLParser/http_parser.c:489-549 | the first machine stops exactly on a character it cannot use; otherwise the spans, stored in 16 bits, are those of its labels, and found_at tells whether an @ was met |
| `UrlParser.Conclude` | libraries/Websocket/src/utility/URLParser/http_parser.c:564-582 | refuses exactly a CONNECT text with other fields than host and port, and a port above 65535; otherwise the port is the number in the port field |
| `UrlParser.ParseUrl` | libraries/Websocket/src/utility/URLParser/http_parser.c:480-582 | 0 exactly on the texts both machines accept; then field set, spans and port are those of the final labels |
| `UrlLayout.AcceptedLayout` | libraries/Websocket/src/utility/URLParser/http_parser.c:480-582 | on every success the fields lie inside the buffer, are pairwise disjoint, come in URL order, and only delimiters lie between them |
| `UrlRoundTrip.RenderedIsAccepted` | libraries/Websocket/src/utility/URLParser/http_parser.c:163-582 | every rendered legal URL is accepted, with exactly the labels of its pieces; userinfo, query and fragment may be empty |
| `UrlRoundTrip.RoundTrip` | libraries/Websocket/src/utility/URLParser/http_parser.c:163-582 | parsing a rendered legal URL (full, relative, or for CONNECT; userinfo, name or bracketed address with zone, port, path, query, fragment) reports exactly its non-empty components |
| `UrlRoundTrip.ParseRendered` | libraries/Websocket/src/utility/URLParser/http_parser.c:480-582 | the parser answers 0 on a rendered legal URL and leaves its components, and as port the number whose decimal text, leading zeros or not, was rendered |
| `UrlRoundTrip.DecimalPort` | libraries/Websocket/src/utility/URLParser/http_parser.c:564-582 | the decimal text of every number, with any leading zeros, is read as that number |
| `UrlLanguage.AcceptedUrls` | libraries/Websocket/src/utility/URLParser/http_parser.c:163-582 | the parser accepts exactly the texts of legal URLs |
| `UrlRoundTrip.FragmentAfterHostIsRefused` | libraries/Websocket/src/utility/URLParser/http_parser.c:217-242 | no text that puts a # straight behind a legal authority is accepted, whatever follows |
| `UrlRoundTrip.AcceptedExactly` | libraries/Websocket/src/utility/URLParser/http_parser.c:163-582 | a full URL of legal parts is accepted if and only if its fragment, if it has one, follows a path or a query |
| `Base64.DecodesExactlyTheEncoded` | components/arduino-beken-core/src/cencode.c:19-104 | a strict decoder gives s for a text exactly when the text is the encoding of s |
| `Base64.PublishedVectors` | components/arduino-beken-core/src/cencode.c:19-104 | the test vectors of RFC 4648 |
| `Base64.BlockSplit` | components/arduino-beken-core/src/cencode.c:28-74 | two blocks with the saved state between them are as good as one |
| `Base64.BlockIsEncode` | components/arduino-beken-core/src/cencode.c:28-95 | one block and the end give the encoding of RFC 4648 |
| `Base64.AnyCutEncodes` | components/arduino-beken-core/src/cencode.c:28-95 | any cut of the input into blocks gives the encoding of the whole, which decodes to the whole |
| `Base64.EncodeBlock` | components/arduino-beken-core/src/cencode.c:28-74 | the coroutine writes what the per-byte specification says, saves its state, and touches no other character |
| `Base64.EncodeBlockEnd` | components/arduino-beken-core/src/cencode.c:76-95 | writes the left-over bits, the padding and a NUL |
| `Base64.EncodeChars` | components/arduino-beken-core/src/cencode.c:97-103 | writes the encoding and a NUL |
| `Base64.ExpectedLenIsExact` | components/arduino-beken-core/include/cencode.h:11 | the macro gives exactly the length of the encoding, four characters for every three bytes begun |
| `Base64.EncodeData` | components/arduino-beken-core/src/arduino_base64.cpp:36-51 | a buffer of the expected length and one NUL is enough, and its C string is the encoding |
| `Base64.AskedSpaceIsEnough` | libraries/Websocket/src/b64.cpp:21-29 | the space b64_encode asks for is what it writes exactly when the input is whole groups of three |
| `Base64.OverfillsExactly` | libraries/Websocket/src/b64.cpp:21-71 | some offer is accepted and overfilled if and only if the input is not whole groups of three |
| `Base64.OneByteOverfills` | libraries/Websocket/src/b64.cpp:44-50 | one byte with one character offered is not refused, and fills four |
| `Base64.B64Encode` | libraries/Websocket/src/b64.cpp:21-71 | refuses and writes nothing below the space it asks for; otherwise writes the whole encoding, through recursive calls on chunks, even when fewer characters were offered |
| `Base64.SendBasicAuth` | libraries/Websocket/src/HttpClient.cpp:207-254 | prints the header line with the encoding of user:password, collected three bytes at a time |
| `Base64.HTTPClient.SetAuthorization` | libraries/HTTPClient/src/HTTPClient.cpp:452-460 | stores the encoding of user:password, the same text SendBasicAuth prints; a null pointer changes nothing |
| `WebSocket.MaskTwice` | libraries/Websocket/src/WebSocketClient.cpp:126-139 | masking twice with the same key gives the bytes back |
| `WebSocket.AnyCutUnmasks` | libraries/Websocket/src/WebSocketClient.cpp:332-351 | however the masked payload is cut into reads, unmasking the pieces in turn gives the payload |
| `WebSocket.ShortReadKeepsStep` | libraries/Websocket/src/WebSocketClient.cpp:332-351 | after a read that got fewer bytes than asked for, later bytes are right for every key if and only if the difference is a multiple of four |
| `WebSocket.HeaderRoundTrip` | libraries/Websocket/src/WebSocketClient.cpp:98-132 | the header of a frame is read back with its opcode, key and length below 2 to the 64, whatever follows |
| `WebSocket.FrameDelivers` | libraries/Websocket/src/WebSocketClient.cpp:90-262 | a complete frame parses to its opcode and length, its payload is the message and what follows it is left; a continuation keeps the type before it |
| `WebSocket.ServerHeader` | libraries/Websocket/src/WebSocketClient.cpp:181-232 | the header of a frame from a server, in all three forms of the length, is read as soon as its bytes are there |
| `WebSocket.PublishedFrames` | libraries/Websocket/src/WebSocketClient.cpp:90-262 | the examples of section 5.7 of RFC 6455, byte by byte |
| `WebSocket.ShortestExceptOnce` | libraries/Websocket/src/WebSocketClient.cpp:104-126 | the length is written in the shortest form exactly for sizes other than 65535 |
| `WebSocket.WebSocketClient.BeginMessage` | libraries/Websocket/src/WebSocketClient.cpp:75-88 | starts an empty message, unless one is started |
| `WebSocket.WebSocketClient.Write` | libraries/Websocket/src/WebSocketClient.cpp:153-179 | appends to the message in the buffer; a write that does not fit is cut so that eight bytes are buffered |
| `WebSocket.WebSocketClient.EndMessage` | libraries/Websocket/src/WebSocketClient.cpp:90-146 | sends one final masked frame with the whole message |
| `WebSocket.WebSocketClient.ReadInto` | libraries/Websocket/src/WebSocketClient.cpp:332-351 | a fully satisfied read gives exactly the next bytes of the message; a short read moves the key position by what was asked for |
| `WebSocket.WebSocketClient.Read` | libraries/Websocket/src/WebSocketClient.cpp:320-330 | gives the next byte of the message, -1 when none has arrived |
| `WebSocket.WebSocketClient.FlushRx` | libraries/Websocket/src/WebSocketClient.cpp:366-372 | drops exactly the rest of the current message |
| `WebSocket.WebSocketClient.ParseMessage` | libraries/Websocket/src/WebSocketClient.cpp:181-265 | the next message is there to be read unmasked; a ping is answered by a pong with its own bytes, except that while a message is being assembled the bytes are appended to that message and it is sent |
| `WebSocket.PongIsRightExactly` | libraries/Websocket/src/WebSocketClient.cpp:243-262 | what is sent for a ping while a message is being assembled is the right pong if and only if that message is a pong without bytes |
| `HttpChunked.ScanFits` | libraries/Websocket/src/HttpClient.cpp:610-632 | the scan of a size line keeps the decoder at its place in the body and skips no data; with everything arrived it reaches the end of the line |
| `HttpChunked.AvailableFits` | libraries/Websocket/src/HttpClient.cpp:608-652 | available loses nothing and answers the smaller of what has arrived and what is left of the current chunk |
| `HttpChunked.ReadFits` | libraries/Websocket/src/HttpClient.cpp:657-685 | read returns the next byte of the body or none |
| `HttpChunked.EveryRunDecodes` | libraries/Websocket/src/HttpClient.cpp:608-685 | for every chunked body, fragmentation and order of calls: the returned bytes are a prefix of the decoded body, and available never exceeds what is left of the chunk |
| `HttpChunked.SecondReadYields` | libraries/Websocket/src/HttpClient.cpp:608-685 | once everything has arrived, the first or the second call of read returns the next byte |
| `HttpChunked.EveryPlainRunReads` | libraries/Websocket/src/HttpClient.cpp:608-685 | for a body that is not chunked, over every fragmentation and order of calls: the returned bytes are those taken from the front, each read returns the next one exactly when it has arrived, and available is all that has arrived and not been returned |
| `HttpChunked.PrintedSizeIsChunk` | libraries/Websocket/src/HttpClient.cpp:625-631 | a chunk may be announced by the hexadecimal digits of its length in either case |
| `HttpChunked.ExampleBody` | libraries/Websocket/src/HttpClient.cpp:608-685 | a body of two chunks, byte by byte |
| `HttpChunked.HttpClient.Available` | libraries/Websocket/src/HttpClient.cpp:608-652 | the method has the specified effect and answer, chunked or not |
| `HttpChunked.HttpClient.Read` | libraries/Websocket/src/HttpClient.cpp:657-685 | the method has the specified effect and answer, and counts consumed bytes exactly when a content length is known |
| `MqttFormat.LengthRoundTrip` | libraries/PubSubClient/src/PubSubClient.cpp:320-334 | a remaining length of at most four bytes is read back, and no byte more is taken |
| `MqttFormat.LengthSize` | libraries/PubSubClient/src/PubSubClient.cpp:557-571 | a length takes at most k bytes exactly when it is below 128 to the k |
| `MqttFormat.PacketIsRead` | libraries/PubSubClient/src/PubSubClient.cpp:312-368 | a whole packet is read, or passed over when it is too big for the buffer, and reading stays in step with what follows |
| `MqttFormat.ShortPublishOverreads` | libraries/PubSubClient/src/PubSubClient.cpp:338-352 | a PUBLISH packet with less than two bytes of body takes bytes of what follows it |
| `MqttFormat.PublishDelivers` | libraries/PubSubClient/src/PubSubClient.cpp:389-414 | a published packet delivers its topic and payload |
| `MqttFormat.MessageDelivers` | libraries/PubSubClient/src/PubSubClient.cpp:389-414 | a message delivers its topic and payload for quality of service 0 and 1, quality 1 being answered with its identifier; quality 2 delivers the identifier in front of the payload |
| `MqttFormat.PublishedIsDelivered` | libraries/PubSubClient/src/PubSubClient.cpp:312-472 | a message that passes the size check of publish is read whole by a client with the same buffer size and delivers exactly its topic and payload |
| `MqttClient.PublishReachesCallback` | libraries/PubSubClient/src/PubSubClient.cpp:370-472 | such a message leads to exactly one call of the callback, with that topic and payload, and to no answer |
| `MqttClient.QualityOneIsAcknowledged` | libraries/PubSubClient/src/PubSubClient.cpp:395-414 | a message of quality of service 1 that fits leads to one call with its topic and payload and to a PUBACK with its identifier |
| `MqttClient.MessageIsRead` | libraries/PubSubClient/src/PubSubClient.cpp:312-434 | a message of any quality, with or without the flags beside it, that fits the buffer is read and delivered as its quality says |
| `MqttClient.PingsAreAnswered` | libraries/PubSubClient/src/PubSubClient.cpp:415-425 | a PINGREQ is answered by a PINGRESP and a PINGRESP is noticed; neither reaches the callback |
| `MqttClient.BegunIsPublished` | libraries/PubSubClient/src/PubSubClient.cpp:526-555 | beginPublish and the writes after it send the packet of publish if and only if the remaining length fits 16 bits |
| `MqttClient.PubSubClient.WriteString` | libraries/PubSubClient/src/PubSubClient.cpp:670-681 | writes the length and the string, and nothing else |
| `MqttClient.PubSubClient.BuildHeader` | libraries/PubSubClient/src/PubSubClient.cpp:557-579 | the header ends where the five-byte gap ends, and the rest of the buffer is untouched |
| `MqttClient.PubSubClient.WritePacket` | libraries/PubSubClient/src/PubSubClient.cpp:581-603 | sends one packet with the body that stands behind the gap |
| `MqttClient.PubSubClient.Publish` | libraries/PubSubClient/src/PubSubClient.cpp:448-472 | sends the PUBLISH packet exactly when connected and the packet fits behind the longest header, and nothing otherwise |
| `MqttClient.PubSubClient.PublishP` | libraries/PubSubClient/src/PubSubClient.cpp:478-524 | sends the same packet for every payload, header and topic fitting the buffer |
| `MqttClient.PubSubClient.BeginPublish` | libraries/PubSubClient/src/PubSubClient.cpp:526-541 | sends header and topic, with the remaining length cut to 16 bits |
| `MqttClient.PubSubClient.WriteBytes` | libraries/PubSubClient/src/PubSubClient.cpp:547-555 | sends the bytes as they are |
| `MqttClient.PubSubClient.Subscribe` | libraries/PubSubClient/src/PubSubClient.cpp:609-635 | sends a SUBSCRIBE packet with the next identifier exactly when topic, quality and size pass and the client is connected |
| `MqttClient.SubscribeFitsExactly` | libraries/PubSubClient/src/PubSubClient.cpp:615-632 | ten bytes and the topic are written where nine are checked: a topic that passes fits exactly when it does not leave just nine; for unsubscribe the check is right |
| `MqttClient.PubSubClient.Unsubscribe` | libraries/PubSubClient/src/PubSubClient.cpp:637-658 | sends an UNSUBSCRIBE packet with the next identifier under the same checks |
| `MqttClient.PubSubClient.ReadLengthBytes` | libraries/PubSubClient/src/PubSubClient.cpp:324-335 | reads the remaining length as specified; a fifth byte ends the connection |
| `MqttClient.PubSubClient.ReadOnePacket` | libraries/PubSubClient/src/PubSubClient.cpp:312-368 | on every input: timed out, killed, passed over or read into the buffer exactly as specified, and what follows the packet is left unread |
| `MqttClient.PubSubClient.DeliverPublish` | libraries/PubSubClient/src/PubSubClient.cpp:389-414 | moving the topic down by one byte in the buffer delivers topic and payload unchanged; a message with an identifier is acknowledged with it |
| `MqttClient.PubSubClient.Loop` | libraries/PubSubClient/src/PubSubClient.cpp:370-434 | the session step, the bytes sent and the callback calls are as specified for every clock and every packet |
| `MqttClient.PubSubClient.Connect` | libraries/PubSubClient/src/PubSubClient.cpp:181-285 | the session step for every outcome of dialling, size checks and reply; a CONNECT packet is sent exactly when an attempt is made and all strings fit |
| `MqttClient.PubSubClient.AwaitReply` | libraries/PubSubClient/src/PubSubClient.cpp:256-279 | accepted exactly on a packet of four bytes ending with 0; every other reply closes the connection with the state the source gives |
| `MqttClient.PubSubClient.Connected` | libraries/PubSubClient/src/PubSubClient.cpp:684-701 | answers whether the session is connected, and notices a lost connection |
| `MqttClient.PubSubClient.Disconnect` | libraries/PubSubClient/src/PubSubClient.cpp:660-668 | sends DISCONNECT and closes |
| `MqttServer.ConnectRoundTrip` | libraries/PubSubClient/src/PubSubClient.cpp:201-254 | a server reading the CONNECT packet, from its bytes: length, protocol name and version, flags, keep-alive and fields, finds exactly what was asked to be sent |
| `MqttServer.PublishRoundTrip` | libraries/PubSubClient/src/PubSubClient.cpp:448-524 | it finds topic, payload and retain flag of a published packet |
| `MqttServer.SubscribeRoundTrip` | libraries/PubSubClient/src/PubSubClient.cpp:609-658 | it finds identifier, topic and quality of the packets of subscribe and unsubscribe |
| `MqttServer.ShortPackets` | libraries/PubSubClient/src/PubSubClient.cpp:370-434 | it recognises acknowledgements, pings, their answers, and DISCONNECT |
| `MqttServer.PublishedLength` | libraries/PubSubClient/src/PubSubClient.cpp:557-571 | 321 is sent as 193 and 2, the example of MQTT 3.1.1 |
| `MqttClient.ArgsRoundTrip` | libraries/PubSubClient/src/PubSubClient.cpp:214-254 | flags and fields together say exactly what was asked to be sent |
| `MqttClient.AcceptedExactly` | libraries/PubSubClient/src/PubSubClient.cpp:266-277 | the exact replies connect accepts, and when such a reply is an accepting CONNACK: exactly when its type and length bytes say so |
| `MqttClient.AcceptedPackets` | libraries/PubSubClient/src/PubSubClient.cpp:256-277 | of the packets a server can send, those with two bytes of body of which the second is 0 are accepted, whatever their type, and no other; an accepted one is a CONNACK exactly by its type |
| `MqttClient.ConnackOutcome` | libraries/PubSubClient/src/PubSubClient.cpp:256-279 | on a CONNACK the session is connected exactly on code 0 and takes any other code as its state; silence gives -4 |
| `MqttClient.NotOnlyConnacks` | libraries/PubSubClient/src/PubSubClient.cpp:266-277 | every accepting CONNACK is accepted, and so is, for one, a PUBLISH packet with an empty topic |
| `MqttSession.EveryRunKeeps` | libraries/PubSubClient/src/PubSubClient.cpp:181-434 | over every run of calls, clocks, packets and losses the session agrees with its history |
| `MqttSession.NoTwoPingsUnanswered` | libraries/PubSubClient/src/PubSubClient.cpp:370-387 | between two PINGREQs of a run there is a PINGRESP or an accepted connection |
| `MqttSession.UnansweredPingEnds` | libraries/PubSubClient/src/PubSubClient.cpp:370-387 | at every moment of every run, loop ends a connected session in state -4, closed and with nothing sent, exactly when a ping of the run is unanswered at an expiry; at any other expiry, and at no other time, it sends a ping |
| `MqttSession.ExpiresInRealTime` | libraries/PubSubClient/src/PubSubClient.cpp:370-374 | with true times of which the session keeps 32 bits, the time has expired exactly when more than keepAlive seconds have passed since a packet came in or since one went out |
| `MqttSession.AttemptOutcome` | libraries/PubSubClient/src/PubSubClient.cpp:181-285 | how every attempt to connect ends, with the numbers of state(), and that the first identifier of a connection is 2 |
| `MqttSession.PacketsCount` | libraries/PubSubClient/src/PubSubClient.cpp:384-428 | any usable packet counts as activity, an answer settles a ping, an acknowledgement counts as sent, and a connection that readPacket ends is closed in state -1 |
| `MqttSession.LossIsNoticed` | libraries/PubSubClient/src/PubSubClient.cpp:684-701 | a lost connection is noticed as state -3 by whatever asks for it next |
| `MqttSession.ConnectedMeansAccepted` | libraries/PubSubClient/src/PubSubClient.cpp:196-285 | while connected() holds, the last attempt to connect was accepted and the next identifier is not 0 |
| `MqttSession.IdsDiffer` | libraries/PubSubClient/src/PubSubClient.cpp:609-658 | identifiers that follow each other in one connection are successors, differ, and are never 0 |
| `MqttSession.IdsCycle` | libraries/PubSubClient/src/PubSubClient.cpp:625-628 | the 16-bit successor runs through all 65535 identifiers before one comes again |
| `ImagePacker.CrcLow` | tools/ide/bk_builder.py:102-108 | the low 16 bits of the unbounded checksum from 0xFFFFFFFF are the 16-bit register started with 0xFFFF |
| `CrcRemainder.CrcIsRemainder` | tools/ide/bk_builder.py:102-108 | the register is the remainder of start value and message on division by x^16 + x^15 + x^2 + 1 over the field of two elements |
| `ImagePacker.OwnBytesClear` | tools/ide/bk_builder.py:94-109 | feeding a register its own two bytes clears it |
| `ImagePacker.BlockClears` | tools/ide/bk_builder.py:94-109 | every chunk followed by its two checksum bytes leaves remainder 0 |
| `ImagePacker.OneByteIsDetected` | tools/ide/bk_builder.py:94-109 | changing any one byte changes the checksum |
| `ImagePacker.BlocksRoundTrip` | tools/ide/bk_builder.py:94-109 | dropping the last 2 of every 34 bytes gives the data back, and every block leaves remainder 0 |
| `ImagePacker.ClearsEveryBlock` | tools/ide/bk_builder.py:94-109 | that every block leaves remainder 0, said of each 34 bytes by their number |
| `ImagePacker.BkCrc16` | tools/ide/bk_builder.py:94-109 | the loops compute the padded, protected blocks |
| `ImagePacker.SortSorts` | tools/ide/bk_builder.py:176 | the sections in order of their start are a permutation of the list |
| `ImagePacker.SortIsStable` | tools/ide/bk_builder.py:176 | sections with the same start keep their order |
| `ImagePacker.PackSections` | tools/ide/bk_builder.py:175-182 | the first section, in order, that is missing or too big is reported; otherwise all are packed |
| `ImagePacker.LayOut` | tools/ide/bk_builder.py:184-193 | the loop computes the layout, or finds the overlap |
| `ImagePacker.LayoutHolds` | tools/ide/bk_builder.py:184-193 | a layout exists exactly when the places, in order, are apart; every place then holds its data and everything else is 0xFF |
| `ImagePacker.BuildAllAppImage` | tools/ide/bk_builder.py:162-196 | the image, or the error the source raises first |
| `ImagePacker.SectionsAreRecovered` | tools/ide/bk_builder.py:162-196 | for every accepted package, slicing the image at the start of a section and dropping the checksums gives its firmware padded with 0xFF, and all its blocks leave remainder 0 |
| `ImagePacker.OutsideIsBlank` | tools/ide/bk_builder.py:184-195 | every byte no section covers, and the 34 at the end, is 0xFF |
| `ImagePacker.AcceptedExactly` | tools/ide/bk_builder.py:175-193 | an image results exactly when every section can be packed and ends, in order, before the next begins |
| `ImagePacker.AcceptedAsListed` | tools/ide/bk_builder.py:175-193 | a package is accepted as it is listed if and only if all sections can be packed and, of any two, the one that starts earlier ends before the other starts, and of two with the same start the one listed first is empty |
| `ImagePacker.AcceptedInEveryOrder` | tools/ide/bk_builder.py:175-193 | a package is accepted in every order of listing if and only if all sections can be packed, the earlier of any two ends before the later starts, and two with the same start are both empty |
| `ImagePacker.EmptySectionOrder` | tools/ide/bk_builder.py:176-193 | an empty bootloader at the address of the application is accepted when listed first and refused when listed second |
| `ImagePacker.AcceptedWhenDisjoint` | tools/ide/bk_builder.py:175-193 | with no empty firmware, a package is accepted exactly when all sections can be packed and no two overlap, however they are listed |

## Left out

- Drivers, SDK and radio code, TLS and sockets: thin layers over libraries that are not part of this model.
- Allocation failure in `String`, `base64::encode` and `std::unique_ptr`; floating-point printing; logging.
- HTTP requests, response headers, redirects and cookies: only chunked bodies and credentials are modelled.
- File handling, JSON and the OTA table of the packer; the work files are given as a map, and start addresses are taken to be non-negative.
- StringReplace.ArduinoString.Replace: for a longer replacement by a pair outside `NoCatch` it requires that the result happens to fit, because otherwise the source writes beyond the buffer it has grown. Texts are free of NUL, and pattern and replacement are other strings than the one changed.
- SpscQueue.SPSCQueue.Push: requires a capacity, because the source takes a remainder by it before it looks whether there are slots.
- UrlParser.ParseUrl: strict mode; buffers of at most 65535 bytes, beyond which the 16-bit offsets and lengths it stores are no longer those of the fields; a NUL behind the buffer for `strtoul`; the bit set of fields is a set.
- WebSocket.WebSocketClient.Write: a write that does not fit must begin within the first eight bytes of the buffer, because the source computes the shortened size from the wrong operand and wraps around beyond that.
- WebSocket.WebSocketClient.ParseMessage: requires that the header, the rest of the previous message and a whole control frame have arrived, because the source reads -1 as data or waits in a loop otherwise; sizes are not cut to `int`; the two reads of a length are taken from left to right.
- HttpChunked.HttpClient.Available: chunk sizes are not cut to `int`; extensions and trailers, whose hexadecimal digits the source would add to a size, are not part of the bodies considered.
- MqttClient.PubSubClient.Subscribe: excludes a topic that leaves exactly nine bytes of the buffer, where the size check of the source passes although ten are written.
- MqttClient.PubSubClient.Loop: a PUBLISH packet for a callback must be well formed, because the source does not check the topic length against the packet; no stream is attached; the callback does not call the client.
- MqttClient.PubSubClient.PublishP: header and topic must fit the buffer, which the source does not check.
- MqttClient.PubSubClient.BeginPublish: header and topic must fit the buffer, which the source does not check.
- MqttClient.PubSubClient.Connect: protocol version 3.1.1 only, and the 15 bytes in front of the strings fit the buffer, which the source does not check; the quality of the will is below 4.
- MqttClient.PubSubClient.WritePacket: writes the packet in one piece; `MQTT_MAX_TRANSFER_SIZE` is not defined by the source.
- Base64.B64Encode: requires that the array reaches as far as the characters it fills, which can be more than were offered; lengths are not cut to `int`.
- Base64.SendBasicAuth: only the header line; the printing of the rest of the request is not modelled.
- `RingBuffer`, character tests and byte swaps: they would only add easy members.
