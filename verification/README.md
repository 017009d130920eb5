# IOWA CoAP datagram stack: a verified model

IOWA's CoAP layer turns messages into UDP datagrams and back (sections 3, 3.1, 3.2 and 6 of
RFC 7252), keeps the options of a message in one ordered linked list, splits and compares
resource paths, takes URIs apart, answers requests, and retransmits confirmable messages until
they are acknowledged or given up (section 4.2 of RFC 7252). This project models that code and
proves what it promises.

Every concept comes in two forms. A function over byte sequences and option sequences says what
the result is, and theorems are proved about it. Where the source updates memory step by step, a
method over arrays, linked `OptionNode` objects and message objects does the same steps and is
proved to compute that function; allocation is tracked, so leaks and double frees show up.

| file | contents | source |
|---|---|---|
| Bytes, Options | integers on the wire, options, stable insertion, lookup | `iowa_option.c`, `iowa_coap.c` |
| OptionCodec, OptionTheorems | option format, round trip, canonical form, truncation, space | `iowa_option.c` |
| MessageCodec, MessageTheorems | datagram format, round trip, layout, canonical form | `iowa_message.c` |
| Overreads | when the option parser fetches bytes from behind the memory of a datagram | `iowa_option.c` |
| Paths, PathTheorems, PathMethods | path splitting and comparison | `iowa_option.c` |
| Uri, UriTheorems, UriMethods | URI parsing | `iowa_coap.c` |
| OptionNodes, OptionWriter, OptionReader | option list in memory, serializer, parser | `iowa_option.c` |
| Messages, MessageReader, Responses | message object, serializer, parser, responses | `iowa_message.c`, `iowa_coap.c` |
| UdpReceive | receive branch and block-option filter | `iowa_coap_udp.c` |
| Transactions, DatagramPeers | message ids, retransmission, completion, over whole runs | `iowa_transaction.c`, `iowa_peer.c` |
| Acknowledgements | answers that are kept, and repeated messages, over whole runs | `iowa_transaction.c` |
| Rfc7252 | the formats once more with every number written out, and that the model agrees | `iowa_option.c`, `iowa_message.c`, `iowa_coap.c` |
| EndToEnd | theorems that cross all of the above | |

`dafny verify dfyconfig.toml` checks the project.

## Where the code and its promises differ

The model follows the code. The theorems named here say exactly when a difference shows.

- `iowa_coap_option_compare_to_path` is documented as telling whether the paths match
  (iowa/src/coap/iowa_prv_coap.h:508-516). It also accepts a path that lacks the last segment of
  the options; for a path without leading delimiter it passes over empty segments in front; and on
  a list out of order it refuses the path that is spelled, when the number comes up again in the
  second place behind the run. `PathTheorems.CompareExact` says exactly what it decides, with the
  examples `PathTheorems.CompareAcceptsShorterPath`, `PathTheorems.CompareSkipsEmptySegment` and
  `PathTheorems.CompareRefusesSpelledPath`. The promise is kept for every non-empty path exactly
  when there is one segment, which has no delimiter inside and, where `char` is signed, no byte
  above 0x7F, and the number does not come up again in that place:
  `PathTheorems.PromiseIffOneSegment`.
- The same function compares `uint8_t` option bytes with plain `char` path bytes. Where `char` is
  signed, no byte above 0x7F ever compares equal. The parameter `signedChar` selects the platform;
  `PathTheorems.CompareAcceptsItself` says what it costs.
- The option parser fetches the extension of a delta or length before it tests whether the datagram
  goes on that far. A datagram that fills its memory and is cut off inside an option header makes it
  fetch bytes from behind the memory, for example 40 01 00 01 D0 in a buffer of five bytes:
  `Overreads.OverreadsFullMemory`, `Overreads.CutExtensionOverreads`. Such a datagram is always
  refused with 4.13 (`Overreads.DatagramOverreadIsRejected`), whatever is fetched, and two bytes of
  memory behind the datagram prevent it (`Overreads.TwoBytesSuffice`). The out-parameter `past` of
  the parsing methods reports it.
- Decoded option numbers are cut to 16 bits, so a decoded list need not be in order
  (`OptionTheorems.SortedUnlessNumbersWrap`). The lookup stops early on such a list, and then the
  filter for block-wise messages misses a block option: `UdpReceive.BlockFilterExact`, and
  `EndToEnd.WrappedNumberPassesFilter` for a nine-byte datagram.
- A colon in the path or query of a URI without an explicit port or a bracketed host is taken for
  the port separator and the URI is rejected: `UriTheorems.UriRoundTrip`. Which URIs are rejected,
  read off their text, is `UriTheorems.RejectedIff`.
- When the first '/' of a URI stands in its query, the length of the path comes out negative:
  `UriTheorems.NegativePathIff`. Taken for an unsigned size, a length of -1 makes a request for no
  memory at all and a copy of nearly all of it, which overruns the block unless a request for
  nothing is refused; it comes about exactly when a '/' follows the first '?' at once
  (`UriTheorems.LengthMinusOneIff`, and `UriTheorems.MinusOneExample` for `coap://h?/`). Any other
  negative length makes a request for nearly all memory, which is refused, and the result is 5.00
  (`UriTheorems.MinusTwoExample` for `coap://h?a/`). A caller that does not ask for the path, such as
  iowa/src/security/iowa_security.c:191, gets no error and a host that runs up to the '/', here `h?`
  and `h?a`. `UriMethods.UriParse` states all three outcomes.
- A token length above 8 is written to the datagram header and then dropped, so that the datagram
  is refused or decodes to a message of another type: `MessageTheorems.MessageRoundTripIff`.
- The first message id is not to be 0 (iowa/src/coap/iowa_prv_coap_internals.h:66-67), but a
  random first id can be; it is then the only time 0 is drawn: `Transactions.ReservedMidOnlyFirst`.
- Deadlines are kept in 32 bits, while ackTimeout and maxRetransmit can be any 8-bit numbers: up to
  which time of the clock all deadlines fit is exactly `Transactions.RunFitsTheClockIff`.
- Running out of memory is reported as 5.00, except that it is reported as 4.00 Bad Request, for a
  datagram whose header is acceptable, when the refused request is the one for the message:
  `MessageReader.ParseDatagram`.

## Model

| member | source | states |
|---|---|---|
| Bytes.MinimalBytesIsMinimal | iowa/src/coap/iowa_option.c:139-163 | the integer bytes that are written have no leading zero and stand for the value |
| Bytes.MinimalBytesOfBigEndian | iowa/src/coap/iowa_option.c:323-328 | reading integer bytes and writing them again never makes them longer; they come back unchanged exactly when they had no leading zero |
| Options.StableSortIsUnique | iowa/src/coap/iowa_coap.c:334-375 | sorted order plus the original order within each number determines the list |
| Options.InsertIsStable | iowa/src/coap/iowa_coap.c:334-375 | adding a single-number chain to a sorted list gives the stable sort of list and chain |
| Options.InsertSortedIff | iowa/src/coap/iowa_coap.c:334-375 | adding any chain keeps the list sorted exactly when the chain is sorted and no option of the list falls strictly inside its range |
| Options.BuildIsStableSort | iowa/src/coap/iowa_coap.c:334-375 | after any run of additions the list is the stable sort of all chains in the order they were added |
| Options.FindExact | iowa/src/coap/iowa_coap.c:208-228 | on any list, sorted or not, which option the early-stopping lookup returns |
| Options.FindOnSorted | iowa/src/coap/iowa_coap.c:208-228 | on a sorted list the lookup returns the first option of the number, or nothing exactly when there is none |
| Options.FindRun | iowa/src/coap/iowa_coap.c:208-228 | on a sorted list the found option begins the whole run of its number |
| Options.FindAfterBuild | iowa/src/coap/iowa_coap.c:208-228 | after any run of additions the lookup returns the option of that number that was added first |
| OptionCodec.ReadsOption | iowa/src/coap/iowa_option.c:216-337 | one serialized option, anywhere in a buffer, is read back with its number, value and extent; its header byte is never the payload marker |
| OptionCodec.OptionsRoundTrip | iowa/src/coap/iowa_option.c:200-348 | a serialized option list followed by nothing or by a payload marker parses to the same list and consumes exactly its bytes |
| OptionTheorems.ParseLayout | iowa/src/coap/iowa_option.c:213-341 | accepted options tile the buffer in list order, every value is its own slice, parsing ends at the end or at a payload marker |
| OptionTheorems.TilesAreDisjoint | iowa/src/coap/iowa_option.c:213-341 | the value slices of two options never overlap and keep list order |
| OptionTheorems.CanonicalForm | iowa/src/coap/iowa_option.c:200-348 | decoded options serialize to no more bytes than were read; the same bytes exactly when no extension wrapped and no integer had leading zeros |
| OptionTheorems.SortedUnlessNumbersWrap | iowa/src/coap/iowa_option.c:286-312 | decoded options are in order exactly when their deltas sum up within 16 bits |
| OptionTheorems.TruncationSafe | iowa/src/coap/iowa_option.c:213-347 | any prefix of a serialized list parses to exactly the options before the cut, or is rejected with 4.13 |
| OptionTheorems.EstimateAll | iowa/src/coap/iowa_option.c:44-86 | the reserved space covers what the serializer writes and exceeds it by at most 3 per option |
| OptionTheorems.EstimateOne | iowa/src/coap/iowa_option.c:44-86 | by how much the space reserved for one option exceeds what is written: what its delta extension lacks of two bytes, and one byte for an integer of zero or three bytes |
| OptionTheorems.EstimateIsTight | iowa/src/coap/iowa_option.c:44-86 | both bounds of the estimate are reached |
| MessageTheorems.MessageRoundTrip | iowa/src/coap/iowa_message.c:50-228 | every message of a two-bit type and a token of at most 8 bytes survives serialization and parsing |
| MessageTheorems.MessageRoundTripIff | iowa/src/coap/iowa_message.c:50-128 | with any type and any declared token length, a message survives exactly within those limits |
| MessageTheorems.DecodedLayout | iowa/src/coap/iowa_message.c:130-228 | token, options and payload of a decoded message are consecutive slices of the datagram |
| MessageTheorems.MarkerAlwaysFound | iowa/src/coap/iowa_message.c:208-225 | the rejection for a missing payload marker is never reached |
| MessageTheorems.CanonicalMessage | iowa/src/coap/iowa_message.c:50-228 | a decoded datagram serializes to one that is no longer and decodes to the same message; to the same bytes exactly when all options were canonical and the marker was not followed by nothing |
| MessageTheorems.DecodedSorted | iowa/src/coap/iowa_message.c:69-79 | the serializer takes a decoded message back exactly when its option deltas sum up within 16 bits |
| Rfc7252.StepByNumbers | iowa/src/coap/iowa_option.c:213-338 | for every byte string, what becomes of the option at any position, by the nibbles 13, 14 and 15, 16-bit wrap, the status codes 0x80, 0x8D and 0xA0, and the ten integer numbers |
| Rfc7252.IntegersByNumbers | iowa/src/coap/iowa_option.c:24-42 | an integer is a value for exactly the options 6, 7, 12, 14, 17, 23, 27, 28, 60 and 258 |
| Rfc7252.OptionByNumbers | iowa/src/coap/iowa_option.c:90-198 | the bytes of an option that is written: nibbles and extensions stand for the 16-bit delta and the length, and its end is the value, an integer most significant byte first and without leading zeros; never 0xFF first |
| Rfc7252.DatagramByNumbers | iowa/src/coap/iowa_message.c:95-122 | the bytes of a datagram: version 1, type, token length, code, id, token, options, and 0xFF before a payload |
| Rfc7252.HeaderByNumbers | iowa/src/coap/iowa_message.c:130-182 | which headers are acceptable, by their bits, what is read from them, and 4.00 for the others |
| Rfc7252.PayloadByNumbers | iowa/src/coap/iowa_message.c:199-227 | options begin behind the token, and the payload is what follows the 0xFF they end at |
| Rfc7252.AnswerByNumbers | iowa/src/coap/iowa_coap.c:295-407 | the very bytes of the answer to any decoded datagram, by its first nibble 4, 5, 6 or 7 |
| Rfc7252.EmptyAckByNumbers | iowa/src/coap/iowa_transaction.c:329-333 | the empty acknowledgement is 60 00 and the id |
| Rfc7252.EventsByNumbers | iowa/src/coap/iowa_coap_udp.c:113-168 | option 27 found: answered with the bytes of a 4.02; otherwise option 23 found: dropped; otherwise handed over with its payload length if it filled the buffer |
| Rfc7252.FilterByNumbers | iowa/src/coap/iowa_coap_udp.c:148-164 | without 16-bit wrap, a datagram is handed over exactly if it has neither option 27 nor option 23 |
| OptionNodes.Allocator.NewOption | iowa/src/coap/iowa_option.c:350-366 | a zeroed node with its number, newly allocated, or null and one more refused request |
| OptionNodes.Allocator.FreeOptions | iowa/src/misc/iowa_list.c:144-162 | every node of a list is freed exactly once, and nothing else |
| OptionWriter.GetSerializedLength | iowa/src/coap/iowa_option.c:44-86 | the estimator, as the function the space theorems are about |
| OptionWriter.WriteDelta | iowa/src/coap/iowa_option.c:111-137 | writes header nibble and delta extension, and no other byte |
| OptionWriter.WriteInteger | iowa/src/coap/iowa_option.c:139-163 | writes the minimal big-endian integer, and no other byte |
| OptionWriter.WriteLength | iowa/src/coap/iowa_option.c:166-187 | sets the length nibble and writes the length extension, and no other byte |
| OptionWriter.WriteOption | iowa/src/coap/iowa_option.c:102-195 | one node becomes exactly its encoding at its place; every other byte keeps its value |
| OptionWriter.SerializeOptions | iowa/src/coap/iowa_option.c:90-198 | a linked list becomes exactly the encoding of its options, inside the reserved space; every other byte keeps its value |
| OptionReader.FetchExtension | iowa/src/coap/iowa_option.c:229-284 | an extension fetched before its bounds test is judged as if only the bytes of the datagram existed, whatever lies behind them; bytes from behind the array are fetched exactly when the array does not hold the whole extension |
| OptionReader.FetchHead | iowa/src/coap/iowa_option.c:216-284 | header, extensions and bounds test together decide as the format says, with its status codes; exactly when bytes from behind the array are fetched |
| OptionReader.FetchInteger | iowa/src/coap/iowa_option.c:315-328 | shifting the bytes in gives their big-endian value |
| OptionReader.NextOption | iowa/src/coap/iowa_option.c:286-338 | one more node at the end of the list with the right number and value, or a status; no node is lost |
| OptionReader.ReadOption | iowa/src/coap/iowa_option.c:213-338 | one turn of the parsing loop: the node, number, value and extent the format says, or its status; exactly when bytes from behind the array are fetched |
| OptionReader.ParseOptions | iowa/src/coap/iowa_option.c:200-348 | on success exactly the options of the datagram are linked and live, on any error nothing stays allocated; bytes behind the datagram do not matter, and memory permitting, bytes behind the array are fetched exactly under the stated condition |
| Overreads.StopsWhereItFails | iowa/src/coap/iowa_option.c:213-347 | parsing fails exactly if it stops before the end of the buffer and not at a payload marker |
| Overreads.OverreadIsRejected | iowa/src/coap/iowa_option.c:229-284 | options that make the parser leave the memory are always rejected with 4.13 |
| Overreads.TwoBytesSuffice | iowa/src/coap/iowa_option.c:229-284 | with two bytes of memory behind the datagram the parser never leaves the memory |
| Overreads.OverreadsFullMemory | iowa/src/coap/iowa_option.c:229-284 | with none, it leaves the memory exactly if it stops at an option whose header and extensions are cut off |
| Overreads.DatagramOverreadIsRejected | iowa/src/coap/iowa_message.c:184-206 | a datagram that makes the parser leave the memory is refused with 4.13 |
| Overreads.CutExtensionOverreads | iowa/src/coap/iowa_option.c:229-242 | a five-byte datagram that is read beyond when it fills its memory, and is not with one more byte |
| Messages.CoapMessage.FindOption | iowa/src/coap/iowa_coap.c:208-228 | returns the node the lookup function names, or null |
| Messages.CoapMessage.AddOption | iowa/src/coap/iowa_coap.c:334-375 | relinks the two chains into the stable insertion, with all nodes of both and no others |
| Messages.CoapMessage.EstimateOptions | iowa/src/coap/iowa_message.c:69-79 | refuses exactly the unsorted lists, and reserves the sum of the estimates |
| Messages.WriteMessage | iowa/src/coap/iowa_message.c:95-122 | fills a buffer that is large enough with exactly the encoding of the message |
| Messages.CoapMessage.SerializeDatagram | iowa/src/coap/iowa_message.c:50-128 | never writes outside its buffer; produces exactly the encoding, wastes at most 3 bytes per option (plus a token length above 8); nothing exactly for an unsorted list or when the buffer is refused |
| MessageReader.FreeMessage | iowa/src/coap/iowa_coap.c:284-293 | frees the message and each of its options once |
| MessageReader.ParseDatagramHeader | iowa/src/coap/iowa_message.c:130-182 | accepts exactly the headers of version 1 with a complete token of at most 8 bytes, and takes over its fields |
| MessageReader.ParseBody | iowa/src/coap/iowa_message.c:199-227 | options and payload of the datagram end up in the message, or the status the format says |
| MessageReader.ParseDatagram | iowa/src/coap/iowa_message.c:184-228 | the message the format says, with exactly its nodes live, or a status and nothing allocated; which status running out of memory gets; exactly when bytes behind the array are fetched |
| Paths.JoinSplit | iowa/src/coap/iowa_option.c:392-429 | joining the segments gives the path back |
| Paths.SplitIsDelimiterFree | iowa/src/coap/iowa_option.c:392-429 | no segment contains the delimiter |
| Paths.SplitJoin | iowa/src/coap/iowa_option.c:392-429 | the segments are the only delimiter-free ones that spell the path |
| Paths.SegmentsComeBack | iowa/src/coap/iowa_option.c:392-429 | segments joined with a delimiter in front, or joined without one unless the first is empty, are what the path is split into |
| PathMethods.PathToOption | iowa/src/coap/iowa_option.c:373-432 | one node per segment after dropping one leading delimiter, for any number, and for a buffer number the options of the path; null, memory aside, exactly when a segment exceeds 65535 bytes, and then nothing stays allocated |
| PathMethods.ComparePath | iowa/src/coap/iowa_option.c:434-493 | decides the comparison the path theorems are about |
| PathTheorems.CompareExact | iowa/src/coap/iowa_option.c:434-493 | for any non-empty path and any list, sorted or not, the comparison holds exactly when the path spells the segments of the run at the front, unless the number comes up again in the second place behind it, or all of them but the last; the spelled segments being delimiter-free and readable, and empty segments in front being passed over first where the path has no leading delimiter |
| PathTheorems.PromiseIffOneSegment | iowa/src/coap/iowa_prv_coap.h:508-516 | the comparison agrees with spelling for every non-empty path exactly when the run is a single segment that can compare equal at all and its number does not come up again in the second place behind it |
| PathTheorems.CompareEmptyPath | iowa/src/coap/iowa_option.c:434-493 | on any list, an empty path is accepted exactly when the run at the front is a single option |
| PathTheorems.CompareAcceptsShorterPath | iowa/src/coap/iowa_prv_coap.h:508-516 | two options and the path of the first compare equal, against the documentation |
| PathTheorems.CompareSkipsEmptySegment | iowa/src/coap/iowa_option.c:449-465 | an empty segment and a second one compare equal to the path of the second alone |
| PathTheorems.CompareRefusesSpelledPath | iowa/src/coap/iowa_option.c:484-490 | a list out of order that does not compare equal to the path its run spells |
| PathTheorems.CompareAcceptsItself | iowa/src/coap/iowa_option.c:373-493 | options made from a path compare equal to it; where char is signed, exactly when no byte exceeds 0x7F |
| Uri.PickScheme | iowa/src/coap/iowa_coap.c:442-500 | a scheme is found exactly when one of the nine begins the URI |
| UriTheorems.SchemesArePrefixFree | iowa/include/iowa_coap.h:40-52 | at most one scheme begins a URI, so the order of the tests does not matter |
| UriTheorems.GoodOffsetsAreOrdered | iowa/src/coap/iowa_coap.c:502-596 | offsets that pass the checks point at their separators, in the order of the parts |
| UriTheorems.NegativePathIff | iowa/src/coap/iowa_coap.c:723-739 | the length of the path is negative exactly for the URIs that pass all checks although their first slash stands in the query |
| UriTheorems.LengthMinusOneIff | iowa/src/coap/iowa_coap.c:723-739 | the negative length is -1 exactly if a slash follows the first question mark at once |
| UriTheorems.MinusOneExample | iowa/src/coap/iowa_coap.c:723-739 | a URI with a path of length -1, and its other parts |
| UriTheorems.MinusTwoExample | iowa/src/coap/iowa_coap.c:723-739 | a URI with a path of length -2, and its other parts |
| UriTheorems.Reassembly | iowa/src/coap/iowa_coap.c:413-763 | an accepted URI is scheme, host, explicit port, path and query put together again, and its host (for LoRaWAN its FPort) is not empty |
| UriTheorems.UriRoundTrip | iowa/src/coap/iowa_coap.c:413-763 | composing parts and parsing gives them back with type, security and default port; rejected exactly when a colon of path or query is taken for the port separator |
| UriTheorems.WellKnownPorts | iowa/src/coap/iowa_prv_coap.h:89-92 | a URI of just a scheme and a host gets the port of that scheme: 5683, 5684, 80, 443, or none |
| UriTheorems.NineSchemes | iowa/src/coap/iowa_coap.c:442-500 | for each of the nine scheme texts, followed by any plain host: connection type, security, host and port |
| UriTheorems.RejectedIff | iowa/src/coap/iowa_coap.c:442-596 | a URI is rejected exactly if it begins with none of the nine schemes, or behind its scheme there is no host, a bracket is never closed, or the port separator stands first, behind a '/' or '?', or in a LoRaWAN URI |
| UriMethods.SchemeOf | iowa/src/coap/iowa_coap.c:442-500 | the chain of comparisons finds the scheme of the table |
| UriMethods.FindPort | iowa/src/coap/iowa_coap.c:502-537 | the port separator of a plain or bracketed host, or a bracket that is never closed |
| UriMethods.CheckOffsets | iowa/src/coap/iowa_coap.c:502-596 | accepts exactly the URIs whose separators are in order and whose host is there |
| UriMethods.BufferToString | iowa/src/misc/iowa_utils.c:382-404 | the copy of a part, or a refusal; exactly when the size wraps around to an overrun |
| UriMethods.UriParse | iowa/src/coap/iowa_coap.c:413-785 | for every URI and every choice of parts: the wanted parts as the splitting function gives them, or 4.06; with a negative path length that is wanted, an overrun for -1 where a request for no memory is granted, otherwise 5.00; 5.00 also when memory runs short |
| Responses.ReplyMatchesRequest | iowa/src/coap/iowa_coap.c:295-407 | every decoded CON or NON message gets an answer that decodes to the right type, code, id and token; an empty acknowledgement is exactly 4 bytes; ACK and RST get none |
| Responses.InitMessage | iowa/src/coap/iowa_coap.c:230-276 | a message with its type, code and token and the reserved id; refused for a token above 8 bytes |
| Responses.PrepareResponse | iowa/src/coap/iowa_coap.c:295-332 | the response object has the prepared reply as its value |
| Responses.SendResponse | iowa/src/coap/iowa_coap.c:377-407 | what goes out is the reply to the message, only over a connected peer, and the response object is freed |
| UdpReceive.FindMisses | iowa/src/coap/iowa_coap.c:208-228 | the lookup misses a number that is there exactly when a greater one stands before all of it |
| UdpReceive.BlockFilterExact | iowa/src/coap/iowa_coap_udp.c:148-164 | a decoded datagram is handed over exactly when each block option it has is hidden behind a greater number |
| UdpReceive.BlockFilterComplete | iowa/src/coap/iowa_coap_udp.c:148-164 | without 16-bit wrap, exactly the messages without block options are handed over |
| UdpReceive.ReceiveDatagram | iowa/src/coap/iowa_coap_udp.c:113-168 | the events of a datagram, also of one that fills the buffer, are those the format dictates, and every message is freed exactly once on every path; when bytes behind the buffer are fetched |
| EndToEnd.BuiltMessageSurvives | iowa/src/coap/iowa_coap.c:208-375 | a message whose options were added in any order goes over the wire unharmed, and the receiver finds the first-added option of each number |
| EndToEnd.PathSurvivesTheWire | iowa/src/coap/iowa_option.c:373-493 | a path split into options of any buffer number, added to any sorted message, serialized, parsed and looked up compares equal to itself (where char is signed: exactly when it has no byte above 0x7F) |
| EndToEnd.WrappedNumberPassesFilter | iowa/src/coap/iowa_coap_udp.c:148-164 | a datagram with a Block1 option that is handed over all the same |
| EndToEnd.AnswerOnTheWire | iowa/src/coap/iowa_coap.c:295-407 | the answer to a confirmable message, decoded, is an acknowledgement with its id, and the receive path hands it over |
| EndToEnd.AnswerCompletesItsRequest | iowa/src/coap/iowa_transaction.c:95-390 | over any run, what the other side answers to a pending message, serialized and decoded, completes that very message, once, and no other |
| EndToEnd.DatagramDispatch | iowa/src/coap/iowa_transaction.c:300-390 | after any run, a decoded datagram that begins with 0x6 or 0x7 completes the first pending message with its id, as acknowledged or as reset; one without such a message, or that begins with 0x4 or 0x5, changes nothing |
| EndToEnd.ReplyDatagramCompletes | iowa/src/coap/iowa_transaction.c:344-384 | after any run and within 65535 draws, a decoded reset or acknowledgement with the id of a pending message removes exactly that message, with the outcome of its type |
| Acknowledgements.FindAck | iowa/src/coap/iowa_transaction.c:30-50 | the first kept answer to a message id, or none exactly when there is none |
| Acknowledgements.EmptyAckIsTheReply | iowa/src/coap/iowa_transaction.c:329-333 | the acknowledgement of a message that is no request is the 4-byte reply, and decodes to it |
| Acknowledgements.RunHoldsTheUnexpired | iowa/src/coap/iowa_transaction.c:153-243 | after any run, exactly the answers are kept that went out and that no later step found expired |
| Acknowledgements.HandedUpIff | iowa/src/coap/iowa_transaction.c:309-336 | after any run, a confirmable message is handed up exactly if no unexpired answer to its id is kept; otherwise such an answer is sent again and nothing else happens |
| Acknowledgements.PurgeKeepsFirst | iowa/src/coap/iowa_transaction.c:213-243 | removing expired answers does not change which answer a valid id finds |
| Acknowledgements.RepeatIsAnsweredAlike | iowa/src/coap/iowa_transaction.c:153-327 | while an answer is valid, every repetition of its message, in any run, is answered with the same bytes and none is handed up |
| Acknowledgements.AnsweredOnce | iowa/src/coap/iowa_transaction.c:153-327 | once a message was answered, nothing hands it up again before a step at the end of the validity of the answer |
| Acknowledgements.WhatIsLeftBehind | iowa/src/coap/iowa_transaction.c:309-336 | an unanswered message goes up and, exactly if its code is not of the request class, the empty acknowledgement can go out and answers are kept, leaves that acknowledgement in the cache; everything else leaves the cache as it was |
| Acknowledgements.AcknowledgedOnce | iowa/src/coap/iowa_transaction.c:309-336 | a message acknowledged on reception is handed up once: in any run, while the acknowledgement is valid, its repetitions get those bytes and none is handed up |
| Acknowledgements.HandedUpAgainIff | iowa/src/coap/iowa_transaction.c:153-243 | over any run, the next repetition of an answered message is handed up exactly if a step came at the end of the validity or later |
| Acknowledgements.NothingIsKept | iowa/src/coap/iowa_transaction.c:153-187 | without acknowledgement timeout no run keeps an answer, and every message is handed up |
| Acknowledgements.AckList.Record | iowa/src/coap/iowa_transaction.c:153-187 | keeps an answer with its validity, if the peer has an acknowledgement timeout |
| Acknowledgements.AckList.Step | iowa/src/coap/iowa_transaction.c:213-243 | takes exactly the expired answers off the list, in place |
| Acknowledgements.AckList.Receive | iowa/src/coap/iowa_transaction.c:309-336 | resends or hands up, and keeps the empty acknowledgement, as the run model says; handed up exactly if no kept answer has the id |
| Transactions.FindMid | iowa/src/coap/iowa_transaction.c:52-77 | the first pending message with the id of the reply, or none exactly when no pending message has it |
| Transactions.NextMidInClosedForm | iowa/src/coap/iowa_peer.c:90-95 | drawing ids one after the other gives the closed form |
| Transactions.ReservedMidOnlyFirst | iowa/src/coap/iowa_peer.c:352-362 | the reserved id is drawn by the first message only, when the random first id is 0 |
| Transactions.MidsCollide | iowa/src/coap/iowa_peer.c:90-95 | two messages share an id exactly when they lie a multiple of 65535 draws apart |
| Transactions.TickAllConserves | iowa/src/coap/iowa_transaction.c:245-296 | a step neither loses nor duplicates a pending message: it stays or it ends |
| Transactions.SafeAfterTick | iowa/src/coap/iowa_transaction.c:199-298 | a step keeps every message on schedule, bounded and accounted for |
| Transactions.SafeAfterSend | iowa/src/coap/iowa_transaction.c:95-150 | so does sending, whatever becomes of the message |
| Transactions.SafeAfterReceive | iowa/src/coap/iowa_transaction.c:344-384 | so does any acknowledgement or reset |
| Transactions.SafeAfterClose | iowa/src/coap/iowa_peer.c:510-535 | deleting the peer completes all that is pending and keeps the account |
| Transactions.RunIsSafe | iowa/src/coap/iowa_transaction.c:95-390 | over every run of sends, steps, replies and deletion, each confirmable message taken by the transport is pending or completed, exactly once; it is transmitted at most maxRetransmit + 1 times; it times out only after all of these and the whole sum of doubled timeouts |
| Transactions.TickOutcome | iowa/src/coap/iowa_transaction.c:245-296 | a step completes messages as timed out only |
| Transactions.TimeoutsDouble | iowa/src/coap/iowa_transaction.c:255-273 | the first retransmission waits for twice ackTimeout, each later one for twice as long as the one before |
| Transactions.RunDraws | iowa/src/coap/iowa_peer.c:84-100 | over any run, each send draws one id, in order, and makes a message wait exactly if it is confirmable and was taken |
| Transactions.RunTransmits | iowa/src/coap/iowa_transaction.c:95-150 | over any run, a message that does not wait was transmitted once, or never if it could not be serialized |
| Transactions.EverySendAccounted | iowa/src/coap/iowa_transaction.c:95-390 | over any run, the account of every send: pending or completed exactly once after 1 to maxRetransmit + 1 transmissions, or neither and sent at most once |
| Transactions.RunIsNewestFirst | iowa/src/coap/iowa_transaction.c:138 | after any run the pending messages are in the order newest first |
| Transactions.ReplyNamesTheNewest | iowa/src/coap/iowa_transaction.c:52-77 | after any run, even with ids that wrapped around, a reply completes the message sent last among those pending with its id |
| Transactions.ReplyFindsItsMessage | iowa/src/coap/iowa_transaction.c:52-77 | in every safe state a reply completes the message whose id it carries exactly when no message before it in the list shares that id by wrap-around |
| Transactions.ReplyCompletesItsMessage | iowa/src/coap/iowa_transaction.c:344-384 | within 65535 draws a reply completes its own message, once, and no other |
| Transactions.EveryMessageEnds | iowa/src/coap/iowa_transaction.c:245-296 | maxRetransmit + 1 steps, each as late as the longest timeout, leave no message pending |
| Transactions.LatestDeadline | iowa/src/coap/iowa_transaction.c:255-273 | for every number of retransmissions the clock leaves time for, a run that reaches the latest deadline after them |
| Transactions.RunFitsTheClockIff | iowa/src/coap/iowa_transaction.c:255-273 | for every reading of the clock, no deadline of any run up to then leaves 32 bits exactly if the one after the most retransmissions there is time for does not |
| DatagramPeers.DatagramPeer.Send | iowa/src/coap/iowa_peer.c:84-100 | draws the id and records the transaction as the run model says |
| DatagramPeers.DatagramPeer.Step | iowa/src/coap/iowa_transaction.c:245-296 | visits every transaction once, in place; the wait it returns is in time for every pending message and no shorter than needed |
| DatagramPeers.DatagramPeer.HandleReply | iowa/src/coap/iowa_transaction.c:344-384 | removes exactly the transaction the reply names, if there is one; the code its caller is told, and whether the message is handed on |
| DatagramPeers.DatagramPeer.HandleMessage | iowa/src/coap/iowa_transaction.c:300-390 | by type 0 to 3: what is removed, what is handed on, and the code its caller is told |
| DatagramPeers.DatagramPeer.Close | iowa/src/coap/iowa_peer.c:515-530 | completes and removes every transaction |

## Left out

- UriMethods.UriParse: a null argument; an object is smaller than half of all memory, and requests for half of it or more are refused. After an overrun nothing is claimed.
- PathMethods.ComparePath: requires that an option with an integer number has length 0, as parsing leaves it, since its buffer pointer is not one.
- Messages.CoapMessage.AddOption: requires two disjoint proper lists; adding a chain to a list that already contains it makes a cycle in the source.
- Messages.CoapMessage.SerializeDatagram: sizes are unbounded integers.
- MessageReader.FreeMessage: a message has no userBufferList.
- Responses.InitMessage: the token is always there, so that the refusal of a null token is not modelled.
- Responses.SendResponse: what becomes of the reply after it was handed to the transport.
- Transactions.RunIsSafe: times are unbounded integers; RunFitsTheClockIff says exactly up to when that makes no difference, except that a shift by 32 or more is undefined in the source even for an ackTimeout of 0. The settings do not change during a run.
- Transactions.SafeAfterTick: the same unbounded times.
- Transactions.EveryMessageEnds: the same unbounded times.
- DatagramPeers.DatagramPeer.Send: the outcome of serializing and transmitting enters as a parameter.
- DatagramPeers.DatagramPeer.Step: the transaction list is a sequence that is reassigned, so that its links are not modelled; callbacks do not re-enter the peer; the buffer that is sent again is stood for by the serial number of its message.
- DatagramPeers.DatagramPeer.HandleReply: the callbacks themselves, and what the upper layer does with a message that is handed on.
- DatagramPeers.DatagramPeer.HandleMessage: what a confirmable message does is in Acknowledgements.AckList.Receive.
- DatagramPeers.DatagramPeer.Close: the exchanges of the upper layer, the cached acknowledgements and the connection, which are closed as well.
- Value buffers: a node's asBuffer is the bytes it points at, so that the lifetime and later change of those bytes (they belong to the datagram or to the path string) is not captured; neither is the union of asInteger and asBuffer.
- Acknowledgements.AckList.Record: an answer that could not be sent or kept does not reach the list; the other fields of the peer are in DatagramPeers.DatagramPeer.
- Stream transports (TCP, WebSocket), SMS and LoRaWAN transports, block-wise transfer, security sessions, peer creation and connection events.
- What the upper layers do with a message (exchanges, observations, LwM2M): the receive path records that it handed the message over.
- Logging, critical sections, and the configuration switches that remove argument and allocation checks.
