# libnetconf session core in Dafny

This project models the session core of the libnetconf NETCONF client, `src/session.c`. It covers five parts:

- **The capability list.** `nc_cpblts_new`, `add`, `remove`, `iter_start` and `iter_next`, plus the default capability set.
- **The two read primitives.** `nc_session_read_len` reads an exact number of bytes. `nc_session_read_until` reads up to an end tag.
- **Message framing.** `nc_session_send` writes a message and `nc_session_receive` reads one. NETCONF 1.0 uses the `]]>]]>` end marker of section 4.3 of RFC 6242. NETCONF 1.1 uses the chunked framing of section 4.2.
- **Message correlation.** `nc_session_send_rpc` stamps message-ids and keeps the counter. On receive, the message-id is extracted and the reply type is classified.
- **The accessors.** `nc_session_get_version` and `nc_session_get_eventfd`.

The modules follow the source's layers:

| module | file | contents |
|---|---|---|
| `CText` | `ctext.dfy` | C-string helpers: the string up to the first NUL, `%d`/`%llu` printing, `strtoul`, unsigned 64-bit wrap-around |
| `Capabilities` | `capabilities.dfy` | the `nc_cpblts` structure and its operations |
| `Transport` | `transport.dfy` | the read primitives over an abstract stream of transport events |
| `Framing` | `framing.dfy` | the wire encoding and the two decoders |
| `Sessions` | `sessions.dfy` | the accessors, receive and send_rpc |

**How the transport is modelled.** The transport is a finite sequence of events: `Byte(b)`, `WouldBlock` (EAGAIN, which the source answers by sleeping and retrying), `Eof` (SSH channel EOF) and `Error` (a hard read error).

- A read that runs out of events ends in `Exhausted`. The source would still be waiting at that point.
- When reading from a file descriptor, the source treats a read of 0 bytes at end of file as progress and retries forever. So over a descriptor, the reads see only the events before the first `Eof`.

**What stands in for libxml2.** A document is reduced to four things: the root's name, the name of its first child, the root's `message-id` attribute, and a namespace declared on the root without a prefix. The parser (`xmlReadDoc`) and the serializer (`xmlDocDumpFormatMemory`) are function parameters.

**Bytes and counters.**

- Bytes are `char`s.
- A C string is the part of a buffer before its first NUL.
- The message-id counter is an `unsigned long long`, and wraps at 2^64.

## Model

| member | source | states |
|---|---|---|
| CText.CString | src/session.c:637 | what `strcat`/`strdup` keep of a buffer: a NUL-free prefix that stops at the first NUL and is the whole buffer when there is none |
| CText.Strtoul | src/session.c:611 | `strtoul` never yields more than ULONG_MAX |
| CText.StrtoulOfDecimal | src/session.c:611 | `strtoul` reads back any number printed in decimal, whatever non-digit follows (the chunk header's newline) |
| CText.StrtoulWithoutValue | src/session.c:611-614 | `strtoul` of a line without a nonzero digit is 0, so such a chunk header is rejected |
| CText.Int32 | src/session.c:332 | the `(int)` cast of the chunk length keeps values below 2^31 and always lands in the int range |
| Capabilities.New | src/session.c:125-165 | a new list has its cursor at 0 and a free slot; without an array it is empty with capacity 10; for a non-empty array its loop stores the first string twice and then the rest, giving n + 1 items; its capacity is 10 doubled each time the count reached it, the first such doubling above the count |
| Capabilities.GrownStep | src/session.c:149-159 | one more item doubles the capacity exactly when the count reaches it and leaves it unchanged otherwise |
| Capabilities.Add | src/session.c:167-192 | add is refused exactly when the count exceeds the capacity; otherwise it appends one copy at index `items`, doubles the capacity when the count reaches it, and keeps a free slot |
| Capabilities.Remove | src/session.c:194-222 | remove is refused exactly when the count exceeds the capacity; an absent capability changes nothing; for a present one the first matching slot receives the last slot's entry, every other slot but the last is unchanged, the last slot becomes NULL, the count stays and the capacity drops by one |
| Capabilities.RemoveDropsOneOccurrence | src/session.c:206-219 | removing a present capability drops exactly one occurrence from the stored multiset and keeps the count |
| Capabilities.IterStart | src/session.c:225-231 | rewinding resets only the cursor |
| Capabilities.IterNext | src/session.c:233-244 | past the last item iteration reports the end and changes nothing; otherwise it reports the slot under the cursor and advances the cursor by one |
| Capabilities.DrainVisitsSlots | src/session.c:233-244 | repeated iteration from the cursor visits every remaining slot exactly once, in order |
| Capabilities.IterateFilled | src/session.c:225-244 | after a rewind, a list without NULL slots iterates exactly its capabilities |
| Capabilities.IterateNoHoles | src/session.c:233-244 | iterating a list without NULL slots never reaches a NULL slot |
| Capabilities.NewIteratesFirstTwice | src/session.c:147-148 | iterating a list built from a non-empty array yields the first string twice |
| Capabilities.DefaultSet | src/session.c:246-263 | the default list holds base:1.0 twice, then base:1.1, writable-running, candidate and startup, with a free slot and a rewound cursor |
| Capabilities.NewDuplicatesFirst | src/session.c:147 | a one-string array gives a list that iterates that string twice; the corrected constructor gives it once |
| Capabilities.NewIntended | src/session.c:125-165 | the corrected constructor stores each string of the array once, in order |
| Capabilities.NewIntendedIterates | src/session.c:125-165 | a list from the corrected constructor iterates exactly the array it was given |
| Capabilities.RemoveLeavesHole | src/session.c:214-218 | removing the only capability leaves a NULL slot that iteration reaches; the corrected remove leaves an empty list |
| Capabilities.RemoveIntended | src/session.c:194-222 | the corrected remove lowers the count, not the capacity, by one |
| Capabilities.RemoveIntendedDropsOne | src/session.c:206-219 | the corrected remove drops exactly one occurrence, keeps a list free of NULL slots, and keeps a free slot |
| Transport.ReadLen | src/session.c:360-431 | read_len succeeds exactly when n bytes arrive before the first fault; it returns exactly those n bytes and consumes up to the n-th byte; otherwise it fails with that fault |
| Transport.ReadUntil | src/session.c:433-566 | read_until returns the shortest prefix of the delivered bytes that ends with the tag, consuming exactly it; when it fails, no prefix of the delivered bytes ends with the tag |
| Transport.ReadLenOfBytes | src/session.c:360-431 | reading the length of what the peer wrote returns it and leaves what follows |
| Transport.ReadUntilOfBytes | src/session.c:433-566 | reading up to a tag that first occurs at the end of what the peer wrote returns it all and leaves what follows |
| Transport.EventsAppend | src/session.c:316-358 | writing two byte strings one after the other is the same stream as writing their concatenation |
| Framing.Encode | src/session.c:316-358 | send writes the document's C string in one chunk under 1.1 and followed by the end marker under any other version |
| Framing.DecodeV10 | src/session.c:582-589 | the 1.0 receive reports an empty message exactly when the delivered bytes start with the end marker; otherwise its text is NUL-free, a prefix of the delivered bytes, and at least seven bytes shorter than them |
| Framing.DecodeV10Intended | src/session.c:582-589 | the corrected 1.0 receive fails only when the read fails; its text is NUL-free, a prefix of the delivered bytes, and at least six bytes shorter than them |
| Framing.V10TextBeforeMarker | src/session.c:582-589 | where the first end marker of the delivered bytes starts at k, the receive as written yields the C string of the first k - 1 bytes (an empty-message error when k is 0), the corrected one the C string of all k bytes, and both consume exactly through the marker |
| Framing.V10WithoutMarker | src/session.c:584-586 | when no end marker is among the delivered bytes, both 1.0 receives fail with the read's fault |
| Framing.ReceiveChunks | src/session.c:590-644 | the 1.1 loop only extends the text it has, and each message consumes events |
| Framing.DecodeV11 | src/session.c:590-644 | the 1.1 receive starts from no text and consumes events for every message it returns |
| Framing.NextHeader | src/session.c:592-603 | the header step consumes events and keeps a NUL-free line |
| Framing.HeaderWithoutValueRejected | src/session.c:611-615 | a chunk header whose `strtoul` value is 0 (`0`, `abc`, `x5`, an empty line) is rejected, never read as an empty chunk |
| Framing.NoValueHeader | src/session.c:611 | a header line without a nonzero digit has `strtoul` value 0 |
| Framing.EndOfChunks | src/session.c:604-607 | the end-of-chunks line ends the message with the text so far and leaves what follows |
| Framing.ChunkStep | src/session.c:596-634 | a header announcing n bytes makes the receiver read exactly the next n bytes and append them |
| Framing.ChunkedRoundTrip | src/session.c:590-644 | any sequence of non-empty NUL-free chunks in chunked framing is reassembled into their concatenation, with the events after it left unread |
| Framing.V11RoundTrip | src/session.c:316-358 | what send writes under 1.1 for a non-empty NUL-free text below 2^31 bytes is received back exactly |
| Framing.V11EmptyTextRejected | src/session.c:611-615 | send frames the empty text as a zero-length chunk `\n#0\n`, and receive rejects that frame as a bad chunk size |
| Framing.V10DropsLastByte | src/session.c:587 | for a NUL-free text in which the marker occurs only at its end, what send writes under 1.0 comes back one byte short, and a message that is the bare marker is reported empty |
| Framing.V10RoundTrip | src/session.c:582-589 | with the corrected cut, what send writes under 1.0 is received back exactly when the marker occurs only at its end |
| Sessions.GetVersion | src/session.c:79-85 | a NULL session has no version (the source's -1); otherwise the session's version |
| Sessions.GetEventfd | src/session.c:87-100 | the SSH socket when it is set, otherwise the input descriptor; -1 exactly when the session is NULL or neither is set |
| Sessions.Classify | src/session.c:678-692 | only an `rpc-reply` is classified as ok, error or data, and then only by the matching first child |
| Sessions.ClassifyReplyTag | src/session.c:678-692 | an `rpc-reply` whose first child is a type's tag is classified as that type |
| Sessions.MessageIdOf | src/session.c:666-676 | a document without a message-id attribute gets id 0 |
| Sessions.Stamp | src/session.c:726-728 | stamping sets a decimal message-id and changes nothing else the session code reads |
| Sessions.StampedIdReadsBack | src/session.c:666-676 | the id send_rpc stamps is read back as the same number on receive |
| Sessions.UntilEof | src/session.c:486-517 | a descriptor read never sees an EOF event, nor anything after the first one |
| Sessions.Input | src/session.c:453-517 | over SSH the reads see every event; over a descriptor they see a prefix, all of it when no EOF comes |
| Sessions.Dispatch | src/session.c:582-649 | an unsupported version is rejected, a session with nothing to read from fails, and otherwise the framing of the session's version decides the text |
| Sessions.Finish | src/session.c:651-692 | a framing failure is passed on, a text that does not parse fails, and a received message is the parsed document with its own message-id and reply type and the framing's rest |
| Sessions.Receive | src/session.c:568-697 | receive rejects an invalid session, an unsupported version and a session with nothing to read from; a received message carries its document's message-id and reply type, and consumes events |
| Sessions.ReceiveIntended | src/session.c:568-697 | the same receive with the corrected 1.0 cut |
| Sessions.ReceiveChunkedMessage | src/session.c:568-697 | over NETCONF 1.1, a message the peer sends is received as the document its text parses to, with that document's id and type, leaving the rest unread |
| Sessions.ReceiveMarkedMessage | src/session.c:582-589 | with the corrected cut, the same holds over NETCONF 1.0 |
| Sessions.ReceiveMarkedMessageAsWritten | src/session.c:582-589 | as written over NETCONF 1.0, for a NUL-free text in which the marker occurs only at its end, a message the peer sends is received as what its text without the last byte parses to, and an empty text is an empty-message error |
| Sessions.DeclareNs | src/session.c:732-733 | the namespace is declared only when the root declares none without a prefix |
| Sessions.VersionNs | src/session.c:732-733 | the 1.0 base namespace is chosen exactly for NETCONF 1.0 and the 1.1 one for every other version, never another namespace |
| Sessions.Send | src/session.c:321-323 | send writes something exactly when there is an SSH channel or an output descriptor |
| Sessions.RpcCopy | src/session.c:720-733 | the copy that is sent carries the current counter as its message-id when the root is `rpc` and its own message-id otherwise; it gets the version's base namespace when the root declares no default namespace and keeps the root's own otherwise |
| Sessions.Succ | src/session.c:727 | the counter increment is addition modulo 2^64 |
| Sessions.Pred | src/session.c:741 | the counter decrement is subtraction modulo 2^64 |
| Sessions.SuccPred | src/session.c:727-741 | the decrement undoes the increment, across the wrap too, and the increment always changes the counter |
| Sessions.SendRpc | src/session.c:711-746 | an invalid session returns 0 and changes nothing; a successful send writes the stamped copy and returns the counter after the increment; a failed send returns 0 and decrements the counter whatever the root |
| Sessions.SentIdIsStampPlusOne | src/session.c:727-744 | the id returned for an `<rpc>` is one more than the message-id it carries on the wire |
| Sessions.FailedNonRpcLowersCounter | src/session.c:741 | a failed send of a non-`rpc` document at counter 0 wraps the counter to 2^64 - 1 |
| Sessions.SendRpcIntended | src/session.c:711-746 | with the correction, a failed send changes nothing, and a successful one returns the id it stamped |
| Sessions.ReplyMatchesRequest | src/session.c:699-746 | with the correction, a reply echoing the request's message-id is received with the id send_rpc returned |
| Sessions.ConsecutiveIds | src/session.c:727 | with the correction, two `<rpc>` sends in a row carry and return consecutive ids |

## Left out

- NULL pointer arguments to the capability functions and to `nc_session_send` are not modelled; a NULL session is modelled where the source checks for it.
- Allocation failures are not modelled: `malloc`, `calloc`, `realloc`, `strdup` and `nc_msg_dup` always succeed.
- Memory defects are undefined behaviour and are not modelled. The model computes what the code would compute if every access stayed inside its allocation. The defects are:
  - The `realloc` in new and add (src/session.c:153, :183) asks for `2 * list_size` bytes rather than pointers. When the tenth item arrives, the 80-byte array of a 64-bit platform shrinks to 20 bytes. The stores at :160 and :189, and every later store at :148 or :178, then write outside the block. So a list of ten or more capabilities already overflows the heap, and the strings iteration returns may be corrupted.
  - Add writes `list[items + 1]`.
  - The static buffer of read_until is freed on error without being reset. The next call writes into the freed buffer: the `memset` at :451 and the reads at :456 and :488.
  - `msg_id_str[16]` is too short for counters with 16 or more digits, so the `sprintf` at :727 overflows it. The wrap at :741 (see "## Findings") produces a 20-digit counter.
- Transport.ReadUntil: once a message reaches 1024 bytes, read_until grows its buffer with `realloc` and does not zero the new part. Its `strcmp` then also compares the uninitialised byte after the last one read, so an end tag that has arrived can be missed. The model always finds the tag.
- Capabilities.IterNext: a NULL slot makes the source call `strdup(NULL)` (src/session.c:243), which is undefined behaviour; the model reports `Hole`.
- Framing.DecodeV10: a message that is the end marker alone makes the source write `text[-1]`, before the buffer. The model reports `EmptyMessage` there instead.
- Writes are not modelled as failing or partial: `nc_session_send` loops until everything is written, and a failing write is not handled there.
- Sessions.Receive: a text that does not parse is reported as `ParseFailed`. The source's undefined behaviour there is not modelled:
  - it frees `text` twice (src/session.c:662 and :664);
  - it reads `retval->doc` after `free(retval)` (:661 and :667), and that document is NULL.
- Sessions.Classify: an `rpc-reply` without a child is classified as unknown. The source dereferences a NULL child there.
- Framing.DecodeV11: when the end-of-chunks line arrives before any chunk, the source passes a NULL text to the parser; the model passes the empty text.
- Framing.V11RoundTrip: covers only non-empty texts. An empty text is sent as a zero-length chunk, which section 4.2 of RFC 6242 forbids, and the receiver itself rejects it (Framing.V11EmptyTextRejected).
- Framing.V11RoundTrip: covers only texts shorter than 2^31 bytes. The `(int)` cast turns the length into the length modulo 2^32, read as a signed int:
  - from 2^31 to 2^32 - 1 bytes the `%d` header is negative, and `strtoul` wraps it;
  - from 2^32 bytes on, the header can announce the wrong length. A text of 2^32 + 5 bytes gets the header `5`, and the receiver takes 5 bytes as the whole chunk.
- Logging (`ERROR`, `WARN`, `DBG`) and the 100-microsecond sleeps are not modelled.
- SSH session setup is not modelled; the SSH channel is a flag.
- The descriptor and SSH system calls are not modelled: each one is an event of the input stream.
- libxml2 is not modelled: the parser and serializer are parameters, and a document is reduced to what the session code reads.
- The numeric values of NETCONFV10 and NETCONFV11 and the namespace URIs are defined in a header that is not part of this model. Versions and namespaces are therefore datatypes, and `nc_session_get_version` returns the version or None in place of -1.
- These operations of src/session.c are not part of this model: `nc_session_get_id`, `nc_session_get_cpblts`, `nc_cpblts_free`, `nc_session_close` and `nc_session_recv_reply`. They only copy, free or forward.
- Threading is not modelled (the source has no locking).

## Findings

| source | as written | input that shows it | evidently intended | confidence | as-written member | corrected member |
|---|---|---|---|---|---|---|
| src/session.c:147 | the loop's step `item = list[i++]` reads `list[0]` a second time, so `list[0]` is stored twice and there are n + 1 items | `nc_cpblts_new({"a", NULL})` iterates "a", "a" | each string stored once | not executed; high | Capabilities.NewDuplicatesFirst | Capabilities.NewIntendedIterates |
| src/session.c:218 | remove lowers `list_size`, so the count is unchanged and the last slot is left NULL | removing "a" from a list holding only "a" leaves one NULL slot that `nc_cpblts_iter_next` passes to `strdup` | `items--` | not executed; high | Capabilities.RemoveLeavesHole | Capabilities.RemoveIntendedDropsOne |
| src/session.c:587 | the 1.0 text is cut at `len - 1 - strlen(marker)`, dropping the byte before the marker; a bare marker makes the index -1 | a peer sending `<hello/>]]>]]>` is read as `<hello/` | cut at `len - strlen(marker)` | not executed; high | Framing.V10DropsLastByte | Framing.V10RoundTrip |
| src/session.c:741 | a failed send decrements the counter even when no message-id was stamped | a non-`rpc` document sent at counter 0 with no output wraps the counter to 2^64 - 1 | decrement only what was incremented | not executed; medium | Sessions.FailedNonRpcLowersCounter | Sessions.SendRpcIntended |
| src/session.c:744 | send_rpc returns the counter after the increment, one more than the message-id sent | with counter 7 the `<rpc>` carries message-id "7" and 8 is returned, so the reply's id never matches the returned id | return the stamped id | not executed; medium | Sessions.SentIdIsStampPlusOne | Sessions.ReplyMatchesRequest |
