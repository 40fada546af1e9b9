# DnsRelay

A model of a single-socket DNS relay, with proofs of what it keeps. A client's query is answered from
the cache, refused because its name is blocked, or relayed upstream under an id of the relay's own;
the upstream's response, or a failure after the last retry, goes back under the client's id.

The project follows the program's components.

| files | component |
|---|---|
| `Names`, `Messages`, `RoundTrip`, `Layout`, `Leftovers`, `Serializer`, `Deserializer` | the wire codec with name compression |
| `TextNames` | dotted names and wire names |
| `HeapOrder`, `LazyHeap` | the timer heap with lazy deletion |
| `HashMap` | the chained hash map |
| `IdPool`, `SessionFactory`, `Relay`, `Replies`, `Server` | relay ids, sessions, and the server's handlers as steps of one machine |
| `CacheKey`, `CacheSpec`, `CacheTheorems`, `Cache`, `TableLoad` | the TTL and LRU cache and the static table |
| `Responses`, `Blocking`, `Answers` | the resolver's own answers |
| `Conversation`, `Dispatch`, `Service` | what is sent over a whole run; the packet handler over relay and cache together; the program from its start |

Code that works on buffers, objects and loops in the program does so here: the serializers write an
array in place, the heap swaps array slots, the cache relinks nodes. Each of these methods is proved
against a function or a transition of values (`PrintPacket` and `ParsePacket`, the slots of the heap,
the contents of the map, the recency sequence of `CacheSpec`, the state machine of `Relay`), and the
theorems are about those: inverse to each other, kept by every step, true after every history.
Bytes and 16- and 32-bit fields are integers within their ranges.

## Results worth knowing

The following hold of the code as it is, and differ from its comments or from what one would expect.

- `name_serialize` looks for the whole name at every label (line 395 passes `name`), so only repeats of
  whole names become pointers, never common suffixes.
- `find_previous_name` bounds only where a match starts. A match can be completed by what an earlier
  message left in the buffer; then a pointer is written that overwrites the end of its own target.
  `Leftovers.SearchExact` and `Serializer.PackSerialize` say exactly when; where no name has an octet of
  192 or more, the message then never parses to the packet.
- `rrs_serialize` returns the excessive length, not -1, when the records cross the limit; its caller
  compares the length.
- `OPCODE_GET` shifts by 12 where the opcode of section 4.1.1 of RFC 1035 starts at bit 11. The model
  follows the code.
- `dns_cache_put` does not prune, though its comment lists that as a step.
- `memallz` does not look at the value of the first byte, so 1.0.0.0 blocks like 0.0.0.0.
- A table key is cut at 511 bytes. Of the lines that fit the 512-byte line buffer this hits only an AAAA
  line whose domain has 508 bytes and whose address is `::`; its record is filed under the name less its
  last byte.
- `up` stops below a dead parent, so the heap is not a heap in general. That every timer added is the
  latest is what keeps `session_peek` right.
- `do_handle_timeout` overwrites the stored packet's id before `session_close` uses it as the key.
  `Server.DnsServer.DoHandleTimeout` models the close under the relay id captured at line 119;
  `Relay.GiveUpAsWrittenExact` says when the order as written is harmless.

## Model

| member | source | states |
|---|---|---|
| `Names.NameDeserialize` | src/dns/dns_resolver.c:326-365 | On bytes whose pointers each lead strictly below the name that holds them, the decoder ends, returns the C string of the name that section 4.1.4 of RFC 1035 assigns to the bytes, and reports the length of the field when it ends in a pointer, of the string otherwise |
| `Names.DecodedNameExact` | src/dns/dns_resolver.c:326-365 | The returned string is the whole name, and the reported length that of the field, exactly when no label holds a zero byte |
| `Names.AppendKeepsName` | src/dns/dns_resolver.c:326-365 | Bytes appended behind what the name reaches do not change its meaning or where its field stops |
| `Names.PointedLabelMayOverrunField` | src/dns/dns_resolver.c:326-365 | "Behind the field" would not be enough: a pointed-to label may run past the end of the pointing field, and then one appended byte changes the result |
| `Names.CopyDecodes` | src/dns/dns_resolver.c:326-365 | A full copy of a name decodes to that name, wherever it lies |
| `Names.PointerDecodes` | src/dns/dns_resolver.c:326-365 | A two-byte pointer to an earlier full copy of a name decodes to that name with field length 2 |
| `Serializer.StrEqual` | src/dns/dns_resolver.c:374-382 | The string comparison of the search finds a full copy with its final zero at the position, or none |
| `Serializer.FindPreviousName` | src/dns/dns_resolver.c:374-382 | The search returns the first position of the range where a full copy starts, or reports that there is none; the copy may reach beyond the range |
| `Serializer.NameSerialize` | src/dns/dns_resolver.c:389-408 | Writes exactly one field, and touches nothing else of the buffer: a pointer to the first earlier start of a full copy of the whole name, otherwise the name itself |
| `Leftovers.SearchExact` | src/dns/dns_resolver.c:374-408 | On a buffer with leftovers behind the cursor the field written is the printer's (which only looks at bytes already written) exactly when the search is confined; otherwise its first byte differs |
| `Leftovers.SearchAstray` | src/dns/dns_resolver.c:374-408 | An unconfined search finds a text that begins in the message and ends in the leftovers, and a pointer to it is written where the printer writes the name |
| `Serializer.RecordSerialize` | src/dns/dns_resolver.c:592-621 | Writes the name field, type, class, ttl, length and data of one record, and nothing else |
| `Serializer.RecordsSerialize` | src/dns/dns_resolver.c:631-645 | While within the limit, the record section is the printed one exactly when every search was confined, and astray otherwise; crossing the limit returns the excessive length. All it needs is room for the next record with its name in full, wherever the loop really comes |
| `Serializer.PlainSizeIsRoom` | src/dns/dns_resolver.c:631-645 | Space for all records with their names in full is room enough |
| `Serializer.PrintedSizeIsRoom` | src/dns/dns_resolver.c:631-645 | For a confined packet it is enough that every printed prefix within the limit leaves space for the next record in full |
| `Serializer.QuestionSerialize` | src/dns/dns_resolver.c:442-459 | Writes the name uncompressed with its zero, type and class, and nothing else |
| `Serializer.QuestionsSerialize` | src/dns/dns_resolver.c:468-474 | Appends all questions to what was written and leaves the rest of the buffer |
| `Serializer.PackSerialize` | src/dns/dns_resolver.c:653-677 | -1 exactly when header and questions exceed the limit; otherwise a length within the limit comes with exactly the printed packet if and only if the leftovers confine every search; the buffer then parses back to the packet if confined, and, unless some name has an octet of 192 or more, only if confined |
| `Leftovers.ZeroFreeLeftoversConfine` | src/dns/dns_resolver.c:374-382 | Leftovers without zero bytes confine every search |
| `Leftovers.LeftoversBreakCompression` | src/dns/dns_resolver.c:374-408 | A concrete packet and buffer: a name run together with a leftover zero is taken for an earlier copy, and the message written contains a pointer without meaning |
| `Leftovers.OverlapMisreads` | src/dns/dns_resolver.c:326-408 | A pointer that overwrites the end of the text it points to never decodes to that name, if the name has no octet of 192 or more |
| `Leftovers.AstrayNeverParses` | src/dns/dns_resolver.c:653-711 | A message with such a pointer never parses to the packet serialized |
| `Leftovers.AstrayMayParse` | src/dns/dns_resolver.c:374-408 | With an octet of 192 in the name it can: a packet, a buffer and a pointer equal to the bytes it overwrites |
| `RoundTrip.ParsePrintedPacket` | src/dns/dns_resolver.c:500-711 | Every well-formed packet that prints below the reach of a pointer, in particular within 512 bytes, parses from its printed form to the same header, questions and records in order, whatever lies behind it |
| `RoundTrip.PointersStayGood` | src/dns/dns_resolver.c:389-408 | In the finished message every compressed name field points to a whole, pointer-free copy behind the header and before the field, still intact; and a name stands in full only when there was no earlier copy |
| `RoundTrip.DecodePrintedName` | src/dns/dns_resolver.c:326-408 | The decoder undoes the printer on every name field |
| `Deserializer.QuestionDeserialize` | src/dns/dns_resolver.c:416-434 | Reads one question as the grammar says and reports how far it went |
| `Deserializer.QuestionsDeserialize` | src/dns/dns_resolver.c:483-491 | Reads the announced number of questions in order |
| `Deserializer.RdataDeserialize` | src/dns/dns_resolver.c:500-528 | The data of types 2 and 5 becomes the whole name its bytes mean, pointers followed, with its zero; that of other types is copied byte for byte |
| `Deserializer.RecordDeserialize` | src/dns/dns_resolver.c:536-567 | Reads one record as the grammar says and reports how far it went |
| `Deserializer.RecordsDeserialize` | src/dns/dns_resolver.c:569-577 | Reads the announced number of records in order |
| `Deserializer.PackDeserialize` | src/dns/dns_resolver.c:686-711 | Datagrams shorter than 12 or longer than 512 bytes are refused; any other whose names and records can be read yields the packet of the grammar |
| `Layout.BigEndian` | src/dns/dns_resolver.c:113-123 | Two- and four-byte numbers are written and read with the more significant bytes first |
| `Layout.PointerInNumbers` | src/dns/dns_resolver.c:353-356 | A pointer is 0xC000 plus the offset, as written and as read |
| `Layout.HeaderLayout` | src/dns/dns_resolver.c:686-711 | The six header fields are the numbers at offsets 0, 2, 4, 6, 8 and 10 |
| `Layout.QuestionLayout` | src/dns/dns_resolver.c:416-434 | Which question is read at a position, and where it ends, by offsets |
| `Layout.RecordLayout` | src/dns/dns_resolver.c:500-567 | When a record can be read, which one it is and where it ends, by offsets: data of types 2 and 5 is decoded even where it ends in a pointer, any other but type 15 is copied |
| `Layout.MessageRead` | src/dns/dns_resolver.c:326-711 | A whole response byte by byte, with a CNAME that ends in a pointer and a name that points into that data, and the packet read from it |
| `Layout.MessageWritten` | src/dns/dns_resolver.c:389-677 | The same packet printed, byte by byte, with its two pointers |
| `TextNames.EncodeName` | src/dns/dns_resolver.c:45-76 | Null exactly for the empty text or a part of more than 63 bytes; otherwise strlen + 2 bytes, all written: the length-prefixed parts between the dots and a zero |
| `TextNames.TextExample` | src/dns/dns_resolver.c:40-76 | The text www.foo, byte by byte, and its wire form |
| `TextNames.DecodedSize` | src/dns/dns_resolver.c:83-94 | The size of the text's allocation, unless a pointer mark is met |
| `TextNames.DecodeName` | src/dns/dns_resolver.c:83-110 | Null exactly when a pointer mark is met; otherwise the parts joined by dots with a final zero, inside the allocation |
| `TextNames.DecodeOfEncode` | src/dns/dns_resolver.c:45-110 | Decoding an encoded text gives the text back exactly when it has no leading or trailing dot and no two dots in a row |
| `TextNames.EncodeOfDecode` | src/dns/dns_resolver.c:45-110 | Encoding a decoded non-root wire name gives its bytes back exactly when no label contains a dot |
| `TextNames.EmptyParts` | src/dns/dns_resolver.c:45-76 | A text splits into an empty part exactly if it is empty, starts or ends with a dot or has two in a row |
| `HeapOrder.DownStep` | src/infra/stl.c:291-319 | One round of `down` keeps the order over all live ancestor/descendant pairs except below the sinking element |
| `HeapOrder.DownStops` | src/infra/stl.c:291-319 | Where `down` stops, the order holds for all pairs |
| `HeapOrder.UpStep` | src/infra/stl.c:321-337 | One round of `up` keeps the order except above the rising element |
| `HeapOrder.InsertionExact` | src/infra/stl.c:321-337 | An insertion keeps the order exactly when no later live element on the path to the root has a dead one below it on that path |
| `HeapOrder.LatestMayInsert` | src/infra/stl.c:390-405 | A timestamp no earlier than any live one may always be inserted |
| `HeapOrder.EarlierTimestampBreaksOrder` | src/infra/stl.c:321-337 | Below a live 10 with a dead left child, inserting 5 stops too early and breaks the order |
| `HeapOrder.RootEarliest` | src/infra/stl.c:434-444 | Under the order a live root is the least of the live elements |
| `TimerHeap.Compare` | src/infra/stl.c:271-289 | The comparison puts dead elements before live ones and live ones by timestamp |
| `TimerHeap.LazyHeap.Down` | src/infra/stl.c:291-319 | Restores the order below the root |
| `TimerHeap.LazyHeap.Up` | src/infra/stl.c:321-337 | The new last element rises past later live parents only, everything above it as before, and stops where no such parent is left |
| `TimerHeap.LazyHeap.Grow` | src/infra/stl.c:339-360 | Makes room by doubling and changes no slot |
| `TimerHeap.LazyHeap.Add` | src/infra/stl.c:390-405 | For a key not pending the timer becomes pending, the survivor table stays in bijection with the live slots, and the heap stays ordered if and only if the timestamp may be inserted |
| `TimerHeap.LazyHeap.Remove` | src/infra/stl.c:452-463 | Only a flag and the survivor table change; the key is no longer pending and the order over live elements stands |
| `TimerHeap.LazyHeap.DoDelete` | src/infra/stl.c:407-415 | Ends with a live element at the root or an empty heap, order kept |
| `TimerHeap.LazyHeap.Peek` | src/infra/stl.c:434-444 | A pending session of least timestamp, or null exactly when none is pending; what is pending does not change |
| `TimerHeap.LazyHeap.RenewedUnseen` | src/server/session_factory.c:112-124 | Changing the timestamp of a session that only dead elements still share changes nothing the heap sees |
| `TimerHeap.LazyHeap.LatestFits` | src/server/session_factory.c:112-124 | A reading of the clock no pending timer is later than may be inserted |
| `ChainedHashMap.BucketIndex` | src/infra/stl.c:497-507 | Every 32-bit hash, also a negative one, gives an index within the buckets |
| `ChainedHashMap.BucketIndexExact` | src/infra/stl.c:497-507 | The index is the remainder of the hash's magnitude; INT32_MIN counts as zero |
| `ChainedHashMap.HashMap.FindNode` | src/infra/stl.c:509-525 | The node of the key in its bucket, or none if no node has the key |
| `ChainedHashMap.HashMap.Put` | src/infra/stl.c:631-659 | For any hash function the map gains or changes exactly this key, tells which, and keeps its exact size; the buckets double exactly when the new size exceeds three quarters of them, so that 4 * size <= 3 * buckets always |
| `ChainedHashMap.HashMap.Get` | src/infra/stl.c:661-678 | The value under the key, or a miss exactly when there is none |
| `ChainedHashMap.HashMap.Remove` | src/infra/stl.c:680-709 | The map loses exactly this key, if it had it |
| `ChainedHashMap.HashMap.Resize` | src/infra/stl.c:527-567 | The contents stay and every key is in the bucket it has among the new ones |
| `IdFactory.IdPool.constructor` | src/dns/id_factory.c:8-15 | No id is in use; the free list is 0 to 65535 in order, the last to be handed out first |
| `IdFactory.IdPool.Alloc` | src/dns/id_factory.c:17-26 | Hands out an id not in use and takes it off the free list; fails exactly when all 65536 are in use |
| `IdFactory.IdPool.FreeId` | src/dns/id_factory.c:28-33 | The id is free afterwards; a stray or double free changes nothing |
| `SessionStore.SessionFactory.Open` | src/server/session_factory.c:133-148 | One session more in the table and one pending timer, under the relay id of the stored packet |
| `SessionStore.SessionFactory.Wait` | src/server/session_factory.c:112-124 | The timer is renewed at the present clock without disturbing the others, though the session's timestamp is still shared with a dead element |
| `SessionStore.SessionFactory.Close` | src/server/session_factory.c:73-83 | The session leaves table and timers under the id in its stored packet |
| `SessionStore.SessionFactory.Peek` | src/server/session_factory.c:103-105 | An open session of least timestamp, or null exactly when none is open; table and timers unchanged |
| `Relay.StepKeepsInv` | src/server/server.c:118-226 | Every query, response or timeout step keeps: one set of ids in pool, table, timers and stored packets; one fate per query; replies to the client's own id and address, relays that change only the id; at most 1 + max_retry_time sends; conservation; strict rotation of upstreams |
| `Relay.RelayRunsAreGood` | src/server/server.c:228-270 | All of that after every run from the empty relay, spelt out: one set of ids, at most one reply or drop per query, all queries accounted for, at most 1 + max(0, max_retry_time) sends each, send k to upstream k mod m |
| `Relay.StepKeepsIds` | src/server/server.c:118-226 | Allocated ids, table keys, live timer keys and ids in stored packets stay one set, no two sessions serving one query |
| `Relay.StepKeepsFate` | src/server/server.c:118-226 | Each query is open, replied to once or dropped once, never two of these and never twice |
| `Relay.StepKeepsConservation` | src/server/server.c:118-226 | Queries handled = replies attempted + open sessions + relays dropped on a failed send |
| `Relay.StepKeepsFaith` | src/server/server.c:118-226 | Every reply carries the client's own id to the client's own address, and every packet sent upstream, first or again, is the client's query with only the id changed |
| `Relay.FailureAnswersQuery` | src/server/server.c:121-131 | The reply after the last retry is SERVFAIL to the client's own query, though it is built from the stored relay packet |
| `Replies.StepSpeaks` | src/server/server.c:118-226 | What each step sends, field by field: the local answer as it is, SERVFAIL without records, the client's query with only the id changed, the upstream's response with only the id changed |
| `Replies.RepliesExplained` | src/server/server.c:118-226 | Over every run each reply has the client's id and address; if the query never went upstream it is the resolver's answer or SERVFAIL; if it did, it is, but for the id, a response that arrived under an id the query was sent under, or SERVFAIL to the query after exactly 1 + max(0, max_retry_time) sends |
| `Relay.StepKeepsSends` | src/server/server.c:118-226 | A query is sent upstream at most 1 + max_retry_time times, an open one exactly 1 + retries so far |
| `Relay.StepKeepsRoundRobin` | src/server/server.c:84-97 | The k-th send of the whole run goes to list position k mod m |
| `Relay.RoundRobinIsFair` | src/server/server.c:84-97 | After n sends over m upstreams each has been used floor(n/m) times, or one more if its position is below n mod m |
| `Relay.GiveUpAsWrittenExact` | src/server/server.c:118-137 | Closing after the client's id has overwritten the stored packet's keeps the ids together if and only if the two ids are equal |
| `Relay.GiveUpAsWrittenFails` | src/server/server.c:118-137 | A reachable state in which giving up as written leaves the timer behind |
| `Relay.TimeoutSpendsBudget` | src/server/server.c:151-163 | Every timeout step lowers the sum over open sessions of remaining retries plus one, whatever the clock says |
| `Responses.EmptyResponds` | src/dns/dns_resolver.c:734-749 | The empty response, bit by bit: QR and RA set, code 0, everything else of flags, id and questions as asked, all counts 0 and no records |
| `Responses.FailureResponse` | src/dns/dns_resolver.c:722-762 | A failure response the same with the given code; well-formed if the query is |
| `Responses.InnerErrorIsServfail` | src/dns/dns_resolver.c:895-897 | The internal failure is code 2 to the query asked, without records |
| `Responses.WithIdExact` | src/dns/dns_resolver.c:855-869 | A packet relayed in either direction has the new id, and flags, counts, questions and records of the one received |
| `Responses.OpcodeOneBitHigh` | include/dns/protocol.h:12-43 | The flag macros in numbers; OPCODE_GET reads half the opcode of section 4.1.1 of RFC 1035, so exactly opcodes 0 and 1 count as standard queries |
| `Server.DnsServer.constructor` | src/server/server.c:338-374 | A new server is the empty relay |
| `Server.DnsServer.PacketSend` | src/server/server.c:68-80 | What the log says is sent goes, as that packet, to that client or that upstream's address |
| `Server.DnsServer.PickUpstream` | src/server/server.c:89-97 | The next address of the list, from the first on, over and over |
| `Server.DnsServer.SendToUpstream` | src/server/server.c:141-198 | One send to the upstream picked, logged |
| `Server.DnsServer.RelayQuery` | src/server/server.c:182-208 | One step: failure reply when no id is left; dropped, with the id given back, if the send fails; otherwise relayed with a session opened |
| `Server.DnsServer.HandleResponse` | src/server/server.c:209-225 | If a session waits under the id: one reply to its client, under the client's id and otherwise field by field the packet received, and the session closed; otherwise nothing is sent |
| `Server.DnsServer.HandleDnsPacket` | src/server/server.c:169-226 | Every packet is exactly one step of the machine. Flags of 0x8000 and up: handed on to the waiting client. Below: the local answer to the source; without one, SERVFAIL when every id is taken, else the client's query under an id not taken to the next upstream, with a session opened under that id if the send succeeds and the query dropped if it fails |
| `Server.DnsServer.DoHandleTimeout` | src/server/server.c:118-146 | Gives up exactly when the retries are used up, otherwise sends again and renews the timer; one step of the machine |
| `Server.DnsServer.BatchTimeout` | src/server/server.c:151-163 | Ends whatever the clock does. Every step is a timeout of a session that was due when it was handled, its timestamp plus the timeout not after the clock, and had waited longest; afterwards no open session is due at the last reading; if none was due to begin with, nothing is done |
| `Server.DnsServer.ServerRound` | src/server/server.c:239-262 | One round of the loop is a run of the machine: a step per packet in order, then timeouts, each of them due, after which nothing is |
| `CacheKey.PrintInjective` | src/dns/dns_cache.c:54-68 | Two printed keys are equal exactly when class, type and name are, whatever bytes the names hold |
| `CacheKey.AtoiOfDecimal` | src/dns/dns_cache.c:375 | A printed number is read back, up to whatever non-digit follows |
| `CacheKey.NumberField` | src/dns/dns_cache.c:373-376 | The number before a printed bar and the text behind it are recovered |
| `CacheKey.PrintedKey` | src/dns/dns_cache.c:54-68 | The bytes of the key for class 1 and types 1 and 28 |
| `CacheSpec.ExpiryIsMonotone` | src/dns/dns_cache.c:172-189 | Expired once is expired ever after; with the clock not before creation, expiry is elapsed milliseconds >= 1000 * ttl for some record whose ttl is not 4294967295 |
| `CacheSpec.StepKeeps` | src/dns/dns_cache.c:472-607 | Put, get and prune keep keys distinct and the size within the capacity |
| `Cache.DnsCache.constructor` | src/dns/dns_cache.c:405-452 | An empty chain between two sentinels, empty table |
| `Cache.DnsCache.LruRemove` | src/dns/dns_cache.c:197-205 | The chain stays well linked and loses exactly this entry |
| `Cache.DnsCache.LruInsert` | src/dns/dns_cache.c:219-223 | The chain stays well linked and gains the entry in front |
| `Cache.DnsCache.LruTouch` | src/dns/dns_cache.c:211-224 | The entry is in front, the others in their order |
| `Cache.DnsCache.RemoveEntry` | src/dns/dns_cache.c:231-245 | Chain, table and size lose exactly this entry together |
| `Cache.DnsCache.IsEntryExpired` | src/dns/dns_cache.c:172-189 | Whether some record of finite ttl has outlived it |
| `Cache.DnsCache.Put` | src/dns/dns_cache.c:472-538 | Linked chain, table and size stay in agreement and act as put on the recency sequence: renew in front, or add in front after dropping the coldest of a full cache; nothing is pruned |
| `Cache.DnsCache.Get` | src/dns/dns_cache.c:558-607 | The result is the unexpired value under (class, type, name); a hit moves to the front, an expired entry goes, a miss changes nothing |
| `Cache.DnsCache.Prune` | src/dns/dns_cache.c:253-268 | Walking the chain while removing from it leaves exactly the unexpired entries, in order |
| `CacheTheorems.BiggerCacheNeverHitsLess` | src/dns/dns_cache.c:472-627 | After any history on capacities 1 <= c <= d, the smaller cache is a subsequence of the larger, and every hit in the smaller is the same hit in the larger |
| `CacheTheorems.PruneExact` | src/dns/dns_cache.c:253-268 | Prune keeps a subsequence: exactly the unexpired entries |
| `CacheTheorems.PruneIsTransparent` | src/dns/dns_cache.c:558-627 | A prune at time t changes the answer of no get at time t or later before the next put |
| `CacheTheorems.OrderedByLastUse` | src/dns/dns_cache.c:211-224 | After any history the list is ordered by last put or hit, so the entry at its end is the one used longest ago |
| `CacheTheorems.LastEvicted` | src/dns/dns_cache.c:515-522 | A put takes another key away only from a full cache, and then that of the last entry |
| `CacheTheorems.VictimIsOldest` | src/dns/dns_cache.c:515-522 | The key a put evicts was put or hit before every other key in the cache |
| `CacheTheorems.UsedGoesInFront` | src/dns/dns_cache.c:211-224 | Every put and every hit brings its key to the front |
| `CacheTheorems.EvictionNeedsCapacityUses` | src/dns/dns_cache.c:515-533 | From the operation on that puts or hits a key, at least `capacity` other keys are put or hit before the key is evicted |
| `TableLoad.GroupRecords` | src/dns/dns_cache.c:349-363 | Groups the records under their printed keys, in file order within a group and by first record among groups |
| `TableLoad.ThoseInOrder` | src/dns/dns_cache.c:349-363 | A group is its records at increasing positions of the file, and all of them |
| `TableLoad.KeysByFirstRecord` | src/dns/dns_cache.c:355-360 | The groups come in the order of their first records |
| `TableLoad.GroupsStay` | src/dns/dns_cache.c:366-388 | Within the capacity every group put stays, the latest in front |
| `TableLoad.LoadTable` | src/dns/dns_cache.c:366-388 | Puts one value per group into the cache, under the type and name read back from the printed key |
| `TableLoad.GroupKeyReads` | src/dns/dns_cache.c:350-376 | Type and name are recovered from the key; the name is whole exactly when it fits the 512-byte buffer |
| `TableLoad.GroupsPartition` | src/dns/dns_cache.c:349-363 | The groups together hold as many records as there are, every record in the one group of its key |
| `TableLoad.TableIsGrouped` | src/dns/dns_cache.c:349-388 | With room for all groups, each type and name is answered for ever with exactly its records in file order, and nothing else is answered |
| `TableLoad.TableIsExact` | src/dns/dns_cache.c:349-388 | Every record is answered under its own whole name if and only if all names fit the key buffer |
| `TableLoad.LongNameIsCut` | src/dns/dns_cache.c:293-351 | An AAAA record with a domain of 508 bytes, whose line just fits the line buffer, is answered under its name less the last byte and not under its own |
| `Blocking.MemAllZ` | src/dns/dns_resolver.c:772-775 | As written: accepts exactly the data whose bytes after the first are all zero |
| `Blocking.MemAllZExact` | src/dns/dns_resolver.c:771-775 | It agrees with the all-zero test it is meant to be exactly unless a non-zero first byte is followed by zeros only |
| `Blocking.MemAllZFails` | src/dns/dns_resolver.c:771-775 | The address 1.0.0.0 is accepted as zero |
| `Blocking.ParentsInOrder` | src/dns/dns_resolver.c:783-788 | Walking to parents lists the names looked at in order and then ends |
| `Blocking.AncestorsDropLabels` | src/dns/dns_resolver.c:777-788 | Of a name made of labels these are the name without its first labels, one more each time, ending before the root; and the walk stays inside the name |
| `Blocking.FindBlocking` | src/dns/dns_resolver.c:803-811 | Whether one of the first records is an A or AAAA record that `memallz` accepts |
| `Blocking.QueryPreValidate` | src/dns/dns_resolver.c:790-816 | NXDOMAIN exactly when the cache, as it was at the start, blocks the name or a parent, though the look-ups reorder it and a prune may come before each |
| `Blocking.QueryPostValidate` | src/dns/dns_resolver.c:836-846 | NXDOMAIN exactly when one of the answer records blocks |
| `Blocking.AnswersPass` | src/dns/dns_resolver.c:836-846 | What was found after the names passed never holds a blocking record, so the check afterwards rejects nothing, even at a later time |
| `Blocking.ReadsAreTransparent` | src/dns/dns_cache.c:558-627 | However gets and prunes interleave, a look-up later finds what it would have found without them |
| `Blocking.PackTryResponseLocal` | src/dns/dns_resolver.c:899-964 | The response, or the decision to go upstream, depends only on query, cache and times, not on prunes in between nor on the check afterwards; and the accesses to the cache are exactly those listed |
| `Answers.LocalAnswerExact` | src/dns/dns_resolver.c:899-964 | By the bits of the flags, the question count and the entries of the cache: a query goes upstream if and only if it is a standard query for one name, bit 8 of the flags is set, nothing blocks it and no unexpired entry answers it; otherwise the code is 4 for opcodes 1 and 2 and for several questions, 3 when blocked, and 0 with the entry's records, or with none, in all other cases |
| `Answers.BlockingDecision` | src/dns/dns_resolver.c:790-964 | A one-question standard query is answered with code 3 if and only if some unexpired entry of that class and type, of the name or a non-root parent, holds a record of type 1 or 28 whose bytes past the first are all zero |
| `Answers.ZeroAaaaBlocks` | src/dns/dns_resolver.c:790-846 | Once the AAAA address :: is put under a name, a query for the name or any name below it is answered with code 3 and no records |
| `Answers.StdResponse` | src/dns/dns_resolver.c:883-890 | An answer from the cache, bit by bit: code 0, RA and QR set, the rest of flags, id and questions as asked, the entry's three counts and records; printable if query and value are |
| `Answers.LocalAnswerIsSound` | src/dns/dns_resolver.c:899-964 | Every local answer is a well-formed response to its own query, as long as the cache holds sound values |
| `Answers.RunKeepsSound` | src/dns/dns_cache.c:472-607 | Only sound values put in, only sound values found, over any history |
| `Answers.PackMakeResponseRelay` | src/dns/dns_resolver.c:867-881 | Relays under the client's id and, if the cache is in use, remembers the response under its first question |
| `Answers.LastingIsUnexpired` | src/dns/dns_cache.c:172-189 | An entry is unexpired exactly while every finite ttl times 1000 exceeds its age |
| `Answers.RelayedThenServed` | src/dns/dns_resolver.c:867-964 | A response relayed once is served, with its counts and records, to whoever asks the same question until a ttl runs out or the name is blocked, whatever reads and prunes come between |
| `Answers.RelayedZeroBlocksBelow` | src/dns/dns_resolver.c:790-881 | After a zero address is relayed, a query for its name or any name below it, of that class and type, is answered with code 3 until a ttl runs out |
| `Conversation.StepKeepsProper` | src/server/server.c:118-226 | From well-formed packets every step sends only well-formed ones, and replies to a query never sent upstream with a response to its own question |
| `Conversation.RunKeepsProper` | src/server/server.c:228-270 | The same over every run |
| `Dispatch.HandleQuery` | src/server/server.c:173-208 | Together with the cache: a query goes upstream only if there is no local answer to it, and otherwise gets that answer; whatever server and cache own beyond what they did is new, so the next packet can follow |
| `Dispatch.HandleResponse` | src/server/server.c:209-225 | A response is relayed and remembered only if a session waits for it |
| `Dispatch.HandleDnsPacket` | src/server/server.c:169-226 | One packet is one step of the relay and exactly the cache accesses that step calls for; only of queries are walkable names asked, of remembered responses a question |
| `Dispatch.CacheStaysSound` | src/server/server.c:169-226 | Packet by packet the cache stays fit to answer with, if responses are well-formed |
| `Service.TableIsSound` | src/dns/dns_cache.c:349-388 | What the table puts into the cache is fit to answer with, if its records are plain and no group outgrows the 16-bit count |
| `Service.TableIsServed` | src/dns/dns_cache.c:349-388 | A class-IN query for a name and type of the table that nothing blocks is answered with exactly their records |
| `Service.TableBlocks` | src/dns/dns_cache.c:349-388 | A zero A or AAAA record of the table has its name, and every name below it, answered with code 3 |
| `Service.RunTimeouts` | src/server/server.c:151-163 | Beside the cache: only sessions due time out, none is left due, and the cache is untouched |
| `Service.Start` | src/dns/dns_cache.c:405-460 | The program starts as the empty relay beside a cache holding exactly the table |
| `Service.Serve` | src/server/server.c:228-270 | Over any sequence of well-formed packets, timeout rounds and prunes, relay and cache stay valid and apart, the cache fit to answer with, the whole a run of the relay machine, and everything sent proper: in particular every reply to a query answered without the upstream is a well-formed response to its own question |
| `Service.Life` | src/server/server.c:228-270 | All of that from the start of the program on; and every reply sent is explained as above |

## Left out

- Sockets, `select` and address conversion: whether a send fails is a parameter, received packets are parameters, addresses are numbers that are only compared.
- The logger, the exception message stack and `packet_to_log_string`.
- Configuration and start-up: timeout, retry limit, upstream list, cache use and capacity are parameters.
- Reading the table file, trimming lines and `inet_pton`: `TableLoad` starts from parsed records.
- Allocation failure, `free` and null guards on arguments: copies are values or fresh objects.
- The lock and the pruning thread as such: a cache call is one atomic step, and prunes are put between the calls of a query by a schedule the theorems quantify over.
- The clock: one reading per cache call, per walk to the parents and per table load; a query's answer may be read later than its names were checked. In the server the clock never goes back.
- MX record data, whose branch copies over the pointer itself: well-formed packets have no MX records.
- Malformed datagrams and pointer loops: parsing is stated for bytes that can be read within the buffer, with every pointer leading strictly below its name.
- `Names.NameDeserialize`: length bytes of 64 to 191, reserved by section 4.1.4 of RFC 1035, count as malformed; the C loop steps over 64 to 127 as labels and runs backwards on 128 to 191 where `char` is signed.
- `Deserializer.RdataDeserialize`, `Deserializer.RecordDeserialize`, `Deserializer.RecordsDeserialize`, `Deserializer.PackDeserialize`: no MX record, and no reserved length byte in a record name, for the two reasons above.
- `Serializer.PackSerialize`: which unconfined packets with an octet of 192 or more in a name still parse is left open; `Leftovers.AstrayMayParse` is one. Room for the next record in full is asked for because the code searches and writes first and checks the limit afterwards.
- `TextNames.DecodeName`: the length bytes lead to a zero or a pointer mark within the memory given, which the code takes for granted.
- `Blocking.QueryPreValidate`, `Blocking.PackTryResponseLocal`: question names whose length bytes lead out of the string, where the code would read beyond its memory, are excluded.
- `lazy_heap_pop`, which the server does not use.
- `TimerHeap.LazyHeap.Add`: a key still pending, whose old element the code would orphan, is excluded; the server never adds one.
- `TimerHeap.LazyHeap.Add`: the comparator is the one the sessions use, and the element type is the session, not an arbitrary pair.
- `ChainedHashMap.HashMap`: buckets are sequences in place of `LinkedList` nodes, the comparator is equality, and the load factor of 0.75 in floating point is the integer inequality 4 * size > 3 * buckets. Cache and session table use Dafny maps, which this map refines.
- `Vector` and `LinkedList` as targets of their own.
- `Server.DnsServer.DoHandleTimeout`: the close as intended, under the captured relay id, as said above.
- `Relay.Config.Valid`: the retry limit is at most 127, because `retry_times` is a `char`.
- `Server.DnsServer.HandleDnsPacket`, `Server.DnsServer.ServerRound`: take the resolver's answers as parameters; `Dispatch.HandleDnsPacket` supplies those of `Blocking.PackTryResponseLocal`.
- `Server.DnsServer.PacketSend`, `Server.DnsServer.SendToUpstream`: whether a send fails is a parameter; that `packet_send` refuses a packet over 512 bytes is one of the failures and not tied to the printed size.
- `Dispatch.HandleDnsPacket`: a response with the cache in use has a question, because the code reads the first one without looking.
- `Cache.DnsCache.LruTouch`, `Cache.DnsCache.LruRemove`, `Cache.DnsCache.RemoveEntry`: take the entry's position in the chain as a ghost argument.
