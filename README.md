# Packet-Management in Dafny

A model of the capture pipeline of Packet-Management, a small C program. It
reads captured Ethernet frames into a growable byte buffer, then decodes
them layer by layer (Ethernet II, IPv4, UDP). It counts UDP datagrams per
(source address, destination address) flow in a hash table indexing a
newest-first list of flow records. The model covers:

- the byte buffer (`DynamicBuffer`, a class over an `array<byte>`);
- the three validating decoders (`Ethernet`, `Ipv4`, `Udp`, pure functions
  from byte sequences to optional records, each with an encoder and a
  round-trip proof);
- the intrusive singly linked list (`SinglyLinkedList`, nodes with `next`
  pointers and a ghost sequence of the nodes in list order);
- the chained hash table (`HashTable`, a class whose buckets are an array of
  chains and whose ghost `contents` map is what a search answers);
- the flow counter (`PacketCounter`, with the FNV-1a key hash and key match
  in `FlowHash`);
- the earlier revisions of the flow index and of the packet list
  (`PacketHashTable`, `PacketList`);
- the arithmetic of the terminal menus (`TerminalControl`).

Machine integers are explicit: `byte`, `u16`, `u64` and `i32` are subset
types, and 64-bit wrap-around is written as `% 2^64`. Network byte order
is explicit: `ntohs` is `BigEndian16`, and C bit-fields become division and
remainder by powers of two. A NULL pointer is `None`.

The earlier flow index (`src/packet-hash-table.c`) hashes and matches keys
with the same code as the counter (`src/packet-counter.c:26-58`). Both are
modelled once, in `FlowHash`, and the table below cites both places. Two
source defects found while stating the contracts are listed under Findings.
The decoder and the menu window are modelled as written, next to a corrected
version.

## Model

| member | source | states |
|---|---|---|
| Bytes.ReadU16 | src/ipv4-packet.c:46-49 | a network-order 16-bit word read at an offset encodes back to exactly the two bytes it was read from |
| Bytes.BigEndian16RoundTrip | src/ethernet-frame.c:35 | byte-swapping a host-order word to network order and reading it back gives the word |
| DynamicBuffer.CreateDynamicBuffer | src/dynamic-buffer.c:8-38 | NULL exactly for a zero capacity; otherwise a fresh buffer with size 0 and the requested capacity |
| DynamicBuffer.Buffer.constructor | src/dynamic-buffer.c:24-35 | the new buffer is valid, empty, and has an array of exactly the initial capacity |
| DynamicBuffer.Buffer.ResizeBuffer | src/dynamic-buffer.c:40-60 | a zero capacity is refused with nothing changed; otherwise the capacity becomes the new one and every byte both arrays can hold is kept |
| DynamicBuffer.Buffer.AddData | src/dynamic-buffer.c:62-89 | refuses a NULL source or zero size with nothing changed; otherwise the contents become the old contents followed by the new bytes, the capacity is the doubling result, and no reallocation happens when the bytes already fit |
| DynamicBuffer.Buffer.Append | src/dynamic-buffer.c:85-86 | copying after the used part extends the contents by exactly the source bytes, in the same array |
| DynamicBuffer.Memcpy | src/dynamic-buffer.c:85 | the destination range equals the source prefix and every byte outside it is unchanged |
| DynamicBuffer.GrownTo | src/dynamic-buffer.c:72-78 | the doubling loop stops at GrownCapacity(capacity, needed) |
| DynamicBuffer.GrownCapacity | src/dynamic-buffer.c:75-78 | the grown capacity holds the needed bytes, never shrinks, and when it grew it is less than twice what was needed |
| DynamicBuffer.GrownCapacityIsLeastDoubling | src/dynamic-buffer.c:72-83 | the grown capacity is capacity * 2^k for the least k that reaches the needed size |
| DynamicBuffer.GrownIsDoubled | src/dynamic-buffer.c:75-78 | the loop result is the capacity doubled k times, and every earlier doubling was still too small |
| Ethernet.HeaderLayout | include/ethernet-packet.h:18-25 | destination, source and EtherType tile the 14 packed header bytes at offsets 0, 6 and 12 |
| Ethernet.EncodeFrame | include/ethernet-packet.h:18-32 | the wire image is the 14 header bytes followed by the payload |
| Ethernet.FrameFromDynamicBuffer | src/ethernet-frame.c:9-60 | accepts exactly the non-NULL buffers of at least 14 bytes, whatever the EtherType; MACs are bytes 0-5 and 6-11 verbatim, EtherType is bytes 12-13 big-endian, the payload is bytes 14 onward |
| Ethernet.BufferToEthernetFrame | src/ethernet-packet.c:8-60 | the older decoder rejects a NULL buffer and a buffer shorter than the header |
| Ethernet.RevisionsAgree | src/ethernet-packet.c:8-60 | the older and the newer Ethernet decoders give the same result for every buffer |
| Ethernet.DecodeEncode | src/ethernet-frame.c:34-48 | every frame decodes back from its wire image |
| Ethernet.EncodeDecode | src/ethernet-frame.c:34-48 | every accepted buffer is exactly the wire image of the frame decoded from it |
| Ipv4.NibbleSplit | include/ipv4-packet.h:38-40 | byte 0 is version (high nibble) times 16 plus IHL (low nibble) |
| Ipv4.FlagsOffsetSplit | include/ipv4-packet.h:19-33 | the host-order word at offset 6 is 3 flag bits above a 13-bit fragment offset, and nothing is lost |
| Ipv4.FlagMasks | include/ipv4-packet.h:11-12 | More-Fragments (mask 0x01) is the lowest flag bit and Don't-Fragment (mask 0x02) the next |
| Ipv4.ParseHeader | src/ipv4-packet.c:44-49 | byte 0 gives version and IHL, byte 1 the type of service, 8 the TTL and 9 the protocol; total length, identification, flags/offset and checksum are bytes 2-3, 4-5, 6-7 and 10-11 big-endian; the addresses are bytes 12-15 and 16-19 |
| Ipv4.ParseEncodeHeader | src/ipv4-packet.c:44-49 | parsing the wire image of any header gives that header back |
| Ipv4.EncodeParseHeader | src/ipv4-packet.c:44-49 | the wire image of a parsed 20-byte header is the original 20 bytes |
| Ipv4.HeaderFields | include/ipv4-packet.h:35-57 | the fixed header is the concatenation of its field slices at their packed offsets |
| Ipv4.ParseHeaderPrefix | src/ipv4-packet.c:44 | the header is read from the first 20 payload bytes alone |
| Ipv4.DatagramFromEthernetFrame | src/ipv4-packet.c:10-100 | accepts exactly: non-NULL, EtherType 0x0800, at least 20 bytes, 20 <= 4*IHL <= payload length, the total-length rule (equal, or a 46-byte padded payload with total length <= 46), and total length >= header length; options are bytes [20, 4*IHL), data is bytes [4*IHL, total length) |
| Ipv4.DecodedDatagramIsPayloadPrefix | src/ipv4-packet.c:74-97 | an accepted datagram re-encodes to the first total-length bytes of the frame payload |
| Ipv4.DecodeEncodeDatagram | src/ipv4-packet.c:10-100 | a datagram whose header describes its options and data consistently decodes back from its wire image |
| Ipv4.EncodeDatagram | src/ipv4-packet.c:94-97 | the wire image is 20 header bytes, then the options, then the data |
| Ipv4.AsWrittenDataLen | src/ipv4-packet.c:74-84 | the data length as the code computes it, in size_t, is defined only where the code's checks pass |
| Ipv4.PaddingUnderflow | src/ipv4-packet.c:74-94 | a 46-byte padded payload with IHL 6 and total length 20 passes every check in the code and its data length wraps to 2^64 - 4; the corrected decoder rejects it |
| Ipv4.AsWrittenAgreesWhenAccepted | src/ipv4-packet.c:74-84 | wherever the corrected decoder accepts, the code's data length agrees with it and does not wrap |
| Ipv4.TotalLengthExamples | src/ipv4-packet.c:76-84 | a total length of 100 on a 60-byte payload is rejected; a total length of 28 on a padded 46-byte payload is accepted with 8 data bytes |
| Udp.ParseUdpHeader | src/udp-packet.c:42-47 | ports, length and checksum are payload bytes 0-1, 2-3, 4-5, 6-7 big-endian |
| Udp.EncodeUdpHeader | src/udp-packet.c:42-47 | the wire image of a UDP header is 8 bytes |
| Udp.DatagramToUdpPacket | src/udp-packet.c:8-76 | accepts exactly: non-NULL, protocol 0x11, at least 8 payload bytes, and a UDP length equal to the IP payload length, or greater than it for a fragment (More-Fragments set or non-zero offset); the data is IP payload bytes 8 onward, sized from the IP length |
| Udp.UnfragmentedLengthMustMatch | src/udp-packet.c:49-61 | for an unfragmented datagram, the packet is accepted exactly when the UDP length equals the IP payload length |
| Udp.EncodeDecodeUdp | src/udp-packet.c:63-74 | an accepted packet re-encodes to exactly the IP payload it came from |
| Udp.DecodeEncodeUdp | src/udp-packet.c:42-74 | a packet whose length field matches its size decodes back from its wire image |
| SinglyLinkedList.InsertAtHead | src/singly-linked-list.c:46-57 | a NULL node changes nothing; otherwise the node becomes the head and the old list follows it unchanged |
| SinglyLinkedList.DeleteNode | src/singly-linked-list.c:7-43 | NULL node or empty list: nothing happens, not even the release; a node not in the list leaves the list and the node's own next unchanged but is still released; a listed node is unlinked, the others keep their order and its next becomes NULL |
| SinglyLinkedList.UnlinkHead | src/singly-linked-list.c:16-20 | removing the head leaves the list of the remaining nodes, started by the old head's successor, and clears the old head's next |
| SinglyLinkedList.FindPredecessor | src/singly-linked-list.c:23-28 | the walk stops at the node just before the target, or at NULL exactly when the list does not hold it |
| SinglyLinkedList.UnlinkAfter | src/singly-linked-list.c:30-34 | pointing the predecessor past a node leaves the list of all other nodes in order, under the same head |
| SinglyLinkedList.ListTail | src/singly-linked-list.c:18 | the successor of the head starts the list of the remaining nodes, which excludes the head |
| SinglyLinkedList.WithoutAt | src/singly-linked-list.c:21-35 | removing the node at position k from a repeat-free list keeps all others in their relative order |
| SinglyLinkedList.WithoutMembers | src/singly-linked-list.c:21-35 | removing a node drops exactly that node |
| SinglyLinkedList.WithoutAbsent | src/singly-linked-list.c:25-30 | removing a node that is not there changes nothing |
| SinglyLinkedList.Search | src/singly-linked-list.c:60-81 | NULL without a match callback; otherwise the first node in list order that the callback accepts, or NULL if none does |
| SinglyLinkedList.FirstMatch | src/singly-linked-list.c:70-78 | the position found is accepted by the callback and no earlier position is |
| SinglyLinkedList.FirstMatchIs | src/singly-linked-list.c:70-78 | the first accepted position is the only one with a match there and none before |
| HashTable.Create | src/hash-table.c:8-32 | NULL exactly for a zero capacity or a missing hash or match callback; otherwise an empty valid table with that capacity, hash and release callback |
| HashTable.Table.constructor | src/hash-table.c:18-29 | every bucket is empty, the size is 0, the map is empty and the capacity is as given |
| HashTable.CreateNode | src/hash-table.c:34-55 | a node exists exactly when both key and data are given, and it holds them |
| HashTable.Table.Index | src/hash-table.c:68 | the bucket index of a key is below the capacity |
| HashTable.Table.Search | src/hash-table.c:57-78 | NULL for a NULL key; otherwise exactly the data the table maps the key to, which is an entry of the key's bucket |
| HashTable.Table.Insert | src/hash-table.c:80-115 | refuses a NULL key or data with nothing changed; otherwise the map gains key to data. An existing key keeps its stored key and gets the new data in place with size unchanged; a new key gets a node at the head of its bucket and size + 1. Capacity and every other bucket are unchanged |
| HashTable.Table.Delete | src/hash-table.c:117-141 | a NULL or absent key returns false with nothing changed; a present key leaves the map, its node is unlinked and released, size - 1, other buckets unchanged |
| HashTable.Table.DeleteTable | src/hash-table.c:143-172 | every node of every bucket is released bucket by bucket, chain order kept, and the size reaches 0 |
| HashTable.KeyIndex | src/hash-table.c:70 | the chain walk stops at an entry with the key, or at the end |
| HashTable.KeyIndexFirst | src/hash-table.c:70 | no entry before the stopping position has the key |
| HashTable.Find | src/hash-table.c:70-77 | a found datum belongs to an entry of the chain with the key |
| HashTable.FindSome | src/hash-table.c:70-77 | a chain search finds something exactly when some entry has the key |
| HashTable.FindEntry | src/hash-table.c:70-74 | in a chain without repeated keys, every entry is the one found for its key |
| HashTable.FindPrepend | src/hash-table.c:103-110 | a node pushed at the head of a chain is found for its key and changes no other key's answer |
| HashTable.FindOverwrite | src/hash-table.c:96-101 | overwriting the found entry's data changes the answer for that key only |
| HashTable.FindRemove | src/hash-table.c:130-138 | unlinking the found entry makes the key absent and changes no other key's answer |
| HashTable.UpsertFacts | src/hash-table.c:92-110 | the chain after an insert answers the new data for the key and the old answer for every other key, keeps keys unique, and holds only keys of that bucket |
| HashTable.FlattenSplit | src/hash-table.c:156-165 | all entries are those of the buckets before one bucket, that bucket, and those after it |
| HashTable.FlattenUpdate | src/hash-table.c:110 | replacing one bucket changes the entry count by the change in that bucket's length, which keeps size equal to the node count |
| HashTable.FlattenEmpty | src/hash-table.c:18 | a table of empty buckets holds no entries |
| HashTable.ReplaceBucket | src/hash-table.c:109 | replacing a bucket by a repeat-free chain of keys that hash to it keeps every entry in its own bucket |
| HashTable.RemoveAt | src/hash-table.c:137 | unlinking one entry keeps a chain repeat-free and keeps the others in order |
| HashTable.DrainStep | src/hash-table.c:156-165 | with the earlier buckets drained, the next node released is the head of the current bucket |
| FlowHash.MakeKey | src/packet-counter.c:93-94 | the key is the 4 source address bytes followed by the 4 destination address bytes |
| FlowHash.MakeKeyInjective | src/packet-counter.c:78-98 | two keys are equal exactly when both addresses are |
| FlowHash.DirectionMatters | src/packet-counter.c:78-98 | a flow and its reverse have different keys |
| FlowHash.XorByte | src/packet-counter.c:37 | XOR with a byte changes only the low 8 bits of the 64-bit hash |
| FlowHash.Fnv1aOfA | src/packet-counter.c:10-11 | with this offset basis and prime, FNV-1a of the byte string "a" is the published 0xaf63dc4c8601ec8c |
| FlowHash.HashTableHashFunc | src/packet-counter.c:26-48 | the two loops compute HashIndex: FNV-1a over the 8 key bytes, the rejection loop, then the reduction, giving an index below the table size |
| FlowHash.HashIndex | src/packet-hash-table.c:14-36 | the earlier revision's identical hash gives an index below the table size |
| FlowHash.Threshold | src/packet-counter.c:40 | the rejection bound is within one table size of UINT64_MAX |
| FlowHash.ThresholdIsMultiple | src/packet-counter.c:40-45 | the rejection bound is a whole number of blocks of the table size, so accepted hashes reduce without modulo bias |
| FlowHash.Settle | src/packet-counter.c:40-43 | a settled hash is below the bound, and a hash already below it is kept |
| FlowHash.RemixOnce | src/packet-counter.c:40-43 | for table sizes up to 2^20, one re-mix of a rejected hash lands below the bound |
| FlowHash.SettlesWithinOne | src/packet-hash-table.c:29-32 | the rejection loop ends after at most one re-mix |
| FlowHash.Memcmp | src/packet-counter.c:57 | memcmp over n bytes is zero exactly when the first n bytes agree |
| FlowHash.MemcmpFirstDifference | src/packet-counter.c:57 | a non-zero memcmp is the difference at the first differing position |
| FlowHash.MatchFunc | src/packet-counter.c:50-58 | no match for a NULL node key or search key; otherwise a match exactly when the 8 key bytes are equal (the same callback as src/packet-hash-table.c:38-46) |
| PacketCounter.FlowHashInRange | src/packet-counter.c:251-252 | the installed hash callback accepts every key for the table's capacity and names a bucket |
| PacketCounter.KeyFromDatagram | src/packet-counter.c:78-98 | no key without a datagram; otherwise the source address bytes then the destination address bytes |
| PacketCounter.Counter.constructor | src/packet-counter.c:240-257 | the counter has an empty list and an empty capacity-10 table whose release callback is installed; every flow counts 0 |
| PacketCounter.Counter.Increase | src/packet-counter.c:259-299 | a NULL datagram changes nothing; otherwise the total and that flow's count go up by one and no other count changes. A new flow pushes a count-1 record at the list head and grows the table by one; a known flow leaves list and table size as they were. The invariant (one record and one table entry per flow) is kept |
| PacketCounter.Counter.AddFlow | src/packet-counter.c:273-290 | a new record with count 1 goes to the list head and is indexed under its key; total and that flow's count go up by one |
| PacketCounter.Counter.BumpFlow | src/packet-counter.c:291-296 | the indexed record counts one more; the list and the table size are unchanged |
| PacketCounter.Counter.Free | src/packet-counter.c:301-315 | the table is torn down first, releasing one key per flow (never the record); then the records are released, newest first (both steps call deleters that are only declared; see Left out) |
| PacketCounter.Counter.CountOfIndexed | src/packet-counter.c:271-293 | the count of an indexed flow is the ref_counter of the record the table finds for it; an unindexed flow counts 0 |
| PacketCounter.KeysOf | src/packet-counter.c:60-76 | the release callback frees each node's key: one key per released node, in order |
| PacketCounter.PushedTotals | src/packet-counter.c:282-287 | pushing a count-1 record for a new key keeps keys distinct and counts positive, adds one to the total, and adds one to that key's count only |
| PacketCounter.BumpedTotals | src/packet-counter.c:293 | incrementing one record's count keeps counts positive, adds one to the total, and adds one to that key's count only |
| PacketCounter.SumIncrement | src/packet-counter.c:293 | incrementing one count adds one to the sum of counts |
| PacketCounter.MapOfKeys | src/packet-counter.c:286-287 | the table's key set is the set of the records' keys |
| PacketCounter.MapOfAt | src/packet-counter.c:271-273 | an indexed key maps to a record of the list that carries that key |
| PacketCounter.MapOfFinds | src/packet-counter.c:286-287 | with distinct keys, every record is what the table maps its key to |
| PacketCounter.CountForPush | src/packet-counter.c:286 | pushing a record for a new key gives it that record's count and leaves other keys' counts alone |
| PacketCounter.CountForBump | src/packet-counter.c:293 | bumping the record at one position raises only its key's count |
| PacketCounter.CountForAbsent | src/packet-counter.c:273 | a key with no record counts 0 |
| PacketCounter.CountForAt | src/packet-counter.c:293 | with distinct keys, a key's count is the count of its record |
| PacketCounter.DistinctPush | src/packet-counter.c:286 | pushing a record for a key not yet present keeps the keys distinct |
| PacketCounter.CountsAre | src/packet-counter.c:293 | the list of counts is the sequence that agrees with every record's ref_counter |
| PacketHashTable.KeyFromIp | src/packet-hash-table.c:76-96 | no key when either address is NULL; otherwise the source address bytes then the destination address bytes |
| PacketHashTable.KeyFromIpAgreesWithCounter | src/packet-hash-table.c:92-93 | the earlier revision builds the same key as the counter's key_from_ip for every datagram |
| PacketHashTable.KeyFromIpInjective | src/packet-hash-table.c:76-96 | keys of two present address pairs are equal exactly when both addresses are |
| PacketHashTable.GlobalIndex.constructor | src/packet-hash-table.c:12 | the global table starts NULL |
| PacketHashTable.GlobalIndex.InitPacketHashTable | src/packet-hash-table.c:66-74 | an existing table is kept (repeat calls change nothing); otherwise a fresh empty table of capacity 100 with the FNV-1a hash and key-only release is created |
| PacketList.GlobalList.constructor | src/packet-linked-list.c:6 | the global head starts NULL with no nodes |
| PacketList.GlobalList.AddPacket | src/packet-linked-list.c:16-26 | a NULL node changes nothing; otherwise it becomes the global head, the earlier nodes follow in their order, and the length grows by one (the same operation as `add_packet`, src/linked-list-packet.c:7-17) |
| PacketList.AfterAddsReverses | src/packet-linked-list.c:16-26 | a run of adds leaves the nodes in reverse insertion order ahead of the existing list |
| PacketList.AfterAddsSnoc | src/linked-list-packet.c:14 | one more add puts its node in front of the result of the earlier adds |
| PacketList.ReverseSnoc | src/linked-list-packet.c:14 | the newest node comes first in the reversed order |
| PacketList.GlobalList.DeleteList | src/packet-linked-list.c:28-31 | every node of the global list is released, in list order, and the head becomes NULL |
| TerminalControl.Rollover | src/terminal-control.c:823-837 | past max wraps to 0, below 0 wraps to max, otherwise current + increment |
| TerminalControl.RolloverInRange | src/terminal-control.c:400-407 | a selection in [0, option_size - 1] stepped by +1 or -1 stays in range; so does the dialog focus in [0, 2] (lines 624-633) |
| TerminalControl.RolloverInverse | src/terminal-control.c:823-837 | a step down undoes a step up and the other way round |
| TerminalControl.StepsUp | src/terminal-control.c:404-406 | repeated down-arrow steps keep the selection in range |
| TerminalControl.StepsUpFromZero | src/terminal-control.c:404-406 | n steps from the first option reach option n, and option_size steps come back to the first |
| TerminalControl.InitialWindow | src/terminal-control.c:180-183 | the initial window is min(option_size, rows - 4 - header_size); when the size_t subtraction wraps it is the whole option list |
| TerminalControl.MenuWindow | src/terminal-control.c:171-197 | nothing is shown below 10 rows or columns; otherwise the two loops end at the closed form Window(initial window, option_size, selected) |
| TerminalControl.WindowBounds | src/terminal-control.c:185-197 | for a window of at least one row: start >= 0, end <= option_size, end - start is the window height, and selected < end |
| TerminalControl.WindowShowsSelected | src/terminal-control.c:185-190 | a window of more than 3 rows contains the selected option |
| TerminalControl.WindowHidesSelected | src/terminal-control.c:180-190 | 10 rows, 3 header lines, 10 options, selection 0: the window is [1, 4), so the selection is not shown |
| TerminalControl.CorrectedWindowShowsSelected | src/terminal-control.c:185-190 | with the bottom margin capped at the window height minus one, every window of at least one row satisfies all the bounds above and contains the selection |
| TerminalControl.CorrectedWindowAgrees | src/terminal-control.c:185-190 | where the 3-row margin fits, the corrected window is the original one |
| TerminalControl.Strnlen | src/terminal-control.c:816 | the measured length is the string length capped at max_len |
| TerminalControl.Pad | src/terminal-control.c:817 | the left padding is at most the right padding, which is at most one more |
| TerminalControl.PrintCenteredLayout | src/terminal-control.c:811-821 | the line is before, pad spaces, the visible string, the remaining spaces, after; its two fields add up to max_len and the left padding is not larger than the right |

## Left out

- Allocation failure. Every `malloc`/`calloc`/`realloc` is taken to succeed, so the NULL returns and cleanup paths they guard are not modelled. This includes the case where `key_from_ip` fails in `packet_counter_increase` and a record is linked but never indexed (src/packet-counter.c:270-287).
- Releasing memory. `free_buffer`, `ethernet_frame_free`, `ipv4_datagram_free`, `free`, and the nulling of freed pointers are left out. What a release callback receives is returned as a ghost or real sequence (`released`, `releasedKeys`).
- Printing, `stderr` messages, the Wireshark hex reader, `main.c`, and all terminal I/O. In the menu code, the terminal size becomes the parameters `rows` and `cols`.
- NULL objects. A NULL buffer, NULL table or NULL head-pointer argument is not modelled: a method is always called on an existing object. NULL keys, data, nodes, frames and datagrams are modelled as `None`/`null`.
- Match callbacks. The table's match callback is key equality. `FlowHash.MatchFunc` shows this is exactly what `memcmp` over the 8 key bytes decides. The list `search` callback is a predicate whose `true` stands for the code's 0 result.
- Hash chains. They are sequences of entries in an array of buckets, not linked nodes. The linked-node operations they use are modelled once, in `SinglyLinkedList`. Likewise, the counter's list is a sequence of record objects whose counts are updated in place.
- `hash_table_delete_table` leaves each bucket pointer dangling before freeing the table (src/hash-table.c:156-168). The model empties the buckets instead.
- PacketList.GlobalList.DeleteList and PacketCounter.Counter.Free: `linked_list_delete_list` is declared (include/singly-linked-list.h:16) but not defined among the sources. Both members state its role only: every node is released, in list order (`released`, `releasedRecords`).
- PacketCounter.Counter.Free: `hash_table_free` is only declared (include/hash-table.h:29). The model takes it to be `hash_table_delete_table` (src/hash-table.c:143-172), i.e. `HashTable.Table.DeleteTable`.
- The header names `hash_table_get_item`, `hash_table_add_item`, `hash_table_remove_item` and `hash_table_free` (include/hash-table.h:26-29), which src/packet-counter.c calls. They are modelled by `HashTable.Table.Search`, `Insert`, `Delete` and `DeleteTable`, which model `hash_table_search`, `hash_table_insert_node`, `hash_table_delete_node` and `hash_table_delete_table` in src/hash-table.c.
- Checksums are never verified by the code, and the model does not add that.
- Counters are unbounded: the 64-bit `ref_counter` is a `nat`, so its wrap-around after 2^64 datagrams is not modelled.
- FlowHash.HashTableHashFunc: requires a table size of at most 2^20. For those sizes one re-mix always settles the rejection loop (`FlowHash.RemixOnce`). The counter (10) and the earlier index (100) are far below that. The loop's termination for larger sizes is not modelled.
- DynamicBuffer.Buffer.ResizeBuffer: requires `new_capacity >= size`, which the code never checks. `add_data`, the only caller, always meets it.
- DynamicBuffer.Buffer.AddData: the capacity doubling is unbounded, so the `size_t` overflow of `size + data_size` or of the doubling is not modelled.
- TerminalControl.Rollover: requires that `current + increment` fits in 32 bits. Signed overflow is undefined in C, and every caller steps by one within a small range.
- TerminalControl.MenuWindow: requires `0 <= selected < option_size` and `selected + 4` within 32 bits. Both hold for every call in the code, whose selection comes from `rollover`.
- TerminalControl.RolloverInRange: requires `max < INT32_MAX`, so that stepping up from `max` does not overflow.

## Findings

| source | as written | input that shows it | evidently intended | confidence | as-written member | corrected member |
|---|---|---|---|---|---|---|
| src/ipv4-packet.c:74-84 | `data_len = total_length - header_len` is computed in `size_t` before the total-length check. The padding exception lets through a total length below the header length, so `data_len` wraps and line 94 copies about 2^64 bytes | a 46-byte payload starting `0x46 0x00 0x00 0x14`: IHL 6 (24 bytes), total length 20 | reject a total length below the header length, as RFC 791 section 3.1 defines total length to include the header | high, not executed | Ipv4.PaddingUnderflow | Ipv4.DatagramFromEthernetFrame |
| src/terminal-control.c:180-190 | the first window loop keeps 3 rows below the selection even when the window has 3 rows or fewer, so it scrolls the selection out of view | a 10-row terminal, 3 header lines, 10 options, selection 0: window [1, 4) | the selected option is always inside the window | high, not executed | TerminalControl.WindowHidesSelected | TerminalControl.CorrectedWindowShowsSelected |
