# A model of the packet filter's netlink and packet code

The filter receives queued packets from the kernel over netlink, judges each against a rule
list, and answers with a verdict. This project models the code that every packet and every
verdict passes through and proves what it is relied on for:

- **Attributes.** `Bytes`, `AttrWire`, `Builder`, `BuilderMeaning` and `AttrParser` model the
  attribute builder and parsers of libmnl over a flat byte buffer. A builder is proved to refine a
  stack of open nests, whatever mixture of accepted, refused, ended and cancelled calls a client
  makes, and what it wrote reads back as the tree that was meant.
- **Messages.** `Messages`, `Callback`, `Batch` and `Receive` model the loops over received
  buffers: the dispatch loop of libmnl as a fold, the batch with its carried-over message, and the
  receive path of libnfnetlink with its attribute tables.
- **Queues and verdicts.** `QueueHandles` is the linked list of queue handles, changed in place;
  `VerdictMessage` is the verdict gathered from three io-vectors.
- **Packets.** `InternetChecksum`, `PacketBuffer` and `TcpMangle` model splicing bytes into a
  packet in place and recomputing both checksums.
- **Interfaces.** `LinkedRing` is the circular doubly linked list and `RtnlAttrs` what is read
  from a link message, and `InterfaceTable` the sixteen lists that serve as a hash table.
- **Rules.** `Rules` is matching, judging and the two JSON conversions; `JudgeReload` is the judge
  interleaved with threads that swap the rule set.
- **The filter.** `PacketFilter` puts the receive path, the queue handles, the rules and the verdict
  message together: what comes in as a packet message goes out as its verdict.

Code that works in place is modelled by methods over arrays and classes, each tied by its
contract to a function of the old state, and the properties are proved about those functions.

## Conventions

- The host is little-endian. Multi-byte header fields are read and written byte by byte, so
  truncation to 16 and 32 bits is explicit.
- In `Builder`, `AttrParser` and `VerdictMessage` index 0 of a buffer is the first byte of
  `struct nlmsghdr`; in `PacketBuffer` it is the first byte of the IPv4 header.
- Message lengths are below 2^31, since `mnl_nlmsg_ok` casts them to int. `NLMSG_OK`-style tests
  that read a length before checking that it is there take the word beyond the buffer as a
  parameter (`beyond`), and the results do not depend on it.
- Callbacks are functions over a client state; a null function pointer is `None`. Replies of the
  kernel, the allocator's answers and the clock are parameters.
- The bytes that `__set_verdict` gathers after the payload, up to the alignment, come from the
  caller's memory; the model asks for that memory to be readable, as the code does.
- `inet_addr` and `inet_ntoa` are an inverse pair of functions (`Rules.Libc`); JSON is a datatype.

## What turned out not to hold

- `mnl_attr_put` and `mnl_attr_nest_end` truncate a length to 16 bits: what was written reads back
  exactly when its length fits (`PutReadsBackIff`, `ReadNestIff`; `LongPutLost` and `LongNestLost`
  are instances). For the verdict, a payload of more than 65531 bytes makes the gathered length
  differ from the announced one and the message unreadable (`SetVerdict`, both directions, with an
  instance).
- The batch's reset copy must not overlap. Messages of at most the limit do not guarantee that
  (`FullSizeOverlaps`); a bound on their length does exactly when it is at most half the limit,
  rounded up, or admits bare headers only (`BoundApartIff`).
- Walking a datagram finds its messages exactly when all but the last have aligned lengths
  (`WalkConcat`, `DatagramsWalk`).
- The queue parser refuses every security context that is not four bytes long, although the getter
  for it takes any length (`ContextIff`; `ContextRefused` is an instance).
- A rule does not survive `toJson` and `ParseFromJson`: the mask is written as `timepass` and read
  as `time_pass`, and the sub-type is written only when it equals the ICMP protocol number, where it
  has no name. `RoundTripIff` says exactly which rules survive, `MaskNotCarried` is an instance, and
  `ReloadWidens` says what the loss does to matching.
- A rule for `icmp.ICMP_ECHOREPLY` matches every ICMP packet, because its number is the wildcard
  (`NamedTypeExact`, `EchoReplyMatchesAll`), and a time mask is satisfied by its hour or its weekday, not by both
  (`InForceIff`).
- The comment on `mnl_cb_run2` says that the length of the control array is not looked at when the
  array is null. The code does look at it, and then skips the default callbacks for those types. The
  comment holds for all clients exactly for lengths of at most one (`NullArrayRunIff`), and for
  clients without a data callback exactly for lengths of at most two (`NullArrayNoDataIff`); with
  length four a lone DONE goes unnoticed (`NullArrayMissesDone`).
- `nfnl_addattr_l` checks its bound against the unpadded length and then clears the padding: the
  bytes past the bound are safe exactly when it is a multiple of four (`PaddingInsideIff`), as the
  verdict's forty is.
- `pktb_tailroom` counts from the packet's end, but the bytes that move lie behind `tail`. The two
  agree exactly while nothing has been trimmed (`TailroomIff`, `ShrinkThenGrow`).
- `nfnl_fill_hdr` mixes the upper byte of a message type into the subsystem; what is read back is
  what was put in exactly for types below 256 (`HeaderReads`).

## Model

| member | source | states |
|---|---|---|
| `AttrWire.AttrsInBounds` | env/libmnl/include/libmnl/libmnl.h:146-159 | every attribute a for-each loop visits lies inside the range, with its own bytes as payload, and after the end of the one before it |
| `AttrWire.EncodesAppend` | env/libmnl/src/attr.c:410-420 | appending one encoded attribute to an encoded list gives an encoding of the longer list |
| `AttrWire.ReadEncoded` | env/libmnl/src/attr.c:264-301 | reading inverts every encoding of a forest with types below 2^14 and lengths within 16 bits, whatever the padding bytes are |
| `AttrWire.ReadNestIff` | env/libmnl/src/attr.c:718-721 | a nest with fitting children reads back if and only if its total size is below 65536 |
| `AttrWire.ReadSize` | env/libmnl/src/attr.c:98-120 | a reading never describes more than the aligned number of bytes it was given |
| `Builder.PutHeader` | env/libmnl/src/nlmsg.c:83-92 | the sixteen header bytes become zero except for the length, which becomes sixteen; nothing else changes |
| `Builder.PutExtraHeader` | env/libmnl/src/nlmsg.c:105-113 | the message grows by the aligned size, those bytes are zero, and their offset is returned |
| `Builder.AttrPut` | env/libmnl/src/attr.c:410-420 | header and payload are stored at the aligned tail and the length grows by the aligned 16-bit length |
| `Builder.AttrPutCheck` | env/libmnl/src/attr.c:550-558 | refused exactly when header and aligned payload would pass the bound, and then nothing changes |
| `Builder.NestStart` | env/libmnl/src/attr.c:525-534 | the type with the nested flag is stored at the tail, and the length grows by four |
| `Builder.NestStartCheck` | env/libmnl/src/attr.c:702-708 | refused exactly when the header would pass the bound, and then nothing changes |
| `Builder.NestEnd` | env/libmnl/src/attr.c:718-721 | the nest's length field becomes the low 16 bits of its extent |
| `Builder.NestCancel` | env/libmnl/src/attr.c:731-734 | the message ends again where the nest started, computed in 32 bits |
| `Builder.Call` | env/libmnl/src/attr.c:550-734 | one bounded client call does to the buffer and the client's pointers what the step function says |
| `Builder.BuildMessage` | env/libmnl/src/attr.c:550-734 | any sequence of bounded calls after both headers does what the run of the step function says |
| `Builder.FreshZeros` | env/libmnl/src/nlmsg.c:83-113 | after both headers the message is all zeros behind its length word, and the buffer behind it is untouched |
| `Builder.Apply` | env/libmnl/src/attr.c:550-734 | every bounded call keeps the length a multiple of four, at most the bound, and the open pointers inside the message in order |
| `BuilderMeaning.ApplyRefines` | env/libmnl/src/attr.c:550-734 | one bounded call on the bytes refines the same call on a stack of open nests; only a put that is let through must be within the 16-bit length |
| `BuilderMeaning.RunRefines` | env/libmnl/src/attr.c:550-734 | every run, refused calls included, leaves the bytes an encoding of the stack that the same calls build |
| `BuilderMeaning.BuildReadsBack` | env/libmnl/src/attr.c:264-301 | from both headers onward, any run leaves a length that is a multiple of four and within the bound, and once all nests are ended the message reads as exactly what was finished |
| `BuilderMeaning.ForestSteps` | env/libmnl/src/attr.c:410-734 | with room for them, the calls of a forest (start and end around each nest) add exactly that forest |
| `BuilderMeaning.TreeRoundTrip` | env/libmnl/src/attr.c:264-301 | every forest that fits the format, written with put, start and end, reads back as itself |
| `BuilderMeaning.RunStaysInside` | env/libmnl/src/attr.c:550-734 | no run of bounded calls changes a byte at or past the bound |
| `BuilderMeaning.CancelUndoesNest` | env/libmnl/src/attr.c:702-734 | whatever was built inside a nest, cancelling it restores the length, the pointers and every byte before the nest |
| `BuilderMeaning.PutReadsBackIff` | env/libmnl/src/attr.c:410-420 | an unchecked put reads back if and only if its total length is below 65536 |
| `BuilderMeaning.LongPutLost` | env/libmnl/src/attr.c:410-420 | with 65532 payload bytes the length field is zero, the message does not grow, and the attribute is not read |
| `BuilderMeaning.LongNestLost` | env/libmnl/src/attr.c:702-721 | three bounded calls build a nest of 65536 bytes that does not read back |
| `AttrParser.ParsePayload` | env/libmnl/src/attr.c:323-336 | the loop runs the callback over the attributes of the range in order until it answers 0 or less |
| `AttrParser.Parse` | env/libmnl/src/attr.c:264-274 | the same for the attributes after the extra header, up to the aligned message end |
| `AttrParser.ParseNested` | env/libmnl/src/attr.c:291-301 | the same for the attributes inside a nest |
| `AttrParser.ReadForest` | env/libmnl/src/attr.c:264-301 | a client that parses each flagged attribute again as a nest obtains the recursive reading, on strictly shorter ranges |
| `AttrParser.TreesRead` | env/libmnl/src/attr.c:264-301 | the recursive reading is the loop over attributes applied again inside each nest |
| `AttrParser.ValidateIff` | env/libmnl/src/attr.c:143-195 | validation answers OK if and only if the payload has the form its type asks for |
| `AttrParser.NfqParse` | env/libnetfilter_queue/src/nlmsg.c:182-187 | parsing a queue message is the fold of the table callback from a zeroed table |
| `AttrParser.ValidatedParse` | env/libnetfilter_queue/src/nlmsg.c:123-187 | OK if and only if every attribute has the size that its getter reads, or four bytes for the words without such a getter; each slot then holds the last attribute of its type; on ERROR the table holds what came before the first bad one |
| `AttrParser.CheckFitsGetter` | env/libnetfilter_queue/src/libnetfilter_queue.c:968-1250 | for every type whose getter reads a fixed size, the callback accepts exactly that size |
| `AttrParser.CheckedByNumber` | env/libnetfilter_queue/src/nlmsg.c:123-171 | the callback by type number: which attributes must be four, eight, twelve bytes long, which may be any length, which pass unread |
| `AttrParser.TypedSizes` | env/libmnl/src/attr.c:143-222 | what validation asks of each typed attribute, its size in literal numbers |
| `AttrParser.ContextIff` | env/libnetfilter_queue/src/libnetfilter_queue.c:1259-1272 | in a list whose other attributes are fine, the parse is OK if and only if every security context is four bytes long, although its getter hands out any length |
| `AttrParser.ContextRefused` | env/libnetfilter_queue/src/nlmsg.c:123-187 | a queue message with the context of a user is refused |
| `AttrParser.ParsedSlots` | env/libnetfilter_queue/src/nlmsg.c:123-187 | after OK a held attribute lies inside the aligned message and has exactly the size that its getter reads |
| `Messages.MsgsPartition` | env/libmnl/src/nlmsg.c:157-182 | the walk cuts the buffer into consecutive in-bounds messages and stops after the last one's padding |
| `Messages.ClippedStep` | env/libnfnetlink/src/libnfnetlink.c:1242-1264 | a loop that clips its step at the end of the buffer walks the same messages |
| `Messages.WalkConcat` | env/libmnl/src/nlmsg.c:157-182 | back-to-back messages are walked as exactly those messages if and only if all but the last have aligned lengths, and then nothing is left over |
| `Callback.NlmsgOkIff` | env/libmnl/src/nlmsg.c:157-162 | with lengths below 2^31 the casts are harmless: the test holds exactly when a whole message remains |
| `Callback.CbRun` | env/libmnl/src/callback.c:48-97 | the loop terminates and equals the recursive fold over the messages of the buffer, errno included |
| `Callback.OneMessage` | env/libmnl/src/callback.c:19-97 | in the fields of a message that was laid out: refused for a port, a sequence number or an interrupted dump, in that order, with nothing called; else what the data callback, the control callback or the default for its type makes of it, errno included |
| `Callback.StopsAtFirst` | env/libmnl/src/callback.c:62-97 | a run goes on after some messages if and only if its result so far is positive |
| `Callback.HaltCuts` | env/libmnl/src/callback.c:48-97 | nothing after the message that ends a run is looked at |
| `Callback.DefaultRun` | env/libmnl/src/callback.c:19-97 | with default control callbacks and a data callback that continues: 0 exactly when DONE or a zero-error ack is the first stopping message, -1 with that message's errno for a failure, positive when nothing stops |
| `Callback.NullArrayIff` | env/libmnl/src/callback.c:74-95 | with a null control array its length makes no difference to any message if and only if it is at most one |
| `Callback.NullArrayRunIff` | env/libmnl/src/callback.c:48-97 | over all data callbacks and message lists, runs as the code starts them do not depend on the length said for a null array if and only if it is at most one |
| `Callback.NullArrayNoDataIff` | env/libmnl/src/callback.c:48-97 | for a client without a data callback they do not if and only if it is at most two |
| `Callback.NullArrayMissesDone` | env/libmnl/src/callback.c:48-97 | with a null array of length four, a lone DONE does not make the run answer 0 |
| `Batch.NlmsgBatch.Next` | env/libmnl/src/nlmsg.c:478-489 | the message joins the batch if it fits the limit, else the batch is marked as overflowing and keeps its size |
| `Batch.NlmsgBatch.Reset` | env/libmnl/src/nlmsg.c:500-512 | after an overflow the left-over message is the whole new batch, else the batch is empty |
| `Batch.Round` | env/libmnl/examples/netfilter/nfct-create-batch.c:164-177 | a round adds the message, or sends the batch and starts the next one with the message; nothing past twice the limit changes |
| `Batch.SendAll` | env/libmnl/examples/netfilter/nfct-create-batch.c:164-181 | the driver sends exactly the datagrams of the grouping function and writes nothing past twice the limit |
| `Batch.BatchesConserve` | env/libmnl/src/nlmsg.c:437-512 | the groups concatenate to the message sequence: nothing lost, repeated or reordered |
| `Batch.BatchesPacked` | env/libmnl/src/nlmsg.c:478-489 | every batch is non-empty, within the limit, and was closed only because the next message did not fit |
| `Batch.DatagramsWalk` | env/libmnl/src/nlmsg.c:157-182 | walking a sent datagram yields exactly the messages of its group if and only if all but the last have aligned lengths |
| `Batch.BoundApartIff` | env/libmnl/src/nlmsg.c:500-512 | a bound on message lengths keeps every reset copy of every run from overlapping if and only if twice the bound is at most the limit plus one, or the bound admits bare headers only |
| `Batch.HalvesApart` | env/libmnl/src/nlmsg.c:500-512 | messages of at most half the limit, rounded up, never make a reset copy overlap, from any open batch on |
| `Batch.FullSizeOverlaps` | env/libmnl/src/nlmsg.c:500-512 | for every limit above a header, a bare header followed by a well-formed message of the full limit does |
| `Receive.NfaOkIff` | env/libnfnetlink/include/libnfnetlink/linux_nfnetlink_compat.h:33-44 | NFA_OK accepts exactly the attributes that mnl_attr_ok accepts, whatever lies beyond the buffer |
| `Receive.ParseAttr` | env/libnfnetlink/src/libnfnetlink.c:955-970 | without type 0, slot k holds the last attribute of type k+1, and the number of unparsed bytes is returned |
| `Receive.CheckAttributes` | env/libnfnetlink/src/libnfnetlink.c:1155-1209 | EINVAL exactly for an unknown or short message, else the same last-one-wins table, type 0 skipped |
| `Receive.TableUnique` | env/libnfnetlink/src/libnfnetlink.c:955-970 | the attributes determine the table: both ways of filling it, and filling it attribute by attribute, agree |
| `Receive.MasksAgree` | env/libnfnetlink/include/libnfnetlink/linux_nfnetlink_compat.h:33-44 | when bit 14 of the types is clear, this library and libmnl agree on the last attribute of every type |
| `Receive.ReadersAgree` | env/libnetfilter_queue/src/nlmsg.c:123-187 | on a stream that the queue parser of libmnl accepts, both libraries hold the same attribute for every type |
| `Receive.HandleMsg` | env/libnfnetlink/src/libnfnetlink.c:1211-1240 | a message is refused, ignored, or given to the callback of its subsystem and type with its table |
| `Receive.HandledByType` | env/libnfnetlink/src/libnfnetlink.c:1211-1240 | by the bytes of the type field: unknown subsystems and types and short messages are refused, the rest goes to the callback of that subsystem and type with the table of its attributes |
| `Receive.FailureCuts` | env/libnfnetlink/src/libnfnetlink.c:1242-1264 | no message after one that fails is handled; otherwise the run carries on from the state it reached |
| `Receive.HandlePacket` | env/libnfnetlink/src/libnfnetlink.c:1242-1264 | the messages of the buffer go to the handler in order, each once, until one fails; 0 if and only if all were handled and fewer than sixteen bytes remained, else -1 |
| `QueueHandles.NfqHandle.FindQh` | env/libnetfilter_queue/src/libnetfilter_queue.c:165-174 | null exactly when the id is not live, else the one handle with that id |
| `QueueHandles.NfqHandle.AddQh` | env/libnetfilter_queue/src/libnetfilter_queue.c:159-163 | the handle is in front, and the list stays acyclic with distinct ids |
| `QueueHandles.NfqHandle.DelQh` | env/libnetfilter_queue/src/libnetfilter_queue.c:143-157 | exactly that handle leaves the list; a handle that is not in it changes nothing |
| `QueueHandles.NfqHandle.CreateQueue` | env/libnetfilter_queue/src/libnetfilter_queue.c:527-560 | null exactly when the queue exists, memory is out or the kernel refuses, and then nothing changes; else the queue becomes live |
| `QueueHandles.NfqHandle.DestroyQueue` | env/libnetfilter_queue/src/libnetfilter_queue.c:576-586 | the queue leaves the live ones exactly when the kernel answers zero |
| `QueueHandles.NfqHandle.RcvPkt` | env/libnetfilter_queue/src/libnetfilter_queue.c:199-217 | the callback of the queue named in the message decides, or -ENODEV |
| `QueueHandles.NfqHandle.Perform` | env/libnetfilter_queue/src/libnetfilter_queue.c:527-586 | after any run of creations and destructions the list stands for the created and not destroyed queues |
| `QueueHandles.LiveIff` | env/libnetfilter_queue/src/libnetfilter_queue.c:527-586 | after any run a queue is live if and only if some creation made it (the first effective one after the last effective destruction), and it then has that creation's callback |
| `QueueHandles.LiveAt` | env/libnetfilter_queue/src/libnetfilter_queue.c:143-174 | a list with distinct ids stands for the callback of each of its handles |
| `QueueHandles.LiveWithout` | env/libnetfilter_queue/src/libnetfilter_queue.c:143-157 | unlinking one handle removes exactly its id from the live queues |
| `QueueHandles.PacketReachesQueue` | env/libnetfilter_queue/src/libnetfilter_queue.c:199-217 | after any run, a packet message handled by the receive path is answered by the callback of the creation that made its queue; with none, or without a callback, by -ENODEV and nothing else happens |
| `QueueHandles.NfqHandle.Session` | env/libnetfilter_queue/src/libnetfilter_queue.c:199-217 | the same for the linked list itself: a new handle, any run of calls, and one packet message |
| `VerdictMessage.NextSeq` | env/libnfnetlink/src/libnfnetlink.c:436-466 | the sequence number counts up, wraps at 32 bits and is never zero while the clock is not |
| `VerdictMessage.FillHdr` | env/libnfnetlink/src/libnfnetlink.c:436-466 | the twenty header bytes are written and nothing else; the handle's counter advances only when it tracks |
| `VerdictMessage.HeaderReads` | env/libnfnetlink/src/libnfnetlink.c:436-466 | the receive path reads back the flags, sequence number and resource id that were filled in, and the subsystem and type if and only if the type is below 256 |
| `VerdictMessage.AddAttrL` | env/libnfnetlink/src/libnfnetlink.c:793-815 | refused exactly when the unpadded attribute would pass the bound, and then nothing changes |
| `VerdictMessage.PaddingInsideIff` | env/libnfnetlink/src/libnfnetlink.c:793-815 | additions leave the bytes at and past the bound alone, whatever the buffer and the attribute, if and only if the bound is a multiple of four |
| `VerdictMessage.AddsLeaf` | env/libnfnetlink/src/libnfnetlink.c:793-815 | within the 16-bit length, one attribute with zeroed padding is appended and the bytes before it stay |
| `VerdictMessage.AddedReads` | env/libmnl/src/attr.c:264-274 | libmnl reads the attributes that libnfnetlink added, in order |
| `VerdictMessage.BuildNfaIovec` | env/libnfnetlink/src/libnfnetlink.c:982-996 | the header announces the value's length if and only if that is at most 65531, and then header and value, up to the alignment, are an encoding of the attribute |
| `VerdictMessage.FillVerdict` | env/libnetfilter_queue/src/libnetfilter_queue.c:769-806 | neither addition to the forty-byte buffer fails, and the buffer encodes the verdict and the optional mark |
| `VerdictMessage.SetVerdict` | env/libnetfilter_queue/src/libnetfilter_queue.c:769-822 | the gathered bytes total the aligned nlmsg_len, and they parse, to either end, as exactly the verdict, the optional mark and the payload under a header for that queue, both if and only if the payload is at most 65531 bytes; with 65532 bytes a receiver finds the other attributes and no payload |
| `VerdictMessage.VerdictCarried` | env/libnetfilter_queue/src/libnetfilter_queue.c:850-856 | the 32 bytes of a verdict without mark and payload carry it |
| `VerdictMessage.VerdictFields` | env/libnetfilter_queue/src/libnetfilter_queue.c:769-822 | verdict and id are read in network order, the mark as stored, each exactly when it was given |
| `VerdictMessage.ClippedReads` | env/libmnl/src/attr.c:98-120 | a reader that stops inside the padding of the last attribute reads the same list |
| `InternetChecksum.TwoFoldsNorm` | env/libnetfilter_queue/src/extra/checksum.c:32-35 | two folds leave exactly the representative: congruent modulo 65535 and zero only for zero |
| `InternetChecksum.OnesSumNorm` | env/libnetfilter_queue/src/extra/checksum.c:23-36 | the end-around sum of the words is the representative of their integer sum |
| `InternetChecksum.OddBytePads` | env/libnetfilter_queue/src/extra/checksum.c:29-30 | an odd last byte counts as if a zero byte followed it, section 4.1 of RFC 1071 |
| `InternetChecksum.NoWrap` | env/libnetfilter_queue/src/extra/checksum.c:23-31 | for up to 65535 bytes and a start of up to eight words the 32-bit sum does not wrap |
| `InternetChecksum.NfqChecksum` | env/libnetfilter_queue/src/extra/checksum.c:23-36 | the loop folds the integer sum of the words as 32 bits keep it, and computes the checksum whenever that sum fits |
| `InternetChecksum.ChecksumIsComplement` | env/libnetfilter_queue/src/extra/checksum.c:23-36 | the result is the complement of the one's-complement sum of the words, section 1 of RFC 1071 |
| `InternetChecksum.StoredChecksumVerifies` | env/libnetfilter_queue/src/extra/ipv4.c:83-89 | storing the checksum in its zeroed field makes a recomputation zero |
| `InternetChecksum.ByteOrderIndependence` | env/libnetfilter_queue/src/extra/checksum.c:23-36 | the checksum of the word-wise swapped buffer is the swapped checksum, section 2 (B) of RFC 1071 |
| `PacketBuffer.PktBuff.constructor` | env/libnetfilter_queue/src/extra/pktbuff.c:44-86 | the buffer holds the packet and zeroed extra room, with tail at the packet's end |
| `PacketBuffer.PktBuff.Put` | env/libnetfilter_queue/src/extra/pktbuff.c:145-149 | length and tail grow together |
| `PacketBuffer.PktBuff.Trim` | env/libnetfilter_queue/src/extra/pktbuff.c:156-159 | the length is set, and the tail stays where it was |
| `PacketBuffer.PktBuff.Mangle` | env/libnetfilter_queue/src/extra/pktbuff.c:227-260 | the contents become the splice of the old contents, or, when the growth has no room, nothing changes |
| `PacketBuffer.MangleAll` | env/libnetfilter_queue/src/extra/pktbuff.c:227-260 | any run of mangles that fits, growing or shrinking, equals the same replacements applied in turn to an immutable sequence |
| `PacketBuffer.NonShrinkingFits` | env/libnetfilter_queue/src/extra/pktbuff.c:145-170 | when no edit shrinks the packet, a run fits if and only if each edit lies in the packet it meets and the total growth is at most the tailroom |
| `PacketBuffer.TailroomIff` | env/libnetfilter_queue/src/extra/pktbuff.c:145-170 | every growth within the tailroom has room behind the tail if and only if the tail is at the packet's end |
| `PacketBuffer.ShrinkThenGrow` | env/libnetfilter_queue/src/extra/pktbuff.c:227-260 | in a full buffer, taking out one byte and putting one in stays within the tailroom and has no room behind the tail |
| `TcpMangle.IpSetChecksum` | env/libnetfilter_queue/src/extra/ipv4.c:83-89 | the header checksum field is recomputed over the header with the field zeroed |
| `TcpMangle.TcpChecksum` | env/libnetfilter_queue/src/extra/checksum.c:38-53 | the sum starts with addresses, protocol and length, and runs over the segment |
| `TcpMangle.TcpComputeChecksum` | env/libnetfilter_queue/src/extra/tcp.c:94-100 | the TCP checksum field is recomputed over pseudo header and segment with the field zeroed |
| `TcpMangle.IpMangle` | env/libnetfilter_queue/src/extra/ipv4.c:103-118 | splice, then the length's low 16 bits as total length, then header checksum; a refused mangle changes nothing |
| `TcpMangle.MangleTcp` | env/libnetfilter_queue/src/extra/tcp.c:192-210 | apart from the total length and both checksums the packet is the old one with the match replaced; the total length is the length, and both checksums verify to zero |
| `TcpMangle.PayloadLaid` | env/libnetfilter_queue/src/extra/tcp.c:192-205 | in a packet that was laid out as IPv4 header, TCP header and payload, the match is replaced in the payload |
| `TcpMangle.PseudoSum` | env/libnetfilter_queue/src/extra/checksum.c:38-50 | the starting sum is the sum of the pseudo header of section 3.1 of RFC 793 |
| `TcpMangle.UpdatesVerify` | env/libnetfilter_queue/src/extra/tcp.c:192-210 | the three header updates together make any well-formed TCP packet consistent and touch nothing else |
| `LinkedRing.Insert` | env/libnfnetlink/include/linux_list.h:76-84 | linking between two neighbours gives the ring with the entry inserted there |
| `LinkedRing.ListAdd` | env/libnfnetlink/include/linux_list.h:94-97 | the new entry goes right after the head, and the list stays circular in both directions |
| `LinkedRing.ListAddTail` | env/libnfnetlink/include/linux_list.h:107-110 | the new entry goes right before the head |
| `LinkedRing.ListDel` | env/libnfnetlink/include/linux_list.h:190-195 | the ring closes over the entry, whose own links are poisoned |
| `LinkedRing.Unlink` | env/libnfnetlink/include/linux_list.h:178-182 | two neighbours of an entry close over it |
| `InterfaceTable.ReceiveLast` | env/libnfnetlink/src/rtnl.c:166-193 | after any stream an index has the interface of the last message about it before a DONE or an ERROR, none after a DELLINK, and its old one without a message; a new interface without memory leaves no trace |
| `InterfaceTable.FeedAllLast` | env/libnfnetlink/src/rtnl.c:135-194 | after any list of received buffers every index has what the last message about it that took effect said |
| `InterfaceTable.NlifHandle.constructor` | env/libnfnetlink/src/iftable.c:216-233 | sixteen self-linked heads stand for the empty map |
| `InterfaceTable.NlifHandle.Find` | env/libnfnetlink/src/iftable.c:70-80 | the bucket search finds an entry exactly when the map has the index |
| `InterfaceTable.NlifHandle.Hashed` | env/libnfnetlink/src/iftable.c:69-80 | an entry is in the list that its index names modulo sixteen |
| `RtnlAttrs.ParseRtattr` | env/libnfnetlink/src/rtnl.c:94-107 | slot k holds the last attribute of type k, all sixteen bits compared; the last slot, which is not cleared, keeps what it held when there is none; the answer says whether the attributes end exactly at the message's end |
| `InterfaceTable.NlifHandle.IftableAdd` | env/libnfnetlink/src/iftable.c:52-104 | on the bytes of a message, the lists stay sixteen well-formed rings that stand for the map, updated or refused as the map function says |
| `InterfaceTable.NlifHandle.IftableDel` | env/libnfnetlink/src/iftable.c:114-138 | the same for a deletion, with its three return codes |
| `InterfaceTable.NlifHandle.CallHandler` | env/libnfnetlink/src/rtnl.c:43-55 | a message goes to the handler of its type, if there is one |
| `InterfaceTable.NlifHandle.RtnlReceive` | env/libnfnetlink/src/rtnl.c:135-194 | the bytes of a received buffer change the lists as its messages, cut out and decoded, change the map, until a DONE or an ERROR |
| `InterfaceTable.NlifHandle.Session` | env/libnfnetlink/src/iftable.c:149-172 | a new table, any list of received buffers, then the name of an index: that of the last message about it that took effect, or failure |
| `InterfaceTable.NlifHandle.Announce` | env/libnfnetlink/src/iftable.c:52-104 | after receiving a NEWLINK that was laid out field by field from any index, type, flags, change and zero-terminated name, the flags and the name looked up under its index are those, the type is stored, and no other index has changed |
| `InterfaceTable.NlifHandle.Withdraw` | env/libnfnetlink/src/iftable.c:114-138 | after receiving a DELLINK that was laid out field by field its index is gone, and no other |
| `InterfaceTable.LaidEffect` | env/libnfnetlink/src/rtnl.c:166-193 | what a laid-out message of any type does to the map and to the answer of the loop |
| `InterfaceTable.NlifHandle.Index2Name` | env/libnfnetlink/src/iftable.c:149-172 | the name in the map, a star for index 0, or failure when the index is not there |
| `InterfaceTable.NlifHandle.GetIfFlags` | env/libnfnetlink/src/iftable.c:183-207 | the flags in the map, or failure for index 0 and unknown indices |
| `InterfaceTable.NlifHandle.Clear` | env/libnfnetlink/src/iftable.c:261-279 | closing empties all sixteen lists |
| `InterfaceTable.ListsAdd` | env/libnfnetlink/src/iftable.c:84-104 | a ring with a new entry behind its head stands for the map with the new index |
| `InterfaceTable.ListsDel` | env/libnfnetlink/src/iftable.c:125-136 | a ring without an entry stands for the map without its index |
| `Rules.InForceIff` | src/rule/PacketExtractor.h:62-71 | a time mask is satisfied exactly by the bit of the hour or the bit of the weekday |
| `Rules.TimePassBytes` | src/rule/PacketExtractor.h:62-71 | the bits of a moment byte by byte: one for the hour, eight hours to a byte, and one for the weekday in the last |
| `Rules.RuleCollection.Check` | src/rule/RuleCollection.cpp:26-52 | accept if and only if some white rule matches or no black rule does |
| `Rules.VerdictBySet` | src/rule/RuleCollection.cpp:26-52 | the verdict depends only on which black and white rules there are: not on order, duplicates or monitor rules |
| `Rules.OneBlackRule` | src/rule/RuleCollection.cpp:26-52 | a black rule alone blocks what it matches |
| `Rules.WhiteWins` | src/rule/RuleCollection.cpp:26-52 | a white rule that matches wins over a black one, and monitor rules decide nothing |
| `Rules.ParseProtocol` | src/rule/Rule.cpp:78-91 | the moving pointer finds the name before the first dot past the first character, and the sub-type after it |
| `Rules.PlainName` | src/rule/Rule.cpp:78-91 | a name without a dot is read as itself, with no sub-type |
| `Rules.DottedName` | src/rule/Rule.cpp:78-91 | a name, a dot and a sub-name are read as the two |
| `Rules.LeadingDot` | src/rule/Rule.cpp:78-91 | a dot in front is part of the name |
| `Rules.IcmpNames` | src/rule/Rule.cpp:126-159 | the two ICMP name tables are inverse on the types they know |
| `Rules.IcmpNumbers` | src/rule/Rule.cpp:126-159 | the numbers behind the names, as RFC 792 and RFC 950 assign them |
| `Rules.ProtocolNames` | src/rule/Rule.cpp:161-179 | the two protocol name tables are inverse on ICMP, TCP and UDP and lose every other protocol |
| `Rules.ParsedNamed` | src/rule/Rule.cpp:68-95 | parsing produces named protocols and sub-types only |
| `Rules.DefaultRule` | src/rule/Rule.cpp:68-95 | missing members give a black rule for every time, with wildcard addresses and ports |
| `Rules.NumbersTruncated` | src/rule/Rule.cpp:72-92 | numbers keep the low bits that the fields have room for |
| `Rules.FractionsCut` | src/common/type_def.h:15-22 | numbers with a fraction lose it |
| `Rules.WrittenRuleMatches` | src/rule/Rule.cpp:17-95 | a rule written with or without a protocol, a type and a mask, with addresses as text and ports as numbers, matches exactly the packets of that protocol with those addresses, for TCP and UDP packets with those ports in network order, at the hours and weekdays of the mask; zero and what is not written stand for any |
| `Rules.EmptyRuleMatchesAll` | src/rule/Rule.cpp:17-95 | an empty object is a black rule that matches every packet |
| `Rules.RoundTrip` | src/rule/Rule.cpp:68-122 | a rule that goes out and comes back keeps its addresses, ports and type, and a named protocol; mask and sub-type are reset |
| `Rules.RoundTripIff` | src/rule/Rule.cpp:68-122 | the whole rule comes back if and only if its protocol is named or the wildcard, its mask is every time and it has no sub-type |
| `Rules.ParsedRoundTrip` | src/rule/Rule.cpp:68-122 | any parsed rule keeps addresses, ports, type and protocol through another round |
| `Rules.MaskNotCarried` | src/rule/Rule.cpp:97-122 | a rule for one hour and one ICMP type comes back for every time and type |
| `Rules.ReloadWidens` | src/rule/Rule.cpp:17-54 | a reloaded rule matches all it matched before, and what it matches now it matched before exactly when protocol, mask and sub-type let it through |
| `Rules.NamedTypeMatches` | src/rule/Rule.cpp:17-54 | what a rule written for a named ICMP type matches among ICMP packets: addresses and time right, and the type right or numbered zero |
| `Rules.NamedTypeExact` | src/rule/Rule.cpp:145-159 | while in force, such a rule matches packets of that type only, if and only if the type's number is not zero |
| `Rules.EchoReplyMatchesAll` | src/rule/Rule.cpp:126-159 | a rule for echo replies matches every ICMP packet |
| `Rules.RuleCollection.ParseFromJson` | src/rule/RuleCollection.cpp:54-66 | the rules of the items are appended in order; throws exactly when the value is not an array of objects, after the rules before the wrong item |
| `Rules.RuleCollection.ToJson` | src/rule/RuleCollection.cpp:68-79 | the array of the rules' JSON values, in order |
| `Rules.ListRoundTrip` | src/rule/RuleCollection.cpp:54-79 | a whole list comes back in order and length, each rule reloaded |
| `PacketFilter.JudgePacket` | src/rule/RuleManager.cpp:34-44 | accept if and only if filtering is off or the rules accept the packet |
| `PacketFilter.OnPacket` | src/filter/NetFilterServiceProvider.cpp:91-118 | without a header or a payload nothing is sent; else one verdict message with the id, for the queue, is |
| `PacketFilter.PacketAnswered` | src/filter/NetFilterServiceProvider.cpp:91-118 | a packet message that the receive path hands on, after any run of queue calls that left the queue with the filter's callback, leads to exactly one verdict message: it carries the packet's id and accepts if and only if filtering is off or the rules accept the packet in the payload |
| `PacketFilter.PacketIgnored` | src/filter/NetFilterServiceProvider.cpp:91-118 | a packet message without a header or a payload leads to none |
| `PacketFilter.AllAnswered` | src/filter/NetFilterServiceProvider.cpp:69-73 | a list of packet messages is answered one by one, in order, with nothing in between |
| `PacketFilter.HandleBuffer` | src/filter/NetFilterServiceProvider.cpp:69-73 | handling a received buffer of packet messages sends exactly their verdicts, in order |
| `PacketFilter.PacketLaid` | src/rule/PacketExtractor.cpp:9-51 | from an IPv4 packet that was laid out with any header length, the extractor reads the protocol, the addresses, the ports or the ICMP type that were put in |
| `PacketFilter.FilterLaid` | src/filter/NetFilterServiceProvider.cpp:91-118 | a received buffer with one laid-out packet message, under one black rule, sends exactly one verdict with its id: drop (0) if and only if filtering is on and the rule matches, else accept (1) |
| `PacketFilter.FilterWritten` | src/filter/NetFilterServiceProvider.cpp:91-118 | from the rule as written in JSON to the verdict as sent: drop if and only if filtering is on and protocol, addresses, ports and mask of the rule block the packet that was laid out |
| `PacketFilter.FilterNamedIcmp` | src/filter/NetFilterServiceProvider.cpp:91-118 | the same for a rule that names an ICMP message type |
| `JudgeReload.InvNext` | src/rule/RuleManager.h:87-142 | every step of every thread keeps the invariant: exclusive lock, live current set, built sets apart, and a check that speaks about the current set |
| `JudgeReload.NoFault` | src/rule/RuleManager.h:109-124 | in no interleaving does a step touch a deleted rule set |
| `JudgeReload.HeldStays` | src/rule/RuleManager.cpp:40-44 | while the filter thread holds the mutex no step changes the current set |
| `JudgeReload.VerdictSound` | src/rule/RuleManager.cpp:34-58 | every verdict is accept because filtering was read as off during the call, or, filtering having been read as on, the check result of one complete rule set that was current from the lock to the end of the check |
| `JudgeReload.VerdictOfRun` | src/rule/RuleManager.cpp:34-58 | in terms of the steps alone: the flag had last been set to off and the verdict is accept, or it is the check result of the rules that the last assignment before the lock brought in, those that its thread had parsed last |
| `JudgeReload.SteadyFlag` | src/rule/RuleManager.cpp:25-38 | off throughout a call means accept, on throughout means a check result |
| `JudgeReload.ReloadTakesEffect` | src/rule/RuleManager.h:109-124 | once a thread has assigned, the current set is what that thread parsed last |
| `JudgeReload.StaysUntilDelete` | src/rule/RuleManager.h:109-124 | what was brought in stays current and unchanged until some thread deletes |
| `JudgeReload.TouchesLive` | src/rule/RuleManager.h:109-124 | the set that a step reads or deletes is live when the step is taken |
| `JudgeReload.LoadRuns` | src/rule/RuleManager.h:109-142 | while the mutex is free a load can run to its end, and what was parsed is then current |
| `JudgeReload.JudgeRuns` | src/rule/RuleManager.cpp:34-58 | while the mutex is free a packet can be judged, and the answer is the check of the current rules, or accept when filtering is off |
| `JudgeReload.HolderMoves` | src/rule/RuleManager.h:129-142 | whoever holds the mutex can always take a step |

## Left out

- Sockets, bind, send, recv, signals and thread creation: system calls; buffers and replies are parameters.
- The bodies of picojson, inet_addr, inet_ntoa, localtime and malloc: library code.
- The HTTP proxy, the page, configuration files, logging and the singletons: plumbing.
- The query that reads the rule set without the lock (src/server/server.cpp:59-60): it is not covered by the reload results.
- Rules.Matches: the clock is read once per call, although the code reads it for every rule.
- JudgeReload.FilterStep: the flag `enabled` is read and written in one step, although it is a plain bool in the code.
- PacketBuffer.PktBuff.Mangle: asks that growth has room behind `tail`, which the tailroom does not ensure after a trim; it does not model the growth past the tailroom that `enlarge_pkt` would grant, nor the AF_BRIDGE headers, `pktb_push` and `pktb_pull`.
- TcpMangle.MangleTcp: asks for a TCP packet and a new length of at most 65535, the largest that the total length field holds.
- Callback.CbRun: asks for lengths below 2^31, since the code casts them to int and would accept a negative one.
- VerdictMessage.AddAttrL: asks for a buffer that reaches past its bound up to the next multiple of four, where padding is cleared.
- PacketFilter.OnPacket: asks that an id has four bytes and that the payload holds the headers that are read, which the code does not check; the answer of sending is an input.
- TcpMangle.TcpChecksum: claims RFC conformance for TCP only, since the code always adds the TCP protocol number; UDP mangling and all IPv6 helpers are left out.
- Receive.ParseAttr: asks for streams without type 0, for which the code writes before the table; `CheckAttributes` skips type 0 and has no such condition.
- Batch.NlmsgBatch.Reset: asks that the left-over message is not longer than the batch before it; otherwise the code's memcpy overlaps and its effect is undefined.
- Batch.Round: asks the same of its message, for the same reason.
- Batch.SendAll: asks the same of every left-over message of the run; `Batch.BoundApartIff` says which bounds on message lengths ensure it.
- Receive.HandlePacket: `nfnl_process`, `nfnl_get_msg_next` and the iterator are near copies with weaker length handling and are left out.
- InterfaceTable.NlifHandle.RtnlReceive: the error number that an ERROR message sets is left out, and names are asked to be terminated and to fit, as `strcpy` needs.
- InterfaceTable.NlifHandle.IftableAdd: leaves out the address fields of an entry, which nothing reads.
- InterfaceTable.NlifHandle.constructor: leaves out the list of handlers that `nlif_open` registers with; `CallHandler` goes to the two registered ones directly.
- `list_move`, `list_splice`, the RCU variants and hlists: no modelled code uses them.
- The put helpers of libnetfilter_queue (env/libnetfilter_queue/src/nlmsg.c:33-116): each is one `mnl_attr_put`, which is modelled.
- Text printers, dump examples and proto/queue_fw.c: little to prove.
