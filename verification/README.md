# Proofs about the AMQP client, Jzon and the Google Test algorithms

This project models three parts of the repository in Dafny and proves what they promise.

**The AMQP 0-9-1 client (rabbitmq-c).** `Wire`, `Table`, `Framing` and `Properties` say what octets a
field table, the arguments of each of the 62 methods and the property lists stand for; `Buffer`,
`TableCodec`, `FramingCodec` and `FrameCodec` are the encoders and decoders that move an offset through a
buffer, proved against them. `Frames` and `Decoder` describe the octet stream and the resumable decoder,
`PoolAllocator` the next-fit page allocator and `Arena` the pools of all channels together. `Connection` is
the connection object: pool table, inbound buffer, decoder state, frame queue, and the frames on loan to
the application. `Publisher` sends, `Consumer` is the receiving loop, and `Session` runs a connection over
any sequence of events. From end to end: what a successful publication writes, cut into chunks in any way,
is decoded into frames whose pieces join up to the body. And through any run of arrivals, polls, waits,
tunings and releases, from the start of the connection on, the heartbeats swallowed, the frames handed out,
the queue and what is still unread are together exactly the frames of the stream, in order, each with the
octets it was decoded from. Every queued frame has these octets in memory, and so has every frame handed
out, from then until its channel is released or, on channel 0, a heartbeat is swallowed.

**Jzon.** `JzonText` holds the two escapings and the stripping of white space and comments, `JzonWriter`
the printer, `JzonParser` the tokenizer with its two queues and the stack machine. `JzonComments` says which
comments are stripped without a trace, and `JzonLayout` where line breaks, indentations and spaces stand in
printed text. `JzonRoundTrip` proves
that parsing undoes printing, in every format, `JzonExact` that it does so exactly for the well-formed
trees, and `JzonImage` that these are the trees that can be read from text whose stripped form does not end
in a backslash. `JzonReadable` says exactly which trees can be read from any text.

**Google Test.** `Regex` shows the backtracking matcher equal to a denotational semantics. `TestFilter`,
`Shuffling`, `Permutations`, `Sharding`, `UnitTest` and `Registry` cover name filters, the shuffle, the
shards and the registry with its order of execution. `CData` and `Literals` prove that two printers can be
read back.

Where the code does not do what one might expect of it, the exact condition is proved:

- A connection that has just started loses the eighth octet of its first frame
  (amqp_connection.c:265-286 copies seven of the eight octets); `Decoder.FirstFrameIff` says when this
  matters.
- The size of a frame is computed in 32 bits (amqp_connection.c:273-274) and wraps around for the eight
  largest payload sizes. `Frames.AwaitedIff` says which frames are awaited, `Frames.WrappedSize` what happens
  to the others, `Frames.FrameTripIff` that exactly the awaited ones are read back.
- Waiting for a frame runs into a failing assertion (amqp_socket.c:530, `res` is always 0 there) exactly
  when, behind the leading heartbeats, the octets at hand begin a frame without ending it or form a whole
  frame of an unknown type: `Decoder.TripsIff`, for all octets. The model goes on, as a build without
  assertions does, and reports it as `tripped`.
- Polling queues heartbeats, and the waiting function hands them out like any other queued frame. The
  consumer loop then receives the messages exactly when no heartbeat stands between the frames of one:
  `Session.RunDeliversIff`; `Consumer.HeartbeatInside` is an input on which it stops. Without polling it
  always receives them: `Session.RunDelivers`.
- The size of an allocation wraps around for requests close to the largest size:
  `PoolAllocator.RoundedCoversIff`.
- Short strings longer than 255 octets and numbers wider than their field do not survive encoding:
  `Framing.FieldsTripIffFit`, `Table.TableTripIffFits`. Property flags survive only without bit 16 and
  with bit 0 set as a second flag word requires: `Properties.FlagsSurviveIff`.
- A regular expression that ends in an escaped dollar is taken to be anchored already, so its full match
  accepts strings of which only a prefix is in the language: `Regex.FullMatchIff`.
- Jzon writes names as they are and reads a quote behind a backslash as part of the string, whatever stands
  before the backslash: `JzonExact.RoundTripIff`. A string left open at the end of the text is read all the
  same, and such a tree need not survive: `JzonReadable.ReadableExactly`, with `JzonReadable.BackslashReads`
  as an input.
- A quote in a comment is taken for the beginning of a string, and two slashes in a block comment begin a
  line comment, so that what is behind the comment is lost: `JzonComments.LineIff` and
  `JzonComments.BlockIff` say which comments do no harm, `JzonComments.SwallowedExamples` are inputs.
- Filters see an error text in place of a full test name of 4096 characters or more:
  `TestFilter.FullNameIff`.
- Sending over a connection whose frame size is below 20 octets can write past the end of the buffer:
  `Publisher.Publisher.SendFrame` says for which kinds of frames.
- A printed NUL swallows up to two octal digits behind it: `Literals.PrintedReadsIff`.

Decoding gives back booleans as 0 or 1; the `Canon` functions say so. `Undefined` is the status of inputs
for which the C code leaves its buffers or its types: a method frame with a payload below 4 octets, a
content header below 12, a third word of property flags, a frame to be sent from a buffer that is too small
for any frame of its kind, and a frame size that wrapped around to less than the octets received with the
header. In the last case the number of octets still wanted underflows and
consume_data takes as many as the chunk happens to hold, into eight octets of memory.

## Model

| member | source | states |
|---|---|---|
| Wire.D64OfE64 | native/rabbitmq-c/librabbitmq/amqp_private.h:194-342 | a 64-bit number that was written reads back modulo 2^64, whatever follows |
| Wire.BigEndianOfE64 | native/rabbitmq-c/librabbitmq/amqp_private.h:194-342 | the eight octets written stand for the number modulo 2^64 with the most significant octet first; the same for 8, 16 and 32 bits in `BigEndianOfE8`, `BigEndianOfE16` and `BigEndianOfE32` |
| Wire.D64IsBigEndian | native/rabbitmq-c/librabbitmq/amqp_private.h:194-342 | what is read at an offset is the number these eight octets stand for, the most significant first; likewise `D16IsBigEndian` and `D32IsBigEndian` |
| Table.ValueRoundTrip | native/rabbitmq-c/librabbitmq/amqp_table.c:194-284 | every field value of every kind, arrays and tables at any depth, reads back with what follows untouched |
| Table.TableTripIffFits | native/rabbitmq-c/librabbitmq/amqp_table.c:122-192 | a table survives encoding and decoding exactly when every key and number in it fits |
| Table.FixedValueOctets | native/rabbitmq-c/librabbitmq/amqp_table.c:350-441 | the tag, the width and the big-endian number of every value of fixed size |
| Table.ValueOctets | native/rabbitmq-c/librabbitmq/amqp_table.c:350-441 | the octets of every other value: decimals, strings, arrays and tables behind their tag and their size |
| Table.DecodedValueSpan | native/rabbitmq-c/librabbitmq/amqp_table.c:194-284 | from any octets, a value read has used up as many octets as it is encoded in, and nothing else |
| Table.CanonValue | native/rabbitmq-c/librabbitmq/amqp_table.c:208-210 | what is given back differs from what was encoded only in booleans, which are 0 or 1 |
| TableCodec.EncodeTable | native/rabbitmq-c/librabbitmq/amqp_table.c:313-348 | succeeds exactly when every value in it, at any depth, is of a known kind and the encoding fits below the limit, then writes exactly it and nothing else; otherwise the failure that comes first: bad data if the tag of a value does not fit, an invalid parameter at an unknown kind, too big if anything else does not fit |
| TableCodec.EncodeArray | native/rabbitmq-c/librabbitmq/amqp_table.c:286-311 | the same for an array, with the failure of the first item that does not fit |
| TableCodec.EncodeFieldValue | native/rabbitmq-c/librabbitmq/amqp_table.c:350-441 | the same for a value: its tag, then its payload; a value of an unknown kind is an invalid parameter behind its tag |
| TableCodec.ValueFailing | native/rabbitmq-c/librabbitmq/amqp_table.c:350-441 | which status a value that cannot be stored gives: bad data for its tag, an invalid parameter for its kind, too big for what is behind the tag |
| TableCodec.ItemFailing | native/rabbitmq-c/librabbitmq/amqp_table.c:286-311 | an array fails as its first item that is not known or does not fit, or as too big |
| TableCodec.EntryFailing | native/rabbitmq-c/librabbitmq/amqp_table.c:313-348 | a table fails as the value of its first entry that is not known or does not fit, or as too big if the key does not fit |
| TableCodec.DecodeTable | native/rabbitmq-c/librabbitmq/amqp_table.c:122-192 | succeeds exactly on octets that hold a table, returns it and stops right behind it |
| TableCodec.DecodeArray | native/rabbitmq-c/librabbitmq/amqp_table.c:62-120 | the same for an array |
| TableCodec.DecodeFieldValue | native/rabbitmq-c/librabbitmq/amqp_table.c:194-284 | the same for a value |
| Framing.BitsRoundTrip | native/rabbitmq-c/librabbitmq/amqp_framing.c:1338-1346 | booleans packed into an octet come back as 0 or 1 |
| Framing.FieldsTripIffFit | native/rabbitmq-c/librabbitmq/amqp_framing.c:1168-1733 | any list of method fields survives encoding and decoding, with anything behind it, exactly when each fits its format |
| Framing.MethodTripIffFits | native/rabbitmq-c/librabbitmq/amqp_framing.c:174-992 | the same for the arguments of each of the 62 methods |
| Framing.FieldOctets | native/rabbitmq-c/librabbitmq/amqp_framing.c:1168-1733 | a field on the wire: numbers with the most significant octet first, strings and tables behind their length, the i-th boolean as the bit of weight 2^i |
| Framing.FieldsOctets | native/rabbitmq-c/librabbitmq/amqp_framing.c:1168-1733 | the fields stand one behind the other, in order |
| Framing.BareMethods | native/rabbitmq-c/librabbitmq/amqp_framing.c:174-992 | exactly which method numbers have no arguments, and which a single bit |
| Framing.StringMethods | native/rabbitmq-c/librabbitmq/amqp_framing.c:174-992 | for each list of arguments that begins with a string or a table, exactly which method numbers have it |
| Framing.NumberMethods | native/rabbitmq-c/librabbitmq/amqp_framing.c:174-992 | the same for those that begin with a number other than a ticket |
| Framing.TicketMethods | native/rabbitmq-c/librabbitmq/amqp_framing.c:174-992 | the same for those that begin with a number and a short string |
| Framing.KnownMethods | native/rabbitmq-c/librabbitmq/amqp_framing.c:174-992 | there are no methods but these 62 |
| FramingCodec.PackBits | native/rabbitmq-c/librabbitmq/amqp_framing.c:1338-1346 | collecting bits with or gives the octet of these bits |
| FramingCodec.EncodeMethod | native/rabbitmq-c/librabbitmq/amqp_framing.c:1168-1733 | unknown methods write nothing; others succeed exactly when the arguments fit the buffer and hold no value of an unknown kind, then write exactly them and return their length; otherwise the failure of the first argument that cannot be stored |
| FramingCodec.FieldsFailing | native/rabbitmq-c/librabbitmq/amqp_framing.c:1168-1733 | the first argument that does not fit is bad data unless it is a table |
| FramingCodec.DecodeMethod | native/rabbitmq-c/librabbitmq/amqp_framing.c:174-992 | returns the arguments the octets stand for, or the status of the failure |
| Properties.FlagWordsTrip | native/rabbitmq-c/librabbitmq/amqp_framing.c:1735-1756 | the flag words give back (flags & 0xFFFEFFFE) with bit 0 set exactly when there are two words |
| Properties.FlagsSurviveIff | native/rabbitmq-c/librabbitmq/amqp_framing.c:994-1010 | the flags come back unchanged exactly when bit 16 is clear and bit 0 says whether there are high flags |
| Properties.FlagOctets | native/rabbitmq-c/librabbitmq/amqp_framing.c:1735-1756 | one flag word or two, the lower first, each big-endian, with bit 0 of a word saying whether another follows |
| Properties.DecodedFlags | native/rabbitmq-c/librabbitmq/amqp_framing.c:994-1010 | the flags that any octets stand for, and where they end |
| Properties.BasicFields | native/rabbitmq-c/librabbitmq/amqp_framing.c:1048-1148 | which of the 14 properties of the basic class follow for which flags, in which order and kind |
| Properties.KindsSurvive | native/rabbitmq-c/librabbitmq/amqp_framing.c:994-1166 | the flags that come back select the same property fields |
| Properties.PropsTripIffFit | native/rabbitmq-c/librabbitmq/amqp_framing.c:994-1166 | properties of every class survive exactly when flags and flagged fields fit |
| FramingCodec.EncodeFlags | native/rabbitmq-c/librabbitmq/amqp_framing.c:1735-1756 | the loop writes one or two flag words, or reports bad data when they do not fit |
| FramingCodec.EncodeProperties | native/rabbitmq-c/librabbitmq/amqp_framing.c:1735-1852 | writes flag words and flagged fields exactly when they fit and hold no value of an unknown kind; bad data if the flags do not fit, then unknown class, then the failure of the first field that cannot be stored |
| FramingCodec.DecodeProperties | native/rabbitmq-c/librabbitmq/amqp_framing.c:994-1166 | returns the properties the octets stand for, or the status of the failure |
| Frames.WrappedSize | native/rabbitmq-c/librabbitmq/amqp_connection.c:273-281 | what is reported when the 32-bit size wraps around: no memory for size 0, undefined below the header, bad data for the largest size |
| Frames.AwaitedIff | native/rabbitmq-c/librabbitmq/amqp_connection.c:273-296 | a frame is awaited behind its header exactly when its payload size is below 2^32 - 8 |
| Frames.WrappedExamples | native/rabbitmq-c/librabbitmq/amqp_connection.c:273-281 | one input for each way of not awaiting it |
| Frames.FrameTrip | native/rabbitmq-c/librabbitmq/amqp_connection.c:316-368 | a frame in front of any octets is read as that frame, and the rest is read as the rest |
| Frames.FrameTripIff | native/rabbitmq-c/librabbitmq/amqp_connection.c:273-274 | and it is read back exactly when its size does not wrap around |
| Frames.StreamTrip | native/rabbitmq-c/librabbitmq/amqp_connection.c:216-378 | any sequence of well-formed frames is read back from what it is sent as, without error or rest |
| Frames.ParseConcat | native/rabbitmq-c/librabbitmq/amqp_connection.c:198-214 | reading a ++ b is reading a, then its residue followed by b |
| Frames.ChunksDoNotMatter | native/rabbitmq-c/librabbitmq/amqp_connection.c:198-378 | no cutting into chunks changes the frames, the status or the residue |
| Frames.PiecesConcat | native/rabbitmq-c/librabbitmq/amqp_connection.c:198-214 | the same as the law for reading a ++ b, for the frames together with the octets each was read from |
| Frames.PiecesTrip | native/rabbitmq-c/librabbitmq/amqp_connection.c:300-371 | every frame of a well-formed sequence is read from exactly the octets it was sent as |
| Frames.FrameLayout | native/rabbitmq-c/librabbitmq/amqp_connection.c:432-518 | a frame sent, octet by octet: type, channel, size, method number or class and body size at their places, big-endian, the body as it is, and 0xCE |
| Frames.ReadLayout | native/rabbitmq-c/librabbitmq/amqp_connection.c:313-371 | whatever is decoded has the type its first octet says, and its channel, method number, class and body size are the big-endian numbers at these places |
| Frames.RefusedLayout | native/rabbitmq-c/librabbitmq/amqp_connection.c:306-371 | a last octet other than 0xCE is bad data, an unknown method number is refused, an unknown type is ignored |
| Frames.TargetLayout | native/rabbitmq-c/librabbitmq/amqp_connection.c:273-274 | the size of a frame is the big-endian number at its fourth octet and 8, in 32 bits |
| FrameCodec.DecodeFrame | native/rabbitmq-c/librabbitmq/amqp_connection.c:313-371 | decodes a complete frame by its type, checks the footer, ignores unknown types; `Frames.ReadLayout` says which octets the numbers in it are |
| Decoder.StepParses | native/rabbitmq-c/librabbitmq/amqp_connection.c:216-378 | a call on a non-empty chunk consumes at least one octet and no more than given, reports what stands first in the stream and leaves the rest to be read from where it stopped |
| Decoder.ParseAtConcat | native/rabbitmq-c/librabbitmq/amqp_connection.c:198-378 | from any position, reading a ++ b is reading a, then b from the position reached |
| Decoder.ChunksDoNotMatterAt | native/rabbitmq-c/librabbitmq/amqp_connection.c:198-378 | the same for any list of chunks, from before the first frame, between frames or inside one |
| Decoder.StepReads | native/rabbitmq-c/librabbitmq/amqp_connection.c:216-378 | from any position, what a call reports, with its octets, stands first in the stream, and the rest is read from where it stopped |
| Decoder.ReadAtConcat | native/rabbitmq-c/librabbitmq/amqp_connection.c:198-378 | reading a ++ b gives the frames of a, then those of b from the position reached, each with the same octets |
| Decoder.PiecesAtFrames | native/rabbitmq-c/librabbitmq/amqp_connection.c:216-378 | without their octets these are the frames that are parsed |
| Decoder.FirstFrame | native/rabbitmq-c/librabbitmq/amqp_connection.c:265-286 | the first octets of a fresh connection are read as they are if the eighth is zero and the size did not wrap around to exactly the header |
| Decoder.FirstFrameIff | native/rabbitmq-c/librabbitmq/amqp_connection.c:265-286 | for every well-formed frame with anything behind it, exactly then: body frames lose their first octet, frames without payload their end mark |
| Decoder.TripsIff | native/rabbitmq-c/librabbitmq/amqp_socket.c:512-531 | for all octets at every position: waiting meets the failing assertion exactly when, behind the leading heartbeats, they begin a frame and do not end it, or form a whole frame of an unknown type |
| Decoder.UnknownTypeTrips | native/rabbitmq-c/librabbitmq/amqp_socket.c:512-531 | an input that ends on a frame boundary and meets it |
| PoolAllocator.RoundedCoversIff | native/rabbitmq-c/librabbitmq/amqp_mem.c:128-130 | rounding up to 8 covers the request exactly when it does not wrap around |
| PoolAllocator.AllocKeeps | native/rabbitmq-c/librabbitmq/amqp_mem.c:120-166 | every allocation keeps the pool's invariant (aligned, inside one owned block, pairwise disjoint ranges; fields in bounds) and hands out one more range of the rounded size |
| PoolAllocator.AllocPlace | native/rabbitmq-c/librabbitmq/amqp_mem.c:120-166 | where an allocation is put: in a block of its own if it is larger than a page, else right behind the last one if the page has room, else at the start of the next page |
| PoolAllocator.AllocBacked | native/rabbitmq-c/librabbitmq/amqp_mem.c:120-166 | after it every block the pool hands out of still exists and is large enough |
| PoolAllocator.RecycleKeeps | native/rabbitmq-c/librabbitmq/amqp_mem.c:83-96 | recycling and emptying keep the invariant and give up no block they still own |
| PoolAllocator.NextFitBound | native/rabbitmq-c/librabbitmq/amqp_mem.c:145-165 | with k pages in use, (k - 1) * pagesize is less than twice the rounded sizes handed out |
| PoolAllocator.AnyRun | native/rabbitmq-c/librabbitmq/amqp_mem.c:54-166 | after any sequence of requests, recyclings and emptyings: disjointness, the bound above, and as many pages as were ever in use at once |
| PoolAllocator.Pool.constructor | native/rabbitmq-c/librabbitmq/amqp_mem.c:54-67 | a fresh pool; page size 0 means 4096 |
| PoolAllocator.Pool.Alloc | native/rabbitmq-c/librabbitmq/amqp_mem.c:120-166 | null for 0; otherwise the new range, with the pool and the heap after it stated exactly |
| PoolAllocator.Pool.NextPage | native/rabbitmq-c/librabbitmq/amqp_mem.c:147-161 | the next page, a new zeroed one exactly if all owned pages are in use |
| PoolAllocator.Pool.TakeNext | native/rabbitmq-c/librabbitmq/amqp_mem.c:147-165 | turns to the next page and starts it with this allocation |
| PoolAllocator.Pool.Recycle | native/rabbitmq-c/librabbitmq/amqp_mem.c:83-89 | frees exactly the large blocks, keeps the pages |
| PoolAllocator.Pool.Empty | native/rabbitmq-c/librabbitmq/amqp_mem.c:91-96 | frees exactly the large blocks and the pages |
| Arena.AllocPoolsOk | native/rabbitmq-c/librabbitmq/amqp_mem.c:120-166 | an allocation from one channel's pool keeps all pools sound and disjoint |
| Arena.AllocQueueOk | native/rabbitmq-c/librabbitmq/amqp_mem.c:120-166 | it leaves every queued or lent frame intact: memory of its channel holds exactly the octets it was decoded from |
| Arena.AllocApart | native/rabbitmq-c/librabbitmq/amqp_mem.c:120-166 | what it returns is disjoint from every range handed out on any channel |
| Arena.WriteQueueOk | native/rabbitmq-c/librabbitmq/amqp_connection.c:198-214 | writing into memory disjoint from them leaves all of them intact |
| Arena.RecycleQueueOk | native/rabbitmq-c/librabbitmq/amqp_connection.c:406-430 | recycling the pool of a channel on which there are none leaves all of them intact |
| Connection.ChainsGrow | native/rabbitmq-c/librabbitmq/amqp_mem.c:206-231 | a new entry at the head of its bucket keeps the table in step with the pools |
| Connection.Connection.constructor | native/rabbitmq-c/librabbitmq/amqp_connection.c:65-100 | a fresh connection waits for eight octets and owns no pool |
| Connection.Connection.TuneConnection | native/rabbitmq-c/librabbitmq/amqp_connection.c:129-159 | later pools get the new page size, everything else stays |
| Connection.Connection.GetChannelPool | native/rabbitmq-c/librabbitmq/amqp_mem.c:233-247 | finds the pool of the channel if there is one |
| Connection.Connection.GetOrCreateChannelPool | native/rabbitmq-c/librabbitmq/amqp_mem.c:206-231 | finds it or adds a fresh one, and changes no other pool |
| Connection.Connection.PoolAlloc | native/rabbitmq-c/librabbitmq/amqp_mem.c:120-172 | the new range is disjoint from everything queued or lent, which stays intact |
| Connection.Connection.ConsumeData | native/rabbitmq-c/librabbitmq/amqp_connection.c:198-214 | copies as many octets as are there and still wanted behind those received, and nothing else |
| Connection.Connection.StartBody | native/rabbitmq-c/librabbitmq/amqp_connection.c:265-288 | takes memory of the channel for the 32-bit size of the frame, disjoint from everything queued or lent, and copies the header there; no memory exactly for size 0 |
| Connection.Connection.FinishBody | native/rabbitmq-c/librabbitmq/amqp_connection.c:300-371 | decodes the complete frame, delivers it with its octets and the range that holds them, allocates its records without touching it, returns to idle exactly on success |
| Connection.Connection.ContinueBody | native/rabbitmq-c/librabbitmq/amqp_connection.c:288-371 | what a call does once the frame's memory is known; a frame reported has its octets of the stream in memory |
| Connection.Connection.ReceiveHeader | native/rabbitmq-c/librabbitmq/amqp_connection.c:216-298 | what a call does before that, protocol header and wrapped sizes included |
| Connection.Connection.HandleInput | native/rabbitmq-c/librabbitmq/amqp_connection.c:216-378 | one call does exactly what `Step` says of the stream and keeps the connection valid; the frame it reports, and all queued and lent frames, have exactly their octets in memory |
| Connection.Connection.Enqueue | native/rabbitmq-c/librabbitmq/amqp_socket.c:457-484 | appends the frame, with its record and link in the channel's pool; every queued or lent frame stays intact |
| Connection.Connection.Dequeue | native/rabbitmq-c/librabbitmq/amqp_socket.c:627-634 | takes the head of the queue, with its octets in memory, and keeps them there |
| Connection.Connection.MaybeReleaseBuffersOnChannel | native/rabbitmq-c/librabbitmq/amqp_connection.c:406-430 | recycles the channel's pool exactly between frames and when no frame waits on the channel; all other pools stay as they are, and what is lent on other channels stays intact |
| Connection.Connection.ReleaseBuffers | native/rabbitmq-c/librabbitmq/amqp_connection.c:385-397 | afterwards exactly the channels with queued frames still hold memory; what is lent there stays intact |
| Connection.Connection.ConsumeOneFrame | native/rabbitmq-c/librabbitmq/amqp_socket.c:351-368 | one call on the octets at hand: the frame first in the stream, with exactly its octets, in memory, and the rest of the stream |
| Connection.Connection.TryRecv | native/rabbitmq-c/librabbitmq/amqp_socket.c:445-485 | queues exactly the frames of the octets at hand, each with the octets it was read from, in memory, up to the first failure, in order, behind those queued before |
| Connection.Connection.ReadFrame | native/rabbitmq-c/librabbitmq/amqp_socket.c:495-535 | the heartbeats it swallows, the frame it returns and the rest are the stream, with all octets; gives up channel 0 exactly after heartbeats |
| Connection.Connection.WaitFrame | native/rabbitmq-c/librabbitmq/amqp_socket.c:617-638 | the head of the queue if there is one, else the next frame of the stream that is no heartbeat, always with exactly its octets of the stream in memory |
| Publisher.Publisher.SendFrame | native/rabbitmq-c/librabbitmq/amqp_connection.c:432-518 | for every frame size and every frame, also of unknown method or class number or with values of unknown kinds: the exact status, and exactly the octets of the frame written, or nothing |
| Publisher.RefusedFrames | native/rabbitmq-c/librabbitmq/amqp_connection.c:463-503 | which frames are refused with which status |
| Publisher.Publisher.SendBodies | native/rabbitmq-c/librabbitmq/amqp_api.c:227-249 | the loop writes the body frames one after the other |
| Publisher.Publisher.Publish | native/rabbitmq-c/librabbitmq/amqp_api.c:167-252 | for every frame size: succeeds exactly when the method and header frames fit and the properties hold no value of an unknown kind; then writes method, header and the body in as few frames as can hold it, the body frames but the last of exactly frame_max octets; on failure nothing, or the method frame alone, with the exact status |
| Publisher.BodyFrameSize | native/rabbitmq-c/librabbitmq/amqp_api.c:178-249 | no frame a body is cut into is larger than frame_max on the wire |
| Publisher.BodyIsCut | native/rabbitmq-c/librabbitmq/amqp_api.c:227-249 | a body is cut into ceil(length / (frame_max - 8)) frames: all but the last have exactly frame_max octets on the wire, the last is not empty and at most as large, and the i-th holds the i-th segment of the body |
| Publisher.PublishOctets | native/rabbitmq-c/librabbitmq/amqp_framing.c:1582-1596 | the payload of the publish method, octet by octet |
| Consumer.Run | native/rabbitmq-c/examples/amqp_consumer.c:52-124 | the loop computes what `Consume` says of the frames it is given |
| Consumer.OthersSkipped | native/rabbitmq-c/examples/amqp_consumer.c:86-92 | frames other than those of basic.deliver are passed over in front of a message |
| Consumer.BodyOutcome | native/rabbitmq-c/examples/amqp_consumer.c:102-118 | for any frames: how many belong to the body, and that it ends exactly when its octets add up to the size announced, at a frame that is no body frame or too long, or where the frames end |
| Consumer.PiecesJoin | native/rabbitmq-c/examples/amqp_consumer.c:102-118 | the pieces of a body, however it is cut, join up to it, neither too short nor too long |
| Consumer.PublisherCuts | native/rabbitmq-c/librabbitmq/amqp_api.c:227-249 | the publisher cuts a body into such pieces |
| Consumer.MessagesConsumed | native/rabbitmq-c/examples/amqp_consumer.c:94-120 | over the frames of any messages, their bodies cut in any way, the loop neither aborts nor fails its assertion and receives exactly their bodies |
| Consumer.BodyUndisturbedIff | native/rabbitmq-c/examples/amqp_consumer.c:105-117 | the body is received exactly if no heartbeat stands among its pieces, otherwise the program stops |
| Consumer.ConsumedIff | native/rabbitmq-c/examples/amqp_consumer.c:52-124 | over frames with heartbeats anywhere the loop receives exactly the bodies if and only if none stands between the frames of a message |
| Consumer.HeartbeatInside | native/rabbitmq-c/examples/amqp_consumer.c:105-114 | an input on which it stops |
| Consumer.MessageSendable | native/rabbitmq-c/librabbitmq/amqp_framing.c:174-992 | every frame of a message whose parts fit their formats and frames is well-formed; a delivery method always fits |
| Consumer.EndToEnd | native/rabbitmq-c/examples/amqp_consumer.c:52-124 | a stream of messages, their bodies cut in any way, with heartbeats anywhere that the waiting function swallows, cut into chunks anywhere, is received as exactly the bodies |
| Consumer.PublicationArrives | native/rabbitmq-c/librabbitmq/amqp_api.c:167-252 | what a publication wrote, cut anywhere, is read as the publish method and content that joins up to the body |
| Consumer.PublicationSendable | native/rabbitmq-c/librabbitmq/amqp_api.c:167-252 | the frames of a successful publication with short strings of at most 255 octets are well-formed |
| Consumer.PublishedArrives | native/rabbitmq-c/librabbitmq/amqp_api.c:167-252 | so what a successful publication wrote, cut anywhere, is read as the publish method and content that joins up to the body |
| Session.Handle | native/rabbitmq-c/librabbitmq/amqp_connection.c:380-430 | each event keeps the connection valid, loses, repeats or reorders no frame and none of its octets, and gives up no lent frame but by a release or, on channel 0, after a heartbeat |
| Session.Drive | native/rabbitmq-c/librabbitmq/amqp_socket.c:445-638 | any run of arrivals, polls, waits, tunings and releases from any point of a connection, up to the first failure: heartbeats swallowed, frames handed out, queue and unread octets are exactly the stream, in order, with all octets; every queued frame is intact in memory, and so is every frame handed out, from its turn until its channel is released or, on channel 0, a heartbeat is swallowed |
| Session.LentSinceRelease | native/rabbitmq-c/examples/amqp_consumer.c:80-118 | a program that releases before each message has all frames of the message in memory at its end |
| Session.RunDeliversIff | native/rabbitmq-c/examples/amqp_consumer.c:52-124 | once a run has gone through a stream of messages, the consumer loop over what the application took receives exactly the bodies if and only if no heartbeat taken stands between the frames of a message |
| Session.RunDelivers | native/rabbitmq-c/examples/amqp_consumer.c:52-124 | without polling no heartbeat is taken, and then it always does |
| Session.PublishedTaken | native/rabbitmq-c/librabbitmq/amqp_api.c:167-252 | a run that has gone through everything a successful publication wrote has handed out exactly its frames, with exactly the octets they were sent as, and content that joins up to the body |
| JzonText.UnescapeEscape | native/jzon.cpp:486-533 | unescaping undoes escaping for every string |
| JzonText.EscapeClosed | native/jzon.cpp:1226-1251 | an escaped string ends at its closing quote exactly when the original does not end in a backslash |
| JzonText.EscapeString | native/jzon.cpp:486-507 | the loop computes the escape function |
| JzonText.UnescapeString | native/jzon.cpp:508-533 | the loop computes the unescape function |
| JzonText.EscapesAre | native/jzon.cpp:449-507 | the seven escapes, and that every other character is written as it is |
| JzonText.UnescapesAre | native/jzon.cpp:463-533 | the characters the seven escapes stand for, whatever follows |
| JzonText.RemoveWhitespace | native/jzon.cpp:79-144 | the loop computes what stripping leaves; `JzonComments` says what that is for comments and blanks, `JzonWriter.StripNode` for printed trees |
| JzonComments.LineIff | native/jzon.cpp:118-132 | a line comment vanishes, whatever follows, exactly when scanning it ends outside strings and block comments |
| JzonComments.BlockIff | native/jzon.cpp:104-132 | a block comment vanishes, whatever follows, exactly when scanning its text hides all of it, ends where it began, and leaves no slash to the end mark |
| JzonComments.NestedBlock | native/jzon.cpp:104-117 | so block comments vanish that are nested to any depth, without quotes and double slashes |
| JzonComments.PlainLine | native/jzon.cpp:118-132 | so do line comments without quotes, slashes and stars |
| JzonComments.BlankIff | native/jzon.cpp:131-142 | of single characters exactly the five blanks vanish |
| JzonComments.CommentsVanish | native/jzon.cpp:79-144 | wherever such comments stand, between strings and other text that leaves the scan outside, nothing of them is left and nothing else is lost |
| JzonComments.CommentsUnread | native/jzon.cpp:933-960 | the parser reads a text with such comments as the text without them |
| JzonComments.SwallowedExamples | native/jzon.cpp:97-132 | a quote in a line comment swallows what is behind the line, and two slashes in a block comment what is behind it |
| JzonWriter.Writer.Write | native/jzon.cpp:866-870 | the result is the printed tree, whatever it was before; `JzonLayout.PrintedLayout` says how it is laid out, `JzonWriter.CompactTwo` and `JzonWriter.FormatIndependent` what is in it |
| JzonWriter.Writer.WriteObject | native/jzon.cpp:886-902 | appends exactly the printed object |
| JzonWriter.Writer.WriteArray | native/jzon.cpp:903-918 | appends exactly the printed array |
| JzonWriter.Writer.WriteValue | native/jzon.cpp:919-929 | appends exactly the printed value |
| JzonWriter.StripNode | native/jzon.cpp:79-144 | in any format and context, stripping a printed tree leaves its compact text: every character inside a string survives |
| JzonWriter.FormatIndependent | native/jzon.cpp:79-144 | stripping what was printed in any format gives what is printed without one |
| JzonWriter.CompactTwo | native/jzon.cpp:886-929 | items stand between square brackets and members between braces, separated by commas, names before a colon |
| JzonWriter.NumberChars | native/jzon.cpp:1296-1299 | numbers consist of digits, points and minus signs |
| JzonLayout.PrintedLayout | native/jzon.cpp:43-61 | in every format: line breaks only with `newline`, and behind each exactly `indentSize` indentation characters for every bracket open there, counted over the text, less one that is closed there (an empty container has two breaks, the first directly before the second); where lines end, where spaces stand and where they do not; brackets balance |
| JzonParser.TokensSynced | native/jzon.cpp:962-1046 | for every input the data queue gets exactly one entry for each token that needs one |
| JzonParser.StepSynced | native/jzon.cpp:1048-1224 | every turn of the assembling loop keeps this, and reads the data queue only when it has an entry |
| JzonParser.Parser.constructor | native/jzon.cpp:933-946 | the parser starts from the stripped text |
| JzonParser.Parser.Tokenize | native/jzon.cpp:962-1046 | fills both queues exactly as `Tokens` says, for every input |
| JzonParser.Parser.NextToken | native/jzon.cpp:967-1045 | one turn of the loop: what is queued and what is still to come stay the same together |
| JzonParser.Parser.ReadStringAt | native/jzon.cpp:1226-1251 | reads to the first quote not behind a backslash |
| JzonParser.Parser.InterpretValue | native/jzon.cpp:1253-1294 | null, true and false in any case, and numbers, are understood; anything else is not |
| JzonParser.Parser.AssembleNodes | native/jzon.cpp:1048-1224 | empties both queues as `Assemble` says, and never reads an empty queue |
| JzonParser.Parser.Parse | native/jzon.cpp:947-960 | success, tree and error message are those of the specification |
| JzonParser.ParseMatches | native/jzon.cpp:1079-1130 | text is accepted only if every closing bracket in it closes the innermost one open, of its kind |
| JzonParser.InterpretIff | native/jzon.cpp:1253-1294 | which unquoted text is null, true or false, letter by letter, which is a number, and which is not understood |
| JzonRoundTrip.LexTree | native/jzon.cpp:962-1046 | the tokens of a compact tree are the tokens of its structure, whatever follows |
| JzonRoundTrip.AssembleTree | native/jzon.cpp:1048-1224 | inside any open container the tokens of a tree add exactly that tree |
| JzonRoundTrip.RoundTrip | native/jzon.cpp:866-1298 | parsing what was printed in any format, into a root of the same kind, adds exactly the tree, order and duplicate names kept |
| JzonRoundTrip.RoundTripEmpty | native/jzon.cpp:866-1298 | into an empty root it gives the tree back |
| JzonImage.ReadIsWellFormed | native/jzon.cpp:962-1294 | every tree read, into a well-formed root, from text whose stripped form does not end in a backslash is well formed |
| JzonExact.RoundTripIff | native/jzon.cpp:866-1298 | in every format, a tree survives printing and parsing exactly when it is well formed: names are string bodies, strings do not end in a backslash, numbers, booleans and null are canonical |
| JzonExact.TokensTail | native/jzon.cpp:962-1046 | text that ends in a backslash has an unknown token, or ends with a string behind good data |
| JzonExact.AssemblePrefix | native/jzon.cpp:1048-1224 | the front of the queues is worked off as if it stood alone |
| JzonExact.AssembleTail | native/jzon.cpp:1159-1216 | what such a text is read as: a good tree, or one with that string near the end of the root |
| JzonImage.ReadableIff | native/jzon.cpp:866-1298 | the well-formed trees are exactly those that are read from text whose stripped form does not end in a backslash |
| JzonImage.ReadWriteRead | native/jzon.cpp:866-1298 | whatever was read from such text can be written, in any format, and read again |
| JzonReadable.LexTail | native/jzon.cpp:962-1046 | a string left open at the end is one token, and text buffered in front of it becomes the datum behind it |
| JzonReadable.ShapeReads | native/jzon.cpp:866-1298 | every tree whose last string is left open, at the end of the root or before a last value that is no string, is read from some text |
| JzonReadable.ReadableExactly | native/jzon.cpp:866-1298 | these and the well-formed trees are exactly the trees that any text at all is read as |
| JzonReadable.BackslashReads | native/jzon.cpp:1226-1251 | an open string that is a single backslash is read, and its tree is not well formed |
| Regex.ValidateRegex | native/gtest-1.6.0/src/gtest-port.cc:232-285 | accepts exactly the valid expressions; a null pointer is not one |
| Regex.ValidIff | native/gtest-1.6.0/src/gtest-port.cc:232-285 | valid are exactly the texts the grammar can write, and each has one reading |
| Regex.StarIff | native/gtest-1.6.0/src/gtest-port.cc:295-316 | the language of a starred atom: all characters match |
| Regex.RepeatIff | native/gtest-1.6.0/src/gtest-port.cc:295-316 | how many characters each repetition takes, all of which its atom matches |
| Regex.EscapesByCode | native/gtest-1.6.0/src/gtest-port.cc:185-219 | the characters of the classes and control escapes, by their codes |
| Regex.PunctByCode | native/gtest-1.6.0/src/gtest-port.cc:186-188 | punctuation is what is printable and neither space, letter nor digit |
| Regex.OthersByCode | native/gtest-1.6.0/src/gtest-port.cc:203-222 | every other atom matches itself, and the dot all but the line break |
| Regex.SingleValid | native/gtest-1.6.0/src/gtest-port.cc:232-285 | the valid expressions of one character |
| Regex.EscapeValid | native/gtest-1.6.0/src/gtest-port.cc:196-199 | the valid escapes |
| Regex.HeadStep | native/gtest-1.6.0/src/gtest-port.cc:295-316 | matching an item and then the rest is matching the whole |
| Regex.MatchRepetitionAndRegexAtHead | native/gtest-1.6.0/src/gtest-port.cc:295-316 | the loop finds a match exactly when some number of repetitions allows one |
| Regex.MatchRegexAtHead | native/gtest-1.6.0/src/gtest-port.cc:322-348 | true exactly when some prefix is in the language, all of the string under `$` |
| Regex.MatchRegexAnywhere | native/gtest-1.6.0/src/gtest-port.cc:358-371 | true exactly when some substring is, at the ends to which the anchors tie it; null matches nothing |
| Regex.FullPatternReads | native/gtest-1.6.0/src/gtest-port.cc:406-423 | the anchored copy is valid and reads as the same expression between anchors, but for an escaped dollar at the end |
| Regex.RE.constructor | native/gtest-1.6.0/src/gtest-port.cc:392-424 | builds the copy exactly for valid expressions |
| Regex.RE.FullMatch | native/gtest-1.6.0/src/gtest-port.cc:381-383 | matches the anchored copy; nothing if the expression is invalid |
| Regex.RE.PartialMatch | native/gtest-1.6.0/src/gtest-port.cc:387-389 | matches the expression anywhere; nothing if it is invalid |
| Regex.FullMatchIff | native/gtest-1.6.0/src/gtest-port.cc:381-423 | a full match tells membership of the whole string, for all strings, exactly when the expression does not end in an escaped dollar |
| TestFilter.PatternIff | native/gtest-1.6.0/src/gtest.cc:433-448 | the recursive matcher decides the wildcard language of the pattern up to its colon |
| TestFilter.MatchesFilter | native/gtest-1.6.0/src/gtest.cc:450-470 | true exactly when some pattern of the list matches |
| TestFilter.FilterReads | native/gtest-1.6.0/src/gtest.cc:450-470 | patterns are what stands between colons |
| TestFilter.GlobReads | native/gtest-1.6.0/src/gtest.cc:433-448 | a star matches any string, a question mark any one character, and any other character itself |
| TestFilter.FilterMatchesTest | native/gtest-1.6.0/src/gtest.cc:474-502 | the part before the dash wants the full name and the part behind it does not |
| TestFilter.WantedIff | native/gtest-1.6.0/src/gtest.cc:474-502 | the filter is cut at its first dash; nothing in front of it stands for every name |
| TestFilter.FormatFullName | native/gtest-1.6.0/src/gtest.cc:1700-1731 | the full name, or the error text from 4096 characters on |
| TestFilter.FullNameIff | native/gtest-1.6.0/src/gtest.cc:1700-1731 | filters see the own name of a test exactly if it has fewer than 4096 characters |
| TestFilter.DeathTestCaseIff | native/gtest-1.6.0/src/gtest.cc:155 | death test cases are those named so at the end, or before a slash |
| TestFilter.DisabledIff | native/gtest-1.6.0/src/gtest.cc:150 | disabled are names that start so, or do after a slash |
| Shuffling.Random.Generate | native/gtest-1.6.0/src/gtest.cc:284-298 | the next state of the generator, below the maximal range, reduced to a number below the range |
| Shuffling.NextStateIs | native/gtest-1.6.0/src/gtest.cc:284-298 | the generator in closed form, modulo 2^31 |
| Shuffling.ShuffleRange | native/gtest-1.6.0/src/gtest-internal-inl.h:301-319 | the loop is the Fisher-Yates shuffle with the generator's draws |
| Shuffling.ShuffledRearranges | native/gtest-1.6.0/src/gtest-internal-inl.h:301-319 | whatever is drawn, it rearranges the range and changes nothing outside |
| Shuffling.EveryOrderOnce | native/gtest-1.6.0/src/gtest-internal-inl.h:301-319 | every order of the range comes from exactly one list of draws |
| Sharding.FlagsAreMarks | native/gtest-1.6.0/src/gtest.cc:4388-4427 | filtering case by case numbers and marks the tests as one sequence |
| Sharding.OneShardEach | native/gtest-1.6.0/src/gtest.cc:4366-4368 | every runnable test is on exactly one shard, every other test on none |
| Sharding.ShardSize | native/gtest-1.6.0/src/gtest.cc:4366-4368 | the exact number of tests on each shard |
| Sharding.FilterTestsPartition | native/gtest-1.6.0/src/gtest.cc:4377-4428 | over all shards: each runnable test selected once, the counts add up, and any two differ by at most one |
| Sharding.RunnableIff | native/gtest-1.6.0/src/gtest.cc:4396-4413 | a test may run exactly if disabled tests run as well, or neither its name nor that of its case starts with `DISABLED_` or holds `/DISABLED_`, and the filter wants its full name |
| Sharding.ShardTakes | native/gtest-1.6.0/src/gtest.cc:4388-4424 | over all cases, shard k of n selects exactly every n-th of the tests that may run, in the order of the cases; without sharding all of them |
| UnitTest.TestCase.AddTestInfo | native/gtest-1.6.0/src/gtest.cc:2424-2427 | appends the test, last in the order |
| UnitTest.TestCase.Run | native/gtest-1.6.0/src/gtest.cc:2430-2455 | runs the tests that should run, each once, in the current order |
| UnitTest.TestCase.ShuffleTests | native/gtest-1.6.0/src/gtest.cc:2463-2465 | shuffles the order with the generator's draws; it stays a permutation |
| UnitTest.TestCase.UnshuffleTests | native/gtest-1.6.0/src/gtest.cc:2468-2472 | restores the first order |
| UnitTest.TestCase.FilterTests | native/gtest-1.6.0/src/gtest.cc:4391-4425 | the inner loop marks and counts exactly as the filter says; a test is selected only if it may run, and without sharding exactly then |
| UnitTest.RunNamesSameBag | native/gtest-1.6.0/src/gtest.cc:2443-2446 | the tests that run do not depend on the order |
| Registry.RegisteredOrder | native/gtest-1.6.0/src/gtest.cc:4096-4129 | after any registrations: the death test cases, then the others, each group in order of first registration, no name twice |
| Registry.OrderDeathsFirst | native/gtest-1.6.0/src/gtest.cc:4107-4126 | in every order that arises the first positions are exactly those of death test cases |
| Registry.ShuffledOrderOk | native/gtest-1.6.0/src/gtest.cc:4484-4490 | shuffling both ranges gives such an order again |
| Registry.UnitTestImpl.FindCase | native/gtest-1.6.0/src/gtest.cc:4100-4106 | finds the case of that name exactly if there is one |
| Registry.UnitTestImpl.GetTestCase | native/gtest-1.6.0/src/gtest.cc:4096-4129 | returns the case of that name, new ones behind the last death test case or at the end |
| Registry.UnitTestImpl.AddTestInfo | native/gtest-1.6.0/src/gtest-internal-inl.h:633-653 | adds the test to its case and changes no other |
| Registry.UnitTestImpl.ShuffleTests | native/gtest-1.6.0/src/gtest.cc:4484-4496 | both ranges, then the tests inside each case in turn, shuffled with the draws of one generator; tests and selection untouched |
| Registry.UnitTestImpl.ShuffleInside | native/gtest-1.6.0/src/gtest.cc:4493-4495 | the order inside each case, from the generator's state behind the cases before it |
| Registry.UnitTestImpl.UnshuffleTests | native/gtest-1.6.0/src/gtest.cc:4499-4506 | the identity again, for the cases and inside each |
| Registry.UnitTestImpl.FilterTests | native/gtest-1.6.0/src/gtest.cc:4377-4428 | marks all tests as the filter says, whatever their order, and returns how many should run; in every case a test is selected only if it may run, and without sharding exactly then |
| Registry.UnitTestImpl.RunTestCases | native/gtest-1.6.0/src/gtest.cc:4235-4238 | visits every case once, death test cases first, and runs in each the selected tests once |
| Registry.UnitTestImpl.RunAllTests | native/gtest-1.6.0/src/gtest.cc:4145-4276 | every iteration, shuffled or not, does that, in exactly the order, of cases and inside each, that its own seed determines, runs only tests that may run, and without sharding all of them; everything is unshuffled behind it |
| Registry.SeedAfter | native/gtest-1.6.0/src/gtest-internal-inl.h:140-146 | the seed of every iteration in closed form |
| Registry.IterationRepeats | native/gtest-1.6.0/src/gtest.cc:4258-4270 | the N-th iteration of a run is, test by test, the first iteration of a run from its seed: a failure can be reproduced without the iterations before it |
| CData.OutputXmlCDataSection | native/gtest-1.6.0/src/gtest.cc:3203-3220 | the loop writes the text with every end mark broken up |
| CData.SectionReads | native/gtest-1.6.0/src/gtest.cc:3203-3220 | text without an end mark is read up to the mark put behind it, also if it ends in brackets |
| CData.PrintedReads | native/gtest-1.6.0/src/gtest.cc:3203-3220 | a reader after sections 2.4 and 2.7 of XML 1.0 gets back every text |
| Literals.CharLiteralIs | native/gtest-1.6.0/src/gtest-printers.cc:149-192 | which characters are written as they are, which have an escape of their own, and which are written in hexadecimal digits, and in which |
| Literals.SpecialEscapes | native/gtest-1.6.0/src/gtest-printers.cc:149-181 | the ten escapes |
| Literals.PrintAsCharLiteralTo | native/gtest-1.6.0/src/gtest-printers.cc:149-192 | writes every character's piece, quotes included, and says how it was written |
| Literals.PrintAsStringLiteralTo | native/gtest-1.6.0/src/gtest-printers.cc:196-213 | the same inside a string literal |
| Literals.PrintCharsAsStringTo | native/gtest-1.6.0/src/gtest-printers.cc:261-275 | the loop writes the whole literal, with a break where a hexadecimal escape would run on |
| Literals.ReadOne | native/gtest-1.6.0/src/gtest-printers.cc:261-275 | every character but NUL is read back as itself, whatever follows |
| Literals.PrintedReads | native/gtest-1.6.0/src/gtest-printers.cc:261-275 | what a C compiler reads from the literal, for every array |
| Literals.PrintedReadsIff | native/gtest-1.6.0/src/gtest-printers.cc:261-275 | it is the array exactly when no NUL is directly followed by an octal digit |

## Left out

- Sockets, TLS, timers, timeouts and sending heartbeats: the wire is a sequence of octets, `inbox` holds what was read and not decoded.
- Failing memory allocation, and the byte layout of decoded records: their sizes are parameters (`sizes`).
- The C heap is a map from block numbers to octets; linked lists (the queue, the buckets of the pool table) are sequences; the total of page pointers in `record_pool_block` is not bounded by the address space.
- Publisher.Publisher.Publish: negative frame sizes are outside the model.
- What the broker does: `Consumer.EndToEnd` takes the stream of deliveries as given, with a header that announces the size of the body and a last piece that is not empty.
- Session.Drive: ends at the first failure, as a run of the library does.
- Decoder.StepParses: a size that wrapped around to less than the octets received counts as undefined, also in the cases where the chunk ends so early that the C code stays inside its memory.
- Method calls over a connection, login, channel handling, names and error strings of AMQP.
- Jzon's file reading and writing, conversions of numbers, `DetermineType`, and parsing a second time after an error; nodes are values, so ownership and copying are not modelled.
- JzonParser.Parser.Parse: reports success when containers are left open at the end, as the source does.
- JzonImage.ReadIsWellFormed: speaks of text whose stripped form does not end in a backslash; `JzonReadable.ReadableExactly` speaks of all text, read into an empty root.
- JzonLayout.PrintedLayout: speaks of trees whose names are bodies of strings and whose numbers and booleans hold no quotes, brackets, separators or blanks; in the text of other trees it is not to be seen where strings end.
- Regex.MatchRegexAtHead: strings of 2^64 - 1 characters or more are excluded, as the source says it does not support them; the wording of syntax errors is left out.
- Registry.UnitTestImpl.GetTestCase: may only be called while nothing is shuffled, which the source asks of its callers; type parameters and set-up functions are left out.
- Registry.UnitTestImpl.RunAllTests: the number of repetitions is not negative, set-up does not fail, and listing tests, listeners and results are left out; the seed from the clock is a parameter.
- TestInfo objects are values in their test case, which the test case replaces when it filters them.
- Reading shard numbers from the environment; a shard's index is below the number of shards, as `ShouldShard` makes sure.
- CData.PrintedReads: normalisation of line ends and characters XML forbids are left out.
- Literals.PrintedReads: trigraphs and wide characters are left out.
- Forking death tests, console output, colours, the other printers, `im.cpp`, the iOS headers and the RPC server.
