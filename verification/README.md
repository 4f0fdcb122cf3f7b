# netpp: verified models

Dafny models of the parts of netpp that hold its difficult guarantees, with proofs of those guarantees.
`dafny verify dfyconfig.toml` checks the whole project.

* **The byte queue.** `ByteArray` keeps bytes in 1024-byte nodes with two node indices and two cached counters.
  `QueueLayout` is its invariant on values, `ByteQueue` the plain queue of bytes it stands for with the theorems
  about whole runs, `ByteArray` the class with nodes updated in place, each method tied to the plain queue.
  `TypedBytes` adds integers and strings, and `TypedRun` runs an array with them. `QueueConsume` and `QueueProduce` are
  the arithmetic that accounts for bytes a socket sent or delivered; `SocketIO` and `SequentialAdjust` are the
  scatter/gather adapters. `ByteArrayRun` runs an array with all of that and has the theorems about whole runs for the
  array itself.
* **Copy on write.** `CowLink` has reference-counted cells shared between links. The reference counts of all links
  are kept exact, and any run (`CowLinkRun`), with iterators open side by side, looks as if nothing were shared.
* **URIs.** `UriSyntax` describes parsing and printing, `UriParser` is the parser with its loops, `UriGrammar` says
  what every text means and `UriCase` what the case of letters matters, `UriRoundTrip` relates parsing and printing.
  `UriCodec` is percent-coding, `UriPath`, `UriSegments` and `UriDots` are segments and dot removal, `UriAppend` is
  appending to paths and queries, `UriFields` splitting any query. `UriResolve` is reference resolution against
  RFC 3986, `UriTarget` says what it yields for every reference, and `Uri` is the class whose methods are tied to all
  of these.
* **The time wheel.** `TimeWheel` is a ring of buckets that stands for a countdown timer per entry, `Timers` has the
  theorems about runs of such timers, and `TimeWheelRun` runs a wheel against them.
* **Concurrency.** `ThreadPool` and `RunInLoop` are protocols of many threads, one atomic step at a time, with
  theorems over every interleaving; `ThreadPoolProgress` and `RunInLoopProgress` say when a run can go on to its end.
  `ThreadPoolRun` is the pool as an object with the `ThreadSafeQueue` its threads share and `RunInLoopRun` the handler
  as one, each run through the steps of its protocol.

Where the code does something else than its documentation or RFC 3986, the model follows the code, and the exact
condition under which the promise is kept is proved instead:

* `adjustByteArray` of the reader overshoots when a size spans nodes and is not whole nodes from an untouched node;
  that of the writer charges later nodes wrongly (`Consume`, `Produce`, `AdjustAll`; `SpanningSizeBreaks`,
  `SeveralWriteableBreaks`).
* An unescaped '%' in a host does not survive encoding and decoding (`HostRoundTripIff`; `HostExample`).
* A parsed URI does not always print to text that parses to itself (`RoundTripIff`; `EmptyUserIsLost`).
* Removing dot segments encodes the path again and loses empty segments (`RemoveDotsIsRfcIff`,
  `RemoveDotsIdempotentIff`; `EmptySegmentExample`, `SecondRemovalExample`).
* Resolution does the same, leaves dot segments in references with a scheme or an authority, carries the base's
  fragment over, and merges base paths without a slash differently (`ResolveIff`, `MergeIsRfcIff`; `FragmentExample`,
  `DotsBehindScheme`, `MergeExample`, `SlashlessFails`, `SlashlessExample`).
* `addPendingFunction` writes the wake-up before it pushes, so a wake-up from another thread can be lost
  (`SplitPostCanBeStuck`; `WakeUpCanBeLost`).
* `moveToTail` runs its callback on nodes that other links may share (`MoveToTail`; `CallbackIsSeen`), and an iterator
  held across a copy of its link writes to nodes that are shared since (`SetAnyway`; `HeldIteratorIsSeen`).
* An entry added to the wheel while its timer runs gets into two buckets, and renewing one that is not in the wheel is
  undefined (`AddToWheel`, `Renew`, `Perform`; `SecondAddBreaks`).

Parameters that the model takes instead of calling out: the bytes a socket took are a size and those it delivers an
argument; a functor of the loop is a name and the list of functors it posts; a wheel entry's `eraseOnTimeout` is a
constant; what an entry's timeout does to the wheel, and the order in which a hash set is walked, are arguments, and
so are the default element of a link and the callback of `moveToTail`. Ghost parameters name the other links, arrays
or threads that a statement is about.

## Model

| member | source | states |
|---|---|---|
| `ByteArrayRuns.RunAll` | src/ByteArray.cpp:94-281 | any run on a new array, of writes, retrievals, bytes received from a socket and bytes sent to one: the array survives all of it if and only if each size received or sent is, where it is done, one of those the code accounts for rightly; then it does what the plain queue does, everything that came out and then what is still inside is everything that was put in, in order, and its nodes never take more than the memory bound says |
| `ByteArrayRuns.DoOp` | src/internal/socket/SocketIO.cpp:21-110 | the same for one operation, from any intact array |
| `ByteArrayRuns.DoConsume` | src/internal/socket/SocketIO.cpp:21-63 | a socket sends the first bytes of the gather list: the array drops exactly these or is broken, and which of the two follows from the size, the length of the contents and the position of the first byte alone |
| `ByteArrayRuns.DoReceive` | src/internal/socket/SocketIO.cpp:70-105 | a socket fills the entries of the scatter list, one after the other: the array has exactly these bytes appended or is broken, and which of the two follows from the size, the contents and the position of the first byte alone |
| `ByteArrayRuns.CanHonour` | src/internal/socket/SocketIO.cpp:43-105 | the owner of an array can tell beforehand whether it survives an operation |
| `QueueConsume.ExactIsExactFor` | src/internal/socket/SocketIO.cpp:54-60 | which sizes are dropped rightly can be told from the contents and the position of the first byte alone |
| `QueueProduce.OneWriteableIsTakesIn` | src/internal/socket/SocketIO.cpp:98-104 | and so can which sizes are taken in rightly |
| `ByteArrayRuns.SpanningSizeBreaks` | src/internal/socket/SocketIO.cpp:54-60 | 3000 bytes written and 1500 of them sent: the array is no queue any more |
| `ByteArrayRuns.SeveralWriteableBreaks` | src/internal/socket/SocketIO.cpp:98-104 | 3000 bytes written and 100 received: the array is no queue any more |
| `ByteQueue.RunIsFifo` | src/ByteArray.cpp:94-248 | the plain queue that the array is run against: over any run everything taken out, then what is still inside, is everything that was put in, in order |
| `ByteQueue.MemoryBound` | src/ByteArray.cpp:250-281 | the plain queue: over any run from the empty queue the nodes take at most one node, or at most twice the peak load rounded up by less than a node |
| `ByteQueue.RunStaysBounded` | src/ByteArray.cpp:250-281 | the plain queue: the bound is kept by every operation of a run, from any state that meets it |
| `ByteQueue.ReserveIsEnough` | src/ByteArray.cpp:250-270 | after reserving there is strictly more room than asked for, the bytes are the same, and a queue that grew has at most twice the memory that its bytes, the request and one node of slack take |
| `ByteQueue.ReserveAddsNode` | src/ByteArray.cpp:250-270 | reserving more than is free gives back or adds at least one whole node |
| `ByteQueue.Doubled` | src/ByteArray.cpp:259-265 | the doubling loop ends with enough nodes, and unless none of the doublings was needed, half of them would not have been enough |
| `ByteQueue.RetrieveAllOrNothing` | src/ByteArray.cpp:222-247 | a retrieval takes exactly the bytes asked for from the front or changes nothing; it never takes a part |
| `ByteQueue.RetrieveCompose` | src/ByteArray.cpp:215-248 | retrieving a bytes and then b bytes is retrieving a+b bytes: the node-by-node copying loop is a single retrieval |
| `ByteQueue.ConsumeGivesBack` | src/internal/socket/SocketIO.cpp:43-63 | after a consumption less than one node in front of the contents is used up, by moving the contents forward by whole nodes |
| `QueueLayout.CountersAreSums` | src/ByteArray.cpp:116-117 | in every state of the invariant the two counters, as functions of the indices, are the real sums of stored bytes and of free space, and some space is always free |
| `QueueLayout.FillWriteNode` | src/ByteArray.cpp:104-115 | filling the write node appends to the contents and keeps the invariant: nodes before the write node full, the write node not full, later nodes empty |
| `QueueLayout.DrainReadNode` | src/ByteArray.cpp:225-241 | draining the read node removes exactly that many bytes from the front and keeps the invariant |
| `QueueLayout.DrainKeepsOk` | src/ByteArray.cpp:234-240 | a read node that was used up is never the write node: the branch that would advance the write index is never taken |
| `QueueLayout.RotateHead` | src/ByteArray.cpp:272-281 | rotating the drained head nodes to the tail leaves the contents alone and frees exactly the drained nodes |
| `QueueLayout.AddBlankNodes` | src/ByteArray.cpp:266-267 | blank nodes at the tail change neither contents nor invariant |
| `QueueLayout.SkipNodes` | src/internal/socket/SocketIO.cpp:55-58 | stepping the read index over k nodes drops exactly k nodes' worth of bytes when the read node is untouched |
| `ByteArrays.BufferNode.Fill` | src/ByteArray.cpp:108-109 | copying behind the payload changes that node only, by exactly the chunk |
| `ByteArrays.BufferNode.Take` | src/ByteArray.cpp:227-230 | copying from the front of the payload yields its first bytes and moves the start offset only |
| `ByteArrays.ByteArray.constructor` | src/ByteArray.cpp:6-9 | a new array is the empty queue on one node |
| `ByteArrays.ByteArray.WriteRaw` | src/ByteArray.cpp:94-118 | a write appends all its bytes to the plain queue, grows it exactly as the specification's reserve does, and keeps the invariant and both counters |
| `ByteArrays.ByteArray.PutAll` | src/ByteArray.cpp:104-115 | the copying loop leaves nothing unwritten and appends the data in order, whatever the node boundaries |
| `ByteArrays.ByteArray.PutSome` | src/ByteArray.cpp:106-114 | one round appends a non-empty prefix of the data, all of it or up to the end of the node, and moves the write index exactly when the node is full |
| `ByteArrays.ByteArray.AllocIfNotEnough` | src/ByteArray.cpp:250-270 | rotation first and doubling only if still needed, as the plain queue's reserve; contents unchanged |
| `ByteArrays.ByteArray.DoubleNodes` | src/ByteArray.cpp:259-267 | the array grows to the least sufficient doubling and its counter is the real free space again |
| `ByteArrays.ByteArray.Doublings` | src/ByteArray.cpp:259-265 | the loop ends with the least sufficient doubling and the free space that goes with it |
| `ByteArrays.ByteArray.AllocMore` | src/ByteArray.cpp:266 | node list extended to the given length with blank nodes of its own; contents unchanged |
| `ByteArrays.ByteArray.MoveBufferHead` | src/ByteArray.cpp:272-281 | the node list is rotated by the read index, each rotated node blanked, and the free counter raised by whole nodes |
| `ByteArrays.ByteArray.MoveToTail` | include/internal/buffer/CowLink.hpp:195-207 | the nodes are nodes[end..] ++ nodes[..end], by identity; the moved ones are blank, the others untouched |
| `ByteArrays.ByteArray.EndOfReadNode` | src/ByteArray.cpp:283-299 | the end lies behind the read node and not past the write node; a write node that is left out holds no bytes |
| `ByteArrays.ByteArray.RetrieveRaw` | src/ByteArray.cpp:215-248 | all or nothing: the first bytes of the plain queue, or none and no change when there are fewer; invariant and counters kept |
| `ByteArrays.ByteArray.TakeAll` | src/ByteArray.cpp:224-241 | the copying loop always finds all the bytes asked for, whatever the node boundaries |
| `ByteArrays.ByteArray.TakeSome` | src/ByteArray.cpp:227-240 | one round yields the next bytes of the queue and moves the read index when the node is used up; the write index never moves |
| `ByteArrays.ByteArray.ReadableBytes` | src/ByteArray.cpp:116 | the readable counter is the length of the contents |
| `ByteArrays.ByteArray.WriteableBytes` | src/ByteArray.cpp:117 | the writeable counter is the free space, which is never zero |
| `ByteArrays.ByteArray.WriteInt` | src/ByteArray.cpp:31-75 | an integer is appended as its two's complement bytes in network order |
| `ByteArrays.ByteArray.RetrieveInt` | src/ByteArray.cpp:120-185 | the next bytes as an integer; 0 and no change when there are too few |
| `ByteArrays.ByteArray.WriteString` | src/ByteArray.cpp:89-92 | a string is appended byte for byte, without a length |
| `ByteArrays.ByteArray.RetrieveString` | src/ByteArray.cpp:205-213 | the next bytes, or the empty string and no change when there are fewer |
| `TypedBytes.IntRoundTrip` | src/ByteArray.cpp:36-75 | decoding the network-order bytes of an integer of 1, 2, 4 or 8 bytes gives it back, negative values included |
| `TypedBytes.EncodedByteAt` | src/ByteArray.cpp:36-75 | each byte of an encoded integer is that of its two's complement value, the highest first |
| `TypedBytes.MachineRanges` | src/ByteArray.cpp:36-75 | the four sizes have the ranges of the machine types |
| `TypedBytes.ReadIsAllOrNothing` | src/ByteArray.cpp:120-213 | a typed read of more than there is takes nothing and gives 0 or the empty string; any other takes exactly its bytes |
| `TypedBytes.TypedRunIsFifo` | src/ByteArray.cpp:31-213 | the plain queue that `TypedRuns.RunAll` runs the array against: typed integers and strings come out as they went in, first in, first out, however reads and writes alternate, as long as each read asks for the kind of the oldest item not read yet |
| `TypedBytes.TypedRoundTrip` | src/ByteArray.cpp:31-213 | the plain queue: any sequence of typed integers and strings is read back unchanged and in order, behind whatever was in the queue, once that is read |
| `TypedRuns.RunAll` | src/ByteArray.cpp:31-213 | any typed reads and writes on an array that holds typed items, as long as each read asks for the kind of the oldest item not read yet: items come out as they went in, first in, first out, and the array holds exactly the others |
| `TypedRuns.RunNew` | src/ByteArray.cpp:6-213 | the same on a new array |
| `TypedRuns.DoTyped` | src/ByteArray.cpp:31-213 | any typed reads and writes on an array, whatever the reads ask for: what comes out and what stays inside are those of the plain queue |
| `ByteArrays.ByteArray.Consume` | src/internal/socket/SocketIO.cpp:43-63 | dropping sent bytes leaves a valid array exactly when the size covers everything, or stays inside the read node, or is whole nodes from an untouched read node; then exactly the first bytes are gone |
| `QueueConsume.AdvanceRotated` | src/internal/socket/SocketIO.cpp:54-62 | the division-based step followed by rotation is a queue with the right counter if and only if the size is one of the exact cases, and then exactly those bytes are dropped |
| `QueueConsume.AdvanceBreaks` | src/internal/socket/SocketIO.cpp:54-60 | outside of the exact cases the step always breaks the invariant or leaves fewer bytes than the counter says |
| `QueueConsume.DrainRotated` | src/internal/socket/SocketIO.cpp:45-51 | a size that covers everything empties the queue and keeps the invariant |
| `ByteArrays.ByteArray.Produce` | src/internal/socket/SocketIO.cpp:90-105 | accounting for received bytes leaves a valid array exactly when the write node is the last one and has room to spare; then exactly the received bytes are appended |
| `QueueProduce.ChargeLast` | src/internal/socket/SocketIO.cpp:98-104 | with one writeable node the charged layout is the queue with the delivered bytes appended |
| `QueueProduce.ChargeManyBreaks` | src/internal/socket/SocketIO.cpp:98-104 | with more than one writeable node the result is never a queue with the right counter, for any size |
| `QueueProduce.ChargeIff` | src/internal/socket/SocketIO.cpp:95-104 | together: the loop leaves a queue with the right counters exactly when the write node is the last one, and then the delivered bytes are appended |
| `SocketIO.Deliver` | src/internal/socket/SocketIO.cpp:80-85 | what a system call fills into the entries changes nothing of the queue, and what fits behind the payload of the write node is there |
| `SocketIO.ByteArrayReader.constructor` | src/internal/socket/SocketIO.cpp:21-39 | the gather entries stay inside their nodes and together hold exactly the contents; as many are allocated as there are nodes from the read node to the last with unread bytes, and no more are used |
| `SocketIO.ByteArrayReader.AdjustByteArray` | src/internal/socket/SocketIO.cpp:43-63 | right exactly in the exact cases |
| `SocketIO.ByteArrayReader.AvailableBytes` | src/internal/socket/SocketIO.cpp:65-68 | the length of the contents |
| `SocketIO.Gathering` | src/internal/socket/SocketIO.cpp:24-36 | one entry per node with unread bytes, in order, holding the contents |
| `SocketIO.ChunksAreGathered` | src/internal/socket/SocketIO.cpp:28-36 | leaving out empty nodes loses no bytes |
| `SocketIO.ByteArrayWriter.constructor` | src/internal/socket/SocketIO.cpp:70-86 | the entry count computed by rounding up the free bytes is the number of nodes the loop visits, and the entries are exactly the free memory, node after node |
| `SocketIO.ByteArrayWriter.AdjustByteArray` | src/internal/socket/SocketIO.cpp:90-105 | right exactly for a single writeable node with room to spare, and then the received bytes are appended |
| `SocketIO.ByteArrayWriter.AvailableBytes` | src/internal/socket/SocketIO.cpp:107-110 | the free space |
| `SocketIO.CeilingIsCount` | src/internal/socket/SocketIO.cpp:73-74 | free bytes rounded up to whole nodes count the nodes from the write node on |
| `SequentialAdjust.SequentialByteArrayReader.constructor` | src/internal/socket/SocketIO.cpp:116-148 | the entries hold the contents of all arrays, one after the other; as many are allocated as the arrays have nodes, and no more are used |
| `SequentialAdjust.SequentialByteArrayReader.AdjustByteArray` | src/internal/socket/SocketIO.cpp:152-179 | the adapter does what `AdjustAll` says to its arrays |
| `SequentialAdjust.SequentialByteArrayReader.AvailableBytes` | src/internal/socket/SocketIO.cpp:181-187 | the length of all contents together |
| `SequentialAdjust.AdjustAll` | src/internal/socket/SocketIO.cpp:152-180 | if the step inside the array where the bytes run out is exact, the arrays together lose exactly the first bytes (or all there are); otherwise an array is broken; the counters go down by exactly the lesser of size and total in every case |
| `SequentialAdjust.Round` | src/internal/socket/SocketIO.cpp:154-179 | what one array's turn contributes to that |
| `SequentialAdjust.StopProgress` | src/internal/socket/SocketIO.cpp:164-179 | stopping in array i drops a prefix of all contents of exactly the given size |
| `SequentialAdjust.CountsAtStop` | src/internal/socket/SocketIO.cpp:156-179 | the sum of the counters when the loop stops early |
| `CowLinkRuns.RunAll` | include/internal/buffer/CowLink.hpp:109-222 | any run on links that share nodes, with any number of iterators open side by side: opening one, moving it on, writing through it, making room and copying show, link by link, what the same operations make of sequences that share nothing, and each iterator that was not held across a copy of its link stands on a node that no other slot holds; an iterator held across one is moved on, or another one opened, before a write |
| `CowLinkRuns.DoOp` | include/internal/buffer/CowLink.hpp:109-222 | the same for one operation, from any set of links with exact reference counts |
| `CowLinkRuns.RoomIsMade` | include/internal/buffer/CowLink.hpp:213-222 | making room keeps what is there and adds blank elements, up to the length asked for and not beyond |
| `CowLinkRuns.MayWriteAtOnce` | include/internal/buffer/CowLink.hpp:117-138 | an iterator just opened or moved on may write, and its value then stands at its position and nowhere else |
| `CowLinkRuns.OwnUntilCopied` | include/internal/buffer/CowLink.hpp:117-159 | it may go on writing through everything but a copy of its own link, and only moving it on moves it |
| `CowLinkRuns.SetAnyway` | include/internal/buffer/CowLink.hpp:138 | a write through any iterator, held or not: the links show what sequences that share nothing do if and only if the node is in no other slot or has that value already |
| `CowLinkRuns.HeldIteratorIsSeen` | include/internal/buffer/CowLink.hpp:138-159 | an iterator held across a copy writes what the copy sees |
| `CowLinks.CountedOnce` | include/internal/buffer/CowLink.hpp:147 | a node whose reference count is one is in one slot of one link only |
| `CowLinks.CowLink.constructor` | include/internal/buffer/CowLink.hpp:154-158 | a new link has one blank node of its own |
| `CowLinks.CowLink.CowNode` | include/internal/buffer/CowLink.hpp:145-149 | afterwards the node is this link's alone; no link's values change |
| `CowLinks.CowLink.ReplaceNode` | include/internal/buffer/CowLink.hpp:148 | the slot holds a new cell with the same value, and all reference counts are exact again |
| `CowLinks.CowLink.SetNode` | include/internal/buffer/CowLink.hpp:138 | writing a node held once changes this value of this link and nothing of any other link |
| `CowLinks.CowLink.AllocMore` | include/internal/buffer/CowLink.hpp:213-222 | blank nodes up to the given length, none when there are more already; reference counts exact, and what was a link's own still is |
| `CowLinks.CowLink.Copy` | include/internal/buffer/CowLink.hpp:159 | a copy shares every node and raises every count by its slots; what is another link's own still is |
| `CowLinks.CowLink.MoveToTail` | include/internal/buffer/CowLink.hpp:195-207 | node identities rotated; the callback is run on the moved nodes even when shared, and another link is unchanged exactly when the callback leaves the values it shares alone |
| `CowLinks.CowLink.Rotate` | include/internal/buffer/CowLink.hpp:197-206 | the three loops together are the rotation nodes[end..] ++ nodes[..end] |
| `CowLinks.CowIterator.constructor` | include/internal/buffer/CowLink.hpp:117-122 | an iterator starts on a node of its link's own, every node that was a link's own still is, and nobody sees a difference |
| `CowLinks.CowIterator.Next` | include/internal/buffer/CowLink.hpp:132-137 | the next node is made the link's own, every node that was a link's own still is, and nobody sees a difference |
| `CowLinks.WriteFrom` | include/internal/buffer/CowLink.hpp:132-138 | writing through an iterator overwrites that stretch of this link and leaves every other link as it was |
| `UriCodec.EncodeImpl` | src/uri/Uri.cpp:340-362 | the loop encodes character by character, as the specification function does |
| `UriCodec.DecodeImpl` | src/uri/Uri.cpp:895-926 | the loop decodes as the specification function does, with the same errors for truncated escapes and bad digits |
| `UriCodec.DecodesIffWellEscaped` | src/uri/Uri.cpp:895-926 | for every text: decoding succeeds if and only if every '%' is followed by two hexadecimal digits |
| `UriCodec.DecodeIgnoresCase` | src/uri/Uri.cpp:436-456 | for every text: decoding gives the same, errors included, with the two characters behind each '%' in upper case |
| `UriCodec.DecodePlain` | src/uri/Uri.cpp:895-926 | text without '%' stands for itself, in front of anything |
| `UriCodec.EscapeIsOctet` | src/uri/Uri.cpp:895-926 | an escape stands for the octet with its two digits, the higher one first |
| `UriCodec.UpperDigitIsWorth` | src/uri/Uri.cpp:436-456 | each hexadecimal digit is worth its place in the row of digits, in either case, and nothing else is a digit |
| `UriCodec.DecodeEncode` | src/uri/Uri.cpp:857-926 | decoding an encoded string of octets gives the string back, for every component, and for host when there is no '%' |
| `UriCodec.HostRoundTripIff` | src/uri/Uri.cpp:869-874 | for hosts the round trip holds if and only if the string has no '%' |
| `UriCodec.HostExample` | src/uri/Uri.cpp:869-874 | a host where it does not |
| `UriCodec.EncodeIsInjective` | src/uri/Uri.cpp:857-893 | two strings with the same encoding are the same, for every component but host |
| `UriCodec.EncodedIsLegal` | src/uri/Uri.cpp:857-893 | encoded text has only characters the component may hold, and every '%' starts an escape of two hexadecimal digits |
| `UriCodec.LegalEncodesToItself` | src/uri/Uri.cpp:857-893 | nothing is escaped without need: text of the component's legal characters without '%' and '+' is left as it is |
| `UriCodec.EncodedIsUpper` | src/uri/Uri.cpp:340-362 | the digits of the escapes that encoding writes are in upper case |
| `UriCodec.PlusIsEscaped` | src/uri/Uri.cpp:857-893 | '+' is escaped in every component but host and full URI |
| `UriCodec.ReservedStays` | src/uri/Uri.cpp:857-893 | encoding a full URI leaves every reserved and unreserved character alone |
| `UriCodec.AsciiHostStays` | src/uri/Uri.cpp:869-874 | encoding a host leaves every ASCII character alone |
| `UriCodec.CharactersOfRfc` | src/uri/Uri.cpp:38-80 | letters, digits, general and sub-delimiters are those that section 2 of RFC 3986 lists |
| `UriCodec.PartsOfRfc` | src/uri/Uri.cpp:94-152 | the further characters that each part of a URI may hold |
| `UriParser.ParseFrom` | src/uri/Uri.cpp:173-336 | the pass over the text with its early failures computes the components the specification describes, for every text |
| `UriParser.Scan` | src/uri/Uri.cpp:229-237 | stopping at the first illegal character decides legality of the stretch up to the delimiter, and finds it |
| `UriParser.SplitPort` | src/uri/Uri.cpp:244-265 | the backwards scan over digits finds host and port |
| `UriParser.SplitUser` | src/uri/Uri.cpp:268-278 | the scan over user-information characters finds what is in front of '@' |
| `UriRoundTrip.RoundTripIff` | src/uri/Uri.cpp:464-722 | for every text that parses: printing the components and parsing again gives the same components if and only if the host cannot be taken for user information or a port, and without a host nothing else of an authority is there and the path does not start with two slashes |
| `UriRoundTrip.PrintParse` | src/uri/Uri.cpp:668-722 | the same for all components that parsing can yield |
| `UriRoundTrip.PrintAnyParse` | src/uri/Uri.cpp:668-722 | the same for any legal components, in letters of any case and with a path that may lack its slash behind a host: what is printed is read back as their canonical form |
| `UriGrammar.PrintIsText` | src/uri/Uri.cpp:668-722 | what is printed is the pieces of the components, with nothing for an empty one and no port 0 |
| `UriRoundTrip.NoZeroInFront` | src/uri/Uri.cpp:697-698 | a port is printed without zeros in front |
| `UriRoundTrip.ParsedIsWellformed` | src/uri/Uri.cpp:464-500 | every parsed URI has legal characters in each component, lower-case scheme and host, a port in range, and a path with a leading slash when there is a host |
| `UriGrammar.ParseMeans` | src/uri/Uri.cpp:165-335 | every text put together from scheme, user information, host, port, path, query and fragment is parsed to these, scheme and host in small letters, or rejected if and only if one of them has a character it may not have; what cannot start a path is left unread |
| `UriGrammar.EveryTextHasPieces` | src/uri/Uri.cpp:165-335 | every text is put together like that, so this says what parsing makes of any text |
| `UriGrammar.AuthorityMeans` | src/uri/Uri.cpp:240-280 | the same for an authority: user information in front of '@', port behind the last colon, host in between |
| `UriCase.CaseDoesNotMatter` | src/uri/Uri.cpp:418-430 | texts that differ only in the case of letters of the scheme, or of the authority behind its user information, are parsed to the same components or both rejected |
| `UriCase.SchemeCase` | src/uri/Uri.cpp:182-215 | the same for the scheme of any text |
| `UriCase.SameAuthority` | src/uri/Uri.cpp:240-280 | the same for authorities that differ in case anywhere: only their user information differs, and only in case |
| `UriCase.NoCapitals` | src/uri/Uri.cpp:418-430 | scheme and host of what was parsed, and of what printing leaves behind, have no capital letter; printing changes their case only |
| `UriRoundTrip.DecimalInvert` | src/uri/Uri.cpp:258 | reading a printed port gives the port back |
| `UriRoundTrip.PortAppended` | src/uri/Uri.cpp:244-259 | a colon and digits behind any text are read as the port, and the text as what is in front |
| `UriRoundTrip.UserInFront` | src/uri/Uri.cpp:268-278 | user information and '@' in front of any text are split off again |
| `UriRoundTrip.EmptyUserIsLost` | src/uri/Uri.cpp:268-278 | a whole family of texts that parse and do not come back: an empty user part in front of '@' is lost, and the first half of the host is taken for one the second time |
| `UriRoundTrip.RoundTripExample` | src/uri/Uri.cpp:268-278 | one of them |
| `UriRoundTrip.PortOfNumber` | src/uri/Uri.cpp:258 | a number printed as a port is read back if it fits the machine integer, and leaves the port at 0 if not |
| `UriRoundTrip.ColonInQueryIsRejected` | src/uri/Uri.cpp:184-192 | the scheme scan runs past '?' and '#': a colon there, with no slash before it, makes parsing fail |
| `UriPath.RewriteIsStack` | src/uri/Uri.cpp:388-413 | on any segments, empty ones included, the stack does what the string rewriting of section 5.2.4 of RFC 3986 does to the text |
| `UriPath.RemoveDotsIsNormal` | src/uri/Uri.cpp:381-416 | a path with a dot becomes its normal form, percent-encoded once more |
| `UriPath.SplitAbsolute` | src/uri/Uri.cpp:724-740 | splitting joined segments gives them back |
| `UriPath.SplitEncode` | src/uri/Uri.cpp:526-537 | encoding a path encodes it segment by segment |
| `UriDots.RemoveDotsIsRfcIff` | src/uri/Uri.cpp:381-416 | for every path: dot removal is that of section 5.2.4 of RFC 3986 if and only if there is no dot, or nothing in the RFC's result needs encoding and counting the segments, one up for a name, one down for "..", comes to the same with the empty ones and without them (a relative path also climbs out of its first segment) |
| `UriSegments.NormalIffAsMany` | src/uri/Uri.cpp:381-416 | for every path: the program's normal form is the RFC's result if and only if these two counts are the same |
| `UriSegments.StackHeight` | src/uri/Uri.cpp:388-398 | the count is that of the segments on the stack |
| `UriSegments.AsManyWithoutEmpty` | src/uri/Uri.cpp:388-398 | they are for every path without empty segments that is absolute or climbs out of its first segment |
| `UriSegments.ClimbsIff` | src/uri/Uri.cpp:388-398 | counting finds out whether the stack is empty at some point |
| `UriSegments.EmptySegmentsOnlyAdd` | src/uri/Uri.cpp:388-398 | the stack that never sees empty segments keeps what the one that does keeps, with some left out |
| `UriSegments.RfcKeeps` | src/uri/Uri.cpp:388-413 | for every path, relative ones included: the RFC's result starts with a slash if and only if the path is absolute or climbs out of its first segment, and then its segments, found by the stack, are those the program keeps and possibly more |
| `UriSegments.SameCount` | src/uri/Uri.cpp:388-413 | so if it has no more segments than the program keeps, it is the program's normal form |
| `UriSegments.RfcLeavesAloneIff` | src/uri/Uri.cpp:381-385 | for every path: the RFC's removal changes nothing if and only if no segment is "." or ".." |
| `UriDots.SecondRemovalExample` | src/uri/Uri.cpp:381-416 | a path that a second removal changes |
| `UriDots.PlainPathsFollowRfc` | src/uri/Uri.cpp:381-416 | a path where nothing needs encoding and, if it has a dot, as many segments are kept without the empty ones gets the RFC's result, and doing it again changes nothing |
| `UriDots.NoDotSegments` | src/uri/Uri.cpp:381-416 | no "." and no ".." segment is left, for every path |
| `UriDots.RemoveDotsIdempotentIff` | src/uri/Uri.cpp:381-416 | a second removal changes nothing if and only if there was no dot, no dot is left, or nothing was escaped, for every path |
| `UriDots.EmptySegmentsAreLost` | src/uri/Uri.cpp:388-413 | the result never has an empty segment inside, so it differs from that of RFC 3986 wherever that keeps one; `RemoveDotsIsRfcIff` has the exact condition |
| `UriDots.EmptySegmentExample` | src/uri/Uri.cpp:388-413 | a path where it does |
| `UriDots.SetAndRemoveDotsIff` | src/uri/Uri.cpp:661-662 | for every path: setting it and then removing its dots is what RFC 3986 asks for if and only if nothing in the RFC's result needs encoding, and as many segments are kept without the empty ones or, when there is no dot, it starts with a slash |
| `UriDots.SetBehindIff` | src/uri/Uri.cpp:661-662 | for every relative path set with one more segment in front: it gets what RFC 3986 leaves of it alone if and only if it climbs out of its first segment, and either the one in front is a dot segment or is climbed out of, nothing needs encoding and as many segments are kept without the empty ones, or else the segments RFC 3986 keeps are the others, encoded twice |
| `UriDots.SetBehindNoEmpty` | src/uri/Uri.cpp:661-662 | without empty segments: if and only if it climbs out of its first segment, nothing needs encoding, and the one in front is a dot segment or at some point all segments up to it are gone |
| `UriDots.CoincidenceKeepsMore` | src/uri/Uri.cpp:661-662 | the last case needs an empty segment: RFC 3986 keeps one segment more than are left when the empty ones are not counted |
| `UriDots.CoincidenceExample` | src/uri/Uri.cpp:661-662 | a family of paths where the program keeps the segment it put in front and RFC 3986 another one that reads the same |
| `UriDots.NormalEncoded` | src/uri/Uri.cpp:526-537 | encoding first and normalizing then is normalizing first and encoding then |
| `UriAppend.AppendPathIsConcat` | src/uri/Uri.cpp:539-568 | for every path and argument, splitting afterwards gives the old segments and then those of the argument, each encoded when encoding is on |
| `UriAppend.AppendPathJoins` | src/uri/Uri.cpp:539-568 | exactly one slash comes between path and argument, and the rest of both stays as it is, the argument encoded when encoding is on |
| `UriAppend.AppendPathKeepsNoEmpty` | src/uri/Uri.cpp:539-568 | a path and an argument without empty segments inside give a path without them |
| `UriAppend.AppendQueryJoins` | src/uri/Uri.cpp:580-605 | exactly one '&' comes between query and argument, and the rest of both stays as it is |
| `UriAppend.QueryRoundTrip` | src/uri/Uri.cpp:580-605 | names and values of any octets appended with encoding on, split and decoded, are exactly the map of the list, the last value of a name winning |
| `UriFields.SplitIsMapOfFields` | src/uri/Uri.cpp:742-778 | without any encoding: fields ended by '&', and behind the last '&' fields separated by ';', are split into exactly the map of the list, the last value of a name winning; values may hold '=', and ';' in front of a later '&'; text without '=' counts for nothing |
| `UriFields.EveryQueryHasFields` | src/uri/Uri.cpp:742-778 | every text is such a query, so this says what splitting makes of any text |
| `UriAppend.AppendPlainPair` | src/uri/Uri.cpp:827-855 | with encoding off, a pair appended to a query without ';' puts its name and value into the map as they are |
| `UriAppend.PiecesSnoc` | src/uri/Uri.cpp:742-778 | a piece appended behind '&' is the last one put into the map |
| `UriAppend.PairIsOnePiece` | src/uri/Uri.cpp:827-850 | an encoded pair has no delimiter but its '=' and reads back as its two sides |
| `UriObject.Uri.FromText` | src/uri/Uri.cpp:464-504 | a new object with the parsed components of the text up to the first NUL, or the error |
| `UriObject.Uri.SetHost` | src/uri/Uri.cpp:506-514 | only the host changes, encoded on request |
| `UriObject.Uri.SetUserInfo` | src/uri/Uri.cpp:516-524 | only the user information changes, encoded on request |
| `UriObject.Uri.SetPath` | src/uri/Uri.cpp:526-537 | only the path changes; it gets a leading slash and is encoded on request |
| `UriObject.Uri.AppendPath` | src/uri/Uri.cpp:539-568 | only the path changes, to the path `AppendPathIsConcat` is about |
| `UriObject.Uri.SetQuery` | src/uri/Uri.cpp:570-578 | only the query changes, encoded on request |
| `UriObject.Uri.AppendQuery` | src/uri/Uri.cpp:580-605 | only the query changes, with one '&' where the two meet |
| `UriObject.Uri.AppendPair` | src/uri/Uri.cpp:827-855 | only the query changes, by the pair `QueryRoundTrip` is about |
| `UriObject.Uri.SetFragment` | src/uri/Uri.cpp:607-615 | only the fragment changes, encoded on request |
| `UriObject.Uri.ToString` | src/uri/Uri.cpp:668-722 | the text is the printed form `RoundTripIff` is about, and the object is left in canonical form |
| `UriObject.Uri.SplitPath` | src/uri/Uri.cpp:724-740 | the loop finds the non-empty segments |
| `UriObject.Uri.SplitQuery` | src/uri/Uri.cpp:742-778 | the loop builds the map `QueryRoundTrip` is about |
| `UriObject.Uri.RemoveDotSegments` | src/uri/Uri.cpp:381-416 | only the path changes, to the path the dot-segment theorems are about |
| `UriObject.Uri.AuthorityPart` | src/uri/Uri.cpp:780-789 | a new object with scheme and authority, and a path of one slash |
| `UriObject.Uri.ResolveUri` | src/uri/Uri.cpp:618-666 | a new object with the target `ResolveIff` is about, or the error; the base is left alone |
| `UriResolve.ResolveIff` | src/uri/Uri.cpp:618-666 | for every base that parsing can yield and every reference that parses: the target is that of section 5.2.2 of RFC 3986 if and only if a reference with a scheme or an authority has no dot segments, a base without a scheme does not meet an authority, nothing is left to encode, a path that is normalized keeps as many segments without the empty ones (behind a base path without a slash: as `SetBehindIff` says), and no fragment of the base is carried over |
| `UriTargets.ResolveYields` | src/uri/Uri.cpp:618-666 | what resolution yields for every base that parsing can yield and every reference that parses, whether it is the RFC's target or not: it fails only for an authority that meets a base without a scheme; otherwise authority, path, query and fragment are, by kind of reference, those of the base or of the reference, each encoded once more, so that decoding gives them back, a path with a dot twice |
| `UriTargets.RootTarget` | src/uri/Uri.cpp:632-639 | an absolute path: decoded once the query is the reference's, and the fragment is the base's followed by the reference's; decoded twice the path is what RFC 3986 leaves of the reference's without its empty segments, or once if it has no dot |
| `UriTargets.RelativeTarget` | src/uri/Uri.cpp:659-665 | a relative path: the same with the path joined to all but the last segment of the base's, and with the reference's fragment alone |
| `UriTargets.SameDocument` | src/uri/Uri.cpp:652-658 | no path: the base with the reference's fragment, and with its query if it has one |
| `UriTargets.ResolveFails` | src/uri/Uri.cpp:624-631 | a reference that does not parse is an error, and never a target |
| `UriResolve.NulEnds` | src/uri/Uri.cpp:464-504 | text behind a NUL is not read |
| `UriResolve.ResolveSlashlessIff` | src/uri/Uri.cpp:365-371 | a base path without a slash, which the program merges as if it had one behind it: the target is the RFC's if and only if the merged path is, as `SetBehindIff` says, and neither query nor fragment needs encoding |
| `UriResolve.SlashlessBaseIff` | src/uri/Uri.cpp:365-371 | and if no segment of the reference's path is empty: if and only if that path climbs out of its own first segment, nothing in target, query and fragment needs encoding, and the base path is a dot segment or at some point all segments up to it are gone |
| `UriResolve.SlashlessFails` | src/uri/Uri.cpp:365-371 | every reference that stays below its first segment misses the RFC's target there |
| `UriResolve.SlashlessExample` | src/uri/Uri.cpp:365-371 | one of them |
| `UriResolve.FragmentExample` | src/uri/Uri.cpp:620-623 | the empty reference keeps the base's fragment |
| `UriResolve.DotsBehindScheme` | src/uri/Uri.cpp:642-643 | every reference with a scheme and dot segments misses the RFC's target |
| `UriResolve.SchemeExample` | src/uri/Uri.cpp:642-643 | one of them |
| `UriResolve.MergeExample` | src/uri/Uri.cpp:365-371 | a base path that is merged differently |
| `UriResolve.RelativePathsFollowRfc` | src/uri/Uri.cpp:650-665 | against a base with a host, a relative path without '%' and '+' that, merged, has no dot or keeps as many segments without the empty ones gets the target of sections 5.2.2 and 5.2.3 of RFC 3986 |
| `UriResolve.ResolveAuthorityIff` | src/uri/Uri.cpp:627-630 | a reference that starts with two slashes resolves to the RFC's target if and only if the base has a scheme and the path no dot segments |
| `UriResolve.ResolveRootIff` | src/uri/Uri.cpp:632-639 | an absolute path resolves to the RFC's target if and only if nothing needs encoding, as many segments are kept without the empty ones unless there is no dot, and the base has no fragment |
| `UriResolve.ResolvePathIff` | src/uri/Uri.cpp:659-665 | a relative path resolves to the merged path as the RFC normalizes it if and only if nothing needs encoding and as many segments are kept without the empty ones or, when there is no dot, the merged path starts with a slash, for every base path |
| `UriResolve.ResolveNoPathIff` | src/uri/Uri.cpp:652-658 | a reference of query and fragment only resolves to the RFC's target if and only if neither needs encoding |
| `UriResolve.MergeIsRfcIff` | src/uri/Uri.cpp:365-378 | merging is that of section 5.2.3 of RFC 3986 if and only if the base path has a slash, or is empty behind an authority |
| `UriResolve.AuthorityBranchIsDead` | src/uri/Uri.cpp:645-648 | a reference that does not start with a slash and has no scheme never has a host |
| `TimeWheelRuns.RunAll` | src/internal/time/TimeWheel.cpp:6-81 | any run of a new wheel, with timeouts that add, renew and remove entries: it gets to the end if and only if no entry is added while its timer runs down and none is renewed that is not there; then it stands for what the same operations make of countdown timers, and has fired each entry as often as they do; otherwise the first operation that is not allowed does something else or is undefined |
| `TimeWheelRuns.DoOne` | src/internal/time/TimeWheel.cpp:18-81 | the same for one operation or one tick, from any intact wheel |
| `Timers.LeftAloneFiresOnTime` | src/internal/time/TimeWheel.cpp:64-81 | over any run of countdown timers that leaves the entry alone, of any length, it fires not before the tick its countdown names, then once if it is erased, and once more every n ticks if it is kept |
| `Timers.FiresAfterAllButOneTick` | src/internal/time/TimeWheel.cpp:18-81 | an entry that an operation adds or renews and that is then left alone fires on the (n-1)-th tick, for n >= 2 buckets, and every n ticks from then on if it is kept |
| `Timers.RenewedNeverFires` | src/internal/time/TimeWheel.cpp:42-81 | over any run in which each renewal comes before the countdown runs out, the entry never fires and stays in the wheel |
| `Timers.RemovedNeverFires` | src/internal/time/TimeWheel.cpp:29-40 | an entry that an operation removes and that is then left alone never fires, and is in the wheel no longer |
| `Timers.CallsInOrder` | src/internal/time/TimeWheel.cpp:70-80 | every entry that fires does what its timeout does, in the order of the walk |
| `Timers.CallNext` | src/internal/time/TimeWheel.cpp:70-80 | between two timeouts of a tick, what is left to do leads to where the whole tick does, up to the first operation that is not allowed |
| `TimeWheels.TimeWheel.constructor` | src/internal/time/TimeWheel.cpp:6-16 | an empty wheel |
| `TimeWheels.TimeWheel.AddToWheel` | src/internal/time/TimeWheel.cpp:18-27 | the entry's countdown starts full and no other countdown changes; the wheel stays one exactly when the entry was not in it or had its full countdown; a wheel without buckets takes nothing |
| `TimeWheels.AddedRing` | src/internal/time/TimeWheel.cpp:22-25 | inserting into the latest bucket is right exactly when the entry is in no other one |
| `TimeWheels.AddedSettled` | src/internal/time/TimeWheel.cpp:22-25 | the same during a tick, when entries of the bucket being walked wait to be erased |
| `TimeWheels.TimeWheel.Perform` | src/internal/time/TimeWheel.cpp:18-62 | an operation is defined and does to the wheel what it does to the timers if and only if it is allowed |
| `TimeWheels.TimeWheel.CanPerform` | src/internal/time/TimeWheel.cpp:18-62 | whoever uses the wheel can tell beforehand |
| `TimeWheelRuns.SecondAddBreaks` | src/internal/time/TimeWheel.cpp:18-27 | an entry added, a tick, and the same entry added: this is no wheel any more |
| `TimeWheels.TimeWheel.RemoveFromWheel` | src/internal/time/TimeWheel.cpp:29-40 | the entry's countdown is gone, if there was one; no other changes |
| `TimeWheels.TimeWheel.Renew` | src/internal/time/TimeWheel.cpp:42-62 | the countdown of an entry that is in the wheel is full again, moved or not; no other changes; for one that is not, erasing it is undefined unless its index is that of the latest bucket |
| `TimeWheels.TimeWheel.Tick` | src/internal/time/TimeWheel.cpp:64-81 | exactly the entries with one tick left fire, in any order; they go, or start again when they are kept; every other countdown is one lower; and what the timeouts did is done, a fired entry that adds itself again included, if and only if all of it is allowed; otherwise the first operation that is not does something else or is undefined |
| `TimeWheels.TimeWheel.TimeOutAll` | src/internal/time/TimeWheel.cpp:70-80 | the loop fires each entry of the walked bucket once, up to the first operation of a timeout that is not allowed |
| `TimeWheels.TimeWheel.TimeOut` | src/internal/time/TimeWheel.cpp:72-79 | one entry's timeout does what it does to the timers if and only if all of that is allowed, and then the entry is erased from the walked bucket or kept |
| `TimeWheels.RingTick` | src/internal/time/TimeWheel.cpp:66-69 | moving the hand lowers every countdown, and the bucket it comes to is what fires |
| `ThreadPoolRuns.RunPool` | src/support/ThreadPool.cpp:57-94 | a pool as an object with its shared queue, run through any interleaving: once the waiter has returned every task pushed before the call is done, each busy worker holds the very task that was pushed at its position, and exactly as many workers are lost as tasks threw |
| `ThreadPoolRuns.Pool.Perform` | src/support/ThreadPool.cpp:57-94 | every step of the object is the step of the protocol, and workers go on holding the tasks pushed at their positions |
| `ThreadPoolRuns.Pool.PopTask` | src/support/ThreadPool.cpp:61-62 | taking a task from the shared queue is the protocol's step, and only this worker's task variable changes |
| `ThreadPoolRuns.Pool.PushTask` | src/support/ThreadPool.cpp:92 | pushing a task onto the shared queue is the protocol's step |
| `ThreadPoolRuns.Pool.Turn` | src/support/ThreadPool.cpp:43-55 | in an undisturbed turn a worker waits exactly when it then finds nothing to run, and otherwise holds the oldest task not taken |
| `ThreadPoolRuns.StepKeepsHeld` | src/support/ThreadPool.cpp:57-76 | every step keeps each busy worker's task the one pushed at its position |
| `ThreadSafeQueues.ThreadSafeQueue.TryPop` | include/support/ThreadSafeQueue.hpp:33-41 | takes the front, or reports an empty queue and leaves it alone |
| `ThreadPool.WaitForDoneIsSafe` | src/support/ThreadPool.cpp:57-94 | under every interleaving of adders, workers and a waiter: once waiting has returned, every task pushed before the call is done |
| `ThreadPool.CallCoversPushes` | src/support/ThreadPool.cpp:57-94 | the same in terms of the steps of the run alone: what was pushed is the tasks of the push steps in order, and a call that has returned finds done all those of the steps before it |
| `ThreadPoolProgress.CanFinishIff` | src/support/ThreadPool.cpp:40-94 | under every interleaving, whatever the calls under way go on to push: the run can go on until every task is done and a waiter that has called has returned, if and only if fewer tasks threw than there are threads, or nothing is left to be done |
| `ThreadPoolProgress.ReturnSawZeros` | src/support/ThreadPool.cpp:84-85 | under every interleaving: a call that has returned read the task count as zero and then, with no other read in between, the active count as zero |
| `ThreadPoolProgress.NobodyIsHeldUp` | src/support/ThreadPool.cpp:43-94 | no thread is held up by another: tasks can be added and calls made at any time, and every worker that is not gone has a step to take |
| `ThreadPoolProgress.LostAreThrows` | src/support/ThreadPool.cpp:43-74 | under every interleaving: the workers that take no task any more are exactly as many as the tasks that threw; a worker whose task ended normally goes on |
| `ThreadPoolProgress.NothingMoreIsDone` | src/support/ThreadPool.cpp:43-74 | once every worker is lost, no run takes or ends a task any more |
| `ThreadPool.EveryTaskOnce` | src/support/ThreadPool.cpp:57-94 | under every interleaving: tasks are taken in push order, no task is held by two workers, each taken task is held or done, and no counter is ever negative |
| `ThreadPool.ZeroIff` | src/support/ThreadPool.cpp:78-94 | under every interleaving: both counters are zero exactly when no call is between count and push, the queue is empty and no worker holds a task |
| `ThreadPool.StepKeepsCounters` | src/support/ThreadPool.cpp:64-67 | every step keeps `taskCount` equal to the calls under way, the queue and the tasks not yet counted down, and the active count equal to the workers between its two changes |
| `ThreadPool.StepKeepsPlaced` | src/support/ThreadPool.cpp:57-76 | every step keeps each taken task in one place, done or with one worker |
| `ThreadPool.NothingCounted` | src/support/ThreadPool.cpp:84 | `taskCount` read as zero means every task pushed so far is running or done |
| `ThreadPool.NothingActive` | src/support/ThreadPool.cpp:84 | an active count read as zero then means they are done |
| `RunInLoopRuns.RunHandler` | src/internal/handlers/RunInLoopHandler.cpp:26-49 | a handler as an object, run through any interleaving of the threads: each functor pushed is run, in the batch, or pending, once and in push order; an unread one that is pending wakes the loop, and so does any between dispatches if no post was split |
| `RunInLoopRuns.RunInLoopHandler.Perform` | src/internal/handlers/RunInLoopHandler.cpp:26-49 | every step of the object is the step of the protocol |
| `RunInLoopRuns.RunInLoopHandler.AddPendingFunction` | src/internal/handlers/RunInLoopHandler.cpp:44-49 | a post of the loop thread is the protocol's write and push: one more wake-up, and the functor at the end of what is pending |
| `RunInLoopRuns.RunInLoopHandler.HandleIn` | src/internal/handlers/RunInLoopHandler.cpp:26-42 | one dispatch is the protocol's read, take, the posts and the end of each functor, and the end of the batch: it runs exactly what was pending, in order, and nothing posted meanwhile; the loop is woken again as often as something was posted |
| `RunInLoop.RunInPushOrder` | src/internal/handlers/RunInLoopHandler.cpp:26-49 | under every interleaving: what ran, the rest of the batch and what is pending are together the pushes in order, and the batch holds nothing pushed after it was taken |
| `RunInLoop.UnreadPendingWakes` | src/internal/handlers/RunInLoopHandler.cpp:26-49 | under every interleaving: a pending functor whose write came after the last read keeps the counter positive |
| `RunInLoop.WholePostsAlwaysWake` | src/internal/handlers/RunInLoopHandler.cpp:26-49 | as long as the counter is never read between a write and its push, something pending between dispatches means the loop is woken |
| `RunInLoop.LoopPostsAlwaysWake` | src/internal/handlers/RunInLoopHandler.cpp:26-49 | in particular when only the loop thread posts |
| `RunInLoop.SplitPostCanBeStuck` | src/internal/handlers/RunInLoopHandler.cpp:28-48 | whenever the counter can be read between a write and its push, the run can go on to a state where that functor is pending and nothing wakes the loop |
| `RunInLoop.WakeUpCanBeLost` | src/internal/handlers/RunInLoopHandler.cpp:28-48 | from the start: a functor posted to an idle loop can end up pending with nothing to wake the loop |
| `RunInLoopProgress.CanRunAllIff` | src/internal/handlers/RunInLoopHandler.cpp:26-49 | under every interleaving: the loop can by itself get to where everything pushed has run if and only if nothing is pending, the counter was just read, or it is positive |
| `RunInLoopProgress.WholePostsCanRun` | src/internal/handlers/RunInLoopHandler.cpp:26-49 | so as long as no post is split, everything pushed can run without another post |
| `RunInLoopProgress.StaysAsleep` | src/internal/handlers/RunInLoopHandler.cpp:26-42 | and otherwise what is pending stays pending, whatever the loop does by itself |
| `RunInLoopProgress.PostsAreNotHeldUp` | src/internal/handlers/RunInLoopHandler.cpp:44-49 | other threads can always go on with their posts, and the loop can post whenever it is not between read and take |
| `UriSyntax.From` | src/uri/Uri.cpp:229-238 | what precedes the first delimiter and what follows are together the text, and what follows starts with a delimiter |
| `UriSyntax.BackOverDigits` | src/uri/Uri.cpp:244-247 | the scan stops at the last character that is not a digit, or at the first character |
| `UriSyntax.HostPart` | src/uri/Uri.cpp:249-265 | a prefix of the authority, a proper one when a port is split off |
| `UriSyntax.UserSpan` | src/uri/Uri.cpp:268-271 | the longest prefix of user-information characters |
| `UriSyntax.Lower` | src/uri/Uri.cpp:418-430 | the result has no capital letter, and differs from the text only in that capital letters are replaced by the same small ones |
| `UriParser.FindMark` | src/uri/Uri.cpp:182-192 | the position of the first colon or slash |
| `UriParser.CheckScheme` | src/uri/Uri.cpp:194-215 | a scheme is accepted exactly when it starts with a letter and has only scheme characters |
| `UriParser.ParseAfterScheme` | src/uri/Uri.cpp:217-280 | the part from the authority on is parsed as specified, from any position |
| `UriParser.ParseAfterAuthority` | src/uri/Uri.cpp:282-297 | the part from the path on is parsed as specified, from any position |
| `UriParser.ParseAfterPath` | src/uri/Uri.cpp:299-335 | the part from the query on is parsed as specified, from any position |
| `UriObject.FindFirst` | src/uri/Uri.cpp:750-751 | the first occurrence at or after a position, or none |
| `UriObject.FindEnd` | src/uri/Uri.cpp:750-757 | the end of a piece: the next '&', or the next ';' when no '&' is ahead, or none |
| `UriObject.PutPiece` | src/uri/Uri.cpp:759-774 | a piece without '=' changes nothing; otherwise the text before the first '=' names the value behind it |
| `UriObject.CollectPieces` | src/uri/Uri.cpp:747-775 | the loop puts all pieces into the map in order |
| `UriObject.TakePiece` | src/uri/Uri.cpp:750-775 | one round puts one piece into the map and leaves the rest to be split |
| `UriObject.StackOf` | src/uri/Uri.cpp:388-398 | the loop leaves the stack the theorems are about |
| `UriObject.JoinOf` | src/uri/Uri.cpp:404-409 | the loop joins the segments with single slashes |
| `UriObject.Uri.ResolveRootPath` | src/uri/Uri.cpp:633-639 | a new object with the target for an absolute path; base and reference are left alone |
| `UriObject.Uri.ResolveRelative` | src/uri/Uri.cpp:651-665 | a new object with the target for a relative path or none; base and reference are left alone |
| `UriObject.Uri.AuthorityText` | src/uri/Uri.cpp:691-699 | user information, host and port as printed |
| `ByteArrays.ByteArray.SkipAll` | src/internal/socket/SocketIO.cpp:47-50 | the read index goes to the write node, whose payload is emptied |
| `ByteArrays.ByteArray.SkipSome` | src/internal/socket/SocketIO.cpp:54-60 | the step the division computes, flagged as undefined when it leaves the list of nodes |
| `ByteArrays.ByteArray.Account` | src/internal/socket/SocketIO.cpp:95-104 | given room, the result is a queue exactly when the write node is the last one |
| `ByteArrays.ByteArray.ChargeAll` | src/internal/socket/SocketIO.cpp:98-104 | the loop leaves the write index on the last node and changes no node but in its end offset; a last node behind full ones is charged with the whole size |
| `SocketIO.CollectEntries` | src/internal/socket/SocketIO.cpp:28-36 | the loop makes one entry per node with unread bytes, each inside its node |
| `SocketIO.Scattering` | src/internal/socket/SocketIO.cpp:79-84 | the loop makes one entry per node from the write node on, each exactly the memory behind the payload |
| `SocketIO.GatherAll` | src/internal/socket/SocketIO.cpp:131-143 | the nested loops collect the contents of all arrays in order |
| `SocketIO.CountNodes` | src/internal/socket/SocketIO.cpp:119-126 | the allocated entries are the nodes of all arrays |
| `SequentialAdjust.ConsumeAt` | src/internal/socket/SocketIO.cpp:156-176 | only this array changes, rightly exactly in the exact cases, and its counter in any case |
| `CowLinks.CallbackIsSeen` | include/internal/buffer/CowLink.hpp:195-207 | a copy that shares a node sees what the callback made of it |
| `CowLinks.RunCallback` | include/internal/buffer/CowLink.hpp:202-204 | each cell gets the callback once for each of its slots among the moved ones |
| `CowLinks.CowLink.AppendNode` | include/internal/buffer/CowLink.hpp:220-221 | one blank cell of the link's own at the end |
| `CowLinks.WriteAndStep` | include/internal/buffer/CowLink.hpp:132-138 | one write and one step: one value of this link changes, and the next node is its own |
| `RunInLoopRuns.RunInLoopHandler.RunFunctor` | src/internal/handlers/RunInLoopHandler.cpp:40-41 | running a functor posts what it posts, in order, and records it once, by steps of the protocol |
| `ThreadPool.DiscountedStays` | src/support/ThreadPool.cpp:57-76 | a task out of the count never gets back into it |
| `UriPath.NormalIsRfc` | src/uri/Uri.cpp:388-413 | the normal form of a path is the RFC's removal applied to the path without its empty segments |

## Left out

- CowLinks.CowLink.ReplaceNode: copies the element faithfully; the copy constructor of `BufferNode` resets both offsets (src/internal/buffer/BufferNode.cpp:13-17), so sharing a non-empty `ByteArray` by copy is not modelled.
- CowLinks.CowLink.MoveToTail: the rotation is completed before the callback runs on the moved nodes; the code does both node by node.
- ByteArrays.ByteArray.MoveToTail: is written with sequence slices; the loops of the rotation are in CowLinks.CowLink.Rotate.
- ByteArrays.ByteArray.WriteRaw: byte counts are unbounded; 64-bit wrap-around of the counters is modelled only where a size is charged to nodes.
- ByteArrayRuns.RunAll: a socket delivers no more than the memory it is given takes; the run stops at the first operation that breaks the array.
- CowLinkRuns.RunAll: a write through an iterator held across a copy of its link is not part of a run; CowLinkRuns.SetAnyway says when such a write is seen by others.  Destroying links, which only lowers counts, and `moveToTail` are not part of a run either.
- TimeWheels.TimeWheel.Tick: timeouts leave the bucket being walked alone, which has the entries that wait to be erased and those with all ticks left: an entry erased from it or put into it would leave the code's iterator dangling or fire or not by the order of a hash set.  With a single bucket they add nothing.
- TimeWheels.TimeWheel.RemoveFromWheel: the entry's index is inside the wheel, as indexing the buckets demands.
- TimeWheelRuns.RunAll: a wheel without buckets, which has no timer and takes nothing, has no runs; TimeWheels.TimeWheel.AddToWheel and TimeWheels.TimeWheel.Renew cover it.
- UriResolve.ResolveIff: a query that is there but empty counts as none, as it does in the code.
- UriObject.Uri.AppendPath: an argument that is the object's own path is the value it had, as the code's copy makes it.
- UriParser.ParseFrom: character classes are those of the "C" locale, and text that cannot start a path, query or fragment is left unread as in the code.
- RunInLoop.RunInPushOrder: a functor that throws, which loses the rest of its batch, is not modelled.
- ThreadPool.WaitForDoneIsSafe: waiting with a time limit, the destructor, thread creation and the condition variable's timing are not modelled; an exception ends its worker, not the process.
- Float and double bytes, mutexes inside `ByteArray` and moving a `ByteArray`.
- The result of `SocketIO::write`, and system calls in general.
- `Uri::operator==` and `validate`.
- `waitPop` of the thread-safe queue.
- TCP connections, connectors, acceptors, epoll, signals, timers, DNS, HTTP, dispatching and logging: system calls, callback plumbing or finite tables.
