# Distributed File Storage System — a verified Dafny model of its core

This project models the sequential logic of a small distributed block store.
The coordinator is the **NameNode**. It keeps, for every file name, the
ordered list of `(dataNodeId, blockNumber)` pairs holding the file's content.
Three **DataNode** storage nodes each own 100 block ids and store one text per
block in use.

The model covers:

- **DataNode** (`data_node.dfy`, module `Storage`). The node is specified as
  functions on a `Store` value: a FIFO queue of free ids, a map from ids in use
  to their `Block` records, and the block files as a map from id to text. The
  class `DataNode` updates its fields in place and is proved to follow those
  functions. Since ids are never released, the reachable states are exactly
  "the first k ids are in use". From that invariant follow three facts: the
  free queue and the used map partition `{0..99}`, ids are handed out in
  ascending order, and no id is handed out twice.
- **DataNodeHandler.run** (`data_node_handler.dfy`, module `StorageProtocol`).
  The handler trims the line, splits it at the first space and matches the
  upper-cased verb. The replies are the decimal block id, the block text
  (`null` printed as "null"), "COMPLETE" and "ERROR: Invalid Command". A line on
  which the Java handler throws is modelled as no reply and no change. Such a
  handler never reaches its `closeConnection`, so the coordinator waits on
  `readLine` until the node's socket is reclaimed, possibly never: the model
  calls this a stall and stops there. A blank segment
  (empty or all white space) stalls an append this way. The
  coordinator's messages ("Alloc", "Read n", "Write n segment") are proved to
  reach the handler as the intended commands. The handler's trim drops the
  segment's trailing white space.
- **NameNode** (`name_node.dfy`, module `Coordinator`, plus `chunking.dfy` and
  `requests.dfy`):
  - the chunk formula and the segmenting loop of `append`, as written;
  - the round-robin placement loop, which retries a segment on the next node
    when a node answers "-1";
  - the splice of the new pairs into `fileToBlockMap`;
  - `read`, which fetches each block and joins the replies with single spaces;
  - the per-client session loop, which parses `.`, `shutdown`, `read f` and
    `append f content`.

  The coordinator talks to three `DataNode` objects through the handler's own
  parse-and-dispatch (`StorageProtocol.Run`), using the exact message texts.
  The socket is replaced by a direct call, and the reply is passed through a
  model of `BufferedReader.readLine`. A stalled append stops before its
  splice into `fileToBlockMap`, and the session that sent it goes no further.
- **Pair** (`pair.dfy`, module `Placement`): a datatype with its getters and
  its setters as field updates.
- `java_string.dfy` (module `JavaString`) gives the Java library behaviour the
  core relies on:
  - `trim`, `split(" ")` (trailing empty strings dropped), `split(" ", 2)` and
    `split(" ", 3)`, `String.join`;
  - `toUpperCase` and `equalsIgnoreCase` on ASCII;
  - `Integer.parseInt` and `String.valueOf(int)`, with their round trip;
  - 32-bit wrap-around.

The evident purpose of `append`'s segmenting is to cut the content into
`ceil(len / MB)` consecutive pieces of at most `MB` characters. Once the
content exceeds half a block, the code instead makes `MB / len + 1`
segments (`src/NameNode.java:157`). The model follows the code, and the
consequences are listed under Findings.

## Model

| member | source | states |
|---|---|---|
| Placement.GettersAfterConstruction | src/Pair.java:17-47 | getDataNodeId and getBlockNumber return what the constructor was given |
| Placement.Pair.SetDataNodeId | src/Pair.java:36-38 | after setDataNodeId(x) the id reads x and the block number is unchanged |
| Placement.Pair.SetBlockNumber | src/Pair.java:54-56 | after setBlockNumber(x) the block number reads x and the id is unchanged |
| Storage.FreshStoreInv | src/DataNode.java:41-56 | a fresh node has the free queue 0, 1, ..., 99 in ascending order, no block in use, and satisfies the node invariant |
| Storage.Partition | src/DataNode.java:20-22 | in every reachable state the free queue and the used ids are disjoint, cover 0..99 and have no duplicate in the queue, and their sizes add up to MAX_BLOCKS |
| Storage.AllocateNext | src/DataNode.java:129-153 | allocation returns -1 exactly on an empty queue and then changes nothing; otherwise it returns the head id, which equals the number of ids in use and was not in use; the id is now in use, reads back as "", the queue loses its head and the used keys gain the id |
| Storage.AllocatePreservesInv | src/DataNode.java:129-153 | allocation keeps the node invariant, with Block file names dataDirectory/blk_id.bin |
| Storage.WriteSpec | src/DataNode.java:191-209 | writeBlock succeeds exactly on ids in use, replaces the whole text (a read returns exactly the new text), leaves every other block, the queue and the used map unchanged, and keeps the invariant |
| Storage.ReplayPreservesInv | src/DataNode.java:129-209 | any sequence of allocate, read and write operations keeps the invariant |
| Storage.GrantedInOrder | src/DataNode.java:129-153 | across any sequence of operations the ids handed out are the consecutive ids after those already issued, so none is handed out twice |
| Storage.DataNode.constructor | src/DataNode.java:41-56 | the queue filled by the loop is 0..99 in order, the used map and the files are empty, the data directory is ./data_port |
| Storage.DataNode.AllocateBlock | src/DataNode.java:129-153 | the result and the new fields are those of the allocation function; -1 exactly when the queue was empty; otherwise the id was not in use and equals the number of ids in use |
| Storage.DataNode.ReadBlock | src/DataNode.java:161-182 | returns the stored text, and null exactly for an id out of range or not in use |
| Storage.DataNode.WriteBlock | src/DataNode.java:191-209 | returns true exactly for an id in use below MAX_BLOCKS; the new state is that of the write function; the queue and the used map are unchanged |
| Storage.DataNode.GetNumberOfEmptyBlocks | src/DataNode.java:225-227 | free and used ids add up to MAX_BLOCKS |
| Storage.DataNode.IsFull | src/DataNode.java:216-218 | isFull holds exactly when no block is free, which is when all 100 are in use |
| StorageProtocol.Run | src/DataNodeHandler.java:77-115 | the reply and the node's new state are those of the parse-and-dispatch function on the line |
| StorageProtocol.VerbIgnoresCase | src/DataNodeHandler.java:85-88 | two lines whose verbs agree ignoring case, with the same text after the first space, parse to the same command |
| StorageProtocol.UnknownVerbReply | src/DataNodeHandler.java:108-111 | any other verb replies "ERROR: Invalid Command" and leaves the node unchanged |
| StorageProtocol.AllocMessageParses | src/NameNode.java:173 | the message "Alloc" parses as the ALLOC command |
| StorageProtocol.AllocExchange | src/DataNodeHandler.java:89-93 | "Alloc" reaches the ALLOC branch of the switch |
| StorageProtocol.AllocReplyText | src/DataNodeHandler.java:89-93 | the ALLOC reply is never empty, is "-1" exactly on a full node, and otherwise parses back with Integer.parseInt to the id handed out |
| StorageProtocol.AllocReply | src/DataNodeHandler.java:89-93 | the node's answer to "Alloc" combines the two lemmas above, and its new state is the allocation's |
| StorageProtocol.ReadMessageParses | src/NameNode.java:211 | "Read " + n parses back to a read of block n for every int n |
| StorageProtocol.ReadReply | src/DataNodeHandler.java:94-99 | "Read n" replies with the block's text ("null" for a missing block) and changes nothing |
| StorageProtocol.WriteMessageParses | src/NameNode.java:179 | "Write " + n + " " + segment parses to a write of the segment without its trailing white space; an all-white-space segment leaves WRITE without data, which throws |
| StorageProtocol.WriteMessageRoundTrip | src/DataNodeHandler.java:100-107 | a non-empty segment that does not end in white space reaches the node intact, interior spaces included |
| StorageProtocol.WriteReply | src/DataNodeHandler.java:100-107 | the write message replies COMPLETE and stores the trimmed segment; a blank segment changes nothing and gets no reply |
| JavaString.ParseIntOfIntToString | src/NameNode.java:177 | Integer.parseInt reads back String.valueOf(n) for every int n |
| Chunking.BlockCountCases | src/NameNode.java:157 | blockCount is 2 exactly for MB/2 < len <= MB and 1 otherwise (1 for len > MB, where MB/len is 0) |
| Chunking.SplitIntoSegments | src/NameNode.java:158-163 | the segmenting loop collects exactly the as-written segments, or fails where substring throws |
| Chunking.SegmentsCases | src/NameNode.java:159-163 | one segment equal to the content when len*2 <= MB; [content, ""] when len == MB; a throwing substring for MB/2 < len < MB; only the first MB characters when len > MB |
| Chunking.SegmentsBounded | src/NameNode.java:157-163 | when segmenting succeeds there are one or two segments, each at most MB long |
| Chunking.AsWrittenLosesContent | src/NameNode.java:157-163 | for every length above MB/2 except MB, the append either throws or its segments do not concatenate to the content |
| Chunking.ChunksOf | src/NameNode.java:157-163 | the intended split: at least one piece, none longer than MB |
| Chunking.ChunksOfConcat | src/NameNode.java:157-163 | the intended pieces concatenate back to the content |
| Chunking.ChunksOfCount | src/NameNode.java:157-163 | the intended number of pieces is ceil(len / MB), and 1 for empty content |
| Chunking.ChunksOfFull | src/NameNode.java:157-163 | every intended piece but the last is exactly MB long |
| Chunking.ChunksAgreeOnSmallContent | src/NameNode.java:157-163 | up to half a block, the as-written and the intended split agree |
| Requests.SplitLimit3HasThree | src/NameNode.java:118-120 | a line with at least three space-separated tokens has a third piece under split(" ", 3) |
| Requests.ShutdownInAnyCase | src/NameNode.java:103-108 | "shutdown" in any case, between white space, is the shutdown request |
| Requests.ReadRequestOf | src/NameNode.java:112-117 | "read f" is a read of f, for a file name without spaces |
| Requests.AppendLineTokens | src/NameNode.java:112-120 | "append f content" splits into at least three tokens "append", f, ..., and split(" ", 3) keeps the whole content |
| Requests.AppendRequestOf | src/NameNode.java:118-121 | "append f content" appends the whole content, interior spaces included |
| Requests.AppendContentShorter | src/NameNode.java:120 | an append's content is a proper suffix of its line, so it is shorter |
| Coordinator.PortRoundTrip | src/NameNode.java:209 | read's port formula, applied to the id "D" + (sel%3 + 1) recorded at lines 170-171, gives back 65530 + sel%3 for every selector |
| Coordinator.FirstNodeId | src/NameNode.java:167-171 | selector 0 designates D1 |
| Coordinator.AllocRound | src/NameNode.java:173-177 | the node's answer to "Alloc", read as a line, is "-1" exactly on a full node, and then nothing changed; otherwise it parses to a block that was free and is now in use and empty, and the node only grew |
| Coordinator.AllocateGrows | src/DataNode.java:129-153 | allocation on a node with a free block hands out a new empty block, leaves every block in use readable as before and takes one free block |
| Coordinator.WriteStep | src/NameNode.java:179-182 | the write message to a freshly allocated block stores the trimmed segment there and changes nothing else; the node answers exactly when the segment is not blank |
| Coordinator.PlaceOne | src/NameNode.java:173-183 | a successful alloc-and-write round on one node: a new block, holding the trimmed segment, every earlier block intact, one free block fewer |
| Coordinator.PlacedStep | src/NameNode.java:176-183 | after a successful round the nodes only grew, the new pair is placed, reads back as the segment, and one free block went |
| Coordinator.ClusterGrowsTrans | src/NameNode.java:169-187 | growth of the nodes composes over rounds |
| Coordinator.TextsStable | src/NameNode.java:169-187 | while the nodes only grow, every placed block stays placed and reads back the same, so an append never disturbs earlier blocks |
| Coordinator.MapStable | src/NameNode.java:169-195 | while the nodes only grow, every file of the map stays placed, so a stalled append leaves the map valid |
| Coordinator.AppendPlaced | src/NameNode.java:178 | adding a new pair keeps the list placed; the earlier pairs read as before and the new one is read last |
| Coordinator.ProgressPlaced | src/NameNode.java:176-183 | a successful round advances blocksReceived by one and keeps the loop invariant: pairs placed and reading back as the first segments, one free block per pair, all pairs on D1 while D1 has room |
| Coordinator.ProgressSkipped | src/NameNode.java:184-186 | a "-1" round keeps the loop invariant at the next selector, one step closer to a node with a free block |
| Coordinator.StepsDecrease | src/NameNode.java:169-187 | with some block free, each "-1" brings the selector closer to a node with room, so the loop ends |
| Coordinator.SpliceAppended | src/NameNode.java:189-195 | splicing the loop's pairs after the file's list is an append: other files keep their lists and texts, the file reads as before followed by the new segments |
| Coordinator.ParsedAt | src/NameNode.java:97-123 | request k of a session is what line k parses to, one line at a time |
| Coordinator.KeptSessionMeans | src/NameNode.java:97-123 | the first n requests kept the session going exactly when each of them was ignored or a completed append |
| Coordinator.DemandEndsWithSession | src/NameNode.java:92-125 | the free blocks a session needs count only the requests up to the first one that ends it; later lines are never processed |
| Coordinator.SmallContentReadsBack | src/NameNode.java:156-219 | content up to half a block that does not end in white space is one segment, its write is answered, and it reads back exactly |
| Coordinator.BlockSizedContentStalls | src/NameNode.java:156-183 | content exactly one block long gets a second, empty segment, which is blank, so its write stalls and the session does not go on |
| Coordinator.ChunkedBlockReadsBack | src/NameNode.java:204-219 | with the intended split, content up to one block that does not end in white space is one piece, its write is answered, and it reads back exactly |
| JavaString.JoinConcat | src/NameNode.java:216 | String.join of two non-empty lists is the two joins with the separator between them |
| Coordinator.JoinTextConcat | src/NameNode.java:216 | the text of a longer list of replies is the two parts' texts with a space between |
| Coordinator.TwoAppends | src/NameNode.java:189-219 | two appends in a row extend the file's list by both lots of pairs; it reads as before followed by both appends' segments in order; other files keep their lists; a new file reads as the first text, a space and the second |
| Coordinator.TwoSmallAppends | src/NameNode.java:156-219 | appending two small contents that do not end in white space to a new file makes it read as the first, a space and the second |
| Coordinator.HelloWorld | src/NameNode.java:156-219 | appending "hello" and then "world" to a new file makes it read "hello world" |
| Coordinator.NameNode.constructor | src/NameNode.java:21-26 | the map is empty, the coordinator is running and the three nodes are fresh |
| Coordinator.NameNode.InitiateShutdown | src/NameNode.java:64-75 | running becomes false and the map is untouched |
| Coordinator.NameNode.SendMessage | src/NameNode.java:268-278 | the exchange ends with the handler's reply as readLine returns it, or stalls exactly when the handler threw; only the node on that port changes, as the handler says |
| Coordinator.NameNode.Read | src/NameNode.java:204-219 | the result is the texts of the file's blocks in list order, joined by single spaces ("" for an unknown file); nothing changes |
| Coordinator.NameNode.FetchAll | src/NameNode.java:208-214 | the loop collects each block's reply in placement-list order and changes nothing |
| Coordinator.NameNode.FetchBlock | src/NameNode.java:209-213 | one round of read's loop answers the block's text and changes nothing |
| Coordinator.NameNode.ReadStep | src/NameNode.java:209-213 | "Read n" to the node named by a placed pair answers the block's text |
| Coordinator.NameNode.AllocateOn | src/NameNode.java:172-174 | "Alloc" to a port: only that node changes, with the outcome stated by AllocRound |
| Coordinator.NameNode.WriteOn | src/NameNode.java:179-182 | "Write id segment" to a port stores the trimmed segment in that block and changes nothing else; the coordinator gets its answer exactly when the segment is not blank |
| Coordinator.NameNode.StoreSegment | src/NameNode.java:176-183 | after a block was handed out, the pair of the node id and the parsed block id is placed and reads back as the segment; the write is answered exactly when the segment is not blank |
| Coordinator.NameNode.TryPlace | src/NameNode.java:170-186 | one round: no pair exactly when the selected node was full, and then nothing changes; otherwise a pair for node "D" + (sel%3 + 1) that reads back as the segment, with one free block gone; the round stalls exactly when it placed a blank segment |
| Coordinator.NameNode.PlaceRound | src/NameNode.java:169-187 | one iteration either places the segment (blocksReceived + 1, same selector, stalled exactly when the segment is blank) or moves the selector on, with nothing changed and one step closer to a free node |
| Coordinator.NameNode.PlaceBlocks | src/NameNode.java:165-187 | the loop stalls exactly when some segment is blank; otherwise it ends with one pair per segment, in order, each placed and reading back as its segment, and while D1 has room every pair is on D1; earlier blocks are untouched either way |
| Coordinator.NameNode.AddBlocks | src/NameNode.java:189-195 | the file's list becomes the old list (empty if new) followed by the new pairs; no other file's list changes |
| Coordinator.NameNode.PlaceSegments | src/NameNode.java:165-195 | placing and splicing the segments is an append of them to the file; when the placement stalls the map is unchanged and earlier blocks are untouched |
| Coordinator.NameNode.Append | src/NameNode.java:156-196 | append completes exactly when the as-written segmenting does not throw and no segment is blank; if segmenting throws nothing changes; if a write stalls the map is unchanged; otherwise the file is extended by its segments |
| Coordinator.NameNode.AppendChunked | src/NameNode.java:156-196 | append with the intended split completes exactly when no piece is blank, and then extends the file by the intended pieces; otherwise the map is unchanged |
| Coordinator.NameNode.HandleRequest | src/NameNode.java:99-124 | shutdown replies "NameNode is shutting down." and stops the coordinator; read replies with the file's text and ends the session; a completed append extends the file and the session goes on; an append that throws or stalls leaves the map unchanged and ends the session without a reply; "." and other failures end the session; anything else changes nothing |
| Coordinator.NameNode.ServeNext | src/NameNode.java:98-123 | one turn of the loop: the session goes on exactly when the request was ignored or a completed append, and then the coordinator still runs, the free blocks still cover the rest of the session, and the append extended its file by its segments (an ignored request changes nothing); otherwise the map is unchanged, the reply is that of the request and the coordinator stops exactly on shutdown |
| Coordinator.NameNode.ServeRequests | src/NameNode.java:97-123 | the loop stops only at the end of the input or after the first request that ends the session; every earlier request was ignored or a completed append; if the last request ended the session, the reply is its reply and the coordinator stops exactly when it was shutdown; otherwise there is no reply and the coordinator still runs |
| Coordinator.NameNode.Serve | src/NameNode.java:92-125 | the same over the lines a client sends, each parsed as it is reached; a coordinator that is no longer running processes no line |

## Left out

- Sockets, connections and their failures are left out. This covers `NameNode.start`, `stop` and the per-handler `shutdown`, `sendResponse`, and `NameNodeHandlerClient`'s connection methods. It also covers `DataNode.start`/`stop` and the handler's `readCommand`/`closeConnection`. An exchange with a node is a direct call through the handler's parse-and-dispatch.
- Threads and locks are left out: the per-block read/write locks, the `synchronized` sections, the `volatile` flag, and the static `clientSocket` shared by all handlers. The model is sequential.
- The process boundary is left out: `DataNode.main`, the argument parsing and its `System.exit` codes, and the directory creation. `src/StartDataNodes.java`, `src/Client.java` and `src/Central.java` are not part of this model.
- File I/O is left out. Block files are a map from block id to text, and the swallowed `IOException`s are not modelled. A file missing on disk is a block id absent from that map.
- The debug helpers `printContents` and `mockRun` are left out, because they only print.
- The static `fileToBlockMap` is a field of the single modelled coordinator.
- Case conversion covers ASCII letters only. Java's `toUpperCase` is locale- and Unicode-aware.
- Line terminators are not modelled. A segment containing a line break would be cut by the node's `readLine`. An input stream ending (`readLine` returning null) is not modelled either: a session is a sequence of lines.
- The Java session reads one more line before it notices that `running` is false. The model does not consume that line.
- Coordinator.NameNode.Append, Coordinator.NameNode.AppendChunked, Coordinator.NameNode.PlaceSegments, Coordinator.NameNode.PlaceBlocks, Coordinator.NameNode.HandleRequest and Coordinator.NameNode.Serve require enough free blocks on the three nodes for the segments. Coordinator.NameNode.ServeNext, Coordinator.NameNode.ServeRequests and Coordinator.NameNode.Serve require enough for the append requests up to the first request that ends the session. When every node is full, the source's placement loop spins for ever.
- Coordinator.NameNode.Serve: does not state the combined effect of the appends before its last line, and neither does Coordinator.NameNode.ServeRequests. HandleRequest states each one's effect.
- Requests.AppendLineTokens, Requests.ReadRequestOf and Requests.AppendRequestOf are stated for file names without spaces and content that does not end in a space. A content that ends in spaces but has another character also parses as an append of the whole content, trailing spaces kept; the lemma does not cover that case. A content of spaces only does not parse as an append. The general parse is `ParseRequest` itself.
- A stall ends the model's session and its append. In the source, the node's handler thread dies without closing its connection, and the coordinator's handler thread waits on `readLine` until the connection is reclaimed; what happens after that is not modelled.
- Characters are Dafny characters. Java measures `length()` and `substring` in UTF-16 code units, so content with supplementary characters is cut at other places. Blocks go through `getBytes()` and `new String(...)` in the platform charset (`src/DataNode.java:181`, `src/DataNode.java:198`), which the model takes to round-trip every text. `Integer.parseInt` also accepts non-ASCII Unicode digits, while `ParseInt` accepts ASCII digits only.

## Findings

| source | as written | input that shows it | evidently intended | confidence | as-written member | corrected member |
|---|---|---|---|---|---|---|
| src/NameNode.java:157-163 | `blockCount = len*2 > MB ? MB/len + 1 : 1`, segment i is `substring(i*MB, min((i+1)*MB, len))` | content of MB + 1 characters: one segment of MB characters, the last character is lost; content of 3,000,000 characters: `substring(4194304, 3000000)` throws | ceil(len / MB) segments of MB characters, the last one shorter, concatenating to the content | not executed | Chunking.AsWrittenLosesContent | Chunking.ChunksOfConcat |
| src/NameNode.java:157-183 | content exactly MB long gets a second, empty segment; its message trims to "Write n", the node's handler throws before closing the connection, and the coordinator waits on `readLine` until the node's socket is reclaimed, possibly never; until then nothing is added to `fileToBlockMap`. Were the connection later reclaimed, the empty block would read back as null and the file as the content followed by " null" | content of MB characters: the append does not complete while the node's socket stays open | one block holding the content, which reads back exactly | not executed | Coordinator.BlockSizedContentStalls | Coordinator.ChunkedBlockReadsBack |

The session handler (`Coordinator.NameNode.HandleRequest`) calls the append as
written, because that is what the code does. `Coordinator.NameNode.AppendChunked`
is the append with the corrected split.
