/**
 * The coordinator (NameNode): the map from file names to their placement
 * lists, the append that cuts content into segments and places each on the
 * first storage node that still has a free block, the read that gathers the
 * blocks of a file and joins them with single spaces, and the per-client
 * session that dispatches on the request lines.
 *
 * The three storage nodes listen on ports 65530, 65531 and 65532 and are
 * known to the coordinator as D1, D2 and D3. Every exchange with a node goes
 * through the node's command handler (StorageProtocol.Run) with the exact
 * message text the coordinator builds; the connection itself is a direct call.
 */
module Coordinator {
  import opened JavaString
  import opened Placement
  import opened Requests
  import Storage
  import StorageProtocol
  import Chunking

  const BASE_PORT: int := 65530
  const NODE_COUNT: int := 3

  // ---------------------------------------------------------------------
  // Node ids and ports
  // ---------------------------------------------------------------------

  /** The port the placement loop connects to for a selector value. */
  function PortFor(selector: nat): int {
    BASE_PORT + selector % NODE_COUNT
  }

  /** The node id the placement loop records for a selector value: D1, D2 or D3. */
  function NodeIdFor(selector: nat): string {
    "D" + IntToString(selector % NODE_COUNT + 1)
  }

  /**
   * The port read connects to for a recorded node id: the number after the
   * first character, minus one, added to the base port in int arithmetic;
   * None where substring or Integer.parseInt throws.
   */
  function PortOfNodeId(id: string): Option<int> {
    if id == [] then None
    else
      match ParseInt(id[1..])
      case None => None
      case Some(k) => Some(Int32Wrap(BASE_PORT + (k - 1)))
  }

  /** The read side's port formula recovers the port the append side used, for every selector value. */
  lemma PortRoundTrip(selector: nat)
    ensures PortOfNodeId(NodeIdFor(selector)) == Some(PortFor(selector))
    ensures BASE_PORT <= PortFor(selector) < BASE_PORT + NODE_COUNT
  {
    var k := selector % NODE_COUNT + 1;
    assert NodeIdFor(selector)[1..] == IntToString(k);
    ParseIntOfIntToString(k);
  }

  /** Which of the three nodes (0, 1 or 2) a recorded node id designates, if any. */
  function NodeIndex(id: string): Option<int> {
    match PortOfNodeId(id)
    case None => None
    case Some(port) => if BASE_PORT <= port < BASE_PORT + NODE_COUNT then Some(port - BASE_PORT) else None
  }

  /** The states of D1, D2 and D3. */
  datatype Cluster = Cluster(n1: Storage.Store, n2: Storage.Store, n3: Storage.Store) {
    /** The state of the node with index i (0 for D1). */
    function At(i: int): Storage.Store
      requires 0 <= i < NODE_COUNT
    {
      if i == 0 then n1 else if i == 1 then n2 else n3
    }

    /** The cluster with the node of index i in state s and the others as they are. */
    function With(i: int, s: Storage.Store): (r: Cluster)
      requires 0 <= i < NODE_COUNT
      ensures r.At(i) == s
      ensures forall j :: 0 <= j < NODE_COUNT && j != i ==> r.At(j) == At(j)
    {
      if i == 0 then this.(n1 := s) else if i == 1 then this.(n2 := s) else this.(n3 := s)
    }
  }

  // ---------------------------------------------------------------------
  // What the coordinator reads back from the nodes
  // ---------------------------------------------------------------------

  /**
   * BufferedReader.readLine on a connection that the node's handler closed
   * after printing its reply without a line terminator: null when the reply
   * was empty, the reply otherwise.
   */
  function LineRead(text: string): Option<string> {
    if text == [] then None else Some(text)
  }

  /**
   * How an exchange with a node ends for the coordinator: with the line it
   * reads back, or not at all. A handler that throws does not reach its
   * closeConnection, so the coordinator's readLine waits until the node's
   * socket is reclaimed, possibly never; the model stops there.
   */
  datatype Exchange = Answered(line: Option<string>) | Stalled

  /** The exchange for the handler's reply (None when the handler threw). */
  function ExchangeOf(reply: Option<string>): Exchange {
    match reply
    case None => Stalled
    case Some(text) => Answered(LineRead(text))
  }

  /** What a read of a block holding the text a segment was written as yields. */
  function ReadBack(segment: string): Option<string> {
    LineRead(TrimEnd(segment))
  }

  /**
   * A segment that is empty or all white space: the handler's trim leaves
   * its write message without data, and the handler throws.
   */
  predicate Blank(segment: string) {
    TrimEnd(segment) == []
  }

  /** Segments whose write messages all reach the node. */
  predicate Deliverable(segments: seq<string>) {
    forall k :: 0 <= k < |segments| ==> !Blank(segments[k])
  }

  function ReadBacks(segments: seq<string>): (r: seq<Option<string>>)
    ensures |r| == |segments|
    ensures forall k :: 0 <= k < |segments| ==> r[k] == ReadBack(segments[k])
  {
    seq(|segments|, k requires 0 <= k < |segments| => ReadBack(segments[k]))
  }

  predicate Routable(pairs: seq<Pair>) {
    forall k :: 0 <= k < |pairs| ==> NodeIndex(pairs[k].dataNodeId).Some?
  }

  /** Every pair names one of the three nodes and a block in use there. */
  predicate AllPlaced(pairs: seq<Pair>, stores: Cluster)
  {
    Routable(pairs)
    && forall k :: 0 <= k < |pairs| ==> pairs[k].blockNumber in stores.At(NodeIndex(pairs[k].dataNodeId).value).used
  }

  /** A pair names one of the three nodes and a block in use there. */
  predicate PlacedPair(p: Pair, stores: Cluster)
  {
    NodeIndex(p.dataNodeId).Some? && p.blockNumber in stores.At(NodeIndex(p.dataNodeId).value).used
  }

  /** The reply read obtains for a pair: the node's answer to "Read <n>", as readLine returns it. */
  function Fetched(p: Pair, stores: Cluster): Option<string>
    requires NodeIndex(p.dataNodeId).Some?
  {
    LineRead(StringOf(Storage.Read(stores.At(NodeIndex(p.dataNodeId).value), p.blockNumber)))
  }

  function Texts(pairs: seq<Pair>, stores: Cluster): (r: seq<Option<string>>)
    requires Routable(pairs)
    ensures |r| == |pairs|
    ensures forall k :: 0 <= k < |pairs| ==> r[k] == Fetched(pairs[k], stores)
  {
    seq(|pairs|, k requires 0 <= k < |pairs| => Fetched(pairs[k], stores))
  }

  /** String.join(" ", parts), with a null part written as "null". */
  function JoinText(parts: seq<Option<string>>): string {
    Join(" ", seq(|parts|, k requires 0 <= k < |parts| => StringOf(parts[k])))
  }

  function TotalFree(stores: Cluster): int
  {
    |stores.At(0).available| + |stores.At(1).available| + |stores.At(2).available|
  }

  /** How many more "-1" answers the placement loop gets before it reaches a node with a free block. */
  function StepsToFree(stores: Cluster, selector: nat): nat
  {
    if stores.At(selector % NODE_COUNT).available != [] then 0
    else if stores.At((selector + 1) % NODE_COUNT).available != [] then 1
    else 2
  }

  /** Every placement list of the map is placed on the nodes. */
  predicate MapPlaced(m: map<string, seq<Pair>>, stores: Cluster)
  {
    forall f :: f in m ==> AllPlaced(m[f], stores)
  }

  /** A node only gained blocks, and every block in use before still reads the same. */
  predicate Grows(o: Storage.Store, n: Storage.Store) {
    o.used.Keys <= n.used.Keys
    && forall b :: b in o.used ==> Storage.Read(n, b) == Storage.Read(o, b)
  }

  predicate ClusterGrows(os: Cluster, ns: Cluster)
  {
    forall j :: 0 <= j < NODE_COUNT ==> Grows(os.At(j), ns.At(j))
  }

  // ---------------------------------------------------------------------
  // Lemmas about placement
  // ---------------------------------------------------------------------

  lemma ClusterGrowsTrans(a: Cluster, b: Cluster, c: Cluster)
    requires ClusterGrows(a, b) && ClusterGrows(b, c)
    ensures ClusterGrows(a, c)
  {
    forall j | 0 <= j < NODE_COUNT
      ensures Grows(a.At(j), c.At(j))
    {
      assert Grows(a.At(j), b.At(j)) && Grows(b.At(j), c.At(j));
    }
  }

  /**
   * While the nodes only grow, every placed block stays placed and reads
   * back the same: an append never disturbs the blocks of earlier appends.
   */
  lemma TextsStable(pairs: seq<Pair>, os: Cluster, ns: Cluster)
    requires AllPlaced(pairs, os) && ClusterGrows(os, ns)
    ensures AllPlaced(pairs, ns)
    ensures Texts(pairs, ns) == Texts(pairs, os)
  {
    forall k | 0 <= k < |pairs|
      ensures pairs[k].blockNumber in ns.At(NodeIndex(pairs[k].dataNodeId).value).used
      ensures Fetched(pairs[k], ns) == Fetched(pairs[k], os)
    {
      var j := NodeIndex(pairs[k].dataNodeId).value;
      assert Grows(os.At(j), ns.At(j));
    }
  }

  /** While the nodes only grow, every file of the map stays placed. */
  lemma MapStable(m: map<string, seq<Pair>>, os: Cluster, ns: Cluster)
    requires MapPlaced(m, os) && ClusterGrows(os, ns)
    ensures MapPlaced(m, ns)
  {
    forall f | f in m
      ensures AllPlaced(m[f], ns)
    {
      TextsStable(m[f], os, ns);
    }
  }

  lemma TextsConcat(p: seq<Pair>, q: seq<Pair>, stores: Cluster)
    requires Routable(p) && Routable(q)
    ensures Routable(p + q)
    ensures Texts(p + q, stores) == Texts(p, stores) + Texts(q, stores)
  {
    assert forall k :: 0 <= k < |p + q| ==> (p + q)[k] == if k < |p| then p[k] else q[k - |p|];
  }

  /**
   * One successful step of the placement loop on a node with a free block:
   * "Alloc" hands out a block that was not in use, "Write <id> <segment>"
   * leaves it holding the segment without its trailing white space (the
   * handler's trim, or the empty text allocation gave it when nothing is
   * left), and every other block reads as before.
   */
  lemma PlaceOne(dir: string, s: Storage.Store, segment: string)
    requires Storage.Inv(dir, s) && s.available != []
    ensures var (id, s1) := Storage.Allocate(dir, s);
      var s2 := StorageProtocol.Respond(dir, s1, StorageProtocol.WriteMessage(id, segment)).1;
      && 0 <= id < Storage.MAX_BLOCKS
      && id !in s.used && id in s2.used
      && Storage.Inv(dir, s2)
      && Grows(s, s2)
      && Storage.Read(s2, id) == Some(TrimEnd(segment))
      && |s2.available| == |s.available| - 1
  {
    Storage.AllocateNext(dir, s);
    Storage.AllocatePreservesInv(dir, s);
    Storage.Partition(dir, s);
    var (id, s1) := Storage.Allocate(dir, s);
    assert forall b :: b in s.used ==> Storage.Read(s1, b) == Storage.Read(s, b);
    WriteStep(dir, s1, id, segment);
  }

  /**
   * "Write <id> <segment>" on a freshly allocated block: only that block
   * changes, and it holds the trimmed segment; the handler answers exactly
   * when the segment is not blank (a blank one makes it throw, leaving the
   * block empty).
   */
  lemma WriteStep(dir: string, s1: Storage.Store, id: int, segment: string)
    requires Storage.Inv(dir, s1) && 0 <= id < Storage.MAX_BLOCKS && Storage.Read(s1, id) == Some("")
    ensures StorageProtocol.Respond(dir, s1, StorageProtocol.WriteMessage(id, segment)).0.Some? <==> !Blank(segment)
    ensures var s2 := StorageProtocol.Respond(dir, s1, StorageProtocol.WriteMessage(id, segment)).1;
      && Storage.Inv(dir, s2)
      && s2.used == s1.used && s2.available == s1.available
      && Storage.Read(s2, id) == Some(TrimEnd(segment))
      && forall b :: b != id ==> Storage.Read(s2, b) == Storage.Read(s1, b)
  {
    StorageProtocol.WriteReply(dir, s1, id, segment);
    Storage.WriteSpec(dir, s1, id, TrimEnd(segment));
  }

  /**
   * What an "Alloc" round may leave behind on one node, as the reply text
   * the coordinator reads: "-1" exactly when the node was full, and then
   * nothing changed; otherwise the decimal form of a block that was free and
   * is now in use and empty, the node having only grown by that block.
   */
  ghost predicate AllocOutcome(o: Storage.Store, n: Storage.Store, reply: string) {
    && (reply == "-1" <==> o.available == [])
    && (reply == "-1" ==> n == o)
    && (reply != "-1" ==>
          && ParseInt(reply).Some?
          && var id := ParseInt(reply).value;
          && 0 <= id < Storage.MAX_BLOCKS && id !in o.used
          && Storage.Read(n, id) == Some("")
          && Grows(o, n)
          && |n.available| == |o.available| - 1)
  }

  /** The handler's answer to "Alloc", read as a line, is such an outcome. */
  lemma AllocRound(dir: string, o: Storage.Store)
    requires Storage.Inv(dir, o)
    ensures var (reply, n) := StorageProtocol.AllocReplyOf(dir, o);
      && Storage.Inv(dir, n)
      && ExchangeOf(reply).Answered? && ExchangeOf(reply).line.Some?
      && AllocOutcome(o, n, ExchangeOf(reply).line.value)
  {
    StorageProtocol.AllocReplyText(dir, o);
    Storage.AllocatePreservesInv(dir, o);
    if o.available != [] {
      AllocateGrows(dir, o);
    }
  }

  /** On a node with a free block, allocation hands out a fresh empty block and disturbs no other. */
  lemma AllocateGrows(dir: string, o: Storage.Store)
    requires Storage.Inv(dir, o) && o.available != []
    ensures var (id, n) := Storage.Allocate(dir, o);
      && 0 <= id < Storage.MAX_BLOCKS && id !in o.used
      && Storage.Read(n, id) == Some("")
      && Grows(o, n)
      && |n.available| == |o.available| - 1
  {
    Storage.AllocateNext(dir, o);
    Storage.Partition(dir, o);
    var (id, n) := Storage.Allocate(dir, o);
    forall b | b in o.used
      ensures Storage.Read(n, b) == Storage.Read(o, b)
    {
      assert b != id;
    }
  }

  /**
   * One successful round of the placement loop, in terms of the node states
   * before the "Alloc", after it and after the "Write": the nodes only grew,
   * and the new pair is placed and reads back as the segment.
   */
  lemma PlacedStep(before: Cluster, mid: Cluster, after: Cluster, i: int, reply: string, p: Pair, segment: string)
    requires 0 <= i < NODE_COUNT
    requires mid == before.With(i, mid.At(i)) && after == mid.With(i, after.At(i))
    requires AllocOutcome(before.At(i), mid.At(i), reply) && reply != "-1" && ParseInt(reply) == Some(p.blockNumber)
    requires NodeIndex(p.dataNodeId) == Some(i)
    requires after.At(i).used == mid.At(i).used && after.At(i).available == mid.At(i).available
    requires forall b :: b != p.blockNumber ==> Storage.Read(after.At(i), b) == Storage.Read(mid.At(i), b)
    requires Storage.Read(after.At(i), p.blockNumber) == Some(TrimEnd(segment))
    ensures ClusterGrows(before, after)
    ensures PlacedPair(p, after) && Fetched(p, after) == ReadBack(segment)
    ensures TotalFree(after) == TotalFree(before) - 1
    ensures i == 0 ==> |after.At(0).available| == |before.At(0).available| - 1
  {
    assert Grows(before.At(i), after.At(i)) by {
      forall b | b in before.At(i).used
        ensures Storage.Read(after.At(i), b) == Storage.Read(before.At(i), b)
      {
        assert b != p.blockNumber;
      }
    }
    forall j | 0 <= j < NODE_COUNT
      ensures Grows(before.At(j), after.At(j))
    {
      if j != i {
        assert after.At(j) == before.At(j);
      }
    }
  }

  /** A "-1" round changes nothing, which is a way of only growing. */
  lemma ClusterGrowsRefl(c: Cluster)
    ensures ClusterGrows(c, c)
  {
    forall j | 0 <= j < NODE_COUNT
      ensures Grows(c.At(j), c.At(j))
    {
    }
  }

  /**
   * Adding a newly placed pair to a placed list while the nodes only grow:
   * the earlier pairs read as before and the new one is read last.
   */
  lemma AppendPlaced(previous: seq<Pair>, p: Pair, before: Cluster, after: Cluster)
    requires AllPlaced(previous, before) && ClusterGrows(before, after) && PlacedPair(p, after)
    ensures AllPlaced(previous + [p], after)
    ensures Texts(previous + [p], after) == Texts(previous, before) + [Fetched(p, after)]
  {
    TextsStable(previous, before, after);
    assert AllPlaced([p], after);
    TextsConcat(previous, [p], after);
  }

  lemma ReadBacksSnoc(segments: seq<string>, n: nat)
    requires n < |segments|
    ensures ReadBacks(segments[..n + 1]) == ReadBacks(segments[..n]) + [ReadBack(segments[n])]
  {
    assert segments[..n + 1] == segments[..n] + [segments[n]];
  }

  /** Selector 0 designates D1. */
  lemma FirstNodeId()
    ensures NodeIdFor(0) == "D1"
  {
    assert IntToString(1) == "1";
  }

  /**
   * Where the placement loop stands after n segments: the nodes only grew
   * since it started, the pairs so far are placed and read back as the first
   * n segments, each took one free block, and while D1 has room for every
   * segment the selector stays at 0 and every pair is on D1.
   */
  ghost predicate Progress(start: Cluster, stores: Cluster, segments: seq<string>,
                           n: nat, blockList: seq<Pair>, selector: nat)
  {
    && n <= |segments| && |blockList| == n
    && ClusterGrows(start, stores)
    && AllPlaced(blockList, stores)
    && Texts(blockList, stores) == ReadBacks(segments[..n])
    && TotalFree(stores) + n == TotalFree(start)
    && (|segments| <= |start.At(0).available| ==>
          && selector == 0 && |stores.At(0).available| + n == |start.At(0).available|
          && forall k :: 0 <= k < n ==> blockList[k].dataNodeId == "D1")
  }

  /**
   * What the placement loop knows about blankness after n segments: the
   * last one placed is blank when it stalled, and none so far is otherwise.
   */
  ghost predicate Screened(segments: seq<string>, n: nat, stalled: bool) {
    && n <= |segments|
    && if stalled then 0 < n && Blank(segments[n - 1])
       else forall k :: 0 <= k < n ==> !Blank(segments[k])
  }

  lemma ScreenedStep(segments: seq<string>, n: nat, received: nat, stalled: bool)
    requires Screened(segments, n, false) && n < |segments|
    requires (received == n && !stalled) || (received == n + 1 && (stalled <==> Blank(segments[n])))
    ensures Screened(segments, received, stalled)
  {
  }

  /** When the loop ends, it stalled exactly when some segment is blank. */
  lemma ScreenedEnd(segments: seq<string>, n: nat, stalled: bool)
    requires Screened(segments, n, stalled) && (stalled || n == |segments|)
    ensures stalled <==> !Deliverable(segments)
  {
  }

  /** A successful round keeps the loop's progress, one segment further. */
  lemma ProgressPlaced(start: Cluster, before: Cluster, after: Cluster,
                       segments: seq<string>, n: nat, blockList: seq<Pair>, selector: nat, p: Pair)
    requires Progress(start, before, segments, n, blockList, selector) && n < |segments|
    requires ClusterGrows(before, after) && p.dataNodeId == NodeIdFor(selector)
    requires PlacedPair(p, after) && Fetched(p, after) == ReadBack(segments[n])
    requires TotalFree(after) == TotalFree(before) - 1
    requires selector % NODE_COUNT == 0 ==> |after.At(0).available| == |before.At(0).available| - 1
    ensures Progress(start, after, segments, n + 1, blockList + [p], selector)
  {
    AppendPlaced(blockList, p, before, after);
    ClusterGrowsTrans(start, before, after);
    ReadBacksSnoc(segments, n);
    if |segments| <= |start.At(0).available| {
      FirstNodeId();
      var extended := blockList + [p];
      forall k | 0 <= k < n + 1
        ensures extended[k].dataNodeId == "D1"
      {
        if k < n {
          assert extended[k] == blockList[k];
        }
      }
    }
  }

  /**
   * A "-1" round keeps the loop's progress at the next selector value, which
   * is one step closer to a node with a free block. While D1 has room it
   * never answers "-1".
   */
  lemma ProgressSkipped(start: Cluster, stores: Cluster,
                        segments: seq<string>, n: nat, blockList: seq<Pair>, selector: nat)
    requires |segments| <= TotalFree(start)
    requires Progress(start, stores, segments, n, blockList, selector) && n < |segments|
    requires stores.At(selector % NODE_COUNT).available == []
    ensures Progress(start, stores, segments, n, blockList, selector + 1)
    ensures StepsToFree(stores, selector + 1) < StepsToFree(stores, selector)
  {
    StepsDecrease(stores, selector);
  }

  /** A "-1" answer leaves everything as it was and brings the selector one step closer to a free node. */
  lemma StepsDecrease(stores: Cluster, selector: nat)
    requires TotalFree(stores) > 0
    requires stores.At(selector % NODE_COUNT).available == []
    ensures StepsToFree(stores, selector + 1) < StepsToFree(stores, selector)
  {
  }

  /** The placement list of a file in a map, empty for a file never appended to. */
  function ListOf(m: map<string, seq<Pair>>, filename: string): seq<Pair> {
    if filename in m then m[filename] else []
  }

  lemma ListOfPlaced(m: map<string, seq<Pair>>, stores: Cluster, filename: string)
    requires MapPlaced(m, stores)
    ensures AllPlaced(ListOf(m, filename), stores)
  {
  }

  /**
   * What an append of the given segments to a file did, from map m0 and
   * nodes c0 to map m1 and nodes c1: the file is in the map and its list is
   * the old one followed by one new pair per segment; the file reads as
   * before followed by the segments' read-backs; every other file keeps its
   * list and reads as before; one free block went per segment; and when D1
   * had room for every segment, all the new pairs are on D1.
   */
  ghost predicate Appended(m0: map<string, seq<Pair>>, c0: Cluster, m1: map<string, seq<Pair>>, c1: Cluster,
                           filename: string, segments: seq<string>)
    requires MapPlaced(m0, c0) && MapPlaced(m1, c1)
  {
    ListOfPlaced(m0, c0, filename);
    ListOfPlaced(m1, c1, filename);
    var before := ListOf(m0, filename);
    var after := ListOf(m1, filename);
    && m1.Keys == m0.Keys + {filename}
    && (forall f :: f in m0 && f != filename ==> m1[f] == m0[f])
    && |after| == |before| + |segments| && after[..|before|] == before
    && Texts(after, c1) == Texts(before, c0) + ReadBacks(segments)
    && (forall f :: f in m0 && f != filename ==> Texts(m1[f], c1) == Texts(m0[f], c0))
    && TotalFree(c1) == TotalFree(c0) - |segments|
    && (|segments| <= |c0.At(0).available| ==>
          forall k :: |before| <= k < |after| ==> after[k].dataNodeId == "D1")
  }

  /** The placement loop's result spliced into the map is such an append. */
  lemma SpliceAppended(m0: map<string, seq<Pair>>, c0: Cluster, m1: map<string, seq<Pair>>, c1: Cluster,
                       filename: string, blockList: seq<Pair>, segments: seq<string>)
    requires MapPlaced(m0, c0)
    requires m1.Keys == m0.Keys + {filename}
    requires forall f :: f in m0 && f != filename ==> m1[f] == m0[f]
    requires ListOf(m1, filename) == ListOf(m0, filename) + blockList
    requires ClusterGrows(c0, c1) && AllPlaced(blockList, c1) && Texts(blockList, c1) == ReadBacks(segments)
    requires TotalFree(c1) == TotalFree(c0) - |segments|
    requires |segments| <= |c0.At(0).available| ==> forall k :: 0 <= k < |blockList| ==> blockList[k].dataNodeId == "D1"
    ensures MapPlaced(m1, c1) && Appended(m0, c0, m1, c1, filename, segments)
  {
    var before := ListOf(m0, filename);
    ListOfPlaced(m0, c0, filename);
    TextsStable(before, c0, c1);
    TextsConcat(before, blockList, c1);
    forall f | f in m1
      ensures AllPlaced(m1[f], c1)
    {
      if f == filename {
        assert m1[f] == before + blockList;
      } else {
        TextsStable(m0[f], c0, c1);
      }
    }
    forall f | f in m0 && f != filename
      ensures Texts(m1[f], c1) == Texts(m0[f], c0)
    {
      TextsStable(m0[f], c0, c1);
    }
    assert ListOf(m1, filename)[..|before|] == before;
    if |segments| <= |c0.At(0).available| {
      SuffixOnD1(before, blockList);
    }
  }

  lemma SuffixOnD1(before: seq<Pair>, blockList: seq<Pair>)
    requires forall k :: 0 <= k < |blockList| ==> blockList[k].dataNodeId == "D1"
    ensures forall k :: |before| <= k < |before + blockList| ==> (before + blockList)[k].dataNodeId == "D1"
  {
    forall k | |before| <= k < |before + blockList|
      ensures (before + blockList)[k].dataNodeId == "D1"
    {
      assert (before + blockList)[k] == blockList[k - |before|];
    }
  }

  /** The free blocks a request takes: one per segment of an append, none for any other request. */
  function RequestDemand(request: Request): nat {
    match request
    case AppendFile(_, content) =>
      if |content| <= INT_MAX && Chunking.Segments(content).Some? then |Chunking.Segments(content).value| else 0
    case _ => 0
  }

  /** The requests a client's lines parse to, in order. */
  function Parsed(lines: seq<string>): (requests: seq<Request>)
    ensures |requests| == |lines|
  {
    if lines == [] then [] else [ParseRequest(lines[0])] + Parsed(lines[1..])
  }

  /** Request k of a session is what line k parses to. */
  lemma {:induction false} ParsedAt(lines: seq<string>, k: nat)
    requires k < |lines|
    ensures Parsed(lines)[k] == ParseRequest(lines[k])
    decreases k
  {
    if k > 0 {
      ParsedAt(lines[1..], k - 1);
    }
  }

  /** Lines that fit in a Java string parse to appends whose content does too. */
  lemma ParsedContentsFit(lines: seq<string>)
    requires forall k :: 0 <= k < |lines| ==> |lines[k]| <= INT_MAX
    ensures forall k :: 0 <= k < |lines| ==> Parsed(lines)[k].AppendFile? ==> |Parsed(lines)[k].content| <= INT_MAX
  {
    forall k | 0 <= k < |lines|
      ensures Parsed(lines)[k].AppendFile? ==> |Parsed(lines)[k].content| <= INT_MAX
    {
      ParsedAt(lines, k);
      AppendContentShorter(lines[k]);
    }
  }

  /**
   * What a session needs in free blocks: the segment counts of its append
   * requests, up to and including the first request that ends the session.
   */
  function Demand(requests: seq<Request>): nat {
    DemandFrom(requests, 0)
  }

  /** The same count for the requests from index i on. */
  function DemandFrom(requests: seq<Request>, i: nat): nat
    decreases |requests| - i
  {
    if i >= |requests| then 0
    else RequestDemand(requests[i]) + (if Continues(requests[i]) then DemandFrom(requests, i + 1) else 0)
  }

  /** Requests after the one that ends the session need nothing: only the requests the session reaches count. */
  lemma DemandEndsWithSession(requests: seq<Request>, i: nat)
    requires i < |requests| && !Continues(requests[i])
    requires forall k :: 0 <= k < i ==> Continues(requests[k])
    ensures Demand(requests) == Demand(requests[..i + 1])
  {
    DemandUpTo(requests, i, 0);
  }

  lemma {:induction false} DemandUpTo(requests: seq<Request>, i: nat, j: nat)
    requires j <= i < |requests| && !Continues(requests[i])
    requires forall k :: j <= k < i ==> Continues(requests[k])
    ensures DemandFrom(requests, j) == DemandFrom(requests[..i + 1], j)
    decreases i - j
  {
    assert requests[..i + 1][j] == requests[j];
    if j < i {
      DemandUpTo(requests, i, j + 1);
    }
  }

  /** Whether the session goes on to the next line after this request. */
  predicate Continues(request: Request) {
    match request
    case Unrecognised => true
    case AppendFile(_, content) =>
      && |content| <= INT_MAX && Chunking.Segments(content).Some?
      && Deliverable(Chunking.Segments(content).value)
    case _ => false
  }

  /** The first n requests each let the session go on. */
  predicate KeptSession(requests: seq<Request>, n: nat)
    requires n <= |requests|
  {
    n == 0 || (KeptSession(requests, n - 1) && Continues(requests[n - 1]))
  }

  lemma {:induction false} KeptSessionMeans(requests: seq<Request>, n: nat)
    requires n <= |requests|
    ensures KeptSession(requests, n) <==> forall k :: 0 <= k < n ==> Continues(requests[k])
  {
    if n > 0 {
      KeptSessionMeans(requests, n - 1);
    }
  }

  /**
   * What the coordinator sends back for a request, given the placement map
   * and the nodes once it is handled: the shutdown message, the text of the
   * file read, or nothing.
   */
  function ReplyTo(request: Request, m: map<string, seq<Pair>>, stores: Cluster): seq<string>
    requires MapPlaced(m, stores)
  {
    match request
    case Shutdown => [SHUTDOWN_REPLY]
    case ReadFile(filename) =>
      ListOfPlaced(m, stores, filename);
      [JoinText(Texts(ListOf(m, filename), stores))]
    case _ => []
  }

  // ---------------------------------------------------------------------
  // End-to-end facts about what a new file reads back as
  // ---------------------------------------------------------------------

  /**
   * Content up to half a block that does not end in white space is one
   * segment, its write is answered, and it reads back exactly.
   */
  lemma SmallContentReadsBack(content: string)
    requires |content| * 2 <= Chunking.MB
    requires content != [] && !IsTrimmable(content[|content| - 1])
    ensures Chunking.Segments(content) == Some([content])
    ensures Deliverable([content])
    ensures JoinText(ReadBacks([content])) == content
  {
    Chunking.SegmentsCases(content);
    assert TrimEnd(content) == content;
    assert ReadBacks([content]) == [Some(content)];
  }

  /**
   * As written, content of exactly one block gets a second, empty segment.
   * Its write message trims to "Write <id>", the node's handler throws, and
   * the append waits on the node until its socket is reclaimed, possibly
   * never: the session does not go on, and the file's list has not received
   * the content's pairs.
   */
  lemma BlockSizedContentStalls(filename: string, content: string)
    requires |content| == Chunking.MB
    ensures Chunking.Segments(content) == Some([content, ""])
    ensures !Deliverable([content, ""])
    ensures !Continues(AppendFile(filename, content))
  {
    Chunking.SegmentsCases(content);
    assert Blank([content, ""][1]);
  }

  /**
   * With the intended split, content of up to one block that does not end
   * in white space is one piece, its write is answered, and it reads back
   * exactly.
   */
  lemma ChunkedBlockReadsBack(content: string)
    requires 0 < |content| <= Chunking.MB && !IsTrimmable(content[|content| - 1])
    ensures Chunking.ChunksOf(content) == [content]
    ensures Deliverable(Chunking.ChunksOf(content))
    ensures JoinText(ReadBacks(Chunking.ChunksOf(content))) == content
  {
    assert Chunking.ChunksOf(content) == [content];
    assert TrimEnd(content) == content;
    assert ReadBacks([content]) == [Some(content)];
  }

  lemma ReadBacksConcat(s1: seq<string>, s2: seq<string>)
    ensures ReadBacks(s1 + s2) == ReadBacks(s1) + ReadBacks(s2)
  {
    var r := ReadBacks(s1 + s2);
    forall k | 0 <= k < |r|
      ensures r[k] == (ReadBacks(s1) + ReadBacks(s2))[k]
    {
      if k >= |s1| {
        assert (s1 + s2)[k] == s2[k - |s1|];
      }
    }
  }

  /** A file's text is joined piece by piece: the text of a longer list is the two texts with a space between. */
  lemma JoinTextConcat(a: seq<Option<string>>, b: seq<Option<string>>)
    requires a != [] && b != []
    ensures JoinText(a + b) == JoinText(a) + " " + JoinText(b)
  {
    var sa := seq(|a|, k requires 0 <= k < |a| => StringOf(a[k]));
    var sb := seq(|b|, k requires 0 <= k < |b| => StringOf(b[k]));
    assert seq(|a + b|, k requires 0 <= k < |a + b| => StringOf((a + b)[k])) == sa + sb;
    JoinConcat(" ", sa, sb);
  }

  /** Texts extended twice in a row; from nothing, the joined text has the two parts' texts with a space between. */
  lemma TextsCompose(t0: seq<Option<string>>, t1: seq<Option<string>>, t2: seq<Option<string>>,
                     r1: seq<Option<string>>, r2: seq<Option<string>>)
    requires t1 == t0 + r1 && t2 == t1 + r2
    ensures t2 == t0 + (r1 + r2)
    ensures t0 == [] && r1 != [] && r2 != [] ==> JoinText(t2) == JoinText(r1) + " " + JoinText(r2)
  {
    if t0 == [] && r1 != [] && r2 != [] {
      assert t2 == r1 + r2;
      JoinTextConcat(r1, r2);
    }
  }

  /**
   * Two appends to a file in a row: the file's list grows by both lots of
   * pairs, it reads as before followed by the read-backs of both appends'
   * segments in order, and every other file keeps its list. For a new file,
   * its text is the first append's text, a space and the second's.
   */
  lemma TwoAppends(m0: map<string, seq<Pair>>, c0: Cluster, m1: map<string, seq<Pair>>, c1: Cluster,
                   m2: map<string, seq<Pair>>, c2: Cluster, filename: string, s1: seq<string>, s2: seq<string>)
    requires MapPlaced(m0, c0) && MapPlaced(m1, c1) && MapPlaced(m2, c2)
    requires Appended(m0, c0, m1, c1, filename, s1) && Appended(m1, c1, m2, c2, filename, s2)
    ensures m2.Keys == m0.Keys + {filename}
    ensures forall f :: f in m0 && f != filename ==> m2[f] == m0[f]
    ensures |ListOf(m2, filename)| == |ListOf(m0, filename)| + |s1| + |s2|
    ensures Texts(ListOf(m2, filename), c2) == Texts(ListOf(m0, filename), c0) + ReadBacks(s1 + s2)
    ensures filename !in m0 && s1 != [] && s2 != [] ==>
      JoinText(Texts(ListOf(m2, filename), c2)) == JoinText(ReadBacks(s1)) + " " + JoinText(ReadBacks(s2))
  {
    ListOfPlaced(m0, c0, filename);
    ListOfPlaced(m1, c1, filename);
    ListOfPlaced(m2, c2, filename);
    ReadBacksConcat(s1, s2);
    TextsCompose(Texts(ListOf(m0, filename), c0), Texts(ListOf(m1, filename), c1), Texts(ListOf(m2, filename), c2),
                 ReadBacks(s1), ReadBacks(s2));
  }

  /**
   * Two appends of small contents that do not end in white space to a new
   * file: it reads as the first content, a space and the second.
   */
  lemma TwoSmallAppends(m0: map<string, seq<Pair>>, c0: Cluster, m1: map<string, seq<Pair>>, c1: Cluster,
                        m2: map<string, seq<Pair>>, c2: Cluster, filename: string, a: string, b: string)
    requires MapPlaced(m0, c0) && MapPlaced(m1, c1) && MapPlaced(m2, c2) && filename !in m0
    requires |a| * 2 <= Chunking.MB && a != [] && !IsTrimmable(a[|a| - 1])
    requires |b| * 2 <= Chunking.MB && b != [] && !IsTrimmable(b[|b| - 1])
    requires Chunking.Segments(a).Some? && Chunking.Segments(b).Some?
    requires Appended(m0, c0, m1, c1, filename, Chunking.Segments(a).value)
    requires Appended(m1, c1, m2, c2, filename, Chunking.Segments(b).value)
    ensures JoinText(Texts(ListOf(m2, filename), c2)) == a + " " + b
  {
    SmallContentReadsBack(a);
    SmallContentReadsBack(b);
    TwoAppends(m0, c0, m1, c1, m2, c2, filename, [a], [b]);
  }

  /** Appending "hello" and then "world" to a new file makes it read "hello world". */
  lemma HelloWorld(m0: map<string, seq<Pair>>, c0: Cluster, m1: map<string, seq<Pair>>, c1: Cluster,
                   m2: map<string, seq<Pair>>, c2: Cluster, filename: string)
    requires MapPlaced(m0, c0) && MapPlaced(m1, c1) && MapPlaced(m2, c2) && filename !in m0
    requires Chunking.Segments("hello").Some? && Chunking.Segments("world").Some?
    requires Appended(m0, c0, m1, c1, filename, Chunking.Segments("hello").value)
    requires Appended(m1, c1, m2, c2, filename, Chunking.Segments("world").value)
    ensures JoinText(Texts(ListOf(m2, filename), c2)) == "hello world"
  {
    TwoSmallAppends(m0, c0, m1, c1, m2, c2, filename, "hello", "world");
    HelloWorldText();
  }

  /** Unfolding step for HelloWorld: the string literal equation, kept apart to keep that proof small. */
  lemma HelloWorldText()
    ensures "hello" + " " + "world" == "hello world"
  {
  }

  // ---------------------------------------------------------------------
  // The coordinator
  // ---------------------------------------------------------------------

  class NameNode {
    const d1: Storage.DataNode
    const d2: Storage.DataNode
    const d3: Storage.DataNode
    var fileToBlockMap: map<string, seq<Pair>>
    var running: bool

    /** The states of D1, D2 and D3, in that order. */
    function Stores(): Cluster
      reads d1, d2, d3
    {
      Cluster(d1.State(), d2.State(), d3.State())
    }

    /** The node listening on a port. */
    function NodeAt(port: int): Storage.DataNode
      requires BASE_PORT <= port < BASE_PORT + NODE_COUNT
    {
      if port == BASE_PORT then d1 else if port == BASE_PORT + 1 then d2 else d3
    }

    ghost predicate NodesValid()
      reads d1, d2, d3
    {
      && d1 != d2 && d1 != d3 && d2 != d3
      && d1.port == BASE_PORT && d2.port == BASE_PORT + 1 && d3.port == BASE_PORT + 2
      && d1.Valid() && d2.Valid() && d3.Valid()
    }

    ghost predicate Valid()
      reads this, d1, d2, d3
    {
      NodesValid() && MapPlaced(fileToBlockMap, Stores())
    }

    /** The placement list of a file, empty for a file never appended to. */
    function BlocksOf(filename: string): seq<Pair>
      reads this
    {
      ListOf(fileToBlockMap, filename)
    }

    /** A coordinator with three fresh storage nodes and no files. */
    constructor ()
      ensures Valid() && running
      ensures fileToBlockMap == map[]
      ensures Stores() == Cluster(Storage.FreshStore(), Storage.FreshStore(), Storage.FreshStore())
    {
      d1 := new Storage.DataNode(BASE_PORT);
      d2 := new Storage.DataNode(BASE_PORT + 1);
      d3 := new Storage.DataNode(BASE_PORT + 2);
      fileToBlockMap := map[];
      running := true;
    }

    /** initiateShutdown, without the sockets: the session loops stop. */
    method InitiateShutdown()
      modifies this
      ensures !running
      ensures fileToBlockMap == old(fileToBlockMap)
    {
      running := false;
    }

    /**
     * sendMessage to the node on a port: how the exchange ends for the
     * coordinator (the handler's reply as readLine returns it, or a stall
     * when the handler threw) and the node's new state.
     */
    method SendMessage(port: int, msg: string) returns (answer: Exchange)
      requires NodesValid() && BASE_PORT <= port < BASE_PORT + NODE_COUNT
      modifies d1, d2, d3
      ensures NodesValid()
      ensures var r := StorageProtocol.Respond(NodeAt(port).dataDirectory, old(Stores()).At(port - BASE_PORT), msg);
        answer == ExchangeOf(r.0) && Stores() == old(Stores()).With(port - BASE_PORT, r.1)
    {
      var node := NodeAt(port);
      var reply := StorageProtocol.Run(node, msg);
      answer := ExchangeOf(reply);
    }

    /**
     * read: looks up the file's placement list (empty for an unknown file),
     * fetches its blocks and joins the replies with single spaces.
     */
    method Read(filename: string) returns (fullContent: string)
      requires Valid()
      modifies d1, d2, d3
      ensures Valid()
      ensures Stores() == old(Stores())
      ensures fullContent == JoinText(Texts(BlocksOf(filename), Stores()))
    {
      var blockList := if filename in fileToBlockMap then fileToBlockMap[filename] else [];
      var contentSegments := FetchAll(blockList);
      fullContent := JoinText(contentSegments);
    }

    /** The loop of read: each block's reply, in placement-list order; nothing changes on the nodes. */
    method FetchAll(blockList: seq<Pair>) returns (contentSegments: seq<Option<string>>)
      requires NodesValid() && AllPlaced(blockList, Stores())
      modifies d1, d2, d3
      ensures NodesValid() && Stores() == old(Stores())
      ensures contentSegments == Texts(blockList, Stores())
    {
      ghost var stores := Stores();
      contentSegments := [];
      for k := 0 to |blockList|
        invariant Stores() == stores && NodesValid()
        invariant |contentSegments| == k
        invariant forall j :: 0 <= j < k ==> contentSegments[j] == Fetched(blockList[j], stores)
      {
        ghost var previous := contentSegments;
        var blockContent := FetchBlock(blockList[k]);
        contentSegments := contentSegments + [blockContent];
        forall j | 0 <= j < k + 1
          ensures contentSegments[j] == Fetched(blockList[j], stores)
        {
          if j < k {
            assert contentSegments[j] == previous[j];
          }
        }
      }
      assert contentSegments == Texts(blockList, stores);
    }

    /**
     * One round of read's loop: the port from the recorded node id, then
     * "Read <n>" to that node; the reply is the block's text and nothing changes.
     */
    method FetchBlock(block: Pair) returns (blockContent: Option<string>)
      requires NodesValid() && NodeIndex(block.dataNodeId).Some?
      requires block.blockNumber in Stores().At(NodeIndex(block.dataNodeId).value).used
      modifies d1, d2, d3
      ensures NodesValid() && Stores() == old(Stores())
      ensures blockContent == Fetched(block, Stores())
    {
      var port := PortOfNodeId(block.GetDataNodeId()).value;
      ReadStep(port, block);
      ghost var i := port - BASE_PORT;
      var answer := SendMessage(port, StorageProtocol.ReadMessage(block.GetBlockNumber()));
      blockContent := answer.line;
      assert Stores() == old(Stores()).With(i, old(Stores()).At(i));
    }

    /** "Read <n>" for a placed block answers the block's text and changes nothing. */
    lemma ReadStep(port: int, block: Pair)
      requires NodesValid() && PortOfNodeId(block.dataNodeId) == Some(port) && NodeIndex(block.dataNodeId).Some?
      requires block.blockNumber in Stores().At(NodeIndex(block.dataNodeId).value).used
      ensures BASE_PORT <= port < BASE_PORT + NODE_COUNT
      ensures var s := Stores().At(port - BASE_PORT);
        StorageProtocol.Respond(NodeAt(port).dataDirectory, s, StorageProtocol.ReadMessage(block.blockNumber))
        == (Some(StringOf(Storage.Read(s, block.blockNumber))), s)
    {
      assert NodeAt(port).Valid();
      StorageProtocol.ReadReply(NodeAt(port).dataDirectory, Stores().At(port - BASE_PORT), block.blockNumber);
    }

    /**
     * One round of the placement loop: "Alloc" to the node the selector
     * points at; on "-1" nothing changes (the caller moves the selector on);
     * otherwise the pair of that node's id and the block id, with the
     * segment written to that block. Only the selected node changes, losing
     * one free block. The round stalls when the write of a blank segment
     * gets no answer.
     */
    method TryPlace(selector: nat, segment: string) returns (placed: Option<Pair>, stalled: bool)
      requires NodesValid()
      modifies d1, d2, d3
      ensures NodesValid() && ClusterGrows(old(Stores()), Stores())
      ensures stalled <==> placed.Some? && Blank(segment)
      ensures placed.None? <==> old(Stores()).At(selector % NODE_COUNT).available == []
      ensures placed.None? ==> Stores() == old(Stores())
      ensures placed.Some? ==>
        var p := placed.value;
        && p.dataNodeId == NodeIdFor(selector)
        && PlacedPair(p, Stores()) && Fetched(p, Stores()) == ReadBack(segment)
        && TotalFree(Stores()) == old(TotalFree(Stores())) - 1
        && (selector % NODE_COUNT == 0 ==> |Stores().At(0).available| == old(|Stores().At(0).available|) - 1)
    {
      var port := PortFor(selector);
      var dataNodeId := NodeIdFor(selector);
      PortRoundTrip(selector);
      ghost var before := Stores();
      assert port - BASE_PORT == selector % NODE_COUNT;
      var blockIdStr := AllocateOn(port);
      if blockIdStr != "-1" {
        assert before.At(selector % NODE_COUNT).available != [];
        var pair, delivered := StoreSegment(port, dataNodeId, blockIdStr, segment, before);
        placed, stalled := Some(pair), !delivered;
      } else {
        assert before.At(selector % NODE_COUNT).available == [] && Stores() == before;
        placed, stalled := None, false;
        ClusterGrowsRefl(before);
      }
    }

    /**
     * The rest of a round after a node on a port handed out a block: the
     * segment is written there and the pair of the node's id and the block
     * id is the result, with whether the write got its answer.
     */
    method StoreSegment(port: int, dataNodeId: string, blockIdStr: string, segment: string, ghost before: Cluster)
      returns (placed: Pair, delivered: bool)
      requires NodesValid() && BASE_PORT <= port < BASE_PORT + NODE_COUNT
      requires NodeIndex(dataNodeId) == Some(port - BASE_PORT) && blockIdStr != "-1"
      requires Stores() == before.With(port - BASE_PORT, Stores().At(port - BASE_PORT))
      requires AllocOutcome(before.At(port - BASE_PORT), Stores().At(port - BASE_PORT), blockIdStr)
      modifies d1, d2, d3
      ensures NodesValid() && ClusterGrows(before, Stores())
      ensures placed.dataNodeId == dataNodeId && (delivered <==> !Blank(segment))
      ensures PlacedPair(placed, Stores()) && Fetched(placed, Stores()) == ReadBack(segment)
      ensures TotalFree(Stores()) == TotalFree(before) - 1
      ensures port == BASE_PORT ==> |Stores().At(0).available| == |before.At(0).available| - 1
    {
      var blockId := ParseInt(blockIdStr).value;
      ghost var mid := Stores();
      delivered := WriteOn(port, blockId, segment);
      placed := Pair(dataNodeId, blockId);
      PlacedStep(before, mid, Stores(), port - BASE_PORT, blockIdStr, placed, segment);
    }

    /**
     * "Alloc" to the node on a port, as the placement loop sends it: "-1"
     * exactly when that node is full, and then nothing changes; otherwise the
     * decimal form of a block that was free and is now in use and empty, and
     * only that node changed.
     */
    method AllocateOn(port: int) returns (blockIdStr: string)
      requires NodesValid() && BASE_PORT <= port < BASE_PORT + NODE_COUNT
      modifies d1, d2, d3
      ensures NodesValid()
      ensures Stores() == old(Stores()).With(port - BASE_PORT, Stores().At(port - BASE_PORT))
      ensures AllocOutcome(old(Stores()).At(port - BASE_PORT), Stores().At(port - BASE_PORT), blockIdStr)
    {
      assert NodeAt(port).Valid();
      StorageProtocol.AllocExchange(NodeAt(port).dataDirectory, Stores().At(port - BASE_PORT));
      AllocRound(NodeAt(port).dataDirectory, Stores().At(port - BASE_PORT));
      var answer := SendMessage(port, StorageProtocol.ALLOC_MESSAGE);
      blockIdStr := answer.line.value;
    }

    /**
     * "Write <id> <segment>" to the node on a port, for a block it has just
     * handed out: that block ends up holding the segment without its trailing
     * white space, and nothing else changes; the write is delivered (the
     * coordinator reads the handler's answer) exactly when the segment is not
     * blank, and otherwise the handler threw and the coordinator waits.
     */
    method WriteOn(port: int, blockId: int, segment: string) returns (delivered: bool)
      requires NodesValid() && BASE_PORT <= port < BASE_PORT + NODE_COUNT
      requires 0 <= blockId < Storage.MAX_BLOCKS && Storage.Read(Stores().At(port - BASE_PORT), blockId) == Some("")
      modifies d1, d2, d3
      ensures NodesValid()
      ensures delivered <==> !Blank(segment)
      ensures var o := old(Stores()).At(port - BASE_PORT);
        var n := Stores().At(port - BASE_PORT);
        && Stores() == old(Stores()).With(port - BASE_PORT, n)
        && n.used == o.used && n.available == o.available
        && Storage.Read(n, blockId) == Some(TrimEnd(segment))
        && forall b :: b != blockId ==> Storage.Read(n, b) == Storage.Read(o, b)
    {
      ghost var dir := NodeAt(port).dataDirectory;
      assert NodeAt(port).Valid();
      WriteStep(dir, Stores().At(port - BASE_PORT), blockId, segment);
      var message := StorageProtocol.WriteMessage(blockId, segment);
      var answer := SendMessage(port, message);
      delivered := answer.Answered?;
    }

    /**
     * The placement loop of append: each segment goes to the node the
     * selector points at, the selector moving on only when that node answers
     * "-1", so a segment is retried on the next node; the selector starts at
     * 0, so D1 is filled first. The loop stalls at the first blank segment,
     * whose write gets no answer. Otherwise the result pairs the segments, in
     * order, with blocks that now hold them. Blocks placed before are
     * untouched either way.
     */
    method PlaceBlocks(segments: seq<string>) returns (blockList: seq<Pair>, stalled: bool)
      requires NodesValid() && |segments| <= TotalFree(Stores())
      modifies d1, d2, d3
      ensures NodesValid() && ClusterGrows(old(Stores()), Stores())
      ensures stalled <==> !Deliverable(segments)
      ensures !stalled ==>
        && AllPlaced(blockList, Stores())
        && Texts(blockList, Stores()) == ReadBacks(segments)
        && TotalFree(Stores()) == old(TotalFree(Stores())) - |segments|
        && (|segments| <= |old(Stores()).At(0).available| ==>
              forall k :: 0 <= k < |blockList| ==> blockList[k].dataNodeId == "D1")
    {
      ghost var start := Stores();
      blockList := [];
      stalled := false;
      var blocksReceived := 0;
      var dataNodeSelector: nat := 0;
      while blocksReceived < |segments| && !stalled
        invariant NodesValid() && Progress(start, Stores(), segments, blocksReceived, blockList, dataNodeSelector)
        invariant Screened(segments, blocksReceived, stalled)
        decreases |segments| - blocksReceived, StepsToFree(Stores(), dataNodeSelector)
      {
        ghost var n := blocksReceived;
        blocksReceived, blockList, dataNodeSelector, stalled := PlaceRound(start, segments, blocksReceived, blockList, dataNodeSelector);
        ScreenedStep(segments, n, blocksReceived, stalled);
      }
      ScreenedEnd(segments, blocksReceived, stalled);
      if !stalled {
        assert segments[..blocksReceived] == segments;
      }
    }

    /**
     * One iteration of the placement loop: a pair appended and the next
     * segment on success, the selector moved on when the node was full; the
     * round stalls when the segment it placed is blank.
     */
    method PlaceRound(ghost start: Cluster, segments: seq<string>, blocksReceived: nat, blockList: seq<Pair>, dataNodeSelector: nat)
      returns (received: nat, placedList: seq<Pair>, selector: nat, stalled: bool)
      requires NodesValid() && Progress(start, Stores(), segments, blocksReceived, blockList, dataNodeSelector)
      requires blocksReceived < |segments| && |segments| <= TotalFree(start)
      modifies d1, d2, d3
      ensures NodesValid() && Progress(start, Stores(), segments, received, placedList, selector)
      ensures stalled <==> received == blocksReceived + 1 && Blank(segments[blocksReceived])
      ensures || (received == blocksReceived + 1 && selector == dataNodeSelector)
              || (&& received == blocksReceived && selector == dataNodeSelector + 1 && Stores() == old(Stores())
                  && StepsToFree(Stores(), selector) < StepsToFree(Stores(), dataNodeSelector))
    {
      ghost var before := Stores();
      var placed;
      placed, stalled := TryPlace(dataNodeSelector, segments[blocksReceived]);
      if placed.Some? {
        ProgressPlaced(start, before, Stores(), segments, blocksReceived, blockList, dataNodeSelector, placed.value);
        received, placedList, selector := blocksReceived + 1, blockList + [placed.value], dataNodeSelector;
      } else {
        ProgressSkipped(start, Stores(), segments, blocksReceived, blockList, dataNodeSelector);
        received, placedList, selector := blocksReceived, blockList, dataNodeSelector + 1;
      }
    }

    /**
     * The splice of append: the new pairs go after the file's existing ones
     * (a new file gets exactly them), and no other file's list changes.
     */
    method AddBlocks(filename: string, blockList: seq<Pair>)
      modifies this
      ensures running == old(running)
      ensures fileToBlockMap.Keys == old(fileToBlockMap).Keys + {filename}
      ensures forall f :: f in old(fileToBlockMap) && f != filename ==> fileToBlockMap[f] == old(fileToBlockMap)[f]
      ensures BlocksOf(filename) == old(BlocksOf(filename)) + blockList
    {
      if filename in fileToBlockMap {
        fileToBlockMap := fileToBlockMap[filename := fileToBlockMap[filename] + blockList];
      } else {
        fileToBlockMap := fileToBlockMap[filename := blockList];
      }
    }

    /**
     * Places the segments and splices the new pairs into the file's list,
     * given enough free blocks on the three nodes for all of them. When the
     * placement stalls the splice is never reached: the map is as before,
     * and the nodes only grew.
     */
    method PlaceSegments(filename: string, segments: seq<string>) returns (stalled: bool)
      requires Valid() && |segments| <= TotalFree(Stores())
      modifies this, d1, d2, d3
      ensures Valid() && running == old(running)
      ensures stalled <==> !Deliverable(segments)
      ensures stalled ==> fileToBlockMap == old(fileToBlockMap) && ClusterGrows(old(Stores()), Stores())
      ensures !stalled ==> Appended(old(fileToBlockMap), old(Stores()), fileToBlockMap, Stores(), filename, segments)
    {
      ghost var m0 := fileToBlockMap;
      ghost var c0 := Stores();
      var blockList;
      blockList, stalled := PlaceBlocks(segments);
      if stalled {
        MapStable(m0, c0, Stores());
        return;
      }
      AddBlocks(filename, blockList);
      SpliceAppended(m0, c0, fileToBlockMap, Stores(), filename, blockList, segments);
    }

    /**
     * append: the content is cut into segments as written (which throws for
     * contents strictly between half a block and a block, before anything is
     * allocated), then the segments are placed and spliced into the file's
     * list; a blank segment stalls the append before the splice. The caller
     * guarantees enough free blocks, since the placement loop spins for ever
     * when every node is full.
     */
    method Append(filename: string, content: string) returns (completed: bool)
      requires Valid() && |content| <= INT_MAX
      requires Chunking.Segments(content).Some? ==> |Chunking.Segments(content).value| <= TotalFree(Stores())
      modifies this, d1, d2, d3
      ensures Valid() && running == old(running)
      ensures completed <==> Chunking.Segments(content).Some? && Deliverable(Chunking.Segments(content).value)
      ensures Chunking.Segments(content).None? ==> fileToBlockMap == old(fileToBlockMap) && Stores() == old(Stores())
      ensures !completed ==> fileToBlockMap == old(fileToBlockMap) && ClusterGrows(old(Stores()), Stores())
      ensures completed ==>
        Appended(old(fileToBlockMap), old(Stores()), fileToBlockMap, Stores(), filename, Chunking.Segments(content).value)
    {
      var contentSegments := Chunking.SplitIntoSegments(content);
      if contentSegments.None? {
        ClusterGrowsRefl(Stores());
        return false;
      }
      var stalled := PlaceSegments(filename, contentSegments.value);
      completed := !stalled;
    }

    /** append with the evidently intended split: consecutive pieces of at most one block each. */
    method AppendChunked(filename: string, content: string) returns (completed: bool)
      requires Valid() && |Chunking.ChunksOf(content)| <= TotalFree(Stores())
      modifies this, d1, d2, d3
      ensures Valid() && running == old(running)
      ensures completed <==> Deliverable(Chunking.ChunksOf(content))
      ensures !completed ==> fileToBlockMap == old(fileToBlockMap) && ClusterGrows(old(Stores()), Stores())
      ensures completed ==>
        Appended(old(fileToBlockMap), old(Stores()), fileToBlockMap, Stores(), filename, Chunking.ChunksOf(content))
    {
      var contentSegments := Chunking.ChunksOf(content);
      var stalled := PlaceSegments(filename, contentSegments);
      completed := !stalled;
    }

    /**
     * One request of NameNodeHandler.run: goOn is whether the session reads
     * another line. A shutdown is answered with the shutdown message and
     * stops the coordinator, a read is answered with the file's text, a
     * completed append is the append of the request's segments, an append
     * that throws or stalls leaves the map as it was and ends the session
     * without a reply, and any other request changes nothing.
     */
    method HandleRequest(request: Request) returns (reply: Option<string>, goOn: bool)
      requires Valid() && RequestDemand(request) <= TotalFree(Stores())
      requires request.AppendFile? ==> |request.content| <= INT_MAX
      modifies this, d1, d2, d3
      ensures Valid()
      ensures goOn <==> Continues(request)
      ensures request == Shutdown ==> reply == Some(SHUTDOWN_REPLY) && !running
      ensures request.ReadFile? ==> reply == Some(JoinText(Texts(BlocksOf(request.filename), Stores())))
      ensures request != Shutdown ==> running == old(running)
      ensures !(request == Shutdown || request.ReadFile?) ==> reply == None
      ensures (if reply.Some? then [reply.value] else []) == ReplyTo(request, fileToBlockMap, Stores())
      ensures !request.AppendFile? ==> fileToBlockMap == old(fileToBlockMap) && Stores() == old(Stores())
      ensures !goOn ==> fileToBlockMap == old(fileToBlockMap)
      ensures goOn ==> TotalFree(Stores()) == old(TotalFree(Stores())) - RequestDemand(request)
      ensures goOn && request.AppendFile? ==>
        Appended(old(fileToBlockMap), old(Stores()), fileToBlockMap, Stores(),
                 request.filename, Chunking.Segments(request.content).value)
    {
      reply := None;
      goOn := false;
      match request
      case EndSession =>
      case Shutdown =>
        reply := Some(SHUTDOWN_REPLY);
        InitiateShutdown();
      case Broken =>
      case ReadFile(filename) =>
        var fullContent := Read(filename);
        reply := Some(fullContent);
      case AppendFile(filename, content) =>
        goOn := Append(filename, content);
      case Unrecognised =>
        goOn := true;
    }

    /**
     * One turn of the session loop: request i is handled, and the session
     * either keeps what the loop needs for the next turn or ends with the
     * reply to request i.
     */
    method ServeNext(requests: seq<Request>, i: nat) returns (reply: Option<string>, goOn: bool)
      requires Valid() && running && i < |requests|
      requires requests[i].AppendFile? ==> |requests[i].content| <= INT_MAX
      requires DemandFrom(requests, i) <= TotalFree(Stores())
      requires KeptSession(requests, i)
      modifies this, d1, d2, d3
      ensures Valid()
      ensures goOn <==> Continues(requests[i])
      ensures goOn ==> running && DemandFrom(requests, i + 1) <= TotalFree(Stores()) && KeptSession(requests, i + 1)
      ensures goOn && requests[i].AppendFile? ==>
        Appended(old(fileToBlockMap), old(Stores()), fileToBlockMap, Stores(),
                 requests[i].filename, Chunking.Segments(requests[i].content).value)
      ensures goOn && !requests[i].AppendFile? ==> fileToBlockMap == old(fileToBlockMap) && Stores() == old(Stores())
      ensures !goOn ==> fileToBlockMap == old(fileToBlockMap)
      ensures !goOn ==>
        && (if reply.Some? then [reply.value] else []) == ReplyTo(requests[i], fileToBlockMap, Stores())
        && running == !requests[i].Shutdown?
    {
      reply, goOn := HandleRequest(requests[i]);
    }

    /**
     * The session loop of NameNodeHandler.run over the requests a client's
     * lines parse to: it stops at the end of the input, when the coordinator
     * is no longer running, and after the first request that ends the
     * session. Every request before the last one processed was ignored or a
     * completed append.
     */
    method ServeRequests(requests: seq<Request>) returns (replies: seq<string>, consumed: nat)
      requires Valid() && running
      requires forall k :: 0 <= k < |requests| ==> requests[k].AppendFile? ==> |requests[k].content| <= INT_MAX
      requires Demand(requests) <= TotalFree(Stores())
      modifies this, d1, d2, d3
      ensures Valid() && consumed <= |requests|
      ensures consumed > 0 ==> KeptSession(requests, consumed - 1)
      ensures consumed < |requests| ==> consumed > 0 && !Continues(requests[consumed - 1])
      ensures consumed == 0 || Continues(requests[consumed - 1]) ==> replies == [] && running
      ensures consumed > 0 && !Continues(requests[consumed - 1]) ==>
        && replies == ReplyTo(requests[consumed - 1], fileToBlockMap, Stores())
        && running == !requests[consumed - 1].Shutdown?
    {
      replies := [];
      consumed := 0;
      while consumed < |requests| && running
        invariant Valid() && consumed <= |requests| && running && replies == []
        invariant DemandFrom(requests, consumed) <= TotalFree(Stores())
        invariant KeptSession(requests, consumed)
        invariant consumed > 0 ==> KeptSession(requests, consumed - 1) && Continues(requests[consumed - 1])
        decreases |requests| - consumed
      {
        var reply, goOn := ServeNext(requests, consumed);
        consumed := consumed + 1;
        if !goOn {
          replies := if reply.Some? then [reply.value] else [];
          break;
        }
      }
    }

    /**
     * NameNodeHandler.run over the lines a client sends: each line is parsed
     * as it is reached and handled as above. Parsing is a pure function of
     * the line, so parsing the lines first changes nothing.
     */
    method Serve(lines: seq<string>) returns (replies: seq<string>, consumed: nat)
      requires Valid()
      requires forall k :: 0 <= k < |lines| ==> |lines[k]| <= INT_MAX
      requires Demand(Parsed(lines)) <= TotalFree(Stores())
      modifies this, d1, d2, d3
      ensures Valid() && consumed <= |lines|
      ensures !old(running) ==> consumed == 0 && replies == [] && !running
      ensures consumed > 0 ==> KeptSession(Parsed(lines), consumed - 1)
      ensures old(running) && consumed < |lines| ==> consumed > 0 && !Continues(Parsed(lines)[consumed - 1])
      ensures consumed == 0 || Continues(Parsed(lines)[consumed - 1]) ==> replies == [] && running == old(running)
      ensures consumed > 0 && !Continues(Parsed(lines)[consumed - 1]) ==>
        && replies == ReplyTo(Parsed(lines)[consumed - 1], fileToBlockMap, Stores())
        && running == !Parsed(lines)[consumed - 1].Shutdown?
    {
      if !running {
        return [], 0;
      }
      ParsedContentsFit(lines);
      replies, consumed := ServeRequests(Parsed(lines));
    }
  }
}
