/**
 * A storage node (DataNode): a fixed pool of MAX_BLOCKS block ids, a FIFO
 * queue of the ids still free, a map from the ids in use to their Block
 * records, and the node's block files, abstracted to a map from block id to
 * the text stored in that block's file.
 *
 * The operations are first given as functions on a Store value (the
 * specification), then as the DataNode class whose methods update its fields
 * in place and are proved to follow those functions.
 */
module Storage {
  import opened JavaString

  const MAX_BLOCKS: int := 100

  /** The record kept for a block in use: the path of its backing file. */
  datatype Block = Block(filename: string)

  /** The state of one storage node. */
  datatype Store = Store(available: seq<int>, used: map<int, Block>, files: map<int, string>)

  /** The node's data directory, derived from its port. */
  function DataDirectory(port: int): string {
    "./data_" + IntToString(port)
  }

  /** The backing file of a block: dataDirectory/blk_<id>.bin */
  function BlockFileName(dataDirectory: string, blockId: int): string {
    dataDirectory + "/blk_" + IntToString(blockId) + ".bin"
  }

  /** The ids lo, lo + 1, ..., hi - 1 in ascending order. */
  function Ids(lo: int, hi: int): (r: seq<int>)
    ensures |r| == if lo <= hi then hi - lo else 0
    ensures forall i :: 0 <= i < |r| ==> r[i] == lo + i
    decreases hi - lo
  {
    if lo >= hi then [] else [lo] + Ids(lo + 1, hi)
  }

  /** Ids grows at its upper end. */
  lemma IdsExtend(lo: int, hi: int)
    requires lo <= hi
    ensures Ids(lo, hi + 1) == Ids(lo, hi) + [hi]
  {
    var r := Ids(lo, hi + 1);
    assert |r| == |Ids(lo, hi) + [hi]|;
    forall k | 0 <= k < |r|
      ensures r[k] == (Ids(lo, hi) + [hi])[k]
    {
    }
  }

  /** The set {0, ..., k - 1}. */
  function IdSet(k: nat): (r: set<int>)
    ensures forall i :: i in r <==> 0 <= i < k
    ensures |r| == k
  {
    if k == 0 then {} else IdSet(k - 1) + {k - 1}
  }

  /** A node just started: every id free, in ascending order, nothing in use. */
  function FreshStore(): Store {
    Store(Ids(0, MAX_BLOCKS), map[], map[])
  }

  /**
   * allocateBlock: takes the head of the free queue, registers its Block and
   * creates (truncates) its file; -1 and no change when the queue is empty.
   */
  function Allocate(dataDirectory: string, s: Store): (int, Store) {
    if s.available == [] then (-1, s)
    else
      var id := s.available[0];
      (id, Store(s.available[1..], s.used[id := Block(BlockFileName(dataDirectory, id))], s.files[id := ""]))
  }

  /** readBlock: the whole stored text, or None (null) for an id out of range, not in use, or without a file. */
  function Read(s: Store, blockId: int): Option<string> {
    if blockId >= MAX_BLOCKS || blockId !in s.used then None
    else if blockId !in s.files then None
    else Some(s.files[blockId])
  }

  /** writeBlock: replaces the whole stored text of a block in use. */
  function Write(s: Store, blockId: int, contents: string): (bool, Store) {
    if blockId >= MAX_BLOCKS || blockId !in s.used then (false, s)
    else (true, s.(files := s.files[blockId := contents]))
  }

  /** How many ids have left the free queue. */
  function Issued(s: Store): int {
    MAX_BLOCKS - |s.available|
  }

  /**
   * The states a node can reach. Ids are never released, so after k
   * allocations the queue holds exactly k, ..., MAX_BLOCKS - 1 and the ids
   * 0, ..., k - 1 are in use, each with its own file and file name.
   */
  ghost predicate Inv(dataDirectory: string, s: Store) {
    |s.available| <= MAX_BLOCKS
    && s.available == Ids(Issued(s), MAX_BLOCKS)
    && (forall id :: id in s.used <==> 0 <= id < Issued(s))
    && s.files.Keys == s.used.Keys
    && (forall id :: id in s.used ==> s.used[id] == Block(BlockFileName(dataDirectory, id)))
  }

  /** One operation a client can ask of a node. */
  datatype Op = AllocOp | ReadOp(readId: int) | WriteOp(writeId: int, contents: string)

  function Step(dataDirectory: string, s: Store, op: Op): Store {
    match op
    case AllocOp => Allocate(dataDirectory, s).1
    case ReadOp(_) => s
    case WriteOp(id, c) => Write(s, id, c).1
  }

  /** The store after a sequence of operations. */
  function Replay(dataDirectory: string, s: Store, ops: seq<Op>): Store
    decreases |ops|
  {
    if ops == [] then s else Replay(dataDirectory, Step(dataDirectory, s, ops[0]), ops[1..])
  }

  /** The ids that the allocations among ops hand out (the -1 answers left out), in order. */
  function Granted(dataDirectory: string, s: Store, ops: seq<Op>): seq<int>
    decreases |ops|
  {
    if ops == [] then []
    else
      var here := if ops[0].AllocOp? && Allocate(dataDirectory, s).0 != -1 then [Allocate(dataDirectory, s).0] else [];
      here + Granted(dataDirectory, Step(dataDirectory, s, ops[0]), ops[1..])
  }

  // ---------------------------------------------------------------------
  // Lemmas about the specification
  // ---------------------------------------------------------------------

  /** A fresh node satisfies the invariant, with the free queue 0, 1, ..., 99. */
  lemma FreshStoreInv(dataDirectory: string)
    ensures Inv(dataDirectory, FreshStore())
    ensures FreshStore().available == Ids(0, MAX_BLOCKS) && FreshStore().used == map[]
  {
  }

  /**
   * The free queue and the ids in use partition {0, ..., MAX_BLOCKS - 1},
   * the queue holds no id twice, and the two sizes add up to MAX_BLOCKS.
   */
  lemma Partition(dataDirectory: string, s: Store)
    requires Inv(dataDirectory, s)
    ensures forall id :: id in s.available ==> 0 <= id < MAX_BLOCKS && id !in s.used
    ensures forall id :: 0 <= id < MAX_BLOCKS ==> id in s.available || id in s.used
    ensures forall i, j :: 0 <= i < j < |s.available| ==> s.available[i] != s.available[j]
    ensures |s.available| + |s.used| == MAX_BLOCKS
  {
    var k := Issued(s);
    forall id | 0 <= id < MAX_BLOCKS && id !in s.used
      ensures id in s.available
    {
      assert s.available[id - k] == id;
    }
    assert s.used.Keys == IdSet(k);
  }

  /**
   * allocateBlock on a node: -1 exactly when the queue is empty, and then no
   * change; otherwise the head id, which is the number of ids already in use
   * (so a fresh node hands out 0, 1, 2, ...), was not in use before, is in use
   * afterwards and reads back as the empty text.
   */
  lemma AllocateNext(dataDirectory: string, s: Store)
    requires Inv(dataDirectory, s)
    ensures var (id, t) := Allocate(dataDirectory, s);
      && (id == -1 <==> s.available == [])
      && (id == -1 ==> t == s)
      && (id != -1 ==> id == |s.used| && id !in s.used && id in t.used && Read(t, id) == Some(""))
      && (id != -1 ==> t.available == s.available[1..] && t.used.Keys == s.used.Keys + {id})
  {
    Partition(dataDirectory, s);
    if s.available != [] {
      assert s.available[0] == Issued(s);
    }
  }

  lemma AllocatePreservesInv(dataDirectory: string, s: Store)
    requires Inv(dataDirectory, s)
    ensures Inv(dataDirectory, Allocate(dataDirectory, s).1)
  {
    if s.available != [] {
      var k := Issued(s);
      var (id, t) := Allocate(dataDirectory, s);
      assert id == k && t.available == Ids(k + 1, MAX_BLOCKS);
      assert Issued(t) == k + 1;
      forall b
        ensures b in t.used <==> 0 <= b < k + 1
      {
        assert b in t.used <==> b in s.used || b == k;
      }
      assert t.files.Keys == t.used.Keys;
    }
  }

  /**
   * writeBlock succeeds exactly on the ids in use, replaces that block's whole
   * text (a following read returns exactly the new text), touches no other
   * block, and leaves the queue and the used map alone.
   */
  lemma WriteSpec(dataDirectory: string, s: Store, blockId: int, contents: string)
    requires Inv(dataDirectory, s)
    ensures var (ok, t) := Write(s, blockId, contents);
      && (ok <==> 0 <= blockId < Issued(s))
      && (ok ==> Read(t, blockId) == Some(contents))
      && (forall id :: id != blockId ==> Read(t, id) == Read(s, id))
      && t.available == s.available && t.used == s.used
      && Inv(dataDirectory, t)
  {
  }

  /** Every operation keeps the invariant, so every sequence of operations does. */
  lemma {:induction false} ReplayPreservesInv(dataDirectory: string, s: Store, ops: seq<Op>)
    requires Inv(dataDirectory, s)
    ensures Inv(dataDirectory, Replay(dataDirectory, s, ops))
    decreases |ops|
  {
    if ops != [] {
      var t := Step(dataDirectory, s, ops[0]);
      match ops[0] {
        case AllocOp => AllocatePreservesInv(dataDirectory, s);
        case ReadOp(_) =>
        case WriteOp(id, c) => WriteSpec(dataDirectory, s, id, c);
      }
      ReplayPreservesInv(dataDirectory, t, ops[1..]);
    }
  }

  /**
   * Across any sequence of operations the ids handed out are the next ones
   * in ascending order, Issued(s), Issued(s) + 1, ...: no id is ever handed
   * out twice.
   */
  lemma {:induction false} GrantedInOrder(dataDirectory: string, s: Store, ops: seq<Op>)
    requires Inv(dataDirectory, s)
    ensures Granted(dataDirectory, s, ops) == Ids(Issued(s), Issued(Replay(dataDirectory, s, ops)))
    ensures Issued(s) <= Issued(Replay(dataDirectory, s, ops))
    decreases |ops|
  {
    if ops != [] {
      var t := Step(dataDirectory, s, ops[0]);
      var rest := Granted(dataDirectory, t, ops[1..]);
      match ops[0] {
        case AllocOp =>
          AllocatePreservesInv(dataDirectory, s);
          AllocateNext(dataDirectory, s);
          GrantedInOrder(dataDirectory, t, ops[1..]);
          if s.available != [] {
            assert Granted(dataDirectory, s, ops) == [Issued(s)] + rest;
            assert Issued(t) == Issued(s) + 1;
          } else {
            assert Granted(dataDirectory, s, ops) == rest;
          }
        case ReadOp(_) =>
          GrantedInOrder(dataDirectory, t, ops[1..]);
          assert Granted(dataDirectory, s, ops) == rest;
        case WriteOp(id, c) =>
          WriteSpec(dataDirectory, s, id, c);
          GrantedInOrder(dataDirectory, t, ops[1..]);
          assert Granted(dataDirectory, s, ops) == rest;
      }
    }
  }

  // ---------------------------------------------------------------------
  // The node as an object updated in place
  // ---------------------------------------------------------------------

  class DataNode {
    const port: int
    const dataDirectory: string
    var availableBlocksQueue: seq<int>
    var usedBlocksMap: map<int, Block>
    var files: map<int, string>

    function State(): Store
      reads this
    {
      Store(availableBlocksQueue, usedBlocksMap, files)
    }

    ghost predicate Valid()
      reads this
    {
      Inv(dataDirectory, State())
    }

    /** new DataNode(port): every id free, in ascending order; no block in use. */
    constructor (port: int)
      ensures Valid()
      ensures this.port == port && dataDirectory == DataDirectory(port)
      ensures State() == FreshStore()
    {
      this.port := port;
      dataDirectory := "./data_" + IntToString(port);
      var queue: seq<int> := [];
      for i := 0 to MAX_BLOCKS
        invariant queue == Ids(0, i)
      {
        IdsExtend(0, i);
        queue := queue + [i];
      }
      availableBlocksQueue := queue;
      usedBlocksMap := map[];
      files := map[];
      FreshStoreInv(DataDirectory(port));
    }

    method AllocateBlock() returns (blockId: int)
      requires Valid()
      modifies this
      ensures Valid()
      ensures (blockId, State()) == Allocate(dataDirectory, old(State()))
      ensures blockId == -1 <==> old(availableBlocksQueue) == []
      ensures blockId != -1 ==> blockId == |old(usedBlocksMap)| && blockId !in old(usedBlocksMap)
    {
      AllocateNext(dataDirectory, State());
      AllocatePreservesInv(dataDirectory, State());
      blockId := -1;
      if availableBlocksQueue != [] {
        blockId := availableBlocksQueue[0];
        availableBlocksQueue := availableBlocksQueue[1..];
      }
      if blockId != -1 {
        var filename := dataDirectory + "/blk_" + IntToString(blockId) + ".bin";
        usedBlocksMap := usedBlocksMap[blockId := Block(filename)];
        files := files[blockId := ""];
      }
    }

    method ReadBlock(blockId: int) returns (contents: Option<string>)
      ensures contents == Read(State(), blockId)
      ensures Valid() ==> (contents.Some? <==> 0 <= blockId < MAX_BLOCKS && blockId in usedBlocksMap)
    {
      if blockId >= MAX_BLOCKS || blockId !in usedBlocksMap {
        return None;
      }
      if blockId !in files {
        return None;
      }
      contents := Some(files[blockId]);
    }

    method WriteBlock(blockId: int, contents: string) returns (ok: bool)
      requires Valid()
      modifies this
      ensures Valid()
      ensures (ok, State()) == Write(old(State()), blockId, contents)
      ensures ok <==> 0 <= blockId < MAX_BLOCKS && blockId in old(usedBlocksMap)
      ensures availableBlocksQueue == old(availableBlocksQueue) && usedBlocksMap == old(usedBlocksMap)
    {
      WriteSpec(dataDirectory, State(), blockId, contents);
      if blockId >= MAX_BLOCKS || blockId !in usedBlocksMap {
        return false;
      }
      files := files[blockId := contents];
      ok := true;
    }

    function GetNumberOfEmptyBlocks(): (n: nat)
      requires Valid()
      reads this
      ensures n + |usedBlocksMap| == MAX_BLOCKS
    {
      Partition(dataDirectory, State());
      |availableBlocksQueue|
    }

    function IsFull(): (full: bool)
      requires Valid()
      reads this
      ensures full <==> GetNumberOfEmptyBlocks() == 0
      ensures full <==> |usedBlocksMap| == MAX_BLOCKS
    {
      availableBlocksQueue == []
    }
  }
}
