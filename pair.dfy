/**
 * The placement handle kept by the coordinator: which storage node holds a
 * block of a file, and the block's number on that node.
 */
module Placement {

  datatype Pair = Pair(dataNodeId: string, blockNumber: int) {

    function GetDataNodeId(): string {
      dataNodeId
    }

    function GetBlockNumber(): int {
      blockNumber
    }

    /** setDataNodeId: the new id is observed, the block number is kept. */
    function SetDataNodeId(id: string): (p: Pair)
      ensures p.GetDataNodeId() == id
      ensures p.GetBlockNumber() == GetBlockNumber()
    {
      this.(dataNodeId := id)
    }

    /** setBlockNumber: the new number is observed, the node id is kept. */
    function SetBlockNumber(n: int): (p: Pair)
      ensures p.GetBlockNumber() == n
      ensures p.GetDataNodeId() == GetDataNodeId()
    {
      this.(blockNumber := n)
    }
  }

  /** The getters return what the constructor was given. */
  lemma GettersAfterConstruction(id: string, n: int)
    ensures Pair(id, n).GetDataNodeId() == id
    ensures Pair(id, n).GetBlockNumber() == n
  {
  }
}
