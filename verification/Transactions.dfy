// Transactions as the pool sees them.
module Transactions {
  type Address = int
  type Nonce = int

  /** A transaction: two of them are the same exactly if their hashes are, so the record stands for its hash. */
  datatype Tx = Tx(sender: Address, nonce: Nonce, feeCap: int, tip: int, cost: int, gas: int, size: nat,
                   value: int, intrinsicGas: int, payload: int)

  const SLOT_SIZE := 32768
  const MAX_SIZE := 131072
  const MAX_NONCE := 0xFFFF_FFFF_FFFF_FFFF

  /** numSlots: the size in slots, rounded up. */
  function NumSlots(tx: Tx): (n: int)
    ensures 0 <= n && (n - 1) * SLOT_SIZE < tx.size <= n * SLOT_SIZE
  {
    (tx.size + SLOT_SIZE - 1) / SLOT_SIZE
  }
}
