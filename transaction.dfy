/** The shape of transactions as the chain store and the UTXO resolver read
    them. The transaction subsystem itself (how transactions are built, signed
    and hashed) is outside this model; its predicates are parameters. */
module Transactions {
  import opened Bytes
  import opened Types

  /** An output: an amount locked to a public key (an address string). */
  datatype TxOutput = TxOutput(Value: int, PubKey: string)

  /** An input: the output it spends, as the ID of the transaction holding it
      and that output's index, and the spender's signature string. */
  datatype TxInput = TxInput(ID: seq<byte>, Out: int, Sig: string)

  datatype Transaction = Transaction(ID: seq<byte>, Inputs: seq<TxInput>, Outputs: seq<TxOutput>)

  /** The transaction subsystem's predicates and constructor that the core
      calls: TxOutput.CanBeUnlocked, TxInput.CanUnlock, Transaction.IsCoinbase
      and CoinbaseTx. */
  datatype TxOps = TxOps(
    CanBeUnlocked: (TxOutput, string) -> bool,
    CanUnlock: (TxInput, string) -> bool,
    IsCoinbase: Transaction -> bool,
    CoinbaseTx: (string, string) -> Transaction)

  /** A block of the chain: its payload is the block's transaction list. */
  type TxBlock = Block<seq<Transaction>>

  type TxPrimitives = Primitives<seq<Transaction>>
}
