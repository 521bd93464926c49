/** The chain store: blocks kept serialized under their hashes, the reserved
    key "lh" holding the hash of the last block, the handle that appends
    blocks, the iterator that walks from the tip back to the genesis block,
    and the UTXO queries that walk the whole chain. */
module Chain {
  import opened Bytes
  import opened Wrappers
  import opened Types
  import opened Proof
  import opened Blocks
  import opened Transactions
  import opened Utxo
  import opened Selection

  /** The key "lh" (the bytes of 'l' and 'h'), under which the store keeps the
      hash of the last block. */
  const TipKey: seq<byte> := [108, 104]

  /** The data string of the genesis block's coinbase transaction. */
  const GenesisData: string := "First Block in the Chain - Genesis"

  /** The key-value store on disk. Present says whether its MANIFEST file
      exists, which is how DBexists tells whether there is a chain. */
  class Store {
    var Present: bool
    var Items: map<seq<byte>, seq<byte>>

    /** A store whose MANIFEST file does not exist holds nothing. */
    ghost predicate Valid()
      reads this
    {
      !Present ==> Items == map[]
    }

    constructor (present: bool, items: map<seq<byte>, seq<byte>>)
      requires !present ==> items == map[]
      ensures Present == present && Items == items
      ensures Valid()
    {
      Present := present;
      Items := items;
    }
  }

  /** Reading the block stored under h: a missing key and undecodable bytes
      both abort. */
  function Lookup(items: map<seq<byte>, seq<byte>>, h: seq<byte>, prim: TxPrimitives): (r: Result<TxBlock>)
    ensures h !in items ==> r == Err(CorruptChain)
    ensures r.Err? ==> r.error in {CorruptChain, EncodingError}
  {
    if h in items then Deserialize(items[h], prim) else Err(CorruptChain)
  }

  /** blocks is what the iterator returns, one Next after another, starting
      at hash h: it either ends with a block whose PrevHash is empty, or the
      lookup after its last block aborts. */
  ghost predicate Walk(items: map<seq<byte>, seq<byte>>, h: seq<byte>, blocks: seq<TxBlock>, prim: TxPrimitives)
    decreases |blocks|
  {
    if blocks == [] then Lookup(items, h, prim).Err?
    else
      && Lookup(items, h, prim) == Ok(blocks[0])
      && if blocks[0].PrevHash == [] then |blocks| == 1 else Walk(items, blocks[0].PrevHash, blocks[1..], prim)
  }

  /** The walk reached the genesis block. */
  predicate Ended(blocks: seq<TxBlock>)
  {
    blocks != [] && blocks[|blocks| - 1].PrevHash == []
  }

  /** The keys a walk from h looks up. */
  function WalkKeys(h: seq<byte>, blocks: seq<TxBlock>): set<seq<byte>>
  {
    {h} + set b | b in blocks :: b.PrevHash
  }

  /** The walk from a hash is determined by the store. */
  lemma {:induction false} WalkDeterministic(items: map<seq<byte>, seq<byte>>, h: seq<byte>, b1: seq<TxBlock>, b2: seq<TxBlock>, prim: TxPrimitives)
    requires Walk(items, h, b1, prim) && Walk(items, h, b2, prim)
    ensures b1 == b2
    decreases |b1|
  {
    if b1 != [] && b2 != [] && b1[0].PrevHash != [] {
      WalkDeterministic(items, b1[0].PrevHash, b1[1..], b2[1..], prim);
      assert b1 == [b1[0]] + b1[1..] && b2 == [b2[0]] + b2[1..];
    }
  }

  /** A walk only depends on the keys it looks up. */
  lemma {:induction false} WalkFrame(items: map<seq<byte>, seq<byte>>, items': map<seq<byte>, seq<byte>>, h: seq<byte>, blocks: seq<TxBlock>, prim: TxPrimitives)
    requires Walk(items, h, blocks, prim)
    requires forall k :: k in WalkKeys(h, blocks) ==> (k in items <==> k in items') && (k in items ==> items[k] == items'[k])
    ensures Walk(items', h, blocks, prim)
    decreases |blocks|
  {
    assert h in WalkKeys(h, blocks);
    if blocks != [] && blocks[0].PrevHash != [] {
      forall k | k in WalkKeys(blocks[0].PrevHash, blocks[1..])
        ensures k in WalkKeys(h, blocks)
      {
        if k != blocks[0].PrevHash {
          var b :| b in blocks[1..] && b.PrevHash == k;
          assert b in blocks;
        }
      }
      WalkFrame(items, items', blocks[0].PrevHash, blocks[1..], prim);
    }
  }

  /** The store InitBlockChain writes holds a one-block chain that ends at genesis. */
  lemma GenesisWalk(items: map<seq<byte>, seq<byte>>, genesis: TxBlock, prim: TxPrimitives)
    requires genesis.PrevHash == [] && genesis.Hash != TipKey
    requires prim.DecodePayload(prim.EncodePayload(genesis.Payload)) == Some(genesis.Payload)
    requires Serialize(genesis, prim).Ok?
    ensures var items' := items[genesis.Hash := Serialize(genesis, prim).value][TipKey := genesis.Hash];
      && TipKey in items' && Walk(items', items'[TipKey], [genesis], prim) && Ended([genesis])
  {
    SerializeRoundTrip(genesis, prim);
  }

  /** After AddBlock the walk from the new tip visits the new block and then
      exactly the blocks the old tip led to, provided the new hash is not a
      key the old walk looks up and "lh" is not one either. */
  lemma AppendExtendsWalk(items: map<seq<byte>, seq<byte>>, blocks: seq<TxBlock>, nb: TxBlock, prim: TxPrimitives)
    requires TipKey in items && Walk(items, items[TipKey], blocks, prim)
    requires nb.PrevHash == items[TipKey] && nb.PrevHash != []
    requires nb.Hash != TipKey && nb.Hash !in WalkKeys(items[TipKey], blocks) && TipKey !in WalkKeys(items[TipKey], blocks)
    requires prim.DecodePayload(prim.EncodePayload(nb.Payload)) == Some(nb.Payload)
    requires Serialize(nb, prim).Ok?
    ensures var items' := items[nb.Hash := Serialize(nb, prim).value][TipKey := nb.Hash];
      && TipKey in items' && Walk(items', items'[TipKey], [nb] + blocks, prim)
      && (Ended(blocks) ==> Ended([nb] + blocks))
  {
    var h := items[TipKey];
    var items' := items[nb.Hash := Serialize(nb, prim).value][TipKey := nb.Hash];
    forall k | k in WalkKeys(h, blocks)
      ensures (k in items <==> k in items') && (k in items ==> items[k] == items'[k])
    {
      assert k != nb.Hash && k != TipKey;
    }
    WalkFrame(items, items', h, blocks, prim);
    SerializeRoundTrip(nb, prim);
    assert Lookup(items', nb.Hash, prim) == Ok(nb);
    var all := [nb] + blocks;
    assert all[0] == nb && all[1..] == blocks;
    assert blocks != [] ==> all[|all| - 1] == blocks[|blocks| - 1];
  }

  /** An in-memory handle on the chain: the hash of its last block and its store. */
  class BlockChain {
    var LastHash: seq<byte>
    const Database: Store

    constructor (lastHash: seq<byte>, db: Store)
      ensures LastHash == lastHash && Database == db
    {
      LastHash := lastHash;
      Database := db;
    }

    /** Mines a block of the given transactions on top of the stored tip and
        writes it under its hash, together with the new tip. A missing tip
        aborts before mining; an encoding failure aborts before any write. */
    method AddBlock(transaction: seq<Transaction>, prim: TxPrimitives) returns (o: Outcome, ghost block: TxBlock)
      modifies this, Database
      ensures TipKey !in old(Database.Items) ==> o == Fail(CorruptChain)
      ensures TipKey in old(Database.Items) ==>
        && block.Payload == transaction && block.PrevHash == old(Database.Items[TipKey]) && Mined(block, prim)
        && (o.Pass? <==> Serialize(block, prim).Ok?)
      ensures o.Pass? ==>
        && Database.Items == old(Database.Items)[block.Hash := Serialize(block, prim).value][TipKey := block.Hash]
        && LastHash == block.Hash
      ensures o.Fail? ==> Database.Items == old(Database.Items) && LastHash == old(LastHash)
      ensures Database.Present == old(Database.Present)
    {
      block := Block([], transaction, [], 0);
      o := Handle(if TipKey in Database.Items then None else Some(CorruptChain));
      if o.Fail? {
        return;
      }
      var lastHash := Database.Items[TipKey];
      var newBlock := CreateBlock(transaction, lastHash, prim);
      block := newBlock;
      var encoded := Serialize(newBlock, prim);
      o := Handle(if encoded.Ok? then None else Some(encoded.error));
      if o.Fail? {
        return;
      }
      Database.Items := Database.Items[newBlock.Hash := encoded.value][TipKey := newBlock.Hash];
      LastHash := newBlock.Hash;
    }

    /** An iterator positioned at the last block. */
    method Iterator() returns (iter: BlockChainIterator)
      ensures fresh(iter) && iter.CurrentHash == LastHash && iter.Database == Database
    {
      iter := new BlockChainIterator(LastHash, Database);
    }

    /** Walks the chain from the tip to the genesis block and returns a
        transaction once for every output of it that address can unlock and
        that no transaction of a later block (or later in the same block) has
        spent. The walk aborts if a block cannot be read. */
    method FindUnspentTransactions(address: string, prim: TxPrimitives, ops: TxOps, ghost blocks: seq<TxBlock>)
      returns (r: Result<seq<Transaction>>)
      requires Walk(Database.Items, LastHash, blocks, prim)
      ensures r.Ok? <==> Ended(blocks)
      ensures r.Ok? ==> r.value == UnspentTransactions(blocks, address, ops)
    {
      var unspentTXs: seq<Transaction> := [];
      var spentTXOs: map<seq<byte>, seq<int>> := map[];
      ghost var hits: seq<Hit> := [];
      ghost var k := 0;
      var iter := Iterator();
      while true
        invariant fresh(iter) && iter.Database == Database
        invariant 0 <= k <= |blocks|
        invariant Walk(Database.Items, iter.CurrentHash, blocks[k..], prim)
        invariant 0 < k ==> blocks[k - 1].PrevHash != []
        invariant ScanTxs(Flatten(blocks[..k]), address, ops) == Scan(hits, spentTXOs)
        invariant unspentTXs == HitTxs(hits)
        decreases |blocks| - k
      {
        ghost var current := iter.CurrentHash;
        var next := iter.Next(prim);
        WalkStep(Database.Items, current, blocks[k..], prim);
        if next.Err? {
          r := Err(next.error);
          return;
        }
        var block := next.value;
        assert block == blocks[k];
        unspentTXs, spentTXOs, hits := ScanBlock(block.Payload, unspentTXs, spentTXOs, address, ops, Flatten(blocks[..k]), hits);
        FlattenStep(blocks, k);
        if |block.PrevHash| == 0 {
          assert blocks[..k + 1] == blocks;
          r := Ok(unspentTXs);
          return;
        }
        assert blocks[k..][1..] == blocks[k + 1..];
        k := k + 1;
      }
    }

    /** The outputs that address can unlock of every transaction
        FindUnspentTransactions returned, in order. */
    method FindUTXO(address: string, prim: TxPrimitives, ops: TxOps, ghost blocks: seq<TxBlock>)
      returns (r: Result<seq<TxOutput>>)
      requires Walk(Database.Items, LastHash, blocks, prim)
      ensures r.Ok? <==> Ended(blocks)
      ensures r.Ok? ==> r.value == UTXOs(UnspentTransactions(blocks, address, ops), address, ops)
    {
      var found := FindUnspentTransactions(address, prim, ops, blocks);
      if found.Err? {
        r := Err(found.error);
        return;
      }
      var utxos := CollectUTXOs(found.value, address, ops);
      r := Ok(utxos);
    }

    /** Walks the unlockable outputs of FindUnspentTransactions' result in
        order, adding their values, and stops as soon as the sum reaches
        amount. Returns the sum and the chosen output indices per transaction ID. */
    method FindSpendableOutputs(address: string, amount: int, prim: TxPrimitives, ops: TxOps, ghost blocks: seq<TxBlock>)
      returns (r: Result<(int, map<seq<byte>, seq<int>>)>)
      requires Walk(Database.Items, LastHash, blocks, prim)
      ensures r.Ok? <==> Ended(blocks)
      ensures r.Ok? ==> r.value == SpendableOutputs(UnspentTransactions(blocks, address, ops), address, amount, ops)
    {
      var found := FindUnspentTransactions(address, prim, ops, blocks);
      if found.Err? {
        r := Err(found.error);
        return;
      }
      var accumulated, unspentOutputs := SelectOutputs(found.value, address, amount, ops);
      r := Ok((accumulated, unspentOutputs));
    }
  }

  /** Walks a chain from a hash by reading one block at a time. */
  class BlockChainIterator {
    var CurrentHash: seq<byte>
    const Database: Store

    constructor (currentHash: seq<byte>, db: Store)
      ensures CurrentHash == currentHash && Database == db
    {
      CurrentHash := currentHash;
      Database := db;
    }

    /** Returns the block stored under the current hash and moves to its
        previous hash; aborts, staying where it is, if the block cannot be read. */
    method Next(prim: TxPrimitives) returns (r: Result<TxBlock>)
      modifies this
      ensures r == Lookup(Database.Items, old(CurrentHash), prim)
      ensures r.Ok? ==> CurrentHash == r.value.PrevHash
      ensures r.Err? ==> CurrentHash == old(CurrentHash)
    {
      if CurrentHash !in Database.Items {
        r := Err(CorruptChain);
        return;
      }
      var encodedBlock := Database.Items[CurrentHash];
      r := Deserialize(encodedBlock, prim);
      if r.Ok? {
        CurrentHash := r.value.PrevHash;
      }
    }
  }

  /** FindUTXO's loop over one transaction's outputs. */
  method AppendUnlocked(outs: seq<TxOutput>, utxos: seq<TxOutput>, address: string, ops: TxOps)
    returns (utxos': seq<TxOutput>)
    ensures utxos' == utxos + Unlocked(outs, address, ops)
  {
    utxos' := utxos;
    for o := 0 to |outs|
      invariant utxos' == utxos + Unlocked(outs[..o], address, ops)
    {
      assert outs[..o + 1][..o] == outs[..o];
      if ops.CanBeUnlocked(outs[o], address) {
        utxos' := utxos' + [outs[o]];
      }
    }
    assert outs[..|outs|] == outs;
  }

  /** FindUTXO's loop over the unspent transactions. */
  method CollectUTXOs(unspentTransactions: seq<Transaction>, address: string, ops: TxOps) returns (utxos: seq<TxOutput>)
    ensures utxos == UTXOs(unspentTransactions, address, ops)
  {
    utxos := [];
    for t := 0 to |unspentTransactions|
      invariant utxos == UTXOs(unspentTransactions[..t], address, ops)
    {
      utxos := AppendUnlocked(unspentTransactions[t].Outputs, utxos, address, ops);
      assert unspentTransactions[..t + 1] == unspentTransactions[..t] + [unspentTransactions[t]];
      UTXOsSnoc(unspentTransactions[..t], unspentTransactions[t], address, ops);
    }
    assert unspentTransactions[..|unspentTransactions|] == unspentTransactions;
  }

  /** FindSpendableOutputs' labelled Work loop: walks the outputs of the
      transactions in order and takes each one address can unlock while the
      accumulated value is below amount, leaving both loops as soon as it
      reaches amount. */
  method SelectOutputs(unspentTXs: seq<Transaction>, address: string, amount: int, ops: TxOps)
    returns (accumulated: int, unspentOutputs: map<seq<byte>, seq<int>>)
    ensures (accumulated, unspentOutputs) == SpendableOutputs(unspentTXs, address, amount, ops)
  {
    unspentOutputs := map[];
    accumulated := 0;
    ghost var picks := Candidates(unspentTXs, address, ops);
    ghost var seen: seq<Pick> := [];
    ghost var taken: seq<Pick> := [];
    var stop := false;
    for t := 0 to |unspentTXs|
      invariant !stop ==> seen == Candidates(unspentTXs[..t], address, ops)
      invariant !stop ==> Selecting(picks, amount, seen, taken, accumulated, unspentOutputs)
      invariant stop ==> Selected(picks, amount, taken, accumulated, unspentOutputs)
    {
      if stop {
        break;
      }
      SeenPrefix(unspentTXs, t, |unspentTXs[t].Outputs|, address, ops);
      accumulated, unspentOutputs, stop, seen, taken :=
        SelectFromTx(unspentTXs[t], picks, accumulated, unspentOutputs, address, amount, ops, seen, taken);
      CandidatesSnoc(unspentTXs, t, address, ops);
    }
    if !stop {
      assert unspentTXs[..|unspentTXs|] == unspentTXs;
      SelectingAll(picks, amount, seen, taken, accumulated, unspentOutputs);
    }
  }

  /** The inner loop of Work over one transaction's outputs. stop says that
      the accumulated value reached amount, which leaves the outer loop too. */
  method SelectFromTx(tx: Transaction, ghost picks: seq<Pick>, accumulated: int, unspentOutputs: map<seq<byte>, seq<int>>,
                      address: string, amount: int, ops: TxOps, ghost seen: seq<Pick>, ghost taken: seq<Pick>)
    returns (acc': int, outputs': map<seq<byte>, seq<int>>, stop: bool, ghost seen': seq<Pick>, ghost taken': seq<Pick>)
    requires seen + OutputPicks(tx, |tx.Outputs|, address, ops) <= picks
    requires Selecting(picks, amount, seen, taken, accumulated, unspentOutputs)
    ensures !stop ==> seen' == seen + OutputPicks(tx, |tx.Outputs|, address, ops)
    ensures !stop ==> Selecting(picks, amount, seen', taken', acc', outputs')
    ensures stop ==> Selected(picks, amount, taken', acc', outputs')
    ensures stop ==> 0 < amount <= acc'
    ensures !stop && amount > 0 ==> acc' < amount
    ensures !stop && amount <= 0 ==> acc' == accumulated && outputs' == unspentOutputs
  {
    acc', outputs', stop, seen', taken' := accumulated, unspentOutputs, false, seen, taken;
    var txID := tx.ID;
    for outIdx := 0 to |tx.Outputs|
      invariant seen' == seen + OutputPicks(tx, outIdx, address, ops)
      invariant Selecting(picks, amount, seen', taken', acc', outputs')
    {
      OutputStep(seen, tx, outIdx, picks, address, ops);
      var out := tx.Outputs[outIdx];
      if ops.CanBeUnlocked(out, address) {
        var p := Pick(txID, outIdx, out.Value);
        if acc' < amount {
          SelectingTake(picks, amount, seen', taken', acc', outputs', p);
          acc' := acc' + out.Value;
          outputs' := outputs'[txID := Spent(outputs', txID) + [outIdx]];
          taken' := seen' + [p];
          seen' := seen' + [p];
          if acc' >= amount {
            stop := true;
            return;
          }
        } else {
          SelectingSkip(picks, amount, seen', taken', acc', outputs', p);
          seen' := seen' + [p];
        }
      }
    }
  }

  /** One step of a walk: the lookup at h succeeds exactly when the walk has
      a first block, which is that block, and the walk continues from its
      previous hash unless that is empty. */
  lemma WalkStep(items: map<seq<byte>, seq<byte>>, h: seq<byte>, blocks: seq<TxBlock>, prim: TxPrimitives)
    requires Walk(items, h, blocks, prim)
    ensures Lookup(items, h, prim).Ok? <==> blocks != []
    ensures blocks != [] ==> Lookup(items, h, prim) == Ok(blocks[0])
    ensures blocks != [] && blocks[0].PrevHash == [] ==> |blocks| == 1
    ensures blocks != [] && blocks[0].PrevHash != [] ==> Walk(items, blocks[0].PrevHash, blocks[1..], prim)
  {
  }

  lemma FlattenStep(blocks: seq<TxBlock>, k: nat)
    requires k < |blocks|
    ensures Flatten(blocks[..k + 1]) == Flatten(blocks[..k]) + blocks[k].Payload
  {
    assert blocks[..k + 1][..k] == blocks[..k];
  }

  /** The body of FindUnspentTransactions' loop over the blocks: scans the
      block's transactions in order. */
  method ScanBlock(txs: seq<Transaction>, unspentTXs: seq<Transaction>, spentTXOs: map<seq<byte>, seq<int>>,
                   address: string, ops: TxOps, ghost visited: seq<Transaction>, ghost hits: seq<Hit>)
    returns (unspent': seq<Transaction>, spent': map<seq<byte>, seq<int>>, ghost hits': seq<Hit>)
    requires ScanTxs(visited, address, ops) == Scan(hits, spentTXOs)
    requires unspentTXs == HitTxs(hits)
    ensures ScanTxs(visited + txs, address, ops) == Scan(hits', spent')
    ensures unspent' == HitTxs(hits')
    ensures spent' == ScanTxs(visited + txs, address, ops).Spent
    ensures unspent' == HitTxs(ScanTxs(visited + txs, address, ops).Hits)
  {
    unspent', spent', hits' := unspentTXs, spentTXOs, hits;
    assert visited + txs[..0] == visited;
    for t := 0 to |txs|
      invariant ScanTxs(visited + txs[..t], address, ops) == Scan(hits', spent')
      invariant unspent' == HitTxs(hits')
    {
      unspent', spent', hits' := ScanTransaction(txs[t], unspent', spent', address, ops, hits');
      assert visited + txs[..t + 1] == (visited + txs[..t]) + [txs[t]];
      ScanTxsSnoc(visited + txs[..t], txs[t], address, ops);
    }
    assert txs[..|txs|] == txs;
  }

  /** The body of FindUnspentTransactions' loop over a block's transactions:
      examines the outputs of tx against the spent map, appending tx once for
      every output that counts, and then, unless tx is a coinbase, records
      the outputs its inputs spend. */
  method ScanTransaction(tx: Transaction, unspentTXs: seq<Transaction>, spentTXOs: map<seq<byte>, seq<int>>,
                         address: string, ops: TxOps, ghost hits: seq<Hit>)
    returns (unspent': seq<Transaction>, spent': map<seq<byte>, seq<int>>, ghost hits': seq<Hit>)
    requires unspentTXs == HitTxs(hits)
    ensures Scan(hits', spent') == ScanTx(Scan(hits, spentTXOs), tx, address, ops)
    ensures unspent' == HitTxs(hits')
    ensures unspent' == unspentTXs + HitTxs(OutputHits(tx, |tx.Outputs|, spentTXOs, address, ops))
    ensures ops.IsCoinbase(tx) ==> spent' == spentTXOs
    ensures !ops.IsCoinbase(tx) ==> spent' == RecordInputs(spentTXOs, tx.Inputs, address, ops)
  {
    unspent', hits' := ExamineOutputs(tx, unspentTXs, spentTXOs, address, ops, hits);
    spent' := spentTXOs;
    if !ops.IsCoinbase(tx) {
      spent' := RecordSpent(tx.Inputs, spentTXOs, address, ops);
    }
  }

  /** The labelled Outputs loop: an output whose index is recorded as spent
      for tx's ID is skipped; otherwise tx is appended if address can unlock it. */
  method ExamineOutputs(tx: Transaction, unspentTXs: seq<Transaction>, spentTXOs: map<seq<byte>, seq<int>>,
                        address: string, ops: TxOps, ghost hits: seq<Hit>)
    returns (unspent': seq<Transaction>, ghost hits': seq<Hit>)
    requires unspentTXs == HitTxs(hits)
    ensures hits' == hits + OutputHits(tx, |tx.Outputs|, spentTXOs, address, ops)
    ensures unspent' == HitTxs(hits')
    ensures unspent' == unspentTXs + HitTxs(OutputHits(tx, |tx.Outputs|, spentTXOs, address, ops))
  {
    unspent', hits' := unspentTXs, hits;
    var txID := tx.ID;
    label Outputs:
    for outIdx := 0 to |tx.Outputs|
      invariant hits' == hits + OutputHits(tx, outIdx, spentTXOs, address, ops)
      invariant unspent' == HitTxs(hits')
    {
      var out := tx.Outputs[outIdx];
      var spentOuts := Spent(spentTXOs, txID);
      for s := 0 to |spentOuts|
        invariant forall j :: 0 <= j < s ==> spentOuts[j] != outIdx
      {
        if spentOuts[s] == outIdx {
          assert OutputHits(tx, outIdx + 1, spentTXOs, address, ops) == OutputHits(tx, outIdx, spentTXOs, address, ops);
          continue Outputs;
        }
      }
      assert outIdx !in spentOuts;
      if ops.CanBeUnlocked(out, address) {
        assert (hits' + [Hit(tx, outIdx, out)])[..|hits'|] == hits';
        unspent' := unspent' + [tx];
        hits' := hits' + [Hit(tx, outIdx, out)];
      }
    }
    HitTxsAppend(hits, OutputHits(tx, |tx.Outputs|, spentTXOs, address, ops));
  }

  /** The loop over a non-coinbase transaction's inputs: every input address
      can unlock adds its output index under the ID it refers to. */
  method RecordSpent(inputs: seq<TxInput>, spentTXOs: map<seq<byte>, seq<int>>, address: string, ops: TxOps)
    returns (spent': map<seq<byte>, seq<int>>)
    ensures spent' == RecordInputs(spentTXOs, inputs, address, ops)
  {
    spent' := spentTXOs;
    for j := 0 to |inputs|
      invariant spent' == RecordInputs(spentTXOs, inputs[..j], address, ops)
    {
      var input := inputs[j];
      assert inputs[..j + 1][..j] == inputs[..j];
      if ops.CanUnlock(input, address) {
        spent' := spent'[input.ID := Spent(spent', input.ID) + [input.Out]];
      }
    }
    assert inputs[..|inputs|] == inputs;
  }

  /** Creates a chain whose genesis block pays the coinbase to address. It
      aborts if a chain already exists; otherwise the store then holds
      exactly the genesis block under its hash and "lh" naming it. */
  method InitBlockChain(db: Store, address: string, prim: TxPrimitives, ops: TxOps)
    returns (r: Result<BlockChain>, ghost genesis: TxBlock)
    requires db.Valid()
    modifies db
    ensures db.Valid() && db.Present
    ensures old(db.Present) ==> r == Err(AlreadyExists) && db.Items == old(db.Items)
    ensures !old(db.Present) ==>
      && genesis.Payload == [ops.CoinbaseTx(address, GenesisData)] && genesis.PrevHash == [] && Mined(genesis, prim)
      && (r.Ok? <==> Serialize(genesis, prim).Ok?)
      && (r.Err? ==> r.error == EncodingError && db.Items == map[])
    ensures r.Ok? ==>
      && fresh(r.value) && r.value.Database == db && r.value.LastHash == genesis.Hash
      && db.Items == map[genesis.Hash := Serialize(genesis, prim).value, TipKey := genesis.Hash]
  {
    genesis := Block([], [], [], 0);
    if db.Present {
      r := Err(AlreadyExists);
      return;
    }
    db.Present := true;
    var cbtx := ops.CoinbaseTx(address, GenesisData);
    var g := Genesis([cbtx], prim);
    genesis := g;
    var encoded := Serialize(g, prim);
    match Handle(if encoded.Ok? then None else Some(encoded.error))
    case Fail(e) =>
      r := Err(e);
    case Pass =>
      db.Items := db.Items[g.Hash := encoded.value][TipKey := g.Hash];
      var chain := new BlockChain(g.Hash, db);
      r := Ok(chain);
  }

  /** Opens an existing chain: aborts if there is none or if "lh" is missing,
      and otherwise starts at the stored tip without changing the store. */
  method ContinueBlockChain(db: Store) returns (r: Result<BlockChain>)
    ensures !db.Present ==> r == Err(NotFound)
    ensures db.Present && TipKey !in db.Items ==> r == Err(CorruptChain)
    ensures db.Present && TipKey in db.Items ==>
      r.Ok? && fresh(r.value) && r.value.Database == db && r.value.LastHash == db.Items[TipKey]
  {
    if !db.Present {
      r := Err(NotFound);
      return;
    }
    if TipKey !in db.Items {
      r := Err(CorruptChain);
      return;
    }
    var lastHash := db.Items[TipKey];
    var chain := new BlockChain(lastHash, db);
    r := Ok(chain);
  }
}
