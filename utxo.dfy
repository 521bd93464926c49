/** What FindUnspentTransactions computes, stated over the transactions of the
    visited blocks in visit order (tip first). The scan keeps a map from
    transaction IDs to the output indices that already-visited inputs spend,
    and records a hit for every output that is neither spent nor locked to
    another address. */
module Utxo {
  import opened Bytes
  import opened Types
  import opened Transactions

  /** The output indices recorded as spent for a transaction ID (nil in Go
      when the ID was never recorded). */
  function Spent(spent: map<seq<byte>, seq<int>>, id: seq<byte>): seq<int>
  {
    if id in spent then spent[id] else []
  }

  /** One appended entry of unspentTXs: the transaction, for its output Index. */
  datatype Hit = Hit(Tx: Transaction, Index: int, Output: TxOutput)

  /** Output i of tx counts for address: it is not recorded as spent and it
      can be unlocked by address. */
  predicate Reports(tx: Transaction, i: int, spent: map<seq<byte>, seq<int>>, address: string, ops: TxOps)
    requires 0 <= i < |tx.Outputs|
  {
    i !in Spent(spent, tx.ID) && ops.CanBeUnlocked(tx.Outputs[i], address)
  }

  /** The hits among the first n outputs of tx, in index order. */
  function OutputHits(tx: Transaction, n: nat, spent: map<seq<byte>, seq<int>>, address: string, ops: TxOps): seq<Hit>
    requires n <= |tx.Outputs|
  {
    if n == 0 then []
    else
      OutputHits(tx, n - 1, spent, address, ops)
      + (if Reports(tx, n - 1, spent, address, ops) then [Hit(tx, n - 1, tx.Outputs[n - 1])] else [])
  }

  /** The spent map after recording, in order, every input that address can unlock. */
  function RecordInputs(spent: map<seq<byte>, seq<int>>, inputs: seq<TxInput>, address: string, ops: TxOps): map<seq<byte>, seq<int>>
  {
    if inputs == [] then spent
    else
      var s := RecordInputs(spent, inputs[..|inputs| - 1], address, ops);
      var input := inputs[|inputs| - 1];
      if ops.CanUnlock(input, address) then s[input.ID := Spent(s, input.ID) + [input.Out]] else s
  }

  /** The state of the scan: the hits so far and the spent map. */
  datatype Scan = Scan(Hits: seq<Hit>, Spent: map<seq<byte>, seq<int>>)

  /** One transaction: its outputs are examined against the spent map first;
      only then, and only when it is not a coinbase, are its inputs recorded. */
  function ScanTx(st: Scan, tx: Transaction, address: string, ops: TxOps): Scan
  {
    Scan(st.Hits + OutputHits(tx, |tx.Outputs|, st.Spent, address, ops),
         if ops.IsCoinbase(tx) then st.Spent else RecordInputs(st.Spent, tx.Inputs, address, ops))
  }

  /** The scan over a sequence of transactions, from an empty state. */
  function ScanTxs(txs: seq<Transaction>, address: string, ops: TxOps): Scan
  {
    if txs == [] then Scan([], map[])
    else ScanTx(ScanTxs(txs[..|txs| - 1], address, ops), txs[|txs| - 1], address, ops)
  }

  lemma ScanTxsSnoc(txs: seq<Transaction>, x: Transaction, address: string, ops: TxOps)
    ensures ScanTxs(txs + [x], address, ops) == ScanTx(ScanTxs(txs, address, ops), x, address, ops)
  {
    assert (txs + [x])[..|txs|] == txs;
  }

  /** The transactions of the blocks, block after block. */
  function Flatten(blocks: seq<TxBlock>): seq<Transaction>
  {
    if blocks == [] then [] else Flatten(blocks[..|blocks| - 1]) + blocks[|blocks| - 1].Payload
  }

  /** The transaction of every hit: unspentTXs. */
  function HitTxs(hits: seq<Hit>): (txs: seq<Transaction>)
    ensures |txs| == |hits|
  {
    if hits == [] then [] else HitTxs(hits[..|hits| - 1]) + [hits[|hits| - 1].Tx]
  }

  lemma {:induction false} HitTxsAppend(a: seq<Hit>, b: seq<Hit>)
    ensures HitTxs(a + b) == HitTxs(a) + HitTxs(b)
  {
    if b == [] {
      assert a + b == a;
    } else {
      var c, q, x := a + b, b[..|b| - 1], b[|b| - 1];
      assert c[..|c| - 1] == a + q && c[|c| - 1] == x;
      HitTxsAppend(a, q);
      assert HitTxs(c) == HitTxs(a + q) + [x.Tx];
      assert HitTxs(b) == HitTxs(q) + [x.Tx];
      assert (HitTxs(a) + HitTxs(q)) + [x.Tx] == HitTxs(a) + (HitTxs(q) + [x.Tx]);
    }
  }

  /** The result of FindUnspentTransactions for the blocks visited from the tip. */
  function UnspentTransactions(blocks: seq<TxBlock>, address: string, ops: TxOps): seq<Transaction>
  {
    HitTxs(ScanTxs(Flatten(blocks), address, ops).Hits)
  }

  // ---------------------------------------------------------------------------
  // The spent map, characterized.

  /** Some non-coinbase transaction of txs has an input that address can
      unlock and that spends output i of the transaction with this id. */
  ghost predicate SpentBy(txs: seq<Transaction>, id: seq<byte>, i: int, address: string, ops: TxOps)
  {
    exists k, j :: 0 <= k < |txs| && 0 <= j < |txs[k].Inputs| && !ops.IsCoinbase(txs[k])
      && ops.CanUnlock(txs[k].Inputs[j], address) && txs[k].Inputs[j].ID == id && txs[k].Inputs[j].Out == i
  }

  /** Some input of the list that address can unlock spends output i of the transaction id. */
  ghost predicate SpentByInputs(inputs: seq<TxInput>, id: seq<byte>, i: int, address: string, ops: TxOps)
  {
    exists j :: 0 <= j < |inputs| && ops.CanUnlock(inputs[j], address) && inputs[j].ID == id && inputs[j].Out == i
  }

  /** Recording inputs adds exactly the indices the unlockable inputs spend. */
  lemma {:induction false} RecordInputsSpent(spent: map<seq<byte>, seq<int>>, inputs: seq<TxInput>, id: seq<byte>, i: int, address: string, ops: TxOps)
    ensures i in Spent(RecordInputs(spent, inputs, address, ops), id)
        <==> i in Spent(spent, id) || SpentByInputs(inputs, id, i, address, ops)
  {
    if inputs != [] {
      var p := inputs[..|inputs| - 1];
      var input := inputs[|inputs| - 1];
      RecordInputsSpent(spent, p, id, i, address, ops);
      assert forall j :: 0 <= j < |p| ==> p[j] == inputs[j];
      if SpentByInputs(inputs, id, i, address, ops) && !SpentByInputs(p, id, i, address, ops) {
        var j :| 0 <= j < |inputs| && ops.CanUnlock(inputs[j], address) && inputs[j].ID == id && inputs[j].Out == i;
        assert j == |inputs| - 1;
      }
      if SpentByInputs(p, id, i, address, ops) {
        var j :| 0 <= j < |p| && ops.CanUnlock(p[j], address) && p[j].ID == id && p[j].Out == i;
        assert inputs[j] == p[j];
      }
    }
  }

  /** A transaction appended at the end spends what its own inputs spend, if it is not a coinbase. */
  lemma SpentByLast(p: seq<Transaction>, x: Transaction, id: seq<byte>, i: int, address: string, ops: TxOps)
    ensures SpentBy(p + [x], id, i, address, ops)
        <==> SpentBy(p, id, i, address, ops) || (!ops.IsCoinbase(x) && SpentByInputs(x.Inputs, id, i, address, ops))
  {
    var txs := p + [x];
    if SpentBy(txs, id, i, address, ops) {
      var k, j :| 0 <= k < |txs| && 0 <= j < |txs[k].Inputs| && !ops.IsCoinbase(txs[k])
        && ops.CanUnlock(txs[k].Inputs[j], address) && txs[k].Inputs[j].ID == id && txs[k].Inputs[j].Out == i;
      if k < |p| {
        assert p[k] == txs[k];
      } else {
        assert txs[k] == x;
      }
    }
    if SpentBy(p, id, i, address, ops) {
      var k, j :| 0 <= k < |p| && 0 <= j < |p[k].Inputs| && !ops.IsCoinbase(p[k])
        && ops.CanUnlock(p[k].Inputs[j], address) && p[k].Inputs[j].ID == id && p[k].Inputs[j].Out == i;
      assert txs[k] == p[k];
    }
    if !ops.IsCoinbase(x) && SpentByInputs(x.Inputs, id, i, address, ops) {
      var j :| 0 <= j < |x.Inputs| && ops.CanUnlock(x.Inputs[j], address) && x.Inputs[j].ID == id && x.Inputs[j].Out == i;
      assert txs[|p|] == x;
    }
  }

  /** After scanning txs, output i of transaction id is recorded as spent
      exactly when some non-coinbase transaction of txs spends it with an
      input that address can unlock. */
  lemma {:induction false} SpentCharacterization(txs: seq<Transaction>, id: seq<byte>, i: int, address: string, ops: TxOps)
    ensures i in Spent(ScanTxs(txs, address, ops).Spent, id) <==> SpentBy(txs, id, i, address, ops)
  {
    if txs != [] {
      var p, x := txs[..|txs| - 1], txs[|txs| - 1];
      assert txs == p + [x];
      SpentCharacterization(p, id, i, address, ops);
      SpentByLast(p, x, id, i, address, ops);
      if !ops.IsCoinbase(x) {
        RecordInputsSpent(ScanTxs(p, address, ops).Spent, x.Inputs, id, i, address, ops);
      }
    }
  }

  // ---------------------------------------------------------------------------
  // The hits, characterized.

  /** Output i of the k-th transaction is unlockable by address and no
      transaction visited before it spends it. */
  ghost predicate Unspent(txs: seq<Transaction>, k: int, i: int, address: string, ops: TxOps)
  {
    && 0 <= k < |txs|
    && 0 <= i < |txs[k].Outputs|
    && ops.CanBeUnlocked(txs[k].Outputs[i], address)
    && !SpentBy(txs[..k], txs[k].ID, i, address, ops)
  }

  /** The hits of one transaction are exactly its reported outputs, each once,
      in increasing index order. */
  lemma {:induction false} OutputHitsExact(tx: Transaction, n: nat, spent: map<seq<byte>, seq<int>>, address: string, ops: TxOps)
    requires n <= |tx.Outputs|
    ensures var hits := OutputHits(tx, n, spent, address, ops);
      && (forall h :: h in hits <==> h.Tx == tx && 0 <= h.Index < n && h.Output == tx.Outputs[h.Index]
                                      && Reports(tx, h.Index, spent, address, ops))
      && (forall a, b :: 0 <= a < b < |hits| ==> hits[a].Index < hits[b].Index)
  {
    if n > 0 {
      OutputHitsExact(tx, n - 1, spent, address, ops);
      var p := OutputHits(tx, n - 1, spent, address, ops);
      assert forall h :: h in p ==> h.Index < n - 1;
    }
  }

  /** The hit h stands for output h.Index of the k-th transaction of txs,
      which is unspent and unlockable there. */
  ghost predicate Occurs(txs: seq<Transaction>, k: int, h: Hit, address: string, ops: TxOps)
  {
    0 <= k < |txs| && txs[k] == h.Tx && Unspent(txs, k, h.Index, address, ops) && h.Output == h.Tx.Outputs[h.Index]
  }

  /** Appending a transaction does not change what the earlier ones leave unspent. */
  lemma OccursPrefix(p: seq<Transaction>, x: Transaction, k: int, h: Hit, address: string, ops: TxOps)
    requires 0 <= k < |p|
    ensures Occurs(p + [x], k, h, address, ops) <==> Occurs(p, k, h, address, ops)
  {
    assert (p + [x])[..k] == p[..k];
  }

  /** The appended transaction's unspent outputs are those it reports against
      the spent map of the scan so far. */
  lemma OccursLast(p: seq<Transaction>, x: Transaction, h: Hit, address: string, ops: TxOps)
    ensures Occurs(p + [x], |p|, h, address, ops)
        <==> h.Tx == x && 0 <= h.Index < |x.Outputs| && h.Output == x.Outputs[h.Index]
             && Reports(x, h.Index, ScanTxs(p, address, ops).Spent, address, ops)
  {
    assert (p + [x])[..|p|] == p;
    SpentCharacterization(p, x.ID, h.Index, address, ops);
  }

  /** A hit is recorded for output i of t exactly when t occurs in txs at some
      position k and output i of that occurrence is unspent and unlockable. */
  lemma {:induction false} HitsCharacterization(txs: seq<Transaction>, h: Hit, address: string, ops: TxOps)
    ensures h in ScanTxs(txs, address, ops).Hits <==> exists k :: Occurs(txs, k, h, address, ops)
  {
    if txs != [] {
      var p, x := txs[..|txs| - 1], txs[|txs| - 1];
      assert txs == p + [x];
      var st := ScanTxs(p, address, ops);
      HitsCharacterization(p, h, address, ops);
      OutputHitsExact(x, |x.Outputs|, st.Spent, address, ops);
      OccursLast(p, x, h, address, ops);
      if exists k :: Occurs(p, k, h, address, ops) {
        var k :| Occurs(p, k, h, address, ops);
        OccursPrefix(p, x, k, h, address, ops);
      }
      if exists k :: Occurs(txs, k, h, address, ops) {
        var k :| Occurs(txs, k, h, address, ops);
        if k < |p| {
          OccursPrefix(p, x, k, h, address, ops);
        }
      }
    }
  }

  lemma {:induction false} HitTxsMembership(hits: seq<Hit>, t: Transaction)
    ensures t in HitTxs(hits) <==> exists h :: h in hits && h.Tx == t
  {
    if hits != [] {
      var p := hits[..|hits| - 1];
      HitTxsMembership(p, t);
      assert hits == p + [hits[|hits| - 1]];
    }
  }

  lemma ScanTxsMembership(txs: seq<Transaction>, t: Transaction, address: string, ops: TxOps)
    ensures t in HitTxs(ScanTxs(txs, address, ops).Hits)
        <==> exists k, i :: 0 <= k < |txs| && txs[k] == t && Unspent(txs, k, i, address, ops)
  {
    var hits := ScanTxs(txs, address, ops).Hits;
    HitTxsMembership(hits, t);
    if t in HitTxs(hits) {
      var h :| h in hits && h.Tx == t;
      HitsCharacterization(txs, h, address, ops);
      var k :| Occurs(txs, k, h, address, ops);
      assert txs[k] == t && Unspent(txs, k, h.Index, address, ops);
    }
    if exists k, i :: 0 <= k < |txs| && txs[k] == t && Unspent(txs, k, i, address, ops) {
      var k, i :| 0 <= k < |txs| && txs[k] == t && Unspent(txs, k, i, address, ops);
      var h := Hit(t, i, t.Outputs[i]);
      assert Occurs(txs, k, h, address, ops);
      HitsCharacterization(txs, h, address, ops);
      assert h in hits && h.Tx == t;
    }
  }

  /** A transaction is in FindUnspentTransactions' result exactly when one of
      its occurrences in the visited blocks has an output that address can
      unlock and that no transaction visited before it spends. */
  lemma UnspentTransactionsMembership(blocks: seq<TxBlock>, t: Transaction, address: string, ops: TxOps)
    ensures var txs := Flatten(blocks);
      t in UnspentTransactions(blocks, address, ops)
      <==> exists k, i :: 0 <= k < |txs| && txs[k] == t && Unspent(txs, k, i, address, ops)
  {
    var txs := Flatten(blocks);
    ScanTxsMembership(txs, t, address, ops);
    assert t in UnspentTransactions(blocks, address, ops) <==> t in HitTxs(ScanTxs(txs, address, ops).Hits);
    assert t in UnspentTransactions(blocks, address, ops) <==> exists k, i :: 0 <= k < |txs| && txs[k] == t && Unspent(txs, k, i, address, ops);
  }

  /** A transaction is appended to unspentTXs once for every output of its
      that counts, so it can appear several times in a row. */
  lemma {:induction false} HitsPerTransaction(tx: Transaction, n: nat, spent: map<seq<byte>, seq<int>>, address: string, ops: TxOps)
    requires n <= |tx.Outputs|
    ensures |OutputHits(tx, n, spent, address, ops)| == |set i | 0 <= i < n && Reports(tx, i, spent, address, ops)|
  {
    if n > 0 {
      HitsPerTransaction(tx, n - 1, spent, address, ops);
      var before := set i | 0 <= i < n - 1 && Reports(tx, i, spent, address, ops);
      var after := set i | 0 <= i < n && Reports(tx, i, spent, address, ops);
      if Reports(tx, n - 1, spent, address, ops) {
        assert after == before + {n - 1};
      } else {
        assert after == before;
      }
    }
  }

  // ---------------------------------------------------------------------------
  // FindUTXO.

  /** The outputs of the list that address can unlock, in order. */
  function Unlocked(outs: seq<TxOutput>, address: string, ops: TxOps): seq<TxOutput>
  {
    if outs == [] then []
    else
      Unlocked(outs[..|outs| - 1], address, ops)
      + (if ops.CanBeUnlocked(outs[|outs| - 1], address) then [outs[|outs| - 1]] else [])
  }

  /** FindUTXO's result for the transactions FindUnspentTransactions returned:
      every unlockable output of each of them, without looking at the spent map. */
  function UTXOs(txs: seq<Transaction>, address: string, ops: TxOps): seq<TxOutput>
  {
    if txs == [] then [] else UTXOs(txs[..|txs| - 1], address, ops) + Unlocked(txs[|txs| - 1].Outputs, address, ops)
  }

  lemma UTXOsSnoc(txs: seq<Transaction>, x: Transaction, address: string, ops: TxOps)
    ensures UTXOs(txs + [x], address, ops) == UTXOs(txs, address, ops) + Unlocked(x.Outputs, address, ops)
  {
    assert (txs + [x])[..|txs|] == txs;
  }

  lemma {:induction false} UnlockedMembership(outs: seq<TxOutput>, o: TxOutput, address: string, ops: TxOps)
    ensures o in Unlocked(outs, address, ops) <==> o in outs && ops.CanBeUnlocked(o, address)
  {
    if outs != [] {
      var p := outs[..|outs| - 1];
      UnlockedMembership(p, o, address, ops);
      assert outs == p + [outs[|outs| - 1]];
    }
  }

  /** An output is listed exactly when it is an output, unlockable by
      address, of one of the given transactions. */
  lemma {:induction false} UTXOsMembership(txs: seq<Transaction>, o: TxOutput, address: string, ops: TxOps)
    ensures o in UTXOs(txs, address, ops)
        <==> exists k, i :: 0 <= k < |txs| && 0 <= i < |txs[k].Outputs| && txs[k].Outputs[i] == o
                            && ops.CanBeUnlocked(o, address)
  {
    if txs != [] {
      var p, x := txs[..|txs| - 1], txs[|txs| - 1];
      UTXOsMembership(p, o, address, ops);
      UnlockedMembership(x.Outputs, o, address, ops);
      assert forall k :: 0 <= k < |p| ==> txs[k] == p[k];
      if o in Unlocked(x.Outputs, address, ops) {
        var i :| 0 <= i < |x.Outputs| && x.Outputs[i] == o;
        assert txs[|p|].Outputs[i] == o;
      }
      if exists k, i :: 0 <= k < |txs| && 0 <= i < |txs[k].Outputs| && txs[k].Outputs[i] == o
                        && ops.CanBeUnlocked(o, address) {
        var k, i :| 0 <= k < |txs| && 0 <= i < |txs[k].Outputs| && txs[k].Outputs[i] == o
                    && ops.CanBeUnlocked(o, address);
        if k < |p| {
          assert p[k].Outputs[i] == o;
        } else {
          assert x.Outputs[i] == o;
        }
      }
    }
  }
}
