/** Two places where FindUTXO and FindSpendableOutputs do not compute what
    their comments promise, each shown on a concrete chain, together with
    corrected definitions built from the scan's hits and the properties
    the comments intend. */
module Findings {
  import opened Bytes
  import opened Types
  import opened Transactions
  import opened Utxo
  import opened Selection

  // ---------------------------------------------------------------------------
  // Corrected definitions.

  /** The output of every hit, in order. */
  function HitOutputs(hits: seq<Hit>): (outs: seq<TxOutput>)
  {
    seq(|hits|, j requires 0 <= j < |hits| => hits[j].Output)
  }

  /** FindUTXO as intended: the outputs the scan found unspent. */
  function UnspentOutputs(blocks: seq<TxBlock>, address: string, ops: TxOps): seq<TxOutput>
  {
    HitOutputs(ScanTxs(Flatten(blocks), address, ops).Hits)
  }

  /** A pick for every hit, in order. */
  function HitPicks(hits: seq<Hit>): (ps: seq<Pick>)
  {
    seq(|hits|, j requires 0 <= j < |hits| => Pick(hits[j].Tx.ID, hits[j].Index, hits[j].Output.Value))
  }

  /** FindSpendableOutputs as intended: the greedy walk over the unspent outputs. */
  function CorrectedSpendableOutputs(blocks: seq<TxBlock>, address: string, amount: int, ops: TxOps)
    : (int, map<seq<byte>, seq<int>>)
  {
    Spendable(HitPicks(ScanTxs(Flatten(blocks), address, ops).Hits), amount)
  }

  /** No two transactions share an ID (IDs are transaction hashes). */
  predicate DistinctIDs(txs: seq<Transaction>)
  {
    forall a, b :: 0 <= a < b < |txs| ==> txs[a].ID != txs[b].ID
  }

  /** No two hits name the same output of the same transaction ID. */
  predicate DistinctHits(hits: seq<Hit>)
  {
    forall a, b :: 0 <= a < b < |hits| ==> hits[a].Tx.ID != hits[b].Tx.ID || hits[a].Index != hits[b].Index
  }

  predicate DistinctPicks(ps: seq<Pick>)
  {
    forall a, b :: 0 <= a < b < |ps| ==> ps[a].TxID != ps[b].TxID || ps[a].OutIdx != ps[b].OutIdx
  }

  predicate NoRepeats(xs: seq<int>)
  {
    forall a, b :: 0 <= a < b < |xs| ==> xs[a] != xs[b]
  }

  // ---------------------------------------------------------------------------
  // Properties of the corrected definitions.

  /** With distinct transaction IDs, the scan reports every output at most once. */
  lemma {:induction false} HitsDistinct(txs: seq<Transaction>, address: string, ops: TxOps)
    requires DistinctIDs(txs)
    ensures DistinctHits(ScanTxs(txs, address, ops).Hits)
  {
    if txs != [] {
      var p, x := txs[..|txs| - 1], txs[|txs| - 1];
      var st := ScanTxs(p, address, ops);
      var o := OutputHits(x, |x.Outputs|, st.Spent, address, ops);
      var hits := ScanTxs(txs, address, ops).Hits;
      assert hits == st.Hits + o;
      HitsDistinct(p, address, ops);
      OutputHitsExact(x, |x.Outputs|, st.Spent, address, ops);
      forall a, b | 0 <= a < b < |hits|
        ensures hits[a].Tx.ID != hits[b].Tx.ID || hits[a].Index != hits[b].Index
      {
        if b < |st.Hits| {
          assert hits[a] == st.Hits[a] && hits[b] == st.Hits[b];
        } else if a >= |st.Hits| {
          assert hits[a] == o[a - |st.Hits|] && hits[b] == o[b - |st.Hits|];
        } else {
          var h := st.Hits[a];
          assert hits[a] == h;
          HitsCharacterization(p, h, address, ops);
          var k :| Occurs(p, k, h, address, ops);
          assert h.Tx.ID == txs[k].ID;
          assert hits[b] in o;
        }
      }
    }
  }

  /** A hit of the scan stands for an unspent output of one of its transactions. */
  lemma HitOccurs(txs: seq<Transaction>, h: Hit, address: string, ops: TxOps)
    requires h in ScanTxs(txs, address, ops).Hits
    ensures exists k :: Occurs(txs, k, h, address, ops)
  {
    HitsCharacterization(txs, h, address, ops);
  }

  /** FindUTXO corrected: every reported output is the output of a hit, which
      stands for an unspent unlockable output, and with distinct transaction
      IDs no output is reported twice. */
  lemma UnspentOutputsExact(blocks: seq<TxBlock>, address: string, ops: TxOps)
    ensures |UnspentOutputs(blocks, address, ops)| == |ScanTxs(Flatten(blocks), address, ops).Hits|
    ensures forall j :: 0 <= j < |ScanTxs(Flatten(blocks), address, ops).Hits| ==>
      var h := ScanTxs(Flatten(blocks), address, ops).Hits[j];
      UnspentOutputs(blocks, address, ops)[j] == h.Output && exists k :: Occurs(Flatten(blocks), k, h, address, ops)
    ensures DistinctIDs(Flatten(blocks)) ==> DistinctHits(ScanTxs(Flatten(blocks), address, ops).Hits)
  {
    assert UnspentOutputs(blocks, address, ops) == HitOutputs(ScanTxs(Flatten(blocks), address, ops).Hits);
    var txs := Flatten(blocks);
    var hits := ScanTxs(txs, address, ops).Hits;
    forall j | 0 <= j < |hits|
      ensures exists k :: Occurs(txs, k, hits[j], address, ops)
    {
      HitOccurs(txs, hits[j], address, ops);
    }
    if DistinctIDs(txs) {
      HitsDistinct(txs, address, ops);
    }
  }

  /** Each reported output stands for an unspent one. */
  lemma UnspentOutputsSound(blocks: seq<TxBlock>, out: TxOutput, address: string, ops: TxOps)
    requires out in UnspentOutputs(blocks, address, ops)
    ensures exists k, i :: Unspent(Flatten(blocks), k, i, address, ops) && Flatten(blocks)[k].Outputs[i] == out
  {
    var txs := Flatten(blocks);
    var hits := ScanTxs(txs, address, ops).Hits;
    var j :| 0 <= j < |hits| && hits[j].Output == out;
    var h := hits[j];
    HitOccurs(txs, h, address, ops);
    var k :| Occurs(txs, k, h, address, ops);
    assert Unspent(txs, k, h.Index, address, ops) && txs[k].Outputs[h.Index] == out;
  }

  /** Each unspent output that address can unlock is reported. */
  lemma UnspentOutputsComplete(blocks: seq<TxBlock>, k: int, i: int, address: string, ops: TxOps)
    requires Unspent(Flatten(blocks), k, i, address, ops)
    ensures Flatten(blocks)[k].Outputs[i] in UnspentOutputs(blocks, address, ops)
  {
    var txs := Flatten(blocks);
    var hits := ScanTxs(txs, address, ops).Hits;
    var h := Hit(txs[k], i, txs[k].Outputs[i]);
    assert Occurs(txs, k, h, address, ops);
    HitsCharacterization(txs, h, address, ops);
    var j :| 0 <= j < |hits| && hits[j] == h;
    assert UnspentOutputs(blocks, address, ops)[j] == h.Output;
  }

  /** A selection built from distinct picks lists no index twice under an ID. */
  lemma {:induction false} GroupNoRepeats(ps: seq<Pick>, id: seq<byte>)
    requires DistinctPicks(ps)
    ensures NoRepeats(Spent(Group(ps), id))
  {
    if ps != [] {
      var q, p := ps[..|ps| - 1], ps[|ps| - 1];
      assert DistinctPicks(q);
      GroupNoRepeats(q, id);
      if id == p.TxID {
        var before := Spent(Group(q), id);
        GroupMembership(q, id, p.OutIdx);
        assert p.OutIdx !in before;
        assert Spent(Group(ps), id) == before + [p.OutIdx];
      }
    }
  }

  /** A selected pick is the pick of one of the hits. */
  lemma SelectedPick(hits: seq<Hit>, amount: int, id: seq<byte>, i: int)
    requires i in Spent(Spendable(HitPicks(hits), amount).1, id)
    ensures exists j :: 0 <= j < |hits| && hits[j].Tx.ID == id && hits[j].Index == i
  {
    var picks := HitPicks(hits);
    var n := GreedyCount(Values(picks), amount);
    PrefixGroupMember(picks, n, id, i);
    var j :| 0 <= j < n && picks[j].TxID == id && picks[j].OutIdx == i;
    assert picks[j] == Pick(hits[j].Tx.ID, hits[j].Index, hits[j].Output.Value);
  }

  /** An index listed under id in the selection of a prefix comes from a pick of that prefix. */
  lemma PrefixGroupMember(picks: seq<Pick>, n: nat, id: seq<byte>, i: int)
    requires n <= |picks| && i in Spent(Group(picks[..n]), id)
    ensures exists j :: 0 <= j < n && picks[j].TxID == id && picks[j].OutIdx == i
  {
    GroupMembership(picks[..n], id, i);
    var p :| p in picks[..n] && p.TxID == id && p.OutIdx == i;
    var j :| 0 <= j < n && picks[..n][j] == p;
    assert picks[j] == p;
  }

  /** FindSpendableOutputs corrected: every selected index is an output that
      is unspent at an occurrence of its transaction. */
  lemma CorrectedSelectionUnspent(blocks: seq<TxBlock>, address: string, amount: int, ops: TxOps, id: seq<byte>, i: int)
    requires i in Spent(CorrectedSpendableOutputs(blocks, address, amount, ops).1, id)
    ensures exists k :: 0 <= k < |Flatten(blocks)| && Flatten(blocks)[k].ID == id && Unspent(Flatten(blocks), k, i, address, ops)
  {
    var txs := Flatten(blocks);
    var hits := ScanTxs(txs, address, ops).Hits;
    SelectedPick(hits, amount, id, i);
    var j :| 0 <= j < |hits| && hits[j].Tx.ID == id && hits[j].Index == i;
    HitOccurs(txs, hits[j], address, ops);
    var k :| Occurs(txs, k, hits[j], address, ops);
    assert txs[k].ID == id && Unspent(txs, k, i, address, ops);
  }

  /** FindSpendableOutputs corrected: with distinct transaction IDs it never
      selects the same output twice. */
  lemma CorrectedSelectionOnce(blocks: seq<TxBlock>, address: string, amount: int, ops: TxOps, id: seq<byte>)
    requires DistinctIDs(Flatten(blocks))
    ensures NoRepeats(Spent(CorrectedSpendableOutputs(blocks, address, amount, ops).1, id))
  {
    var hits := ScanTxs(Flatten(blocks), address, ops).Hits;
    HitsDistinct(Flatten(blocks), address, ops);
    var picks := HitPicks(hits);
    var n := GreedyCount(Values(picks), amount);
    assert DistinctPicks(picks[..n]);
    GroupNoRepeats(picks[..n], id);
  }

  // ---------------------------------------------------------------------------
  // The code as written, on concrete chains.

  /** Transaction predicates as the transaction subsystem defines them: an
      output belongs to its public key, an input to its signature, and a
      coinbase has one input with an empty ID and index -1. */
  const DemoOps: TxOps := TxOps(
    (o: TxOutput, a: string) => o.PubKey == a,
    (i: TxInput, a: string) => i.Sig == a,
    (t: Transaction) => |t.Inputs| == 1 && t.Inputs[0].ID == [] && t.Inputs[0].Out == -1,
    (to: string, data: string) => Transaction([], [TxInput([], -1, data)], [TxOutput(100, to)]))

  // Unfoldings of the scan and selection functions on short sequences.

  lemma FlattenTwo(a: TxBlock, b: TxBlock)
    ensures Flatten([a]) == a.Payload && Flatten([a, b]) == a.Payload + b.Payload
  {
    assert [a, b][..1] == [a] && [a][..0] == [];
  }

  lemma ScanTxsTwo(x: Transaction, y: Transaction, address: string, ops: TxOps)
    ensures ScanTxs([x], address, ops) == ScanTx(Scan([], map[]), x, address, ops)
    ensures ScanTxs([x, y], address, ops) == ScanTx(ScanTx(Scan([], map[]), x, address, ops), y, address, ops)
  {
    assert [x, y][..1] == [x] && [x][..0] == [];
  }

  lemma OutputHitsTwo(tx: Transaction, spent: map<seq<byte>, seq<int>>, address: string, ops: TxOps)
    requires |tx.Outputs| == 2
    ensures OutputHits(tx, 2, spent, address, ops)
      == (if Reports(tx, 0, spent, address, ops) then [Hit(tx, 0, tx.Outputs[0])] else [])
       + (if Reports(tx, 1, spent, address, ops) then [Hit(tx, 1, tx.Outputs[1])] else [])
  {
    assert OutputHits(tx, 1, spent, address, ops)
      == (if Reports(tx, 0, spent, address, ops) then [Hit(tx, 0, tx.Outputs[0])] else []);
  }

  lemma OutputPicksTwo(tx: Transaction, address: string, ops: TxOps)
    requires |tx.Outputs| == 2
    ensures OutputPicks(tx, 2, address, ops)
      == (if ops.CanBeUnlocked(tx.Outputs[0], address) then [Pick(tx.ID, 0, tx.Outputs[0].Value)] else [])
       + (if ops.CanBeUnlocked(tx.Outputs[1], address) then [Pick(tx.ID, 1, tx.Outputs[1].Value)] else [])
  {
    assert OutputPicks(tx, 1, address, ops)
      == (if ops.CanBeUnlocked(tx.Outputs[0], address) then [Pick(tx.ID, 0, tx.Outputs[0].Value)] else []);
  }

  lemma RecordOne(spent: map<seq<byte>, seq<int>>, input: TxInput, address: string, ops: TxOps)
    ensures RecordInputs(spent, [input], address, ops)
      == if ops.CanUnlock(input, address) then spent[input.ID := Spent(spent, input.ID) + [input.Out]] else spent
  {
    assert [input][..0] == [];
  }

  lemma HitsTwo(h0: Hit, h1: Hit)
    ensures HitTxs([h0]) == [h0.Tx] && HitTxs([h0, h1]) == [h0.Tx, h1.Tx]
    ensures HitOutputs([h0]) == [h0.Output]
    ensures HitPicks([h0, h1]) == [Pick(h0.Tx.ID, h0.Index, h0.Output.Value), Pick(h1.Tx.ID, h1.Index, h1.Output.Value)]
  {
    assert [h0, h1][..1] == [h0] && [h0][..0] == [];
  }

  lemma PicksTwo(p0: Pick, p1: Pick)
    ensures Values([p0, p1]) == [p0.Value, p1.Value]
    ensures Group([p0]) == map[p0.TxID := [p0.OutIdx]]
    ensures Group([p0, p1]) == Group([p0])[p1.TxID := Spent(Group([p0]), p1.TxID) + [p1.OutIdx]]
  {
    assert [p0, p1][..1] == [p0] && [p0][..0] == [];
    assert Values([p0]) == [p0.Value];
    assert Spent(map[], p0.TxID) + [p0.OutIdx] == [p0.OutIdx];
    assert Group([p0]) == map[][p0.TxID := [p0.OutIdx]];
    assert Group([p0]).Keys == {p0.TxID};
  }

  lemma PicksFour(p0: Pick, p1: Pick, p2: Pick, p3: Pick)
    ensures Values([p0, p1, p2, p3]) == Values([p0, p1]) + [p2.Value, p3.Value]
    ensures Group([p0, p1, p2]) == Group([p0, p1])[p2.TxID := Spent(Group([p0, p1]), p2.TxID) + [p2.OutIdx]]
    ensures Group([p0, p1, p2, p3]) == Group([p0, p1, p2])[p3.TxID := Spent(Group([p0, p1, p2]), p3.TxID) + [p3.OutIdx]]
  {
    assert [p0, p1, p2, p3][..3] == [p0, p1, p2] && [p0, p1, p2][..2] == [p0, p1];
  }

  lemma SumsFive()
    ensures Sum([5, 5]) == 10 && Sum([5, 5, 5, 5]) == 20
    ensures GreedyCount([5, 5], 20) == 2 && GreedyCount([5, 5, 5, 5], 20) == 4
  {
    assert [5, 5, 5, 5][..3] == [5, 5, 5] && [5, 5, 5][..2] == [5, 5] && [5, 5][..1] == [5] && [5][..0] == [];
    assert [5, 5, 5, 5][1..] == [5, 5, 5] && [5, 5, 5][1..] == [5, 5] && [5, 5][1..] == [5] && [5][1..] == [];
  }

  /** Transaction [1] pays 5 and 7 to A; transaction [2], mined after it,
      spends the 5 and pays 5 to B. */
  const Paid: Transaction := Transaction([1], [], [TxOutput(5, "A"), TxOutput(7, "A")])
  const Spending: Transaction := Transaction([2], [TxInput([1], 0, "A")], [TxOutput(5, "B")])

  /** The chain as the iterator visits it: the newer block first. */
  const SpendChain: seq<TxBlock> := [Block([2], [Spending], [1], 0), Block([1], [Paid], [], 0)]

  lemma SpendChainScan()
    ensures ScanTxs(Flatten(SpendChain), "A", DemoOps) == Scan([Hit(Paid, 1, TxOutput(7, "A"))], map[[1] := [0]])
  {
    FlattenTwo(SpendChain[0], SpendChain[1]);
    ScanTxsTwo(Spending, Paid, "A", DemoOps);
    assert Spending.Inputs == [TxInput([1], 0, "A")];
    RecordOne(map[], TxInput([1], 0, "A"), "A", DemoOps);
    assert Spent(map[], [1]) + [0] == [0];
    var spent: map<seq<byte>, seq<int>> := map[[1] := [0]];
    assert RecordInputs(map[], Spending.Inputs, "A", DemoOps) == spent;
    assert OutputHits(Spending, 1, map[], "A", DemoOps) == [] by {
      assert !Reports(Spending, 0, map[], "A", DemoOps);
    }
    assert ScanTx(Scan([], map[]), Spending, "A", DemoOps) == Scan([], spent);
    OutputHitsTwo(Paid, spent, "A", DemoOps);
    assert Spent(spent, [1]) == [0];
    assert !Reports(Paid, 0, spent, "A", DemoOps);
    assert Reports(Paid, 1, spent, "A", DemoOps);
  }

  /** FindUTXO reports an output that a later transaction spent: it returns
      both outputs of transaction [1], while only the 7 is unspent. */
  lemma FindUTXOCountsSpent()
    ensures UTXOs(UnspentTransactions(SpendChain, "A", DemoOps), "A", DemoOps) == [TxOutput(5, "A"), TxOutput(7, "A")]
    ensures UnspentOutputs(SpendChain, "A", DemoOps) == [TxOutput(7, "A")]
  {
    SpendChainScan();
    var hit := Hit(Paid, 1, TxOutput(7, "A"));
    HitsTwo(hit, hit);
    assert UnspentTransactions(SpendChain, "A", DemoOps) == [Paid];
    assert UTXOs([Paid], "A", DemoOps) == Unlocked(Paid.Outputs, "A", DemoOps) by {
      assert [Paid][..0] == [];
    }
    assert Paid.Outputs[..1] == [TxOutput(5, "A")] && Paid.Outputs[..1][..0] == [];
  }

  /** Transaction [1] pays 5 and 5 to A, and nothing spends them. */
  const Twice: Transaction := Transaction([1], [], [TxOutput(5, "A"), TxOutput(5, "A")])
  const TwiceChain: seq<TxBlock> := [Block([1], [Twice], [], 0)]

  lemma TwiceChainScan()
    ensures ScanTxs(Flatten(TwiceChain), "A", DemoOps).Hits == [Hit(Twice, 0, TxOutput(5, "A")), Hit(Twice, 1, TxOutput(5, "A"))]
  {
    FlattenTwo(TwiceChain[0], TwiceChain[0]);
    ScanTxsTwo(Twice, Twice, "A", DemoOps);
    OutputHitsTwo(Twice, map[], "A", DemoOps);
    assert Reports(Twice, 0, map[], "A", DemoOps) && Reports(Twice, 1, map[], "A", DemoOps);
  }

  /** FindSpendableOutputs selects one output twice: FindUnspentTransactions
      lists transaction [1] once per unspent output, so asking for 20 selects
      indices 0, 1, 0, 1 for a total of 20, while A owns only 10. */
  lemma FindSpendableOutputsRepeats()
    ensures SpendableOutputs(UnspentTransactions(TwiceChain, "A", DemoOps), "A", 20, DemoOps) == (20, map[[1] := [0, 1, 0, 1]])
    ensures CorrectedSpendableOutputs(TwiceChain, "A", 20, DemoOps) == (10, map[[1] := [0, 1]])
  {
    TwiceChainScan();
    var h0, h1 := Hit(Twice, 0, TxOutput(5, "A")), Hit(Twice, 1, TxOutput(5, "A"));
    HitsTwo(h0, h1);
    assert UnspentTransactions(TwiceChain, "A", DemoOps) == [Twice, Twice];
    var p0, p1 := Pick([1], 0, 5), Pick([1], 1, 5);
    TwiceSelection(p0, p1);
    assert HitPicks([h0, h1]) == [p0, p1];
  }

  lemma TwiceSelection(p0: Pick, p1: Pick)
    requires p0 == Pick([1], 0, 5) && p1 == Pick([1], 1, 5)
    ensures SpendableOutputs([Twice, Twice], "A", 20, DemoOps) == (20, map[[1] := [0, 1, 0, 1]])
    ensures Spendable([p0, p1], 20) == (10, map[[1] := [0, 1]])
  {
    TwiceCandidates(p0, p1);
    GreedyFour(p0, p1);
  }

  lemma TwiceCandidates(p0: Pick, p1: Pick)
    requires p0 == Pick([1], 0, 5) && p1 == Pick([1], 1, 5)
    ensures Candidates([Twice, Twice], "A", DemoOps) == [p0, p1, p0, p1]
  {
    OutputPicksTwo(Twice, "A", DemoOps);
    assert OutputPicks(Twice, 2, "A", DemoOps) == [p0, p1];
    assert [Twice, Twice][..1] == [Twice] && [Twice][..0] == [];
    assert Candidates([Twice], "A", DemoOps) == [p0, p1];
  }

  lemma GreedyFour(p0: Pick, p1: Pick)
    requires p0 == Pick([1], 0, 5) && p1 == Pick([1], 1, 5)
    ensures Spendable([p0, p1, p0, p1], 20) == (20, map[[1] := [0, 1, 0, 1]])
    ensures Spendable([p0, p1], 20) == (10, map[[1] := [0, 1]])
  {
    GroupTwice(p0, p1);
    FourValues(p0, p1);
    SumsFive();
    SpendableAll([p0, p1, p0, p1], 20);
    SpendableAll([p0, p1], 20);
  }

  lemma FourValues(p0: Pick, p1: Pick)
    ensures Values([p0, p1, p0, p1]) == [p0.Value, p1.Value, p0.Value, p1.Value]
  {
    PicksTwo(p0, p1);
    PicksFour(p0, p1, p0, p1);
  }

  /** When the walk runs to the end, it takes everything. */
  lemma SpendableAll(ps: seq<Pick>, amount: int)
    requires GreedyCount(Values(ps), amount) == |ps|
    ensures Spendable(ps, amount) == (Sum(Values(ps)), Group(ps))
  {
    assert ps[..|ps|] == ps;
  }

  lemma GroupTwice(p0: Pick, p1: Pick)
    requires p0 == Pick([1], 0, 5) && p1 == Pick([1], 1, 5)
    ensures Values([p0, p1]) == [5, 5]
    ensures Group([p0, p1]) == map[[1] := [0, 1]]
    ensures Group([p0, p1, p0, p1]) == map[[1] := [0, 1, 0, 1]]
  {
    GroupSameID(p0, p1);
  }

  /** Picks of one transaction ID are grouped under that ID in order. */
  lemma GroupSameID(p0: Pick, p1: Pick)
    requires p0.TxID == p1.TxID
    ensures Values([p0, p1]) == [p0.Value, p1.Value]
    ensures Group([p0, p1]) == map[p0.TxID := [p0.OutIdx, p1.OutIdx]]
    ensures Group([p0, p1, p0, p1]) == map[p0.TxID := [p0.OutIdx, p1.OutIdx, p0.OutIdx, p1.OutIdx]]
  {
    var id, i, j := p0.TxID, p0.OutIdx, p1.OutIdx;
    PicksTwo(p0, p1);
    GroupSnoc([p0], p1, [i]);
    assert [p0] + [p1] == [p0, p1] && [i] + [j] == [i, j];
    GroupSnoc([p0, p1], p0, [i, j]);
    assert [p0, p1] + [p0] == [p0, p1, p0] && [i, j] + [i] == [i, j, i];
    GroupSnoc([p0, p1, p0], p1, [i, j, i]);
    assert [p0, p1, p0] + [p1] == [p0, p1, p0, p1] && [i, j, i] + [j] == [i, j, i, j];
  }

  lemma GroupSnoc(ps: seq<Pick>, p: Pick, xs: seq<int>)
    requires Group(ps) == map[p.TxID := xs]
    ensures Group(ps + [p]) == map[p.TxID := xs + [p.OutIdx]]
  {
    assert (ps + [p])[..|ps|] == ps;
  }


}
