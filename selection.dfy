/** What FindSpendableOutputs computes from the transactions that
    FindUnspentTransactions returned: it walks their unlockable outputs in
    order, adds up their values, and stops at the first point where the sum
    reaches the amount. */
module Selection {
  import opened Bytes
  import opened Transactions
  import opened Utxo

  /** An output that can be selected: its transaction's ID, its index, its value. */
  datatype Pick = Pick(TxID: seq<byte>, OutIdx: int, Value: int)

  /** The outputs among the first n of tx that address can unlock, in index order. */
  function OutputPicks(tx: Transaction, n: nat, address: string, ops: TxOps): seq<Pick>
    requires n <= |tx.Outputs|
  {
    if n == 0 then []
    else
      OutputPicks(tx, n - 1, address, ops)
      + (if ops.CanBeUnlocked(tx.Outputs[n - 1], address) then [Pick(tx.ID, n - 1, tx.Outputs[n - 1].Value)] else [])
  }

  /** Every output of txs that address can unlock, transaction by transaction. */
  function Candidates(txs: seq<Transaction>, address: string, ops: TxOps): seq<Pick>
  {
    if txs == [] then []
    else
      var last := txs[|txs| - 1];
      Candidates(txs[..|txs| - 1], address, ops) + OutputPicks(last, |last.Outputs|, address, ops)
  }

  function Values(ps: seq<Pick>): (vs: seq<int>)
    ensures |vs| == |ps|
  {
    if ps == [] then [] else Values(ps[..|ps| - 1]) + [ps[|ps| - 1].Value]
  }

  function Sum(vs: seq<int>): int
  {
    if vs == [] then 0 else Sum(vs[..|vs| - 1]) + vs[|vs| - 1]
  }

  /** How many values the greedy walk takes: none when nothing is needed,
      otherwise values until their sum reaches amount or they run out. */
  function GreedyCount(vs: seq<int>, amount: int): (n: nat)
    ensures n <= |vs|
  {
    if amount <= 0 || vs == [] then 0 else 1 + GreedyCount(vs[1..], amount - vs[0])
  }

  /** The selected output indices per transaction ID, in selection order. */
  function Group(ps: seq<Pick>): map<seq<byte>, seq<int>>
  {
    if ps == [] then map[]
    else
      var g := Group(ps[..|ps| - 1]);
      var p := ps[|ps| - 1];
      g[p.TxID := Spent(g, p.TxID) + [p.OutIdx]]
  }

  /** The accumulated value and the selection FindSpendableOutputs returns. */
  function Spendable(picks: seq<Pick>, amount: int): (int, map<seq<byte>, seq<int>>)
  {
    var n := GreedyCount(Values(picks), amount);
    (Sum(Values(picks[..n])), Group(picks[..n]))
  }

  function SpendableOutputs(txs: seq<Transaction>, address: string, amount: int, ops: TxOps): (int, map<seq<byte>, seq<int>>)
  {
    Spendable(Candidates(txs, address, ops), amount)
  }

  // ---------------------------------------------------------------------------

  lemma {:induction false} ValuesPrefix(ps: seq<Pick>, n: nat)
    requires n <= |ps|
    ensures Values(ps[..n]) == Values(ps)[..n]
  {
    if n < |ps| {
      var p := ps[..|ps| - 1];
      assert ps[..n] == p[..n];
      ValuesPrefix(p, n);
    } else {
      assert ps[..n] == ps;
    }
  }

  lemma {:induction false} SumFront(vs: seq<int>)
    requires vs != []
    ensures Sum(vs) == vs[0] + Sum(vs[1..])
  {
    if |vs| > 1 {
      var p := vs[..|vs| - 1];
      SumFront(p);
      assert p[1..] == vs[1..][..|vs[1..]| - 1];
    } else {
      assert vs[..0] == [] && vs[1..] == [];
    }
  }

  /** The greedy count is the first point where the running sum reaches
      amount: every shorter prefix sums to less, and it either reaches amount
      or takes every value. */
  lemma {:induction false} GreedyCountMeaning(vs: seq<int>, amount: int)
    ensures var n := GreedyCount(vs, amount);
      && (forall m :: 0 <= m < n ==> Sum(vs[..m]) < amount)
      && (n == |vs| || Sum(vs[..n]) >= amount)
  {
    var n := GreedyCount(vs, amount);
    if amount > 0 && vs != [] {
      var rest := vs[1..];
      GreedyCountMeaning(rest, amount - vs[0]);
      forall m | 0 <= m < n
        ensures Sum(vs[..m]) < amount
      {
        if m > 0 {
          SumFront(vs[..m]);
          assert vs[..m][1..] == rest[..m - 1];
        }
      }
      if n < |vs| {
        SumFront(vs[..n]);
        assert vs[..n][1..] == rest[..n - 1];
      }
    }
  }

  /** An amount of zero or less selects nothing. */
  lemma SpendableNonPositive(picks: seq<Pick>, amount: int)
    requires amount <= 0
    ensures Spendable(picks, amount) == (0, map[])
  {
  }

  /** The accumulated value is the sum of the selected picks; the walk stops as
      soon as it reaches amount, and if it stays below amount every candidate
      was selected. */
  lemma SpendableMeaning(picks: seq<Pick>, amount: int)
    ensures var n := GreedyCount(Values(picks), amount);
      && n <= |picks|
      && Spendable(picks, amount) == (Sum(Values(picks)[..n]), Group(picks[..n]))
      && (forall m :: 0 <= m < n ==> Sum(Values(picks)[..m]) < amount)
      && (Spendable(picks, amount).0 < amount ==> n == |picks|)
  {
    var n := GreedyCount(Values(picks), amount);
    GreedyCountMeaning(Values(picks), amount);
    ValuesPrefix(picks, n);
  }

  /** The unlockable outputs of a transaction are exactly its picks. */
  lemma {:induction false} OutputPicksMembership(tx: Transaction, n: nat, p: Pick, address: string, ops: TxOps)
    requires n <= |tx.Outputs|
    ensures p in OutputPicks(tx, n, address, ops)
        <==> p.TxID == tx.ID && 0 <= p.OutIdx < n && ops.CanBeUnlocked(tx.Outputs[p.OutIdx], address)
             && p.Value == tx.Outputs[p.OutIdx].Value
  {
    if n > 0 {
      OutputPicksMembership(tx, n - 1, p, address, ops);
    }
  }

  /** A pick is a candidate exactly when it names an output of some
      transaction of txs that address can unlock, with that output's value. */
  lemma {:induction false} CandidatesMembership(txs: seq<Transaction>, p: Pick, address: string, ops: TxOps)
    ensures p in Candidates(txs, address, ops)
        <==> exists k :: 0 <= k < |txs| && p.TxID == txs[k].ID && 0 <= p.OutIdx < |txs[k].Outputs|
                         && ops.CanBeUnlocked(txs[k].Outputs[p.OutIdx], address)
                         && p.Value == txs[k].Outputs[p.OutIdx].Value
  {
    if txs != [] {
      var q, x := txs[..|txs| - 1], txs[|txs| - 1];
      CandidatesMembership(q, p, address, ops);
      OutputPicksMembership(x, |x.Outputs|, p, address, ops);
      assert forall k :: 0 <= k < |q| ==> txs[k] == q[k];
      if exists k :: 0 <= k < |txs| && p.TxID == txs[k].ID && 0 <= p.OutIdx < |txs[k].Outputs|
                     && ops.CanBeUnlocked(txs[k].Outputs[p.OutIdx], address) && p.Value == txs[k].Outputs[p.OutIdx].Value {
        var k :| 0 <= k < |txs| && p.TxID == txs[k].ID && 0 <= p.OutIdx < |txs[k].Outputs|
                 && ops.CanBeUnlocked(txs[k].Outputs[p.OutIdx], address) && p.Value == txs[k].Outputs[p.OutIdx].Value;
        if k == |q| {
          assert txs[k] == x;
        }
      }
    }
  }

  /** Output i is listed under id in the selection exactly when some selected pick names it. */
  lemma {:induction false} GroupMembership(ps: seq<Pick>, id: seq<byte>, i: int)
    ensures id in Group(ps) <==> exists p :: p in ps && p.TxID == id
    ensures i in Spent(Group(ps), id) <==> exists p :: p in ps && p.TxID == id && p.OutIdx == i
  {
    if ps != [] {
      var q := ps[..|ps| - 1];
      GroupMembership(q, id, i);
      assert ps == q + [ps[|ps| - 1]];
    }
  }

  /** Every selected index names an output of one of the transactions that
      address can unlock. */
  lemma SelectionSound(txs: seq<Transaction>, address: string, amount: int, ops: TxOps, id: seq<byte>, i: int)
    requires i in Spent(SpendableOutputs(txs, address, amount, ops).1, id)
    ensures exists k :: 0 <= k < |txs| && txs[k].ID == id && 0 <= i < |txs[k].Outputs|
                        && ops.CanBeUnlocked(txs[k].Outputs[i], address)
  {
    var picks := Candidates(txs, address, ops);
    var n := GreedyCount(Values(picks), amount);
    GroupMembership(picks[..n], id, i);
    var p :| p in picks[..n] && p.TxID == id && p.OutIdx == i;
    CandidatesMembership(txs, p, address, ops);
  }

  lemma {:induction false} OutputPicksPrefix(tx: Transaction, m: nat, n: nat, address: string, ops: TxOps)
    requires m <= n <= |tx.Outputs|
    ensures OutputPicks(tx, m, address, ops) <= OutputPicks(tx, n, address, ops)
  {
    if m < n {
      OutputPicksPrefix(tx, m, n - 1, address, ops);
    }
  }

  lemma {:induction false} CandidatesPrefix(txs: seq<Transaction>, t: nat, address: string, ops: TxOps)
    requires t <= |txs|
    ensures Candidates(txs[..t], address, ops) <= Candidates(txs, address, ops)
  {
    if t < |txs| {
      var q := txs[..|txs| - 1];
      assert q[..t] == txs[..t];
      CandidatesPrefix(q, t, address, ops);
    } else {
      assert txs[..t] == txs;
    }
  }

  /** What the nested loops have seen after the first t transactions and the
      first o outputs of the next one is a prefix of all candidates. */
  lemma SeenPrefix(txs: seq<Transaction>, t: nat, o: nat, address: string, ops: TxOps)
    requires t < |txs| && o <= |txs[t].Outputs|
    ensures Candidates(txs[..t], address, ops) + OutputPicks(txs[t], o, address, ops) <= Candidates(txs, address, ops)
  {
    var x := txs[t];
    assert txs[..t + 1][..t] == txs[..t];
    OutputPicksPrefix(x, o, |x.Outputs|, address, ops);
    CandidatesPrefix(txs, t + 1, address, ops);
  }

  lemma CandidatesSnoc(txs: seq<Transaction>, t: nat, address: string, ops: TxOps)
    requires t < |txs|
    ensures Candidates(txs[..t + 1], address, ops)
         == Candidates(txs[..t], address, ops) + OutputPicks(txs[t], |txs[t].Outputs|, address, ops)
  {
    assert txs[..t + 1][..t] == txs[..t];
  }

  /** Taking the next candidate while the sum is still below amount: the
      greedy count lies beyond it, and the walk stops right after it exactly
      when the new sum reaches amount. */
  lemma TakeStep(picks: seq<Pick>, seen: seq<Pick>, p: Pick, amount: int)
    requires seen + [p] <= picks
    requires amount > 0 && |seen| <= GreedyCount(Values(picks), amount) && Sum(Values(seen)) < amount
    ensures |seen| < GreedyCount(Values(picks), amount)
    ensures Sum(Values(seen + [p])) == Sum(Values(seen)) + p.Value
    ensures Group(seen + [p]) == Group(seen)[p.TxID := Spent(Group(seen), p.TxID) + [p.OutIdx]]
    ensures Sum(Values(seen + [p])) >= amount ==> |seen| + 1 == GreedyCount(Values(picks), amount)
  {
    var c := |seen|;
    var n := GreedyCount(Values(picks), amount);
    assert (seen + [p])[..c] == seen;
    assert seen == picks[..c] && seen + [p] == picks[..c + 1];
    ValuesPrefix(picks, c);
    ValuesPrefix(picks, c + 1);
    GreedyCountMeaning(Values(picks), amount);
    assert Values(seen + [p]) == Values(seen) + [p.Value];
    assert Values(seen + [p])[..c] == Values(seen);
  }

  /** The state of FindSpendableOutputs' walk after it has looked at the
      candidates seen and not yet stopped: with a positive amount it took
      all of them and is still below amount; otherwise it took none. */
  ghost predicate Selecting(picks: seq<Pick>, amount: int, seen: seq<Pick>, taken: seq<Pick>,
                            accumulated: int, selection: map<seq<byte>, seq<int>>)
  {
    && seen <= picks
    && taken == (if amount > 0 then seen else [])
    && (amount > 0 ==> |seen| <= GreedyCount(Values(picks), amount) && accumulated < amount)
    && accumulated == Sum(Values(taken)) && selection == Group(taken)
  }

  /** The walk has taken exactly the greedy prefix of the candidates. */
  ghost predicate Selected(picks: seq<Pick>, amount: int, taken: seq<Pick>,
                           accumulated: int, selection: map<seq<byte>, seq<int>>)
  {
    var n := GreedyCount(Values(picks), amount);
    taken == picks[..n] && accumulated == Sum(Values(taken)) && selection == Group(taken)
  }

  /** Taking candidate p below amount: either the walk goes on, or the sum
      reached amount and the walk has taken exactly the greedy prefix. */
  lemma SelectingTake(picks: seq<Pick>, amount: int, seen: seq<Pick>, taken: seq<Pick>,
                      accumulated: int, selection: map<seq<byte>, seq<int>>, p: Pick)
    requires Selecting(picks, amount, seen, taken, accumulated, selection)
    requires seen + [p] <= picks && accumulated < amount
    ensures var acc', sel' := accumulated + p.Value, selection[p.TxID := Spent(selection, p.TxID) + [p.OutIdx]];
      if acc' >= amount then Selected(picks, amount, seen + [p], acc', sel')
      else Selecting(picks, amount, seen + [p], seen + [p], acc', sel')
  {
    TakeStep(picks, seen, p, amount);
    var n := GreedyCount(Values(picks), amount);
    if accumulated + p.Value >= amount {
      assert seen + [p] == picks[..n];
    }
  }

  /** Passing over candidate p once the sum reached amount, which only
      happens when amount is not positive and nothing is taken. */
  lemma SelectingSkip(picks: seq<Pick>, amount: int, seen: seq<Pick>, taken: seq<Pick>,
                      accumulated: int, selection: map<seq<byte>, seq<int>>, p: Pick)
    requires Selecting(picks, amount, seen, taken, accumulated, selection)
    requires seen + [p] <= picks && accumulated >= amount
    ensures Selecting(picks, amount, seen + [p], taken, accumulated, selection)
  {
  }

  /** Looking at output o of tx extends the candidates seen by that output
      when address can unlock it, and stays within the candidates. */
  lemma OutputStep(seen: seq<Pick>, tx: Transaction, o: nat, picks: seq<Pick>, address: string, ops: TxOps)
    requires o < |tx.Outputs| && seen + OutputPicks(tx, |tx.Outputs|, address, ops) <= picks
    ensures seen + OutputPicks(tx, o + 1, address, ops) <= picks
    ensures ops.CanBeUnlocked(tx.Outputs[o], address) ==>
      seen + OutputPicks(tx, o + 1, address, ops) == seen + OutputPicks(tx, o, address, ops) + [Pick(tx.ID, o, tx.Outputs[o].Value)]
    ensures !ops.CanBeUnlocked(tx.Outputs[o], address) ==>
      seen + OutputPicks(tx, o + 1, address, ops) == seen + OutputPicks(tx, o, address, ops)
  {
    OutputPicksPrefix(tx, o + 1, |tx.Outputs|, address, ops);
    var a, b := OutputPicks(tx, o + 1, address, ops), OutputPicks(tx, |tx.Outputs|, address, ops);
    assert seen + a == (seen + b)[..|seen| + |a|];
  }

  /** Having seen every candidate without stopping is the greedy result too. */
  lemma SelectingAll(picks: seq<Pick>, amount: int, seen: seq<Pick>, taken: seq<Pick>,
                     accumulated: int, selection: map<seq<byte>, seq<int>>)
    requires Selecting(picks, amount, seen, taken, accumulated, selection) && seen == picks
    ensures Selected(picks, amount, taken, accumulated, selection)
    ensures (accumulated, selection) == Spendable(picks, amount)
  {
  }
}
