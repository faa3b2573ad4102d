/**
 The money of the pool over whole runs: splitter runs, payer runs that start, visit their
 transactions in any order and stop at any moment, all interleaved in any way.
 */
module Ledger {
  import opened Payments
  import opened Splitter
  import opened Payer

  const THRESHOLD: int := 3_000_000_000

  /** `open` are the transactions of the payer that is running, `closed` all earlier debits. */
  datatype Ledger = Ledger(balances: Balances, blocks: Blocks, open: seq<Tx>, closed: seq<Payment>)

  datatype Event =
    | Split(miners: seq<Miner>, txs: seq<Incoming>)
    | Start(order: seq<Wallet>, integrated: Wallet -> bool)
    | Visit(index: nat, env: Env)
    | Stop

  const EMPTY: Ledger := Ledger(map[], map[], [], [])

  predicate Payable(balances: Balances, w: Wallet, integrated: Wallet -> bool) {
    w in balances && balances[w] > THRESHOLD && !integrated(w)
  }

  /** Some order of all payable wallets; the payer sorts them by balance. */
  ghost predicate IsOrder(order: seq<Wallet>, balances: Balances, integrated: Wallet -> bool) {
    (forall i, j :: 0 <= i < j < |order| ==> order[i] != order[j]) &&
    forall w :: w in order <==> Payable(balances, w, integrated)
  }

  /** Whole balances are paid out. */
  function Payouts(order: seq<Wallet>, balances: Balances): seq<Payment> {
    if order == [] then []
    else
      var w, balance := order[|order| - 1], Balance(balances, order[|order| - 1]);
      Payouts(order[..|order| - 1], balances) + [Payment(w, if balance < 0 then 0 else balance)]
  }

  function Transactions(batches: seq<seq<Payment>>): seq<Tx> {
    if batches == [] then [] else [New(batches[0])] + Transactions(batches[1..])
  }

  function SuccessfulPayments(txs: seq<Tx>): seq<Payment> {
    if txs == [] then []
    else
      var tx := txs[|txs| - 1];
      SuccessfulPayments(txs[..|txs| - 1]) + if tx.state == Success then tx.payments else []
  }

  ghost function Apply(l: Ledger, e: Event): Ledger {
    match e
    case Split(miners, txs) =>
      var (balances, blocks) := SplitAll((l.balances, l.blocks), miners, txs);
      l.(balances := balances, blocks := blocks)
    case Start(order, integrated) =>
      if l.open == [] && IsOrder(order, l.balances, integrated)
      then l.(open := Transactions(Batches(Payouts(order, l.balances))))
      else l
    case Visit(i, env) =>
      if i < |l.open| then
        l.(open := l.open[i := Visited(l.open[i], env)],
           balances := if Debits(l.open[i], env) then Debit(l.balances, l.open[i].payments) else l.balances)
      else l
    case Stop => l.(open := [], closed := l.closed + SuccessfulPayments(l.open))
  }

  ghost function Replay(events: seq<Event>): Ledger {
    if events == [] then EMPTY else Apply(Replay(events[..|events| - 1]), events[|events| - 1])
  }

  // ----- what is allocated, debited and still waiting

  ghost function Pick(blocks: Blocks): nat
    requires blocks != map[]
    ensures Pick(blocks) in blocks
  {
    var h :| h in blocks;
    h
  }

  /** What all stored blocks allocate to a wallet. */
  ghost function Allocated(blocks: Blocks, w: Wallet): nat
    decreases |blocks|
  {
    if blocks == map[] then 0
    else
      var h := Pick(blocks);
      Smaller(blocks, h);
      Total(blocks[h], w) + Allocated(blocks - {h}, w)
  }

  lemma Smaller(blocks: Blocks, h: nat)
    requires h in blocks
    ensures |blocks - {h}| < |blocks|
  {
    assert (blocks - {h}).Keys == blocks.Keys - {h};
    assert |blocks.Keys - {h}| < |blocks.Keys|;
  }

  lemma {:induction false} AllocatedRemove(blocks: Blocks, h: nat, w: Wallet)
    requires h in blocks
    ensures Allocated(blocks, w) == Total(blocks[h], w) + Allocated(blocks - {h}, w)
    decreases |blocks|
  {
    var g := Pick(blocks);
    Smaller(blocks, g);
    Smaller(blocks, h);
    if g != h {
      AllocatedRemove(blocks - {g}, h, w);
      AllocatedRemove(blocks - {h}, g, w);
      assert blocks - {g} - {h} == blocks - {h} - {g};
    }
  }

  lemma AllocatedAdd(blocks: Blocks, h: nat, allocation: seq<Payment>, w: Wallet)
    requires h !in blocks
    ensures Allocated(blocks[h := allocation], w) == Allocated(blocks, w) + Total(allocation, w)
  {
    AllocatedRemove(blocks[h := allocation], h, w);
    assert blocks[h := allocation] - {h} == blocks;
  }

  /** The amounts of one transaction, if it is in success or not, as asked for. */
  function Share(tx: Tx, success: bool, w: Wallet): nat {
    if (tx.state == Success) == success then Total(tx.payments, w) else 0
  }

  function Shares(txs: seq<Tx>, success: bool, w: Wallet): nat {
    if txs == [] then 0 else Shares(txs[..|txs| - 1], success, w) + Share(txs[|txs| - 1], success, w)
  }

  lemma {:induction false} SharesUpdate(txs: seq<Tx>, i: nat, tx: Tx, success: bool, w: Wallet)
    requires i < |txs|
    ensures Shares(txs[i := tx], success, w) + Share(txs[i], success, w) == Shares(txs, success, w) + Share(tx, success, w)
  {
    var n := |txs| - 1;
    if i < n {
      SharesUpdate(txs[..n], i, tx, success, w);
      assert txs[i := tx][..n] == txs[..n][i := tx];
    } else {
      assert txs[i := tx][..n] == txs[..n];
    }
  }

  lemma {:induction false} SharesAreSuccessful(txs: seq<Tx>, w: Wallet)
    ensures Total(SuccessfulPayments(txs), w) == Shares(txs, true, w)
  {
    if txs != [] {
      var n := |txs| - 1;
      SharesAreSuccessful(txs[..n], w);
      TotalConcat(SuccessfulPayments(txs[..n]), if txs[n].state == Success then txs[n].payments else [], w);
    }
  }

  // ----- the invariant

  /** Everything allocated to a wallet is in its balance or was paid out, and every payout is covered. */
  ghost predicate Balanced(l: Ledger, w: Wallet) {
    Allocated(l.blocks, w) == Balance(l.balances, w) + Shares(l.open, true, w) + Total(l.closed, w) &&
    Balance(l.balances, w) >= Shares(l.open, false, w)
  }

  ghost predicate Known(txs: seq<Tx>, balances: Balances) {
    forall i, p :: 0 <= i < |txs| && p in txs[i].payments ==> p.wallet in balances
  }

  ghost predicate AllSound(txs: seq<Tx>) { forall i :: 0 <= i < |txs| ==> Sound(txs[i]) }

  ghost predicate Inv(l: Ledger) {
    (forall w :: Balanced(l, w)) && AllSound(l.open) && Known(l.open, l.balances)
  }

  // ----- splitting keeps it

  lemma {:induction false} SplitKeeps(l: Ledger, miners: seq<Miner>, txs: seq<Incoming>, w: Wallet)
    ensures var (balances, blocks) := SplitAll((l.balances, l.blocks), miners, txs);
            Balance(balances, w) - Balance(l.balances, w) == Allocated(blocks, w) - Allocated(l.blocks, w) >= 0 &&
            (w in l.balances ==> w in balances)
  {
    if txs != [] {
      var tx := txs[|txs| - 1];
      SplitKeeps(l, miners, txs[..|txs| - 1], w);
      var (balances, blocks) := SplitAll((l.balances, l.blocks), miners, txs[..|txs| - 1]);
      if tx.height !in blocks {
        var allocation := Allocation(miners, tx.timestamp * 1000, tx.amount);
        CreditAdds(balances, allocation, w);
        AllocatedAdd(blocks, tx.height, allocation, w);
      }
    }
  }

  lemma SplitKeepsInv(l: Ledger, miners: seq<Miner>, txs: seq<Incoming>)
    requires Inv(l)
    ensures Inv(Apply(l, Split(miners, txs)))
  {
    var next := Apply(l, Split(miners, txs));
    forall w ensures Balanced(next, w) && (w in l.balances ==> w in next.balances) {
      assert Balanced(l, w);
      SplitKeeps(l, miners, txs, w);
    }
  }

  // ----- starting keeps it

  ghost predicate Orderable(order: seq<Wallet>, balances: Balances) {
    (forall i, j :: 0 <= i < j < |order| ==> order[i] != order[j]) &&
    forall i :: 0 <= i < |order| ==> order[i] in balances && balances[order[i]] > THRESHOLD
  }

  lemma OrderableFront(order: seq<Wallet>, balances: Balances)
    requires order != [] && Orderable(order, balances)
    ensures var n := |order| - 1; Orderable(order[..n], balances) && order[n] !in order[..n]
  {}

  lemma {:induction false} PayoutsCovered(order: seq<Wallet>, balances: Balances, w: Wallet)
    requires Orderable(order, balances)
    ensures Total(Payouts(order, balances), w) == if w in order then Balance(balances, w) else 0
    ensures forall p :: p in Payouts(order, balances) ==> p.wallet in balances
  {
    if order != [] {
      var n := |order| - 1;
      OrderableFront(order, balances);
      PayoutsCovered(order[..n], balances, w);
      TotalSnoc(Payouts(order[..n], balances), Payment(order[n], balances[order[n]]), w);
      assert order == order[..n] + [order[n]];
    }
  }

  lemma {:induction false} NewShares(batches: seq<seq<Payment>>, w: Wallet)
    ensures Shares(Transactions(batches), true, w) == 0
    ensures Shares(Transactions(batches), false, w) == Total(Flat(batches), w)
    ensures AllSound(Transactions(batches))
  {
    if batches != [] {
      var first, rest := [New(batches[0])], Transactions(batches[1..]);
      NewShares(batches[1..], w);
      SharesConcat(first, rest, true, w);
      SharesConcat(first, rest, false, w);
      assert first[..0] == [] && Shares([], true, w) == Shares([], false, w) == 0;
      TotalConcat(batches[0], Flat(batches[1..]), w);
    }
  }

  lemma {:induction false} SharesConcat(a: seq<Tx>, b: seq<Tx>, success: bool, w: Wallet)
    ensures Shares(a + b, success, w) == Shares(a, success, w) + Shares(b, success, w)
  {
    if b == [] {
      assert a + b == a;
    } else {
      var n := |b| - 1;
      SharesConcat(a, b[..n], success, w);
      assert (a + b)[..|a + b| - 1] == a + b[..n];
    }
  }

  lemma {:induction false} NewPayments(batches: seq<seq<Payment>>, i: nat, p: Payment)
    requires i < |Transactions(batches)| && p in Transactions(batches)[i].payments
    ensures p in Flat(batches)
  {
    if i > 0 {
      NewPayments(batches[1..], i - 1, p);
    }
  }

  lemma StartKeepsInv(l: Ledger, order: seq<Wallet>, integrated: Wallet -> bool)
    requires Inv(l)
    ensures Inv(Apply(l, Start(order, integrated)))
  {
    if l.open == [] && IsOrder(order, l.balances, integrated) {
      var payouts := Payouts(order, l.balances);
      var next := Apply(l, Start(order, integrated));
      forall i | 0 <= i < |order| ensures order[i] in l.balances && l.balances[order[i]] > THRESHOLD {
        assert order[i] in order;
      }
      forall w ensures Balanced(next, w) && AllSound(next.open) {
        assert Balanced(l, w);
        PayoutsCovered(order, l.balances, w);
        BatchesTotal(payouts, w);
        NewShares(Batches(payouts), w);
      }
      assert Balanced(next, "");
      forall i, p | 0 <= i < |next.open| && p in next.open[i].payments ensures p.wallet in next.balances {
        NewPayments(Batches(payouts), i, p);
        BatchesPartition(payouts);
        assert p in multiset(payouts);
        PayoutsCovered(order, l.balances, p.wallet);
      }
    }
  }

  /** A set in some order. */
  lemma {:induction false} SomeSequence(wallets: set<Wallet>) returns (order: seq<Wallet>)
    ensures forall i, j :: 0 <= i < j < |order| ==> order[i] != order[j]
    ensures forall w :: w in order <==> w in wallets
    decreases |wallets|
  {
    if wallets == {} {
      order := [];
    } else {
      var w :| w in wallets;
      var rest := SomeSequence(wallets - {w});
      order := rest + [w];
    }
  }

  /** The payable wallets can always be put in order, so that the payer can start. */
  lemma OrderExists(balances: Balances, integrated: Wallet -> bool)
    ensures exists order :: IsOrder(order, balances, integrated)
  {
    var wallets := set w | w in balances.Keys && Payable(balances, w, integrated);
    var order := SomeSequence(wallets);
    assert IsOrder(order, balances, integrated);
  }

  lemma {:induction false} PayoutsAreWhole(order: seq<Wallet>, balances: Balances, p: Payment)
    requires Orderable(order, balances) && p in Payouts(order, balances)
    ensures p.wallet in order && p.wallet in balances && p.amount == balances[p.wallet]
  {
    if order != [] {
      var n := |order| - 1;
      OrderableFront(order, balances);
      if p in Payouts(order[..n], balances) {
        PayoutsAreWhole(order[..n], balances, p);
        assert order == order[..n] + [order[n]];
      }
    }
  }

  lemma {:induction false} AllNew(batches: seq<seq<Payment>>, i: nat)
    requires i < |Transactions(batches)|
    ensures var tx := Transactions(batches)[i]; tx == New(tx.payments)
  {
    if i > 0 { AllNew(batches[1..], i - 1); }
  }

  /**
   A payer that starts queues the whole balance of every wallet above the threshold that is not
   integrated, once, and nothing else.
   */
  lemma WhatIsPaidOut(l: Ledger, order: seq<Wallet>, integrated: Wallet -> bool, w: Wallet)
    requires l.open == [] && IsOrder(order, l.balances, integrated)
    ensures var open := Apply(l, Start(order, integrated)).open;
            Shares(open, false, w) ==
              (if w in l.balances && l.balances[w] > 3_000_000_000 && !integrated(w) then l.balances[w] else 0) &&
            forall i :: 0 <= i < |open| ==>
              open[i].state == Queue && open[i].hash == NoHash && open[i].fails == 0 &&
              forall p :: p in open[i].payments ==>
                p.wallet in l.balances && l.balances[p.wallet] > 3_000_000_000 && !integrated(p.wallet) &&
                p.amount == l.balances[p.wallet]
  {
    var payouts, open := Payouts(order, l.balances), Apply(l, Start(order, integrated)).open;
    forall i | 0 <= i < |order| ensures order[i] in l.balances && l.balances[order[i]] > THRESHOLD {
      assert order[i] in order;
    }
    PayoutsCovered(order, l.balances, w);
    BatchesTotal(payouts, w);
    NewShares(Batches(payouts), w);
    forall i | 0 <= i < |open| ensures open[i] == New(open[i].payments) {
      AllNew(Batches(payouts), i);
    }
    forall i, p | 0 <= i < |open| && p in open[i].payments
      ensures p in payouts && p.wallet in order && p.wallet in l.balances && p.amount == l.balances[p.wallet]
    {
      NewPayments(Batches(payouts), i, p);
      BatchesPartition(payouts);
      assert p in multiset(payouts);
      PayoutsAreWhole(order, l.balances, p);
    }
  }

  // ----- visiting and stopping keep it

  lemma VisitKeepsInv(l: Ledger, i: nat, env: Env)
    requires Inv(l)
    ensures Inv(Apply(l, Visit(i, env)))
  {
    if i < |l.open| {
      var tx, next := l.open[i], Apply(l, Visit(i, env));
      var seen := Visited(tx, env);
      VisitKeepsSound(tx, env);
      forall w ensures Balanced(next, w) && (w in l.balances ==> w in next.balances) {
        assert Balanced(l, w);
        DebitSubtracts(l.balances, tx.payments, w);
        SharesUpdate(l.open, i, seen, true, w);
        SharesUpdate(l.open, i, seen, false, w);
      }
      forall k, p | 0 <= k < |next.open| && p in next.open[k].payments ensures p.wallet in next.balances {
        assert p in l.open[k].payments;
      }
    }
  }

  lemma StopKeepsInv(l: Ledger)
    requires Inv(l)
    ensures Inv(Apply(l, Stop))
  {
    var next := Apply(l, Stop);
    forall w ensures Balanced(next, w) {
      assert Balanced(l, w);
      SharesAreSuccessful(l.open, w);
      TotalConcat(l.closed, SuccessfulPayments(l.open), w);
    }
  }

  lemma ApplyKeepsInv(l: Ledger, e: Event)
    requires Inv(l)
    ensures Inv(Apply(l, e))
  {
    match e
    case Split(miners, txs) => SplitKeepsInv(l, miners, txs);
    case Start(order, integrated) => StartKeepsInv(l, order, integrated);
    case Visit(i, env) => VisitKeepsInv(l, i, env);
    case Stop => StopKeepsInv(l);
  }

  // ----- over all runs

  lemma {:induction false} InvAlways(events: seq<Event>)
    ensures Inv(Replay(events))
  {
    if events == [] {
      forall w ensures Balanced(EMPTY, w) {
        assert Shares([], true, w) == 0 && Shares([], false, w) == 0 && Total([], w) == 0 && Allocated(map[], w) == 0;
      }
    } else {
      InvAlways(events[..|events| - 1]);
      ApplyKeepsInv(Replay(events[..|events| - 1]), events[|events| - 1]);
    }
  }

  /**
   After any run: what the stored blocks allocate to a wallet is its balance and what was paid
   out to it in successful transactions; and no balance is negative, or less than what is
   still to be paid out.
   */
  lemma MoneyIsConserved(events: seq<Event>, w: Wallet)
    ensures var l := Replay(events);
            Allocated(l.blocks, w) == Balance(l.balances, w) + Shares(l.open, true, w) + Total(l.closed, w) &&
            Balance(l.balances, w) >= Shares(l.open, false, w) >= 0
  {
    InvAlways(events);
    assert Balanced(Replay(events), w);
  }

  /** A stored block is never allocated again, in any continuation of a run. */
  lemma {:induction false} BlocksAreKept(before: seq<Event>, after: seq<Event>, h: nat)
    requires h in Replay(before).blocks
    ensures h in Replay(before + after).blocks && Replay(before + after).blocks[h] == Replay(before).blocks[h]
  {
    if after == [] {
      assert before + after == before;
    } else {
      var n := |after| - 1;
      BlocksAreKept(before, after[..n], h);
      assert (before + after)[..|before + after| - 1] == before + after[..n];
      var l := Replay(before + after[..n]);
      if after[n].Split? { SplitKeepsBlock((l.balances, l.blocks), after[n].miners, after[n].txs, h); }
    }
  }

  lemma {:induction false} SplitKeepsBlock(state: (Balances, Blocks), miners: seq<Miner>, txs: seq<Incoming>, h: nat)
    requires h in state.1
    ensures h in SplitAll(state, miners, txs).1 && SplitAll(state, miners, txs).1[h] == state.1[h]
  {
    if txs != [] {
      SplitKeepsBlock(state, miners, txs[..|txs| - 1], h);
    }
  }
}
