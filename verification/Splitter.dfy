/**
 The cleaner task of the daemon: trimming old shares, and splitting the reward of each found
 block among the miners in proportion to their recent shares. Rewards are divided exactly.
 */
module Splitter {
  import opened Payments

  /** A share; timestamps are in milliseconds. */
  datatype Share = Share(timestamp: int, diff: nat)

  datatype Miner = Miner(wallet: Wallet, shares: seq<Share>)

  datatype Incoming = Incoming(kind: string, locked: bool, height: nat, timestamp: int, amount: nat)

  const KEEP: int := 64_836_000
  const WINDOW: int := 21_600_000

  // ----- the value of shares

  /** Shares count if they precede the block by less than six hours. */
  predicate Counts(share: Share, time: int) { share.timestamp < time && time - share.timestamp < WINDOW }

  function Worth(share: Share, time: int): nat { if Counts(share, time) then share.diff else 0 }

  function Value(shares: seq<Share>, time: int): nat {
    if shares == [] then 0 else Value(shares[..|shares| - 1], time) + Worth(shares[|shares| - 1], time)
  }

  function AllValue(miners: seq<Miner>, time: int): nat {
    if miners == [] then 0
    else AllValue(miners[..|miners| - 1], time) + Value(miners[|miners| - 1].shares, time)
  }

  /** The number of miners with a share that counts. */
  function Weighted(miners: seq<Miner>, time: int): nat {
    if miners == [] then 0
    else Weighted(miners[..|miners| - 1], time) + if Value(miners[|miners| - 1].shares, time) > 0 then 1 else 0
  }

  function Reward(value: nat, amount: nat, all: nat): nat
    requires all > 0
  {
    value * amount / all
  }

  function Rewards(miners: seq<Miner>, time: int, amount: nat, all: nat): seq<Payment>
    requires all > 0
  {
    if miners == [] then []
    else
      var m := miners[|miners| - 1];
      Rewards(miners[..|miners| - 1], time, amount, all) + [Payment(m.wallet, Reward(Value(m.shares, time), amount, all))]
  }

  /** What each miner gets of a block; nobody gets anything if no share counts. */
  function Allocation(miners: seq<Miner>, time: int, amount: nat): seq<Payment> {
    var all := AllValue(miners, time);
    if all == 0 then [] else Rewards(miners, time, amount, all)
  }

  lemma RewardRounds(value: nat, amount: nat, all: nat)
    requires all > 0
    ensures Reward(value, amount, all) * all <= value * amount < Reward(value, amount, all) * all + all
    ensures value == 0 ==> Reward(value, amount, all) * all == value * amount
  {
    var x, q: int := value * amount, value * amount / all;
    assert x == q * all + x % all;
    assert value == 0 ==> x == 0;
  }

  lemma Add(r: int, q: int, v: int, value: int, amount: int, all: int)
    ensures (r + q) * all == r * all + q * all && (v + value) * amount == v * amount + value * amount
  {}

  lemma AddWeight(all: int, w: int)
    ensures (all - 1) * (w + 1) == (all - 1) * w + (all - 1)
  {}

  /** The amount not given away, times the total, is less than the total for each miner. */
  lemma {:induction false} RewardsSum(miners: seq<Miner>, time: int, amount: nat, all: nat)
    requires all > 0
    ensures var lost := AllValue(miners, time) * amount - Sum(Rewards(miners, time, amount, all)) * all;
            0 <= lost <= (all - 1) * Weighted(miners, time)
  {
    if miners != [] {
      var m, rest := miners[|miners| - 1], miners[..|miners| - 1];
      var value := Value(m.shares, time);
      var rewards := Rewards(rest, time, amount, all);
      var reward := Reward(value, amount, all);
      RewardsSum(rest, time, amount, all);
      RewardRounds(value, amount, all);
      var p := Payment(m.wallet, reward);
      assert (rewards + [p])[..|rewards|] == rewards;
      Add(Sum(rewards), reward, AllValue(rest, time), value, amount, all);
      AddWeight(all, Weighted(rest, time));
    }
  }

  lemma {:induction false} SomeWeight(miners: seq<Miner>, time: int)
    requires AllValue(miners, time) > 0
    ensures Weighted(miners, time) > 0
  {
    if Value(miners[|miners| - 1].shares, time) == 0 {
      SomeWeight(miners[..|miners| - 1], time);
    }
  }

  /**
   The rewards of a block never exceed it, and fall short by less than one unit for each miner
   with a share that counts.
   */
  lemma {:induction false} AllocationSums(miners: seq<Miner>, time: int, amount: nat)
    ensures var sum := Sum(Allocation(miners, time, amount));
            sum <= amount && (AllValue(miners, time) > 0 ==> amount - sum < Weighted(miners, time))
  {
    var all := AllValue(miners, time);
    if all > 0 {
      RewardsSum(miners, time, amount, all);
      SomeWeight(miners, time);
      Shortfall(all, amount, Sum(Rewards(miners, time, amount, all)), Weighted(miners, time));
    }
  }

  lemma Shortfall(all: int, amount: int, sum: int, w: int)
    requires all > 0 && w > 0 && 0 <= all * amount - sum * all <= (all - 1) * w
    ensures 0 <= amount - sum < w
  {
    var d := amount - sum;
    assert all * amount - sum * all == all * d && (all - 1) * w == all * w - w;
    ScaleOrder(all, d, w);
  }

  lemma ScaleOrder(all: int, d: int, w: int)
    requires all > 0
    ensures d < 0 ==> all * d < 0
    ensures d >= w ==> all * d >= all * w
  {}

  // ----- trimming

  predicate IsOld(share: Share, now: int) { now - share.timestamp > KEEP }

  /** The number of old shares in front; the first younger share ends the search. */
  function OldCount(shares: seq<Share>, now: int): (n: nat)
    ensures n <= |shares| && forall i :: 0 <= i < n ==> IsOld(shares[i], now)
    ensures n < |shares| ==> !IsOld(shares[n], now)
  {
    if shares != [] && IsOld(shares[0], now) then
      var n := OldCount(shares[1..], now);
      assert forall i :: 0 < i < n + 1 ==> shares[i] == shares[1..][i - 1];
      n + 1
    else 0
  }

  function Trim(shares: seq<Share>, now: int): seq<Share> { shares[OldCount(shares, now)..] }

  /** What the cleaner leaves: miners without shares are dropped. */
  function Clean(miners: seq<Miner>, now: int): seq<Miner> {
    if miners == [] then []
    else
      var m, rest := miners[|miners| - 1], Clean(miners[..|miners| - 1], now);
      if Trim(m.shares, now) == [] then rest else rest + [m.(shares := Trim(m.shares, now))]
  }

  lemma {:induction false} ValueConcat(a: seq<Share>, b: seq<Share>, time: int)
    ensures Value(a + b, time) == Value(a, time) + Value(b, time)
  {
    if b == [] {
      assert a + b == a;
    } else {
      var n := |b| - 1;
      ValueConcat(a, b[..n], time);
      assert (a + b)[..|a + b| - 1] == a + b[..n];
    }
  }

  lemma {:induction false} NoneCounts(shares: seq<Share>, time: int)
    requires forall i :: 0 <= i < |shares| ==> !Counts(shares[i], time)
    ensures Value(shares, time) == 0
  {
    if shares != [] {
      NoneCounts(shares[..|shares| - 1], time);
    }
  }

  const LATEST: int := KEEP - WINDOW + 1

  /** Whatever the order of the shares, trimming early enough takes away only what does not count. */
  lemma TrimKeepsValue(shares: seq<Share>, now: int, time: int)
    requires now <= time + LATEST
    ensures Value(Trim(shares, now), time) == Value(shares, time)
  {
    var n := OldCount(shares, now);
    NoneCounts(shares[..n], time);
    ValueConcat(shares[..n], shares[n..], time);
    assert shares[..n] + shares[n..] == shares;
  }

  lemma AllValueSnoc(miners: seq<Miner>, m: Miner, time: int)
    ensures AllValue(miners + [m], time) == AllValue(miners, time) + Value(m.shares, time)
  {
    assert (miners + [m])[..|miners|] == miners;
  }

  lemma RewardsSnoc(miners: seq<Miner>, m: Miner, time: int, amount: nat, all: nat)
    requires all > 0
    ensures Rewards(miners + [m], time, amount, all) ==
            Rewards(miners, time, amount, all) + [Payment(m.wallet, Reward(Value(m.shares, time), amount, all))]
  {
    assert (miners + [m])[..|miners|] == miners;
  }

  lemma {:induction false} CleanKeepsValue(miners: seq<Miner>, now: int, time: int)
    requires now <= time + LATEST
    ensures AllValue(Clean(miners, now), time) == AllValue(miners, time)
  {
    if miners != [] {
      var m, rest := miners[|miners| - 1], miners[..|miners| - 1];
      CleanKeepsValue(rest, now, time);
      TrimKeepsValue(m.shares, now, time);
      AllValueSnoc(Clean(rest, now), m.(shares := Trim(m.shares, now)), time);
    }
  }

  lemma {:induction false} CleanKeepsRewards(miners: seq<Miner>, now: int, time: int, amount: nat, all: nat, w: Wallet)
    requires now <= time + LATEST && all > 0
    ensures Total(Rewards(Clean(miners, now), time, amount, all), w) == Total(Rewards(miners, time, amount, all), w)
  {
    if miners != [] {
      var m, rest := miners[|miners| - 1], miners[..|miners| - 1];
      var trimmed := m.(shares := Trim(m.shares, now));
      var reward := Reward(Value(m.shares, time), amount, all);
      CleanKeepsRewards(rest, now, time, amount, all, w);
      TrimKeepsValue(m.shares, now, time);
      TotalSnoc(Rewards(rest, time, amount, all), Payment(m.wallet, reward), w);
      TotalSnoc(Rewards(Clean(rest, now), time, amount, all), Payment(m.wallet, reward), w);
      RewardsSnoc(Clean(rest, now), trimmed, time, amount, all);
      if trimmed.shares == [] { RewardRounds(0, amount, all); NoReward(reward, all); }
    }
  }

  lemma NoReward(reward: nat, all: nat)
    requires all > 0 && reward * all == 0
    ensures reward == 0
  {}

  /** What one wallet gets of a block. */
  function Due(miners: seq<Miner>, time: int, amount: nat, w: Wallet): nat { Total(Allocation(miners, time, amount), w) }

  /** Running the cleaner soon enough after a block changes no allocation of that block. */
  lemma CleanKeepsAllocation(miners: seq<Miner>, now: int, time: int, amount: nat, w: Wallet)
    requires now <= time + LATEST
    ensures Due(Clean(miners, now), time, amount, w) == Due(miners, time, amount, w)
  {
    CleanKeepsValue(miners, now, time);
    if AllValue(miners, time) > 0 {
      CleanKeepsRewards(miners, now, time, amount, AllValue(miners, time), w);
    }
  }

  /** At any later time the cleaner can take a reward away. */
  lemma CleanTooLate(now: int, time: int, amount: nat, w: Wallet)
    requires now > time + LATEST && amount > 0
    ensures var miners := [Miner(w, [Share(time - WINDOW + 1, 1)])];
            Due(miners, time, amount, w) == amount && Due(Clean(miners, now), time, amount, w) == 0
  {
    var shares := [Share(time - WINDOW + 1, 1)];
    var miners := [Miner(w, shares)];
    assert shares[..0] == [] && shares[1..] == [] && miners[..0] == [];
    assert Value([], time) == 0 && Value(shares, time) == 1;
    assert AllValue([], time) == 0 && AllValue(miners, time) == 1;
    assert Rewards(miners, time, amount, 1) == [] + [Payment(w, amount)];
    TotalSnoc([], Payment(w, amount), w);
    assert OldCount(shares, now) == 1 && Trim(shares, now) == [];
    assert Clean([], now) == [] && Clean(miners, now) == [];
  }

  /** Exactly when cleaning changes no allocation of a block, whatever the shares are. */
  lemma CleaningIsSafe(now: int, time: int)
    ensures now <= time + 43_236_001 <==>
            forall miners, amount: nat, w ::
              Due(Clean(miners, now), time, amount, w) == Due(miners, time, amount, w)
  {
    if now <= time + LATEST {
      forall miners, amount: nat, w
        ensures Due(Clean(miners, now), time, amount, w) == Due(miners, time, amount, w)
      {
        CleanKeepsAllocation(miners, now, time, amount, w);
      }
    } else {
      CleanTooLate(now, time, 1, "");
      var miners := [Miner("", [Share(time - WINDOW + 1, 1)])];
      assert Due(Clean(miners, now), time, 1, "") != Due(miners, time, 1, "");
    }
  }

  // ----- the stored state

  type Blocks = map<nat, seq<Payment>>

  /** Balances and blocks after one transfer is processed; a block that is stored is left alone. */
  function SplitOne(state: (Balances, Blocks), miners: seq<Miner>, tx: Incoming): (Balances, Blocks) {
    if tx.kind != "block" || tx.locked || tx.height in state.1 then state
    else
      var allocation := Allocation(miners, tx.timestamp * 1000, tx.amount);
      (Credit(state.0, allocation), state.1[tx.height := allocation])
  }

  function SplitAll(state: (Balances, Blocks), miners: seq<Miner>, txs: seq<Incoming>): (Balances, Blocks) {
    if txs == [] then state
    else SplitOne(SplitAll(state, miners, txs[..|txs| - 1]), miners, txs[|txs| - 1])
  }

  class Pool {
    var miners: seq<Miner>
    var balances: Balances
    var blocks: Blocks

    /** Looks for the last old share in front of the first younger one, and trims up to it. */
    method TrimShares(shares: seq<Share>, now: int) returns (kept: seq<Share>)
      ensures kept == Trim(shares, now)
    {
      ghost var n := OldCount(shares, now);
      var found := -1;
      for i := 0 to |shares|
        invariant found == i - 1 && i <= n
      {
        if now - shares[i].timestamp > KEEP {
          found := i;
        } else {
          break;
        }
      }
      assert found + 1 == n && shares[0..] == shares;
      kept := if found == -1 then shares else shares[found + 1..];
    }

    method RunCleaner(now: int)
      modifies this`miners
      ensures miners == Clean(old(miners), now)
    {
      var keys := miners;
      miners := [];
      for i := 0 to |keys|
        invariant miners == Clean(keys[..i], now)
      {
        assert keys[..i + 1][..i] == keys[..i];
        var shares := TrimShares(keys[i].shares, now);
        if shares != [] {
          miners := miners + [keys[i].(shares := shares)];
        }
      }
      assert keys[..|keys|] == keys;
    }

    method SumShares(shares: seq<Share>, time: int) returns (value: nat)
      ensures value == Value(shares, time)
    {
      value := 0;
      for i := 0 to |shares|
        invariant value == Value(shares[..i], time)
      {
        assert shares[..i + 1][..i] == shares[..i];
        var diff := time - shares[i].timestamp;
        if shares[i].timestamp < time && diff < WINDOW {
          value := value + shares[i].diff;
        }
      }
      assert shares[..|shares|] == shares;
    }

    /** Adds up the value of the shares of each miner, and of all. */
    method SumAll(time: int) returns (values: seq<nat>, all: nat)
      ensures |values| == |miners| && all == AllValue(miners, time)
      ensures forall i :: 0 <= i < |values| ==> values[i] == Value(miners[i].shares, time)
    {
      values, all := [], 0;
      for i := 0 to |miners|
        invariant |values| == i && all == AllValue(miners[..i], time)
        invariant forall j :: 0 <= j < i ==> values[j] == Value(miners[j].shares, time)
      {
        assert miners[..i + 1][..i] == miners[..i];
        var value := SumShares(miners[i].shares, time);
        all := all + value;
        values := values + [value];
      }
      assert miners[..|miners|] == miners;
    }

    /** Divides the reward; `total` is what is given away. */
    method Allocate(time: int, amount: nat) returns (rewards: seq<Payment>, total: nat)
      ensures rewards == Allocation(miners, time, amount) && total == Sum(rewards)
    {
      var values, all := SumAll(time);
      rewards, total := [], 0;
      if all > 0 {
        for i := 0 to |miners|
          invariant rewards == Rewards(miners[..i], time, amount, all) && total == Sum(rewards)
        {
          assert miners[..i + 1][..i] == miners[..i];
          var reward := values[i] * amount / all;
          assert (rewards + [Payment(miners[i].wallet, reward)])[..|rewards|] == rewards;
          rewards := rewards + [Payment(miners[i].wallet, reward)];
          total := total + reward;
        }
        assert miners[..|miners|] == miners;
      }
    }

    method UpdateBalances(rewards: seq<Payment>)
      modifies this`balances
      ensures balances == Credit(old(balances), rewards)
    {
      for i := 0 to |rewards|
        invariant balances == Credit(old(balances), rewards[..i])
      {
        assert rewards[..i + 1][..i] == rewards[..i];
        var key := rewards[i].wallet;
        if key in balances {
          balances := balances[key := balances[key] + rewards[i].amount];
        } else {
          balances := balances[key := rewards[i].amount];
        }
      }
      assert rewards[..|rewards|] == rewards;
    }

    /** Splits every unlocked block that is not stored yet; false if a block is over-rewarded. */
    method RunRewardSplitter(txs: seq<Incoming>) returns (ok: bool)
      modifies this`balances, this`blocks
      ensures ok && (balances, blocks) == SplitAll((old(balances), old(blocks)), miners, txs)
    {
      for i := 0 to |txs|
        invariant (balances, blocks) == SplitAll((old(balances), old(blocks)), miners, txs[..i])
      {
        assert txs[..i + 1][..i] == txs[..i];
        if txs[i].kind == "block" && !txs[i].locked && txs[i].height !in blocks {
          var rewards, total := Allocate(txs[i].timestamp * 1000, txs[i].amount);
          AllocationSums(miners, txs[i].timestamp * 1000, txs[i].amount);
          if total > txs[i].amount { return false; }
          UpdateBalances(rewards);
          blocks := blocks[txs[i].height := rewards];
        }
      }
      assert txs[..|txs|] == txs;
      ok := true;
    }
  }
}
