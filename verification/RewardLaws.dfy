/**
 What the reward splitter is for: rewards follow the difficulty of the recent shares, and each
 unlocked block is split once. Everything is said about the shares and transfers themselves.
 */
module RewardLaws {
  import opened Sequences
  import opened Payments
  import opened Splitter

  // ----- rewards follow difficulty

  /** The difficulty of the shares of the six hours before a block. */
  function Difficulty(shares: seq<Share>, time: int): nat {
    if shares == [] then 0
    else (if time - 21_600_000 < shares[0].timestamp < time then shares[0].diff else 0) + Difficulty(shares[1..], time)
  }

  function AllDifficulty(miners: seq<Miner>, time: int): nat {
    if miners == [] then 0 else Difficulty(miners[0].shares, time) + AllDifficulty(miners[1..], time)
  }

  lemma ValueOne(share: Share, time: int)
    ensures Value([share], time) == if time - 21_600_000 < share.timestamp < time then share.diff else 0
  {
    assert [share][..0] == [];
  }

  lemma {:induction false} DifficultyIs(shares: seq<Share>, time: int)
    ensures Value(shares, time) == Difficulty(shares, time)
  {
    if shares != [] {
      DifficultyIs(shares[1..], time);
      ValueOne(shares[0], time);
      ValueConcat([shares[0]], shares[1..], time);
      assert shares == [shares[0]] + shares[1..];
    }
  }

  lemma {:induction false} AllValueConcat(a: seq<Miner>, b: seq<Miner>, time: int)
    ensures AllValue(a + b, time) == AllValue(a, time) + AllValue(b, time)
  {
    if b == [] {
      assert a + b == a;
    } else {
      var n := |b| - 1;
      AllValueConcat(a, b[..n], time);
      assert (a + b)[..|a + b| - 1] == a + b[..n];
    }
  }

  lemma {:induction false} AllDifficultyIs(miners: seq<Miner>, time: int)
    ensures AllValue(miners, time) == AllDifficulty(miners, time)
  {
    if miners != [] {
      AllDifficultyIs(miners[1..], time);
      DifficultyIs(miners[0].shares, time);
      AllValueConcat([miners[0]], miners[1..], time);
      assert [miners[0]][..0] == [] && miners == [miners[0]] + miners[1..];
    }
  }

  lemma {:induction false} RewardsAt(miners: seq<Miner>, time: int, amount: nat, all: nat, i: nat)
    requires all > 0 && i < |miners|
    ensures var rewards := Rewards(miners, time, amount, all);
            |rewards| == |miners| &&
            rewards[i] == Payment(miners[i].wallet, Reward(Value(miners[i].shares, time), amount, all))
  {
    var n := |miners| - 1;
    RewardsLength(miners[..n], time, amount, all);
    if i < n { RewardsAt(miners[..n], time, amount, all, i); }
  }

  lemma {:induction false} RewardsLength(miners: seq<Miner>, time: int, amount: nat, all: nat)
    requires all > 0
    ensures |Rewards(miners, time, amount, all)| == |miners|
  {
    if miners != [] { RewardsLength(miners[..|miners| - 1], time, amount, all); }
  }

  /**
   A miner gets that part of the block which is its part of the recent difficulty, rounded
   down; without any recent share nobody gets anything.
   */
  lemma RewardIsProportional(miners: seq<Miner>, time: int, amount: nat, i: nat)
    requires i < |miners|
    ensures var mine, all := Difficulty(miners[i].shares, time), AllDifficulty(miners, time);
            var allocation := Allocation(miners, time, amount);
            if all == 0 then allocation == []
            else |allocation| == |miners| && allocation[i].wallet == miners[i].wallet &&
                 allocation[i].amount * all <= mine * amount < (allocation[i].amount + 1) * all
  {
    var all := AllDifficulty(miners, time);
    AllDifficultyIs(miners, time);
    DifficultyIs(miners[i].shares, time);
    if all > 0 {
      RewardsAt(miners, time, amount, all, i);
      RewardRounds(Value(miners[i].shares, time), amount, all);
      Add(Allocation(miners, time, amount)[i].amount, 1, 0, 0, 0, all);
    }
  }

  /** The miners with a recent share. */
  ghost function Recent(miners: seq<Miner>, time: int): set<int> {
    set i | 0 <= i < |miners| && Difficulty(miners[i].shares, time) > 0
  }

  lemma {:induction false} WeightedIs(miners: seq<Miner>, time: int)
    ensures Weighted(miners, time) == |Recent(miners, time)|
  {
    if miners == [] {
      assert Recent(miners, time) == {};
    } else {
      var n := |miners| - 1;
      WeightedIs(miners[..n], time);
      DifficultyIs(miners[n].shares, time);
      var recent := Recent(miners[..n], time);
      assert Recent(miners, time) == if Difficulty(miners[n].shares, time) > 0 then recent + {n} else recent;
    }
  }

  /** The whole block is given away but for less than one unit for each miner with a recent share. */
  lemma ShortfallIsSmall(miners: seq<Miner>, time: int, amount: nat)
    requires AllDifficulty(miners, time) > 0
    ensures 0 <= amount - Sum(Allocation(miners, time, amount)) < |Recent(miners, time)|
  {
    AllDifficultyIs(miners, time);
    WeightedIs(miners, time);
    AllocationSums(miners, time, amount);
  }

  // ----- what changes no reward

  /** Wallets and recent difficulty are all that matters. */
  lemma SameAllocation(a: seq<Miner>, b: seq<Miner>, time: int, amount: nat)
    requires |a| == |b|
    requires forall i :: 0 <= i < |a| ==> a[i].wallet == b[i].wallet && Value(a[i].shares, time) == Value(b[i].shares, time)
    ensures Allocation(a, time, amount) == Allocation(b, time, amount)
  {
    SameAll(a, b, time);
    var all := AllValue(a, time);
    if all > 0 {
      RewardsLength(a, time, amount, all);
      RewardsLength(b, time, amount, all);
      forall i | 0 <= i < |a| ensures Rewards(a, time, amount, all)[i] == Rewards(b, time, amount, all)[i] {
        RewardsAt(a, time, amount, all, i);
        RewardsAt(b, time, amount, all, i);
      }
    }
  }

  lemma {:induction false} SameAll(a: seq<Miner>, b: seq<Miner>, time: int)
    requires |a| == |b|
    requires forall i :: 0 <= i < |a| ==> Value(a[i].shares, time) == Value(b[i].shares, time)
    ensures AllValue(a, time) == AllValue(b, time)
  {
    if a != [] { SameAll(a[..|a| - 1], b[..|b| - 1], time); }
  }

  /** Exchanging some shares of one miner for others that come to the same. */
  lemma ExchangeShares(miners: seq<Miner>, i: nat, before: seq<Share>, x: seq<Share>, y: seq<Share>, after: seq<Share>,
                       time: int, amount: nat)
    requires i < |miners| && Value(x, time) == Value(y, time)
    ensures var m := miners[i];
            Allocation(miners[i := m.(shares := before + x + after)], time, amount) ==
            Allocation(miners[i := m.(shares := before + y + after)], time, amount)
  {
    ValueConcat(before, x, time);
    ValueConcat(before, y, time);
    ValueConcat(before + x, after, time);
    ValueConcat(before + y, after, time);
    var m := miners[i];
    var a, b := miners[i := m.(shares := before + x + after)], miners[i := m.(shares := before + y + after)];
    SameAllocation(a, b, time, amount);
  }

  /** One share is worth two of the same time that have its difficulty together. */
  lemma SplittingShares(miners: seq<Miner>, i: nat, before: seq<Share>, after: seq<Share>, t: int, a: nat, b: nat,
                        time: int, amount: nat, w: Wallet)
    requires i < |miners|
    ensures var m := miners[i];
            Due(miners[i := m.(shares := before + [Share(t, a + b)] + after)], time, amount, w) ==
            Due(miners[i := m.(shares := before + [Share(t, a), Share(t, b)] + after)], time, amount, w)
  {
    ValueOne(Share(t, a + b), time);
    ValueOne(Share(t, a), time);
    ValueOne(Share(t, b), time);
    ValueConcat([Share(t, a)], [Share(t, b)], time);
    assert [Share(t, a)] + [Share(t, b)] == [Share(t, a), Share(t, b)];
    ExchangeShares(miners, i, before, [Share(t, a + b)], [Share(t, a), Share(t, b)], after, time, amount);
  }

  /** A share of another time is worth nothing. */
  lemma SharesOutside(miners: seq<Miner>, i: nat, before: seq<Share>, after: seq<Share>, share: Share,
                      time: int, amount: nat, w: Wallet)
    requires i < |miners| && !(time - 21_600_000 < share.timestamp < time)
    ensures var m := miners[i];
            Due(miners[i := m.(shares := before + [share] + after)], time, amount, w) ==
            Due(miners[i := m.(shares := before + after)], time, amount, w)
  {
    ValueOne(share, time);
    ExchangeShares(miners, i, before, [share], [], after, time, amount);
    assert before + [] + after == before + after;
  }

  // ----- what the cleaner keeps

  predicate IsExpired(share: Share, now: int) { now - share.timestamp > 64_836_000 }

  lemma {:induction false} ExpiredFront(shares: seq<Share>, now: int, n: nat)
    requires n <= |shares| && forall i :: 0 <= i < n ==> IsExpired(shares[i], now)
    requires n < |shares| ==> !IsExpired(shares[n], now)
    ensures OldCount(shares, now) == n
  {
    if n > 0 {
      assert IsExpired(shares[0], now) && forall i :: 0 <= i < n - 1 ==> shares[1..][i] == shares[i + 1];
      ExpiredFront(shares[1..], now, n - 1);
    }
  }

  /** The shares from the first one on that has not expired. */
  lemma WhatIsKept(shares: seq<Share>, now: int, n: nat)
    requires n <= |shares| && forall i :: 0 <= i < n ==> IsExpired(shares[i], now)
    requires n < |shares| ==> !IsExpired(shares[n], now)
    ensures Trim(shares, now) == shares[n..]
  {
    ExpiredFront(shares, now, n);
  }

  lemma TrimmedAway(shares: seq<Share>, now: int)
    ensures Trim(shares, now) == [] <==> forall i :: 0 <= i < |shares| ==> IsExpired(shares[i], now)
  {
    var n := OldCount(shares, now);
    if n < |shares| { assert !IsExpired(shares[n], now); }
    assert forall i :: 0 <= i < n ==> (IsOld(shares[i], now) <==> IsExpired(shares[i], now));
  }

  ghost function Cleaned(m: Miner, now: int): seq<Miner> {
    if Trim(m.shares, now) == [] then [] else [m.(shares := Trim(m.shares, now))]
  }

  lemma CleanSnoc(a: seq<Miner>, m: Miner, now: int)
    ensures Clean(a + [m], now) == Clean(a, now) + Cleaned(m, now)
  {
    assert (a + [m])[..|a|] == a && Clean(a, now) + [] == Clean(a, now);
  }

  lemma {:induction false} CleanConcat(a: seq<Miner>, b: seq<Miner>, now: int)
    ensures Clean(a + b, now) == Clean(a, now) + Clean(b, now)
  {
    if b == [] {
      assert a + b == a && Clean(a, now) + [] == Clean(a, now);
    } else {
      var front, m := b[..|b| - 1], b[|b| - 1];
      CleanConcat(a, front, now);
      CleanSnoc(front, m, now);
      CleanSnoc(a + front, m, now);
      Associates(a, front, [m]);
      Associates(Clean(a, now), Clean(front, now), Cleaned(m, now));
      assert b == front + [m];
    }
  }

  lemma CleanOne(m: Miner, now: int)
    ensures Clean([m], now) ==
            if forall i :: 0 <= i < |m.shares| ==> IsExpired(m.shares[i], now) then []
            else [m.(shares := Trim(m.shares, now))]
  {
    TrimmedAway(m.shares, now);
    assert [m][..0] == [] && Clean([], now) == [];
  }

  /** Cleaning goes miner by miner; a miner stays, with what is kept, unless all its shares have expired. */
  lemma WhoIsKept(before: seq<Miner>, m: Miner, after: seq<Miner>, now: int)
    ensures Clean(before + [m] + after, now) ==
            Clean(before, now) +
            (if forall i :: 0 <= i < |m.shares| ==> IsExpired(m.shares[i], now) then []
             else [m.(shares := Trim(m.shares, now))]) +
            Clean(after, now)
  {
    CleanConcat(before, [m], now);
    CleanConcat(before + [m], after, now);
    CleanOne(m, now);
  }

  // ----- what a wallet gets

  lemma {:induction false} TotalAbsent(payments: seq<Payment>, w: Wallet)
    requires forall k :: 0 <= k < |payments| ==> payments[k].wallet != w
    ensures Total(payments, w) == 0
  {
    if payments != [] { TotalAbsent(payments[..|payments| - 1], w); }
  }

  lemma TotalOnce(payments: seq<Payment>, i: nat, w: Wallet)
    requires i < |payments| && forall k :: 0 <= k < |payments| ==> (payments[k].wallet == w <==> k == i)
    ensures Total(payments, w) == payments[i].amount
  {
    var front, back := payments[..i], payments[i + 1..];
    TotalAbsent(front, w);
    TotalAbsent(back, w);
    TotalSnoc(front, payments[i], w);
    TotalConcat(front + [payments[i]], back, w);
    assert payments == front + [payments[i]] + back;
  }

  /** A wallet that mines under one name gets the reward of that miner. */
  lemma DueIsReward(miners: seq<Miner>, time: int, amount: nat, i: nat)
    requires i < |miners| && forall k :: 0 <= k < |miners| ==> (miners[k].wallet == miners[i].wallet <==> k == i)
    ensures var mine, all := Difficulty(miners[i].shares, time), AllDifficulty(miners, time);
            var due := Due(miners, time, amount, miners[i].wallet);
            if all == 0 then due == 0 else due * all <= mine * amount < (due + 1) * all
  {
    RewardIsProportional(miners, time, amount, i);
    if AllDifficulty(miners, time) > 0 {
      var allocation := Allocation(miners, time, amount);
      forall k | 0 <= k < |allocation| ensures allocation[k].wallet == miners[k].wallet {
        RewardIsProportional(miners, time, amount, k);
      }
      TotalOnce(allocation, i, miners[i].wallet);
    }
  }

  // ----- which blocks are split

  predicate IsUnlockedBlock(tx: Incoming) { tx.kind == "block" && !tx.locked }

  /** The first unlocked block of a height that is not stored. */
  ghost predicate IsNew(blocks: Blocks, txs: seq<Incoming>, i: nat) {
    i < |txs| && IsUnlockedBlock(txs[i]) && txs[i].height !in blocks &&
    forall j :: 0 <= j < i && IsUnlockedBlock(txs[j]) ==> txs[j].height != txs[i].height
  }

  function BlockReward(miners: seq<Miner>, tx: Incoming): seq<Payment> {
    Allocation(miners, tx.timestamp * 1000, tx.amount)
  }

  /** What the new blocks among the first n transfers bring a wallet. */
  ghost function Gained(miners: seq<Miner>, blocks: Blocks, txs: seq<Incoming>, n: nat, w: Wallet): nat
    requires n <= |txs|
  {
    if n == 0 then 0
    else
      Gained(miners, blocks, txs, n - 1, w) +
      if IsNew(blocks, txs, n - 1) then Total(BlockReward(miners, txs[n - 1]), w) else 0
  }

  /** The heights stored after the first n transfers. */
  lemma {:induction false} StoredHeights(state: (Balances, Blocks), miners: seq<Miner>, txs: seq<Incoming>, n: nat, h: nat)
    requires n <= |txs|
    ensures h in SplitAll(state, miners, txs[..n]).1 <==>
            h in state.1 || exists i :: 0 <= i < n && IsUnlockedBlock(txs[i]) && txs[i].height == h
  {
    if n > 0 {
      StoredHeights(state, miners, txs, n - 1, h);
      assert txs[..n][..n - 1] == txs[..n - 1] && txs[..n][n - 1] == txs[n - 1];
    }
  }

  lemma SplitNext(state: (Balances, Blocks), miners: seq<Miner>, txs: seq<Incoming>, n: nat)
    requires 0 < n <= |txs|
    ensures SplitAll(state, miners, txs[..n]) == SplitOne(SplitAll(state, miners, txs[..n - 1]), miners, txs[n - 1])
    ensures IsUnlockedBlock(txs[n - 1]) && txs[n - 1].height !in SplitAll(state, miners, txs[..n - 1]).1
            <==> IsNew(state.1, txs, n - 1)
  {
    assert txs[..n][..n - 1] == txs[..n - 1];
    StoredHeights(state, miners, txs, n - 1, txs[n - 1].height);
  }

  /** A height is stored if it was, or if an unlocked block of that height is listed; and no other is. */
  lemma WhichAreStored(state: (Balances, Blocks), miners: seq<Miner>, txs: seq<Incoming>, h: nat)
    ensures h in SplitAll(state, miners, txs).1 <==>
            h in state.1 || exists i :: 0 <= i < |txs| && txs[i].kind == "block" && !txs[i].locked && txs[i].height == h
  {
    assert txs[..|txs|] == txs;
    StoredHeights(state, miners, txs, |txs|, h);
    if h in SplitAll(state, miners, txs).1 && h !in state.1 {
      var i :| 0 <= i < |txs| && IsUnlockedBlock(txs[i]) && txs[i].height == h;
      assert txs[i].kind == "block" && !txs[i].locked;
    }
    if i :| 0 <= i < |txs| && txs[i].kind == "block" && !txs[i].locked && txs[i].height == h {
      assert IsUnlockedBlock(txs[i]);
    }
  }

  lemma {:induction false} StoredAfter(state: (Balances, Blocks), miners: seq<Miner>, txs: seq<Incoming>, n: nat, h: nat)
    requires n <= |txs|
    ensures h in state.1 ==>
              h in SplitAll(state, miners, txs[..n]).1 && SplitAll(state, miners, txs[..n]).1[h] == state.1[h]
    ensures forall i :: 0 <= i < n && IsNew(state.1, txs, i) && txs[i].height == h ==>
              h in SplitAll(state, miners, txs[..n]).1 &&
              SplitAll(state, miners, txs[..n]).1[h] == BlockReward(miners, txs[i])
  {
    if n > 0 {
      StoredAfter(state, miners, txs, n - 1, h);
      SplitNext(state, miners, txs, n);
    }
  }

  /** A block is stored with the allocation of the first unlocked transfer of its height; stored ones stay. */
  lemma WhatIsStored(state: (Balances, Blocks), miners: seq<Miner>, txs: seq<Incoming>, h: nat)
    ensures var after := SplitAll(state, miners, txs).1;
            (h in state.1 ==> h in after && after[h] == state.1[h]) &&
            forall i :: 0 <= i < |txs| && IsNew(state.1, txs, i) && txs[i].height == h ==>
              h in after && after[h] == Allocation(miners, txs[i].timestamp * 1000, txs[i].amount)
  {
    assert txs[..|txs|] == txs;
    StoredAfter(state, miners, txs, |txs|, h);
  }

  lemma {:induction false} CreditedAfter(state: (Balances, Blocks), miners: seq<Miner>, txs: seq<Incoming>, n: nat,
                                         w: Wallet)
    requires n <= |txs|
    ensures Balance(SplitAll(state, miners, txs[..n]).0, w) == Balance(state.0, w) + Gained(miners, state.1, txs, n, w)
  {
    if n > 0 {
      CreditedAfter(state, miners, txs, n - 1, w);
      SplitNext(state, miners, txs, n);
      CreditAdds(SplitAll(state, miners, txs[..n - 1]).0, BlockReward(miners, txs[n - 1]), w);
    }
  }

  /** A balance grows by what the newly stored blocks allocate, and by nothing else. */
  lemma WhatIsCredited(state: (Balances, Blocks), miners: seq<Miner>, txs: seq<Incoming>, w: Wallet)
    ensures Balance(SplitAll(state, miners, txs).0, w) == Balance(state.0, w) + Gained(miners, state.1, txs, |txs|, w)
  {
    assert txs[..|txs|] == txs;
    CreditedAfter(state, miners, txs, |txs|, w);
  }
}
