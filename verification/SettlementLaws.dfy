/**
 What one visit does to a transaction, and what follows for runs of visits, said about what is
 found outside: the funds, the answer of the wallet, and the transfers on chain.
 */
module SettlementLaws {
  import opened Payments
  import opened Payer

  // ----- transactions that wait for their transfers

  /** Some transfer has failed, and none of those listed behind it is waiting. */
  ghost predicate FailsLast(ids: seq<string>, status: string -> Kind) {
    exists i :: 0 <= i < |ids| && status(ids[i]) == Failing &&
                forall j :: i < j < |ids| ==> status(ids[j]) != Waiting
  }

  lemma {:induction false} DecidedIs(ids: seq<string>, status: string -> Kind)
    ensures Decided(ids, status) == Failed <==> FailsLast(ids, status)
  {
    if ids != [] {
      var n := |ids| - 1;
      DecidedIs(ids[..n], status);
      if status(ids[n]) != Failing && status(ids[n]) != Waiting {
        FailsFront(ids, status);
      }
    }
  }

  lemma FailsFront(ids: seq<string>, status: string -> Kind)
    requires ids != [] && status(ids[|ids| - 1]) != Failing && status(ids[|ids| - 1]) != Waiting
    ensures FailsLast(ids, status) <==> FailsLast(ids[..|ids| - 1], status)
  {
    var front := ids[..|ids| - 1];
    if FailsLast(ids, status) {
      var i :| 0 <= i < |ids| && status(ids[i]) == Failing && forall j :: i < j < |ids| ==> status(ids[j]) != Waiting;
      assert status(front[i]) == Failing;
    }
    if FailsLast(front, status) {
      var i :| 0 <= i < |front| && status(front[i]) == Failing && forall j :: i < j < |front| ==> status(front[j]) != Waiting;
      assert status(ids[i]) == Failing;
      forall j | i < j < |ids| ensures status(ids[j]) != Waiting {
        if j < |front| { assert ids[j] == front[j]; }
      }
    }
  }

  /**
   A transaction with a list of transfers succeeds when all of them are on chain. It fails if
   one of them has failed and none behind it in the list is waiting; and else it waits on.
   */
  lemma PendingOutcome(tx: Tx, env: Env)
    requires tx.state == Pending && tx.hash.Several?
    ensures var ids, next := tx.hash.ids, Visited(tx, env);
            next == tx.(state := next.state) &&
            (next.state == Success <==> ids != [] && forall i :: 0 <= i < |ids| ==> env.status(ids[i]) == Out) &&
            (next.state == Failed <==>
              exists i :: 0 <= i < |ids| && env.status(ids[i]) == Failing &&
                          forall j :: i < j < |ids| ==> env.status(ids[j]) != Waiting) &&
            (next.state != Success && next.state != Failed ==> next.state == Pending)
  {
    DecidedIs(tx.hash.ids, env.status);
  }

  ghost predicate NoneFails(ids: seq<string>, envs: seq<Env>) {
    forall k, i :: 0 <= k < |envs| && 0 <= i < |ids| ==> envs[k].status(ids[i]) != Failing
  }

  /** If no transfer ever fails, the transaction does not either. */
  lemma {:induction false} NeverFails(tx: Tx, envs: seq<Env>)
    requires (tx.state == Pending || tx.state == Success) && tx.hash.Several? && NoneFails(tx.hash.ids, envs)
    ensures Run(tx, envs).state == Pending || Run(tx, envs).state == Success
    decreases |envs|
  {
    if envs != [] {
      assert forall i :: 0 <= i < |tx.hash.ids| ==> envs[0].status(tx.hash.ids[i]) != Failing;
      assert forall k :: 0 <= k < |envs| - 1 ==> envs[1..][k] == envs[k + 1];
      if tx.state == Pending { PendingOutcome(tx, envs[0]); }
      NeverFails(Visited(tx, envs[0]), envs[1..]);
    }
  }

  /** If no transfer fails and all of them are on chain in the end, the transaction succeeds. */
  lemma {:induction false} SucceedsInTheEnd(tx: Tx, waiting: seq<Env>, last: Env)
    requires tx.state == Pending && tx.hash.Several? && tx.hash.ids != [] && NoneFails(tx.hash.ids, waiting)
    requires forall i :: 0 <= i < |tx.hash.ids| ==> last.status(tx.hash.ids[i]) == Out
    ensures Run(tx, waiting + [last]) == tx.(state := Success)
    decreases |waiting|
  {
    if waiting == [] {
      assert [] + [last] == [last] && [last][1..] == [];
      PendingOutcome(tx, last);
      assert Run(tx, [last]) == Run(Visited(tx, last), []);
    } else {
      assert forall i :: 0 <= i < |tx.hash.ids| ==> waiting[0].status(tx.hash.ids[i]) != Failing;
      assert forall k :: 0 <= k < |waiting| - 1 ==> waiting[1..][k] == waiting[k + 1];
      assert (waiting + [last])[1..] == waiting[1..] + [last];
      PendingOutcome(tx, waiting[0]);
      if Visited(tx, waiting[0]).state == Success {
        SuccessStays(Visited(tx, waiting[0]), waiting[1..] + [last]);
      } else {
        SucceedsInTheEnd(tx, waiting[1..], last);
      }
    }
  }

  lemma {:induction false} SuccessStays(tx: Tx, envs: seq<Env>)
    requires tx.state == Success
    ensures Run(tx, envs) == tx
    decreases |envs|
  {
    if envs != [] { SuccessStays(tx, envs[1..]); }
  }

  // ----- transactions that wait to be sent

  /** What the wallet answers: transfers, nothing at all, or an empty set of transfers. */
  predicate Accepts(response: Response) {
    match response
    case Result(Single(id)) => id != ""
    case Result(Several(ids)) => ids != []
    case _ => false
  }

  predicate Refuses(response: Response) { response == NoResult || response == Result(NoHash) }

  /**
   A queued transaction is sent when the unlocked funds exceed it. If the wallet accepts, it
   waits for the transfers; if the wallet refuses, it is tried a second time, and then fails;
   an empty answer makes it fail at once.
   */
  lemma QueuedOutcome(tx: Tx, env: Env)
    requires Sound(tx) && tx.state == Queue
    ensures var next := Visited(tx, env);
            if env.unlocked <= Sum(tx.payments) then next == tx && !Posts(tx, env)
            else
              Posts(tx, env) &&
              next == if Accepts(env.response) then tx.(state := Pending, hash := env.response.hash)
                      else if Refuses(env.response)
                      then tx.(state := if tx.fails == 0 then Queue else Failed, fails := tx.fails + 1)
                      else tx.(state := Failed, hash := env.response.hash, fails := tx.fails + 1)
  {}

  /** Without the funds nothing is ever sent. */
  lemma {:induction false} NeverSent(tx: Tx, envs: seq<Env>)
    requires Sound(tx) && tx.state == Queue
    requires forall k :: 0 <= k < |envs| ==> envs[k].unlocked <= Sum(tx.payments)
    ensures Run(tx, envs) == tx && Posted(tx, envs) == 0
    decreases |envs|
  {
    if envs != [] {
      QueuedOutcome(tx, envs[0]);
      assert forall k :: 0 <= k < |envs| - 1 ==> envs[1..][k] == envs[k + 1];
      NeverSent(tx, envs[1..]);
    }
  }

  /** A transaction that the wallet refuses is sent twice, however often it is visited. */
  lemma RefusedTwice(payments: seq<Payment>, first: Env, second: Env, more: seq<Env>)
    requires first.unlocked > Sum(payments) && second.unlocked > Sum(payments)
    requires Refuses(first.response) && Refuses(second.response)
    ensures var envs := [first, second] + more;
            Run(New(payments), envs) == Tx(payments, Failed, NoHash, 2) && Posted(New(payments), envs) == 2
  {
    var tx, envs := New(payments), [first, second] + more;
    var again := Visited(tx, first);
    var failed := Visited(again, second);
    QueuedOutcome(tx, first);
    QueuedOutcome(again, second);
    assert envs[1..] == [second] + more && ([second] + more)[1..] == more;
    assert Run(tx, envs) == Run(again, envs[1..]) == Run(failed, more);
    assert Posted(tx, envs) == 1 + Posted(again, envs[1..]) && Posted(again, envs[1..]) == 1 + Posted(failed, more);
    StuckForGood(failed, more);
    NoMorePosted(failed, more);
  }

  lemma {:induction false} NoMorePosted(tx: Tx, envs: seq<Env>)
    requires Sound(tx) && tx.state == Failed
    ensures Posted(tx, envs) == 0
    decreases |envs|
  {
    if envs != [] {
      FailedForGood(tx, envs[0]);
      NoMorePosted(tx, envs[1..]);
    }
  }
}
