/**
 The payer: payable balances are batched into transactions, and each transaction is driven
 through its states until its payments are on chain and debited.
 */
module Payer {
  import opened Sequences
  import opened Payments
  import opened Splitter

  datatype State = Queue | Pending | PaidOnChain | Success | Failed

  /** What the wallet returned for a transfer; empty values are not set. */
  datatype Hash = NoHash | Single(id: string) | Several(ids: seq<string>)

  datatype Response = Result(hash: Hash) | NoResult

  /** The type of a transfer found on chain. */
  datatype Kind = Out | Failing | Waiting | Other

  /** What one visit of a transaction finds outside. */
  datatype Env = Env(unlocked: int, response: Response, status: string -> Kind, uuid: string)

  datatype Tx = Tx(payments: seq<Payment>, state: State, hash: Hash, fails: nat)

  predicate IsSet(hash: Hash) {
    match hash
    case NoHash => false
    case Single(id) => id != ""
    case Several(ids) => ids != []
  }

  function New(payments: seq<Payment>): Tx { Tx(payments, Queue, NoHash, 0) }

  // ----- one visit

  function Sent(tx: Tx, response: Response): Tx {
    var hash := if response.Result? then response.hash else tx.hash;
    if IsSet(hash) then tx.(hash := hash, state := Pending)
    else tx.(hash := hash, state := Failed, fails := tx.fails + 1)
  }

  predicate AllOut(ids: seq<string>, status: string -> Kind) {
    forall i :: 0 <= i < |ids| ==> status(ids[i]) == Out
  }

  /** The last transfer that failed or is pending decides. */
  function Decided(ids: seq<string>, status: string -> Kind): (r: State)
    ensures r == Pending || r == Failed
  {
    if ids == [] then Pending
    else
      match status(ids[|ids| - 1])
      case Failing => Failed
      case Waiting => Pending
      case _ => Decided(ids[..|ids| - 1], status)
  }

  /** A lone hash is looked up in vain: only a list of hashes is ever resolved. */
  function Looked(tx: Tx, status: string -> Kind): Tx {
    if !tx.hash.Several? || tx.hash.ids == [] then tx
    else if AllOut(tx.hash.ids, status) then tx.(state := PaidOnChain)
    else tx.(state := Decided(tx.hash.ids, status))
  }

  predicate Posts(tx: Tx, env: Env) { tx.state == Queue && env.unlocked > Sum(tx.payments) }

  function Polled(tx: Tx, env: Env): Tx {
    if Posts(tx, env) then Sent(tx, env.response)
    else if tx.state == Pending then Looked(tx, env.status)
    else tx
  }

  /** Recording a failed transaction gives it a hash if it has none. */
  function Recorded(tx: Tx, uuid: string): Tx { if IsSet(tx.hash) then tx else tx.(hash := Single(uuid)) }

  function AfterFailure(tx: Tx, uuid: string): Tx {
    if tx.fails > 2 || IsSet(tx.hash) then Recorded(tx, uuid)
    else if tx.fails < 2 && tx.hash == NoHash then tx.(state := Queue)
    else tx
  }

  /** The transaction behind one visit. */
  function Visited(tx: Tx, env: Env): Tx {
    var polled := Polled(tx, env);
    match polled.state
    case PaidOnChain => polled.(state := Success)
    case Failed => AfterFailure(polled, env.uuid)
    case _ => polled
  }

  /** Whether a visit debits the payments. */
  predicate Debits(tx: Tx, env: Env) { Polled(tx, env).state == PaidOnChain }

  // ----- the state machine

  /** What holds of a transaction between two visits. */
  predicate Sound(tx: Tx) {
    match tx.state
    case Queue => tx.hash == NoHash && tx.fails < 2
    case Failed => if IsSet(tx.hash) then tx.fails < 2 else tx.fails == 2 || (tx.fails == 1 && tx.hash != NoHash)
    case PaidOnChain => false
    case _ => IsSet(tx.hash) && tx.fails < 2
  }

  /**
   One visit keeps the payments and the invariant; it debits exactly if it ends in success,
   which is final; and a hash, once set, is kept.
   */
  lemma VisitKeepsSound(tx: Tx, env: Env)
    requires Sound(tx)
    ensures var next := Visited(tx, env);
            Sound(next) && next.payments == tx.payments && next.fails >= tx.fails &&
            (tx.state == Success ==> next == tx) &&
            (Debits(tx, env) <==> tx.state != Success && next.state == Success) &&
            (IsSet(tx.hash) ==> next.hash == tx.hash && !Posts(tx, env))
  {}

  /** Between visits only those transactions are failed that stay so for ever. */
  lemma FailedForGood(tx: Tx, env: Env)
    requires Sound(tx) && tx.state == Failed
    ensures Visited(tx, env) == tx
  {}

  /** A transaction with a lone hash stays pending for ever. */
  lemma PendingForGood(tx: Tx, env: Env)
    requires tx.state == Pending && tx.hash.Single?
    ensures Visited(tx, env) == tx
  {}

  /** A run of visits. */
  function Run(tx: Tx, envs: seq<Env>): Tx
    decreases |envs|
  {
    if envs == [] then tx else Run(Visited(tx, envs[0]), envs[1..])
  }

  /** The number of transfers posted to the wallet in a run. */
  function Posted(tx: Tx, envs: seq<Env>): nat
    decreases |envs|
  {
    if envs == [] then 0
    else (if Posts(tx, envs[0]) then 1 else 0) + Posted(Visited(tx, envs[0]), envs[1..])
  }

  /** The number of times a run debits the payments. */
  function Debited(tx: Tx, envs: seq<Env>): nat
    decreases |envs|
  {
    if envs == [] then 0
    else (if Debits(tx, envs[0]) then 1 else 0) + Debited(Visited(tx, envs[0]), envs[1..])
  }

  /**
   Over any run: a transaction with a hash is never posted again, nothing is posted more than
   twice, and the payments are debited once if the run ends in success and else not at all.
   */
  lemma {:induction false} RunIsSafe(tx: Tx, envs: seq<Env>)
    requires Sound(tx)
    ensures Sound(Run(tx, envs)) && Run(tx, envs).payments == tx.payments
    ensures IsSet(tx.hash) ==> Posted(tx, envs) == 0 && Run(tx, envs).hash == tx.hash
    ensures Posted(tx, envs) + tx.fails <= 2
    ensures Debited(tx, envs) == if tx.state != Success && Run(tx, envs).state == Success then 1 else 0
    ensures tx.state == Success ==> Run(tx, envs) == tx
    decreases |envs|
  {
    if envs != [] {
      VisitKeepsSound(tx, envs[0]);
      RunIsSafe(Visited(tx, envs[0]), envs[1..]);
    }
  }

  /** From these states no visit leads away. */
  predicate IsStuck(tx: Tx) { tx.state == Failed || (tx.state == Pending && tx.hash.Single?) }

  lemma {:induction false} StuckForGood(tx: Tx, envs: seq<Env>)
    requires Sound(tx) && IsStuck(tx)
    ensures Run(tx, envs) == tx
    decreases |envs|
  {
    if envs != [] {
      if tx.state == Failed { FailedForGood(tx, envs[0]); } else { PendingForGood(tx, envs[0]); }
      StuckForGood(tx, envs[1..]);
    }
  }

  /** The wallet accepts with a list of one hash, and then finds it on chain. */
  function Accepting(tx: Tx): Env { Env(Sum(tx.payments) + 1, Result(Several([""])), _ => Out, "") }

  lemma SomeRunSucceeds(tx: Tx) returns (envs: seq<Env>)
    requires Sound(tx) && !IsStuck(tx)
    ensures Run(tx, envs).state == Success
  {
    var env := Accepting(tx);
    if tx.state == Success {
      envs := [];
    } else if tx.state == Pending {
      envs := [env];
      assert envs[1..] == [] && Run(Visited(tx, env), []) == Visited(tx, env);
    } else {
      envs := [env, env];
      var sent := Visited(tx, env);
      assert envs[1..] == [env] && [env][1..] == [];
      assert AllOut([""], env.status);
      assert Run(sent, [env]) == Run(Visited(sent, env), []) == Visited(sent, env);
    }
  }

  /**
   Exactly which transactions can still succeed: all but those that have failed, and those
   that wait for a single hash. Only with one of these the settlement loop cannot end.
   */
  lemma CanSucceed(tx: Tx)
    requires Sound(tx)
    ensures (exists envs :: Run(tx, envs).state == Success) <==>
            tx.state != Failed && !(tx.state == Pending && tx.hash.Single?)
  {
    if IsStuck(tx) {
      forall envs ensures Run(tx, envs).state != Success {
        StuckForGood(tx, envs);
      }
    } else {
      var envs := SomeRunSucceeds(tx);
    }
  }

  /** The payments are debited when every transfer of the list is found on chain, and only then. */
  lemma DebitsWhenAllOut(tx: Tx, env: Env)
    requires Sound(tx)
    ensures Debits(tx, env) <==>
            tx.state == Pending && tx.hash.Several? && forall id :: id in tx.hash.ids ==> env.status(id) == Out
  {
    if tx.state == Pending && tx.hash.Several? {
      var ids := tx.hash.ids;
      if AllOut(ids, env.status) {
        forall id | id in ids ensures env.status(id) == Out {
          var i :| 0 <= i < |ids| && ids[i] == id;
        }
      }
    }
  }

  // ----- the transaction object

  class Transaction {
    const payments: seq<Payment>
    var state: State
    var hash: Hash
    var fails: nat

    constructor (payments: seq<Payment>)
      ensures Value() == New(payments)
    {
      this.payments := payments;
      state, hash, fails := Queue, NoHash, 0;
    }

    function Value(): Tx
      reads this
    {
      Tx(payments, state, hash, fails)
    }

    method SendToWallet(response: Response)
      modifies this
      ensures Value() == if old(state) == Queue then Sent(old(Value()), response) else old(Value())
    {
      if state == Queue {
        if response.Result? {
          hash := response.hash;
        }
        if IsSet(hash) {
          state := Pending;
        } else {
          state := Failed;
          fails := fails + 1;
        }
      }
    }

    /** Counts the transfers that are out; the others set the state as they are met. */
    method UpdateState(status: string -> Kind)
      requires state == Pending && IsSet(hash)
      modifies this`state
      ensures Value() == Looked(old(Value()), status)
    {
      if hash.Several? {
        var ids, outs := hash.ids, 0;
        for i := 0 to |ids|
          invariant state == Decided(ids[..i], status) && outs <= i
          invariant outs == i <==> AllOut(ids[..i], status)
        {
          assert ids[..i + 1][..i] == ids[..i];
          match status(ids[i])
          case Out =>
            outs := outs + 1;
            assert AllOut(ids[..i + 1], status) <==> AllOut(ids[..i], status);
          case Failing =>
            state := Failed;
            assert status(ids[..i + 1][i]) != Out;
          case Waiting =>
            state := Pending;
            assert status(ids[..i + 1][i]) != Out;
          case Other =>
            assert status(ids[..i + 1][i]) != Out;
        }
        assert ids[..|ids|] == ids;
        if outs == |ids| {
          state := PaidOnChain;
        }
      }
    }

    method WriteRecord(uuid: string)
      modifies this`hash
      ensures Value() == if old(state) == Failed || old(state) == Queue then Recorded(old(Value()), uuid) else old(Value())
    {
      if (state == Failed || state == Queue) && !IsSet(hash) {
        hash := Single(uuid);
      }
    }

    /** Debits every payment, if the transaction is on chain; the wallets must have balances. */
    method SubtractPayouts(pool: Pool)
      requires forall p :: p in payments ==> p.wallet in pool.balances
      modifies this`state, pool`balances
      ensures old(state) == PaidOnChain ==> pool.balances == Debit(old(pool.balances), payments)
      ensures old(state) == PaidOnChain ==> Value() == old(Value()).(state := Success)
      ensures old(state) != PaidOnChain ==> pool.balances == old(pool.balances) && Value() == old(Value())
    {
      if state == PaidOnChain {
        ghost var before := pool.balances;
        for i := 0 to |payments|
          invariant pool.balances == Debit(before, payments[..i])
          invariant forall p :: p in payments ==> p.wallet in pool.balances
        {
          assert payments[..i + 1][..i] == payments[..i];
          var key := payments[i].wallet;
          var balance := pool.balances[key] - payments[i].amount;
          pool.balances := pool.balances[key := balance];
        }
        assert payments[..|payments|] == payments;
        state := Success;
      }
    }

    /** What the settlement loop does with a transaction. */
    method Settle(pool: Pool, env: Env)
      requires forall p :: p in payments ==> p.wallet in pool.balances
      modifies this, pool`balances
      ensures Value() == Visited(old(Value()), env)
      ensures pool.balances == if Debits(old(Value()), env) then Debit(old(pool.balances), payments) else old(pool.balances)
    {
      ghost var tx := Value();
      var due := AddUp(payments);
      if state == Queue {
        if env.unlocked > due {
          SendToWallet(env.response);
        }
      } else if state == Pending && IsSet(hash) {
        UpdateState(env.status);
      }
      assert Value() == Polled(tx, env);
      if state == PaidOnChain {
        SubtractPayouts(pool);
      }
      if state == Failed {
        if fails > 2 || IsSet(hash) {
          WriteRecord(env.uuid);
        } else if fails < 2 && hash == NoHash {
          state := Queue;
        }
      }
    }
  }

  method AddUp(payments: seq<Payment>) returns (sum: nat)
    ensures sum == Sum(payments)
  {
    sum := 0;
    for i := 0 to |payments|
      invariant sum == Sum(payments[..i])
    {
      assert payments[..i + 1][..i] == payments[..i];
      sum := sum + payments[i].amount;
    }
    assert payments[..|payments|] == payments;
  }

  // ----- batches

  function Reverse<T>(s: seq<T>): (r: seq<T>)
    ensures |r| == |s| && forall i :: 0 <= i < |s| ==> r[i] == s[|s| - 1 - i]
  {
    if s == [] then [] else [s[|s| - 1]] + Reverse(s[..|s| - 1])
  }

  /** How many payments are taken from the end. */
  function Tail(s: seq<Payment>): nat
    requires s != []
  {
    if |s| < 15 then |s| - 1 else 14
  }

  /** The first payment, and then the last ones from the end. */
  function Batch(s: seq<Payment>): seq<Payment>
    requires s != []
  {
    [s[0]] + Reverse(s[|s| - Tail(s)..])
  }

  function Unbatched(s: seq<Payment>): (r: seq<Payment>)
    requires s != []
    ensures |r| == |s| - 1 - Tail(s)
  {
    s[1..|s| - Tail(s)]
  }

  function Batches(s: seq<Payment>): seq<seq<Payment>>
    decreases |s|
  {
    if s == [] then [] else [Batch(s)] + Batches(Unbatched(s))
  }

  function Flat(batches: seq<seq<Payment>>): seq<Payment> {
    if batches == [] then [] else batches[0] + Flat(batches[1..])
  }

  /** As many batches as are needed; all but the last are full. */
  lemma {:induction false} BatchSizes(s: seq<Payment>)
    ensures |Batches(s)| == (|s| + 14) / 15
    ensures forall k :: 0 <= k < |Batches(s)| ==>
              |Batches(s)[k]| == if |s| - 15 * k < 15 then |s| - 15 * k else 15
    decreases |s|
  {
    if s != [] {
      BatchSizes(Unbatched(s));
      assert forall k :: 0 < k < |Batches(s)| ==> Batches(s)[k] == Batches(Unbatched(s))[k - 1];
    }
  }

  lemma LaterBatch(s: seq<Payment>, k: nat)
    requires 0 < k < |Batches(s)|
    ensures |s| > 15 && |Unbatched(s)| == |s| - 15
    ensures k - 1 < |Batches(Unbatched(s))| && Batches(s)[k] == Batches(Unbatched(s))[k - 1]
  {
    BatchSizes(s);
  }

  /** Batch k begins with the k-th payment, and continues with its own 14 from the end. */
  lemma {:induction false} BatchAt(s: seq<Payment>, k: nat, j: nat)
    requires k < |Batches(s)| && j < |Batches(s)[k]|
    ensures |s| > 15 * k + j && Batches(s)[k][j] == if j == 0 then s[k] else s[|s| - 14 * k - j]
    decreases |s|
  {
    if k == 0 {
      FirstBatch(s, j);
    } else {
      var rest := Unbatched(s);
      LaterBatch(s, k);
      BatchAt(rest, k - 1, j);
      var i := if j == 0 then k - 1 else |rest| - 14 * (k - 1) - j;
      assert rest[i] == s[i + 1];
    }
  }

  lemma FirstBatch(s: seq<Payment>, j: nat)
    requires s != [] && j < |Batch(s)|
    ensures |s| > j && Batch(s)[j] == if j == 0 then s[0] else s[|s| - j]
  {}

  lemma {:induction false} ReverseItems(s: seq<Payment>)
    ensures multiset(Reverse(s)) == multiset(s)
  {
    if s != [] {
      var front, last := s[..|s| - 1], s[|s| - 1];
      ReverseItems(front);
      assert s == front + [last];
      assert multiset([last] + Reverse(front)) == multiset([last]) + multiset(Reverse(front));
    }
  }

  lemma {:induction false} ReverseTotal(s: seq<Payment>, w: Wallet)
    ensures Total(Reverse(s), w) == Total(s, w)
  {
    if s != [] {
      var front, last := s[..|s| - 1], s[|s| - 1];
      ReverseTotal(front, w);
      TotalConcat([last], Reverse(front), w);
      TotalConcat(front, [last], w);
      assert s == front + [last];
    }
  }

  /** A list is its first payment, what is left for other batches, and the end of its own. */
  lemma BatchParts(s: seq<Payment>)
    requires s != []
    ensures s == [s[0]] + (Unbatched(s) + s[|s| - Tail(s)..])
  {}

  lemma FlatBatches(s: seq<Payment>)
    requires s != []
    ensures Flat(Batches(s)) == Batch(s) + Flat(Batches(Unbatched(s)))
  {
    assert Batches(s)[1..] == Batches(Unbatched(s));
  }

  /** The batches together are the payments. */
  lemma {:induction false} BatchesPartition(s: seq<Payment>)
    ensures multiset(Flat(Batches(s))) == multiset(s)
    decreases |s|
  {
    if s != [] {
      var first, rest, tail := [s[0]], Unbatched(s), s[|s| - Tail(s)..];
      BatchesPartition(rest);
      ReverseItems(tail);
      BatchParts(s);
      FlatBatches(s);
      calc {
        multiset(Batch(s) + Flat(Batches(rest)));
        (multiset(first) + multiset(tail)) + multiset(rest);
        multiset(first + (rest + tail));
      }
    }
  }

  lemma {:induction false} BatchesTotal(s: seq<Payment>, w: Wallet)
    ensures Total(Flat(Batches(s)), w) == Total(s, w)
    decreases |s|
  {
    if s != [] {
      var first, rest, tail := [s[0]], Unbatched(s), s[|s| - Tail(s)..];
      BatchesTotal(rest, w);
      ReverseTotal(tail, w);
      BatchParts(s);
      FlatBatches(s);
      TotalConcat(rest, tail, w);
      TotalConcat(first, rest + tail, w);
      TotalConcat(first, Reverse(tail), w);
      TotalConcat(Batch(s), Flat(Batches(rest)), w);
    }
  }

  /** Consumes the sorted list: for each batch once from the front, then from the end. */
  method MakeBatches(sorted: seq<Payment>) returns (batches: seq<seq<Payment>>)
    ensures batches == Batches(sorted)
  {
    var left := sorted;
    batches := [];
    BatchSizes(sorted);
    assert batches + Batches(left) == Batches(left);
    for i := 0 to (|sorted| + 14) / 15
      invariant |batches| == i && batches + Batches(left) == Batches(sorted)
    {
      var batch: seq<Payment> := [];
      ghost var s := left;
      for x := 0 to 15
        invariant s != [] && x <= |s| && |batch| == x && |left| == |s| - x
        invariant x == 0 ==> left == s && batch == []
        invariant x > 0 ==> left == s[1..|s| - (x - 1)] && batch == [s[0]] + Reverse(s[|s| - (x - 1)..])
      {
        if |left| == 0 { break; }
        if x == 0 {
          batch := batch + [left[0]];
          left := left[1..];
        } else {
          var n := |left| - 1;
          assert s[|s| - x..][1..] == s[|s| - (x - 1)..];
          batch := batch + [left[n]];
          left := left[..n];
        }
      }
      assert batch == Batch(s) && left == Unbatched(s);
      Associates(batches, [batch], Batches(left));
      batches := batches + [batch];
    }
    assert Batches(left) == [];
  }
}
