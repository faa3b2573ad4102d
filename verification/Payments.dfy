/** Amounts due to wallets, in atomic units, as they are allocated, kept and paid out. */
module Payments {

  type Wallet = string

  datatype Payment = Payment(wallet: Wallet, amount: nat)

  type Balances = map<Wallet, int>

  function Balance(balances: Balances, w: Wallet): int { if w in balances then balances[w] else 0 }

  /** What a list of payments comes to for one wallet. */
  function Total(payments: seq<Payment>, w: Wallet): nat {
    if payments == [] then 0
    else
      var n := |payments| - 1;
      Total(payments[..n], w) + if payments[n].wallet == w then payments[n].amount else 0
  }

  /** What a list of payments comes to. */
  function Sum(payments: seq<Payment>): nat {
    if payments == [] then 0 else Sum(payments[..|payments| - 1]) + payments[|payments| - 1].amount
  }

  lemma TotalSnoc(payments: seq<Payment>, p: Payment, w: Wallet)
    ensures Total(payments + [p], w) == Total(payments, w) + if p.wallet == w then p.amount else 0
  {
    assert (payments + [p])[..|payments|] == payments;
  }

  lemma {:induction false} TotalConcat(a: seq<Payment>, b: seq<Payment>, w: Wallet)
    ensures Total(a + b, w) == Total(a, w) + Total(b, w)
  {
    if b == [] {
      assert a + b == a;
    } else {
      var n := |b| - 1;
      TotalConcat(a, b[..n], w);
      TotalSnoc(a + b[..n], b[n], w);
      assert (a + b[..n]) + [b[n]] == a + b;
    }
  }

  /** The balances after every payment of a list is added, or subtracted. */
  function Credit(balances: Balances, payments: seq<Payment>): Balances {
    if payments == [] then balances
    else
      var p, before := payments[|payments| - 1], Credit(balances, payments[..|payments| - 1]);
      before[p.wallet := Balance(before, p.wallet) + p.amount]
  }

  function Debit(balances: Balances, payments: seq<Payment>): Balances {
    if payments == [] then balances
    else
      var p, before := payments[|payments| - 1], Debit(balances, payments[..|payments| - 1]);
      before[p.wallet := Balance(before, p.wallet) - p.amount]
  }

  lemma {:induction false} CreditAdds(balances: Balances, payments: seq<Payment>, w: Wallet)
    ensures Balance(Credit(balances, payments), w) == Balance(balances, w) + Total(payments, w)
    ensures w in balances ==> w in Credit(balances, payments)
  {
    if payments != [] {
      CreditAdds(balances, payments[..|payments| - 1], w);
    }
  }

  lemma {:induction false} DebitSubtracts(balances: Balances, payments: seq<Payment>, w: Wallet)
    ensures Balance(Debit(balances, payments), w) == Balance(balances, w) - Total(payments, w)
    ensures w in balances ==> w in Debit(balances, payments)
  {
    if payments != [] {
      DebitSubtracts(balances, payments[..|payments| - 1], w);
    }
  }
}
