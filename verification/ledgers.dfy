/** Balance tables with default zero, their totals, and an honest token ledger. */
module Ledgers {
  import opened Words

  type Ledger = map<Address, Word>

  function Get<K>(m: map<K, Word>, k: K): Word {
    if k in m then m[k] else 0
  }

  ghost function Total(m: Ledger): nat {
    if m == map[] then 0
    else
      var k :| k in m;
      m[k] + Total(m - {k})
  }

  lemma {:induction false} TotalWithout(m: Ledger, k: Address)
    requires k in m
    ensures Total(m) == m[k] + Total(m - {k})
    decreases |m|
  {
    var j :| j in m && Total(m) == m[j] + Total(m - {j});
    if j != k {
      TotalWithout(m - {j}, k);
      TotalWithout(m - {k}, j);
      assert m - {j} - {k} == m - {k} - {j};
    }
  }

  /** Overwriting one balance changes the total by exactly the difference. */
  lemma TotalUpdate(m: Ledger, k: Address, v: Word)
    ensures Total(m[k := v]) == Total(m) - Get(m, k) + v
  {
    var m' := m[k := v];
    TotalWithout(m', k);
    if k in m {
      TotalWithout(m, k);
      assert m' - {k} == m - {k};
    } else {
      assert m' - {k} == m;
    }
  }

  lemma TotalBounds(m: Ledger, a: Address, b: Address)
    ensures Get(m, a) <= Total(m)
    ensures a != b ==> Get(m, a) + Get(m, b) <= Total(m)
  {
    TotalUpdate(m, a, 0);
    if a != b { TotalUpdate(m[a := 0], b, 0); }
  }

  /** An honest ERC-20 `transfer`: exact, or a revert when the sender is short or the recipient would overflow. */
  function TokenTransfer(l: Ledger, from: Address, to: Address, value: Word): (r: Result<Ledger>)
    ensures r.Halted? ==> r.why == Reverted
  {
    if Get(l, from) < value then Halted(Reverted)
    else
      var debited := l[from := Get(l, from) - value];
      if Get(debited, to) + value >= TWO_256 then Halted(Reverted)
      else Ok(debited[to := Get(debited, to) + value])
  }

  /** Transfers conserve the total and move exactly `value` between two different accounts. */
  lemma TransferConserves(l: Ledger, from: Address, to: Address, value: Word)
    requires TokenTransfer(l, from, to, value).Ok?
    ensures var l' := TokenTransfer(l, from, to, value).value;
      && Total(l') == Total(l)
      && Get(l', from) == (if from == to then Get(l, from) else Get(l, from) - value)
      && Get(l', to) == (if from == to then Get(l, to) else Get(l, to) + value)
      && forall a :: a != from && a != to ==> Get(l', a) == Get(l, a)
  {
    TotalUpdate(l, from, Get(l, from) - value);
    var debited := l[from := Get(l, from) - value];
    TotalUpdate(debited, to, Get(debited, to) + value);
  }

  /** Every account after `value` has gone from one account to another, or nowhere when they are the same. */
  ghost predicate Moved(before: Ledger, after: Ledger, from: Address, to: Address, value: Word) {
    && Total(after) == Total(before)
    && forall a: Address ::
      Get(after, a) == Get(before, a) - (if a == from then value else 0) + (if a == to then value else 0)
  }

  lemma TransferMoves(l: Ledger, from: Address, to: Address, value: Word)
    ensures var r := TokenTransfer(l, from, to, value);
      r.Ok? ==> value <= Get(l, from) && Moved(l, r.value, from, to, value)
  {
    if TokenTransfer(l, from, to, value).Ok? { TransferConserves(l, from, to, value); }
    hide Total;
  }

  /** With the supply below 2^256, a transfer succeeds exactly when the sender can pay. */
  lemma TransferSucceeds(l: Ledger, from: Address, to: Address, value: Word)
    requires Total(l) < TWO_256
    ensures TokenTransfer(l, from, to, value).Ok? <==> value <= Get(l, from)
  {
    TotalBounds(l, from, to);
  }
}
