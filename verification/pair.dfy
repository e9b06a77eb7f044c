/** The pair contract in its own form: storage slots overwritten step by step, with token calls in between. */
module PairContract {
  import opened Words
  import opened PackedReserves
  import opened Ledgers
  import opened Sqrt
  import opened PairSpec

  /** An honest ERC-20 contract. */
  class Token {
    var balances: Ledger

    constructor (balances: Ledger)
      ensures this.balances == balances
    {
      this.balances := balances;
    }

    method BalanceOf(account: Address) returns (balance: Word)
      ensures balance == Get(balances, account)
    {
      balance := if account in balances then balances[account] else 0;
    }

    method Transfer(from: Address, to: Address, value: Word) returns (ok: bool)
      modifies this
      ensures ok <==> TokenTransfer(old(balances), from, to, value).Ok?
      ensures balances == if ok then TokenTransfer(old(balances), from, to, value).value else old(balances)
    {
      var had := Get(balances, from);
      if had < value { return false; }
      var before := balances;
      balances := balances[from := had - value];
      var has := Get(balances, to);
      if has + value >= TWO_256 {
        balances := before;
        return false;
      }
      balances := balances[to := has + value];
      ok := true;
    }

    /** A transfer made only where there is something to pay. */
    method PayOut(from: Address, to: Address, out: Word) returns (ok: bool)
      modifies this
      ensures PairSpec.PayOut(old(balances), from, to, out) == if ok then Ok(balances) else Halted(Reverted)
    {
      hide TokenTransfer;
      ok := true;
      if out > 0 { ok := Transfer(from, to, out); }
    }
  }

  /** One deployed pair. `coin0` and `coin1` are the contracts at the addresses in slots token0 and token1. */
  class Pair {
    const me: Address
    const coin0: Token
    const coin1: Token
    var factory: Address
    var token0: Address
    var token1: Address
    var reserves: Word
    var unlocked: Word
    var totalSupply: Word
    var balanceOf: Ledger
    var allowance: map<(Address, Address), Word>

    constructor Deploy(me: Address, coin0: Token, coin1: Token, caller: Address)
      ensures this.me == me && this.coin0 == coin0 && this.coin1 == coin1
      ensures Storage() == Deployed(caller)
    {
      this.me, this.coin0, this.coin1 := me, coin0, coin1;
      factory, token0, token1 := caller, 0, 0;
      reserves, unlocked, totalSupply := 0, 1, 0;
      balanceOf, allowance := map[], map[];
    }

    function Storage(): Slots
      reads this
    {
      Slots(factory, token0, token1, reserves, unlocked, totalSupply, balanceOf, allowance)
    }

    function State(): World
      reads this, coin0, coin1
    {
      World(Storage(), coin0.balances, coin1.balances)
    }

    /** A completed branch has the reply's data and state; a halted one only its verdict, since the host discards the rest. */
    ghost predicate Agrees(r: Result<seq<Word>>, reply: Reply)
      reads this, coin0, coin1
    {
      match reply
      case Ok((w, data)) => r == Ok(data) && State() == w
      case Halted(why) => r == Halted(why)
    }

    method Initialize(t0: Address, t1: Address) returns (r: Result<seq<Word>>)
      modifies this
      ensures Agrees(r, InitializeCall(old(State()), t0, t1))
    {
      if unlocked != 1 { return Halted(Reverted); }
      unlocked := 0;
      if token0 != ZERO_ADDRESS {
        unlocked := 1;
        return Halted(Reverted);
      }
      token0 := t0;
      token1 := t1;
      unlocked := 1;
      r := Ok([]);
    }

    /** The two branches of `mint` that issue shares. */
    method Issue(reserve: Reserves, balance0: Word, balance1: Word) returns (r: Result<Word>)
      modifies this
      ensures match Issued(AS_WRITTEN, old(Storage()), reserve, balance0, balance1)
        case Ok((s, liquidity)) => r == Ok(liquidity) && Storage() == s
        case Halted(why) => r == Halted(why)
    {
      hide FloorSqrt, WMul, WSub, WAdd, Quotient;
      var amount0 := WSub(balance0, reserve.r0);
      var amount1 := WSub(balance1, reserve.r1);
      var supply := totalSupply;
      var liquidity: Word;
      if supply == 0 {
        var root, _ := SqrtU256(WMul(amount0, amount1));
        if root <= MINIMUM_LIQUIDITY {
          unlocked := 1;
          return Halted(Reverted);
        }
        liquidity := root - MINIMUM_LIQUIDITY;
        totalSupply := WAdd(supply, MINIMUM_LIQUIDITY);
        balanceOf := balanceOf[ZERO_ADDRESS := MINIMUM_LIQUIDITY];
      } else {
        if reserve.r0 == 0 || reserve.r1 == 0 { return Halted(Trapped); }
        var l0: Word := Quotient(WMul(amount0, supply), reserve.r0);
        var l1: Word := Quotient(WMul(amount1, supply), reserve.r1);
        liquidity := if l0 < l1 then l0 else l1;
        if liquidity == 0 {
          unlocked := 1;
          return Halted(Reverted);
        }
        totalSupply := WAdd(supply, liquidity);
      }
      r := Ok(liquidity);
    }

    method Mint(to: Address, now: Word) returns (r: Result<seq<Word>>)
      modifies this
      ensures Agrees(r, MintCall(AS_WRITTEN, me, old(State()), to, now))
    {
      hide Pack, GetReserves, Issued, WAdd;
      if unlocked != 1 { return Halted(Reverted); }
      unlocked := 0;
      var reserve := GetReserves(false, reserves);
      var balance0 := coin0.BalanceOf(me);
      var balance1 := coin1.BalanceOf(me);
      var issued := Issue(reserve, balance0, balance1);
      if issued.Halted? { return Halted(issued.why); }
      var liquidity := issued.value;
      balanceOf := balanceOf[to := WAdd(Get(balanceOf, to), liquidity)];
      if balance0 >= TWO_128 || balance1 >= TWO_128 || now >= TWO_32 { return Halted(Trapped); }
      reserves := Pack(balance0, balance1, now);
      unlocked := 1;
      r := Ok([liquidity]);
    }

    method Burn(to: Address, now: Word) returns (r: Result<seq<Word>>)
      requires coin0 != coin1
      modifies this, coin0, coin1
      ensures Agrees(r, BurnCall(me, old(State()), to, now))
    {
      hide Pack, WMul, WSub, TokenTransfer;
      if unlocked != 1 { return Halted(Reverted); }
      unlocked := 0;
      var liquidity := Get(balanceOf, me);
      if liquidity == 0 {
        unlocked := 1;
        return Halted(Reverted);
      }
      var supply := totalSupply;
      var balance0 := coin0.BalanceOf(me);
      var balance1 := coin1.BalanceOf(me);
      if supply == 0 { return Halted(Trapped); }
      var amount0: Word := Quotient(WMul(liquidity, balance0), supply);
      var amount1: Word := Quotient(WMul(liquidity, balance1), supply);
      if amount0 == 0 || amount1 == 0 {
        unlocked := 1;
        return Halted(Reverted);
      }
      balanceOf := balanceOf[me := 0];
      totalSupply := WSub(supply, liquidity);
      var sent0 := coin0.Transfer(me, to, amount0);
      if !sent0 { return Halted(Reverted); }
      var sent1 := coin1.Transfer(me, to, amount1);
      if !sent1 { return Halted(Reverted); }
      var left0 := coin0.BalanceOf(me);
      var left1 := coin1.BalanceOf(me);
      if left0 >= TWO_128 || left1 >= TWO_128 || now >= TWO_32 { return Halted(Trapped); }
      reserves := Pack(left0, left1, now);
      unlocked := 1;
      r := Ok([amount0, amount1]);
    }

    /** What `swap` does with the balances that its payouts leave. */
    method Settle(reserve: Reserves, out0: Word, out1: Word, now: Word) returns (r: Result<seq<Word>>)
      modifies this
      ensures match FinishSwap(old(Storage()), reserve, out0, out1, Get(coin0.balances, me), Get(coin1.balances, me), now)
        case Ok(s) => r == Ok([]) && Storage() == s
        case Halted(why) => r == Halted(why)
    {
      hide Pack, WMul, WSub;
      var balance0 := coin0.BalanceOf(me);
      var balance1 := coin1.BalanceOf(me);
      var kept0, kept1 := WSub(reserve.r0, out0), WSub(reserve.r1, out1);
      var in0: Word := if balance0 > kept0 then WSub(balance0, kept0) else 0;
      var in1: Word := if balance1 > kept1 then WSub(balance1, kept1) else 0;
      if in0 == 0 && in1 == 0 {
        unlocked := 1;
        return Halted(Reverted);
      }
      var adj0 := WSub(WMul(balance0, 1000), WMul(in0, 3));
      var adj1 := WSub(WMul(balance1, 1000), WMul(in1, 3));
      if WMul(adj0, adj1) < WMul(WMul(WMul(reserve.r0, reserve.r1), 1000), 1000) {
        unlocked := 1;
        return Halted(Reverted);
      }
      if balance0 >= TWO_128 || balance1 >= TWO_128 || now >= TWO_32 { return Halted(Trapped); }
      reserves := Pack(balance0, balance1, now);
      unlocked := 1;
      r := Ok([]);
    }

    method Swap(out0: Word, out1: Word, to: Address, now: Word) returns (r: Result<seq<Word>>)
      requires coin0 != coin1
      modifies this, coin0, coin1
      ensures Agrees(r, SwapCall(AS_WRITTEN, me, old(State()), out0, out1, to, now))
    {
      hide GetReserves, PairSpec.PayOut, FinishSwap;
      if unlocked != 1 { return Halted(Reverted); }
      unlocked := 0;
      if out0 == 0 && out1 == 0 {
        unlocked := 1;
        return Halted(Reverted);
      }
      var reserve := GetReserves(false, reserves);
      if out0 >= reserve.r0 || out1 >= reserve.r1 {
        unlocked := 1;
        return Halted(Reverted);
      }
      if to == token0 || to == token1 {
        unlocked := 1;
        return Halted(Reverted);
      }
      var sent0 := coin0.PayOut(me, to, out0);
      if !sent0 { return Halted(Reverted); }
      var sent1 := coin1.PayOut(me, to, out1);
      if !sent1 { return Halted(Reverted); }
      r := Settle(reserve, out0, out1, now);
    }

    method Skim(to: Address) returns (r: Result<seq<Word>>)
      requires coin0 != coin1
      modifies this, coin0, coin1
      ensures Agrees(r, SkimCall(AS_WRITTEN, me, old(State()), to))
    {
      if unlocked != 1 { return Halted(Reverted); }
      unlocked := 0;
      var reserve := GetReserves(false, reserves);
      var balance0 := coin0.BalanceOf(me);
      var balance1 := coin1.BalanceOf(me);
      var sent0 := coin0.Transfer(me, to, WSub(balance0, reserve.r0));
      if !sent0 { return Halted(Reverted); }
      var sent1 := coin1.Transfer(me, to, WSub(balance1, reserve.r1));
      if !sent1 { return Halted(Reverted); }
      unlocked := 1;
      r := Ok([]);
    }

    method Sync() returns (r: Result<seq<Word>>)
      modifies this
      ensures Agrees(r, SyncCall(AS_WRITTEN, me, old(State())))
    {
      if unlocked != 1 { return Halted(Reverted); }
      unlocked := 0;
      var balance0 := coin0.BalanceOf(me);
      var balance1 := coin1.BalanceOf(me);
      var reserve := GetReserves(false, reserves);
      if balance0 >= TWO_128 || balance1 >= TWO_128 { return Halted(Trapped); }
      reserves := Pack(balance0, balance1, reserve.ts);
      unlocked := 1;
      r := Ok([]);
    }

    method Approve(caller: Address, spender: Address, value: Word) returns (r: Result<seq<Word>>)
      modifies this
      ensures r == Ok([1]) && State() == old(State()).(pair := SetAllowance(old(Storage()), caller, spender, value))
    {
      allowance := allowance[(caller, spender) := value];
      r := Ok([1]);
    }

    method Transfer(caller: Address, to: Address, value: Word) returns (r: Result<seq<Word>>)
      modifies this
      ensures Agrees(r, Attempt(AS_WRITTEN, me, old(State()), Action.Transfer(caller, to, value)))
    {
      var balance := Get(balanceOf, caller);
      if balance < value { return Halted(Reverted); }
      balanceOf := balanceOf[caller := balance - value];
      balanceOf := balanceOf[to := WAdd(Get(balanceOf, to), value)];
      r := Ok([1]);
    }

    method TransferFrom(caller: Address, from: Address, to: Address, value: Word) returns (r: Result<seq<Word>>)
      modifies this
      ensures Agrees(r, Attempt(AS_WRITTEN, me, old(State()), Action.TransferFrom(caller, from, to, value)))
    {
      hide MoveSharesFrom, WAdd;
      TransferFromByParts(old(Storage()), caller, from, to, value);
      var allowed := Get(allowance, (from, caller));
      if allowed != MAX_WORD && allowed < value { return Halted(Reverted); }
      var balance := Get(balanceOf, from);
      if balance < value { return Halted(Reverted); }
      if allowed != MAX_WORD {
        allowance := allowance[(from, caller) := allowed - value];
      }
      balanceOf := balanceOf[from := balance - value];
      balanceOf := balanceOf[to := WAdd(Get(balanceOf, to), value)];
      r := Ok([1]);
    }

    /** The host's rollback of a call that reverted or trapped. */
    method Restore(w: World)
      requires coin0 != coin1
      modifies this, coin0, coin1
      ensures State() == w
    {
      factory, token0, token1 := w.pair.factory, w.pair.token0, w.pair.token1;
      reserves, unlocked, totalSupply := w.pair.reserves, w.pair.unlocked, w.pair.totalSupply;
      balanceOf, allowance := w.pair.balanceOf, w.pair.allowance;
      coin0.balances := w.led0;
      coin1.balances := w.led1;
    }

    /** One transaction: `call` with its arguments decoded, undone by the host unless it completes. */
    method Call(a: Action) returns (r: Result<seq<Word>>)
      requires coin0 != coin1 && !a.TokensMove?
      modifies this, coin0, coin1
      ensures State() == Step(AS_WRITTEN, me, old(State()), a)
      ensures Agrees(r, Attempt(AS_WRITTEN, me, old(State()), a))
    {
      hide MintCall, BurnCall, SwapCall, SkimCall, SyncCall, InitializeCall, MoveShares, MoveSharesFrom;
      var before := State();
      match a {
        case Initialize(t0, t1) => r := Initialize(t0, t1);
        case Mint(to, now) => r := Mint(to, now);
        case Burn(to, now) => r := Burn(to, now);
        case Swap(out0, out1, to, now) => r := Swap(out0, out1, to, now);
        case Skim(to) => r := Skim(to);
        case Sync => r := Sync();
        case Approve(caller, spender, value) => r := Approve(caller, spender, value);
        case Transfer(caller, to, value) => r := Transfer(caller, to, value);
        case TransferFrom(caller, from, to, value) => r := TransferFrom(caller, from, to, value);
      }
      if r.Halted? { Restore(before); }
    }
  }

  /** Both checks of `transferFrom` come before any of its writes. */
  lemma TransferFromByParts(s: Slots, caller: Address, from: Address, to: Address, value: Word)
    ensures var allowed := Get(s.allowance, (from, caller));
      var had := Get(s.balanceOf, from);
      MoveSharesFrom(s, caller, from, to, value)
      == if (allowed != MAX_WORD && allowed < value) || had < value then Halted(Reverted)
         else
           var debited := s.balanceOf[from := had - value];
           Ok(s.(allowance := if allowed == MAX_WORD then s.allowance else s.allowance[(from, caller) := allowed - value],
                 balanceOf := debited[to := WAdd(Get(debited, to), value)]))
  {
    hide WAdd;
  }
}
