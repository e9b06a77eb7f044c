/** The factory contract in its own form. */
module FactoryContract {
  import opened Words
  import opened PairSpec
  import opened FactorySpec

  class Factory {
    const self: Address
    var feeTo: Address
    var feeToSetter: Address
    var getPair: map<(Address, Address), Address>
    var length: Word
    var elements: map<Word, Address>
    var codeHash: Word
    /** Every pair contract on the chain: the host's state, changed by instantiating and initializing one. */
    var pairs: map<Address, Slots>

    constructor Deploy(self: Address, feeToSetter: Address, codeHash: Word, pairs: map<Address, Slots>)
      ensures this.self == self
      ensures State() == Chain(self, Registry(0, feeToSetter, map[], 0, map[], codeHash), pairs)
    {
      this.self, this.feeTo, this.feeToSetter, this.codeHash := self, 0, feeToSetter, codeHash;
      this.getPair, this.length, this.elements, this.pairs := map[], 0, map[], pairs;
    }

    function State(): Chain
      reads this
    {
      Chain(self, Registry(feeTo, feeToSetter, getPair, length, elements, codeHash), pairs)
    }

    method SetPair(token0: Address, token1: Address, pair: Address)
      modifies this`getPair
      ensures getPair == old(getPair)[(token0, token1) := pair]
    {
      getPair := getPair[(token0, token1) := pair];
    }

    /** A push appends to whatever creations the array lists, and leaves the earlier entries alone. */
    method AllPairsPush(pair: Address)
      modifies this`length, this`elements
      ensures elements == old(elements)[old(length) := pair] && length == WAdd(old(length), 1)
      ensures forall log: seq<Creation>, x: Creation | ArrayAgrees(old(State()).registry, log) && |log| < TWO_160 && x.pair == pair ::
        ArrayAgrees(State().registry, log + [x])
    {
      ghost var before := State().registry;
      forall log: seq<Creation>, x: Creation | ArrayAgrees(before, log) && |log| < TWO_160 && x.pair == pair
        ensures ArrayAgrees(PushPair(before, pair), log + [x])
      {
        PushAgrees(before, log, x);
      }
      elements := elements[length := pair];
      length := WAdd(length, 1);
    }

    /** `createPair`; nothing changes unless it completes. */
    method CreatePair(tokenA: Address, tokenB: Address, instantiated: Result<Address>) returns (r: Result<Address>)
      modifies this
      ensures match FactorySpec.CreatePair(old(State()), tokenA, tokenB, instantiated)
        case Ok((after, pair)) => r == Ok(pair) && State() == after
        case Halted(why) => r == Halted(why) && State() == old(State())
    {
      if tokenA == tokenB { return Halted(Reverted); }
      var (token0, token1) := SortTokens(tokenA, tokenB);
      if token0 == ZERO_ADDRESS { return Halted(Reverted); }
      if Lookup(getPair, (token0, token1)) != ZERO_ADDRESS { return Halted(Reverted); }
      if codeHash == 0 { return Halted(Reverted); }
      if instantiated.Halted? { return Halted(Reverted); }
      var pair := instantiated.value;
      pairs := pairs[pair := Deployed(self)];
      var initialized := InitializeSlots(pairs[pair], token0, token1);
      // a new pair is unlocked and unnamed, so its initialize cannot fail
      if initialized.Halted? { assert false; }
      pairs := pairs[pair := initialized.value];
      SetPair(token0, token1, pair);
      SetPair(token1, token0, pair);
      AllPairsPush(pair);
      r := Ok(pair);
    }

    /** `getPair(tokenA, tokenB)`: in a factory that agrees with the creations `log`, the pair created
        for the two tokens in either order, and zero when there is none. */
    method GetPair(tokenA: Address, tokenB: Address) returns (pair: Address)
      ensures forall log: seq<Creation> :: Agrees(State(), log) ==> Answers(log, tokenA, tokenB, pair)
    {
      var (token0, token1) := SortTokens(tokenA, tokenB);
      pair := Lookup(getPair, (token0, token1));
      forall log: seq<Creation> | Agrees(State(), log)
        ensures Answers(log, tokenA, tokenB, pair)
      {
        FindAnswers(log, token0, token1);
      }
    }

    method AllPairs(index: Word) returns (pair: Address)
      ensures pair == Lookup(elements, index)
    {
      pair := Lookup(elements, index);
    }

    method SetFeeTo(caller: Address, newFeeTo: Address) returns (r: Result<()>)
      modifies this
      ensures State() == StepChain(old(State()), Event.SetFeeTo(caller, newFeeTo))
      ensures var was := old(State());
        State() == was.(registry := was.registry.(feeTo := if caller == old(feeToSetter) then newFeeTo else old(feeTo)))
      ensures r == if caller == old(feeToSetter) then Ok(()) else Halted(Reverted)
    {
      if caller != feeToSetter { return Halted(Reverted); }
      feeTo := newFeeTo;
      r := Ok(());
    }

    method SetFeeToSetter(caller: Address, newSetter: Address) returns (r: Result<()>)
      modifies this
      ensures State() == StepChain(old(State()), Event.SetFeeToSetter(caller, newSetter))
      ensures var was := old(State());
        State() == was.(registry := was.registry.(feeToSetter := if caller == old(feeToSetter) then newSetter else old(feeToSetter)))
      ensures r == if caller == old(feeToSetter) then Ok(()) else Halted(Reverted)
    {
      if caller != feeToSetter { return Halted(Reverted); }
      feeToSetter := newSetter;
      r := Ok(());
    }
  }
}
