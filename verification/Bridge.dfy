/** The IBC bridge between the 8-decimal voucher and the 18-decimal EVM token: vouchers are escrowed in
    the module account and ten to the tenth EVM tokens are minted for each. */
module Bridge {
  import opened Bytes

  const TEN_POW_TEN: nat := 10_000_000_000

  type Address = Bytes
  type Denom = Bytes

  // ----- The bank -----

  datatype Bank = Bank(balances: map<(Address, Denom), nat>, supply: map<Denom, nat>)

  function Balance(b: Bank, a: Address, d: Denom): nat {
    if (a, d) in b.balances then b.balances[(a, d)] else 0
  }

  function Supply(b: Bank, d: Denom): nat {
    if d in b.supply then b.supply[d] else 0
  }

  function WithBalance(b: Bank, a: Address, d: Denom, amount: nat): Bank {
    b.(balances := b.balances[(a, d) := amount])
  }

  /** Sending fails when the sender has too little. */
  function Send(b: Bank, sender: Address, receiver: Address, d: Denom, amount: nat): Option<Bank> {
    if Balance(b, sender, d) < amount then None else
    var taken := WithBalance(b, sender, d, Balance(b, sender, d) - amount);
    Some(WithBalance(taken, receiver, d, Balance(taken, receiver, d) + amount))
  }

  function Mint(b: Bank, a: Address, d: Denom, amount: nat): Bank {
    WithBalance(b, a, d, Balance(b, a, d) + amount).(supply := b.supply[d := Supply(b, d) + amount])
  }

  /** Burning fails when the account has too little. */
  function Burn(b: Bank, a: Address, d: Denom, amount: nat): Option<Bank> {
    if Balance(b, a, d) < amount || Supply(b, d) < amount then None else
    Some(WithBalance(b, a, d, Balance(b, a, d) - amount).(supply := b.supply[d := Supply(b, d) - amount]))
  }

  // ----- The two conversions -----

  /** The module accounts of the application. */
  datatype ModuleName =
    | FeeCollector | Distribution | Minting | BondedPool | NotBondedPool | Governance
    | IbcTransfer | InterchainAccounts | Evm | Cronos

  /** The module accounts that may receive tokens: none. */
  const ALLOWED_RECEIVING: set<ModuleName> := {}

  /** The addresses of the module accounts and the two denominations, which never change. */
  datatype Params = Params(moduleAddress: ModuleName -> Address, ibcCro: Denom, evm: Denom)

  function ModuleAccount(p: Params): Address {
    p.moduleAddress(Cronos)
  }

  function BlockedAddrs(p: Params): set<Address> {
    set name: ModuleName | name !in ALLOWED_RECEIVING :: p.moduleAddress(name)
  }

  /** `SendCoinsFromModuleToAccount` from the bridge's account: blocked receivers are refused. */
  function PayOut(p: Params, b: Bank, receiver: Address, d: Denom, amount: nat): Option<Bank> {
    if receiver in BlockedAddrs(p) then None else Send(b, ModuleAccount(p), receiver, d, amount)
  }

  /** The IBC CRO case of `ConvertVouchersToEvmCoins`: escrow, mint, pay out. */
  function ConvertCoin(p: Params, b: Bank, acc: Address, amount: nat): Option<Bank> {
    if p.ibcCro == [] then None else
    match Send(b, acc, ModuleAccount(p), p.ibcCro, amount)
    case None => None
    case Some(b1) =>
      var amount18dec := amount * TEN_POW_TEN;
      PayOut(p, Mint(b1, ModuleAccount(p), p.evm, amount18dec), acc, p.evm, amount18dec)
  }

  /** What `IbcTransferCoins` takes from an amount of EVM tokens. */
  function ToBurn(amount: nat): nat {
    amount - amount % TEN_POW_TEN
  }

  /** `ibcSendTransfer` of vouchers, which removes them from this chain. The transfer module refuses blocked senders, and
      it may refuse others (`accepted`): without a source channel, or while sending is disabled. */
  function IbcSend(p: Params, b: Bank, acc: Address, amount: nat, accepted: bool): Option<Bank> {
    if !accepted || acc in BlockedAddrs(p) then None else Burn(b, acc, p.ibcCro, amount)
  }

  /** The EVM token case of `IbcTransferCoins`: collect, burn, release from escrow, and send the vouchers
      away over IBC. */
  function TransferCoin(p: Params, b: Bank, acc: Address, amount: nat, accepted: bool): Option<Bank> {
    if ToBurn(amount) == 0 then Some(b) else
    match Send(b, acc, ModuleAccount(p), p.evm, ToBurn(amount))
    case None => None
    case Some(b1) =>
      match Burn(b1, ModuleAccount(p), p.evm, ToBurn(amount))
      case None => None
      case Some(b2) =>
        match PayOut(p, b2, acc, p.ibcCro, amount / TEN_POW_TEN)
        case None => None
        case Some(b3) => IbcSend(p, b3, acc, amount / TEN_POW_TEN, accepted)
  }

  // ----- Conservation -----

  /** What the escrow is worth in EVM tokens, less all EVM tokens in existence. */
  function Backing(p: Params, b: Bank): int {
    Balance(b, ModuleAccount(p), p.ibcCro) * TEN_POW_TEN - Supply(b, p.evm)
  }

  lemma SendEffect(b: Bank, sender: Address, receiver: Address, d: Denom, amount: nat, a: Address, e: Denom)
    requires Send(b, sender, receiver, d, amount).Some?
    ensures var r := Send(b, sender, receiver, d, amount).value;
      && r.supply == b.supply
      && Balance(r, a, e) == Balance(b, a, e) + (if e == d && a == receiver then amount else 0)
                             - (if e == d && a == sender then amount else 0)
  {}

  /** The bridge's own account is blocked, so it is never paid by the bridge. */
  lemma BridgeIsBlocked(p: Params)
    ensures ModuleAccount(p) in BlockedAddrs(p)
  {
    assert Cronos !in ALLOWED_RECEIVING;
  }

  /** A conversion succeeds exactly when it is configured, the signer may be paid and has the vouchers. Whoever signs,
      it keeps the backing and mints exactly what it escrows is worth. */
  lemma ConvertConserves(p: Params, b: Bank, acc: Address, amount: nat)
    requires p.ibcCro != p.evm
    ensures ConvertCoin(p, b, acc, amount).Some? <==>
      p.ibcCro != [] && acc !in BlockedAddrs(p) && Balance(b, acc, p.ibcCro) >= amount
    ensures ConvertCoin(p, b, acc, amount).Some? ==>
      var r := ConvertCoin(p, b, acc, amount).value;
      && Backing(p, r) == Backing(p, b)
      && Supply(r, p.evm) == Supply(b, p.evm) + amount * TEN_POW_TEN
      && Balance(r, acc, p.evm) == Balance(b, acc, p.evm) + amount * TEN_POW_TEN
      && Balance(r, acc, p.ibcCro) == Balance(b, acc, p.ibcCro) - amount
  {
    hide Send;
    hide BlockedAddrs;
    BridgeIsBlocked(p);
    var m, n := ModuleAccount(p), amount * TEN_POW_TEN;
    SendSucceeds(b, acc, m, p.ibcCro, amount);
    if Balance(b, acc, p.ibcCro) >= amount && acc != m {
      SendEffect(b, acc, m, p.ibcCro, amount, m, p.ibcCro);
      SendEffect(b, acc, m, p.ibcCro, amount, acc, p.ibcCro);
      SendEffect(b, acc, m, p.ibcCro, amount, acc, p.evm);
      var b2 := Mint(Send(b, acc, m, p.ibcCro, amount).value, m, p.evm, n);
      SendSucceeds(b2, m, acc, p.evm, n);
      SendEffect(b2, m, acc, p.evm, n, m, p.ibcCro);
      SendEffect(b2, m, acc, p.evm, n, acc, p.ibcCro);
      SendEffect(b2, m, acc, p.evm, n, acc, p.evm);
    }
  }

  lemma SendSucceeds(b: Bank, sender: Address, receiver: Address, d: Denom, amount: nat)
    ensures Send(b, sender, receiver, d, amount).Some? <==> Balance(b, sender, d) >= amount
  {}

  lemma QuotientTimes(amount: nat)
    ensures (amount / TEN_POW_TEN) * TEN_POW_TEN == ToBurn(amount)
  {}

  /** What a transfer needs: a signer that may be paid and has the tokens, enough in escrow and in existence, and an IBC
      send that is accepted. */
  predicate CanTransfer(p: Params, b: Bank, acc: Address, amount: nat, accepted: bool) {
    ToBurn(amount) == 0
    || (&& accepted && acc !in BlockedAddrs(p) && Balance(b, acc, p.evm) >= ToBurn(amount) && Supply(b, p.evm) >= ToBurn(amount)
        && Balance(b, ModuleAccount(p), p.ibcCro) >= amount / TEN_POW_TEN && Supply(b, p.ibcCro) >= amount / TEN_POW_TEN)
  }

  /** A transfer burns exactly ten to the tenth times what it releases, keeps the backing, and leaves the
      remainder with the user, whoever that is. */
  lemma TransferConserves(p: Params, b: Bank, acc: Address, amount: nat, accepted: bool)
    requires p.ibcCro != p.evm
    ensures TransferCoin(p, b, acc, amount, accepted).Some? <==> CanTransfer(p, b, acc, amount, accepted)
    ensures TransferCoin(p, b, acc, amount, accepted).Some? ==>
      var r := TransferCoin(p, b, acc, amount, accepted).value; var m := ModuleAccount(p);
      && Backing(p, r) == Backing(p, b)
      && Supply(b, p.evm) - Supply(r, p.evm) == (amount / TEN_POW_TEN) * TEN_POW_TEN
      && Balance(b, m, p.ibcCro) - Balance(r, m, p.ibcCro) == amount / TEN_POW_TEN
      && Supply(b, p.ibcCro) - Supply(r, p.ibcCro) == amount / TEN_POW_TEN
      && Balance(r, acc, p.evm) == Balance(b, acc, p.evm) - amount + amount % TEN_POW_TEN
      && Balance(r, acc, p.ibcCro) == Balance(b, acc, p.ibcCro)
  {
    hide Send;
    hide BlockedAddrs;
    QuotientTimes(amount);
    BridgeIsBlocked(p);
    var m, n, k := ModuleAccount(p), ToBurn(amount), amount / TEN_POW_TEN;
    SendSucceeds(b, acc, m, p.evm, n);
    if n != 0 && acc != m && Balance(b, acc, p.evm) >= n {
      SendEffect(b, acc, m, p.evm, n, m, p.ibcCro);
      SendEffect(b, acc, m, p.evm, n, m, p.evm);
      SendEffect(b, acc, m, p.evm, n, acc, p.ibcCro);
      SendEffect(b, acc, m, p.evm, n, acc, p.evm);
      var b1 := Send(b, acc, m, p.evm, n).value;
      if Supply(b, p.evm) >= n {
        var b2 := Burn(b1, m, p.evm, n).value;
        SendSucceeds(b2, m, acc, p.ibcCro, k);
        if Balance(b, m, p.ibcCro) >= k {
          SendEffect(b2, m, acc, p.ibcCro, k, m, p.ibcCro);
          SendEffect(b2, m, acc, p.ibcCro, k, acc, p.ibcCro);
          SendEffect(b2, m, acc, p.ibcCro, k, acc, p.evm);
        }
      }
    }
  }

  /** Sending the vouchers themselves, which `IbcTransferCoins` does when they have a contract, takes them from the
      signer and leaves the escrow alone. */
  lemma VoucherSendConserves(p: Params, b: Bank, acc: Address, amount: nat, accepted: bool)
    requires p.ibcCro != p.evm
    ensures IbcSend(p, b, acc, amount, accepted).Some? ==>
      var r := IbcSend(p, b, acc, amount, accepted).value;
      && Backing(p, r) == Backing(p, b)
      && Balance(r, acc, p.ibcCro) == Balance(b, acc, p.ibcCro) - amount
      && Supply(r, p.ibcCro) == Supply(b, p.ibcCro) - amount
  {
    BridgeIsBlocked(p);
  }

  // ----- Whole messages and runs -----

  datatype Coin = Coin(denom: Denom, amount: nat)

  /** A message and, for each of its coins, whether the code outside the bridge accepts it: the IBC send, or the
      conversion or transfer of a coin in another denomination, which touches neither the escrow nor the EVM supply. */
  datatype Msg = Msg(convert: bool, acc: Address, coins: seq<Coin>, accepted: seq<bool>)

  function OneCoin(p: Params, b: Bank, msg: Msg, i: nat): Option<Bank>
    requires i < |msg.coins| == |msg.accepted|
  {
    var c := msg.coins[i];
    if msg.convert && c.denom == p.ibcCro then ConvertCoin(p, b, msg.acc, c.amount)
    else if !msg.convert && c.denom == p.evm then TransferCoin(p, b, msg.acc, c.amount, msg.accepted[i])
    else if !msg.convert && c.denom == p.ibcCro then IbcSend(p, b, msg.acc, c.amount, msg.accepted[i])
    else if msg.accepted[i] then Some(b) else None
  }

  function Coins(p: Params, b: Bank, msg: Msg, n: nat): Option<Bank>
    requires n <= |msg.coins| == |msg.accepted|
  {
    if n == 0 then Some(b) else
    match Coins(p, b, msg, n - 1)
    case None => None
    case Some(b') => OneCoin(p, b', msg, n - 1)
  }

  /** The state after a message; a failed message is rolled back. */
  function Deliver(p: Params, b: Bank, msg: Msg): Bank
    requires |msg.coins| == |msg.accepted|
  {
    match Coins(p, b, msg, |msg.coins|) case Some(b') => b' case None => b
  }

  // ----- What a whole message does -----

  /** The vouchers among the first `n` coins. */
  function VoucherSum(p: Params, coins: seq<Coin>, n: nat): nat
    requires n <= |coins|
  {
    if n == 0 then 0 else VoucherSum(p, coins, n - 1) + if coins[n - 1].denom == p.ibcCro then coins[n - 1].amount else 0
  }

  /** The EVM tokens among the first `n` coins, each coin in whole vouchers. */
  function EvmSum(p: Params, coins: seq<Coin>, n: nat): nat
    requires n <= |coins|
  {
    if n == 0 then 0 else
    EvmSum(p, coins, n - 1) + if coins[n - 1].denom == p.evm then coins[n - 1].amount / TEN_POW_TEN else 0
  }

  /** What coin `i` needs besides balances: vouchers are converted only if that is configured and the signer may be
      paid; other coins must be accepted. */
  predicate ConvertPasses(p: Params, acc: Address, coins: seq<Coin>, accepted: seq<bool>, i: nat)
    requires i < |coins| == |accepted|
  {
    if coins[i].denom == p.ibcCro then p.ibcCro != [] && acc !in BlockedAddrs(p) else accepted[i]
  }

  /** EVM tokens too few for one voucher are passed over; otherwise they and vouchers need a signer that may be paid and
      send, and every coin must be accepted. */
  predicate TransferPasses(p: Params, acc: Address, coins: seq<Coin>, accepted: seq<bool>, i: nat)
    requires i < |coins| == |accepted|
  {
    if coins[i].denom == p.evm && coins[i].amount < TEN_POW_TEN then true
    else accepted[i] && (coins[i].denom == p.evm || coins[i].denom == p.ibcCro ==> acc !in BlockedAddrs(p))
  }

  /** The signer gives `vouchers` and gets ten to the tenth EVM tokens, newly minted, for each; the escrow gets the vouchers. */
  ghost predicate Converted(p: Params, b: Bank, r: Bank, acc: Address, vouchers: nat) {
    && Balance(r, acc, p.ibcCro) == Balance(b, acc, p.ibcCro) - vouchers
    && Balance(r, acc, p.evm) == Balance(b, acc, p.evm) + vouchers * TEN_POW_TEN
    && Supply(r, p.evm) == Supply(b, p.evm) + vouchers * TEN_POW_TEN
    && Supply(r, p.ibcCro) == Supply(b, p.ibcCro)
    && Backing(p, r) == Backing(p, b)
  }

  /** A conversion succeeds exactly when every coin passes and the signer has the sum of the vouchers, and then converts
      exactly that sum. */
  lemma {:induction false} ConvertTotals(p: Params, b: Bank, msg: Msg, n: nat)
    requires n <= |msg.coins| == |msg.accepted| && msg.convert && p.ibcCro != p.evm
    ensures var r, sum := Coins(p, b, msg, n), VoucherSum(p, msg.coins, n);
      && (r.Some? <==>
            && Balance(b, msg.acc, p.ibcCro) >= sum
            && forall i :: 0 <= i < n ==> ConvertPasses(p, msg.acc, msg.coins, msg.accepted, i))
      && (r.Some? ==> Converted(p, b, r.value, msg.acc, sum))
  {
    hide ConvertCoin;
    hide Backing;
    hide BlockedAddrs;
    hide Balance;
    hide Supply;
    if n > 0 {
      ConvertTotals(p, b, msg, n - 1);
      assert (forall i :: 0 <= i < n ==> ConvertPasses(p, msg.acc, msg.coins, msg.accepted, i)) <==>
        && (forall i :: 0 <= i < n - 1 ==> ConvertPasses(p, msg.acc, msg.coins, msg.accepted, i))
        && ConvertPasses(p, msg.acc, msg.coins, msg.accepted, n - 1);
      var r, c := Coins(p, b, msg, n - 1), msg.coins[n - 1];
      if r.Some? && c.denom == p.ibcCro {
        ConvertConserves(p, r.value, msg.acc, c.amount);
        ConvertSupply(p, r.value, msg.acc, c.amount);
        var sum := VoucherSum(p, msg.coins, n - 1);
        assert (sum + c.amount) * TEN_POW_TEN == sum * TEN_POW_TEN + c.amount * TEN_POW_TEN;
      }
    }
  }

  lemma ConvertSupply(p: Params, b: Bank, acc: Address, amount: nat)
    requires p.ibcCro != p.evm
    ensures var r := ConvertCoin(p, b, acc, amount); r.Some? ==> Supply(r.value, p.ibcCro) == Supply(b, p.ibcCro)
  {
    hide BlockedAddrs;
  }

  /** The signer gives ten to the tenth EVM tokens for each of `released` vouchers, which come out of the escrow and leave
      the chain together with `sent` vouchers of the signer. */
  ghost predicate Transferred(p: Params, b: Bank, r: Bank, acc: Address, released: nat, sent: nat) {
    && Balance(r, acc, p.evm) == Balance(b, acc, p.evm) - released * TEN_POW_TEN
    && Supply(r, p.evm) == Supply(b, p.evm) - released * TEN_POW_TEN
    && Balance(r, acc, p.ibcCro) == Balance(b, acc, p.ibcCro) - sent
    && Balance(r, ModuleAccount(p), p.ibcCro) == Balance(b, ModuleAccount(p), p.ibcCro) - released
    && Supply(r, p.ibcCro) == Supply(b, p.ibcCro) - released - sent
    && Backing(p, r) == Backing(p, b)
  }

  /** What a transfer of these sums needs. */
  predicate Covered(p: Params, b: Bank, acc: Address, released: nat, sent: nat) {
    && Balance(b, acc, p.evm) >= released * TEN_POW_TEN && Supply(b, p.evm) >= released * TEN_POW_TEN
    && Balance(b, acc, p.ibcCro) >= sent && Balance(b, ModuleAccount(p), p.ibcCro) >= released
    && Supply(b, p.ibcCro) >= released + sent
  }

  /** A transfer succeeds exactly when every coin passes and the sums are covered, and then transfers exactly the sums. */
  lemma {:induction false} TransferTotals(p: Params, b: Bank, msg: Msg, n: nat)
    requires n <= |msg.coins| == |msg.accepted| && !msg.convert && p.ibcCro != p.evm
    ensures var r, released, sent := Coins(p, b, msg, n), EvmSum(p, msg.coins, n), VoucherSum(p, msg.coins, n);
      && (r.Some? <==>
            && Covered(p, b, msg.acc, released, sent)
            && forall i :: 0 <= i < n ==> TransferPasses(p, msg.acc, msg.coins, msg.accepted, i))
      && (r.Some? ==> Transferred(p, b, r.value, msg.acc, released, sent))
  {
    hide TransferCoin;
    hide IbcSend;
    hide Backing;
    hide BlockedAddrs;
    hide Balance;
    hide Supply;
    if n > 0 {
      TransferTotals(p, b, msg, n - 1);
      assert (forall i :: 0 <= i < n ==> TransferPasses(p, msg.acc, msg.coins, msg.accepted, i)) <==>
        && (forall i :: 0 <= i < n - 1 ==> TransferPasses(p, msg.acc, msg.coins, msg.accepted, i))
        && TransferPasses(p, msg.acc, msg.coins, msg.accepted, n - 1);
      var r, c := Coins(p, b, msg, n - 1), msg.coins[n - 1];
      var released, sent := EvmSum(p, msg.coins, n - 1), VoucherSum(p, msg.coins, n - 1);
      if r.Some? && c.denom == p.evm {
        EvmCoin(p, b, r.value, msg.acc, c.amount, msg.accepted[n - 1], released, sent);
      } else if r.Some? && c.denom == p.ibcCro {
        VoucherCoin(p, b, r.value, msg.acc, c.amount, msg.accepted[n - 1], released, sent);
      } else if r.None? {
        CoveredLess(p, b, msg.acc, released, sent, EvmSum(p, msg.coins, n), VoucherSum(p, msg.coins, n));
      }
    }
  }

  lemma CoveredLess(p: Params, b: Bank, acc: Address, released: nat, sent: nat, released': nat, sent': nat)
    requires released <= released' && sent <= sent'
    ensures Covered(p, b, acc, released', sent') ==> Covered(p, b, acc, released, sent)
  {
    hide Balance;
    hide Supply;
    assert released * TEN_POW_TEN <= released' * TEN_POW_TEN;
  }

  /** One more coin of EVM tokens. */
  lemma EvmCoin(p: Params, b: Bank, b1: Bank, acc: Address, amount: nat, accepted: bool, released: nat, sent: nat)
    requires p.ibcCro != p.evm && Transferred(p, b, b1, acc, released, sent) && Covered(p, b, acc, released, sent)
    ensures var r, k := TransferCoin(p, b1, acc, amount, accepted), amount / TEN_POW_TEN;
      && (r.Some? <==>
            && Covered(p, b, acc, released + k, sent)
            && (amount < TEN_POW_TEN || (accepted && acc !in BlockedAddrs(p))))
      && (r.Some? ==> Transferred(p, b, r.value, acc, released + k, sent))
  {
    hide TransferCoin;
    hide Backing;
    hide BlockedAddrs;
    hide Balance;
    hide Supply;
    TransferConserves(p, b1, acc, amount, accepted);
    QuotientTimes(amount);
    var k := amount / TEN_POW_TEN;
    assert (released + k) * TEN_POW_TEN == released * TEN_POW_TEN + k * TEN_POW_TEN;
    assert ToBurn(amount) == 0 <==> amount < TEN_POW_TEN;
    assert amount - amount % TEN_POW_TEN == ToBurn(amount);
  }

  /** One more coin of vouchers. */
  lemma VoucherCoin(p: Params, b: Bank, b1: Bank, acc: Address, amount: nat, accepted: bool, released: nat, sent: nat)
    requires p.ibcCro != p.evm && Transferred(p, b, b1, acc, released, sent) && Covered(p, b, acc, released, sent)
    ensures var r := IbcSend(p, b1, acc, amount, accepted);
      && (r.Some? <==> Covered(p, b, acc, released, sent + amount) && accepted && acc !in BlockedAddrs(p))
      && (r.Some? ==> Transferred(p, b, r.value, acc, released, sent + amount))
  {
    hide Backing;
    hide BlockedAddrs;
    VoucherSendConserves(p, b1, acc, amount, accepted);
    BridgeIsBlocked(p);
  }

  // ----- What a message leaves alone -----

  /** The balance is neither the signer's nor the bridge's, or in neither of the two denominations. */
  predicate Elsewhere(p: Params, acc: Address, a: Address, d: Denom) {
    (a != acc && a != ModuleAccount(p)) || (d != p.ibcCro && d != p.evm)
  }

  ghost predicate LeavesOthers(p: Params, b: Bank, r: Bank, acc: Address) {
    forall a, d :: Elsewhere(p, acc, a, d) ==> Balance(r, a, d) == Balance(b, a, d)
  }

  lemma SendLeaves(p: Params, b: Bank, sender: Address, receiver: Address, d: Denom, amount: nat, acc: Address)
    requires d == p.ibcCro || d == p.evm
    requires (sender == acc && receiver == ModuleAccount(p)) || (sender == ModuleAccount(p) && receiver == acc)
    ensures var r := Send(b, sender, receiver, d, amount); r.Some? ==> LeavesOthers(p, b, r.value, acc)
  {
    if Send(b, sender, receiver, d, amount).Some? {
      forall a, e | Elsewhere(p, acc, a, e) ensures Balance(Send(b, sender, receiver, d, amount).value, a, e) == Balance(b, a, e) {
        SendEffect(b, sender, receiver, d, amount, a, e);
      }
    }
  }

  lemma MintBurnLeave(p: Params, b: Bank, holder: Address, d: Denom, amount: nat, acc: Address)
    requires (d == p.ibcCro || d == p.evm) && (holder == acc || holder == ModuleAccount(p))
    ensures LeavesOthers(p, b, Mint(b, holder, d, amount), acc)
    ensures var r := Burn(b, holder, d, amount); r.Some? ==> LeavesOthers(p, b, r.value, acc)
  {}

  lemma CoinLeaves(p: Params, b: Bank, acc: Address, amount: nat, accepted: bool)
    ensures var r := ConvertCoin(p, b, acc, amount); r.Some? ==> LeavesOthers(p, b, r.value, acc)
    ensures var r := TransferCoin(p, b, acc, amount, accepted); r.Some? ==> LeavesOthers(p, b, r.value, acc)
    ensures var r := IbcSend(p, b, acc, amount, accepted); r.Some? ==> LeavesOthers(p, b, r.value, acc)
  {
    hide Send;
    hide Mint;
    hide Burn;
    hide Elsewhere;
    hide Balance;
    hide BlockedAddrs;
    var m, n, k := ModuleAccount(p), amount * TEN_POW_TEN, amount / TEN_POW_TEN;
    SendLeaves(p, b, acc, m, p.ibcCro, amount, acc);
    MintBurnLeave(p, b, acc, p.ibcCro, amount, acc);
    var b1 := Send(b, acc, m, p.ibcCro, amount);
    if b1.Some? {
      MintBurnLeave(p, b1.value, m, p.evm, n, acc);
      SendLeaves(p, Mint(b1.value, m, p.evm, n), m, acc, p.evm, n, acc);
    }
    SendLeaves(p, b, acc, m, p.evm, ToBurn(amount), acc);
    var c1 := Send(b, acc, m, p.evm, ToBurn(amount));
    if c1.Some? {
      MintBurnLeave(p, c1.value, m, p.evm, ToBurn(amount), acc);
      var c2 := Burn(c1.value, m, p.evm, ToBurn(amount));
      if c2.Some? {
        SendLeaves(p, c2.value, m, acc, p.ibcCro, k, acc);
        var c3 := Send(c2.value, m, acc, p.ibcCro, k);
        if c3.Some? { MintBurnLeave(p, c3.value, acc, p.ibcCro, k, acc); }
      }
    }
  }

  lemma {:induction false} MessageLeaves(p: Params, b: Bank, msg: Msg, n: nat)
    requires n <= |msg.coins| == |msg.accepted|
    ensures var r := Coins(p, b, msg, n); r.Some? ==> LeavesOthers(p, b, r.value, msg.acc)
  {
    hide ConvertCoin;
    hide TransferCoin;
    hide IbcSend;
    hide Elsewhere;
    hide Balance;
    if n > 0 {
      MessageLeaves(p, b, msg, n - 1);
      var r := Coins(p, b, msg, n - 1);
      if r.Some? { CoinLeaves(p, r.value, msg.acc, msg.coins[n - 1].amount, msg.accepted[n - 1]); }
    }
  }

  /** The keeper's loops over the coins of a message. */
  class Keeper {
    const params: Params
    var bank: Bank

    constructor (params: Params, bank: Bank)
      ensures this.params == params && this.bank == bank
    {
      this.params, this.bank := params, bank;
    }

    /** `ConvertVouchersToEvmCoins`. */
    method ConvertVouchersToEvmCoins(acc: Address, coins: seq<Coin>, accepted: seq<bool>) returns (ok: bool)
      requires |coins| == |accepted|
      modifies this
      ensures var msg := Msg(true, acc, coins, accepted);
        bank == Deliver(params, old(bank), msg) && (ok <==> Coins(params, old(bank), msg, |coins|).Some?)
      ensures params.ibcCro != params.evm ==> var sum := VoucherSum(params, coins, |coins|);
        && (ok <==>
              && Balance(old(bank), acc, params.ibcCro) >= sum
              && forall i :: 0 <= i < |coins| ==> ConvertPasses(params, acc, coins, accepted, i))
        && (ok ==> Converted(params, old(bank), bank, acc, sum))
      ensures !ok ==> bank == old(bank)
      ensures LeavesOthers(params, old(bank), bank, acc)
    {
      hide ConvertPasses;
      hide Converted;
      hide OneCoin;
      hide Balance;
      hide Elsewhere;
      MessageLeaves(params, bank, Msg(true, acc, coins, accepted), |coins|);
      if params.ibcCro != params.evm { ConvertTotals(params, bank, Msg(true, acc, coins, accepted), |coins|); }
      ok := Handle(Msg(true, acc, coins, accepted));
    }

    /** `IbcTransferCoins`: refused without a destination. */
    method IbcTransferCoins(acc: Address, destination: Bytes, coins: seq<Coin>, accepted: seq<bool>) returns (ok: bool)
      requires |coins| == |accepted|
      modifies this
      ensures destination == [] ==> !ok && bank == old(bank)
      ensures destination != [] ==> var msg := Msg(false, acc, coins, accepted);
        bank == Deliver(params, old(bank), msg) && (ok <==> Coins(params, old(bank), msg, |coins|).Some?)
      ensures destination != [] && params.ibcCro != params.evm ==>
        var released, sent := EvmSum(params, coins, |coins|), VoucherSum(params, coins, |coins|);
        && (ok <==>
              && Covered(params, old(bank), acc, released, sent)
              && forall i :: 0 <= i < |coins| ==> TransferPasses(params, acc, coins, accepted, i))
        && (ok ==> Transferred(params, old(bank), bank, acc, released, sent))
      ensures !ok ==> bank == old(bank)
      ensures LeavesOthers(params, old(bank), bank, acc)
    {
      hide TransferPasses;
      hide Transferred;
      hide Covered;
      hide OneCoin;
      hide Balance;
      hide Elsewhere;
      MessageLeaves(params, bank, Msg(false, acc, coins, accepted), |coins|);
      if params.ibcCro != params.evm { TransferTotals(params, bank, Msg(false, acc, coins, accepted), |coins|); }
      if |destination| == 0 {
        return false;
      }
      ok := Handle(Msg(false, acc, coins, accepted));
    }

    /** The loop over the coins, and the roll-back of a failed message. */
    method Handle(msg: Msg) returns (ok: bool)
      requires |msg.coins| == |msg.accepted|
      modifies this
      ensures ok <==> Coins(params, old(bank), msg, |msg.coins|).Some?
      ensures bank == Deliver(params, old(bank), msg)
    {
      hide OneCoin;
      var before := bank;
      for i := 0 to |msg.coins|
        invariant Coins(params, before, msg, i) == Some(bank)
      {
        var r := OneCoin(params, bank, msg, i);
        if r.None? {
          bank := before;
          Stuck(params, before, msg, i + 1);
          return false;
        }
        bank := r.value;
      }
      return true;
    }
  }

  lemma {:induction false} Stuck(p: Params, b: Bank, msg: Msg, n: nat)
    requires n <= |msg.coins| == |msg.accepted| && Coins(p, b, msg, n).None?
    ensures Coins(p, b, msg, |msg.coins|).None?
    decreases |msg.coins| - n
  {
    hide OneCoin;
    if n < |msg.coins| { Stuck(p, b, msg, n + 1); }
  }

  lemma {:induction false} CoinsConserve(p: Params, b: Bank, msg: Msg, n: nat)
    requires n <= |msg.coins| == |msg.accepted| && p.ibcCro != p.evm
    requires Coins(p, b, msg, n).Some?
    ensures Backing(p, Coins(p, b, msg, n).value) == Backing(p, b)
  {
    hide Backing;
    hide ConvertCoin;
    hide TransferCoin;
    hide IbcSend;
    if n > 0 {
      CoinsConserve(p, b, msg, n - 1);
      var b', c := Coins(p, b, msg, n - 1).value, msg.coins[n - 1];
      if msg.convert && c.denom == p.ibcCro {
        ConvertConserves(p, b', msg.acc, c.amount);
      } else if !msg.convert && c.denom == p.evm {
        TransferConserves(p, b', msg.acc, c.amount, msg.accepted[n - 1]);
      } else if !msg.convert && c.denom == p.ibcCro {
        VoucherSendConserves(p, b', msg.acc, c.amount, msg.accepted[n - 1]);
      }
    }
  }

  function RunAll(p: Params, b: Bank, msgs: seq<Msg>): Bank
    requires forall i :: 0 <= i < |msgs| ==> |msgs[i].coins| == |msgs[i].accepted|
    decreases |msgs|
  {
    if msgs == [] then b else RunAll(p, Deliver(p, b, msgs[0]), msgs[1..])
  }

  /** Over every run of messages, whoever signs them, the escrow times ten to the tenth moves in step with the
      supply of EVM tokens. */
  lemma {:induction false} RunConserves(p: Params, b: Bank, msgs: seq<Msg>)
    requires p.ibcCro != p.evm
    requires forall i :: 0 <= i < |msgs| ==> |msgs[i].coins| == |msgs[i].accepted|
    ensures Backing(p, RunAll(p, b, msgs)) == Backing(p, b)
    decreases |msgs|
  {
    hide Backing;
    hide Coins;
    if msgs != [] {
      var msg := msgs[0];
      if Coins(p, b, msg, |msg.coins|).Some? { CoinsConserve(p, b, msg, |msg.coins|); }
      RunConserves(p, Deliver(p, b, msg), msgs[1..]);
    }
  }
}
