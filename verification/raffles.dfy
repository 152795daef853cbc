/**
 * The raffles program as a state machine over its accounts. Each instruction is
 * one atomic transition: it yields the new state, or an error and no change at
 * all (the runtime rolls back every write of a failed transaction).
 */
module Raffles {
  import opened Accounts
  import opened Pool

  /**
   * Everything the instructions read or write: the id counter (absent until
   * initialize_id_counter first runs), the vaults by id, the shares by
   * (vault id, user), and the lamports held at each address.
   */
  datatype State = State(
    counter: Option<nat>,
    vaults: map<nat, Vault>,
    shares: Shares,
    lamports: map<Pubkey, nat>)

  /** The amount recorded in the share of `user` in vault `id`; zero when it has none. */
  function ShareAmount(s: State, id: nat, user: Identity): nat
  {
    if (id, user) in s.shares then s.shares[(id, user)].amount else 0
  }

  /** A close date is acceptable when there is none or when it lies after creation. */
  predicate CloseAfterCreation(closeAt: nat, createdAt: nat)
  {
    closeAt == 0 || closeAt > createdAt
  }

  /** A vault accepts deposits at `now` while its close date, if any, lies ahead. */
  predicate IsOpen(v: Vault, now: int)
    requires I64_MIN <= now <= I64_MAX
  {
    v.closeAt == 0 || v.closeAt > AsU64(now)
  }

  /** A vault can take one more participant. */
  predicate HasRoom(v: Vault)
  {
    v.capacity == 0 || v.participants < v.capacity
  }

  /** The escrow address `initialize_vault` creates for a vault given id `id`. */
  function CreatedEscrow(creator: Identity, id: nat): Pubkey
  {
    InventoryKey(Wallet(creator), id + 1)
  }

  /** The escrow address `particpate_inf_raffle` sends a vault's deposits to. */
  function DepositAddress(v: Vault): Pubkey
  {
    InventoryKey(v.authority, v.id)
  }

  /** initialize_id_counter: the counter exists afterwards and holds zero. */
  function InitializeIdCounter(s: State): (r: State)
    ensures r.counter == Some(0)
    ensures r.vaults == s.vaults && r.shares == s.shares && r.lamports == s.lamports
  {
    s.(counter := Some(0))
  }

  /**
   * initialize_vault: the new vault takes the counter's value as its id and the
   * counter moves one past it; the creator funds the escrow account with the
   * rent-exempt minimum `rentMin`.
   */
  function InitializeVault(s: State, creator: Identity, capacity: nat, closeAt: nat, now: int, rentMin: nat)
    : (r: Result<State>)
    requires capacity <= U32_MAX && closeAt <= U64_MAX && rentMin <= U64_MAX
    requires I64_MIN <= now <= I64_MAX
    ensures r.Ok? <==>
      && s.counter.Some?
      && s.counter.value !in s.vaults
      && s.counter.value < U64_MAX
      && CloseAfterCreation(closeAt, AsU64(now))
      && Balance(s.lamports, CreatedEscrow(creator, s.counter.value)) == 0
      && rentMin <= Balance(s.lamports, Wallet(creator))
    ensures s.counter.None? ==> r == Err(AccountNotInitialized)
    ensures s.counter.Some? && s.counter.value in s.vaults ==> r == Err(AccountAlreadyInUse)
    ensures r == Err(CloseDateHasPassed) <==>
      && s.counter.Some? && s.counter.value !in s.vaults && s.counter.value < U64_MAX
      && !CloseAfterCreation(closeAt, AsU64(now))
    ensures s.counter.Some? && s.counter.value !in s.vaults && s.counter.value == U64_MAX ==>
      r == Err(ArithmeticOverflow)
    ensures
      && s.counter.Some? && s.counter.value !in s.vaults && s.counter.value < U64_MAX
      && CloseAfterCreation(closeAt, AsU64(now))
      && Balance(s.lamports, CreatedEscrow(creator, s.counter.value)) > 0
      ==> r == Err(AccountAlreadyInUse)
    ensures r == Err(ResultWithNegativeLamports) <==>
      && s.counter.Some? && s.counter.value !in s.vaults && s.counter.value < U64_MAX
      && CloseAfterCreation(closeAt, AsU64(now))
      && Balance(s.lamports, CreatedEscrow(creator, s.counter.value)) == 0
      && Balance(s.lamports, Wallet(creator)) < rentMin
    ensures r.Ok? ==>
      var id := s.counter.value;
      && r.value.counter == Some(id + 1)
      && r.value.vaults.Keys == s.vaults.Keys + {id}
      && (forall k | k in s.vaults :: r.value.vaults[k] == s.vaults[k])
      && var v := r.value.vaults[id];
      && v.id == id && v.authority == Wallet(creator)
      && v.participants == 0 && v.pool == 0
      && v.capacity == capacity && v.closeAt == closeAt && v.createdAt == AsU64(now)
      && v.inventory == CreatedEscrow(creator, id)
      && r.value.shares == s.shares
      && r.value.lamports == Move(s.lamports, Wallet(creator), v.inventory, rentMin)
  {
    if s.counter.None? then Err(AccountNotInitialized)
    else
      var id := s.counter.value;
      if id in s.vaults then Err(AccountAlreadyInUse)
      else if id + 1 > U64_MAX then Err(ArithmeticOverflow)
      else
        var createdAt := AsU64(now);
        if !CloseAfterCreation(closeAt, createdAt) then Err(CloseDateHasPassed)
        else
          var escrow := CreatedEscrow(creator, id);
          if Balance(s.lamports, escrow) > 0 then Err(AccountAlreadyInUse)
          else if Balance(s.lamports, Wallet(creator)) < rentMin then Err(ResultWithNegativeLamports)
          else
            var vault := Vault(Wallet(creator), 0, 0, capacity, closeAt, createdAt, id, escrow);
            Ok(State(
              Some(id + 1),
              s.vaults[id := vault],
              s.shares,
              Move(s.lamports, Wallet(creator), escrow, rentMin)))
  }

  /**
   * particpate_inf_raffle: `user` deposits `amount` into vault `vaultId`. A user
   * whose share records zero is taken for a newcomer: the capacity check
   * applies to them and they are counted as one more participant.
   */
  function ParticipateInRaffle(s: State, user: Identity, vaultId: nat, amount: nat, now: int)
    : (r: Result<State>)
    requires vaultId <= U64_MAX && amount <= U64_MAX
    requires I64_MIN <= now <= I64_MAX
    ensures r.Ok? <==>
      && vaultId in s.vaults
      && IsOpen(s.vaults[vaultId], now)
      && amount <= Balance(s.lamports, Wallet(user))
      && (ShareAmount(s, vaultId, user) == 0 ==>
            HasRoom(s.vaults[vaultId]) && s.vaults[vaultId].participants < U32_MAX)
      && s.vaults[vaultId].pool + amount <= U64_MAX
      && ShareAmount(s, vaultId, user) + amount <= U64_MAX
    ensures vaultId !in s.vaults ==> r == Err(AccountNotInitialized)
    ensures vaultId in s.vaults && !IsOpen(s.vaults[vaultId], now) ==> r == Err(CloseDateHasPassed)
    ensures (vaultId in s.vaults && IsOpen(s.vaults[vaultId], now)
             && Balance(s.lamports, Wallet(user)) < amount) ==> r == Err(InsufficientFunds)
    ensures r == Err(CapacityExceeded) <==>
      && vaultId in s.vaults && IsOpen(s.vaults[vaultId], now)
      && amount <= Balance(s.lamports, Wallet(user))
      && ShareAmount(s, vaultId, user) == 0 && !HasRoom(s.vaults[vaultId])
    ensures r == Err(ArithmeticOverflow) <==>
      && vaultId in s.vaults && IsOpen(s.vaults[vaultId], now)
      && amount <= Balance(s.lamports, Wallet(user))
      && (ShareAmount(s, vaultId, user) == 0 ==> HasRoom(s.vaults[vaultId]))
      && ((ShareAmount(s, vaultId, user) == 0 && s.vaults[vaultId].participants >= U32_MAX)
          || s.vaults[vaultId].pool + amount > U64_MAX
          || ShareAmount(s, vaultId, user) + amount > U64_MAX)
    ensures r.Ok? ==>
      var v := s.vaults[vaultId];
      var firstTouch := ShareAmount(s, vaultId, user) == 0;
      && r.value.counter == s.counter
      && r.value.vaults == s.vaults[vaultId := v.(
           pool := v.pool + amount,
           participants := if firstTouch then v.participants + 1 else v.participants)]
      && (vaultId, user) in r.value.shares
      && r.value.shares == s.shares[(vaultId, user) := r.value.shares[(vaultId, user)]]
      && ShareAmount(r.value, vaultId, user) == ShareAmount(s, vaultId, user) + amount
      && (firstTouch ==>
            r.value.shares[(vaultId, user)].owner == Wallet(user)
            && r.value.shares[(vaultId, user)].vault == VaultInfoKey(vaultId))
      && (!firstTouch ==>
            r.value.shares[(vaultId, user)].owner == s.shares[(vaultId, user)].owner
            && r.value.shares[(vaultId, user)].vault == s.shares[(vaultId, user)].vault)
      && r.value.lamports == Move(s.lamports, Wallet(user), DepositAddress(v), amount)
  {
    if vaultId !in s.vaults then Err(AccountNotInitialized)
    else
      var v := s.vaults[vaultId];
      var key := (vaultId, user);
      var share := if key in s.shares then s.shares[key] else ZeroedShare;
      if !IsOpen(v, now) then Err(CloseDateHasPassed)
      else if Balance(s.lamports, Wallet(user)) < amount then Err(InsufficientFunds)
      else if share.amount == 0 && !HasRoom(v) then Err(CapacityExceeded)
      else if share.amount == 0 && v.participants + 1 > U32_MAX then Err(ArithmeticOverflow)
      else
        var first := share.amount == 0;
        var admitted := if first then v.(participants := v.participants + 1) else v;
        var recorded := if first then share.(owner := Wallet(user), vault := VaultInfoKey(vaultId)) else share;
        if admitted.pool + amount > U64_MAX || recorded.amount + amount > U64_MAX then Err(ArithmeticOverflow)
        else
          Ok(State(
            s.counter,
            s.vaults[vaultId := admitted.(pool := admitted.pool + amount)],
            s.shares[key := recorded.(amount := recorded.amount + amount)],
            Move(s.lamports, Wallet(user), DepositAddress(admitted), amount)))
  }

  /** The fields of a vault hold values of their Rust types and agree with its key. */
  ghost predicate VaultWellFormed(id: nat, v: Vault)
  {
    && v.id == id && id < U64_MAX
    && v.authority.Wallet?
    && v.capacity <= U32_MAX && v.participants <= U32_MAX && v.pool <= U64_MAX
    && v.closeAt <= U64_MAX && v.createdAt <= U64_MAX
    && v.inventory == InventoryKey(v.authority, id + 1)
  }

  /** A share records its owner and its vault, and an amount that fits a u64. */
  ghost predicate ShareWellFormed(key: (nat, Identity), share: VaultShare)
  {
    share.owner == Wallet(key.1) && share.vault == VaultInfoKey(key.0) && share.amount <= U64_MAX
  }

  /** Each vault's pool is the sum of the amounts in its shares. */
  ghost predicate Conserved(s: State)
  {
    forall id | id in s.vaults :: s.vaults[id].pool == Deposited(s.shares, id)
  }

  /** Every account is well formed; every share belongs to an existing vault. */
  ghost predicate AccountsWellFormed(s: State)
  {
    && (s.counter.Some? ==> s.counter.value <= U64_MAX)
    && (forall id | id in s.vaults ::
          && VaultWellFormed(id, s.vaults[id])
          && CloseAfterCreation(s.vaults[id].closeAt, s.vaults[id].createdAt)
          && (s.vaults[id].capacity == 0 || s.vaults[id].participants <= s.vaults[id].capacity))
    && (forall key | key in s.shares :: key.0 in s.vaults && ShareWellFormed(key, s.shares[key]))
  }

  /** Each vault has counted at least as many participants as users hold a share of it. */
  ghost predicate ParticipantsCounted(s: State)
  {
    forall id | id in s.vaults :: |Members(s.shares, id)| <= s.vaults[id].participants
  }

  /**
   * What holds of every reachable state: well-formed accounts, close dates after
   * creation, participant counts within capacity, conservation of each pool, and
   * at least as many participants counted as users holding a share.
   */
  ghost predicate Inv(s: State)
  {
    AccountsWellFormed(s) && Conserved(s) && ParticipantsCounted(s)
  }

  /** The state of a cluster on which the program has just been deployed. */
  ghost predicate Initial(s: State)
  {
    s.counter.None? && s.vaults == map[] && s.shares == map[]
  }

  lemma InitialSatisfiesInv(s: State)
    requires Initial(s)
    ensures Inv(s)
  {
  }

  lemma InitializeIdCounterKeepsInv(s: State)
    requires Inv(s)
    ensures Inv(InitializeIdCounter(s))
  {
  }

  lemma InitializeVaultKeepsInv(s: State, creator: Identity, capacity: nat, closeAt: nat, now: int, rentMin: nat)
    requires capacity <= U32_MAX && closeAt <= U64_MAX && rentMin <= U64_MAX
    requires I64_MIN <= now <= I64_MAX
    requires Inv(s)
    ensures InitializeVault(s, creator, capacity, closeAt, now, rentMin).Ok? ==>
              Inv(InitializeVault(s, creator, capacity, closeAt, now, rentMin).value)
  {
    var r := InitializeVault(s, creator, capacity, closeAt, now, rentMin);
    if r.Ok? {
      var id := s.counter.value;
      DepositedNone(s.shares, id);
      assert Members(s.shares, id) == {};
    }
  }

  lemma ParticipateKeepsInv(s: State, user: Identity, vaultId: nat, amount: nat, now: int)
    requires vaultId <= U64_MAX && amount <= U64_MAX
    requires I64_MIN <= now <= I64_MAX
    requires Inv(s)
    ensures ParticipateInRaffle(s, user, vaultId, amount, now).Ok? ==>
              Inv(ParticipateInRaffle(s, user, vaultId, amount, now).value)
  {
    var r := ParticipateInRaffle(s, user, vaultId, amount, now);
    if r.Ok? {
      ParticipateKeepsAccountsWellFormed(s, user, vaultId, amount, now);
      DepositKeepsConserved(s, r.value, vaultId, user, amount);
      DepositKeepsCounted(s, r.value, vaultId, user);
    }
  }

  /** A successful deposit leaves every vault and share well formed and within capacity. */
  lemma ParticipateKeepsAccountsWellFormed(s: State, user: Identity, vaultId: nat, amount: nat, now: int)
    requires vaultId <= U64_MAX && amount <= U64_MAX
    requires I64_MIN <= now <= I64_MAX
    requires Inv(s)
    requires ParticipateInRaffle(s, user, vaultId, amount, now).Ok?
    ensures AccountsWellFormed(ParticipateInRaffle(s, user, vaultId, amount, now).value)
  {
    var t := ParticipateInRaffle(s, user, vaultId, amount, now).value;
    var key := (vaultId, user);
    var v := t.vaults[vaultId];
    assert VaultWellFormed(vaultId, v) && CloseAfterCreation(v.closeAt, v.createdAt);
    assert v.capacity == 0 || v.participants <= v.capacity;
    assert ShareWellFormed(key, t.shares[key]);
    forall id | id in t.vaults
      ensures VaultWellFormed(id, t.vaults[id])
      ensures CloseAfterCreation(t.vaults[id].closeAt, t.vaults[id].createdAt)
      ensures t.vaults[id].capacity == 0 || t.vaults[id].participants <= t.vaults[id].capacity
    {
      if id != vaultId {
        assert t.vaults[id] == s.vaults[id];
      }
    }
    forall k | k in t.shares
      ensures k.0 in t.vaults && ShareWellFormed(k, t.shares[k])
    {
      if k != key {
        assert t.shares[k] == s.shares[k];
      }
    }
  }

  /**
   * A deposit of `amount` by `user` into vault `vaultId` that adds `amount` to
   * the pool and to the user's share keeps each pool equal to its shares.
   */
  lemma DepositKeepsConserved(s: State, s': State, vaultId: nat, user: Identity, amount: nat)
    requires Conserved(s)
    requires vaultId in s.vaults
    requires s'.vaults.Keys == s.vaults.Keys
    requires forall k | k in s.vaults && k != vaultId :: s'.vaults[k].pool == s.vaults[k].pool
    requires s'.vaults[vaultId].pool == s.vaults[vaultId].pool + amount
    requires (vaultId, user) in s'.shares
    requires s'.shares == s.shares[(vaultId, user) := s'.shares[(vaultId, user)]]
    requires s'.shares[(vaultId, user)].amount == ShareAmount(s, vaultId, user) + amount
    ensures Conserved(s')
  {
    var key := (vaultId, user);
    var share := if key in s.shares then s.shares[key] else ZeroedShare;
    var written := s'.shares[key];
    assert s'.shares == s.shares[key := written.(amount := share.amount).(amount := share.amount + amount)];
    forall id | id in s'.vaults
      ensures s'.vaults[id].pool == Deposited(s'.shares, id)
    {
      Deposit(s.shares, vaultId, user, written.(amount := share.amount), amount, id);
    }
  }

  /**
   * A deposit that counts `user` again whenever the user's share was empty keeps
   * the participant count at least the number of share holders.
   */
  lemma DepositKeepsCounted(s: State, s': State, vaultId: nat, user: Identity)
    requires ParticipantsCounted(s)
    requires vaultId in s.vaults
    requires s'.vaults.Keys == s.vaults.Keys
    requires forall k | k in s.vaults && k != vaultId :: s'.vaults[k].participants == s.vaults[k].participants
    requires s'.vaults[vaultId].participants
          == s.vaults[vaultId].participants + (if ShareAmount(s, vaultId, user) == 0 then 1 else 0)
    requires (vaultId, user) in s'.shares
    requires s'.shares == s.shares[(vaultId, user) := s'.shares[(vaultId, user)]]
    ensures ParticipantsCounted(s')
  {
    var key := (vaultId, user);
    forall id | id in s'.vaults
      ensures |Members(s'.shares, id)| <= s'.vaults[id].participants
    {
      MembersUpdate(s.shares, vaultId, user, s'.shares[key], id);
      if id == vaultId && key in s.shares {
        assert user in Members(s.shares, vaultId);
      }
    }
  }
}
