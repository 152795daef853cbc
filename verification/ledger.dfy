/**
 * The program's persistent accounts as one object whose instructions update
 * them in place. Each method does the checks and writes of its instruction and
 * is proved to commit exactly the transition Raffles specifies, or nothing.
 */
module Ledger {
  import opened Accounts
  import opened Pool
  import opened Raffles
  import opened Trace

  /** What an instruction reports; `Ok(())` is Anchor's `Ok(())`. */
  function Status(r: Result<State>): Result<()>
  {
    if r.Ok? then Ok(()) else Err(r.error)
  }

  /** The state after a transition: the new one, or the old one on failure. */
  function Commit(s: State, r: Result<State>): State
  {
    if r.Ok? then r.value else s
  }

  class Ledger {
    var counter: Option<nat>
    var vaults: map<nat, Vault>
    var shares: Shares
    var lamports: map<Pubkey, nat>

    // The accounts at deployment, and every instruction submitted since.
    ghost var genesis: State
    ghost var history: seq<Op>

    function Snapshot(): State
      reads this
    {
      State(counter, vaults, shares, lamports)
    }

    /** The accounts are what the submitted instructions make of the deployed ones. */
    ghost predicate Valid()
      reads this
    {
      && Initial(genesis)
      && (forall i | 0 <= i < |history| :: WellTyped(history[i]))
      && Snapshot() == Run(genesis, history).0
    }

    /** A cluster on which the program has just been deployed. */
    constructor (funds: map<Pubkey, nat>)
      ensures Valid() && history == []
      ensures Snapshot() == State(None, map[], map[], funds)
    {
      counter := None;
      vaults := map[];
      shares := map[];
      lamports := funds;
      genesis := State(None, map[], map[], funds);
      history := [];
    }

    /** Whatever was submitted, the accounts satisfy the invariant and no vault id was handed out twice. */
    lemma ValidKeepsInv()
      requires Valid()
      ensures Inv(Snapshot())
      ensures var ids := Run(genesis, history).1;
        && (forall i, j | 0 <= i < j < |ids| :: ids[i] != ids[j])
        && (forall i | 0 <= i < |ids| :: ids[i] in vaults)
    {
      InitialSatisfiesInv(genesis);
      RunKeepsInv(genesis, history);
      RunIdsAreFresh(genesis, history);
    }

    method InitializeIdCounter() returns (r: Result<()>)
      requires Valid()
      modifies this
      ensures Valid() && genesis == old(genesis) && history == old(history) + [InitCounterOp]
      ensures r == Ok(()) && counter == Some(0)
      ensures Snapshot() == Raffles.InitializeIdCounter(old(Snapshot()))
    {
      RunSnoc(genesis, history, InitCounterOp);
      history := history + [InitCounterOp];
      counter := Some(0);
      r := Ok(());
    }

    method InitializeVault(creator: Identity, capacity: nat, closeAt: nat, now: int, rentMin: nat)
      returns (r: Result<()>)
      requires capacity <= U32_MAX && closeAt <= U64_MAX && rentMin <= U64_MAX
      requires I64_MIN <= now <= I64_MAX
      requires Valid()
      modifies this
      ensures Valid() && genesis == old(genesis) && history == old(history) + [InitVaultOp(creator, capacity, closeAt, now, rentMin)]
      ensures var step := Raffles.InitializeVault(old(Snapshot()), creator, capacity, closeAt, now, rentMin);
        r == Status(step) && Snapshot() == Commit(old(Snapshot()), step)
    {
      RunSnoc(genesis, history, InitVaultOp(creator, capacity, closeAt, now, rentMin));
      history := history + [InitVaultOp(creator, capacity, closeAt, now, rentMin)];
      if counter.None? {
        return Err(AccountNotInitialized);
      }
      var id := counter.value;
      if id in vaults {
        return Err(AccountAlreadyInUse);
      }
      var vault := Vault(Wallet(creator), 0, 0, 0, 0, 0, id, Default);
      if id + 1 > U64_MAX {
        return Err(ArithmeticOverflow);
      }
      vault := vault.(capacity := capacity, closeAt := closeAt, createdAt := AsU64(now));
      if !(vault.closeAt == 0 || vault.closeAt > vault.createdAt) {
        return Err(CloseDateHasPassed);
      }
      var escrow := InventoryKey(Wallet(creator), id + 1);
      if Balance(lamports, escrow) > 0 {
        return Err(AccountAlreadyInUse);
      }
      if Balance(lamports, Wallet(creator)) < rentMin {
        return Err(ResultWithNegativeLamports);
      }
      lamports := Move(lamports, Wallet(creator), escrow, rentMin);
      vaults := vaults[id := vault.(inventory := escrow)];
      counter := Some(id + 1);
      r := Ok(());
    }

    method ParticipateInRaffle(user: Identity, vaultId: nat, amount: nat, now: int) returns (r: Result<()>)
      requires vaultId <= U64_MAX && amount <= U64_MAX
      requires I64_MIN <= now <= I64_MAX
      requires Valid()
      modifies this
      ensures Valid() && genesis == old(genesis) && history == old(history) + [ParticipateOp(user, vaultId, amount, now)]
      ensures var step := Raffles.ParticipateInRaffle(old(Snapshot()), user, vaultId, amount, now);
        r == Status(step) && Snapshot() == Commit(old(Snapshot()), step)
    {
      RunSnoc(genesis, history, ParticipateOp(user, vaultId, amount, now));
      history := history + [ParticipateOp(user, vaultId, amount, now)];
      ghost var step := Raffles.ParticipateInRaffle(Snapshot(), user, vaultId, amount, now);
      if vaultId !in vaults {
        return Err(AccountNotInitialized);
      }
      var vault := vaults[vaultId];
      var share := if (vaultId, user) in shares then shares[(vaultId, user)] else ZeroedShare;
      if !(vault.closeAt == 0 || vault.closeAt > AsU64(now)) {
        return Err(CloseDateHasPassed);
      }
      if Balance(lamports, Wallet(user)) < amount {
        return Err(InsufficientFunds);
      }
      if share.amount == 0 {
        if !(vault.capacity == 0 || vault.participants < vault.capacity) {
          return Err(CapacityExceeded);
        }
        share := share.(owner := Wallet(user), vault := VaultInfoKey(vaultId));
        if vault.participants + 1 > U32_MAX {
          return Err(ArithmeticOverflow);
        }
        vault := vault.(participants := vault.participants + 1);
      }
      var escrow := InventoryKey(vault.authority, vault.id);
      if vault.pool + amount > U64_MAX || share.amount + amount > U64_MAX {
        return Err(ArithmeticOverflow);
      }
      assert step.value.vaults[vaultId] == vault.(pool := vault.pool + amount);
      assert step.value.shares[(vaultId, user)] == share.(amount := share.amount + amount);
      lamports := Move(lamports, Wallet(user), escrow, amount);
      vaults := vaults[vaultId := vault.(pool := vault.pool + amount)];
      shares := shares[(vaultId, user) := share.(amount := share.amount + amount)];
      r := Ok(());
    }
  }
}
