/**
 * Consequences of the instructions as they are written: where the escrow's
 * address comes from, what a zero deposit does, what a counter reset does, and
 * a worked run of capacity and deadline enforcement.
 */
module Quirks {
  import opened Accounts
  import opened Pool
  import opened Raffles

  /**
   * initialize_vault derives the escrow from the counter after its increment
   * (id + 1) while particpate_inf_raffle derives it from the vault's id, so a
   * deposit never reaches the escrow recorded on its own vault: the user pays
   * `amount` into another address and that escrow's balance stays as it was.
   */
  lemma DepositMissesRecordedEscrow(s: State, user: Identity, vaultId: nat, amount: nat, now: int)
    requires vaultId <= U64_MAX && amount <= U64_MAX
    requires I64_MIN <= now <= I64_MAX
    requires Inv(s)
    requires ParticipateInRaffle(s, user, vaultId, amount, now).Ok?
    ensures var v, t := s.vaults[vaultId], ParticipateInRaffle(s, user, vaultId, amount, now).value;
      && DepositAddress(v) != v.inventory
      && Balance(t.lamports, v.inventory) == Balance(s.lamports, v.inventory)
      && Balance(t.lamports, DepositAddress(v)) == Balance(s.lamports, DepositAddress(v)) + amount
      && Balance(t.lamports, Wallet(user)) + amount == Balance(s.lamports, Wallet(user))
  {
  }

  /**
   * When one wallet creates vaults `id - 1` and `id`, deposits into vault `id`
   * are paid into the escrow recorded on vault `id - 1`.
   */
  lemma DepositLandsInPreviousEscrow(s: State, id: nat)
    requires Inv(s)
    requires 0 < id && id in s.vaults && id - 1 in s.vaults
    requires s.vaults[id].authority == s.vaults[id - 1].authority
    ensures DepositAddress(s.vaults[id]) == s.vaults[id - 1].inventory
  {
  }

  /**
   * First touch is keyed on an empty share, not on a missing one: two deposits
   * of zero by the same user count that user twice, although the user holds a
   * single share.
   */
  lemma ZeroDepositCountedTwice(s: State, user: Identity, vaultId: nat, now: int)
    requires vaultId <= U64_MAX && I64_MIN <= now <= I64_MAX
    requires Inv(s)
    requires ShareAmount(s, vaultId, user) == 0
    requires ParticipateInRaffle(s, user, vaultId, 0, now).Ok?
    requires ParticipateInRaffle(ParticipateInRaffle(s, user, vaultId, 0, now).value, user, vaultId, 0, now).Ok?
    ensures var t := ParticipateInRaffle(ParticipateInRaffle(s, user, vaultId, 0, now).value, user, vaultId, 0, now).value;
      && t.vaults[vaultId].participants == s.vaults[vaultId].participants + 2
      && Members(t.shares, vaultId) == Members(s.shares, vaultId) + {user}
      && t.vaults[vaultId].pool == s.vaults[vaultId].pool
  {
  }

  /**
   * initialize_id_counter resets the counter even when vaults exist; from then
   * on initialize_vault tries to reuse id 0 and fails, and since a failure
   * leaves the counter at 0 it keeps failing.
   */
  lemma CounterResetBlocksCreation(s: State, creator: Identity, capacity: nat, closeAt: nat, now: int, rentMin: nat)
    requires capacity <= U32_MAX && closeAt <= U64_MAX && rentMin <= U64_MAX
    requires I64_MIN <= now <= I64_MAX
    requires 0 in s.vaults
    ensures InitializeVault(InitializeIdCounter(s), creator, capacity, closeAt, now, rentMin)
         == Err(AccountAlreadyInUse)
  {
  }

  /**
   * A vault with room for two: two newcomers get in, a third is turned away,
   * and the first returns to deposit again without taking a new place.
   */
  lemma CapacityScenario()
    ensures
      var s0 := State(Some(0), map[], map[],
                      map[Wallet(9) := 1000, Wallet(1) := 500, Wallet(2) := 500, Wallet(3) := 500]);
      var s1 := InitializeVault(s0, 9, 2, 0, 100, 10);
      && s1.Ok? && 0 in s1.value.vaults
      && var s2 := ParticipateInRaffle(s1.value, 1, 0, 100, 200);
      && s2.Ok? && s2.value.vaults[0].pool == 100 && s2.value.vaults[0].participants == 1
      && var s3 := ParticipateInRaffle(s2.value, 2, 0, 50, 200);
      && s3.Ok? && s3.value.vaults[0].pool == 150 && s3.value.vaults[0].participants == 2
      && ParticipateInRaffle(s3.value, 3, 0, 10, 200) == Err(CapacityExceeded)
      && var s4 := ParticipateInRaffle(s3.value, 1, 0, 20, 200);
      && s4.Ok? && s4.value.vaults[0].pool == 170 && s4.value.vaults[0].participants == 2
  {
    var s0 := State(Some(0), map[], map[],
                    map[Wallet(9) := 1000, Wallet(1) := 500, Wallet(2) := 500, Wallet(3) := 500]);
    var s1 := InitializeVault(s0, 9, 2, 0, 100, 10).value;
    assert Balance(s1.lamports, Wallet(1)) == 500;
    var s2 := ParticipateInRaffle(s1, 1, 0, 100, 200).value;
    assert Balance(s2.lamports, Wallet(2)) == 500 && Balance(s2.lamports, Wallet(3)) == 500;
    assert ShareAmount(s2, 0, 2) == 0;
    var s3 := ParticipateInRaffle(s2, 2, 0, 50, 200).value;
    assert Balance(s3.lamports, Wallet(3)) == 500 && ShareAmount(s3, 0, 3) == 0;
    assert Balance(s3.lamports, Wallet(1)) == 400 && ShareAmount(s3, 0, 1) == 100;
  }

  /**
   * A close date that is not after the creation time is refused, and nothing
   * is created: no vault, no escrow, no counter increment.
   */
  lemma ClosedAtCreationScenario(s: State, creator: Identity, closeAt: nat, now: int)
    requires closeAt <= U64_MAX && 0 <= now <= I64_MAX
    requires s.counter.Some? && s.counter.value !in s.vaults && s.counter.value < U64_MAX
    requires 0 < closeAt <= now
    ensures InitializeVault(s, creator, 0, closeAt, now, 10) == Err(CloseDateHasPassed)
  {
  }
}
