# Raffles vault ledger

A model of the Anchor program `raffles` (Solana). Under the account-validation
glue, the program is a small state machine over four kinds of persistent data:

- a singleton id counter (`IdCounter`);
- vaults (`Vault`), keyed by id, each with a creator (`authority`), a `pool` of
  deposited lamports, a `participants` count, a `capacity` (zero means
  unlimited), a close date (zero means never), a creation time and an escrow
  ("inventory") address;
- one share (`VaultShare`) per (vault, user) pair, recording how much that
  user deposited;
- the lamport balances of wallets and escrow accounts.

There are three instructions:

- `initialize_id_counter` sets the counter to 0;
- `initialize_vault` turns the counter's value into a new vault id, moves the
  counter one past it, rejects a close date that is not after the creation
  time, and pays the rent-exempt minimum into a fresh escrow account;
- `particpate_inf_raffle` rejects a closed vault or a user short of funds,
  admits a newcomer only while the vault has room, transfers the deposit and
  adds it to both the vault's pool and the user's share.

Every instruction is one atomic transaction: it either commits all its writes
or fails with an error and changes nothing.

The model has two layers.

- `Raffles` (raffles.dfy) states each instruction as a pure transition
  `State -> Result<State>`. Its contracts give the exact success condition,
  the error of each failing case, and the complete new state. The module also
  defines the invariant `Inv` of every reachable state and proves that each
  instruction preserves it. `Inv` says that each pool equals the sum of its
  shares, that participants stay within capacity, that at least as many
  participants are counted as users hold shares, and that every field fits
  its Rust type.
- `Ledger` (ledger.dfy) is the program as the source writes it: a class whose
  fields are the accounts. Its methods do the source's checks in the source's
  order and defer every in-place write until all checks have passed; since a
  failed transaction is rolled back, this commits the same writes. Each method
  is proved to commit exactly the `Raffles` transition on success, and to
  leave every field as it was on failure.

`Trace` (trace.dfy) runs sequences of instructions and proves what the id
allocation guarantees. `Pool` (pool.dfy) defines the sum of a vault's shares
and the set of its share holders. `Quirks` (quirks.dfy) states consequences of
the code as written that a reader might not expect.

Modelling choices:

- The model follows the code where it departs from what the instructions seem
  meant to do. Three such places are reproduced, not corrected, and `Quirks`
  proves their effect:
  - `initialize_vault` derives the escrow address from the counter after
    incrementing it (id + 1). `particpate_inf_raffle` derives it from the
    vault's id. Deposits therefore never reach the escrow the vault records.
    When one creator made the previous vault, deposits land in that vault's
    escrow.
  - A newcomer is recognised by a share amount of zero, not by a missing
    share. A user who deposits zero twice is counted twice.
  - `initialize_id_counter` resets the counter to 0 even when vaults exist.
    From then on vault creation fails on the occupied id 0.
- Checked arithmetic: Anchor workspaces build with `overflow-checks = true`, so
  `+=` past `u32::MAX` or `u64::MAX` panics and the transaction fails. The
  model reports this as `ArithmeticOverflow`.
- `clock.unix_timestamp as u64` reinterprets the signed time as unsigned
  (`AsU64`). A negative clock therefore reads as a date after every close date
  up to `i64::MAX`.
- The runtime's inputs are parameters: the clock (`now`) and the rent-exempt
  minimum (`rentMin`). Balances are the `lamports` map of the state.
- Program-derived addresses are `Pubkey` constructors over their seeds. This
  makes derivation injective and keeps derived addresses apart from wallets.
- The account checks that change an instruction's outcome are modelled as
  errors. A missing counter or vault gives `AccountNotInitialized`. An id
  already in use, or an escrow address that already holds lamports, gives
  `AccountAlreadyInUse`. A creator who cannot pay the escrow's rent gives
  `ResultWithNegativeLamports`.

## Model

| member | source | states |
|---|---|---|
| Accounts.AsU64 | anchor/programs/raffles/src/lib.rs:48 | the cast keeps non-negative times, maps negative ones above `i64::MAX`, agrees with the time modulo 2^64, and fits a u64 |
| Accounts.Move | anchor/programs/raffles/src/lib.rs:120-126 | a transfer debits the sender by `amount`, credits the receiver by `amount`, and leaves every other balance alone |
| Raffles.InitializeIdCounter | anchor/programs/raffles/src/lib.rs:28-33 | afterwards the counter exists and holds 0, whatever it held before; nothing else changes |
| Raffles.InitializeVault | anchor/programs/raffles/src/lib.rs:35-88 | succeeds exactly when the counter exists, its id is free and below `u64::MAX`, the close date is 0 or after creation, the escrow is unused and the creator can pay rent; gives the error of each failing case (missing counter, id in use, counter overflow, `CloseDateHasPassed`, escrow already in use, rent); on success the vault gets the counter's id, the creator as authority, pool 0, participants 0, the given capacity and close date, the clock as creation time and the escrow at seed id + 1, while the counter moves to id + 1 and no other vault or share changes |
| Raffles.ParticipateInRaffle | anchor/programs/raffles/src/lib.rs:90-131 | succeeds exactly when the vault exists and is open, the user can pay, a newcomer finds room, and no counter overflows; a closed vault fails with `CloseDateHasPassed` whatever the capacity; a user short of funds fails with `InsufficientFunds`; `CapacityExceeded` happens exactly for a newcomer to a full vault; `ArithmeticOverflow` happens exactly when an admitted deposit would push participants, pool or share past its integer type; on success pool and share both grow by `amount`, participants grows by one exactly for a newcomer, a newcomer's share records the user and the vault, and only that vault, that share and the two balances of the transfer change |
| Raffles.InitialSatisfiesInv | anchor/programs/raffles/src/lib.rs:218-240 | a freshly deployed program, with no counter, vaults or shares, satisfies the invariant |
| Raffles.InitializeIdCounterKeepsInv | anchor/programs/raffles/src/lib.rs:28-33 | resetting the counter keeps the invariant |
| Raffles.InitializeVaultKeepsInv | anchor/programs/raffles/src/lib.rs:40-53 | a created vault is well formed, has nothing deposited and no share holders, and closes after its creation, so the invariant is kept |
| Raffles.ParticipateKeepsInv | anchor/programs/raffles/src/lib.rs:107-129 | a successful deposit keeps the whole invariant: pool equals the sum of shares, participants within capacity, share holders counted |
| Raffles.ParticipateKeepsAccountsWellFormed | anchor/programs/raffles/src/lib.rs:109-118 | after a deposit every vault stays within capacity and within its integer types, and every share records its owner and vault |
| Raffles.DepositKeepsConserved | anchor/programs/raffles/src/lib.rs:128-129 | adding `amount` to a pool and to one of its shares keeps every pool equal to the sum of its shares |
| Raffles.DepositKeepsCounted | anchor/programs/raffles/src/lib.rs:109-117 | counting a user again whenever the share was empty keeps the participants at least the number of share holders |
| Pool.DepositedNone | anchor/programs/raffles/src/lib.rs:53 | a vault without shares has a deposited total of 0, which matches the pool it starts with |
| Pool.Deposit | anchor/programs/raffles/src/lib.rs:128-129 | adding `amount` to one share raises its vault's total by `amount` and leaves every other vault's total unchanged |
| Pool.MembersUpdate | anchor/programs/raffles/src/lib.rs:114-117 | writing a user's share adds at most that user to its vault's share holders and changes no other vault's |
| Trace.Run | anchor/programs/raffles/src/lib.rs:22-132 | a run of instructions hands out at most one vault id per instruction |
| Trace.RunKeepsInv | anchor/programs/raffles/src/lib.rs:22-132 | every state reached from a state satisfying the invariant satisfies it |
| Trace.RunIdsAreFresh | anchor/programs/raffles/src/lib.rs:40-43 | even across counter resets, the ids handed out are pairwise distinct, were unused at the start, and still name vaults at the end; no vault disappears |
| Trace.RunIdsIncrease | anchor/programs/raffles/src/lib.rs:40-43 | without a counter reset the counter never decreases, and the ids handed out strictly increase from the counter's starting value and stay below its final value |
| Quirks.DepositMissesRecordedEscrow | anchor/programs/raffles/src/lib.rs:206-210 | a successful deposit is paid to an address other than the vault's recorded escrow, whose balance stays the same; the user pays exactly `amount` |
| Quirks.DepositLandsInPreviousEscrow | anchor/programs/raffles/src/lib.rs:55-62 | when one creator made vaults `id - 1` and `id`, deposits into `id` go to the escrow recorded on `id - 1` |
| Quirks.ZeroDepositCountedTwice | anchor/programs/raffles/src/lib.rs:109-118 | two zero deposits by one user raise participants by 2 while the share holders grow by that one user, and the pool is unchanged |
| Quirks.CounterResetBlocksCreation | anchor/programs/raffles/src/lib.rs:28-30 | after a counter reset, vault creation fails with `AccountAlreadyInUse` once vault 0 exists |
| Quirks.CapacityScenario | anchor/programs/raffles/src/lib.rs:109-113 | in a vault with capacity 2, two newcomers get in, a third gets `CapacityExceeded`, and a returning user deposits again without taking a place |
| Quirks.ClosedAtCreationScenario | anchor/programs/raffles/src/lib.rs:49-52 | a close date at or before the creation time fails with `CloseDateHasPassed` |
| Ledger.Ledger.constructor | anchor/programs/raffles/src/lib.rs:22-23 | a newly deployed program has no counter, vaults or shares and is in the valid state |
| Ledger.Ledger.ValidKeepsInv | anchor/programs/raffles/src/lib.rs:218-240 | whatever was submitted, the accounts satisfy the invariant, and the vault ids handed out are distinct and every one of them still names a vault |
| Ledger.Ledger.InitializeIdCounter | anchor/programs/raffles/src/lib.rs:28-33 | sets the counter field to 0 in place and commits the `Raffles` transition |
| Ledger.Ledger.InitializeVault | anchor/programs/raffles/src/lib.rs:35-88 | the in-place checks and writes return the `Raffles` result; the fields hold the new state on success and are unchanged on failure |
| Ledger.Ledger.ParticipateInRaffle | anchor/programs/raffles/src/lib.rs:90-131 | the in-place checks and writes return the `Raffles` result; the fields hold the new state on success and are unchanged on failure |

## Left out

- Seed mismatch on the counter: `initialize_id_counter` creates it under seed `"counter"` (lib.rs:142), but `initialize_vault` looks it up under `"id_counter"` (lib.rs:157). The model treats both as the same account. The account-constraint layer is not part of this model.
- `current_id` lacks `mut` (lib.rs:156), so Anchor would not persist the increment. The model follows the instruction body, which increments the counter.
- The escrow address is not among `initialize_vault`'s accounts (lib.rs:151-182), and `invoke_signed` receives only the creator and the system program (lib.rs:75-78), so the `create_account` call lacks its target account. The model creates the escrow as the instruction body intends.
- Rent paid by `init` / `init_if_needed` for the vault, share and counter accounts is not modelled. Only the escrow's rent, paid by an explicit `create_account`, is modelled.
- Bump seeds, `msg!` logging, `declare_id!` and the commented-out account (lib.rs:171-178) are left out. They have no effect on the accounting.
- `NegativeCapacityNotAllowed` is declared but never raised. It has no constructor in `Error`.
- A transfer can fail only for lack of funds here. Rent-exemption rules and other runtime refusals are left out.
- Lamport balances are unbounded naturals. The total supply of lamports fits a u64, so no balance overflows.
- Signature checks and the System Program's account ownership are left out. Only signers move their own lamports.
- Concurrency is left out. The runtime runs each transaction atomically, one after another, so a run is a sequence of instructions.
