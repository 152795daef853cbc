/**
 * Account records, keys and errors of the raffles program, and the fixed-width
 * integer helpers its instructions rely on.
 */
module Accounts {

  const U32_MAX: nat := 0xFFFF_FFFF
  const U64_MAX: nat := 0xFFFF_FFFF_FFFF_FFFF
  const I64_MIN: int := -0x8000_0000_0000_0000
  const I64_MAX: int := 0x7FFF_FFFF_FFFF_FFFF

  /** The public key of a wallet; wallets are the only accounts that sign. */
  type Identity = nat

  /**
   * A 32-byte public key. Program-derived addresses are hashes of their seeds;
   * here each kind of derived address is a constructor over its seeds, which
   * makes derivation injective and keeps derived addresses apart from wallets.
   */
  datatype Pubkey =
    | Default                                // Pubkey::default(), all zero bytes
    | Wallet(owner: Identity)
    | VaultInfoKey(id: nat)                  // seeds ["vault-info", id]
    | InventoryKey(authority: Pubkey, seed: nat)  // seeds ["vault", authority, seed]

  /** The `Vault` account (bump seed left out). */
  datatype Vault = Vault(
    authority: Pubkey,
    pool: nat,          // u64
    participants: nat,  // u32
    capacity: nat,      // u32, zero means unlimited
    closeAt: nat,       // u64, zero means never closes
    createdAt: nat,     // u64
    id: nat,            // u64
    inventory: Pubkey)

  /** The `VaultShare` account: one per (vault, user) pair (bump seed left out). */
  datatype VaultShare = VaultShare(owner: Pubkey, vault: Pubkey, amount: nat)

  /** The contents of a share account that `init_if_needed` has just created. */
  const ZeroedShare: VaultShare := VaultShare(Default, Default, 0)

  /**
   * The ways an instruction fails: the program's own `RafflesErrors`
   * (NegativeCapacityNotAllowed is never raised) and the failures of the
   * runtime that the instructions run into.
   */
  datatype Error =
    | CloseDateHasPassed
    | InsufficientFunds
    | CapacityExceeded
    | AccountNotInitialized       // an `Account<T>` argument that does not exist
    | AccountAlreadyInUse         // `init` / create_account on an address in use
    | ResultWithNegativeLamports  // create_account from a payer short of lamports
    | ArithmeticOverflow          // a checked `+=` panicked

  datatype Option<T> = None | Some(value: T)

  datatype Result<T> = Ok(value: T) | Err(error: Error)

  /** `t as u64` for an i64 `t`: the two's-complement bits read as unsigned. */
  function AsU64(t: int): (r: nat)
    requires I64_MIN <= t <= I64_MAX
    ensures r <= U64_MAX
    ensures (r - t) % (U64_MAX + 1) == 0
    ensures 0 <= t ==> r == t
    ensures t < 0 ==> r > I64_MAX
  {
    if t < 0 then t + U64_MAX + 1 else t
  }

  /** The lamports held at `key`; an address nothing was ever paid to holds none. */
  function Balance(lamports: map<Pubkey, nat>, key: Pubkey): nat
  {
    if key in lamports then lamports[key] else 0
  }

  /** A system-program transfer of `amount` lamports from `from` to `to`. */
  function Move(lamports: map<Pubkey, nat>, from: Pubkey, to: Pubkey, amount: nat): (r: map<Pubkey, nat>)
    requires amount <= Balance(lamports, from)
    requires from != to
    ensures Balance(r, from) + amount == Balance(lamports, from)
    ensures Balance(r, to) == Balance(lamports, to) + amount
    ensures forall k :: k != from && k != to ==> Balance(r, k) == Balance(lamports, k)
  {
    var paid := lamports[from := Balance(lamports, from) - amount];
    paid[to := Balance(paid, to) + amount]
  }
}
