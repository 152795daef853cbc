/**
 * Runs of instructions, one committed transaction after another, and what they
 * guarantee about the vault ids handed out.
 */
module Trace {
  import opened Accounts
  import opened Pool
  import opened Raffles

  /** One instruction together with its arguments and the runtime's inputs. */
  datatype Op =
    | InitCounterOp
    | InitVaultOp(creator: Identity, capacity: nat, closeAt: nat, now: int, rentMin: nat)
    | ParticipateOp(user: Identity, vaultId: nat, amount: nat, now: int)

  /** The arguments fit the Rust types of the instruction's parameters. */
  predicate WellTyped(op: Op)
  {
    match op
    case InitCounterOp => true
    case InitVaultOp(_, capacity, closeAt, now, rentMin) =>
      capacity <= U32_MAX && closeAt <= U64_MAX && rentMin <= U64_MAX && I64_MIN <= now <= I64_MAX
    case ParticipateOp(_, vaultId, amount, now) =>
      vaultId <= U64_MAX && amount <= U64_MAX && I64_MIN <= now <= I64_MAX
  }

  function Apply(s: State, op: Op): Result<State>
    requires WellTyped(op)
  {
    match op
    case InitCounterOp => Ok(InitializeIdCounter(s))
    case InitVaultOp(creator, capacity, closeAt, now, rentMin) =>
      InitializeVault(s, creator, capacity, closeAt, now, rentMin)
    case ParticipateOp(user, vaultId, amount, now) =>
      ParticipateInRaffle(s, user, vaultId, amount, now)
  }

  /**
   * The state after submitting `ops` in order from `s` (a failed transaction
   * changes nothing), and the ids of the vaults created, in creation order.
   */
  function Run(s: State, ops: seq<Op>): (r: (State, seq<nat>))
    requires forall i | 0 <= i < |ops| :: WellTyped(ops[i])
    ensures |r.1| <= |ops|
    decreases |ops|
  {
    if ops == [] then (s, [])
    else
      var (m, ids) := Run(s, ops[..|ops| - 1]);
      var op := ops[|ops| - 1];
      match Apply(m, op)
      case Err(_) => (m, ids)
      case Ok(n) => (n, if op.InitVaultOp? then ids + [m.counter.value] else ids)
  }

  /** Submitting one more instruction commits its transition, or nothing if it fails. */
  lemma RunSnoc(s: State, ops: seq<Op>, op: Op)
    requires forall i | 0 <= i < |ops| :: WellTyped(ops[i])
    requires WellTyped(op)
    ensures forall i | 0 <= i < |ops + [op]| :: WellTyped((ops + [op])[i])
    ensures var m := Run(s, ops).0;
      Run(s, ops + [op]).0 == if Apply(m, op).Ok? then Apply(m, op).value else m
  {
  }

  /** A run from a state satisfying the invariant keeps the invariant. */
  lemma {:induction false} RunKeepsInv(s: State, ops: seq<Op>)
    requires forall i | 0 <= i < |ops| :: WellTyped(ops[i])
    requires Inv(s)
    ensures Inv(Run(s, ops).0)
    decreases |ops|
  {
    if ops != [] {
      var m := Run(s, ops[..|ops| - 1]).0;
      RunKeepsInv(s, ops[..|ops| - 1]);
      match ops[|ops| - 1]
      case InitCounterOp => InitializeIdCounterKeepsInv(m);
      case InitVaultOp(creator, capacity, closeAt, now, rentMin) =>
        InitializeVaultKeepsInv(m, creator, capacity, closeAt, now, rentMin);
      case ParticipateOp(user, vaultId, amount, now) =>
        ParticipateKeepsInv(m, user, vaultId, amount, now);
    }
  }

  /**
   * Vault ids are never reused, even across counter resets: every id a run
   * hands out is new, is different from every other it hands out, and names a
   * vault that still exists at the end.
   */
  lemma {:induction false} RunIdsAreFresh(s: State, ops: seq<Op>)
    requires forall i | 0 <= i < |ops| :: WellTyped(ops[i])
    ensures var t, ids := Run(s, ops).0, Run(s, ops).1;
      && (forall i, j | 0 <= i < j < |ids| :: ids[i] != ids[j])
      && (forall i | 0 <= i < |ids| :: ids[i] !in s.vaults && ids[i] in t.vaults)
      && s.vaults.Keys <= t.vaults.Keys
    decreases |ops|
  {
    if ops != [] {
      RunIdsAreFresh(s, ops[..|ops| - 1]);
    }
  }

  /**
   * Without a counter reset the counter never goes back, and the ids handed
   * out strictly increase, start at the counter's value and stay below its
   * final value.
   */
  lemma {:induction false} RunIdsIncrease(s: State, ops: seq<Op>)
    requires forall i | 0 <= i < |ops| :: WellTyped(ops[i])
    requires forall i | 0 <= i < |ops| :: !ops[i].InitCounterOp?
    ensures var t, ids := Run(s, ops).0, Run(s, ops).1;
      && t.counter.Some? == s.counter.Some?
      && (ids != [] ==> s.counter.Some?)
      && (forall i, j | 0 <= i < j < |ids| :: ids[i] < ids[j])
      && (s.counter.Some? ==>
            && s.counter.value <= t.counter.value
            && forall i | 0 <= i < |ids| :: s.counter.value <= ids[i] < t.counter.value)
    decreases |ops|
  {
    if ops != [] {
      var prefix := ops[..|ops| - 1];
      RunIdsIncrease(s, prefix);
      var m, ids := Run(s, prefix).0, Run(s, prefix).1;
      var op := ops[|ops| - 1];
      if op.InitVaultOp? && Apply(m, op).Ok? {
        assert Run(s, ops).1 == ids + [m.counter.value];
        assert Run(s, ops).0.counter == Some(m.counter.value + 1);
      } else {
        assert Run(s, ops).1 == ids;
        assert Run(s, ops).0.counter == m.counter;
      }
    }
  }
}
