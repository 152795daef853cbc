/**
 * What the share accounts of one vault add up to: the total deposited and the
 * set of users holding a share. The vault's `pool` and `participants` are
 * meant to track these.
 */
module Pool {
  import opened Accounts

  type Shares = map<(nat, Identity), VaultShare>

  /** The part of the share at `key` that belongs to vault `id`. */
  function Part(shares: Shares, key: (nat, Identity), id: nat): nat
    requires key in shares
  {
    if key.0 == id then shares[key].amount else 0
  }

  /** The sum of the amounts of every share of vault `id`. */
  ghost function Deposited(shares: Shares, id: nat): nat
    decreases |shares|
  {
    if shares == map[] then 0
    else
      var key :| key in shares;
      Part(shares, key, id) + Deposited(shares - {key}, id)
  }

  /** The users holding a share of vault `id`. */
  ghost function Members(shares: Shares, id: nat): set<Identity>
  {
    set key | key in shares && key.0 == id :: key.1
  }

  /** The sum does not depend on which share is taken out first. */
  lemma {:induction false} DepositedRemove(shares: Shares, key: (nat, Identity), id: nat)
    requires key in shares
    ensures Deposited(shares, id) == Part(shares, key, id) + Deposited(shares - {key}, id)
    decreases |shares|
  {
    var k :| k in shares && Deposited(shares, id) == Part(shares, k, id) + Deposited(shares - {k}, id);
    if k != key {
      var rest := shares - {k} - {key};
      assert shares - {key} - {k} == rest;
      DepositedRemove(shares - {k}, key, id);
      DepositedRemove(shares - {key}, k, id);
      assert Part(shares - {k}, key, id) == Part(shares, key, id);
      assert Part(shares - {key}, k, id) == Part(shares, k, id);
    }
  }

  /** Writing the share at `key` changes the sum of its vault by the difference. */
  lemma DepositedUpdate(shares: Shares, key: (nat, Identity), share: VaultShare, id: nat)
    ensures Deposited(shares[key := share], id)
         == Deposited(shares - {key}, id) + (if key.0 == id then share.amount else 0)
  {
    DepositedRemove(shares[key := share], key, id);
    assert shares[key := share] - {key} == shares - {key};
  }

  /** A vault without shares has nothing deposited. */
  lemma {:induction false} DepositedNone(shares: Shares, id: nat)
    requires forall key | key in shares :: key.0 != id
    ensures Deposited(shares, id) == 0
    decreases |shares|
  {
    if shares != map[] {
      var k :| k in shares && Deposited(shares, id) == Part(shares, k, id) + Deposited(shares - {k}, id);
      DepositedNone(shares - {k}, id);
      assert Part(shares, k, id) == 0;
    }
  }

  /**
   * Adding `amount` to the share of `user` in vault `id` adds `amount` to that
   * vault's total and leaves every other vault's total as it was.
   */
  lemma Deposit(shares: Shares, id: nat, user: Identity, share: VaultShare, amount: nat, other: nat)
    requires (id, user) in shares ==> shares[(id, user)].amount == share.amount
    requires (id, user) !in shares ==> share.amount == 0
    ensures Deposited(shares[(id, user) := share.(amount := share.amount + amount)], id)
         == Deposited(shares, id) + amount
    ensures other != id ==>
      Deposited(shares[(id, user) := share.(amount := share.amount + amount)], other)
      == Deposited(shares, other)
  {
    var key := (id, user);
    var next := share.(amount := share.amount + amount);
    DepositedUpdate(shares, key, next, id);
    DepositedUpdate(shares, key, next, other);
    if key in shares {
      DepositedRemove(shares, key, id);
      DepositedRemove(shares, key, other);
    } else {
      assert shares - {key} == shares;
    }
  }

  /** Writing the share at `(id, user)` adds at most `user` to the members of `id`. */
  lemma MembersUpdate(shares: Shares, id: nat, user: Identity, share: VaultShare, other: nat)
    ensures Members(shares[(id, user) := share], id) == Members(shares, id) + {user}
    ensures other != id ==> Members(shares[(id, user) := share], other) == Members(shares, other)
  {
  }
}
