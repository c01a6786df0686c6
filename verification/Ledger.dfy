/** The storage of the entry point: deposits, stakes and nonces, the ether it holds, and a log. */
module Ledger {
  const MAX_UINT112: nat := 0xFFFF_FFFF_FFFF_FFFF_FFFF_FFFF_FFFF
  const UINT48: nat := 0x1_0000_0000_0000
  const UINT64: nat := 0x1_0000_0000_0000_0000

  type Address = a: nat | a < 0x1_0000000000_0000000000_0000000000_0000000000
  type Uint32 = d: nat | d < 0x1_0000_0000
  type Uint192 = k: nat | k < 0x1_0000000000000000_0000000000000000_0000000000000000

  const NO_ADDRESS: Address := 0

  datatype DepositInfo = DepositInfo(deposit: nat, staked: bool, stake: nat, unstakeDelaySec: nat, withdrawTime: nat)

  const NO_DEPOSIT: DepositInfo := DepositInfo(0, false, 0, 0, 0)

  /**
   What the model records of a run; a reverted call leaves no entry. Every amount that enters or
   leaves a deposit or a stake is recorded with the account it belongs to.
   */
  datatype Event =
    | Deposited(account: Address, amount: nat)
    | Withdrawn(account: Address, amount: nat)
    | Charged(account: Address, amount: nat)
    | Refunded(account: Address, amount: nat)
    | StakeLocked(account: Address, delay: nat, amount: nat)
    | StakeUnlocked(account: Address, time: nat)
    | StakeWithdrawn(account: Address, time: nat, delay: nat, amount: nat)
    | NonceAccepted(account: Address, key: Uint192, seqNumber: nat)

  /**
   forced is ether that arrived without a call of the contract; it and the log are part of
   the model only.
   */
  datatype Ledger = Ledger(
    deposits: map<Address, DepositInfo>,
    nonces: map<(Address, Uint192), nat>,
    balance: nat,
    forced: nat,
    log: seq<Event>)

  const EMPTY: Ledger := Ledger(map[], map[], 0, 0, [])

  /** Storage that was never written reads as zero. */
  function Info(l: Ledger, a: Address): DepositInfo {
    if a in l.deposits then l.deposits[a] else NO_DEPOSIT
  }

  function SetInfo(l: Ledger, a: Address, info: DepositInfo): Ledger {
    l.(deposits := l.deposits[a := info])
  }

  function NextSeq(l: Ledger, a: Address, key: Uint192): nat {
    if (a, key) in l.nonces then l.nonces[(a, key)] else 0
  }

  function Record(l: Ledger, e: Event): Ledger {
    l.(log := l.log + [e])
  }

  // ----- the sum of all deposits and stakes -----

  function Worth(info: DepositInfo): nat {
    info.deposit + info.stake
  }

  ghost function Total(m: map<Address, DepositInfo>): nat {
    if m == map[] then 0
    else
      var a :| a in m;
      Worth(m[a]) + Total(m - {a})
  }

  /** The sum does not depend on the order in which accounts are visited. */
  lemma {:induction false} TotalRemove(m: map<Address, DepositInfo>, a: Address)
    requires a in m
    ensures Total(m) == Worth(m[a]) + Total(m - {a})
    decreases |m|
  {
    var b :| b in m && Total(m) == Worth(m[b]) + Total(m - {b});
    if a != b {
      TotalRemove(m - {b}, a);
      TotalRemove(m - {a}, b);
      assert (m - {b}) - {a} == (m - {a}) - {b};
    }
  }

  lemma TotalUpdate(m: map<Address, DepositInfo>, a: Address, info: DepositInfo)
    ensures Total(m[a := info]) == Total(m) + Worth(info) - (if a in m then Worth(m[a]) else 0)
  {
    TotalRemove(m[a := info], a);
    assert m[a := info] - {a} == m - {a};
    if a in m { TotalRemove(m, a); } else { assert m - {a} == m; }
  }

  lemma TotalSetInfo(l: Ledger, a: Address, info: DepositInfo)
    ensures Total(SetInfo(l, a, info).deposits) == Total(l.deposits) + Worth(info) - Worth(Info(l, a))
  {
    TotalUpdate(l.deposits, a, info);
  }

  /** No account is worth more than all of them. */
  lemma WorthBound(l: Ledger, a: Address)
    ensures Worth(Info(l, a)) <= Total(l.deposits)
  {
    if a in l.deposits { TotalRemove(l.deposits, a); }
  }
}
