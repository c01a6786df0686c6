/**
 What moves the money of an account: the log explains every stake and every deposit to the last
 wei, and stake leaves only when it is due.
 */
module StakeLocking {
  import opened Evm
  import opened ModArith
  import opened Ledger
  import opened EntryPointModel
  import opened LedgerInvariants
  import opened LedgerSafety
  import opened LedgerTheorems

  // ----- from the status of a stake to the events behind it -----

  /** No stake event of the account among the events from i up to j. */
  predicate Quiet(log: seq<Event>, a: Address, i: nat, j: nat)
    requires i <= j <= |log|
  {
    forall k :: i <= k < j ==> !StakeEvent(log[k], a)
  }

  /** No withdrawal of the account's stake among the events from i up to j. */
  predicate NotWithdrawn(log: seq<Event>, a: Address, i: nat, j: nat)
    requires i <= j <= |log|
  {
    forall k :: i <= k < j && StakeEvent(log[k], a) ==> !log[k].StakeWithdrawn?
  }

  /** An unlocking stake was unlocked by the last stake event of its account. */
  lemma {:induction false} LastUnlock(log: seq<Event>, a: Address) returns (j: nat)
    requires Status(log, a).Unlocking?
    ensures j < |log| && log[j] == StakeUnlocked(a, Status(log, a).time) && Quiet(log, a, j + 1, |log|)
  {
    j := |log| - 1;
    if !StakeEvent(log[j], a) {
      j := LastUnlock(log[..|log| - 1], a);
    }
  }

  /** The declared delay is at least every delay declared since the last withdrawal. */
  lemma {:induction false} DeclaredIsUpperBound(log: seq<Event>, a: Address, k: nat)
    requires k < |log| && log[k].StakeLocked? && log[k].account == a && NotWithdrawn(log, a, k, |log|)
    ensures log[k].delay <= Declared(log, a)
  {
    var last := |log| - 1;
    if k < last {
      DeclaredIsUpperBound(log[..last], a, k);
    }
  }

  /** A declared delay was declared since the last withdrawal. */
  lemma {:induction false} DeclaredIsAttained(log: seq<Event>, a: Address) returns (k: nat)
    requires Declared(log, a) > 0
    ensures k < |log| && log[k].StakeLocked? && log[k].account == a && log[k].delay == Declared(log, a)
    ensures NotWithdrawn(log, a, k, |log|)
  {
    k := |log| - 1;
    if !(log[k].StakeLocked? && log[k].account == a && log[k].delay == Declared(log, a)) {
      k := DeclaredIsAttained(log[..k], a);
    }
  }

  /** Event k locked stake of the account, and the account withdrew none between it and event i. */
  predicate LockedSince(log: seq<Event>, a: Address, k: nat, i: nat)
    requires i <= |log|
  {
    k < i && log[k].StakeLocked? && log[k].account == a && NotWithdrawn(log, a, k, i)
  }

  /** Event j unlocked the stake event i withdraws, the account did nothing with it since, and its delay is over. */
  predicate UnlockedAt(log: seq<Event>, j: nat, i: nat)
    requires i < |log| && log[i].StakeWithdrawn?
  {
    && j < i && log[j].StakeUnlocked? && log[j].account == log[i].account
    && Quiet(log, log[i].account, j + 1, i)
    && log[j].time % UINT48 + log[i].delay <= log[i].time
  }

  /** The delay of the withdrawal is the greatest one that was declared for the stake it withdraws. */
  ghost predicate GreatestDelay(log: seq<Event>, i: nat)
    requires i < |log| && log[i].StakeWithdrawn?
  {
    var a := log[i].account;
    && (forall k: nat :: LockedSince(log, a, k, i) ==> log[k].delay <= log[i].delay)
    && (exists k: nat :: LockedSince(log, a, k, i) && log[k].delay == log[i].delay)
  }

  /** Event i withdraws the whole stake of its account, after the unlock and the wait the code demands. */
  ghost predicate ProperWithdrawal(log: seq<Event>, i: nat)
    requires i < |log| && log[i].StakeWithdrawn?
  {
    && log[i].amount == StakeIn(log[..i], log[i].account)
    && (exists j: nat :: UnlockedAt(log, j, i))
    && GreatestDelay(log, i)
  }

  /** Every withdrawal of stake in a reachable log is a proper one. */
  lemma WithdrawnStakeWasDue(l: Ledger, owed: nat, i: nat)
    requires Inv(l, owed) && i < |l.log| && l.log[i].StakeWithdrawn?
    ensures ProperWithdrawal(l.log, i)
  {
    hide Solvent, NoncesIncrease, Status, Declared, StakeIn, DepositIn;
    var a, before := l.log[i].account, l.log[..i];
    assert WithdrawalDue(l.log, i);
    var j := LastUnlock(before, a);
    assert UnlockedAt(l.log, j, i);
    forall k: nat | LockedSince(l.log, a, k, i) ensures l.log[k].delay <= l.log[i].delay {
      DeclaredIsUpperBound(before, a, k);
    }
    var k := DeclaredIsAttained(before, a);
    assert LockedSince(l.log, a, k, i);
  }

  // ----- what moves the money of an account -----

  lemma {:induction false} SumOfNew(log: seq<Event>, log': seq<Event>, a: Address)
    requires log <= log'
    ensures StakeIn(log', a) == StakeIn(log, a) + StakeIn(log'[|log|..], a)
    ensures DepositIn(log', a) == DepositIn(log, a) + DepositIn(log'[|log|..], a)
    decreases |log'|
  {
    var added := log'[|log|..];
    if added == [] {
      assert log' == log;
    } else {
      var last := |log'| - 1;
      assert added[..|added| - 1] == log'[..last][|log|..];
      SumOfNew(log, log'[..last], a);
    }
  }

  lemma {:induction false} SomeWithdrawal(log: seq<Event>, a: Address) returns (i: nat)
    requires StakeIn(log, a) < 0
    ensures i < |log| && log[i].StakeWithdrawn? && log[i].account == a && log[i].amount > 0
  {
    i := |log| - 1;
    if StakeChange(log[i], a) >= 0 { i := SomeWithdrawal(log[..i], a); }
  }

  lemma {:induction false} SomePayment(log: seq<Event>, a: Address) returns (i: nat)
    requires DepositIn(log, a) < 0
    ensures i < |log| && (log[i].Withdrawn? || log[i].Charged?) && log[i].account == a && log[i].amount > 0
  {
    i := |log| - 1;
    if DepositChange(log[i], a) >= 0 { i := SomePayment(log[..i], a); }
  }

  /** Event i, not before from, withdraws stake of the account, and properly. */
  ghost predicate StakeLeaves(log: seq<Event>, a: Address, from: nat, i: nat) {
    from <= i < |log| && log[i].StakeWithdrawn? && log[i].account == a && log[i].amount > 0 && ProperWithdrawal(log, i)
  }

  /** Event i, not before from, is a withdrawal by the account or the charge of a prefund. */
  predicate DepositLeaves(log: seq<Event>, a: Address, from: nat, i: nat) {
    from <= i < |log| && (log[i].Withdrawn? || log[i].Charged?) && log[i].account == a && log[i].amount > 0
  }

  /**
   From l to l' the stake of the account changes by exactly what the new events lock and withdraw,
   its deposit by exactly what they send, refund, withdraw and charge, and every withdrawal of
   stake among them is a proper one.
   */
  ghost predicate Explained(l: Ledger, l': Ledger, a: Address) {
    && l.log <= l'.log
    && var from, added := |l.log|, l'.log[|l.log|..];
    && Info(l', a).stake == Info(l, a).stake + StakeIn(added, a)
    && Info(l', a).deposit == Info(l, a).deposit + DepositIn(added, a)
    && (forall i :: from <= i < |l'.log| && l'.log[i].StakeWithdrawn? ==> ProperWithdrawal(l'.log, i))
    && (Info(l', a).stake < Info(l, a).stake ==> exists i: nat :: StakeLeaves(l'.log, a, from, i))
    && (Info(l', a).deposit < Info(l, a).deposit ==> exists i: nat :: DepositLeaves(l'.log, a, from, i))
  }

  lemma AddedWithdrawalsAreProper(l: Ledger, from: nat, owed: nat)
    requires Inv(l, owed)
    ensures forall i :: from <= i < |l.log| && l.log[i].StakeWithdrawn? ==> ProperWithdrawal(l.log, i)
  {
    hide Inv, ProperWithdrawal;
    forall i | from <= i < |l.log| && l.log[i].StakeWithdrawn? ensures ProperWithdrawal(l.log, i) {
      WithdrawnStakeWasDue(l, owed, i);
    }
  }

  lemma StakeFell(l: Ledger, a: Address, from: nat, owed: nat) returns (i: nat)
    requires Inv(l, owed) && from <= |l.log| && StakeIn(l.log[from..], a) < 0
    ensures StakeLeaves(l.log, a, from, i)
  {
    hide Inv, StakeIn, ProperWithdrawal;
    i := SomeWithdrawal(l.log[from..], a);
    assert l.log[from + i] == l.log[from..][i];
    i := from + i;
    WithdrawnStakeWasDue(l, owed, i);
  }

  lemma DepositFell(log: seq<Event>, a: Address, from: nat) returns (i: nat)
    requires from <= |log| && DepositIn(log[from..], a) < 0
    ensures DepositLeaves(log, a, from, i)
  {
    hide DepositIn;
    i := SomePayment(log[from..], a);
    assert log[from + i] == log[from..][i];
    i := from + i;
  }

  /** Between any two reachable states, also inside a bundle, the new events explain all money of an account. */
  lemma MoneyIsExplained(l: Ledger, l': Ledger, a: Address, owed: nat, owed': nat)
    requires Inv(l, owed) && Advances(l, l', owed')
    ensures Explained(l, l', a)
  {
    hide StakeIn, DepositIn, Status, Declared, StakeMatches, ProperWithdrawal, StakeLeaves, DepositLeaves, Inv;
    AccountOf(l, a, owed);
    AccountOf(l', a, owed');
    SumOfNew(l.log, l'.log, a);
    var from := |l.log|;
    AddedWithdrawalsAreProper(l', from, owed');
    if StakeIn(l'.log[from..], a) < 0 {
      var i := StakeFell(l', a, from, owed');
    }
    if DepositIn(l'.log[from..], a) < 0 {
      var i := DepositFell(l'.log, a, from);
    }
  }

  /** Whatever calls arrive, at top level or re-entrant in the middle of a bundle, stake leaves only when due. */
  lemma CallsReleaseDueStakeOnly(l: Ledger, env: Env, locked: bool, steps: seq<Step>, a: Address, owed: nat)
    requires Inv(l, owed)
    ensures Explained(l, ApplyAll(l, env, locked, steps), a)
  {
    hide Inv, Explained, ApplyAll;
    ApplyAllAdvances(l, env, locked, steps, owed);
    MoneyIsExplained(l, ApplyAll(l, env, locked, steps), a, owed, owed);
  }

  /** From any point of a history to its end, stake leaves only when due, and deposits by withdrawal or charge. */
  lemma StakeStaysLocked(txs: seq<Transaction>, m: nat, a: Address)
    requires m <= |txs|
    ensures Explained(History(txs[..m]), History(txs), a)
  {
    hide Inv, Explained, History;
    HistoryAdvances(txs, m);
    MoneyIsExplained(History(txs[..m]), History(txs), a, 0, 0);
  }

  /** In every reachable state the log says what each account holds, to the last wei. */
  lemma LogExplainsBalances(txs: seq<Transaction>, a: Address)
    ensures Info(History(txs), a).deposit == DepositIn(History(txs).log, a)
    ensures Info(History(txs), a).stake == StakeIn(History(txs).log, a)
  {
    hide Inv, History, DepositIn, StakeIn;
    HistorySafe(txs);
    AccountOf(History(txs), a, 0);
  }

  // ----- when a stake can be unlocked and withdrawn -----

  /** In every reachable state, even inside a bundle, an account that counts as staked is. */
  lemma StakedIsLocked(l: Ledger, a: Address, owed: nat)
    requires Inv(l, owed)
    ensures Info(l, a).staked ==> Info(l, a).stake > 0 && Info(l, a).unstakeDelaySec > 0 && Info(l, a).withdrawTime == 0
    ensures Info(l, a).staked <==> Status(l.log, a).Locked?
    ensures Info(l, a).unstakeDelaySec == Declared(l.log, a)
    ensures Info(l, a).stake == 0 <==> Status(l.log, a).NoStake?
  {
    AccountOf(l, a, owed);
    hide Inv, Status, Declared, StakeIn, DepositIn;
  }

  /** From l to l' the account's entry becomes info, event e is recorded, and so much ether arrives. */
  ghost predicate Entered(l: Ledger, l': Ledger, a: Address, info: DepositInfo, e: Event, value: nat) {
    && Info(l', a) == info && (forall b: Address :: b != a ==> Info(l', b) == Info(l, b))
    && l'.log == l.log + [e]
    && l'.balance == l.balance + value && l'.forced == l.forced && l'.nonces == l.nonces
  }

  /**
   Exactly when stake can be added: the delay is positive and at least every delay declared for the
   stake, and the stake is positive and fits in 112 bits. The new delay then applies to the whole
   stake, which is locked again.
   */
  lemma StakeIsAddable(l: Ledger, caller: Address, delay: Uint32, value: nat, owed: nat)
    requires Inv(l, owed)
    ensures var r := AddStakeResult(l, caller, delay, value);
            var was := Info(l, caller);
            && (r.Returned? <==>
                  && 0 < delay && Declared(l.log, caller) <= delay
                  && 0 < was.stake + value < Pow2(112) && l.balance + value < TWO_TO_256)
            && (r.Returned? ==>
                  Entered(l, r.value, caller, DepositInfo(was.deposit, true, was.stake + value, delay, 0),
                          StakeLocked(caller, delay, value), value))
  {
    AccountOf(l, caller, owed);
    Pow2OneTwelve();
    hide Inv, Status, Declared, StakeIn, DepositIn, Pow2;
  }

  lemma Pow2OneTwelve()
    ensures Pow2(112) == MAX_UINT112 + 1
  {
    Pow2Eight();
    hide Pow2;
    Pow2SixtyFour();
    Pow2Add(8, 8);
    Pow2Add(16, 16);
    Pow2Add(32, 16);
    Pow2Add(64, 48);
  }

  /** Exactly when a stake can be withdrawn: money never stands in the way. It leaves nothing of stake and delay. */
  lemma StakeIsWithdrawable(l: Ledger, env: Env, locked: bool, caller: Address, to: Address, call: External, owed: nat)
    returns (released: Ledger)
    requires Inv(l, owed)
    ensures var r := WithdrawStakeResult(l, env, locked, caller, to, call);
            var was := Info(l, caller);
            && (r.Returned? <==>
                  && Status(l.log, caller).Unlocking?
                  && Status(l.log, caller).time % UINT48 + Declared(l.log, caller) <= env.now
                  && (to == env.self || call.ok))
            && (r.Returned? ==>
                  && Entered(l, released, caller, DepositInfo(was.deposit, false, 0, 0, 0),
                             StakeWithdrawn(caller, env.now, was.unstakeDelaySec, was.stake), 0)
                  && PaidOut(released, r.value, env, locked, to, was.stake, call))
  {
    hide Inv, Status, Declared, ApplyAll, StakeReleased, Entered;
    released := Committed(l, StakeReleased(l, env, caller));
    ReleasesExactly(l, env, caller, owed);
    StakeReleasedKeeps(l, env, caller, owed);
    if StakeReleased(l, env, caller).Returned? {
      PayAdvances(released, env, locked, to, Info(l, caller).stake, call, owed);
    }
  }

  /** Before the payment. */
  lemma ReleasesExactly(l: Ledger, env: Env, caller: Address, owed: nat)
    requires Inv(l, owed)
    ensures var r := StakeReleased(l, env, caller);
            var was := Info(l, caller);
            && (r.Returned? <==>
                  && Status(l.log, caller).Unlocking?
                  && Status(l.log, caller).time % UINT48 + Declared(l.log, caller) <= env.now)
            && (r.Returned? ==>
                  Entered(l, r.value, caller, DepositInfo(was.deposit, false, 0, 0, 0),
                          StakeWithdrawn(caller, env.now, was.unstakeDelaySec, was.stake), 0))
  {
    AccountOf(l, caller, owed);
    hide Inv, Status, Declared, StakeIn, DepositIn;
  }

  /** Exactly when a stake can be unlocked, and from when on it can then be withdrawn. */
  lemma StakeIsUnlockable(l: Ledger, env: Env, caller: Address, owed: nat)
    requires Inv(l, owed)
    ensures var r := UnlockStakeResult(l, env, caller);
            var was, end := Info(l, caller), env.now % UINT48 + Declared(l.log, caller);
            && (r.Returned? <==> Status(l.log, caller).Locked? && end < UINT48)
            && (r.Returned? ==>
                  Entered(l, r.value, caller, was.(staked := false, withdrawTime := end),
                          StakeUnlocked(caller, env.now), 0))
  {
    hide Inv, Status, Declared, StakeIn, DepositIn;
    AccountOf(l, caller, owed);
  }

  // ----- round trips -----

  /** Every account has what it had, and the contract the ether it held. */
  ghost predicate SameMoney(l: Ledger, l': Ledger) {
    l'.balance == l.balance && forall b: Address :: Info(l', b) == Info(l, b)
  }

  /** A receiver that takes a payment and makes no calls. */
  const ACCEPT: External := External(true, [])

  /** What is deposited for an account, that account can withdraw, and then all is as before. */
  lemma DepositRoundTrip(l: Ledger, env: Env, locked: bool, a: Address, to: Address, value: nat, owed: nat)
    requires Inv(l, owed) && l.balance + value < TWO_TO_256 && to != env.self
    ensures SameMoney(l, ApplyAll(l, env, locked, [DepositTo(a, value), WithdrawTo(a, to, value, ACCEPT)]))
  {
    hide Inv, DepositToResult, WithdrawToResult, Info;
    var l1 := Apply(l, env, locked, DepositTo(a, value));
    DepositToKeeps(l, a, value, owed);
    var debited := DepositIsWithdrawable(l1, env, locked, a, to, value, ACCEPT, owed);
    var l2 := Apply(l1, env, locked, WithdrawTo(a, to, value, ACCEPT));
    assert l2 == debited.(balance := debited.balance - value);
    forall b: Address ensures Info(l2, b) == Info(l, b) {
      SameInfo(debited, l2, b);
    }
    TwoSteps(l, env, locked, DepositTo(a, value), WithdrawTo(a, to, value, ACCEPT));
  }

  lemma SameInfo(l: Ledger, l': Ledger, a: Address)
    requires l'.deposits == l.deposits
    ensures Info(l', a) == Info(l, a)
  {
  }

  lemma TwoSteps(l: Ledger, env: Env, locked: bool, first: Step, second: Step)
    ensures ApplyAll(l, env, locked, [first, second]) == Apply(Apply(l, env, locked, first), env, locked, second)
  {
    hide Apply;
    var l1 := Apply(l, env, locked, first);
    assert [first, second][1..] == [second] && [second][1..] == [];
    assert ApplyAll(l1, env, locked, [second]) == Apply(l1, env, locked, second);
  }

  /** Stake that was locked and unlocked is paid back in full when the delay is over, and then all is as before. */
  lemma StakeRoundTrip(l: Ledger, env: Env, locked: bool, a: Address, to: Address, delay: Uint32, value: nat,
                       unlockTime: nat, now: nat, owed: nat)
    requires Inv(l, owed) && Status(l.log, a).NoStake? && to != env.self
    requires 0 < delay && 0 < value <= MAX_UINT112 && l.balance + value < TWO_TO_256
    requires unlockTime + delay < UINT48 && unlockTime + delay <= now
    ensures var l1 := Apply(l, env, locked, AddStake(a, delay, value));
            var l2 := Apply(l1, env.(now := unlockTime), locked, UnlockStake(a));
            SameMoney(l, Apply(l2, env.(now := now), locked, WithdrawStake(a, to, ACCEPT)))
  {
    hide Inv, Apply, Entered, Info, SameMoney, Status, Declared;
    var l1 := Locked(l, env, locked, a, delay, value, owed);
    var l2 := Unlocked(l1, env.(now := unlockTime), locked, a, owed);
    Returned(l, l1, l2, env, locked, a, to, delay, value, unlockTime, now, owed);
  }

  lemma Locked(l: Ledger, env: Env, locked: bool, a: Address, delay: Uint32, value: nat, owed: nat)
    returns (l1: Ledger)
    requires Inv(l, owed) && Status(l.log, a).NoStake?
    requires 0 < delay && 0 < value <= MAX_UINT112 && l.balance + value < TWO_TO_256
    ensures l1 == Apply(l, env, locked, AddStake(a, delay, value)) && Inv(l1, owed)
    ensures Info(l, a) == DepositInfo(Info(l, a).deposit, false, 0, 0, 0)
    ensures Entered(l, l1, a, DepositInfo(Info(l, a).deposit, true, value, delay, 0), StakeLocked(a, delay, value),
                    value)
    ensures Status(l1.log, a).Locked? && Declared(l1.log, a) == delay
  {
    hide Inv, AddStakeResult, StakeIn, DepositIn, Status, Declared, Info;
    l1 := Apply(l, env, locked, AddStake(a, delay, value));
    AccountOf(l, a, owed);
    AddStakeKeeps(l, a, delay, value, owed);
    StakeIsAddable(l, a, delay, value, owed);
    Pow2OneTwelve();
    AfterEvent(l.log, StakeLocked(a, delay, value), a);
  }

  lemma Unlocked(l: Ledger, env: Env, locked: bool, a: Address, owed: nat) returns (l1: Ledger)
    requires Inv(l, owed) && Status(l.log, a).Locked? && env.now + Declared(l.log, a) < UINT48
    ensures l1 == Apply(l, env, locked, UnlockStake(a)) && Inv(l1, owed)
    ensures Entered(l, l1, a, Info(l, a).(staked := false, withdrawTime := env.now + Declared(l.log, a)),
                    StakeUnlocked(a, env.now), 0)
    ensures Status(l1.log, a) == Unlocking(env.now) && Declared(l1.log, a) == Declared(l.log, a)
  {
    hide Inv, UnlockStakeResult, StakeIn, DepositIn, Status, Declared, Info;
    l1 := Apply(l, env, locked, UnlockStake(a));
    UnlockStakeKeeps(l, env, a, owed);
    StakeIsUnlockable(l, env, a, owed);
    AfterEvent(l.log, StakeUnlocked(a, env.now), a);
  }

  lemma Returned(l: Ledger, l1: Ledger, l2: Ledger, env: Env, locked: bool, a: Address, to: Address, delay: Uint32,
                 value: nat, unlockTime: nat, now: nat, owed: nat)
    requires Inv(l2, owed) && to != env.self && unlockTime + delay < UINT48 && unlockTime + delay <= now
    requires Info(l, a) == DepositInfo(Info(l, a).deposit, false, 0, 0, 0)
    requires Entered(l, l1, a, DepositInfo(Info(l, a).deposit, true, value, delay, 0), StakeLocked(a, delay, value),
                     value)
    requires Entered(l1, l2, a, Info(l1, a).(staked := false, withdrawTime := unlockTime + delay),
                     StakeUnlocked(a, unlockTime), 0)
    requires Status(l2.log, a) == Unlocking(unlockTime) && Declared(l2.log, a) == delay
    ensures SameMoney(l, Apply(l2, env.(now := now), locked, WithdrawStake(a, to, ACCEPT)))
  {
    hide Inv, WithdrawStakeResult, Status, Declared, Info;
    var released := StakeIsWithdrawable(l2, env.(now := now), locked, a, to, ACCEPT, owed);
    var l3 := Apply(l2, env.(now := now), locked, WithdrawStake(a, to, ACCEPT));
    assert l3 == released.(balance := released.balance - value);
    forall b: Address ensures Info(l3, b) == Info(l, b) {
      SameInfo(released, l3, b);
    }
  }

  // ----- the 48-bit time stamp -----

  predicate ReleasedAt(l: Ledger, env: Env, caller: Address, now: nat) {
    StakeReleased(l, env.(now := now), caller).Returned?
  }

  /**
   The time stamp is cut to 48 bits when the stake is unlocked, so the delay is enforced exactly
   when the block time fits in 48 bits.
   */
  lemma DelayIsEnforced(l: Ledger, env: Env, caller: Address, owed: nat)
    requires Inv(l, owed) && UnlockStakeResult(l, env, caller).Returned?
    ensures (forall now :: ReleasedAt(UnlockStakeResult(l, env, caller).value, env, caller, now)
                           ==> env.now + Info(l, caller).unstakeDelaySec <= now)
       <==> env.now < UINT48
  {
    hide Inv, Status, Declared, StakeIn, DepositIn;
    AccountOf(l, caller, owed);
    var l1 := UnlockStakeResult(l, env, caller).value;
    if env.now >= UINT48 {
      assert ReleasedAt(l1, env, caller, env.now);
    }
  }
}
