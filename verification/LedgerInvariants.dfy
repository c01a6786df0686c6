/** What holds of the ledger in every reachable state, and how the single updates of it keep that. */
module LedgerInvariants {
  import opened Evm
  import opened Ledger
  import opened EntryPointModel

  // ----- solvency -----

  /** The ether held covers all deposits and stakes, what is owed beyond them, and what was forced in. */
  ghost predicate Solvent(l: Ledger, owed: nat) {
    l.balance == Total(l.deposits) + owed + l.forced && l.balance < TWO_TO_256
  }

  // ----- nonces -----

  /** Both events accept a nonce of the same account and key. */
  predicate SameSequence(e: Event, f: Event) {
    e.NonceAccepted? && f.NonceAccepted? && e.account == f.account && e.key == f.key
  }

  /** The number is used up. */
  predicate UsedUp(l: Ledger, e: Event) {
    e.NonceAccepted? ==> e.seqNumber < NextSeq(l, e.account, e.key)
  }

  /** Accepted sequence numbers of one account and key increase, and stay below the next one. */
  ghost predicate NoncesIncrease(l: Ledger) {
    && (forall i :: 0 <= i < |l.log| ==> UsedUp(l, l.log[i]))
    && (forall i, j :: 0 <= i < j < |l.log| && SameSequence(l.log[i], l.log[j]) ==>
          l.log[i].seqNumber < l.log[j].seqNumber)
  }

  // ----- stakes -----

  /** The event is about the stake of the account. */
  predicate StakeEvent(e: Event, a: Address) {
    (e.StakeLocked? || e.StakeUnlocked? || e.StakeWithdrawn?) && e.account == a
  }

  datatype StakeStatus = NoStake | Locked | Unlocking(time: nat)

  /** Where the stake of an account stands after the events of a log. */
  function Status(log: seq<Event>, a: Address): StakeStatus {
    if log == [] then NoStake
    else
      var e := log[|log| - 1];
      if !StakeEvent(e, a) then Status(log[..|log| - 1], a)
      else match e
        case StakeLocked(_, _, _) => Locked
        case StakeUnlocked(_, time) => Unlocking(time)
        case _ => NoStake
  }

  /** The greatest delay an account declared since its last withdrawal. */
  function Declared(log: seq<Event>, a: Address): nat {
    if log == [] then 0
    else
      var e := log[|log| - 1];
      var before := Declared(log[..|log| - 1], a);
      if !StakeEvent(e, a) then before
      else match e
        case StakeLocked(_, delay, _) => if delay > before then delay else before
        case StakeWithdrawn(_, _, _, _) => 0
        case _ => before
  }

  // ----- amounts -----

  /** What the event adds to the stake of the account. */
  function StakeChange(e: Event, a: Address): int {
    if e.account != a then 0
    else match e
      case StakeLocked(_, _, amount) => amount
      case StakeWithdrawn(_, _, _, amount) => -(amount as int)
      case _ => 0
  }

  /** What the event adds to the deposit of the account. */
  function DepositChange(e: Event, a: Address): int {
    if e.account != a then 0
    else match e
      case Deposited(_, amount) => amount
      case Refunded(_, amount) => amount
      case Withdrawn(_, amount) => -(amount as int)
      case Charged(_, amount) => -(amount as int)
      case _ => 0
  }

  /** What the events of a log locked as stake of the account, less what they withdrew. */
  function StakeIn(log: seq<Event>, a: Address): int {
    if log == [] then 0 else StakeIn(log[..|log| - 1], a) + StakeChange(log[|log| - 1], a)
  }

  /** What the events of a log sent and refunded to the account, less what it withdrew and was charged. */
  function DepositIn(log: seq<Event>, a: Address): int {
    if log == [] then 0 else DepositIn(log[..|log| - 1], a) + DepositChange(log[|log| - 1], a)
  }

  /** What the deposit information of an account says, given where its stake stands. */
  predicate StakeMatches(info: DepositInfo, status: StakeStatus, declared: nat) {
    && info.unstakeDelaySec == declared
    && match status
       case NoStake => !info.staked && info.stake == 0 && info.withdrawTime == 0 && declared == 0
       case Locked => info.staked && 0 < info.stake <= MAX_UINT112 && info.withdrawTime == 0 && declared > 0
       case Unlocking(time) =>
         && !info.staked && 0 < info.stake <= MAX_UINT112 && declared > 0
         && info.withdrawTime == time % UINT48 + declared
  }

  /** The deposit information of the account is what the events of the log make it, amounts included. */
  predicate AccountMatches(info: DepositInfo, log: seq<Event>, a: Address) {
    && info.deposit == DepositIn(log, a)
    && info.stake == StakeIn(log, a)
    && StakeMatches(info, Status(log, a), Declared(log, a))
  }

  /** A withdrawal of the stake takes all of it, when it is unlocking and its delay is over. */
  predicate WithdrawalDue(log: seq<Event>, i: nat)
    requires i < |log|
  {
    log[i].StakeWithdrawn? ==>
      var status := Status(log[..i], log[i].account);
      && log[i].amount == StakeIn(log[..i], log[i].account) > 0
      && log[i].delay == Declared(log[..i], log[i].account) > 0
      && status.Unlocking? && status.time % UINT48 + log[i].delay <= log[i].time
  }

  ghost predicate AccountsMatch(l: Ledger) {
    && (forall a: Address :: AccountMatches(Info(l, a), l.log, a))
    && (forall i :: 0 <= i < |l.log| ==> WithdrawalDue(l.log, i))
  }

  // ----- the whole invariant -----

  /** owed is what the contract holds for others outside deposits and stakes: prefunds and collected fees. */
  ghost predicate Inv(l: Ledger, owed: nat) {
    Solvent(l, owed) && NoncesIncrease(l) && AccountsMatch(l)
  }

  /** The invariant, and no event lost. */
  ghost predicate Advances(l: Ledger, l': Ledger, owed: nat) {
    Inv(l', owed) && l.log <= l'.log
  }

  lemma EmptyLedger(l: Ledger)
    requires l.deposits == map[] && l.log == [] && l.balance == l.forced == 0
    ensures Inv(l, 0)
  {
    hide AccountMatches, Total;
    NothingDeposited();
    forall a: Address ensures AccountMatches(Info(l, a), l.log, a) {
      NothingRecorded(a);
    }
  }

  lemma NothingDeposited()
    ensures Total(map[]) == 0
  {
  }

  lemma NothingRecorded(a: Address)
    ensures AccountMatches(NO_DEPOSIT, [], a)
  {
  }

  // ----- updates that leave all accounts alone -----

  lemma KeepsAccounts(l: Ledger, l': Ledger)
    requires AccountsMatch(l) && l.log == l'.log && l.deposits == l'.deposits
    ensures AccountsMatch(l')
  {
    hide AccountMatches, WithdrawalDue;
    forall a: Address ensures AccountMatches(Info(l', a), l'.log, a) {
      assert AccountMatches(Info(l, a), l.log, a);
    }
  }

  lemma KeepsNonces(l: Ledger, l': Ledger)
    requires NoncesIncrease(l) && l.log == l'.log && l.nonces == l'.nonces
    ensures NoncesIncrease(l')
  {
    assert forall i :: 0 <= i < |l.log| ==> UsedUp(l, l.log[i]) == UsedUp(l', l.log[i]);
  }

  lemma BalanceKeeps(l: Ledger, balance: nat, forced: nat, owed: nat, owed': nat)
    requires Inv(l, owed) && balance + owed + l.forced == l.balance + owed' + forced && balance < TWO_TO_256
    ensures Inv(l.(balance := balance, forced := forced), owed')
  {
    hide AccountsMatch, NoncesIncrease, Total;
    var l' := l.(balance := balance, forced := forced);
    KeepsAccounts(l, l');
    KeepsNonces(l, l');
  }

  lemma Received(l: Ledger, value: nat, owed: nat)
    requires Inv(l, owed) && l.balance + value < TWO_TO_256
    ensures Inv(l.(balance := l.balance + value), owed + value)
  {
    BalanceKeeps(l, l.balance + value, l.forced, owed, owed + value);
  }

  lemma ForceEtherKeeps(l: Ledger, value: nat, owed: nat)
    requires Inv(l, owed)
    ensures Advances(l, Committed(l, ForceEtherResult(l, value)), owed)
  {
    hide Total, NoncesIncrease, AccountsMatch;
    if l.balance + value < TWO_TO_256 {
      BalanceKeeps(l, l.balance + value, l.forced + value, owed, owed);
    }
  }

  // ----- recording events -----

  lemma RecordKeepsWithdrawals(log: seq<Event>, e: Event)
    requires forall i :: 0 <= i < |log| ==> WithdrawalDue(log, i)
    requires WithdrawalDue(log + [e], |log|)
    ensures forall i :: 0 <= i < |log + [e]| ==> WithdrawalDue(log + [e], i)
  {
    var log' := log + [e];
    forall i | 0 <= i < |log'| ensures WithdrawalDue(log', i) {
      if i < |log| {
        assert WithdrawalDue(log, i);
        assert log'[..i] == log[..i];
      }
    }
  }

  lemma RecordKeepsNonces(l: Ledger, e: Event)
    requires NoncesIncrease(l) && !e.NonceAccepted?
    ensures NoncesIncrease(Record(l, e))
  {
    var l' := Record(l, e);
    forall i | 0 <= i < |l'.log| ensures UsedUp(l', l'.log[i]) {
      if i < |l.log| { assert UsedUp(l, l.log[i]); }
    }
  }

  /** One more event, as each account sees it. */
  lemma AfterEvent(log: seq<Event>, e: Event, a: Address)
    ensures DepositIn(log + [e], a) == DepositIn(log, a) + DepositChange(e, a)
    ensures StakeIn(log + [e], a) == StakeIn(log, a) + StakeChange(e, a)
    ensures Status(log + [e], a) == if !StakeEvent(e, a) then Status(log, a) else match e
              case StakeLocked(_, _, _) => Locked
              case StakeUnlocked(_, time) => Unlocking(time)
              case _ => NoStake
    ensures Declared(log + [e], a) == if !StakeEvent(e, a) then Declared(log, a) else match e
              case StakeLocked(_, delay, _) => if delay > Declared(log, a) then delay else Declared(log, a)
              case StakeWithdrawn(_, _, _, _) => 0
              case _ => Declared(log, a)
  {
    assert (log + [e])[..|log|] == log;
  }

  /** An event with the update of its account; all other accounts still match. */
  lemma EventKeepsAccounts(l: Ledger, info: DepositInfo, e: Event)
    requires AccountsMatch(l)
    requires WithdrawalDue(l.log + [e], |l.log|)
    requires AccountMatches(info, l.log + [e], e.account)
    ensures AccountsMatch(Record(SetInfo(l, e.account, info), e))
  {
    var l' := Record(SetInfo(l, e.account, info), e);
    forall b: Address ensures AccountMatches(Info(l', b), l'.log, b) {
      OtherAccount(l, info, e, b);
    }
    RecordKeepsWithdrawals(l.log, e);
  }

  lemma OtherAccount(l: Ledger, info: DepositInfo, e: Event, b: Address)
    requires AccountMatches(Info(l, b), l.log, b)
    requires AccountMatches(info, l.log + [e], e.account)
    ensures AccountMatches(Info(Record(SetInfo(l, e.account, info), e), b), l.log + [e], b)
  {
    hide Status, Declared, StakeIn, DepositIn;
    AfterEvent(l.log, e, b);
  }

  lemma AccountOf(l: Ledger, a: Address, owed: nat)
    requires Inv(l, owed)
    ensures AccountMatches(Info(l, a), l.log, a)
  {
  }

  lemma EventKeeps(l: Ledger, info: DepositInfo, e: Event, owed: nat, owed': nat)
    requires Inv(l, owed) && !e.NonceAccepted?
    requires owed' + info.deposit + info.stake == owed + Info(l, e.account).deposit + Info(l, e.account).stake
    requires WithdrawalDue(l.log + [e], |l.log|)
    requires AccountMatches(info, l.log + [e], e.account)
    ensures Inv(Record(SetInfo(l, e.account, info), e), owed')
  {
    hide Total, AccountsMatch, NoncesIncrease, AccountMatches, WithdrawalDue;
    EventKeepsAccounts(l, info, e);
    TotalSetInfo(l, e.account, info);
    KeepsNonces(l, SetInfo(l, e.account, info));
    RecordKeepsNonces(SetInfo(l, e.account, info), e);
  }

  // ----- updates of deposits -----

  lemma NoWithdrawal(log: seq<Event>, e: Event)
    requires !e.StakeWithdrawn?
    ensures WithdrawalDue(log + [e], |log|)
  {
  }

  lemma DepositMatches(l: Ledger, deposit: nat, e: Event, owed: nat)
    requires Inv(l, owed) && !StakeEvent(e, e.account)
    requires deposit == Info(l, e.account).deposit + DepositChange(e, e.account)
    ensures AccountMatches(Info(l, e.account).(deposit := deposit), l.log + [e], e.account)
  {
    hide Inv, Status, Declared, StakeIn, DepositIn;
    AccountOf(l, e.account, owed);
    AfterEvent(l.log, e, e.account);
  }

  lemma DepositEventKeeps(l: Ledger, deposit: nat, e: Event, owed: nat, owed': nat)
    requires Inv(l, owed) && !e.NonceAccepted? && !StakeEvent(e, e.account)
    requires deposit == Info(l, e.account).deposit + DepositChange(e, e.account)
    requires owed' + deposit == owed + Info(l, e.account).deposit
    ensures Inv(Record(SetInfo(l, e.account, Info(l, e.account).(deposit := deposit)), e), owed')
  {
    hide Inv, AccountMatches, WithdrawalDue, DepositChange;
    DepositMatches(l, deposit, e, owed);
    NoWithdrawal(l.log, e);
    EventKeeps(l, Info(l, e.account).(deposit := deposit), e, owed, owed');
  }

  lemma FitsBalance(l: Ledger, a: Address, amount: nat, owed: nat)
    requires Inv(l, owed + amount)
    ensures Info(l, a).deposit + amount < TWO_TO_256
  {
    hide Total, NoncesIncrease, AccountsMatch;
    WorthBound(l, a);
  }

  /** Money owed can always be credited, to the account the event names: no deposit overflows. */
  lemma CreditKeeps(l: Ledger, a: Address, amount: nat, e: Event, owed: nat)
    requires Inv(l, owed + amount) && (e == Deposited(a, amount) || e == Refunded(a, amount))
    ensures Credit(l, a, amount, e).Returned?
    ensures Advances(l, Credit(l, a, amount, e).value, owed)
    ensures Credit(l, a, amount, e).value.log == l.log + [e]
  {
    hide Inv;
    FitsBalance(l, a, amount, owed);
    DepositEventKeeps(l, Info(l, a).deposit + amount, e, owed + amount, owed);
  }

  /** Ether sent goes to the account named, and to no other. */
  lemma DepositToKeeps(l: Ledger, account: Address, value: nat, owed: nat)
    requires Inv(l, owed)
    ensures Advances(l, Committed(l, DepositToResult(l, account, value)), owed)
    ensures DepositToResult(l, account, value).Returned? <==> l.balance + value < TWO_TO_256
    ensures DepositToResult(l, account, value).Returned? ==>
              var l' := DepositToResult(l, account, value).value;
              && l'.log == l.log + [Deposited(account, value)] && l'.balance == l.balance + value
              && Info(l', account) == Info(l, account).(deposit := Info(l, account).deposit + value)
              && forall b: Address :: b != account ==> Info(l', b) == Info(l, b)
  {
    hide Inv;
    if l.balance + value < TWO_TO_256 {
      Received(l, value, owed);
      CreditKeeps(l.(balance := l.balance + value), account, value, Deposited(account, value), owed);
    }
  }

  lemma TakePrefundKeeps(l: Ledger, payer: Address, prefund: nat, code: Code, owed: nat)
    requires Inv(l, owed)
    ensures TakePrefund(l, payer, prefund, code).Pass? ==>
              && Advances(l, TakePrefund(l, payer, prefund, code).value, owed + prefund)
              && TakePrefund(l, payer, prefund, code).value.log == l.log + [Charged(payer, prefund)]
  {
    hide Inv;
    if prefund <= Info(l, payer).deposit {
      DepositEventKeeps(l, Info(l, payer).deposit - prefund, Charged(payer, prefund), owed, owed + prefund);
    }
  }

  lemma DepositReleasedKeeps(l: Ledger, caller: Address, amount: nat, owed: nat)
    requires Inv(l, owed)
    ensures DepositReleased(l, caller, amount).Returned? ==>
              && Advances(l, DepositReleased(l, caller, amount).value, owed + amount)
              && DepositReleased(l, caller, amount).value.log == l.log + [Withdrawn(caller, amount)]
  {
    hide Inv;
    if amount <= Info(l, caller).deposit {
      DepositEventKeeps(l, Info(l, caller).deposit - amount, Withdrawn(caller, amount), owed, owed + amount);
    }
  }

  // ----- updates of nonces -----

  lemma SetNextSeqKeeps(l: Ledger, a: Address, key: Uint192, n: nat, owed: nat)
    requires Inv(l, owed) && NextSeq(l, a, key) <= n
    ensures Inv(SetNextSeq(l, a, key, n), owed)
  {
    hide AccountsMatch, Total;
    var l' := SetNextSeq(l, a, key, n);
    forall i | 0 <= i < |l'.log| ensures UsedUp(l', l'.log[i]) {
      assert UsedUp(l, l.log[i]);
    }
    KeepsAccounts(l, l');
  }

  lemma NonceEventKeepsAccounts(l: Ledger, e: Event)
    requires AccountsMatch(l) && e.NonceAccepted?
    ensures AccountsMatch(Record(l, e))
  {
    hide Status, Declared, StakeIn, DepositIn;
    var l' := Record(l, e);
    forall b: Address ensures AccountMatches(Info(l', b), l'.log, b) {
      assert AccountMatches(Info(l, b), l.log, b);
      AfterEvent(l.log, e, b);
    }
    RecordKeepsWithdrawals(l.log, e);
  }

  lemma NonceAcceptedKeeps(l: Ledger, a: Address, key: Uint192, owed: nat)
    requires Inv(l, owed)
    ensures var n := NextSeq(l, a, key);
            Advances(l, Record(SetNextSeq(l, a, key, n + 1), NonceAccepted(a, key, n)), owed)
  {
    hide AccountsMatch, Total;
    var n := NextSeq(l, a, key);
    var l1 := SetNextSeq(l, a, key, n + 1);
    SetNextSeqKeeps(l, a, key, n + 1, owed);
    var l2 := Record(l1, NonceAccepted(a, key, n));
    NonceEventKeepsAccounts(l1, NonceAccepted(a, key, n));
    forall i | 0 <= i < |l2.log| ensures UsedUp(l2, l2.log[i]) {
      if i < |l1.log| { assert UsedUp(l1, l1.log[i]); }
    }
    forall i, j | 0 <= i < j < |l2.log| && SameSequence(l2.log[i], l2.log[j])
      ensures l2.log[i].seqNumber < l2.log[j].seqNumber
    {
      assert UsedUp(l, l.log[i]);
    }
  }

  lemma ValidateAndUpdateNonceKeeps(l: Ledger, sender: Address, nonce: Word, owed: nat)
    requires Inv(l, owed)
    ensures ValidateAndUpdateNonce(l, sender, nonce).Pass? ==>
              Advances(l, ValidateAndUpdateNonce(l, sender, nonce).value, owed)
  {
    hide Inv;
    NonceAcceptedKeeps(l, sender, KeyOf(nonce), owed);
  }

  lemma IncrementNonceKeeps(l: Ledger, caller: Address, key: Uint192, owed: nat)
    requires Inv(l, owed)
    ensures Advances(l, Committed(l, IncrementNonceResult(l, caller, key)), owed)
  {
    hide Inv;
    SetNextSeqKeeps(l, caller, key, NextSeq(l, caller, key) + 1, owed);
  }

  // ----- updates of stakes -----

  lemma LockedMatches(l: Ledger, caller: Address, delay: Uint32, value: nat, owed: nat)
    requires Inv(l, owed) && AddStakeResult(l, caller, delay, value).Returned?
    ensures AccountMatches(DepositInfo(Info(l, caller).deposit, true, Info(l, caller).stake + value, delay, 0),
                           l.log + [StakeLocked(caller, delay, value)], caller)
  {
    hide Inv, Status, Declared, StakeIn, DepositIn;
    AfterEvent(l.log, StakeLocked(caller, delay, value), caller);
    AccountOf(l, caller, owed);
  }

  /** A locked stake grows by the value sent, and the deposit does not change. */
  lemma AddStakeKeeps(l: Ledger, caller: Address, delay: Uint32, value: nat, owed: nat)
    requires Inv(l, owed)
    ensures Advances(l, Committed(l, AddStakeResult(l, caller, delay, value)), owed)
    ensures AddStakeResult(l, caller, delay, value).Returned? ==>
              var l' := AddStakeResult(l, caller, delay, value).value;
              && l'.log == l.log + [StakeLocked(caller, delay, value)]
              && Info(l', caller).stake == Info(l, caller).stake + value
              && Info(l', caller).deposit == Info(l, caller).deposit
  {
    hide Inv, AccountMatches, WithdrawalDue;
    if AddStakeResult(l, caller, delay, value).Returned? {
      Received(l, value, owed);
      var l1 := l.(balance := l.balance + value);
      var info := DepositInfo(Info(l, caller).deposit, true, Info(l, caller).stake + value, delay, 0);
      LockedMatches(l, caller, delay, value, owed);
      NoWithdrawal(l.log, StakeLocked(caller, delay, value));
      EventKeeps(l1, info, StakeLocked(caller, delay, value), owed + value, owed);
    }
  }

  /** Unlocking moves no money. */
  lemma UnlockStakeKeeps(l: Ledger, env: Env, caller: Address, owed: nat)
    requires Inv(l, owed)
    ensures Advances(l, Committed(l, UnlockStakeResult(l, env, caller)), owed)
    ensures UnlockStakeResult(l, env, caller).Returned? ==>
              var l' := UnlockStakeResult(l, env, caller).value;
              && l'.log == l.log + [StakeUnlocked(caller, env.now)]
              && Info(l', caller).stake == Info(l, caller).stake
              && Info(l', caller).deposit == Info(l, caller).deposit
  {
    hide Inv, Status, Declared, StakeIn, DepositIn;
    if UnlockStakeResult(l, env, caller).Returned? {
      var was := Info(l, caller);
      var info := was.(withdrawTime := env.now % UINT48 + was.unstakeDelaySec, staked := false);
      var e := StakeUnlocked(caller, env.now);
      AfterEvent(l.log, e, caller);
      AccountOf(l, caller, owed);
      EventKeeps(l, info, e, owed, owed);
    }
  }

  lemma StakeReleasedKeeps(l: Ledger, env: Env, caller: Address, owed: nat)
    requires Inv(l, owed)
    ensures StakeReleased(l, env, caller).Returned? ==>
              var was := Info(l, caller);
              && Advances(l, StakeReleased(l, env, caller).value, owed + was.stake)
              && StakeReleased(l, env, caller).value.log
                 == l.log + [StakeWithdrawn(caller, env.now, was.unstakeDelaySec, was.stake)]
  {
    hide Inv, Status, Declared, StakeIn, DepositIn;
    if StakeReleased(l, env, caller).Returned? {
      var was := Info(l, caller);
      var info := was.(unstakeDelaySec := 0, withdrawTime := 0, stake := 0);
      var e := StakeWithdrawn(caller, env.now, was.unstakeDelaySec, was.stake);
      AfterEvent(l.log, e, caller);
      AccountOf(l, caller, owed);
      assert (l.log + [e])[..|l.log|] == l.log;
      EventKeeps(l, info, e, owed, owed + was.stake);
    }
  }
}
