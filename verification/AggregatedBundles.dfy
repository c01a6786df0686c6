/** handleAggregatedOps against handleOps on the operations of all groups in one list. */
module AggregatedBundles {
  import opened Evm
  import opened Ledger
  import opened GasAccounting
  import opened EntryPointModel
  import opened OperationRules
  import opened LedgerInvariants
  import opened LedgerSafety
  import opened LedgerTheorems

  /** The operations of all groups, in order. */
  function AllRuns(groups: seq<Group>): (runs: seq<Run>)
    ensures |runs| == CountRuns(groups)
  {
    if groups == [] then [] else groups[0].runs + AllRuns(groups[1..])
  }

  // ----- one list in two parts -----

  lemma {:induction false} ExecuteInParts(l: Ledger, env: Env, runs: seq<Run>, more: seq<Run>,
          infos: seq<OpInfo>, base: nat, collected: Word)
    requires |infos| == |runs| + |more|
    ensures ExecuteAll(l, env, runs + more, infos, base, collected)
         == match ExecuteAll(l, env, runs, infos[..|runs|], base, collected)
            case Stopped(i, c) => Stopped(i, c)
            case Going(l1, sum) => ExecuteAll(l1, env, more, infos[|runs|..], base + |runs|, sum)
    decreases runs
  {
    hide ExecuteUserOp, Wrap;
    if runs == [] {
      assert runs + more == more;
      assert infos[|runs|..] == infos;
    } else {
      assert (runs + more)[1..] == runs[1..] + more;
      assert infos[..|runs|][1..] == infos[1..][..|runs[1..]|];
      assert infos[|runs|..] == infos[1..][|runs[1..]|..];
      match ExecuteUserOp(l, env, runs[0], infos[0])
      case Fail(_) =>
      case Pass((l1, cost)) =>
        ExecuteInParts(l1, env, runs[1..], more, infos[1..], base + 1, Wrap(collected + cost));
    }
  }

  /** Put the results for the first operations before those for the rest. */
  function After(infos: seq<OpInfo>, r: Phase<seq<OpInfo>>): Phase<seq<OpInfo>> {
    match r
    case Stopped(i, c) => Stopped(i, c)
    case Going(l, rest) => Going(l, infos + rest)
  }

  lemma {:induction false} ValidateInParts(l: Ledger, env: Env, aggregator: Address, runs: seq<Run>,
          more: seq<Run>, base: nat, local: nat)
    ensures ValidateAll(l, env, aggregator, runs + more, base, local)
         == match ValidateAll(l, env, aggregator, runs, base, local)
            case Stopped(i, c) => Stopped(i, c)
            case Going(l1, infos) =>
              After(infos, ValidateAll(l1, env, aggregator, more, base + |runs|, local + |runs|))
    decreases runs
  {
    hide ValidatePrepayment, ValidationDataCode;
    if runs == [] {
      assert runs + more == more;
      AfterNothing(ValidateAll(l, env, aggregator, more, base, local));
    } else {
      assert (runs + more)[1..] == runs[1..] + more;
      if ValidatePrepayment(l, env, runs[0]).Pass? {
        var (l1, info) := ValidatePrepayment(l, env, runs[0]).value;
        ValidateInParts(l1, env, aggregator, runs[1..], more, base + 1, local + 1);
        var r := ValidateAll(l1, env, aggregator, runs[1..], base + 1, local + 1);
        if r.Going? {
          AfterAfter([info], r.value, ValidateAll(r.ledger, env, aggregator, more, base + |runs|, local + |runs|));
        }
      }
    }
  }

  lemma AfterNothing(r: Phase<seq<OpInfo>>)
    ensures After([], r) == r
  {
    if r.Going? { assert [] + r.value == r.value; }
  }

  lemma AfterAfter(first: seq<OpInfo>, infos: seq<OpInfo>, r: Phase<seq<OpInfo>>)
    ensures After(first, After(infos, r)) == After(first + infos, r)
  {
    if r.Going? { assert first + (infos + r.value) == (first + infos) + r.value; }
  }

  // ----- the index reported with a failure -----

  /** Failures found in the validation data, which carry the index inside the group. */
  predicate InValidationData(c: Code) {
    c.AA22? || c.AA24? || c.AA32? || c.AA34?
  }

  lemma AccountCodes(l: Ledger, env: Env, run: Run, op: MemoryUserOp, prefund: Word)
    ensures var r := ValidateAccountPrepayment(l, env, run, op, prefund); r.Fail? ==> !InValidationData(r.code)
  {
    hide RunExternal;
    assert CreateSenderIfNeeded(l, env, run).Fail? ==> !InValidationData(CreateSenderIfNeeded(l, env, run).code);
  }

  lemma PaymasterCodes(l: Ledger, env: Env, run: Run, op: MemoryUserOp, prefund: Word)
    ensures var r := ValidatePaymasterPrepayment(l, env, run, op, prefund); r.Fail? ==> !InValidationData(r.code)
  {
    hide RunExternal;
  }

  lemma PrepaymentCodes(l: Ledger, env: Env, run: Run)
    ensures var r := ValidatePrepayment(l, env, run); r.Fail? ==> !InValidationData(r.code)
  {
    hide ValidateAccountPrepayment, ValidatePaymasterPrepayment, Wrap, RequiredPrefund, GasValuesFit;
    if CopyUserOpToMemory(run.op).Pass? {
      var op := CopyUserOpToMemory(run.op).value;
      var prefund := RequiredPrefund(op);
      AccountCodes(l, env, run, op, prefund);
      if ValidateAccountPrepayment(l, env, run, op, prefund).Pass? {
        var l1 := ValidateAccountPrepayment(l, env, run, op, prefund).value;
        if ValidateAndUpdateNonce(l1, op.sender, op.nonce).Pass? {
          PaymasterCodes(ValidateAndUpdateNonce(l1, op.sender, op.nonce).value, env, run, op, prefund);
        }
      }
    }
  }

  /** The same outcome, but for the index of failures in the validation data, which is less by offset. */
  predicate SameButIndex(r: Phase<seq<OpInfo>>, flat: Phase<seq<OpInfo>>, offset: int) {
    match r
    case Going(_, _) => r == flat
    case Stopped(i, c) =>
      flat.Stopped? && flat.code == c && flat.index == i + (if InValidationData(c) then offset else 0)
  }

  /** How many operations there are before the group of operation k. */
  function GroupStart(groups: seq<Group>, k: int): nat {
    if groups == [] || k < |groups[0].runs| then 0
    else |groups[0].runs| + GroupStart(groups[1..], k - |groups[0].runs|)
  }

  lemma {:induction false} LocalIndex(l: Ledger, env: Env, aggregator: Address, runs: seq<Run>, base: nat, local: nat)
    ensures var flat := ValidateAll(l, env, aggregator, runs, base, base);
            && SameButIndex(ValidateAll(l, env, aggregator, runs, base, local), flat, base - local)
            && (flat.Stopped? ==> base <= flat.index < base + |runs|)
    decreases runs
  {
    hide ValidatePrepayment, ValidationDataCode, InValidationData;
    if runs != [] {
      PrepaymentCodes(l, env, runs[0]);
      DataCodes(l, env, runs[0], aggregator);
      if ValidatePrepayment(l, env, runs[0]).Pass? {
        var l1 := ValidatePrepayment(l, env, runs[0]).value.0;
        LocalIndex(l1, env, aggregator, runs[1..], base + 1, local + 1);
      }
    }
  }

  lemma DataCodes(l: Ledger, env: Env, run: Run, aggregator: Address)
    ensures var r := ValidatePrepayment(l, env, run);
            r.Pass? && ValidationDataCode(env, run, r.value.1, aggregator).Fail? ==>
              InValidationData(ValidationDataCode(env, run, r.value.1, aggregator).code)
  {
    hide ValidatePrepayment, GetValidationData;
  }

  // ----- groups against one list -----

  predicate NoAggregators(groups: seq<Group>) {
    forall i :: 0 <= i < |groups| ==> groups[i].aggregator == NO_ADDRESS
  }

  lemma {:induction false} NoSignatureChecks(l: Ledger, env: Env, groups: seq<Group>)
    requires NoAggregators(groups)
    ensures CheckSignatures(l, env, groups) == Going(l, ())
  {
    if groups != [] { NoSignatureChecks(l, env, groups[1..]); }
  }

  lemma {:induction false} ValidateGroupsAsList(l: Ledger, env: Env, groups: seq<Group>, base: nat)
    requires NoAggregators(groups)
    ensures var flat := ValidateAll(l, env, NO_ADDRESS, AllRuns(groups), base, base);
            && SameButIndex(ValidateGroups(l, env, groups, base), flat,
                            if flat.Stopped? then base + GroupStart(groups, flat.index - base) else 0)
            && (flat.Stopped? ==> base <= flat.index < base + CountRuns(groups))
    decreases groups
  {
    hide ValidateAll, InValidationData;
    if groups == [] {
      NothingToValidate(l, env, base);
    } else {
      var runs, base1 := groups[0].runs, base + |groups[0].runs|;
      LocalIndex(l, env, NO_ADDRESS, runs, base, 0);
      ValidateInParts(l, env, NO_ADDRESS, runs, AllRuns(groups[1..]), base, base);
      var r1 := ValidateAll(l, env, NO_ADDRESS, runs, base, 0);
      if r1.Going? {
        ValidateGroupsAsList(r1.ledger, env, groups[1..], base1);
      }
    }
  }

  lemma NothingToValidate(l: Ledger, env: Env, base: nat)
    ensures ValidateAll(l, env, NO_ADDRESS, [], base, base) == Going(l, [])
  {
  }

  /** However the operations are grouped, they are executed as one list, each with its own info. */
  lemma {:induction false} ExecuteGroupsAsList(l: Ledger, env: Env, groups: seq<Group>, infos: seq<OpInfo>,
          base: nat, collected: Word)
    requires |infos| == CountRuns(groups)
    ensures ExecuteGroups(l, env, groups, infos, base, collected)
         == ExecuteAll(l, env, AllRuns(groups), infos, base, collected)
    decreases groups
  {
    hide ExecuteUserOp;
    if groups != [] {
      hide ExecuteAll;
      var k := |groups[0].runs|;
      ExecuteInParts(l, env, groups[0].runs, AllRuns(groups[1..]), infos, base, collected);
      var r1 := ExecuteAll(l, env, groups[0].runs, infos[..k], base, collected);
      if r1.Going? {
        ExecuteGroupsAsList(r1.ledger, env, groups[1..], infos[k..], base + k, r1.value);
      }
    }
  }

  /** Validation fills the info at each position of the list from the operation at that position. */
  lemma {:induction false} ValidateGroupsFills(l: Ledger, env: Env, groups: seq<Group>, base: nat)
    ensures var r := ValidateGroups(l, env, groups, base);
            r.Going? ==> AllFilled(r.value, AllRuns(groups))
    decreases groups
  {
    hide ValidateAll, FilledFrom;
    if groups != [] && ValidateGroups(l, env, groups, base).Going? {
      ValidateAllFills(l, env, groups[0].aggregator, groups[0].runs, base, 0);
      var r1 := ValidateAll(l, env, groups[0].aggregator, groups[0].runs, base, 0);
      ValidateGroupsFills(r1.ledger, env, groups[1..], base + |groups[0].runs|);
    }
  }

  // ----- whole bundles -----

  /** The plain bundle with the same operations, answers, readings and beneficiary. */
  function Flattened(step: Step): Step
    requires step.HandleAggregatedOps?
  {
    HandleOps(AllRuns(step.groups), step.beneficiary, step.payout)
  }

  /**
   Without aggregators a grouped bundle does what the plain bundle does: the same final ledger, or
   the same failure. Failures in the validation data are reported with the index inside the group,
   all others with the index in the whole list.
   */
  lemma GroupingIsIrrelevant(l: Ledger, env: Env, locked: bool, step: Step)
    requires step.HandleAggregatedOps? && NoAggregators(step.groups)
    ensures var r, flat := HandleAggregatedOpsResult(l, env, locked, step), HandleOpsResult(l, env, locked,
            Flattened(step));
            match r
            case Done(_) => flat == r
            case Aborted(i, c) =>
              && flat.Aborted? && flat.code == c
              && flat.index == i + (if InValidationData(c) then GroupStart(step.groups, flat.index) else 0)
    ensures Apply(l, env, locked, step) == Apply(l, env, locked, Flattened(step))
  {
    hide CheckSignatures, ValidateGroups, ExecuteGroups, ValidateAll, ExecuteAll, Pay;
    NoSignatureChecks(l, env, step.groups);
    ValidateGroupsAsList(l, env, step.groups, 0);
    var v := ValidateGroups(l, env, step.groups, 0);
    if v.Going? {
      ExecuteGroupsAsList(v.ledger, env, step.groups, v.value, 0, 0);
      ExecutionCodes(v.ledger, env, AllRuns(step.groups), v.value, 0, 0);
    }
  }

  lemma {:induction false} ExecutionCodes(l: Ledger, env: Env, runs: seq<Run>, infos: seq<OpInfo>, base: nat,
          collected: Word)
    requires |runs| == |infos|
    ensures var r := ExecuteAll(l, env, runs, infos, base, collected); r.Stopped? ==> !InValidationData(r.code)
    decreases runs
  {
    hide InnerHandleOp, PostExecution, Wrap;
    if runs != [] && ExecuteUserOp(l, env, runs[0], infos[0]).Pass? {
      var (l1, cost) := ExecuteUserOp(l, env, runs[0], infos[0]).value;
      ExecutionCodes(l1, env, runs[1..], infos[1..], base + 1, Wrap(collected + cost));
    }
  }

  lemma {:induction false} ValidateGroupsUsesNonces(l: Ledger, env: Env, groups: seq<Group>, base: nat, owed: nat)
    requires Inv(l, owed)
    ensures var r := ValidateGroups(l, env, groups, base);
            r.Going? ==> AllNew(l.log, r.ledger.log, AllRuns(groups))
    decreases groups
  {
    hide Inv, ValidateAll, Acceptance;
    if groups != [] && ValidateGroups(l, env, groups, base).Going? {
      ValidateAllUsesNonces(l, env, groups[0].aggregator, groups[0].runs, base, 0, owed);
      ValidateAllAdvances(l, env, groups[0].aggregator, groups[0].runs, base, 0, owed);
      var r1 := ValidateAll(l, env, groups[0].aggregator, groups[0].runs, base, 0);
      var base1, owed1 := base + |groups[0].runs|, owed + Prefunds(r1.value);
      ValidateGroupsUsesNonces(r1.ledger, env, groups[1..], base1, owed1);
      ValidateGroupsAdvances(r1.ledger, env, groups[1..], base1, owed1);
      AllNewConcat(l.log, r1.ledger.log, ValidateGroups(l, env, groups, base).ledger.log,
                   groups[0].runs, AllRuns(groups[1..]));
    }
  }

  /** A grouped bundle, too, takes every nonce once, and pays the beneficiary exactly what was collected. */
  lemma AggregatedBundleIsSafe(l: Ledger, env: Env, step: Step, owed: nat)
    requires Inv(l, owed) && step.HandleAggregatedOps?
    requires HandleAggregatedOpsResult(l, env, false, step).Done?
    ensures var l0 := CheckSignatures(l, env, step.groups).ledger;
            var v := ValidateGroups(l0, env, step.groups, 0);
            var runs := AllRuns(step.groups);
            var fees := Fees(runs, env.basefee);
            var e := ExecuteAll(v.ledger, env, runs, v.value, 0, 0);
            var l' := HandleAggregatedOpsResult(l, env, false, step).ledger;
            && AllFilled(v.value, runs)
            && AllNew(l.log, l'.log, runs)
            && e.Going? && Sum(fees) < TWO_TO_256
            && PaidOut(e.ledger, l', env, true, step.beneficiary, Sum(fees), step.payout)
  {
    hide Inv, CheckSignatures, ValidateGroups, ExecuteGroups, ExecuteAll, Costs, Fees, Sum, AllNew,
      FilledFrom, ShortOfGas, LacksGas;
    CheckSignaturesAdvances(l, env, step.groups, owed);
    var l0 := CheckSignatures(l, env, step.groups).ledger;
    ValidateGroupsFills(l0, env, step.groups, 0);
    ValidateGroupsAdvances(l0, env, step.groups, 0, owed);
    ValidateGroupsUsesNonces(l0, env, step.groups, 0, owed);
    var v := ValidateGroups(l0, env, step.groups, 0);
    ExecuteGroupsAsList(v.ledger, env, step.groups, v.value, 0, 0);
    ExecuteAllAdvances(v.ledger, env, AllRuns(step.groups), v.value, 0, 0, owed);
    LacksGasIsShort(v.value, AllRuns(step.groups));
    CostsAreFees(v.ledger, env, AllRuns(step.groups), v.value, owed);
    var e := ExecuteAll(v.ledger, env, AllRuns(step.groups), v.value, 0, 0);
    CompensateAdvances(e.ledger, env, step.beneficiary, e.value, step.payout, owed);
    var l' := HandleAggregatedOpsResult(l, env, false, step).ledger;
    AllNewLater(l0.log, v.ledger.log, l'.log, AllRuns(step.groups));
    NewBefore(l.log, l0.log, l'.log, AllRuns(step.groups));
  }

  lemma NewBefore(log: seq<Event>, log0: seq<Event>, log': seq<Event>, runs: seq<Run>)
    requires log <= log0 && AllNew(log0, log', runs)
    ensures AllNew(log, log', runs)
  {
    forall i | 0 <= i < |runs| ensures Acceptance(runs[i].op) !in log {
      if Acceptance(runs[i].op) in log { InPrefix(log, log0, Acceptance(runs[i].op)); }
    }
  }
}
