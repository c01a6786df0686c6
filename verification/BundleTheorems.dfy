/**
 What becomes of a whole bundle, with or without aggregators: the ledgers it goes through, and how
 it ends, in terms of the operations as submitted.
 */
module BundleTheorems {
  import opened Evm
  import opened Ledger
  import opened GasAccounting
  import opened EntryPointModel
  import opened OperationRules
  import opened LedgerInvariants
  import opened LedgerSafety
  import opened LedgerTheorems
  import opened ValidationTheorems
  import opened AggregatedBundles

  // ----- the lock -----

  predicate IsBundle(step: Step) {
    step.HandleOps? || step.HandleAggregatedOps?
  }

  function WithoutBundles(steps: seq<Step>): seq<Step> {
    if steps == [] then []
    else (if IsBundle(steps[0]) then [] else [steps[0]]) + WithoutBundles(steps[1..])
  }

  /** A bundle that arrives while another is handled is refused, and calls back do what they do without it. */
  lemma {:induction false} LockedBundlesHaveNoEffect(l: Ledger, env: Env, steps: seq<Step>)
    ensures forall step: Step :: step.HandleOps? ==> HandleOpsResult(l, env, true, step) == Aborted(0, Reentrant)
    ensures forall step: Step :: step.HandleAggregatedOps? ==>
                                   HandleAggregatedOpsResult(l, env, true, step) == Aborted(0, Reentrant)
    ensures ApplyAll(l, env, true, steps) == ApplyAll(l, env, true, WithoutBundles(steps))
    decreases steps
  {
    if steps != [] {
      LockedBundlesHaveNoEffect(Apply(l, env, true, steps[0]), env, steps[1..]);
      if IsBundle(steps[0]) {
        assert Apply(l, env, true, steps[0]) == l;
        assert WithoutBundles(steps) == WithoutBundles(steps[1..]);
      } else {
        hide Apply;
        assert WithoutBundles(steps)[1..] == WithoutBundles(steps[1..]);
      }
    }
  }

  // ----- the signature checks -----

  function SignatureRules(groups: seq<Group>): seq<Rule> {
    if groups == [] then []
    else
      [Rule(groups[0].aggregator == 1, AA96),
       Rule(groups[0].aggregator != NO_ADDRESS && !groups[0].signature.ok, SignatureValidationFailed)]
      + SignatureRules(groups[1..])
  }

  /** Everything the aggregators do while they check. */
  function SignatureSteps(groups: seq<Group>): seq<Step> {
    if groups == [] then []
    else (if groups[0].aggregator != NO_ADDRESS then groups[0].signature.steps else []) + SignatureSteps(groups[1..])
  }

  lemma {:induction false} ApplyAllConcat(l: Ledger, env: Env, locked: bool, steps: seq<Step>, more: seq<Step>)
    ensures ApplyAll(l, env, locked, steps + more) == ApplyAll(ApplyAll(l, env, locked, steps), env, locked, more)
    decreases steps
  {
    if steps == [] {
      assert steps + more == more;
    } else {
      hide Apply;
      assert (steps + more)[1..] == steps[1..] + more;
      ApplyAllConcat(Apply(l, env, locked, steps[0]), env, locked, steps[1..], more);
    }
  }

  /** The first group with a forbidden aggregator, or one that refuses, ends the bundle; else all have checked. */
  lemma {:induction false} ChecksSignaturesExactly(l: Ledger, env: Env, groups: seq<Group>)
    ensures CheckSignatures(l, env, groups)
         == match Verdict(SignatureRules(groups))
            case Fail(c) => Stopped(0, c)
            case Pass(_) => Going(ApplyAll(l, env, true, SignatureSteps(groups)), ())
    decreases groups
  {
    hide Apply;
    if groups != [] {
      var first := SignatureRules(groups)[..2];
      assert SignatureRules(groups) == first + SignatureRules(groups[1..]);
      VerdictConcat(first, SignatureRules(groups[1..]));
      VerdictOfFew(first);
      var steps := if groups[0].aggregator != NO_ADDRESS then groups[0].signature.steps else [];
      ApplyAllConcat(l, env, true, steps, SignatureSteps(groups[1..]));
      ChecksSignaturesExactly(ApplyAll(l, env, true, steps), env, groups[1..]);
    }
  }

  /** No group names the forbidden aggregator, and every aggregator that is named vouches for its group. */
  predicate Vouched(groups: seq<Group>) {
    forall g :: 0 <= g < |groups| ==>
                  groups[g].aggregator != 1 && (groups[g].aggregator == NO_ADDRESS || groups[g].signature.ok)
  }

  lemma {:induction false} VouchedExactly(groups: seq<Group>)
    ensures Verdict(SignatureRules(groups)).Pass? <==> Vouched(groups)
  {
    if groups != [] {
      var first := SignatureRules(groups)[..2];
      assert SignatureRules(groups) == first + SignatureRules(groups[1..]);
      VerdictConcat(first, SignatureRules(groups[1..]));
      VerdictOfFew(first);
      VouchedExactly(groups[1..]);
      assert Vouched(groups) ==> Vouched(groups[1..]);
      if Vouched(groups[1..]) && Verdict(first).Pass? {
        forall g | 0 <= g < |groups|
          ensures groups[g].aggregator != 1 && (groups[g].aggregator == NO_ADDRESS || groups[g].signature.ok)
        {
          if g > 0 { assert groups[g] == groups[1..][g - 1]; }
        }
      }
    }
  }

  // ----- the validation of groups -----

  /** The operations of all groups; a failure in the data reports the index in the group. */
  function GroupItems(groups: seq<Group>): (items: seq<Item>)
    ensures |items| == CountRuns(groups)
  {
    if groups == [] then [] else Items(groups[0].runs, groups[0].aggregator, 0) + GroupItems(groups[1..])
  }

  function RunsOf(items: seq<Item>): (runs: seq<Run>)
    ensures |runs| == |items| && forall i :: 0 <= i < |items| ==> runs[i] == items[i].run
  {
    seq(|items|, i requires 0 <= i < |items| => items[i].run)
  }

  lemma {:induction false} RunsOfGroups(groups: seq<Group>)
    ensures RunsOf(GroupItems(groups)) == AllRuns(groups)
  {
    if groups != [] { RunsOfGroups(groups[1..]); }
  }

  lemma RunsOfItems(runs: seq<Run>)
    ensures RunsOf(Items(runs, NO_ADDRESS, 0)) == runs
  {
  }

  /** Every operation of a group is among the items, with the group's aggregator and its index in the group. */
  lemma {:induction false} ItemOf(groups: seq<Group>, g: nat, i: nat) returns (k: nat)
    requires g < |groups| && i < |groups[g].runs|
    ensures k < CountRuns(groups) && GroupItems(groups)[k] == Item(groups[g].runs[i], groups[g].aggregator, i)
  {
    if g == 0 {
      k := i;
    } else {
      k := ItemOf(groups[1..], g - 1, i);
      k := |groups[0].runs| + k;
    }
  }

  lemma {:induction false} ValidateGroupsExactly(l: Ledger, env: Env, groups: seq<Group>, base: nat)
    returns (ledgers: seq<Ledger>, infos: seq<OpInfo>)
    ensures Validated(ValidateGroups(l, env, groups, base), l, env, GroupItems(groups), base, ledgers, infos)
    decreases groups
  {
    hide ValidateAll, Accepted, Refused;
    ledgers, infos := [l], [];
    if groups != [] {
      var first := Items(groups[0].runs, groups[0].aggregator, 0);
      ledgers, infos := ValidateAllExactly(l, env, groups[0].aggregator, groups[0].runs, base, 0);
      var r := ValidateAll(l, env, groups[0].aggregator, groups[0].runs, base, 0);
      if r.Going? {
        var later, rest := ValidateGroupsExactly(r.ledger, env, groups[1..], base + |first|);
        Joined(l, env, first, ledgers, infos, GroupItems(groups[1..]), later, rest);
        ledgers, infos := ledgers[..|first|] + later, infos + rest;
      } else {
        AcceptedPrefix(l, env, first, GroupItems(groups[1..]), ledgers, infos);
      }
    }
  }

  lemma AcceptedPrefix(l: Ledger, env: Env, items: seq<Item>, more: seq<Item>, ledgers: seq<Ledger>, infos: seq<OpInfo>)
    requires AllAccepted(l, env, items, ledgers, infos)
    ensures AllAccepted(l, env, items + more, ledgers, infos)
  {
    hide Accepted;
  }

  // ----- the execution of a list of operations -----

  /** An operation is executed: the calls that survive, and one refund. */
  ghost predicate Executed(l: Ledger, env: Env, run: Run, l': Ledger) {
    RefundMade(Kept(l, env, run), l', PayerOf(run.op), Prefund(run.op) - Fee(run, env.basefee))
  }

  ghost predicate AllExecuted(l: Ledger, env: Env, runs: seq<Run>, ledgers: seq<Ledger>) {
    && |ledgers| == |runs| + 1 && ledgers[0] == l
    && forall i :: 0 <= i < |runs| ==> Executed(ledgers[i], env, runs[i], ledgers[i + 1])
  }

  lemma {:induction false} ExecuteAllExactly(l: Ledger, env: Env, runs: seq<Run>, infos: seq<OpInfo>, base: nat,
                                             collected: Word, owed: nat)
    returns (ledgers: seq<Ledger>)
    requires AllFilled(infos, runs) && Inv(l, owed + Prefunds(infos) + collected)
    ensures var r := ExecuteAll(l, env, runs, infos, base, collected);
            if exists k :: FirstShortOfGas(runs, k)
            then r.Stopped? && r.code == AA95 && FirstShortOfGas(runs, r.index - base)
            else r.Going? && r.value == collected + Sum(Fees(runs, env.basefee))
                 && AllExecuted(l, env, runs, ledgers) && r.ledger == ledgers[|runs|]
    decreases runs
  {
    hide Inv, ExecuteUserOp, ShortOfGas, FilledFrom, LacksGas, Fee, Executed;
    ledgers := [l];
    if runs != [] {
      var rest := owed + Prefunds(infos[1..]) + collected;
      ExecutedExactly(l, env, runs[0], infos[0], rest);
      ExecuteUserOpAdvances(l, env, runs[0], infos[0], rest);
      if ShortOfGas(runs[0]) {
        assert FirstShortOfGas(runs, 0);
      } else {
        ShiftShortOfGas(runs);
        var (l1, fee) := ExecuteUserOp(l, env, runs[0], infos[0]).value;
        NoWrap(l1, collected + fee, owed + Prefunds(infos[1..]));
        FilledTail(infos, runs);
        var later := ExecuteAllExactly(l1, env, runs[1..], infos[1..], base + 1, collected + fee, owed);
        assert Fees(runs, env.basefee)[1..] == Fees(runs[1..], env.basefee);
        ledgers := [l] + later;
        if !exists k :: FirstShortOfGas(runs[1..], k) {
          forall i | 0 <= i < |runs| ensures Executed(ledgers[i], env, runs[i], ledgers[i + 1]) {
            if i > 0 { assert Executed(later[i - 1], env, runs[1..][i - 1], later[i]); }
          }
        }
      }
    }
  }

  lemma ExecutedExactly(l: Ledger, env: Env, run: Run, info: OpInfo, owed: nat)
    requires Inv(l, owed + info.prefund) && FilledFrom(info, run)
    ensures var r := ExecuteUserOp(l, env, run, info);
            if ShortOfGas(run) then r == Fail(AA95)
            else r.Pass? && r.value.1 == Fee(run, env.basefee) && Executed(l, env, run, r.value.0)
  {
    hide Inv, ExecuteUserOp, FilledFrom, Fee, Kept, RefundMade, ShortOfGas, Prefund;
    PrefundIsFeePlusRefund(l, env, run, info, owed);
  }

  lemma FilledTail(infos: seq<OpInfo>, runs: seq<Run>)
    requires AllFilled(infos, runs) && runs != []
    ensures AllFilled(infos[1..], runs[1..])
  {
    hide FilledFrom;
    forall i | 0 <= i < |runs[1..]| ensures FilledFrom(infos[1..][i], runs[1..][i]) {
      assert FilledFrom(infos[i + 1], runs[i + 1]);
    }
  }

  lemma ShiftShortOfGas(runs: seq<Run>)
    requires runs != [] && !ShortOfGas(runs[0])
    ensures forall k :: FirstShortOfGas(runs[1..], k) <==> FirstShortOfGas(runs, k + 1)
    ensures (exists k :: FirstShortOfGas(runs, k)) <==> (exists k :: FirstShortOfGas(runs[1..], k))
  {
    hide ShortOfGas;
    forall k ensures FirstShortOfGas(runs[1..], k) <==> FirstShortOfGas(runs, k + 1) {
      forall j | 0 <= j < |runs[1..]| ensures runs[1..][j] == runs[j + 1] {
      }
      if FirstShortOfGas(runs[1..], k) {
        forall j | 0 <= j < k + 1 ensures !ShortOfGas(runs[j]) {
          if j > 0 { assert !ShortOfGas(runs[1..][j - 1]); }
        }
      } else if FirstShortOfGas(runs, k + 1) {
        forall j | 0 <= j < k ensures !ShortOfGas(runs[1..][j]) {
          assert !ShortOfGas(runs[j + 1]);
        }
      }
    }
    if k :| FirstShortOfGas(runs, k) {
      assert FirstShortOfGas(runs[1..], k - 1);
    }
  }

  // ----- whole bundles -----

  /**
   How a bundle of these operations ends from l, its signatures checked. Validation accepts operations
   one after the other, through the ledgers given. If it refuses one, that one's failure is reported.
   Else the first operation that is short of gas, if there is one, fails the bundle. Else the operations are
   executed, through the second list of ledgers, and the sum of their fees is paid to the beneficiary.
   */
  ghost predicate BundleEnds(r: BundleResult, l: Ledger, env: Env, items: seq<Item>, beneficiary: Address,
                             payout: External, ledgers: seq<Ledger>, infos: seq<OpInfo>, settled: seq<Ledger>) {
    && AllAccepted(l, env, items, ledgers, infos)
    && var n, runs := |infos|, RunsOf(items);
       if n < |items| then r.Aborted? && Refused(ledgers[n], env, items[n], n, r.index, r.code)
       else if exists k :: FirstShortOfGas(runs, k) then
         r.Aborted? && r.code == AA95 && FirstShortOfGas(runs, r.index)
       else
         && AllExecuted(ledgers[n], env, runs, settled)
         && if beneficiary == NO_ADDRESS then r == Aborted(0, AA90)
            else if beneficiary != env.self && !payout.ok then r == Aborted(0, AA91)
            else
              && r.Done?
              && PaidOut(settled[n], r.ledger, env, true, beneficiary, Sum(Fees(runs, env.basefee)), payout)
  }

  lemma CompensateExactly(l: Ledger, env: Env, beneficiary: Address, collected: Word, payout: External, owed: nat)
    requires Inv(l, owed + collected)
    ensures var r := Compensate(l, env, beneficiary, collected, payout);
            if beneficiary == NO_ADDRESS then r == Aborted(0, AA90)
            else if beneficiary != env.self && !payout.ok then r == Aborted(0, AA91)
            else r.Done? && PaidOut(l, r.ledger, env, true, beneficiary, collected, payout)
  {
    CompensateAdvances(l, env, beneficiary, collected, payout, owed);
    hide Inv, ApplyAll;
  }

  /** What a bundle does after its operations are validated. */
  function Rest(l: Ledger, env: Env, runs: seq<Run>, infos: seq<OpInfo>, beneficiary: Address,
                payout: External): BundleResult
    requires |runs| == |infos|
  {
    match ExecuteAll(l, env, runs, infos, 0, 0)
    case Stopped(i, c) => Aborted(i, c)
    case Going(l1, collected) => Compensate(l1, env, beneficiary, collected, payout)
  }

  lemma BundleRuns(l: Ledger, env: Env, v: Phase<seq<OpInfo>>, items: seq<Item>, beneficiary: Address,
                   payout: External, ledgers: seq<Ledger>, infos: seq<OpInfo>, owed: nat)
    returns (r: BundleResult, settled: seq<Ledger>)
    requires Validated(v, l, env, items, 0, ledgers, infos)
    requires v.Going? ==> AllFilled(v.value, RunsOf(items)) && Inv(v.ledger, owed + Prefunds(v.value))
    ensures r == if v.Stopped? then Aborted(v.index, v.code)
                 else Rest(v.ledger, env, RunsOf(items), v.value, beneficiary, payout)
    ensures BundleEnds(r, l, env, items, beneficiary, payout, ledgers, infos, settled)
  {
    var runs := RunsOf(items);
    hide Inv, ExecuteAll, Compensate, FilledFrom, Accepted, Refused, AllExecuted, Sum, Fees, ShortOfGas, PaidOut;
    settled := [];
    if v.Stopped? {
      r := Aborted(v.index, v.code);
    } else {
      settled := ExecuteAllExactly(v.ledger, env, runs, infos, 0, 0, owed);
      r := Rest(v.ledger, env, runs, v.value, beneficiary, payout);
      var e := ExecuteAll(v.ledger, env, runs, infos, 0, 0);
      if e.Going? {
        ExecuteAllAdvances(v.ledger, env, runs, infos, 0, 0, owed);
        CompensateExactly(e.ledger, env, beneficiary, e.value, payout, owed);
      }
    }
  }

  /** A bundle that fails leaves nothing behind. */
  function LedgerAfter(l: Ledger, r: BundleResult): Ledger {
    match r
    case Done(l') => l'
    case Aborted(_, _) => l
  }

  /** Main result: how a bundle ends. */
  lemma HandleOpsExactly(l: Ledger, env: Env, step: Step, owed: nat)
    returns (ledgers: seq<Ledger>, infos: seq<OpInfo>, settled: seq<Ledger>)
    requires Inv(l, owed) && step.HandleOps?
    ensures BundleEnds(HandleOpsResult(l, env, false, step), l, env, Items(step.runs, NO_ADDRESS, 0),
                       step.beneficiary, step.payout, ledgers, infos, settled)
    ensures Apply(l, env, false, step) == LedgerAfter(l, HandleOpsResult(l, env, false, step))
  {
    hide Inv, ValidateAll, ExecuteAll, Compensate, BundleEnds, AllFilled, Validated, Items, RunsOf;
    RunsOfItems(step.runs);
    var v := ValidateAll(l, env, NO_ADDRESS, step.runs, 0, 0);
    ledgers, infos := ValidateAllExactly(l, env, NO_ADDRESS, step.runs, 0, 0);
    ValidateAllAdvances(l, env, NO_ADDRESS, step.runs, 0, 0, owed);
    ValidateAllFills(l, env, NO_ADDRESS, step.runs, 0, 0);
    var r;
    r, settled := BundleRuns(l, env, v, Items(step.runs, NO_ADDRESS, 0), step.beneficiary, step.payout,
                             ledgers, infos, owed);
  }

  /** Main result: how a bundle with aggregators ends. */
  lemma HandleAggregatedOpsExactly(l: Ledger, env: Env, step: Step, owed: nat)
    returns (ledgers: seq<Ledger>, infos: seq<OpInfo>, settled: seq<Ledger>)
    requires Inv(l, owed) && step.HandleAggregatedOps?
    ensures var r := HandleAggregatedOpsResult(l, env, false, step);
            match Verdict(SignatureRules(step.groups))
            case Fail(c) => r == Aborted(0, c)
            case Pass(_) =>
              BundleEnds(r, ApplyAll(l, env, true, SignatureSteps(step.groups)), env, GroupItems(step.groups),
                         step.beneficiary, step.payout, ledgers, infos, settled)
    ensures Apply(l, env, false, step) == LedgerAfter(l, HandleAggregatedOpsResult(l, env, false, step))
  {
    hide Inv, CheckSignatures, ValidateGroups, ExecuteGroups, ExecuteAll, Compensate, BundleEnds, AllFilled, Validated,
      Verdict, ApplyAll;
    ChecksSignaturesExactly(l, env, step.groups);
    ledgers, infos, settled := [], [], [];
    if Verdict(SignatureRules(step.groups)).Pass? {
      CheckSignaturesAdvances(l, env, step.groups, owed);
      var l0 := CheckSignatures(l, env, step.groups).ledger;
      var v := ValidateGroups(l0, env, step.groups, 0);
      ledgers, infos := ValidateGroupsExactly(l0, env, step.groups, 0);
      ValidateGroupsAdvances(l0, env, step.groups, 0, owed);
      ValidateGroupsFills(l0, env, step.groups, 0);
      RunsOfGroups(step.groups);
      var r;
      r, settled := BundleRuns(l0, env, v, GroupItems(step.groups), step.beneficiary, step.payout,
                               ledgers, infos, owed);
      if v.Going? { ExecuteGroupsAsList(v.ledger, env, step.groups, v.value, 0, 0); }
    }
  }

  // ----- what a bundle that succeeds shows -----

  lemma DoneIsAccepted(r: BundleResult, l: Ledger, env: Env, items: seq<Item>,
                       beneficiary: Address, payout: External,
                       ledgers: seq<Ledger>, infos: seq<OpInfo>, settled: seq<Ledger>)
    requires r.Done?
    requires BundleEnds(r, l, env, items, beneficiary, payout, ledgers, infos, settled)
    ensures |infos| == |items|
    ensures forall i :: 0 <= i < |items| ==> Authorized(items[i].run, items[i].aggregator, env.now)
  {
    hide Authorized, AllExecuted, PaidOut;
    forall i | 0 <= i < |items| ensures Authorized(items[i].run, items[i].aggregator, env.now) {
      assert Accepted(ledgers[i], env, items[i], ledgers[i + 1], infos[i]);
    }
  }

  /** Only operations whose account and paymaster agreed, for this time, are in a bundle that succeeds. */
  lemma BundleIsAuthorized(l: Ledger, env: Env, locked: bool, step: Step, owed: nat)
    requires Inv(l, owed) && step.HandleOps?
    ensures HandleOpsResult(l, env, locked, step).Done? ==>
              !locked && forall i :: 0 <= i < |step.runs| ==> Authorized(step.runs[i], NO_ADDRESS, env.now)
  {
    hide Inv, Authorized, BundleEnds, ValidateAll, ExecuteAll, Compensate;
    if HandleOpsResult(l, env, locked, step).Done? {
      var ledgers, infos, settled := HandleOpsExactly(l, env, step, owed);
      var items := Items(step.runs, NO_ADDRESS, 0);
      DoneIsAccepted(HandleOpsResult(l, env, locked, step), l, env, items, step.beneficiary, step.payout,
                     ledgers, infos, settled);
      forall i | 0 <= i < |step.runs| ensures Authorized(step.runs[i], NO_ADDRESS, env.now) {
        assert Authorized(items[i].run, items[i].aggregator, env.now);
      }
    }
  }

  /** And with aggregators, each of them vouched for its group, and is the one its accounts name. */
  lemma AggregatedBundleIsAuthorized(l: Ledger, env: Env, locked: bool, step: Step, owed: nat)
    requires Inv(l, owed) && step.HandleAggregatedOps?
    ensures HandleAggregatedOpsResult(l, env, locked, step).Done? ==>
              && !locked && Vouched(step.groups)
              && forall g, i :: 0 <= g < |step.groups| && 0 <= i < |step.groups[g].runs| ==>
                   Authorized(step.groups[g].runs[i], step.groups[g].aggregator, env.now)
  {
    hide Inv, Authorized, BundleEnds, CheckSignatures, ValidateGroups, ExecuteGroups, Compensate, Vouched, Verdict;
    if HandleAggregatedOpsResult(l, env, locked, step).Done? {
      var ledgers, infos, settled := HandleAggregatedOpsExactly(l, env, step, owed);
      VouchedExactly(step.groups);
      var items := GroupItems(step.groups);
      DoneIsAccepted(HandleAggregatedOpsResult(l, env, locked, step),
                     ApplyAll(l, env, true, SignatureSteps(step.groups)), env, items,
                     step.beneficiary, step.payout, ledgers, infos, settled);
      forall g, i | 0 <= g < |step.groups| && 0 <= i < |step.groups[g].runs|
        ensures Authorized(step.groups[g].runs[i], step.groups[g].aggregator, env.now)
      {
        var k := ItemOf(step.groups, g, i);
        assert Authorized(items[k].run, items[k].aggregator, env.now);
      }
    }
  }
}
