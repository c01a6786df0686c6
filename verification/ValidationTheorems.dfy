/** Exactly when an operation, a signature check and a whole validation loop pass, and how they fail. */
module ValidationTheorems {
  import opened Evm
  import opened Ledger
  import opened GasAccounting
  import opened EntryPointModel
  import opened ValidationWindow
  import opened OperationRules
  import opened LedgerTheorems

  // ----- one operation -----

  lemma FormExact(op: UserOp)
    ensures Verdict(FormRules(op))
         == match CopyUserOpToMemory(op)
            case Fail(c) => Fail(c)
            case Pass(m) => if GasValuesFit(m) then Pass(()) else Fail(AA94)
  {
    hide GasValuesFit, SmallValues;
    CopyExact(op);
    if CopyUserOpToMemory(op).Pass? { CopyFits(CopyUserOpToMemory(op).value, op); }
    VerdictOfFew(FormRules(op));
  }

  /** The codes of the creation exclude each other. */
  lemma CreationExact(l: Ledger, env: Env, run: Run)
    ensures CreateSenderIfNeeded(l, env, run)
         == match Verdict(CreationRules(run))
            case Fail(c) => Fail(c)
            case Pass(_) => Pass(if run.op.hasInitCode then Effects(l, env, run.factory) else l)
  {
    hide ApplyAll;
    VerdictOfFew(CreationRules(run));
  }

  lemma AccountExact(l: Ledger, env: Env, run: Run, op: MemoryUserOp)
    requires CopiedFrom(op, run.op) && SmallValues(run.op)
    ensures var l1 := AccountCalls(l, env, run);
            var v := Verdict(CreationRules(run) + AccountRules(l1, run));
            var r := ValidateAccountPrepayment(l, env, run, op, RequiredPrefund(op));
            && (r.Pass? <==> v.Pass?) && (r.Fail? ==> v == Fail(r.code))
            && (r.Pass? ==> r.value.nonces == l1.nonces && (PaymasterOf(run.op) != NO_ADDRESS ==> r.value == l1))
  {
    hide ApplyAll, RequiredPrefund, Prefund, SmallValues, CreateSenderIfNeeded, CreationRules;
    var l1 := AccountCalls(l, env, run);
    CopyCosts(op, run.op, 0);
    CreationExact(l, env, run);
    VerdictConcat(CreationRules(run), AccountRules(l1, run));
    VerdictOfFew(AccountRules(l1, run));
  }

  lemma NonceExact(l: Ledger, l1: Ledger, run: Run)
    requires l1.nonces == l.nonces
    ensures var r := ValidateAndUpdateNonce(l1, run.op.sender, run.op.nonce);
            && Verdict(NonceRules(l, run)) == (if r.Fail? then Fail(r.code)
               else if run.gas.start - run.gas.afterAccount > run.op.verificationGasLimit then Fail(AA26)
               else Pass(()))
            && (r.Pass? ==> r.value.deposits == l1.deposits)
  {
    hide KeyOf, SeqOf;
    assert NextSeq(l1, run.op.sender, KeyOf(run.op.nonce)) == NextSeq(l, run.op.sender, KeyOf(run.op.nonce));
    VerdictOfFew(NonceRules(l, run));
  }

  lemma PaymasterExact(l: Ledger, env: Env, run: Run, op: MemoryUserOp, l1: Ledger)
    requires CopiedFrom(op, run.op) && SmallValues(run.op) && l1.deposits == l.deposits
    requires PaymasterOf(run.op) != NO_ADDRESS
    ensures var v := Verdict(PaymasterRules(l, run));
            var r := ValidatePaymasterPrepayment(l1, env, run, op, RequiredPrefund(op));
            && (r.Pass? <==> v.Pass?) && (r.Fail? ==> v == Fail(r.code))
  {
    hide RunExternal, RequiredPrefund, Prefund, SmallValues;
    CopyCosts(op, run.op, 0);
    VerdictOfFew(PaymasterRules(l, run));
  }

  lemma NoPaymaster(l: Ledger, run: Run)
    requires PaymasterOf(run.op) == NO_ADDRESS
    ensures Verdict(PaymasterRules(l, run)).Pass?
  {
    hide Prefund;
    VerdictOfFew(PaymasterRules(l, run));
  }

  lemma InOrder(a: seq<Rule>, b: seq<Rule>, c: seq<Rule>, d: seq<Rule>, e: seq<Rule>)
    ensures Verdict(a + (b + (c + (d + e))))
         == if Verdict(a).Fail? then Verdict(a)
            else if Verdict(b + c).Fail? then Verdict(b + c)
            else if Verdict(d).Fail? then Verdict(d)
            else Verdict(e)
  {
    VerdictConcat(a, b + (c + (d + e)));
    VerdictConcat(b, c + (d + e));
    VerdictConcat(c, d + e);
    VerdictConcat(d, e);
    VerdictConcat(b, c);
  }

  /** An operation is validated exactly if it breaks no rule; else it fails with the code of the first one it breaks. */
  lemma ValidatesExactly(l: Ledger, env: Env, run: Run)
    ensures var r := ValidatePrepayment(l, env, run);
            var rules := ValidationRules(l, env, run);
            && (r.Pass? <==> Verdict(rules).Pass?) && (r.Fail? ==> Verdict(rules) == Fail(r.code))
            && (r.Pass? <==> forall k :: 0 <= k < |rules| ==> !rules[k].broken)
            && (r.Fail? ==> exists k: nat :: FirstBroken(rules, k) && rules[k].code == r.code)
  {
    VerdictIsFirst(ValidationRules(l, env, run));
    hide Verdict, FormRules, CreationRules, AccountRules, NonceRules, PaymasterRules, AccountCalls, GasValuesFit,
      SmallValues, RequiredPrefund, CopyUserOpToMemory, ValidateAccountPrepayment, ValidateAndUpdateNonce,
      ValidatePaymasterPrepayment, Wrap;
    var l1 := AccountCalls(l, env, run);
    InOrder(FormRules(run.op), CreationRules(run), AccountRules(l1, run), NonceRules(l1, run), PaymasterRules(l1, run));
    FormExact(run.op);
    if Verdict(FormRules(run.op)).Pass? {
      CopyExact(run.op);
      var op := CopyUserOpToMemory(run.op).value;
      CopyFits(op, run.op);
      AccountExact(l, env, run, op);
      var account := ValidateAccountPrepayment(l, env, run, op, RequiredPrefund(op));
      if account.Pass? {
        NonceExact(l1, account.value, run);
        var accepted := ValidateAndUpdateNonce(account.value, op.sender, op.nonce);
        if PaymasterOf(run.op) == NO_ADDRESS {
          NoPaymaster(l1, run);
        } else if accepted.Pass? {
          PaymasterExact(l1, env, run, op, accepted.value);
        }
      }
    }
  }

  // ----- validation data -----

  /** Whatever fields the data is packed from, they name the aggregator and a window that contains the time. */
  ghost predicate Names(data: Word, expected: Address, now: nat) {
    forall aggregator: Address, until: nat, after: nat ::
      until < UINT48 && after < UINT48 && data == Pack(aggregator, until, after) ==>
        aggregator == expected && Valid(aggregator, until, after, now)
  }

  lemma NamesExactly(data: Word, expected: Address, now: nat)
    ensures Names(data, expected, now) <==> AggregatorIn(data) == expected && Timely(data, now)
  {
    hide Pack, Valid;
    var (a, u, v) := FieldsOf(data);
    assert data == Pack(a, u, v);
    forall aggregator: Address, until: nat, after: nat
      | until < UINT48 && after < UINT48 && data == Pack(aggregator, until, after)
      ensures (aggregator, until, after) == (a, u, v)
    {
      FieldsOfPacked(aggregator, until, after);
    }
  }

  /** The account names the expected aggregator and the paymaster, if there is one, none; both in time. */
  ghost predicate Authorized(run: Run, expected: Address, now: nat) {
    && Names(run.validationData, expected, now)
    && (PaymasterOf(run.op) != NO_ADDRESS ==> Names(run.paymasterValidationData, NO_ADDRESS, now))
  }

  lemma AuthorizedExactly(run: Run, expected: Address, now: nat)
    ensures Authorized(run, expected, now) <==> Verdict(DataRules(run, expected, now)).Pass?
  {
    hide FieldsOf, Timely, Names;
    NamesExactly(run.validationData, expected, now);
    NamesExactly(run.paymasterValidationData, NO_ADDRESS, now);
    VerdictOfFew(DataRules(run, expected, now));
  }

  lemma ReadsFields(data: Word, now: nat)
    ensures GetValidationData(data, now) == (AggregatorIn(data), !Timely(data, now))
  {
    hide Pack, Valid, GetValidationData;
    var (a, u, v) := FieldsOf(data);
    ReadPacked(a, u, v, now);
  }

  lemma DataExact(env: Env, run: Run, info: OpInfo, expected: Address)
    requires info.op.paymaster == PaymasterOf(run.op)
    ensures ValidationDataCode(env, run, info, expected) == Verdict(DataRules(run, expected, env.now))
  {
    hide GetValidationData, FieldsOf, Timely;
    ReadsFields(run.validationData, env.now);
    ReadsFields(run.paymasterValidationData, env.now);
    NoData(env.now);
    VerdictOfFew(DataRules(run, expected, env.now));
  }

  lemma NoData(now: nat)
    ensures GetValidationData(0, now) == (NO_ADDRESS, false)
  {
  }

  // ----- the validation loops -----

  /** An operation of a bundle, the aggregator it has to name, and the index reported if its data does not. */
  datatype Item = Item(run: Run, aggregator: Address, position: nat)

  function Items(runs: seq<Run>, aggregator: Address, position: nat): (items: seq<Item>)
    ensures |items| == |runs|
    ensures forall i :: 0 <= i < |runs| ==> items[i] == Item(runs[i], aggregator, position + i)
  {
    seq(|runs|, i requires 0 <= i < |runs| => Item(runs[i], aggregator, position + i))
  }

  /** The operation breaks no rule, its data is in order, and its validation leads to l' and info. */
  ghost predicate Accepted(l: Ledger, env: Env, item: Item, l': Ledger, info: OpInfo) {
    && Verdict(ValidationRules(l, env, item.run)).Pass?
    && Authorized(item.run, item.aggregator, env.now)
    && ValidatePrepayment(l, env, item.run) == Pass((l', info))
  }

  /** The first operations are accepted one after the other: ledgers are those before and after each. */
  ghost predicate AllAccepted(l: Ledger, env: Env, items: seq<Item>, ledgers: seq<Ledger>, infos: seq<OpInfo>) {
    && |ledgers| == |infos| + 1 && |infos| <= |items| && ledgers[0] == l
    && forall i :: 0 <= i < |infos| ==> Accepted(ledgers[i], env, items[i], ledgers[i + 1], infos[i])
  }

  /**
   The operation is refused for the first rule it breaks, with its index in the bundle; or, if it
   breaks none, for its data, with the position.
   */
  predicate Refused(l: Ledger, env: Env, item: Item, number: nat, index: nat, code: Code) {
    var rules := Verdict(ValidationRules(l, env, item.run));
    if rules.Fail? then code == rules.code && index == number
    else
      Verdict(DataRules(item.run, item.aggregator, env.now)) == Fail(code) && index == item.position
  }

  /** The loop accepts operations up to the first one that is refused. */
  ghost predicate Validated(r: Phase<seq<OpInfo>>, l: Ledger, env: Env, items: seq<Item>, base: nat,
                            ledgers: seq<Ledger>, infos: seq<OpInfo>) {
    && AllAccepted(l, env, items, ledgers, infos)
    && var n := |infos|;
       match r
       case Going(l', filled) => n == |items| && l' == ledgers[n] && filled == infos
       case Stopped(i, c) => n < |items| && Refused(ledgers[n], env, items[n], base + n, i, c)
  }

  lemma OneStep(l: Ledger, env: Env, item: Item, number: nat)
    ensures var r := ValidatePrepayment(l, env, item.run);
            if r.Fail? then Refused(l, env, item, number, number, r.code)
            else
              var data := ValidationDataCode(env, item.run, r.value.1, item.aggregator);
              if data.Fail? then Refused(l, env, item, number, item.position, data.code)
              else Accepted(l, env, item, r.value.0, r.value.1)
  {
    hide ValidatePrepayment, ValidationDataCode, ValidationRules, Verdict, DataRules, Authorized;
    ValidatesExactly(l, env, item.run);
    var r := ValidatePrepayment(l, env, item.run);
    if r.Pass? {
      Fills(l, env, item.run);
      FilledPaymaster(r.value.1, item.run);
      DataExact(env, item.run, r.value.1, item.aggregator);
      AuthorizedExactly(item.run, item.aggregator, env.now);
    }
  }

  lemma FilledPaymaster(info: OpInfo, run: Run)
    requires FilledFrom(info, run)
    ensures info.op.paymaster == PaymasterOf(run.op)
  {
    hide Prefund, SmallValues;
  }

  /** The loop over one list of operations. */
  lemma {:induction false} ValidateAllExactly(l: Ledger, env: Env, aggregator: Address, runs: seq<Run>, base: nat,
                                              local: nat)
    returns (ledgers: seq<Ledger>, infos: seq<OpInfo>)
    ensures Validated(ValidateAll(l, env, aggregator, runs, base, local), l, env, Items(runs, aggregator, local), base,
                      ledgers, infos)
    decreases runs
  {
    hide ValidatePrepayment, ValidationDataCode, Accepted, Refused;
    ledgers, infos := [l], [];
    if runs != [] {
      var items := Items(runs, aggregator, local);
      OneStep(l, env, items[0], base);
      var r := ValidatePrepayment(l, env, runs[0]);
      if r.Pass? && ValidationDataCode(env, runs[0], r.value.1, aggregator).Pass? {
        var (l1, info) := r.value;
        var later, rest := ValidateAllExactly(l1, env, aggregator, runs[1..], base + 1, local + 1);
        assert Items(runs[1..], aggregator, local + 1) == items[1..];
        Joined(l, env, items[..1], [l, l1], [info], items[1..], later, rest);
        assert items[..1] + items[1..] == items;
        ledgers, infos := [l] + later, [info] + rest;
      }
    }
  }

  /** Accepting some operations and then more is accepting all of them. */
  lemma Joined(l: Ledger, env: Env, items: seq<Item>, ledgers: seq<Ledger>, infos: seq<OpInfo>,
               items': seq<Item>, ledgers': seq<Ledger>, infos': seq<OpInfo>)
    requires AllAccepted(l, env, items, ledgers, infos) && |infos| == |items|
    requires AllAccepted(ledgers[|items|], env, items', ledgers', infos')
    ensures AllAccepted(l, env, items + items', ledgers[..|items|] + ledgers', infos + infos')
  {
    hide Accepted;
    var all, led, inf := items + items', ledgers[..|items|] + ledgers', infos + infos';
    forall i | 0 <= i < |inf| ensures Accepted(led[i], env, all[i], led[i + 1], inf[i]) {
      if i < |items| {
        assert Accepted(ledgers[i], env, items[i], ledgers[i + 1], infos[i]);
      } else {
        var j := i - |items|;
        assert Accepted(ledgers'[j], env, items'[j], ledgers'[j + 1], infos'[j]);
      }
    }
  }
}
