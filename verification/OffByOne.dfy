// One timeout can put the client out of step for ever.
module OffByOne {
  import opened Common
  import opened Context
  import opened Protocol
  import opened Scenarios
  import opened Pairing

  // Whether command `k` has ended or has gone far enough for its response to come: with
  // `afterSlot` it must have taken the slot, otherwise its token is enough.
  ghost predicate HasTaken(s: State, k: nat, afterSlot: bool) {
    || k < |s.outcomes|
    || (k == |s.outcomes| && (s.cmd.SlotTaken? || (!afterSlot && s.cmd.TokenTaken?)))
  }

  // The device answers every written command at most once and echoes its context, but a
  // response enters the slot only after its own command has taken the slot (or, without
  // `afterSlot`, its token).  `failures` permits writes to fail, `timeouts` permits
  // further waits to time out.
  ghost predicate Lags(s: State, l: Label, afterSlot: bool, failures: bool, timeouts: bool) {
    && Echoing(s, l)
    && Answering(s, l)
    && (l.CmdStart? && !l.written ==> failures)
    && (l.CmdTimeout? ==> timeouts)
    && (l.ReaderStore? && s.reader.Storing? ==> HasTaken(s, s.reader.reply.answers, afterSlot))
  }

  ghost function LagRule(afterSlot: bool, failures: bool, timeouts: bool): Rule {
    (s: State, l: Label) => Lags(s, l, afterSlot, failures, timeouts)
  }

  ghost predicate RepliesLag(s: State, l: Label) {
    Lags(s, l, true, false, false)
  }

  function Answers(msgs: seq<Msg>): multiset<nat> {
    if msgs == [] then multiset{}
    else (if msgs[0].Response? then multiset{msgs[0].reply.answers} else multiset{}) + Answers(msgs[1..])
  }

  lemma {:induction false} AnswersAppend(msgs: seq<Msg>, m: Msg)
    ensures Answers(msgs + [m]) == Answers(msgs) + if m.Response? then multiset{m.reply.answers} else multiset{}
  {
    if msgs != [] {
      assert (msgs + [m])[1..] == msgs[1..] + [m];
      AnswersAppend(msgs[1..], m);
    }
  }

  // The commands whose responses have not entered the slot yet.
  function Outstanding(s: State): multiset<nat> {
    multiset(s.owed) + Answers(s.wire) + if s.reader.Storing? then multiset{s.reader.reply.answers} else multiset{}
  }

  ghost predicate NothingStored(s: State) {
    s.slot == None && s.sem == 0 && !s.reader.Stored?
  }

  // The response to command `k` is in the slot, with its token posted or about to be.
  ghost predicate StoredFor(s: State, k: int) {
    && s.slot.Some? && s.slot.value.answers == k
    && s.sem == if s.reader.Stored? then 0 else 1
  }

  // Exactly one response is behind: between commands it is the last command's own, and
  // the next command waits for it.
  ghost predicate OutOfStep(s: State) {
    && (forall k :: k in s.owed ==> k < |s.sends|)
    && OneBehind(s, Outstanding(s))
  }

  ghost predicate OneBehind(s: State, outstanding: multiset<nat>) {
    var last := |s.sends| - 1;
    match s.cmd
    case Idle => last >= 0 && LastIsBehind(s, outstanding, last)
    case SlotTaken(response) =>
      && last >= 1 && LastIsBehind(s, outstanding, last)
      && response.Some? && response.value.answers == last - 1
    case Waiting =>
      && last >= 1
      && ((outstanding == multiset{last - 1, last} && NothingStored(s))
          || (outstanding == multiset{last} && StoredFor(s, last - 1)))
    case TokenTaken =>
      && last >= 1 && outstanding == multiset{last}
      && s.slot.Some? && s.slot.value.answers == last - 1 && s.sem == 0 && !s.reader.Stored?
  }

  ghost predicate LastIsBehind(s: State, outstanding: multiset<nat>, last: nat) {
    || (outstanding == multiset{last} && NothingStored(s))
    || (outstanding == multiset{} && StoredFor(s, last))
  }

  lemma EmitKeepsOutstanding(s: State, m: Msg)
    requires m.Response? ==> m.reply.answers in s.owed
    ensures Outstanding(Apply(s, Emit(m))) == Outstanding(s)
  {
    var s' := Apply(s, Emit(m));
    AnswersAppend(s.wire, m);
    if m.Response? {
      assert multiset(s.owed) == multiset(s'.owed) + multiset{m.reply.answers};
    }
  }

  lemma StartAddsOutstanding(s: State)
    requires s.cmd.Idle? && |s.sends| !in s.owed
    ensures Outstanding(Apply(s, CmdStart(true))) == Outstanding(s) + multiset{|s.sends|}
  {
    var k: nat := |s.sends|;
    var s' := Apply(s, CmdStart(true));
    assert multiset(s'.owed) == multiset(s.owed) + multiset{k};
  }

  lemma ReadKeepsOutstanding(s: State)
    requires Enabled(s, ReaderRead)
    ensures Outstanding(Apply(s, ReaderRead)) == Outstanding(s)
  {
  }

  lemma StartStaysOneBehind(s: State, outstanding: multiset<nat>)
    requires OneBehind(s, outstanding) && s.cmd.Idle?
    ensures var k: nat := |s.sends|;
      OneBehind(Apply(s, CmdStart(true)), outstanding + multiset{k})
  {
    var k: nat := |s.sends|;
    var last: nat := k - 1;
    assert multiset{last} + multiset{k} == multiset{last, k};
    assert multiset{} + multiset{k} == multiset{k};
  }

  lemma OtherStepStaysOneBehind(s: State, l: Label, outstanding: multiset<nat>)
    requires OneBehind(s, outstanding) && Enabled(s, l)
    requires !l.CmdStart? && !l.CmdTimeout? && !l.ReaderStore?
    ensures OneBehind(Apply(s, l), outstanding)
  {
  }

  lemma OneOfTwo(both: multiset<nat>, rest: multiset<nat>, a: nat, b: nat, k: nat)
    requires a != b && k != b && both == multiset{a, b} && both == rest + multiset{k}
    ensures k == a && rest == multiset{b}
  {
    assert k in both;
    assert rest == both - multiset{k};
  }

  lemma StoreStaysOneBehind(s: State, outstanding: multiset<nat>, rest: multiset<nat>)
    requires OneBehind(s, outstanding) && |s.sends| == |s.outcomes| + (if s.cmd.Idle? then 0 else 1)
    requires s.reader.Storing? && HasTaken(s, s.reader.reply.answers, true)
    requires outstanding == rest + multiset{s.reader.reply.answers}
    ensures OneBehind(Apply(s, ReaderStore), rest)
  {
    var k := s.reader.reply.answers;
    assert k in outstanding;
    if s.cmd.Waiting? && outstanding == multiset{|s.sends| - 2, |s.sends| - 1} {
      OneOfTwo(outstanding, rest, |s.sends| - 2, |s.sends| - 1, k);
    } else {
      assert rest == outstanding - multiset{k};
    }
  }

  lemma OtherStepKeepsOutstanding(s: State, l: Label)
    requires Enabled(s, l) && RepliesLag(s, l) && !l.CmdStart? && !l.ReaderStore?
    ensures Outstanding(Apply(s, l)) == Outstanding(s)
  {
    if l.Emit? {
      EmitKeepsOutstanding(s, l.msg);
    } else if l.ReaderRead? {
      ReadKeepsOutstanding(s);
    }
  }

  lemma StoreRemovesOutstanding(s: State)
    requires Enabled(s, ReaderStore)
    ensures Outstanding(s) == Outstanding(Apply(s, ReaderStore)) + multiset{s.reader.reply.answers}
  {
  }

  lemma StepStaysOneBehind(s: State, l: Label)
    requires OutOfStep(s) && ContextInv(s) && Enabled(s, l) && RepliesLag(s, l)
    ensures OneBehind(Apply(s, l), Outstanding(Apply(s, l)))
  {
    if l.CmdStart? {
      StartAddsOutstanding(s);
      StartStaysOneBehind(s, Outstanding(s));
    } else if l.ReaderStore? {
      StoreRemovesOutstanding(s);
      StoreStaysOneBehind(s, Outstanding(s), Outstanding(Apply(s, l)));
    } else {
      OtherStepKeepsOutstanding(s, l);
      OtherStepStaysOneBehind(s, l, Outstanding(s));
    }
  }

  lemma StepStaysOutOfStep(s: State, l: Label)
    requires OutOfStep(s) && ContextInv(s) && Enabled(s, l) && RepliesLag(s, l)
    ensures OutOfStep(Apply(s, l))
  {
    StepStaysOneBehind(s, l);
  }

  lemma NeighboursDiffer(s: State, i: nat)
    requires ContextInv(s) && i + 1 < |s.sends|
    ensures s.sends[i] != s.sends[i + 1]
  {
    if s.sends[i] == s.sends[i + 1] {
      ContextsRecurLate(s, i, i + 1);
    }
  }

  // What a command finishes with while the client is out of step.
  lemma FinishMismatches(s: State)
    requires OutOfStep(s) && ContextInv(s) && PendingEcho(s) && s.cmd.SlotTaken?
    ensures OutcomeOf(s.context, s.cmd.response) == Mismatch(s.cmd.response.value)
  {
    var before: nat := |s.sends| - 2;
    assert Matches(s.outcomes)[..before + 1] == Matches(s.outcomes);
    CStringInjective(s.sends[before], s.context);
    NeighboursDiffer(s, before);
  }

  // Outcomes from `from` on: each command was given the response to the one before it.
  ghost predicate AllMismatch(s: State, from: nat) {
    && from <= |s.outcomes|
    && forall i :: from <= i < |s.outcomes| ==>
         s.outcomes[i].Mismatch? && s.outcomes[i].reply.answers == i - 1
  }

  lemma StepAllMismatch(s: State, l: Label, from: nat)
    requires OutOfStep(s) && ContextInv(s) && PendingEcho(s) && AllMismatch(s, from)
    requires Enabled(s, l) && RepliesLag(s, l)
    ensures AllMismatch(Apply(s, l), from)
  {
    if l.CmdFinish? {
      FinishMismatches(s);
    }
  }

  // Once out of step, no run of any length brings the client back: every command fails
  // with a context mismatch, and between commands one response is always behind.
  lemma {:induction false} NeverRecovers(s: State, labels: seq<Label>, from: nat)
    requires OutOfStep(s) && ContextInv(s) && PendingEcho(s) && AllMismatch(s, from)
    requires Run(s, labels, RepliesLag)
    ensures OutOfStep(Exec(s, labels, RepliesLag))
    ensures AllMismatch(Exec(s, labels, RepliesLag), from)
    decreases |labels|
  {
    if labels != [] {
      var l := labels[0];
      StepStaysOutOfStep(s, l);
      StepAllMismatch(s, l, from);
      StepKeepsContext(s, l);
      StepKeepsPending(s, l);
      NeverRecovers(Apply(s, l), labels[1..], from);
    }
  }

  // No command runs and no response is owed, under way or stored.
  ghost predicate Settled(s: State) {
    && s.cmd.Idle? && s.slot == None && s.sem == 0 && s.owed == {}
    && !s.reader.Storing? && !s.reader.Stored?
    && forall m :: m in s.wire ==> !m.Response?
  }

  lemma {:induction false} NoAnswers(msgs: seq<Msg>)
    requires forall m :: m in msgs ==> !m.Response?
    ensures Answers(msgs) == multiset{}
  {
    if msgs != [] {
      NoAnswers(msgs[1..]);
    }
  }

  // A command is sent and times out.
  function AfterTimeout(s: State): State
    requires s.cmd.Idle? && s.sem == 0
  {
    Apply(Apply(s, CmdStart(true)), CmdTimeout)
  }

  lemma TimeoutPutsOutOfStep(s: State)
    requires Settled(s) && Reachable(s, Echoing)
    ensures var s' := AfterTimeout(s);
      OutOfStep(s') && ContextInv(s') && PendingEcho(s') && AllMismatch(s', |s.outcomes| + 1)
  {
    ReachableEcho(s, Echoing);
    var started := Apply(s, CmdStart(true));
    StepKeepsContext(s, CmdStart(true));
    StepKeepsPending(s, CmdStart(true));
    StepKeepsContext(started, CmdTimeout);
    StepKeepsPending(started, CmdTimeout);
    TimeoutLeavesOneOutstanding(s);
  }

  lemma TimeoutLeavesOneOutstanding(s: State)
    requires Settled(s)
    ensures OutOfStep(AfterTimeout(s))
  {
    NoAnswers(s.wire);
    var k: nat := |s.sends|;
    assert multiset(AfterTimeout(s).owed) == multiset{k};
  }

  // A single timeout in a settled client is enough: as long as writes succeed, no further
  // wait times out and responses keep lagging behind, no later command ever succeeds.
  lemma OneTimeoutIsForever(s: State, labels: seq<Label>)
    requires Settled(s) && Reachable(s, Echoing)
    requires Run(AfterTimeout(s), labels, RepliesLag)
    ensures var s' := Exec(AfterTimeout(s), labels, RepliesLag);
      OutOfStep(s') && AllMismatch(s', |s.outcomes| + 1)
  {
    TimeoutPutsOutOfStep(s);
    NeverRecovers(AfterTimeout(s), labels, |s.outcomes| + 1);
  }

  // --- Exactly when the client stays out of step ------------------------------------------

  ghost predicate NoneMatched(s: State, from: nat) {
    forall i :: from <= i < |s.outcomes| ==> !s.outcomes[i].Matched?
  }

  // After one timeout of a settled client, no command of any run under the rule matches.
  ghost predicate StaysOutOfStep(afterSlot: bool, failures: bool, timeouts: bool) {
    forall s, s' ::
      Settled(s) && Reachable(s, Echoing) && Leads(AfterTimeout(s), s', LagRule(afterSlot, failures, timeouts))
      ==> NoneMatched(s', |s.outcomes| + 1)
  }

  // Every such command is even given the response to the command before it.
  ghost predicate StaysOneBehind(afterSlot: bool) {
    forall s, s' ::
      Settled(s) && Reachable(s, Echoing) && Leads(AfterTimeout(s), s', LagRule(afterSlot, false, false))
      ==> AllMismatch(s', |s.outcomes| + 1)
  }

  lemma LaggingStaysOneBehind(s: State, s': State)
    requires Settled(s) && Reachable(s, Echoing)
    requires Leads(AfterTimeout(s), s', LagRule(true, false, false))
    ensures AllMismatch(s', |s.outcomes| + 1)
  {
    var rule := LagRule(true, false, false);
    var labels :| Run(AfterTimeout(s), labels, rule) && s' == Exec(AfterTimeout(s), labels, rule);
    RunWeakens(AfterTimeout(s), labels, rule, RepliesLag);
    OneTimeoutIsForever(s, labels);
  }

  // The first command of a fresh client has timed out and is still to be answered.
  ghost predicate FirstTimedOut(s: State) {
    && s.cmd.Idle? && s.reader.Reading? && s.wire == [] && s.slot == None && s.sem == 0
    && s.context == 66 && s.sends == [66] && s.outcomes == [TimedOut] && s.owed == {0}
  }

  // Steps of the client that every lag rule allows, and those that depend on the rule.
  ghost predicate Permits(rule: Rule, failures: bool, timeouts: bool) {
    && (forall t :: rule(t, CmdStart(true)) && rule(t, CmdTakeToken) && rule(t, CmdTakeSlot) && rule(t, CmdFinish))
    && (forall t :: rule(t, ReaderRead) && rule(t, ReaderPost))
    && (failures ==> forall t :: rule(t, CmdStart(false)))
    && (timeouts ==> forall t :: rule(t, CmdTimeout))
  }

  // A response to command `k` may be emitted and stored, because the command has gone far
  // enough.
  ghost predicate MayAnswer(s: State, k: nat, rule: Rule)
    requires k < |s.sends|
  {
    var reply := Reply(CString(s.sends[k]), IO4E_OK, k);
    && rule(s, Emit(Response(reply)))
    && (forall t: State ::
          t.reader == Storing(reply) && t.cmd == s.cmd && t.sends == s.sends && t.outcomes == s.outcomes
          ==> rule(t, ReaderStore))
  }

  lemma LagPermits(afterSlot: bool, failures: bool, timeouts: bool)
    ensures Permits(LagRule(afterSlot, failures, timeouts), failures, timeouts)
  {
  }

  lemma LagMayAnswer(s: State, k: nat, afterSlot: bool, failures: bool, timeouts: bool)
    requires k < |s.sends| && k in s.owed && HasTaken(s, k, afterSlot)
    ensures MayAnswer(s, k, LagRule(afterSlot, failures, timeouts))
  {
  }

  lemma LateResponse(origin: State, s: State, k: nat, rule: Rule) returns (s': State)
    requires Leads(origin, s, rule) && Permits(rule, false, false)
    requires s.reader.Reading? && s.wire == [] && k < |s.sends| && MayAnswer(s, k, rule)
    ensures Leads(origin, s', rule)
    ensures s'.reader.Reading? && s'.wire == [] && s'.cmd == s.cmd && s'.context == s.context
    ensures s'.sends == s.sends && s'.outcomes == s.outcomes && s'.owed == s.owed - {k}
    ensures s'.sem == s.sem + 1 && s'.slot == Some(Reply(CString(s.sends[k]), IO4E_OK, k))
  {
    s' := FillSlot(origin, s, Reply(CString(s.sends[k]), IO4E_OK, k), rule);
    StepLeads(origin, s', ReaderPost, rule);
    s' := Apply(s', ReaderPost);
  }

  // The first response is in the slot, and the next command has its token.
  lemma TokenForStale(origin: State, rule: Rule) returns (s: State)
    requires FirstTimedOut(origin) && Permits(rule, false, false) && MayAnswer(origin, 0, rule)
    ensures Leads(origin, s, rule)
    ensures s.cmd.TokenTaken? && s.reader.Reading? && s.wire == []
    ensures s.context == 67 && s.sends == [66, 67] && s.outcomes == [TimedOut] && s.owed == {1}
  {
    LeadsNowhere(origin, rule);
    s := LateResponse(origin, origin, 0, rule);
    StepLeads(origin, s, CmdStart(true), rule);
    s := Apply(s, CmdStart(true));
    StepLeads(origin, s, CmdTakeToken, rule);
    s := Apply(s, CmdTakeToken);
  }

  // Its own response overwrites the stale one before the command looks: it matches.
  lemma Overtakes(origin: State, s: State, rule: Rule) returns (s': State)
    requires Leads(origin, s, rule) && Permits(rule, false, false)
    requires s.cmd.TokenTaken? && s.reader.Reading? && s.wire == []
    requires s.context == 67 && s.sends == [66, 67] && s.outcomes == [TimedOut] && MayAnswer(s, 1, rule)
    ensures Leads(origin, s', rule) && !NoneMatched(s', 1)
  {
    s' := LateResponse(origin, s, 1, rule);
    StepLeads(origin, s', CmdTakeSlot, rule);
    s' := Apply(s', CmdTakeSlot);
    StepLeads(origin, s', CmdFinish, rule);
    s' := Apply(s', CmdFinish);
    assert s'.outcomes[1] == Matched(Reply(CString(67), IO4E_OK, 1));
  }

  lemma OvertakenRun(origin: State, failures: bool, timeouts: bool) returns (s: State)
    requires FirstTimedOut(origin)
    ensures Leads(origin, s, LagRule(false, failures, timeouts)) && !NoneMatched(s, 1)
  {
    LagPermits(false, failures, timeouts);
    LagMayAnswer(origin, 0, false, failures, timeouts);
    s := TokenForStale(origin, LagRule(false, failures, timeouts));
    LagMayAnswer(s, 1, false, failures, timeouts);
    s := Overtakes(origin, s, LagRule(false, failures, timeouts));
  }

  // The first response is in the slot when its context comes round.
  lemma TakesFirstResponse(origin: State, s: State, rule: Rule) returns (s': State)
    requires Leads(origin, s, rule) && Permits(rule, false, false)
    requires s.cmd.Idle? && s.context == 65 && s.sem > 0 && s.slot == Some(Reply(CString(66), IO4E_OK, 0))
    requires |s.outcomes| >= 1
    ensures Leads(origin, s', rule) && !NoneMatched(s', 1)
  {
    StepLeads(origin, s, CmdStart(true), rule);
    s' := Apply(s, CmdStart(true));
    s' := Collect(origin, s', rule);
    assert s'.outcomes[|s.outcomes|] == Matched(Reply(CString(66), IO4E_OK, 0));
  }

  // The first response waits in the slot while 255 writes fail.
  lemma FailuresRun(origin: State, rule: Rule) returns (s: State)
    requires FirstTimedOut(origin) && Permits(rule, true, false) && MayAnswer(origin, 0, rule)
    ensures Leads(origin, s, rule) && !NoneMatched(s, 1)
  {
    LeadsNowhere(origin, rule);
    s := LateResponse(origin, origin, 0, rule);
    s := FailingWrites(origin, s, 255, rule);
    s := TakesFirstResponse(origin, s, rule);
  }

  // The first response is under way while 255 more waits time out.
  lemma TimeoutsRun(origin: State, afterSlot: bool, failures: bool) returns (s: State)
    requires FirstTimedOut(origin)
    ensures Leads(origin, s, LagRule(afterSlot, failures, true)) && !NoneMatched(s, 1)
  {
    var rule := LagRule(afterSlot, failures, true);
    LagPermits(afterSlot, failures, true);
    s := ManyTimeouts(origin, rule);
    LagMayAnswer(s, 0, afterSlot, failures, true);
    s := LateResponse(origin, s, 0, rule);
    s := TakesFirstResponse(origin, s, rule);
  }

  lemma ManyTimeouts(origin: State, rule: Rule) returns (s: State)
    requires FirstTimedOut(origin) && Permits(rule, false, true)
    ensures Leads(origin, s, rule) && s.cmd.Idle? && s.reader.Reading? && s.wire == [] && s.sem == 0
    ensures s.context == 65 && |s.outcomes| == 256 && |s.sends| > 0 && s.sends[0] == 66 && 0 in s.owed
  {
    LeadsNowhere(origin, rule);
    s := TimingOut(origin, origin, 255, rule);
    assert s.sends[0] == origin.sends[0];
  }

  lemma InitialIsSettled()
    ensures Settled(Initial(1)) && Reachable(Initial(1), Echoing) && FirstTimedOut(AfterTimeout(Initial(1)))
  {
    InitialIsReachable(1, Echoing);
  }

  // No command ever matches again, in all runs from a settled client after one timeout,
  // exactly when responses come after their command has taken the slot and neither writes
  // fail nor further waits time out.
  lemma LagThreshold(afterSlot: bool, failures: bool, timeouts: bool)
    ensures StaysOutOfStep(afterSlot, failures, timeouts) <==> afterSlot && !failures && !timeouts
  {
    InitialIsSettled();
    var origin := AfterTimeout(Initial(1));
    if !afterSlot {
      var s := OvertakenRun(origin, failures, timeouts);
    } else if failures {
      LagPermits(afterSlot, failures, timeouts);
      LagMayAnswer(origin, 0, afterSlot, failures, timeouts);
      var s := FailuresRun(origin, LagRule(afterSlot, failures, timeouts));
    } else if timeouts {
      var s := TimeoutsRun(origin, afterSlot, failures);
    } else {
      forall s, s' | Settled(s) && Reachable(s, Echoing) && Leads(AfterTimeout(s), s', LagRule(true, false, false))
        ensures NoneMatched(s', |s.outcomes| + 1)
      {
        LaggingStaysOneBehind(s, s');
      }
    }
  }

  // Coming after the slot was taken is late enough, coming after the token was taken is not.
  lemma SlotOrToken(afterSlot: bool)
    ensures StaysOneBehind(afterSlot) <==> afterSlot
  {
    if afterSlot {
      forall s, s' | Settled(s) && Reachable(s, Echoing) && Leads(AfterTimeout(s), s', LagRule(true, false, false))
        ensures AllMismatch(s', |s.outcomes| + 1)
      {
        LaggingStaysOneBehind(s, s');
      }
    } else {
      InitialIsSettled();
      var s := OvertakenRun(AfterTimeout(Initial(1)), false, false);
    }
  }

  // --- With failing writes and further timeouts -------------------------------------------

  // A response in the slot, or taken from it, answers a command that has taken it before.
  ghost predicate OnlyLateStored(s: State) {
    && (s.slot.Some? ==> HasTaken(s, s.slot.value.answers, true))
    && (s.cmd.SlotTaken? && s.cmd.response.Some? ==> s.cmd.response.value.answers < |s.outcomes|)
    && (forall i :: 0 <= i < |s.outcomes| && s.outcomes[i].Matched? ==> s.outcomes[i].reply.answers < i)
  }

  lemma StepKeepsOnlyLate(s: State, l: Label)
    requires OnlyLateStored(s) && Enabled(s, l) && Lags(s, l, true, true, true)
    ensures OnlyLateStored(Apply(s, l))
  {
  }

  lemma {:induction false} RunKeepsOnlyLate(s: State, labels: seq<Label>)
    requires OnlyLateStored(s) && Run(s, labels, LagRule(true, true, true))
    ensures OnlyLateStored(Exec(s, labels, LagRule(true, true, true)))
    decreases |labels|
  {
    if labels != [] {
      StepKeepsOnlyLate(s, labels[0]);
      RunKeepsOnlyLate(Apply(s, labels[0]), labels[1..]);
    }
  }

  // Whatever writes fail and waits time out: while responses enter the slot only after
  // their own command has taken it or ended, a command that matches used a response at
  // least 13 commands old, never its own.
  lemma LaggardsNeverServe(s: State, i: nat)
    requires Reachable(s, LagRule(true, true, true))
    requires i < |s.outcomes| && s.outcomes[i].Matched?
    ensures i - s.outcomes[i].reply.answers >= 13
  {
    var rule := LagRule(true, true, true);
    var capacity: nat, labels :| Run(Initial(capacity), labels, rule) && s == Exec(Initial(capacity), labels, rule);
    RunKeepsOnlyLate(Initial(capacity), labels);
    ReachableWeakens(s, rule, Echoing);
    MispairingSpansThirteen(s, i);
  }

  // --- Such runs go on for ever ---------------------------------------------------------

  // Between commands, with the last command's own response and its token left over.
  ghost predicate Stale(s: State) {
    && s.cmd.Idle? && s.reader.Reading? && s.wire == [] && s.owed == {} && s.sem == 1
    && |s.sends| > 0 && s.slot.Some? && s.slot.value.answers == |s.sends| - 1
  }

  lemma Prepend(s: State, l: Label, rest: seq<Label>, rule: Rule)
    requires Enabled(s, l) && rule(s, l) && Run(Apply(s, l), rest, rule)
    ensures Run(s, [l] + rest, rule) && Exec(s, [l] + rest, rule) == Exec(Apply(s, l), rest, rule)
  {
    assert ([l] + rest)[1..] == rest;
  }

  // The response to the last command arrives once the command has finished.
  lemma LateDelivery(s: State) returns (labels: seq<Label>, s': State)
    requires s.cmd.Idle? && s.reader.Reading? && s.wire == [] && s.sem == 0 && s.slot == None
    requires |s.sends| == |s.outcomes| > 0 && s.owed == {|s.sends| - 1}
    ensures Run(s, labels, RepliesLag) && s' == Exec(s, labels, RepliesLag)
    ensures Stale(s') && s'.sends == s.sends && s'.outcomes == s.outcomes
  {
    var k := |s.sends| - 1;
    var emit := Emit(Response(Reply(CString(s.sends[k]), IO4E_OK, k)));
    var s1 := Apply(s, emit);
    var s2 := Apply(s1, ReaderRead);
    var s3 := Apply(s2, ReaderStore);
    s' := Apply(s3, ReaderPost);
    Prepend(s3, ReaderPost, [], RepliesLag);
    Prepend(s2, ReaderStore, [ReaderPost] + [], RepliesLag);
    Prepend(s1, ReaderRead, [ReaderStore] + ([ReaderPost] + []), RepliesLag);
    labels := [emit] + ([ReaderRead] + ([ReaderStore] + ([ReaderPost] + [])));
    Prepend(s, emit, [ReaderRead] + ([ReaderStore] + ([ReaderPost] + [])), RepliesLag);
  }

  // A command takes the response to the one before it and fails.
  lemma FailingCommand(s: State) returns (labels: seq<Label>, s': State)
    requires Stale(s) && ContextInv(s) && PendingEcho(s)
    ensures Run(s, labels, RepliesLag) && s' == Exec(s, labels, RepliesLag)
    ensures s'.cmd.Idle? && s'.reader.Reading? && s'.wire == [] && s'.sem == 0 && s'.slot == None
    ensures |s'.sends| == |s'.outcomes| == |s.outcomes| + 1 && s'.owed == {|s'.sends| - 1}
    ensures s'.outcomes == s.outcomes + [Mismatch(s.slot.value)]
  {
    StaleMismatches(s);
    var s1 := Apply(s, CmdStart(true));
    var s2 := Apply(s1, CmdTakeToken);
    var s3 := Apply(s2, CmdTakeSlot);
    s' := Apply(s3, CmdFinish);
    Prepend(s3, CmdFinish, [], RepliesLag);
    Prepend(s2, CmdTakeSlot, [CmdFinish] + [], RepliesLag);
    Prepend(s1, CmdTakeToken, [CmdTakeSlot] + ([CmdFinish] + []), RepliesLag);
    labels := [CmdStart(true)] + ([CmdTakeToken] + ([CmdTakeSlot] + ([CmdFinish] + [])));
    Prepend(s, CmdStart(true), [CmdTakeToken] + ([CmdTakeSlot] + ([CmdFinish] + [])), RepliesLag);
  }

  lemma StaleMismatches(s: State)
    requires Stale(s) && ContextInv(s) && PendingEcho(s)
    ensures OutcomeOf(Increment(s.context), s.slot) == Mismatch(s.slot.value)
  {
    var started := Apply(s, CmdStart(true));
    StepKeepsContext(s, CmdStart(true));
    var last := |s.sends| - 1;
    CStringInjective(started.sends[last], started.sends[last + 1]);
    assert Matches(started.outcomes)[..last + 1] == Matches(started.outcomes);
    NeighboursDiffer(started, last);
  }

  // One failing command and the late arrival of its response lead back to where they
  // started, with one more mismatch: the lag repeats without end.
  lemma StaleRepeats(s: State) returns (labels: seq<Label>, s': State)
    requires Stale(s) && ContextInv(s) && PendingEcho(s)
    ensures Run(s, labels, RepliesLag) && s' == Exec(s, labels, RepliesLag)
    ensures Stale(s') && s'.outcomes == s.outcomes + [Mismatch(s.slot.value)]
  {
    var first, middle := FailingCommand(s);
    var second, last := LateDelivery(middle);
    RunsCompose(s, first, second, RepliesLag);
    labels, s' := first + second, last;
  }

  // For every number of commands there is a run that starts with one timeout of a fresh
  // client and in which that many commands in a row fail.
  lemma {:induction false} MismatchesWithoutEnd(n: nat) returns (s: State)
    ensures Leads(AfterTimeout(Initial(1)), s, RepliesLag) && Stale(s) && ContextInv(s) && PendingEcho(s)
    ensures |s.outcomes| == n + 1 && AllMismatch(s, 1)
  {
    var origin := AfterTimeout(Initial(1));
    InitialIsSettled();
    TimeoutPutsOutOfStep(Initial(1));
    LeadsNowhere(origin, RepliesLag);
    if n == 0 {
      var labels, last := LateDelivery(origin);
      RunLeads(origin, origin, labels, RepliesLag);
      s := last;
    } else {
      var before := MismatchesWithoutEnd(n - 1);
      var labels, last := StaleRepeats(before);
      RunLeads(origin, before, labels, RepliesLag);
      s := last;
    }
    var labels :| Run(origin, labels, RepliesLag) && s == Exec(origin, labels, RepliesLag);
    NeverRecovers(origin, labels, 1);
    KeepsContextAndEcho(origin, labels);
  }

  lemma {:induction false} KeepsContextAndEcho(s: State, labels: seq<Label>)
    requires ContextInv(s) && PendingEcho(s) && Run(s, labels, RepliesLag)
    ensures ContextInv(Exec(s, labels, RepliesLag)) && PendingEcho(Exec(s, labels, RepliesLag))
    decreases |labels|
  {
    if labels != [] {
      StepKeepsContext(s, labels[0]);
      StepKeepsPending(s, labels[0]);
      KeepsContextAndEcho(Apply(s, labels[0]), labels[1..]);
    }
  }
}
