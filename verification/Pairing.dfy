// Whether a command that succeeds has used the response to that very command.
module Pairing {
  import opened Common
  import opened Context
  import opened Protocol
  import opened Scenarios

  // Every response the device emits carries the context of the command it answers.
  ghost predicate Echoing(s: State, l: Label) {
    l.Emit? && l.msg.Response? ==> Echo(s, l.msg.reply)
  }

  ghost predicate Echo(s: State, r: Reply) {
    r.answers < |s.sends| && r.context == CString(s.sends[r.answers])
  }

  // How many commands were sent after the one a response answers.
  function Age(s: State, r: Reply): int {
    |s.sends| - 1 - r.answers
  }

  // Every command that found a matching response got its own.
  ghost predicate Paired(s: State) {
    forall i :: 0 <= i < |s.outcomes| && s.outcomes[i].Matched? ==> s.outcomes[i].reply.answers == i
  }

  // --- Every mispairing spans at least 13 commands ------------------------------------

  // The responses that may still reach a command.
  ghost predicate PendingEcho(s: State) {
    && (forall m :: m in s.wire && m.Response? ==> Echo(s, m.reply))
    && (s.reader.Storing? ==> Echo(s, s.reader.reply))
    && (s.slot.Some? ==> Echo(s, s.slot.value))
    && (s.cmd.SlotTaken? && s.cmd.response.Some? ==> Echo(s, s.cmd.response.value))
  }

  ghost predicate EchoInv(s: State) {
    && PendingEcho(s)
    && (forall i :: 0 <= i < |s.outcomes| && s.outcomes[i].Matched? ==>
          var k := s.outcomes[i].reply.answers;
          k <= i < |s.sends| && s.sends[k] == s.sends[i])
  }

  lemma StepKeepsPending(s: State, l: Label)
    requires PendingEcho(s) && Enabled(s, l) && Echoing(s, l)
    ensures PendingEcho(Apply(s, l))
  {
    var s' := Apply(s, l);
    assert s.sends <= s'.sends;
    assert forall r :: Echo(s, r) ==> Echo(s', r);
  }

  lemma StepKeepsEcho(s: State, l: Label)
    requires ContextInv(s) && EchoInv(s) && Enabled(s, l) && Echoing(s, l)
    ensures EchoInv(Apply(s, l))
  {
    StepKeepsPending(s, l);
    if l.CmdFinish? && s.cmd.response.Some? {
      CStringInjective(s.sends[s.cmd.response.value.answers], s.context);
      assert s.sends[|s.sends| - 1] == s.context by {
        assert Matches(s.outcomes)[..|s.outcomes|] == Matches(s.outcomes);
      }
    }
  }

  lemma {:induction false} RunKeepsEcho(s: State, labels: seq<Label>, rule: Rule)
    requires ContextInv(s) && EchoInv(s) && Run(s, labels, rule)
    requires forall t, l :: rule(t, l) ==> Echoing(t, l)
    ensures ContextInv(Exec(s, labels, rule)) && EchoInv(Exec(s, labels, rule))
    decreases |labels|
  {
    if labels != [] {
      StepKeepsContext(s, labels[0]);
      StepKeepsEcho(s, labels[0]);
      RunKeepsEcho(Apply(s, labels[0]), labels[1..], rule);
    }
  }

  lemma ReachableEcho(s: State, rule: Rule)
    requires Reachable(s, rule)
    requires forall t, l :: rule(t, l) ==> Echoing(t, l)
    ensures ContextInv(s) && EchoInv(s)
  {
    var capacity: nat, labels :|
      Run(Initial(capacity), labels, rule) && s == Exec(Initial(capacity), labels, rule);
    RunKeepsEcho(Initial(capacity), labels, rule);
  }

  // Whatever timeouts, write failures, late, repeated and lost responses occurred: a
  // command that matched used its own response or one at least 13 commands old.
  lemma MispairingSpansThirteen(s: State, i: nat)
    requires Reachable(s, Echoing)
    requires i < |s.outcomes| && s.outcomes[i].Matched?
    ensures s.outcomes[i].reply.answers == i || i - s.outcomes[i].reply.answers >= 13
  {
    ReachableEcho(s, Echoing);
    if s.outcomes[i].reply.answers < i {
      ContextsRecurLate(s, s.outcomes[i].reply.answers, i);
    }
  }

  // --- The threshold on the age at which responses are taken ----------------------------

  // No response is taken `bound` or more commands late.  With `once` the device answers
  // no command twice.
  ghost function TakenWithin(bound: nat, once: bool): Rule {
    (s: State, l: Label) =>
      && Echoing(s, l)
      && (once ==> Answering(s, l))
      && (l.CmdTakeSlot? && s.slot.Some? ==> Age(s, s.slot.value) < bound)
  }

  ghost predicate TakenAgesInv(s: State, bound: nat) {
    && (s.cmd.SlotTaken? && s.cmd.response.Some? ==> Age(s, s.cmd.response.value) < bound)
    && (forall i :: 0 <= i < |s.outcomes| && s.outcomes[i].Matched? ==> i - s.outcomes[i].reply.answers < bound)
  }

  lemma StepKeepsTakenAges(s: State, l: Label, bound: nat)
    requires ContextInv(s) && TakenAgesInv(s, bound) && Enabled(s, l)
    requires l.CmdTakeSlot? && s.slot.Some? ==> Age(s, s.slot.value) < bound
    ensures TakenAgesInv(Apply(s, l), bound)
  {
  }

  lemma {:induction false} RunKeepsTakenAges(s: State, labels: seq<Label>, bound: nat, once: bool)
    requires ContextInv(s) && TakenAgesInv(s, bound) && Run(s, labels, TakenWithin(bound, once))
    ensures TakenAgesInv(Exec(s, labels, TakenWithin(bound, once)), bound)
    decreases |labels|
  {
    if labels != [] {
      StepKeepsContext(s, labels[0]);
      StepKeepsTakenAges(s, labels[0], bound);
      RunKeepsTakenAges(Apply(s, labels[0]), labels[1..], bound, once);
    }
  }

  ghost predicate SafeWhenTakenWithin(bound: nat, once: bool) {
    forall s :: Reachable(s, TakenWithin(bound, once)) ==> Paired(s)
  }

  lemma TakenWithinThirteenIsSafe(s: State, bound: nat, once: bool)
    requires bound <= 13 && Reachable(s, TakenWithin(bound, once))
    ensures Paired(s)
  {
    var rule := TakenWithin(bound, once);
    var capacity: nat, labels :| Run(Initial(capacity), labels, rule) && s == Exec(Initial(capacity), labels, rule);
    RunKeepsTakenAges(Initial(capacity), labels, bound, once);
    ReachableWeakens(s, rule, Echoing);
    forall i | 0 <= i < |s.outcomes| && s.outcomes[i].Matched? ensures s.outcomes[i].reply.answers == i {
      MispairingSpansThirteen(s, i);
    }
  }

  // Pairing holds in all runs that take no response `bound` or more commands late exactly
  // when `bound` is at most 13, whether or not the device may answer a command twice.
  lemma TakenAgeThreshold(bound: nat, once: bool)
    ensures SafeWhenTakenWithin(bound, once) <==> bound <= 13
  {
    if bound <= 13 {
      forall s | Reachable(s, TakenWithin(bound, once)) ensures Paired(s) {
        TakenWithinThirteenIsSafe(s, bound, once);
      }
    } else {
      var s := LateResponseRun();
      ReachableWeakens(s, Tight, TakenWithin(bound, once));
    }
  }

  // --- The threshold on the age at which responses arrive --------------------------------

  // No response enters the slot `bound` or more commands late.  `failures` permits writes
  // to fail, `slowPost` permits waits to time out between the reader's store and its post.
  ghost function StoredWithin(bound: nat, failures: bool, slowPost: bool, once: bool): Rule {
    (s: State, l: Label) =>
      && Echoing(s, l)
      && (once ==> Answering(s, l))
      && (l.CmdStart? && !l.written ==> failures)
      && (l.CmdTimeout? && s.reader.Stored? ==> slowPost)
      && (l.ReaderStore? && s.reader.Storing? ==> Age(s, s.reader.reply) < bound)
  }

  ghost predicate SafeWhenStoredWithin(bound: nat, failures: bool, slowPost: bool, once: bool) {
    forall s :: Reachable(s, StoredWithin(bound, failures, slowPost, once)) ==> Paired(s)
  }

  // A response waits in the slot for at most one more command, because its token does.
  ghost predicate SlotAge(s: State, bound: nat) {
    && (s.slot.Some? ==> s.sem > 0 || s.reader.Stored? || s.cmd.TokenTaken?)
    && (s.slot.Some? ==> Age(s, s.slot.value) < bound + if s.cmd.Waiting? || s.cmd.TokenTaken? then 1 else 0)
  }

  lemma StepKeepsSlotAge(s: State, l: Label, bound: nat, once: bool)
    requires SlotAge(s, bound) && Enabled(s, l) && StoredWithin(bound, false, false, once)(s, l)
    ensures SlotAge(Apply(s, l), bound)
  {
  }

  lemma {:induction false} RunKeepsSlotAge(s: State, labels: seq<Label>, bound: nat, once: bool)
    requires ContextInv(s) && SlotAge(s, bound) && TakenAgesInv(s, bound + 1)
    requires Run(s, labels, StoredWithin(bound, false, false, once))
    ensures var s' := Exec(s, labels, StoredWithin(bound, false, false, once));
      SlotAge(s', bound) && TakenAgesInv(s', bound + 1)
    decreases |labels|
  {
    if labels != [] {
      StepKeepsContext(s, labels[0]);
      StepKeepsSlotAge(s, labels[0], bound, once);
      StepKeepsTakenAges(s, labels[0], bound + 1);
      RunKeepsSlotAge(Apply(s, labels[0]), labels[1..], bound, once);
    }
  }

  lemma StoredWithinTwelveIsSafe(s: State, bound: nat, once: bool)
    requires bound <= 12 && Reachable(s, StoredWithin(bound, false, false, once))
    ensures Paired(s)
  {
    var rule := StoredWithin(bound, false, false, once);
    var capacity: nat, labels :| Run(Initial(capacity), labels, rule) && s == Exec(Initial(capacity), labels, rule);
    RunKeepsSlotAge(Initial(capacity), labels, bound, once);
    ReachableWeakens(s, rule, Echoing);
    forall i | 0 <= i < |s.outcomes| && s.outcomes[i].Matched? ensures s.outcomes[i].reply.answers == i {
      MispairingSpansThirteen(s, i);
    }
  }

  // --- The run that attains both thresholds -----------------------------------------------

  ghost predicate Tight(s: State, l: Label) {
    && Echoing(s, l)
    && Answering(s, l)
    && (l.CmdStart? ==> l.written)
    && (l.CmdTimeout? ==> !s.reader.Stored?)
    && (l.ReaderStore? && s.reader.Storing? ==> Age(s, s.reader.reply) < 13)
    && (l.CmdTakeSlot? && s.slot.Some? ==> Age(s, s.slot.value) < 14)
  }

  ghost predicate Quiet(s: State) {
    && s.cmd.Idle? && s.reader.Reading? && s.sem == 0 && s.slot == None && s.wire == []
    && Leads(Initial(1), s, Tight)
  }

  lemma Deliver(s: State, k: nat) returns (s': State)
    requires Leads(Initial(1), s, Tight) && k < |s.sends| && k in s.owed
    requires s.reader.Reading? && s.wire == [] && |s.sends| - 1 - k < 13
    ensures Leads(Initial(1), s', Tight)
    ensures s'.reader.Reading? && s'.wire == [] && s'.owed == s.owed - {k}
    ensures s'.sem == s.sem + 1 && s'.slot == Some(Reply(CString(s.sends[k]), IO4E_OK, k))
    ensures s'.cmd == s.cmd && s'.context == s.context && s'.sends == s.sends && s'.outcomes == s.outcomes
  {
    s' := FillSlot(Initial(1), s, Reply(CString(s.sends[k]), IO4E_OK, k), Tight);
    StepLeads(Initial(1), s', ReaderPost, Tight);
    s' := Apply(s', ReaderPost);
  }

  // A command whose response comes at once; the first one stays unanswered.
  lemma MatchedRound(s: State) returns (s': State)
    requires Quiet(s) && 0 in s.owed && |s.sends| > 0
    ensures Quiet(s') && 0 in s'.owed
    ensures s'.sends == s.sends + [Increment(s.context)] && s'.context == Advance(Increment(s.context))
    ensures |s'.outcomes| == |s.outcomes| + 1
  {
    StepLeads(Initial(1), s, CmdStart(true), Tight);
    s' := Apply(s, CmdStart(true));
    s' := Deliver(s', |s.sends|);
    s' := Collect(Initial(1), s', Tight);
  }

  lemma {:induction false} MatchedRounds(s: State, n: nat) returns (s': State)
    requires Quiet(s) && 0 in s.owed && n <= 12
    requires s.context == 66 && s.sends == [66] && |s.outcomes| == 1
    ensures Quiet(s') && 0 in s'.owed
    ensures |s'.sends| == |s'.outcomes| == n + 1 && s'.sends[0] == 66
    ensures s'.context == if n < 12 then 66 + 2 * n else 65
  {
    s' := s;
    if n > 0 {
      s' := MatchedRounds(s, n - 1);
      s' := MatchedRound(s');
    }
  }

  lemma ThirteenCommands() returns (s: State)
    ensures Quiet(s) && 0 in s.owed
    ensures |s.sends| == |s.outcomes| == 13 && s.sends[0] == 66 && s.context == 65
  {
    LeadsNowhere(Initial(1), Tight);
    s := OneTimeout(Initial(1), Initial(1), Tight);
    s := MatchedRounds(s, 12);
  }

  // The first command times out, twelve match and bring the context back to 'A', and the
  // response to the first command arrives in time for the fourteenth.
  lemma LateResponseRun() returns (s: State)
    ensures Reachable(s, Tight) && !Paired(s)
  {
    s := ThirteenCommands();
    s := Deliver(s, 0);
    StepLeads(Initial(1), s, CmdStart(true), Tight);
    s := Apply(s, CmdStart(true));
    s := Collect(Initial(1), s, Tight);
    assert s.outcomes[13] == Matched(Reply(CString(66), IO4E_OK, 0));
  }

  // --- Responses that stay in the slot ---------------------------------------------------------

  lemma StepStoresNothing(s: State, l: Label)
    requires Enabled(s, l) && !l.ReaderStore?
    requires s.slot == None && (s.cmd.SlotTaken? ==> s.cmd.response == None)
    requires forall i :: 0 <= i < |s.outcomes| ==> !s.outcomes[i].Matched?
    ensures var s' := Apply(s, l);
      && s'.slot == None && (s'.cmd.SlotTaken? ==> s'.cmd.response == None)
      && forall i :: 0 <= i < |s'.outcomes| ==> !s'.outcomes[i].Matched?
  {
  }

  lemma {:induction false} NothingStored(s: State, labels: seq<Label>, rule: Rule)
    requires ContextInv(s) && EchoInv(s) && Run(s, labels, rule)
    requires forall t: State, l: Label :: rule(t, l) ==> Echoing(t, l)
    requires forall t: State, l: Label ::
      rule(t, l) && l.ReaderStore? && t.reader.Storing? ==> Age(t, t.reader.reply) < 0
    requires s.slot == None && (s.cmd.SlotTaken? ==> s.cmd.response == None)
    requires forall i :: 0 <= i < |s.outcomes| ==> !s.outcomes[i].Matched?
    ensures Paired(Exec(s, labels, rule))
    decreases |labels|
  {
    if labels != [] {
      StepKeepsContext(s, labels[0]);
      StepKeepsEcho(s, labels[0]);
      assert !labels[0].ReaderStore?;
      StepStoresNothing(s, labels[0]);
      NothingStored(Apply(s, labels[0]), labels[1..], rule);
    }
  }

  lemma FirstMayBeAnswered(s: State, bound: nat, failures: bool, slowPost: bool, once: bool)
    requires bound > 0 && s.sends == [66] && 0 in s.owed
    ensures var rule, reply := StoredWithin(bound, failures, slowPost, once), Reply(CString(66), IO4E_OK, 0);
      && rule(s, Emit(Response(reply)))
      && (forall t: State :: rule(t, ReaderRead))
      && (forall t: State :: t.reader == Storing(reply) && t.sends == s.sends ==> rule(t, ReaderStore))
  {
    var rule, reply := StoredWithin(bound, failures, slowPost, once), Reply(CString(66), IO4E_OK, 0);
    forall t: State | t.reader == Storing(reply) && t.sends == s.sends ensures rule(t, ReaderStore) {
      assert Age(t, reply) == 0;
    }
  }

  // The first command has timed out, and its response has just entered the slot.
  lemma JustStored(rule: Rule, bound: nat, failures: bool, slowPost: bool, once: bool) returns (s: State)
    requires bound > 0 && rule == StoredWithin(bound, failures, slowPost, once)
    ensures Leads(Initial(1), s, rule) && s.cmd.Idle? && s.reader.Stored?
    ensures s.sem == 0 && s.slot == Some(Reply(CString(66), IO4E_OK, 0))
    ensures s.context == 66 && |s.outcomes| == 1
  {
    LeadsNowhere(Initial(1), rule);
    s := OneTimeout(Initial(1), Initial(1), rule);
    assert s.sends == [66] && 0 in s.owed;
    FirstMayBeAnswered(s, bound, failures, slowPost, once);
    s := FillSlot(Initial(1), s, Reply(CString(66), IO4E_OK, 0), rule);
  }

  // 255 commands go by without touching the slot, because their writes fail or because
  // the token is not posted yet; the next one carries the same context again.
  lemma ContextComesRound(rule: Rule, bound: nat, failures: bool, slowPost: bool, once: bool) returns (s: State)
    requires bound > 0 && (failures || slowPost) && rule == StoredWithin(bound, failures, slowPost, once)
    ensures Leads(Initial(1), s, rule) && s.cmd.Idle? && s.reader.Stored?
    ensures s.slot == Some(Reply(CString(66), IO4E_OK, 0))
    ensures s.context == 65 && |s.outcomes| == 256
  {
    s := JustStored(rule, bound, failures, slowPost, once);
    if failures {
      s := FailingWrites(Initial(1), s, 255, rule);
    } else {
      s := TimingOut(Initial(1), s, 255, rule);
    }
  }

  lemma StaleResponseRun(bound: nat, failures: bool, slowPost: bool, once: bool) returns (s: State)
    requires bound > 0 && (failures || slowPost)
    ensures Reachable(s, StoredWithin(bound, failures, slowPost, once)) && !Paired(s)
  {
    var rule := StoredWithin(bound, failures, slowPost, once);
    s := ContextComesRound(rule, bound, failures, slowPost, once);
    StepLeads(Initial(1), s, ReaderPost, rule);
    s := Apply(s, ReaderPost);
    StepLeads(Initial(1), s, CmdStart(true), rule);
    s := Apply(s, CmdStart(true));
    s := Collect(Initial(1), s, rule);
    assert s.outcomes[256] == Matched(Reply(CString(66), IO4E_OK, 0));
  }

  // Pairing holds in all runs whose responses arrive less than `bound` commands late
  // exactly when `bound` is at most 12, no write fails and the reader posts at once; or
  // when no response arrives at all.  A response that arrives twelve commands late is
  // taken by the thirteenth; one that is not taken at once can wait for its context to
  // come round.  It makes no difference whether the device may answer a command twice.
  lemma StoredAgeThreshold(bound: nat, failures: bool, slowPost: bool, once: bool)
    ensures SafeWhenStoredWithin(bound, failures, slowPost, once) <==>
      bound == 0 || (bound <= 12 && !failures && !slowPost)
  {
    var rule := StoredWithin(bound, failures, slowPost, once);
    if bound == 0 {
      forall s | Reachable(s, rule) ensures Paired(s) {
        var capacity: nat, labels :| Run(Initial(capacity), labels, rule) && s == Exec(Initial(capacity), labels, rule);
        NothingStored(Initial(capacity), labels, rule);
      }
    } else if failures || slowPost {
      var s := StaleResponseRun(bound, failures, slowPost, once);
    } else if bound <= 12 {
      forall s | Reachable(s, rule) ensures Paired(s) {
        StoredWithinTwelveIsSafe(s, bound, once);
      }
    } else {
      var s := LateResponseRun();
      ReachableWeakens(s, Tight, rule);
    }
  }
}
