// Short runs from which the longer examples are put together.  Each takes a state that
// some run under a rule leads to, and says which states the run can go on to.
module Scenarios {
  import opened Common
  import opened Context
  import opened Protocol

  // A response travels from the device into the slot, and the reader is about to post it.
  lemma FillSlot(origin: State, s: State, reply: Reply, rule: Rule) returns (s': State)
    requires Leads(origin, s, rule) && s.reader.Reading? && s.wire == []
    requires rule(s, Emit(Response(reply)))
    requires forall t: State :: rule(t, ReaderRead)
    requires forall t: State ::
      t.reader == Storing(reply) && t.cmd == s.cmd && t.sends == s.sends && t.outcomes == s.outcomes
      ==> rule(t, ReaderStore)
    ensures Leads(origin, s', rule)
    ensures s'.reader.Stored? && s'.wire == [] && s'.sem == s.sem && s'.slot == Some(reply)
    ensures s'.cmd == s.cmd && s'.context == s.context && s'.sends == s.sends && s'.outcomes == s.outcomes
    ensures s'.owed == s.owed - {reply.answers}
  {
    StepLeads(origin, s, Emit(Response(reply)), rule);
    s' := Apply(s, Emit(Response(reply)));
    StepLeads(origin, s', ReaderRead, rule);
    s' := Apply(s', ReaderRead);
    StepLeads(origin, s', ReaderStore, rule);
    s' := Apply(s', ReaderStore);
  }

  lemma OneTimeout(origin: State, s: State, rule: Rule) returns (s': State)
    requires Leads(origin, s, rule) && s.cmd.Idle? && s.sem == 0
    requires rule(s, CmdStart(true)) && rule(Apply(s, CmdStart(true)), CmdTimeout)
    ensures Leads(origin, s', rule) && s'.cmd.Idle?
    ensures s'.sem == 0 && s'.slot == s.slot && s'.reader == s.reader && s'.wire == s.wire
    ensures s'.outcomes == s.outcomes + [TimedOut]
    ensures s'.context == Increment(s.context) && s'.sends == s.sends + [s'.context]
    ensures s'.owed == s.owed + {|s.sends|}
  {
    StepLeads(origin, s, CmdStart(true), rule);
    s' := Apply(s, CmdStart(true));
    StepLeads(origin, s', CmdTimeout, rule);
    s' := Apply(s', CmdTimeout);
  }

  // A waiting command takes the token and the response and finishes.
  lemma Collect(origin: State, s: State, rule: Rule) returns (s': State)
    requires Leads(origin, s, rule) && s.cmd.Waiting? && s.sem > 0 && s.slot.Some?
    requires forall t: State :: rule(t, CmdTakeToken) && rule(t, CmdFinish)
    requires forall t: State :: t.slot == s.slot && t.sends == s.sends ==> rule(t, CmdTakeSlot)
    ensures Leads(origin, s', rule)
    ensures s' == s.(cmd := CmdPhase.Idle, sem := s.sem - 1, slot := None,
                     outcomes := s.outcomes + [OutcomeOf(s.context, s.slot)],
                     context := if OutcomeOf(s.context, s.slot).Matched? then Advance(s.context) else s.context)
  {
    s' := s;
    StepLeads(origin, s', CmdTakeToken, rule);
    s' := Apply(s', CmdTakeToken);
    StepLeads(origin, s', CmdTakeSlot, rule);
    s' := Apply(s', CmdTakeSlot);
    StepLeads(origin, s', CmdFinish, rule);
    s' := Apply(s', CmdFinish);
  }

  lemma OneFailure(origin: State, s: State, rule: Rule) returns (s': State)
    requires Leads(origin, s, rule) && s.cmd.Idle? && rule(s, CmdStart(false))
    ensures Leads(origin, s', rule) && s'.cmd.Idle?
    ensures s'.sem == s.sem && s'.slot == s.slot && s'.reader == s.reader
    ensures |s'.outcomes| == |s.outcomes| + 1 && s'.context == Increment(s.context)
    ensures s'.wire == s.wire && s'.owed == s.owed && s.sends <= s'.sends
  {
    StepLeads(origin, s, CmdStart(false), rule);
    s' := Apply(s, CmdStart(false));
  }

  lemma {:induction false} FailingWrites(origin: State, s: State, n: nat, rule: Rule) returns (s': State)
    requires Leads(origin, s, rule) && s.cmd.Idle? && n < 256
    requires forall t :: rule(t, CmdStart(false))
    ensures Leads(origin, s', rule) && s'.cmd.Idle?
    ensures s'.sem == s.sem && s'.slot == s.slot && s'.reader == s.reader && s'.wire == s.wire
    ensures s'.owed == s.owed && s.sends <= s'.sends
    ensures |s'.outcomes| == |s.outcomes| + n
    ensures s'.context == if s.context + n < 256 then s.context + n else s.context + n - 256
  {
    s' := s;
    if n > 0 {
      s' := FailingWrites(origin, s, n - 1, rule);
      s' := OneFailure(origin, s', rule);
    }
  }

  lemma {:induction false} TimingOut(origin: State, s: State, n: nat, rule: Rule) returns (s': State)
    requires Leads(origin, s, rule) && s.cmd.Idle? && s.sem == 0 && n < 256
    requires forall t :: rule(t, CmdStart(true)) && rule(t, CmdTimeout)
    ensures Leads(origin, s', rule) && s'.cmd.Idle?
    ensures s'.sem == s.sem && s'.slot == s.slot && s'.reader == s.reader && s'.wire == s.wire
    ensures s.owed <= s'.owed && s.sends <= s'.sends
    ensures |s'.outcomes| == |s.outcomes| + n
    ensures s'.context == if s.context + n < 256 then s.context + n else s.context + n - 256
  {
    s' := s;
    if n > 0 {
      s' := TimingOut(origin, s, n - 1, rule);
      s' := OneTimeout(origin, s', rule);
    }
  }
}
