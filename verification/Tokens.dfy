// Conservation laws of the command semaphore and the response slot.
module Tokens {
  import opened Common
  import opened Protocol
  import opened Fidelity

  // --- Tokens and timeouts ---------------------------------------------------------

  // Responses still to be posted: not composed yet, on the wire, or held by the reader.
  function InFlight(s: State): nat {
    |s.owed| + |Replies(s.wire)| + if s.reader.Storing? || s.reader.Stored? then 1 else 0
  }

  function Timeouts(outcomes: seq<Outcome>): nat {
    if outcomes == [] then 0
    else Timeouts(outcomes[..|outcomes| - 1]) + if outcomes[|outcomes| - 1].TimedOut? then 1 else 0
  }

  ghost predicate Conserved(s: State) {
    && (forall k :: k in s.owed ==> k < |s.sends|)
    && s.sem + InFlight(s) == Timeouts(s.outcomes) + if s.cmd.Waiting? then 1 else 0
  }

  lemma EmitKeepsInFlight(s: State, m: Msg)
    requires m.Response? ==> m.reply.answers in s.owed
    ensures InFlight(Apply(s, Emit(m))) == InFlight(s)
  {
    OneMoreMessage(s.wire, m);
    assert m.Response? ==> s.owed == s.owed - {m.reply.answers} + {m.reply.answers};
  }

  lemma OtherStepInFlight(s: State, l: Label)
    requires Enabled(s, l) && !l.Emit? && |s.sends| !in s.owed
    ensures InFlight(Apply(s, l)) ==
      InFlight(s) + (if l == CmdStart(true) then 1 else 0) - (if l.ReaderPost? then 1 else 0)
  {
    if l.ReaderRead? {
      FirstMessage(s.wire);
    }
  }

  lemma StepKeepsConserved(s: State, l: Label)
    requires Conserved(s) && Enabled(s, l) && Answering(s, l)
    ensures Conserved(Apply(s, l))
    ensures Timeouts(Apply(s, l).outcomes) >= Timeouts(s.outcomes)
  {
    var s' := Apply(s, l);
    if l.Emit? {
      EmitKeepsInFlight(s, l.msg);
    } else {
      OtherStepInFlight(s, l);
    }
    if s'.outcomes != s.outcomes {
      assert s'.outcomes[..|s.outcomes|] == s.outcomes;
    }
  }

  lemma {:induction false} RunKeepsConserved(s: State, labels: seq<Label>)
    requires Conserved(s) && Run(s, labels, Answering)
    ensures Conserved(Exec(s, labels, Answering))
    ensures Timeouts(Exec(s, labels, Answering).outcomes) >= Timeouts(s.outcomes)
    decreases |labels|
  {
    if labels != [] {
      StepKeepsConserved(s, labels[0]);
      RunKeepsConserved(Apply(s, labels[0]), labels[1..]);
    }
  }

  lemma ReachableConserves(s: State)
    requires Reachable(s, Answering)
    ensures Conserved(s)
  {
    var capacity: nat, labels :|
      Run(Initial(capacity), labels, Answering) && s == Exec(Initial(capacity), labels, Answering);
    RunKeepsConserved(Initial(capacity), labels);
  }

  // Between commands, the tokens of the semaphore and the responses still in flight are
  // as many as the waits that have timed out; during a wait there is one more.
  lemma TokenConservation(s: State)
    requires Reachable(s, Answering)
    ensures s.cmd.Waiting? ==> s.sem + InFlight(s) == Timeouts(s.outcomes) + 1
    ensures !s.cmd.Waiting? ==> s.sem + InFlight(s) == Timeouts(s.outcomes)
  {
    ReachableConserves(s);
  }

  // A wait can only time out while responses are in flight for it and for each wait that
  // timed out before.
  lemma TimeoutsLeaveResponses(s: State)
    requires Reachable(s, Answering) && Enabled(s, CmdTimeout)
    ensures InFlight(s) == Timeouts(s.outcomes) + 1
  {
    TokenConservation(s);
    assert s.cmd.Waiting? && s.sem == 0;
  }

  // The surplus that timeouts leave behind is never worked off.
  lemma SurplusNeverShrinks(s: State, labels: seq<Label>)
    requires Reachable(s, Answering) && Run(s, labels, Answering)
    ensures var s' := Exec(s, labels, Answering);
      s.cmd.Idle? && s'.cmd.Idle? ==> s.sem + InFlight(s) <= s'.sem + InFlight(s')
  {
    ReachableConserves(s);
    RunKeepsConserved(s, labels);
  }

  // --- Tokens and the slot ------------------------------------------------------------

  // Tokens that stand for a response in the slot or one lost from it: posted, about to be
  // posted by the reader, or taken by a command that has not read the slot yet.
  function TokensInTransit(s: State): nat {
    s.sem + (if s.reader.Stored? then 1 else 0) + (if s.cmd.TokenTaken? then 1 else 0)
  }

  function MissingResponses(outcomes: seq<Outcome>): nat {
    if outcomes == [] then 0
    else MissingResponses(outcomes[..|outcomes| - 1]) + if outcomes[|outcomes| - 1].NoResponse? then 1 else 0
  }

  // Commands that woke up and found the slot empty.
  function EmptyWakes(s: State): nat {
    MissingResponses(s.outcomes) + if s.cmd.SlotTaken? && s.cmd.response == None then 1 else 0
  }

  ghost predicate SlotBalanced(s: State) {
    && TokensInTransit(s) + EmptyWakes(s) == s.overwritten + (if s.slot.Some? then 1 else 0)
    && (s.slot.Some? ==> TokensInTransit(s) > 0)
  }

  lemma OneMoreOutcome(outcomes: seq<Outcome>, o: Outcome)
    ensures MissingResponses(outcomes + [o]) == MissingResponses(outcomes) + if o.NoResponse? then 1 else 0
  {
    assert (outcomes + [o])[..|outcomes|] == outcomes;
  }

  // A command that ends leaves the number of empty wake-ups as it was.
  lemma EndKeepsEmptyWakes(s: State, s': State, o: Outcome)
    requires s'.outcomes == s.outcomes + [o] && !s'.cmd.SlotTaken?
    requires o.NoResponse? <==> s.cmd.SlotTaken? && s.cmd.response == None
    ensures EmptyWakes(s') == EmptyWakes(s)
  {
    OneMoreOutcome(s.outcomes, o);
  }

  lemma UnansweredKeepsSlotBalance(s: State, l: Label)
    requires SlotBalanced(s) && Enabled(s, l) && (l == CmdStart(false) || l.CmdTimeout?)
    ensures SlotBalanced(Apply(s, l))
  {
    EndKeepsEmptyWakes(s, Apply(s, l), if l.CmdStart? then WriteFailed else TimedOut);
  }

  lemma FinishKeepsSlotBalance(s: State)
    requires SlotBalanced(s) && s.cmd.SlotTaken?
    ensures SlotBalanced(Apply(s, CmdFinish))
  {
    EndKeepsEmptyWakes(s, Apply(s, CmdFinish), OutcomeOf(s.context, s.cmd.response));
  }

  lemma ExchangeKeepsSlotBalance(s: State, l: Label)
    requires SlotBalanced(s) && Enabled(s, l)
    requires l != CmdStart(false) && !l.CmdTimeout? && !l.CmdFinish?
    ensures SlotBalanced(Apply(s, l))
  {
    assert Apply(s, l).outcomes == s.outcomes;
  }

  lemma StepKeepsSlotBalance(s: State, l: Label)
    requires SlotBalanced(s) && Enabled(s, l)
    ensures SlotBalanced(Apply(s, l))
  {
    if l == CmdStart(false) || l.CmdTimeout? {
      UnansweredKeepsSlotBalance(s, l);
    } else if l.CmdFinish? {
      FinishKeepsSlotBalance(s);
    } else {
      ExchangeKeepsSlotBalance(s, l);
    }
  }

  lemma {:induction false} RunKeepsSlotBalance(s: State, labels: seq<Label>)
    requires SlotBalanced(s) && Run(s, labels, AnyStep)
    ensures SlotBalanced(Exec(s, labels, AnyStep))
    decreases |labels|
  {
    if labels != [] {
      StepKeepsSlotBalance(s, labels[0]);
      RunKeepsSlotBalance(Apply(s, labels[0]), labels[1..]);
    }
  }

  // Whatever the device sends: every token in transit stands for the response in the slot
  // or for one that was overwritten there, so commands that wake up to an empty slot are
  // no more than the overwritten responses; and a response in the slot always has a token.
  lemma SlotAccounting(s: State)
    requires Reachable(s, AnyStep)
    ensures TokensInTransit(s) + EmptyWakes(s) == s.overwritten + (if s.slot.Some? then 1 else 0)
    ensures EmptyWakes(s) <= s.overwritten
    ensures s.slot.Some? ==> s.sem > 0 || s.reader.Stored? || s.cmd.TokenTaken?
  {
    var capacity: nat, labels :|
      Run(Initial(capacity), labels, AnyStep) && s == Exec(Initial(capacity), labels, AnyStep);
    RunKeepsSlotBalance(Initial(capacity), labels);
  }
}
