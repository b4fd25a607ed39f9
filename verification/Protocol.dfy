// The client as a labelled transition system.
//
// Application threads run one command at a time (cmd_mutex); the reader thread splits
// the incoming messages into command responses and stream data; the device puts messages
// on the wire.  A label names one atomic step, and any interleaving of enabled steps is a
// run.  Exchanging the response slot is one step here; `SlotExclusion` and `SlotRefinement`
// say when that is justified.
module Protocol {
  import opened Common
  import opened Context

  type Data = nat

  // A command response.  `context` is its context as a C string; `code` is IO4E_OK or the
  // error its status maps to.  `answers` is the number of the command the device composed
  // it for, which the client never sees.
  datatype Reply = Reply(context: seq<Byte>, code: int, answers: nat)

  // A framed payload as the reader sees it; Garbage is empty or cannot be unpacked.
  datatype Msg = Response(reply: Reply) | Stream(data: Data) | Garbage

  // The C string that `cmd_context` holds.
  function CString(b: Byte): seq<Byte> {
    if b == 0 then [] else [b]
  }

  datatype CmdPhase =
    | Idle
    | Waiting                              // written, before or inside sem_timedwait
    | TokenTaken                           // sem_timedwait has succeeded
    | SlotTaken(response: Option<Reply>)   // cmd_response read and cleared

  datatype ReaderPhase =
    | Reading
    | Storing(reply: Reply)
    | Stored                               // slot set, sem_post still to come
    | Pushing(data: Data)

  datatype Outcome =
    | WriteFailed
    | TimedOut
    | NoResponse
    | Mismatch(reply: Reply)
    | Matched(reply: Reply)

  // A stream message the reader tried to queue; not accepted when the push gave up.
  datatype Offer = Offer(data: Data, accepted: bool)
  // A stream message taken from the queue; not delivered when its unpacking failed.
  datatype Taken = Taken(data: Data, delivered: bool)

  datatype State = State(
    context: Byte,
    sem: nat,
    slot: Option<Reply>,
    cmd: CmdPhase,
    reader: ReaderPhase,
    queue: seq<Data>,
    capacity: nat,
    wire: seq<Msg>,
    // What has happened so far.
    sends: seq<Byte>,          // the context of every command
    outcomes: seq<Outcome>,    // how every finished command ended
    owed: set<nat>,            // written commands the device has not answered
    emitted: seq<Msg>,
    handled: seq<Msg>,
    stored: seq<Reply>,        // the responses that entered the slot
    overwritten: nat,
    offered: seq<Offer>,
    taken: seq<Taken>)

  datatype Label =
    | Emit(msg: Msg)
    | CmdStart(written: bool)
    | CmdTimeout
    | CmdTakeToken
    | CmdTakeSlot
    | CmdFinish
    | ReaderRead
    | ReaderStore
    | ReaderPost
    | ReaderPush
    | ReaderGiveUp
    | AppPop(unpacks: bool)

  function Initial(capacity: nat): State {
    State(CONTEXT_A, 0, None, Idle, Reading, [], capacity, [], [], [], {}, [], [], [], 0, [], [])
  }

  predicate Enabled(s: State, l: Label) {
    match l
    case Emit(_) => true
    case CmdStart(_) => s.cmd.Idle?
    case CmdTimeout => s.cmd.Waiting? && s.sem == 0
    case CmdTakeToken => s.cmd.Waiting? && s.sem > 0
    case CmdTakeSlot => s.cmd.TokenTaken?
    case CmdFinish => s.cmd.SlotTaken?
    case ReaderRead => s.reader.Reading? && s.wire != []
    case ReaderStore => s.reader.Storing?
    case ReaderPost => s.reader.Stored?
    case ReaderPush => s.reader.Pushing? && |s.queue| < s.capacity
    case ReaderGiveUp => s.reader.Pushing? && |s.queue| >= s.capacity
    case AppPop(_) => s.queue != []
  }

  function OutcomeOf(context: Byte, response: Option<Reply>): Outcome {
    match response
    case None => NoResponse
    case Some(reply) => if reply.context == CString(context) then Matched(reply) else Mismatch(reply)
  }

  function Apply(s: State, l: Label): State
    requires Enabled(s, l)
  {
    match l
    case Emit(m) =>
      s.(wire := s.wire + [m], emitted := s.emitted + [m],
         owed := if m.Response? then s.owed - {m.reply.answers} else s.owed)
    case CmdStart(written) =>
      var sent := Increment(s.context);
      if written then
        s.(context := sent, cmd := Waiting, sends := s.sends + [sent], owed := s.owed + {|s.sends|})
      else
        s.(context := sent, sends := s.sends + [sent], outcomes := s.outcomes + [WriteFailed])
    case CmdTimeout =>
      s.(cmd := Idle, outcomes := s.outcomes + [TimedOut])
    case CmdTakeToken =>
      s.(cmd := TokenTaken, sem := s.sem - 1)
    case CmdTakeSlot =>
      s.(cmd := SlotTaken(s.slot), slot := None)
    case CmdFinish =>
      var outcome := OutcomeOf(s.context, s.cmd.response);
      s.(cmd := Idle, outcomes := s.outcomes + [outcome],
         context := if outcome.Matched? then Advance(s.context) else s.context)
    case ReaderRead =>
      var m := s.wire[0];
      s.(wire := s.wire[1..], handled := s.handled + [m],
         reader := match m
           case Response(reply) => Storing(reply)
           case Stream(data) => Pushing(data)
           case Garbage => Reading)
    case ReaderStore =>
      s.(reader := Stored, slot := Some(s.reader.reply), stored := s.stored + [s.reader.reply],
         overwritten := s.overwritten + if s.slot.Some? then 1 else 0)
    case ReaderPost =>
      s.(reader := Reading, sem := s.sem + 1)
    case ReaderPush =>
      s.(reader := Reading, queue := s.queue + [s.reader.data], offered := s.offered + [Offer(s.reader.data, true)])
    case ReaderGiveUp =>
      s.(reader := Reading, offered := s.offered + [Offer(s.reader.data, false)])
    case AppPop(unpacks) =>
      s.(queue := s.queue[1..], taken := s.taken + [Taken(s.queue[0], unpacks)])
  }

  // A command accepts a response exactly when their contexts agree as C strings, whatever
  // status the response reports; a context of 0 is the empty string.
  lemma MatchesExactly(context: Byte, response: Option<Reply>)
    ensures OutcomeOf(context, response).NoResponse? <==> response == None
    ensures OutcomeOf(context, response).Matched? <==>
      response.Some? && response.value.context == if context == 0 then [] else [context]
    ensures response.Some? ==>
      OutcomeOf(context, response) in {Matched(response.value), Mismatch(response.value)}
  {
  }

  // What may be asked of a run: which steps are allowed in which states.
  type Rule = (State, Label) -> bool

  ghost predicate AnyStep(s: State, l: Label) {
    true
  }

  // The device answers only commands that were written, each at most once.
  ghost predicate Answering(s: State, l: Label) {
    l.Emit? && l.msg.Response? ==> l.msg.reply.answers in s.owed
  }

  ghost predicate Run(s: State, labels: seq<Label>, rule: Rule)
    decreases |labels|
  {
    labels == [] || (Enabled(s, labels[0]) && rule(s, labels[0]) && Run(Apply(s, labels[0]), labels[1..], rule))
  }

  ghost function Exec(s: State, labels: seq<Label>, rule: Rule): State
    requires Run(s, labels, rule)
    decreases |labels|
  {
    if labels == [] then s else Exec(Apply(s, labels[0]), labels[1..], rule)
  }

  // Some run leads from one state to another.
  ghost predicate Leads(origin: State, s: State, rule: Rule) {
    exists labels :: Run(origin, labels, rule) && s == Exec(origin, labels, rule)
  }

  // The states that some run of the client reaches under a rule.
  ghost predicate Reachable(s: State, rule: Rule) {
    exists capacity: nat, labels :: Run(Initial(capacity), labels, rule) && s == Exec(Initial(capacity), labels, rule)
  }

  lemma {:induction false} RunsCompose(s: State, first: seq<Label>, second: seq<Label>, rule: Rule)
    requires Run(s, first, rule) && Run(Exec(s, first, rule), second, rule)
    ensures Run(s, first + second, rule)
    ensures Exec(s, first + second, rule) == Exec(Exec(s, first, rule), second, rule)
    decreases |first|
  {
    if first == [] {
      assert first + second == second;
    } else {
      assert (first + second)[1..] == first[1..] + second;
      RunsCompose(Apply(s, first[0]), first[1..], second, rule);
    }
  }

  lemma {:induction false} RunWeakens(s: State, labels: seq<Label>, strong: Rule, weak: Rule)
    requires Run(s, labels, strong)
    requires forall t, l :: strong(t, l) ==> weak(t, l)
    ensures Run(s, labels, weak) && Exec(s, labels, weak) == Exec(s, labels, strong)
    decreases |labels|
  {
    if labels != [] {
      RunWeakens(Apply(s, labels[0]), labels[1..], strong, weak);
    }
  }

  lemma ReachableWeakens(s: State, strong: Rule, weak: Rule)
    requires Reachable(s, strong)
    requires forall t, l :: strong(t, l) ==> weak(t, l)
    ensures Reachable(s, weak)
  {
    var capacity: nat, labels :|
      Run(Initial(capacity), labels, strong) && s == Exec(Initial(capacity), labels, strong);
    RunWeakens(Initial(capacity), labels, strong, weak);
  }

  lemma LeadsNowhere(s: State, rule: Rule)
    ensures Leads(s, s, rule)
  {
    assert Run(s, [], rule);
  }

  lemma StepLeads(origin: State, s: State, l: Label, rule: Rule)
    requires Leads(origin, s, rule) && Enabled(s, l) && rule(s, l)
    ensures Leads(origin, Apply(s, l), rule)
  {
    var labels :| Run(origin, labels, rule) && s == Exec(origin, labels, rule);
    assert Apply(s, [l][0]) == Apply(s, l) && [l][1..] == [];
    RunsCompose(origin, labels, [l], rule);
  }

  lemma RunLeads(origin: State, s: State, labels: seq<Label>, rule: Rule)
    requires Leads(origin, s, rule) && Run(s, labels, rule)
    ensures Leads(origin, Exec(s, labels, rule), rule)
  {
    var before :| Run(origin, before, rule) && s == Exec(origin, before, rule);
    RunsCompose(origin, before, labels, rule);
  }

  lemma InitialIsReachable(capacity: nat, rule: Rule)
    ensures Reachable(Initial(capacity), rule)
  {
    assert Run(Initial(capacity), [], rule);
  }

  lemma StepIsReachable(s: State, l: Label, rule: Rule)
    requires Reachable(s, rule) && Enabled(s, l) && rule(s, l)
    ensures Reachable(Apply(s, l), rule)
  {
    var capacity: nat, labels :|
      Run(Initial(capacity), labels, rule) && s == Exec(Initial(capacity), labels, rule);
    assert Leads(Initial(capacity), s, rule);
    StepLeads(Initial(capacity), s, l, rule);
  }

  lemma RunIsReachable(s: State, labels: seq<Label>, rule: Rule)
    requires Reachable(s, rule) && Run(s, labels, rule)
    ensures Reachable(Exec(s, labels, rule), rule)
  {
    var capacity: nat, before :|
      Run(Initial(capacity), before, rule) && s == Exec(Initial(capacity), before, rule);
    assert Leads(Initial(capacity), s, rule);
    RunLeads(Initial(capacity), s, labels, rule);
  }

  // --- What every run keeps ---------------------------------------------------------

  function Matches(outcomes: seq<Outcome>): seq<bool> {
    seq(|outcomes|, i requires 0 <= i < |outcomes| => outcomes[i].Matched?)
  }

  // The contexts on the wire are those of `Context`, for the history of matches; the
  // responses that matched are those that carried the context of the command that took
  // them.
  ghost predicate ContextInv(s: State) {
    && |s.sends| == |s.outcomes| + (if s.cmd.Idle? then 0 else 1)
    && (forall i :: 0 <= i < |s.sends| ==> s.sends[i] == Sent(Matches(s.outcomes)[..i]))
    && s.context == (if s.cmd.Idle? then Context.Idle(Matches(s.outcomes)) else Sent(Matches(s.outcomes)))
    && (forall i :: 0 <= i < |s.outcomes| && s.outcomes[i].Matched? ==>
          s.outcomes[i].reply.context == CString(s.sends[i]))
    && (forall i :: 0 <= i < |s.outcomes| && s.outcomes[i].Mismatch? ==>
          s.outcomes[i].reply.context != CString(s.sends[i]))
  }

  lemma HistoryGrows(outcomes: seq<Outcome>, o: Outcome)
    ensures Matches(outcomes + [o]) == Matches(outcomes) + [o.Matched?]
    ensures Context.Idle(Matches(outcomes + [o])) ==
      if o.Matched? then Advance(Sent(Matches(outcomes))) else Sent(Matches(outcomes))
    ensures forall i :: 0 <= i <= |outcomes| ==> Matches(outcomes + [o])[..i] == Matches(outcomes)[..i]
  {
    assert Matches(outcomes + [o]) == Matches(outcomes) + [o.Matched?];
    assert Matches(outcomes + [o])[..|outcomes|] == Matches(outcomes);
  }

  lemma EndKeepsContext(s: State, s': State, o: Outcome)
    requires ContextInv(s) && !s.cmd.Idle? && s'.cmd.Idle?
    requires s'.sends == s.sends && s'.outcomes == s.outcomes + [o]
    requires s'.context == if o.Matched? then Advance(s.context) else s.context
    requires o.Matched? ==> o.reply.context == CString(s.context)
    requires o.Mismatch? ==> o.reply.context != CString(s.context)
    ensures ContextInv(s')
  {
    HistoryGrows(s.outcomes, o);
    assert Matches(s.outcomes)[..|s.outcomes|] == Matches(s.outcomes);
  }

  lemma StartKeepsContext(s: State, written: bool)
    requires ContextInv(s) && s.cmd.Idle?
    ensures ContextInv(Apply(s, CmdStart(written)))
  {
    HistoryGrows(s.outcomes, WriteFailed);
    assert Matches(s.outcomes)[..|s.outcomes|] == Matches(s.outcomes);
  }

  lemma StepKeepsContext(s: State, l: Label)
    requires ContextInv(s) && Enabled(s, l)
    ensures ContextInv(Apply(s, l))
  {
    match l
    case CmdStart(written) => StartKeepsContext(s, written);
    case CmdTimeout => EndKeepsContext(s, Apply(s, l), TimedOut);
    case CmdFinish => EndKeepsContext(s, Apply(s, l), OutcomeOf(s.context, s.cmd.response));
    case _ =>
  }

  lemma {:induction false} RunKeepsContext(s: State, labels: seq<Label>)
    requires ContextInv(s) && Run(s, labels, AnyStep)
    ensures ContextInv(Exec(s, labels, AnyStep))
    decreases |labels|
  {
    if labels != [] {
      StepKeepsContext(s, labels[0]);
      RunKeepsContext(Apply(s, labels[0]), labels[1..]);
    }
  }

  // In every reachable state each command carries the context that the matches before it
  // determine, and a command that took a response matched exactly when both carry the
  // same context, whatever the response's status.
  lemma ContextLaw(s: State, i: nat)
    requires Reachable(s, AnyStep) && i < |s.sends|
    ensures i <= |s.outcomes| && s.sends[i] == Sent(Matches(s.outcomes)[..i])
    ensures i < |s.outcomes| && (s.outcomes[i].Matched? || s.outcomes[i].Mismatch?) ==>
      (s.outcomes[i].Matched? <==>
        s.outcomes[i].reply.context == if s.sends[i] == 0 then [] else [s.sends[i]])
  {
    var capacity: nat, labels :|
      Run(Initial(capacity), labels, AnyStep) && s == Exec(Initial(capacity), labels, AnyStep);
    RunKeepsContext(Initial(capacity), labels);
  }

  // Equal contexts of two commands are at least 13 sends apart.
  lemma ContextsRecurLate(s: State, i: nat, j: nat)
    requires ContextInv(s) && i < j < |s.sends| && s.sends[i] == s.sends[j]
    ensures j - i >= 13
  {
    RecurrenceBound(Matches(s.outcomes), i, j);
  }

  lemma CStringInjective(a: Byte, b: Byte)
    ensures CString(a) == CString(b) <==> a == b
  {
    if a != 0 && b != 0 {
      assert CString(a)[0] == a && CString(b)[0] == b;
    }
  }
}
