// Nothing in the client can block for ever, as long as somebody takes the stream data.
module Progress {
  import opened Protocol

  // Only the thread that runs a command moves.
  ghost predicate OnlyCommand(s: State, l: Label) {
    l.CmdStart? || l.CmdTimeout? || l.CmdTakeToken? || l.CmdTakeSlot? || l.CmdFinish?
  }

  // Only the reader and a consumer of stream data move, and no push gives up.
  ghost predicate OnlyReaderAndConsumer(s: State, l: Label) {
    l.ReaderRead? || l.ReaderStore? || l.ReaderPost? || l.ReaderPush? || l.AppPop?
  }

  lemma TakeAndFinish(origin: State, s: State) returns (s': State)
    requires Leads(origin, s, OnlyCommand) && (s.cmd.TokenTaken? || s.cmd.SlotTaken?)
    ensures Leads(origin, s', OnlyCommand) && s'.cmd.Idle?
    ensures |s'.outcomes| == |s.outcomes| + 1 && s.outcomes <= s'.outcomes
    ensures !s'.outcomes[|s.outcomes|].TimedOut? && !s'.outcomes[|s.outcomes|].WriteFailed?
    ensures s'.sends == s.sends && s'.wire == s.wire && s'.reader == s.reader && s'.queue == s.queue
  {
    s' := s;
    if s'.cmd.TokenTaken? {
      StepLeads(origin, s', CmdTakeSlot, OnlyCommand);
      s' := Apply(s', CmdTakeSlot);
    }
    StepLeads(origin, s', CmdFinish, OnlyCommand);
    s' := Apply(s', CmdFinish);
  }

  // From every state, whatever the reader is at, the command in progress or a new one can
  // come to its end without the reader's help: a wait that is left alone is answered by a
  // token there is, and times out exactly when there is none.
  lemma CommandCanEnd(s: State) returns (s': State)
    ensures Leads(s, s', OnlyCommand) && s'.cmd.Idle?
    ensures |s'.outcomes| == |s.outcomes| + 1 && s.outcomes <= s'.outcomes
    ensures |s'.sends| == |s.sends| + if s.cmd.Idle? then 1 else 0
    ensures s'.outcomes[|s.outcomes|].TimedOut? <==> (s.cmd.Idle? || s.cmd.Waiting?) && s.sem == 0
    ensures !s'.outcomes[|s.outcomes|].WriteFailed?
    ensures s'.wire == s.wire && s'.reader == s.reader && s'.queue == s.queue
  {
    LeadsNowhere(s, OnlyCommand);
    s' := s;
    if s'.cmd.Idle? {
      StepLeads(s, s', CmdStart(true), OnlyCommand);
      s' := Apply(s', CmdStart(true));
    }
    if s'.cmd.Waiting? && s'.sem == 0 {
      StepLeads(s, s', CmdTimeout, OnlyCommand);
      s' := Apply(s', CmdTimeout);
    } else {
      if s'.cmd.Waiting? {
        StepLeads(s, s', CmdTakeToken, OnlyCommand);
        s' := Apply(s', CmdTakeToken);
      }
      s' := TakeAndFinish(s, s');
    }
  }

  // What does not change while the reader and the consumer work.
  ghost predicate SameCommand(s: State, s': State) {
    && s'.cmd == s.cmd && s'.context == s.context && s'.sends == s.sends && s'.outcomes == s.outcomes
    && s'.capacity == s.capacity
  }

  lemma PushWithRoom(origin: State, s: State) returns (s': State)
    requires Leads(origin, s, OnlyReaderAndConsumer) && s.reader.Pushing? && s.capacity > 0
    ensures Leads(origin, s', OnlyReaderAndConsumer) && SameCommand(s, s')
    ensures s'.reader.Reading? && s'.wire == s.wire && s'.handled == s.handled
  {
    s' := s;
    if |s'.queue| >= s'.capacity {
      s' := PopDownTo(origin, s', s'.capacity - 1);
    }
    StepLeads(origin, s', ReaderPush, OnlyReaderAndConsumer);
    s' := Apply(s', ReaderPush);
  }

  lemma {:induction false} PopDownTo(origin: State, s: State, n: nat) returns (s': State)
    requires Leads(origin, s, OnlyReaderAndConsumer) && n <= |s.queue|
    ensures Leads(origin, s', OnlyReaderAndConsumer) && SameCommand(s, s')
    ensures |s'.queue| == n && s'.reader == s.reader && s'.wire == s.wire && s'.handled == s.handled
    decreases |s.queue|
  {
    s' := s;
    if |s.queue| > n {
      StepLeads(origin, s, AppPop(true), OnlyReaderAndConsumer);
      s' := PopDownTo(origin, Apply(s, AppPop(true)), n);
    }
  }

  lemma FinishMessage(origin: State, s: State) returns (s': State)
    requires Leads(origin, s, OnlyReaderAndConsumer) && s.capacity > 0
    ensures Leads(origin, s', OnlyReaderAndConsumer) && SameCommand(s, s')
    ensures s'.reader.Reading? && s'.wire == s.wire && s'.handled == s.handled
  {
    s' := s;
    if s'.reader.Pushing? {
      s' := PushWithRoom(origin, s');
    }
    if s'.reader.Storing? {
      StepLeads(origin, s', ReaderStore, OnlyReaderAndConsumer);
      s' := Apply(s', ReaderStore);
    }
    if s'.reader.Stored? {
      StepLeads(origin, s', ReaderPost, OnlyReaderAndConsumer);
      s' := Apply(s', ReaderPost);
    }
  }

  lemma {:induction false} DrainFrom(origin: State, s: State) returns (s': State)
    requires Leads(origin, s, OnlyReaderAndConsumer) && s.capacity > 0
    ensures Leads(origin, s', OnlyReaderAndConsumer) && SameCommand(s, s')
    ensures s'.reader.Reading? && s'.wire == [] && s'.handled == s.handled + s.wire
    decreases |s.wire|
  {
    s' := FinishMessage(origin, s);
    if s'.wire != [] {
      StepLeads(origin, s', ReaderRead, OnlyReaderAndConsumer);
      assert s'.handled + s'.wire == s'.handled + [s'.wire[0]] + s'.wire[1..];
      s' := DrainFrom(origin, Apply(s', ReaderRead));
    }
  }

  // From every state, whatever a command is at, the reader can handle everything on the
  // wire if the stream data is taken: it never waits for a command.
  lemma WireCanBeDrained(s: State) returns (s': State)
    requires s.capacity > 0
    ensures Leads(s, s', OnlyReaderAndConsumer) && SameCommand(s, s')
    ensures s'.reader.Reading? && s'.wire == [] && s'.handled == s.handled + s.wire
  {
    LeadsNowhere(s, OnlyReaderAndConsumer);
    s' := DrainFrom(s, s);
  }
}
