// The access-by-access model of the slot refines the atomic one.
module SlotRefinement {
  import opened Common
  import P = Protocol
  import Pairing
  import F = SlotExclusion

  // The device echoes and answers each written command at most once, no write fails and
  // no wait times out.
  ghost predicate Orderly(p: P.State, l: P.Label) {
    && Pairing.Echoing(p, l)
    && P.Answering(p, l)
    && (l.CmdStart? ==> l.written)
    && !l.CmdTimeout?
  }

  // The response to the command in progress, reporting success.
  function OwnReply(p: P.State): P.Reply {
    P.Reply(P.CString(p.context), IO4E_OK, if p.sends == [] then 0 else |p.sends| - 1)
  }

  // Response object number `id` is the response to command number `id`, which is the one
  // in progress.
  ghost predicate SameResponse(id: Option<F.Id>, reply: Option<P.Reply>, p: P.State) {
    match id
    case None => reply == None
    case Some(k) => k + 1 == |p.sends| && reply == Some(OwnReply(p))
  }

  // An access-level state and the protocol state it stands for: the protocol takes the
  // slot when the command clears it and fills the slot when the reader stores.
  ghost predicate Represents(s: F.State, p: P.State) {
    && RepresentsCommands(s, p)
    && p.sem == s.sem && p.wire == [] && SameResponse(s.slot, p.slot, p)
    && (match s.cmd
        case Idle => p.cmd.Idle?
        case Waiting => p.cmd.Waiting?
        case Awake => p.cmd.TokenTaken?
        case SlotRead(_) => p.cmd.TokenTaken?
        case Holding(res) => p.cmd.SlotTaken? && SameResponse(res, p.cmd.response, p))
    && (match s.reader
        case Elsewhere => p.reader.Reading?
        case Received(id) => p.reader.Storing? && SameResponse(Some(id), Some(p.reader.reply), p)
        case FoundFull(id) => p.reader.Storing? && SameResponse(Some(id), Some(p.reader.reply), p)
        case AboutToStore(id) => p.reader.Storing? && SameResponse(Some(id), Some(p.reader.reply), p)
        case AboutToPost => p.reader.Stored?)
  }

  // The commands sent, those still to be answered, and how the finished ones ended: each
  // with its own response.
  ghost predicate RepresentsCommands(s: F.State, p: P.State) {
    && |p.sends| == s.created + s.unanswered
    && p.owed == (if s.unanswered == 0 then {} else {s.created})
    && |p.sends| == |p.outcomes| + (if p.cmd.Idle? then 0 else 1)
    && (!p.cmd.Idle? ==> p.context == p.sends[|p.sends| - 1])
    && AllOwn(p)
  }

  ghost predicate AllOwn(p: P.State) {
    forall i :: 0 <= i < |p.outcomes| ==> p.outcomes[i].Matched? && p.outcomes[i].reply.answers == i
  }

  function ProtocolSteps(l: F.Label, reply: P.Reply): seq<P.Label> {
    match l
    case Write => [P.CmdStart(true)]
    case Timeout => [P.CmdTimeout]
    case TakeToken => [P.CmdTakeToken]
    case ReadSlot => []
    case ClearSlot => [P.CmdTakeSlot]
    case Release(_) => [P.CmdFinish]
    case Receive => [P.Emit(P.Response(reply)), P.ReaderRead]
    case ReceiveUnsolicited => [P.Emit(P.Response(reply)), P.ReaderRead]
    case Test => []
    case FreeOld => []
    case Store => [P.ReaderStore]
    case Post => [P.ReaderPost]
  }

  lemma ReceiveRefines(s: F.State, p: P.State)
    requires F.OneAtATime(s) && Represents(s, p) && F.Enabled(s, F.Receive)
    ensures var labels := ProtocolSteps(F.Receive, OwnReply(p));
      P.Run(p, labels, Orderly) && Represents(F.Apply(s, F.Receive), P.Exec(p, labels, Orderly))
  {
    var labels := ProtocolSteps(F.Receive, OwnReply(p));
    var p1 := P.Apply(p, labels[0]);
    assert p1.wire == [P.Response(OwnReply(p))];
    var p2 := P.Apply(p1, P.ReaderRead);
    assert labels[1..] == [P.ReaderRead] && labels[1..][1..] == [];
    assert P.Run(p2, [], Orderly) && P.Run(p1, labels[1..], Orderly);
    assert P.Exec(p1, labels[1..], Orderly) == p2;
  }

  lemma StepRefines(s: F.State, l: F.Label, p: P.State, step: P.Label)
    requires F.OneAtATime(s) && Represents(s, p)
    requires F.Enabled(s, l) && F.Allowed(l, false, false) && !l.Receive?
    requires ProtocolSteps(l, OwnReply(p)) == [step]
    ensures P.Enabled(p, step) && Orderly(p, step) && Represents(F.Apply(s, l), P.Apply(p, step))
  {
  }

  // Each access of an undisturbed run is one step of an orderly run of the protocol, or
  // none; a release is the finish of a command that matched its own response.
  lemma AccessRefines(s: F.State, l: F.Label, p: P.State)
    requires F.OneAtATime(s) && Represents(s, p)
    requires F.Enabled(s, l) && F.Allowed(l, false, false)
    ensures var labels := ProtocolSteps(l, OwnReply(p));
      P.Run(p, labels, Orderly) && Represents(F.Apply(s, l), P.Exec(p, labels, Orderly))
  {
    var labels := ProtocolSteps(l, OwnReply(p));
    if l.Receive? {
      ReceiveRefines(s, p);
    } else if labels != [] {
      var step := labels[0];
      assert labels == [step] && labels[1..] == [];
      StepRefines(s, l, p, step);
      assert P.Run(P.Apply(p, step), [], Orderly);
    }
  }

  // Every undisturbed run over the unlocked accesses is matched by an orderly run of the
  // protocol with an atomic exchange.
  lemma {:induction false} RunRefines(s: F.State, labels: seq<F.Label>, p: P.State) returns (p': P.State)
    requires F.OneAtATime(s) && Represents(s, p) && F.Run(s, labels, false, false)
    requires P.Reachable(p, Orderly)
    ensures P.Reachable(p', Orderly) && Represents(F.Exec(s, labels, false, false), p')
    decreases |labels|
  {
    p' := p;
    if labels != [] {
      var l := labels[0];
      AccessRefines(s, l, p);
      F.StepKeepsOneAtATime(s, l);
      var steps := ProtocolSteps(l, OwnReply(p));
      P.RunIsReachable(p, steps, Orderly);
      p' := RunRefines(F.Apply(s, l), labels[1..], P.Exec(p, steps, Orderly));
    }
  }

  lemma InitialIsRepresented()
    ensures F.OneAtATime(F.INITIAL) && Represents(F.INITIAL, P.Initial(0))
  {
  }

  lemma UndisturbedAccessesAreAtomic(s: F.State) returns (p: P.State)
    requires F.Reachable(s, false, false)
    ensures P.Reachable(p, Orderly) && Represents(s, p)
  {
    var labels :| F.Run(F.INITIAL, labels, false, false) && s == F.Exec(F.INITIAL, labels, false, false);
    InitialIsRepresented();
    P.InitialIsReachable(0, Orderly);
    p := RunRefines(F.INITIAL, labels, P.Initial(0));
  }
}
