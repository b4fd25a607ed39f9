// The unlocked exchange of the response slot, access by access.
//
// `command` reads `cmd_response` and then clears it; the reader thread tests it, frees
// what it holds, and stores the next response.  No lock covers these accesses.  Every
// response object has a number, so that the model can follow who frees it.
module SlotExclusion {
  import opened Common

  type Id = nat

  datatype CmdPhase =
    | Idle
    | Waiting                       // written, waiting for a token
    | Awake                         // token taken, slot not read yet
    | SlotRead(res: Option<Id>)     // slot read, not cleared yet
    | Holding(res: Option<Id>)      // slot cleared, response still to be released

  datatype ReaderPhase =
    | Elsewhere
    | Received(id: Id)              // about to test the slot
    | FoundFull(id: Id)             // the test saw a response: about to free it
    | AboutToStore(id: Id)
    | AboutToPost

  datatype State = State(
    slot: Option<Id>,
    sem: nat,
    cmd: CmdPhase,
    reader: ReaderPhase,
    unanswered: nat,                // written commands the device has not answered
    created: nat,                   // response objects so far, numbered from 0
    freed: seq<Id>,
    handed: seq<Id>)                // given to the caller of `command`

  datatype Label =
    | Write
    | Timeout
    | TakeToken
    | ReadSlot
    | ClearSlot
    | Release(handOver: bool)
    | Receive
    | ReceiveUnsolicited
    | Test
    | FreeOld
    | Store
    | Post

  const INITIAL := State(None, 0, Idle, Elsewhere, 0, 0, [], [])

  predicate Enabled(s: State, l: Label) {
    match l
    case Write => s.cmd.Idle?
    case Timeout => s.cmd.Waiting? && s.sem == 0
    case TakeToken => s.cmd.Waiting? && s.sem > 0
    case ReadSlot => s.cmd.Awake?
    case ClearSlot => s.cmd.SlotRead?
    case Release(_) => s.cmd.Holding?
    case Receive => s.reader.Elsewhere? && s.unanswered > 0
    case ReceiveUnsolicited => s.reader.Elsewhere?
    case Test => s.reader.Received?
    case FreeOld => s.reader.FoundFull?
    case Store => s.reader.AboutToStore?
    case Post => s.reader.AboutToPost?
  }

  function Listed(o: Option<Id>): seq<Id> {
    match o
    case None => []
    case Some(id) => [id]
  }

  function Apply(s: State, l: Label): State
    requires Enabled(s, l)
  {
    match l
    case Write => s.(cmd := Waiting, unanswered := s.unanswered + 1)
    case Timeout => s.(cmd := Idle)
    case TakeToken => s.(cmd := Awake, sem := s.sem - 1)
    case ReadSlot => s.(cmd := SlotRead(s.slot))
    case ClearSlot => s.(cmd := Holding(s.cmd.res), slot := None)
    case Release(handOver) =>
      if handOver then s.(cmd := Idle, handed := s.handed + Listed(s.cmd.res))
      else s.(cmd := Idle, freed := s.freed + Listed(s.cmd.res))
    case Receive => s.(reader := Received(s.created), created := s.created + 1, unanswered := s.unanswered - 1)
    case ReceiveUnsolicited => s.(reader := Received(s.created), created := s.created + 1)
    case Test => s.(reader := if s.slot.Some? then FoundFull(s.reader.id) else AboutToStore(s.reader.id))
    case FreeOld => s.(reader := AboutToStore(s.reader.id), freed := s.freed + Listed(s.slot))
    case Store => s.(reader := AboutToPost, slot := Some(s.reader.id))
    case Post => s.(reader := Elsewhere, sem := s.sem + 1)
  }

  // Which of the two disturbances a run may contain.
  predicate Allowed(l: Label, timeouts: bool, unsolicited: bool) {
    (l.Timeout? ==> timeouts) && (l.ReceiveUnsolicited? ==> unsolicited)
  }

  ghost predicate Run(s: State, labels: seq<Label>, timeouts: bool, unsolicited: bool)
    decreases |labels|
  {
    labels == []
    || (Enabled(s, labels[0]) && Allowed(labels[0], timeouts, unsolicited)
        && Run(Apply(s, labels[0]), labels[1..], timeouts, unsolicited))
  }

  ghost function Exec(s: State, labels: seq<Label>, timeouts: bool, unsolicited: bool): State
    requires Run(s, labels, timeouts, unsolicited)
    decreases |labels|
  {
    if labels == [] then s else Exec(Apply(s, labels[0]), labels[1..], timeouts, unsolicited)
  }

  ghost predicate Reachable(s: State, timeouts: bool, unsolicited: bool) {
    exists labels :: Run(INITIAL, labels, timeouts, unsolicited) && s == Exec(INITIAL, labels, timeouts, unsolicited)
  }

  // The two threads are never both in the middle of their accesses to the slot.
  predicate Exclusive(s: State) {
    !((s.cmd.Awake? || s.cmd.SlotRead?)
      && (s.reader.Received? || s.reader.FoundFull? || s.reader.AboutToStore?))
  }

  // --- Undisturbed runs ---------------------------------------------------------------

  // The single outstanding response of the command in progress is in one place only.
  ghost predicate OneAtATime(s: State) {
    match s.cmd
    case Idle => s.unanswered == 0 && s.reader.Elsewhere? && s.sem == 0 && s.slot == None
    case Waiting =>
      (match s.reader
       case Elsewhere =>
         (s.unanswered == 1 && s.sem == 0 && s.slot == None) || (s.unanswered == 0 && s.sem == 1 && s.slot.Some?)
       case Received(_) => s.unanswered == 0 && s.sem == 0 && s.slot == None
       case FoundFull(_) => false
       case AboutToStore(_) => s.unanswered == 0 && s.sem == 0 && s.slot == None
       case AboutToPost => s.unanswered == 0 && s.sem == 0 && s.slot.Some?)
    case Awake => s.unanswered == 0 && s.reader.Elsewhere? && s.sem == 0 && s.slot.Some?
    case SlotRead(res) => s.unanswered == 0 && s.reader.Elsewhere? && s.sem == 0 && s.slot.Some? && res == s.slot
    case Holding(res) => s.unanswered == 0 && s.reader.Elsewhere? && s.sem == 0 && s.slot == None && res.Some?
  }

  lemma StepKeepsOneAtATime(s: State, l: Label)
    requires OneAtATime(s) && Enabled(s, l) && Allowed(l, false, false)
    ensures OneAtATime(Apply(s, l))
  {
  }

  // How often a response object has been freed or handed to the caller.
  function Released(s: State, id: Id): nat {
    multiset(s.freed)[id] + multiset(s.handed)[id]
  }

  // In how many places a response object is: in the slot, with one of the threads, or
  // released.
  function Copies(s: State, id: Id): nat {
    (if s.slot == Some(id) then 1 else 0)
    + (if (s.reader.Received? || s.reader.FoundFull? || s.reader.AboutToStore?) && s.reader.id == id then 1 else 0)
    + (if s.cmd.Holding? && s.cmd.res == Some(id) then 1 else 0)
    + Released(s, id)
  }

  lemma StepKeepsCopies(s: State, l: Label, id: Id)
    requires OneAtATime(s) && Enabled(s, l) && Allowed(l, false, false)
    ensures Copies(Apply(s, l), id) == Copies(s, id) + if l.Receive? && id == s.created then 1 else 0
  {
  }

  lemma {:induction false} RunKeepsOneAtATime(s: State, labels: seq<Label>, id: Id)
    requires OneAtATime(s) && Run(s, labels, false, false)
    requires Copies(s, id) == if id < s.created then 1 else 0
    ensures var s' := Exec(s, labels, false, false);
      OneAtATime(s') && Copies(s', id) == if id < s'.created then 1 else 0
    decreases |labels|
  {
    if labels != [] {
      StepKeepsOneAtATime(s, labels[0]);
      StepKeepsCopies(s, labels[0], id);
      RunKeepsOneAtATime(Apply(s, labels[0]), labels[1..], id);
    }
  }

  lemma UndisturbedIsOneAtATime(s: State, id: Id)
    requires Reachable(s, false, false)
    ensures OneAtATime(s) && Copies(s, id) == if id < s.created then 1 else 0
  {
    var labels :| Run(INITIAL, labels, false, false) && s == Exec(INITIAL, labels, false, false);
    RunKeepsOneAtATime(INITIAL, labels, id);
  }

  // Without timeouts and unsolicited responses the unlocked accesses amount to an atomic
  // exchange: they never overlap, what a command read is still in the slot when it clears
  // it, the reader stores into an empty slot, and a command that wakes finds a response.
  lemma ExchangeIsAtomic(s: State)
    requires Reachable(s, false, false)
    ensures Exclusive(s)
    ensures s.cmd.SlotRead? ==> s.cmd.res == s.slot && s.slot.Some?
    ensures s.cmd.Awake? ==> s.slot.Some?
    ensures s.reader.AboutToStore? ==> s.slot == None
    ensures !s.reader.FoundFull?
  {
    UndisturbedIsOneAtATime(s, 0);
  }

  // Every response object is freed or handed over at most once, and between commands
  // every one of them has been.
  lemma ReleasedExactlyOnce(s: State, id: Id)
    requires Reachable(s, false, false) && id < s.created
    ensures Released(s, id) <= 1
    ensures s.cmd.Idle? ==> Released(s, id) == 1
  {
    UndisturbedIsOneAtATime(s, id);
  }

  // --- What every run keeps, disturbed or not ----------------------------------------------

  // Timeouts and unsolicited responses: each leaves one token too many.
  function Disturbances(labels: seq<Label>): nat {
    if labels == [] then 0
    else
      var l := labels[|labels| - 1];
      Disturbances(labels[..|labels| - 1]) + if l.Timeout? || l.ReceiveUnsolicited? then 1 else 0
  }

  function Stores(labels: seq<Label>): nat {
    if labels == [] then 0
    else Stores(labels[..|labels| - 1]) + if labels[|labels| - 1].Store? then 1 else 0
  }

  // Whether the reader has stored since the slot was cleared last.
  predicate Filled(labels: seq<Label>) {
    labels != [] && (labels[|labels| - 1].Store?
                     || (!labels[|labels| - 1].ClearSlot? && Filled(labels[..|labels| - 1])))
  }

  predicate HoldsObject(r: ReaderPhase) {
    r.Received? || r.FoundFull? || r.AboutToStore?
  }

  ghost predicate Accounted(s: State, labels: seq<Label>) {
    && s.sem + s.unanswered + (if s.reader.Elsewhere? then 0 else 1)
       == Disturbances(labels) + (if s.cmd.Waiting? then 1 else 0)
    && s.created == Stores(labels) + (if HoldsObject(s.reader) then 1 else 0)
    && (HoldsObject(s.reader) ==> s.reader.id == Stores(labels))
    && (Filled(labels) ==> Stores(labels) > 0)
    && s.slot == if Filled(labels) then Some(Stores(labels) - 1) else None
  }

  lemma StepKeepsAccounted(s: State, labels: seq<Label>, l: Label)
    requires Accounted(s, labels) && Enabled(s, l)
    ensures Accounted(Apply(s, l), labels + [l])
  {
    assert (labels + [l])[..|labels|] == labels;
  }

  lemma {:induction false} RunKeepsAccounted(s: State, done: seq<Label>, labels: seq<Label>)
    requires Accounted(s, done) && Run(s, labels, true, true)
    ensures Accounted(Exec(s, labels, true, true), done + labels)
    decreases |labels|
  {
    if labels == [] {
      assert done + labels == done;
    } else {
      StepKeepsAccounted(s, done, labels[0]);
      RunKeepsAccounted(Apply(s, labels[0]), done + [labels[0]], labels[1..]);
      assert done + [labels[0]] + labels[1..] == done + labels;
    }
  }

  // In every run: tokens, unanswered commands and the response in the reader's hands are
  // as many as the disturbances so far, and one more during a wait, so that a wait can
  // only time out with that many responses on the way; and the slot holds the object
  // stored last unless it was cleared since.
  lemma AccountsOfAllRuns(labels: seq<Label>)
    requires Run(INITIAL, labels, true, true)
    ensures var s := Exec(INITIAL, labels, true, true);
      var coming := s.unanswered + if s.reader.Elsewhere? then 0 else 1;
      && s.sem + coming == Disturbances(labels) + (if s.cmd.Waiting? then 1 else 0)
      && (Enabled(s, Timeout) ==> coming == Disturbances(labels) + 1)
      && s.created == Stores(labels) + (if HoldsObject(s.reader) then 1 else 0)
      && (Filled(labels) ==> Stores(labels) > 0)
      && s.slot == if Filled(labels) then Some(Stores(labels) - 1) else None
  {
    RunKeepsAccounted(INITIAL, [], labels);
    assert [] + labels == labels;
  }

  // --- When the exclusion holds ---------------------------------------------------------

  lemma {:induction false} RunExtends(s: State, labels: seq<Label>, l: Label, timeouts: bool, unsolicited: bool)
    requires Run(s, labels, timeouts, unsolicited)
    requires Enabled(Exec(s, labels, timeouts, unsolicited), l) && Allowed(l, timeouts, unsolicited)
    ensures Run(s, labels + [l], timeouts, unsolicited)
    ensures Exec(s, labels + [l], timeouts, unsolicited) == Apply(Exec(s, labels, timeouts, unsolicited), l)
    decreases |labels|
  {
    if labels != [] {
      assert (labels + [l])[1..] == labels[1..] + [l];
      RunExtends(Apply(s, labels[0]), labels[1..], l, timeouts, unsolicited);
    } else {
      assert (labels + [l])[0] == l && (labels + [l])[1..] == [];
    }
  }

  lemma Go(s: State, l: Label, timeouts: bool, unsolicited: bool) returns (s': State)
    requires Reachable(s, timeouts, unsolicited) && Enabled(s, l) && Allowed(l, timeouts, unsolicited)
    ensures s' == Apply(s, l) && Reachable(s', timeouts, unsolicited)
  {
    var labels :| Run(INITIAL, labels, timeouts, unsolicited) && s == Exec(INITIAL, labels, timeouts, unsolicited);
    RunExtends(INITIAL, labels, l, timeouts, unsolicited);
    s' := Apply(s, l);
  }

  // A run only adds to what was freed and handed over.
  lemma {:induction false} RunOnlyAdds(s: State, labels: seq<Label>, timeouts: bool, unsolicited: bool)
    requires Reachable(s, timeouts, unsolicited) && Run(s, labels, timeouts, unsolicited)
    ensures var s' := Exec(s, labels, timeouts, unsolicited);
      Reachable(s', timeouts, unsolicited) && s.freed <= s'.freed && s.handed <= s'.handed
    decreases |labels|
  {
    if labels != [] {
      var s' := Go(s, labels[0], timeouts, unsolicited);
      RunOnlyAdds(s', labels[1..], timeouts, unsolicited);
    }
  }

  // Undisturbed, a command that ends holds a response.  If it hands it over, the response
  // is the caller's for good: it is not freed, neither before nor in any run from there.
  // If it does not, the response is freed and nobody is handed it.
  lemma ReleaseIsFinal(s: State, handOver: bool, labels: seq<Label>)
    requires Reachable(s, false, false) && s.cmd.Holding?
    requires Run(Apply(s, Release(handOver)), labels, false, false)
    ensures s.cmd.res.Some?
    ensures var id, s' := s.cmd.res.value, Exec(Apply(s, Release(handOver)), labels, false, false);
      if handOver then id in s'.handed && id !in s'.freed else id in s'.freed && id !in s'.handed
  {
    UndisturbedIsOneAtATime(s, 0);
    var id := s.cmd.res.value;
    var released := Go(s, Release(handOver), false, false);
    assert id in (if handOver then released.handed else released.freed);
    RunOnlyAdds(released, labels, false, false);
    UndisturbedIsOneAtATime(Exec(released, labels, false, false), id);
  }

  lemma LeftOverResponse(timeouts: bool, unsolicited: bool) returns (s: State)
    requires timeouts || unsolicited
    ensures Reachable(s, timeouts, unsolicited)
    ensures s == State(Some(0), 0, Idle, AboutToPost, 0, 1, [], [])
  {
    s := INITIAL;
    assert Run(INITIAL, [], timeouts, unsolicited);
    if timeouts {
      s := Go(s, Write, timeouts, unsolicited);
      s := Go(s, Timeout, timeouts, unsolicited);
      s := Go(s, Receive, timeouts, unsolicited);
    } else {
      s := Go(s, ReceiveUnsolicited, timeouts, unsolicited);
    }
    s := Go(s, Test, timeouts, unsolicited);
    s := Go(s, Store, timeouts, unsolicited);
  }

  // With a response and its token left over, the next command is awake while the reader
  // receives that command's own response.
  lemma OverlapRun(timeouts: bool, unsolicited: bool) returns (s: State)
    requires timeouts || unsolicited
    ensures Reachable(s, timeouts, unsolicited) && !Exclusive(s)
  {
    s := LeftOverResponse(timeouts, unsolicited);
    s := Go(s, Post, timeouts, unsolicited);
    s := Go(s, Write, timeouts, unsolicited);
    s := Go(s, TakeToken, timeouts, unsolicited);
    s := Go(s, Receive, timeouts, unsolicited);
  }

  // The accesses exclude each other in all runs exactly when no wait ever times out and
  // no unsolicited response ever arrives.
  lemma ExclusionThreshold(timeouts: bool, unsolicited: bool)
    ensures (forall s :: Reachable(s, timeouts, unsolicited) ==> Exclusive(s)) <==> !timeouts && !unsolicited
  {
    if timeouts || unsolicited {
      var s := OverlapRun(timeouts, unsolicited);
    } else {
      forall s | Reachable(s, timeouts, unsolicited) ensures Exclusive(s) {
        ExchangeIsAtomic(s);
      }
    }
  }

  // --- When every response object is released once -----------------------------------------

  // The next command reads the left-over response; before it clears the slot, the reader
  // finds that response there and frees it; then the command frees it again.
  lemma FreedTwiceRun(timeouts: bool, unsolicited: bool) returns (s: State)
    requires timeouts || unsolicited
    ensures Reachable(s, timeouts, unsolicited) && s.created > 0 && s.freed == [0, 0]
  {
    s := ReadLeftOver(timeouts, unsolicited);
    s := Go(s, Receive, timeouts, unsolicited);
    s := Go(s, Test, timeouts, unsolicited);
    s := Go(s, FreeOld, timeouts, unsolicited);
    s := Go(s, ClearSlot, timeouts, unsolicited);
    s := Go(s, Release(false), timeouts, unsolicited);
  }

  lemma ReadLeftOver(timeouts: bool, unsolicited: bool) returns (s: State)
    requires timeouts || unsolicited
    ensures Reachable(s, timeouts, unsolicited)
    ensures s == State(Some(0), 0, SlotRead(Some(0)), Elsewhere, 1, 1, [], [])
  {
    s := LeftOverResponse(timeouts, unsolicited);
    s := Go(s, Post, timeouts, unsolicited);
    s := Go(s, Write, timeouts, unsolicited);
    s := Go(s, TakeToken, timeouts, unsolicited);
    s := Go(s, ReadSlot, timeouts, unsolicited);
  }

  // No response object is released twice in all runs exactly when no wait ever times out
  // and no unsolicited response ever arrives.
  lemma ReleaseThreshold(timeouts: bool, unsolicited: bool)
    ensures (forall s, id: Id :: Reachable(s, timeouts, unsolicited) && id < s.created ==> Released(s, id) <= 1)
      <==> !timeouts && !unsolicited
  {
    if timeouts || unsolicited {
      var s := FreedTwiceRun(timeouts, unsolicited);
      assert multiset(s.freed)[0] == 2;
      assert Released(s, 0) >= 2;
    } else {
      forall s, id: Id | Reachable(s, timeouts, unsolicited) && id < s.created ensures Released(s, id) <= 1 {
        ReleasedExactlyOnce(s, id);
      }
    }
  }

  // --- When no response object is lost --------------------------------------------------------

  // The command has read the left-over response when the reader frees it and stores the
  // next one; clearing the slot then loses that one.
  lemma LostResponseRun(timeouts: bool, unsolicited: bool) returns (s: State)
    requires timeouts || unsolicited
    ensures Reachable(s, timeouts, unsolicited) && s.created == 2 && Copies(s, 1) == 0
  {
    s := ReadLeftOver(timeouts, unsolicited);
    s := Go(s, Receive, timeouts, unsolicited);
    s := Go(s, Test, timeouts, unsolicited);
    s := Go(s, FreeOld, timeouts, unsolicited);
    s := Go(s, Store, timeouts, unsolicited);
    s := Go(s, ClearSlot, timeouts, unsolicited);
  }

  // Every response object is in the slot, with a thread or released, in all runs, exactly
  // when no wait ever times out and no unsolicited response ever arrives.
  lemma LossThreshold(timeouts: bool, unsolicited: bool)
    ensures (forall s, id: Id :: Reachable(s, timeouts, unsolicited) && id < s.created ==> Copies(s, id) > 0)
      <==> !timeouts && !unsolicited
  {
    if timeouts || unsolicited {
      var s := LostResponseRun(timeouts, unsolicited);
    } else {
      forall s, id: Id | Reachable(s, timeouts, unsolicited) && id < s.created ensures Copies(s, id) > 0 {
        UndisturbedIsOneAtATime(s, id);
      }
    }
  }
}
