// The stream queue under any number of producers and consumers.
//
// Each operation is three atomic steps: taking a unit from one semaphore, the section
// guarded by the mutex, and giving a unit to the other semaphore.  Steps of different
// threads interleave freely.
module StreamqConcurrent {
  import opened Common
  import opened Ring

  type Thread = nat

  datatype Phase<T> =
    | Outside
    | PushGranted(m: T)   // holds a unit of write_sem, has not stored yet
    | PushStored          // has stored, has not posted read_sem yet
    | PopGranted          // holds a unit of read_sem, has not removed yet
    | PopRemoved(m: T)    // has removed, has not posted write_sem yet

  datatype Kind = OUTSIDE | PUSH_GRANTED | PUSH_STORED | POP_GRANTED | POP_REMOVED

  function KindOf<T>(p: Phase<T>): Kind {
    match p
    case Outside => OUTSIDE
    case PushGranted(_) => PUSH_GRANTED
    case PushStored => PUSH_STORED
    case PopGranted => POP_GRANTED
    case PopRemoved(_) => POP_REMOVED
  }

  // `pushed` and `popped` record the messages in the order of the guarded sections.
  datatype State<T> = State(
    msg: seq<T>,
    writeIdx: nat,
    readIdx: nat,
    nentries: int,
    writeSem: nat,
    readSem: nat,
    threads: map<Thread, Phase<T>>,
    pushed: seq<T>,
    popped: seq<T>)

  datatype Label<T> =
    | PushWait(t: Thread, m: T)
    | PushTimeout(t: Thread)
    | PushStore(t: Thread)
    | PushPost(t: Thread)
    | PopWait(t: Thread)
    | PopTimeout(t: Thread)
    | PopRemove(t: Thread)
    | PopPost(t: Thread)

  ghost predicate Init<T>(s: State<T>, capacity: nat) {
    && |s.msg| == capacity
    && s.writeIdx == s.readIdx == s.nentries == s.readSem == 0
    && s.writeSem == capacity
    && s.pushed == s.popped == []
    && forall t :: t in s.threads ==> s.threads[t] == Outside
  }

  predicate Enabled<T>(s: State<T>, l: Label<T>) {
    && l.t in s.threads
    && match l
       case PushWait(t, _) => s.threads[t].Outside? && s.writeSem > 0
       case PushTimeout(t) => s.threads[t].Outside? && s.writeSem == 0
       case PushStore(t) => s.threads[t].PushGranted? && s.writeIdx < |s.msg|
       case PushPost(t) => s.threads[t].PushStored?
       case PopWait(t) => s.threads[t].Outside? && s.readSem > 0
       case PopTimeout(t) => s.threads[t].Outside? && s.readSem == 0
       case PopRemove(t) => s.threads[t].PopGranted? && s.readIdx < |s.msg|
       case PopPost(t) => s.threads[t].PopRemoved?
  }

  function Apply<T>(s: State<T>, l: Label<T>): State<T>
    requires Enabled(s, l)
  {
    match l
    case PushWait(t, m) =>
      s.(writeSem := s.writeSem - 1, threads := s.threads[t := PushGranted(m)])
    case PushTimeout(_) => s
    case PushStore(t) =>
      var m := s.threads[t].m;
      s.(msg := s.msg[s.writeIdx := m], writeIdx := AdvanceIdx(s.writeIdx, |s.msg|),
         nentries := s.nentries + 1, threads := s.threads[t := PushStored], pushed := s.pushed + [m])
    case PushPost(t) =>
      s.(readSem := s.readSem + 1, threads := s.threads[t := Outside])
    case PopWait(t) =>
      s.(readSem := s.readSem - 1, threads := s.threads[t := PopGranted])
    case PopTimeout(_) => s
    case PopRemove(t) =>
      var m := s.msg[s.readIdx];
      s.(readIdx := AdvanceIdx(s.readIdx, |s.msg|), nentries := s.nentries - 1,
         threads := s.threads[t := PopRemoved(m)], popped := s.popped + [m])
    case PopPost(t) =>
      s.(writeSem := s.writeSem + 1, threads := s.threads[t := Outside])
  }

  ghost predicate Legal<T>(s: State<T>, labels: seq<Label<T>>)
    decreases |labels|
  {
    labels == [] || (Enabled(s, labels[0]) && Legal(Apply(s, labels[0]), labels[1..]))
  }

  function Exec<T>(s: State<T>, labels: seq<Label<T>>): State<T>
    requires Legal(s, labels)
    decreases |labels|
  {
    if labels == [] then s else Exec(Apply(s, labels[0]), labels[1..])
  }

  ghost predicate Reachable<T(!new)>(s: State<T>, capacity: nat) {
    exists s0: State<T>, labels ::
      Init(s0, capacity) && Legal(s0, labels) && s == Exec(s0, labels)
  }

  // --- Counting threads -----------------------------------------------------------

  function Members<T>(threads: map<Thread, Phase<T>>, k: Kind): set<Thread> {
    set t | t in threads && KindOf(threads[t]) == k
  }

  function Count<T>(threads: map<Thread, Phase<T>>, k: Kind): nat {
    |Members(threads, k)|
  }

  lemma MembersMove<T>(threads: map<Thread, Phase<T>>, t: Thread, p: Phase<T>, k: Kind)
    requires t in threads
    ensures Members(threads[t := p], k) == Members(threads, k) - {t} + if KindOf(p) == k then {t} else {}
  {
  }

  lemma CountMoves<T>(threads: map<Thread, Phase<T>>, t: Thread, p: Phase<T>, k: Kind)
    requires t in threads
    ensures Count(threads[t := p], k) ==
      Count(threads, k) - (if KindOf(threads[t]) == k then 1 else 0) + (if KindOf(p) == k then 1 else 0)
  {
    MembersMove(threads, t, p, k);
    assert t in Members(threads, k) <==> KindOf(threads[t]) == k;
    SwapOne(Members(threads, k), t, KindOf(p) == k);
  }

  lemma SwapOne(s: set<Thread>, t: Thread, back: bool)
    ensures |s - {t} + if back then {t} else {}| == |s| - (if t in s then 1 else 0) + (if back then 1 else 0)
  {
    assert t in s ==> s == s - {t} + {t};
    assert t !in s ==> s == s - {t};
  }

  lemma SomeoneIsCounted<T>(threads: map<Thread, Phase<T>>, t: Thread)
    requires t in threads
    ensures Count(threads, KindOf(threads[t])) > 0
  {
    assert t in Members(threads, KindOf(threads[t]));
  }

  lemma NobodyIsCounted<T>(threads: map<Thread, Phase<T>>, k: Kind)
    requires forall t :: t in threads ==> KindOf(threads[t]) != k
    ensures Count(threads, k) == 0
  {
    assert Members(threads, k) == {};
  }

  // Threads that have taken a unit of one semaphore and not yet given the other.
  function InTransit<T>(s: State<T>): nat {
    Count(s.threads, PUSH_GRANTED) + Count(s.threads, PUSH_STORED)
    + Count(s.threads, POP_GRANTED) + Count(s.threads, POP_REMOVED)
  }

  // --- The invariant ---------------------------------------------------------------

  ghost predicate Accounts<T>(s: State<T>) {
    && s.writeSem + s.readSem + InTransit(s) == |s.msg|
    && s.nentries == s.readSem + Count(s.threads, PUSH_STORED) + Count(s.threads, POP_GRANTED)
  }

  ghost predicate InRing<T>(s: State<T>) {
    0 <= s.nentries && InRange(s.msg, s.readIdx, s.nentries)
  }

  ghost function Entries<T>(s: State<T>): seq<T>
    requires InRing(s)
  {
    Live(s.msg, s.readIdx, s.nentries)
  }

  ghost predicate Inv<T>(s: State<T>) {
    && Accounts(s)
    && InRing(s)
    && (|s.msg| > 0 ==> s.writeIdx == Slot(s.readIdx, s.nentries, |s.msg|))
    && s.pushed == s.popped + Entries(s)
  }

  lemma StepKeepsAccounts<T>(s: State<T>, l: Label<T>)
    requires Accounts(s) && Enabled(s, l)
    ensures Accounts(Apply(s, l))
  {
    var t, s' := l.t, Apply(s, l);
    if !l.PushTimeout? && !l.PopTimeout? {
      var p := s'.threads[t];
      assert s'.threads == s.threads[t := p];
      CountMoves(s.threads, t, p, PUSH_GRANTED);
      CountMoves(s.threads, t, p, PUSH_STORED);
      CountMoves(s.threads, t, p, POP_GRANTED);
      CountMoves(s.threads, t, p, POP_REMOVED);
    }
  }

  // What the two guarded sections do to the entries.
  lemma StoreAppends<T>(s: State<T>, t: Thread)
    requires Inv(s) && Enabled(s, PushStore(t))
    ensures var s' := Apply(s, PushStore(t));
      && s.nentries < |s.msg| && InRing(s') && Entries(s') == Entries(s) + [s.threads[t].m]
      && s'.writeIdx == Slot(s'.readIdx, s'.nentries, |s.msg|)
  {
    SomeoneIsCounted(s.threads, t);
    LiveAppends(s.msg, s.readIdx, s.nentries, s.threads[t].m);
  }

  lemma RemoveDrops<T>(s: State<T>, t: Thread)
    requires Inv(s) && Enabled(s, PopRemove(t))
    ensures var s' := Apply(s, PopRemove(t));
      && s.nentries > 0 && InRing(s') && Entries(s) == [s.msg[s.readIdx]] + Entries(s')
      && s'.writeIdx == Slot(s'.readIdx, s'.nentries, |s.msg|)
  {
    SomeoneIsCounted(s.threads, t);
    LiveDrops(s.msg, s.readIdx, s.nentries);
  }

  lemma StepKeepsInv<T>(s: State<T>, l: Label<T>)
    requires Inv(s) && Enabled(s, l)
    ensures Inv(Apply(s, l)) && |Apply(s, l).msg| == |s.msg|
  {
    StepKeepsAccounts(s, l);
    if l.PushStore? {
      StoreAppends(s, l.t);
    } else if l.PopRemove? {
      RemoveDrops(s, l.t);
    }
  }

  lemma InitHasInv<T>(s: State<T>, capacity: nat)
    requires Init(s, capacity)
    ensures Inv(s)
  {
    forall k | k != OUTSIDE ensures Count(s.threads, k) == 0 {
      NobodyIsCounted(s.threads, k);
    }
  }

  lemma {:induction false} RunKeepsInv<T>(s: State<T>, labels: seq<Label<T>>)
    requires Inv(s) && Legal(s, labels)
    ensures Inv(Exec(s, labels)) && |Exec(s, labels).msg| == |s.msg|
    decreases |labels|
  {
    if labels != [] {
      StepKeepsInv(s, labels[0]);
      RunKeepsInv(Apply(s, labels[0]), labels[1..]);
    }
  }

  lemma ReachableHasInv<T(!new)>(s: State<T>, capacity: nat)
    requires Reachable(s, capacity)
    ensures Inv(s) && |s.msg| == capacity
  {
    var s0: State<T>, labels :| Init(s0, capacity) && Legal(s0, labels) && s == Exec(s0, labels);
    InitHasInv(s0, capacity);
    RunKeepsInv(s0, labels);
  }

  // --- Safety ----------------------------------------------------------------------

  // The units of the two semaphores and the threads between a take and a post always
  // add up to the capacity; whoever may store finds a slot that is not live, and
  // whoever may remove finds one that is.
  lemma RingSafety<T(!new)>(s: State<T>, capacity: nat)
    requires Reachable(s, capacity)
    ensures s.writeSem + s.readSem + InTransit(s) == capacity
    ensures s.nentries == s.readSem + Count(s.threads, PUSH_STORED) + Count(s.threads, POP_GRANTED)
    ensures 0 <= s.nentries <= capacity
    ensures forall t :: t in s.threads && s.threads[t].PushGranted? ==>
      s.writeIdx < capacity && s.readIdx < capacity
      && forall i :: 0 <= i < s.nentries ==> s.writeIdx != Slot(s.readIdx, i, capacity)
    ensures forall t :: t in s.threads && s.threads[t].PopGranted? ==> s.readIdx < capacity && s.nentries > 0
  {
    ReachableHasInv(s, capacity);
    forall t | t in s.threads
      ensures s.threads[t].PushGranted? ==> s.nentries < capacity
      ensures s.threads[t].PopGranted? ==> s.nentries > 0
    {
      SomeoneIsCounted(s.threads, t);
    }
  }

  // First in, first out, whatever the interleaving: what has been removed is a prefix
  // of what has been stored, and the ring holds the rest.
  lemma LinearizableFifo<T(!new)>(s: State<T>, capacity: nat)
    requires Reachable(s, capacity)
    ensures InRing(s)
    ensures s.popped <= s.pushed
    ensures Entries(s) == s.pushed[|s.popped|..]
  {
    ReachableHasInv(s, capacity);
  }

  // Seen from outside, the ring is one bounded sequence: only the guarded sections change
  // it, one appending where there is room and one removing the oldest entry there is.
  lemma SectionsActOnOneBuffer<T(!new)>(s: State<T>, capacity: nat, l: Label<T>)
    requires Reachable(s, capacity) && Enabled(s, l)
    ensures var s' := Apply(s, l);
      && InRing(s) && InRing(s')
      && match l
         case PushStore(t) => |Entries(s)| < capacity && Entries(s') == Entries(s) + [s.threads[t].m]
         case PopRemove(t) =>
           Entries(s) != [] && s'.threads[t] == PopRemoved(Entries(s)[0]) && Entries(s') == Entries(s)[1..]
         case _ => Entries(s') == Entries(s)
  {
    ReachableHasInv(s, capacity);
    if l.PushStore? {
      StoreAppends(s, l.t);
    } else if l.PopRemove? {
      RemoveDrops(s, l.t);
    }
  }

  // A wait times out, rather than being granted, exactly when no unit is left: every slot
  // is then live, reserved by a producer, or emptied by a consumer that has not posted yet
  // (and dually).
  lemma TimeoutsAreHonest<T(!new)>(s: State<T>, capacity: nat, t: Thread, m: T)
    requires Reachable(s, capacity) && t in s.threads && s.threads[t].Outside?
    ensures Enabled(s, PushTimeout(t)) <==>
      s.nentries + Count(s.threads, PUSH_GRANTED) + Count(s.threads, POP_REMOVED) == capacity
    ensures Enabled(s, PushWait(t, m)) <==> !Enabled(s, PushTimeout(t))
    ensures Enabled(s, PopTimeout(t)) <==>
      s.nentries == Count(s.threads, PUSH_STORED) + Count(s.threads, POP_GRANTED)
    ensures Enabled(s, PopWait(t)) <==> !Enabled(s, PopTimeout(t))
  {
    ReachableHasInv(s, capacity);
  }

  // --- Which message an operation moves ----------------------------------------------

  // The argument of the push that a thread began last, before the end of the run.
  function Argument<T>(labels: seq<Label<T>>, t: Thread): Option<T> {
    if labels == [] then None
    else
      var l := labels[|labels| - 1];
      if l.PushWait? && l.t == t then Some(l.m) else Argument(labels[..|labels| - 1], t)
  }

  // The arguments of the pushes that got past their wait.
  function Begun<T>(labels: seq<Label<T>>): seq<T> {
    if labels == [] then []
    else
      var l := labels[|labels| - 1];
      Begun(labels[..|labels| - 1]) + if l.PushWait? then [l.m] else []
  }

  // What a run stores if every push stores the argument it began with.
  function ToBeStored<T>(labels: seq<Label<T>>): seq<T> {
    if labels == [] then []
    else
      var before, l := labels[..|labels| - 1], labels[|labels| - 1];
      ToBeStored(before) +
        match Argument(before, l.t)
        case Some(m) => if l.PushStore? then [m] else []
        case None => []
  }

  // The producers that hold `m` and have not stored it yet.
  ghost function Holders<T>(threads: map<Thread, Phase<T>>, m: T): set<Thread> {
    set t | t in threads && threads[t] == PushGranted(m)
  }

  // Threads hold the arguments of their pushes until they store them.
  ghost predicate KeepsArguments<T>(s: State<T>, labels: seq<Label<T>>) {
    && s.pushed == ToBeStored(labels)
    && (forall t :: t in s.threads && s.threads[t].PushGranted? ==> Argument(labels, t) == Some(s.threads[t].m))
  }

  // Every begun push of `m` is stored or held.
  ghost predicate KeepsNumber<T>(s: State<T>, labels: seq<Label<T>>, m: T) {
    multiset(s.pushed)[m] + |Holders(s.threads, m)| == multiset(Begun(labels))[m]
  }

  lemma HoldersMove<T>(threads: map<Thread, Phase<T>>, t: Thread, p: Phase<T>, m: T)
    requires t in threads
    ensures |Holders(threads[t := p], m)| ==
      |Holders(threads, m)| - (if threads[t] == PushGranted(m) then 1 else 0) + (if p == PushGranted(m) then 1 else 0)
  {
    var back := p == PushGranted(m);
    assert Holders(threads[t := p], m) == Holders(threads, m) - {t} + if back then {t} else {};
    SwapOne(Holders(threads, m), t, back);
  }

  lemma OneMoreStep<T>(labels: seq<Label<T>>, l: Label<T>, t: Thread)
    ensures Argument(labels + [l], t) == if l.PushWait? && l.t == t then Some(l.m) else Argument(labels, t)
    ensures Begun(labels + [l]) == if l.PushWait? then Begun(labels) + [l.m] else Begun(labels)
    ensures l.PushStore? && Argument(labels, l.t).Some? ==>
      ToBeStored(labels + [l]) == ToBeStored(labels) + [Argument(labels, l.t).value]
    ensures !l.PushStore? ==> ToBeStored(labels + [l]) == ToBeStored(labels)
  {
    assert (labels + [l])[..|labels|] == labels;
  }

  lemma StepKeepsNumber<T>(s: State<T>, labels: seq<Label<T>>, l: Label<T>, m: T)
    requires KeepsNumber(s, labels, m) && Enabled(s, l)
    ensures KeepsNumber(Apply(s, l), labels + [l], m)
  {
    OneMoreStep(labels, l, l.t);
    if !l.PushTimeout? && !l.PopTimeout? {
      HoldersMove(s.threads, l.t, Apply(s, l).threads[l.t], m);
    }
  }

  lemma StepKeepsArguments<T>(s: State<T>, labels: seq<Label<T>>, l: Label<T>)
    requires KeepsArguments(s, labels) && Enabled(s, l)
    ensures KeepsArguments(Apply(s, l), labels + [l])
  {
    var s' := Apply(s, l);
    OneMoreStep(labels, l, l.t);
    forall t | t in s'.threads && s'.threads[t].PushGranted?
      ensures Argument(labels + [l], t) == Some(s'.threads[t].m)
    {
      OneMoreStep(labels, l, t);
    }
  }

  lemma {:induction false} RunKeepsArguments<T>(s: State<T>, done: seq<Label<T>>, labels: seq<Label<T>>)
    requires KeepsArguments(s, done) && Legal(s, labels)
    ensures KeepsArguments(Exec(s, labels), done + labels)
    decreases |labels|
  {
    if labels == [] {
      assert done + labels == done;
    } else {
      StepKeepsArguments(s, done, labels[0]);
      RunKeepsArguments(Apply(s, labels[0]), done + [labels[0]], labels[1..]);
      assert done + [labels[0]] + labels[1..] == done + labels;
    }
  }

  lemma {:induction false} RunKeepsNumber<T>(s: State<T>, done: seq<Label<T>>, labels: seq<Label<T>>, m: T)
    requires KeepsNumber(s, done, m) && Legal(s, labels)
    ensures KeepsNumber(Exec(s, labels), done + labels, m)
    decreases |labels|
  {
    if labels == [] {
      assert done + labels == done;
    } else {
      StepKeepsNumber(s, done, labels[0], m);
      RunKeepsNumber(Apply(s, labels[0]), done + [labels[0]], labels[1..], m);
      assert done + [labels[0]] + labels[1..] == done + labels;
    }
  }

  // In every run the messages stored are the arguments of the pushes that stored them, in
  // that order; every producer about to store holds its own argument; and no argument is
  // lost or doubled: each is stored or held by its producer.
  lemma PushesKeepTheirArguments<T(!new)>(s0: State<T>, capacity: nat, labels: seq<Label<T>>, m: T)
    requires Init(s0, capacity) && Legal(s0, labels)
    ensures var s := Exec(s0, labels);
      && s.pushed == ToBeStored(labels)
      && (forall t :: t in s.threads && s.threads[t].PushGranted? ==> Argument(labels, t) == Some(s.threads[t].m))
      && multiset(s.pushed)[m] + |Holders(s.threads, m)| == multiset(Begun(labels))[m]
  {
    assert Holders(s0.threads, m) == {};
    assert [] + labels == labels;
    RunKeepsArguments(s0, [], labels);
    RunKeepsNumber(s0, [], labels, m);
  }

  lemma {:induction false} OthersLeaveAlone<T>(s: State<T>, labels: seq<Label<T>>, t: Thread)
    requires Legal(s, labels) && t in s.threads
    requires forall l :: l in labels ==> l.t != t
    ensures t in Exec(s, labels).threads && Exec(s, labels).threads[t] == s.threads[t]
    decreases |labels|
  {
    if labels != [] {
      OthersLeaveAlone(Apply(s, labels[0]), labels[1..], t);
    }
  }

  // A push that was granted stores its own message behind the entries there are by then,
  // whatever other threads have done in between.
  lemma PushStoresItsMessage<T(!new)>(s: State<T>, capacity: nat, t: Thread, m: T, between: seq<Label<T>>)
    requires Reachable(s, capacity) && Enabled(s, PushWait(t, m)) && Legal(Apply(s, PushWait(t, m)), between)
    requires forall l :: l in between ==> l.t != t
    ensures var s1 := Exec(Apply(s, PushWait(t, m)), between);
      && Enabled(s1, PushStore(t)) && InRing(s1)
      && var s2 := Apply(s1, PushStore(t));
      && InRing(s2) && Entries(s2) == Entries(s1) + [m] && s2.pushed == s1.pushed + [m]
  {
    ReachableHasInv(s, capacity);
    StepKeepsInv(s, PushWait(t, m));
    var granted := Apply(s, PushWait(t, m));
    RunKeepsInv(granted, between);
    OthersLeaveAlone(granted, between, t);
    var s1 := Exec(granted, between);
    NeverStuckInside(s1, t);
    StoreAppends(s1, t);
  }

  // A pop hands out the entry that was the oldest when its section ran, whatever other
  // threads do before it returns.
  lemma PopReturnsTheOldest<T(!new)>(s: State<T>, capacity: nat, t: Thread, between: seq<Label<T>>)
    requires Reachable(s, capacity) && Enabled(s, PopRemove(t)) && Legal(Apply(s, PopRemove(t)), between)
    requires forall l :: l in between ==> l.t != t
    ensures var s1 := Exec(Apply(s, PopRemove(t)), between);
      && InRing(s) && Entries(s) != []
      && t in s1.threads && s1.threads[t] == PopRemoved(Entries(s)[0]) && Enabled(s1, PopPost(t))
  {
    ReachableHasInv(s, capacity);
    RemoveDrops(s, t);
    OthersLeaveAlone(Apply(s, PopRemove(t)), between, t);
  }

  // --- Progress --------------------------------------------------------------------

  ghost predicate Quiescent<T>(s: State<T>) {
    forall t :: t in s.threads ==> s.threads[t].Outside?
  }

  // The step that continues an operation that has passed its wait.
  function NextStep<T>(s: State<T>, t: Thread): Label<T>
    requires t in s.threads && !s.threads[t].Outside?
  {
    match s.threads[t]
    case PushGranted(_) => PushStore(t)
    case PushStored => PushPost(t)
    case PopGranted => PopRemove(t)
    case PopRemoved(_) => PopPost(t)
  }

  lemma NeverStuckInside<T>(s: State<T>, t: Thread)
    requires Inv(s) && t in s.threads && !s.threads[t].Outside?
    ensures Enabled(s, NextStep(s, t))
  {
    SomeoneIsCounted(s.threads, t);
  }

  // With a positive capacity producers and consumers are never all blocked: some thread
  // can continue its operation, or one of the semaphores has a unit left.  With no
  // operation in flight the semaphores say exactly how full the ring is.
  lemma QueueProgress<T(!new)>(s: State<T>, capacity: nat)
    requires Reachable(s, capacity)
    ensures capacity > 0 && s.writeSem == 0 && s.readSem == 0 ==>
      exists t :: t in s.threads && !s.threads[t].Outside? && Enabled(s, NextStep(s, t))
    ensures Quiescent(s) ==> s.readSem == s.nentries && s.writeSem == capacity - s.nentries
  {
    ReachableHasInv(s, capacity);
    if Quiescent(s) {
      forall k | k != OUTSIDE ensures Count(s.threads, k) == 0 {
        NobodyIsCounted(s.threads, k);
      }
    } else {
      var t :| t in s.threads && !s.threads[t].Outside?;
      NeverStuckInside(s, t);
    }
  }

  ghost function Work<T>(s: State<T>): nat {
    2 * Count(s.threads, PUSH_GRANTED) + Count(s.threads, PUSH_STORED)
    + 2 * Count(s.threads, POP_GRANTED) + Count(s.threads, POP_REMOVED)
  }

  lemma WorkShrinks<T>(s: State<T>, t: Thread)
    requires t in s.threads && !s.threads[t].Outside? && Enabled(s, NextStep(s, t))
    ensures Work(Apply(s, NextStep(s, t))) < Work(s)
  {
    var s' := Apply(s, NextStep(s, t));
    var p := s'.threads[t];
    CountMoves(s.threads, t, p, PUSH_GRANTED);
    CountMoves(s.threads, t, p, PUSH_STORED);
    CountMoves(s.threads, t, p, POP_GRANTED);
    CountMoves(s.threads, t, p, POP_REMOVED);
  }

  // No wake-up is lost: from every state the operations in flight can run to completion
  // without a single wait, and then read_sem counts exactly the entries of the ring.
  lemma InFlightOperationsFinish<T>(s: State<T>) returns (labels: seq<Label<T>>)
    requires Inv(s)
    ensures Legal(s, labels) && Quiescent(Exec(s, labels))
    ensures forall l :: l in labels ==> l.PushStore? || l.PushPost? || l.PopRemove? || l.PopPost?
    ensures Exec(s, labels).readSem == Exec(s, labels).nentries
    decreases Work(s)
  {
    if Quiescent(s) {
      labels := [];
      forall k | k != OUTSIDE ensures Count(s.threads, k) == 0 {
        NobodyIsCounted(s.threads, k);
      }
    } else {
      var t :| t in s.threads && !s.threads[t].Outside?;
      NeverStuckInside(s, t);
      var l := NextStep(s, t);
      StepKeepsInv(s, l);
      WorkShrinks(s, t);
      var rest := InFlightOperationsFinish(Apply(s, l));
      labels := [l] + rest;
      assert labels[1..] == rest;
    }
  }
}
