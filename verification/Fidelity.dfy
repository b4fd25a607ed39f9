// Nothing is lost, duplicated or reordered between the wire and the application, other
// than by the drops the code makes on purpose.
module Fidelity {
  import opened Protocol

  function StreamData(msgs: seq<Msg>): seq<Data> {
    if msgs == [] then []
    else
      var m := msgs[|msgs| - 1];
      StreamData(msgs[..|msgs| - 1]) + if m.Stream? then [m.data] else []
  }

  function Replies(msgs: seq<Msg>): seq<Reply> {
    if msgs == [] then []
    else
      var m := msgs[|msgs| - 1];
      Replies(msgs[..|msgs| - 1]) + if m.Response? then [m.reply] else []
  }

  lemma OneMoreMessage(msgs: seq<Msg>, m: Msg)
    ensures Replies([m]) == if m.Response? then [m.reply] else []
    ensures StreamData([m]) == if m.Stream? then [m.data] else []
    ensures Replies(msgs + [m]) == Replies(msgs) + Replies([m])
    ensures StreamData(msgs + [m]) == StreamData(msgs) + StreamData([m])
  {
    assert [m][..0] == [];
    assert (msgs + [m])[..|msgs|] == msgs;
  }

  lemma {:induction false} FirstMessage(msgs: seq<Msg>)
    requires msgs != []
    ensures |Replies(msgs)| == |Replies(msgs[1..])| + if msgs[0].Response? then 1 else 0
  {
    if |msgs| > 1 {
      var shorter := msgs[..|msgs| - 1];
      FirstMessage(shorter);
      assert msgs[1..][..|msgs[1..]| - 1] == shorter[1..];
    } else {
      assert msgs[..0] == [] && msgs[1..] == [];
    }
  }

  function OfferedData(offers: seq<Offer>): seq<Data> {
    seq(|offers|, i requires 0 <= i < |offers| => offers[i].data)
  }

  function AcceptedData(offers: seq<Offer>): seq<Data> {
    if offers == [] then []
    else
      var o := offers[|offers| - 1];
      AcceptedData(offers[..|offers| - 1]) + if o.accepted then [o.data] else []
  }

  function TakenData(taken: seq<Taken>): seq<Data> {
    seq(|taken|, i requires 0 <= i < |taken| => taken[i].data)
  }

  function BeingPushed(s: State): seq<Data> {
    if s.reader.Pushing? then [s.reader.data] else []
  }

  function BeingStored(s: State): seq<Reply> {
    if s.reader.Storing? then [s.reader.reply] else []
  }

  ghost predicate Faithful(s: State) {
    && s.emitted == s.handled + s.wire
    && Replies(s.handled) == s.stored + BeingStored(s)
    && StreamData(s.handled) == OfferedData(s.offered) + BeingPushed(s)
    && AcceptedData(s.offered) == TakenData(s.taken) + s.queue
    && |s.queue| <= s.capacity
  }

  // The response in the slot is the last one stored, and a command ended with a stored one.
  ghost predicate FromTheStore(s: State) {
    && (s.slot.Some? ==> s.stored != [] && s.slot.value == s.stored[|s.stored| - 1])
    && (s.cmd.SlotTaken? && s.cmd.response.Some? ==> s.cmd.response.value in s.stored)
    && (forall o :: o in s.outcomes && (o.Matched? || o.Mismatch?) ==> o.reply in s.stored)
  }

  lemma StepKeepsFromTheStore(s: State, l: Label)
    requires FromTheStore(s) && Enabled(s, l)
    ensures FromTheStore(Apply(s, l))
  {
    assert s.stored <= Apply(s, l).stored;
  }

  lemma {:induction false} RunKeepsFromTheStore(s: State, labels: seq<Label>)
    requires FromTheStore(s) && Run(s, labels, AnyStep)
    ensures FromTheStore(Exec(s, labels, AnyStep))
    decreases |labels|
  {
    if labels != [] {
      StepKeepsFromTheStore(s, labels[0]);
      RunKeepsFromTheStore(Apply(s, labels[0]), labels[1..]);
    }
  }

  // The reader has in hand what it has read.
  lemma ReadTakesInHand(s: State)
    requires Enabled(s, ReaderRead)
    ensures BeingStored(s) == [] && BeingStored(Apply(s, ReaderRead)) == Replies([s.wire[0]])
    ensures BeingPushed(s) == [] && BeingPushed(Apply(s, ReaderRead)) == StreamData([s.wire[0]])
  {
    OneMoreMessage([], s.wire[0]);
  }

  lemma ReadKeepsFaithful(s: State)
    requires Faithful(s) && Enabled(s, ReaderRead)
    ensures Faithful(Apply(s, ReaderRead))
  {
    var s' := Apply(s, ReaderRead);
    ReadTakesInHand(s);
    OneMoreMessage(s.handled, s.wire[0]);
    assert s'.handled + s'.wire == s.handled + s.wire;
  }

  lemma OfferKeepsFaithful(s: State, l: Label)
    requires Faithful(s) && Enabled(s, l) && (l.ReaderPush? || l.ReaderGiveUp?)
    ensures Faithful(Apply(s, l))
  {
    var s' := Apply(s, l);
    assert s'.offered[..|s.offered|] == s.offered;
    assert OfferedData(s'.offered) == OfferedData(s.offered) + [s.reader.data];
  }

  lemma PopKeepsFaithful(s: State, unpacks: bool)
    requires Faithful(s) && s.queue != []
    ensures Faithful(Apply(s, AppPop(unpacks)))
  {
    var s' := Apply(s, AppPop(unpacks));
    assert TakenData(s'.taken) == TakenData(s.taken) + [s.queue[0]];
    assert s.queue == [s.queue[0]] + s.queue[1..];
  }

  lemma {:induction false} RunKeepsFaithful(s: State, labels: seq<Label>)
    requires Faithful(s) && Run(s, labels, AnyStep)
    ensures Faithful(Exec(s, labels, AnyStep))
    decreases |labels|
  {
    if labels != [] {
      var l := labels[0];
      if l.ReaderRead? {
        ReadKeepsFaithful(s);
      } else if l.ReaderPush? || l.ReaderGiveUp? {
        OfferKeepsFaithful(s, l);
      } else if l.AppPop? {
        PopKeepsFaithful(s, l.unpacks);
      }
      RunKeepsFaithful(Apply(s, l), labels[1..]);
    }
  }

  lemma {:induction false} AllAccepted(offers: seq<Offer>)
    requires forall o :: o in offers ==> o.accepted
    ensures AcceptedData(offers) == OfferedData(offers)
  {
    if offers != [] {
      var shorter := offers[..|offers| - 1];
      AllAccepted(shorter);
      assert OfferedData(offers) == OfferedData(shorter) + [offers[|offers| - 1].data];
    }
  }

  lemma ReachableIsFaithful(s: State)
    requires Reachable(s, AnyStep)
    ensures Faithful(s) && FromTheStore(s)
  {
    var capacity: nat, labels :|
      Run(Initial(capacity), labels, AnyStep) && s == Exec(Initial(capacity), labels, AnyStep);
    RunKeepsFaithful(Initial(capacity), labels);
    RunKeepsFromTheStore(Initial(capacity), labels);
  }

  // A stream message is dropped only when the application is a full queue behind with the
  // messages that were accepted.
  lemma DropsOnlyWhenFull(s: State, l: Label)
    requires Reachable(s, AnyStep) && Enabled(s, l)
    requires |Apply(s, l).offered| > |s.offered| && !Apply(s, l).offered[|s.offered|].accepted
    ensures |AcceptedData(s.offered)| == |s.taken| + s.capacity
  {
    ReachableIsFaithful(s);
  }

  // In every reachable state, for the messages the reader has handled, a prefix of those
  // the device emitted: the responses that entered the slot are its responses, in order;
  // the stream messages it tried to queue are its stream messages, in order; those that
  // were accepted are the ones the application has taken followed by the ones queued.
  // As long as no push gave up, that covers every stream message.  The slot holds the
  // last response stored, if any, and every command that took a response took a stored one.
  lemma EndToEndFidelity(s: State)
    requires Reachable(s, AnyStep)
    ensures s.emitted == s.handled + s.wire
    ensures Replies(s.handled) == s.stored + BeingStored(s)
    ensures StreamData(s.handled) == OfferedData(s.offered) + BeingPushed(s)
    ensures AcceptedData(s.offered) == TakenData(s.taken) + s.queue
    ensures (forall o :: o in s.offered ==> o.accepted) ==>
      StreamData(s.handled) == TakenData(s.taken) + s.queue + BeingPushed(s)
    ensures s.slot.Some? ==> s.stored != [] && s.slot.value == s.stored[|s.stored| - 1]
    ensures forall o :: o in s.outcomes && (o.Matched? || o.Mismatch?) ==> o.reply in s.stored
  {
    ReachableIsFaithful(s);
    if forall o :: o in s.offered ==> o.accepted {
      AllAccepted(s.offered);
    }
  }
}
