// A full stream queue holds up command responses.
module HeadOfLine {
  import opened Common
  import opened Protocol

  // The application takes no stream data, and the push, whose timeout is longer than two
  // hundred years, does not give up.
  ghost predicate NobodyPops(s: State, l: Label) {
    !l.AppPop? && !l.ReaderGiveUp?
  }

  ghost predicate Blocked(s: State) {
    s.reader.Pushing? && |s.queue| >= s.capacity
  }

  // Commands that got a token.
  function Answered(outcomes: seq<Outcome>): nat {
    if outcomes == [] then 0
    else
      var o := outcomes[|outcomes| - 1];
      Answered(outcomes[..|outcomes| - 1]) + if o.WriteFailed? || o.TimedOut? then 0 else 1
  }

  function TokensLeft(s: State): nat {
    s.sem + if s.cmd.TokenTaken? || s.cmd.SlotTaken? then 1 else 0
  }

  lemma StepStarves(s: State, l: Label)
    requires Blocked(s) && Enabled(s, l) && NobodyPops(s, l)
    ensures Starved(s, Apply(s, l))
  {
    if Apply(s, l).outcomes != s.outcomes {
      assert Apply(s, l).outcomes[..|s.outcomes|] == s.outcomes;
    }
  }

  // From `s` to `s'` the blocked reader has done nothing, and commands had only the tokens
  // that were there.
  ghost predicate Starved(s: State, s': State) {
    && Blocked(s') && s'.reader == s.reader && s'.queue == s.queue
    && s.wire <= s'.wire && s'.handled == s.handled && s'.stored == s.stored
    && (s'.slot == s.slot || s'.slot == None)
    && s.outcomes <= s'.outcomes
    && TokensLeft(s') + Answered(s'.outcomes) == TokensLeft(s) + Answered(s.outcomes)
  }

  // While the reader is blocked it reads nothing, stores nothing and posts nothing: the
  // tokens that were there are all that commands can ever get.
  lemma {:induction false} BlockedReaderStarvesCommands(s: State, labels: seq<Label>)
    requires Blocked(s) && Run(s, labels, NobodyPops)
    ensures Starved(s, Exec(s, labels, NobodyPops))
    decreases |labels|
  {
    if labels != [] {
      StepStarves(s, labels[0]);
      BlockedReaderStarvesCommands(Apply(s, labels[0]), labels[1..]);
    }
  }

  lemma {:induction false} NoneAnswered(before: seq<Outcome>, after: seq<Outcome>)
    requires before <= after && Answered(after) == Answered(before)
    ensures forall i :: |before| <= i < |after| ==> after[i].WriteFailed? || after[i].TimedOut?
  {
    if |before| < |after| {
      var shorter := after[..|after| - 1];
      AnsweredGrows(before, shorter);
      NoneAnswered(before, shorter);
    }
  }

  lemma {:induction false} AnsweredGrows(before: seq<Outcome>, after: seq<Outcome>)
    requires before <= after
    ensures Answered(before) <= Answered(after)
  {
    if |before| < |after| {
      AnsweredGrows(before, after[..|after| - 1]);
    } else {
      assert before == after;
    }
  }

  // With no token left, every command whose write succeeds times out, however many
  // responses wait on the wire.
  lemma EveryCommandTimesOut(s: State, labels: seq<Label>)
    requires Blocked(s) && TokensLeft(s) == 0 && Run(s, labels, NobodyPops)
    ensures var outcomes := Exec(s, labels, NobodyPops).outcomes;
      forall i :: |s.outcomes| <= i < |outcomes| ==> outcomes[i].WriteFailed? || outcomes[i].TimedOut?
  {
    BlockedReaderStarvesCommands(s, labels);
    var s' := Exec(s, labels, NobodyPops);
    AnsweredGrows(s.outcomes, s'.outcomes);
    NoneAnswered(s.outcomes, s'.outcomes);
  }
}
