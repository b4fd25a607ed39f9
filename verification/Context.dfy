// The rolling one-byte context that tags every command.
//
// `command` increments the byte before it sends, and once more after a matching
// response; only that second increment tests for 'Z'.  A history is a sequence of
// outcomes, one per command: true when the response matched, false when the write
// failed, the wait timed out, the response was missing or its context differed.
module Context {
  import opened Common

  const CONTEXT_A: Byte := 65
  const CONTEXT_Z: Byte := 90

  // `char` arithmetic: 255 rolls over to 0.
  function Increment(b: Byte): Byte {
    if b == 255 then 0 else b + 1
  }

  // The second increment, with its wrap from 'Z' to 'A'.
  function Advance(sent: Byte): Byte {
    if Increment(sent) == CONTEXT_Z then CONTEXT_A else Increment(sent)
  }

  // The byte held between commands.
  function Idle(outcomes: seq<bool>): Byte {
    if outcomes == [] then CONTEXT_A
    else
      var n := |outcomes| - 1;
      var sent := Increment(Idle(outcomes[..n]));
      if outcomes[n] then Advance(sent) else sent
  }

  // The byte carried by the command that follows the history.
  function Sent(outcomes: seq<bool>): Byte {
    Increment(Idle(outcomes))
  }

  // The byte carried by the command that comes `|outcomes|` commands after one that
  // carried `sent`.
  function SentAfter(sent: Byte, outcomes: seq<bool>): Byte {
    if outcomes == [] then sent
    else
      var n := |outcomes| - 1;
      var last := SentAfter(sent, outcomes[..n]);
      Increment(if outcomes[n] then Advance(last) else last)
  }

  lemma {:induction false} SentSplits(before: seq<bool>, after: seq<bool>)
    ensures Sent(before + after) == SentAfter(Sent(before), after)
  {
    if after == [] {
      assert before + after == before;
    } else {
      var n := |after| - 1;
      assert (before + after)[..|before + after| - 1] == before + after[..n];
      SentSplits(before, after[..n]);
    }
  }

  // --- How soon a context can recur ---------------------------------------------

  // Over at most 13 commands there is at most one wrap.  `shift` is the distance
  // travelled, and `sinceWrap` the number of commands since the wrap (-1: none).
  lemma {:induction false} Displacement(sent: Byte, outcomes: seq<bool>) returns (shift: int, sinceWrap: int)
    requires |outcomes| <= 13
    ensures SentAfter(sent, outcomes) == sent + shift || SentAfter(sent, outcomes) == sent + shift - 256
    ensures -1 <= sinceWrap < |outcomes|
    ensures sinceWrap == -1 ==> |outcomes| <= shift <= 2 * |outcomes|
    ensures sinceWrap >= 0 ==> |outcomes| - 24 <= shift <= 2 * |outcomes| - 25
    ensures sinceWrap >= 0 ==> 66 + sinceWrap <= SentAfter(sent, outcomes) <= 66 + 2 * sinceWrap
    ensures sinceWrap >= 0 && sinceWrap == |outcomes| - 1 ==> sent == 89
  {
    if outcomes == [] {
      return 0, -1;
    }
    var n := |outcomes| - 1;
    var last := SentAfter(sent, outcomes[..n]);
    shift, sinceWrap := Displacement(sent, outcomes[..n]);
    if outcomes[n] && last == 89 {
      shift, sinceWrap := shift - 23, 0;
    } else {
      shift := shift + if outcomes[n] then 2 else 1;
      sinceWrap := if sinceWrap >= 0 then sinceWrap + 1 else -1;
    }
  }

  // Two commands of one run that carry the same context are at least 13 sends apart.
  lemma RecurrenceBound(outcomes: seq<bool>, i: nat, j: nat)
    requires i < j <= |outcomes|
    requires Sent(outcomes[..i]) == Sent(outcomes[..j])
    ensures j - i >= 13
  {
    if j - i <= 12 {
      var gap := outcomes[i..j];
      assert outcomes[..j] == outcomes[..i] + gap;
      SentSplits(outcomes[..i], gap);
      var shift, sinceWrap := Displacement(Sent(outcomes[..i]), gap);
    }
  }

  // `n` commands in a row that match.
  function Matching(n: nat): seq<bool> {
    seq(n, _ => true)
  }

  lemma MatchingSplits(n: nat)
    requires n > 0
    ensures Matching(n)[..n - 1] == Matching(n - 1)
  {
  }

  lemma {:induction false} Climb(sent: Byte, n: nat)
    requires sent + 2 * n < 256
    requires forall i :: 0 <= i < n ==> sent + 2 * i != 89
    ensures SentAfter(sent, Matching(n)) == sent + 2 * n
  {
    if n > 0 {
      MatchingSplits(n);
      Climb(sent, n - 1);
      assert sent + 2 * (n - 1) != 89;
    }
  }

  lemma {:induction false} SentAfterSplits(sent: Byte, first: seq<bool>, second: seq<bool>)
    ensures SentAfter(sent, first + second) == SentAfter(SentAfter(sent, first), second)
  {
    if second == [] {
      assert first + second == first;
    } else {
      var n := |second| - 1;
      assert (first + second)[..|first + second| - 1] == first + second[..n];
      SentAfterSplits(sent, first, second[..n]);
    }
  }

  lemma SentAfterOne(sent: Byte, matched: bool)
    ensures SentAfter(sent, [matched]) == Increment(if matched then Advance(sent) else sent)
  {
    assert [matched][..0] == [];
  }

  // Over the wrap and on to `88 - 2 * k`.
  function Over(k: nat): seq<bool>
    requires k <= 11
  {
    [true] + Matching(11 - k)
  }

  lemma OverWraps(k: nat)
    requires k <= 11
    ensures SentAfter(89, Over(k)) == 88 - 2 * k
  {
    SentAfterOne(89, true);
    SentAfterSplits(89, [true], Matching(11 - k));
    Climb(66, 11 - k);
  }

  // The shortest ways round: one unmatched command, after the wrap or before it.
  lemma CycleFromOdd(k: nat)
    requires k <= 11
    ensures SentAfter(89 - 2 * k, Matching(k) + Over(k) + [false]) == 89 - 2 * k
  {
    Climb(89 - 2 * k, k);
    SentAfterSplits(89 - 2 * k, Matching(k), Over(k));
    OverWraps(k);
    SentAfterSplits(89 - 2 * k, Matching(k) + Over(k), [false]);
    SentAfterOne(88 - 2 * k, false);
  }

  lemma CycleFromEven(k: nat)
    requires k <= 11
    ensures SentAfter(88 - 2 * k, [false] + Matching(k) + Over(k)) == 88 - 2 * k
  {
    SentAfterOne(88 - 2 * k, false);
    SentAfterSplits(88 - 2 * k, [false], Matching(k));
    Climb(89 - 2 * k, k);
    SentAfterSplits(88 - 2 * k, [false] + Matching(k), Over(k));
    OverWraps(k);
  }

  // The bound of 13 is attained from a context exactly when it lies in 'B'..'Y'.
  lemma RecurrenceAtThirteen(sent: Byte)
    ensures (exists outcomes :: |outcomes| == 13 && SentAfter(sent, outcomes) == sent) <==> 66 <= sent <= 89
  {
    forall outcomes: seq<bool> | |outcomes| == 13 && SentAfter(sent, outcomes) == sent
      ensures 66 <= sent <= 89
    {
      var shift, sinceWrap := Displacement(sent, outcomes);
    }
    if 66 <= sent <= 89 {
      var k := (89 - sent) / 2;
      if sent == 89 - 2 * k {
        CycleFromOdd(k);
        assert |Matching(k) + Over(k) + [false]| == 13;
      } else {
        CycleFromEven(k);
        assert |[false] + Matching(k) + Over(k)| == 13;
      }
    }
  }

  // --- What the byte really keeps ------------------------------------------------

  // Whether the last command of the history wrapped the byte back to 'A'.
  predicate Wraps(outcomes: seq<bool>) {
    outcomes != [] && outcomes[|outcomes| - 1] && Sent(outcomes[..|outcomes| - 1]) == 89
  }

  // How far the byte has travelled since the start or the last wrap: one step for an
  // unmatched command, two for a matched one.
  function Travel(outcomes: seq<bool>): nat {
    if outcomes == [] || Wraps(outcomes) then 0
    else
      var n := |outcomes| - 1;
      Travel(outcomes[..n]) + if outcomes[n] then 2 else 1
  }

  lemma {:induction false} IncrementModulo(n: nat)
    ensures Increment((65 + n) % 256) == (66 + n) % 256
  {
  }

  // The value of the byte held between commands, for every history.
  lemma {:induction false} ValueLaw(outcomes: seq<bool>)
    ensures Idle(outcomes) == (65 + Travel(outcomes)) % 256
  {
    if outcomes != [] {
      var before := outcomes[..|outcomes| - 1];
      ValueLaw(before);
      IncrementModulo(Travel(before));
      IncrementModulo(Travel(before) + 1);
    }
  }

  // The wrap happens exactly when a command matches after a travel of 23.
  lemma WrapsExactly(outcomes: seq<bool>)
    ensures Wraps(outcomes) <==>
      outcomes != [] && outcomes[|outcomes| - 1] && Travel(outcomes[..|outcomes| - 1]) % 256 == 23
  {
    if outcomes != [] {
      var before := outcomes[..|outcomes| - 1];
      ValueLaw(before);
      IncrementModulo(Travel(before));
      TwentyThree(Travel(before));
    }
  }

  lemma TwentyThree(n: nat)
    ensures (66 + n) % 256 == 89 <==> n % 256 == 23
  {
  }

  // --- When the contexts stay in the alphabet ---------------------------------------

  predicate SentWithin(outcomes: seq<bool>, low: Byte, high: Byte) {
    forall i :: 0 <= i <= |outcomes| ==> low <= Sent(outcomes[..i]) <= high
  }

  // The guard of the wrap test, seen from the command before it: one that carried 'X'
  // must not match and one that carried 'Y' must, lest the byte get past 'Z' unseen.
  predicate HitsTheWrap(outcomes: seq<bool>) {
    forall i :: 0 <= i < |outcomes| ==>
      (Sent(outcomes[..i]) == 88 ==> !outcomes[i]) && (Sent(outcomes[..i]) == 89 ==> outcomes[i])
  }

  lemma SentStep(outcomes: seq<bool>, i: nat)
    requires i < |outcomes|
    ensures var sent := Sent(outcomes[..i]);
      Sent(outcomes[..i + 1]) == Increment(if outcomes[i] then Advance(sent) else sent)
  {
    assert outcomes[..i + 1][..i] == outcomes[..i];
  }

  // All contexts sent lie in 'B'..'Y' exactly when no command that carried 'X' matched
  // and none that carried 'Y' went unmatched.
  lemma {:induction false} StaysInAlphabet(outcomes: seq<bool>)
    ensures SentWithin(outcomes, 66, 89) <==> HitsTheWrap(outcomes)
  {
    if HitsTheWrap(outcomes) {
      StaysInAlphabetUpTo(outcomes, |outcomes|);
    }
    if SentWithin(outcomes, 66, 89) {
      forall i | 0 <= i < |outcomes|
        ensures (Sent(outcomes[..i]) == 88 ==> !outcomes[i]) && (Sent(outcomes[..i]) == 89 ==> outcomes[i])
      {
        SentStep(outcomes, i);
      }
    }
  }

  lemma {:induction false} StaysInAlphabetUpTo(outcomes: seq<bool>, n: nat)
    requires HitsTheWrap(outcomes) && n <= |outcomes|
    ensures forall i :: 0 <= i <= n ==> 66 <= Sent(outcomes[..i]) <= 89
  {
    if n > 0 {
      StaysInAlphabetUpTo(outcomes, n - 1);
      SentStep(outcomes, n - 1);
    }
  }

  // What may follow a command, and the one after it, when all three stay up to 'Z'.
  lemma TwoStepsUpToZ(outcomes: seq<bool>, i: nat)
    requires i + 1 < |outcomes| && SentWithin(outcomes, 65, 90)
    ensures (Sent(outcomes[..i]) == 88 ==> !outcomes[i]) && (Sent(outcomes[..i]) == 89 ==> outcomes[i])
  {
    SentStep(outcomes, i);
    SentStep(outcomes, i + 1);
    assert 65 <= Sent(outcomes[..i + 2]) <= 90;
  }

  lemma UpToZHitsTheWrap(outcomes: seq<bool>, before: seq<bool>)
    requires SentWithin(outcomes, 65, 90) && outcomes != [] && before == outcomes[..|outcomes| - 1]
    ensures HitsTheWrap(before)
  {
    forall i | 0 <= i < |before|
      ensures (Sent(before[..i]) == 88 ==> !before[i]) && (Sent(before[..i]) == 89 ==> before[i])
    {
      TwoStepsUpToZ(outcomes, i);
      assert before[..i] == outcomes[..i];
    }
  }

  lemma OneMoreUpToZ(outcomes: seq<bool>, before: seq<bool>)
    requires SentWithin(before, 66, 89) && outcomes != [] && before == outcomes[..|outcomes| - 1]
    ensures SentWithin(outcomes, 65, 90)
  {
    var n := |before|;
    SentStep(outcomes, n);
    assert before[..n] == before == outcomes[..n];
    forall i | 0 <= i <= |outcomes| ensures 65 <= Sent(outcomes[..i]) <= 90 {
      if i <= n {
        assert outcomes[..i] == before[..i];
      }
    }
  }

  // 'Z' itself may be sent, but only last: all contexts lie in 'A'..'Z' exactly when every
  // command but the last kept to the condition.
  lemma StaysUpToZ(outcomes: seq<bool>)
    ensures SentWithin(outcomes, 65, 90) <==> outcomes == [] || HitsTheWrap(outcomes[..|outcomes| - 1])
  {
    if outcomes != [] {
      var before := outcomes[..|outcomes| - 1];
      if SentWithin(outcomes, 65, 90) {
        UpToZHitsTheWrap(outcomes, before);
      }
      if HitsTheWrap(before) {
        StaysInAlphabet(before);
        OneMoreUpToZ(outcomes, before);
      }
    }
  }

  // Twelve matches in a row send 'Z', thirteen send the byte 92.
  lemma LeavesAlphabet()
    ensures Sent(Matching(12)) == 90 && Sent(Matching(13)) == 92
    ensures !SentWithin(Matching(13), 65, 90)
  {
    AllMatchedSends(12);
    AllMatchedSends(13);
    assert Matching(13)[..13] == Matching(13);
  }

  // --- Parity -------------------------------------------------------------------------

  function UnmatchedSinceWrap(outcomes: seq<bool>): nat {
    if outcomes == [] || Wraps(outcomes) then 0
    else
      var n := |outcomes| - 1;
      UnmatchedSinceWrap(outcomes[..n]) + if outcomes[n] then 0 else 1
  }

  // The idle byte is odd exactly when an even number of commands went unmatched
  // since the start or the last wrap.
  lemma {:induction false} ParityLaw(outcomes: seq<bool>)
    ensures Idle(outcomes) % 2 == 1 <==> UnmatchedSinceWrap(outcomes) % 2 == 0
  {
    if outcomes != [] {
      var before := outcomes[..|outcomes| - 1];
      ParityLaw(before);
      IncrementFlips(Idle(before));
      IncrementFlips(Increment(Idle(before)));
    }
  }

  lemma IncrementFlips(b: Byte)
    ensures Increment(b) % 2 != b % 2
  {
  }

  // So the wrap test can only fire after an odd number of unmatched commands.
  lemma WrapNeedsUnmatched(outcomes: seq<bool>)
    requires Wraps(outcomes)
    ensures UnmatchedSinceWrap(outcomes[..|outcomes| - 1]) % 2 == 1
  {
    ParityLaw(outcomes[..|outcomes| - 1]);
  }

  lemma {:induction false} AllMatchedSends(n: nat)
    ensures Sent(Matching(n)) == (66 + 2 * n) % 256
  {
    if n > 0 {
      MatchingSplits(n);
      AllMatchedSends(n - 1);
      TwoMore(64 + 2 * n);
    }
  }

  lemma TwoMore(x: nat)
    requires x % 2 == 0
    ensures x % 256 != 89
    ensures (x + 2) % 256 == if x % 256 < 254 then x % 256 + 2 else x % 256 - 254
  {
  }

  lemma DoubledPeriod(m: nat, n: nat)
    ensures (66 + 2 * m) % 256 == (66 + 2 * n) % 256 <==> m % 128 == n % 128
  {
    Doubled(m);
    Doubled(n);
  }

  lemma Doubled(m: nat)
    ensures (66 + 2 * m) % 256 == if m % 128 < 95 then 66 + 2 * (m % 128) else 2 * (m % 128) - 190
  {
    var q, r := m / 128, m % 128;
    assert 66 + 2 * m == 256 * q + (66 + 2 * r);
  }

  lemma AllMatchedNeverWraps(n: nat)
    ensures !Wraps(Matching(n))
  {
    if n > 0 {
      MatchingSplits(n);
      AllMatchedSends(n - 1);
      Doubled(n - 1);
    }
  }

  // A run in which every response matches never meets the wrap test and repeats a
  // context after exactly 128 commands: it leaves 'A'..'Z'.
  lemma AllMatchedRun(m: nat, n: nat)
    ensures !Wraps(Matching(n))
    ensures Sent(Matching(m)) == Sent(Matching(n)) <==> m % 128 == n % 128
  {
    AllMatchedNeverWraps(n);
    AllMatchedSends(m);
    AllMatchedSends(n);
    DoubledPeriod(m, n);
  }
}
