// Index arithmetic of the ring buffer, shared by the sequential queue and by the
// model of its concurrent use.
module Ring {
  function AdvanceIdx(idx: nat, capacity: nat): (next: nat)
    requires idx < capacity
    ensures next == if idx == capacity - 1 then 0 else idx + 1
  {
    (idx + 1) % capacity
  }

  // The array index that lies `offset` places after `start`.
  function Slot(start: nat, offset: nat, capacity: nat): (idx: nat)
    requires start < capacity && offset <= capacity
    ensures idx < capacity
  {
    if start + offset < capacity then start + offset else start + offset - capacity
  }

  ghost predicate InRange<T>(msg: seq<T>, start: nat, n: nat) {
    n <= |msg| && (|msg| == 0 || start < |msg|)
  }

  // The `n` entries that start at `start`, oldest first.
  function Live<T>(msg: seq<T>, start: nat, n: nat): (entries: seq<T>)
    requires InRange(msg, start, n)
    ensures |entries| == n
  {
    seq(n, i requires 0 <= i < n => msg[Slot(start, i, |msg|)])
  }

  // Writing the slot after the last entry appends to the entries and overwrites none.
  lemma LiveAppends<T>(msg: seq<T>, start: nat, n: nat, m: T)
    requires InRange(msg, start, n) && n < |msg|
    ensures Live(msg[Slot(start, n, |msg|) := m], start, n + 1) == Live(msg, start, n) + [m]
    ensures AdvanceIdx(Slot(start, n, |msg|), |msg|) == Slot(start, n + 1, |msg|)
  {
  }

  // Advancing the start drops the oldest entry and leaves the end where it was.
  lemma LiveDrops<T>(msg: seq<T>, start: nat, n: nat)
    requires InRange(msg, start, n) && n > 0
    ensures Live(msg, start, n)[0] == msg[start]
    ensures Live(msg, AdvanceIdx(start, |msg|), n - 1) == Live(msg, start, n)[1..]
    ensures Slot(AdvanceIdx(start, |msg|), n - 1, |msg|) == Slot(start, n, |msg|)
  {
  }
}
