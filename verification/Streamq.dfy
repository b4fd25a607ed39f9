// The bounded stream queue as one thread sees it.
module Streamq {
  import opened Common
  import opened Ring

  // With no other thread to post, waiting on a semaphore that is 0 ends in a timeout,
  // however long the timeout is.
  class Streamq<T(0)> {
    const msg: array<T>
    var writeIdx: nat
    var readIdx: nat
    var nentries: nat
    var writeSem: nat
    var readSem: nat

    ghost predicate Valid()
      reads this, msg
    {
      && InRange(msg[..], readIdx, nentries)
      && (msg.Length > 0 ==> writeIdx == Slot(readIdx, nentries, msg.Length))
      && readSem == nentries
      && writeSem == msg.Length - nentries
    }

    ghost function Contents(): (entries: seq<T>)
      requires Valid()
      reads this, msg
    {
      Live(msg[..], readIdx, nentries)
    }

    constructor (capacity: nat)
      ensures Valid() && fresh(msg)
      ensures msg.Length == capacity && Contents() == []
    {
      msg := new T[capacity];
      writeIdx, readIdx, nentries := 0, 0, 0;
      writeSem, readSem := capacity, 0;
    }

    method Push(m: T) returns (err: int)
      requires Valid()
      modifies this, msg
      ensures Valid()
      ensures err == if |old(Contents())| == msg.Length then IO4E_ERR_TIMEOUT else IO4E_OK
      ensures Contents() == if err == IO4E_OK then old(Contents()) + [m] else old(Contents())
    {
      if writeSem == 0 {
        return IO4E_ERR_TIMEOUT;
      }
      writeSem := writeSem - 1;
      LiveAppends(msg[..], readIdx, nentries, m);
      ghost var before := msg[..];
      msg[writeIdx] := m;
      assert msg[..] == before[writeIdx := m];
      writeIdx := AdvanceIdx(writeIdx, msg.Length);
      nentries := nentries + 1;
      readSem := readSem + 1;
      return IO4E_OK;
    }

    method Pop() returns (err: int, m: Option<T>)
      requires Valid()
      modifies this
      ensures Valid()
      ensures old(Contents()) == [] ==>
        err == IO4E_ERR_TIMEOUT && m == None && Contents() == []
      ensures old(Contents()) != [] ==>
        err == IO4E_OK && m == Some(old(Contents())[0]) && Contents() == old(Contents())[1..]
    {
      if readSem == 0 {
        return IO4E_ERR_TIMEOUT, None;
      }
      readSem := readSem - 1;
      LiveDrops(msg[..], readIdx, nentries);
      m := Some(msg[readIdx]);
      readIdx := AdvanceIdx(readIdx, msg.Length);
      nentries := nentries - 1;
      writeSem := writeSem + 1;
      return IO4E_OK, m;
    }

    method Entries() returns (size: nat)
      requires Valid()
      ensures size == |Contents()|
    {
      size := nentries;
    }
  }
}
