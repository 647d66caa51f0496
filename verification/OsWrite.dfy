/**
 Writing a buffer to a file that the kernel may take only pieces of.  What the
 kernel will answer is a schedule that is fixed in advance and consumed call by
 call; after its end every write is taken whole, so that writing terminates.
 */
module OsWrite {

  /** One return of `os_write`. */
  datatype Answer = Wrote(n: nat) | Interrupted | Failed

  /** What a schedule makes of `count` bytes: how many are taken, and whether that was all of them. */
  function Deliver(schedule: seq<Answer>, count: nat): (r: (nat, bool))
    ensures r.0 <= count && (r.1 ==> r.0 == count)
    decreases |schedule|
  {
    if count == 0 then (0, true)
    else if schedule == [] then (count, true)
    else match schedule[0]
      case Interrupted => Deliver(schedule[1..], count)
      case Failed => (0, false)
      case Wrote(n) =>
        var taken := if n < count then n else count;
        var rest := Deliver(schedule[1..], count - taken);
        (taken + rest.0, rest.1)
  }

  /** Short writes and interruptions alone never make a write fail. */
  lemma {:induction false} OnlyFailuresFail(schedule: seq<Answer>, count: nat)
    requires Failed !in schedule
    ensures Deliver(schedule, count) == (count, true)
    decreases |schedule|
  {
    if count > 0 && schedule != [] {
      if schedule[0].Wrote? {
        OnlyFailuresFail(schedule[1..], count - if schedule[0].n < count then schedule[0].n else count);
      } else {
        OnlyFailuresFail(schedule[1..], count);
      }
    }
  }

  /** A failed write is one byte short at least. */
  lemma {:induction false} FailedIsShort(schedule: seq<Answer>, count: nat)
    ensures !Deliver(schedule, count).1 ==> Deliver(schedule, count).0 < count && Failed in schedule
    decreases |schedule|
  {
    if count > 0 && schedule != [] {
      if schedule[0].Wrote? {
        FailedIsShort(schedule[1..], count - if schedule[0].n < count then schedule[0].n else count);
      } else if schedule[0].Interrupted? {
        FailedIsShort(schedule[1..], count);
      }
    }
  }

  /** All that the calls of a schedule would take, if there were enough bytes. */
  function Offered(schedule: seq<Answer>): nat {
    if schedule == [] then 0
    else (match schedule[0] case Wrote(n) => n case _ => 0) + Offered(schedule[1..])
  }

  /**
   The first failing call is reached, and ends the write with what was taken before it,
   exactly if the calls before it do not take everything.
   */
  lemma {:induction false} FailsExactly(schedule: seq<Answer>, count: nat, k: nat)
    requires k < |schedule| && schedule[k] == Failed && Failed !in schedule[..k]
    ensures Deliver(schedule, count) ==
            if Offered(schedule[..k]) < count then (Offered(schedule[..k]), false) else (count, true)
    decreases k
  {
    if k > 0 {
      assert schedule[..k][0] == schedule[0] && schedule[..k][1..] == schedule[1..][..k - 1];
      assert schedule[0] in schedule[..k];
      if count > 0 && (schedule[0].Interrupted? || schedule[0].n < count) {
        FailsExactly(schedule[1..], if schedule[0].Wrote? then count - schedule[0].n else count, k - 1);
      } else if count > 0 {
        DeliverNothing(schedule[1..]);
      }
    }
  }

  /** A file opened for writing. */
  class Descriptor {
    var written: string
    var schedule: seq<Answer>
    var interrupted: bool

    constructor (schedule: seq<Answer>)
      ensures written == "" && this.schedule == schedule
    {
      written, interrupted := "", false;
      this.schedule := schedule;
    }

    /** The system call: -1 with `errno` set, or the number of bytes taken. */
    method OsWriteCall(src: string) returns (len: int)
      requires src != ""
      modifies this
      ensures if old(schedule) == [] then
          len == |src| && written == old(written) + src && schedule == []
        else
          && schedule == old(schedule)[1..]
          && match old(schedule)[0]
             case Wrote(n) =>
               len == (if n < |src| then n else |src|) && written == old(written) + src[..len]
             case Interrupted => len == -1 && interrupted && written == old(written)
             case Failed => len == -1 && !interrupted && written == old(written)
    {
      interrupted := false;
      if schedule == [] {
        written := written + src;
        return |src|;
      }
      var answer := schedule[0];
      schedule := schedule[1..];
      match answer {
        case Wrote(n) =>
          len := if n < |src| then n else |src|;
          written := written + src[..len];
        case Interrupted =>
          interrupted := true;
          len := -1;
        case Failed =>
          len := -1;
      }
    }

    /** Call again for as long as the call is interrupted. */
    method WriteUninterrupted(src: string) returns (len: int)
      requires src != ""
      modifies this
      ensures len < 0 ==> len == -1 && written == old(written) && Deliver(old(schedule), |src|) == (0, false)
      ensures 0 <= len ==>
        && len <= |src| && written == old(written) + src[..len]
        && (|schedule| < |old(schedule)| || (schedule == old(schedule) && len == |src|))
        && Deliver(old(schedule), |src|) ==
           (len + Deliver(schedule, |src| - len).0, Deliver(schedule, |src| - len).1)
      ensures Failed !in old(schedule) ==> Failed !in schedule
    {
      ghost var goal := Deliver(schedule, |src|);
      len := OsWriteCall(src);
      while len == -1 && interrupted
        invariant -1 <= len <= |src|
        invariant len == -1 ==> written == old(written)
        invariant len == -1 && interrupted ==> goal == Deliver(schedule, |src|)
        invariant len == -1 && !interrupted ==> goal == (0, false)
        invariant len != -1 ==> written == old(written) + src[..len]
        invariant len != -1 ==> goal == (len + Deliver(schedule, |src| - len).0, Deliver(schedule, |src| - len).1)
        invariant |schedule| < |old(schedule)| || (schedule == old(schedule) && len == |src|)
        invariant Failed !in old(schedule) ==> Failed !in schedule
        decreases |schedule|, if len == -1 && interrupted then 1 else 0
      {
        len := OsWriteCall(src);
      }
    }

    /** `os_write_from_buffer`. */
    method WriteFromBuffer(src: string) returns (ret: int)
      modifies this
      ensures ret == if Deliver(old(schedule), |src|).1 then 0 else -1
      ensures written == old(written) + src[..Deliver(old(schedule), |src|).0]
      ensures ret == 0 ==> written == old(written) + src
      ensures ret == -1 ==> old(written) <= written < old(written) + src
      ensures Failed !in old(schedule) ==> ret == 0 && Failed !in schedule
    {
      hide Deliver;
      FailedIsShort(schedule, |src|);
      var srcPtr, count := 0, |src|;
      ghost var goal := Deliver(schedule, |src|);
      while count > 0
        invariant 0 <= srcPtr && 0 <= count && srcPtr + count == |src|
        invariant written == old(written) + src[..srcPtr]
        invariant goal == (srcPtr + Deliver(schedule, count).0, Deliver(schedule, count).1)
        invariant Failed !in old(schedule) ==> Failed !in schedule
        decreases |schedule|, count
      {
        ghost var rest := src[srcPtr..];
        var len := WriteUninterrupted(src[srcPtr..]);
        if len < 0 {
          return -1;
        }
        assert src[..srcPtr] + rest[..len] == src[..srcPtr + len];
        srcPtr := srcPtr + len;
        count := count - len;
      }
      DeliverNothing(schedule);
      return 0;
    }
  }

  lemma DeliverNothing(schedule: seq<Answer>)
    ensures Deliver(schedule, 0) == (0, true)
  {
  }
}
