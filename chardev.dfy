/** The char_dev character device: one process-wide exclusive-open gate
    and one fixed buffer of BufLen + 1 characters whose last one stays NUL.
    The module's static state (already_open and msg) is the state of one
    CharDev object; the file offset that reads move belongs to the open
    file, so Read takes it and hands the new one back. */
module Chardev {
  import opened CString
  import opened ChardevSpec

  class CharDev {
    /** The gate already_open: NotUsed or ExclusiveOpen. */
    var alreadyOpen: int
    /** The message buffer msg[BUF_LEN + 1]. */
    const msg: array<char>

    ghost predicate Valid()
      reads this, msg
    {
      msg.Length == BufLen + 1 && msg[BufLen] == Nul &&
      (alreadyOpen == NotUsed || alreadyOpen == ExclusiveOpen)
    }

    /** Module load: the gate starts free and the static buffer is all NUL. */
    constructor ()
      ensures Valid() && fresh(msg)
      ensures alreadyOpen == NotUsed && msg[..] == Cleared()
    {
      alreadyOpen := NotUsed;
      msg := new char[BufLen + 1](_ => Nul);
    }

    /** atomic_cmpxchg on the gate, as one indivisible step: returns the value
        the gate held and replaces it by desired when it held expected. */
    method CompareExchange(expected: int, desired: int) returns (prev: int)
      modifies this`alreadyOpen
      ensures prev == old(alreadyOpen)
      ensures alreadyOpen == if prev == expected then desired else prev
    {
      prev := alreadyOpen;
      if prev == expected {
        alreadyOpen := desired;
      }
    }

    /** device_open: admits the caller only when the gate is free. */
    method Open() returns (r: int)
      requires Valid()
      modifies this`alreadyOpen
      ensures Valid()
      ensures r == Success <==> old(alreadyOpen) == NotUsed
      ensures r == Success ==> alreadyOpen == ExclusiveOpen
      ensures r != Success ==> r == -EBusy && alreadyOpen == old(alreadyOpen)
      ensures GateReply(r, alreadyOpen) == GateStep(old(alreadyOpen), OpenCall)
    {
      var prev := CompareExchange(NotUsed, ExclusiveOpen);
      if prev != NotUsed {
        return -EBusy;
      }
      return Success;
    }

    /** device_release: frees the gate whatever it held. */
    method Release() returns (r: int)
      requires Valid()
      modifies this`alreadyOpen
      ensures Valid()
      ensures r == Success && alreadyOpen == NotUsed
      ensures GateReply(r, alreadyOpen) == GateStep(old(alreadyOpen), ReleaseCall)
    {
      alreadyOpen := NotUsed;
      return Success;
    }

    /** device_write: copies at most BufLen characters of data to the start
        of the buffer, one at a time, and returns how many it copied. */
    method Write(data: seq<char>) returns (n: nat)
      requires Valid()
      modifies msg
      ensures Valid()
      ensures n == WriteCount(data)
      ensures msg[..] == Written(old(msg[..]), data)
      ensures Strlen(msg[..]) <= BufLen
    {
      var i := 0;
      while i < |data| && i < BufLen
        invariant i <= WriteCount(data)
        invariant forall k :: 0 <= k < i ==> msg[k] == data[k]
        invariant forall k :: i <= k < msg.Length ==> msg[k] == old(msg[k])
      {
        msg[i] := data[i];
        i := i + 1;
      }
      n := i;
      assert msg[..] == Written(old(msg[..]), data);
    }

    /** device_read: serves up to length characters of the message reversed,
        starting offset characters in from its end, and returns how many it
        served, the characters and the new offset. At the end of the
        message it serves nothing and rewinds the offset to 0. */
    method Read(length: nat, offset: nat) returns (bytesRead: nat, out: seq<char>, newOffset: nat)
      requires Valid()
      ensures bytesRead == |out|
      ensures ReadReply(out, newOffset) == ReadStep(msg[..], length, offset)
      ensures forall i :: 0 <= i < |out| ==>
        offset + i < Strlen(msg[..]) && out[i] == msg[Strlen(msg[..]) - 1 - offset - i]
    {
      var msgLen := Strlen(msg[..]);
      if offset >= msgLen || msg[offset] == Nul {
        return 0, [], 0;
      }
      var startPos: int := msgLen - 1 - offset;
      var remaining := length;
      bytesRead, out := 0, [];
      while remaining > 0 && startPos >= 0
        invariant bytesRead + remaining == length
        invariant startPos == msgLen - 1 - offset - bytesRead >= -1
        invariant |out| == bytesRead
        invariant forall i :: 0 <= i < bytesRead ==> out[i] == msg[msgLen - 1 - offset - i]
      {
        out := out + [msg[startPos]];
        startPos := startPos - 1;
        remaining := remaining - 1;
        bytesRead := bytesRead + 1;
      }
      newOffset := offset + bytesRead;
      var spec := ReadStep(msg[..], length, offset);
      forall i | 0 <= i < bytesRead
        ensures out[i] == spec.bytes[i]
      {
        ReadStepAt(msg[..], length, offset, i);
      }
    }
  }
}
