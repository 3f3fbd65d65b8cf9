/** The per-interface output buffer of Olsrd/src/net_olsr.c; sending appends to a trace. */
module NetOut {

  class NetBuf<M> {
    const maxsize: nat
    var pending: nat          // size of what waits in the buffer
    var queued: seq<M>        // the messages they belong to
    var sent: seq<M>          // everything handed to the socket

    ghost predicate Valid() reads this {
      pending <= maxsize
    }

    ghost function Trace(): seq<M> reads this {
      sent + queued
    }

    constructor (size: nat)
      ensures Valid() && maxsize == size && pending == 0 && Trace() == []
    {
      maxsize := size;
      pending, queued, sent := 0, [], [];
    }

    /** `net_outbuffer_push`: refuse what does not fit, otherwise append. */
    method Push(m: M, size: nat) returns (pushed: nat)
      requires Valid()
      modifies this`pending, this`queued
      ensures Valid()
      ensures old(pending) + size > maxsize ==> pushed == 0 && pending == old(pending) && Trace() == old(Trace())
      ensures old(pending) + size <= maxsize ==>
                pushed == size && pending == old(pending) + size && Trace() == old(Trace()) + [m]
    {
      if pending + size > maxsize {
        return 0;
      }
      queued := queued + [m];
      pending := pending + size;
      return size;
    }

    /** `net_outbuffer_bytes_left`. */
    function BytesLeft(): int reads this {
      maxsize - pending
    }

    /** `net_output`: hand over what is pending and start with an empty buffer. */
    method Output()
      requires Valid()
      modifies this`pending, this`queued, this`sent
      ensures Valid() && Trace() == old(Trace())
      ensures pending == 0
      ensures old(pending) > 0 ==> sent == old(sent) + old(queued) && queued == []
      ensures old(pending) == 0 ==> sent == old(sent) && queued == old(queued)
    {
      if pending == 0 {
        return;
      }
      sent := sent + queued;
      queued := [];
      pending := 0;
    }
  }
}
