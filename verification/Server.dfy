/** The socket server over the device: what one request thread does while it
    holds `fmutex`, and all threads together.
 */
module Server {
  import opened ByteLines
  import opened KernelServices
  import opened DeviceSpec
  import opened AesdDriver
  import Readers

  const BUFSIZE: nat := 2048

  /** A reader that started at position 0 and is now at `pos` has got `sent`: one
      contiguous slice of the log. */
  predicate SentUpTo(t: Bytes, pos: nat, sent: Bytes) {
    Readers.Contiguous(Readers.Session(t, 0), Readers.Session(t, pos), sent)
  }

  lemma SendingStarts(t: Bytes)
    ensures SentUpTo(t, 0, [])
  {
    CommittedSplits(t);
  }

  /** A read inside the log stays inside it, and ends at its end when it returns no
      data, or less than the 2048 bytes of the buffer. */
  lemma ReadStaysInside(t: Bytes, pos: nat, ret: int, got: Bytes, pos': nat)
    requires pos <= |Committed(t)| && ReadOutcome(t, pos, BUFSIZE, ret, got, pos') && ret >= 0
    ensures pos' <= |Committed(t)|
    ensures if ret == 0 then pos' == |Committed(t)| else pos' > pos
    ensures ret <= 2048 && (ret < 2048 ==> pos' == |Committed(t)|)
  {
    CommittedSplits(t);
    Readers.SuccessfulRead(Readers.Session(t, pos), Readers.Read(BUFSIZE, ret, got), Readers.Session(t, pos'));
  }

  /** Each read extends what was sent; a read of nothing means all live lines are sent. */
  lemma SendingGoesOn(t: Bytes, pos: nat, sent: Bytes, ret: int, got: Bytes, pos': nat)
    requires SentUpTo(t, pos, sent) && ReadOutcome(t, pos, BUFSIZE, ret, got, pos') && ret >= 0
    ensures |got| == ret && SentUpTo(t, pos', sent + got)
    ensures ret == 0 ==> sent == Live(t)
  {
    CommittedSplits(t);
    var s0, s, s' := Readers.Session(t, 0), Readers.Session(t, pos), Readers.Session(t, pos');
    var e := Readers.Read(BUFSIZE, ret, got);
    Readers.SuccessfulRead(s, e, s');
    Readers.OneMoreRead(s0, s, sent, e, s');
  }

  lemma SentIsPrefix(t: Bytes, pos: nat, sent: Bytes)
    requires SentUpTo(t, pos, sent)
    ensures sent <= Live(t)
  {
    CommittedSplits(t);
  }

  /** `sent` is a beginning of the live lines and all that was delivered since the
      trace of deliveries was `before`. */
  predicate AllSent(t: Bytes, before: Bytes, now: Bytes, sent: Bytes) {
    now == before + sent && sent <= Live(t)
  }

  lemma OneMoreSent(t: Bytes, before: Bytes, now: Bytes, sent: Bytes, pos: nat, ret: int, got: Bytes, pos': nat)
    requires SentUpTo(t, pos, sent) && AllSent(t, before, now, sent)
    requires ReadOutcome(t, pos, BUFSIZE, ret, got, pos')
    ensures AllSent(t, before, now + got, sent + got)
    ensures ret > 0 ==> pos < pos' <= |Committed(t)| && SentUpTo(t, pos', sent + got)
    ensures ret == 0 ==> sent == Live(t)
    ensures ret <= 0 ==> got == []
  {
    assert now + got == before + (sent + got);
    if ret >= 0 {
      ReadStaysInside(t, pos, ret, got, pos');
      SendingGoesOn(t, pos, sent, ret, got, pos');
      SentIsPrefix(t, pos', sent + got);
    }
  }

  /** One read of the loop below, after which `sent'` is to be sent in all. */
  method ReadMore(dev: AesdDev, sendBuf: Buffer, pos: nat, ghost sent: Bytes, ghost before: Bytes)
    returns (bytesToSend: int, pos': nat, ghost sent': Bytes)
    requires dev.Valid() && BUFSIZE <= sendBuf.Length && sendBuf in dev.kernel.user
    requires SentUpTo(dev.history, pos, sent) && AllSent(dev.history, before, dev.kernel.delivered, sent)
    modifies dev`owner, sendBuf
    modifies dev.kernel`live, dev.kernel`allocFailures, dev.kernel`copyFaults, dev.kernel`delivered
    ensures dev.Valid() && bytesToSend <= BUFSIZE
    ensures sent' == if bytesToSend > 0 then sent + sendBuf[..bytesToSend] else sent
    ensures AllSent(dev.history, before, dev.kernel.delivered, sent')
    ensures bytesToSend > 0 ==> pos < pos' <= |Committed(dev.history)| && SentUpTo(dev.history, pos', sent')
    ensures bytesToSend == 0 ==> sent' == Live(dev.history)
    ensures dev.kernel.Failures() == old(dev.kernel.Failures()) + if bytesToSend < 0 then 1 else 0
  {
    bytesToSend, pos' := dev.Read(sendBuf, BUFSIZE, pos);
    ghost var got := dev.Received(sendBuf, bytesToSend);
    OneMoreSent(dev.history, before, old(dev.kernel.delivered), sent, pos, bytesToSend, got, pos');
    sent' := sent + got;
  }

  /** The read loop of a request on a freshly opened file: sends what each read
      returns until one returns no data or fails. Whatever the reads delivered is
      sent, and nothing but a failed read keeps the reply from being complete. */
  method SendAll(dev: AesdDev, sendBuf: Buffer) returns (sent: Bytes, complete: bool)
    requires dev.Valid() && BUFSIZE <= sendBuf.Length && sendBuf in dev.kernel.user
    modifies dev`owner, sendBuf
    modifies dev.kernel`live, dev.kernel`allocFailures, dev.kernel`copyFaults, dev.kernel`delivered
    ensures dev.Valid()
    ensures sent <= Live(dev.history) && (complete ==> sent == Live(dev.history))
    ensures dev.kernel.delivered == old(dev.kernel.delivered) + sent
    ensures dev.kernel.Failures() == old(dev.kernel.Failures()) + if complete then 0 else 1
  {
    ghost var t, before, sent' := dev.history, dev.kernel.delivered, [];
    SendingStarts(t);
    sent := [];
    var bytesToSend, pos;
    bytesToSend, pos, sent' := ReadMore(dev, sendBuf, 0, sent, before);
    while bytesToSend > 0
      invariant dev.Valid() && bytesToSend <= BUFSIZE
      invariant sent' == if bytesToSend > 0 then sent + sendBuf[..bytesToSend] else sent
      invariant AllSent(t, before, dev.kernel.delivered, sent')
      invariant bytesToSend > 0 ==> pos <= |Committed(t)| && SentUpTo(t, pos, sent')
      invariant bytesToSend == 0 ==> sent' == Live(t)
      invariant dev.kernel.Failures() == old(dev.kernel.Failures()) + if bytesToSend < 0 then 1 else 0
      decreases if bytesToSend > 0 then 1 + |Committed(t)| - pos else 0
    {
      sent := sent + sendBuf[..bytesToSend];
      bytesToSend, pos, sent' := ReadMore(dev, sendBuf, pos, sent, before);
    }
    complete := bytesToSend == 0;
  }

  /** The critical section for one received chunk: write it, open the device
      again, and send everything it holds. `sent` is what was handed to the
      socket. The two flags say whether the opens succeed. A failed or partial
      write does not keep the reply from being sent: of the failures met, one is
      the write's, and an incomplete reply takes one more. */
  method ServeChunk(dev: AesdDev, recvBuf: Buffer, received: nat, sendBuf: Buffer,
                    writeOpens: bool, readOpens: bool)
    returns (written: int, sent: Bytes, complete: bool)
    requires dev.Valid() && 0 < received <= BUFSIZE <= recvBuf.Length && BUFSIZE <= sendBuf.Length
    requires recvBuf in dev.kernel.user && sendBuf in dev.kernel.user && recvBuf != sendBuf
    modifies dev, dev.entry, sendBuf
    modifies dev.kernel`live, dev.kernel`allocFailures, dev.kernel`copyFaults, dev.kernel`delivered
    ensures dev.Valid()
    ensures if writeOpens then WriteOutcome(old(dev.history), recvBuf[..received], written, dev.history)
            else dev.history == old(dev.history)
    ensures sent <= Live(dev.history) && (complete ==> sent == Live(dev.history))
    ensures dev.kernel.delivered == old(dev.kernel.delivered) + sent
    ensures !(writeOpens && readOpens) ==> sent == [] && !complete
    ensures dev.kernel.Failures() == old(dev.kernel.Failures())
              + (if !writeOpens || dev.Unhurt(written, received) then 0 else 1)
              + (if !writeOpens || !readOpens || complete then 0 else 1)
    ensures (writeOpens && readOpens && written < received
             && dev.kernel.Failures() <= old(dev.kernel.Failures()) + 1) ==> complete
    ensures (writeOpens && readOpens && dev.kernel.Failures() == old(dev.kernel.Failures()))
            ==> (written == received && complete)
  {
    written, sent, complete := 0, [], false;
    if !writeOpens {
      return;
    }
    written := dev.Write(recvBuf, received);
    if !readOpens {
      return;
    }
    sent, complete := SendAll(dev, sendBuf);
  }
}
