/** One open file read while any process writes: what a reader sees over a whole
    run, at the granularity of the device semaphore.
 */
module Readers {
  import opened ByteLines
  import opened DeviceSpec

  /** The accepted bytes and the position of the file. */
  datatype Session = Session(t: Bytes, pos: nat)

  datatype Event =
    | Write(data: Bytes, ret: int)
    | Read(count: nat, ret: int, got: Bytes)

  /** One system call, exactly as the contracts of the driver allow it. */
  predicate Step(s: Session, e: Event, s': Session) {
    match e
    case Write(data, ret) => WriteOutcome(s.t, data, ret, s'.t) && s'.pos == s.pos
    case Read(count, ret, got) => s'.t == s.t && ReadOutcome(s.t, s.pos, count, ret, got, s'.pos)
  }

  predicate StepAt(ss: seq<Session>, es: seq<Event>, i: nat)
    requires i < |es| && |ss| == |es| + 1
  {
    Step(ss[i], es[i], ss[i + 1])
  }

  /** A finite run: the states passed through and the calls in between. */
  predicate Run(ss: seq<Session>, es: seq<Event>) {
    |ss| == |es| + 1 && forall i :: 0 <= i < |es| ==> StepAt(ss, es, i)
  }

  /** Runs leave nothing out: whatever a call of the driver does continues any run. */
  lemma RunGoesOn(ss: seq<Session>, es: seq<Event>,
                  data: Bytes, t': Bytes, count: nat, got: Bytes, pos': nat, ret: int)
    requires Run(ss, es)
    ensures var s := ss[|es|];
            WriteOutcome(s.t, data, ret, t') ==> Run(ss + [Session(t', s.pos)], es + [Write(data, ret)])
    ensures var s := ss[|es|];
            ReadOutcome(s.t, s.pos, count, ret, got, pos') ==>
              Run(ss + [Session(s.t, pos')], es + [Read(count, ret, got)])
  {
    var s := ss[|es|];
    if WriteOutcome(s.t, data, ret, t') {
      OneMoreCall(ss, es, Write(data, ret), Session(t', s.pos));
    }
    if ReadOutcome(s.t, s.pos, count, ret, got, pos') {
      OneMoreCall(ss, es, Read(count, ret, got), Session(s.t, pos'));
    }
  }

  lemma OneMoreCall(ss: seq<Session>, es: seq<Event>, e: Event, s': Session)
    requires Run(ss, es) && Step(ss[|es|], e, s')
    ensures Run(ss + [s'], es + [e])
  {
    forall i | 0 <= i < |es| + 1
      ensures StepAt(ss + [s'], es + [e], i)
    {
      if i < |es| {
        assert StepAt(ss, es, i);
      }
    }
  }

  /** Where a read in state `s` starts: its position, or the oldest live line. */
  function Start(s: Session): nat {
    Max(s.pos, |Evicted(s.t)|)
  }

  lemma StepMoves(s: Session, e: Event, s': Session)
    requires Step(s, e, s')
    ensures s.t <= s'.t && s.pos <= s'.pos
    ensures e.Read? ==> s'.t == s.t && Start(s) <= s'.pos
  {
  }

  lemma {:induction false} RunMoves(ss: seq<Session>, es: seq<Event>, i: nat, j: nat)
    requires Run(ss, es) && i <= j <= |es|
    ensures ss[i].t <= ss[j].t && ss[i].pos <= ss[j].pos
    decreases j - i
  {
    if i < j {
      RunMoves(ss, es, i, j - 1);
      assert StepAt(ss, es, j - 1);
      StepMoves(ss[j - 1], es[j - 1], ss[j]);
    }
  }

  lemma PrefixGrows(t: Bytes, t': Bytes)
    requires t <= t'
    ensures Committed(t) <= Committed(t') && Evicted(t) <= Evicted(t')
  {
    assert t' == t + t'[|t|..];
    HistoryGrows(t, t'[|t|..]);
  }

  /** Reads deliver slices of one string in order and without overlap: what read
      `i` got is where its range says it is in everything committed up to any
      later moment `j`, and a read at `j` starts at or after its end. */
  lemma ReadsInOrder(ss: seq<Session>, es: seq<Event>, i: nat, j: nat)
    requires Run(ss, es) && i < j <= |es| && es[i].Read?
    ensures Start(ss[i]) <= ss[i + 1].pos <= Start(ss[j])
    ensures var s := Committed(ss[j].t);
            es[i].got != [] ==> ss[i + 1].pos <= |s| && es[i].got == s[Start(ss[i])..ss[i + 1].pos]
  {
    assert StepAt(ss, es, i);
    StepMoves(ss[i], es[i], ss[i + 1]);
    RunMoves(ss, es, i + 1, j);
    PrefixGrows(ss[i].t, ss[j].t);
  }

  /** Between two consecutive reads nothing is skipped but evicted bytes: the
      second starts right where the first stopped, or at the start of the oldest
      line that is live by then, all bytes in between being evicted. */
  lemma OnlyEvictedBytesSkipped(ss: seq<Session>, es: seq<Event>, i: nat, j: nat)
    requires Run(ss, es) && i < j < |es| && es[i].Read? && es[j].Read?
    requires forall k :: i < k < j ==> es[k].Write?
    ensures Start(ss[j]) == ss[i + 1].pos
            || (ss[i + 1].pos < Start(ss[j]) == |Evicted(ss[j].t)| <= |Committed(ss[j].t)|
                && Committed(ss[j].t)[..Start(ss[j])] == Evicted(ss[j].t))
  {
    WritesKeepPosition(ss, es, i + 1, j);
    CommittedSplits(ss[j].t);
  }

  lemma {:induction false} WritesKeepPosition(ss: seq<Session>, es: seq<Event>, i: nat, j: nat)
    requires Run(ss, es) && i <= j <= |es|
    requires forall k :: i <= k < j ==> es[k].Write?
    ensures ss[j].pos == ss[i].pos
    decreases j - i
  {
    if i < j {
      WritesKeepPosition(ss, es, i, j - 1);
      assert StepAt(ss, es, j - 1);
    }
  }

  /** Read `i` moved the position past byte `q` of the log. */
  predicate Passed(ss: seq<Session>, es: seq<Event>, i: nat, q: nat)
    requires |ss| == |es| + 1 && i < |es|
  {
    es[i].Read? && ss[i].pos <= q < ss[i + 1].pos
  }

  /** Read `i` handed byte `q` to the caller, as the byte the log holds at `q`
      at the end of the run. */
  predicate Delivered(ss: seq<Session>, es: seq<Event>, i: nat, q: nat)
    requires |ss| == |es| + 1 && i < |es|
  {
    && es[i].Read? && Start(ss[i]) <= q < Start(ss[i]) + |es[i].got|
    && q < |Committed(ss[|es|].t)| && es[i].got[q - Start(ss[i])] == Committed(ss[|es|].t)[q]
  }

  /** Over a whole run every byte the position has moved past was passed by one
      read, and that read delivered it unless the byte was evicted before the
      read or the copy to user space failed; in both those cases it did not. */
  lemma EveryByteAccounted(ss: seq<Session>, es: seq<Event>, q: nat) returns (i: nat)
    requires Run(ss, es) && ss[0].pos <= q < ss[|es|].pos
    ensures i < |es| && Passed(ss, es, i, q)
    ensures forall k :: 0 <= k < |es| && Passed(ss, es, k, q) ==> k == i
    ensures Delivered(ss, es, i, q) <==> q >= |Evicted(ss[i].t)| && es[i].ret != -EFAULT
  {
    i := FindPassing(ss, es, q, |es|);
    forall k | 0 <= k < |es| && Passed(ss, es, k, q)
      ensures k == i
    {
      if k < i {
        RunMoves(ss, es, k + 1, i);
      } else if i < k {
        RunMoves(ss, es, i + 1, k);
      }
    }
    RunMoves(ss, es, i, |es|);
    PrefixGrows(ss[i].t, ss[|es|].t);
    assert StepAt(ss, es, i);
    var p := Start(ss[i]);
    var due := Slice(Committed(ss[i].t), p, es[i].count);
    if p <= q && es[i].ret != -EFAULT {
      assert due[q - p] == Committed(ss[i].t)[q];
    }
  }

  /** A failed copy does lose bytes: on a log of one empty line, a one-byte read whose
      copy to user space fails moves past a live byte that no read ever delivers.
      (`-EFAULT` is returned exactly when that copy leaves bytes behind.) */
  lemma FailedCopyLosesByte()
    ensures var t := [NEWLINE];
            var ss, es := [Session(t, 0), Session(t, 1)], [Read(1, -EFAULT, [])];
            Run(ss, es) && Passed(ss, es, 0, 0) && 0 >= |Evicted(t)| && !Delivered(ss, es, 0, 0)
  {
    var t := [NEWLINE];
    LinesSnoc([], NEWLINE);
    assert [] + [NEWLINE] == t;
    assert Lines(t) == [t];
    FlattenCons(t, []);
    CommittedSplits(t);
    assert Lines(t)[..0] == [];
  }

  lemma {:induction false} FindPassing(ss: seq<Session>, es: seq<Event>, q: nat, n: nat) returns (i: nat)
    requires Run(ss, es) && n <= |es| && ss[0].pos <= q < ss[n].pos
    ensures i < n && es[i].Read? && ss[i].pos <= q < ss[i + 1].pos
  {
    if ss[n - 1].pos <= q {
      i := n - 1;
      assert StepAt(ss, es, i);
    } else {
      i := FindPassing(ss, es, q, n - 1);
    }
  }

  // ---- Reading to the end ----

  /** What the first `n` events delivered to the reader. */
  function Received(es: seq<Event>, n: nat): Bytes
    requires n <= |es|
  {
    if n == 0 then [] else
    Received(es, n - 1) + if es[n - 1].Read? then es[n - 1].got else []
  }

  /** Successful reads only: no writes in between. */
  predicate Undisturbed(es: seq<Event>) {
    forall i :: 0 <= i < |es| ==> es[i].Read? && es[i].ret >= 0
  }

  lemma SuccessfulRead(s: Session, e: Event, s': Session)
    requires Step(s, e, s') && e.Read? && e.ret >= 0 && Start(s) <= |Committed(s.t)|
    ensures s'.t == s.t && |e.got| == e.ret
    ensures Start(s) <= Start(s') <= |Committed(s.t)| && e.got == Committed(s.t)[Start(s)..Start(s')]
    ensures e.count > 0 && e.ret == 0 ==> Start(s') == |Committed(s.t)|
  {
  }

  /** `got` is what the log `t` holds between the starts of the two states. */
  predicate Contiguous(s: Session, s': Session, got: Bytes) {
    && s'.t == s.t && Start(s) <= Start(s') <= |Committed(s.t)|
    && got == Committed(s.t)[Start(s)..Start(s')]
  }

  lemma OneMoreRead(s0: Session, s: Session, got: Bytes, e: Event, s': Session)
    requires Contiguous(s0, s, got) && Step(s, e, s') && e.Read? && e.ret >= 0
    ensures Contiguous(s0, s', got + e.got)
  {
    SuccessfulRead(s, e, s');
  }

  /** A reader that starts inside the log, whatever its buffer sizes, has got one
      contiguous slice. */
  lemma {:induction false} ReadsAreContiguous(ss: seq<Session>, es: seq<Event>, n: nat)
    requires Run(ss, es) && Undisturbed(es) && n <= |es|
    requires Start(ss[0]) <= |Committed(ss[0].t)|
    ensures Contiguous(ss[0], ss[n], Received(es, n))
  {
    if n > 0 {
      ReadsAreContiguous(ss, es, n - 1);
      assert StepAt(ss, es, n - 1);
      OneMoreRead(ss[0], ss[n - 1], Received(es, n - 1), es[n - 1], ss[n]);
    }
  }

  lemma {:induction false} ReceivedIsLong(es: seq<Event>, n: nat)
    requires n <= |es| && forall i :: 0 <= i < |es| ==> es[i].Read? && |es[i].got| > 0
    ensures n <= |Received(es, n)|
  {
    if n > 0 {
      ReceivedIsLong(es, n - 1);
    }
  }

  /** Read-to-end: from position 0, with positive buffer sizes, once a read
      returns 0 the reads together have delivered exactly the live lines. */
  lemma ReadToEnd(ss: seq<Session>, es: seq<Event>)
    requires Run(ss, es) && Undisturbed(es) && ss[0].pos == 0
    requires es != [] && es[|es| - 1].ret == 0 && es[|es| - 1].count > 0
    ensures Received(es, |es|) == Live(ss[0].t)
  {
    var n := |es|;
    CommittedSplits(ss[0].t);
    ReadsAreContiguous(ss, es, n - 1);
    ReadsAreContiguous(ss, es, n);
    assert StepAt(ss, es, n - 1);
    SuccessfulRead(ss[n - 1], es[n - 1], ss[n]);
  }

  /** ... and a read does return 0: no more reads return data than there are live bytes. */
  lemma ReadToEndStops(ss: seq<Session>, es: seq<Event>)
    requires Run(ss, es) && Undisturbed(es) && ss[0].pos == 0
    requires forall i :: 0 <= i < |es| ==> es[i].ret > 0
    ensures |es| <= |Live(ss[0].t)|
  {
    CommittedSplits(ss[0].t);
    ReadsAreContiguous(ss, es, |es|);
    forall i | 0 <= i < |es|
      ensures es[i].Read? && |es[i].got| > 0
    {
      ReadsAreContiguous(ss, es, i);
      assert StepAt(ss, es, i);
      SuccessfulRead(ss[i], es[i], ss[i + 1]);
    }
    ReceivedIsLong(es, |es|);
  }
}
