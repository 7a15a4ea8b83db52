/** All request threads of the server as a step machine over one device. A step
    is one action of one thread: device calls are atomic because the driver holds
    its semaphore, and everything else may interleave in any way. Nothing is
    assumed to succeed: opens, writes and reads may fail at any time. Processes
    that write to the device without taking the mutex are part of the machine too.
 */
module RequestThreads {
  import opened ByteLines
  import opened RingSpec
  import opened DeviceSpec
  import opened Server

  /** Where a thread stands; `mark` is the number of its own write in the log of writes. */
  datatype Phase =
    | Idle
    | Waiting(chunk: Bytes)
    | Locked(chunk: Bytes)
    | Wrote(mark: nat)
    | Reading(mark: nat, pos: nat, sent: Bytes)
    | Finished(mark: nat, until: nat, end: nat, sent: Bytes, complete: bool)
  {
    predicate Inside() {
      !Idle? && !Waiting?
    }
  }

  /** A write to the device, by a request thread or, with None, by another process. */
  datatype WriteRecord = WriteRecord(thread: Option<nat>, chunk: Bytes, accepted: Bytes)

  /** `until` is how many writes the log had at the last read of the reply, and `end`
      the file position that the reply has reached. */
  datatype Reply = Reply(thread: nat, mark: nat, until: nat, end: nat, sent: Bytes, complete: bool)

  datatype World = World(history: Bytes, holder: Option<nat>, threads: seq<Phase>,
                         writes: seq<WriteRecord>, replies: seq<Reply>)
  {
    function Become(i: nat, p: Phase): World
      requires i < |threads|
    {
      this.(threads := threads[i := p])
    }

    function Log(r: WriteRecord, history': Bytes): World {
      this.(history := history', writes := writes + [r])
    }

    function Release(i: nat): World
      requires i < |threads|
    {
      Become(i, Idle).(holder := None)
    }
  }

  datatype Action =
    | Receive(chunk: Bytes)
    | Lock
    | OpenToWriteFails
    | WriteDevice(ret: int, history': Bytes)
    | OpenToReadFails
    | OpenToRead
    | ReadDevice(ret: int, got: Bytes, pos': nat)
    | Unlock
    | ForeignWrite(chunk: Bytes, ret: int, history': Bytes)

  function Initial(n: nat): World {
    World([], None, seq(n, _ => Idle), [], [])
  }

  /** The bytes that a write of `chunk` which returned `ret` has added to the log. */
  function AcceptedOf(chunk: Bytes, ret: int): Bytes {
    if 0 <= ret <= |chunk| then chunk[..ret] else []
  }

  /** A read that returns data goes on; an empty or failed one ends the reply. */
  function AfterRead(w: World, p: Phase, ret: int, got: Bytes, pos': nat): Phase
    requires p.Reading?
  {
    if ret > 0 then Reading(p.mark, pos', p.sent + got)
    else Finished(p.mark, |w.writes|, if ret == 0 then pos' else p.pos, p.sent, ret == 0)
  }

  /** Action `a` of thread `i`, in the order of the statements of the handler. */
  predicate ThreadStep(w: World, i: nat, a: Action, w': World) {
    && i < |w.threads|
    && var p := w.threads[i];
       match a
       case Receive(chunk) => p.Idle? && 0 < |chunk| <= BUFSIZE && w' == w.Become(i, Waiting(chunk))
       case Lock => p.Waiting? && w.holder == None && w' == w.Become(i, Locked(p.chunk)).(holder := Some(i))
       case OpenToWriteFails => p.Locked? && w' == w.Release(i)
       case WriteDevice(ret, history') =>
         && p.Locked? && WriteOutcome(w.history, p.chunk, ret, history')
         && w' == w.Become(i, Wrote(|w.writes|))
                  .Log(WriteRecord(Some(i), p.chunk, AcceptedOf(p.chunk, ret)), history')
       case OpenToReadFails => p.Wrote? && w' == w.Release(i)
       case OpenToRead => p.Wrote? && w' == w.Become(i, Reading(p.mark, 0, []))
       case ReadDevice(ret, got, pos') =>
         && p.Reading? && ReadOutcome(w.history, p.pos, BUFSIZE, ret, got, pos')
         && w' == w.Become(i, AfterRead(w, p, ret, got, pos'))
       case Unlock =>
         && p.Finished?
         && w' == w.Release(i).(replies := w.replies + [Reply(i, p.mark, p.until, p.end, p.sent, p.complete)])
       case ForeignWrite(_, _, _) => false
  }

  predicate Step(w: World, i: nat, a: Action, w': World) {
    match a
    case ForeignWrite(chunk, ret, history') =>
      && WriteOutcome(w.history, chunk, ret, history')
      && w' == w.Log(WriteRecord(None, chunk, AcceptedOf(chunk, ret)), history')
    case _ => ThreadStep(w, i, a, w')
  }

  /** All bytes accepted by these writes, in order. */
  function Accepted(writes: seq<WriteRecord>): Bytes {
    if writes == [] then [] else Accepted(writes[..|writes| - 1]) + writes[|writes| - 1].accepted
  }

  /** The log right after write number `mark`. */
  function LogAfter(writes: seq<WriteRecord>, mark: nat): Bytes
    requires mark < |writes|
  {
    Accepted(writes[..mark + 1])
  }

  /** `sent` is a beginning of the last ten lines of `t`; all of them when complete. */
  predicate Shows(t: Bytes, sent: Bytes, complete: bool) {
    sent <= Live(t) && (complete ==> sent == Live(t))
  }

  /** Write `mark` is by thread `i`, and up to write `until` only other processes
      have written since. */
  predicate OwnWrite(writes: seq<WriteRecord>, i: nat, mark: nat, until: nat) {
    && mark < until <= |writes| && writes[mark].thread == Some(i)
    && forall m :: mark < m < until ==> writes[m].thread == None
  }

  /** No write strictly between `mark` and `until` has accepted a newline. */
  predicate NoLineBetween(writes: seq<WriteRecord>, mark: nat, until: nat)
    requires until <= |writes|
  {
    forall m :: mark < m < until ==> NewlineFree(writes[m].accepted)
  }

  /** `sent`, ending at position `end`, is the live part of the log `t`: all its live
      bytes, up to its very end. */
  predicate IsSnapshot(t: Bytes, end: nat, sent: Bytes) {
    end == |Committed(t)| && sent == Live(t)
  }

  /** What is known of a reply to write `mark` whose last read saw `until` writes: a
      complete one ends at the end of the log it saw last; and unless a line was
      completed in between, it shows the log right after write `mark`. */
  predicate ReplyFits(writes: seq<WriteRecord>, mark: nat, until: nat, end: nat, sent: Bytes, complete: bool)
    requires mark < until <= |writes|
  {
    && (complete ==> end == |Committed(LogAfter(writes, until - 1))|)
    && (NoLineBetween(writes, mark, until) ==>
          SentUpTo(LogAfter(writes, mark), end, sent) && Shows(LogAfter(writes, mark), sent, complete))
  }

  /** A reply answers a write of its own thread. */
  predicate Answers(writes: seq<WriteRecord>, r: Reply) {
    && OwnWrite(writes, r.thread, r.mark, r.until)
    && ReplyFits(writes, r.mark, r.until, r.end, r.sent, r.complete)
  }

  predicate RepliesBefore(w: World, mark: nat) {
    forall k :: 0 <= k < |w.replies| ==> w.replies[k].mark < mark
  }

  predicate PhaseFits(w: World, i: nat, p: Phase) {
    match p
    case Wrote(mark) => RepliesBefore(w, mark) && OwnWrite(w.writes, i, mark, |w.writes|)
    case Reading(mark, pos, sent) =>
      && RepliesBefore(w, mark) && OwnWrite(w.writes, i, mark, |w.writes|)
      && pos <= |Committed(w.history)|
      && (NoLineBetween(w.writes, mark, |w.writes|) ==> SentUpTo(w.history, pos, sent))
    case Finished(mark, until, end, sent, complete) =>
      && RepliesBefore(w, mark) && OwnWrite(w.writes, i, mark, until)
      && ReplyFits(w.writes, mark, until, end, sent, complete)
    case _ => true
  }

  /** Only the holder of the mutex is in the critical section. */
  predicate Exclusive(w: World) {
    && (w.holder.Some? ==> w.holder.value < |w.threads|)
    && forall i :: 0 <= i < |w.threads| ==> (w.threads[i].Inside() <==> w.holder == Some(i))
  }

  predicate RepliesFit(w: World) {
    && (forall k :: 0 <= k < |w.replies| ==> Answers(w.writes, w.replies[k]))
    && (forall j, k :: 0 <= j < k < |w.replies| ==> w.replies[j].mark < w.replies[k].mark)
  }

  predicate PhasesFit(w: World) {
    forall i :: 0 <= i < |w.threads| ==> PhaseFits(w, i, w.threads[i])
  }

  predicate Inv(w: World) {
    w.history == Accepted(w.writes) && Exclusive(w) && PhasesFit(w) && RepliesFit(w)
  }

  lemma LogAfterStays(writes: seq<WriteRecord>, r: WriteRecord, mark: nat)
    requires mark < |writes|
    ensures LogAfter(writes + [r], mark) == LogAfter(writes, mark)
  {
    assert (writes + [r])[..mark + 1] == writes[..mark + 1];
  }

  lemma ReplyStays(writes: seq<WriteRecord>, r: WriteRecord,
                   i: nat, mark: nat, until: nat, end: nat, sent: Bytes, complete: bool)
    requires OwnWrite(writes, i, mark, until) && ReplyFits(writes, mark, until, end, sent, complete)
    ensures OwnWrite(writes + [r], i, mark, until) && ReplyFits(writes + [r], mark, until, end, sent, complete)
  {
    var ws := writes + [r];
    LogAfterStays(writes, r, mark);
    LogAfterStays(writes, r, until - 1);
    assert forall m :: mark <= m < until ==> ws[m] == writes[m];
  }

  lemma WriteKeepsReplies(w: World, r: WriteRecord)
    requires RepliesFit(w)
    ensures RepliesFit(w.(writes := w.writes + [r]))
    ensures Accepted(w.writes + [r]) == Accepted(w.writes) + r.accepted
  {
    var ws := w.writes + [r];
    assert ws[..|w.writes|] == w.writes;
    forall k | 0 <= k < |w.replies|
      ensures Answers(ws, w.replies[k])
    {
      var reply := w.replies[k];
      assert Answers(w.writes, reply);
      ReplyStays(w.writes, r, reply.thread, reply.mark, reply.until, reply.end, reply.sent, reply.complete);
    }
  }

  lemma NextLog(writes: seq<WriteRecord>, m: nat)
    requires m + 1 < |writes|
    ensures LogAfter(writes, m + 1) == LogAfter(writes, m) + writes[m + 1].accepted
  {
    assert writes[..m + 2][..m + 1] == writes[..m + 1];
  }

  /** Two logs, and a third that continues the second. */
  lemma OneMoreWrite(t0: Bytes, t1: Bytes, more: Bytes)
    requires Lines(t0) <= Lines(t1)
    ensures Lines(t0) <= Lines(t1 + more)
    ensures Lines(t0) == Lines(t1 + more) <==> Lines(t0) == Lines(t1) && NewlineFree(more)
  {
    LinesStay(t1, more);
    assert Lines(t0) == Lines(t1 + more) ==> |Lines(t0)| == |Lines(t1)|;
  }

  /** From one write to a later one the log grows by whole lines and a rest, and it
      grows by no line exactly when no write since has accepted a newline. */
  lemma {:induction false} LogsBetween(writes: seq<WriteRecord>, mark: nat, last: nat)
    requires mark <= last < |writes|
    ensures Lines(LogAfter(writes, mark)) <= Lines(LogAfter(writes, last))
    ensures Lines(LogAfter(writes, mark)) == Lines(LogAfter(writes, last)) <==> NoLineBetween(writes, mark, last + 1)
  {
    if mark < last {
      var m := last - 1;
      LogsBetween(writes, mark, m);
      NextLog(writes, m);
      OneMoreWrite(LogAfter(writes, mark), LogAfter(writes, m), writes[m + 1].accepted);
      NoLineSplits(writes, mark, m);
    }
  }

  lemma NoLineSplits(writes: seq<WriteRecord>, mark: nat, m: nat)
    requires mark <= m && m + 1 < |writes|
    ensures NoLineBetween(writes, mark, m + 2)
        <==> NoLineBetween(writes, mark, m + 1) && NewlineFree(writes[m + 1].accepted)
  {
  }

  lemma SameLinesShowTheSame(t: Bytes, t': Bytes, pos: nat, sent: Bytes)
    requires Lines(t) == Lines(t')
    ensures Committed(t) == Committed(t') && Live(t) == Live(t')
    ensures SentUpTo(t, pos, sent) <==> SentUpTo(t', pos, sent)
  {
  }

  lemma ForeignWriteKeepsReading(w: World, r: WriteRecord, history': Bytes, p: Phase)
    requires p.Reading? && p.mark < |w.writes| && history' == w.history + r.accepted
    requires p.pos <= |Committed(w.history)|
    requires NoLineBetween(w.writes, p.mark, |w.writes|) ==> SentUpTo(w.history, p.pos, p.sent)
    ensures p.pos <= |Committed(history')|
    ensures NoLineBetween(w.writes + [r], p.mark, |w.writes| + 1) ==> SentUpTo(history', p.pos, p.sent)
  {
    var ws := w.writes + [r];
    CommittedGrows(w.history, r.accepted);
    if NoLineBetween(ws, p.mark, |ws|) {
      assert forall m :: p.mark < m < |w.writes| ==> ws[m] == w.writes[m];
      assert ws[|w.writes|] == r;
      LinesStay(w.history, r.accepted);
      SameLinesShowTheSame(w.history, history', p.pos, p.sent);
    }
  }

  lemma ForeignWriteKeepsPhase(w: World, r: WriteRecord, history': Bytes, i: nat)
    requires i < |w.threads| && PhaseFits(w, i, w.threads[i])
    requires r.thread == None && history' == w.history + r.accepted
    ensures PhaseFits(w.Log(r, history'), i, w.threads[i])
  {
    var p := w.threads[i];
    if p.Reading? {
      ForeignWriteKeepsReading(w, r, history', p);
    } else if p.Finished? {
      ReplyStays(w.writes, r, i, p.mark, p.until, p.end, p.sent, p.complete);
    }
  }

  /** Where a failed or empty read leaves the reply. */
  lemma LastReadFits(w: World, p: Phase, ret: int, got: Bytes, pos': nat)
    requires p.Reading? && p.mark < |w.writes| && w.history == Accepted(w.writes)
    requires p.pos <= |Committed(w.history)| && ret <= 0
    requires NoLineBetween(w.writes, p.mark, |w.writes|) ==> SentUpTo(w.history, p.pos, p.sent)
    requires ReadOutcome(w.history, p.pos, BUFSIZE, ret, got, pos')
    ensures ReplyFits(w.writes, p.mark, |w.writes|, if ret == 0 then pos' else p.pos, p.sent, ret == 0)
  {
    assert w.writes[..|w.writes|] == w.writes;
    if ret == 0 {
      ReadStaysInside(w.history, p.pos, ret, got, pos');
    }
    if NoLineBetween(w.writes, p.mark, |w.writes|) {
      LogsBetween(w.writes, p.mark, |w.writes| - 1);
      SentIsPrefix(w.history, p.pos, p.sent);
      if ret == 0 {
        SendingGoesOn(w.history, p.pos, p.sent, ret, got, pos');
        assert p.sent + got == p.sent;
        SameLinesShowTheSame(w.history, LogAfter(w.writes, p.mark), pos', p.sent);
      } else {
        SameLinesShowTheSame(w.history, LogAfter(w.writes, p.mark), p.pos, p.sent);
      }
    }
  }

  lemma ReadKeepsPhase(w: World, i: nat, p: Phase, ret: int, got: Bytes, pos': nat)
    requires p.Reading? && PhaseFits(w, i, p) && w.history == Accepted(w.writes)
    requires ReadOutcome(w.history, p.pos, BUFSIZE, ret, got, pos')
    ensures PhaseFits(w, i, AfterRead(w, p, ret, got, pos'))
  {
    if ret > 0 {
      ReadStaysInside(w.history, p.pos, ret, got, pos');
      if NoLineBetween(w.writes, p.mark, |w.writes|) {
        SendingGoesOn(w.history, p.pos, p.sent, ret, got, pos');
      }
    } else {
      LastReadFits(w, p, ret, got, pos');
    }
  }

  lemma StepKeepsExclusive(w: World, i: nat, a: Action, w': World)
    requires Step(w, i, a, w') && Exclusive(w)
    ensures Exclusive(w')
  {
  }

  /** Inside the critical section a thread changes nothing another phase depends on. */
  lemma HolderKeepsPhases(w: World, i: nat, p: Phase, w': World)
    requires Exclusive(w) && i < |w.threads| && w.threads[i].Inside()
    requires w'.threads == w.threads[i := p] && PhaseFits(w', i, p)
    ensures PhasesFit(w')
  {
    forall j | 0 <= j < |w'.threads|
      ensures PhaseFits(w', j, w'.threads[j])
    {
      if j != i {
        assert !w.threads[j].Inside();
      }
    }
  }

  lemma OutsiderKeepsPhases(w: World, i: nat, p: Phase, w': World)
    requires PhasesFit(w) && i < |w.threads| && (p.Waiting? || p.Locked?)
    requires w'.threads == w.threads[i := p]
    requires w'.history == w.history && w'.writes == w.writes && w'.replies == w.replies
    ensures PhasesFit(w')
  {
    forall j | 0 <= j < |w'.threads|
      ensures PhaseFits(w', j, w'.threads[j])
    {
      if j != i {
        assert PhaseFits(w, j, w.threads[j]);
      }
    }
  }

  lemma WriteFits(w: World, i: nat, r: WriteRecord, history': Bytes)
    requires RepliesFit(w) && r.thread == Some(i)
    ensures PhaseFits(w.Log(r, history'), i, Wrote(|w.writes|))
  {
    forall k | 0 <= k < |w.replies|
      ensures w.replies[k].mark < |w.writes|
    {
      assert Answers(w.writes, w.replies[k]);
    }
  }

  lemma StepKeepsPhases(w: World, i: nat, a: Action, w': World)
    requires ThreadStep(w, i, a, w') && Inv(w)
    ensures PhasesFit(w')
  {
    var p := w.threads[i];
    assert PhaseFits(w, i, p);
    match a
    case Receive(chunk) => OutsiderKeepsPhases(w, i, Waiting(chunk), w');
    case Lock => OutsiderKeepsPhases(w, i, Locked(p.chunk), w');
    case WriteDevice(ret, history') =>
      WriteFits(w, i, WriteRecord(Some(i), p.chunk, AcceptedOf(p.chunk, ret)), history');
      HolderKeepsPhases(w, i, Wrote(|w.writes|), w');
    case OpenToRead =>
      SendingStarts(w.history);
      HolderKeepsPhases(w, i, Reading(p.mark, 0, []), w');
    case ReadDevice(ret, got, pos') =>
      ReadKeepsPhase(w, i, p, ret, got, pos');
      HolderKeepsPhases(w, i, w'.threads[i], w');
    case _ => HolderKeepsPhases(w, i, Idle, w');
  }

  lemma StepKeepsReplies(w: World, i: nat, a: Action, w': World)
    requires ThreadStep(w, i, a, w') && Inv(w)
    ensures RepliesFit(w') && w'.history == Accepted(w'.writes)
  {
    var p := w.threads[i];
    match a
    case WriteDevice(ret, _) =>
      WriteKeepsReplies(w, WriteRecord(Some(i), p.chunk, AcceptedOf(p.chunk, ret)));
    case Unlock =>
      assert PhaseFits(w, i, p);
    case _ =>
  }

  lemma ForeignWriteKeepsInv(w: World, r: WriteRecord, history': Bytes)
    requires Inv(w) && r.thread == None && history' == w.history + r.accepted
    ensures Inv(w.Log(r, history'))
  {
    WriteKeepsReplies(w, r);
    forall j | 0 <= j < |w.threads|
      ensures PhaseFits(w.Log(r, history'), j, w.threads[j])
    {
      ForeignWriteKeepsPhase(w, r, history', j);
    }
  }

  /** Every step, of every thread and of every other process, keeps the invariant. */
  lemma StepKeepsInv(w: World, i: nat, a: Action, w': World)
    requires Step(w, i, a, w') && Inv(w)
    ensures Inv(w')
  {
    StepKeepsExclusive(w, i, a, w');
    if a.ForeignWrite? {
      ForeignWriteKeepsInv(w, WriteRecord(None, a.chunk, AcceptedOf(a.chunk, a.ret)), a.history');
    } else {
      StepKeepsPhases(w, i, a, w');
      StepKeepsReplies(w, i, a, w');
    }
  }

  predicate StepAt(ws: seq<World>, who: seq<nat>, acts: seq<Action>, k: nat)
    requires k < |acts| && |ws| == |acts| + 1 == |who| + 1
  {
    Step(ws[k], who[k], acts[k], ws[k + 1])
  }

  /** A finite execution from the start with `n` threads: who moved, and how. */
  predicate Execution(n: nat, ws: seq<World>, who: seq<nat>, acts: seq<Action>) {
    && |ws| == |acts| + 1 == |who| + 1 && ws[0] == Initial(n)
    && forall k :: 0 <= k < |acts| ==> StepAt(ws, who, acts, k)
  }

  lemma {:induction false} ExecutionKeepsInv(n: nat, ws: seq<World>, who: seq<nat>, acts: seq<Action>, k: nat)
    requires Execution(n, ws, who, acts) && k < |ws|
    ensures Inv(ws[k])
  {
    if k > 0 {
      ExecutionKeepsInv(n, ws, who, acts, k - 1);
      assert StepAt(ws, who, acts, k - 1);
      StepKeepsInv(ws[k - 1], who[k - 1], acts[k - 1], ws[k]);
    }
  }

  // ---- What an execution puts into its log of writes and its replies ----

  /** What a thread has done so far: the chunk it received last, the number of its
      last write, the data its reads have returned since it last opened the device
      for reading and where they have got to, and how the last of them ended. */
  datatype Progress = Progress(chunk: Bytes, mark: nat, until: nat, end: nat, sent: Bytes, complete: bool)

  /** One more action of the thread, after `writes` writes by anybody. */
  function Advance(g: Progress, a: Action, writes: nat): Progress {
    match a
    case Receive(chunk) => g.(chunk := chunk)
    case WriteDevice(_, _) => g.(mark := writes)
    case OpenToRead => g.(sent := [], end := 0)
    case ReadDevice(ret, got, pos') =>
      if ret > 0 then g.(sent := g.sent + got, end := pos')
      else if ret == 0 then g.(until := writes, end := pos', complete := true)
      else g.(until := writes, complete := false)
    case _ => g
  }

  predicate IsWrite(a: Action) {
    a.WriteDevice? || a.ForeignWrite?
  }

  function WriteCount(acts: seq<Action>): nat {
    if acts == [] then 0
    else WriteCount(acts[..|acts| - 1]) + if IsWrite(acts[|acts| - 1]) then 1 else 0
  }

  /** The progress of thread `i` after these actions, of which `who` tells the threads. */
  function ProgressOf(who: seq<nat>, acts: seq<Action>, i: nat): Progress
    requires |who| == |acts|
  {
    if acts == [] then Progress([], 0, 0, 0, [], false) else
    var m := |acts| - 1;
    var g := ProgressOf(who[..m], acts[..m], i);
    if who[m] == i then Advance(g, acts[m], WriteCount(acts[..m])) else g
  }

  /** The writes, in the order they happened. */
  function WritesOf(who: seq<nat>, acts: seq<Action>): seq<WriteRecord>
    requires |who| == |acts|
  {
    if acts == [] then [] else
    var m := |acts| - 1;
    WritesOf(who[..m], acts[..m]) +
    match acts[m]
    case WriteDevice(ret, _) =>
      var chunk := ProgressOf(who[..m], acts[..m], who[m]).chunk;
      [WriteRecord(Some(who[m]), chunk, AcceptedOf(chunk, ret))]
    case ForeignWrite(chunk, ret, _) => [WriteRecord(None, chunk, AcceptedOf(chunk, ret))]
    case _ => []
  }

  /** One reply for each unlock by a thread that has read to an end or an error. */
  function RepliesOf(who: seq<nat>, acts: seq<Action>): seq<Reply>
    requires |who| == |acts|
  {
    if acts == [] then [] else
    var m := |acts| - 1;
    var g := ProgressOf(who[..m], acts[..m], who[m]);
    RepliesOf(who[..m], acts[..m]) +
    if acts[m].Unlock? then [Reply(who[m], g.mark, g.until, g.end, g.sent, g.complete)] else []
  }

  predicate PhaseIs(p: Phase, g: Progress) {
    match p
    case Idle => true
    case Waiting(chunk) => chunk == g.chunk
    case Locked(chunk) => chunk == g.chunk
    case Wrote(mark) => mark == g.mark
    case Reading(mark, pos, sent) => mark == g.mark && pos == g.end && sent == g.sent
    case Finished(mark, until, end, sent, complete) =>
      mark == g.mark && until == g.until && end == g.end && sent == g.sent && complete == g.complete
  }

  /** The world is what these actions make of the start with `n` threads. */
  predicate Told(n: nat, w: World, who: seq<nat>, acts: seq<Action>)
    requires |who| == |acts|
  {
    && |w.threads| == n
    && |w.writes| == WriteCount(acts) && w.writes == WritesOf(who, acts) && w.replies == RepliesOf(who, acts)
    && forall i :: 0 <= i < n ==> PhaseIs(w.threads[i], ProgressOf(who, acts, i))
  }

  lemma StepIsTold(n: nat, w: World, who: seq<nat>, acts: seq<Action>, i: nat, a: Action, w': World)
    requires |who| == |acts| && Told(n, w, who, acts) && Step(w, i, a, w')
    ensures Told(n, w', who + [i], acts + [a])
  {
    var who', acts' := who + [i], acts + [a];
    assert who'[..|acts|] == who && acts'[..|acts|] == acts;
    forall j | 0 <= j < n
      ensures PhaseIs(w'.threads[j], ProgressOf(who', acts', j))
    {
      assert PhaseIs(w.threads[j], ProgressOf(who, acts, j));
    }
    if !a.ForeignWrite? {
      assert PhaseIs(w.threads[i], ProgressOf(who, acts, i));
    }
  }

  /** The actions of an execution determine its log of writes and its replies: there
      is one reply per unlock, in that order, from the thread that unlocks; it carries
      the data its reads returned since it opened the device for reading, all of it
      and nothing else, and the number of its own last write. */
  lemma {:induction false} ExecutionIsTold(n: nat, ws: seq<World>, who: seq<nat>, acts: seq<Action>, m: nat)
    requires Execution(n, ws, who, acts) && m < |ws|
    ensures |ws[m].threads| == n
    ensures ws[m].writes == WritesOf(who[..m], acts[..m])
    ensures ws[m].replies == RepliesOf(who[..m], acts[..m])
    ensures Told(n, ws[m], who[..m], acts[..m])
  {
    if m > 0 {
      var k := m - 1;
      ExecutionIsTold(n, ws, who, acts, k);
      assert StepAt(ws, who, acts, k);
      StepIsTold(n, ws[k], who[..k], acts[..k], who[k], acts[k], ws[m]);
      assert who[..k] + [who[k]] == who[..m] && acts[..k] + [acts[k]] == acts[..m];
    }
  }

  /** The data that the reads of thread `i` among these actions have returned. */
  function DataRead(who: seq<nat>, acts: seq<Action>, i: nat): Bytes
    requires |who| == |acts|
  {
    if acts == [] then [] else
    var m := |acts| - 1;
    DataRead(who[..m], acts[..m], i) +
    if who[m] == i && acts[m].ReadDevice? && acts[m].ret > 0 then acts[m].got else []
  }

  /** Action `o` is the last by which thread `i` opens the device for reading. */
  predicate LastOpen(who: seq<nat>, acts: seq<Action>, i: nat, o: nat)
    requires |who| == |acts|
  {
    && o < |acts| && who[o] == i && acts[o].OpenToRead?
    && forall k :: o < k < |acts| && who[k] == i ==> !acts[k].OpenToRead?
  }

  lemma {:induction false} SentSinceOpen(who: seq<nat>, acts: seq<Action>, i: nat, o: nat)
    requires |who| == |acts| && LastOpen(who, acts, i, o)
    ensures ProgressOf(who, acts, i).sent == DataRead(who[o + 1..], acts[o + 1..], i)
    decreases |acts|
  {
    var m := |acts| - 1;
    if o < m {
      SentSinceOpen(who[..m], acts[..m], i, o);
      var whoSince, since := who[o + 1..], acts[o + 1..];
      var k := |since| - 1;
      assert whoSince[..k] == who[..m][o + 1..] && since[..k] == acts[..m][o + 1..];
      assert whoSince[k] == who[m] && since[k] == acts[m];
    }
  }

  /** A thread that is reading or has read did open the device. */
  lemma {:induction false} FindOpen(n: nat, ws: seq<World>, who: seq<nat>, acts: seq<Action>, i: nat, m: nat)
    returns (o: nat)
    requires Execution(n, ws, who, acts) && m < |ws| && i < |ws[m].threads|
    requires ws[m].threads[i].Reading? || ws[m].threads[i].Finished?
    ensures LastOpen(who[..m], acts[..m], i, o)
  {
    var k := m - 1;
    assert m > 0 && StepAt(ws, who, acts, k);
    if who[k] == i && acts[k].OpenToRead? {
      o := k;
    } else {
      o := FindOpen(n, ws, who, acts, i, k);
      assert LastOpen(who[..k], acts[..k], i, o);
      assert forall j :: o < j < k ==> who[..m][j] == who[..k][j] && acts[..m][j] == acts[..k][j];
    }
  }

  /** Each unlock adds one reply of the thread that unlocks, and it carries exactly
      what the reads of that thread have returned since it last opened the device. */
  lemma ReplyCarriesItsReads(n: nat, ws: seq<World>, who: seq<nat>, acts: seq<Action>, k: nat) returns (o: nat)
    requires Execution(n, ws, who, acts) && k < |acts| && acts[k].Unlock?
    ensures LastOpen(who[..k], acts[..k], who[k], o)
    ensures var before, after := ws[k].replies, ws[k + 1].replies;
            && |after| == |before| + 1 && before <= after && after[|before|].thread == who[k]
            && after[|before|].sent == DataRead(who[o + 1..k], acts[o + 1..k], who[k])
  {
    assert StepAt(ws, who, acts, k);
    o := FindOpen(n, ws, who, acts, who[k], k);
    SentSinceOpen(who[..k], acts[..k], who[k], o);
    assert who[..k][o + 1..] == who[o + 1..k] && acts[..k][o + 1..] == acts[o + 1..k];
    ExecutionIsTold(n, ws, who, acts, k);
    assert PhaseIs(ws[k].threads[who[k]], ProgressOf(who[..k], acts[..k], who[k]));
  }

  /** Snapshot replies: in every interleaving the log is the accepted chunks in
      one order of writes; replies come in the order of the writes they answer;
      and each reply is what `Answers` says of it. */
  lemma SnapshotReplies(n: nat, ws: seq<World>, who: seq<nat>, acts: seq<Action>)
    requires Execution(n, ws, who, acts)
    ensures var w := ws[|acts|];
            && w.history == Accepted(w.writes)
            && (forall k :: 0 <= k < |w.replies| ==> Answers(w.writes, w.replies[k]))
            && (forall j, k :: 0 <= j < k < |w.replies| ==> w.replies[j].mark < w.replies[k].mark)
  {
    ExecutionKeepsInv(n, ws, who, acts, |acts|);
  }

  lemma EndTells(t: Bytes, t': Bytes, end: nat, sent: Bytes)
    requires Lines(t) <= Lines(t') && end == |Committed(t')|
    requires Lines(t) == Lines(t') ==> sent == Live(t)
    ensures IsSnapshot(t, end, sent) <==> Lines(t) == Lines(t')
  {
    LongerByWholeLines(t, t');
  }

  lemma FitsExactly(writes: seq<WriteRecord>, r: Reply)
    requires Answers(writes, r) && r.complete
    ensures IsSnapshot(LogAfter(writes, r.mark), r.end, r.sent) <==> NoLineBetween(writes, r.mark, r.until)
  {
    LogsBetween(writes, r.mark, r.until - 1);
    EndTells(LogAfter(writes, r.mark), LogAfter(writes, r.until - 1), r.end, r.sent);
  }

  /** The exact condition, with foreign writers around: a complete reply is the live
      part of the log right after its own write, up to its very end, if and only if
      no write between that write and the last read of the reply accepted a newline. */
  lemma SnapshotIffNoLineBetween(n: nat, ws: seq<World>, who: seq<nat>, acts: seq<Action>, k: nat)
    requires Execution(n, ws, who, acts) && k < |ws[|acts|].replies| && ws[|acts|].replies[k].complete
    ensures var w, r := ws[|acts|], ws[|acts|].replies[k];
            && OwnWrite(w.writes, r.thread, r.mark, r.until)
            && (IsSnapshot(LogAfter(w.writes, r.mark), r.end, r.sent) <==> NoLineBetween(w.writes, r.mark, r.until))
  {
    SnapshotReplies(n, ws, who, acts);
    FitsExactly(ws[|acts|].writes, ws[|acts|].replies[k]);
  }

  lemma OnlyForeignInBetween(writes: seq<WriteRecord>, i: nat, mark: nat, until: nat)
    requires OwnWrite(writes, i, mark, until)
    ensures until == mark + 1 || writes[mark + 1].thread == None
  {
  }

  /** Without foreign writers no reply is ever disturbed: all of them show the log
      right after their own write. */
  lemma MutexSuffices(n: nat, ws: seq<World>, who: seq<nat>, acts: seq<Action>, k: nat)
    requires Execution(n, ws, who, acts) && k < |ws[|acts|].replies|
    requires forall m :: 0 <= m < |ws[|acts|].writes| ==> ws[|acts|].writes[m].thread != None
    ensures var w, r := ws[|acts|], ws[|acts|].replies[k];
            && r.mark < |w.writes| && w.writes[r.mark].thread == Some(r.thread)
            && Shows(LogAfter(w.writes, r.mark), r.sent, r.complete)
            && (r.complete ==> IsSnapshot(LogAfter(w.writes, r.mark), r.end, r.sent))
  {
    var w, r := ws[|acts|], ws[|acts|].replies[k];
    ExecutionKeepsInv(n, ws, who, acts, |acts|);
    assert Answers(w.writes, r);
    OnlyForeignInBetween(w.writes, r.thread, r.mark, r.until);
    assert NoLineBetween(w.writes, r.mark, r.until);
    if r.complete {
      FitsExactly(w.writes, r);
    }
  }

  /** No two threads are ever in the critical section together. */
  lemma MutualExclusion(n: nat, ws: seq<World>, who: seq<nat>, acts: seq<Action>, k: nat, i: nat, j: nat)
    requires Execution(n, ws, who, acts) && k < |ws|
    requires i < |ws[k].threads| && j < |ws[k].threads|
    requires ws[k].threads[i].Inside() && ws[k].threads[j].Inside()
    ensures i == j
  {
    ExecutionKeepsInv(n, ws, who, acts, k);
  }

  // ---- Every request can be answered ----

  /** Some execution with `n` threads ends in `w`. */
  ghost predicate Reaches(n: nat, w: World) {
    exists ws, who, acts :: Execution(n, ws, who, acts) && ws[|acts|] == w
  }

  lemma ReachesStart(n: nat)
    ensures Reaches(n, Initial(n))
  {
    var ws, who, acts := [Initial(n)], [], [];
    assert Execution(n, ws, who, acts) && ws[|acts|] == Initial(n);
  }

  lemma ReachesNext(n: nat, w: World, i: nat, a: Action, w': World)
    requires Reaches(n, w) && Step(w, i, a, w')
    ensures Reaches(n, w')
  {
    var ws, who, acts :| Execution(n, ws, who, acts) && ws[|acts|] == w;
    var ws', who', acts' := ws + [w'], who + [i], acts + [a];
    forall k | 0 <= k < |acts'|
      ensures StepAt(ws', who', acts', k)
    {
      if k < |acts| {
        assert StepAt(ws, who, acts, k);
      }
    }
    assert Execution(n, ws', who', acts') && ws'[|acts'|] == w';
  }

  lemma BecomeTwice(w: World, i: nat, p: Phase, q: Phase)
    requires i < |w.threads|
    ensures w.Become(i, p).Become(i, q) == w.Become(i, q)
    ensures w.threads[i] == p ==> w.Become(i, p) == w
  {
    assert w.threads[i := p][i := q] == w.threads[i := q];
  }

  /** Thread `i`, which was waiting in `w`, after its write: it has the mutex. */
  function AfterWrite(w: World, i: nat, ret: int, history': Bytes, p: Phase): World
    requires i < |w.threads| && w.threads[i].Waiting?
  {
    var chunk := w.threads[i].chunk;
    w.Become(i, p).Log(WriteRecord(Some(i), chunk, AcceptedOf(chunk, ret)), history').(holder := Some(i))
  }

  lemma CanOpen(n: nat, w: World, i: nat, ret: int, history': Bytes)
    requires Reaches(n, w) && w.holder == None && i < |w.threads| && w.threads[i].Waiting?
    requires WriteOutcome(w.history, w.threads[i].chunk, ret, history')
    ensures Reaches(n, AfterWrite(w, i, ret, history', Reading(|w.writes|, 0, [])))
  {
    var chunk := w.threads[i].chunk;
    var locked := w.Become(i, Locked(chunk)).(holder := Some(i));
    var wrote := AfterWrite(w, i, ret, history', Wrote(|w.writes|));
    ReachesNext(n, w, i, Lock, locked);
    BecomeTwice(w, i, Locked(chunk), Wrote(|w.writes|));
    ReachesNext(n, locked, i, WriteDevice(ret, history'), wrote);
    BecomeTwice(w, i, Wrote(|w.writes|), Reading(|w.writes|, 0, []));
    ReachesNext(n, wrote, i, OpenToRead, AfterWrite(w, i, ret, history', Reading(|w.writes|, 0, [])));
  }

  /** What a reader at `pos` has still to get. */
  function Unread(t: Bytes, pos: nat): Bytes {
    Slice(Committed(t), Max(pos, |Evicted(t)|), |Committed(t)|)
  }

  lemma UnreadSplits(t: Bytes, pos: nat) returns (got: Bytes, pos': nat)
    requires pos <= |Committed(t)|
    ensures ReadOutcome(t, pos, BUFSIZE, |got|, got, pos') && pos <= pos' <= |Committed(t)|
    ensures got != [] ==> pos < pos' && Unread(t, pos) == got + Unread(t, pos')
    ensures got == [] ==> Unread(t, pos) == [] && pos' == |Committed(t)|
  {
    CommittedSplits(t);
    var p := Max(pos, |Evicted(t)|);
    got := Slice(Committed(t), p, BUFSIZE);
    pos' := p + |got|;
  }

  /** A thread that is reading can read on to the end of the log. */
  lemma {:induction false} CanReadToEnd(n: nat, w: World, i: nat, mark: nat, pos: nat, sent: Bytes)
    requires i < |w.threads| && pos <= |Committed(w.history)|
    requires Reaches(n, w.Become(i, Reading(mark, pos, sent)))
    ensures Reaches(n, w.Become(i, Finished(mark, |w.writes|, |Committed(w.history)|,
                                            sent + Unread(w.history, pos), true)))
    decreases |Committed(w.history)| - pos
  {
    var got, pos' := UnreadSplits(w.history, pos);
    var p := Reading(mark, pos, sent);
    var p' := AfterRead(w, p, |got|, got, pos');
    BecomeTwice(w, i, p, p');
    ReachesNext(n, w.Become(i, p), i, ReadDevice(|got|, got, pos'), w.Become(i, p'));
    if got == [] {
      assert sent + Unread(w.history, pos) == sent;
    } else {
      assert (sent + got) + Unread(w.history, pos') == sent + Unread(w.history, pos);
      CanReadToEnd(n, w, i, mark, pos', sent + got);
    }
  }

  /** The world after the whole request of thread `i`, which was waiting in `w`. */
  function AfterRequest(w: World, i: nat, ret: int, history': Bytes): World
    requires i < |w.threads| && w.threads[i].Waiting?
  {
    var mark := |w.writes|;
    AfterWrite(w, i, ret, history', Idle).(
      holder := None,
      replies := w.replies + [Reply(i, mark, mark + 1, |Committed(history')|, Live(history'), true)])
  }

  /** When the mutex is free, a waiting request can run to its end, whatever its
      write returns. */
  lemma RequestCanBeAnswered(n: nat, w: World, i: nat, ret: int, history': Bytes)
    requires Reaches(n, w) && w.holder == None && i < |w.threads| && w.threads[i].Waiting?
    requires WriteOutcome(w.history, w.threads[i].chunk, ret, history')
    ensures Reaches(n, AfterRequest(w, i, ret, history'))
  {
    var mark := |w.writes|;
    var w' := AfterWrite(w, i, ret, history', Idle);
    var first, last := Reading(mark, 0, []), Finished(mark, mark + 1, |Committed(history')|, Live(history'), true);
    CanOpen(n, w, i, ret, history');
    BecomeTwice(w, i, Idle, first);
    CommittedSplits(history');
    assert [] + Unread(history', 0) == Live(history');
    CanReadToEnd(n, w', i, mark, 0, []);
    BecomeTwice(w', i, last, Idle);
    BecomeTwice(w', i, Idle, Idle);
    ReachesNext(n, w'.Become(i, last), i, Unlock, AfterRequest(w, i, ret, history'));
  }

  lemma ReachableIsInv(n: nat, w: World)
    requires Reaches(n, w)
    ensures Inv(w)
  {
    var ws, who, acts :| Execution(n, ws, who, acts) && ws[|acts|] == w;
    ExecutionKeepsInv(n, ws, who, acts, |acts|);
  }

  /** Thread `j` has left the critical section, and that is all but for its reply. */
  predicate OnlyReleased(w: World, j: nat, w': World)
    requires j < |w.threads|
  {
    && w'.holder == None && w'.threads == w.threads[j := Idle]
    && w'.history == w.history && w'.writes == w.writes
  }

  lemma CanUnlock(n: nat, w: World, j: nat)
    requires Reaches(n, w) && j < |w.threads| && w.threads[j].Finished?
    ensures exists w' :: Reaches(n, w') && OnlyReleased(w, j, w')
  {
    var p := w.threads[j];
    var w' := w.Release(j).(replies := w.replies + [Reply(j, p.mark, p.until, p.end, p.sent, p.complete)]);
    ReachesNext(n, w, j, Unlock, w');
  }

  /** A mutex that is held can be given up again. */
  lemma MutexCanBeReleased(n: nat, w: World, j: nat)
    requires Reaches(n, w) && w.holder == Some(j)
    ensures j < |w.threads| && exists w' :: Reaches(n, w') && OnlyReleased(w, j, w')
  {
    ReachableIsInv(n, w);
    var p := w.threads[j];
    assert PhaseFits(w, j, p);
    match p
    case Locked(_) => ReachesNext(n, w, j, OpenToWriteFails, w.Release(j));
    case Wrote(_) => ReachesNext(n, w, j, OpenToReadFails, w.Release(j));
    case Reading(mark, pos, sent) =>
      BecomeTwice(w, j, p, p);
      CanReadToEnd(n, w, j, mark, pos, sent);
      var last := Finished(mark, |w.writes|, |Committed(w.history)|, sent + Unread(w.history, pos), true);
      BecomeTwice(w, j, last, Idle);
      CanUnlock(n, w.Become(j, last), j);
    case _ => CanUnlock(n, w, j);
  }

  /** Since `w` thread `i` has written `chunk`, and its reply to that is the last one:
      the live part of the log right after its write. */
  predicate AnsweredNow(w: World, i: nat, chunk: Bytes, ret: int, history': Bytes, w': World) {
    && w'.history == history' && w'.writes == w.writes + [WriteRecord(Some(i), chunk, AcceptedOf(chunk, ret))]
    && w'.replies != []
    && w'.replies[|w'.replies| - 1]
       == Reply(i, |w.writes|, |w.writes| + 1, |Committed(history')|, Live(history'), true)
  }

  lemma WaitingCanBeAnswered(n: nat, w: World, i: nat, ret: int, history': Bytes)
    requires Reaches(n, w) && i < |w.threads| && w.threads[i].Waiting?
    requires WriteOutcome(w.history, w.threads[i].chunk, ret, history')
    ensures exists w' :: Reaches(n, w') && AnsweredNow(w, i, w.threads[i].chunk, ret, history', w')
  {
    var free := w;
    if w.holder.Some? {
      MutexCanBeReleased(n, w, w.holder.value);
      free :| Reaches(n, free) && OnlyReleased(w, w.holder.value, free);
      ReachableIsInv(n, w);
    }
    RequestCanBeAnswered(n, free, i, ret, history');
    assert AnsweredNow(w, i, w.threads[i].chunk, ret, history', AfterRequest(free, i, ret, history'));
  }

  /** No execution is a dead end: whatever has happened before, any thread outside the
      critical section can get its request answered, also when its write fails. */
  lemma NoRequestIsStuck(n: nat, w: World, i: nat, chunk: Bytes, ret: int, history': Bytes)
    requires Reaches(n, w) && i < |w.threads| && 0 < |chunk| <= BUFSIZE
    requires w.threads[i] == Idle || w.threads[i] == Waiting(chunk)
    requires WriteOutcome(w.history, chunk, ret, history')
    ensures exists w' :: Reaches(n, w') && AnsweredNow(w, i, chunk, ret, history', w')
  {
    var waiting := w.Become(i, Waiting(chunk));
    if w.threads[i].Idle? {
      ReachesNext(n, w, i, Receive(chunk), waiting);
    } else {
      BecomeTwice(w, i, Waiting(chunk), Waiting(chunk));
    }
    WaitingCanBeAnswered(n, waiting, i, ret, history');
    var w' :| Reaches(n, w') && AnsweredNow(waiting, i, chunk, ret, history', w');
    assert AnsweredNow(w, i, chunk, ret, history', w');
  }

  /** The machine rules nothing out that the contracts of the driver allow, nor a
      failed open; a failed or empty read ends the reply. */
  lemma AnyOutcomeIsAStep(w: World, i: nat, foreign: Bytes, ret: int, history': Bytes, got: Bytes, pos': nat)
    requires i < |w.threads|
    ensures WriteOutcome(w.history, foreign, ret, history') ==>
              exists w' :: Step(w, i, ForeignWrite(foreign, ret, history'), w') && w'.threads == w.threads
    ensures w.threads[i].Locked? && WriteOutcome(w.history, w.threads[i].chunk, ret, history') ==>
              exists w' :: Step(w, i, WriteDevice(ret, history'), w') && w'.threads[i].Wrote?
    ensures w.threads[i].Reading? && ReadOutcome(w.history, w.threads[i].pos, BUFSIZE, ret, got, pos') ==>
              exists w' :: Step(w, i, ReadDevice(ret, got, pos'), w')
                           && if ret > 0 then w'.threads[i].Reading? else w'.threads[i].Finished?
    ensures w.threads[i].Locked? ==>
              exists w' :: Step(w, i, OpenToWriteFails, w') && w'.holder == None && w'.threads[i] == Idle
    ensures w.threads[i].Wrote? ==>
              exists w' :: Step(w, i, OpenToReadFails, w') && w'.holder == None && w'.threads[i] == Idle
  {
    var p := w.threads[i];
    if WriteOutcome(w.history, foreign, ret, history') {
      var w' := w.Log(WriteRecord(None, foreign, AcceptedOf(foreign, ret)), history');
      assert Step(w, i, ForeignWrite(foreign, ret, history'), w');
    }
    match p
    case Locked(chunk) =>
      var r := WriteRecord(Some(i), chunk, AcceptedOf(chunk, ret));
      var w' := w.Become(i, Wrote(|w.writes|)).Log(r, history');
      assert w'.threads[i].Wrote?;
      if WriteOutcome(w.history, chunk, ret, history') {
        assert Step(w, i, WriteDevice(ret, history'), w');
      }
      assert Step(w, i, OpenToWriteFails, w.Release(i)) && w.Release(i).threads[i] == Idle;
    case Wrote(_) =>
      assert Step(w, i, OpenToReadFails, w.Release(i)) && w.Release(i).threads[i] == Idle;
    case Reading(_, _, _) =>
      var w' := w.Become(i, AfterRead(w, p, ret, got, pos'));
      assert if ret > 0 then w'.threads[i].Reading? else w'.threads[i].Finished?;
      if ReadOutcome(w.history, p.pos, BUFSIZE, ret, got, pos') {
        assert Step(w, i, ReadDevice(ret, got, pos'), w');
      }
    case _ =>
  }

  // ---- A foreign writer can spoil a reply ----

  function Newlines(n: nat): Bytes {
    seq(n, _ => NEWLINE)
  }

  function EmptyLines(n: nat): seq<Bytes> {
    seq(n, _ => [NEWLINE])
  }

  lemma {:induction false} LinesOfNewlines(n: nat)
    ensures Lines(Newlines(n)) == EmptyLines(n)
    ensures Tail(Newlines(n)) == []
    ensures Committed(Newlines(n)) == Newlines(n)
  {
    if n == 0 {
      assert Newlines(0) == [];
    } else {
      LinesOfNewlines(n - 1);
      assert Newlines(n) == Newlines(n - 1) + [NEWLINE];
      LinesSnoc(Newlines(n - 1), NEWLINE);
      assert Tail(Newlines(n - 1)) + [NEWLINE] == [NEWLINE];
      assert EmptyLines(n) == EmptyLines(n - 1) + [[NEWLINE]];
      LinesRoundTrip(Newlines(n));
    }
  }

  function Older(n: nat): nat {
    if n <= CAPACITY then 0 else n - CAPACITY
  }

  lemma EvictedNewlines(n: nat)
    ensures |Evicted(Newlines(n))| == Older(n)
  {
    LinesOfNewlines(n);
    LinesOfNewlines(Older(n));
    assert Lines(Newlines(n))[..Older(n)] == Lines(Newlines(Older(n)));
  }

  /** Reading to the end of a log of `n` empty lines. */
  lemma ReadNewlines(n: nat, pos: nat, left: nat)
    requires pos <= n && left == n - Max(pos, Older(n))
    ensures ReadOutcome(Newlines(n), pos, BUFSIZE, left, Newlines(left), n)
  {
    LinesOfNewlines(n);
    EvictedNewlines(n);
    assert Slice(Newlines(n), n - left, BUFSIZE) == Newlines(left);
  }

  lemma LiveIsAtMostTenLines(t: Bytes)
    ensures |Lines(Live(t))| <= CAPACITY
  {
    LinesAreLines(t);
    assert Live(t) == Flatten(LiveLines(t)) + [];
    LinesUnique(LiveLines(t), [], Live(t));
  }

  /** A world with one thread, which is reading or has read after its first write. */
  function Solo(t: Bytes, p: Phase, writes: seq<WriteRecord>): World {
    World(t, Some(0), [p], writes, [])
  }

  lemma SoloWrites(chunk: Bytes)
    requires 0 < |chunk| <= BUFSIZE
    ensures Reaches(1, Solo(chunk, Reading(0, 0, []), [WriteRecord(Some(0), chunk, chunk)]))
  {
    var w := Initial(1).Become(0, Waiting(chunk));
    ReachesStart(1);
    ReachesNext(1, Initial(1), 0, Receive(chunk), w);
    assert chunk[..|chunk|] == chunk && [] + chunk == chunk;
    CanOpen(1, w, 0, |chunk|, chunk);
    assert AfterWrite(w, 0, |chunk|, chunk, Reading(0, 0, [])).threads == [Reading(0, 0, [])];
  }

  lemma SoloReads(t: Bytes, p: Phase, writes: seq<WriteRecord>, ret: int, got: Bytes, pos': nat, p': Phase)
    requires p.Reading? && ReadOutcome(t, p.pos, BUFSIZE, ret, got, pos')
    requires Reaches(1, Solo(t, p, writes))
    requires p' == AfterRead(Solo(t, p, writes), p, ret, got, pos')
    ensures Reaches(1, Solo(t, p', writes))
  {
    assert [p][0 := p'] == [p'];
    ReachesNext(1, Solo(t, p, writes), 0, ReadDevice(ret, got, pos'), Solo(t, p', writes));
  }

  lemma SoloDisturbed(t: Bytes, p: Phase, r: WriteRecord, line: Bytes)
    requires Reaches(1, Solo(t, p, [r]))
    ensures Reaches(1, Solo(t + line, p, [r, WriteRecord(None, line, line)]))
  {
    assert line[..|line|] == line;
    var w := Solo(t, p, [r]);
    ReachesNext(1, w, 0, ForeignWrite(line, |line|, t + line), w.Log(WriteRecord(None, line, line), t + line));
    assert [r] + [WriteRecord(None, line, line)] == [r, WriteRecord(None, line, line)];
  }

  lemma SoloUnlocks(t: Bytes, p: Phase, writes: seq<WriteRecord>)
    requires p.Finished? && Reaches(1, Solo(t, p, writes))
    ensures Reaches(1, World(t, None, [Idle], writes, [Reply(0, p.mark, p.until, p.end, p.sent, p.complete)]))
  {
    var reply := Reply(0, p.mark, p.until, p.end, p.sent, p.complete);
    assert [p][0 := Idle] == [Idle] && [] + [reply] == [reply];
    ReachesNext(1, Solo(t, p, writes), 0, Unlock, World(t, None, [Idle], writes, [reply]));
  }

  function SpoiltReply(n: nat): Reply {
    Reply(0, 0, 2, n + 1, Newlines(CAPACITY + 1), true)
  }

  /** A thread writes `n` empty lines and reads the last ten; another process writes
      one more; the thread reads that too, and unlocks. */
  lemma SpoiltExecution(n: nat, ten: nat)
    requires CAPACITY == ten <= n <= BUFSIZE
    ensures Reaches(1, World(Newlines(n) + Newlines(1), None, [Idle],
                             [WriteRecord(Some(0), Newlines(n), Newlines(n)),
                              WriteRecord(None, Newlines(1), Newlines(1))],
                             [SpoiltReply(n)]))
  {
    var own, foreign := WriteRecord(Some(0), Newlines(n), Newlines(n)), WriteRecord(None, Newlines(1), Newlines(1));
    SoloWrites(Newlines(n));
    ReadNewlines(n, 0, ten);
    assert [] + Newlines(ten) == Newlines(ten);
    SoloReads(Newlines(n), Reading(0, 0, []), [own], ten, Newlines(ten), n, Reading(0, n, Newlines(ten)));
    SoloDisturbed(Newlines(n), Reading(0, n, Newlines(ten)), own, Newlines(1));
    var t := Newlines(n + 1);
    assert Newlines(n) + Newlines(1) == t;
    ReadNewlines(n + 1, n, 1);
    var sent := Newlines(ten) + Newlines(1);
    assert sent == Newlines(CAPACITY + 1);
    SoloReads(t, Reading(0, n, Newlines(ten)), [own, foreign], 1, Newlines(1), n + 1, Reading(0, n + 1, sent));
    ReadNewlines(n + 1, n + 1, 0);
    var last := Finished(0, 2, n + 1, sent, true);
    SoloReads(t, Reading(0, n + 1, sent), [own, foreign], 0, Newlines(0), n + 1, last);
    SoloUnlocks(t, last, [own, foreign]);
  }

  /** A foreign write can spoil a reply: after any chunk of ten or more empty lines,
      an execution with one thread and one foreign write of a newline ends with a
      complete reply of eleven lines, which the device held at no moment. */
  lemma ForeignWriteCanSpoilReply(n: nat)
    requires CAPACITY <= n <= BUFSIZE
    ensures exists w: World :: Reaches(1, w) && w.replies == [SpoiltReply(n)]
    ensures SpoiltReply(n).complete && forall u :: Live(u) != SpoiltReply(n).sent
  {
    SpoiltExecution(n, CAPACITY);
    LinesOfNewlines(CAPACITY + 1);
    forall u
      ensures Live(u) != Newlines(CAPACITY + 1)
    {
      LiveIsAtMostTenLines(u);
    }
  }

  /** Bytes alone do not tell whether a reply is the snapshot, which is why the exact
      condition speaks of its end position: different logs can have equal live bytes. */
  lemma LiveBytesCanRepeat(n: nat)
    requires n >= CAPACITY
    ensures Committed(Newlines(n)) != Committed(Newlines(n + 1))
    ensures Live(Newlines(n)) == Live(Newlines(n + 1))
  {
    LinesOfNewlines(n);
    LinesOfNewlines(n + 1);
    assert LastN(EmptyLines(n), CAPACITY) == LastN(EmptyLines(n + 1), CAPACITY);
  }
}
