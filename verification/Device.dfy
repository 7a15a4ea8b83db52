/** What the driver is for, on values: a device fed one byte at a time, and what
    that device holds after any stream of bytes.
 */
module DeviceSpec {
  import opened ByteLines
  import opened RingSpec

  const ENOMEM: int := 12
  const EFAULT: int := 14

  /** The logical state of `struct aesd_dev`: the bytes of each slot, the ring
      indices, the evicted-byte counter and the unfinished line. */
  datatype Device = Device(ring: Ring<Bytes>, evicted: nat, pending: Bytes)

  const NEW_DEVICE: Device := Device(EmptyRing(CAPACITY, []), 0, [])

  /** One newline: evict the oldest line when full, then store the new one. */
  function CommitLine(d: Device, line: Bytes): Device
    requires d.ring.InRange()
  {
    Device(d.ring.Commit(line),
           if d.ring.full then d.evicted + |d.ring.slots[d.ring.outOffs]| else d.evicted,
           [])
  }

  function Push(d: Device, b: Byte): Device
    requires d.ring.InRange()
  {
    if b == NEWLINE then CommitLine(d, d.pending + [b]) else d.(pending := d.pending + [b])
  }

  /** The device after the driver has accepted the bytes `t`, one at a time. */
  function Replay(t: Bytes): (d: Device)
    ensures d.ring.InRange() && |d.ring.slots| == CAPACITY
  {
    if t == [] then NEW_DEVICE else Push(Replay(t[..|t| - 1]), t[|t| - 1])
  }

  function Max(a: int, b: int): int {
    if a < b then b else a
  }

  // ---- The same content, read off the stream itself ----

  function LiveLines(t: Bytes): seq<Bytes> {
    LastN(Lines(t), CAPACITY)
  }

  /** The live lines end to end: what a reader can still get. */
  function Live(t: Bytes): Bytes {
    Flatten(LiveLines(t))
  }

  /** Every line ever committed, end to end. File positions index this string. */
  function Committed(t: Bytes): Bytes {
    Flatten(Lines(t))
  }

  /** The committed lines that are no longer live, end to end. */
  function Evicted(t: Bytes): Bytes {
    Flatten(Lines(t)[..|Lines(t)| - |LiveLines(t)|])
  }

  lemma LiveLinesAreLines(t: Bytes)
    ensures forall k :: 0 <= k < |LiveLines(t)| ==> IsLine(LiveLines(t)[k])
  {
    LinesAreLines(t);
  }

  lemma CommittedSplits(t: Bytes)
    ensures Committed(t) == Evicted(t) + Live(t)
  {
    var n := |Lines(t)| - |LiveLines(t)|;
    FlattenAppend(Lines(t)[..n], Lines(t)[n..]);
    assert Lines(t) == Lines(t)[..n] + Lines(t)[n..];
  }

  lemma ReplaySnoc(t: Bytes, b: Byte)
    ensures Replay(t + [b]) == Push(Replay(t), b)
  {
    assert (t + [b])[..|t|] == t;
  }

  lemma PushMovesRing(t: Bytes, b: Byte)
    requires Replay(t).ring == EmptyRing(CAPACITY, []).AddAll(Lines(t)) && Replay(t).pending == Tail(t)
    ensures Replay(t + [b]).ring == EmptyRing(CAPACITY, []).AddAll(Lines(t + [b]))
    ensures Replay(t + [b]).pending == Tail(t + [b])
  {
    ReplaySnoc(t, b);
    LinesSnoc(t, b);
    if b == NEWLINE {
      var line := Tail(t) + [b];
      FreshRingIndices(CAPACITY, [], Lines(t));
      CommitIsAdd(Replay(t).ring, line);
      AddAllSnoc(EmptyRing(CAPACITY, []), Lines(t), line);
    }
  }

  lemma EmptyStream()
    ensures Replay([]) == NEW_DEVICE && Lines([]) == [] && Tail([]) == []
    ensures NEW_DEVICE.ring.AddAll([]) == NEW_DEVICE.ring
  {
  }

  /** The driver's slots and indices move exactly as one add-entry call per
      complete line would move them, and the rest stays pending. */
  lemma {:induction false} ReplayIsRingOfLines(t: Bytes)
    ensures Replay(t).ring == EmptyRing(CAPACITY, []).AddAll(Lines(t))
    ensures Replay(t).pending == Tail(t)
  {
    if t == [] {
      EmptyStream();
    } else {
      var s, b := t[..|t| - 1], t[|t| - 1];
      assert s + [b] == t;
      ReplayIsRingOfLines(s);
      PushMovesRing(s, b);
    }
  }

  lemma DropOneMore(ls: seq<Bytes>, line: Bytes)
    requires |ls| >= CAPACITY
    ensures var n, ls' := |ls| - CAPACITY, ls + [line];
            Flatten(ls'[..n + 1]) == Flatten(ls[..n]) + LastN(ls, CAPACITY)[0]
  {
    var n := |ls| - CAPACITY;
    assert (ls + [line])[..n + 1] == ls[..n + 1];
    FlattenNext(ls, n);
  }

  /** A byte evicts the oldest live line when it completes an eleventh, else nothing. */
  lemma EvictedSnoc(t: Bytes, b: Byte)
    ensures b == NEWLINE && |LiveLines(t)| == CAPACITY ==> Evicted(t + [b]) == Evicted(t) + LiveLines(t)[0]
    ensures b != NEWLINE || |LiveLines(t)| < CAPACITY ==> Evicted(t + [b]) == Evicted(t)
  {
    LinesSnoc(t, b);
    if b == NEWLINE {
      if |Lines(t)| >= CAPACITY {
        DropOneMore(Lines(t), Tail(t) + [b]);
      } else {
        assert Lines(t + [b])[..0] == Lines(t)[..0];
      }
    }
  }

  /** Reachable rings satisfy the index invariant and hold the last ten lines. */
  lemma RingReads(t: Bytes)
    ensures Replay(t).ring.Valid()
    ensures Replay(t).ring.full <==> |Lines(t)| >= CAPACITY
    ensures Replay(t).ring.Contents() == LiveLines(t)
  {
    ReplayIsRingOfLines(t);
    FreshRingIndices(CAPACITY, [], Lines(t));
    FreshRingReads(CAPACITY, [], Lines(t));
  }

  /** The same slot by slot, with the write index right behind the newest line. */
  lemma LiveSlots(t: Bytes)
    ensures var r, lines := Replay(t).ring, LiveLines(t);
            && r.inOffs == Wrap(CAPACITY, r.outOffs, |lines|)
            && (r.full <==> |lines| == CAPACITY) && (r.full || r.outOffs == 0)
            && forall k :: 0 <= k < |lines| ==> r.slots[Wrap(CAPACITY, r.outOffs, k)] == lines[k]
  {
    RingReads(t);
    ContentsBySlot(Replay(t).ring);
  }

  /** The slot at the read index of a full ring is the oldest live line. */
  lemma OldestSlot(t: Bytes)
    requires Replay(t).ring.full
    ensures |LiveLines(t)| == CAPACITY && Replay(t).ring.slots[Replay(t).ring.outOffs] == LiveLines(t)[0]
  {
    LiveSlots(t);
    Remainder(Replay(t).ring.outOffs, CAPACITY);
  }

  lemma {:induction false} CounterIsEvicted(t: Bytes)
    ensures Replay(t).evicted == |Evicted(t)|
  {
    if t != [] {
      var s, b := t[..|t| - 1], t[|t| - 1];
      assert t == s + [b];
      CounterIsEvicted(s);
      EvictedSnoc(s, b);
      RingReads(s);
      if Replay(s).ring.full {
        OldestSlot(s);
      }
    }
  }

  /** Retention: after any stream the ring, read from the read index, holds
      exactly the last ten complete lines, the counter is the number of bytes in
      the lines dropped, and the pending bytes are the newline-free tail. */
  lemma Retention(t: Bytes)
    ensures Replay(t).ring.Valid()
    ensures Replay(t).ring.Contents() == LiveLines(t)
    ensures Replay(t).evicted == |Evicted(t)|
    ensures Replay(t).pending == Tail(t)
    ensures NewlineFree(Tail(t))
  {
    RingReads(t);
    CounterIsEvicted(t);
    ReplayIsRingOfLines(t);
    LinesAreLines(t);
  }

  /** The same in plain numbers: after n newlines (bytes 10) the device holds the
      last ten lines, or all n of them, and it is full from the tenth on. */
  lemma TenLines(t: Bytes)
    ensures |Lines(t)| == multiset(t)[10]
    ensures |Replay(t).ring.Contents()| == if multiset(t)[10] < 10 then multiset(t)[10] else 10
    ensures Replay(t).ring.full <==> multiset(t)[10] >= 10
    ensures Replay(t).ring.Contents() == Lines(t)[|Lines(t)| - |Replay(t).ring.Contents()|..]
  {
    LinesCount(t);
    RingReads(t);
  }

  /** Occupied slots hold one line each, slots not yet used are empty. */
  predicate Shaped(r: Ring<Bytes>) {
    && r.Valid()
    && forall i :: 0 <= i < |r.slots| ==>
         if r.full || i < r.inOffs then IsLine(r.slots[i]) else r.slots[i] == []
  }

  lemma CommitKeepsShape(r: Ring<Bytes>, line: Bytes)
    requires Shaped(r) && IsLine(line)
    ensures Shaped(r.Commit(line))
  {
    CommitIsAdd(r, line);
    AddKeepsValid(r, line);
  }

  /** Entry shape: on every reachable device each occupied slot holds exactly one
      line, its newline last, and the pending bytes hold no newline. */
  lemma {:induction false} SlotShape(t: Bytes)
    ensures Shaped(Replay(t).ring)
    ensures NewlineFree(Replay(t).pending)
  {
    if t != [] {
      var s, b := t[..|t| - 1], t[|t| - 1];
      SlotShape(s);
      var l := Replay(s).pending + [b];
      if b == NEWLINE {
        assert l[..|l| - 1] == Replay(s).pending;
        CommitKeepsShape(Replay(s).ring, l);
      }
    }
  }

  /** No byte is lost or counted twice: the evicted bytes, the live lines and
      the pending bytes spell the whole stream. */
  lemma Conservation(t: Bytes)
    ensures Evicted(t) + Live(t) + Tail(t) == t
    ensures Replay(t).evicted + |Flatten(Replay(t).ring.Contents())| + |Replay(t).pending| == |t|
  {
    Retention(t);
    CommittedSplits(t);
    LinesRoundTrip(t);
  }

  lemma FlattenPrefix(ls: seq<Bytes>, m: nat, n: nat)
    requires m <= n <= |ls|
    ensures Flatten(ls[..m]) <= Flatten(ls[..n])
  {
    assert ls[..n] == ls[..m] + ls[m..n];
    FlattenAppend(ls[..m], ls[m..n]);
  }

  lemma CommittedGrows(t: Bytes, more: Bytes)
    ensures Lines(t) <= Lines(t + more)
    ensures Committed(t) <= Committed(t + more)
  {
    LinesAppend(t, more);
    FlattenAppend(Lines(t), Lines(Tail(t) + more));
  }

  /** A log is no longer than an earlier one exactly when no line was completed since. */
  lemma LongerByWholeLines(t: Bytes, t': Bytes)
    requires Lines(t) <= Lines(t')
    ensures |Committed(t)| <= |Committed(t')|
    ensures |Committed(t)| == |Committed(t')| <==> Lines(t) == Lines(t')
  {
    var n := |Lines(t)|;
    var added := Lines(t')[n..];
    assert Lines(t') == Lines(t) + added;
    FlattenAppend(Lines(t), added);
    if added != [] {
      LinesAreLines(t');
      assert IsLine(Lines(t')[n]);
    }
  }

  lemma EvictedGrows(t: Bytes, t': Bytes)
    requires Lines(t) <= Lines(t')
    ensures Evicted(t) <= Evicted(t')
  {
    var n := |Lines(t)| - |LiveLines(t)|;
    assert Lines(t')[..n] == Lines(t)[..n];
    FlattenPrefix(Lines(t'), n, |Lines(t')| - |LiveLines(t')|);
  }

  /** Committed and evicted bytes only ever grow at the end. */
  lemma HistoryGrows(t: Bytes, more: Bytes)
    ensures Committed(t) <= Committed(t + more)
    ensures Evicted(t) <= Evicted(t + more)
  {
    CommittedGrows(t, more);
    EvictedGrows(t, t + more);
  }

  /** The lookup and the positions of live bytes are inverse: the position of
      byte `j` of live line `k` is found as (k, j) and holds that byte of the log. */
  lemma PositionRoundTrip(t: Bytes, k: nat, j: nat)
    requires k < |LiveLines(t)| && j < |LiveLines(t)[k]|
    ensures var o := |Flatten(LiveLines(t)[..k])| + j;
            && Locate(Lengths(LiveLines(t)), o) == Some((k, j))
            && |Evicted(t)| + o < |Committed(t)| && Committed(t)[|Evicted(t)| + o] == LiveLines(t)[k][j]
  {
    var lines := LiveLines(t);
    CommittedSplits(t);
    assert Lengths(lines)[..k] == Lengths(lines[..k]);
    SumOfLengths(lines[..k]);
    LocateIs(Lengths(lines), k, j, |Flatten(lines[..k])| + j);
    LocateReadsTheByte(lines, |Flatten(lines[..k])| + j);
  }

  /** A position is found exactly when it is neither evicted nor past the end. */
  lemma FoundIffLive(t: Bytes, pos: nat)
    requires pos >= |Evicted(t)|
    ensures Locate(Lengths(LiveLines(t)), pos - |Evicted(t)|).Some? <==> pos < |Committed(t)|
  {
    CommittedSplits(t);
    SumOfLengths(LiveLines(t));
    LocateExact(Lengths(LiveLines(t)), pos - |Evicted(t)|);
  }

  // ---- Write calls ----

  /** One write call in terms of lines: the pending bytes and the new data are
      cut into lines, the ring takes one add-entry call for each, and the bytes
      of the lines that fell out of the ring are counted as evicted. (The
      difference is never negative on a device reached by writes.) */
  function WriteLines(d: Device, data: Bytes): (d': Device)
    requires d.ring.InRange()
    ensures d'.ring.InRange()
  {
    var ls := Lines(d.pending + data);
    var ring := d.ring.AddAll(ls);
    var dropped := |Flatten(d.ring.Contents() + ls)| - |Flatten(ring.Contents())|;
    Device(ring, d.evicted + Max(0, dropped), Tail(d.pending + data))
  }

  lemma WriteMovesRing(t: Bytes, data: Bytes)
    ensures Replay(t + data).ring == Replay(t).ring.AddAll(Lines(Replay(t).pending + data))
    ensures Replay(t + data).pending == Tail(Replay(t).pending + data)
  {
    ReplayIsRingOfLines(t);
    ReplayIsRingOfLines(t + data);
    LinesAppend(t, data);
    AddAllAppend(EmptyRing(CAPACITY, []), Lines(t), Lines(Tail(t) + data));
  }

  lemma WriteMovesCounter(t: Bytes, data: Bytes)
    ensures Replay(t + data).evicted + |Flatten(Replay(t + data).ring.Contents())|
         == Replay(t).evicted + |Flatten(Replay(t).ring.Contents() + Lines(Replay(t).pending + data))|
  {
    var d := Replay(t);
    Conservation(t);
    Conservation(t + data);
    WriteMovesRing(t, data);
    LinesRoundTrip(d.pending + data);
    FlattenAppend(d.ring.Contents(), Lines(d.pending + data));
    assert |Flatten(Lines(d.pending + data))| + |Tail(d.pending + data)| == |d.pending| + |data|;
    assert |t + data| == |t| + |data|;
  }

  lemma CounterMonotone(t: Bytes, data: Bytes)
    ensures Replay(t).evicted <= Replay(t + data).evicted
  {
    HistoryGrows(t, data);
    CounterIsEvicted(t);
    CounterIsEvicted(t + data);
  }

  /** Accepting bytes one at a time is the same as one write call in terms of lines. */
  lemma WriteIsRingAdds(t: Bytes, data: Bytes)
    ensures Replay(t + data) == WriteLines(Replay(t), data)
  {
    WriteMovesRing(t, data);
    WriteMovesCounter(t, data);
    CounterMonotone(t, data);
  }

  function WriteAll(d: Device, chunks: seq<Bytes>): Device
    requires d.ring.InRange()
    decreases |chunks|
  {
    if chunks == [] then d else WriteAll(WriteLines(d, chunks[0]), chunks[1..])
  }

  lemma {:induction false} WriteAllIsReplay(t: Bytes, chunks: seq<Bytes>)
    ensures WriteAll(Replay(t), chunks) == Replay(t + Flatten(chunks))
    decreases |chunks|
  {
    if chunks == [] {
      assert t + Flatten(chunks) == t;
    } else {
      var first, rest := chunks[0], chunks[1..];
      WriteIsRingAdds(t, first);
      WriteAllIsReplay(t + first, rest);
      PrependKeeps(t, first, Flatten(rest), Flatten(chunks));
    }
  }

  /** Chunking invariance: cutting data into write calls anywhere, also inside
      a line, leaves the same slots, indices, counter and pending bytes as one
      call with all of it, on every device reached by writes. */
  lemma ChunkingInvariance(t: Bytes, chunks: seq<Bytes>)
    ensures WriteAll(Replay(t), chunks) == WriteLines(Replay(t), Flatten(chunks))
  {
    WriteAllIsReplay(t, chunks);
    WriteIsRingAdds(t, Flatten(chunks));
  }

  // ---- What one system call may do ----

  /** At most `count` bytes of `s` from position `p` on; nothing past its end. */
  function Slice(s: Bytes, p: nat, count: nat): (r: Bytes)
    ensures |r| <= count
  {
    if p >= |s| then [] else if p + count <= |s| then s[p..p + count] else s[p..]
  }

  lemma SliceOfAppend(s: Bytes, more: Bytes, p: nat, count: nat)
    requires |s| <= p
    ensures Slice(s + more, p, count) == Slice(more, p - |s|, count)
  {
    var n := if p >= |s + more| then 0 else if p + count <= |s + more| then count else |s + more| - p;
    if n > 0 {
      assert (s + more)[p..p + n] == more[p - |s|..p - |s| + n];
    }
  }

  lemma SliceIs(s: Bytes, p: nat, count: nat, n: nat)
    requires p + n <= |s| && n <= count && (n == count || p + n == |s|)
    ensures Slice(s, p, count) == s[p..p + n]
  {
  }

  /** A write that returns `ret` turns history `t` into `t'`: an error accepts
      nothing, a count accepts exactly that many bytes, and a short count can
      only stop right after a newline. */
  predicate WriteOutcome(t: Bytes, data: Bytes, ret: int, t': Bytes) {
    || ((ret == -ENOMEM || ret == -EFAULT) && t' == t)
    || (0 <= ret <= |data| && t' == t + data[..ret] && (ret < |data| ==> ret > 0 && data[ret - 1] == NEWLINE))
  }

  /** The bytes `due` at position `p` are delivered, or lost in the copy to user
      space; either way the position moves past them. */
  predicate Delivery(due: Bytes, p: nat, ret: int, got: Bytes, p': nat) {
    && p' == p + |due|
    && if ret == -EFAULT then got == [] && due != [] else ret == |due| && got == due
  }

  /** A read at file position `pos` sees the committed bytes from `pos` on, or
      from the oldest live line when `pos` is older than that. A failed
      allocation still moves a stale position. */
  predicate ReadOutcome(t: Bytes, pos: nat, count: nat, ret: int, got: Bytes, pos': nat) {
    var p := Max(pos, |Evicted(t)|);
    if ret == -ENOMEM then got == [] && pos' == p
    else Delivery(Slice(Committed(t), p, count), p, ret, got, pos')
  }
}
