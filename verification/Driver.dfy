/** The AESD character device: `struct aesd_dev` and its file operations.

    The ghost field `history` is the string of all bytes accepted by writes. The
    invariant `Valid` says that the C state is the device that history leads to,
    and that every allocated buffer has exactly one owner.
 */
module AesdDriver {
  import opened ByteLines
  import opened RingSpec
  import opened KernelServices
  import opened DeviceSpec
  import opened CircularBuffer

  /** Who will free a buffer: a slot, the pending input, or the running call. */
  datatype Owner = Slot(i: nat) | Pending | Call

  class AesdDev {
    const kernel: Kernel
    const entry: array<BufferEntry>
    var currInput: BufferEntry
    var outOffs: U8
    var inOffs: U8
    var totalBytesEvicted: nat
    var full: bool

    ghost var history: Bytes
    ghost var owner: map<Buffer, Owner>
    ghost var leaked: set<Buffer>  // live buffers that nobody will ever free

    /** Entry `e` stores `bytes`; only an empty slot has no buffer. */
    static ghost predicate SlotHolds(e: BufferEntry, bytes: Bytes)
      reads e.buffptr
    {
      && e.size == |bytes|
      && (e.buffptr == null <==> bytes == [])
      && (e.buffptr != null ==> e.size <= e.buffptr.Length && e.buffptr[..e.size] == bytes)
    }

    /** `text` stands in `buf` at index `from`. */
    static ghost predicate HoldsAt(buf: Buffer, from: nat, text: Bytes)
      reads buf
    {
      from + |text| <= buf.Length && buf[from..from + |text|] == text
    }

    ghost function SlotBuffers(): set<array?<Byte>>
      reads entry
    {
      set i | 0 <= i < entry.Length :: entry[i].buffptr
    }

    /** The slots, indices, flag and counter are those of `d`. */
    ghost predicate Mirrors(d: Device)
      reads this`inOffs, this`outOffs, this`full, this`totalBytesEvicted, entry, SlotBuffers()
    {
      && entry.Length == CAPACITY
      && d.ring.InRange() && |d.ring.slots| == CAPACITY
      && inOffs == d.ring.inOffs && outOffs == d.ring.outOffs && full == d.ring.full
      && totalBytesEvicted == d.evicted
      && forall i :: 0 <= i < CAPACITY ==> SlotHolds(entry[i], d.ring.slots[i])
    }

    /** The pending input stores `bytes`; an empty one may still have a buffer. */
    ghost predicate PendingHolds(bytes: Bytes)
      reads this`currInput, currInput.buffptr
    {
      && currInput.size == |bytes|
      && (currInput.buffptr == null ==> bytes == [])
      && (currInput.buffptr != null ==>
            currInput.size <= currInput.buffptr.Length && currInput.buffptr[..currInput.size] == bytes)
    }

    /** Every live buffer has one owner or is leaked, and slot owners really hold theirs. */
    ghost predicate SlotsOwned()
      reads this`owner, this`leaked, entry, kernel`live, kernel`user
    {
      && entry.Length == CAPACITY
      && owner.Keys !! leaked && owner.Keys + leaked == kernel.live && kernel.user !! kernel.live
      && (forall i :: 0 <= i < CAPACITY && entry[i].buffptr != null ==>
            entry[i].buffptr in owner && owner[entry[i].buffptr] == Slot(i))
      && (forall b :: b in owner && owner[b].Slot? ==>
            owner[b].i < CAPACITY && entry[owner[b].i].buffptr == b)
    }

    /** `p` is the only buffer owned by the pending input, and `call` the only one
        of the running call. */
    ghost predicate PendingOwns(p: array?<Byte>, call: array?<Byte> := null)
      reads this`owner
    {
      && (p != null ==> p in owner && owner[p] == Pending)
      && (call != null ==> call in owner && owner[call] == Call)
      && (forall b :: b in owner ==> (owner[b] == Pending ==> b == p) && (owner[b] == Call ==> b == call))
    }

    /** The invariant while a call holds the buffer `call`. */
    ghost predicate ValidDuring(call: array?<Byte>)
      reads this, entry, kernel`live, kernel`user, SlotBuffers(), currInput.buffptr
    {
      && SlotsOwned()
      && PendingOwns(currInput.buffptr, call)
      && Mirrors(Replay(history))
      && PendingHolds(Replay(history).pending)
    }

    /** The invariant between calls. */
    ghost predicate Valid()
      reads this, entry, kernel`live, kernel`user, SlotBuffers(), currInput.buffptr
    {
      ValidDuring(null)
    }

    /** What ownership means for pointers: occupied slots and the pending input
        refer to pairwise different, live buffers. */
    lemma BuffersAreDistinct(i: nat, j: nat)
      requires Valid() && i < CAPACITY && j < CAPACITY
      ensures full || i < inOffs <==> entry[i].buffptr != null
      ensures entry[i].buffptr != null ==>
                && entry[i].buffptr in kernel.live && entry[i].buffptr != currInput.buffptr
                && (entry[i].buffptr == entry[j].buffptr ==> i == j)
      ensures currInput.buffptr != null ==> currInput.buffptr in kernel.live
    {
      SlotShape(history);
      assert SlotHolds(entry[i], Replay(history).ring.slots[i]);
    }

    /** The zeroed device of module initialisation. */
    constructor (kernel: Kernel)
      requires kernel.live == {}
      ensures this.kernel == kernel && fresh(entry) && Valid()
      ensures history == [] && leaked == {}
    {
      this.kernel := kernel;
      entry := new BufferEntry[CAPACITY](_ => BLANK);
      currInput := BLANK;
      outOffs, inOffs, totalBytesEvicted, full := 0, 0, 0, false;
      history, owner, leaked := [], map[], {};
    }

    /** All slots but `hole` are as in `d` and owned; nothing is owned by the
        slot `hole`, whatever its entry still points to. */
    ghost predicate SlotsBut(hole: nat, d: Device)
      reads this`owner, this`leaked, entry, kernel`live, kernel`user, SlotBuffers()
    {
      && entry.Length == CAPACITY && d.ring.InRange() && |d.ring.slots| == CAPACITY
      && owner.Keys !! leaked && owner.Keys + leaked == kernel.live && kernel.user !! kernel.live
      && (forall i :: 0 <= i < CAPACITY && i != hole ==>
            && SlotHolds(entry[i], d.ring.slots[i])
            && (entry[i].buffptr != null ==> entry[i].buffptr in owner && owner[entry[i].buffptr] == Slot(i)))
      && (forall b :: b in owner && owner[b].Slot? ==>
            owner[b].i < CAPACITY && owner[b].i != hole && entry[owner[b].i].buffptr == b)
    }

    /** Frees the oldest line of a full ring and steps the read index. */
    method EvictOldest(ghost d: Device, ghost pending: Buffer)
      requires SlotsOwned() && Mirrors(d) && full && inOffs == outOffs && PendingOwns(pending)
      modifies this`outOffs, this`totalBytesEvicted, this`owner, kernel`live
      ensures SlotsBut(inOffs, d) && PendingOwns(pending)
      ensures totalBytesEvicted == d.evicted + |d.ring.slots[inOffs]| && outOffs == (inOffs + 1) % CAPACITY
    {
      assert SlotHolds(entry[inOffs], d.ring.slots[inOffs]);
      totalBytesEvicted := totalBytesEvicted + entry[outOffs].size;
      kernel.Kfree(entry[outOffs].buffptr);
      owner := map b | b in owner && owner[b] != Slot(inOffs) :: owner[b];
      outOffs := (outOffs + 1) % CAPACITY;
    }

    /** Makes the slot at the write index free to take: a full ring gives up its
        oldest line, and a ring about to run out of slots becomes full. */
    method MakeRoom(newInOffs: U8, ghost d: Device, ghost after: Device, ghost line: Bytes, ghost pending: Buffer)
      requires SlotsOwned() && Mirrors(d) && d.ring.Valid()
      requires !full ==> d.ring.slots[inOffs] == []
      requires PendingOwns(pending) && newInOffs == (inOffs + 1) % CAPACITY
      requires after == CommitLine(d, line)
      modifies this`outOffs, this`full, this`totalBytesEvicted, this`owner, kernel`live
      ensures SlotsBut(inOffs, d) && PendingOwns(pending)
      ensures IndicesOf(after)
    {
      if full {
        EvictOldest(d, pending);
      } else {
        assert SlotHolds(entry[inOffs], []);
        if newInOffs == outOffs {
          full := true;
        }
      }
    }

    /** Everything of `d` but the slots and the write index. */
    ghost predicate IndicesOf(d: Device)
      reads this`outOffs, this`full, this`totalBytesEvicted
    {
      outOffs == d.ring.outOffs && full == d.ring.full && totalBytesEvicted == d.evicted
    }

    /** Hands `newBuf` to the slot at the write index. */
    method StoreEntry(newBuf: Buffer, size: nat, newInOffs: U8, ghost d: Device, ghost after: Device)
      requires inOffs < CAPACITY && SlotsBut(inOffs, d) && inOffs == d.ring.inOffs
      requires PendingOwns(newBuf) && 0 < size <= newBuf.Length
      requires after == CommitLine(d, newBuf[..size]) && IndicesOf(after) && newInOffs == (inOffs + 1) % CAPACITY
      modifies this`owner, this`inOffs, entry
      ensures SlotsOwned() && PendingOwns(null) && newBuf in owner
      ensures Mirrors(after)
    {
      entry[inOffs] := BufferEntry(newBuf, size);
      owner := owner[newBuf := Slot(inOffs)];
      inOffs := newInOffs;
    }

    /** The commit step of the write loop: evict the oldest line when full, then
        store `newBuf` as the newest. */
    method CommitEntry(newBuf: Buffer, size: nat, ghost d: Device, ghost after: Device)
      requires SlotsOwned() && Mirrors(d) && d.ring.Valid()
      requires !full ==> d.ring.slots[inOffs] == []
      requires PendingOwns(newBuf) && 0 < size <= newBuf.Length
      requires after == CommitLine(d, newBuf[..size])
      modifies this`inOffs, this`outOffs, this`full, this`totalBytesEvicted, this`owner, entry, kernel`live
      ensures SlotsOwned() && PendingOwns(null) && newBuf in owner
      ensures Mirrors(after)
    {
      var newInOffs := (inOffs + 1) % CAPACITY;
      MakeRoom(newInOffs, d, after, newBuf[..size], newBuf);
      StoreEntry(newBuf, size, newInOffs, d, after);
    }

    /** A buffer for the running call; allocation touches nothing else. */
    method AllocForCall(size: nat, ghost d: Device) returns (p: array?<Byte>)
      requires SlotsOwned() && Mirrors(d)
      modifies this`owner, kernel`live, kernel`allocFailures
      ensures SlotsOwned() && Mirrors(d)
      ensures p == null ==> owner == old(owner)
      ensures p != null ==> fresh(p) && p in kernel.live && p.Length == size && owner == old(owner)[p := Call]
      ensures kernel.allocFailures == old(kernel.allocFailures) + if p == null then 1 else 0
    {
      p := kernel.Kmalloc(size);
      if p != null {
        owner := owner[p := Call];
      }
    }

    /** The unread bytes become the pending input, in a buffer of their own; with
        no memory for that buffer, nothing is pending. */
    method CarryOver(oldBuf: Buffer, from: nat, remaining: nat, ghost rest: Bytes, ghost d: Device)
      returns (newBuf: array?<Byte>)
      requires SlotsOwned() && Mirrors(d) && PendingOwns(null)
      requires oldBuf in owner && |rest| == remaining && HoldsAt(oldBuf, from, rest)
      modifies this`currInput, this`owner, kernel`live, kernel`allocFailures
      ensures SlotsOwned() && Mirrors(d) && PendingOwns(newBuf)
      ensures newBuf == null ==> currInput == BLANK
      ensures newBuf != null ==>
                && fresh(newBuf) && newBuf.Length == remaining + 1
                && HoldsAt(newBuf, 0, rest) && currInput == BufferEntry(newBuf, remaining)
      ensures kernel.allocFailures == old(kernel.allocFailures) + if newBuf == null then 1 else 0
    {
      newBuf := AllocForCall(remaining + 1, d);
      if newBuf == null {
        currInput := BLANK;
      } else {
        CopyRest(newBuf, oldBuf, from, remaining, rest, d);
        AdoptPending(newBuf, remaining);
      }
    }

    method AdoptPending(newBuf: Buffer, size: nat)
      requires SlotsOwned() && PendingOwns(null, newBuf)
      modifies this`currInput, this`owner
      ensures SlotsOwned() && PendingOwns(newBuf) && currInput == BufferEntry(newBuf, size)
    {
      owner := owner[newBuf := Pending];
      currInput := BufferEntry(newBuf, size);
    }

    method CopyRest(newBuf: Buffer, oldBuf: Buffer, from: nat, remaining: nat, ghost rest: Bytes, ghost d: Device)
      requires SlotsOwned() && Mirrors(d) && newBuf in owner && owner[newBuf] == Call
      requires oldBuf in owner && oldBuf != newBuf && remaining <= newBuf.Length
      requires |rest| == remaining && HoldsAt(oldBuf, from, rest)
      modifies newBuf
      ensures SlotsOwned() && Mirrors(d) && HoldsAt(newBuf, 0, rest)
    {
      if remaining > 0 {
        kernel.Memcpy(newBuf, 0, oldBuf, from, remaining);
      }
    }

    /** After a newline: commit the line, then carry the unread bytes over. */
    method StartNextLine(oldBuf: Buffer, currSize: nat, remaining: nat,
                         ghost rest: Bytes, ghost d: Device, ghost after: Device)
      returns (newBuf: array?<Byte>)
      requires SlotsOwned() && Mirrors(d) && d.ring.Valid()
      requires !full ==> d.ring.slots[inOffs] == []
      requires PendingOwns(oldBuf) && currSize < oldBuf.Length
      requires after == CommitLine(d, oldBuf[..currSize + 1])
      requires |rest| == remaining && HoldsAt(oldBuf, currSize + 1, rest)
      modifies this`currInput, this`inOffs, this`outOffs, this`full, this`totalBytesEvicted, this`owner
      modifies entry, kernel`live, kernel`allocFailures
      ensures SlotsOwned() && Mirrors(after) && PendingOwns(newBuf)
      ensures newBuf == null ==> currInput == BLANK
      ensures newBuf != null ==>
                && fresh(newBuf) && newBuf.Length == remaining + 1
                && HoldsAt(newBuf, 0, rest) && currInput == BufferEntry(newBuf, remaining)
      ensures kernel.allocFailures == old(kernel.allocFailures) + if newBuf == null then 1 else 0
    {
      CommitEntry(oldBuf, currSize + 1, d, after);
      newBuf := CarryOver(oldBuf, currSize + 1, remaining, rest, after);
    }

    /** Frees a pending buffer that holds bytes; one that holds none is forgotten. */
    method DropPending(ghost newBuf: Buffer)
      requires SlotsOwned() && PendingOwns(currInput.buffptr, newBuf)
      requires currInput.size > 0 ==> currInput.buffptr != null
      modifies this`owner, this`leaked, kernel`live
      ensures SlotsOwned() && PendingOwns(null, newBuf)
      ensures leaked == old(leaked) + AbandonedBuffer()
    {
      if currInput.size > 0 {
        kernel.Kfree(currInput.buffptr);
        owner := owner - {currInput.buffptr};
      } else if currInput.buffptr != null {
        owner, leaked := owner - {currInput.buffptr}, leaked + {currInput.buffptr};
      }
    }

    /** The pending bytes, already copied to `newBuf`, now live there only. */
    method ReplacePending(newBuf: Buffer)
      requires SlotsOwned() && PendingOwns(currInput.buffptr, newBuf)
      requires currInput.size > 0 ==> currInput.buffptr != null
      modifies this`currInput, this`owner, this`leaked, kernel`live
      ensures SlotsOwned() && PendingOwns(newBuf)
      ensures currInput == BufferEntry(newBuf, old(currInput.size))
      ensures leaked == old(leaked) + old(AbandonedBuffer())
    {
      DropPending(newBuf);
      AdoptPending(newBuf, currInput.size);
    }

    method MovePending(newBuf: Buffer, ghost d: Device)
      requires SlotsOwned() && Mirrors(d) && PendingHolds(d.pending) && PendingOwns(currInput.buffptr, newBuf)
      requires currInput.size <= newBuf.Length
      modifies this`currInput, this`owner, this`leaked, kernel`live, newBuf
      ensures SlotsOwned() && Mirrors(d) && PendingHolds(d.pending) && PendingOwns(newBuf)
      ensures currInput == BufferEntry(newBuf, old(currInput.size))
      ensures leaked == old(leaked) + old(AbandonedBuffer())
    {
      if currInput.size > 0 {
        kernel.Memcpy(newBuf, 0, currInput.buffptr, 0, currInput.size);
      }
      ReplacePending(newBuf);
    }

    /** Replaces the pending buffer by one with room for `extra` more bytes. One
        that holds no bytes is replaced without being freed. */
    method GrowPending(extra: nat) returns (newBuf: array?<Byte>)
      requires Valid()
      modifies this`currInput, this`owner, this`leaked, kernel`live, kernel`allocFailures, kernel`copyFaults
      ensures Valid() && currInput.size == old(currInput.size)
      ensures newBuf == null ==> leaked == old(leaked)
      ensures newBuf != null ==>
                && fresh(newBuf) && newBuf == currInput.buffptr && newBuf.Length == currInput.size + extra
                && leaked == old(leaked) + old(AbandonedBuffer())
      ensures kernel.allocFailures == old(kernel.allocFailures) + if newBuf == null then 1 else 0
      ensures kernel.copyFaults == old(kernel.copyFaults)
    {
      newBuf := AllocForCall(currInput.size + extra, Replay(history));
      if newBuf != null {
        MovePending(newBuf, Replay(history));
      }
    }

    /** The pending buffer that the next write overwrites without freeing: the one
        left behind by a write that ended with a newline. (A write of no bytes with
        nothing pending leaves one of length zero, which occupies no memory.) */
    ghost function AbandonedBuffer(): set<Buffer>
      reads this
    {
      if currInput.size == 0 && currInput.buffptr != null then {currInput.buffptr} else {}
    }

    /** The start of a write: move the pending bytes to a buffer with room for the
        new ones and copy those in from user space. Returns 0 to go on. */
    method StageInput(ubuf: Buffer, count: nat) returns (ret: int, newBuf: array?<Byte>)
      requires Valid() && count <= ubuf.Length && ubuf in kernel.user
      modifies this`currInput, this`owner, this`leaked, kernel`live, kernel`allocFailures, kernel`copyFaults
      ensures Valid() && (ret == 0 || ret == -ENOMEM || ret == -EFAULT)
      ensures kernel.allocFailures == old(kernel.allocFailures) + if ret == -ENOMEM then 1 else 0
      ensures kernel.copyFaults == old(kernel.copyFaults) + if ret == -EFAULT then 1 else 0
      ensures ret == 0 ==>
                && newBuf != null && newBuf == currInput.buffptr
                && newBuf.Length == currInput.size + count && HoldsAt(newBuf, currInput.size, ubuf[..count])
      ensures leaked == old(leaked) + (if ret == -ENOMEM then {} else old(AbandonedBuffer()))
    {
      newBuf := GrowPending(count);
      if newBuf == null {
        return -ENOMEM, null;
      }
      ret := FillPending(newBuf, ubuf, count);
    }

    /** Copies the new bytes in behind the pending ones. */
    method FillPending(newBuf: Buffer, ubuf: Buffer, count: nat) returns (ret: int)
      requires Valid() && newBuf == currInput.buffptr && newBuf.Length == currInput.size + count
      requires count <= ubuf.Length && ubuf in kernel.user
      modifies newBuf, kernel`copyFaults
      ensures Valid() && (ret == 0 || ret == -EFAULT)
      ensures ret == 0 ==> HoldsAt(newBuf, currInput.size, ubuf[..count])
      ensures kernel.copyFaults == old(kernel.copyFaults) + if ret == -EFAULT then 1 else 0
    {
      var left := kernel.CopyFromUser(newBuf, currInput.size, ubuf, count);
      ret := if left > 0 then -EFAULT else 0;
    }

    /** The scan is at `currSize` in `buf`: before it stands the pending line, from
        it on stand the bytes not yet scanned. */
    ghost predicate Scanning(buf: Buffer, currSize: nat, rest: Bytes)
      reads this`history, buf
    {
      HoldsAt(buf, 0, Replay(history).pending) && |Replay(history).pending| == currSize && HoldsAt(buf, currSize, rest)
    }

    /** The newline case of one scan step. */
    method ScanNewline(buf: Buffer, currSize: nat, ghost rest: Bytes, remaining: nat) returns (next: array?<Byte>)
      requires SlotsOwned() && PendingOwns(buf) && Mirrors(Replay(history))
      requires |rest| == remaining + 1 && Scanning(buf, currSize, rest) && buf[currSize] == NEWLINE
      modifies this`currInput, this`inOffs, this`outOffs, this`full, this`totalBytesEvicted
      modifies this`owner, this`history, entry, kernel`live, kernel`allocFailures
      ensures history == old(history) + [rest[0]]
      ensures SlotsOwned() && PendingOwns(next) && Mirrors(Replay(history))
      ensures next == null ==> currInput == BLANK && rest[0] == NEWLINE && Replay(history).pending == []
      ensures next != null ==>
                && fresh(next) && next == currInput.buffptr && Scanning(next, 0, rest[1..])
      ensures kernel.allocFailures == old(kernel.allocFailures) + if next == null then 1 else 0
    {
      ghost var d := Replay(history);
      SlotShape(history);
      assert buf[currSize] == rest[0];
      assert buf[..currSize + 1] == d.pending + [NEWLINE];
      assert buf[currSize + 1..currSize + 1 + remaining] == rest[1..];
      ReplaySnoc(history, NEWLINE);
      history := history + [NEWLINE];
      next := StartNextLine(buf, currSize, remaining, rest[1..], d, Replay(history));
    }

    lemma ScanOrdinaryByte(buf: Buffer, currSize: nat, before: Bytes, rest: Bytes)
      requires rest != [] && rest[0] != NEWLINE
      requires HoldsAt(buf, 0, Replay(before).pending) && |Replay(before).pending| == currSize
      requires HoldsAt(buf, currSize, rest)
      requires history == before + [rest[0]]
      ensures Scanning(buf, currSize + 1, rest[1..])
      ensures Replay(history) == Replay(before).(pending := Replay(before).pending + [rest[0]])
    {
      ReplaySnoc(before, rest[0]);
      assert buf[currSize] == rest[0];
      assert buf[..currSize + 1] == buf[..currSize] + [rest[0]];
      assert buf[currSize + 1..currSize + 1 + |rest[1..]|] == rest[1..];
    }

    /** The state of the scan before each byte. */
    ghost predicate InScan(buf: Buffer, currSize: nat, rest: Bytes)
      reads this, entry, kernel`live, kernel`user, SlotBuffers(), buf
    {
      && SlotsOwned() && PendingOwns(buf) && buf == currInput.buffptr
      && Mirrors(Replay(history)) && Scanning(buf, currSize, rest)
    }

    /** Before byte `i` of `data`, written to a device with history `start`. */
    ghost predicate AtByte(i: nat, start: Bytes, data: Bytes, buf: Buffer, currSize: nat)
      reads this, entry, kernel`live, kernel`user, SlotBuffers(), buf
    {
      i <= |data| && history == start + data[..i] && InScan(buf, currSize, data[i..])
    }

    /** The other case: the byte joins the pending line where it stands. */
    ghost method ScanOrdinary(buf: Buffer, currSize: nat, rest: Bytes)
      requires InScan(buf, currSize, rest) && rest != [] && rest[0] != NEWLINE
      modifies this`history
      ensures history == old(history) + [rest[0]]
      ensures InScan(buf, currSize + 1, rest[1..])
    {
      var before := history;
      history := history + [rest[0]];
      ScanOrdinaryByte(buf, currSize, before, rest);
    }

    lemma NextByte(start: Bytes, data: Bytes, i: nat)
      requires i < |data|
      ensures start + data[..i + 1] == (start + data[..i]) + [data[i..][0]]
      ensures data[i..][0] == data[i] && data[i..][1..] == data[i + 1..]
    {
    }

    /** One scan step: byte `i` ends the line or joins it. */
    method ScanByte(buf: Buffer, currSize: nat, i: nat, count: nat, ghost start: Bytes, ghost data: Bytes)
      returns (next: array?<Byte>, nextSize: nat)
      requires i < count == |data| && AtByte(i, start, data, buf, currSize)
      modifies this`currInput, this`inOffs, this`outOffs, this`full, this`totalBytesEvicted
      modifies this`owner, this`history, entry, kernel`live, kernel`allocFailures
      ensures history == start + data[..i + 1]
      ensures next == null ==> Valid() && currInput == BLANK && Replay(history).pending == [] && data[i] == NEWLINE
      ensures next != null ==> AtByte(i + 1, start, data, next, nextSize)
      ensures kernel.allocFailures == old(kernel.allocFailures) + if next == null then 1 else 0
    {
      ghost var rest := data[i..];
      NextByte(start, data, i);
      assert buf[currSize] == rest[0];
      if buf[currSize] == NEWLINE {
        next := ScanNewline(buf, currSize, rest, count - i - 1);
        nextSize := 0;
      } else {
        ScanOrdinary(buf, currSize, rest);
        next, nextSize := buf, currSize + 1;
      }
    }

    /** Scans `count` staged bytes, committing a line at each newline. */
    method ScanInput(start: Buffer, count: nat, ghost data: Bytes) returns (ret: int)
      requires |data| == count && InScan(start, currInput.size, data)
      modifies this`currInput, this`inOffs, this`outOffs, this`full, this`totalBytesEvicted
      modifies this`owner, this`history, entry, kernel`live, kernel`allocFailures
      ensures Valid() && 0 <= ret <= count && history == old(history) + data[..ret]
      ensures ret < count ==> ret > 0 && data[ret - 1] == NEWLINE && Replay(history).pending == []
      ensures kernel.allocFailures == old(kernel.allocFailures) + if Unhurt(ret, count) then 0 else 1
    {
      var newBuf: Buffer, currSize: nat := start, currInput.size;
      assert data[0..] == data && history + data[..0] == history;
      for i := 0 to count
        invariant AtByte(i, old(history), data, newBuf, currSize)
        invariant kernel.allocFailures == old(kernel.allocFailures)
      {
        var next, nextSize := ScanByte(newBuf, currSize, i, count, old(history), data);
        if next == null {
          return i + 1;
        }
        newBuf, currSize := next, nextSize;
      }
      FinishScan(newBuf, currSize, old(history), data);
      ret := count;
    }

    /** What is left after the last newline stays pending. */
    method FinishScan(newBuf: Buffer, currSize: nat, ghost start: Bytes, ghost data: Bytes)
      requires AtByte(|data|, start, data, newBuf, currSize)
      modifies this`currInput
      ensures Valid() && currInput.buffptr == newBuf
    {
      currInput := BufferEntry(newBuf, currSize);
    }

    /** How a write ends that met no failure: all bytes are accepted, and there is a
        pending buffer (which a failed allocation after the last newline takes away). */
    ghost predicate Unhurt(ret: int, count: nat)
      reads this`currInput
    {
      ret == count && currInput.buffptr != null
    }

    /** The write operation. Its whole effect on the log is `WriteOutcome`: an
        error leaves it alone, a count appends exactly that many bytes, and only
        a failed allocation or user copy keeps it from accepting all of them. The
        one buffer it can leak is the idle pending buffer it found. */
    method Write(ubuf: Buffer, count: nat) returns (ret: int)
      requires Valid() && count <= ubuf.Length && ubuf in kernel.user
      modifies this, entry, kernel`live, kernel`allocFailures, kernel`copyFaults
      ensures Valid()
      ensures ret == -12 || ret == -14 || 0 <= ret <= count
      ensures WriteOutcome(old(history), ubuf[..count], ret, history)
      ensures 0 <= ret < count ==> Replay(history).pending == []
      ensures leaked == old(leaked) + (if ret == -12 then {} else old(AbandonedBuffer()))
      ensures kernel.Failures() == old(kernel.Failures()) + if Unhurt(ret, count) then 0 else 1
      ensures kernel.copyFaults == old(kernel.copyFaults) + if ret == -14 then 1 else 0
    {
      var stage, newBuf := StageInput(ubuf, count);
      if stage != 0 {
        return stage;
      }
      ret := ScanInput(newBuf, count, ubuf[..count]);
    }

    /** Read from the read index on, the ring holds `lines`. */
    ghost predicate HoldsLines(lines: seq<Bytes>)
      reads this`inOffs, this`outOffs, this`full, entry, SlotBuffers()
    {
      && entry.Length == CAPACITY
      && |lines| <= CAPACITY && outOffs < CAPACITY
      && inOffs == Wrap(CAPACITY, outOffs, |lines|)
      && (full <==> |lines| == CAPACITY) && (full || outOffs == 0)
      && forall k :: 0 <= k < |lines| ==> SlotHolds(entry[Wrap(CAPACITY, outOffs, k)], lines[k])
    }

    lemma ReadsAsLiveLines()
      requires Mirrors(Replay(history))
      ensures HoldsLines(LiveLines(history))
      ensures totalBytesEvicted == |Evicted(history)|
    {
      LiveSlots(history);
      CounterIsEvicted(history);
    }

    lemma SizeOfEntry(bufIndex: nat, lines: seq<Bytes>, k: nat)
      requires HoldsLines(lines) && k < |lines| && bufIndex == Wrap(CAPACITY, outOffs, k)
      ensures bufIndex < entry.Length && entry[bufIndex].size == |lines[k]|
    {
      assert SlotHolds(entry[bufIndex], lines[k]);
    }

    /** Slot and in-slot offset of the absolute position `fpos`, or CAPACITY when
        that position is evicted or not committed yet; a miss leaves the offset alone. */
    method FindEntryOffsetForFpos(fpos: nat, startIn: nat, ghost lines: seq<Bytes>) returns (slot: nat, start: nat)
      requires HoldsLines(lines)
      ensures fpos < totalBytesEvicted ==> slot == CAPACITY && start == startIn
      ensures fpos >= totalBytesEvicted ==>
                match Locate(Lengths(lines), fpos - totalBytesEvicted)
                case Some(at) => slot == Wrap(CAPACITY, outOffs, at.0) && start == at.1
                case None => slot == CAPACITY && start == startIn
    {
      if fpos < totalBytesEvicted {
        return CAPACITY, startIn;
      }
      var charOffset := fpos - totalBytesEvicted;
      ghost var sizes := Lengths(lines);
      var count := 0;
      var numEntries: U8 := if full then CAPACITY else ToU8(CRem(inOffs - outOffs, CAPACITY));
      assert numEntries == |lines|;
      for i := 0 to numEntries
        invariant count == Sum(sizes[..i]) && count <= charOffset
      {
        var currIndex := (outOffs + i) % CAPACITY;
        var currSize := entry[currIndex].size;
        SizeOfEntry(currIndex, lines, i);
        SumSnoc(sizes, i);
        if count + currSize > charOffset {
          LocateIs(sizes, i, charOffset - count, charOffset);
          return currIndex, charOffset - count;
        }
        count := count + currSize;
      }
      assert sizes[..numEntries] == sizes;
      LocateNone(sizes, charOffset);
      return CAPACITY, startIn;
    }

    /** The first `n` bytes of `buf` are those of `text` from `o` on. */
    static ghost predicate Gathered(buf: Buffer, n: nat, text: Bytes, o: nat)
      reads buf
    {
      n <= buf.Length && o + n <= |text| && buf[..n] == text[o..o + n]
    }

    /** Byte `start` of line `k` is at position `pos` of the lines laid end to end,
        or all lines are behind. */
    static ghost predicate ReadingAt(lines: seq<Bytes>, k: nat, start: nat, pos: nat) {
      && k <= |lines| && |Flatten(lines[..k])| + start == pos
      && if k < |lines| then start < |lines[k]| else start == 0
    }

    static lemma ReadToTheEnd(lines: seq<Bytes>, start: nat, pos: nat)
      requires ReadingAt(lines, |lines|, start, pos)
      ensures pos == |Flatten(lines)|
    {
      assert lines[..|lines|] == lines;
    }

    /** One memcpy of the read loop: `n` bytes of line `k` from `start` on extend
        what has been gathered of the lines laid end to end. */
    method CopyPart(kernelBuf: Buffer, bytesRead: nat, bufIndex: nat, start: nat, n: nat,
                    ghost lines: seq<Bytes>, ghost text: Bytes, ghost k: nat, ghost o: nat)
      requires HoldsLines(lines) && SlotsOwned() && text == Flatten(lines)
      requires kernelBuf in owner && owner[kernelBuf] == Call && bytesRead + n <= kernelBuf.Length
      requires k < |lines| && bufIndex == Wrap(CAPACITY, outOffs, k) && start + n <= |lines[k]|
      requires ReadingAt(lines, k, start, o + bytesRead) && Gathered(kernelBuf, bytesRead, text, o)
      modifies kernelBuf
      ensures HoldsLines(lines) && Gathered(kernelBuf, bytesRead + n, text, o)
    {
      assert SlotHolds(entry[bufIndex], lines[k]);
      ghost var line := entry[bufIndex].buffptr[..entry[bufIndex].size];
      kernel.Memcpy(kernelBuf, bytesRead, entry[bufIndex].buffptr, start, n);
      PartOfFlatten(lines, k, start, n);
      assert kernelBuf[bytesRead..bytesRead + n] == line[start..start + n];
      assert kernelBuf[..bytesRead + n] == kernelBuf[..bytesRead] + kernelBuf[bytesRead..bytesRead + n];
      assert text[o..o + bytesRead + n] == text[o..o + bytesRead] + text[o + bytesRead..o + bytesRead + n];
    }

    /** Copies all that is left of entry `bufIndex` and steps to the next. */
    method FinishEntry(kernelBuf: Buffer, bytesRead: nat, bufIndex: nat, start: nat, left: nat,
                       ghost lines: seq<Bytes>, ghost text: Bytes, ghost k: nat, ghost o: nat)
      returns (bytesRead': nat, bufIndex': nat)
      requires text == Flatten(lines)
      requires HoldsLines(lines) && SlotsOwned() && k < |lines| && bufIndex == Wrap(CAPACITY, outOffs, k)
      requires kernelBuf in owner && owner[kernelBuf] == Call && bytesRead + left <= kernelBuf.Length
      requires ReadingAt(lines, k, start, o + bytesRead) && Gathered(kernelBuf, bytesRead, text, o)
      requires left == |lines[k]| - start && forall i :: 0 <= i < |lines| ==> lines[i] != []
      modifies kernelBuf
      ensures bytesRead' == bytesRead + left && HoldsLines(lines) && Gathered(kernelBuf, bytesRead', text, o)
      ensures bufIndex' == Wrap(CAPACITY, outOffs, k + 1) && ReadingAt(lines, k + 1, 0, o + bytesRead')
    {
      CopyPart(kernelBuf, bytesRead, bufIndex, start, left, lines, text, k, o);
      bytesRead', bufIndex' := bytesRead + left, (bufIndex + 1) % CAPACITY;
      FlattenSplit(lines, k);
      WrapNext(CAPACITY, outOffs, k);
    }

    /** One turn of the read loop: copies what still fits of entry `bufIndex`. */
    method ReadEntry(kernelBuf: Buffer, count: nat, bytesRead: nat, bufIndex: nat, start: nat,
                     ghost lines: seq<Bytes>, ghost text: Bytes, ghost k: nat, ghost o: nat)
      returns (bytesRead': nat, bufIndex': nat, start': nat, done: bool)
      requires text == Flatten(lines)
      requires HoldsLines(lines) && SlotsOwned() && k < |lines| && bufIndex == Wrap(CAPACITY, outOffs, k)
      requires kernelBuf in owner && owner[kernelBuf] == Call && kernelBuf.Length == count > bytesRead
      requires ReadingAt(lines, k, start, o + bytesRead) && Gathered(kernelBuf, bytesRead, text, o)
      requires forall i :: 0 <= i < |lines| ==> lines[i] != []
      modifies kernelBuf
      ensures HoldsLines(lines) && Gathered(kernelBuf, bytesRead', text, o) && bytesRead' <= count
      ensures done ==> bytesRead' == count
      ensures !done ==> bufIndex' == Wrap(CAPACITY, outOffs, k + 1) && ReadingAt(lines, k + 1, start', o + bytesRead')
    {
      SizeOfEntry(bufIndex, lines, k);
      bufIndex', start' := bufIndex, start;
      var currentBufferSize := entry[bufIndex].size;
      var bytesLeftCurrEntry := currentBufferSize - start;
      if bytesRead + bytesLeftCurrEntry > count {
        CopyPart(kernelBuf, bytesRead, bufIndex, start, count - bytesRead, lines, text, k, o);
        bytesRead', done := count, true;
      } else if bytesRead + bytesLeftCurrEntry == count {
        bytesRead', bufIndex' :=
          FinishEntry(kernelBuf, bytesRead, bufIndex, start, bytesLeftCurrEntry, lines, text, k, o);
        done := true;
      } else {
        bytesRead', bufIndex' :=
          FinishEntry(kernelBuf, bytesRead, bufIndex, start, bytesLeftCurrEntry, lines, text, k, o);
        start', done := 0, false;
      }
    }

    /** `total_entries`: how many entries there are from `firstIndex` through the newest. */
    method CountEntries(firstIndex: nat, ghost lines: seq<Bytes>, ghost first: nat) returns (totalEntries: U8)
      requires HoldsLines(lines) && first < |lines| && firstIndex == Wrap(CAPACITY, outOffs, first)
      ensures totalEntries == |lines| - first
    {
      EntriesFrom(CAPACITY, inOffs, outOffs, |lines|, first);
      totalEntries := if full && firstIndex == inOffs then CAPACITY
                      else (inOffs - firstIndex + CAPACITY) % CAPACITY;
    }

    /** The two stop tests of the read loop. */
    method NothingLeft(bufIndex: nat, entriesRead: nat, totalEntries: nat, ghost lines: seq<Bytes>, ghost first: nat)
      returns (stop: bool)
      requires HoldsLines(lines) && first + entriesRead <= |lines| && totalEntries == |lines| - first
      requires bufIndex == Wrap(CAPACITY, outOffs, first + entriesRead)
      ensures stop <==> first + entriesRead == |lines|
    {
      StopTestsExact(CAPACITY, inOffs, outOffs, full, |lines|, first, entriesRead);
      if bufIndex == inOffs && !full {
        return true;
      }
      if entriesRead >= totalEntries {
        return true;
      }
      stop := false;
    }

    /** The read loop: gathers up to `count` bytes from entry `firstIndex` on, across
        entries and around the end of the array, and stops after the newest entry. */
    method GatherEntries(kernelBuf: Buffer, count: nat, firstIndex: nat, firstStart: nat,
                         ghost lines: seq<Bytes>, ghost text: Bytes, ghost first: nat, ghost o: nat)
      returns (bytesRead: nat)
      requires text == Flatten(lines)
      requires HoldsLines(lines) && SlotsOwned() && forall k :: 0 <= k < |lines| ==> lines[k] != []
      requires kernelBuf in owner && owner[kernelBuf] == Call && kernelBuf.Length == count
      requires first < |lines| && firstIndex == Wrap(CAPACITY, outOffs, first)
      requires ReadingAt(lines, first, firstStart, o) && o < |text|
      modifies kernelBuf
      ensures HoldsLines(lines) && Gathered(kernelBuf, bytesRead, text, o)
      ensures bytesRead == count || (bytesRead < count && o + bytesRead == |text|)
    {
      var bufIndex, start := firstIndex, firstStart;
      var entriesRead: nat := 0;
      ghost var k := first;  // the line being read
      var totalEntries := CountEntries(bufIndex, lines, first);
      bytesRead := 0;
      while bytesRead < count
        invariant k == first + entriesRead <= |lines| && bytesRead <= count
        invariant bufIndex == Wrap(CAPACITY, outOffs, k) && ReadingAt(lines, k, start, o + bytesRead)
        invariant HoldsLines(lines) && Gathered(kernelBuf, bytesRead, text, o)
        decreases |lines| - k
      {
        var stop := NothingLeft(bufIndex, entriesRead, totalEntries, lines, first);
        if stop {
          ReadToTheEnd(lines, start, o + bytesRead);
          break;
        }
        var done;
        bytesRead, bufIndex, start, done :=
          ReadEntry(kernelBuf, count, bytesRead, bufIndex, start, lines, text, k, o);
        entriesRead, k := entriesRead + 1, k + 1;
        if done {
          break;
        }
      }
    }

    /** The lookup as the read operation uses it: where reading `lines` starts. */
    method StartReading(p: nat, ghost lines: seq<Bytes>)
      returns (found: bool, slot: nat, start: nat, ghost first: nat)
      requires HoldsLines(lines) && p >= totalBytesEvicted
      ensures found <==> p - totalBytesEvicted < |Flatten(lines)|
      ensures found ==> && first < |lines| && slot == Wrap(CAPACITY, outOffs, first)
                        && ReadingAt(lines, first, start, p - totalBytesEvicted)
    {
      slot, start := FindEntryOffsetForFpos(p, 0, lines);
      found := slot != CAPACITY;
      ghost var at := Locate(Lengths(lines), p - totalBytesEvicted);
      LocateReadsTheByte(lines, p - totalBytesEvicted);
      first := if at.Some? then at.value.0 else 0;
    }

    /** The lookup and the read loop together: the bytes of `lines` due at position `p`. */
    method FetchLines(p: nat, kernelBuf: Buffer, count: nat,
                      ghost lines: seq<Bytes>, ghost text: Bytes, ghost due: Bytes)
      returns (found: bool, bytesRead: nat)
      requires HoldsLines(lines) && SlotsOwned() && text == Flatten(lines)
      requires p >= totalBytesEvicted && due == Slice(text, p - totalBytesEvicted, count)
      requires forall k :: 0 <= k < |lines| ==> lines[k] != []
      requires kernelBuf in owner && owner[kernelBuf] == Call && kernelBuf.Length == count
      modifies kernelBuf
      ensures bytesRead == |due| <= count && HoldsAt(kernelBuf, 0, due) && (!found ==> due == [])
    {
      var slot, start;
      ghost var first;
      found, slot, start, first := StartReading(p, lines);
      if !found {
        return false, 0;
      }
      ghost var o := p - totalBytesEvicted;
      bytesRead := GatherEntries(kernelBuf, count, slot, start, lines, text, first, o);
      SliceIs(text, o, count, bytesRead);
    }

    /** What a caller that got `ret` may take from its buffer. */
    static ghost function Received(ubuf: Buffer, ret: int): Bytes
      reads ubuf
    {
      if 0 <= ret <= ubuf.Length then ubuf[..ret] else []
    }

    /** The first `m` bytes of `due` replace those of `before`; the rest is left alone. */
    static ghost predicate Overwritten(before: Bytes, after: Bytes, due: Bytes, m: nat) {
      m <= |due| && m <= |before| && after == due[..m] + before[m..]
    }

    /** What a read that returns `ret` does to the caller's buffer: a failed copy may
        have brought over a beginning of the bytes due, a failed allocation nothing. */
    static ghost predicate Refilled(before: Bytes, after: Bytes, due: Bytes, ret: int) {
      if ret == -EFAULT then exists m: nat :: m < |due| && Overwritten(before, after, due, m)
      else if ret < 0 then after == before
      else Overwritten(before, after, due, ret)
    }

    /** It leaves alone what is behind the delivered bytes, and what is behind `count`. */
    lemma RefilledFrame(before: Bytes, after: Bytes, due: Bytes, ret: int, count: nat)
      requires Refilled(before, after, due, ret) && |due| <= count <= |before| == |after|
      ensures after[count..] == before[count..]
      ensures ret >= 0 ==> ret <= count && after[ret..] == before[ret..]
    {
    }

    /** Fetches the bytes due and copies them to user space. */
    method DeliverLines(p: nat, kernelBuf: Buffer, ubuf: Buffer, count: nat, ghost lines: seq<Bytes>, ghost due: Bytes)
      returns (ret: int, p': nat)
      requires HoldsLines(lines) && SlotsOwned() && forall k :: 0 <= k < |lines| ==> lines[k] != []
      requires p >= totalBytesEvicted && due == Slice(Flatten(lines), p - totalBytesEvicted, count)
      requires kernelBuf in owner && owner[kernelBuf] == Call && kernelBuf.Length == count
      requires count <= ubuf.Length && ubuf in kernel.user
      modifies kernelBuf, ubuf, kernel`copyFaults, kernel`delivered
      ensures ret <= count && Delivery(due, p, ret, Received(ubuf, ret), p')
      ensures Refilled(old(ubuf[..]), ubuf[..], due, ret)
      ensures kernel.copyFaults == old(kernel.copyFaults) + if ret == -EFAULT then 1 else 0
      ensures kernel.delivered == old(kernel.delivered) + Received(ubuf, ret)
    {
      var found, bytesRead := FetchLines(p, kernelBuf, count, lines, Flatten(lines), due);
      ret, p' := bytesRead, p + bytesRead;
      if found {
        ret := CopyOut(kernelBuf, ubuf, bytesRead, due);
      } else {
        assert Received(ubuf, 0) == [];
      }
    }

    method CopyOut(kernelBuf: Buffer, ubuf: Buffer, n: nat, ghost due: Bytes) returns (ret: int)
      requires kernelBuf in kernel.live && kernelBuf != ubuf && n <= ubuf.Length && n == |due|
      requires HoldsAt(kernelBuf, 0, due)
      modifies ubuf, kernel`copyFaults, kernel`delivered
      ensures if ret == -EFAULT then due != [] else ret == n && Received(ubuf, ret) == due
      ensures Refilled(old(ubuf[..]), ubuf[..], due, ret)
      ensures kernel.copyFaults == old(kernel.copyFaults) + if ret == -EFAULT then 1 else 0
      ensures kernel.delivered == old(kernel.delivered) + Received(ubuf, ret)
    {
      var left := kernel.CopyToUser(ubuf, kernelBuf, n);
      assert kernelBuf[..n] == due;
      assert Overwritten(old(ubuf[..]), ubuf[..], due, n - left);
      ret := if left > 0 then -EFAULT else n;
    }

    /** The same for the live lines of the device, which it leaves as they are. */
    method Deliver(p: nat, kernelBuf: Buffer, ubuf: Buffer, count: nat, ghost due: Bytes) returns (ret: int, p': nat)
      requires ValidDuring(kernelBuf) && kernelBuf.Length == count
      requires p >= totalBytesEvicted && due == Slice(Committed(history), p, count)
      requires count <= ubuf.Length && ubuf in kernel.user
      modifies kernelBuf, ubuf, kernel`copyFaults, kernel`delivered
      ensures ValidDuring(kernelBuf)
      ensures ret <= count && Delivery(due, p, ret, Received(ubuf, ret), p')
      ensures Refilled(old(ubuf[..]), ubuf[..], due, ret)
      ensures kernel.copyFaults == old(kernel.copyFaults) + if ret == -EFAULT then 1 else 0
      ensures kernel.delivered == old(kernel.delivered) + Received(ubuf, ret)
    {
      ReadsAsLiveLines();
      LiveLinesAreLines(history);
      DueBytes(history, p, count);
      ret, p' := DeliverLines(p, kernelBuf, ubuf, count, LiveLines(history), due);
    }

    /** The read operation, described by `ReadOutcome`: across any number of slots
        and around the end of the array it delivers the committed bytes at the
        position. Only a failed allocation or user copy makes it fail, and it
        leaves every buffer of the device as it was. Of the caller's buffer it
        touches no more than the bytes it delivers. */
    method Read(ubuf: Buffer, count: nat, fpos: nat) returns (ret: int, fpos': nat)
      requires Valid() && count <= ubuf.Length && ubuf in kernel.user
      modifies ubuf, kernel`live, kernel`allocFailures, kernel`copyFaults, kernel`delivered, this`owner
      ensures Valid() && owner == old(owner) && kernel.live == old(kernel.live)
      ensures ret == -12 || ret == -14 || 0 <= ret <= count
      ensures ReadOutcome(history, fpos, count, ret, Received(ubuf, ret), fpos')
      ensures Refilled(old(ubuf[..]), ubuf[..], Slice(Committed(history), Max(fpos, |Evicted(history)|), count), ret)
      ensures ubuf[count..] == old(ubuf[count..])
      ensures ret >= 0 ==> ubuf[ret..] == old(ubuf[ret..])
      ensures ret == -12 ==> ubuf[..] == old(ubuf[..])
      ensures kernel.allocFailures == old(kernel.allocFailures) + if ret == -12 then 1 else 0
      ensures kernel.copyFaults == old(kernel.copyFaults) + if ret == -14 then 1 else 0
      ensures kernel.delivered == old(kernel.delivered) + Received(ubuf, ret)
    {
      CounterIsEvicted(history);
      fpos' := fpos;
      if fpos' < totalBytesEvicted {
        fpos' := totalBytesEvicted;
      }
      var kernelBuf := AllocScratch(count);
      if kernelBuf == null {
        return -ENOMEM, fpos';
      }
      ghost var due := Slice(Committed(history), fpos', count);
      ret, fpos' := Deliver(fpos', kernelBuf, ubuf, count, due);
      RefilledFrame(old(ubuf[..]), ubuf[..], due, ret, count);
      FreeForCall(kernelBuf, old(owner), old(kernel.live));
    }

    /** Allocation for a call that only reads the device. */
    method AllocScratch(size: nat) returns (p: array?<Byte>)
      requires Valid()
      modifies this`owner, kernel`live, kernel`allocFailures
      ensures ValidDuring(p)
      ensures if p == null then owner == old(owner) && kernel.live == old(kernel.live)
              else fresh(p) && p.Length == size && p !in old(owner)
                   && owner == old(owner)[p := Call] && kernel.live == old(kernel.live) + {p}
      ensures kernel.allocFailures == old(kernel.allocFailures) + if p == null then 1 else 0
    {
      p := AllocForCall(size, Replay(history));
    }

    /** Gives back the buffer of the running call: the owners are `before` again. */
    method FreeForCall(p: Buffer, ghost before: map<Buffer, Owner>, ghost liveBefore: set<Buffer>)
      requires ValidDuring(p) && p !in before && owner == before[p := Call]
      requires p !in liveBefore && kernel.live == liveBefore + {p}
      modifies kernel`live, this`owner
      ensures Valid() && owner == before && kernel.live == liveBefore
    {
      kernel.Kfree(p);
      owner := before;
    }

    /** In a ring that is not full only the slots before the write index own buffers. */
    lemma OwnedSlotsAreUsed()
      requires Valid() && !full
      ensures outOffs == 0 && forall b :: b in owner && owner[b].Slot? ==> owner[b].i < inOffs
    {
      SlotShape(history);
      forall b | b in owner && owner[b].Slot?
        ensures owner[b].i < inOffs
      {
        assert SlotHolds(entry[owner[b].i], Replay(history).ring.slots[owner[b].i]);
      }
    }

    /** Module teardown. Each slot buffer and the pending buffer is live when it is
        freed, and afterwards exactly the leaked buffers are still allocated. */
    method FreeAll()
      requires Valid()
      modifies kernel`live
      ensures kernel.live == leaked
    {
      if full {
        FreeEverySlot();
      } else {
        OwnedSlotsAreUsed();
        FreeUsedSlots();
      }
      kernel.Kfree(currInput.buffptr);
    }

    method FreeEverySlot()
      requires SlotsOwned()
      modifies kernel`live
      ensures RemainFrom(CAPACITY)
    {
      for i := 0 to CAPACITY
        invariant RemainFrom(i)
      {
        FreeSlot(i);
      }
    }

    method FreeUsedSlots()
      requires SlotsOwned() && outOffs == 0 && inOffs < CAPACITY
      modifies kernel`live
      ensures RemainFrom(inOffs)
    {
      var i: nat := outOffs;
      while i != inOffs
        invariant i <= inOffs && RemainFrom(i)
        decreases inOffs - i
      {
        FreeSlot(i);
        i := (i + 1) % CAPACITY;
      }
    }

    /** Of the owned buffers, those of the slots before `i` are freed. */
    ghost predicate RemainFrom(i: nat)
      reads this`owner, this`leaked, kernel`live
    {
      && owner.Keys !! leaked
      && kernel.live == leaked + set b | b in owner && (owner[b].Slot? ==> owner[b].i >= i)
    }

    method FreeSlot(i: nat)
      requires i < CAPACITY && RemainFrom(i) && entry.Length == CAPACITY
      requires forall b :: b in owner && owner[b].Slot? ==> owner[b].i < CAPACITY && entry[owner[b].i].buffptr == b
      requires entry[i].buffptr != null ==> entry[i].buffptr in owner && owner[entry[i].buffptr] == Slot(i)
      modifies kernel`live
      ensures RemainFrom(i + 1)
    {
      kernel.Kfree(entry[i].buffptr);
    }
  }

  /** In terms of the live lines, what is due at `p` starts right after the evicted bytes. */
  lemma DueBytes(t: Bytes, p: nat, count: nat)
    requires p >= |Evicted(t)|
    ensures Slice(Committed(t), p, count) == Slice(Live(t), p - |Evicted(t)|, count)
  {
    var gone, live := Evicted(t), Live(t);
    assert Committed(t) == gone + live by { CommittedSplits(t); }
    SliceOfAppend(gone, live, p, count);
  }

  /** A one-line write to a device with nothing pending leaves an idle buffer behind. */
  method WriteEmptyLine(dev: AesdDev, ubuf: Buffer)
    requires dev.Valid() && Tail(dev.history) == []
    requires ubuf in dev.kernel.user && ubuf[..] == [NEWLINE]
    modifies dev, dev.entry, dev.kernel`live, dev.kernel`allocFailures, dev.kernel`copyFaults
    ensures dev.Valid() && Tail(dev.history) == []
    ensures dev.kernel.allocFailures >= old(dev.kernel.allocFailures)
    ensures dev.kernel.copyFaults >= old(dev.kernel.copyFaults)
    ensures dev.kernel.allocFailures == old(dev.kernel.allocFailures)
            && dev.kernel.copyFaults == old(dev.kernel.copyFaults)
            ==> dev.AbandonedBuffer() != {}
                && old(dev.AbandonedBuffer()) <= dev.leaked
  {
    ghost var before := dev.history;
    var ret := dev.Write(ubuf, 1);
    assert ubuf[..1] == [NEWLINE];
    LinesSnoc(before, NEWLINE);
    ReplayIsRingOfLines(dev.history);
  }

  /** Unloading does not always free everything: after two one-line writes the
      buffer that the first one left idle is still allocated. */
  method TwoLinesLeak(kernel: Kernel)
    requires kernel.live == {}
    modifies kernel
    ensures kernel.allocFailures == old(kernel.allocFailures) && kernel.copyFaults == old(kernel.copyFaults)
            ==> kernel.live != {}
  {
    var dev := new AesdDev(kernel);
    var ubuf := new Byte[1](_ => NEWLINE);
    kernel.MapUser(ubuf);
    assert ubuf[..] == [NEWLINE];
    WriteEmptyLine(dev, ubuf);
    ghost var idle := dev.AbandonedBuffer();
    WriteEmptyLine(dev, ubuf);
    dev.FreeAll();
    assert idle <= kernel.live || kernel.allocFailures > old(kernel.allocFailures)
           || kernel.copyFaults > old(kernel.copyFaults);
  }
}
