/** The stand-alone circular buffer of aesd-circular-buffer.c.

    Memory referenced by an entry belongs to the caller, so entries are only
    stored and measured here.
 */
module CircularBuffer {
  import opened ByteLines
  import opened RingSpec

  datatype BufferEntry = BufferEntry(buffptr: array?<Byte>, size: nat)

  const BLANK: BufferEntry := BufferEntry(null, 0)

  function Sizes(es: seq<BufferEntry>): (ns: seq<nat>)
    ensures |ns| == |es| && forall i :: 0 <= i < |es| ==> ns[i] == es[i].size
  {
    seq(|es|, i requires 0 <= i < |es| => es[i].size)
  }

  class CircularBuffer {
    const entry: array<BufferEntry>
    var inOffs: U8
    var outOffs: U8
    var full: bool

    ghost function View(): Ring<BufferEntry>
      reads this, entry
    {
      Ring(entry[..], inOffs, outOffs, full)
    }

    constructor ()
      ensures fresh(entry) && View() == EmptyRing(CAPACITY, BLANK)
    {
      entry := new BufferEntry[CAPACITY](_ => BLANK);
      inOffs, outOffs, full := 0, 0, false;
      new;
      assert entry[..] == EmptyRing(CAPACITY, BLANK).slots;
    }

    /** Clears the whole struct. */
    method Init()
      requires entry.Length == CAPACITY
      modifies this, entry
      ensures View() == EmptyRing(CAPACITY, BLANK)
    {
      forall i | 0 <= i < entry.Length {
        entry[i] := BLANK;
      }
      inOffs, outOffs, full := 0, 0, false;
      assert entry[..] == EmptyRing(CAPACITY, BLANK).slots;
    }

    /** On every buffer reached from a fresh one this keeps exactly the last ten entries. */
    method AddEntry(addEntry: BufferEntry)
      requires entry.Length == CAPACITY && View().Valid()
      modifies this, entry
      ensures View() == old(View()).Add(addEntry)
      ensures View().Valid()
      ensures View().Contents() == LastN(old(View().Contents()) + [addEntry], CAPACITY)
    {
      ghost var before := View();
      var writeIndex := inOffs;
      var newWriteIndex := (writeIndex + 1) % CAPACITY;
      entry[writeIndex] := addEntry;
      inOffs := newWriteIndex;
      if full {
        outOffs := newWriteIndex;
      } else if newWriteIndex == outOffs {
        full := true;
      }
      assert View() == before.Add(addEntry);
      AddKeepsLast(before, addEntry);
    }

    /** Finds the entry and in-entry offset of position `charOffset` in the live
        entries laid end to end; `at` keeps its old value on a miss. */
    method FindEntryOffsetForFpos(charOffset: nat, atIn: nat) returns (slot: Option<nat>, at: nat)
      requires entry.Length == CAPACITY && View().Valid()
      ensures match Locate(Sizes(View().Contents()), charOffset)
              case Some(pos) => slot == Some(View().SlotOf(pos.0)) && at == pos.1
              case None => slot == None && at == atIn
    {
      ghost var sizes := Sizes(View().Contents());
      var count := 0;
      var numEntries: U8 := if full then CAPACITY else ToU8(CRem(inOffs - outOffs, CAPACITY));
      NumEntriesExact(View());
      for i := 0 to numEntries
        invariant count == Sum(sizes[..i]) && count <= charOffset
      {
        var currIndex := (outOffs + i) % CAPACITY;
        var currSize := entry[currIndex].size;
        SumSnoc(sizes, i);
        if count + currSize > charOffset {
          LocateIs(sizes, i, charOffset - count, charOffset);
          return Some(currIndex), charOffset - count;
        }
        count := count + currSize;
      }
      assert sizes[..numEntries] == sizes;
      LocateNone(sizes, charOffset);
      return None, atIn;
    }
  }

  /** After any adds to a fresh buffer, where entry `i` refers to the bytes
      `strings[i]`: the lookup of `o` names the byte at position `o` of the last
      ten entries laid end to end, and misses exactly from their end on. */
  lemma LookupAfterAdds(es: seq<BufferEntry>, strings: seq<Bytes>, o: nat)
    requires |strings| == |es| && forall i :: 0 <= i < |es| ==> |strings[i]| == es[i].size
    ensures EmptyRing(CAPACITY, BLANK).AddAll(es).Valid()
    ensures var live := LastN(strings, CAPACITY);
            match Locate(Sizes(EmptyRing(CAPACITY, BLANK).AddAll(es).Contents()), o)
            case None => |Flatten(live)| <= o
            case Some(pos) => pos.0 < |live| && pos.1 < |live[pos.0]| && o < |Flatten(live)|
                              && Flatten(live)[o] == live[pos.0][pos.1]
  {
    FreshRingIndices(CAPACITY, BLANK, es);
    FreshRingReads(CAPACITY, BLANK, es);
    var live := LastN(strings, CAPACITY);
    assert Sizes(LastN(es, CAPACITY)) == Lengths(live);
    LocateReadsTheByte(live, o);
  }
}
