/** The ring shared by the stand-alone circular buffer and the driver: slots, two
    indices and a full flag, exactly as both structs keep them. Both have ten slots;
    what is stated here holds for any number of slots from 1 to 127.
 */
module RingSpec {
  import opened ByteLines

  const CAPACITY: nat := 10
  const MAX_CAPACITY: nat := 127

  type U8 = x: int | 0 <= x < 256

  /** C's remainder: it truncates toward zero, so it takes the sign of `a`. */
  function CRem(a: int, b: int): int
    requires b > 0
  {
    if a >= 0 then a % b else -((-a) % b)
  }

  /** Conversion to uint8_t keeps the low eight bits. */
  function ToU8(x: int): U8 {
    x % 256
  }

  lemma Remainder(x: nat, cap: nat)
    requires x < 2 * cap
    ensures x % cap == if x < cap then x else x - cap
  {
    if x >= cap {
      assert x / cap == 1;
    }
  }

  /** The slot `k` steps after slot `from`. */
  function Wrap(cap: nat, from: nat, k: nat): nat
    requires cap > 0
  {
    (from + k) % cap
  }

  lemma WrapNext(cap: nat, from: nat, k: nat)
    requires from < cap && k < cap
    ensures Wrap(cap, from, k) < cap
    ensures (Wrap(cap, from, k) + 1) % cap == Wrap(cap, from, k + 1)
  {
    Remainder(from + k, cap);
    Remainder(Wrap(cap, from, k) + 1, cap);
    if from + k + 1 < 2 * cap {
      Remainder(from + k + 1, cap);
    }
  }

  /** Entries from the `first`-th oldest through the newest, as the read loop
      computes it from the slot of the first and the write index. */
  lemma EntriesFrom(cap: nat, inOffs: nat, outOffs: nat, n: nat, first: nat)
    requires outOffs < cap && first < n <= cap && inOffs == Wrap(cap, outOffs, n)
    ensures n - first == if n == cap && Wrap(cap, outOffs, first) == inOffs then cap
                         else (inOffs - Wrap(cap, outOffs, first) + cap) % cap
  {
    Remainder(outOffs + n, cap);
    Remainder(outOffs + first, cap);
    Remainder(inOffs - Wrap(cap, outOffs, first) + cap, cap);
  }

  /** The two stop tests of the read loop, after `done` entries from the
      `first`-th oldest on: one of them fires exactly when no entry is left. */
  lemma StopTestsExact(cap: nat, inOffs: nat, outOffs: nat, full: bool, n: nat, first: nat, done: nat)
    requires outOffs < cap && first + done <= n <= cap && inOffs == Wrap(cap, outOffs, n)
    requires (full <==> n == cap) && (full || outOffs == 0)
    ensures (Wrap(cap, outOffs, first + done) == inOffs && !full) || done >= n - first <==> first + done == n
  {
    Remainder(outOffs + n, cap);
    Remainder(outOffs + first + done, cap);
  }

  datatype Ring<E> = Ring(slots: seq<E>, inOffs: nat, outOffs: nat, full: bool) {

    predicate InRange() {
      |slots| <= MAX_CAPACITY && inOffs < |slots| && outOffs < |slots|
    }

    /** What every reachable ring satisfies. */
    predicate Valid() {
      && InRange()
      && (full ==> inOffs == outOffs)
      && (!full ==> outOffs == 0)
    }

    /** The number of stored entries: the distance from the read index to the
        write index around the ring, or all slots when full. */
    function Count(): nat
      requires InRange()
    {
      if full then |slots| else (inOffs - outOffs + |slots|) % |slots|
    }

    /** `num_entries` as both find routines compute it. */
    function NumEntries(): U8
      requires InRange()
    {
      if full then |slots| else ToU8(CRem(inOffs - outOffs, |slots|))
    }

    /** The slot holding the `k`-th oldest entry. */
    function SlotOf(k: nat): nat
      requires InRange()
    {
      Wrap(|slots|, outOffs, k)
    }

    /** The stored entries, oldest first. */
    function Contents(): (s: seq<E>)
      requires InRange()
      ensures |s| == Count()
      ensures forall k :: 0 <= k < Count() ==> SlotOf(k) < |slots| && s[k] == slots[SlotOf(k)]
    {
      seq(Count(), k requires 0 <= k < Count() => slots[SlotOf(k)])
    }

    /** The add-entry routine: when full, the read index becomes the new write index. */
    function Add(e: E): (r: Ring<E>)
      requires InRange()
      ensures r.InRange() && |r.slots| == |slots|
    {
      var next := (inOffs + 1) % |slots|;
      Ring(slots[inOffs := e], next,
           if full then next else outOffs,
           full || next == outOffs)
    }

    /** The write path of the driver: when full, the read index steps by one by itself. */
    function Commit(e: E): (r: Ring<E>)
      requires InRange()
      ensures r.InRange() && |r.slots| == |slots|
    {
      var next := (inOffs + 1) % |slots|;
      Ring(slots[inOffs := e], next,
           if full then (outOffs + 1) % |slots| else outOffs,
           full || next == outOffs)
    }

    function AddAll(es: seq<E>): (r: Ring<E>)
      requires InRange()
      ensures r.InRange() && |r.slots| == |slots|
    {
      if es == [] then this else AddAll(es[..|es| - 1]).Add(es[|es| - 1])
    }
  }

  function EmptyRing<E>(cap: nat, blank: E): (r: Ring<E>)
    ensures 0 < cap <= MAX_CAPACITY ==> r.Valid()
  {
    Ring(seq(cap, _ => blank), 0, 0, false)
  }

  /** On a valid ring the slots and the count without remainders. */
  lemma SlotsInOrder<E>(r: Ring<E>)
    requires r.Valid()
    ensures r.Count() == if r.full then |r.slots| else r.inOffs
    ensures forall k :: 0 <= k < |r.slots| ==>
              r.SlotOf(k) == if r.outOffs + k < |r.slots| then r.outOffs + k else r.outOffs + k - |r.slots|
  {
    if !r.full {
      Remainder(r.inOffs + |r.slots|, |r.slots|);
    }
    forall k | 0 <= k < |r.slots|
      ensures r.SlotOf(k) == if r.outOffs + k < |r.slots| then r.outOffs + k else r.outOffs + k - |r.slots|
    {
      Remainder(r.outOffs + k, |r.slots|);
    }
  }

  /** The write index stands right behind the newest entry. */
  lemma ContentsBySlot<E>(r: Ring<E>)
    requires r.Valid()
    ensures r.inOffs == Wrap(|r.slots|, r.outOffs, |r.Contents()|)
    ensures r.full <==> |r.Contents()| == |r.slots|
    ensures forall k :: 0 <= k < |r.Contents()| ==>
              && Wrap(|r.slots|, r.outOffs, k) < |r.slots|
              && r.slots[Wrap(|r.slots|, r.outOffs, k)] == r.Contents()[k]
  {
    SlotsInOrder(r);
    Remainder(r.outOffs + |r.Contents()|, |r.slots|);
    forall k | 0 <= k < |r.Contents()|
      ensures Wrap(|r.slots|, r.outOffs, k) < |r.slots|
      ensures r.slots[Wrap(|r.slots|, r.outOffs, k)] == r.Contents()[k]
    {
      assert r.SlotOf(k) == Wrap(|r.slots|, r.outOffs, k);
    }
  }

  lemma CRemainderOfDistance(cap: nat, inOffs: nat, outOffs: nat)
    requires inOffs < cap <= MAX_CAPACITY && outOffs < cap
    ensures ToU8(CRem(inOffs - outOffs, cap)) == (inOffs - outOffs + cap) % cap <==> outOffs <= inOffs
    ensures outOffs > inOffs ==> ToU8(CRem(inOffs - outOffs, cap)) == 256 - (outOffs - inOffs)
  {
    Remainder(inOffs - outOffs + cap, cap);
    if inOffs < outOffs {
      var gap := outOffs - inOffs;
      Remainder(gap, cap);
      assert ToU8(-gap) == 256 - gap;
    } else {
      Remainder(inOffs - outOffs, cap);
    }
  }

  /** The C expression counts the entries of a ring that is not full exactly
      when the write index has not wrapped below the read index. */
  lemma NumEntriesExact<E>(r: Ring<E>)
    requires r.InRange()
    ensures r.NumEntries() == r.Count() <==> r.full || r.outOffs <= r.inOffs
  {
    CRemainderOfDistance(|r.slots|, r.inOffs, r.outOffs);
  }

  /** The two add paths agree exactly on rings whose full flag pins the indices together. */
  lemma CommitIsAdd<E>(r: Ring<E>, e: E)
    requires r.InRange()
    ensures r.Commit(e) == r.Add(e) <==> (r.full ==> r.inOffs == r.outOffs)
  {
    Remainder(r.inOffs + 1, |r.slots|);
    Remainder(r.outOffs + 1, |r.slots|);
  }

  lemma AddKeepsValid<E>(r: Ring<E>, e: E)
    requires r.Valid()
    ensures r.Add(e).Valid()
    ensures r.full ==> r.Add(e).full
    ensures r.Add(e).full <==> r.full || r.inOffs + 1 == |r.slots|
    ensures r.Add(e).inOffs == if r.inOffs + 1 == |r.slots| then 0 else r.inOffs + 1
  {
    Remainder(r.inOffs + 1, |r.slots|);
  }

  /** Adding keeps the invariant and drops at most the oldest entry. */
  lemma AddKeepsLast<E>(r: Ring<E>, e: E)
    requires r.Valid()
    ensures r.Add(e).Valid()
    ensures r.full ==> r.Add(e).full
    ensures r.Add(e).Contents() == LastN(r.Contents() + [e], |r.slots|)
  {
    var r' := r.Add(e);
    var wanted := LastN(r.Contents() + [e], |r.slots|);
    AddKeepsValid(r, e);
    SlotsInOrder(r);
    SlotsInOrder(r');
    assert |r'.Contents()| == |wanted|;
    forall k | 0 <= k < |wanted|
      ensures r'.Contents()[k] == wanted[k]
    {
      if r.full && k + 1 < |wanted| {
        assert r'.SlotOf(k) == r.SlotOf(k + 1);
      }
    }
  }

  lemma AddAllSnoc<E>(r: Ring<E>, es: seq<E>, e: E)
    requires r.InRange()
    ensures r.AddAll(es + [e]) == r.AddAll(es).Add(e)
  {
    assert (es + [e])[..|es|] == es;
  }

  lemma {:induction false} AddAllAppend<E>(r: Ring<E>, a: seq<E>, b: seq<E>)
    requires r.InRange()
    ensures r.AddAll(a + b) == r.AddAll(a).AddAll(b)
  {
    if b == [] {
      assert a + b == a;
    } else {
      assert (a + b)[..|a + b| - 1] == a + b[..|b| - 1];
      AddAllAppend(r, a, b[..|b| - 1]);
    }
  }

  /** Over every run of adds: the invariant holds, and the ring reads as the
      last entries ever added, as many as there are slots. */
  lemma {:induction false} AddAllKeepsLast<E>(r: Ring<E>, es: seq<E>)
    requires r.Valid()
    ensures r.AddAll(es).Valid()
    ensures r.full ==> r.AddAll(es).full
    ensures r.AddAll(es).Contents() == LastN(r.Contents() + es, |r.slots|)
  {
    if es == [] {
      SlotsInOrder(r);
      assert r.Contents() + es == r.Contents();
    } else {
      var n := |es| - 1;
      AddAllKeepsLast(r, es[..n]);
      AddKeepsLast(r.AddAll(es[..n]), es[n]);
      assert es == es[..n] + [es[n]];
      LastNSnoc(r.Contents() + es[..n], es[n], |r.slots|);
      assert r.Contents() + es[..n] + [es[n]] == r.Contents() + es;
    }
  }

  lemma LastNSnoc<E>(s: seq<E>, e: E, n: nat)
    ensures LastN(LastN(s, n) + [e], n) == LastN(s + [e], n)
  {
  }

  lemma RemainderNext(x: nat, cap: nat)
    requires cap > 0
    ensures (x + 1) % cap == if x % cap + 1 == cap then 0 else x % cap + 1
  {
    var q, m := x / cap, x % cap;
    assert x + 1 == q * cap + (m + 1);
    if m + 1 == cap {
      assert x + 1 == (q + 1) * cap;
      MultiplePlus(q + 1, cap, 0);
    } else {
      MultiplePlus(q, cap, m + 1);
    }
  }

  lemma MultiplePlus(q: nat, cap: nat, m: nat)
    requires m < cap
    ensures (q * cap + m) % cap == m
  {
    var x := q * cap + m;
    var d := x / cap - q;
    assert x % cap == m - d * cap;
    MultipleIsFar(d, cap);
  }

  lemma MultipleIsFar(d: int, cap: nat)
    ensures d > 0 ==> d * cap >= cap
    ensures d < 0 ==> d * cap + cap <= 0
  {
  }

  /** Where the indices stand after adding `es` to a fresh ring, and what the
      slots not yet reached still hold. */
  lemma {:induction false} FreshRingIndices<E>(cap: nat, blank: E, es: seq<E>)
    requires 0 < cap <= MAX_CAPACITY
    ensures var r := EmptyRing(cap, blank).AddAll(es);
            && r.Valid() && |r.slots| == cap
            && r.inOffs == |es| % cap
            && (r.full <==> |es| >= cap)
            && (!r.full ==> r.inOffs == |es| && forall i :: r.inOffs <= i < cap ==> r.slots[i] == blank)
  {
    if es != [] {
      var n := |es| - 1;
      FreshRingIndices(cap, blank, es[..n]);
      AddKeepsValid(EmptyRing(cap, blank).AddAll(es[..n]), es[n]);
      RemainderNext(n, cap);
    }
  }

  /** Every ring reached from a fresh one reads as the last entries added, as many
      as there are slots, and the C entry count is right in it. */
  lemma FreshRingReads<E>(cap: nat, blank: E, es: seq<E>)
    requires 0 < cap <= MAX_CAPACITY
    ensures var r := EmptyRing(cap, blank).AddAll(es);
            && r.Contents() == LastN(es, cap)
            && r.NumEntries() == r.Count() == |LastN(es, cap)|
  {
    var r := EmptyRing(cap, blank);
    FreshRingIndices(cap, blank, es);
    AddAllKeepsLast(r, es);
    SlotsInOrder(r);
    assert r.Contents() + es == es;
    NumEntriesExact(r.AddAll(es));
  }

  // ---- Positions in a row of entries ----

  datatype Option<T> = None | Some(value: T)

  /** The entry and in-entry offset of position `o` in entries of these sizes
      laid end to end. */
  function Locate(sizes: seq<nat>, o: nat): Option<(nat, nat)> {
    if sizes == [] then None
    else if o < sizes[0] then Some((0, o))
    else match Locate(sizes[1..], o - sizes[0])
      case None => None
      case Some(at) => Some((at.0 + 1, at.1))
  }

  /** (k, j) is a position: byte j of entry k, and o counts the bytes before it. */
  predicate IsPosition(sizes: seq<nat>, k: nat, j: nat, o: nat) {
    k < |sizes| && j < sizes[k] && Sum(sizes[..k]) + j == o
  }

  /** `Locate` names the one position at offset `o`, and finds it whenever `o`
      is before the end. */
  lemma {:induction false} LocateExact(sizes: seq<nat>, o: nat)
    ensures Locate(sizes, o).Some? <==> o < Sum(sizes)
    ensures forall k, j :: IsPosition(sizes, k, j, o) <==> Locate(sizes, o) == Some((k, j))
  {
    if sizes != [] {
      var rest := sizes[1..];
      if o >= sizes[0] {
        LocateExact(rest, o - sizes[0]);
      }
      forall k: nat, j: nat
        ensures IsPosition(sizes, k, j, o) <==> Locate(sizes, o) == Some((k, j))
      {
        if 0 < k < |sizes| {
          assert sizes[..k] == [sizes[0]] + rest[..k - 1];
          if o >= sizes[0] {
            assert IsPosition(sizes, k, j, o) <==> IsPosition(rest, k - 1, j, o - sizes[0]);
          }
        }
      }
    }
  }

  lemma LocateIs(sizes: seq<nat>, k: nat, j: nat, o: nat)
    requires IsPosition(sizes, k, j, o)
    ensures Locate(sizes, o) == Some((k, j))
  {
    LocateExact(sizes, o);
  }

  lemma LocateNone(sizes: seq<nat>, o: nat)
    requires Sum(sizes) <= o
    ensures Locate(sizes, o) == None
  {
    LocateExact(sizes, o);
  }

  function Lengths<T>(ss: seq<seq<T>>): (ns: seq<nat>)
    ensures |ns| == |ss| && forall i :: 0 <= i < |ss| ==> ns[i] == |ss[i]|
  {
    seq(|ss|, i requires 0 <= i < |ss| => |ss[i]|)
  }

  lemma {:induction false} SumOfLengths<T>(ss: seq<seq<T>>)
    ensures Sum(Lengths(ss)) == |Flatten(ss)|
  {
    if ss != [] {
      SumOfLengths(ss[1..]);
      assert Lengths(ss)[1..] == Lengths(ss[1..]);
    }
  }

  /** The lookup reads the right byte: the located byte is the one at position
      `o` of the parts laid end to end, and there is one exactly before their end. */
  lemma LocateReadsTheByte<T>(ss: seq<seq<T>>, o: nat)
    ensures match Locate(Lengths(ss), o)
            case None => |Flatten(ss)| <= o
            case Some(pos) => pos.0 < |ss| && pos.1 < |ss[pos.0]| && o < |Flatten(ss)|
                              && |Flatten(ss[..pos.0])| + pos.1 == o
                              && Flatten(ss)[o] == ss[pos.0][pos.1]
  {
    var sizes := Lengths(ss);
    LocateExact(sizes, o);
    SumOfLengths(ss);
    match Locate(sizes, o)
    case None =>
    case Some(pos) =>
      var (k, j) := pos;
      assert IsPosition(sizes, k, j, o);
      assert sizes[..k] == Lengths(ss[..k]);
      SumOfLengths(ss[..k]);
      FlattenSplit(ss, k);
  }
}
