/** Byte strings cut into newline-terminated lines.

    The driver commits one ring entry per line and keeps the unfinished rest as
    its pending input. `Lines` and `Tail` define that cut independently of how
    the driver finds it: by searching for the first newline of what is left.
 */
module ByteLines {
  newtype Byte = b: int | 0 <= b < 256
  type Bytes = seq<Byte>

  const NEWLINE: Byte := 10

  predicate NewlineFree(t: Bytes) {
    NEWLINE !in t
  }

  /** A complete line: exactly one newline, as its last byte. */
  predicate IsLine(l: Bytes) {
    |l| > 0 && l[|l| - 1] == NEWLINE && NewlineFree(l[..|l| - 1])
  }

  function FirstNewline(t: Bytes): (i: nat)
    requires !NewlineFree(t)
    ensures i < |t| && t[i] == NEWLINE && NewlineFree(t[..i])
  {
    if t[0] == NEWLINE then
      0
    else
      assert NEWLINE in t[1..];
      var j := FirstNewline(t[1..]);
      assert t[..j + 1] == [t[0]] + t[1..][..j];
      j + 1
  }

  /** The complete lines of `t`, in order, each with its newline. */
  function Lines(t: Bytes): seq<Bytes> {
    if NewlineFree(t) then [] else
    var i := FirstNewline(t);
    [t[..i + 1]] + Lines(t[i + 1..])
  }

  /** What follows the last newline of `t`. */
  function Tail(t: Bytes): Bytes {
    if NewlineFree(t) then t else Tail(t[FirstNewline(t) + 1..])
  }

  function Flatten<T>(ss: seq<seq<T>>): seq<T> {
    if ss == [] then [] else ss[0] + Flatten(ss[1..])
  }

  /** The last `n` elements of `s`, or all of them when there are fewer. */
  function LastN<T>(s: seq<T>, n: nat): seq<T> {
    if |s| <= n then s else s[|s| - n..]
  }

  function Sum(sizes: seq<nat>): nat {
    if sizes == [] then 0 else sizes[0] + Sum(sizes[1..])
  }

  lemma FlattenCons<T>(s: seq<T>, ss: seq<seq<T>>)
    ensures Flatten([s] + ss) == s + Flatten(ss)
  {
    assert ([s] + ss)[1..] == ss;
  }

  lemma {:induction false} FlattenAppend<T>(a: seq<seq<T>>, b: seq<seq<T>>)
    ensures Flatten(a + b) == Flatten(a) + Flatten(b)
  {
    if a == [] {
      assert a + b == b;
    } else {
      var first, rest := a[0], a[1..];
      assert a + b == [first] + (rest + b);
      FlattenCons(first, rest + b);
      FlattenAppend(rest, b);
      PrependKeeps(first, Flatten(rest), Flatten(b), Flatten(rest + b));
    }
  }

  lemma {:induction false} SumAppend(a: seq<nat>, b: seq<nat>)
    ensures Sum(a + b) == Sum(a) + Sum(b)
  {
    if a == [] {
      assert a + b == b;
    } else {
      SumAppend(a[1..], b);
      assert (a + b)[1..] == a[1..] + b;
    }
  }

  lemma SumSnoc(sizes: seq<nat>, k: nat)
    requires k < |sizes|
    ensures Sum(sizes[..k + 1]) == Sum(sizes[..k]) + sizes[k]
  {
    assert sizes[..k + 1] == sizes[..k] + [sizes[k]];
    SumAppend(sizes[..k], [sizes[k]]);
  }

  lemma FlattenCut<T>(ss: seq<seq<T>>, a: seq<seq<T>>, b: seq<seq<T>>)
    requires ss == a + b
    ensures Flatten(ss) == Flatten(a) + Flatten(b)
  {
    FlattenAppend(a, b);
  }

  lemma CutAt<T>(s: seq<T>, k: nat)
    requires k < |s|
    ensures s[..k + 1] == s[..k] + [s[k]]
    ensures s == s[..k + 1] + s[k + 1..]
  {
  }

  lemma FlattenOne<T>(s: seq<T>)
    ensures Flatten([s]) == s
  {
    assert Flatten([s]) == s + [];
  }

  lemma FlattenNext<T>(ss: seq<seq<T>>, k: nat)
    requires k < |ss|
    ensures Flatten(ss[..k + 1]) == Flatten(ss[..k]) + ss[k]
  {
    CutAt(ss, k);
    FlattenCut(ss[..k + 1], ss[..k], [ss[k]]);
    FlattenOne(ss[k]);
  }

  /** Cutting after part `k`. */
  lemma FlattenRest<T>(ss: seq<seq<T>>, k: nat)
    requires k < |ss|
    ensures Flatten(ss) == Flatten(ss[..k + 1]) + Flatten(ss[k + 1..])
  {
    CutAt(ss, k);
    FlattenCut(ss, ss[..k + 1], ss[k + 1..]);
  }

  /** Cutting before and after part `k`. */
  lemma FlattenSplit<T>(ss: seq<seq<T>>, k: nat)
    requires k < |ss|
    ensures Flatten(ss[..k + 1]) == Flatten(ss[..k]) + ss[k]
    ensures Flatten(ss) == Flatten(ss[..k + 1]) + Flatten(ss[k + 1..])
  {
    FlattenNext(ss, k);
    FlattenRest(ss, k);
  }

  lemma PartOfFlatten<T>(ss: seq<seq<T>>, k: nat, start: nat, n: nat)
    requires k < |ss| && start + n <= |ss[k]|
    ensures var at := |Flatten(ss[..k])| + start;
            at + n <= |Flatten(ss)| && Flatten(ss)[at..at + n] == ss[k][start..start + n]
  {
    FlattenSplit(ss, k);
  }

  lemma LinesStep(t: Bytes, l: Bytes, more: Bytes)
    requires IsLine(l) && t == l + more
    ensures Lines(t) == [l] + Lines(more) && Tail(t) == Tail(more)
  {
    assert t[..|l| - 1] == l[..|l| - 1];
    FirstNewlineIs(t, |l| - 1);
    assert t[..|l|] == l && t[|l|..] == more;
  }

  lemma FirstLine(t: Bytes) returns (l: Bytes, more: Bytes)
    requires !NewlineFree(t)
    ensures IsLine(l) && t == l + more
  {
    var i := FirstNewline(t);
    l, more := t[..i + 1], t[i + 1..];
    assert l[..i] == t[..i];
  }

  /** Splitting into lines loses nothing: the lines and the tail spell `t`. */
  lemma {:induction false} LinesRoundTrip(t: Bytes)
    ensures Flatten(Lines(t)) + Tail(t) == t
    decreases |t|
  {
    if !NewlineFree(t) {
      var l, more := FirstLine(t);
      LinesStep(t, l, more);
      LinesRoundTrip(more);
      FlattenCons(l, Lines(more));
      PrependKeeps(l, Flatten(Lines(more)), Tail(more), more);
    }
  }

  lemma PrependKeeps<T>(x: seq<T>, y: seq<T>, z: seq<T>, w: seq<T>)
    requires y + z == w
    ensures (x + y) + z == x + w
  {
  }

  lemma {:induction false} LinesAreLines(t: Bytes)
    ensures forall l :: l in Lines(t) ==> IsLine(l)
    ensures NewlineFree(Tail(t))
    decreases |t|
  {
    if !NewlineFree(t) {
      var l, more := FirstLine(t);
      LinesStep(t, l, more);
      LinesAreLines(more);
    }
  }

  lemma {:induction false} FirstNewlineIs(t: Bytes, i: nat)
    requires i < |t| && t[i] == NEWLINE && NewlineFree(t[..i])
    ensures !NewlineFree(t) && FirstNewline(t) == i
  {
    if i > 0 {
      assert t[0] == t[..i][0];
      assert t[1..][..i - 1] == t[..i][1..];
      FirstNewlineIs(t[1..], i - 1);
    }
  }

  /** The cut is unique: whatever lines followed by a newline-free rest spell
      `t` are the lines and the tail of `t`. */
  lemma {:induction false} LinesUnique(ls: seq<Bytes>, rest: Bytes, t: Bytes)
    requires forall l :: l in ls ==> IsLine(l)
    requires NewlineFree(rest)
    requires Flatten(ls) + rest == t
    ensures ls == Lines(t) && rest == Tail(t)
  {
    if ls == [] {
      assert t == rest;
    } else {
      var more := Flatten(ls[1..]) + rest;
      assert IsLine(ls[0]);
      PrependKeeps(ls[0], Flatten(ls[1..]), rest, more);
      LinesStep(t, ls[0], more);
      LinesUnique(ls[1..], rest, more);
      assert ls == [ls[0]] + ls[1..];
    }
  }

  /** Bytes that arrive later only meet the tail: the lines already complete
      stay as they are. */
  lemma LinesAppend(a: Bytes, b: Bytes)
    ensures Lines(a + b) == Lines(a) + Lines(Tail(a) + b)
    ensures Tail(a + b) == Tail(Tail(a) + b)
  {
    LinesRoundTrip(a);
    LinesAreLines(a);
    LinesRoundTrip(Tail(a) + b);
    LinesAreLines(Tail(a) + b);
    var ls := Lines(a) + Lines(Tail(a) + b);
    var rest := Tail(Tail(a) + b);
    FlattenAppend(Lines(a), Lines(Tail(a) + b));
    Regroup(Flatten(Lines(a)), Flatten(Lines(Tail(a) + b)), rest, Tail(a), b);
    LinesUnique(ls, rest, a + b);
  }

  lemma Regroup<T>(x: seq<T>, y: seq<T>, z: seq<T>, u: seq<T>, v: seq<T>)
    requires y + z == u + v
    ensures x + y + z == (x + u) + v
  {
    assert x + y + z == x + (y + z);
  }

  /** Bytes complete no line exactly when there is no newline among them. */
  lemma LinesStay(t: Bytes, more: Bytes)
    ensures Lines(t) <= Lines(t + more)
    ensures Lines(t + more) == Lines(t) <==> NewlineFree(more)
  {
    LinesAppend(t, more);
    LinesAreLines(t);
    assert NewlineFree(Tail(t) + more) <==> NewlineFree(more);
  }

  lemma LinesSnoc(t: Bytes, c: Byte)
    ensures c == NEWLINE ==> Lines(t + [c]) == Lines(t) + [Tail(t) + [c]] && Tail(t + [c]) == []
    ensures c != NEWLINE ==> Lines(t + [c]) == Lines(t) && Tail(t + [c]) == Tail(t) + [c]
  {
    LinesAppend(t, [c]);
    LinesAreLines(t);
    if c == NEWLINE {
      var l := Tail(t) + [c];
      assert l[..|l| - 1] == Tail(t);
      assert Flatten([l]) + [] == l;
      LinesUnique([l], [], l);
    } else {
      assert Flatten([]) + (Tail(t) + [c]) == Tail(t) + [c];
      LinesUnique([], Tail(t) + [c], Tail(t) + [c]);
    }
  }

  /** A line is what ends with byte 10: there are as many lines as such bytes. */
  lemma {:induction false} LinesCount(t: Bytes)
    ensures |Lines(t)| == multiset(t)[10]
    ensures forall l: Bytes :: l in Lines(t) ==> l != [] && l[|l| - 1] == 10 && 10 !in l[..|l| - 1]
  {
    LinesAreLines(t);
    if t != [] {
      var s, b := t[..|t| - 1], t[|t| - 1];
      assert s + [b] == t;
      LinesCount(s);
      LinesSnoc(s, b);
      assert multiset(t) == multiset(s) + multiset{b};
    }
  }
}
