/** Kernel services the driver calls, reduced to what a caller may rely on:
    allocation that may fail, freeing, copying, and user copies that may stop
    short. `live` is the set of allocated buffers, so a double free or a use
    after free is a violated precondition.
 */
module KernelServices {
  import opened ByteLines

  type Buffer = array<Byte>

  class Kernel {
    ghost var live: set<Buffer>
    ghost var user: set<Buffer>  // buffers of user space
    ghost var allocFailures: nat
    ghost var copyFaults: nat
    ghost var delivered: Bytes  // what user copies that did not fail have brought to user space

    constructor ()
      ensures live == {} && user == {} && allocFailures == 0 && copyFaults == 0 && delivered == []
    {
      live, user, allocFailures, copyFaults, delivered := {}, {}, 0, 0, [];
    }

    /** How many requests the kernel has turned down, wholly or in part. */
    ghost function Failures(): nat
      reads this`allocFailures, this`copyFaults
    {
      allocFailures + copyFaults
    }

    /** A buffer becomes known as user-space memory. */
    ghost method MapUser(b: Buffer)
      modifies this`user
      ensures user == old(user) + {b}
    {
      user := user + {b};
    }

    method Kmalloc(size: nat) returns (p: array?<Byte>)
      modifies this`live, this`allocFailures
      ensures p == null ==> live == old(live) && allocFailures == old(allocFailures) + 1
      ensures p != null ==> fresh(p) && p.Length == size && live == old(live) + {p}
                            && allocFailures == old(allocFailures)
      ensures p != null ==> p !in user
    {
      var granted: bool := *;
      if granted {
        p := new Byte[size];
        live := live + {p};
      } else {
        p := null;
        allocFailures := allocFailures + 1;
      }
    }

    /** Freeing NULL does nothing; anything else must be live, and is live no more. */
    method Kfree(p: array?<Byte>)
      requires p == null || p in live
      modifies this`live
      ensures live == old(live) - {p}
    {
      if p != null {
        live := live - {p};
      }
    }

    method Memcpy(dst: Buffer, at: nat, src: Buffer, from: nat, n: nat)
      requires dst in live && src in live && dst != src
      requires at + n <= dst.Length && from + n <= src.Length
      modifies dst
      ensures dst[..at] == old(dst[..at])
      ensures dst[at..at + n] == src[from..from + n]
      ensures dst[at + n..] == old(dst[at + n..])
    {
      forall k | 0 <= k < n {
        dst[at + k] := src[from + k];
      }
      assert forall k :: at <= k < at + n ==> dst[k] == src[from + (k - at)];
    }

    /** Returns the number of bytes not copied; the rest of the range is zeroed. */
    method CopyFromUser(dst: Buffer, at: nat, user: Buffer, n: nat) returns (left: nat)
      requires dst in live && dst != user
      requires at + n <= dst.Length && n <= user.Length
      modifies this`copyFaults, dst
      ensures left <= n && copyFaults == old(copyFaults) + (if left > 0 then 1 else 0)
      ensures dst[..at] == old(dst[..at])
      ensures dst[at..at + (n - left)] == user[..n - left]
      ensures forall k :: at + (n - left) <= k < at + n ==> dst[k] == 0
      ensures dst[at + n..] == old(dst[at + n..])
    {
      left := PickShortfall(n);
      forall k | 0 <= k < n {
        dst[at + k] := if k < n - left then user[k] else 0;
      }
    }

    /** Returns the number of bytes not copied. */
    method CopyToUser(user: Buffer, src: Buffer, n: nat) returns (left: nat)
      requires src in live && src != user
      requires n <= src.Length && n <= user.Length
      modifies this`copyFaults, this`delivered, user
      ensures left <= n && copyFaults == old(copyFaults) + (if left > 0 then 1 else 0)
      ensures user[..n - left] == src[..n - left]
      ensures user[n - left..] == old(user[n - left..])
      ensures delivered == old(delivered) + (if left > 0 then [] else src[..n])
    {
      left := PickShortfall(n);
      forall k | 0 <= k < n - left {
        user[k] := src[k];
      }
      if left == 0 {
        delivered := delivered + src[..n];
      }
    }

    method PickShortfall(n: nat) returns (left: nat)
      modifies this`copyFaults
      ensures left <= n && copyFaults == old(copyFaults) + (if left > 0 then 1 else 0)
    {
      left :| left <= n;
      if left > 0 {
        copyFaults := copyFaults + 1;
      }
    }
  }
}
