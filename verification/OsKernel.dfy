/** The uC/OS-II services that the AGV program shares data through: message queues
    (ucosii/uCOS-II/Source/os_q.c) and fixed-size memory partitions (os_mem.c).

    The functions say what each call does to a queue's contents; the two classes show that the kernel's
    ring buffer and its linked free list do exactly that.
  */
module OsKernel {

  datatype Option<T> = None | Some(value: T)

  // ------------------------------------------------ bounded queues, by their contents

  predicate QFull<T>(q: seq<T>, size: nat) { |q| >= size }

  /** `OSQPost`: a full queue refuses the message. */
  function QPost<T>(q: seq<T>, size: nat, msg: T): seq<T> {
    if QFull(q, size) then q else q + [msg]
  }

  /** `OSQPostFront`. */
  function QPostFront<T>(q: seq<T>, size: nat, msg: T): seq<T> {
    if QFull(q, size) then q else [msg] + q
  }

  /** `OSQAccept`: the oldest message, if any. */
  function QHead<T>(q: seq<T>): Option<T> {
    if q == [] then None else Some(q[0])
  }

  function QTail<T>(q: seq<T>): seq<T> {
    if q == [] then [] else q[1..]
  }

  /** A message queue: ring buffer with in and out positions, and the number of tasks that wait for a message.
      given is a log of the messages that tasks have got. */
  class OsQueue<T(0)> {
    var store: array<T>
    var qin: nat
    var qout: nat
    var entries: nat
    var waiting: nat
    var given: seq<T>

    ghost predicate Valid()
      reads this
    {
      && 0 < store.Length && qin < store.Length && qout < store.Length && entries <= store.Length
      && qin == Slot(entries) && (waiting > 0 ==> entries == 0)
    }

    /** Position of the i-th oldest message. */
    function Slot(i: nat): (k: nat)
      requires qout < store.Length && i <= store.Length
      reads this
      ensures k < store.Length
    {
      if qout + i < store.Length then qout + i else qout + i - store.Length
    }

    ghost function Contents(): (q: seq<T>)
      requires Valid()
      reads this, store
      ensures |q| == entries
    {
      seq(entries, i requires 0 <= i < entries && qout < store.Length && entries <= store.Length
                     reads this, store => store[Slot(i)])
    }

    /** `OSQCreate`. */
    constructor (size: nat)
      requires size > 0
      ensures Valid() && fresh(store) && store.Length == size && Contents() == []
      ensures waiting == 0 && given == []
    {
      store := new T[size];
      qin, qout, entries := 0, 0, 0;
      waiting, given := 0, [];
    }

    /** `OS_EventTaskRdy`: the message goes to a waiting task. */
    method Give(msg: T)
      requires Valid() && waiting > 0
      modifies `waiting, `given
      ensures Valid() && waiting == old(waiting) - 1 && given == old(given) + [msg]
    {
      waiting := waiting - 1;
      given := given + [msg];
    }

    /** The message becomes the last one, whether it is given to a waiting task or stored. */
    method Post(msg: T) returns (ok: bool)
      requires Valid()
      modifies this, store
      ensures Valid() && store == old(store)
      ensures ok <==> old(waiting) > 0 || !QFull(old(Contents()), store.Length)
      ensures given + Contents() == old(given + Contents()) + if ok then [msg] else []
      ensures if old(waiting) > 0 then waiting == old(waiting) - 1 && given == old(given) + [msg]
              else waiting == 0 && given == old(given)
      ensures old(waiting) == 0 ==> Contents() == QPost(old(Contents()), store.Length, msg)
    {
      if waiting > 0 {
        Give(msg);
        return true;
      }
      if entries >= store.Length {
        return false;
      }
      StoreLast(msg);
      ok := true;
    }

    method StoreLast(msg: T)
      requires Valid() && waiting == 0 && entries < store.Length
      modifies `qin, `entries, store
      ensures Valid() && Contents() == old(Contents()) + [msg]
    {
      store[qin] := msg;
      qin := qin + 1;
      entries := entries + 1;
      if qin == store.Length {
        qin := 0;
      }
    }

    /** The message becomes the next one. */
    method PostFront(msg: T) returns (ok: bool)
      requires Valid()
      modifies this, store
      ensures Valid() && store == old(store)
      ensures ok <==> old(waiting) > 0 || !QFull(old(Contents()), store.Length)
      ensures given + Contents() == old(given) + (if ok then [msg] else []) + old(Contents())
      ensures if old(waiting) > 0 then waiting == old(waiting) - 1 && given == old(given) + [msg]
              else waiting == 0 && given == old(given)
      ensures old(waiting) == 0 ==> Contents() == QPostFront(old(Contents()), store.Length, msg)
    {
      if waiting > 0 {
        Give(msg);
        return true;
      }
      if entries >= store.Length {
        return false;
      }
      StoreFirst(msg);
      ok := true;
    }

    method StoreFirst(msg: T)
      requires Valid() && waiting == 0 && entries < store.Length
      modifies `qout, `entries, store
      ensures Valid() && Contents() == [msg] + old(Contents())
    {
      if qout == 0 {
        qout := store.Length;
      }
      qout := qout - 1;
      store[qout] := msg;
      entries := entries + 1;
    }

    method Accept() returns (msg: Option<T>)
      requires Valid()
      modifies this
      ensures Valid() && store == old(store) && waiting == old(waiting)
      ensures msg == QHead(old(Contents())) && Contents() == QTail(old(Contents()))
      ensures given + Contents() == old(given + Contents())
    {
      if entries > 0 {
        msg := Some(store[qout]);
        given := given + [store[qout]];
        qout := qout + 1;
        entries := entries - 1;
        if qout == store.Length {
          qout := 0;
        }
      } else {
        msg := None;
      }
    }

    /** `OSQPend`, up to the point where the task is suspended. */
    method Pend() returns (msg: Option<T>)
      requires Valid()
      modifies this
      ensures Valid() && store == old(store)
      ensures msg == QHead(old(Contents())) && Contents() == QTail(old(Contents()))
      ensures given + Contents() == old(given + Contents())
      ensures waiting == if msg == None then old(waiting) + 1 else 0
    {
      msg := Accept();
      if msg == None {
        waiting := waiting + 1;
      }
    }

    /** `OSQPend` of a task that waited in vain. */
    method TimeOut()
      requires Valid() && waiting > 0
      modifies `waiting
      ensures Valid() && waiting == old(waiting) - 1 && Contents() == old(Contents())
    {
      waiting := waiting - 1;
    }

    /** `OSQQuery`: the number of messages. */
    method Query() returns (nMsgs: nat)
      requires Valid()
      ensures nMsgs == |Contents()|
    {
      nMsgs := entries;
    }
  }

  /** A memory partition: blocks 0 .. nBlks-1, the free ones linked through their first word. */
  class OsMem {
    var link: array<nat>
    var freeList: nat
    var nFree: nat
    ghost var free: seq<nat>

    ghost predicate Valid()
      reads this, link
    {
      && nFree == |free| <= link.Length
      && (forall i :: 0 <= i < |free| ==> free[i] < link.Length)
      && (forall i, j :: 0 <= i < j < |free| ==> free[i] != free[j])
      && (free != [] ==> freeList == free[0])
      && (forall i :: 0 < i < |free| ==> link[free[i - 1]] == free[i])
    }

    /** `OSMemCreate`: every block is free. */
    constructor (nBlks: nat)
      ensures Valid() && fresh(link) && link.Length == nBlks
      ensures free == seq(nBlks, i => i)
    {
      link := new nat[nBlks](i => i + 1);
      freeList := 0;
      nFree := nBlks;
      free := seq(nBlks, i => i);
    }

    /** `OSMemGet`: a block that was free and no longer is; none exactly when none was free. */
    method Get() returns (blk: Option<nat>)
      requires Valid()
      modifies this
      ensures Valid() && link == old(link)
      ensures blk == QHead(old(free)) && free == QTail(old(free))
      ensures blk.Some? ==> blk.value !in free
    {
      if nFree > 0 {
        blk := Some(freeList);
        freeList := link[freeList];
        nFree := nFree - 1;
        free := free[1..];
      } else {
        blk := None;
      }
    }

    /** `OSMemPut` of a block that the caller holds. */
    method Put(blk: nat) returns (ok: bool)
      requires Valid() && blk < link.Length && blk !in free
      modifies this, link
      ensures Valid() && link == old(link)
      ensures ok && free == [blk] + old(free)
    {
      NotAllFree(free, link.Length, blk);
      if nFree >= link.Length {
        return false;
      }
      link[blk] := freeList;
      freeList := blk;
      nFree := nFree + 1;
      free := [blk] + free;
      ok := true;
    }
  }

  /** Distinct blocks below n that leave one out are fewer than n. */
  lemma NotAllFree(s: seq<nat>, n: nat, blk: nat)
    requires forall i :: 0 <= i < |s| ==> s[i] < n
    requires forall i, j :: 0 <= i < j < |s| ==> s[i] != s[j]
    requires blk < n && blk !in s
    ensures |s| < n
  {
    DistinctAreFew(s + [blk], n);
  }

  lemma {:induction false} DistinctAreFew(s: seq<nat>, n: nat)
    requires forall i :: 0 <= i < |s| ==> s[i] < n
    requires forall i, j :: 0 <= i < j < |s| ==> s[i] != s[j]
    ensures |s| <= n
  {
    var first := if s == [] then 0 else s[0];
    if n > 0 {
      if n - 1 in s {
        var k :| 0 <= k < |s| && s[k] == n - 1;
        DistinctAreFew(s[..k] + s[k + 1..], n - 1);
      } else {
        DistinctAreFew(s, n - 1);
      }
    }
  }
}
