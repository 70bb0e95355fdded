/** Private messages waiting for their recipient's key: one bounded ring per recipient. */
module MessageQueue {
  import opened Octets

  const RING_SIZE := 4096

  /** The ring as one thread uses it at a time (the queue's map lock is held around every call). */
  class LockFreeQueue<T(0)> {
    const buffer: array<T>
    var head: nat
    var tail: nat

    ghost predicate Valid()
      reads this
    {
      head < buffer.Length && tail < buffer.Length
    }

    ghost function Contents(): seq<T>
      requires Valid()
      reads this, buffer
    {
      if head <= tail then buffer[head..tail] else buffer[head..] + buffer[..tail]
    }

    constructor (size: nat)
      requires size > 0
      ensures Valid() && Contents() == []
      ensures buffer.Length == size && fresh(buffer)
    {
      buffer := new T[size];
      head, tail := 0, 0;
    }

    method Push(item: T) returns (ok: bool)
      requires Valid()
      modifies this`tail, buffer
      ensures Valid()
      ensures ok <==> |old(Contents())| < buffer.Length - 1
      ensures Contents() == if ok then old(Contents()) + [item] else old(Contents())
    {
      var next := (tail + 1) % buffer.Length;
      Successor(tail, buffer.Length);
      if next == head {
        return false;
      }
      buffer[tail] := item;
      tail := next;
      return true;
    }

    method Pop() returns (item: Option<T>)
      requires Valid()
      modifies this`head
      ensures Valid()
      ensures item.None? <==> old(Contents()) == []
      ensures item.None? ==> Contents() == []
      ensures item.Some? ==> old(Contents()) == [item.value] + Contents()
    {
      if head == tail {
        return None;
      }
      item := Some(buffer[head]);
      Successor(head, buffer.Length);
      head := (head + 1) % buffer.Length;
    }
  }

  lemma Successor(i: nat, n: nat)
    requires i < n
    ensures (i + 1) % n == if i + 1 == n then 0 else i + 1
  {
  }

  function Lookup(m: map<Bytes, seq<Bytes>>, k: Bytes): seq<Bytes> {
    if k in m then m[k] else []
  }

  /** A full ring drops the new item: the result of the ring's push is ignored. */
  function Enqueued(q: seq<Bytes>, item: Bytes): seq<Bytes> {
    if |q| < RING_SIZE - 1 then q + [item] else q
  }

  class Queues {
    var rings: map<Bytes, LockFreeQueue<Bytes>>

    ghost function Repr(): set<object>
      reads this
    {
      (set r | r in rings :: rings[r] as object) + (set r | r in rings :: rings[r].buffer as object)
    }

    ghost predicate Valid()
      reads this, Repr()
    {
      && (forall r :: r in rings ==> rings[r].Valid() && rings[r].buffer.Length == RING_SIZE)
      && (forall r, s :: r in rings && s in rings && r != s ==>
            rings[r] != rings[s] && rings[r].buffer != rings[s].buffer)
    }

    /** What waits for each recipient, oldest first. */
    ghost function Pending(): map<Bytes, seq<Bytes>>
      requires Valid()
      reads this, Repr()
    {
      map r | r in rings :: rings[r].Contents()
    }

    constructor ()
      ensures Valid() && Pending() == map[] && Repr() == {}
    {
      rings := map[];
    }

    method EnsureRing(recipient: Bytes)
      requires Valid()
      modifies this
      ensures Valid() && fresh(Repr() - old(Repr())) && recipient in rings
      ensures Pending() == old(Pending())[recipient := Lookup(old(Pending()), recipient)]
    {
      hide LockFreeQueue.Contents;
      if recipient !in rings {
        var ring := new LockFreeQueue<Bytes>(RING_SIZE);
        rings := rings[recipient := ring];
      }
    }

    method Push(recipient: Bytes, bytes: Bytes)
      requires Valid()
      modifies this, Repr()
      ensures Valid() && fresh(Repr() - old(Repr()))
      ensures Pending() == old(Pending())[recipient := Enqueued(Lookup(old(Pending()), recipient), bytes)]
    {
      hide Enqueued, Queues.Valid, Queues.Pending;
      EnsureRing(recipient);
      PushTo(recipient, bytes);
    }

    method PushTo(recipient: Bytes, bytes: Bytes)
      requires Valid() && recipient in rings
      modifies Repr()
      ensures Valid() && rings == old(rings)
      ensures Pending() == old(Pending())[recipient := Enqueued(old(Pending())[recipient], bytes)]
    {
      hide LockFreeQueue.Contents;
      var _ := rings[recipient].Push(bytes);
      forall r | r in rings && r != recipient
        ensures rings[r].Valid() && rings[r].Contents() == old(rings[r].Contents())
      {
      }
    }

    method FindPending(recipient: Bytes) returns (item: Option<Bytes>)
      requires Valid()
      modifies Repr()
      ensures Valid() && rings == old(rings)
      ensures item.None? <==> Lookup(old(Pending()), recipient) == []
      ensures item.None? ==> Pending() == old(Pending())
      ensures item.Some? ==> recipient in Pending() && recipient in old(Pending())
                             && old(Pending())[recipient] == [item.value] + Pending()[recipient]
                             && Pending() == old(Pending())[recipient := Pending()[recipient]]
    {
      hide LockFreeQueue.Contents;
      if recipient in rings {
        item := rings[recipient].Pop();
        forall r | r in rings && r != recipient
          ensures rings[r].Valid() && rings[r].Contents() == old(rings[r].Contents())
        {
        }
      } else {
        item := None;
      }
    }
  }
}
