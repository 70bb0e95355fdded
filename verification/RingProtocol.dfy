/** The single-producer single-consumer ring under release/acquire memory.

    `push` and `pop` are broken into their memory accesses, which interleave freely. Each atomic index is the list of
    values stored to it. A thread's own index always reads back the last store; the other thread's index may read any
    store that is not older than one this thread has already read, so acquire loads can be stale. The slots are plain
    memory: taking an item leaves the slot moved-from (`None`), as an empty one is. */
module RingProtocol {
  import opened Octets

  datatype Producer<T> =
    | Ready
    | TailLoaded(item: T, t: nat)
    | RoomSeen(item: T, t: nat)
    | SlotWritten(item: T, t: nat)

  datatype Consumer<T> =
    | Waiting
    | HeadLoaded(h: nat)
    | ItemSeen(h: nat)
    | SlotTaken(h: nat, got: Option<T>)

  /** `seenHead` and `seenTail` are the newest stores that producer and consumer have read of each other's index.
      `pushed` and `popped` log the pushes that returned true and the items that pops returned. */
  datatype Ring<T> = Ring(slots: seq<Option<T>>, headStores: seq<nat>, tailStores: seq<nat>,
                          producer: Producer<T>, consumer: Consumer<T>,
                          seenHead: nat, seenTail: nat,
                          pushed: seq<T>, popped: seq<Option<T>>)

  datatype Step<T> =
    | LoadTail(item: T)
    | LoadHead(store: nat)
    | WriteSlot
    | StoreTail
    | LoadOwnHead
    | LoadTheirTail(store: nat)
    | TakeSlot
    | StoreHead

  function Last(s: seq<nat>): nat
    requires s != []
  {
    s[|s| - 1]
  }

  predicate Shape<T>(size: nat, r: Ring<T>) {
    && size > 0 && |r.slots| == size && r.headStores != [] && r.tailStores != []
    && (r.producer.TailLoaded? || r.producer.RoomSeen? || r.producer.SlotWritten? ==> r.producer.t < size)
    && (r.consumer.HeadLoaded? || r.consumer.ItemSeen? || r.consumer.SlotTaken? ==> r.consumer.h < size)
  }

  predicate Enabled<T>(size: nat, r: Ring<T>, s: Step<T>)
    requires Shape(size, r)
  {
    match s
    case LoadTail(_) => r.producer.Ready?
    case LoadHead(k) => r.producer.TailLoaded? && r.seenHead <= k < |r.headStores|
    case WriteSlot => r.producer.RoomSeen?
    case StoreTail => r.producer.SlotWritten?
    case LoadOwnHead => r.consumer.Waiting?
    case LoadTheirTail(k) => r.consumer.HeadLoaded? && r.seenTail <= k < |r.tailStores|
    case TakeSlot => r.consumer.ItemSeen?
    case StoreHead => r.consumer.SlotTaken?
  }

  function Do<T>(size: nat, r: Ring<T>, s: Step<T>): Ring<T>
    requires Shape(size, r) && Enabled(size, r, s)
  {
    match s
    case LoadTail(item) =>
      r.(producer := TailLoaded(item, Last(r.tailStores)))
    case LoadHead(k) =>
      var p := r.producer;
      r.(seenHead := k, producer := if (p.t + 1) % size == r.headStores[k] then Ready else RoomSeen(p.item, p.t))
    case WriteSlot =>
      var p := r.producer;
      r.(slots := r.slots[p.t := Some(p.item)], producer := SlotWritten(p.item, p.t))
    case StoreTail =>
      var p := r.producer;
      r.(tailStores := r.tailStores + [(p.t + 1) % size], pushed := r.pushed + [p.item], producer := Ready)
    case LoadOwnHead =>
      r.(consumer := HeadLoaded(Last(r.headStores)))
    case LoadTheirTail(k) =>
      var h := r.consumer.h;
      r.(seenTail := k, consumer := if h == r.tailStores[k] then Waiting else ItemSeen(h))
    case TakeSlot =>
      var h := r.consumer.h;
      r.(slots := r.slots[h := None], consumer := SlotTaken(h, r.slots[h]))
    case StoreHead =>
      var c := r.consumer;
      r.(headStores := r.headStores + [(c.h + 1) % size], popped := r.popped + [c.got], consumer := Waiting)
  }

  function Initial<T>(size: nat): Ring<T> {
    Ring(seq(size, _ => None), [0], [0], Ready, Waiting, 0, 0, [], [])
  }

  ghost predicate Run<T>(size: nat, rings: seq<Ring<T>>, steps: seq<Step<T>>) {
    && size > 0 && |rings| == |steps| + 1 && rings[0] == Initial(size)
    && forall i :: 0 <= i < |steps| ==>
         Shape(size, rings[i]) && Enabled(size, rings[i], steps[i]) && rings[i + 1] == Do(size, rings[i], steps[i])
  }

  // --- The invariant ---

  /** Item number `i` lives in slot `i % size`; the k-th store to an index is `k % size`. */
  ghost predicate Counts(size: nat, stores: seq<nat>) {
    size > 0 && forall k :: 0 <= k < |stores| ==> stores[k] == k % size
  }

  ghost predicate Bounds<T>(size: nat, r: Ring<T>) {
    && |r.tailStores| == |r.pushed| + 1 && |r.headStores| == |r.popped| + 1
    && r.seenHead <= |r.popped| <= r.seenTail <= |r.pushed|
    && |r.pushed| < r.seenHead + size
  }

  ghost predicate ProducerOk<T>(size: nat, r: Ring<T>)
    requires size > 0 && |r.slots| == size
  {
    var t := |r.pushed| % size;
    match r.producer
    case Ready => true
    case TailLoaded(_, t') => t' == t
    case RoomSeen(_, t') => t' == t && |r.pushed| + 1 < r.seenHead + size
    case SlotWritten(item, t') => t' == t && |r.pushed| + 1 < r.seenHead + size && r.slots[t] == Some(item)
  }

  ghost predicate ConsumerOk<T>(size: nat, r: Ring<T>)
    requires size > 0 && Bounds(size, r)
  {
    var n := |r.popped|;
    match r.consumer
    case Waiting => true
    case HeadLoaded(h) => h == n % size
    case ItemSeen(h) => h == n % size && n < r.seenTail
    case SlotTaken(h, got) => h == n % size && n < r.seenTail && got == Some(r.pushed[n])
  }

  /** The first published item still in its slot. */
  function FirstInSlots<T>(r: Ring<T>): nat {
    |r.popped| + (if r.consumer.SlotTaken? then 1 else 0)
  }

  ghost predicate SlotsHold<T>(size: nat, r: Ring<T>)
    requires size > 0 && |r.slots| == size
  {
    forall i :: FirstInSlots(r) <= i < |r.pushed| ==> r.slots[i % size] == Some(r.pushed[i])
  }

  ghost predicate PoppedInOrder<T>(r: Ring<T>) {
    |r.popped| <= |r.pushed| && forall i :: 0 <= i < |r.popped| ==> r.popped[i] == Some(r.pushed[i])
  }

  ghost predicate Inv<T>(size: nat, r: Ring<T>) {
    && Shape(size, r) && Bounds(size, r) && Counts(size, r.headStores) && Counts(size, r.tailStores)
    && ProducerOk(size, r) && ConsumerOk(size, r) && SlotsHold(size, r) && PoppedInOrder(r)
  }

  /** Two item numbers less than a ring apart have different slots. */
  lemma SlotsDiffer(i: nat, j: nat, size: nat)
    requires i < j < i + size
    ensures i % size != j % size
  {
    if i % size == j % size {
      var d := j / size - i / size;
      assert j - i == d * size;
      if d >= 1 {
        MulAtLeast(d, size);
      } else if d <= -1 {
        MulAtLeast(-d, size);
      }
    }
  }

  lemma NextSlot(n: nat, size: nat)
    requires size > 0
    ensures (n % size + 1) % size == (n + 1) % size
  {
    var q, r := n / size, n % size;
    assert n + 1 == q * size + (r + 1);
    if r + 1 < size {
      DivMod(n + 1, q, r + 1, size);
    } else {
      assert n + 1 == (q + 1) * size + 0;
      DivMod(n + 1, q + 1, 0, size);
    }
  }

  /** What a load of the other index tells: it compares equal exactly when that store leaves no room (no item). */
  lemma LoadMeaning<T>(size: nat, r: Ring<T>, k: nat)
    requires Inv(size, r)
    ensures r.producer.TailLoaded? && r.seenHead <= k < |r.headStores| ==>
              ((r.producer.t + 1) % size == r.headStores[k] <==> |r.pushed| + 1 == k + size)
    ensures r.consumer.HeadLoaded? && r.seenTail <= k < |r.tailStores| ==>
              (r.consumer.h == r.tailStores[k] <==> |r.popped| == k)
  {
    if r.producer.TailLoaded? && r.seenHead <= k < |r.headStores| {
      NextSlot(|r.pushed|, size);
      FullIff(|r.pushed|, k, size);
    }
    if r.consumer.HeadLoaded? && r.seenTail <= k < |r.tailStores| && |r.popped| != k {
      SlotsDiffer(|r.popped|, k, size);
    }
  }

  lemma FullIff(t: nat, k: nat, size: nat)
    requires size > 0 && k <= t < k + size
    ensures (t + 1) % size == k % size <==> t + 1 == k + size
  {
    if t + 1 == k + size {
      assert k + size == (k / size + 1) * size + k % size;
      DivMod(k + size, k / size + 1, k % size, size);
    } else {
      SlotsDiffer(k, t + 1, size);
    }
  }

  lemma ProducerStepKeepsInv<T>(size: nat, r: Ring<T>, s: Step<T>)
    requires Inv(size, r) && Enabled(size, r, s)
    requires s.LoadTail? || s.LoadHead? || s.WriteSlot? || s.StoreTail?
    ensures Inv(size, Do(size, r, s))
  {
    var r' := Do(size, r, s);
    match s
    case LoadTail(_) =>
    case LoadHead(k) => LoadMeaning(size, r, k);
    case WriteSlot =>
      forall i | FirstInSlots(r) <= i < |r.pushed|
        ensures r'.slots[i % size] == Some(r.pushed[i])
      {
        SlotsDiffer(i, |r.pushed|, size);
      }
    case StoreTail =>
      NextSlot(|r.pushed|, size);
      forall i | FirstInSlots(r) <= i < |r'.pushed|
        ensures r'.slots[i % size] == Some(r'.pushed[i])
      {
        assert i < |r.pushed| ==> r.slots[i % size] == Some(r.pushed[i]);
      }
  }

  lemma ConsumerStepKeepsInv<T>(size: nat, r: Ring<T>, s: Step<T>)
    requires Inv(size, r) && Enabled(size, r, s)
    requires s.LoadOwnHead? || s.LoadTheirTail? || s.TakeSlot? || s.StoreHead?
    ensures Inv(size, Do(size, r, s))
  {
    var r' := Do(size, r, s);
    match s
    case LoadOwnHead =>
    case LoadTheirTail(k) => LoadMeaning(size, r, k);
    case TakeSlot =>
      var n := |r.popped|;
      forall i | n < i < |r.pushed|
        ensures r'.slots[i % size] == Some(r.pushed[i])
      {
        SlotsDiffer(n, i, size);
      }
      if r.producer.SlotWritten? {
        SlotsDiffer(n, |r.pushed|, size);
      }
    case StoreHead =>
      NextSlot(|r.popped|, size);
  }

  lemma {:induction false} RunKeepsInv<T>(size: nat, rings: seq<Ring<T>>, steps: seq<Step<T>>, n: nat)
    requires Run(size, rings, steps) && n < |rings|
    ensures Inv(size, rings[n])
  {
    if n > 0 {
      RunKeepsInv(size, rings, steps, n - 1);
      var r, s := rings[n - 1], steps[n - 1];
      if s.LoadTail? || s.LoadHead? || s.WriteSlot? || s.StoreTail? {
        ProducerStepKeepsInv(size, r, s);
      } else {
        ConsumerStepKeepsInv(size, r, s);
      }
    }
  }

  // --- What every run guarantees ---

  /** The slots from the published head up to the published tail, walked around the ring. */
  function LiveSlots<T>(size: nat, r: Ring<T>): seq<Option<T>>
    requires size > 0 && |r.slots| == size && FirstInSlots(r) <= |r.pushed|
  {
    seq(|r.pushed| - FirstInSlots(r),
        i requires 0 <= i < |r.pushed| - FirstInSlots(r) => r.slots[(FirstInSlots(r) + i) % size])
  }

  function InHand<T>(r: Ring<T>): seq<Option<T>> {
    if r.consumer.SlotTaken? then [r.consumer.got] else []
  }

  function Wrapped<T>(s: seq<T>): seq<Option<T>> {
    seq(|s|, i requires 0 <= i < |s| => Some(s[i]))
  }

  /** Pushed is popped, then the item in the consumer's hand, then the live slots; nothing is lost, duplicated,
      reordered or read moved-from, and at most `size - 1` items are in the ring. */
  lemma Conservation<T>(size: nat, rings: seq<Ring<T>>, steps: seq<Step<T>>, n: nat)
    requires Run(size, rings, steps) && n < |rings|
    ensures var r := rings[n];
            && |r.slots| == size && FirstInSlots(r) <= |r.pushed|
            && Wrapped(r.pushed) == r.popped + InHand(r) + LiveSlots(size, r)
            && r.popped <= Wrapped(r.pushed)
            && |r.pushed| - |r.popped| <= size - 1
  {
    RunKeepsInv(size, rings, steps, n);
    var r := rings[n];
    var all := r.popped + InHand(r) + LiveSlots(size, r);
    forall i | 0 <= i < |r.pushed|
      ensures all[i] == Some(r.pushed[i])
    {
    }
    assert Wrapped(r.pushed) == all;
  }

  /** Accesses to one slot never race. The item the consumer is about to take was published by a tail store it has
      acquired; every earlier item of the slot the producer is about to write was released by a head store it has
      acquired; so the two threads never stand at the same slot. */
  lemma NoDataRace<T>(size: nat, rings: seq<Ring<T>>, steps: seq<Step<T>>, n: nat)
    requires Run(size, rings, steps) && n < |rings|
    ensures var r := rings[n];
            && (r.consumer.ItemSeen? ==> r.consumer.h == |r.popped| % size && |r.popped| < r.seenTail)
            && (r.producer.RoomSeen? ==> r.producer.t == |r.pushed| % size)
            && (r.producer.RoomSeen? ==>
                  forall i :: 0 <= i < |r.pushed| && i % size == |r.pushed| % size ==> i < r.seenHead)
            && (r.producer.RoomSeen? && r.consumer.ItemSeen? ==> r.producer.t != r.consumer.h)
  {
    RunKeepsInv(size, rings, steps, n);
    var r := rings[n];
    if r.producer.RoomSeen? {
      forall i | r.seenHead <= i < |r.pushed|
        ensures i % size != |r.pushed| % size
      {
        SlotsDiffer(i, |r.pushed|, size);
      }
    }
  }

  // --- The logs, from the steps alone ---

  /** The item given to the latest push. */
  function LastGiven<T>(steps: seq<Step<T>>): Option<T> {
    if steps == [] then None else
    var last := steps[|steps| - 1];
    if last.LoadTail? then Some(last.item) else LastGiven(steps[..|steps| - 1])
  }

  /** The items given to the pushes that got as far as publishing. */
  function Stored<T>(steps: seq<Step<T>>): seq<Option<T>> {
    if steps == [] then [] else
    var front := steps[..|steps| - 1];
    if steps[|steps| - 1].StoreTail? then Stored(front) + [LastGiven(front)] else Stored(front)
  }

  /** The number of pops that got as far as releasing their slot. */
  function Released<T>(steps: seq<Step<T>>): nat {
    if steps == [] then 0 else
    Released(steps[..|steps| - 1]) + (if steps[|steps| - 1].StoreHead? then 1 else 0)
  }

  ghost predicate LogsFollow<T>(r: Ring<T>, steps: seq<Step<T>>) {
    && Wrapped(r.pushed) == Stored(steps) && |r.popped| == Released(steps)
    && (!r.producer.Ready? ==> LastGiven(steps) == Some(r.producer.item))
  }

  lemma StepKeepsLogs<T>(size: nat, r: Ring<T>, steps: seq<Step<T>>, s: Step<T>)
    requires Shape(size, r) && Enabled(size, r, s) && LogsFollow(r, steps)
    ensures LogsFollow(Do(size, r, s), steps + [s])
  {
    assert (steps + [s])[..|steps|] == steps;
    if s.StoreTail? {
      assert Wrapped(r.pushed + [r.producer.item]) == Wrapped(r.pushed) + [Some(r.producer.item)];
    }
  }

  lemma {:induction false} RunKeepsLogs<T>(size: nat, rings: seq<Ring<T>>, steps: seq<Step<T>>, n: nat)
    requires Run(size, rings, steps) && n < |rings|
    ensures LogsFollow(rings[n], steps[..n])
  {
    if n > 0 {
      RunKeepsLogs(size, rings, steps, n - 1);
      hide Do, LogsFollow;
      StepKeepsLogs(size, rings[n - 1], steps[..n - 1], steps[n - 1]);
      assert steps[..n - 1] + [steps[n - 1]] == steps[..n];
    }
  }

  /** What pops return is what pushes were given: in every run the push log is the items given to the pushes that
      published, in order, and the pop log is as many of them, from the first, as pops have released. */
  lemma PopsReturnWhatPushesWereGiven<T>(size: nat, rings: seq<Ring<T>>, steps: seq<Step<T>>, n: nat)
    requires Run(size, rings, steps) && n < |rings|
    ensures Wrapped(rings[n].pushed) == Stored(steps[..n])
    ensures Released(steps[..n]) <= |Stored(steps[..n])|
    ensures rings[n].popped == Stored(steps[..n])[..Released(steps[..n])]
  {
    RunKeepsLogs(size, rings, steps, n);
    Conservation(size, rings, steps, n);
  }

  /** A push gives up exactly when the head store it read leaves no room, and a pop when the tail store it read
      leaves no item; otherwise they go on. On a fresh load, they give up exactly when the ring is full, or empty, at
      that moment. */
  lemma GivesUpIff<T>(size: nat, rings: seq<Ring<T>>, steps: seq<Step<T>>, n: nat)
    requires Run(size, rings, steps) && n < |steps|
    ensures var r, s, r' := rings[n], steps[n], rings[n + 1];
            && (s.LoadHead? ==> (r'.producer.Ready? <==> |r.pushed| - s.store == size - 1)
                                && (!r'.producer.Ready? ==> r'.producer.RoomSeen?))
            && (s.LoadHead? && s.store == |r.headStores| - 1 ==>
                  (r'.producer.Ready? <==> |r.pushed| - |r.popped| == size - 1))
            && (s.LoadTheirTail? ==> (r'.consumer.Waiting? <==> |r.popped| == s.store)
                                     && (!r'.consumer.Waiting? ==> r'.consumer.ItemSeen?))
            && (s.LoadTheirTail? && s.store == |r.tailStores| - 1 ==>
                  (r'.consumer.Waiting? <==> |r.popped| == |r.pushed|))
  {
    RunKeepsInv(size, rings, steps, n);
    match steps[n]
    case LoadHead(k) => LoadMeaning(size, rings[n], k);
    case LoadTheirTail(k) => LoadMeaning(size, rings[n], k);
    case _ =>
  }

  // --- One operation at a time ---

  ghost predicate Chain<T>(size: nat, rings: seq<Ring<T>>, steps: seq<Step<T>>) {
    && |rings| == |steps| + 1
    && forall i :: 0 <= i < |steps| ==>
         Shape(size, rings[i]) && Enabled(size, rings[i], steps[i]) && rings[i + 1] == Do(size, rings[i], steps[i])
  }

  /** A push that nothing interrupts publishes its item, or gives up on a full ring. */
  lemma PushAlone<T>(size: nat, r: Ring<T>, item: T) returns (rings: seq<Ring<T>>, steps: seq<Step<T>>)
    requires Inv(size, r) && r.producer.Ready?
    ensures Chain(size, rings, steps) && rings[0] == r && steps != [] && steps[0] == LoadTail(item)
    ensures var r' := rings[|steps|];
            && Inv(size, r') && r'.producer.Ready? && r'.popped == r.popped && r'.consumer == r.consumer
            && r'.pushed == r.pushed + (if |r.pushed| - |r.popped| < size - 1 then [item] else [])
  {
    var load, look := LoadTail(item), LoadHead(|r.headStores| - 1);
    ProducerStepKeepsInv(size, r, load);
    var r1 := Do(size, r, load);
    LoadMeaning(size, r1, look.store);
    ProducerStepKeepsInv(size, r1, look);
    var r2 := Do(size, r1, look);
    rings, steps := [r, r1, r2], [load, look];
    if |r.pushed| - |r.popped| < size - 1 {
      ProducerStepKeepsInv(size, r2, WriteSlot);
      var r3 := Do(size, r2, WriteSlot);
      ProducerStepKeepsInv(size, r3, StoreTail);
      rings, steps := [r, r1, r2, r3, Do(size, r3, StoreTail)], [load, look, WriteSlot, StoreTail];
    }
  }

  /** A pop that nothing interrupts returns the oldest item, or gives up on an empty ring. */
  lemma PopAlone<T>(size: nat, r: Ring<T>) returns (rings: seq<Ring<T>>, steps: seq<Step<T>>)
    requires Inv(size, r) && r.consumer.Waiting?
    ensures Chain(size, rings, steps) && rings[0] == r && steps != [] && steps[0] == LoadOwnHead
    ensures var r' := rings[|steps|];
            && Inv(size, r') && r'.consumer.Waiting? && r'.pushed == r.pushed && r'.producer == r.producer
            && r'.popped == r.popped + (if |r.popped| < |r.pushed| then [Some(r.pushed[|r.popped|])] else [])
  {
    var look := LoadTheirTail(|r.tailStores| - 1);
    ConsumerStepKeepsInv(size, r, LoadOwnHead);
    var r1 := Do(size, r, LoadOwnHead);
    LoadMeaning(size, r1, look.store);
    ConsumerStepKeepsInv(size, r1, look);
    var r2 := Do(size, r1, look);
    rings, steps := [r, r1, r2], [LoadOwnHead, look];
    if |r.popped| < |r.pushed| {
      ConsumerStepKeepsInv(size, r2, TakeSlot);
      var r3 := Do(size, r2, TakeSlot);
      ConsumerStepKeepsInv(size, r3, StoreHead);
      rings, steps := [r, r1, r2, r3, Do(size, r3, StoreHead)], [LoadOwnHead, look, TakeSlot, StoreHead];
    }
  }
}
