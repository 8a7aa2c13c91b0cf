/**
 liburing's submission ring: an application that acquires entries, stages them into the shared
 index array and publishes the tail, and a kernel that takes published entries. The counters are
 32-bit and wrap; the ring is shown to be a FIFO for any interleaving of the two parties.
 */
module SubmissionRing {
  import opened Common
  import opened Bits

  /** The ring. `khead`, `ktail`, `arr` and `sqes` are shared with the kernel. `tail` is the local
      copy of the kernel tail that a flush in progress advances before storing it. */
  datatype Sq<T> = Sq(logEntries: nat, khead: U32, ktail: U32, tail: U32, sqeHead: U32, sqeTail: U32,
                      arr: seq<U32>, sqes: seq<T>)
  {
    function Entries(): nat { Pow2(logEntries) }
    function Mask(): nat { Pow2(logEntries) - 1 }
  }

  ghost predicate Wf<T>(s: Sq<T>) {
    s.logEntries <= 31 && |s.arr| == |s.sqes| == s.Entries()
  }

  /** Array index of a counter, as the C code computes it. */
  function Slot<T>(s: Sq<T>, counter: U32): nat { And(counter, s.Mask()) }

  lemma SlotInRange<T>(s: Sq<T>, counter: U32)
    requires Wf(s)
    ensures Slot(s, counter) < s.Entries()
  {
    AndMask(counter, s.logEntries);
  }

  /** `io_uring_sq_ready` and `io_uring_sq_space_left`, with the head value that was loaded. */
  function SqReady<T>(s: Sq<T>, head: U32): U32 { Sub32(s.sqeTail, head) }

  function SqSpaceLeft<T>(s: Sq<T>, head: U32): U32
    requires s.Entries() < 0x1_0000_0000
  {
    Sub32(s.Entries(), SqReady(s, head))
  }

  /** `io_uring_get_sqe` with the head value that was loaded. */
  function GetSqe<T>(s: Sq<T>, head: U32): (Sq<T>, Option<nat>) {
    var next := Inc32(s.sqeTail);
    if Sub32(next, head) <= s.Entries() then (s.(sqeTail := next), Some(Slot(s, s.sqeTail))) else (s, None)
  }

  /** The application fills in an entry it has acquired. */
  function Fill<T>(s: Sq<T>, slot: nat, v: T): Sq<T>
    requires slot < |s.sqes|
  {
    s.(sqes := s.sqes[slot := v])
  }

  /** One turn of the loop in `__io_uring_flush_sq`. */
  function Stage<T>(s: Sq<T>): Sq<T>
    requires Wf(s)
  {
    SlotInRange(s, s.tail);
    s.(arr := s.arr[Slot(s, s.tail) := Slot(s, s.sqeHead)], tail := Inc32(s.tail), sqeHead := Inc32(s.sqeHead))
  }

  /** The store of the kernel tail that ends a flush. */
  function Publish<T>(s: Sq<T>): Sq<T> { s.(ktail := s.tail) }

  /** The kernel reads the entry at its head. */
  function Take<T>(s: Sq<T>): (r: (Sq<T>, Option<T>))
    requires Wf(s)
  {
    SlotInRange(s, s.khead);
    var i := s.arr[Slot(s, s.khead)];
    (s.(khead := Inc32(s.khead)), if i < |s.sqes| then Some(s.sqes[i]) else None)
  }

  // ------------------------------------------------------------------ the abstract queue

  /** Unbounded counterparts of the counters, and the entries ever acquired in order.
      `seen` is the last head value the application has used. */
  datatype Fifo<T> = Fifo(content: seq<T>, staged: nat, flushed: nat, taken: nat, seen: nat)

  ghost predicate Refines<T>(s: Sq<T>, f: Fifo<T>) {
    && Wf(s)
    && f.seen <= f.taken <= f.flushed <= f.staged <= |f.content| <= f.seen + s.Entries()
    && s.khead == f.taken % WORD && s.ktail == f.flushed % WORD
    && s.tail == s.sqeHead == f.staged % WORD && s.sqeTail == |f.content| % WORD
    && (forall j :: f.taken <= j < f.staged ==> s.arr[j % s.Entries()] == j % s.Entries())
    && (forall j :: f.taken <= j < |f.content| ==> s.sqes[j % s.Entries()] == f.content[j])
  }

  lemma Counter<T>(s: Sq<T>, n: nat)
    requires Wf(s)
    ensures n % WORD < WORD && Slot(s, n % WORD) == n % s.Entries() < s.Entries()
    ensures Inc32(n % WORD) == (n + 1) % WORD
  {
    MaskedCounter(n, s.logEntries);
    WrapIncrement(n);
  }

  lemma EntriesBound<T>(s: Sq<T>)
    requires Wf(s)
    ensures 1 <= s.Entries() <= 0x8000_0000
  {
    Pow2Monotone(s.logEntries, 31);
    Pow2Word();
  }

  /** The test in get_sqe is the test whether space is left, and is exact in unbounded counts. */
  lemma AcquireDecision<T>(s: Sq<T>, t: nat, head: nat)
    requires Wf(s) && s.sqeTail == t % WORD && head <= t <= head + s.Entries()
    ensures s.Entries() < 0x1_0000_0000
    ensures GetSqe(s, head % WORD).1.Some? <==> SqSpaceLeft(s, head % WORD) != 0
    ensures GetSqe(s, head % WORD).1.Some? <==> t < head + s.Entries()
    ensures GetSqe(s, head % WORD) ==
              if t < head + s.Entries() then (s.(sqeTail := (t + 1) % WORD), Some(t % s.Entries())) else (s, None)
  {
    hide Pow2, And, Slot, Sub32, Inc32;
    EntriesBound(s);
    Counter(s, t);
    WrapDifference(t + 1, head);
    WrapDifference(t, head);
    var n := s.Entries();
    assert SqReady(s, head % WORD) == t - head;
    SmallDifference(n, t - head);
    assert Sub32(Inc32(s.sqeTail), head % WORD) == t + 1 - head;
  }

  /** Acquiring succeeds exactly when the head value used leaves space, and then hands out the slot
      of the next entry in order, which no entry still pending occupies. */
  lemma AcquireRefines<T>(s: Sq<T>, f: Fifo<T>, head: nat)
    requires Refines(s, f) && f.seen <= head <= f.taken
    ensures s.Entries() < 0x1_0000_0000
    ensures var (s', slot) := GetSqe(s, head % WORD);
            && (slot.Some? <==> SqSpaceLeft(s, head % WORD) != 0)
            && (slot.Some? <==> |f.content| < head + s.Entries())
            && (slot.None? ==> Refines(s', f.(seen := head)))
            && (slot.Some? ==>
                  && slot.value == |f.content| % s.Entries() < |s.sqes|
                  && (forall j :: f.taken <= j < |f.content| ==> j % s.Entries() != slot.value)
                  && Refines(s', f.(content := f.content + [s.sqes[slot.value]], seen := head)))
  {
    var n, t := s.Entries(), |f.content|;
    AcquireDecision(s, t, head);
    Counter(s, t);
    hide Pow2, And, Slot, GetSqe, SqSpaceLeft;
    forall j | f.taken <= j < t && t < head + n ensures j % n != t % n {
      ModDistinct(j, t, n);
    }
  }

  /** Filling an entry that is acquired but not yet published changes that entry only. */
  lemma FillRefines<T>(s: Sq<T>, f: Fifo<T>, k: nat, v: T)
    requires Refines(s, f) && f.flushed <= k < |f.content|
    ensures k % s.Entries() < |s.sqes|
    ensures Refines(Fill(s, k % s.Entries(), v), f.(content := f.content[k := v]))
  {
    var n := s.Entries();
    forall j | f.taken <= j < |f.content| && j != k ensures j % n != k % n {
      if j < k { ModDistinct(j, k, n); } else { ModDistinct(k, j, n); }
    }
  }

  lemma StagedArray(arr: seq<nat>, n: nat, taken: nat, staged: nat)
    requires |arr| == n > 0 && taken <= staged < taken + n
    requires forall j :: taken <= j < staged ==> arr[j % n] == j % n
    ensures var arr' := arr[staged % n := staged % n]; forall j :: taken <= j < staged + 1 ==> arr'[j % n] == j % n
  {
    forall j | taken <= j < staged ensures j % n != staged % n {
      ModDistinct(j, staged, n);
    }
  }

  lemma StageIs<T>(s: Sq<T>, staged: nat, slot: U32, next: U32)
    requires s.Entries() > 0
    requires Wf(s) && s.tail == s.sqeHead == staged % WORD
    requires slot == staged % s.Entries() && next == (staged + 1) % WORD
    ensures slot < |s.arr|
    ensures Stage(s) == s.(arr := s.arr[slot := slot], tail := next, sqeHead := next)
  {
    hide Pow2, And, Slot, Inc32;
    Counter(s, staged);
  }

  lemma StageRefines<T>(s: Sq<T>, f: Fifo<T>)
    requires Refines(s, f) && f.staged < |f.content|
    ensures Refines(Stage(s), f.(staged := f.staged + 1))
  {
    hide Pow2, Stage, Slot, And;
    EntriesBound(s);
    Counter(s, f.staged);
    StageIs(s, f.staged, f.staged % s.Entries(), (f.staged + 1) % WORD);
    StagedArray(s.arr, s.Entries(), f.taken, f.staged);
  }

  lemma PublishRefines<T>(s: Sq<T>, f: Fifo<T>)
    requires Refines(s, f)
    ensures Refines(Publish(s), f.(flushed := f.staged))
  {
  }

  lemma Heads<T>(s: Sq<T>, f: Fifo<T>)
    requires Refines(s, f)
    ensures Wf(s) && s.khead == f.taken % WORD && s.ktail == f.flushed % WORD
    ensures f.taken <= f.flushed <= f.staged <= |f.content| && f.flushed - f.taken <= s.Entries()
  {
    hide Pow2;
  }

  lemma OldestEntry<T>(s: Sq<T>, f: Fifo<T>, slot: nat)
    requires Refines(s, f) && f.taken < f.staged && slot == f.taken % s.Entries()
    ensures slot < |s.arr| && s.arr[slot] == slot < |s.sqes| && s.sqes[slot] == f.content[f.taken]
  {
    hide Pow2;
  }

  lemma Consumed<T>(s: Sq<T>, f: Fifo<T>)
    requires Refines(s, f) && f.taken < f.flushed
    ensures Refines(s.(khead := (f.taken + 1) % WORD), f.(taken := f.taken + 1))
  {
    hide Pow2;
  }

  /** The kernel sees that an entry is pending, and reads the oldest one not yet taken. */
  lemma TakeRefines<T>(s: Sq<T>, f: Fifo<T>)
    requires Refines(s, f)
    ensures s.khead != s.ktail <==> f.taken < f.flushed
    ensures f.taken < f.flushed ==>
              Take(s).1 == Some(f.content[f.taken]) && Refines(Take(s).0, f.(taken := f.taken + 1))
  {
    hide Pow2, And, Slot, Inc32, Sub32, Refines, Take;
    Heads(s, f);
    HeadsDiffer(s, f.flushed, f.taken);
    if f.taken < f.flushed {
      TakeOldest(s, f);
      Consumed(s, f);
    }
  }

  lemma HeadsDiffer<T>(s: Sq<T>, flushed: nat, taken: nat)
    requires Wf(s) && taken <= flushed && flushed - taken <= s.Entries()
    ensures flushed % WORD != taken % WORD <==> taken < flushed
  {
    hide Pow2, Sub32;
    EntriesBound(s);
    WrapDifference(flushed, taken);
    WrapDifference(taken, taken);
  }

  lemma TakeOldest<T>(s: Sq<T>, f: Fifo<T>)
    requires Refines(s, f) && f.taken < f.flushed
    ensures Take(s) == (s.(khead := (f.taken + 1) % WORD), Some(f.content[f.taken]))
  {
    hide Pow2, And, Slot, Inc32, Refines;
    Heads(s, f);
    Counter(s, f.taken);
    OldestEntry(s, f, Slot(s, s.khead));
  }

  // ------------------------------------------------------------------ any interleaving

  /** A step of either party. `Acquire` uses any head value at least as recent as the last one used;
      `WriteEntry` fills the k-th entry ever acquired. */
  datatype Step<T> = Acquire(head: nat) | WriteEntry(k: nat, v: T) | StageOne | PublishTail | KernelTake

  ghost predicate CanStep<T>(f: Fifo<T>, step: Step<T>) {
    match step
    case Acquire(head) => f.seen <= head <= f.taken
    case WriteEntry(k, _) => f.flushed <= k < |f.content|
    case StageOne => f.staged < |f.content|
    case PublishTail => true
    case KernelTake => f.taken < f.flushed
  }

  /** What the step does to the ring, and the entry the kernel reads in it, if any. */
  ghost function RingStep<T>(s: Sq<T>, step: Step<T>): (Sq<T>, seq<T>)
    requires Wf(s)
  {
    match step
    case Acquire(head) => (GetSqe(s, head % WORD).0, [])
    case WriteEntry(k, v) => (if k % s.Entries() < |s.sqes| then Fill(s, k % s.Entries(), v) else s, [])
    case StageOne => (Stage(s), [])
    case PublishTail => (Publish(s), [])
    case KernelTake =>
      (match Take(s) case (s', Some(v)) => (s', [v]) case (s', None) => (s', []))
  }

  /** What the same step does to the queue. */
  ghost function FifoStep<T>(s: Sq<T>, f: Fifo<T>, step: Step<T>): Fifo<T> {
    match step
    case Acquire(head) =>
      (match GetSqe(s, head % WORD).1
       case Some(slot) =>
         if slot < |s.sqes| then f.(content := f.content + [s.sqes[slot]], seen := head) else f
       case None => f.(seen := head))
    case WriteEntry(k, v) => if k < |f.content| then f.(content := f.content[k := v]) else f
    case StageOne => f.(staged := f.staged + 1)
    case PublishTail => f.(flushed := f.staged)
    case KernelTake => f.(taken := f.taken + 1)
  }

  lemma StepRefines<T>(s: Sq<T>, f: Fifo<T>, step: Step<T>)
    requires Refines(s, f) && CanStep(f, step)
    ensures Refines(RingStep(s, step).0, FifoStep(s, f, step))
    ensures RingStep(s, step).1 == if step.KernelTake? then [f.content[f.taken]] else []
    ensures var f1 := FifoStep(s, f, step);
            && f.taken <= f.flushed <= |f.content| && f1.taken <= f1.flushed <= |f1.content|
            && f1.taken == f.taken + |RingStep(s, step).1| && f.flushed <= f1.flushed
            && f.content[..f.flushed] == f1.content[..f.flushed]
  {
    hide Pow2, And, Slot, Inc32, Sub32, Stage, Take;
    match step
    case Acquire(head) => AcquireRefines(s, f, head);
    case WriteEntry(k, v) => FillRefines(s, f, k, v);
    case StageOne => StageRefines(s, f);
    case PublishTail => PublishRefines(s, f);
    case KernelTake => TakeRefines(s, f);
  }

  /** Final ring, queue and everything the kernel has read, after a run from (s, f). */
  ghost function RunFrom<T>(s: Sq<T>, f: Fifo<T>, steps: seq<Step<T>>): (r: (Sq<T>, Fifo<T>, seq<T>))
    requires Refines(s, f)
    decreases |steps|
  {
    if steps == [] || !CanStep(f, steps[0]) then (s, f, [])
    else
      StepRefines(s, f, steps[0]);
      var (s', read) := RingStep(s, steps[0]);
      var (s'', f'', more) := RunFrom(s', FifoStep(s, f, steps[0]), steps[1..]);
      (s'', f'', read + more)
  }

  lemma SliceHead<T>(c: seq<T>, i: nat, j: nat)
    requires i < j <= |c|
    ensures c[i..j] == [c[i]] + c[i + 1..j]
  {
  }

  lemma StepsKeepBounds<T>(s: Sq<T>, f: Fifo<T>)
    requires Refines(s, f)
    ensures f.taken <= f.flushed <= |f.content|
  {
  }

  /** For any interleaving of acquire, fill, flush and kernel consumption: the kernel has read every
      acquired entry at most once, in acquisition order, with its published content. */
  lemma {:induction false} KernelReadsInOrder<T>(s: Sq<T>, f: Fifo<T>, steps: seq<Step<T>>)
    requires Refines(s, f)
    ensures var (s', f', read) := RunFrom(s, f, steps);
            && Refines(s', f')
            && f.taken <= f'.taken && |read| == f'.taken - f.taken
            && f'.taken <= |f'.content|
            && read == f'.content[f.taken..f'.taken]
            && f.flushed <= f'.flushed && f.content[..f.flushed] == f'.content[..f.flushed]
    decreases |steps|
  {
    StepsKeepBounds(s, f);
    hide Refines, RingStep, FifoStep, CanStep;
    if steps != [] && CanStep(f, steps[0]) {
      StepRefines(s, f, steps[0]);
      var (s1, read) := RingStep(s, steps[0]);
      var f1 := FifoStep(s, f, steps[0]);
      KernelReadsInOrder(s1, f1, steps[1..]);
      var (s', f', more) := RunFrom(s1, f1, steps[1..]);
      assert f1.content[..f1.flushed][..f.flushed] == f1.content[..f.flushed];
      assert f'.content[..f1.flushed][..f.flushed] == f'.content[..f.flushed];
      if steps[0].KernelTake? {
        assert f'.content[..f.flushed][f.taken] == f.content[..f.flushed][f.taken];
        SliceHead(f'.content, f.taken, f'.taken);
      } else {
        assert read + more == more;
      }
    }
  }

  /** A ring the kernel has just set up. */
  ghost predicate Blank<T>(s: Sq<T>) {
    Wf(s) && s.khead == s.ktail == s.tail == s.sqeHead == s.sqeTail == 0
  }

  /** From a fresh ring, what the kernel has read is a prefix of what was acquired. */
  lemma FreshRingIsFifo<T>(s: Sq<T>, steps: seq<Step<T>>)
    requires Blank(s)
    ensures Refines(s, Fifo([], 0, 0, 0, 0))
    ensures var (s', f', read) := RunFrom(s, Fifo([], 0, 0, 0, 0), steps);
            Refines(s', f') && read == f'.content[..f'.taken]
  {
    KernelReadsInOrder(s, Fifo([], 0, 0, 0, 0), steps);
    var f' := RunFrom(s, Fifo([], 0, 0, 0, 0), steps).1;
    assert f'.content[0..f'.taken] == f'.content[..f'.taken];
  }

  // ------------------------------------------------------------------ the library's own operations

  class IoUringSq<T(0)> {
    const logEntries: nat
    var khead: U32
    var ktail: U32
    var sqeHead: U32
    var sqeTail: U32
    const arr: array<U32>
    const sqes: array<T>
    ghost var queue: Fifo<T>

    ghost function View(tail: U32): Sq<T>
      reads this, arr, sqes
    {
      Sq(logEntries, khead, ktail, tail, sqeHead, sqeTail, arr[..], sqes[..])
    }

    ghost predicate Valid()
      reads this, arr, sqes
    {
      (arr as object) != (sqes as object) && Refines(View(ktail), queue) && queue.staged == queue.flushed
    }

    /** `io_uring_get_sqe`; `head` is what the load of the kernel head returned. */
    method GetSqe(head: U32, ghost headCount: nat) returns (slot: Option<nat>)
      requires Valid() && queue.seen <= headCount <= queue.taken && head == headCount % WORD
      modifies this
      ensures Valid() && khead == old(khead) && ktail == old(ktail) && sqeHead == old(sqeHead)
      ensures queue.taken == old(queue.taken) && queue.flushed == old(queue.flushed)
      ensures slot.Some? <==> |old(queue.content)| < headCount + Pow2(logEntries)
      ensures slot.None? ==> queue.content == old(queue.content) && sqeTail == old(sqeTail)
      ensures slot.Some? ==>
                && slot.value == |old(queue.content)| % Pow2(logEntries) < sqes.Length
                && queue.content == old(queue.content) + [sqes[slot.value]]
                && forall j :: queue.taken <= j < |old(queue.content)| ==> j % Pow2(logEntries) != slot.value
    {
      AcquireRefines(View(ktail), queue, headCount);
      var next := Inc32(sqeTail);
      slot := None;
      ghost var q := queue;
      if Sub32(next, head) <= Pow2(logEntries) {
        slot := Some(And(sqeTail, Pow2(logEntries) - 1));
        queue := q.(content := q.content + [sqes[slot.value]], seen := headCount);
        sqeTail := next;
      } else {
        queue := q.(seen := headCount);
      }
    }

    /** One turn of the flush loop. */
    method StageEntry(tail: U32) returns (next: U32)
      requires (arr as object) != (sqes as object)
      requires Refines(View(tail), queue) && queue.staged < |queue.content|
      modifies this`sqeHead, this`queue, arr
      ensures Refines(View(next), queue) && queue == old(queue).(staged := old(queue).staged + 1)
    {
      StageRefines(View(tail), queue);
      SlotInRange(View(tail), tail);
      ghost var after := Stage(View(tail));
      hide Refines, Pow2, And, Inc32;
      arr[And(tail, Pow2(logEntries) - 1)] := And(sqeHead, Pow2(logEntries) - 1);
      next := Inc32(tail);
      sqeHead := Inc32(sqeHead);
      assert View(next) == after;
      queue := queue.(staged := queue.staged + 1);
    }

    /** `__io_uring_flush_sq`; `head` is the possibly outdated kernel head it reads at the end. */
    method FlushSq(head: U32, ghost headCount: nat) returns (pending: U32)
      requires Valid() && queue.seen <= headCount <= queue.taken && head == headCount % WORD
      modifies this, arr
      ensures Valid() && khead == old(khead) && sqeTail == old(sqeTail)
      ensures queue == old(queue).(staged := |old(queue).content|, flushed := |old(queue).content|)
      ensures pending == queue.flushed - headCount >= queue.flushed - queue.taken
    {
      var tail := ktail;
      var toSubmit := Sub32(sqeTail, sqeHead);
      ghost var q := queue;
      EntriesBound(View(ktail));
      WrapDifference(|q.content|, q.staged);
      WrapDifference(|q.content|, headCount);
      while toSubmit != 0
        invariant Refines(View(tail), queue)
        invariant queue == q.(staged := queue.staged)
        invariant toSubmit == |q.content| - queue.staged
        invariant khead == old(khead) && sqeTail == old(sqeTail)
        decreases toSubmit
      {
        tail := StageEntry(tail);
        toSubmit := toSubmit - 1;
      }
      PublishRefines(View(tail), queue);
      hide Pow2, And, Inc32;
      ktail := tail;
      queue := queue.(flushed := queue.staged);
      pending := Sub32(tail, head);
    }

    /** One entry taken by the kernel. */
    method KernelTakeEntry() returns (entry: Option<T>)
      requires Valid()
      modifies this`khead, this`queue
      ensures Valid()
      ensures old(queue.taken) == old(queue.flushed) ==> entry.None? && queue == old(queue) && khead == old(khead)
      ensures old(queue.taken) < old(queue.flushed) ==>
                && entry == Some(old(queue.content[queue.taken]))
                && queue == old(queue).(taken := old(queue).taken + 1)
    {
      TakeRefines(View(ktail), queue);
      if khead == ktail {
        return None;
      }
      SlotInRange(View(ktail), khead);
      Counter(View(ktail), queue.taken);
      var i := arr[And(khead, Pow2(logEntries) - 1)];
      entry := Some(sqes[i]);
      khead := Inc32(khead);
      queue := queue.(taken := queue.taken + 1);
    }
  }
}
