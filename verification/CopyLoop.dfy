/**
 The asynchronous copy loop of liburing's `io_uring-cp` example. Every answer of the environment (malloc,
 the kernel taking queued entries, completions in any order) comes from a script, so a method that
 returns when its script runs out describes every reachable state of the loop.
 */
module CopyLoop {
  import opened Common

  const QD: nat := 64
  const BS: nat := 0x8000

  /** `struct io_data`; `base` is how far `iov_base` has moved into the buffer behind the record. */
  datatype IoData = IoData(read: bool, firstOffset: nat, offset: nat, firstLen: nat, base: nat, iovLen: nat,
                           buf: seq<U8>)

  /** The locals of `copy_file`, the records by order of allocation, the submission queue's entries that
      the kernel has not taken, and the bytes written to the output file. */
  datatype Copy = Copy(insize: nat, offset: nat, writeLeft: int, reading: int, writing: int,
                       live: map<nat, IoData>, sq: seq<nat>, next: nat, out: map<nat, U8>)

  // ------------------------------------------------------------------ steps

  /** `queue_read`, and the bookkeeping of its caller when it succeeds. */
  function QueueRead(s: Copy, alloc: bool, size: nat): Option<Copy>
    requires size <= s.insize
  {
    if !alloc || |s.sq| >= QD then None
    else
      var d := IoData(true, s.offset, s.offset, size, 0, size, seq(size, _ => 0));
      Some(s.(live := s.live[s.next := d], sq := s.sq + [s.next], next := s.next + 1,
              insize := s.insize - size, offset := s.offset + size, reading := s.reading + 1))
  }

  /** The kernel takes queued entries. */
  function Submit(s: Copy, taken: nat): Copy {
    s.(sq := s.sq[if taken <= |s.sq| then taken else |s.sq|..])
  }

  predicate InFlight(s: Copy, id: nat) { id in s.live && id !in s.sq }

  /** The bytes a completed request has moved: from the input file into the record's buffer, or from
      there into the output file. */
  function Filled(infile: seq<U8>, d: IoData, n: nat): IoData {
    if d.read && d.offset + n <= |infile| && d.base + n <= |d.buf| then
      d.(buf := d.buf[..d.base] + infile[d.offset..d.offset + n] + d.buf[d.base + n..])
    else d
  }

  function ByteFor(d: IoData, p: nat): U8 {
    if d.offset <= p && d.base + p - d.offset < |d.buf| then d.buf[d.base + p - d.offset] else 0
  }

  function Written(out: map<nat, U8>, d: IoData, n: nat): map<nat, U8> {
    if d.read then out else out + (map p: nat | d.offset <= p < d.offset + n :: ByteFor(d, p))
  }

  function Advanced(d: IoData, n: nat): IoData
    requires n <= d.iovLen
  {
    d.(base := d.base + n, iovLen := d.iovLen - n, offset := d.offset + n)
  }

  /** `queue_prepped` of a record; the caller asserts that there is a free entry. */
  function QueuePrepped(s: Copy, id: nat, d: IoData): Copy {
    s.(live := s.live[id := d], sq := s.sq + [id])
  }

  function AsWrite(d: IoData): IoData {
    d.(read := false, offset := d.firstOffset, base := 0, iovLen := d.firstLen)
  }

  function Freed(s: Copy, id: nat): Copy { s.(live := s.live - {id}) }

  // ------------------------------------------------------------------ what every state keeps

  function ChunkLen(size: nat, id: nat): nat
    requires id * BS < size
  {
    if size - id * BS <= BS then size - id * BS else BS
  }

  ghost predicate Record(infile: seq<U8>, id: nat, d: IoData) {
    && id * BS < |infile| && d.firstOffset == id * BS && d.firstLen == ChunkLen(|infile|, id)
    && |d.buf| == d.firstLen && d.base + d.iovLen == d.firstLen && 0 < d.iovLen
    && d.offset == d.firstOffset + d.base
    && var n := if d.read then d.base else d.firstLen;
       d.buf[..n] == infile[d.firstOffset..d.firstOffset + n]
  }

  /** The chunks are where they should be, and each live record is in the submission queue at most once. */
  ghost predicate Shape(infile: seq<U8>, s: Copy) {
    && s.offset + s.insize == |infile|
    && s.offset <= s.next * BS
    && (s.insize > 0 ==> s.offset == s.next * BS)
    && (s.next > 0 ==> (s.next - 1) * BS < s.offset)
    && (forall id :: id in s.live ==> id < s.next && Record(infile, id, s.live[id]))
    && NoDup(s.sq) && (forall id :: id in s.sq ==> id in s.live)
  }

  /** A byte of a chunk that is neither unread, being read, nor ahead of a live write. */
  predicate Past(s: Copy, p: nat) {
    p < s.offset && (p / BS in s.live ==> !s.live[p / BS].read && p < s.live[p / BS].offset)
  }

  /** Every byte in the output file is right, and no write that is still to come will write it again. */
  ghost predicate Right(infile: seq<U8>, s: Copy) {
    forall p :: p in s.out ==> p < |infile| && s.out[p] == infile[p] && Past(s, p)
  }

  ghost predicate Records(infile: seq<U8>, s: Copy) { Shape(infile, s) && Right(infile, s) }

  ghost function Of(live: map<nat, IoData>, read: bool): set<nat> {
    set id | id in live && live[id].read == read
  }

  /** The bytes of the first `k` chunks that are being read, or written. */
  ghost function Bytes(live: map<nat, IoData>, read: bool, k: nat): nat {
    if k == 0 then 0
    else (if k - 1 in live && live[k - 1].read == read then live[k - 1].firstLen else 0) + Bytes(live, read, k - 1)
  }

  ghost function Have(live: map<nat, IoData>, read: bool, id: nat): nat {
    if id in live && live[id].read == read then 1 else 0
  }

  ghost function Length(live: map<nat, IoData>, id: nat): nat {
    if id in live && live[id].read then live[id].firstLen else 0
  }

  ghost predicate Counts(s: Copy) {
    && s.reading == |Of(s.live, true)| && s.writing == |Of(s.live, false)|
    && s.writeLeft == s.insize + Bytes(s.live, true, s.next)
    && s.reading + s.writing <= QD
  }

  /** What is read and no longer live has been written, and so has what a live write is past. */
  ghost predicate Finished(s: Copy) {
    forall p :: Past(s, p) ==> p in s.out
  }

  ghost predicate Good(infile: seq<U8>, s: Copy) {
    Records(infile, s) && Counts(s) && Finished(s)
  }

  /** A byte that is not written and that no live write can still write. */
  ghost predicate Hole(infile: seq<U8>, s: Copy, p: nat) {
    p < |infile| && p !in s.out && (p / BS in s.live ==> s.live[p / BS].read)
  }

  ghost predicate Copied(infile: seq<U8>, out: map<nat, U8>) {
    forall p: nat :: p < |infile| ==> p in out && out[p] == infile[p]
  }

  // ------------------------------------------------------------------ one step at a time

  /** What a sum over the live records does when one record changes. */
  lemma {:induction false} BytesChange(a: map<nat, IoData>, b: map<nat, IoData>, read: bool, id: nat, k: nat)
    requires forall i :: i != id ==> (i in a <==> i in b) && (i in a ==> a[i] == b[i])
    ensures Bytes(b, read, k) - Bytes(a, read, k)
            == if id < k then Bytes(b, read, id + 1) - Bytes(b, read, id) - Bytes(a, read, id + 1) + Bytes(a, read, id)
               else 0
  {
    if k > 0 {
      BytesChange(a, b, read, id, k - 1);
      if id == k - 1 {
        BytesBelow(a, b, read, id, id);
      }
    }
  }

  lemma {:induction false} BytesBelow(a: map<nat, IoData>, b: map<nat, IoData>, read: bool, id: nat, k: nat)
    requires k <= id && forall i :: i != id ==> (i in a <==> i in b) && (i in a ==> a[i] == b[i])
    ensures Bytes(b, read, k) == Bytes(a, read, k)
  {
    if k > 0 {
      BytesBelow(a, b, read, id, k - 1);
    }
  }

  lemma CountChange(a: map<nat, IoData>, b: map<nat, IoData>, read: bool, id: nat)
    requires forall i :: i != id ==> (i in a <==> i in b) && (i in a ==> a[i] == b[i])
    ensures |Of(b, read)| - |Of(a, read)| == Have(b, read, id) - Have(a, read, id)
  {
    WithoutOne(Of(a, read), id);
    WithoutOne(Of(b, read), id);
    assert Of(a, read) - {id} == Of(b, read) - {id};
  }

  lemma WithoutOne(a: set<nat>, id: nat)
    ensures |a| == |a - {id}| + if id in a then 1 else 0
  {
    assert id !in a ==> a - {id} == a;
  }

  lemma {:induction false} NoBytesNoRecords(infile: seq<U8>, live: map<nat, IoData>, read: bool, k: nat)
    requires forall id :: id in live ==> Record(infile, id, live[id])
    requires Bytes(live, read, k) == 0
    ensures forall id :: id in live && id < k ==> live[id].read != read
  {
    if k > 0 {
      NoBytesNoRecords(infile, live, read, k - 1);
    }
  }

  /** The submission queue has room for any record that is in flight. */
  lemma QueueHasRoom(infile: seq<U8>, s: Copy)
    requires Good(infile, s)
    ensures s.reading + s.writing < QD ==> |s.sq| < QD
    ensures forall id :: InFlight(s, id) ==> |s.sq| < QD
    ensures |s.sq| <= QD
  {
    var live := s.live.Keys;
    assert live == Of(s.live, true) + Of(s.live, false);
    NoDupCardinality(s.sq);
    SubsetCardinality(Elements(s.sq), live);
    forall id | InFlight(s, id) ensures |s.sq| < QD {
      SubsetCardinality(Elements(s.sq), live - {id});
    }
  }

  lemma CountRecord(s: Copy, t: Copy, id: nat)
    requires Counts(s) && id < t.next && s.next <= t.next <= s.next + 1
    requires forall i :: i != id ==> (i in s.live <==> i in t.live) && (i in s.live ==> s.live[i] == t.live[i])
    requires s.next < t.next ==> id == s.next && id !in s.live
    requires id !in s.live ==> id == s.next
    requires t.reading - s.reading == Have(t.live, true, id) - Have(s.live, true, id)
    requires t.writing - s.writing == Have(t.live, false, id) - Have(s.live, false, id)
    requires t.writeLeft - s.writeLeft == t.insize - s.insize + Length(t.live, id) - Length(s.live, id)
    requires t.reading + t.writing <= QD
    ensures Counts(t)
  {
    BytesChange(s.live, t.live, true, id, t.next);
    forall read ensures |Of(t.live, read)| - |Of(s.live, read)| == Have(t.live, read, id) - Have(s.live, read, id) {
      CountChange(s.live, t.live, read, id);
    }
  }

  lemma NoDupAppend<T>(q: seq<T>, x: T)
    requires NoDup(q) && x !in q
    ensures NoDup(q + [x]) && forall y :: y in q + [x] <==> y in q || y == x
  {
  }

  lemma QueueReadShape(infile: seq<U8>, s: Copy, size: nat)
    requires Shape(infile, s) && |s.sq| < QD && s.insize > 0 && size == ChunkLen(|infile|, s.next)
    ensures size <= s.insize && Shape(infile, QueueRead(s, true, size).value)
  {
    var t := QueueRead(s, true, size).value;
    assert s.next !in s.live;
    NoDupAppend(s.sq, s.next);
    var d := t.live[s.next];
    assert d.buf[..0] == infile[d.firstOffset..d.firstOffset + 0];
    hide NoDup;
    assert Record(infile, s.next, d);
  }

  lemma QueueReadPast(infile: seq<U8>, s: Copy, size: nat, p: nat)
    requires Shape(infile, s) && |s.sq| < QD && s.insize > 0 && size == ChunkLen(|infile|, s.next)
    ensures size <= s.insize && (Past(QueueRead(s, true, size).value, p) <==> Past(s, p))
  {
    hide NoDup;
  }

  lemma QueueReadGood(infile: seq<U8>, s: Copy)
    requires Good(infile, s) && s.insize > 0 && s.reading + s.writing < QD
    ensures var size := if s.insize > BS then BS else s.insize;
            var r := QueueRead(s, true, size);
            r.Some? && Good(infile, r.value) && r.value.next == s.next + 1
            && s.next in r.value.live && r.value.live[s.next].read
  {
    hide Past, Shape, Counts, QueueRead;
    QueueHasRoom(infile, s);
    var size := if s.insize > BS then BS else s.insize;
    QueueReadCounts(infile, s, size);
    QueueReadShape(infile, s, size);
    var t := QueueRead(s, true, size).value;
    forall p: nat ensures Past(t, p) <==> Past(s, p) {
      QueueReadPast(infile, s, size, p);
    }
  }

  lemma QueueReadCounts(infile: seq<U8>, s: Copy, size: nat)
    requires Shape(infile, s) && Counts(s) && |s.sq| < QD && s.insize > 0 && s.reading + s.writing < QD
    requires size == if s.insize > BS then BS else s.insize
    ensures size == ChunkLen(|infile|, s.next) && QueueRead(s, true, size).Some?
    ensures var t := QueueRead(s, true, size).value;
            Counts(t) && t.out == s.out && t.next == s.next + 1 && s.next in t.live && t.live[s.next].read
  {
    assert s.next !in s.live;
    hide NoDup, Counts, Record;
    CountRecord(s, QueueRead(s, true, size).value, s.next);
  }

  lemma SubmitGood(infile: seq<U8>, s: Copy, taken: nat)
    requires Good(infile, s)
    ensures Good(infile, Submit(s, taken))
  {
  }

  // ------------------------------------------------------------------ completions

  predicate Moves(d: IoData, n: nat, p: nat) { !d.read && d.offset <= p < d.offset + n }

  /** A completion that moved `n` bytes and makes those past leaves the output right, and if it makes no
      others past, every past byte is still written. */
  lemma WrittenRight(infile: seq<U8>, s: Copy, t: Copy, id: nat, n: nat)
    requires Records(infile, s) && InFlight(s, id) && n <= s.live[id].iovLen
    requires t.out == Written(s.out, s.live[id], n)
    requires forall p :: Past(s, p) || Moves(s.live[id], n, p) ==> Past(t, p)
    ensures Right(infile, t)
    ensures Finished(s) && (forall p :: Past(t, p) ==> Past(s, p) || Moves(s.live[id], n, p)) ==> Finished(t)
  {
    var d := s.live[id];
    assert Record(infile, id, d);
    forall p | p in t.out ensures p < |infile| && t.out[p] == infile[p] && Past(t, p) {
      if Moves(d, n, p) {
        assert d.buf[..d.firstLen][d.base + p - d.offset]
            == infile[d.firstOffset..d.firstOffset + d.firstLen][d.base + p - d.offset];
      }
    }
    hide Past, Record;
  }

  /** The state after a short completion: the record is adjusted and queued again. */
  function Requeued(infile: seq<U8>, s: Copy, id: nat, n: nat): Copy
    requires id in s.live && n <= s.live[id].iovLen
  {
    var d := s.live[id];
    QueuePrepped(s.(out := Written(s.out, d, n)), id, Advanced(Filled(infile, d, n), n))
  }

  lemma FilledBuffer(infile: seq<U8>, d: IoData, n: nat)
    requires d.read && d.offset + n <= |infile| && d.base + n <= |d.buf| && d.firstOffset + d.base == d.offset
    requires d.buf[..d.base] == infile[d.firstOffset..d.offset]
    ensures var f := Filled(infile, d, n);
            |f.buf| == |d.buf| && f.buf[..d.base + n] == infile[d.firstOffset..d.offset + n]
  {
    var f := Filled(infile, d, n);
    assert f.buf[..d.base + n] == d.buf[..d.base] + infile[d.offset..d.offset + n];
    assert infile[d.firstOffset..d.offset + n] == infile[d.firstOffset..d.offset] + infile[d.offset..d.offset + n];
  }

  lemma FilledRecord(infile: seq<U8>, id: nat, d: IoData, n: nat)
    requires Record(infile, id, d) && n <= d.iovLen
    ensures d.offset + n <= |infile| && d.base + n <= |d.buf|
    ensures n < d.iovLen ==> Record(infile, id, Advanced(Filled(infile, d, n), n))
    ensures n == d.iovLen && d.read ==> Record(infile, id, AsWrite(Filled(infile, d, n)))
  {
    if d.read {
      FilledBuffer(infile, d, n);
    }
  }

  lemma RequeuedPast(infile: seq<U8>, s: Copy, id: nat, n: nat, p: nat)
    requires Shape(infile, s) && InFlight(s, id) && |s.sq| < QD && n < s.live[id].iovLen
    ensures Record(infile, id, s.live[id])
    ensures Past(Requeued(infile, s, id, n), p) <==> Past(s, p) || Moves(s.live[id], n, p)
  {
    hide NoDup;
  }

  /** Replacing the record of one chunk keeps the shape. */
  lemma ShapePut(infile: seq<U8>, s: Copy, id: nat, d: IoData)
    requires Shape(infile, s) && InFlight(s, id) && |s.sq| < QD && Record(infile, id, d)
    ensures Shape(infile, QueuePrepped(s, id, d))
  {
    NoDupAppend(s.sq, id);
    hide NoDup, Record;
  }

  lemma RequeuedShape(infile: seq<U8>, s: Copy, id: nat, n: nat)
    requires Shape(infile, s) && InFlight(s, id) && |s.sq| < QD && n < s.live[id].iovLen
    ensures Record(infile, id, s.live[id])
    ensures Shape(infile, Requeued(infile, s, id, n))
  {
    FilledRecord(infile, id, s.live[id], n);
    ShapePut(infile, s, id, Advanced(Filled(infile, s.live[id], n), n));
    hide NoDup, Record;
  }

  lemma RequeuedCounts(infile: seq<U8>, s: Copy, id: nat, n: nat)
    requires Shape(infile, s) && Counts(s) && InFlight(s, id) && |s.sq| < QD && n < s.live[id].iovLen
    ensures Record(infile, id, s.live[id])
    ensures Counts(Requeued(infile, s, id, n))
  {
    CountRecord(s, Requeued(infile, s, id, n), id);
    hide Counts, NoDup;
  }

  lemma RequeuedGood(infile: seq<U8>, s: Copy, id: nat, n: nat)
    requires Good(infile, s) && InFlight(s, id) && n < s.live[id].iovLen
    ensures |s.sq| < QD
    ensures Good(infile, Requeued(infile, s, id, n))
  {
    QueueHasRoom(infile, s);
    RequeuedShape(infile, s, id, n);
    RequeuedCounts(infile, s, id, n);
    var t := Requeued(infile, s, id, n);
    forall p: nat ensures Past(t, p) <==> Past(s, p) || Moves(s.live[id], n, p) {
      RequeuedPast(infile, s, id, n, p);
    }
    hide Past, Counts, Shape;
    WrittenRight(infile, s, t, id, n);
  }

  /** The state after a completed read: the record is a queued write. */
  function TurnedToWrite(infile: seq<U8>, s: Copy, id: nat): Copy
    requires id in s.live
  {
    var d := s.live[id];
    QueuePrepped(s, id, AsWrite(Filled(infile, d, d.iovLen)))
      .(writeLeft := s.writeLeft - d.firstLen, reading := s.reading - 1, writing := s.writing + 1)
  }

  lemma TurnedToWritePast(infile: seq<U8>, s: Copy, id: nat, p: nat)
    requires Shape(infile, s) && InFlight(s, id) && |s.sq| < QD && s.live[id].read
    ensures Record(infile, id, s.live[id])
    ensures Past(TurnedToWrite(infile, s, id), p) <==> Past(s, p)
  {
    hide NoDup;
  }

  lemma TurnedToWriteGood(infile: seq<U8>, s: Copy, id: nat)
    requires Good(infile, s) && InFlight(s, id) && s.live[id].read
    ensures |s.sq| < QD
    ensures Good(infile, TurnedToWrite(infile, s, id))
  {
    hide Past, Counts, TurnedToWrite;
    QueueHasRoom(infile, s);
    TurnedToWriteShape(infile, s, id);
    var t := TurnedToWrite(infile, s, id);
    forall p: nat ensures Past(t, p) <==> Past(s, p) {
      TurnedToWritePast(infile, s, id, p);
    }
  }

  lemma TurnedToWriteShape(infile: seq<U8>, s: Copy, id: nat)
    requires Shape(infile, s) && Counts(s) && InFlight(s, id) && |s.sq| < QD && s.live[id].read
    ensures var t := TurnedToWrite(infile, s, id); Shape(infile, t) && Counts(t) && t.out == s.out
  {
    hide Record, NoDup, Bytes, Of;
    var d := s.live[id];
    FilledRecord(infile, id, d, d.iovLen);
    ShapePut(infile, s, id, AsWrite(Filled(infile, d, d.iovLen)));
    CountRecord(s, TurnedToWrite(infile, s, id), id);
  }

  /** The state after a completion in which `n` bytes were moved and the record freed. */
  function Released(infile: seq<U8>, s: Copy, id: nat, n: nat): Copy
    requires id in s.live
  {
    Freed(s.(out := Written(s.out, s.live[id], n), writing := s.writing - 1), id)
  }

  lemma ReleasedPast(infile: seq<U8>, s: Copy, id: nat, p: nat)
    requires Shape(infile, s) && InFlight(s, id) && !s.live[id].read
    ensures Record(infile, id, s.live[id])
    ensures var d := s.live[id]; Past(Released(infile, s, id, d.iovLen), p) <==> Past(s, p) || Moves(d, d.iovLen, p)
  {
    hide NoDup;
  }

  lemma ReleasedShape(infile: seq<U8>, s: Copy, id: nat, n: nat)
    requires Shape(infile, s) && InFlight(s, id) && n <= s.live[id].iovLen
    ensures Record(infile, id, s.live[id]) && Shape(infile, Released(infile, s, id, n))
  {
    hide NoDup;
  }

  lemma ReleasedGood(infile: seq<U8>, s: Copy, id: nat)
    requires Good(infile, s) && InFlight(s, id) && !s.live[id].read
    ensures Good(infile, Released(infile, s, id, s.live[id].iovLen))
  {
    var d := s.live[id];
    ReleasedShape(infile, s, id, d.iovLen);
    var t := Released(infile, s, id, d.iovLen);
    forall p: nat ensures Past(t, p) <==> Past(s, p) || Moves(d, d.iovLen, p) {
      ReleasedPast(infile, s, id, p);
    }
    WrittenRight(infile, s, t, id, d.iovLen);
    CountRecord(s, t, id);
    hide Past, Counts, Record, Right, Finished;
  }

  /** The bytes of the first `k` chunks whose records are no longer live. */
  ghost function FinishedBytes(size: nat, live: map<nat, IoData>, k: nat): nat
    requires k > 0 ==> (k - 1) * BS < size
  {
    if k == 0 then 0 else (if k - 1 in live then 0 else ChunkLen(size, k - 1)) + FinishedBytes(size, live, k - 1)
  }

  /** Conservation: what is being read, being written, finished and unread adds up to the file. */
  lemma {:induction false} Partition(infile: seq<U8>, s: Copy)
    requires Good(infile, s)
    ensures s.next > 0 ==> (s.next - 1) * BS < |infile|
    ensures Bytes(s.live, true, s.next) + Bytes(s.live, false, s.next)
              + FinishedBytes(|infile|, s.live, s.next) + s.insize == |infile|
  {
    PartitionBelow(infile, s, s.next);
  }

  lemma {:induction false} PartitionBelow(infile: seq<U8>, s: Copy, k: nat)
    requires Shape(infile, s) && k <= s.next
    ensures k > 0 ==> (k - 1) * BS < |infile|
    ensures Bytes(s.live, true, k) + Bytes(s.live, false, k) + FinishedBytes(|infile|, s.live, k)
            == if k * BS <= |infile| then k * BS else |infile|
  {
    hide NoDup;
    if k > 0 {
      PartitionBelow(infile, s, k - 1);
    }
  }

  // ------------------------------------------------------------------ the drain phase

  lemma ReleasedPastAny(infile: seq<U8>, s: Copy, id: nat, n: nat, p: nat)
    requires Shape(infile, s) && InFlight(s, id) && n <= s.live[id].iovLen && (Past(s, p) || Moves(s.live[id], n, p))
    ensures Past(Released(infile, s, id, n), p)
  {
    assert Record(infile, id, s.live[id]);
    hide NoDup, Written;
  }

  /** Whatever completes while draining, the output stays right. */
  lemma ReleasedRecords(infile: seq<U8>, s: Copy, id: nat, n: nat)
    requires Records(infile, s) && InFlight(s, id) && n <= s.live[id].iovLen
    ensures Records(infile, Released(infile, s, id, n))
  {
    ReleasedShape(infile, s, id, n);
    assert Record(infile, id, s.live[id]);
    var t := Released(infile, s, id, n);
    assert t.out == Written(s.out, s.live[id], n);
    hide Record, Right, Past, Shape, Released, Written;
    forall p: nat | Past(s, p) || Moves(s.live[id], n, p) ensures Past(t, p) {
      ReleasedPastAny(infile, s, id, n, p);
    }
    WrittenRight(infile, s, t, id, n);
  }

  lemma MovesOwnChunk(infile: seq<U8>, id: nat, d: IoData, n: nat, p: nat)
    requires Record(infile, id, d) && n <= d.iovLen
    ensures Moves(d, n, p) ==> p / BS == id
  {
  }

  /** A hole is never filled while draining. */
  lemma HoleStays(infile: seq<U8>, s: Copy, id: nat, n: nat, p: nat)
    requires Records(infile, s) && InFlight(s, id) && n <= s.live[id].iovLen && Hole(infile, s, p)
    ensures Hole(infile, Released(infile, s, id, n), p)
  {
    hide NoDup, Right, ByteFor;
    MovesOwnChunk(infile, id, s.live[id], n, p);
    hide Record;
  }

  /** A short write that is not queued again leaves a hole. */
  lemma ShortWriteHole(infile: seq<U8>, s: Copy, id: nat, n: nat)
    requires Records(infile, s) && InFlight(s, id) && n < s.live[id].iovLen && !s.live[id].read
    ensures Hole(infile, Released(infile, s, id, n), s.live[id].offset + n)
  {
    var d := s.live[id];
    assert Record(infile, id, d);
    var p := d.offset + n;
    assert p / BS == id;
    assert !Past(s, p);
    assert p !in s.out;
    hide NoDup, Record, Right, Past;
  }

  /** A read that was queued last and is given up leaves a hole. */
  lemma AbandonedReadHole(infile: seq<U8>, s: Copy, id: nat)
    requires Records(infile, s) && id in s.live && s.live[id].read
    ensures Hole(infile, s, id * BS)
  {
    assert Record(infile, id, s.live[id]);
  }

  /** When nothing is unread and nothing live, everything is copied. */
  lemma AllCopied(infile: seq<U8>, s: Copy)
    requires Good(infile, s) && s.writeLeft == 0 && s.writing == 0
    ensures Copied(infile, s.out)
  {
    NoBytesNoRecords(infile, s.live, true, s.next);
    assert s.live.Keys == Of(s.live, false);
    assert s.live.Keys == {};
    forall p: nat | p < |infile| ensures p in s.out && s.out[p] == infile[p] {
      assert Past(s, p);
    }
  }

  // ------------------------------------------------------------------ the start and a retried request

  lemma StartGood(infile: seq<U8>, s: Copy)
    requires s == Copy(|infile|, 0, |infile|, 0, 0, map[], [], 0, map[])
    ensures Good(infile, s)
  {
    assert Of(s.live, true) == {} && Of(s.live, false) == {};
  }

  lemma EAgainGood(infile: seq<U8>, s: Copy, id: nat)
    requires Good(infile, s) && InFlight(s, id)
    ensures |s.sq| < QD && Good(infile, QueuePrepped(s, id, s.live[id]))
  {
    QueueHasRoom(infile, s);
    NoDupAppend(s.sq, id);
    assert s.live[id := s.live[id]] == s.live;
    hide NoDup, Record, Past, Bytes, Of;
  }
}
