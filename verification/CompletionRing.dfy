/**
 liburing's completion ring: the kernel posts entries at its tail, the application peeks at and
 consumes them at its head. Entries may arrive between any two loads of the tail.
 */
module CompletionRing {
  import opened Common
  import opened Bits

  /** A completion; `isTimeout` says its user data is LIBURING_UDATA_TIMEOUT. */
  datatype Cqe = Cqe(isTimeout: bool, userData: nat, res: int)

  // ------------------------------------------------------------------ operations on the pending entries

  /** The kernel posts as much of a batch as the ring of `n` entries has room for. */
  function Post(n: nat, pending: seq<Cqe>, batch: seq<Cqe>): (r: seq<Cqe>)
    requires |pending| <= n
    ensures pending <= r && |r| <= n
  {
    pending + batch[..if |batch| <= n - |pending| then |batch| else n - |pending|]
  }

  function Backlog(arrivals: seq<seq<Cqe>>): nat {
    if arrivals == [] then 0 else |arrivals[0]| + Backlog(arrivals[1..])
  }

  function Arrive(n: nat, pending: seq<Cqe>, arrivals: seq<seq<Cqe>>): (r: seq<Cqe>)
    requires |pending| <= n
    ensures pending <= r && |r| <= n
    ensures |r| + Backlog(Later(arrivals)) <= |pending| + Backlog(arrivals)
  {
    if arrivals == [] then pending else Post(n, pending, arrivals[0])
  }

  function Later(arrivals: seq<seq<Cqe>>): seq<seq<Cqe>> {
    if arrivals == [] then [] else arrivals[1..]
  }

  /** Result of a peek: what was consumed, what is pending now, and what is returned. */
  datatype Peeked = Peeked(err: int, cqe: Option<Cqe>, available: nat, consumed: seq<Cqe>, pending: seq<Cqe>,
                           arrivals: seq<seq<Cqe>>)

  /** `__io_uring_peek_cqe` on a ring of `n` entries; `arrivals[i]` is what the kernel posts before
      the i-th load of the tail. */
  function Peek(n: nat, extArg: bool, pending: seq<Cqe>, arrivals: seq<seq<Cqe>>): Peeked
    requires |pending| <= n
    decreases |pending| + Backlog(arrivals)
  {
    var now := Arrive(n, pending, arrivals);
    var rest := Later(arrivals);
    if now == [] then Peeked(0, None, 0, [], [], rest)
    else if extArg || !now[0].isTimeout then Peeked(0, Some(now[0]), |now|, [], now, rest)
    else if now[0].res < 0 then Peeked(now[0].res, None, |now|, [now[0]], now[1..], rest)
    else
      var r := Peek(n, extArg, now[1..], rest);
      r.(consumed := [now[0]] + r.consumed)
  }

  predicate Internal(extArg: bool, c: Cqe) { !extArg && c.isTimeout }

  /** Nothing is lost or duplicated by a peek: what was pending is what was consumed followed by what
      is still pending, up to new arrivals. Only internal timeouts are consumed. What is returned is the
      oldest other entry, or nothing; a failed timeout is consumed last and its error returned. */
  lemma {:induction false} PeekExact(n: nat, extArg: bool, pending: seq<Cqe>, arrivals: seq<seq<Cqe>>)
    requires |pending| <= n
    ensures var r := Peek(n, extArg, pending, arrivals);
            && pending <= r.consumed + r.pending
            && |r.pending| <= n
            && (forall i :: 0 <= i < |r.consumed| ==> Internal(extArg, r.consumed[i]))
            && (forall i :: 0 <= i < |r.consumed| - 1 ==> r.consumed[i].res >= 0)
            && r.err <= 0
            && (r.err == 0 ==>
                  && (forall i :: 0 <= i < |r.consumed| ==> r.consumed[i].res >= 0)
                  && r.available == |r.pending|
                  && r.cqe == (if r.pending == [] then None else Some(r.pending[0]))
                  && (r.cqe.Some? ==> !Internal(extArg, r.cqe.value)))
            && (r.err < 0 ==> r.cqe.None? && r.consumed != [] && r.consumed[|r.consumed| - 1].res == r.err)
    decreases |pending| + Backlog(arrivals)
  {
    var now := Arrive(n, pending, arrivals);
    if now != [] && Internal(extArg, now[0]) && now[0].res >= 0 {
      PeekExact(n, extArg, now[1..], Later(arrivals));
      var r := Peek(n, extArg, now[1..], Later(arrivals));
      assert now <= [now[0]] + (r.consumed + r.pending);
      assert ([now[0]] + r.consumed) + r.pending == [now[0]] + (r.consumed + r.pending);
    }
  }

  function Min(a: nat, b: nat): nat { if a <= b then a else b }

  /** `io_uring_peek_batch_cqe`: what is returned and what is pending afterwards. The oldest entries come
      back in order, as many as asked for if there are that many, and none is consumed: every entry that
      was pending still is, at the same place. Nothing is pending afterwards only if nothing was, and the
      kernel had nothing to flush or was not asked. */
  function PeekBatch(n: nat, pending: seq<Cqe>, count: nat, overflow: bool, flushed: seq<Cqe>)
    : (r: (seq<Cqe>, seq<Cqe>))
    requires 0 < n && |pending| <= n
    ensures pending <= r.1 && r.0 <= r.1 && |r.1| <= n && |r.0| == Min(count, |r.1|)
    ensures pending != [] ==> r.1 == pending
    ensures r.1 == [] <==> pending == [] && (!overflow || flushed == [])
  {
    if pending != [] then (pending[..Min(count, |pending|)], pending)
    else if overflow then
      var now := Post(n, pending, flushed);
      (now[..Min(count, |now|)], now)
    else ([], pending)
  }

  // ------------------------------------------------------------------ waiting for a completion

  /** What the kernel does during one turn of the wait loop. `wakeup` and `overflow` are its flags,
      `ret` what io_uring_enter returns (a negative error, or how many submissions it takes, never more
      than it is given) and `posted` what it posts meanwhile. */
  datatype Round = Round(arrivals: seq<seq<Cqe>>, wakeup: bool, overflow: bool, ret: int, posted: seq<Cqe>)

  datatype Got =
    | Done(err: int, cqe: Option<Cqe>, submit: U32, taken: nat, pending: seq<Cqe>)
    | Waiting(submit: U32, taken: nat, pending: seq<Cqe>)

  /** How many submissions one call of io_uring_enter takes. */
  function TakenOf(ret: int, submit: U32): U32
    requires ret >= 0
  {
    if ret <= submit then ret else submit
  }

  /** What one turn of the wait loop does; `entered` says that it calls io_uring_enter. */
  datatype Turned = Turned(entered: bool, stop: bool, err: int, cqe: Option<Cqe>, left: U32, taken: nat,
                           pending: seq<Cqe>)

  function WaitTurn(n: nat, extArg: bool, sqpoll: bool, submit: U32, waitNr: U32, pending: seq<Cqe>,
      round: Round): (t: Turned)
    requires |pending| <= n
    ensures |t.pending| <= n
  {
    PeekExact(n, extArg, pending, round.arrivals);
    var p := Peek(n, extArg, pending, round.arrivals);
    if p.err != 0 then Turned(false, true, p.err, p.cqe, submit, 0, p.pending)
    else
      var idle := p.cqe.None? && waitNr == 0 && submit == 0;
      if idle && !round.overflow then Turned(false, true, -EAGAIN, p.cqe, submit, 0, p.pending)
      else
        var needEnter := waitNr > p.available || idle || (submit != 0 && (!sqpoll || round.wakeup));
        if !needEnter then Turned(false, true, 0, p.cqe, submit, 0, p.pending)
        else
          var now := Post(n, p.pending, round.posted);
          if round.ret < 0 then Turned(true, true, round.ret, p.cqe, submit, 0, now)
          else
            var taken := TakenOf(round.ret, submit);
            Turned(true, p.cqe.Some?, 0, p.cqe, submit - taken, taken, now)
  }

  /** The wait loop, for as many turns as the rounds describe, with `already` taken before. */
  function WaitTurns(n: nat, extArg: bool, sqpoll: bool, submit: U32, waitNr: U32, already: nat, pending: seq<Cqe>,
                     rounds: seq<Round>): Got
    requires |pending| <= n
    decreases |rounds|
  {
    if rounds == [] then Waiting(submit, already, pending)
    else
      var t := WaitTurn(n, extArg, sqpoll, submit, waitNr, pending, rounds[0]);
      if t.stop then Done(t.err, t.cqe, t.left, already + t.taken, t.pending)
      else WaitTurns(n, extArg, sqpoll, t.left, waitNr, already + t.taken, t.pending, rounds[1..])
  }

  /** `_io_uring_get_cqe`. */
  function GetCqe(n: nat, extArg: bool, sqpoll: bool, submit: U32, waitNr: U32, already: nat, pending: seq<Cqe>,
                  rounds: seq<Round>): Got
    requires |pending| <= n
  {
    WaitTurns(n, extArg, sqpoll, submit, waitNr, already, pending, rounds)
  }

  /** What every wait guarantees: the remaining submit count is the initial one minus all that the
      kernel reported taken; a returned completion is the head of the ring and no internal timeout; and
      zero comes without a completion only on a ring with SQPOLL, with something left to submit and
      nothing to wait for. */
  ghost predicate WaitSpec(n: nat, extArg: bool, sqpoll: bool, submit: U32, waitNr: U32, already: nat, r: Got) {
    && |r.pending| <= n
    && r.submit + r.taken == submit + already
    && (r.Done? && r.cqe.Some? ==> r.pending != [] && r.cqe.value == r.pending[0] && !Internal(extArg, r.cqe.value))
    && (r.Done? && r.err == 0 && r.cqe.None? ==> sqpoll && waitNr == 0 && r.submit != 0)
  }

  lemma WaitTurnExact(n: nat, extArg: bool, sqpoll: bool, submit: U32, waitNr: U32, pending: seq<Cqe>, round: Round)
    requires |pending| <= n
    ensures var t := WaitTurn(n, extArg, sqpoll, submit, waitNr, pending, round);
            && t.left == submit - t.taken
            && (t.stop && t.cqe.Some? ==>
                t.pending != [] && t.cqe.value == t.pending[0] && !Internal(extArg, t.cqe.value))
            && (t.stop && t.err == 0 && t.cqe.None? ==> sqpoll && waitNr == 0 && t.left != 0)
  {
    hide Peek;
    PeekExact(n, extArg, pending, round.arrivals);
  }

  /** With nothing pending, nothing waited for and nothing to submit. */
  predicate Idle(pending: seq<Cqe>, waitNr: U32, submit: U32) { pending == [] && waitNr == 0 && submit == 0 }

  /** When a turn calls into the kernel, given what is pending after its peek: to wait for more than is there, to
      flush the overflow when idle, or to submit, which on a ring with SQPOLL only needs a call to wake the
      kernel's thread. */
  predicate MustEnter(sqpoll: bool, submit: U32, waitNr: U32, pending: seq<Cqe>, round: Round) {
    || waitNr > |pending|
    || (Idle(pending, waitNr, submit) && round.overflow)
    || (submit != 0 && (!sqpoll || round.wakeup))
  }

  /** One turn, exactly: after a peek without error it enters the kernel exactly if it must. Then the kernel takes
      what it can of the submissions, or fails with its error. Otherwise nothing is submitted; the result is
      -EAGAIN exactly when the turn is idle, and zero only with as many completions as are waited for. */
  lemma TurnExactly(n: nat, extArg: bool, sqpoll: bool, submit: U32, waitNr: U32, pending: seq<Cqe>, round: Round)
    requires |pending| <= n
    ensures var p, t := Peek(n, extArg, pending, round.arrivals),
                        WaitTurn(n, extArg, sqpoll, submit, waitNr, pending, round);
            && t.cqe == p.cqe
            && (t.entered <==> p.err == 0 && MustEnter(sqpoll, submit, waitNr, p.pending, round))
            && (t.entered ==>
                  && |p.pending| <= n && t.pending == Post(n, p.pending, round.posted)
                  && t.err == (if round.ret < 0 then round.ret else 0)
                  && t.taken == (if round.ret < 0 then 0 else if round.ret < submit then round.ret else submit)
                  && (t.stop <==> round.ret < 0 || p.cqe.Some?))
            && (!t.entered ==>
                  && t.pending == p.pending && t.taken == 0 && t.stop
                  && t.err == (if p.err != 0 then p.err else if Idle(p.pending, waitNr, submit) then -EAGAIN else 0)
                  && (t.err == 0 ==> waitNr <= |t.pending|))
  {
    hide Peek;
    PeekExact(n, extArg, pending, round.arrivals);
  }

  /** On a ring without SQPOLL a wait that returns zero has submitted everything, if the kernel always takes all
      that it is given. */
  lemma {:induction false} EverythingSubmitted(n: nat, extArg: bool, submit: U32, waitNr: U32, already: nat,
                                               pending: seq<Cqe>, rounds: seq<Round>)
    requires |pending| <= n && forall r :: r in rounds ==> r.ret < 0 || r.ret >= submit
    ensures var r := GetCqe(n, extArg, false, submit, waitNr, already, pending, rounds);
            r.Done? && r.err == 0 ==> r.submit == 0 && r.taken == already + submit
    decreases |rounds|
  {
    hide WaitTurn, Peek;
    if rounds != [] {
      TurnExactly(n, extArg, false, submit, waitNr, pending, rounds[0]);
      WaitTurnExact(n, extArg, false, submit, waitNr, pending, rounds[0]);
      PeekExact(n, extArg, pending, rounds[0].arrivals);
      assert rounds[0] in rounds;
      var t := WaitTurn(n, extArg, false, submit, waitNr, pending, rounds[0]);
      if !t.stop {
        EverythingSubmitted(n, extArg, t.left, waitNr, already + t.taken, t.pending, rounds[1..]);
      }
    }
  }

  lemma {:induction false} GetCqeExact(n: nat, extArg: bool, sqpoll: bool, submit: U32, waitNr: U32, already: nat,
                                       pending: seq<Cqe>, rounds: seq<Round>)
    requires |pending| <= n
    ensures WaitSpec(n, extArg, sqpoll, submit, waitNr, already,
                     GetCqe(n, extArg, sqpoll, submit, waitNr, already, pending, rounds))
    decreases |rounds|
  {
    hide WaitTurn;
    if rounds != [] {
      WaitTurnExact(n, extArg, sqpoll, submit, waitNr, pending, rounds[0]);
      var t := WaitTurn(n, extArg, sqpoll, submit, waitNr, pending, rounds[0]);
      if !t.stop {
        GetCqeExact(n, extArg, sqpoll, t.left, waitNr, already + t.taken, t.pending, rounds[1..]);
      }
    }
  }

  /** In every run of the wait loop, zero comes with a completion. */
  ghost predicate ZeroMeansCompletion(n: nat, extArg: bool, sqpoll: bool, submit: U32, waitNr: U32) {
    forall pending: seq<Cqe>, rounds: seq<Round> :: |pending| <= n ==>
      var r := GetCqe(n, extArg, sqpoll, submit, waitNr, 0, pending, rounds); r.Done? && r.err == 0 ==> r.cqe.Some?
  }

  /** That is so exactly when the ring has no SQPOLL, or something is waited for, or nothing submitted. */
  lemma ZeroMeansCompletionExactly(n: nat, extArg: bool, sqpoll: bool, submit: U32, waitNr: U32)
    ensures ZeroMeansCompletion(n, extArg, sqpoll, submit, waitNr) <==> !(sqpoll && waitNr == 0 && submit != 0)
  {
    if sqpoll && waitNr == 0 && submit != 0 {
      var rounds := [Round([], false, false, 0, [])];
      assert Peek(n, extArg, [], []).cqe.None?;
      assert GetCqe(n, extArg, sqpoll, submit, waitNr, 0, [], rounds) == Done(0, None, submit, 0, []);
    } else {
      forall pending: seq<Cqe>, rounds: seq<Round> | |pending| <= n
        ensures var r := GetCqe(n, extArg, sqpoll, submit, waitNr, 0, pending, rounds); r.Done? && r.err == 0 ==>
                  r.cqe.Some?
      {
        GetCqeExact(n, extArg, sqpoll, submit, waitNr, 0, pending, rounds);
      }
    }
  }

  // ------------------------------------------------------------------ the ring in memory

  class IoUringCq {
    const logEntries: nat
    const extArg: bool
    var khead: U32
    var ktail: U32
    const cqes: array<Cqe>
    // Every entry ever posted, and how many of them have been consumed.
    ghost var posted: seq<Cqe>
    ghost var seen: nat

    ghost predicate Valid()
      reads this, cqes
    {
      && logEntries <= 31 && cqes.Length == Pow2(logEntries)
      && seen <= |posted| <= seen + cqes.Length
      && khead == seen % WORD && ktail == |posted| % WORD
      && forall j :: seen <= j < |posted| ==> cqes[j % cqes.Length] == posted[j]
    }

    ghost function Pending(): seq<Cqe>
      requires Valid()
      reads this, cqes
    {
      posted[seen..]
    }

    /** A ring with both counters at `start`, as if that many entries had come and gone. */
    constructor (k: nat, ext: bool, start: nat, nop: Cqe)
      requires k <= 31
      ensures Valid() && fresh(cqes) && logEntries == k && extArg == ext && khead == start % WORD
      ensures seen == start && Pending() == []
    {
      Pow2Word();
      logEntries, extArg := k, ext;
      khead, ktail := start % 0x1_0000_0000, start % 0x1_0000_0000;
      cqes := new Cqe[Pow2(k)](_ => nop);
      posted, seen := seq(start, _ => nop), start;
    }

    /** Facts about the wrapped counters of a valid ring. */
    lemma Counters()
      requires Valid()
      ensures 1 <= cqes.Length <= 0x8000_0000 && |Pending()| <= cqes.Length
      ensures Sub32(ktail, khead) == |Pending()|
      ensures Inc32(khead) == (seen + 1) % WORD && Inc32(ktail) == (|posted| + 1) % WORD
    {
      Pow2Monotone(logEntries, 31);
      Pow2Word();
      WrapDifference(|posted|, seen);
      WrapIncrement(seen);
      WrapIncrement(|posted|);
    }

    /** Where the entry with a given count lives. */
    lemma Slot(c: nat)
      requires Valid()
      ensures And(c % WORD, Pow2(logEntries) - 1) == c % cqes.Length < cqes.Length
    {
      MaskedCounter(c, logEntries);
    }

    /** `io_uring_cq_ready`. */
    method CqReady() returns (ready: U32)
      requires Valid()
      ensures ready == |Pending()|
    {
      Counters();
      ready := Sub32(ktail, khead);
    }

    /** `io_uring_cq_advance`. The ring is intact afterwards exactly if no more entries were consumed than were
        pending. */
    method CqAdvance(nr: U32)
      requires Valid()
      modifies this`khead, this`seen
      ensures khead == (old(khead) + nr) % WORD && seen == old(seen) + nr
      ensures Valid() <==> nr <= |old(Pending())|
    {
      AdvanceWrap(seen, nr);
      hide Pow2, And, Sub32, Inc32;
      if nr != 0 {
        khead := (khead + nr) % 0x1_0000_0000;
        seen := seen + nr;
      }
    }

    /** One entry posted by the kernel, if there is room. */
    method KernelPost(c: Cqe) returns (ok: bool)
      requires Valid()
      modifies this`ktail, this`posted, cqes
      ensures Valid() && seen == old(seen)
      ensures ok <==> |old(posted)| < seen + cqes.Length
      ensures posted == if ok then old(posted) + [c] else old(posted)
    {
      Counters();
      Slot(|posted|);
      hide Pow2, And, Sub32, Inc32;
      ok := Sub32(ktail, khead) < Pow2(logEntries);
      if ok {
        ghost var t, n := |posted|, cqes.Length;
        forall j | seen <= j < t ensures j % n != t % n {
          ModDistinct(j, t, n);
        }
        cqes[And(ktail, Pow2(logEntries) - 1)] := c;
        ktail := Inc32(ktail);
        posted := posted + [c];
      }
    }

    /** How many entries of a batch fit. */
    ghost function Room(batch: seq<Cqe>): nat
      requires Valid()
      reads this, cqes
    {
      if |batch| <= cqes.Length - |Pending()| then |batch| else cqes.Length - |Pending()|
    }

    method KernelPostAll(batch: seq<Cqe>)
      requires Valid()
      modifies this`ktail, this`posted, cqes
      ensures Valid() && seen == old(seen) && old(posted) <= posted
      ensures |old(Pending())| <= cqes.Length && Pending() == Post(cqes.Length, old(Pending()), batch)
    {
      ghost var room := Room(batch);
      PostedPending(posted, batch, seen);
      assert |posted| + room <= seen + cqes.Length && (room < |batch| ==> |posted| + room == seen + cqes.Length);
      hide IoUringCq.Valid, IoUringCq.Room;
      var i := 0;
      var ok := true;
      assert posted == posted + batch[..0];
      while i < |batch| && ok
        invariant 0 <= i <= |batch| && Valid() && seen == old(seen)
        invariant ok ==> i <= room && posted == old(posted) + batch[..i]
        invariant !ok ==> posted == old(posted) + batch[..room]
      {
        ok := KernelPost(batch[i]);
        AppendNext(old(posted), batch, i);
        i := i + 1;
      }
    }

    /** The entries still pending after a batch was posted. */
    lemma PostedPending(before: seq<Cqe>, batch: seq<Cqe>, s: nat)
      requires s <= |before| <= s + cqes.Length
      ensures var room := if |batch| <= cqes.Length - |before[s..]| then |batch| else cqes.Length - |before[s..]|;
              (before + batch[..room])[s..] == Post(cqes.Length, before[s..], batch)
    {
    }

    /** One arrival, then one load of the tail, as in a turn of the peek loop. */
    method LoadTail(arrivals: seq<seq<Cqe>>) returns (available: U32, later: seq<seq<Cqe>>)
      requires Valid()
      modifies this`ktail, this`posted, cqes
      ensures Valid() && seen == old(seen) && old(posted) <= posted && |old(Pending())| <= cqes.Length
      ensures Pending() == Arrive(cqes.Length, old(Pending()), arrivals) && later == Later(arrivals)
      ensures available == |Pending()| <= cqes.Length
    {
      Counters();
      hide Pow2, And, Sub32, Inc32;
      later := arrivals;
      if later != [] {
        KernelPostAll(later[0]);
        later := later[1..];
      }
      available := CqReady();
      Counters();
    }

    /** One turn of the peek loop; `go` says whether it goes round again. */
    method PeekTurn(arrivals: seq<seq<Cqe>>)
      returns (go: bool, err: int, cqe: Option<Cqe>, available: U32, later: seq<seq<Cqe>>, ghost taken: seq<Cqe>)
      requires Valid()
      modifies this, cqes
      ensures Valid() && old(posted) <= posted && |old(Pending())| <= cqes.Length && |Pending()| <= cqes.Length
      ensures seen == old(seen) + |taken| && taken == posted[old(seen)..seen]
      ensures go ==> |Pending()| + Backlog(later) < |old(Pending())| + Backlog(arrivals)
      ensures Peek(cqes.Length, extArg, old(Pending()), arrivals)
              == if go then Prepend(taken, Peek(cqes.Length, extArg, Pending(), later))
                 else Peeked(err, cqe, available, taken, Pending(), later)
    {
      hide Pow2, And, Sub32, Inc32, Prepend, Peek, Arrive, Later;
      ghost var before := Pending();
      go, err, cqe, taken := false, 0, None, [];
      available, later := LoadTail(arrivals);
      ghost var now := Pending();
      PeekUnfold(cqes.Length, extArg, before, arrivals, now, later);
      if available == 0 {
        return;
      }
      Slot(seen);
      var c := cqes[And(khead, Pow2(logEntries) - 1)];
      assert c == now[0];
      if !extArg && c.isTimeout {
        CqAdvance(1);
        taken := [c];
        assert Pending() == now[1..];
        if c.res < 0 {
          err := c.res;
        } else {
          go := true;
        }
      } else {
        cqe := Some(c);
      }
    }

    /** `__io_uring_peek_cqe`. The entry is returned by value. */
    method PeekCqe(arrivals: seq<seq<Cqe>>) returns (err: int, cqe: Option<Cqe>, available: U32)
      requires Valid()
      modifies this, cqes
      ensures Valid() && old(posted) <= posted && old(seen) <= seen && |old(Pending())| <= cqes.Length
      ensures var r := Peek(cqes.Length, extArg, old(Pending()), arrivals);
              && err == r.err && cqe == r.cqe && available == r.available && Pending() == r.pending
              && posted[old(seen)..seen] == r.consumed
    {
      Counters();
      ghost var goal := Peek(cqes.Length, extArg, Pending(), arrivals);
      ghost var first := seen;
      var later := arrivals;
      ghost var consumed: seq<Cqe> := [];
      PrependNothing(goal);
      hide Prepend, Peek;
      while true
        invariant Valid() && old(posted) <= posted && first <= seen && |Pending()| <= cqes.Length
        invariant consumed == posted[first..seen]
        invariant goal == Prepend(consumed, Peek(cqes.Length, extArg, Pending(), later))
        decreases |Pending()| + Backlog(later)
      {
        ghost var r := Peek(cqes.Length, extArg, Pending(), later);
        ghost var from, sofar := seen, posted;
        var go;
        ghost var taken;
        go, err, cqe, available, later, taken := PeekTurn(later);
        SliceJoin(sofar, posted, first, from, seen);
        if !go {
          PrependFields(consumed, r);
          return;
        }
        PrependMore(consumed, taken, Peek(cqes.Length, extArg, Pending(), later));
        consumed := consumed + taken;
      }
    }

    /** The body of the wait loop. */
    method WaitOnce(sqpoll: bool, submit: U32, waitNr: U32, round: Round)
      returns (entered: bool, stop: bool, err: int, cqe: Option<Cqe>, left: U32, taken: nat, ghost t: Turned)
      requires Valid()
      modifies this, cqes
      ensures Valid() && old(posted) <= posted && old(seen) <= seen && |old(Pending())| <= cqes.Length
      ensures t == WaitTurn(cqes.Length, extArg, sqpoll, submit, waitNr, old(Pending()), round)
      ensures entered == t.entered && stop == t.stop && err == t.err && cqe == t.cqe
      ensures left == t.left && taken == t.taken
      ensures Pending() == t.pending && |Pending()| <= cqes.Length
    {
      Counters();
      t := WaitTurn(cqes.Length, extArg, sqpoll, submit, waitNr, Pending(), round);
      hide Peek, Pow2, And, Sub32, Inc32, PeekBatch;
      PeekExact(cqes.Length, extArg, Pending(), round.arrivals);
      entered, stop, left, taken := false, true, submit, 0;
      var nrAvailable;
      err, cqe, nrAvailable := PeekCqe(round.arrivals);
      if err != 0 {
        return;
      }
      var needEnter, overflowFlush := false, false;
      if cqe.None? && waitNr == 0 && submit == 0 {
        if !round.overflow {
          err := -EAGAIN;
          return;
        }
        overflowFlush := true;
      }
      if waitNr > nrAvailable || overflowFlush {
        needEnter := true;
      }
      if submit != 0 && (!sqpoll || round.wakeup) {
        needEnter := true;
      }
      if !needEnter {
        return;
      }
      entered := true;
      KernelPostAll(round.posted);
      if round.ret < 0 {
        err := round.ret;
        return;
      }
      taken := TakenOf(round.ret, submit);
      left := submit - taken;
      stop := cqe.Some?;
    }

    /** `_io_uring_get_cqe`: the wait loop, for as many turns as the rounds describe. */
    method GetCqeLoop(sqpoll: bool, toSubmit: U32, waitNr: U32, rounds: seq<Round>)
      returns (done: bool, err: int, cqe: Option<Cqe>, submit: U32, taken: nat)
      requires Valid()
      modifies this, cqes
      ensures Valid() && old(posted) <= posted && old(seen) <= seen && |old(Pending())| <= cqes.Length
      ensures var r := GetCqe(cqes.Length, extArg, sqpoll, toSubmit, waitNr, 0, old(Pending()), rounds);
              && (done ==> r == Done(err, cqe, submit, taken, Pending()))
              && (!done ==> r == Waiting(submit, taken, Pending()))
    {
      hide GetCqe, WaitTurn, Pow2, IoUringCq.Valid, IoUringCq.Pending, Peek, PeekBatch, Post, Arrive, Later;
      hide Internal, Backlog, TakenOf, Min, And, Sub32, Inc32;
      Counters();
      done, err, cqe, submit, taken := false, 0, None, toSubmit, 0;
      ghost var goal := GetCqe(cqes.Length, extArg, sqpoll, toSubmit, waitNr, 0, Pending(), rounds);
      var rest := rounds;
      while rest != []
        invariant Valid() && old(posted) <= posted && old(seen) <= seen && !done
        invariant |Pending()| <= cqes.Length
        invariant goal == GetCqe(cqes.Length, extArg, sqpoll, submit, waitNr, taken, Pending(), rest)
      {
        var entered, now;
        ghost var t;
        ghost var before, left, sofar := Pending(), submit, taken;
        entered, done, err, cqe, submit, now, t := WaitOnce(sqpoll, submit, waitNr, rest[0]);
        taken := taken + now;
        OneTurn(goal, cqes.Length, extArg, sqpoll, left, waitNr, sofar, before, rest, t);
        if done {
          assert goal == Done(err, cqe, submit, taken, Pending());
          return;
        }
        assert goal == GetCqe(cqes.Length, extArg, sqpoll, submit, waitNr, taken, Pending(), rest[1..]);
        rest := rest[1..];
      }
      NoTurn(cqes.Length, extArg, sqpoll, submit, waitNr, taken, Pending(), rest);
    }

    /** `io_uring_peek_batch_cqe`; `flushed` is what the kernel posts when asked to flush its overflow. */
    method PeekBatchCqe(count: U32, overflow: bool, flushed: seq<Cqe>) returns (batch: seq<Cqe>)
      requires Valid()
      modifies this`ktail, this`posted, cqes
      ensures Valid() && seen == old(seen) && |old(Pending())| <= cqes.Length
      ensures (batch, Pending()) == PeekBatch(cqes.Length, old(Pending()), count, overflow, flushed)
    {
      Counters();
      hide Pow2, And, Sub32, Inc32;
      var ready := CqReady();
      if ready == 0 && overflow {
        KernelPostAll(flushed);
        ready := CqReady();
      }
      batch := [];
      if ready != 0 {
        var n: U32 := if count > ready then ready else count;
        batch := CopyOut(n);
      }
    }

    /** The copying loop of the batch peek. */
    method CopyOut(n: U32) returns (batch: seq<Cqe>)
      requires Valid() && n <= |Pending()|
      ensures batch == Pending()[..n]
    {
      hide Pow2, And, Sub32, Inc32;
      var head := khead;
      var i := 0;
      batch := [];
      while i < n
        invariant 0 <= i <= n && head == (seen + i) % WORD
        invariant batch == Pending()[..i]
      {
        ghost var c: nat := seen + i;
        Slot(c);
        assert cqes[c % cqes.Length] == posted[c] == Pending()[i];
        batch := batch + [cqes[And(head, Pow2(logEntries) - 1)]];
        WrapIncrement(c);
        head := Inc32(head);
        i := i + 1;
      }
    }
  }

  /** One turn of the wait loop. */
  lemma OneTurn(goal: Got, n: nat, extArg: bool, sqpoll: bool, submit: U32, waitNr: U32, already: nat,
                pending: seq<Cqe>, rounds: seq<Round>, t: Turned)
    requires |pending| <= n && rounds != [] && t == WaitTurn(n, extArg, sqpoll, submit, waitNr, pending, rounds[0])
    requires goal == GetCqe(n, extArg, sqpoll, submit, waitNr, already, pending, rounds)
    ensures |t.pending| <= n
    ensures t.stop ==> goal == Done(t.err, t.cqe, t.left, already + t.taken, t.pending)
    ensures !t.stop ==> goal == GetCqe(n, extArg, sqpoll, t.left, waitNr, already + t.taken, t.pending, rounds[1..])
  {
    hide WaitTurn;
  }

  lemma NoTurn(n: nat, extArg: bool, sqpoll: bool, submit: U32, waitNr: U32, already: nat, pending: seq<Cqe>,
               rounds: seq<Round>)
    requires |pending| <= n && rounds == []
    ensures GetCqe(n, extArg, sqpoll, submit, waitNr, already, pending, rounds) == Waiting(submit, already, pending)
  {
  }

  /** One turn of the peek loop. */
  lemma PeekUnfold(n: nat, extArg: bool, pending: seq<Cqe>, arrivals: seq<seq<Cqe>>, now: seq<Cqe>, rest: seq<seq<Cqe>>)
    requires |pending| <= n && now == Arrive(n, pending, arrivals) && rest == Later(arrivals)
    ensures var r := Peek(n, extArg, pending, arrivals);
            && (now == [] ==> r == Peeked(0, None, 0, [], [], rest))
            && (now != [] && !Internal(extArg, now[0]) ==> r == Peeked(0, Some(now[0]), |now|, [], now, rest))
            && (now != [] && Internal(extArg, now[0]) && now[0].res < 0 ==>
                  r == Peeked(now[0].res, None, |now|, [now[0]], now[1..], rest))
            && (now != [] && Internal(extArg, now[0]) && now[0].res >= 0 ==>
                  |now[1..]| <= n && r == Prepend([now[0]], Peek(n, extArg, now[1..], rest)))
  {
  }

  ghost function Prepend(c: seq<Cqe>, r: Peeked): Peeked { r.(consumed := c + r.consumed) }

  lemma AppendNext(p: seq<Cqe>, batch: seq<Cqe>, i: nat)
    requires i < |batch|
    ensures p + batch[..i] + [batch[i]] == p + batch[..i + 1]
  {
  }

  lemma SliceJoin(p: seq<Cqe>, p': seq<Cqe>, i: nat, j: nat, k: nat)
    requires p <= p' && i <= j <= |p| && j <= k <= |p'|
    ensures p[i..j] + p'[j..k] == p'[i..k]
  {
  }

  lemma PrependNothing(r: Peeked)
    ensures Prepend([], r) == r
  {
    assert [] + r.consumed == r.consumed;
  }

  lemma PrependFields(c: seq<Cqe>, r: Peeked)
    ensures var p := Prepend(c, r);
            && p.err == r.err && p.cqe == r.cqe && p.available == r.available && p.pending == r.pending
            && p.consumed == c + r.consumed
  {
  }

  lemma PrependMore(a: seq<Cqe>, b: seq<Cqe>, r: Peeked)
    ensures Prepend(a, Prepend(b, r)) == Prepend(a + b, r)
  {
    assert a + (b + r.consumed) == (a + b) + r.consumed;
  }

  lemma AdvanceWrap(a: nat, b: nat)
    ensures (a % WORD + b) % WORD == (a + b) % WORD
  {
  }
}
