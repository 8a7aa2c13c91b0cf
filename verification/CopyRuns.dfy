/**
 `copy_file` as a transition system. Each event is one answer of the environment; the control state says
 which answer the program is waiting for. The laws hold for every run.
 */
module CopyRuns {
  import opened Common
  import opened CopyLoop

  /** Where the program is: about to queue another read (`had` is the number of reads before it began to),
      about to submit, about to look for a completion (`got` once it has one), draining, or finished. */
  datatype Pc = Fill(had: int) | Submitting | Reap(got: bool) | Draining | Exit(code: int)

  datatype Machine = Machine(pc: Pc, copy: Copy)

  /** What happens: an attempt to queue a read, a submission in the main loop, a peek that finds nothing, a
      wait or peek that fails, and a completion in the main loop and in the drain loop. `taken` is how many
      queued entries the kernel takes when the program submits. */
  datatype Event =
    | QueueOne(alloc: bool)
    | SubmitMain(ret: int, taken: nat)
    | NoneReady
    | WaitFails(ret: int)
    | Complete(id: nat, res: int, taken: nat)
    | DrainComplete(id: nat, res: int)

  // ------------------------------------------------------------------ control

  function DrainPc(c: Copy): Pc { if c.writing != 0 then Draining else Exit(0) }

  function AfterFill(had: int, c: Copy): Pc { if had != c.reading then Submitting else Reap(false) }

  function FillPc(had: int, c: Copy): Pc {
    if c.insize != 0 && c.reading + c.writing < QD then Fill(had) else AfterFill(had, c)
  }

  /** The head of the outer loop. */
  function TopPc(c: Copy): Pc {
    if c.insize != 0 || c.writeLeft != 0 then FillPc(c.reading, c) else DrainPc(c)
  }

  /** The head of the completion loop. */
  function ReapPc(got: bool, c: Copy): Pc { if c.writeLeft != 0 then Reap(got) else TopPc(c) }

  function Start(infile: seq<U8>): Machine {
    var c := Copy(|infile|, 0, |infile|, 0, 0, map[], [], 0, map[]);
    Machine(TopPc(c), c)
  }

  // ------------------------------------------------------------------ transitions

  /** A completion belongs to a record that the kernel has taken, and moves no more than asked for. */
  predicate CanComplete(c: Copy, id: nat, res: int) { InFlight(c, id) && res <= c.live[id].iovLen }

  predicate Enabled(m: Machine, ev: Event) {
    match ev
    case QueueOne(_) => m.pc.Fill?
    case SubmitMain(_, _) => m.pc.Submitting?
    case NoneReady => m.pc == Reap(true)
    case WaitFails(ret) => (m.pc.Reap? && ret < 0 && (m.pc.got ==> ret != -EAGAIN)) || (m.pc.Draining? && ret != 0)
    case Complete(id, res, _) => m.pc.Reap? && CanComplete(m.copy, id, res)
    case DrainComplete(id, res) => m.pc.Draining? && CanComplete(m.copy, id, res)
  }

  function ReadSize(c: Copy): nat { if c.insize > BS then BS else c.insize }

  /** A completion in the main loop: the request is queued again as it was or for the rest of its bytes; a
      full read becomes a submitted write; a full write is freed. */
  function Completed(infile: seq<U8>, c: Copy, id: nat, res: int, taken: nat): Copy
    requires CanComplete(c, id, res)
  {
    if res < 0 then QueuePrepped(c, id, c.live[id])
    else if res != c.live[id].iovLen then Requeued(infile, c, id, res)
    else if c.live[id].read then Submit(TurnedToWrite(infile, c, id), taken)
    else Released(infile, c, id, res)
  }

  function Next(infile: seq<U8>, m: Machine, ev: Event): Machine
    requires Enabled(m, ev)
  {
    var c := m.copy;
    match ev
    case QueueOne(alloc) =>
      (match QueueRead(c, alloc, ReadSize(c))
       case None => Machine(AfterFill(m.pc.had, c), c)
       case Some(d) => Machine(FillPc(m.pc.had, d), d))
    case SubmitMain(ret, taken) =>
      var d := Submit(c, taken);
      Machine(if ret < 0 then DrainPc(d) else Reap(false), d)
    case NoneReady => Machine(TopPc(c), c)
    case WaitFails(_) => Machine(Exit(1), c)
    case Complete(id, res, taken) =>
      if res < 0 && res != -EAGAIN then Machine(Exit(1), c)
      else
        var d := Completed(infile, c, id, res, taken);
        Machine(ReapPc(true, d), d)
    case DrainComplete(id, res) =>
      if res < 0 then Machine(Exit(1), c)
      else
        var d := Released(infile, c, id, res);
        Machine(DrainPc(d), d)
  }

  ghost predicate IsRun(infile: seq<U8>, ms: seq<Machine>, evs: seq<Event>) {
    && |ms| == |evs| + 1 && ms[0] == Start(infile)
    && forall k :: 0 <= k < |evs| ==> Enabled(ms[k], evs[k]) && ms[k + 1] == Next(infile, ms[k], evs[k])
  }

  /** A submission in the main loop that fails, or a write that comes back short in the drain loop. */
  predicate Spoils(m: Machine, ev: Event) {
    || (ev.SubmitMain? && ev.ret < 0)
    || (ev.DrainComplete? && ev.id in m.copy.live && !m.copy.live[ev.id].read
        && 0 <= ev.res < m.copy.live[ev.id].iovLen)
  }

  ghost predicate Unspoiled(ms: seq<Machine>, evs: seq<Event>, n: nat)
    requires n <= |evs| < |ms|
  {
    forall k :: 0 <= k < n ==> !Spoils(ms[k], evs[k])
  }

  // ------------------------------------------------------------------ invariants

  ghost predicate YoungestIsRead(c: Copy) { c.next > 0 && c.next - 1 in c.live && c.live[c.next - 1].read }

  ghost predicate CleanInv(infile: seq<U8>, m: Machine) {
    && Good(infile, m.copy)
    && (m.pc.Fill? || m.pc.Reap? || m.pc.Submitting? ==> m.copy.writeLeft > 0)
    && (m.pc.Fill? ==>
          && m.copy.insize > 0 && m.copy.reading + m.copy.writing < QD
          && (m.pc.had != m.copy.reading ==> YoungestIsRead(m.copy)))
    && (m.pc.Submitting? ==> YoungestIsRead(m.copy))
    && (m.pc.Draining? || m.pc == Exit(0) ==> m.copy.writeLeft == 0)
    && (m.pc == Exit(0) ==> m.copy.writing == 0)
  }

  ghost predicate SpoiledInv(infile: seq<U8>, m: Machine, hole: nat) {
    Records(infile, m.copy) && Hole(infile, m.copy, hole) && (m.pc.Draining? || m.pc.Exit?)
  }

  /** At the head of the outer loop. */
  lemma TopClean(infile: seq<U8>, c: Copy)
    requires Good(infile, c)
    ensures CleanInv(infile, Machine(TopPc(c), c))
  {
    hide Shape, Right, Finished, Of, Bytes;
  }

  lemma StartClean(infile: seq<U8>)
    ensures CleanInv(infile, Start(infile))
  {
    hide CleanInv, TopPc, Good;
    StartGood(infile, Start(infile).copy);
    TopClean(infile, Start(infile).copy);
  }

  lemma QueueOneClean(infile: seq<U8>, m: Machine, alloc: bool)
    requires CleanInv(infile, m) && m.pc.Fill?
    ensures CleanInv(infile, Next(infile, m, QueueOne(alloc)))
  {
    hide Shape, Right, Finished, Of, Bytes;
    QueueHasRoom(infile, m.copy);
    QueueReadGood(infile, m.copy);
  }

  lemma CompletedGood(infile: seq<U8>, c: Copy, id: nat, res: int, taken: nat)
    requires Good(infile, c) && CanComplete(c, id, res) && (res >= 0 || res == -EAGAIN)
    ensures Good(infile, Completed(infile, c, id, res, taken)) && |c.sq| < QD
  {
    hide Good, Submit, TurnedToWrite, Requeued, Released, QueuePrepped;
    QueueHasRoom(infile, c);
    if res < 0 {
      EAgainGood(infile, c, id);
    } else if res != c.live[id].iovLen {
      RequeuedGood(infile, c, id, res);
    } else if c.live[id].read {
      TurnedToWriteGood(infile, c, id);
      SubmitGood(infile, TurnedToWrite(infile, c, id), taken);
    } else {
      ReleasedGood(infile, c, id);
    }
  }

  /** Without live reads every record is a write. */
  lemma DrainWrites(infile: seq<U8>, c: Copy)
    requires Good(infile, c) && c.writeLeft == 0
    ensures forall id :: id in c.live ==> !c.live[id].read
  {
    NoBytesNoRecords(infile, c.live, true, c.next);
  }

  lemma DrainClean(infile: seq<U8>, m: Machine, id: nat, res: int)
    requires CleanInv(infile, m) && Enabled(m, DrainComplete(id, res)) && !Spoils(m, DrainComplete(id, res))
    ensures CleanInv(infile, Next(infile, m, DrainComplete(id, res)))
  {
    hide Good, Written;
    DrainWrites(infile, m.copy);
    if res >= 0 {
      ReleasedGood(infile, m.copy, id);
    }
  }

  /** An event that does not spoil the copy keeps the clean invariant. */
  lemma StepClean(infile: seq<U8>, m: Machine, ev: Event)
    requires CleanInv(infile, m) && Enabled(m, ev) && !Spoils(m, ev)
    ensures CleanInv(infile, Next(infile, m, ev))
  {
    hide Good, Completed, TopPc, CanComplete;
    match ev {
      case QueueOne(alloc) => QueueOneClean(infile, m, alloc);
      case SubmitMain(ret, taken) => SubmitGood(infile, m.copy, taken);
      case NoneReady => TopClean(infile, m.copy);
      case WaitFails(_) =>
      case Complete(id, res, taken) =>
        if res >= 0 || res == -EAGAIN {
          CompletedGood(infile, m.copy, id, res, taken);
          ReapClean(infile, Completed(infile, m.copy, id, res, taken));
        }
      case DrainComplete(id, res) => DrainClean(infile, m, id, res);
    }
  }

  lemma ReapClean(infile: seq<U8>, c: Copy)
    requires Good(infile, c)
    ensures CleanInv(infile, Machine(ReapPc(true, c), c))
  {
    hide Shape, Right, Finished, Of, Bytes;
  }

  /** An event that spoils the copy leaves a byte that nothing will write. */
  lemma StepSpoils(infile: seq<U8>, m: Machine, ev: Event)
    requires CleanInv(infile, m) && Enabled(m, ev) && Spoils(m, ev)
    ensures exists hole: nat :: SpoiledInv(infile, Next(infile, m, ev), hole)
  {
    hide Shape, Right, Counts, Finished, Hole, Released;
    var n := Next(infile, m, ev);
    if ev.SubmitMain? {
      SubmitGood(infile, m.copy, ev.taken);
      AbandonedReadHole(infile, n.copy, n.copy.next - 1);
      assert SpoiledInv(infile, n, (n.copy.next - 1) * BS);
    } else {
      ReleasedRecords(infile, m.copy, ev.id, ev.res);
      ShortWriteHole(infile, m.copy, ev.id, ev.res);
      assert SpoiledInv(infile, n, m.copy.live[ev.id].offset + ev.res);
    }
  }

  lemma StepSpoiled(infile: seq<U8>, m: Machine, ev: Event, hole: nat)
    requires SpoiledInv(infile, m, hole) && Enabled(m, ev)
    ensures SpoiledInv(infile, Next(infile, m, ev), hole)
  {
    hide Shape, Right, Hole, Released;
    if ev.DrainComplete? && ev.res >= 0 {
      ReleasedRecords(infile, m.copy, ev.id, ev.res);
      HoleStays(infile, m.copy, ev.id, ev.res, hole);
    }
  }

  lemma {:induction false} RunInv(infile: seq<U8>, ms: seq<Machine>, evs: seq<Event>, k: nat)
    requires IsRun(infile, ms, evs) && k <= |evs|
    ensures Unspoiled(ms, evs, k) ==> CleanInv(infile, ms[k])
    ensures !Unspoiled(ms, evs, k) ==> exists hole: nat :: SpoiledInv(infile, ms[k], hole)
  {
    hide CleanInv, SpoiledInv, Next, Enabled, Spoils;
    if k == 0 {
      StartClean(infile);
    } else {
      RunInv(infile, ms, evs, k - 1);
      var m, ev := ms[k - 1], evs[k - 1];
      assert Enabled(m, ev) && ms[k] == Next(infile, m, ev);
      if !Unspoiled(ms, evs, k - 1) {
        var hole: nat :| SpoiledInv(infile, m, hole);
        StepSpoiled(infile, m, ev, hole);
      } else if Spoils(m, ev) {
        StepSpoils(infile, m, ev);
      } else {
        StepClean(infile, m, ev);
      }
    }
  }

  // ------------------------------------------------------------------ laws of every run

  /** In every state of every run each byte that was written is right; and before a submission has failed or
      a drained write has come back short, the records being read, being written and finished and the
      unread rest partition the file and are what the counters count. */
  lemma EveryState(infile: seq<U8>, ms: seq<Machine>, evs: seq<Event>, k: nat)
    requires IsRun(infile, ms, evs) && k <= |evs|
    ensures forall p :: p in ms[k].copy.out ==> p < |infile| && ms[k].copy.out[p] == infile[p]
    ensures Unspoiled(ms, evs, k) ==> Good(infile, ms[k].copy)
  {
    hide Shape, Counts, Finished, Hole;
    RunInv(infile, ms, evs, k);
  }

  /** Main result. A run that returns zero has copied the whole file exactly if no submission in the main loop
      failed and no write in the drain loop moved fewer bytes than asked for. */
  lemma CompleteExactly(infile: seq<U8>, ms: seq<Machine>, evs: seq<Event>)
    requires IsRun(infile, ms, evs) && ms[|evs|].pc == Exit(0)
    ensures Copied(infile, ms[|evs|].copy.out) <==> Unspoiled(ms, evs, |evs|)
  {
    hide Shape, Counts, Finished, Right, Spoils;
    RunInv(infile, ms, evs, |evs|);
    var m := ms[|evs|];
    if Unspoiled(ms, evs, |evs|) {
      AllCopied(infile, m.copy);
    } else {
      var hole: nat :| SpoiledInv(infile, m, hole);
      assert hole < |infile| && hole !in m.copy.out;
    }
  }

  /** The submission queue has room whenever a completed request is queued again, so the source's assertion
      never fires. */
  lemma AssertionHolds(infile: seq<U8>, ms: seq<Machine>, evs: seq<Event>, k: nat)
    requires IsRun(infile, ms, evs) && k < |evs| && evs[k].Complete?
    ensures |ms[k].copy.sq| < QD
  {
    hide Good, SpoiledInv;
    RunInv(infile, ms, evs, k);
    assert Enabled(ms[k], evs[k]);
    SpoiledIsDone(infile, ms[k]);
    QueueHasRoom(infile, ms[k].copy);
  }

  lemma SpoiledIsDone(infile: seq<U8>, m: Machine)
    ensures (exists hole: nat :: SpoiledInv(infile, m, hole)) ==> m.pc.Draining? || m.pc.Exit?
  {
    hide Records, Hole;
  }

  /** An answer that makes `copy_file` return 1: a wait or peek that fails, or a failed completion, except that the
      main loop retries on EAGAIN. */
  predicate Fails(ev: Event) {
    match ev
    case WaitFails(_) => true
    case Complete(_, res, _) => res < 0 && res != -EAGAIN
    case DrainComplete(_, res) => res < 0
    case _ => false
  }

  /** It returns 1 exactly on such an answer, and 0 exactly when after an answer no write is under way and it is
      draining: because a submission failed, or nothing is left to be read. Otherwise it goes on. */
  lemma ReturnsExactly(infile: seq<U8>, m: Machine, ev: Event)
    requires Enabled(m, ev)
    ensures var m' := Next(infile, m, ev);
            && (m'.pc == Exit(1) <==> Fails(ev))
            && (m'.pc == Exit(0) <==>
                  && !Fails(ev) && m'.copy.writing == 0
                  && (|| (ev.SubmitMain? && ev.ret < 0) || ev.DrainComplete?
                      || ((ev.NoneReady? || ev.Complete?) && m'.copy.insize == 0 && m'.copy.writeLeft == 0)))
            && (m'.pc.Exit? ==> m'.pc.code == 0 || m'.pc.code == 1)
            && (ev.SubmitMain? && ev.ret < 0 && m'.copy.writing != 0 ==> m'.pc == Draining)
            && (Fails(ev) ==> m'.copy == m.copy)
  {
    hide Completed, CanComplete, QueueRead, Released, Submit;
  }

  /** Otherwise: it queues reads while there are unread bytes and fewer than 64 requests, submits if it has queued
      any, and then handles completions until there is none or nothing is left to be read. */
  lemma GoesOnExactly(infile: seq<U8>, m: Machine, ev: Event)
    requires Enabled(m, ev) && !Fails(ev)
    ensures var m', c := Next(infile, m, ev), Next(infile, m, ev).copy;
            var more := c.insize != 0 && c.reading + c.writing < 64;
            match ev
            case QueueOne(_) =>
              m'.pc == (if c != m.copy && more then m.pc else if c.reading != m.pc.had then Submitting else Reap(false))
            case SubmitMain(ret, _) => ret >= 0 ==> m'.pc == Reap(false)
            case DrainComplete(_, _) => c.writing != 0 ==> m'.pc == Draining
            case _ =>
              && (ev.Complete? && c.writeLeft != 0 ==> m'.pc == Reap(true))
              && (ev.NoneReady? || c.writeLeft == 0 ==>
                    if c.insize == 0 && c.writeLeft == 0 then m'.pc == (if c.writing != 0 then Draining else Exit(0))
                    else m'.pc == if more then Fill(c.reading) else Reap(false))
  {
    hide Completed, CanComplete, Released, Submit;
    if ev.QueueOne? {
      QueueReadMoves(m.copy, ev.alloc);
    }
  }

  lemma QueueReadMoves(c: Copy, alloc: bool)
    ensures var r := QueueRead(c, alloc, ReadSize(c)); r.Some? ==> r.value != c && r.value.next == c.next + 1
  {
  }

  /** While the program looks for completions, something is left to be read. */
  lemma ReapHasWork(infile: seq<U8>, ms: seq<Machine>, evs: seq<Event>, k: nat)
    requires IsRun(infile, ms, evs) && k <= |evs| && ms[k].pc.Reap?
    ensures ms[k].copy.writeLeft > 0
  {
    hide Good, SpoiledInv;
    RunInv(infile, ms, evs, k);
    SpoiledIsDone(infile, ms[k]);
  }

  /** A small file is read at once: after the first submission its only request is under way. */
  lemma FirstRead(infile: seq<U8>)
    requires 0 < |infile| <= 2
    ensures Enabled(Start(infile), QueueOne(true))
    ensures var m1, n := Next(infile, Start(infile), QueueOne(true)), |infile|;
            Enabled(m1, SubmitMain(1, 1))
            && Next(infile, m1, SubmitMain(1, 1))
               == Machine(Reap(false),
                          Copy(0, n, n, 1, 0, map[0 := IoData(true, 0, 0, n, 0, n, seq(n, _ => 0))], [], 1, map[]))
  {
    var n := |infile|;
    var m1 := Next(infile, Start(infile), QueueOne(true));
    assert m1.copy == Copy(0, n, n, 1, 0, map[0 := IoData(true, 0, 0, n, 0, n, seq(n, _ => 0))], [0], 1, map[]);
    assert m1.copy.sq[1..] == [];
  }

  /** When it has been read, its write is submitted and the main loop is over. */
  lemma ReadDone(infile: seq<U8>, c: Copy)
    requires |infile| == 2
              && c == Copy(0, 2, 2, 1, 0, map[0 := IoData(true, 0, 0, 2, 0, 2, seq(2, _ => 0))], [], 1, map[])
    ensures CanComplete(c, 0, 2)
    ensures Next(infile, Machine(Reap(false), c), Complete(0, 2, 1))
            == Machine(Draining, Copy(0, 2, 0, 0, 1, map[0 := IoData(false, 0, 0, 2, 0, 2, infile)], [], 1, map[]))
  {
    var d := Filled(infile, c.live[0], 2);
    assert d.buf == infile;
    var t := TurnedToWrite(infile, c, 0);
    assert t.live == map[0 := IoData(false, 0, 0, 2, 0, 2, infile)];
    assert t.sq == [0] && t.sq[1..] == [];
  }

  /** A run that returns zero with a byte missing: the write of a two-byte file comes back with one byte while
      draining. */
  lemma ShortCopy() returns (infile: seq<U8>, ms: seq<Machine>, evs: seq<Event>)
    ensures |infile| == 2 && IsRun(infile, ms, evs) && ms[|evs|].pc == Exit(0)
    ensures evs == [QueueOne(true), SubmitMain(1, 1), Complete(0, 2, 1), DrainComplete(0, 1)]
    ensures 1 !in ms[|evs|].copy.out
  {
    hide TurnedToWrite, QueueRead, Completed;
    infile := [7, 8];
    evs := [QueueOne(true), SubmitMain(1, 1), Complete(0, 2, 1), DrainComplete(0, 1)];
    FirstRead(infile);
    var m0 := Start(infile);
    var m1 := Next(infile, m0, evs[0]);
    var m2 := Next(infile, m1, evs[1]);
    ReadDone(infile, m2.copy);
    var m3 := Next(infile, m2, evs[2]);
    var m4 := Next(infile, m3, evs[3]);
    ms := [m0, m1, m2, m3, m4];
  }

  // ------------------------------------------------------------------ starvation

  /** The program waits for a completion, and nothing but an error can wake it. */
  ghost predicate Stuck(m: Machine) {
    && (m.pc == Reap(false) || m.pc == Draining)
    && forall ev :: Enabled(m, ev) ==> ev.WaitFails?
  }

  /** That is so when all live requests are still in the submission queue, as a wait does not submit. */
  lemma StuckMeans(m: Machine)
    ensures Stuck(m) <==>
            (m.pc == Reap(false) || m.pc == Draining) && forall id :: id in m.copy.live ==> id in m.copy.sq
  {
    forall id | id in m.copy.live && id !in m.copy.sq && (m.pc == Reap(false) || m.pc == Draining)
      ensures !Stuck(m)
    {
      var len := m.copy.live[id].iovLen;
      assert Enabled(m, if m.pc.Reap? then Complete(id, len, 0) else DrainComplete(id, len));
    }
  }

  /** What can hold a copy up: a failed allocation, a submission of which the kernel does not take all, and in
      the main loop an -EAGAIN or a short completion, whose request is queued again without a submission. */
  datatype Delay = NoMemory | Untaken | Retried | Short

  function DelayOf(m: Machine, ev: Event): Option<Delay> {
    match ev
    case QueueOne(alloc) => if alloc then None else Some(NoMemory)
    case SubmitMain(_, taken) => if taken < |m.copy.sq| then Some(Untaken) else None
    case Complete(id, res, taken) =>
      if id !in m.copy.live then None
      else if res == -EAGAIN then Some(Retried)
      else if 0 <= res < m.copy.live[id].iovLen then Some(Short)
      else if res >= 0 && m.copy.live[id].read && taken < |m.copy.sq| + 1 then Some(Untaken)
      else None
    case _ => None
  }

  /** All delays in the first `n` steps are of these kinds. */
  ghost predicate DelaysIn(ms: seq<Machine>, evs: seq<Event>, n: nat, kinds: set<Delay>)
    requires n <= |evs| < |ms|
  {
    forall k :: 0 <= k < n ==> var d := DelayOf(ms[k], evs[k]); d.Some? ==> d.value in kinds
  }

  /** No run whose delays are of these kinds gets stuck. */
  ghost predicate NeverStuck(infile: seq<U8>, kinds: set<Delay>) {
    forall ms: seq<Machine>, evs: seq<Event> ::
      IsRun(infile, ms, evs) && DelaysIn(ms, evs, |evs|, kinds) ==> !Stuck(ms[|evs|])
  }

  /** Main result. Any kind of delay can make the copy of any file that is not empty wait for ever, and nothing
      else can. */
  lemma NeverStuckExactly(infile: seq<U8>, kinds: set<Delay>)
    ensures NeverStuck(infile, kinds) <==> infile == [] || kinds == {}
  {
    hide Stuck, DelaysIn, Next, Enabled, Start;
    if infile == [] || kinds == {} {
      forall ms: seq<Machine>, evs: seq<Event> | IsRun(infile, ms, evs) && DelaysIn(ms, evs, |evs|, kinds)
        ensures !Stuck(ms[|evs|])
      {
        StuckOnlyAfterDelay(infile, ms, evs, kinds);
      }
    } else {
      var kind :| kind in kinds;
      var ms, evs := DelayedRun(infile, kind);
      MoreKinds(ms, evs, {kind}, kinds);
    }
  }

  lemma MoreKinds(ms: seq<Machine>, evs: seq<Event>, few: set<Delay>, kinds: set<Delay>)
    requires |evs| < |ms| && DelaysIn(ms, evs, |evs|, few) && few <= kinds
    ensures DelaysIn(ms, evs, |evs|, kinds)
  {
    hide DelayOf;
  }

  // ------------------------------------------------------------------ runs without delays

  /** Everything queued has been taken by the kernel, except while reads are being queued. */
  predicate Fed(m: Machine) {
    && (m.pc.Reap? || m.pc.Draining? ==> m.copy.sq == [])
    && (m.pc.Fill? ==> m.pc.had <= m.copy.reading && (m.pc.had == m.copy.reading ==> m.copy.sq == []))
  }

  /** Whoever waits has a request to wait for. */
  predicate Busy(m: Machine) {
    && (m.pc == Reap(false) ==> m.copy.live.Keys != {})
    && (m.pc.Draining? ==> 0 < m.copy.writing <= |m.copy.live|)
  }

  lemma StepFed(infile: seq<U8>, m: Machine, ev: Event)
    requires Fed(m) && Enabled(m, ev) && DelayOf(m, ev).None?
    ensures Fed(Next(infile, m, ev))
  {
    hide Filled, Written, Completed;
    if ev.Complete? && (ev.res >= 0 || ev.res == -EAGAIN) {
      CompletedFed(infile, m.copy, ev.id, ev.res, ev.taken);
    }
  }

  lemma CompletedFed(infile: seq<U8>, c: Copy, id: nat, res: int, taken: nat)
    requires CanComplete(c, id, res) && c.sq == [] && res == c.live[id].iovLen && (c.live[id].read ==> taken >= 1)
    ensures Completed(infile, c, id, res, taken).sq == []
  {
    hide Filled, Written;
  }

  /** The counters of a good state tell whether there are requests. */
  lemma CountsBusy(infile: seq<U8>, c: Copy)
    requires Good(infile, c)
    ensures 0 <= c.reading && 0 <= c.writing <= |c.live|
    ensures c.writeLeft > c.insize || c.reading + c.writing > 0 ==> c.live.Keys != {}
  {
    hide Shape, Right, Finished;
    SubsetCardinality(Of(c.live, false), c.live.Keys);
    if c.live.Keys == {} {
      assert Of(c.live, true) == {} && Of(c.live, false) == {};
      NoLiveBytes(c.live, true, c.next);
    }
  }

  lemma {:induction false} NoLiveBytes(live: map<nat, IoData>, read: bool, k: nat)
    requires live.Keys == {}
    ensures Bytes(live, read, k) == 0
  {
    if k > 0 {
      NoLiveBytes(live, read, k - 1);
    }
  }

  /** At the head of the outer loop. */
  lemma TopBusy(infile: seq<U8>, c: Copy)
    requires Good(infile, c)
    ensures Busy(Machine(TopPc(c), c)) && Busy(Machine(ReapPc(true, c), c)) && Busy(Machine(DrainPc(c), c))
  {
    hide Good;
    CountsBusy(infile, c);
    WriteLeftOver(infile, c);
  }

  lemma WriteLeftOver(infile: seq<U8>, c: Copy)
    requires Good(infile, c)
    ensures c.writeLeft >= c.insize
  {
    hide Shape, Right, Finished;
  }

  /** In a clean state. */
  lemma StepBusy(infile: seq<U8>, m: Machine, ev: Event)
    requires CleanInv(infile, m) && Fed(m) && Busy(m) && Enabled(m, ev) && DelayOf(m, ev).None?
    ensures Busy(Next(infile, m, ev))
  {
    hide Good, Completed, CanComplete, Released, TopPc, ReapPc, DrainPc, Busy, Submit;
    CountsBusy(infile, m.copy);
    match ev {
      case QueueOne(alloc) => QueuedBusy(infile, m);
      case SubmitMain(ret, taken) =>
        SubmitGood(infile, m.copy, taken);
        TopBusy(infile, Submit(m.copy, taken));
        SubmittedBusy(m, taken);
      case NoneReady => TopBusy(infile, m.copy);
      case WaitFails(_) => ExitBusy(m.copy, 1);
      case Complete(id, res, taken) =>
        ExitBusy(m.copy, 1);
        if res >= 0 || res == -EAGAIN {
          CompletedGood(infile, m.copy, id, res, taken);
          TopBusy(infile, Completed(infile, m.copy, id, res, taken));
        }
      case DrainComplete(id, res) => DrainedBusy(infile, m, id, res);
    }
  }

  lemma ExitBusy(c: Copy, code: int)
    ensures Busy(Machine(Exit(code), c))
  {
  }

  lemma QueuedBusy(infile: seq<U8>, m: Machine)
    requires CleanInv(infile, m) && Fed(m) && m.pc.Fill?
    ensures Busy(Next(infile, m, QueueOne(true)))
  {
    hide Good, QueueRead;
    QueueReadGood(infile, m.copy);
    QueueReadCounter(m.copy);
  }

  lemma QueueReadCounter(c: Copy)
    requires QueueRead(c, true, ReadSize(c)).Some?
    ensures QueueRead(c, true, ReadSize(c)).value.reading == c.reading + 1
  {
  }

  lemma SubmittedBusy(m: Machine, taken: nat)
    requires YoungestIsRead(m.copy)
    ensures Busy(Machine(Reap(false), Submit(m.copy, taken)))
  {
  }

  /** While draining, also after the copy has been spoiled. */
  lemma DrainedBusy(infile: seq<U8>, m: Machine, id: nat, res: int)
    requires Busy(m) && Enabled(m, DrainComplete(id, res))
    ensures Busy(Next(infile, m, DrainComplete(id, res)))
  {
    hide Written;
    var rest := m.copy.live - {id};
    assert rest.Keys == m.copy.live.Keys - {id};
  }

  lemma {:induction false} RunBusy(infile: seq<U8>, ms: seq<Machine>, evs: seq<Event>, k: nat)
    requires IsRun(infile, ms, evs) && k <= |evs| && DelaysIn(ms, evs, |evs|, {})
    ensures Fed(ms[k]) && Busy(ms[k])
  {
    hide Next, Enabled, DelayOf, Spoils, CleanInv, SpoiledInv, Busy, Fed;
    if k == 0 {
      StartBusy(infile);
    } else {
      RunBusy(infile, ms, evs, k - 1);
      var m, ev := ms[k - 1], evs[k - 1];
      assert Enabled(m, ev) && ms[k] == Next(infile, m, ev) && DelayOf(m, ev).None?;
      StepFed(infile, m, ev);
      RunInv(infile, ms, evs, k - 1);
      if Unspoiled(ms, evs, k - 1) {
        StepBusy(infile, m, ev);
      } else {
        SpoiledIsDone(infile, m);
        SpoiledStepBusy(infile, m, ev);
      }
    }
  }

  lemma StartBusy(infile: seq<U8>)
    ensures Fed(Start(infile)) && Busy(Start(infile))
  {
  }

  lemma SpoiledStepBusy(infile: seq<U8>, m: Machine, ev: Event)
    requires (m.pc.Draining? || m.pc.Exit?) && Busy(m) && Enabled(m, ev)
    ensures Busy(Next(infile, m, ev))
  {
    hide Released, CanComplete;
    if ev.DrainComplete? {
      DrainedBusy(infile, m, ev.id, ev.res);
    }
  }

  lemma EmptyIsDone(ev: Event)
    ensures !Enabled(Start([]), ev)
  {
  }

  /** A run of a file that is not empty gets stuck only after a delay. */
  lemma StuckOnlyAfterDelay(infile: seq<U8>, ms: seq<Machine>, evs: seq<Event>, kinds: set<Delay>)
    requires IsRun(infile, ms, evs) && DelaysIn(ms, evs, |evs|, kinds) && (infile == [] || kinds == {})
    ensures !Stuck(ms[|evs|])
  {
    hide Stuck;
    if infile == [] {
      if evs != [] {
        EmptyIsDone(evs[0]);
      }
    } else {
      RunBusy(infile, ms, evs, |evs|);
    }
    StuckMeans(ms[|evs|]);
  }

  // ------------------------------------------------------------------ runs with one kind of delay

  /** Goes on with one more step. */
  lemma GoOn(infile: seq<U8>, ms: seq<Machine>, evs: seq<Event>, kinds: set<Delay>, ev: Event)
    requires IsRun(infile, ms, evs) && DelaysIn(ms, evs, |evs|, kinds) && Enabled(ms[|evs|], ev)
    requires var d := DelayOf(ms[|evs|], ev); d.Some? ==> d.value in kinds
    ensures var ms', evs' := ms + [Next(infile, ms[|evs|], ev)], evs + [ev];
            IsRun(infile, ms', evs') && DelaysIn(ms', evs', |evs'|, kinds)
  {
    hide Next, Enabled, DelayOf, Start;
    var ms', evs' := ms + [Next(infile, ms[|evs|], ev)], evs + [ev];
    forall k | 0 <= k < |evs'|
      ensures Enabled(ms'[k], evs'[k]) && ms'[k + 1] == Next(infile, ms'[k], evs'[k])
      ensures var d := DelayOf(ms'[k], evs'[k]); d.Some? ==> d.value in kinds
    {
      if k < |evs| {
        assert ms'[k] == ms[k] && ms'[k + 1] == ms[k + 1] && evs'[k] == evs[k];
      } else {
        assert ms'[k] == ms[|evs|] && evs'[k] == ev;
      }
    }
  }

  /** Reads have been queued, and nothing has been submitted yet: records 0 to next - 1 are all queued. */
  ghost predicate Queued(infile: seq<U8>, c: Copy) {
    && Good(infile, c) && c.writing == 0 && c.reading == c.next
    && (forall id: nat :: id in c.live <==> id < c.next)
    && (forall id :: id in c.live ==> id in c.sq && c.live[id].read && c.live[id].iovLen > 0)
  }

  lemma QueuedMore(infile: seq<U8>, c: Copy)
    requires Queued(infile, c) && c.insize > 0 && c.reading < QD
    ensures QueueRead(c, true, ReadSize(c)).Some?
    ensures var d := QueueRead(c, true, ReadSize(c)).value;
            Queued(infile, d) && d.insize < c.insize && d.reading == c.reading + 1
  {
    hide Good;
    QueueReadGood(infile, c);
  }

  lemma QueuedStart(infile: seq<U8>)
    ensures Queued(infile, Start(infile).copy)
  {
    StartGood(infile, Start(infile).copy);
    hide Good;
  }

  /** No more reads can be queued. */
  predicate Full(c: Copy) { c.next > 0 && (c.insize == 0 || c.reading + c.writing >= QD) }

  /** All reads that can be queued are queued, without a delay. */
  lemma QueueAll(infile: seq<U8>) returns (ms: seq<Machine>, evs: seq<Event>)
    requires infile != []
    ensures IsRun(infile, ms, evs) && DelaysIn(ms, evs, |evs|, {})
    ensures ms[|evs|].pc == Submitting && Queued(infile, ms[|evs|].copy) && Full(ms[|evs|].copy)
  {
    hide Queued, IsRun, DelaysIn, QueueRead;
    var m := Start(infile);
    ms, evs := [m], [];
    QueuedStart(infile);
    assert IsRun(infile, ms, evs) && DelaysIn(ms, evs, |evs|, {}) by { RunOfOne(infile); }
    while m.pc.Fill?
      invariant |ms| == |evs| + 1 && ms[|evs|] == m && IsRun(infile, ms, evs) && DelaysIn(ms, evs, |evs|, {})
      invariant Queued(infile, m.copy)
      invariant m.pc == Fill(0) || (m.pc == Submitting && Full(m.copy))
      invariant m.pc.Fill? ==> m.copy.insize > 0 && m.copy.reading < QD
      decreases m.copy.insize
    {
      QueuedMore(infile, m.copy);
      GoOn(infile, ms, evs, {}, QueueOne(true));
      QueuedCounts(infile, m.copy);
      m := Next(infile, m, QueueOne(true));
      QueuedCounts(infile, m.copy);
      ms, evs := ms + [m], evs + [QueueOne(true)];
    }
  }

  lemma RunOfOne(infile: seq<U8>)
    ensures IsRun(infile, [Start(infile)], []) && DelaysIn([Start(infile)], [], 0, {})
  {
  }

  lemma QueuedCounts(infile: seq<U8>, c: Copy)
    requires Queued(infile, c)
    ensures c.writing == 0 && c.reading == c.next
  {
  }

  /** All requests have been taken, and the first `n` have come back and are queued again. */
  ghost predicate Returned(m: Machine, n: nat) {
    && m.pc == Reap(n > 0) && n <= m.copy.next && Full(m.copy) && m.copy.writeLeft != 0
    && (forall id: nat :: id in m.copy.live <==> id < m.copy.next)
    && (forall id :: id in m.copy.live ==> (id in m.copy.sq <==> id < n) && m.copy.live[id].iovLen > 0)
  }

  /** A completion that moves nothing. */
  function Nothing(kind: Delay): int { if kind == Retried then -EAGAIN else 0 }

  lemma ReturnOne(infile: seq<U8>, m: Machine, n: nat, kind: Delay)
    requires Returned(m, n) && n < m.copy.next && (kind == Retried || kind == Short)
    ensures Enabled(m, Complete(n, Nothing(kind), 0)) && DelayOf(m, Complete(n, Nothing(kind), 0)) == Some(kind)
    ensures var m' := Next(infile, m, Complete(n, Nothing(kind), 0)); Returned(m', n + 1) && m'.copy.next == m.copy.next
  {
    hide Written;
    var d := Completed(infile, m.copy, n, Nothing(kind), 0);
    assert d.sq == m.copy.sq + [n] && d.live[n].iovLen == m.copy.live[n].iovLen;
  }

  /** When every request has come back, the program waits for one that nobody has submitted. */
  lemma ReturnAll(infile: seq<U8>, ms0: seq<Machine>, evs0: seq<Event>, kind: Delay)
    returns (ms: seq<Machine>, evs: seq<Event>)
    requires IsRun(infile, ms0, evs0) && DelaysIn(ms0, evs0, |evs0|, {kind}) && Returned(ms0[|evs0|], 0)
    requires kind == Retried || kind == Short
    ensures IsRun(infile, ms, evs) && DelaysIn(ms, evs, |evs|, {kind}) && Stuck(ms[|evs|])
  {
    hide IsRun, DelaysIn, DelayOf, Next, Enabled, Returned, Stuck;
    ms, evs := ms0, evs0;
    RunLength(infile, ms, evs);
    var m, n := ms[|evs|], 0;
    while n < m.copy.next
      invariant |ms| == |evs| + 1 && ms[|evs|] == m && IsRun(infile, ms, evs) && DelaysIn(ms, evs, |evs|, {kind})
      invariant Returned(m, n)
      decreases m.copy.next - n
    {
      ReturnOne(infile, m, n, kind);
      var ev := Complete(n, Nothing(kind), 0);
      GoOn(infile, ms, evs, {kind}, ev);
      m, n := Next(infile, m, ev), n + 1;
      ms, evs := ms + [m], evs + [ev];
    }
    AllReturned(infile, m, n);
    GoOn(infile, ms, evs, {kind}, NoneReady);
    ms, evs := ms + [Next(infile, m, NoneReady)], evs + [NoneReady];
  }

  lemma RunLength(infile: seq<U8>, ms: seq<Machine>, evs: seq<Event>)
    requires IsRun(infile, ms, evs)
    ensures |ms| == |evs| + 1
  {
  }

  lemma AllReturned(infile: seq<U8>, m: Machine, n: nat)
    requires Returned(m, n) && n >= m.copy.next
    ensures Enabled(m, NoneReady) && DelayOf(m, NoneReady).None? && Stuck(Next(infile, m, NoneReady))
  {
    hide Stuck;
    StuckMeans(Next(infile, m, NoneReady));
  }

  /** After everything has been queued. */
  lemma SubmitQueued(infile: seq<U8>, m: Machine)
    requires m.pc == Submitting && Queued(infile, m.copy) && Full(m.copy)
    ensures var ev := SubmitMain(1, 0); Enabled(m, ev) && DelayOf(m, ev) == Some(Untaken) && Stuck(Next(infile, m, ev))
    ensures var ev := SubmitMain(1, |m.copy.sq|);
            Enabled(m, ev) && DelayOf(m, ev).None? && Returned(Next(infile, m, ev), 0)
  {
    hide Stuck, Shape, Right, Finished, Counts;
    assert 0 in m.copy.live;
    assert m.copy.sq[0..] == m.copy.sq;
    StuckMeans(Next(infile, m, SubmitMain(1, 0)));
    CountsBusy(infile, m.copy);
    QueuedLeft(infile, m.copy);
  }

  lemma QueuedLeft(infile: seq<U8>, c: Copy)
    requires Queued(infile, c) && c.next > 0
    ensures c.writeLeft != 0
  {
    hide Shape, Right, Finished;
    assert 0 in c.live && c.live[0].read;
    if c.writeLeft == 0 {
      DrainWrites(infile, c);
    }
  }

  /** One kind of delay is enough, whatever the file. */
  lemma DelayedRun(infile: seq<U8>, kind: Delay) returns (ms: seq<Machine>, evs: seq<Event>)
    requires infile != []
    ensures IsRun(infile, ms, evs) && DelaysIn(ms, evs, |evs|, {kind}) && Stuck(ms[|evs|])
  {
    hide IsRun, DelaysIn, DelayOf, Next, Enabled, Queued, Full, Returned, Stuck, Start;
    if kind == NoMemory {
      RunOfOne(infile);
      NothingToRead(infile);
      ms, evs := [Start(infile)], [];
      MoreKinds(ms, evs, {}, {kind});
      GoOn(infile, ms, evs, {kind}, QueueOne(false));
      ms, evs := ms + [Next(infile, ms[0], QueueOne(false))], evs + [QueueOne(false)];
    } else {
      ms, evs := QueueAll(infile);
      RunLength(infile, ms, evs);
      MoreKinds(ms, evs, {}, {kind});
      var m := ms[|evs|];
      SubmitQueued(infile, m);
      var ev := SubmitMain(1, if kind == Untaken then 0 else |m.copy.sq|);
      GoOn(infile, ms, evs, {kind}, ev);
      ms, evs := ms + [Next(infile, m, ev)], evs + [ev];
      if kind != Untaken {
        ms, evs := ReturnAll(infile, ms, evs, kind);
      }
    }
  }

  /** A program whose first allocation fails waits with no request at all. */
  lemma NothingToRead(infile: seq<U8>)
    requires infile != []
    ensures var m, ev := Start(infile), QueueOne(false);
            Enabled(m, ev) && DelayOf(m, ev) == Some(NoMemory) && Stuck(Next(infile, m, ev))
  {
    hide Stuck;
    StuckMeans(Next(infile, Start(infile), QueueOne(false)));
  }
}
