/** `copy_file` with its loops, proved to walk the transitions of `CopyRuns`. */
module CopyProgram {
  import opened Common
  import opened CopyLoop
  import opened CopyRuns

  /** What the environment would answer next: does malloc succeed, what does the liburing call return, how many
      queued entries does the kernel take, whose completion comes first, and with what result. */
  datatype Answer = Answer(alloc: bool, ret: int, taken: nat, which: nat, res: int)

  datatype Progress = Running | Returned(code: int)

  /** The kernel never transfers more than asked for. */
  function Result(d: IoData, res: int): (r: int)
    ensures r <= d.iovLen && r <= res
  {
    if res <= d.iovLen then res else d.iovLen
  }

  /** The event that an answer makes happen; none where the program waits for a completion and there is none. */
  function EventOf(m: Machine, a: Answer): (ev: Option<Event>)
    ensures ev.Some? ==> Enabled(m, ev.value)
  {
    var c := m.copy;
    match m.pc
    case Fill(_) => Some(QueueOne(a.alloc))
    case Submitting => Some(SubmitMain(a.ret, a.taken))
    case Reap(got) =>
      if got && (a.ret == -EAGAIN || (a.ret >= 0 && !InFlight(c, a.which))) then Some(NoneReady)
      else if a.ret < 0 then Some(WaitFails(a.ret))
      else if InFlight(c, a.which) then Some(Complete(a.which, Result(c.live[a.which], a.res), a.taken))
      else None
    case Draining =>
      if a.ret != 0 then Some(WaitFails(a.ret))
      else if InFlight(c, a.which) then Some(DrainComplete(a.which, Result(c.live[a.which], a.res)))
      else None
    case Exit(_) => None
  }

  /** The states and events so far. */
  datatype Trace = Trace(ms: seq<Machine>, evs: seq<Event>)

  /** The trace is a run whose events are those of the answers used, and it has led to `m`. */
  ghost predicate Leads(infile: seq<U8>, answers: seq<Answer>, tr: Trace, m: Machine) {
    && IsRun(infile, tr.ms, tr.evs) && tr.ms[|tr.evs|] == m
    && |tr.evs| <= |answers|
    && forall k :: 0 <= k < |tr.evs| ==> EventOf(tr.ms[k], answers[k]) == Some(tr.evs[k])
  }

  ghost function Grown(infile: seq<U8>, tr: Trace, m: Machine, ev: Event): Trace
    requires Enabled(m, ev)
  {
    Trace(tr.ms + [Next(infile, m, ev)], tr.evs + [ev])
  }

  lemma LeadsOn(infile: seq<U8>, answers: seq<Answer>, tr: Trace, m: Machine, ev: Event)
    requires Leads(infile, answers, tr, m) && |tr.evs| < |answers| && EventOf(m, answers[|tr.evs|]) == Some(ev)
    ensures Leads(infile, answers, Grown(infile, tr, m, ev), Next(infile, m, ev))
  {
    hide Next, EventOf, Enabled;
    var t := Grown(infile, tr, m, ev);
    forall k | 0 <= k < |t.evs|
      ensures Enabled(t.ms[k], t.evs[k]) && t.ms[k + 1] == Next(infile, t.ms[k], t.evs[k])
      ensures EventOf(t.ms[k], answers[k]) == Some(t.evs[k])
    {
      if k < |tr.evs| {
        assert t.ms[k] == tr.ms[k] && t.ms[k + 1] == tr.ms[k + 1] && t.evs[k] == tr.evs[k];
      } else {
        assert t.ms[k] == m;
      }
    }
  }

  /** Queues as many reads as possible; `ok` is false when the answers ran out. */
  method QueueReads(infile: seq<U8>, answers: seq<Answer>, start: Copy, from: nat, ghost tr0: Trace)
    returns (ok: bool, s: Copy, n: nat, ghost tr: Trace)
    requires Leads(infile, answers, tr0, Machine(FillPc(start.reading, start), start)) && from == |tr0.evs|
    ensures n == |tr.evs| >= from && (!ok ==> n == |answers|)
    ensures Leads(infile, answers, tr, Machine(if ok then AfterFill(start.reading, s) else Fill(start.reading), s))
  {
    hide Leads;
    ok, s, n, tr := true, start, from, tr0;
    while s.insize != 0
      invariant ok && n == |tr.evs| >= from
      invariant Leads(infile, answers, tr, Machine(FillPc(start.reading, s), s))
      decreases |answers| - n
    {
      LeadsBound(infile, answers, tr, Machine(FillPc(start.reading, s), s));
      var thisSize := s.insize;
      if s.reading + s.writing >= QD {
        break;
      }
      if thisSize > BS {
        thisSize := BS;
      }
      if n == |answers| {
        ok := false;
        return;
      }
      ghost var m, ev := Machine(FillPc(start.reading, s), s), QueueOne(answers[n].alloc);
      LeadsOn(infile, answers, tr, m, ev);
      tr := Grown(infile, tr, m, ev);
      var queued := QueueRead(s, answers[n].alloc, thisSize);
      n := n + 1;
      if queued.None? {
        break;
      }
      s := queued.value;
    }
  }

  lemma LeadsBound(infile: seq<U8>, answers: seq<Answer>, tr: Trace, m: Machine)
    requires Leads(infile, answers, tr, m)
    ensures |tr.evs| <= |answers| && (m.pc.Reap? ==> m.copy.writeLeft > 0)
  {
    if m.pc.Reap? {
      ReapHasWork(infile, tr.ms, tr.evs, |tr.evs|);
    }
  }

  /** What a method that may not get to its end leaves behind: the machine where it stopped, which has exited
      exactly if the method says so, and otherwise has used up its answers or waits in vain. */
  ghost predicate Stopped(answers: seq<Answer>, tr: Trace, m: Machine, p: Progress) {
    match p
    case Returned(code) => m.pc == Exit(code)
    case Running => !m.pc.Exit? && (|tr.evs| >= |answers| || EventOf(m, answers[|tr.evs|]).None?)
  }

  /** Handles completions until there is none left, the first one being waited for; `ok` if the outer loop
      goes on. */
  method ReapAll(infile: seq<U8>, answers: seq<Answer>, start: Copy, from: nat, ghost tr0: Trace)
    returns (ok: bool, p: Progress, s: Copy, n: nat, ghost tr: Trace, ghost m: Machine)
    requires Leads(infile, answers, tr0, Machine(Reap(false), start)) && from == |tr0.evs|
    ensures Leads(infile, answers, tr, m) && m.copy == s && n == |tr.evs|
    ensures ok ==> m.pc == TopPc(s) && n > from
    ensures !ok ==> Stopped(answers, tr, m, p)
  {
    hide Leads, TopPc, Completed;
    LeadsBound(infile, answers, tr0, Machine(Reap(false), start));
    ok, p, s, n, tr := false, Running, start, from, tr0;
    var gotComp := false;
    m := Machine(Reap(false), start);
    while s.writeLeft != 0
      invariant Leads(infile, answers, tr, m) && m == Machine(ReapPc(gotComp, s), s)
      invariant n == |tr.evs| >= from && (n == from ==> s == start) && !ok && p == Running
      decreases |answers| - n
    {
      LeadsBound(infile, answers, tr, m);
      if n == |answers| {
        return;
      }
      var a := answers[n];
      var ret := a.ret;
      var cqe := InFlight(s, a.which);
      if !gotComp {
        if ret >= 0 && !cqe {
          return;
        }
      } else {
        if ret == -EAGAIN {
          cqe := false;
          ret := 0;
        }
      }
      ghost var ev := EventOf(m, a).value;
      LeadsOn(infile, answers, tr, m, ev);
      tr, m := Grown(infile, tr, m, ev), Next(infile, m, ev);
      n := n + 1;
      gotComp := true;
      if ret < 0 {
        p := Returned(1);
        return;
      }
      if !cqe {
        break;
      }
      var id := a.which;
      var res := Result(s.live[id], a.res);
      if res < 0 && res != -EAGAIN {
        p := Returned(1);
        return;
      }
      s := HandleCompletion(infile, s, id, res, a.taken);
    }
    ok := true;
  }

  /** What the body of the completion loop does with the record `id` whose request ended with `res`. */
  method HandleCompletion(infile: seq<U8>, s: Copy, id: nat, res: int, taken: nat) returns (t: Copy)
    requires CanComplete(s, id, res)
    ensures t == Completed(infile, s, id, res, taken)
  {
    hide Requeued, QueuePrepped, TurnedToWrite, Released;
    var data := s.live[id];
    if res < 0 {
      t := QueuePrepped(s, id, data);
      return;
    } else if res != data.iovLen {
      t := Requeued(infile, s, id, res);
      return;
    }
    if data.read {
      t := Submit(TurnedToWrite(infile, s, id), taken);
    } else {
      t := Released(infile, s, id, res);
    }
  }

  /** Waits out the pending writes. */
  method Drain(infile: seq<U8>, answers: seq<Answer>, start: Copy, from: nat, ghost tr0: Trace)
    returns (p: Progress, s: Copy, ghost tr: Trace, ghost m: Machine)
    requires Leads(infile, answers, tr0, Machine(DrainPc(start), start)) && from == |tr0.evs|
    ensures Leads(infile, answers, tr, m) && m.copy == s && Stopped(answers, tr, m, p)
  {
    hide Leads, Released;
    p, s, tr := Running, start, tr0;
    var n := from;
    m := Machine(DrainPc(start), start);
    while s.writing != 0
      invariant Leads(infile, answers, tr, m) && m == Machine(DrainPc(s), s) && n == |tr.evs| && p == Running
      decreases |answers| - n
    {
      LeadsBound(infile, answers, tr, m);
      if n == |answers| {
        return;
      }
      var a := answers[n];
      if a.ret == 0 && !InFlight(s, a.which) {
        return;
      }
      ghost var ev := EventOf(m, a).value;
      LeadsOn(infile, answers, tr, m, ev);
      tr, m := Grown(infile, tr, m, ev), Next(infile, m, ev);
      n := n + 1;
      if a.ret != 0 {
        p := Returned(1);
        return;
      }
      var res := Result(s.live[a.which], a.res);
      if res < 0 {
        p := Returned(1);
        return;
      }
      s := Released(infile, s, a.which, res);
    }
    p := Returned(0);
  }

  /** `copy_file`. What it did is the run `tr`, whose events are those that the answers make happen, one by
      one. It returns exactly when the run ends, and is `Running` only where the answers are used up or it
      waits for a completion that does not come. So by `CopyRuns.CompleteExactly` it has copied the whole file
      when it returns zero exactly if no event of the run spoils the copy. */
  method CopyFile(infile: seq<U8>, answers: seq<Answer>) returns (p: Progress, s: Copy, ghost tr: Trace)
    ensures exists m :: Leads(infile, answers, tr, m) && m.copy == s && Stopped(answers, tr, m, p)
    ensures |tr.ms| == |tr.evs| + 1
    ensures p == Returned(0) ==> (Copied(infile, s.out) <==> Unspoiled(tr.ms, tr.evs, |tr.evs|))
  {
    hide Leads, FillPc, DrainPc, InFlight, Copied, Unspoiled;
    s := Copy(|infile|, 0, |infile|, 0, 0, map[], [], 0, map[]);
    var n := 0;
    tr := Trace([Start(infile)], []);
    ghost var m := Start(infile);
    StartLeads(infile, answers);
    while s.insize != 0 || s.writeLeft != 0
      invariant Leads(infile, answers, tr, m) && m == Machine(TopPc(s), s) && n == |tr.evs|
      decreases |answers| - n
    {
      LeadsBound(infile, answers, tr, m);
      var hadReads := s.reading;
      var ok;
      ok, s, n, tr := QueueReads(infile, answers, s, n, tr);
      m := Machine(if ok then AfterFill(hadReads, s) else Fill(hadReads), s);
      LeadsBound(infile, answers, tr, m);
      if !ok {
        p := Running;
        RunOver(infile, answers, tr, m, p);
        return;
      }
      if hadReads != s.reading {
        if n == |answers| {
          p := Running;
          RunOver(infile, answers, tr, m, p);
          return;
        }
        var a := answers[n];
        ghost var ev := SubmitMain(a.ret, a.taken);
        LeadsOn(infile, answers, tr, m, ev);
        tr, m := Grown(infile, tr, m, ev), Next(infile, m, ev);
        n := n + 1;
        s := Submit(s, a.taken);
        if a.ret < 0 {
          break;
        }
      }
      ok, p, s, n, tr, m := ReapAll(infile, answers, s, n, tr);
      if !ok {
        RunOver(infile, answers, tr, m, p);
        return;
      }
      LeadsBound(infile, answers, tr, m);
    }
    p, s, tr, m := Drain(infile, answers, s, n, tr);
    RunOver(infile, answers, tr, m, p);
  }

  lemma StartLeads(infile: seq<U8>, answers: seq<Answer>)
    ensures Leads(infile, answers, Trace([Start(infile)], []), Start(infile))
  {
  }

  /** The answers determine the run: two runs made by the same answers agree as far as both go. */
  lemma {:induction false} SameSoFar(infile: seq<U8>, answers: seq<Answer>, tr: Trace, m: Machine,
                                     other: Trace, last: Machine, k: nat)
    requires Leads(infile, answers, tr, m) && Leads(infile, answers, other, last)
    requires k <= |tr.evs| && k <= |other.evs|
    ensures tr.ms[k] == other.ms[k] && tr.evs[..k] == other.evs[..k]
  {
    hide EventOf, Enabled, Next;
    if k > 0 {
      SameSoFar(infile, answers, tr, m, other, last, k - 1);
      assert EventOf(tr.ms[k - 1], answers[k - 1]) == Some(tr.evs[k - 1]);
      assert tr.evs[..k] == tr.evs[..k - 1] + [tr.evs[k - 1]];
      assert other.evs[..k] == other.evs[..k - 1] + [other.evs[k - 1]];
    }
  }

  /** A run that others extend has not come to where the program stops. */
  lemma GoesOn(infile: seq<U8>, answers: seq<Answer>, tr: Trace, m: Machine, p: Progress, other: Trace, last: Machine)
    requires Leads(infile, answers, tr, m) && Leads(infile, answers, other, last) && |tr.evs| < |other.evs|
    ensures !Stopped(answers, tr, m, p)
  {
    hide Enabled, Next;
    SameSoFar(infile, answers, tr, m, other, last, |tr.evs|);
    assert EventOf(other.ms[|tr.evs|], answers[|tr.evs|]) == Some(other.evs[|tr.evs|]);
  }

  /** The answers leave one run to its end, one result and one final state. */
  lemma OneOutcome(infile: seq<U8>, answers: seq<Answer>, tr: Trace, m: Machine, p: Progress,
                   other: Trace, last: Machine, q: Progress)
    requires Leads(infile, answers, tr, m) && Stopped(answers, tr, m, p)
    requires Leads(infile, answers, other, last) && Stopped(answers, other, last, q)
    ensures tr.evs == other.evs && m == last && p == q
  {
    hide Next, Enabled, EventOf;
    if |tr.evs| < |other.evs| {
      GoesOn(infile, answers, tr, m, p, other, last);
    } else if |other.evs| < |tr.evs| {
      GoesOn(infile, answers, other, last, q, tr, m);
    }
    SameSoFar(infile, answers, tr, m, other, last, |tr.evs|);
    assert tr.evs[..|tr.evs|] == tr.evs && other.evs[..|tr.evs|] == other.evs;
  }

  /** Every event that is possible is the one that some answer makes happen. */
  function AnswerFor(ev: Event): Answer {
    match ev
    case QueueOne(alloc) => Answer(alloc, 0, 0, 0, 0)
    case SubmitMain(ret, taken) => Answer(true, ret, taken, 0, 0)
    case NoneReady => Answer(true, -EAGAIN, 0, 0, 0)
    case WaitFails(ret) => Answer(true, ret, 0, 0, 0)
    case Complete(id, res, taken) => Answer(true, 0, taken, id, res)
    case DrainComplete(id, res) => Answer(true, 0, 0, id, res)
  }

  lemma AnswerMakesEvent(m: Machine, ev: Event)
    requires Enabled(m, ev)
    ensures EventOf(m, AnswerFor(ev)) == Some(ev)
  {
  }

  /** So `CopyFile` can make every run happen: each is the one of some answers. */
  lemma EveryRunHasAnswers(infile: seq<U8>, ms: seq<Machine>, evs: seq<Event>)
    requires IsRun(infile, ms, evs)
    ensures Leads(infile, seq(|evs|, k requires 0 <= k < |evs| => AnswerFor(evs[k])), Trace(ms, evs), ms[|evs|])
  {
    hide EventOf, Enabled, Next, AnswerFor;
    forall k | 0 <= k < |evs| ensures EventOf(ms[k], AnswerFor(evs[k])) == Some(evs[k]) {
      assert Enabled(ms[k], evs[k]);
      AnswerMakesEvent(ms[k], evs[k]);
    }
  }

  /** What `copy_file` promises of the run behind it. */
  lemma RunOver(infile: seq<U8>, answers: seq<Answer>, tr: Trace, m: Machine, p: Progress)
    requires Leads(infile, answers, tr, m) && Stopped(answers, tr, m, p)
    ensures |tr.ms| == |tr.evs| + 1
    ensures p == Returned(0) ==> (Copied(infile, m.copy.out) <==> Unspoiled(tr.ms, tr.evs, |tr.evs|))
  {
    hide Copied, Unspoiled, EventOf;
    if p == Returned(0) {
      CompleteExactly(infile, tr.ms, tr.evs);
    }
  }
}
