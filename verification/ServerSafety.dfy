/**
 Whole-run safety of the server: the engine's invariant holds in every reachable state, the
 route table names only live authenticated sessions, packets from TUN go only to such sessions,
 and the reaper and the shutdown loop leave exactly the sessions they should.
 */
module ServerSafety {
  import opened Common
  import opened SessionEngine
  import opened SessionProofs

  // ------------------------------------------------------------------ one step keeps the invariant

  lemma CloseInv(e: Engine, idx: U16, bye: SendRet)
    requires Inv(e) && idx < |e.slots| && e.slots[idx].connected
    ensures Inv(Close(e, idx, bye).engine)
    ensures !Close(e, idx, bye).engine.slots[idx].connected
  {
    var routes := Delete(e.(routes := Close(e, idx, bye).engine.routes), idx).routes;
    UpdateInv(e, idx, e.slots[idx], routes);
    assert e.slots == e.slots[idx := e.slots[idx]];
    DeleteInv(e.(routes := routes), idx);
  }

  lemma GreetInv(e: Engine, idx: U16, p: CliPkt, env: Env)
    requires Inv(e) && idx < |e.slots| && e.slots[idx].connected
    ensures Inv(Greet(e, idx, p, env).engine)
  {
    CloseInv(e, idx, env.bye);
  }

  lemma NewClientInv(e: Engine, key: Key, p: CliPkt, env: Env)
    requires Inv(e) && Lookup(e, key).None?
    ensures Inv(NewClient(e, key, p, env).engine)
  {
    AdmitInv(e, key, env.now, env.mallocOk);
    var (e', r) := Admit(e, key, env.now, env.mallocOk);
    if r.Created? {
      GreetInv(e', r.idx, p, env);
    }
  }

  lemma AuthInv(e: Engine, idx: U16, p: CliPkt, env: Env)
    requires Inv(e) && idx < |e.slots| && e.slots[idx].connected
    ensures Inv(Auth(e, idx, p, env).engine)
  {
    CloseInv(e, idx, env.bye);
    var e' := Auth(e, idx, p, env).engine;
    if !e.slots[idx].authenticated && env.authRes.Some? && env.reply > 0 {
      UpdateInv(e, idx, e'.slots[idx], e'.routes);
    }
  }

  lemma TouchInv(e: Engine, idx: U16, now: int)
    requires Inv(e) && idx < |e.slots|
    ensures Inv(Touch(e, idx, now))
  {
    UpdateInv(e, idx, e.slots[idx].(lastAct := now), e.routes);
    assert Touch(e, idx, now) == e.(slots := e.slots[idx := e.slots[idx].(lastAct := now)], routes := e.routes);
  }

  lemma DispatchInv(e: Engine, idx: U16, p: CliPkt, env: Env)
    requires Inv(e) && Wf(e) && idx < |e.slots| && e.slots[idx].connected
    ensures Inv(Dispatch(e, idx, p, env).engine)
  {
    hide Inv, Auth, Close, Touch;
    AuthInv(e, idx, p, env);
    CloseInv(e, idx, env.bye);
    TouchInv(e, idx, env.now);
  }

  lemma CountInv(o: Outcome, idx: U16, env: Env)
    requires Inv(o.engine) && idx < |o.engine.slots|
    ensures Inv(Count(o, idx, env).engine)
  {
    assert Wf(o.engine);
    hide Inv;
    var e := o.engine;
    var s := e.slots[idx].(loopC := Next8(e.slots[idx].loopC));
    var e' := e.(slots := e.slots[idx := s], routes := e.routes);
    UpdateInv(e, idx, s, e.routes);
    TouchInv(e', idx, env.now);
  }

  lemma KnownClientInv(e: Engine, idx: U16, p: CliPkt, env: Env)
    requires Inv(e) && idx < |e.slots| && e.slots[idx].connected
    ensures Inv(KnownClient(e, idx, p, env).engine)
  {
    DispatchInv(e, idx, p, env);
    BadPacketUnchanged(e, idx, p, env);
    var o := Dispatch(e, idx, p, env);
    hide Inv, Dispatch, Close, Count;
    if o.ret == -EBADMSG {
      CloseInv(o.engine, idx, env.bye);
    } else if o.ret >= 0 {
      CountInv(o, idx, env);
    }
  }

  /** Every packet from the network keeps the invariant. */
  lemma HandlePacketInv(e: Engine, key: Key, p: CliPkt, env: Env)
    requires Inv(e)
    ensures Inv(HandlePacket(e, key, p, env).engine)
  {
    LookupSound(e, key);
    match Lookup(e, key)
    case None => NewClientInv(e, key, p, env);
    case Some(idx) => KnownClientInv(e, idx, p, env);
  }

  // ------------------------------------------------------------------ runs

  datatype Event =
    | Packet(key: Key, pkt: CliPkt, env: Env)
    | ReaperCheck(idx: U16, now: int, bye: SendRet)
    | ShutdownClose(idx: U16, bye: SendRet)

  function Step(e: Engine, ev: Event): Outcome
    requires Inv(e)
  {
    match ev
    case Packet(key, p, env) => HandlePacket(e, key, p, env)
    case ReaperCheck(idx, now, bye) => if idx < |e.slots| then Reap(e, idx, now, bye) else Outcome(e, [], 0, [])
    case ShutdownClose(idx, bye) =>
      if idx < |e.slots| then CloseIfConnected(e, idx, bye) else Outcome(e, [], 0, [])
  }

  lemma StepInv(e: Engine, ev: Event)
    requires Inv(e)
    ensures Inv(Step(e, ev).engine)
  {
    match ev
    case Packet(key, p, env) => HandlePacketInv(e, key, p, env);
    case ReaperCheck(idx, now, bye) =>
      if idx < |e.slots| && e.slots[idx].connected { CloseInv(e, idx, bye); }
    case ShutdownClose(idx, bye) =>
      if idx < |e.slots| && e.slots[idx].connected { CloseInv(e, idx, bye); }
  }

  /** The states of a run, the initial one included. */
  ghost function States(e: Engine, evs: seq<Event>): (r: seq<Engine>)
    requires Inv(e)
    ensures |r| == |evs| + 1 && forall k :: 0 <= k < |r| ==> Inv(r[k])
    decreases |evs|
  {
    StepInvAll(e, evs);
    if evs == [] then [e] else [e] + States(Step(e, evs[0]).engine, evs[1..])
  }

  lemma StepInvAll(e: Engine, evs: seq<Event>)
    requires Inv(e)
    ensures evs != [] ==> Inv(Step(e, evs[0]).engine)
  {
    if evs != [] { StepInv(e, evs[0]); }
  }

  /** Each state is the step of the one before. */
  lemma {:induction false} StatesStep(e: Engine, evs: seq<Event>, k: nat)
    requires Inv(e) && k < |evs|
    ensures States(e, evs)[0] == e && States(e, evs)[k + 1] == Step(States(e, evs)[k], evs[k]).engine
    decreases |evs|
  {
    hide Inv, Step;
    StepInvAll(e, evs);
    if k > 0 {
      StatesStep(Step(e, evs[0]).engine, evs[1..], k - 1);
    }
  }

  /** The states of a run from start-up. */
  ghost function Run(maxConn: U16, evs: seq<Event>): (r: seq<Engine>)
    ensures |r| == |evs| + 1 && forall k :: 0 <= k < |r| ==> Inv(r[k])
  {
    InitInv(maxConn);
    States(Init(maxConn), evs)
  }

  /** In every reachable state the free stack and the connected sessions partition the slots, and
      the counter counts the connected ones. */
  lemma ReachablePartition(maxConn: U16, evs: seq<Event>, e: Engine)
    requires e in Run(maxConn, evs)
    ensures |e.slots| == maxConn
    ensures NoDup(e.free)
    ensures forall i :: 0 <= i < maxConn ==> (i in e.free <==> !e.slots[i].connected)
    ensures forall i :: i in e.free ==> i < maxConn
    ensures e.online == |Online(e)| && |e.free| + e.online == maxConn
  {
    InitInv(maxConn);
    SlotsConserved(e);
    StatesSize(Init(maxConn), evs);
  }

  lemma {:induction false} StatesSize(e: Engine, evs: seq<Event>)
    requires Inv(e)
    ensures forall k :: 0 <= k <= |evs| ==> |States(e, evs)[k].slots| == |e.slots|
    decreases |evs|
  {
    hide Inv;
    if evs != [] {
      StepInv(e, evs[0]);
      StatesSize(Step(e, evs[0]).engine, evs[1..]);
    }
  }

  // ------------------------------------------------------------------ route table

  /** A cell that is not zero names a connected, authenticated session with those low two bytes. */
  ghost predicate CellSound(e: Engine, c: nat)
    requires Wf(e) && c < CELLS
  {
    e.routes[c] != 0 ==>
      && e.routes[c] - 1 < |e.slots|
      && e.slots[e.routes[c] - 1].connected
      && e.slots[e.routes[c] - 1].authenticated
      && Cell(e.slots[e.routes[c] - 1].ipv4Iff) == c
  }

  ghost predicate RouteSound(e: Engine)
    requires Wf(e)
  {
    forall c :: 0 <= c < CELLS ==> CellSound(e, c)
  }

  /** A session is authenticated exactly when it has a private address other than 0.0.0.0. */
  ghost predicate Addressed(e: Engine) {
    forall i :: 0 <= i < |e.slots| ==> (e.slots[i].authenticated <==> e.slots[i].ipv4Iff != 0)
  }

  /** No two authenticated sessions share the low 16 bits of their private address. */
  ghost predicate NoShare(e: Engine) {
    forall i, j :: 0 <= i < j < |e.slots| && e.slots[i].authenticated && e.slots[j].authenticated ==>
      Cell(e.slots[i].ipv4Iff) != Cell(e.slots[j].ipv4Iff)
  }

  ghost predicate Routed(e: Engine)
    requires Wf(e)
  {
    forall i :: 0 <= i < |e.slots| && e.slots[i].authenticated ==> e.routes[Cell(e.slots[i].ipv4Iff)] == i + 1
  }

  /** No user file assigns 0.0.0.0 in this event. */
  predicate Provided(ev: Event) {
    ev.Packet? ==> ev.env.authRes != Some(0)
  }

  /** Closing keeps the routes sound exactly when the session's address is not 0.0.0.0, or no
      cell names the session. */
  lemma CloseRoutes(e: Engine, idx: U16, bye: SendRet)
    requires Wf(e) && RouteSound(e)
    requires idx < |e.slots| && e.slots[idx].connected
    ensures Wf(Close(e, idx, bye).engine)
    ensures RouteSound(Close(e, idx, bye).engine) <==> (e.slots[idx].ipv4Iff != 0 || (idx as int + 1) !in e.routes)
  {
    hide Cell, Without;
    var e' := Close(e, idx, bye).engine;
    if e.slots[idx].ipv4Iff != 0 || (idx as int + 1) !in e.routes {
      forall c | 0 <= c < CELLS ensures CellSound(e', c) {
        assert CellSound(e, c);
      }
    } else {
      var c :| 0 <= c < CELLS && e.routes[c] == idx as int + 1;
      assert e'.routes[c] == idx as int + 1 && !e'.slots[idx].connected;
      assert !CellSound(e', c);
    }
  }

  ghost predicate RouteInv(e: Engine) {
    Wf(e) && RouteSound(e) && Addressed(e)
  }

  lemma CloseRouteInv(e: Engine, idx: U16, bye: SendRet)
    requires RouteInv(e) && idx < |e.slots| && e.slots[idx].connected
    ensures RouteInv(Close(e, idx, bye).engine)
    ensures Routed(e) && NoShare(e) ==> Routed(Close(e, idx, bye).engine)
  {
    hide Cell, Without;
    if (idx as int + 1) in e.routes {
      var c :| 0 <= c < CELLS && e.routes[c] == idx as int + 1;
      assert CellSound(e, c);
    }
    CloseRoutes(e, idx, bye);
  }

  /** Updates of a slot that do not touch its flags or private address. */
  lemma UpdateRouteInv(e: Engine, e': Engine, idx: U16)
    requires RouteInv(e) && Wf(e') && e'.routes == e.routes && idx < |e.slots| == |e'.slots|
    requires forall i :: 0 <= i < |e.slots| && i != idx ==> e'.slots[i] == e.slots[i]
    requires e'.slots[idx].ipv4Iff == e.slots[idx].ipv4Iff
    requires e'.slots[idx].authenticated == e.slots[idx].authenticated
    requires e.slots[idx].connected ==> e'.slots[idx].connected
    ensures RouteInv(e')
    ensures Routed(e) ==> Routed(e')
    ensures NoShare(e) <==> NoShare(e')
  {
    hide Cell;
    forall c | 0 <= c < CELLS ensures CellSound(e', c) {
      assert CellSound(e, c);
    }
  }

  /** Recording a login keeps the routes sound; it may take over the cell of another session. */
  lemma LoginRouteInv(e: Engine, e': Engine, idx: U16, a: U32)
    requires RouteInv(e) && idx < |e.slots| && e.slots[idx].connected && !e.slots[idx].authenticated
    requires Wf(e') && |e'.slots| == |e.slots| && e'.routes == AddRoute(e.routes, a, idx)
    requires forall i :: 0 <= i < |e.slots| && i != idx ==> e'.slots[i] == e.slots[i]
    requires e'.slots[idx].connected && e'.slots[idx].authenticated && e'.slots[idx].ipv4Iff == a
    ensures RouteSound(e') && e'.routes[Cell(a)] == idx as int + 1
    ensures a != 0 ==> RouteInv(e')
    ensures Routed(e) && NoShare(e') ==> Routed(e')
  {
    hide Cell;
    forall c | 0 <= c < CELLS ensures CellSound(e', c) {
      assert CellSound(e, c);
    }
    if NoShare(e') && Routed(e) {
      forall i | 0 <= i < |e'.slots| && e'.slots[i].authenticated
        ensures e'.routes[Cell(e'.slots[i].ipv4Iff)] == i + 1
      {
        if i < idx { assert Cell(e'.slots[i].ipv4Iff) != Cell(e'.slots[idx].ipv4Iff); }
        if idx < i { assert Cell(e'.slots[idx].ipv4Iff) != Cell(e'.slots[i].ipv4Iff); }
      }
    }
  }

  lemma AuthRouteInv(e: Engine, idx: U16, p: CliPkt, env: Env)
    requires RouteInv(e) && idx < |e.slots| && e.slots[idx].connected
    requires env.authRes != Some(0)
    ensures var e' := Auth(e, idx, p, env).engine;
            RouteInv(e') && (Routed(e) && NoShare(e) && NoShare(e') ==> Routed(e'))
  {
    hide Cell, Delete, RouteSound, Addressed, Routed, NoShare;
    CloseRouteInv(e, idx, env.bye);
    if !e.slots[idx].authenticated && env.authRes.Some? && env.reply > 0 {
      LoginRouteInv(e, Auth(e, idx, p, env).engine, idx, env.authRes.value);
    }
  }

  lemma NewClientRouteInv(e: Engine, key: Key, p: CliPkt, env: Env)
    requires RouteInv(e) && InRange(e)
    requires e.free != [] ==> !e.slots[e.free[0]].connected && SlotOk(e.slots[e.free[0]])
    ensures var e' := NewClient(e, key, p, env).engine;
            RouteInv(e') && (Routed(e) && NoShare(e) ==> Routed(e'))
  {
    hide Cell, Delete, RouteSound, Addressed, Routed, NoShare;
    var (e', r) := Admit(e, key, env.now, env.mallocOk);
    if e.free != [] {
      var idx := e.free[0];
      UpdateRouteInv(e, e', idx);
      if r.Created? {
        CloseRouteInv(e', idx, env.bye);
      }
    }
  }

  lemma DispatchRouteInv(e: Engine, idx: U16, p: CliPkt, env: Env)
    requires RouteInv(e) && idx < |e.slots| && e.slots[idx].connected
    requires env.authRes != Some(0)
    ensures var e' := Dispatch(e, idx, p, env).engine;
            RouteInv(e') && (Routed(e) && NoShare(e) && NoShare(e') ==> Routed(e'))
  {
    hide Cell, Close, Auth, RouteSound, Addressed, Routed, NoShare;
    AuthRouteInv(e, idx, p, env);
    CloseRouteInv(e, idx, env.bye);
    UpdateRouteInv(e, Touch(e, idx, env.now), idx);
  }

  lemma KnownClientRouteInv(e: Engine, idx: U16, p: CliPkt, env: Env)
    requires Inv(e) && RouteInv(e) && env.authRes != Some(0)
    requires idx < |e.slots| && e.slots[idx].connected
    ensures var e' := KnownClient(e, idx, p, env).engine;
            RouteInv(e') && (Routed(e) && NoShare(e) && NoShare(e') ==> Routed(e'))
  {
    hide Inv, Cell, Close, Auth, Dispatch, RouteSound, Addressed, Routed, NoShare;
    var o := Dispatch(e, idx, p, env);
    DispatchInv(e, idx, p, env);
    DispatchRouteInv(e, idx, p, env);
    CloseRouteInv(e, idx, env.bye);
    BadPacketUnchanged(e, idx, p, env);
    UpdateRouteInv(o.engine, Count(o, idx, env).engine, idx);
  }

  lemma BadPacketUnchanged(e: Engine, idx: U16, p: CliPkt, env: Env)
    requires Wf(e) && idx < |e.slots| && e.slots[idx].connected
    ensures Dispatch(e, idx, p, env).ret == -EBADMSG ==> Dispatch(e, idx, p, env).engine == e
  {
    hide Cell, Delete;
  }

  lemma HandlePacketRouteInv(e: Engine, key: Key, p: CliPkt, env: Env)
    requires Inv(e) && RouteInv(e) && env.authRes != Some(0)
    ensures var e' := HandlePacket(e, key, p, env).engine;
            RouteInv(e') && (Routed(e) && NoShare(e) && NoShare(e') ==> Routed(e'))
  {
    hide Cell, KnownClient, NewClient, RouteSound, Addressed, Routed, NoShare;
    LookupSound(e, key);
    match Lookup(e, key)
    case None =>
      if e.free != [] { assert e.free[0] in e.free; }
      NewClientRouteInv(e, key, p, env);
    case Some(idx) => KnownClientRouteInv(e, idx, p, env);
  }

  lemma StepRouteInv(e: Engine, ev: Event)
    requires Inv(e) && RouteInv(e) && Provided(ev)
    ensures var e' := Step(e, ev).engine;
            RouteInv(e') && (Routed(e) && NoShare(e) && NoShare(e') ==> Routed(e'))
  {
    match ev
    case Packet(key, p, env) => HandlePacketRouteInv(e, key, p, env);
    case ReaperCheck(idx, now, bye) =>
      if idx < |e.slots| && e.slots[idx].connected { CloseRouteInv(e, idx, bye); }
    case ShutdownClose(idx, bye) =>
      if idx < |e.slots| && e.slots[idx].connected { CloseRouteInv(e, idx, bye); }
  }

  lemma InitRouteInv(maxConn: U16)
    ensures RouteInv(Init(maxConn)) && Routed(Init(maxConn))
  {
    InitInv(maxConn);
  }

  lemma {:induction false} RunRouteInv(e: Engine, evs: seq<Event>)
    requires Inv(e) && RouteInv(e) && forall k :: 0 <= k < |evs| ==> Provided(evs[k])
    ensures forall k :: 0 <= k <= |evs| ==> RouteInv(States(e, evs)[k])
    ensures Routed(e) && (forall k :: 0 <= k <= |evs| ==> NoShare(States(e, evs)[k])) ==>
              forall k :: 0 <= k <= |evs| ==> Routed(States(e, evs)[k])
    decreases |evs|
  {
    hide Inv, Step, RouteSound, Addressed, Routed, NoShare;
    if evs != [] {
      StepInv(e, evs[0]);
      StepRouteInv(e, evs[0]);
      var e', ss := Step(e, evs[0]).engine, States(e, evs);
      RunRouteInv(e', evs[1..]);
      assert ss[0] == e && ss[1..] == States(e', evs[1..]);
      forall k | 0 <= k <= |evs| ensures RouteInv(ss[k]) {
        if k > 0 { assert ss[k] == States(e', evs[1..])[k - 1]; }
      }
      if Routed(e) && forall k :: 0 <= k <= |evs| ==> NoShare(ss[k]) {
        assert NoShare(ss[0]) && ss[1] == States(e', evs[1..])[0] == e' && NoShare(ss[1]);
        forall k | 0 <= k < |evs| ensures NoShare(States(e', evs[1..])[k]) {
          assert ss[k + 1] == States(e', evs[1..])[k];
        }
        forall k | 0 <= k <= |evs| ensures Routed(ss[k]) {
          if k > 0 { assert ss[k] == States(e', evs[1..])[k - 1]; }
        }
      }
    }
  }

  /** In every reachable state a nonzero cell names a live authenticated session with those low two
      bytes. And throughout a run a cell names slot i exactly when session i is authenticated with an
      address for that cell, if and only if live authenticated sessions never share their low 16 bits. */
  lemma ReachableRoutes(maxConn: U16, evs: seq<Event>)
    requires forall k :: 0 <= k < |evs| ==> Provided(evs[k])
    ensures forall k :: 0 <= k <= |evs| ==> RouteSound(Run(maxConn, evs)[k])
    ensures (forall k :: 0 <= k <= |evs| ==> NoShare(Run(maxConn, evs)[k])) <==>
            (forall k :: 0 <= k <= |evs| ==> RouteExact(Run(maxConn, evs)[k]))
  {
    hide Inv, RouteSound, Addressed, Routed, NoShare, RouteExact;
    InitInv(maxConn);
    InitRouteInv(maxConn);
    RunRouteInv(Init(maxConn), evs);
    forall k | 0 <= k <= |evs| && Routed(Run(maxConn, evs)[k]) ensures RouteExact(Run(maxConn, evs)[k]) {
      RoutedIsExact(Run(maxConn, evs)[k]);
    }
    forall k | 0 <= k <= |evs| && RouteExact(Run(maxConn, evs)[k]) ensures NoShare(Run(maxConn, evs)[k]) {
      ExactNeedsNoShare(Run(maxConn, evs)[k]);
    }
  }

  lemma ExactNeedsNoShare(e: Engine)
    requires Wf(e) && RouteExact(e)
    ensures NoShare(e)
  {
    hide Cell;
    forall i, j | 0 <= i < j < |e.slots| && e.slots[i].authenticated && e.slots[j].authenticated
      ensures Cell(e.slots[i].ipv4Iff) != Cell(e.slots[j].ipv4Iff)
    {
      assert e.routes[Cell(e.slots[i].ipv4Iff)] == i + 1 && e.routes[Cell(e.slots[j].ipv4Iff)] == j + 1;
    }
  }

  /** The table is the inverse of the address assignment. */
  ghost predicate RouteExact(e: Engine)
    requires Wf(e)
  {
    forall c: nat, i: nat :: c < CELLS && i < |e.slots| ==>
      (e.routes[c] == i + 1 <==> e.slots[i].authenticated && Cell(e.slots[i].ipv4Iff) == c)
  }

  lemma RoutedIsExact(e: Engine)
    requires RouteInv(e) && Routed(e)
    ensures RouteExact(e)
  {
    hide Cell;
    forall c: nat, i: nat | c < CELLS && i < |e.slots|
      ensures e.routes[c] == i + 1 <==> e.slots[i].authenticated && Cell(e.slots[i].ipv4Iff) == c
    {
      assert CellSound(e, c);
    }
  }

  /** A login with address `a` followed by a close leaves sound routes exactly when `a` is not 0.0.0.0. */
  lemma LoginThenClose(e: Engine, idx: U16, p: CliPkt, env: Env, bye: SendRet, a: U32)
    requires RouteInv(e) && idx < |e.slots| && e.slots[idx].connected && !e.slots[idx].authenticated
    requires env.authRes == Some(a) && env.reply > 0
    ensures var e1 := Auth(e, idx, p, env).engine;
            Wf(e1) && RouteSound(Close(e1, idx, bye).engine) <==> a != 0
  {
    hide Cell, Close, RouteSound, Addressed;
    var e1 := Auth(e, idx, p, env).engine;
    LoginRouteInv(e, e1, idx, a);
    CloseRoutes(e1, idx, bye);
  }

  // ------------------------------------------------------------------ packets from TUN

  /** The authenticated slots from slot `i` on, in index order. */
  function AuthenticatedFrom(e: Engine, i: nat): seq<int>
    requires i <= |e.slots|
    decreases |e.slots| - i
  {
    if i == |e.slots| then []
    else (if e.slots[i].authenticated then [i] else []) + AuthenticatedFrom(e, i + 1)
  }

  lemma IncreasingPrepend(s: seq<int>, x: int)
    requires (forall a, b :: 0 <= a < b < |s| ==> s[a] < s[b]) && (forall j :: j in s ==> x < j)
    ensures var t := [x] + s;
            && (forall a, b :: 0 <= a < b < |t| ==> t[a] < t[b])
            && (forall j :: j in t <==> j == x || j in s)
  {
    var t := [x] + s;
    forall a, b | 0 <= a < b < |t| ensures t[a] < t[b] {
      assert t[b] == s[b - 1] && s[b - 1] in s;
    }
  }

  lemma {:induction false} AuthenticatedFromExact(e: Engine, i: nat)
    requires i <= |e.slots|
    ensures var s := AuthenticatedFrom(e, i);
            && (forall a, b :: 0 <= a < b < |s| ==> s[a] < s[b])
            && (forall j :: j in s <==> i <= j < |e.slots| && e.slots[j].authenticated)
    decreases |e.slots| - i
  {
    if i < |e.slots| {
      AuthenticatedFromExact(e, i + 1);
      IncreasingPrepend(AuthenticatedFrom(e, i + 1), i);
    }
  }

  /** A broadcast reaches each authenticated session once, in index order, up to the first failure. */
  ghost predicate BroadcastSpec(all: seq<int>, rets: seq<SendRet>, tried: seq<int>, ret: int) {
    && tried <= all
    && (forall a :: 0 <= a < |tried| ==> 0 <= tried[a] < |rets|)
    && (forall a :: 0 <= a < |tried| - 1 ==> rets[tried[a]] > 0)
    && (ret == 0 ==> tried == all && (tried != [] ==> rets[tried[|tried| - 1]] > 0))
    && (ret != 0 ==> tried != [] && rets[tried[|tried| - 1]] == ret < 0)
  }

  lemma {:induction false} BroadcastExact(e: Engine, i: nat, rets: seq<SendRet>)
    requires Wf(e) && i <= |e.slots| == |rets|
    ensures BroadcastSpec(AuthenticatedFrom(e, i), rets, BroadcastFrom(e, i, rets).0, BroadcastFrom(e, i, rets).1)
    decreases |e.slots| - i
  {
    if i < |e.slots| {
      BroadcastExact(e, i + 1, rets);
      var all := AuthenticatedFrom(e, i + 1);
      if e.slots[i].authenticated {
        assert AuthenticatedFrom(e, i) == [i] + all;
      } else {
        assert AuthenticatedFrom(e, i) == all;
      }
    }
  }

  lemma BroadcastTargets(e: Engine, rets: seq<SendRet>)
    requires Wf(e) && |e.slots| == |rets|
    ensures forall i :: i in BroadcastFrom(e, 0, rets).0 ==> i < |e.slots| && e.slots[i].authenticated
    ensures (exists i :: 0 <= i < |e.slots| && e.slots[i].authenticated) ==> BroadcastFrom(e, 0, rets).0 != []
  {
    BroadcastExact(e, 0, rets);
    AuthenticatedFromExact(e, 0);
    var tried := BroadcastFrom(e, 0, rets).0;
    if i :| 0 <= i < |e.slots| && e.slots[i].authenticated {
      assert i in AuthenticatedFrom(e, 0);
    }
    forall i | i in tried ensures i < |e.slots| && e.slots[i].authenticated {
      var a :| 0 <= a < |tried| && tried[a] == i;
      assert i == AuthenticatedFrom(e, 0)[a];
    }
  }

  /** A packet read from TUN is sent only to connected, authenticated sessions. With a route it goes to the
      mapped one, and the result is zero or the error of that send; only if the error is ENOENT, and without
      a route, it goes to the authenticated sessions in turn. */
  ghost predicate TunSpec(e: Engine, isV4: bool, daddr: U32, direct: SendRet, rets: seq<SendRet>)
    requires Wf(e) && |e.slots| == |rets|
  {
    var (tried, ret) := RoutePacket(e, isV4, daddr, direct, rets);
    && (forall i :: i in tried ==>
          i < |e.slots| && e.slots[i].connected && e.slots[i].authenticated && e.slots[i].dst == e.slots[i].Endpoint())
    && (isV4 && e.routes[Cell(daddr)] != 0 ==>
          var i := e.routes[Cell(daddr)] - 1;
          && i < |e.slots| && Cell(e.slots[i].ipv4Iff) == Cell(daddr)
          && (tried == [i] <==> direct != -ENOENT)
          && (direct > 0 ==> ret == 0)
          && (direct < 0 && direct != -ENOENT ==> ret == direct)
          && (direct == -ENOENT ==>
                tried != [] && tried[0] == i && BroadcastSpec(AuthenticatedFrom(e, 0), rets, tried[1..], ret)))
    && (!isV4 || e.routes[Cell(daddr)] == 0 ==> BroadcastSpec(AuthenticatedFrom(e, 0), rets, tried, ret))
  }

  /** The three ways a packet can take, and what is known of its route. */
  lemma RouteCases(e: Engine, isV4: bool, daddr: U32, direct: SendRet, rets: seq<SendRet>)
    requires Wf(e) && |e.slots| == |rets|
    ensures var cell, (all, r) := e.routes[Cell(daddr)], BroadcastFrom(e, 0, rets);
            RoutePacket(e, isV4, daddr, direct, rets)
            == if !isV4 || cell == 0 then (all, r)
               else if direct != -ENOENT then ([cell - 1], if direct < 0 then direct else 0)
               else ([cell - 1] + all, r)
  {
    hide Cell, BroadcastFrom;
    var all := BroadcastFrom(e, 0, rets).0;
    assert [] + all == all;
  }

  lemma TunPacketTargets(e: Engine, isV4: bool, daddr: U32, direct: SendRet, rets: seq<SendRet>)
    requires Wf(e) && RouteSound(e) && |e.slots| == |rets|
    requires forall i :: 0 <= i < |e.slots| ==> SlotOk(e.slots[i])
    ensures TunSpec(e, isV4, daddr, direct, rets)
  {
    hide Cell, BroadcastFrom, AuthenticatedFrom, BroadcastSpec, RoutePacket;
    assert CellSound(e, Cell(daddr));
    RouteCases(e, isV4, daddr, direct, rets);
    BroadcastExact(e, 0, rets);
    BroadcastTargets(e, rets);
    var tried := BroadcastFrom(e, 0, rets).0;
    if isV4 && e.routes[Cell(daddr)] != 0 {
      var i := e.routes[Cell(daddr)] - 1;
      assert ([i] + tried)[1..] == tried && ([i] + tried)[0] == i;
      if direct == -ENOENT {
        SelfAuthenticated(e, rets, i);
        assert ([i] + tried)[1] == tried[0];
      }
    }
  }

  lemma SelfAuthenticated(e: Engine, rets: seq<SendRet>, i: int)
    requires Wf(e) && |e.slots| == |rets| && 0 <= i < |e.slots| && e.slots[i].authenticated
    ensures BroadcastFrom(e, 0, rets).0 != []
  {
    hide BroadcastFrom;
    BroadcastTargets(e, rets);
  }

  /** The same in every reachable state. */
  lemma ReachableTunPacket(maxConn: U16, evs: seq<Event>, k: nat, isV4: bool, daddr: U32, direct: SendRet,
      rets: seq<SendRet>)
    requires forall n :: 0 <= n < |evs| ==> Provided(evs[n])
    requires k <= |evs| && |rets| == |Run(maxConn, evs)[k].slots|
    ensures TunSpec(Run(maxConn, evs)[k], isV4, daddr, direct, rets)
  {
    hide RouteSound, RoutePacket, TunSpec;
    ReachableRoutes(maxConn, evs);
    TunPacketTargets(Run(maxConn, evs)[k], isV4, daddr, direct, rets);
  }

  // ------------------------------------------------------------------ zombie reaper

  /** Idle for more than three minutes, or half a minute before it is authenticated. */
  predicate Expired(s: Slot, now: int) {
    s.connected && now - s.lastAct > if s.authenticated then 180 else 30
  }

  /** What a check sends to a session: a close packet when it has expired, else the more sync requests the longer
      it has been idle, and none before it is authenticated. */
  function CheckSends(s: Slot, now: int, bye: SendRet): seq<Sent> {
    if Expired(s, now) then (if bye > 0 then [Sent(s.dst, TSRV_PKT_CLOSE)] else [])
    else if !s.connected || !s.authenticated then []
    else
      var idle, request := now - s.lastAct, Sent(s.dst, TSRV_PKT_REQSYNC);
      if idle > 144 then [request, request, request, request, request, request, request]
      else if idle > 108 then [request, request, request, request, request]
      else if idle > 72 then [request, request, request]
      else if idle > 36 then [request]
      else []
  }

  /** The same for all sessions from slot `i` on. */
  function ScanSends(slots: seq<Slot>, i: nat, now: int, bye: seq<SendRet>): seq<Sent>
    requires i <= |slots| == |bye|
    decreases |slots| - i
  {
    if i == |slots| then [] else CheckSends(slots[i], now, bye[i]) + ScanSends(slots, i + 1, now, bye)
  }

  /** The sessions that a scan closes, in index order. */
  function ScanCloses(slots: seq<Slot>, i: nat, now: int): seq<Note>
    requires i <= |slots| <= MAX_SLOTS
    decreases |slots| - i
  {
    if i == |slots| then []
    else (if Expired(slots[i], now) then [Closed(i)] else []) + ScanCloses(slots, i + 1, now)
  }

  lemma {:induction false} ScanSame(a: seq<Slot>, b: seq<Slot>, i: nat, now: int, bye: seq<SendRet>)
    requires i <= |a| == |b| == |bye| <= MAX_SLOTS && forall j :: i <= j < |a| ==> a[j] == b[j]
    ensures ScanSends(a, i, now, bye) == ScanSends(b, i, now, bye) && ScanCloses(a, i, now) == ScanCloses(b, i, now)
    decreases |a| - i
  {
    if i < |a| {
      ScanSame(a, b, i + 1, now, bye);
    }
  }

  /** Some expired session from slot `i` on maps to cell `c`. */
  ghost predicate Clears(e: Engine, i: nat, now: int, c: nat) {
    exists j :: i <= j < |e.slots| && Expired(e.slots[j], now) && e.slots[j].ipv4Iff != 0
        && Cell(e.slots[j].ipv4Iff) == c
  }

  lemma ReapExact(e: Engine, i: U16, now: int, bye: SendRet)
    requires Inv(e) && i < |e.slots|
    ensures var e1, s := Reap(e, i, now, bye).engine, e.slots[i];
            && Inv(e1) && Wf(e1)
            && e1.slots == e.slots[i := if Expired(s, now) then BLANK else s]
            && e1.routes == (if Expired(s, now) && s.ipv4Iff != 0 then e.routes[Cell(s.ipv4Iff) := 0] else e.routes)
            && Reap(e, i, now, bye).out == CheckSends(s, now, bye)
            && Reap(e, i, now, bye).notes == if Expired(s, now) then [Closed(i)] else []
  {
    hide Cell, Without;
    if e.slots[i].connected { CloseInv(e, i, bye); }
  }

  /** One scan at a fixed time resets exactly the expired sessions and clears exactly their cells. */
  lemma {:induction false} ScanExact(e: Engine, i: nat, now: int, bye: seq<SendRet>)
    requires Inv(e) && Wf(e) && i <= |e.slots| == |bye|
    ensures var e' := ScanFrom(e, i, now, bye).engine;
            && Inv(e') && Wf(e')
            && |e'.slots| == |e.slots|
            && (forall j :: 0 <= j < |e.slots| ==>
                  e'.slots[j] == if i <= j && Expired(e.slots[j], now) then BLANK else e.slots[j])
            && (forall c :: 0 <= c < CELLS ==>
                  e'.routes[c] == if Clears(e, i, now, c) then 0 else e.routes[c])
    ensures ScanFrom(e, i, now, bye).out == ScanSends(e.slots, i, now, bye)
    ensures ScanFrom(e, i, now, bye).notes == ScanCloses(e.slots, i, now)
    decreases |e.slots| - i
  {
    hide Inv, Cell, Reap, Expired, Clears, CheckSends;
    if i < |e.slots| {
      ReapExact(e, i, now, bye[i]);
      var e1 := Reap(e, i, now, bye[i]).engine;
      ScanExact(e1, i + 1, now, bye);
      ScanSame(e1.slots, e.slots, i + 1, now, bye);
      var e' := ScanFrom(e, i, now, bye).engine;
      assert e' == ScanFrom(e1, i + 1, now, bye).engine;
      forall c | 0 <= c < CELLS
        ensures e'.routes[c] == if Clears(e, i, now, c) then 0 else e.routes[c]
      {
        ClearsStep(e, e1, i, now, c);
      }
    } else {
      forall c | 0 <= c < CELLS ensures !Clears(e, i, now, c) { ClearsNothing(e, i, now, c); }
    }
  }

  lemma ClearsNothing(e: Engine, i: nat, now: int, c: nat)
    requires i == |e.slots|
    ensures !Clears(e, i, now, c)
  {
  }

  lemma ClearsStep(e: Engine, e1: Engine, i: nat, now: int, c: nat)
    requires i < |e.slots| == |e1.slots|
    requires forall j :: i < j < |e.slots| ==> e1.slots[j] == e.slots[j]
    ensures Clears(e, i, now, c) <==>
              || Clears(e1, i + 1, now, c)
              || (Expired(e.slots[i], now) && e.slots[i].ipv4Iff != 0 && Cell(e.slots[i].ipv4Iff) == c)
  {
    if Clears(e, i, now, c) {
      var j :| i <= j < |e.slots| && Expired(e.slots[j], now) && e.slots[j].ipv4Iff != 0
          && Cell(e.slots[j].ipv4Iff) == c;
      if j != i { assert e1.slots[j] == e.slots[j]; }
    }
    if Clears(e1, i + 1, now, c) {
      var j :| i + 1 <= j < |e.slots| && Expired(e1.slots[j], now) && e1.slots[j].ipv4Iff != 0
          && Cell(e1.slots[j].ipv4Iff) == c;
      assert e1.slots[j] == e.slots[j];
    }
  }

  /** The reaper's early exit on a zero counter skips nothing. */
  lemma {:induction false} ScanNothing(e: Engine, i: nat, now: int, bye: seq<SendRet>)
    requires Inv(e) && i <= |e.slots| == |bye| && e.online == 0
    ensures ScanFrom(e, i, now, bye) == Outcome(e, [], 0, [])
    decreases |e.slots| - i
  {
    if i < |e.slots| {
      assert i !in Online(e);
      ScanNothing(e, i + 1, now, bye);
    }
  }

  /** After a scan no connected session is idle beyond its limit; sessions within their limit are
      untouched, and their routes too when low 16 bits are not shared. */
  lemma ReaperScan(e: Engine, now: int, bye: seq<SendRet>)
    requires Inv(e) && |bye| == |e.slots|
    ensures var e' := Scan(e, now, bye).engine;
            && Inv(e') && |e'.slots| == |e.slots|
            && (forall j :: 0 <= j < |e.slots| ==> !Expired(e'.slots[j], now))
            && (forall j :: 0 <= j < |e.slots| ==>
                  e'.slots[j] == if Expired(e.slots[j], now) then BLANK else e.slots[j])
            && (forall c :: 0 <= c < CELLS ==>
                  e'.routes[c] == if Clears(e, 0, now, c) then 0 else e.routes[c])
            && (NoShare(e) ==>
                  forall j :: 0 <= j < |e.slots| && e.slots[j].authenticated && !Expired(e.slots[j], now) ==>
                  e'.routes[Cell(e.slots[j].ipv4Iff)] == e.routes[Cell(e.slots[j].ipv4Iff)])
    ensures Scan(e, now, bye).out == ScanSends(e.slots, 0, now, bye)
    ensures Scan(e, now, bye).notes == ScanCloses(e.slots, 0, now)
  {
    hide Cell, ScanFrom, ScanSends, ScanCloses, ChainsSound, KeysUnique, InRange, SlotPartition, Online;
    ScanExact(e, 0, now, bye);
    if e.online == 0 {
      ScanNothing(e, 0, now, bye);
    }
    if NoShare(e) {
      forall j | 0 <= j < |e.slots| && e.slots[j].authenticated && !Expired(e.slots[j], now)
        ensures !Clears(e, 0, now, Cell(e.slots[j].ipv4Iff))
      {}
    }
  }

  // ------------------------------------------------------------------ shutdown

  /** The close packet of a session. */
  function Farewell(s: Slot, bye: SendRet): seq<Sent> {
    if s.connected && bye > 0 then [Sent(s.dst, TSRV_PKT_CLOSE)] else []
  }

  function Farewells(slots: seq<Slot>, i: nat, bye: seq<SendRet>): seq<Sent>
    requires i <= |slots| == |bye|
    decreases |slots| - i
  {
    if i == |slots| then [] else Farewell(slots[i], bye[i]) + Farewells(slots, i + 1, bye)
  }

  lemma {:induction false} FarewellsSame(a: seq<Slot>, b: seq<Slot>, i: nat, bye: seq<SendRet>)
    requires i <= |a| == |b| == |bye| && forall j :: i <= j < |a| ==> a[j] == b[j]
    ensures Farewells(a, i, bye) == Farewells(b, i, bye)
    decreases |a| - i
  {
    if i < |a| {
      FarewellsSame(a, b, i + 1, bye);
    }
  }

  lemma CloseIfConnectedExact(e: Engine, i: U16, bye: SendRet)
    requires Inv(e) && i < |e.slots|
    ensures var o := CloseIfConnected(e, i, bye);
            && Inv(o.engine) && !o.engine.slots[i].connected
            && (forall j :: 0 <= j < |e.slots| && j != i ==> o.engine.slots[j] == e.slots[j])
            && o.notes == (if e.slots[i].connected then [Closed(i)] else [])
            && o.out == Farewell(e.slots[i], bye)
            && |Online(e)| == |Online(o.engine)| + |o.notes|
  {
    hide Cell, Without, ChainsSound, KeysUnique, InRange, SlotPartition;
    if e.slots[i].connected {
      CloseInv(e, i, bye);
      assert Online(e) == Online(Close(e, i, bye).engine) + {i};
    }
  }

  /** Shutdown closes every session exactly once and leaves no session connected. */
  lemma {:induction false} ShutdownFromExact(e: Engine, i: nat, bye: seq<SendRet>)
    requires Inv(e) && Wf(e) && i <= |e.slots| == |bye|
    requires forall j :: 0 <= j < i ==> !e.slots[j].connected
    ensures var o := ShutdownFrom(e, i, bye);
            && Inv(o.engine) && |o.engine.slots| == |e.slots|
            && (forall j :: 0 <= j < |e.slots| ==> !o.engine.slots[j].connected)
            && |o.notes| == |Online(e)|
            && (forall j :: 0 <= j < |e.slots| && e.slots[j].connected ==> Closed(j) in o.notes)
            && o.out == Farewells(e.slots, i, bye)
    decreases |e.slots| - i
  {
    hide Inv, CloseIfConnected, Farewell;
    if i == |e.slots| {
      assert Online(e) == {};
    } else {
      CloseIfConnectedExact(e, i, bye[i]);
      var o := CloseIfConnected(e, i, bye[i]);
      hide Online;
      ShutdownFromExact(o.engine, i + 1, bye);
      FarewellsSame(o.engine.slots, e.slots, i + 1, bye);
      forall j | 0 <= j < |e.slots| && e.slots[j].connected ensures Closed(j) in ShutdownFrom(e, i, bye).notes {
        assert j == i || o.engine.slots[j].connected;
      }
    }
  }

  lemma ChainMember(e: Engine, b: nat)
    requires Wf(e) && InRange(e) && ChainsSound(e) && b < CELLS
    ensures e.chains[b] != [] ==> exists i :: 0 <= i < |e.slots| && e.slots[i].connected
  {
    if e.chains[b] != [] {
      assert e.slots[e.chains[b][0]].connected;
    }
  }

  /** After shutdown all slots are free, the counter is zero and every hash chain is empty. */
  lemma ShutdownExact(e: Engine, bye: seq<SendRet>)
    requires Inv(e) && |e.slots| == |bye|
    ensures var o := ShutdownFrom(e, 0, bye);
            && Inv(o.engine) && |o.engine.free| == |e.slots| && o.engine.online == 0
            && (forall b :: 0 <= b < CELLS ==> o.engine.chains[b] == [])
            && |o.notes| == e.online
            && o.out == Farewells(e.slots, 0, bye)
  {
    ShutdownFromExact(e, 0, bye);
    var e' := ShutdownFrom(e, 0, bye).engine;
    assert Online(e') == {};
    SlotsConserved(e');
    forall b | 0 <= b < CELLS ensures e'.chains[b] == [] {
      ChainMember(e', b);
    }
  }
}
