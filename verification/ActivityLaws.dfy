/**
 What keeps a session alive over a whole run, and what a slot holds while it is free.
 */
module ActivityLaws {
  import opened AuthPacket
  import opened Common
  import opened SessionEngine
  import opened SessionProofs
  import opened ServerSafety
  import opened PacketLaws

  // ------------------------------------------------------------------ one step

  /** The step does not end the session in slot `idx`: no packet of its own ends it, it is not shut down, and a
      check of it does not find it expired. */
  predicate Spares(s: Slot, idx: nat, ev: Event) {
    match ev
    case Packet(key, p, env) => key == s.Endpoint() ==> !Ends(s, p, env)
    case ReaperCheck(i, now, _) => i == idx ==> !Expired(s, now)
    case ShutdownClose(i, _) => i != idx
  }

  /** The slot after a step that spares its session. */
  function Spared(s: Slot, ev: Event): Slot {
    if ev.Packet? && ev.key == s.Endpoint() then SlotAfter(s, ev.pkt, ev.env) else s
  }

  /** A connected session is closed in a step exactly if the step does not spare it; otherwise only a packet of
      its own changes its slot. */
  lemma StepOnSession(e: Engine, ev: Event, idx: nat)
    requires Inv(e) && idx < |e.slots| && e.slots[idx].connected
    ensures var o, s := Step(e, ev), e.slots[idx];
            && |o.engine.slots| == |e.slots|
            && (idx <= 0xFFFF && (Closed(idx) in o.notes <==> !Spares(s, idx, ev)))
            && (Spares(s, idx, ev) ==> o.engine.slots[idx] == Spared(s, ev))
            && (!Spares(s, idx, ev) ==> !o.engine.slots[idx].connected)
  {
    hide Inv, HandlePacket, Reap, CloseIfConnected, View, KeysUnique, ChainsSound;
    hide Ends, SlotAfter, Failure, SentFor, LoginOk, Expired;
    InvKeys(e);
    match ev {
      case Packet(key, p, env) =>
        PacketExactly(e, key, p, env);
        ViewKeys(e, key, idx);
        if key == e.slots[idx].Endpoint() {
          AfterEnds(e.slots[idx], p, env);
        } else if key !in View(e) && e.free != [] {
          FreeSlot(e);
        }
      case ReaperCheck(i, now, bye) => if i < |e.slots| { ReapExact(e, i, now, bye); }
      case ShutdownClose(i, bye) => if i < |e.slots| { CloseIfConnectedExact(e, i, bye); }
    }
  }

  lemma ViewKeys(e: Engine, key: Key, idx: nat)
    requires Inv(e) && KeysUnique(e) && idx < |e.slots| && e.slots[idx].connected
    ensures key in View(e) && View(e)[key] == idx <==> key == e.slots[idx].Endpoint()
    ensures key in View(e) ==> 0 <= View(e)[key] < |e.slots|
  {
    hide Inv, View;
    ViewHas(e, idx);
    if key in View(e) {
      ViewHolds(e, key);
    }
  }

  lemma AfterEnds(s: Slot, p: CliPkt, env: Env)
    requires s.connected
    ensures SlotAfter(s, p, env).connected <==> !Ends(s, p, env)
  {
  }

  // ------------------------------------------------------------------ a whole run

  function TimeOf(ev: Event): Option<int> {
    match ev
    case Packet(_, _, env) => Some(env.now)
    case ReaperCheck(_, now, _) => Some(now)
    case ShutdownClose(_, _) => None
  }

  /** The clock does not go back, nor before `start`. */
  ghost predicate InOrder(evs: seq<Event>, start: int) {
    && (forall i :: 0 <= i < |evs| && TimeOf(evs[i]).Some? ==> start <= TimeOf(evs[i]).value)
    && (forall i, j :: 0 <= i < j < |evs| && TimeOf(evs[i]).Some? && TimeOf(evs[j]).Some? ==>
          TimeOf(evs[i]).value <= TimeOf(evs[j]).value)
  }

  predicate IsSync(ev: Event, key: Key) {
    ev.Packet? && ev.key == key && IsRefresh(ev.pkt)
  }

  /** When the endpoint last sent a sync packet or a request for one, before event `k`. */
  function LastSync(evs: seq<Event>, key: Key, start: int, k: nat): int
    requires k <= |evs|
  {
    if k == 0 then start
    else if IsSync(evs[k - 1], key) then evs[k - 1].env.now
    else LastSync(evs, key, start, k - 1)
  }

  /** A packet that does not end a session, whether it is authenticated or not. */
  predicate Gentle(p: CliPkt, env: Env) {
    p.ptype != TCLI_PKT_CLOSE && !IsBad(p, env) && (p.ptype == TCLI_PKT_AUTH ==> env.authRes.Some? && env.reply > 0)
  }

  /** The session's own packets are gentle, it is not shut down, and it has sent a sync packet within `limit` seconds
      of each check. */
  ghost predicate KeepsInTouch(evs: seq<Event>, key: Key, idx: nat, start: int, limit: int) {
    forall k :: 0 <= k < |evs| ==>
      match evs[k]
      case Packet(key', p, env) => key' == key ==> Gentle(p, env)
      case ReaperCheck(i, now, _) => i == idx ==> now - LastSync(evs, key, start, k) <= limit
      case ShutdownClose(i, _) => i != idx
  }

  lemma {:induction false} LastSyncBefore(evs: seq<Event>, key: Key, start: int, k: nat, j: nat)
    requires InOrder(evs, start) && k <= j < |evs| && TimeOf(evs[j]).Some?
    ensures start <= LastSync(evs, key, start, k) <= TimeOf(evs[j]).value
  {
    if k > 0 && !IsSync(evs[k - 1], key) {
      LastSyncBefore(evs, key, start, k - 1, j);
    }
  }

  /** A session that sends a sync packet at least every 180 seconds, or 30 before it is authenticated, is never
      closed by the reaper, whatever other packets do. */
  lemma {:induction false} AliveWhileInTouch(e: Engine, evs: seq<Event>, idx: nat, k: nat)
    requires Inv(e) && k <= |evs| && idx < |e.slots| && e.slots[idx].connected
    requires var s := e.slots[idx];
             InOrder(evs, s.lastAct)
             && KeepsInTouch(evs, s.Endpoint(), idx, s.lastAct, if s.authenticated then 180 else 30)
    ensures |States(e, evs)[k].slots| == |e.slots|
    ensures var s, t := e.slots[idx], States(e, evs)[k].slots[idx];
            && t.connected && t.Endpoint() == s.Endpoint() && (s.authenticated ==> t.authenticated)
            && LastSync(evs, s.Endpoint(), s.lastAct, k) <= t.lastAct
            && (k < |evs| ==> Spares(t, idx, evs[k]))
  {
    hide Inv, States, Step, InOrder, Ends;
    var s := e.slots[idx];
    var key, start := s.Endpoint(), s.lastAct;
    StatesStart(e, evs);
    if k > 0 {
      AliveWhileInTouch(e, evs, idx, k - 1);
      StatesStep(e, evs, k - 1);
      StepOnSession(States(e, evs)[k - 1], evs[k - 1], idx);
      if TimeOf(evs[k - 1]).Some? {
        LastSyncBefore(evs, key, start, k - 1, k - 1);
      }
      StaysInTouch(States(e, evs)[k - 1].slots[idx], evs, key, start, k - 1);
    }
    if k < |evs| {
      InTouchSpares(States(e, evs)[k].slots[idx], evs, key, start, k, idx, if s.authenticated then 180 else 30);
    }
  }

  lemma StatesStart(e: Engine, evs: seq<Event>)
    requires Inv(e)
    ensures States(e, evs)[0] == e
  {
    hide Inv;
  }

  /** What a spared slot keeps. */
  lemma StaysInTouch(t: Slot, evs: seq<Event>, key: Key, start: int, k: nat)
    requires k < |evs| && t.connected && t.Endpoint() == key && LastSync(evs, key, start, k) <= t.lastAct
    requires evs[k].Packet? ==> LastSync(evs, key, start, k) <= evs[k].env.now
    requires evs[k].Packet? && evs[k].key == key ==> !Ends(t, evs[k].pkt, evs[k].env)
    ensures var t' := Spared(t, evs[k]);
            && t'.connected && t'.Endpoint() == key && (t.authenticated ==> t'.authenticated)
            && LastSync(evs, key, start, k + 1) <= t'.lastAct
  {
    hide Ends;
  }

  lemma InTouchSpares(t: Slot, evs: seq<Event>, key: Key, start: int, k: nat, idx: nat, limit: int)
    requires k < |evs| && t.connected && t.Endpoint() == key && LastSync(evs, key, start, k) <= t.lastAct
    requires KeepsInTouch(evs, key, idx, start, limit)
    requires limit == 30 || (limit == 180 && t.authenticated)
    ensures Spares(t, idx, evs[k])
  {
  }

  // ------------------------------------------------------------------ free slots

  /** What a free slot holds: nothing but an endpoint that found no memory, and the count of a packet that ended
      the last session. */
  predicate Resting(s: Slot) {
    s == Slot(0, s.srcAddr, s.srcPort, 0, Key(0, 0), "_", s.loopC, false, false) && s.loopC <= 1
  }

  ghost predicate AllResting(e: Engine) {
    forall i :: 0 <= i < |e.slots| && !e.slots[i].connected ==> Resting(e.slots[i])
  }

  lemma StepResting(e: Engine, ev: Event)
    requires Inv(e) && AllResting(e)
    ensures AllResting(Step(e, ev).engine)
  {
    hide Inv, HandlePacket, Reap, CloseIfConnected, View, KeysUnique, ChainsSound;
    hide Failure, SentFor, Expired, IsBad, Greets, MayStart;
    InvKeys(e);
    match ev {
      case Packet(key, p, env) =>
        PacketExactly(e, key, p, env);
        if key in View(e) {
          ViewHolds(e, key);
        }
      case ReaperCheck(i, now, bye) => if i < |e.slots| { ReapExact(e, i, now, bye); }
      case ShutdownClose(i, bye) => if i < |e.slots| { CloseSlot(e, i, bye); }
    }
  }

  lemma CloseSlot(e: Engine, i: U16, bye: SendRet)
    requires Inv(e) && Wf(e) && i < |e.slots|
    ensures CloseIfConnected(e, i, bye).engine.slots == e.slots[i := if e.slots[i].connected then BLANK else e.slots[i]]
  {
    hide Inv, Close;
    if e.slots[i].connected {
      CloseSpec(e, i, bye);
    }
  }

  /** In every reachable state a free slot is at rest, so a new session starts with nothing of an old one but a
      packet counter of at most one. */
  lemma {:induction false} ReachableResting(maxConn: U16, evs: seq<Event>, k: nat)
    requires k <= |evs|
    ensures AllResting(Run(maxConn, evs)[k])
  {
    hide Inv, States, Step, AllResting;
    InitInv(maxConn);
    StatesStart(Init(maxConn), evs);
    if k == 0 {
      InitResting(maxConn);
    } else {
      ReachableResting(maxConn, evs, k - 1);
      StatesStep(Init(maxConn), evs, k - 1);
      StepResting(Run(maxConn, evs)[k - 1], evs[k - 1]);
    }
  }

  lemma InitResting(maxConn: U16)
    ensures AllResting(Init(maxConn))
  {
  }

  /** What a session is when it has just been greeted. */
  lemma NewSession(maxConn: U16, evs: seq<Event>, k: nat, key: Key, p: CliPkt, env: Env)
    requires k <= |evs| && key !in View(Run(maxConn, evs)[k])
    ensures var e := Run(maxConn, evs)[k];
            var o := HandlePacket(e, key, p, env);
            forall i: U16, key': Key :: HandshakeAccepted(i, key') in o.notes ==>
              && key' == key && i < |o.engine.slots| && o.engine.slots[i].loopC <= 1
              && o.engine.slots[i]
                 == Slot(0, key.addr, key.port, env.now, key, "_", o.engine.slots[i].loopC, false, true)
  {
    hide Inv, HandlePacket, View, KeysUnique, ChainsSound, Greets, MayStart;
    var e := Run(maxConn, evs)[k];
    InvKeys(e);
    PacketExactly(e, key, p, env);
    ReachableResting(maxConn, evs, k);
    if e.free != [] {
      FreeSlot(e);
      assert Resting(e.slots[e.free[0]]);
    }
  }
}
