/**
 What one packet does to the sessions, said once more in plain terms: which packets end a session, what the
 others change in it, what is sent, and what is returned. The handlers of `SessionEngine` are proved to do
 exactly this.
 */
module PacketLaws {
  import opened AuthPacket
  import opened Common
  import opened SessionEngine
  import opened SessionProofs
  import opened ServerSafety

  // ------------------------------------------------------------------ a packet of a session

  /** A packet of no known type, or data that the TUN device rejects with EBADMSG. */
  predicate IsBad(p: CliPkt, env: Env) {
    p.ptype > TCLI_PKT_CLOSE || (p.ptype == TCLI_PKT_TUN_DATA && p.dataLen != 0 && env.tunRet == -EBADMSG)
  }

  /** A first login. */
  predicate LogsIn(s: Slot, p: CliPkt) { p.ptype == TCLI_PKT_AUTH && !s.authenticated }

  /** A login that is accepted and whose reply did not fail. */
  predicate LoginOk(s: Slot, p: CliPkt, env: Env) { LogsIn(s, p) && env.authRes.Some? && env.reply > 0 }

  /** The packet ends its session: a request to do so, a bad packet, or a login that does not succeed. */
  predicate Ends(s: Slot, p: CliPkt, env: Env) {
    p.ptype == TCLI_PKT_CLOSE || IsBad(p, env) || (LogsIn(s, p) && !LoginOk(s, p, env))
  }

  /** The error of a reply that could not be sent or of data that could not be written; a bad packet is none. */
  function Failure(s: Slot, p: CliPkt, env: Env): int {
    if (p.ptype == TCLI_PKT_REQSYNC || LogsIn(s, p)) && env.reply < 0 then env.reply
    else if p.ptype == TCLI_PKT_TUN_DATA && p.dataLen != 0 && env.tunRet == 0 then -ENETDOWN
    else if p.ptype == TCLI_PKT_TUN_DATA && p.dataLen != 0 && env.tunRet < 0 && !IsBad(p, env) then env.tunRet
    else 0
  }

  /** The packet counts as one of the session's packets. */
  predicate IsCounted(s: Slot, p: CliPkt, env: Env) { !IsBad(p, env) && Failure(s, p, env) == 0 }

  /** It is the 32nd since the last one that was answered with a sync packet. */
  predicate Is32nd(s: Slot, p: CliPkt, env: Env) { IsCounted(s, p, env) && (s.loopC + 1) % 32 == 0 }

  predicate IsRefresh(p: CliPkt) { p.ptype == TCLI_PKT_SYNC || p.ptype == TCLI_PKT_REQSYNC }

  /** When the session has last been active: a sync packet, a request for one and every 32nd packet refresh it,
      and nothing else does. */
  function LastAct(s: Slot, p: CliPkt, env: Env): int {
    if IsRefresh(p) || Is32nd(s, p, env) then env.now else s.lastAct
  }

  function LoopC(s: Slot, p: CliPkt, env: Env): U8 {
    if IsCounted(s, p, env) then (s.loopC + 1) % 0x100 else s.loopC
  }

  /** The slot after the packet: reset, or with its activity and counter, and with a login that succeeded. A
      session that ends may still count the packet that ended it. */
  function SlotAfter(s: Slot, p: CliPkt, env: Env): Slot {
    if Ends(s, p, env) then BLANK.(loopC := if IsCounted(s, p, env) then 1 else 0)
    else
      var t := s.(lastAct := LastAct(s, p, env), loopC := LoopC(s, p, env));
      if LoginOk(s, p, env) then
        t.(ipv4Iff := env.authRes.value, authenticated := true, username := UserOf(p.creds))
      else t
  }

  /** The reply to the packet itself. */
  function Reply(s: Slot, p: CliPkt, env: Env): seq<Sent> {
    if env.reply < 0 then []
    else if LogsIn(s, p) then [Sent(s.dst, if env.authRes.Some? then TSRV_PKT_AUTH_OK else TSRV_PKT_AUTH_REJECT)]
    else if p.ptype == TCLI_PKT_REQSYNC then [Sent(s.dst, TSRV_PKT_SYNC)]
    else []
  }

  /** Everything that is sent: the reply, a close packet when the session ends, a sync packet on every 32nd. */
  function SentFor(s: Slot, p: CliPkt, env: Env): seq<Sent> {
    Reply(s, p, env)
    + (if Ends(s, p, env) then (if env.bye > 0 then [Sent(s.dst, TSRV_PKT_CLOSE)] else [])
       else if Is32nd(s, p, env) && env.sync > 0 then [Sent(s.dst, TSRV_PKT_SYNC)] else [])
  }

  /** What a packet of the session in slot `idx` leads to. */
  ghost predicate KnownSpec(e: Engine, idx: U16, p: CliPkt, env: Env, o: Outcome)
    requires Inv(e) && Wf(e) && idx < |e.slots|
  {
    var s := e.slots[idx];
    && Inv(o.engine) && Wf(o.engine)
    && o.engine.slots == e.slots[idx := SlotAfter(s, p, env)]
    && o.ret == Failure(s, p, env)
    && o.out == SentFor(s, p, env)
    && View(o.engine) == (if Ends(s, p, env) then View(e) - {s.Endpoint()} else View(e))
    && o.engine.free == (if Ends(s, p, env) then [idx] + e.free else e.free)
    && o.engine.routes == (if Ends(s, p, env) then (if s.ipv4Iff != 0 then e.routes[Cell(s.ipv4Iff) := 0] else e.routes)
                           else if LoginOk(s, p, env) then e.routes[Cell(env.authRes.value) := idx + 1]
                           else e.routes)
    && o.notes == (if Ends(s, p, env) then [Closed(idx)]
                   else if LoginOk(s, p, env) then
                     [AuthAccepted(idx, s.Endpoint(), UserOf(p.creds), PassOf(p.creds))]
                   else [])
  }

  lemma CloseSpec(e: Engine, idx: U16, bye: SendRet)
    requires Inv(e) && Wf(e) && idx < |e.slots| && e.slots[idx].connected
    ensures var o, s := Close(e, idx, bye), e.slots[idx];
            && Inv(o.engine) && Wf(o.engine) && o.engine.slots == e.slots[idx := BLANK] && o.ret == 0
            && o.engine.free == [idx] + e.free
            && o.engine.routes == (if s.ipv4Iff != 0 then e.routes[Cell(s.ipv4Iff) := 0] else e.routes)
            && o.out == (if bye > 0 then [Sent(s.dst, TSRV_PKT_CLOSE)] else [])
            && o.notes == [Closed(idx)]
            && View(o.engine) == View(e) - {s.Endpoint()}
  {
    hide Cell, Without, ChainsSound, KeysUnique, InRange, SlotPartition, Online;
    CloseInv(e, idx, bye);
    DeleteNeverFindsStackFull(e, idx);
    InvKeys(e);
    InvKeys(Close(e, idx, bye).engine);
    ViewRemove(e, Close(e, idx, bye).engine, idx, BLANK);
  }

  lemma InvKeys(e: Engine)
    requires Inv(e)
    ensures KeysUnique(e) && Wf(e) && InRange(e)
    ensures forall i :: 0 <= i < |e.slots| ==> SlotOk(e.slots[i])
  {
  }

  /** Changing a slot that keeps its endpoint leaves the map alone. */
  lemma ViewSame(e: Engine, e': Engine)
    requires KeysUnique(e) && KeysUnique(e') && |e'.slots| == |e.slots|
    requires forall i :: 0 <= i < |e.slots| ==>
               e'.slots[i].connected == e.slots[i].connected && e'.slots[i].Endpoint() == e.slots[i].Endpoint()
    ensures View(e') == View(e)
  {
  }

  /** The handler of the packet's type. */
  lemma DispatchSpec(e: Engine, idx: U16, p: CliPkt, env: Env)
    requires Inv(e) && Wf(e) && idx < |e.slots| && e.slots[idx].connected
    ensures var o, s := Dispatch(e, idx, p, env), e.slots[idx];
            && o.ret == (if IsBad(p, env) then -EBADMSG else Failure(s, p, env))
            && (IsBad(p, env) ==> o.engine == e && o.out == [] && o.notes == [])
            && (Ends(s, p, env) && !IsBad(p, env) ==>
                  var c := Close(e, idx, env.bye);
                  o.engine == c.engine && o.out == Reply(s, p, env) + c.out && o.notes == c.notes)
            && (!Ends(s, p, env) ==>
                  && o.out == Reply(s, p, env)
                  && o.engine == e.(slots := o.engine.slots, routes := o.engine.routes)
                  && o.engine.slots == e.slots[idx := SlotAfter(s, p, env).(loopC := s.loopC,
                       lastAct := if IsRefresh(p) then env.now else s.lastAct)]
                  && o.engine.routes == (if LoginOk(s, p, env) then e.routes[Cell(env.authRes.value) := idx + 1]
                                         else e.routes)
                  && o.notes == (if LoginOk(s, p, env) then
                                   [AuthAccepted(idx, s.Endpoint(), UserOf(p.creds), PassOf(p.creds))]
                                 else []))
  {
    hide Inv, Cell, Close, UserOf, PassOf;
    CloseSpec(e, idx, env.bye);
    assert e.slots[idx := e.slots[idx]] == e.slots;
  }

  /** A packet that ends its session is counted in the slot that it leaves behind. */
  lemma CountAfterClose(e: Engine, idx: U16, o: Outcome, env: Env)
    requires Inv(e) && Wf(e) && idx < |e.slots| && o.engine.slots == e.slots[idx := BLANK]
    ensures Count(o, idx, env).engine == o.engine.(slots := e.slots[idx := BLANK.(loopC := 1)])
    ensures Count(o, idx, env) == o.(engine := Count(o, idx, env).engine)
  {
    hide Inv;
  }

  lemma KnownEnds(e: Engine, idx: U16, p: CliPkt, env: Env)
    requires Inv(e) && Wf(e) && idx < |e.slots| && e.slots[idx].connected && Ends(e.slots[idx], p, env)
    ensures var o, s := KnownClient(e, idx, p, env), e.slots[idx];
            var c := Close(e, idx, env.bye);
            && o.engine == c.engine.(slots := e.slots[idx := SlotAfter(s, p, env)])
            && o.ret == Failure(s, p, env) && o.out == Reply(s, p, env) + c.out && o.notes == c.notes
  {
    hide Inv, Cell, Close, Dispatch, UserOf, PassOf, Count;
    DispatchSpec(e, idx, p, env);
    CloseSpec(e, idx, env.bye);
    var s, c, o := e.slots[idx], Close(e, idx, env.bye), Dispatch(e, idx, p, env);
    if IsBad(p, env) {
      assert Reply(s, p, env) == [] && [] + c.out == c.out;
    } else if o.ret >= 0 {
      CountAfterClose(e, idx, o, env);
    }
  }

  lemma KnownStays(e: Engine, idx: U16, p: CliPkt, env: Env)
    requires Inv(e) && Wf(e) && idx < |e.slots| && e.slots[idx].connected && !Ends(e.slots[idx], p, env)
    ensures var o, s := KnownClient(e, idx, p, env), e.slots[idx];
            && o.engine == e.(slots := e.slots[idx := SlotAfter(s, p, env)],
                              routes := Dispatch(e, idx, p, env).engine.routes)
            && o.ret == Failure(s, p, env) && o.out == SentFor(s, p, env) && o.notes == Dispatch(e, idx, p, env).notes
  {
    hide Inv, Cell, Close, Dispatch, UserOf, PassOf;
    DispatchSpec(e, idx, p, env);
    var s, o := e.slots[idx], Dispatch(e, idx, p, env);
    assert Next8(s.loopC) % 32 == (s.loopC + 1) % 32;
    assert o.out + [] == o.out;
  }

  lemma KnownClientSpec(e: Engine, idx: U16, p: CliPkt, env: Env)
    requires Inv(e) && Wf(e) && idx < |e.slots| && e.slots[idx].connected
    ensures KnownSpec(e, idx, p, env, KnownClient(e, idx, p, env))
  {
    hide Inv, Cell, Close, Dispatch, KnownClient, UserOf, PassOf, View, KeysUnique, InRange;
    KnownClientInv(e, idx, p, env);
    var o := KnownClient(e, idx, p, env);
    InvKeys(e);
    InvKeys(o.engine);
    if Ends(e.slots[idx], p, env) {
      KnownEnds(e, idx, p, env);
      CloseSpec(e, idx, env.bye);
      InvKeys(Close(e, idx, env.bye).engine);
      ViewSame(Close(e, idx, env.bye).engine, o.engine);
    } else {
      KnownStays(e, idx, p, env);
      DispatchSpec(e, idx, p, env);
      ViewSame(e, o.engine);
    }
  }

  // ------------------------------------------------------------------ a packet without a session

  /** The packet may start a session: a handshake, a login, or of no known type. */
  predicate MayStart(p: CliPkt) { p.ptype == TCLI_PKT_HANDSHAKE || p.ptype == TCLI_PKT_AUTH || p.ptype > TCLI_PKT_CLOSE }

  /** A whole handshake of version 0.1.2. */
  predicate Greets(p: CliPkt) {
    && p.ptype == TCLI_PKT_HANDSHAKE && p.recvLen >= 100 && p.dataLen == 96
    && p.version.ver == 0 && p.version.patchLvl == 1 && p.version.subLvl == 2
  }

  /** A session that was just created in a slot. */
  function Opened(s: Slot, key: Key, now: int): Slot {
    s.(srcAddr := key.addr, srcPort := key.port, dst := key, lastAct := now, connected := true)
  }

  /** What a packet of an endpoint without a session leads to. */
  ghost predicate NewSpec(e: Engine, key: Key, p: CliPkt, env: Env, o: Outcome)
    requires Inv(e) && Wf(e)
  {
    && Inv(o.engine) && Wf(o.engine)
    && if !MayStart(p) || e.free == [] then o == Outcome(e, [], 0, [])
       else
         var idx := e.free[0];
         && idx < |e.slots|
         && o.engine.routes == e.routes
         && if e.chains[Cell(key.addr)] != [] && !env.mallocOk then
              && o.engine == e.(slots := e.slots[idx := e.slots[idx].(srcAddr := key.addr, srcPort := key.port)])
              && o.ret == -ENOMEM && o.out == [] && o.notes == []
            else if Greets(p) && env.reply > 0 then
              && o.engine.slots == e.slots[idx := Opened(e.slots[idx], key, env.now)] && o.engine.free == e.free[1..]
              && View(o.engine) == View(e)[key := idx as int]
              && o.ret == 0 && o.out == [Sent(key, TSRV_PKT_HANDSHAKE)] && o.notes == [HandshakeAccepted(idx, key)]
            else
              && o.engine.slots == e.slots[idx := BLANK] && o.engine.free == e.free
              && View(o.engine) == View(e)
              && o.ret == (if Greets(p) then env.reply else 0)
              && o.out == (if !Greets(p) && env.reply > 0 then [Sent(key, TSRV_PKT_HANDSHAKE_REJECT)] else [])
                          + (if env.bye > 0 then [Sent(key, TSRV_PKT_CLOSE)] else [])
              && o.notes == [Closed(idx)]
  }

  lemma GreetsIsGood(p: CliPkt)
    ensures GoodHandshake(p) <==> Greets(p)
    ensures SkipsSessionCreation(p) <==> !MayStart(p)
  {
  }

  lemma AdmitSpec(e: Engine, key: Key, now: int, mallocOk: bool)
    requires Inv(e) && Wf(e) && InRange(e) && Lookup(e, key).None?
    ensures var (e', r) := Admit(e, key, now, mallocOk);
            && Inv(e') && Wf(e') && |e'.slots| == |e.slots|
            && (if e.free == [] then e' == e && r == SlotsFull
                else
                  var idx := e.free[0];
                  && idx < |e.slots| && !e.slots[idx].connected && e.slots[idx].ipv4Iff == 0
                  && e'.routes == e.routes
                  && if e.chains[Cell(key.addr)] != [] && !mallocOk then
                       && e' == e.(slots := e.slots[idx := e.slots[idx].(srcAddr := key.addr, srcPort := key.port)])
                       && r == NoMemory
                     else
                       && e'.slots == e.slots[idx := Opened(e.slots[idx], key, now)] && e'.free == e.free[1..]
                       && View(e') == View(e)[key := idx as int] && key !in View(e) && r == Created(idx))
  {
    hide Inv, Cell, View, KeysUnique, ChainsSound, Lookup;
    LookupRefines(e, key);
    CreateRefines(e, key, now, mallocOk);
    if e.free != [] {
      FreeSlot(e);
    }
  }

  lemma FreeSlot(e: Engine)
    requires Inv(e) && e.free != []
    ensures e.free[0] < |e.slots| && !e.slots[e.free[0]].connected && e.slots[e.free[0]].ipv4Iff == 0
    ensures e.free == [e.free[0]] + e.free[1..]
  {
    assert e.free[0] in e.free;
  }

  lemma NewClientSpec(e: Engine, key: Key, p: CliPkt, env: Env)
    requires Inv(e) && Wf(e) && InRange(e) && Lookup(e, key).None?
    ensures NewSpec(e, key, p, env, NewClient(e, key, p, env))
  {
    hide Inv, Cell, Close, Admit, View, KeysUnique, ChainsSound, Lookup;
    hide GoodHandshake, SkipsSessionCreation, Greets, MayStart;
    InvKeys(e);
    GreetsIsGood(p);
    AdmitSpec(e, key, env.now, env.mallocOk);
    var (e', r) := Admit(e, key, env.now, env.mallocOk);
    if r.Created? && !SkipsSessionCreation(p) {
      FreeSlot(e);
      CloseSpec(e', r.idx, env.bye);
      assert View(e)[key := r.idx as int] - {key} == View(e);
      assert e.slots[r.idx := e'.slots[r.idx]][r.idx := BLANK] == e.slots[r.idx := BLANK];
    }
  }

  // ------------------------------------------------------------------ any packet

  /** Main result. A packet has the effect of its type on the session of its endpoint, or starts one; no other
      session's slot changes. */
  lemma PacketExactly(e: Engine, key: Key, p: CliPkt, env: Env)
    requires Inv(e) && Wf(e)
    ensures var o := HandlePacket(e, key, p, env);
            if key in View(e) then
              var idx := View(e)[key];
              0 <= idx < |e.slots| && KnownSpec(e, idx, p, env, o)
            else NewSpec(e, key, p, env, o)
    ensures var o := HandlePacket(e, key, p, env);
            forall i :: 0 <= i < |e.slots| && e.slots[i].connected && e.slots[i].Endpoint() != key ==>
              o.engine.slots[i] == e.slots[i]
  {
    hide Inv, Cell, KnownClient, NewClient, View, KeysUnique, ChainsSound, Lookup;
    hide SlotAfter, Failure, SentFor, Ends, LoginOk, Greets, MayStart, Opened;
    InvKeys(e);
    LookupRefines(e, key);
    match Lookup(e, key) {
      case None =>
        NewClientSpec(e, key, p, env);
        if e.free != [] { FreeSlot(e); }
      case Some(idx) =>
        LookupIs(e, key);
        KnownClientSpec(e, idx, p, env);
    }
  }

  lemma LookupIs(e: Engine, key: Key)
    requires Inv(e) && Wf(e) && InRange(e) && Lookup(e, key).Some?
    ensures var idx := Lookup(e, key).value;
            idx < |e.slots| && e.slots[idx].connected && e.slots[idx].Endpoint() == key
  {
    LookupSound(e, key);
  }
}
