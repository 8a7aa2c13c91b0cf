/**
 Whole runs of one server, any number of clients and a network that may lose, duplicate, delay
 and reorder packets but does not invent them. Endpoints that run no client may send anything.

 Main result: a client whose authentication succeeds has been greeted and then authenticated, with
 its own credentials, by the server on one and the same uninterrupted session.
 */
module Protocol {
  import opened AuthPacket
  import opened Common
  import opened SessionEngine
  import opened SessionProofs
  import opened ServerSafety
  import opened Client

  datatype Pc = Idle | AwaitHandshake | AwaitAuth | Authenticated | Failed(err: int)

  datatype ClientState = ClientState(user: Text, pass: Text, pc: Pc, hsSent: nat, authSent: nat)

  /** `toServer` and `toClients` hold every packet ever sent: delivery does not remove it. `past` holds the
      credentials that clients have ever been started with at an endpoint. */
  datatype World = World(
    server: Engine,
    clients: map<Key, ClientState>,
    toServer: set<(Key, CliPkt)>,
    toClients: set<(Key, SrvPkt)>,
    log: seq<Note>,
    past: set<(Key, Text, Text)>
  )

  datatype WorldEvent =
    | ClientRestart(key: Key, user: Text, pass: Text)
    | ClientStart(key: Key, closeSent: bool, send: int)
    | ClientRecv(key: Key, recv: Recv, send: int, ifaceUp: bool)
    | Elsewhere(key: Key, pkt: CliPkt)
    | ServerStep(ev: Event)
    | TunTraffic(key: Key, data: SrvPkt)

  /** The user files: the private address of valid credentials. */
  type UserFiles = (Text, Text) -> Option<U32>

  /** What the rest of a packet buffer holds: the length field and the credentials. */
  datatype Held = Held(dataLen: U16, creds: Creds)

  /** A packet in the buffer that it was received into. The handshake's fields are only read when they have
      arrived. */
  function AsReceived(sent: CliPkt, held: Held): CliPkt {
    sent.(dataLen := if sent.recvLen < PKT_MIN_LEN then held.dataLen else sent.dataLen,
          creds := Over(sent.creds, Payload(sent), held.creds))
  }

  /** The bytes after the header that have arrived. */
  function Payload(p: CliPkt): nat { if p.recvLen < PKT_MIN_LEN then 0 else p.recvLen - PKT_MIN_LEN }

  /** The network delivers a packet that was sent; an empty one is dropped. */
  ghost predicate Arrives(w: World, key: Key, pkt: CliPkt) {
    exists sent: CliPkt, held: Held :: (key, sent) in w.toServer && sent.recvLen > 0 && pkt == AsReceived(sent, held)
  }

  function Check(auth: UserFiles, pkt: CliPkt): Option<U32> { auth(UserOf(pkt.creds), PassOf(pkt.creds)) }

  ghost predicate Enabled(w: World, ev: WorldEvent, auth: UserFiles) {
    match ev
    case ClientRestart(key, _, _) => key in w.clients
    case ClientStart(key, _, _) => key in w.clients && w.clients[key].pc == Idle
    case ClientRecv(key, recv, _, _) =>
      && key in w.clients && (w.clients[key].pc == AwaitHandshake || w.clients[key].pc == AwaitAuth)
      && (match recv case Failure(err) => err < 0 case Got(pkt) => (key, pkt) in w.toClients)
    case Elsewhere(key, pkt) => key in w.clients ==> pkt.ptype != TCLI_PKT_HANDSHAKE && pkt.ptype != TCLI_PKT_AUTH
    case ServerStep(Packet(key, pkt, env)) => Arrives(w, key, pkt) && env.authRes == Check(auth, pkt)
    case ServerStep(_) => true
    case TunTraffic(_, pkt) => pkt.ptype == TSRV_PKT_TUN_DATA
  }

  /** Sends one auth request, or fails. */
  function SendAuth(c: ClientState, send: int): ClientState {
    if send < 0 then c.(pc := Failed(send)) else c.(pc := AwaitAuth, authSent := c.authSent + 1)
  }

  function SendHandshake(c: ClientState, send: int): ClientState {
    if send < 0 then c.(pc := Failed(send)) else c.(pc := AwaitHandshake, hsSent := c.hsSent + 1)
  }

  /** One wait of `do_handshake` or `do_auth`, with the request that may follow it. */
  function ClientNext(c: ClientState, recv: Recv, send: int, ifaceUp: bool): ClientState {
    if c.pc == AwaitHandshake then
      var ret := HandshakeRet(recv);
      if HandshakeRetries(ret, c.hsSent) then SendHandshake(c, send)
      else if ret == 0 then SendAuth(c, send)
      else c.(pc := Failed(ret))
    else
      var ret := AuthRet(recv, ifaceUp);
      if AuthRetries(ret, c.authSent) then SendAuth(c, send)
      else if ret == 0 then c.(pc := Authenticated)
      else c.(pc := Failed(ret))
  }

  /** The packets a client's step has put on the network. */
  function Emitted(key: Key, c: ClientState, c': ClientState): set<(Key, CliPkt)> {
    (if c'.hsSent > c.hsSent then {(key, HandshakePkt())} else {})
    + (if c'.authSent > c.authSent then {(key, AuthPkt(c.user, c.pass))} else {})
  }

  function Wires(out: seq<Sent>): set<(Key, SrvPkt)> {
    set s | s in out :: (s.dst, Prepared(s.ptype))
  }

  function Next(w: World, ev: WorldEvent): World
    requires Inv(w.server)
  {
    match ev
    case ClientRestart(key, user, pass) =>
      w.(clients := w.clients[key := ClientState(user, pass, Idle, 0, 0)], past := w.past + {(key, user, pass)})
    case ClientStart(key, closeSent, send) =>
      if key !in w.clients then w
      else
        var c' := SendHandshake(w.clients[key], send);
        w.(clients := w.clients[key := c'],
           toServer := w.toServer + Emitted(key, w.clients[key], c') + if closeSent then {(key, ClosePkt())} else {})
    case ClientRecv(key, recv, send, ifaceUp) =>
      if key !in w.clients then w
      else
        var c' := ClientNext(w.clients[key], recv, send, ifaceUp);
        w.(clients := w.clients[key := c'], toServer := w.toServer + Emitted(key, w.clients[key], c'))
    case Elsewhere(key, pkt) => w.(toServer := w.toServer + {(key, pkt)})
    case ServerStep(ev) =>
      var o := Step(w.server, ev);
      w.(server := o.engine, toClients := w.toClients + Wires(o.out), log := w.log + o.notes)
    case TunTraffic(key, pkt) => w.(toClients := w.toClients + {(key, pkt)})
  }

  /** A world in which nothing has happened yet. */
  ghost predicate Fresh(w: World, maxConn: U16) {
    && w.server == SessionEngine.Init(maxConn)
    && w.toServer == {} && w.toClients == {} && w.log == []
    && w.past == (set k | k in w.clients :: (k, w.clients[k].user, w.clients[k].pass))
    && forall k :: k in w.clients ==> w.clients[k].pc == Idle && w.clients[k].hsSent == 0 && w.clients[k].authSent == 0
  }

  /** A run: every event is enabled where it happens and leads to the next world. */
  ghost predicate IsRun(ws: seq<World>, evs: seq<WorldEvent>, auth: UserFiles, maxConn: U16) {
    && |ws| == |evs| + 1
    && Fresh(ws[0], maxConn)
    && forall k :: 0 <= k < |evs| ==>
         Inv(ws[k].server) && Enabled(ws[k], evs[k], auth) && ws[k + 1] == Next(ws[k], evs[k])
  }

  // ------------------------------------------------------------------ what one server step may do

  /** What an outcome's events say about the session slots. */
  ghost predicate Effect(e: Engine, o: Outcome) {
    && |o.engine.slots| == |e.slots| <= MAX_SLOTS
    && |o.notes| <= 1
    && (forall i :: 0 <= i < |e.slots| && o.engine.slots[i].connected ==>
          || (e.slots[i].connected && e.slots[i].Endpoint() == o.engine.slots[i].Endpoint() && Closed(i) !in o.notes)
          || o.notes == [HandshakeAccepted(i, o.engine.slots[i].Endpoint())])
    && (o.notes != [] && o.notes[0].AuthAccepted? ==>
          && o.notes[0].slot < |e.slots| && e.slots[o.notes[0].slot].connected
          && e.slots[o.notes[0].slot].Endpoint() == o.notes[0].key)
    && (forall s :: s in o.out && s.ptype == TSRV_PKT_AUTH_OK ==>
          o.notes != [] && o.notes[0].AuthAccepted? && o.notes[0].key == s.dst)
    && (forall n :: n in o.notes && n.HandshakeAccepted? ==> Sent(n.key, TSRV_PKT_HANDSHAKE) in o.out)
  }

  /** What a packet's outcome says about the packet. */
  ghost predicate Caused(o: Outcome, key: Key, p: CliPkt, auth: Option<U32>) {
    && (forall n :: n in o.notes && n.HandshakeAccepted? ==> n.key == key && GoodHandshake(p))
    && (forall n :: n in o.notes && n.AuthAccepted? ==>
          && n.key == key && p.ptype == TCLI_PKT_AUTH && auth.Some?
          && n.user == UserOf(p.creds) && n.pass == PassOf(p.creds))
  }

  lemma CloseEffect(e: Engine, idx: U16, bye: SendRet)
    requires Wf(e) && idx < |e.slots| && e.slots[idx].connected
    ensures Effect(e, Close(e, idx, bye))
    ensures Close(e, idx, bye).notes == [Closed(idx)]
    ensures forall s :: s in Close(e, idx, bye).out ==> s.ptype == TSRV_PKT_CLOSE
  {
    hide Cell, Without;
  }

  lemma AuthEffect(e: Engine, idx: U16, p: CliPkt, env: Env)
    requires Wf(e) && idx < |e.slots| && e.slots[idx].connected && e.slots[idx].dst == e.slots[idx].Endpoint()
    requires p.ptype == TCLI_PKT_AUTH
    ensures Effect(e, Auth(e, idx, p, env)) && Caused(Auth(e, idx, p, env), e.slots[idx].Endpoint(), p, env.authRes)
  {
    hide Cell, Close, AddRoute;
    CloseEffect(e, idx, env.bye);
  }

  lemma DispatchEffect(e: Engine, idx: U16, p: CliPkt, env: Env)
    requires Wf(e) && idx < |e.slots| && e.slots[idx].connected && e.slots[idx].dst == e.slots[idx].Endpoint()
    ensures Effect(e, Dispatch(e, idx, p, env))
              && Caused(Dispatch(e, idx, p, env), e.slots[idx].Endpoint(), p, env.authRes)
  {
    hide Cell, Close, Auth;
    CloseEffect(e, idx, env.bye);
    if p.ptype == TCLI_PKT_AUTH { AuthEffect(e, idx, p, env); }
  }

  lemma KnownClientEffect(e: Engine, idx: U16, p: CliPkt, env: Env)
    requires Wf(e) && idx < |e.slots| && e.slots[idx].connected && e.slots[idx].dst == e.slots[idx].Endpoint()
    ensures Effect(e, KnownClient(e, idx, p, env))
              && Caused(KnownClient(e, idx, p, env), e.slots[idx].Endpoint(), p, env.authRes)
  {
    DispatchEffect(e, idx, p, env);
    CloseEffect(e, idx, env.bye);
    BadPacketUnchanged(e, idx, p, env);
    hide Cell, Close, Dispatch;
  }

  lemma NewClientEffect(e: Engine, key: Key, p: CliPkt, env: Env)
    requires Wf(e) && InRange(e)
    requires e.free != [] ==> !e.slots[e.free[0]].connected
    ensures Effect(e, NewClient(e, key, p, env)) && Caused(NewClient(e, key, p, env), key, p, env.authRes)
  {
    hide Cell, Close;
    var (e', r) := Admit(e, key, env.now, env.mallocOk);
    if r.Created? {
      CloseEffect(e', r.idx, env.bye);
    }
  }

  lemma StepEffect(e: Engine, ev: Event)
    requires Inv(e)
    ensures Effect(e, Step(e, ev))
    ensures ev.Packet? ==> Caused(Step(e, ev), ev.key, ev.pkt, ev.env.authRes)
    ensures !ev.Packet? ==> forall n :: n in Step(e, ev).notes ==> n.Closed?
  {
    hide Close, KnownClient, NewClient, Cell, ChainsSound, KeysUnique;
    match ev
    case Packet(key, p, env) =>
      LookupSound(e, key);
      match Lookup(e, key) {
        case None =>
          if e.free != [] { assert e.free[0] in e.free; }
          NewClientEffect(e, key, p, env);
        case Some(idx) => KnownClientEffect(e, idx, p, env);
      }
    case ReaperCheck(idx, now, bye) =>
      if idx < |e.slots| && e.slots[idx].connected { CloseEffect(e, idx, bye); }
    case ShutdownClose(idx, bye) =>
      if idx < |e.slots| && e.slots[idx].connected { CloseEffect(e, idx, bye); }
  }

  // ------------------------------------------------------------------ invariant of the world

  /** The session greeted by entry `h` has not been closed in the log up to `end`. */
  ghost predicate Uninterrupted(log: seq<Note>, h: nat, end: nat, slot: int, key: Key)
    requires end <= |log|
  {
    && h < end
    && (0 <= slot <= 0xFFFF && log[h] == HandshakeAccepted(slot, key))
    && forall j :: h < j < end ==> !(log[j].Closed? && log[j].slot == slot)
  }

  /** Entry `j` records a login that followed a greeting on the same uninterrupted session. */
  ghost predicate ProperLogin(log: seq<Note>, j: nat)
    requires j < |log| && log[j].AuthAccepted?
  {
    exists h: nat :: Uninterrupted(log, h, j, log[j].slot, log[j].key)
  }

  ghost predicate LoggedIn(w: World, key: Key) {
    exists j: nat :: j < |w.log| && w.log[j].AuthAccepted? && w.log[j].key == key
  }

  ghost predicate Greeted(w: World, key: Key) {
    exists p :: (key, p) in w.toServer && GoodHandshake(p)
  }

  predicate Bounded(c: ClientState) {
    && c.hsSent <= MAX_TRY && c.authSent <= MAX_TRY + 1
    && (c.pc == Idle ==> c.hsSent == 0 && c.authSent == 0)
    && (c.pc == AwaitHandshake ==> c.hsSent >= 1 && c.authSent == 0)
  }

  /** Every connected session was greeted, and not closed since. */
  ghost predicate SessionsGreeted(e: Engine, log: seq<Note>) {
    forall i :: 0 <= i < |e.slots| && e.slots[i].connected ==>
      exists h: nat :: Uninterrupted(log, h, |log|, i, e.slots[i].Endpoint())
  }

  /** Every recorded login is proper, valid, and used credentials of a client at that endpoint. */
  ghost predicate LoginsProper(log: seq<Note>, w: World, auth: UserFiles) {
    forall j: nat :: j < |log| && log[j].AuthAccepted? ==>
      && ProperLogin(log, j)
      && auth(log[j].user, log[j].pass).Some?
      && (log[j].key in w.clients ==> (log[j].key, log[j].user, log[j].pass) in w.past)
  }

  ghost predicate GreetingsBacked(w: World) {
    forall j: nat :: j < |w.log| && w.log[j].HandshakeAccepted? ==> Greeted(w, w.log[j].key)
  }

  ghost predicate RequestsOwn(w: World) {
    forall k, p :: (k, p) in w.toServer && k in w.clients && p.ptype == TCLI_PKT_AUTH ==>
      p.recvLen >= PKT_MIN_LEN + AUTH_LEN && (k, UserOf(p.creds), PassOf(p.creds)) in w.past
  }

  ghost predicate PastKept(w: World) {
    forall k :: k in w.clients ==> (k, w.clients[k].user, w.clients[k].pass) in w.past
  }

  ghost predicate RepliesBacked(w: World) {
    forall k, p :: (k, p) in w.toClients && p.ptype == TSRV_PKT_AUTH_OK ==> LoggedIn(w, k)
  }

  ghost predicate ClientsBacked(w: World) {
    forall k :: k in w.clients ==> Bounded(w.clients[k]) && (w.clients[k].pc == Authenticated ==> LoggedIn(w, k))
  }

  ghost predicate WorldInv(w: World, auth: UserFiles) {
    && Inv(w.server)
    && SessionsGreeted(w.server, w.log)
    && LoginsProper(w.log, w, auth)
    && PastKept(w)
    && GreetingsBacked(w)
    && RequestsOwn(w)
    && RepliesBacked(w)
    && ClientsBacked(w)
  }

  lemma UninterruptedGrows(log: seq<Note>, notes: seq<Note>, h: nat, slot: int, key: Key)
    requires Uninterrupted(log, h, |log|, slot, key)
    requires forall n :: n in notes ==> !(n.Closed? && n.slot == slot)
    ensures Uninterrupted(log + notes, h, |log + notes|, slot, key)
  {
    var both := log + notes;
    forall j | h < j < |both| ensures !(both[j].Closed? && both[j].slot == slot) {
      if j >= |log| { assert both[j] in notes; }
    }
  }

  lemma ProperLoginGrows(log: seq<Note>, notes: seq<Note>, j: nat)
    requires j < |log| && log[j].AuthAccepted? && ProperLogin(log, j)
    ensures (log + notes)[j] == log[j] && ProperLogin(log + notes, j)
  {
    var h: nat :| Uninterrupted(log, h, j, log[j].slot, log[j].key);
    assert Uninterrupted(log + notes, h, j, (log + notes)[j].slot, log[j].key);
  }

  /** Every connected session of the next state still has an uninterrupted greeting. */
  lemma ServerSessions(w: World, o: Outcome)
    requires Effect(w.server, o) && SessionsGreeted(w.server, w.log)
    ensures SessionsGreeted(o.engine, w.log + o.notes)
  {
    var log := w.log + o.notes;
    forall i | 0 <= i < |o.engine.slots| && o.engine.slots[i].connected
      ensures exists h: nat :: Uninterrupted(log, h, |log|, i, o.engine.slots[i].Endpoint())
    {
      if o.notes == [HandshakeAccepted(i, o.engine.slots[i].Endpoint())] {
        assert Uninterrupted(log, |w.log|, |log|, i, o.engine.slots[i].Endpoint());
      } else {
        var h: nat :| Uninterrupted(w.log, h, |w.log|, i, w.server.slots[i].Endpoint());
        UninterruptedGrows(w.log, o.notes, h, i, w.server.slots[i].Endpoint());
      }
    }
  }

  /** A login accepted in this step follows the greeting of the session it was made on. */
  lemma ServerLogins(w: World, ev: Event, o: Outcome, auth: UserFiles)
    requires Effect(w.server, o) && SessionsGreeted(w.server, w.log) && LoginsProper(w.log, w, auth)
    requires RequestsOwn(w) && Enabled(w, ServerStep(ev), auth)
    requires ev.Packet? ==> Caused(o, ev.key, ev.pkt, ev.env.authRes)
    requires !ev.Packet? ==> forall n :: n in o.notes ==> n.Closed?
    ensures LoginsProper(w.log + o.notes, w, auth)
  {
    var log := w.log + o.notes;
    forall j: nat | j < |log| && log[j].AuthAccepted?
      ensures ProperLogin(log, j) && auth(log[j].user, log[j].pass).Some?
      ensures log[j].key in w.clients ==> (log[j].key, log[j].user, log[j].pass) in w.past
    {
      if j < |w.log| {
        ProperLoginGrows(w.log, o.notes, j);
      } else {
        var n := o.notes[0];
        assert log[j] == n && n in o.notes && j == |w.log|;
        var h: nat :| Uninterrupted(w.log, h, |w.log|, n.slot, n.key);
        assert Uninterrupted(log, h, j, log[j].slot, log[j].key);
      }
    }
  }

  lemma LoggedInGrows(w: World, w': World, key: Key)
    requires w.log <= w'.log && LoggedIn(w, key)
    ensures LoggedIn(w', key)
  {
    var j: nat :| j < |w.log| && w.log[j].AuthAccepted? && w.log[j].key == key;
    assert w'.log[j] == w.log[j];
  }

  lemma GreetingsGrow(w: World, w': World)
    requires w.toServer <= w'.toServer && w'.log == w.log && GreetingsBacked(w)
    ensures GreetingsBacked(w')
  {
    forall j: nat | j < |w'.log| && w'.log[j].HandshakeAccepted? ensures Greeted(w', w'.log[j].key) {
      assert Greeted(w, w.log[j].key);
    }
  }

  lemma ServerReplies(w: World, w': World, o: Outcome)
    requires Effect(w.server, o) && RepliesBacked(w) && ClientsBacked(w)
    requires w'.log == w.log + o.notes && w'.toClients == w.toClients + Wires(o.out) && w'.clients == w.clients
    ensures RepliesBacked(w') && ClientsBacked(w')
  {
    forall k, p | (k, p) in w'.toClients && p.ptype == TSRV_PKT_AUTH_OK ensures LoggedIn(w', k) {
      if (k, p) in w.toClients {
        LoggedInGrows(w, w', k);
      } else {
        var s :| s in o.out && (k, p) == (s.dst, Prepared(s.ptype));
        assert w'.log[|w.log|] == o.notes[0];
      }
    }
    forall k | k in w'.clients && w'.clients[k].pc == Authenticated ensures LoggedIn(w', k) {
      LoggedInGrows(w, w', k);
    }
  }

  /** A handshake that the server accepts has arrived completely. */
  lemma ArrivedGreeting(w: World, key: Key, pkt: CliPkt)
    requires Arrives(w, key, pkt) && GoodHandshake(pkt)
    ensures Greeted(w, key)
  {
    var sent: CliPkt, held: Held :| (key, sent) in w.toServer && pkt == AsReceived(sent, held);
    var r := AsReceived(sent, held);
    assert pkt == r && GoodHandshake(sent);
  }

  lemma ServerStepInv(w: World, ev: Event, auth: UserFiles)
    requires WorldInv(w, auth) && Enabled(w, ServerStep(ev), auth)
    ensures WorldInv(Next(w, ServerStep(ev)), auth)
  {
    hide Step, Inv, Effect, SessionsGreeted, LoginsProper, RequestsOwn, RepliesBacked, ClientsBacked, GoodHandshake;
    var w' := Next(w, ServerStep(ev));
    var o := Step(w.server, ev);
    StepInv(w.server, ev);
    StepEffect(w.server, ev);
    ServerSessions(w, o);
    ServerLogins(w, ev, o, auth);
    ServerReplies(w, w', o);
    forall j: nat | j < |w'.log| && w'.log[j].HandshakeAccepted? ensures Greeted(w', w'.log[j].key) {
      if j >= |w.log| {
        assert w'.log[j] in o.notes;
        ArrivedGreeting(w, ev.key, ev.pkt);
      } else {
        assert w'.log[j] == w.log[j];
      }
    }
    OwnSame(w, w');
    LoginsMoved(w, w', auth);
  }

  lemma LoginsMoved(w: World, w': World, auth: UserFiles)
    requires LoginsProper(w'.log, w, auth) && w'.clients == w.clients && w'.past == w.past
    ensures LoginsProper(w'.log, w', auth)
  {
    hide ProperLogin;
  }

  lemma OwnSame(w: World, w': World)
    requires RequestsOwn(w) && w'.toServer == w.toServer && w'.clients == w.clients && w'.past == w.past
    ensures RequestsOwn(w')
  {
  }

  lemma LoginsSame(w: World, w': World, auth: UserFiles)
    requires LoginsProper(w.log, w, auth) && w'.log == w.log && w'.clients.Keys == w.clients.Keys && w.past <= w'.past
    ensures LoginsProper(w'.log, w', auth)
  {
    hide ProperLogin;
  }

  /** A restart replaces the client and leaves everything else to the new one. */
  lemma RestartInv(w: World, ev: WorldEvent, auth: UserFiles)
    requires WorldInv(w, auth) && Enabled(w, ev, auth) && ev.ClientRestart?
    ensures WorldInv(Next(w, ev), auth)
  {
    hide Inv, SessionsGreeted, LoginsProper, GoodHandshake, LoggedIn;
    var w' := Next(w, ev);
    assert w'.clients.Keys == w.clients.Keys;
    LoginsSame(w, w', auth);
    GreetingsGrow(w, w');
    forall k | LoggedIn(w, k) ensures LoggedIn(w', k) {
      LoggedInGrows(w, w', k);
    }
  }

  /** A client's own step: it keeps its credentials and its bounds, emits only its own credentials, and
      is authenticated only by an AUTH_OK packet. */
  lemma ClientNextExact(key: Key, c: ClientState, recv: Recv, send: int, ifaceUp: bool)
    requires Bounded(c) && (c.pc == AwaitHandshake || c.pc == AwaitAuth)
    ensures var c' := ClientNext(c, recv, send, ifaceUp);
            && Bounded(c') && c'.user == c.user && c'.pass == c.pass
            && (c'.pc == Authenticated ==>
                (recv.Failure? && recv.err == 0) || (recv.Got? && recv.pkt.ptype == TSRV_PKT_AUTH_OK))
            && (forall k, p :: (k, p) in Emitted(key, c, c') && p.ptype == TCLI_PKT_AUTH ==>
                  k == key && p == AuthPkt(c.user, c.pass))
  {
  }

  lemma ClientUpdateInv(w: World, w': World, key: Key, more: set<(Key, CliPkt)>, auth: UserFiles)
    requires WorldInv(w, auth) && key in w.clients && key in w'.clients
    requires w' == w.(clients := w.clients[key := w'.clients[key]], toServer := w.toServer + more)
    requires var c, c' := w.clients[key], w'.clients[key];
             Bounded(c') && c'.user == c.user && c'.pass == c.pass && (c'.pc == Authenticated ==> LoggedIn(w, key))
    requires forall k, p :: (k, p) in more && p.ptype == TCLI_PKT_AUTH ==>
               k == key && p == AuthPkt(w.clients[key].user, w.clients[key].pass)
    ensures WorldInv(w', auth)
  {
    hide Inv, SessionsGreeted, ProperLogin, GoodHandshake, GreetingsBacked, Bounded, UserOf, PassOf, Fields;
    GreetingsGrow(w, w');
    FieldsRead(w.clients[key].user, w.clients[key].pass);
    forall k | LoggedIn(w, k) ensures LoggedIn(w', k) {
      LoggedInGrows(w, w', k);
    }
    hide LoggedIn;
  }

  lemma ClientStepInv(w: World, ev: WorldEvent, auth: UserFiles)
    requires WorldInv(w, auth) && Enabled(w, ev, auth) && (ev.ClientStart? || ev.ClientRecv?)
    ensures WorldInv(Next(w, ev), auth)
  {
    hide Inv, SessionsGreeted, LoginsProper, GreetingsBacked, RequestsOwn, Bounded, Emitted, ClientNext, LoggedIn;
    var w' := Next(w, ev);
    var key := ev.key;
    var c, c' := w.clients[key], w'.clients[key];
    assert Bounded(c);
    if ev.ClientStart? {
      StartExact(key, c, ev.send);
      var more := Emitted(key, c, c') + if ev.closeSent then {(key, ClosePkt())} else {};
      assert w'.toServer == w.toServer + more;
      ClientUpdateInv(w, w', key, more, auth);
    } else {
      ClientNextExact(key, c, ev.recv, ev.send, ev.ifaceUp);
      if ev.recv.Got? { assert (key, ev.recv.pkt) in w.toClients; }
      ClientUpdateInv(w, w', key, Emitted(key, c, c'), auth);
    }
  }

  lemma StartExact(key: Key, c: ClientState, send: int)
    requires Bounded(c) && c.pc == Idle
    ensures Bounded(SendHandshake(c, send))
    ensures Emitted(key, c, SendHandshake(c, send)) <= {(key, HandshakePkt())}
  {
  }

  lemma OtherStepInv(w: World, ev: WorldEvent, auth: UserFiles)
    requires WorldInv(w, auth) && Enabled(w, ev, auth) && (ev.Elsewhere? || ev.TunTraffic?)
    ensures WorldInv(Next(w, ev), auth)
  {
    hide Inv, SessionsGreeted, ProperLogin, GoodHandshake, GreetingsBacked;
    var w' := Next(w, ev);
    GreetingsGrow(w, w');
    forall k | LoggedIn(w, k) ensures LoggedIn(w', k) {
      LoggedInGrows(w, w', k);
    }
  }

  lemma FreshInv(w: World, auth: UserFiles, maxConn: U16)
    requires Fresh(w, maxConn)
    ensures WorldInv(w, auth)
  {
    InitInv(maxConn);
  }

  lemma KeysStay(w: World, ev: WorldEvent)
    requires Inv(w.server) && (ev.ClientRestart? ==> ev.key in w.clients)
    ensures Next(w, ev).clients.Keys == w.clients.Keys
  {
    hide Inv, Step, ClientNext;
  }

  lemma InvOfWorld(w: World, ev: WorldEvent, auth: UserFiles)
    requires WorldInv(w, auth) && Enabled(w, ev, auth)
    ensures Inv(w.server) && (ev.ClientRestart? ==> ev.key in w.clients)
  {
    hide Inv;
  }

  lemma {:induction false} RunInv(ws: seq<World>, evs: seq<WorldEvent>, auth: UserFiles, maxConn: U16, k: nat)
    requires IsRun(ws, evs, auth, maxConn) && k <= |evs|
    ensures WorldInv(ws[k], auth) && ws[k].clients.Keys == ws[0].clients.Keys
  {
    hide WorldInv, Inv, Next, Fresh, Enabled;
    if k == 0 {
      FreshInv(ws[0], auth, maxConn);
    } else {
      assert Enabled(ws[k - 1], evs[k - 1], auth) && ws[k] == Next(ws[k - 1], evs[k - 1]);
      RunInv(ws, evs, auth, maxConn, k - 1);
      var w, ev := ws[k - 1], evs[k - 1];
      InvOfWorld(w, ev, auth);
      KeysStay(w, ev);
      match ev
      case ServerStep(e) => ServerStepInv(w, e, auth);
      case ClientRestart(_, _, _) => RestartInv(w, ev, auth);
      case ClientStart(_, _, _) => ClientStepInv(w, ev, auth);
      case ClientRecv(_, _, _, _) => ClientStepInv(w, ev, auth);
      case Elsewhere(_, _) => OtherStepInv(w, ev, auth);
      case TunTraffic(_, _) => OtherStepInv(w, ev, auth);
    }
  }

  /** The invariant of the server that a run assumes in each state to be able to step excludes nothing: every
      run goes on with any event that is enabled. */
  lemma RunGoesOn(ws: seq<World>, evs: seq<WorldEvent>, auth: UserFiles, maxConn: U16, ev: WorldEvent)
    requires IsRun(ws, evs, auth, maxConn) && Enabled(ws[|evs|], ev, auth)
    ensures Inv(ws[|evs|].server) && IsRun(ws + [Next(ws[|evs|], ev)], evs + [ev], auth, maxConn)
  {
    hide Inv, Enabled, Next, Fresh;
    RunInv(ws, evs, auth, maxConn, |evs|);
    var ws', evs' := ws + [Next(ws[|evs|], ev)], evs + [ev];
    forall k | 0 <= k < |evs'|
      ensures Inv(ws'[k].server) && Enabled(ws'[k], evs'[k], auth) && ws'[k + 1] == Next(ws'[k], evs'[k])
    {
      if k < |evs| {
        assert ws'[k] == ws[k] && ws'[k + 1] == ws[k + 1] && evs'[k] == evs[k];
      }
    }
  }

  // ------------------------------------------------------------------ authentication

  /** The server accepted a version-matching handshake from the endpoint and later, on the same session with no
      close in between, these credentials. */
  ghost predicate Genuine(w: World, key: Key, user: Text, pass: Text) {
    exists h: nat, j: nat ::
      && h < j < |w.log| && w.log[j].AuthAccepted? && Uninterrupted(w.log, h, j, w.log[j].slot, key)
      && w.log[j].key == key && w.log[j].user == user && w.log[j].pass == pass
  }

  /** If a client is authenticated, the server greeted its endpoint and on that session accepted valid
      credentials that a client at this endpoint has been started with; its own, if no others among those
      are valid. */
  lemma AuthenticationIsGenuine(ws: seq<World>, evs: seq<WorldEvent>, auth: UserFiles, maxConn: U16, k: nat, key: Key)
    requires IsRun(ws, evs, auth, maxConn) && k <= |evs|
    requires key in ws[k].clients && ws[k].clients[key].pc == Authenticated
    ensures exists user, pass :: (key, user, pass) in ws[k].past && auth(user, pass).Some?
              && Genuine(ws[k], key, user, pass)
    ensures Greeted(ws[k], key)
    ensures var c := ws[k].clients[key];
            (forall u, q :: (key, u, q) in ws[k].past && auth(u, q).Some? ==> (u, q) == (c.user, c.pass)) ==>
              auth(c.user, c.pass).Some? && Genuine(ws[k], key, c.user, c.pass)
  {
    hide Inv, GoodHandshake;
    RunInv(ws, evs, auth, maxConn, k);
    var w := ws[k];
    var j: nat :| j < |w.log| && w.log[j].AuthAccepted? && w.log[j].key == key;
    assert ProperLogin(w.log, j);
    var h: nat :| Uninterrupted(w.log, h, j, w.log[j].slot, w.log[j].key);
    assert w.log[h].HandshakeAccepted? && w.log[h].key == key;
    var u, q := w.log[j].user, w.log[j].pass;
    assert (key, u, q) in w.past;
    assert Genuine(w, key, u, q);
  }

  /** In every run in which clients at the endpoint are only ever started with credentials from `used`, a
      client started with `own` that is authenticated has had its own credentials accepted. */
  ghost predicate AlwaysGenuine(auth: UserFiles, maxConn: U16, key: Key, used: set<(Text, Text)>,
                                own: (Text, Text)) {
    forall ws: seq<World>, evs: seq<WorldEvent> :: IsRun(ws, evs, auth, maxConn) ==>
        EndsGenuine(ws[|evs|], key, used, own)
  }

  ghost predicate EndsGenuine(w: World, key: Key, used: set<(Text, Text)>, own: (Text, Text)) {
    && key in w.clients && w.clients[key].pc == Authenticated && (w.clients[key].user, w.clients[key].pass) == own
    && (forall u, q :: (key, u, q) in w.past ==> (u, q) in used)
    ==> Genuine(w, key, own.0, own.1)
  }

  /** Main result. That is so exactly if no other credentials among those used are valid: an old AUTH_OK
      packet, delivered again, authenticates whoever waits for one at the endpoint. */
  lemma GenuineExactly(auth: UserFiles, maxConn: U16, key: Key, used: set<(Text, Text)>, own: (Text, Text))
    requires maxConn > 0 && own in used
    ensures AlwaysGenuine(auth, maxConn, key, used, own) <==> forall c :: c in used && auth(c.0, c.1).Some? ==> c == own
  {
    hide Genuine, Next, Enabled, Fresh;
    if forall c :: c in used && auth(c.0, c.1).Some? ==> c == own {
      forall ws: seq<World>, evs: seq<WorldEvent> | IsRun(ws, evs, auth, maxConn)
          ensures EndsGenuine(ws[|evs|], key, used, own) {
        OnlyOwn(ws, evs, auth, maxConn, key, used, own);
      }
    } else {
      var c :| c in used && auth(c.0, c.1).Some? && c != own;
      var ws, evs := StolenLogin(auth, maxConn, key, c, own);
      assert !EndsGenuine(ws[|evs|], key, used, own);
    }
  }

  lemma OnlyOwn(ws: seq<World>, evs: seq<WorldEvent>, auth: UserFiles, maxConn: U16, key: Key,
                used: set<(Text, Text)>, own: (Text, Text))
    requires IsRun(ws, evs, auth, maxConn) && forall c :: c in used && auth(c.0, c.1).Some? ==> c == own
    ensures |ws| == |evs| + 1 && EndsGenuine(ws[|evs|], key, used, own)
  {
    hide Genuine, Next, Enabled, Fresh;
    var w := ws[|evs|];
    if key in w.clients && w.clients[key].pc == Authenticated {
      AuthenticationIsGenuine(ws, evs, auth, maxConn, |evs|, key);
    }
  }

  // ------------------------------------------------------------------ a run with an old reply

  /** An environment in which everything succeeds. */
  function Fine(authRes: Option<U32>): Env { Env(0, true, 1, 1, 1, authRes, 1) }

  /** A server with one session, greeted or authenticated, for an endpoint. */
  lemma FirstHandshake(maxConn: U16, key: Key, authRes: Option<U32>)
    requires maxConn > 0
    ensures Inv(Init(maxConn))
    ensures var o := Step(Init(maxConn), Packet(key, HandshakePkt(), Fine(authRes)));
            && Inv(o.engine) && o.out == [Sent(key, TSRV_PKT_HANDSHAKE)] && o.notes == [HandshakeAccepted(0, key)]
            && Lookup(o.engine, key) == Some(0) && |o.engine.slots| > 0
            && o.engine.slots[0].connected && !o.engine.slots[0].authenticated && o.engine.slots[0].loopC == 0
            && o.engine.slots[0].Endpoint() == key && o.engine.slots[0].dst == key
  {
    InitInv(maxConn);
    StepInv(Init(maxConn), Packet(key, HandshakePkt(), Fine(authRes)));
    hide Inv, Cell, InRange;
  }

  lemma FirstLogin(e: Engine, key: Key, p: CliPkt, iff: U32)
    requires p.ptype == TCLI_PKT_AUTH
    requires Inv(e) && Wf(e) && InRange(e) && Lookup(e, key) == Some(0) && |e.slots| > 0
    requires e.slots[0].connected && !e.slots[0].authenticated && e.slots[0].loopC == 0
    requires e.slots[0].Endpoint() == key && e.slots[0].dst == key
    ensures var o := Step(e, Packet(key, p, Fine(Some(iff))));
            && Inv(o.engine) && o.out == [Sent(key, TSRV_PKT_AUTH_OK)]
            && o.notes == [AuthAccepted(0, key, UserOf(p.creds), PassOf(p.creds))]
  {
    hide UserOf, PassOf;
    StepInv(e, Packet(key, p, Fine(Some(iff))));
    hide Inv, Cell, InRange, Lookup, Close;
  }

  /** The worlds of one run: from `w0` with `c0` at the endpoint through a login to its replacement and beyond. */
  function Replayed(w0: World, key: Key, c0: ClientState, d0: ClientState, s1: Engine, s2: Engine): seq<World> {
    var c1 := SendHandshake(c0, 1);
    var c2 := SendAuth(c1, 1);
    var d1 := SendHandshake(d0, 1);
    var d2 := SendAuth(d1, 1);
    var reply, okay := (key, Prepared(TSRV_PKT_HANDSHAKE)), (key, Prepared(TSRV_PKT_AUTH_OK));
    var w1 := w0.(clients := w0.clients[key := c1], toServer := w0.toServer + Emitted(key, c0, c1));
    var w2 := w1.(server := s1, toClients := w1.toClients + {reply}, log := w1.log + [HandshakeAccepted(0, key)]);
    var w3 := w2.(clients := w2.clients[key := c2], toServer := w2.toServer + Emitted(key, c1, c2));
    var w4 := w3.(server := s2, toClients := w3.toClients + {okay},
                  log := w3.log + [AuthAccepted(0, key, c0.user, c0.pass)]);
    var w5 := w4.(clients := w4.clients[key := d0], past := w4.past + {(key, d0.user, d0.pass)});
    var w6 := w5.(clients := w5.clients[key := d1], toServer := w5.toServer + Emitted(key, d0, d1));
    var w7 := w6.(clients := w6.clients[key := d2], toServer := w6.toServer + Emitted(key, d1, d2));
    var w8 := w7.(clients := w7.clients[key := d2.(pc := Authenticated)],
                  toServer := w7.toServer + Emitted(key, d2, d2));
    [w0, w1, w2, w3, w4, w5, w6, w7, w8]
  }

  function Replay(key: Key, d0: ClientState, ev1: Event, ev3: Event): seq<WorldEvent> {
    var start, greeted := ClientStart(key, false, 1), ClientRecv(key, Got(Prepared(TSRV_PKT_HANDSHAKE)), 1, true);
    [start, ServerStep(ev1), greeted, ServerStep(ev3), ClientRestart(key, d0.user, d0.pass), start, greeted,
     ClientRecv(key, Got(Prepared(TSRV_PKT_AUTH_OK)), 1, true)]
  }

  /** What one server step does to a world when it sends one packet. */
  lemma ServerSends(w: World, ev: Event, dst: Key, ptype: U8)
    requires Inv(w.server) && Step(w.server, ev).out == [Sent(dst, ptype)]
    ensures Next(w, ServerStep(ev)) == w.(server := Step(w.server, ev).engine,
                                          toClients := w.toClients + {(dst, Prepared(ptype))},
                                          log := w.log + Step(w.server, ev).notes)
  {
    hide Inv, Step;
    var o := Step(w.server, ev);
    assert o.out[0] == Sent(dst, ptype);
    assert Wires(o.out) == {(dst, Prepared(ptype))};
  }

  /** A client logs in and is replaced by one with other credentials, which takes the old replies for its own. */
  lemma StolenLogin(auth: UserFiles, maxConn: U16, key: Key, first: (Text, Text), second: (Text, Text))
    returns (ws: seq<World>, evs: seq<WorldEvent>)
    requires maxConn > 0 && first != second && auth(first.0, first.1).Some?
    ensures IsRun(ws, evs, auth, maxConn)
    ensures var w := ws[|evs|];
            && key in w.clients && w.clients[key].pc == Authenticated
            && (w.clients[key].user, w.clients[key].pass) == second
            && (forall u, q :: (key, u, q) in w.past ==> (u, q) == first || (u, q) == second)
            && !Genuine(w, key, second.0, second.1)
  {
    hide Inv, Step, Init, Fresh, InRange, Wf, Lookup, Genuine, Enabled, Next, Emitted, IsRun, Prepared;
    var s0 := Init(maxConn);
    var ev1 := Packet(key, HandshakePkt(), Fine(auth("", "")));
    var ev3 := Packet(key, AuthPkt(first.0, first.1), Fine(auth(first.0, first.1)));
    FirstHandshake(maxConn, key, auth("", ""));
    var s1 := Step(s0, ev1).engine;
    InvRanges(s1);
    FirstLogin(s1, key, AuthPkt(first.0, first.1), auth(first.0, first.1).value);
    FieldsRead(first.0, first.1);
    var s2 := Step(s1, ev3).engine;
    var c0, d0 := ClientState(first.0, first.1, Idle, 0, 0), ClientState(second.0, second.1, Idle, 0, 0);
    var w0 := World(s0, map[key := c0], {}, {}, [], {(key, first.0, first.1)});
    FreshOne(w0, maxConn, key, c0);
    ws, evs := Replayed(w0, key, c0, d0, s1, s2), Replay(key, d0, ev1, ev3);
    FirstPart(auth, w0, key, c0, d0, ev1, ev3, s1, s2);
    SecondPart(auth, w0, key, c0, d0, ev1, ev3, s1, s2);
    LinkedIsRun(ws, evs, auth, maxConn);
    NotOwn(ws[8], key, first, second);
  }

  ghost predicate Linked(w: World, ev: WorldEvent, w': World, auth: UserFiles) {
    Inv(w.server) && Enabled(w, ev, auth) && w' == Next(w, ev)
  }

  /** The first client's part. */
  lemma FirstPart(auth: UserFiles, w0: World, key: Key, c0: ClientState, d0: ClientState, ev1: Event, ev3: Event,
                  s1: Engine, s2: Engine)
    requires Inv(w0.server) && Inv(s1) && w0.clients == map[key := c0]
    requires c0 == ClientState(c0.user, c0.pass, Idle, 0, 0)
    requires ev1 == Packet(key, HandshakePkt(), Fine(auth("", "")))
    requires ev3 == Packet(key, AuthPkt(c0.user, c0.pass), Fine(auth(c0.user, c0.pass)))
    requires Step(w0.server, ev1) == Outcome(s1, [Sent(key, TSRV_PKT_HANDSHAKE)], Step(w0.server, ev1).ret,
                                             [HandshakeAccepted(0, key)])
    requires Step(s1, ev3) == Outcome(s2, [Sent(key, TSRV_PKT_AUTH_OK)], Step(s1, ev3).ret,
                                      [AuthAccepted(0, key, c0.user, c0.pass)])
    ensures var ws, evs := Replayed(w0, key, c0, d0, s1, s2), Replay(key, d0, ev1, ev3);
            forall k :: 0 <= k < 4 ==> Linked(ws[k], evs[k], ws[k + 1], auth)
  {
    hide Inv, Step, Enabled, Next, Emitted, Prepared, UserOf, PassOf, Fields;
    FieldsRead("", "");
    FieldsRead(c0.user, c0.pass);
    var ws := Replayed(w0, key, c0, d0, s1, s2);
    var c1 := SendHandshake(c0, 1);
    ClientStarts(ws[0], key, auth);
    SentIsThere(ws[1], ev1, key, c0, c1, auth);
    ServerSends(ws[1], ev1, key, TSRV_PKT_HANDSHAKE);
    ClientIsGreeted(ws[2], key, auth);
    SentIsThere(ws[3], ev3, key, c1, SendAuth(c1, 1), auth);
    ServerSends(ws[3], ev3, key, TSRV_PKT_AUTH_OK);
  }

  /** The second client's part. */
  lemma SecondPart(auth: UserFiles, w0: World, key: Key, c0: ClientState, d0: ClientState, ev1: Event, ev3: Event,
                   s1: Engine, s2: Engine)
    requires Inv(s2) && w0.clients == map[key := c0]
    requires d0 == ClientState(d0.user, d0.pass, Idle, 0, 0)
    ensures var ws, evs := Replayed(w0, key, c0, d0, s1, s2), Replay(key, d0, ev1, ev3);
            forall k :: 4 <= k < 8 ==> Linked(ws[k], evs[k], ws[k + 1], auth)
  {
    hide Inv, Step, Enabled, Next, Emitted, Prepared;
    var ws := Replayed(w0, key, c0, d0, s1, s2);
    ClientRestarts(ws[4], key, d0, auth);
    ClientStarts(ws[5], key, auth);
    ClientIsGreeted(ws[6], key, auth);
    ClientIsAccepted(ws[7], key, auth);
  }

  lemma ClientStarts(w: World, key: Key, auth: UserFiles)
    requires Inv(w.server) && key in w.clients && w.clients[key].pc == Idle
    ensures var ev, c := ClientStart(key, false, 1), w.clients[key];
            Enabled(w, ev, auth)
            && Next(w, ev) == w.(clients := w.clients[key := SendHandshake(c, 1)],
                                 toServer := w.toServer + Emitted(key, c, SendHandshake(c, 1)))
  {
    hide Inv, Emitted;
    var more := Emitted(key, w.clients[key], SendHandshake(w.clients[key], 1));
    assert w.toServer + more + {} == w.toServer + more;
  }

  lemma ClientIsGreeted(w: World, key: Key, auth: UserFiles)
    requires Inv(w.server) && key in w.clients && w.clients[key].pc == AwaitHandshake
    requires (key, Prepared(TSRV_PKT_HANDSHAKE)) in w.toClients
    ensures var ev, c := ClientRecv(key, Got(Prepared(TSRV_PKT_HANDSHAKE)), 1, true), w.clients[key];
            Enabled(w, ev, auth)
            && Next(w, ev) == w.(clients := w.clients[key := SendAuth(c, 1)],
                                 toServer := w.toServer + Emitted(key, c, SendAuth(c, 1)))
  {
    hide Inv, Emitted;
  }

  lemma ClientIsAccepted(w: World, key: Key, auth: UserFiles)
    requires Inv(w.server) && key in w.clients && w.clients[key].pc == AwaitAuth
    requires (key, Prepared(TSRV_PKT_AUTH_OK)) in w.toClients
    ensures var ev, c := ClientRecv(key, Got(Prepared(TSRV_PKT_AUTH_OK)), 1, true), w.clients[key];
            Enabled(w, ev, auth)
            && Next(w, ev) == w.(clients := w.clients[key := c.(pc := Authenticated)],
                                 toServer := w.toServer + Emitted(key, c, c))
  {
    hide Inv;
  }

  lemma ClientRestarts(w: World, key: Key, d: ClientState, auth: UserFiles)
    requires Inv(w.server) && key in w.clients && d == ClientState(d.user, d.pass, Idle, 0, 0)
    ensures var ev := ClientRestart(key, d.user, d.pass);
            Enabled(w, ev, auth)
                && Next(w, ev) == w.(clients := w.clients[key := d], past := w.past + {(key, d.user, d.pass)})
  {
    hide Inv;
  }

  /** What a client sends arrives as it is, if the buffer holds nothing else. */
  lemma ArrivesWhole(w: World, key: Key, sent: CliPkt)
    requires (key, sent) in w.toServer && sent.recvLen >= PKT_MIN_LEN
    ensures Arrives(w, key, sent)
  {
    var held := Held(0, sent.creds);
    assert Over(sent.creds, sent.recvLen - PKT_MIN_LEN, held.creds) == sent.creds;
    assert sent == AsReceived(sent, held);
  }

  /** A request that a client has sent can reach the server. */
  lemma SentIsThere(w: World, ev: Event, key: Key, c: ClientState, c': ClientState, auth: UserFiles)
    requires Emitted(key, c, c') <= w.toServer && ev.Packet? && ev.key == key
    requires ev.env.authRes == Check(auth, ev.pkt)
    requires (c'.hsSent > c.hsSent && ev.pkt == HandshakePkt()) || (c'.authSent > c.authSent
              && ev.pkt == AuthPkt(c.user, c.pass))
    ensures Enabled(w, ServerStep(ev), auth)
  {
    hide Over, UserOf, PassOf, Fields;
    assert (key, ev.pkt) in Emitted(key, c, c');
    ArrivesWhole(w, key, ev.pkt);
  }

  lemma LinkedIsRun(ws: seq<World>, evs: seq<WorldEvent>, auth: UserFiles, maxConn: U16)
    requires |ws| == |evs| + 1 && Fresh(ws[0], maxConn)
    requires forall k :: 0 <= k < |evs| ==> Linked(ws[k], evs[k], ws[k + 1], auth)
    ensures IsRun(ws, evs, auth, maxConn)
  {
    hide Inv, Enabled, Next, Fresh;
    forall k | 0 <= k < |evs|
      ensures Inv(ws[k].server) && Enabled(ws[k], evs[k], auth) && ws[k + 1] == Next(ws[k], evs[k])
    {
      assert Linked(ws[k], evs[k], ws[k + 1], auth);
    }
  }

  lemma NotOwn(w: World, key: Key, first: (Text, Text), second: (Text, Text))
    requires first != second && w.log == [HandshakeAccepted(0, key), AuthAccepted(0, key, first.0, first.1)]
    ensures !Genuine(w, key, second.0, second.1)
  {
    hide Uninterrupted;
  }

  lemma FreshOne(w: World, maxConn: U16, key: Key, c: ClientState)
    requires w == World(Init(maxConn), map[key := c], {}, {}, [], {(key, c.user, c.pass)})
    requires c == ClientState(c.user, c.pass, Idle, 0, 0)
    ensures Fresh(w, maxConn)
  {
    hide Init;
    var all := set k | k in w.clients :: (k, w.clients[k].user, w.clients[k].pass);
    assert key in w.clients && (key, c.user, c.pass) in all;
    assert forall t :: t in all ==> t in w.past;
    assert all == w.past;
  }

  lemma InvRanges(e: Engine)
    requires Inv(e)
    ensures Wf(e) && InRange(e)
  {
  }

  /** No client ever sends more than five handshakes or six auth requests. */
  lemma RequestsBounded(ws: seq<World>, evs: seq<WorldEvent>, auth: UserFiles, maxConn: U16, k: nat, key: Key)
    requires IsRun(ws, evs, auth, maxConn) && k <= |evs| && key in ws[k].clients
    ensures ws[k].clients[key].hsSent <= 5 && ws[k].clients[key].authSent <= 6
  {
    RunInv(ws, evs, auth, maxConn, k);
  }

  // ------------------------------------------------------------------ the client's loops as steps

  /** A client that starts its handshake and waits `n` times, with the answers of `turns`; `authSend` is what
      sending its first auth request returns. */
  function Handshaking(c: ClientState, turns: seq<Turn>, authSend: int, n: nat): ClientState
    requires |turns| == MAX_TRY && n <= MAX_TRY
  {
    if n == 0 then SendHandshake(c, turns[0].send)
    else
      var p := Handshaking(c, turns, authSend, n - 1);
      var t := turns[n - 1];
      if p.pc != AwaitHandshake then p
      else
        var send := if n < MAX_TRY && HandshakeRetries(HandshakeRet(t.recv), n) then turns[n].send else authSend;
        ClientNext(p, t.recv, send, t.ifaceUp)
  }

  /** The client's steps are the turns of `do_handshake`: they send as many requests and end with its result,
      a success being followed by the first auth request. */
  lemma HandshakeMatches(c: ClientState, turns: seq<Turn>, authSend: int, ret: int, sent: nat)
    requires c.pc == Idle && c.hsSent == 0 && |turns| == MAX_TRY && HandshakeOutcome(turns, ret, sent)
    ensures Handshaking(c, turns, authSend, MAX_TRY)
            == if ret == 0 then SendAuth(c.(hsSent := sent), authSend) else c.(hsSent := sent, pc := Failed(ret))
  {
    if sent == 0 {
      HandshakeStays(c, turns, authSend, 0, MAX_TRY);
    } else {
      HandshakeWaits(c, turns, authSend, ret, sent, sent - 1);
      HandshakeStays(c, turns, authSend, sent, MAX_TRY);
    }
  }

  lemma {:induction false} HandshakeWaits(c: ClientState, turns: seq<Turn>, authSend: int, ret: int, sent: nat, n: nat)
    requires c.pc == Idle && c.hsSent == 0 && |turns| == MAX_TRY && HandshakeOutcome(turns, ret, sent) && n < sent
    ensures Handshaking(c, turns, authSend, n) == c.(hsSent := n + 1, pc := AwaitHandshake)
  {
    if n > 0 {
      HandshakeWaits(c, turns, authSend, ret, sent, n - 1);
    }
  }

  lemma {:induction false} HandshakeStays(c: ClientState, turns: seq<Turn>, authSend: int, m: nat, n: nat)
    requires |turns| == MAX_TRY && m <= n <= MAX_TRY && Handshaking(c, turns, authSend, m).pc != AwaitHandshake
    ensures Handshaking(c, turns, authSend, n) == Handshaking(c, turns, authSend, m)
  {
    if m < n {
      HandshakeStays(c, turns, authSend, m, n - 1);
    }
  }

  /** A client that sends its first auth request and waits `n` times. */
  function Authenticating(c: ClientState, turns: seq<Turn>, n: nat): ClientState
    requires |turns| == MAX_TRY + 1 && n <= MAX_TRY + 1
  {
    if n == 0 then SendAuth(c, turns[0].send)
    else
      var p := Authenticating(c, turns, n - 1);
      var t := turns[n - 1];
      if p.pc != AwaitAuth then p else ClientNext(p, t.recv, if n <= MAX_TRY then turns[n].send else 0, t.ifaceUp)
  }

  /** The client's steps are the turns of `do_auth`. */
  lemma AuthMatches(c: ClientState, turns: seq<Turn>, ret: int, sent: nat)
    requires c.authSent == 0 && |turns| == MAX_TRY + 1 && AuthOutcome(turns, ret, sent)
    ensures Authenticating(c, turns, MAX_TRY + 1)
            == c.(authSent := sent, pc := if ret == 0 then Authenticated else Failed(ret))
  {
    if sent == 0 {
      AuthStays(c, turns, 0, MAX_TRY + 1);
    } else {
      AuthWaits(c, turns, ret, sent, sent - 1);
      AuthStays(c, turns, sent, MAX_TRY + 1);
    }
  }

  lemma {:induction false} AuthWaits(c: ClientState, turns: seq<Turn>, ret: int, sent: nat, n: nat)
    requires c.authSent == 0 && |turns| == MAX_TRY + 1 && AuthOutcome(turns, ret, sent) && n < sent
    ensures Authenticating(c, turns, n) == c.(authSent := n + 1, pc := AwaitAuth)
  {
    if n > 0 {
      AuthWaits(c, turns, ret, sent, n - 1);
    }
  }

  lemma {:induction false} AuthStays(c: ClientState, turns: seq<Turn>, m: nat, n: nat)
    requires |turns| == MAX_TRY + 1 && m <= n <= MAX_TRY + 1 && Authenticating(c, turns, m).pc != AwaitAuth
    ensures Authenticating(c, turns, n) == Authenticating(c, turns, m)
  {
    if m < n {
      AuthStays(c, turns, m, n - 1);
    }
  }
}
