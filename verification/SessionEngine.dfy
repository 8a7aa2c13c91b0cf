/**
 The UDP server's session engine as operations on values: the session slots, the stack of
 free slots, the hash table's bucket chains, the private-address route table and the session
 counter. The classes of `SessionMap` and `Server` are proved to compute these functions.

 Every packet handler, reaper check and shutdown close is one atomic step.
 */
module SessionEngine {
  import opened AuthPacket
  import opened Common

  const MAX_SLOTS: nat := 0xFFFF
  const CELLS: nat := 0x1_0000

  /** A client endpoint: IPv4 source address and UDP source port. */
  datatype Key = Key(addr: U32, port: U16)

  /** One session slot (`struct udp_sess`); `dst` is the address packets are sent to. */
  datatype Slot = Slot(
    ipv4Iff: U32,
    srcAddr: U32,
    srcPort: U16,
    lastAct: int,
    dst: Key,
    username: string,
    loopC: U8,
    authenticated: bool,
    connected: bool
  ) {
    function Endpoint(): Key { Key(srcAddr, srcPort) }
  }

  /** What `reset_udp_session` leaves in a slot. */
  const BLANK: Slot := Slot(0, 0, 0, 0, Key(0, 0), "_", 0, false, false)

  datatype Engine = Engine(
    slots: seq<Slot>,
    free: seq<U16>,
    chains: seq<seq<U16>>,
    routes: seq<U16>,
    online: U16
  )

  /** Row-major position of `addr` in a 256 x 256 table indexed by its two low bytes. */
  function Cell(addr: U32): (c: nat)
    ensures c < CELLS
  {
    addr % 0x100 * 0x100 + addr / 0x100 % 0x100
  }

  lemma LowBytes(a: U32)
    ensures a % 0x1_0000 == a / 0x100 % 0x100 * 0x100 + a % 0x100
  {
    var high := a / 0x100 / 0x100;
    assert a == high * 0x1_0000 + (a / 0x100 % 0x100 * 0x100 + a % 0x100);
  }

  /** The cell depends on the low 16 bits of the address and on nothing else. */
  lemma CellIsLow16(a: U32, b: U32)
    ensures Cell(a) == Cell(b) <==> a % 0x1_0000 == b % 0x1_0000
  {
    hide Cell;
    CellOf(a);
    CellOf(b);
    LowBytes(a);
    LowBytes(b);
    SamePair(a % 0x100, a / 0x100 % 0x100, b % 0x100, b / 0x100 % 0x100);
    SamePair(a / 0x100 % 0x100, a % 0x100, b / 0x100 % 0x100, b % 0x100);
  }

  lemma CellOf(a: U32)
    ensures Cell(a) == a % 0x100 * 0x100 + a / 0x100 % 0x100
  {
  }

  lemma SamePair(x: U8, y: U8, x': U8, y': U8)
    ensures x * 0x100 + y == x' * 0x100 + y' <==> x == x' && y == y'
  {
  }

  ghost predicate Wf(e: Engine) {
    && |e.slots| <= MAX_SLOTS
    && |e.chains| == CELLS
    && |e.routes| == CELLS
  }

  function Init(maxConn: U16): (e: Engine) {
    Engine(seq(maxConn, i => BLANK),
           seq(maxConn, i requires 0 <= i < maxConn => i),
           seq(CELLS, i => []),
           seq(CELLS, i => 0),
           0)
  }

  // ------------------------------------------------------------------ session table

  function Find(e: Engine, chain: seq<U16>, key: Key): Option<U16>
    requires forall k :: 0 <= k < |chain| ==> chain[k] < |e.slots|
  {
    if chain == [] then None
    else if e.slots[chain[0]].Endpoint() == key then Some(chain[0])
    else Find(e, chain[1..], key)
  }

  function Lookup(e: Engine, key: Key): Option<U16>
    requires Wf(e) && InRange(e)
  {
    Find(e, e.chains[Cell(key.addr)], key)
  }

  ghost predicate InRange(e: Engine) {
    && (forall b, k :: 0 <= b < |e.chains| && 0 <= k < |e.chains[b]| ==> e.chains[b][k] < |e.slots|)
    && (forall k :: 0 <= k < |e.free| ==> e.free[k] < |e.slots|)
  }

  datatype Created = Created(idx: U16) | SlotsFull | NoMemory

  /** `create_udp_sess`: a bucket node is allocated only when the chain's head is taken. */
  function Create(e: Engine, key: Key, now: int, mallocOk: bool): (Engine, Created)
    requires Wf(e) && InRange(e)
  {
    if e.free == [] then (e, SlotsFull)
    else
      var idx := e.free[0];
      var b := Cell(key.addr);
      var claimed := e.slots[idx].(srcAddr := key.addr, srcPort := key.port);
      if e.chains[b] != [] && !mallocOk then
        (e.(slots := e.slots[idx := claimed]), NoMemory)
      else
        (e.(slots := e.slots[idx := claimed.(lastAct := now, connected := true)],
            free := e.free[1..],
            chains := e.chains[b := e.chains[b] + [idx]],
            online := (e.online + 1) % 0x1_0000),
         Created(idx))
  }

  /** `create_udp_sess` followed by its caller's store of the socket address. */
  function Admit(e: Engine, key: Key, now: int, mallocOk: bool): (Engine, Created)
    requires Wf(e) && InRange(e)
  {
    match Create(e, key, now, mallocOk)
    case (e', Created(idx)) => (e'.(slots := e'.slots[idx := e'.slots[idx].(dst := key)]), Created(idx))
    case (e', failure) => (e', failure)
  }

  /** `delete_udp_session`. A push onto a full stack would be dropped. */
  function Delete(e: Engine, idx: U16): Engine
    requires Wf(e) && idx < |e.slots|
  {
    var b := Cell(e.slots[idx].srcAddr);
    e.(slots := e.slots[idx := BLANK],
       free := if |e.free| < |e.slots| then [idx] + e.free else e.free,
       chains := e.chains[b := Without<U16>(e.chains[b], idx)],
       online := (e.online - 1) % 0x1_0000)
  }

  // ------------------------------------------------------------------ routes

  function AddRoute(routes: seq<U16>, addr: U32, idx: U16): seq<U16>
    requires |routes| == CELLS
  {
    routes[Cell(addr) := (idx + 1) % 0x1_0000]
  }

  function DelRoute(routes: seq<U16>, addr: U32): seq<U16>
    requires |routes| == CELLS
  {
    routes[Cell(addr) := 0]
  }

  /** `get_ipv4_route_map`: a slot index, or -ENOENT for an unmapped address. */
  function GetRoute(routes: seq<U16>, addr: U32): int
    requires |routes| == CELLS
  {
    if routes[Cell(addr)] == 0 then -ENOENT else routes[Cell(addr)] - 1
  }

  // ------------------------------------------------------------------ packets

  // Client packet types.
  const TCLI_PKT_HANDSHAKE: U8 := 0
  const TCLI_PKT_AUTH: U8 := 1
  const TCLI_PKT_TUN_DATA: U8 := 2
  const TCLI_PKT_REQSYNC: U8 := 3
  const TCLI_PKT_SYNC: U8 := 4
  const TCLI_PKT_CLOSE: U8 := 5

  // Server packet types.
  const TSRV_PKT_HANDSHAKE: U8 := 0
  const TSRV_PKT_AUTH_OK: U8 := 1
  const TSRV_PKT_TUN_DATA: U8 := 2
  const TSRV_PKT_REQSYNC: U8 := 3
  const TSRV_PKT_SYNC: U8 := 4
  const TSRV_PKT_CLOSE: U8 := 5
  const TSRV_PKT_HANDSHAKE_REJECT: U8 := 6
  const TSRV_PKT_AUTH_REJECT: U8 := 7

  const PKT_MIN_LEN: nat := 4
  const HANDSHAKE_LEN: nat := 96

  datatype Version = Version(ver: U8, patchLvl: U8, subLvl: U8)

  const VERSION: Version := Version(0, 1, 2)

  /** A packet from a client as it stands in the packet buffer of the receiving thread: `recvLen` bytes have
      arrived, and the fields after them are what the buffer held before. */
  datatype CliPkt = CliPkt(ptype: U8, dataLen: U16, recvLen: nat, version: Version, creds: Creds)

  /** Final result of `send_to_client`, after its own retries on EAGAIN. A zero return of
      sendto is turned into -ENETDOWN, and sendto never reports EBADMSG. */
  type SendRet = r: int | r != 0 && r != -EAGAIN && r != -EBADMSG witness 1

  /** What the environment answers during one step. `reply`, `bye` and `sync` are the results of
      sending the handler's reply, the close packet and the periodic sync packet. `authRes` is
      the private address `teavpn2_auth` yields, or None when it refuses the credentials. */
  datatype Env = Env(now: int, mallocOk: bool, reply: SendRet, bye: SendRet, sync: SendRet,
                     authRes: Option<U32>, tunRet: int)

  datatype Sent = Sent(dst: Key, ptype: U8)

  datatype Note =
    | HandshakeAccepted(slot: U16, key: Key)
    | AuthAccepted(slot: U16, key: Key, user: Text, pass: Text)
    | Closed(slot: U16)

  /** Result of a step: new state, packets handed to the network, return value, events. */
  datatype Outcome = Outcome(engine: Engine, out: seq<Sent>, ret: int, notes: seq<Note>)

  function SendTo(e: Engine, idx: U16, ptype: U8, r: SendRet): seq<Sent>
    requires idx < |e.slots|
  {
    if r > 0 then [Sent(e.slots[idx].dst, ptype)] else []
  }

  // ------------------------------------------------------------------ handlers

  /** `close_udp_session` and `zr_close_sess`. The precondition is what every caller must
      guarantee: the session being closed is connected. */
  function Close(e: Engine, idx: U16, bye: SendRet): (o: Outcome)
    requires Wf(e) && idx < |e.slots| && e.slots[idx].connected
    ensures Wf(o.engine) && |o.engine.slots| == |e.slots|
  {
    var iff := e.slots[idx].ipv4Iff;
    var routes := if iff != 0 then DelRoute(e.routes, iff) else e.routes;
    Outcome(Delete(e.(routes := routes), idx), SendTo(e, idx, TSRV_PKT_CLOSE, bye), 0, [Closed(idx)])
  }

  predicate GoodHandshake(p: CliPkt) {
    && p.recvLen >= PKT_MIN_LEN + HANDSHAKE_LEN
    && p.dataLen == HANDSHAKE_LEN
    && p.ptype == TCLI_PKT_HANDSHAKE
    && p.version == VERSION
  }

  /** `_handle_new_client`, with `handle_client_handshake` inlined. */
  function Greet(e: Engine, idx: U16, p: CliPkt, env: Env): (o: Outcome)
    requires Wf(e) && idx < |e.slots| && e.slots[idx].connected
    ensures Wf(o.engine) && |o.engine.slots| == |e.slots|
  {
    if GoodHandshake(p) then
      if env.reply > 0 then
        Outcome(e, SendTo(e, idx, TSRV_PKT_HANDSHAKE, env.reply), 0, [HandshakeAccepted(idx, e.slots[idx].Endpoint())])
      else
        Close(e, idx, env.bye).(ret := env.reply)
    else
      var bye := Close(e, idx, env.bye);
      bye.(out := SendTo(e, idx, TSRV_PKT_HANDSHAKE_REJECT, env.reply) + bye.out)
  }

  predicate SkipsSessionCreation(p: CliPkt) {
    || p.ptype == TCLI_PKT_TUN_DATA
    || p.ptype == TCLI_PKT_REQSYNC
    || p.ptype == TCLI_PKT_SYNC
    || p.ptype == TCLI_PKT_CLOSE
  }

  /** `handle_new_client`. */
  function NewClient(e: Engine, key: Key, p: CliPkt, env: Env): (o: Outcome)
    requires Wf(e) && InRange(e)
    ensures Wf(o.engine) && |o.engine.slots| == |e.slots|
  {
    if SkipsSessionCreation(p) then Outcome(e, [], 0, [])
    else
      match Admit(e, key, env.now, env.mallocOk)
      case (e', SlotsFull) => Outcome(e', [], 0, [])
      case (e', NoMemory) => Outcome(e', [], -ENOMEM, [])
      case (e', Created(idx)) => Greet(e', idx, p, env)
  }

  /** `handle_clpkt_auth`. */
  function Auth(e: Engine, idx: U16, p: CliPkt, env: Env): (o: Outcome)
    requires Wf(e) && idx < |e.slots| && e.slots[idx].connected
    ensures Wf(o.engine) && |o.engine.slots| == |e.slots|
  {
    var s := e.slots[idx];
    if s.authenticated then Outcome(e, [], 0, [])
    else match env.authRes
      case None =>
        var bye := Close(e, idx, env.bye);
        bye.(out := SendTo(e, idx, TSRV_PKT_AUTH_REJECT, env.reply) + bye.out,
             ret := if env.reply < 0 then env.reply else 0)
      case Some(iff) =>
        if env.reply < 0 then Close(e, idx, env.bye).(ret := env.reply)
        else
          Outcome(e.(slots := e.slots[idx := s.(ipv4Iff := iff, authenticated := true, username := UserOf(p.creds))],
                     routes := AddRoute(e.routes, iff, idx)),
                  SendTo(e, idx, TSRV_PKT_AUTH_OK, env.reply), 0,
                  [AuthAccepted(idx, s.Endpoint(), UserOf(p.creds), PassOf(p.creds))])
  }

  function Touch(e: Engine, idx: U16, now: int): Engine
    requires idx < |e.slots|
  {
    e.(slots := e.slots[idx := e.slots[idx].(lastAct := now)])
  }

  /** Result of writing a data packet to the TUN device. */
  function TunData(p: CliPkt, env: Env): int {
    if p.dataLen == 0 then 0
    else if env.tunRet == 0 then -ENETDOWN
    else if env.tunRet < 0 then env.tunRet
    else 0
  }

  /** `__handle_event_from_udp`. */
  function Dispatch(e: Engine, idx: U16, p: CliPkt, env: Env): (o: Outcome)
    requires Wf(e) && idx < |e.slots| && e.slots[idx].connected
    ensures Wf(o.engine) && |o.engine.slots| == |e.slots|
  {
    if p.ptype == TCLI_PKT_HANDSHAKE then Outcome(e, [], 0, [])
    else if p.ptype == TCLI_PKT_AUTH then Auth(e, idx, p, env)
    else if p.ptype == TCLI_PKT_TUN_DATA then Outcome(e, [], TunData(p, env), [])
    else if p.ptype == TCLI_PKT_REQSYNC then
      Outcome(Touch(e, idx, env.now), SendTo(e, idx, TSRV_PKT_SYNC, env.reply),
              if env.reply < 0 then env.reply else 0, [])
    else if p.ptype == TCLI_PKT_SYNC then Outcome(Touch(e, idx, env.now), [], 0, [])
    else if p.ptype == TCLI_PKT_CLOSE then Close(e, idx, env.bye)
    else Outcome(e, [], -EBADMSG, [])
  }

  /** Increment of an eight-bit counter. */
  function Next8(c: U8): U8 { (c + 1) % 0x100 }

  /** The packet counter of a session, with a sync packet on every 32nd packet. It runs even when
      the handler has just closed the session. */
  function Count(o: Outcome, idx: U16, env: Env): Outcome
    requires idx < |o.engine.slots|
  {
    var e := o.engine;
    var c := Next8(e.slots[idx].loopC);
    var e' := e.(slots := e.slots[idx := e.slots[idx].(loopC := c)]);
    if c % 32 == 0 then
      o.(engine := Touch(e', idx, env.now), out := o.out + SendTo(e', idx, TSRV_PKT_SYNC, env.sync))
    else
      o.(engine := e')
  }

  /** `_handle_event_from_udp` for a packet of a known session. */
  function KnownClient(e: Engine, idx: U16, p: CliPkt, env: Env): (o: Outcome)
    requires Wf(e) && idx < |e.slots| && e.slots[idx].connected
    ensures Wf(o.engine) && |o.engine.slots| == |e.slots|
  {
    var o := Dispatch(e, idx, p, env);
    if o.ret == -EBADMSG then Close(o.engine, idx, env.bye).(ret := 0)
    else if o.ret < 0 then o
    else Count(o, idx, env)
  }

  /** `_handle_event_from_udp`: one packet from `key`. */
  function HandlePacket(e: Engine, key: Key, p: CliPkt, env: Env): (o: Outcome)
    requires Inv(e)
    ensures Wf(o.engine) && |o.engine.slots| == |e.slots|
  {
    match Lookup(e, key)
    case None => NewClient(e, key, p, env)
    case Some(idx) =>
      LookupSound(e, key);
      KnownClient(e, idx, p, env)
  }

  // ------------------------------------------------------------------ reaper and shutdown

  const UDP_SESS_TIMEOUT_NO_AUTH: nat := 30
  const UDP_SESS_TIMEOUT_AUTH: nat := 180

  function IdleLimit(s: Slot): nat {
    if s.authenticated then UDP_SESS_TIMEOUT_AUTH else UDP_SESS_TIMEOUT_NO_AUTH
  }

  /** How many sync requests an idle authenticated session is sent. */
  function Nudges(diff: int): nat {
    if diff > UDP_SESS_TIMEOUT_AUTH * 4 / 5 then 7
    else if diff > UDP_SESS_TIMEOUT_AUTH * 3 / 5 then 5
    else if diff > UDP_SESS_TIMEOUT_AUTH * 2 / 5 then 3
    else if diff > UDP_SESS_TIMEOUT_AUTH * 1 / 5 then 1
    else 0
  }

  function Repeat<T>(x: T, n: nat): seq<T> { seq(n, _ => x) }

  /** `zr_chk_auth` / `zr_chk_no_auth` for one slot, when it is connected. */
  function Reap(e: Engine, idx: U16, now: int, bye: SendRet): (o: Outcome)
    requires Wf(e) && idx < |e.slots|
    ensures Wf(o.engine) && |o.engine.slots| == |e.slots|
  {
    var s := e.slots[idx];
    var diff := now - s.lastAct;
    if !s.connected then Outcome(e, [], 0, [])
    else if diff > IdleLimit(s) then Close(e, idx, bye)
    else Outcome(e, if s.authenticated then Repeat(Sent(s.dst, TSRV_PKT_REQSYNC), Nudges(diff)) else [], 0, [])
  }

  /** The reaper's loop from slot `i` on; `bye[j]` is the result of sending slot j's close packet. */
  function ScanFrom(e: Engine, i: nat, now: int, bye: seq<SendRet>): Outcome
    requires Wf(e) && i <= |e.slots| == |bye|
    decreases |e.slots| - i
  {
    if i == |e.slots| then Outcome(e, [], 0, [])
    else
      var o := Reap(e, i, now, bye[i]);
      var rest := ScanFrom(o.engine, i + 1, now, bye);
      Outcome(rest.engine, o.out + rest.out, 0, o.notes + rest.notes)
  }

  /** `zombie_reaper_do_scan`. */
  function Scan(e: Engine, now: int, bye: seq<SendRet>): Outcome
    requires Wf(e) && |e.slots| == |bye|
  {
    if e.online == 0 then Outcome(e, [], 0, []) else ScanFrom(e, 0, now, bye)
  }

  /** One turn of the shutdown loop. */
  function CloseIfConnected(e: Engine, idx: U16, bye: SendRet): (o: Outcome)
    requires Wf(e) && idx < |e.slots|
    ensures Wf(o.engine) && |o.engine.slots| == |e.slots|
  {
    if e.slots[idx].connected then Close(e, idx, bye) else Outcome(e, [], 0, [])
  }

  /** `close_client_sess` from slot `i` on, run once the other threads have exited. */
  function ShutdownFrom(e: Engine, i: nat, bye: seq<SendRet>): Outcome
    requires Wf(e) && i <= |e.slots| == |bye|
    decreases |e.slots| - i
  {
    if i == |e.slots| then Outcome(e, [], 0, [])
    else
      var o := CloseIfConnected(e, i, bye[i]);
      var rest := ShutdownFrom(o.engine, i + 1, bye);
      Outcome(rest.engine, o.out + rest.out, 0, o.notes + rest.notes)
  }

  // ------------------------------------------------------------------ packets from TUN

  /** `broadcast_packet` from slot `i` on: the slots sent to, and the return value. */
  function BroadcastFrom(e: Engine, i: nat, rets: seq<SendRet>): (seq<U16>, int)
    requires Wf(e) && i <= |e.slots| == |rets|
    decreases |e.slots| - i
  {
    if i == |e.slots| then ([], 0)
    else if !e.slots[i].authenticated then BroadcastFrom(e, i + 1, rets)
    else if rets[i] < 0 then ([i], rets[i])
    else
      var (tried, ret) := BroadcastFrom(e, i + 1, rets);
      ([i] + tried, ret)
  }

  /** `_route_packet`: the slots a send was attempted to, in order, and the return value.
      `direct` is the result of the send to the mapped session. */
  function RoutePacket(e: Engine, isV4: bool, daddr: U32, direct: SendRet, rets: seq<SendRet>): (seq<U16>, int)
    requires Wf(e) && |e.slots| == |rets|
  {
    var find := GetRoute(e.routes, daddr);
    if isV4 && find >= 0 && direct != -ENOENT then
      ([find], if direct < 0 then direct else 0)
    else
      var (tried, ret) := BroadcastFrom(e, 0, rets);
      ((if isV4 && find >= 0 then [find] else []) + tried, ret)
  }

  // ------------------------------------------------------------------ invariant

  ghost predicate SlotPartition(e: Engine) {
    && NoDup(e.free)
    && (forall i :: 0 <= i < |e.slots| ==> (e.slots[i].connected <==> i !in e.free))
  }

  ghost function Online(e: Engine): set<int> {
    set i | 0 <= i < |e.slots| && e.slots[i].connected
  }

  ghost predicate ChainsSound(e: Engine)
    requires Wf(e) && InRange(e)
  {
    && (forall b, k :: 0 <= b < CELLS && 0 <= k < |e.chains[b]| ==>
          e.slots[e.chains[b][k]].connected && Cell(e.slots[e.chains[b][k]].srcAddr) == b)
    && (forall b :: 0 <= b < CELLS ==> NoDup(e.chains[b]))
    && (forall i :: 0 <= i < |e.slots| && e.slots[i].connected ==> i in e.chains[Cell(e.slots[i].srcAddr)])
  }

  ghost predicate KeysUnique(e: Engine) {
    forall i, j :: 0 <= i < j < |e.slots| && e.slots[i].connected && e.slots[j].connected ==>
      e.slots[i].Endpoint() != e.slots[j].Endpoint()
  }

  predicate SlotOk(s: Slot) {
    && (s.authenticated ==> s.connected)
    && (s.ipv4Iff != 0 ==> s.authenticated)
    && (s.connected ==> s.dst == s.Endpoint())
  }

  ghost predicate Inv(e: Engine) {
    && Wf(e) && InRange(e)
    && SlotPartition(e)
    && e.online == |Online(e)|
    && ChainsSound(e)
    && KeysUnique(e)
    && (forall i :: 0 <= i < |e.slots| ==> SlotOk(e.slots[i]))
  }

  /** What is found is connected and has the key that was looked for. */
  lemma {:induction false} FindSound(e: Engine, chain: seq<U16>, key: Key)
    requires forall k :: 0 <= k < |chain| ==> chain[k] < |e.slots|
    ensures Find(e, chain, key).Some? ==>
              Find(e, chain, key).value in chain && e.slots[Find(e, chain, key).value].Endpoint() == key
    ensures Find(e, chain, key).None? ==>
              forall k :: 0 <= k < |chain| ==> e.slots[chain[k]].Endpoint() != key
  {
    if chain != [] && e.slots[chain[0]].Endpoint() != key {
      FindSound(e, chain[1..], key);
    }
  }

  lemma LookupSound(e: Engine, key: Key)
    requires Wf(e) && InRange(e) && ChainsSound(e)
    ensures Lookup(e, key).Some? ==>
              && Lookup(e, key).value < |e.slots|
              && e.slots[Lookup(e, key).value].connected
              && e.slots[Lookup(e, key).value].Endpoint() == key
    ensures Lookup(e, key).None? ==>
              forall i :: 0 <= i < |e.slots| && e.slots[i].connected ==> e.slots[i].Endpoint() != key
  {
    FindSound(e, e.chains[Cell(key.addr)], key);
  }
}
