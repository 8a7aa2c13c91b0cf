/**
 Two laws of whole runs about logins, each with its exact condition: the credentials that the server accepts
 were sent by the endpoint, and the reply that a client takes for its own answers a login made after the client
 had started.
 */
module Logins {
  import opened AuthPacket
  import opened Common
  import opened SessionEngine
  import opened SessionProofs
  import opened ServerSafety
  import opened Client
  import opened Protocol

  // ------------------------------------------------------------------ whose credentials

  /** The endpoint has sent an auth packet that by itself makes the server read these credentials. */
  ghost predicate SentFrom(w: World, key: Key, user: Text, pass: Text) {
    exists p: CliPkt :: (key, p) in w.toServer && p.ptype == TCLI_PKT_AUTH && Carries(p.creds, Payload(p), user, pass)
  }

  /** Every accepted login used credentials that its endpoint has sent. */
  ghost predicate LoginsSent(w: World) {
    forall j: nat :: j < |w.log| && w.log[j].AuthAccepted? ==> SentFrom(w, w.log[j].key, w.log[j].user, w.log[j].pass)
  }

  /** No auth packet on the network is shorter. */
  ghost predicate AtLeast(w: World, n: nat) {
    forall k, p :: (k, p) in w.toServer && p.ptype == TCLI_PKT_AUTH ==> p.recvLen >= n
  }

  ghost predicate AlwaysSent(auth: UserFiles, maxConn: U16, n: nat) {
    forall ws: seq<World>, evs: seq<WorldEvent> ::
      IsRun(ws, evs, auth, maxConn) && AtLeast(ws[|evs|], n) ==> LoginsSent(ws[|evs|])
  }

  /** Main result. With auth packets of at least `n` bytes, logins are always made with credentials that their
      endpoint has sent exactly if `n` bytes reach the end of every valid password. */
  lemma AlwaysSentExactly(auth: UserFiles, maxConn: U16, n: nat)
    requires maxConn > 0
    ensures AlwaysSent(auth, maxConn, n) <==>
            forall u: Text, q: Text :: auth(u, q).Some? ==> n >= PKT_MIN_LEN + Reach(q)
  {
    hide Next, Enabled, Inv, Fresh, LoginsSent, AtLeast, Reach;
    if u: Text, q: Text :| auth(u, q).Some? && n < PKT_MIN_LEN + Reach(q) {
      var ws, evs := BorrowedLogin(auth, maxConn, Key(0, 0), u, q, n);
      assert !LoginsSent(ws[|evs|]);
    } else {
      forall ws: seq<World>, evs: seq<WorldEvent> | IsRun(ws, evs, auth, maxConn) && AtLeast(ws[|evs|], n)
        ensures LoginsSent(ws[|evs|])
      {
        LongEnough(ws, evs, auth, maxConn, n);
      }
    }
  }

  /** The packet of an accepted login, and what the buffer held before it. */
  ghost predicate Packeted(w: World, n: Note)
    requires n.AuthAccepted?
  {
    exists p: CliPkt, held: Creds :: (n.key, p) in w.toServer && p.ptype == TCLI_PKT_AUTH
      && UserOf(Over(p.creds, Payload(p), held)) == n.user && PassOf(Over(p.creds, Payload(p), held)) == n.pass
  }

  ghost predicate LoginsPacketed(w: World) {
    forall j: nat :: j < |w.log| && w.log[j].AuthAccepted? ==> Packeted(w, w.log[j])
  }

  lemma StepPacketed(w: World, ev: WorldEvent, auth: UserFiles)
    requires Inv(w.server) && Enabled(w, ev, auth) && LoginsPacketed(w)
    ensures LoginsPacketed(Next(w, ev))
  {
    hide Inv, Step, Effect, Over, UserOf, PassOf, Packeted;
    var w' := Next(w, ev);
    if ev.ServerStep? {
      StepEffect(w.server, ev.ev);
    }
    LogGrows(w, ev);
    forall j: nat | j < |w'.log| && w'.log[j].AuthAccepted? ensures Packeted(w', w'.log[j]) {
      if j < |w.log| {
        PacketedStays(w, w', w.log[j]);
      } else {
        var o := Step(w.server, ev.ev);
        assert w'.log[j] == o.notes[j - |w.log|] && w'.log[j] in o.notes;
        LoginPacketed(w, ev.ev, auth, w'.log[j]);
        PacketedStays(w, w', w'.log[j]);
      }
    }
  }

  lemma LogGrows(w: World, ev: WorldEvent)
    requires Inv(w.server)
    ensures Next(w, ev).toServer >= w.toServer
    ensures Next(w, ev).log == if ev.ServerStep? then w.log + Step(w.server, ev.ev).notes else w.log
  {
    hide Inv, Step, ClientNext, Emitted;
  }

  lemma PacketedStays(w: World, w': World, n: Note)
    requires n.AuthAccepted? && Packeted(w, n) && w.toServer <= w'.toServer
    ensures Packeted(w', n)
  {
    hide Over, UserOf, PassOf;
  }

  lemma LoginPacketed(w: World, ev: Event, auth: UserFiles, n: Note)
    requires Inv(w.server) && Enabled(w, ServerStep(ev), auth) && n in Step(w.server, ev).notes && n.AuthAccepted?
    requires ev.Packet? && Caused(Step(w.server, ev), ev.key, ev.pkt, ev.env.authRes)
    ensures Packeted(w, n)
  {
    hide Inv, Step, Over, UserOf, PassOf;
    var sent: CliPkt, held: Held :| (ev.key, sent) in w.toServer && ev.pkt == AsReceived(sent, held);
    var r := AsReceived(sent, held);
    assert ev.pkt == r && r.creds == Over(sent.creds, Payload(sent), held.creds);
  }

  lemma {:induction false} RunPacketed(ws: seq<World>, evs: seq<WorldEvent>, auth: UserFiles, maxConn: U16, k: nat)
    requires IsRun(ws, evs, auth, maxConn) && k <= |evs|
    ensures LoginsPacketed(ws[k])
  {
    hide Next, Enabled, Inv, Packeted;
    if k > 0 {
      RunPacketed(ws, evs, auth, maxConn, k - 1);
      StepPacketed(ws[k - 1], evs[k - 1], auth);
    }
  }

  /** Packets that reach the end of every valid password carry their credentials. */
  lemma LongEnough(ws: seq<World>, evs: seq<WorldEvent>, auth: UserFiles, maxConn: U16, n: nat)
    requires IsRun(ws, evs, auth, maxConn) && AtLeast(ws[|evs|], n)
    requires forall u: Text, q: Text :: auth(u, q).Some? ==> n >= PKT_MIN_LEN + Reach(q)
    ensures LoginsSent(ws[|evs|])
  {
    hide Next, Enabled, Inv, Over, UserOf, PassOf, Fresh, Carries, ProperLogin;
    RunPacketed(ws, evs, auth, maxConn, |evs|);
    RunInv(ws, evs, auth, maxConn, |evs|);
    var w := ws[|evs|];
    forall j: nat | j < |w.log| && w.log[j].AuthAccepted?
      ensures SentFrom(w, w.log[j].key, w.log[j].user, w.log[j].pass)
    {
      assert Packeted(w, w.log[j]);
      var p: CliPkt, held: Creds :| (w.log[j].key, p) in w.toServer && p.ptype == TCLI_PKT_AUTH
        && UserOf(Over(p.creds, Payload(p), held)) == w.log[j].user
        && PassOf(Over(p.creds, Payload(p), held)) == w.log[j].pass;
      CarriesExactly(p.creds, Payload(p), held);
    }
  }

  /** A packet of an endpoint without a client. */
  lemma Sends(w: World, key: Key, p: CliPkt, auth: UserFiles)
    requires Inv(w.server) && key !in w.clients
    ensures Linked(w, Elsewhere(key, p), w.(toServer := w.toServer + {(key, p)}), auth)
  {
    hide Inv;
  }

  /** And its arrival, answered by one packet. */
  lemma IsAnswered(w: World, key: Key, sent: CliPkt, held: Held, env: Env, ptype: U8, auth: UserFiles)
    requires Inv(w.server) && (key, sent) in w.toServer && sent.recvLen > 0
    requires env.authRes == Check(auth, AsReceived(sent, held))
    requires Step(w.server, Packet(key, AsReceived(sent, held), env)).out == [Sent(key, ptype)]
    ensures var ev := Packet(key, AsReceived(sent, held), env); var o := Step(w.server, ev);
            Linked(w, ServerStep(ev), w.(server := o.engine, toClients := w.toClients + {(key, Prepared(ptype))},
                                         log := w.log + o.notes), auth)
  {
    hide Inv, Step, Over, Check;
    var ev := Packet(key, AsReceived(sent, held), env);
    assert Arrives(w, key, ev.pkt);
    ServerSends(w, ev, key, ptype);
  }

  /** A login with a packet that ends too early, over credentials that the buffer held. */
  lemma BorrowedLogin(auth: UserFiles, maxConn: U16, key: Key, user: Text, pass: Text, n: nat)
    returns (ws: seq<World>, evs: seq<WorldEvent>)
    requires maxConn > 0 && auth(user, pass).Some? && n < PKT_MIN_LEN + Reach(pass)
    ensures IsRun(ws, evs, auth, maxConn) && AtLeast(ws[|evs|], n) && !LoginsSent(ws[|evs|])
  {
    hide Inv, Step, Init, InRange, Wf, Lookup, Enabled, Next, Prepared, Linked, IsRun;
    hide Fields, UserOf, PassOf, Over, Carries;
    FieldsRead("", "");
    FieldsRead(user, pass);
    var hello := HandshakePkt();
    var short := CliPkt(TCLI_PKT_AUTH, AUTH_LEN, if n > 0 then n else 1, Version(0, 0, 0), Fields(user, pass));
    var blank, left := Held(0, Fields("", "")), Held(AUTH_LEN, Fields(user, pass));
    Unchanged(hello, blank);
    Unchanged(short, left);
    FirstHandshake(maxConn, key, auth("", ""));
    var ev1, ev3 := Packet(key, hello, Fine(auth("", ""))), Packet(key, short, Fine(auth(user, pass)));
    var s1 := Step(Init(maxConn), ev1).engine;
    InvRanges(s1);
    FirstLogin(s1, key, short, auth(user, pass).value);
    var s2 := Step(s1, ev3).engine;
    var reply, okay := (key, Prepared(TSRV_PKT_HANDSHAKE)), (key, Prepared(TSRV_PKT_AUTH_OK));
    var w0 := World(Init(maxConn), map[], {}, {}, [], {});
    var w1 := w0.(toServer := w0.toServer + {(key, hello)});
    var w2 := w1.(server := s1, toClients := w1.toClients + {reply}, log := w1.log + [HandshakeAccepted(0, key)]);
    var w3 := w2.(toServer := w2.toServer + {(key, short)});
    var w4 := w3.(server := s2, toClients := w3.toClients + {okay}, log := w3.log + [AuthAccepted(0, key, user, pass)]);
    Sends(w0, key, hello, auth);
    IsAnswered(w1, key, hello, blank, Fine(auth("", "")), TSRV_PKT_HANDSHAKE, auth);
    Sends(w2, key, short, auth);
    IsAnswered(w3, key, short, left, Fine(auth(user, pass)), TSRV_PKT_AUTH_OK, auth);
    ws, evs := [w0, w1, w2, w3, w4], [Elsewhere(key, hello), ServerStep(ev1), Elsewhere(key, short), ServerStep(ev3)];
    LinkedIsRun(ws, evs, auth, maxConn);
    ShortCarriesNothing(short, user, pass);
    NotSent(w4, key, hello, short, user, pass);
  }

  /** A packet arrives unchanged over a buffer that holds the same bytes. */
  lemma Unchanged(p: CliPkt, held: Held)
    requires held.creds == p.creds && (p.recvLen < PKT_MIN_LEN ==> held.dataLen == p.dataLen)
    ensures AsReceived(p, held) == p
  {
    assert Over(p.creds, Payload(p), p.creds) == p.creds;
  }

  lemma ShortCarriesNothing(p: CliPkt, user: Text, pass: Text)
    requires p.creds == Fields(user, pass) && Payload(p) < Reach(pass)
    ensures !Carries(p.creds, Payload(p), user, pass)
  {
    hide Carries, Fields, UserOf, PassOf;
    FieldsRead(user, pass);
    assert Over(p.creds, Payload(p), p.creds) == p.creds;
    CarriesExactly(p.creds, Payload(p), p.creds);
  }

  lemma NotSent(w: World, key: Key, hello: CliPkt, short: CliPkt, user: Text, pass: Text)
    requires w.toServer == {(key, hello), (key, short)} && hello.ptype != TCLI_PKT_AUTH
    requires w.log == [HandshakeAccepted(0, key), AuthAccepted(0, key, user, pass)]
    requires !Carries(short.creds, Payload(short), user, pass)
    ensures !LoginsSent(w)
  {
    hide Carries;
    assert w.log[1].AuthAccepted? && !SentFrom(w, key, user, pass);
  }

  // ------------------------------------------------------------------ whose reply

  ghost predicate OkSent(w: World, key: Key) {
    exists p: SrvPkt :: (key, p) in w.toClients && p.ptype == TSRV_PKT_AUTH_OK
  }

  /** From entry `from` of the log on, a login of the endpoint was accepted, on a session greeted before. */
  ghost predicate LoginSince(w: World, from: nat, key: Key) {
    exists j: nat :: from <= j < |w.log| && w.log[j].AuthAccepted? && w.log[j].key == key && ProperLogin(w.log, j)
  }

  /** The run goes on with the client's first request. */
  ghost predicate GoesOnWithStart(evs: seq<WorldEvent>, evs': seq<WorldEvent>, key: Key) {
    evs < evs' && evs'[|evs|].ClientStart? && evs'[|evs|].key == key
  }

  /** However the run goes on with the client's first request, if the client is authenticated in the end, a
      login was accepted after that request. */
  ghost predicate AlwaysAfterStart(ws: seq<World>, evs: seq<WorldEvent>, auth: UserFiles, maxConn: U16, key: Key)
    requires |ws| == |evs| + 1
  {
    forall ws': seq<World>, evs': seq<WorldEvent> ::
      IsRun(ws', evs', auth, maxConn) && ws <= ws' && GoesOnWithStart(evs, evs', key) ==>
        Followed(ws'[|evs'|], |ws[|evs|].log|, key)
  }

  ghost predicate Followed(w: World, from: nat, key: Key) {
    key in w.clients && w.clients[key].pc == Authenticated ==> LoginSince(w, from, key)
  }

  /** Main result. That is so exactly if no AUTH_OK packet was sent to the endpoint before the start. */
  lemma AfterStartExactly(ws: seq<World>, evs: seq<WorldEvent>, auth: UserFiles, maxConn: U16, key: Key)
    requires IsRun(ws, evs, auth, maxConn) && key in ws[|evs|].clients && ws[|evs|].clients[key].pc == Idle
    ensures AlwaysAfterStart(ws, evs, auth, maxConn, key) <==> !OkSent(ws[|evs|], key)
  {
    hide Next, Enabled, Inv, Fresh, OkSent, LoginSince;
    if OkSent(ws[|evs|], key) {
      var ws', evs' := ReplayedReply(ws, evs, auth, maxConn, key);
      assert !Followed(ws'[|evs'|], |ws[|evs|].log|, key);
    } else {
      forall ws': seq<World>, evs': seq<WorldEvent>
        | IsRun(ws', evs', auth, maxConn) && ws <= ws' && GoesOnWithStart(evs, evs', key)
        ensures Followed(ws'[|evs'|], |ws[|evs|].log|, key)
      {
        assert ws'[|evs|] == ws[|evs|];
        StaysFollowed(ws', evs', auth, maxConn, key, |evs|, |evs'|);
      }
    }
  }

  /** Every AUTH_OK at the endpoint and an authenticated client there have a login since. */
  ghost predicate Since(w: World, from: nat, key: Key) {
    from <= |w.log| && (OkSent(w, key) ==> LoginSince(w, from, key)) && Followed(w, from, key)
  }

  lemma LoginSinceGrows(w: World, w': World, from: nat, key: Key)
    requires w.log <= w'.log && LoginSince(w, from, key)
    ensures LoginSince(w', from, key)
  {
    var j: nat :| from <= j < |w.log| && w.log[j].AuthAccepted? && w.log[j].key == key && ProperLogin(w.log, j);
    assert w'.log == w.log + w'.log[|w.log|..];
    ProperLoginGrows(w.log, w'.log[|w.log|..], j);
  }

  /** A server step that sends an AUTH_OK packet has accepted a login. */
  lemma ServerSince(w: World, ev: Event, auth: UserFiles, from: nat, key: Key)
    requires Inv(w.server) && Enabled(w, ServerStep(ev), auth) && Since(w, from, key)
    requires var w' := Next(w, ServerStep(ev)); LoginsProper(w'.log, w', auth)
    ensures Since(Next(w, ServerStep(ev)), from, key)
  {
    hide Inv, Step, ProperLogin, Enabled;
    StepEffect(w.server, ev);
    var o, w' := Step(w.server, ev), Next(w, ServerStep(ev));
    if LoginSince(w, from, key) {
      LoginSinceGrows(w, w', from, key);
    } else if OkSent(w', key) {
      var p: SrvPkt :| (key, p) in w'.toClients && p.ptype == TSRV_PKT_AUTH_OK;
      assert (key, p) !in w.toClients;
      var s :| s in o.out && (key, p) == (s.dst, Prepared(s.ptype));
      assert w'.log[|w.log|] == o.notes[0] && w'.log[|w.log|].key == key;
    }
  }

  /** No other step sends one, and a client is only authenticated by one. */
  lemma OtherSince(w: World, ev: WorldEvent, auth: UserFiles, from: nat, key: Key)
    requires Inv(w.server) && Enabled(w, ev, auth) && !ev.ServerStep? && Since(w, from, key)
    requires ev.ClientRecv? ==> Bounded(w.clients[ev.key])
    ensures Since(Next(w, ev), from, key)
  {
    hide Inv, ProperLogin, ClientNext, Emitted, Bounded;
    if ev.ClientRecv? {
      ClientNextExact(ev.key, w.clients[ev.key], ev.recv, ev.send, ev.ifaceUp);
    }
  }

  lemma {:induction false} StaysFollowed(ws: seq<World>, evs: seq<WorldEvent>, auth: UserFiles, maxConn: U16, key: Key,
                                         s: nat, k: nat)
    requires IsRun(ws, evs, auth, maxConn) && s <= k <= |evs| && !OkSent(ws[s], key)
    requires key in ws[s].clients && ws[s].clients[key].pc == Idle
    ensures Since(ws[k], |ws[s].log|, key)
  {
    hide Next, Enabled, Inv, Fresh, LoginSince, Bounded, LoginsProper, OkSent;
    if s < k {
      StaysFollowed(ws, evs, auth, maxConn, key, s, k - 1);
      RunInv(ws, evs, auth, maxConn, k - 1);
      RunInv(ws, evs, auth, maxConn, k);
      var w, ev := ws[k - 1], evs[k - 1];
      assert Enabled(w, ev, auth) && ws[k] == Next(w, ev);
      if ev.ServerStep? {
        ServerSince(w, ev.ev, auth, |ws[s].log|, key);
      } else {
        RecvHasClient(w, ev, auth);
        OtherSince(w, ev, auth, |ws[s].log|, key);
      }
    }
  }

  lemma RecvHasClient(w: World, ev: WorldEvent, auth: UserFiles)
    requires Enabled(w, ev, auth)
    ensures ev.ClientRecv? ==> ev.key in w.clients
  {
  }

  // ------------------------------------------------------------------ a run with an old reply

  /** The greetings in the log were answered, and AUTH_OK packets are as the server prepares them. */
  ghost predicate Replies(w: World) {
    && (forall n :: n in w.log && n.HandshakeAccepted? ==> (n.key, Prepared(TSRV_PKT_HANDSHAKE)) in w.toClients)
    && (forall k, p :: (k, p) in w.toClients && p.ptype == TSRV_PKT_AUTH_OK ==> p == Prepared(TSRV_PKT_AUTH_OK))
  }

  lemma StepReplies(w: World, ev: WorldEvent, auth: UserFiles)
    requires Inv(w.server) && Enabled(w, ev, auth) && Replies(w)
    ensures Replies(Next(w, ev))
  {
    hide Inv, Step, ClientNext, Emitted, Prepared;
    if ev.ServerStep? {
      StepEffect(w.server, ev.ev);
      var o := Step(w.server, ev.ev);
      forall n | n in o.notes && n.HandshakeAccepted? ensures (n.key, Prepared(TSRV_PKT_HANDSHAKE)) in Wires(o.out) {
        assert Sent(n.key, TSRV_PKT_HANDSHAKE) in o.out;
      }
      PreparedTypes();
    }
  }

  lemma PreparedTypes()
    ensures forall t: U8 :: Prepared(t).ptype == t
  {
  }

  lemma {:induction false} RunReplies(ws: seq<World>, evs: seq<WorldEvent>, auth: UserFiles, maxConn: U16, k: nat)
    requires IsRun(ws, evs, auth, maxConn) && k <= |evs|
    ensures Replies(ws[k])
  {
    hide Next, Enabled, Inv, Prepared;
    if k > 0 {
      RunReplies(ws, evs, auth, maxConn, k - 1);
      StepReplies(ws[k - 1], evs[k - 1], auth);
    }
  }

  /** Where an AUTH_OK packet was sent, so was a handshake reply, and both can be delivered again. */
  lemma OldReplies(ws: seq<World>, evs: seq<WorldEvent>, auth: UserFiles, maxConn: U16, key: Key)
    requires IsRun(ws, evs, auth, maxConn) && OkSent(ws[|evs|], key)
    ensures (key, Prepared(TSRV_PKT_HANDSHAKE)) in ws[|evs|].toClients
    ensures (key, Prepared(TSRV_PKT_AUTH_OK)) in ws[|evs|].toClients
  {
    hide Next, Enabled, Inv, Fresh, Prepared;
    RunReplies(ws, evs, auth, maxConn, |evs|);
    RunInv(ws, evs, auth, maxConn, |evs|);
    var w := ws[|evs|];
    assert LoggedIn(w, key);
    var j: nat :| j < |w.log| && w.log[j].AuthAccepted? && w.log[j].key == key;
    assert ProperLogin(w.log, j);
    var h: nat :| Uninterrupted(w.log, h, j, w.log[j].slot, key);
    assert w.log[h] in w.log;
  }

  /** The client takes replies from before its start for its own. */
  lemma ReplayedReply(ws: seq<World>, evs: seq<WorldEvent>, auth: UserFiles, maxConn: U16, key: Key)
    returns (ws': seq<World>, evs': seq<WorldEvent>)
    requires IsRun(ws, evs, auth, maxConn) && OkSent(ws[|evs|], key)
    requires key in ws[|evs|].clients && ws[|evs|].clients[key].pc == Idle
    ensures IsRun(ws', evs', auth, maxConn) && ws <= ws' && GoesOnWithStart(evs, evs', key)
    ensures !Followed(ws'[|evs'|], |ws[|evs|].log|, key)
  {
    hide Next, Enabled, Inv, Fresh, OkSent, Prepared, Emitted;
    OldReplies(ws, evs, auth, maxConn, key);
    var e1, e2, e3 := ClientStart(key, false, 1), ClientRecv(key, Got(Prepared(TSRV_PKT_HANDSHAKE)), 1, true),
      ClientRecv(key, Got(Prepared(TSRV_PKT_AUTH_OK)), 1, true);
    var w0 := ws[|evs|];
    RunInv(ws, evs, auth, maxConn, |evs|);
    ClientStarts(w0, key, auth);
    RunGoesOn(ws, evs, auth, maxConn, e1);
    var w1 := Next(w0, e1);
    ClientIsGreeted(w1, key, auth);
    RunGoesOn(ws + [w1], evs + [e1], auth, maxConn, e2);
    var w2 := Next(w1, e2);
    ClientIsAccepted(w2, key, auth);
    RunGoesOn(ws + [w1] + [w2], evs + [e1] + [e2], auth, maxConn, e3);
    var w3 := Next(w2, e3);
    ws', evs' := ws + [w1] + [w2] + [w3], evs + [e1] + [e2] + [e3];
    assert w3.log == w0.log;
  }
}
