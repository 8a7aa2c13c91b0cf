/**
 The server's packet handlers, zombie reaper and shutdown, working in place on `SrvUdpState`.
 Each returns the packets handed to the network and is proved equal to its `SessionEngine` step.
 */
module EpollServer {
  import opened AuthPacket
  import opened Common
  import opened SessionEngine
  import opened SessionMap
  import opened SessionProofs
  import opened ServerSafety
  import opened Server

  /** `send_to_client`: the packet reaches the network when sendto reports success. */
  function SendToClient(dst: Key, ptype: U8, r: SendRet): seq<Sent> {
    if r > 0 then [Sent(dst, ptype)] else []
  }

  /** The state in which `close_udp_session` deletes the session: its route is gone. */
  ghost function Unrouted(v: Engine, idx: U16): Engine
    requires Wf(v) && idx < |v.slots|
  {
    if v.slots[idx].ipv4Iff != 0 then v.(routes := DelRoute(v.routes, v.slots[idx].ipv4Iff)) else v
  }

  lemma CloseSteps(v: Engine, idx: U16, bye: SendRet)
    requires Inv(v) && idx < |v.slots| && v.slots[idx].connected
    ensures Inv(Unrouted(v, idx)) && Wf(Unrouted(v, idx))
    ensures Close(v, idx, bye)
              == Outcome(Delete(Unrouted(v, idx), idx), SendTo(v, idx, TSRV_PKT_CLOSE, bye), 0, [Closed(idx)])
    ensures Inv(Close(v, idx, bye).engine)
  {
    CloseInv(v, idx, bye);
    UpdateInv(v, idx, v.slots[idx], Unrouted(v, idx).routes);
    assert v.slots[idx := v.slots[idx]] == v.slots;
  }

  /** `close_udp_session`. */
  method CloseUdpSession(st: SrvUdpState, sess: UdpSess, bye: SendRet) returns (out: seq<Sent>, ghost notes: seq<Note>)
    requires st.Valid() && Inv(st.view) && sess.idx < st.maxConn && sess == st.sessArr[sess.idx]
    requires sess.idx < |st.view.slots| && st.view.slots[sess.idx].connected
    modifies st.Footprint()
    ensures st.Valid() && Inv(st.view) && unchanged(st.sessArr)
    ensures forall o :: o in st.Footprint() ==> o in old(st.Footprint()) || fresh(o)
    ensures sess.idx == old(sess.idx)
    ensures Outcome(st.view, out, 0, notes) == Close(old(st.view), sess.idx, bye)
  {
    ghost var v, idx := st.view, sess.idx;
    st.SlotAt(idx);
    CloseSteps(v, idx, bye);
    st.FootprintHas();
    hide SrvUdpState.Valid, SrvUdpState.Footprint, Inv, Cell, Delete, Close;
    if sess.ipv4Iff != 0 {
      st.DelIpv4RouteMap(sess.ipv4Iff);
    }
    assert st.view == Unrouted(v, idx);
    st.SlotAt(idx);
    out := SendToClient(sess.dst, TSRV_PKT_CLOSE, bye);
    var ok := st.DeleteUdpSession(sess);
    notes := [Closed(idx)];
  }

  /** `_handle_new_client`: handshake reply, or a reject packet and a close. */
  method HandleClientHandshake(st: SrvUdpState, sess: UdpSess, p: CliPkt, env: Env)
    returns (out: seq<Sent>, ret: int, ghost notes: seq<Note>)
    requires st.Valid() && Inv(st.view) && sess.idx < st.maxConn && sess == st.sessArr[sess.idx]
    requires sess.idx < |st.view.slots| && st.view.slots[sess.idx].connected
    modifies st.Footprint()
    ensures st.Valid() && Inv(st.view) && unchanged(st.sessArr)
    ensures forall o :: o in st.Footprint() ==> o in old(st.Footprint()) || fresh(o)
    ensures Outcome(st.view, out, ret, notes) == Greet(old(st.view), old(sess.idx), p, env)
  {
    st.SlotAt(sess.idx);
    hide SrvUdpState.Valid, SrvUdpState.Footprint, Inv, Close;
    ret := 0;
    if p.recvLen < PKT_MIN_LEN + HANDSHAKE_LEN {
      ret := -EBADMSG;
    } else if p.dataLen != HANDSHAKE_LEN {
      ret := -EBADMSG;
    } else if p.ptype != TCLI_PKT_HANDSHAKE {
      ret := -EBADMSG;
    } else if p.version.ver != VERSION.ver || p.version.patchLvl != VERSION.patchLvl
        || p.version.subLvl != VERSION.subLvl {
      ret := -EBADMSG;
    }
    if ret == -EBADMSG {
      assert !GoodHandshake(p);
      out := SendToClient(sess.dst, TSRV_PKT_HANDSHAKE_REJECT, env.reply);
      var bye;
      bye, notes := CloseUdpSession(st, sess, env.bye);
      return out + bye, 0, notes;
    }
    assert GoodHandshake(p);
    if env.reply < 0 {
      out, notes := CloseUdpSession(st, sess, env.bye);
      return out, env.reply, notes;
    }
    out := SendToClient(sess.dst, TSRV_PKT_HANDSHAKE, env.reply);
    notes := [HandshakeAccepted(sess.idx, Key(sess.srcAddr, sess.srcPort))];
  }

  /** `handle_new_client`. */
  method HandleNewClient(st: SrvUdpState, key: Key, p: CliPkt, env: Env)
    returns (out: seq<Sent>, ret: int, ghost notes: seq<Note>)
    requires st.Valid() && Inv(st.view) && Wf(st.view) && InRange(st.view) && Lookup(st.view, key).None?
    modifies st.Footprint()
    ensures st.Valid() && Inv(st.view) && unchanged(st.sessArr)
    ensures forall o :: o in st.Footprint() ==> o in old(st.Footprint()) || fresh(o)
    ensures Outcome(st.view, out, ret, notes) == NewClient(old(st.view), key, p, env)
  {
    ghost var v := st.view;
    AdmitInv(v, key, env.now, env.mallocOk);
    hide SrvUdpState.Valid, SrvUdpState.Footprint, Inv, Greet, InRange;
    if p.ptype == TCLI_PKT_TUN_DATA || p.ptype == TCLI_PKT_REQSYNC || p.ptype == TCLI_PKT_SYNC
        || p.ptype == TCLI_PKT_CLOSE {
      return [], 0, [];
    }
    var sess, err := st.CreateUdpSess(key, env.now, env.mallocOk);
    if sess == null {
      return [], if err == EAGAIN then 0 else -err, [];
    }
    st.SetDst(sess, key);
    assert st.view == Admit(v, key, env.now, env.mallocOk).0;
    out, ret, notes := HandleClientHandshake(st, sess, p, env);
  }

  /** `handle_clpkt_auth`. */
  method HandleClpktAuth(st: SrvUdpState, sess: UdpSess, p: CliPkt, env: Env)
    returns (out: seq<Sent>, ret: int, ghost notes: seq<Note>)
    requires st.Valid() && Inv(st.view) && sess.idx < st.maxConn && sess == st.sessArr[sess.idx]
    requires sess.idx < |st.view.slots| && st.view.slots[sess.idx].connected
    modifies st.Footprint()
    ensures st.Valid() && Inv(st.view) && unchanged(st.sessArr)
    ensures forall o :: o in st.Footprint() ==> o in old(st.Footprint()) || fresh(o)
    ensures sess.idx == old(sess.idx)
    ensures Outcome(st.view, out, ret, notes) == Auth(old(st.view), sess.idx, p, env)
  {
    ghost var v, idx := st.view, sess.idx;
    st.SlotAt(idx);
    st.FootprintHas();
    AuthInv(v, idx, p, env);
    hide SrvUdpState.Valid, SrvUdpState.Footprint, Inv, Close;
    if sess.isAuthenticated {
      return [], 0, [];
    }
    if env.authRes.None? {
      out := SendToClient(sess.dst, TSRV_PKT_AUTH_REJECT, env.reply);
      ret := if env.reply < 0 then env.reply else 0;
      var bye;
      bye, notes := CloseUdpSession(st, sess, env.bye);
      return out + bye, ret, notes;
    }
    if env.reply < 0 {
      out, notes := CloseUdpSession(st, sess, env.bye);
      return out, env.reply, notes;
    }
    out := SendToClient(sess.dst, TSRV_PKT_AUTH_OK, env.reply);
    notes := [AuthAccepted(idx, v.slots[idx].Endpoint(), UserOf(p.creds), PassOf(p.creds))];
    var iff := env.authRes.value;
    st.MarkAuthenticated(sess, iff, UserOf(p.creds));
    st.AddIpv4RouteMap(iff, sess.idx);
    ret := 0;
  }

  /** `__handle_event_from_udp`. */
  method DispatchPacket(st: SrvUdpState, sess: UdpSess, p: CliPkt, env: Env)
    returns (out: seq<Sent>, ret: int, ghost notes: seq<Note>)
    requires st.Valid() && Inv(st.view) && sess.idx < st.maxConn && sess == st.sessArr[sess.idx]
    requires sess.idx < |st.view.slots| && st.view.slots[sess.idx].connected
    modifies st.Footprint()
    ensures st.Valid() && Inv(st.view) && unchanged(st.sessArr)
    ensures forall o :: o in st.Footprint() ==> o in old(st.Footprint()) || fresh(o)
    ensures sess.idx == old(sess.idx)
    ensures Outcome(st.view, out, ret, notes) == Dispatch(old(st.view), sess.idx, p, env)
  {
    ghost var v, idx := st.view, sess.idx;
    st.SlotAt(idx);
    st.FootprintHas();
    TouchInv(v, idx, env.now);
    hide SrvUdpState.Valid, SrvUdpState.Footprint, Inv, Close, Auth, Touch;
    out, ret, notes := [], 0, [];
    if p.ptype == TCLI_PKT_HANDSHAKE {
    } else if p.ptype == TCLI_PKT_AUTH {
      out, ret, notes := HandleClpktAuth(st, sess, p, env);
    } else if p.ptype == TCLI_PKT_TUN_DATA {
      ret := TunData(p, env);
    } else if p.ptype == TCLI_PKT_REQSYNC {
      out := SendToClient(sess.dst, TSRV_PKT_SYNC, env.reply);
      ret := if env.reply < 0 then env.reply else 0;
      st.UpdateLastAct(sess, env.now);
    } else if p.ptype == TCLI_PKT_SYNC {
      st.UpdateLastAct(sess, env.now);
    } else if p.ptype == TCLI_PKT_CLOSE {
      out, notes := CloseUdpSession(st, sess, env.bye);
    } else {
      ret := -EBADMSG;
    }
  }

  /** `_handle_event_from_udp` for a session that lookup found. */
  method HandleKnownClient(st: SrvUdpState, sess: UdpSess, p: CliPkt, env: Env)
    returns (out: seq<Sent>, ret: int, ghost notes: seq<Note>)
    requires st.Valid() && Inv(st.view) && Wf(st.view) && sess.idx < st.maxConn && sess == st.sessArr[sess.idx]
    requires sess.idx < |st.view.slots| && st.view.slots[sess.idx].connected
    modifies st.Footprint()
    ensures st.Valid() && Inv(st.view) && unchanged(st.sessArr)
    ensures forall o :: o in st.Footprint() ==> o in old(st.Footprint()) || fresh(o)
    ensures Outcome(st.view, out, ret, notes) == KnownClient(old(st.view), old(sess.idx), p, env)
  {
    BadPacketUnchanged(st.view, sess.idx, p, env);
    hide SrvUdpState.Valid, SrvUdpState.Footprint, Inv, Wf, Close, Dispatch, Count;
    out, ret, notes := DispatchPacket(st, sess, p, env);
    if ret < 0 {
      if ret == -EBADMSG {
        out, notes := CloseUdpSession(st, sess, env.bye);
        ret := 0;
      }
      return;
    }
    out := CountPacket(st, sess, env, out, ret, notes);
  }

  lemma InvRange(e: Engine)
    requires Inv(e)
    ensures Wf(e) && InRange(e) && ChainsSound(e)
  {
  }

  /** `_handle_event_from_udp`: the whole step for one packet. */
  method HandleEventFromUdp(st: SrvUdpState, key: Key, p: CliPkt, env: Env)
    returns (out: seq<Sent>, ret: int, ghost notes: seq<Note>)
    requires st.Valid() && Inv(st.view)
    modifies st.Footprint()
    ensures st.Valid() && Inv(st.view) && unchanged(st.sessArr)
    ensures forall o :: o in st.Footprint() ==> o in old(st.Footprint()) || fresh(o)
    ensures Outcome(st.view, out, ret, notes) == HandlePacket(old(st.view), key, p, env)
  {
    hide SrvUdpState.Valid, SrvUdpState.Footprint, Inv, KnownClient, NewClient, InRange, ChainsSound, Wf, Lookup;
    InvRange(st.view);
    LookupSound(st.view, key);
    st.Sizes();
    var sess := st.LookupUdpSess(key);
    if sess == null {
      out, ret, notes := HandleNewClient(st, key, p, env);
    } else {
      out, ret, notes := HandleKnownClient(st, sess, p, env);
    }
  }

  /** The tail of `_handle_event_from_udp`: the loop counter and the periodic sync. */
  method CountPacket(st: SrvUdpState, sess: UdpSess, env: Env, sofar: seq<Sent>, ret: int, ghost notes: seq<Note>)
    returns (out: seq<Sent>)
    requires st.Valid() && Inv(st.view) && sess.idx < st.maxConn && sess == st.sessArr[sess.idx]
    requires sess.idx < |st.view.slots|
    modifies st.Footprint()
    ensures st.Valid() && Inv(st.view) && unchanged(st.sessArr) && st.Footprint() == old(st.Footprint())
    ensures sess.idx == old(sess.idx)
    ensures Count(Outcome(old(st.view), sofar, ret, notes), sess.idx, env) == Outcome(st.view, out, ret, notes)
  {
    ghost var v, idx := st.view, sess.idx;
    st.SlotAt(idx);
    st.FootprintHas();
    CountInv(Outcome(v, sofar, ret, notes), idx, env);
    hide SrvUdpState.Valid, SrvUdpState.Footprint, Inv;
    st.BumpLoopCounter(sess);
    out := sofar;
    if sess.loopC % 32 == 0 {
      st.SlotAt(idx);
      out := sofar + SendToClient(sess.dst, TSRV_PKT_SYNC, env.sync);
      st.UpdateLastAct(sess, env.now);
    }
  }

  // ------------------------------------------------------------------ zombie reaper and shutdown

  /** One turn of the reaper's loop: `zr_chk_auth` or `zr_chk_no_auth` on a connected slot. */
  method ZrCheck(st: SrvUdpState, idx: U16, now: int, bye: SendRet) returns (out: seq<Sent>, ghost notes: seq<Note>)
    requires st.Valid() && Inv(st.view) && Wf(st.view) && idx < st.maxConn == |st.view.slots|
    modifies st.Footprint()
    ensures st.Valid() && Inv(st.view) && Wf(st.view) && st.maxConn == |st.view.slots| && unchanged(st.sessArr)
    ensures forall o :: o in st.Footprint() ==> o in old(st.Footprint()) || fresh(o)
    ensures Outcome(st.view, out, 0, notes) == Reap(old(st.view), idx, now, bye)
  {
    st.SlotAt(idx);
    hide SrvUdpState.Valid, SrvUdpState.Footprint, Inv, Close;
    var sess := st.sessArr[idx];
    if !sess.isConnected {
      return [], [];
    }
    var diff := now - sess.lastAct;
    if sess.isAuthenticated {
      var maxDiff := UDP_SESS_TIMEOUT_AUTH;
      if diff > maxDiff {
        out, notes := CloseUdpSession(st, sess, bye);
        return;
      }
      var i := 0;
      if diff > maxDiff * 4 / 5 {
        i := 7;
      } else if diff > maxDiff * 3 / 5 {
        i := 5;
      } else if diff > maxDiff * 2 / 5 {
        i := 3;
      } else if diff > maxDiff * 1 / 5 {
        i := 1;
      }
      out := Repeat(Sent(sess.dst, TSRV_PKT_REQSYNC), i);
      notes := [];
    } else {
      if diff > UDP_SESS_TIMEOUT_NO_AUTH {
        out, notes := CloseUdpSession(st, sess, bye);
        return;
      }
      return [], [];
    }
  }

  /** `zombie_reaper_do_scan` at a fixed time. */
  method ZombieReaperDoScan(st: SrvUdpState, now: int, bye: seq<SendRet>)
      returns (out: seq<Sent>, ghost notes: seq<Note>)
    requires st.Valid() && Inv(st.view) && Wf(st.view) && |bye| == st.maxConn == |st.view.slots|
    modifies st.Footprint()
    ensures st.Valid() && Inv(st.view) && unchanged(st.sessArr)
    ensures Outcome(st.view, out, 0, notes) == Scan(old(st.view), now, bye)
  {
    ghost var v := st.view;
    assert st.nOnSess == v.online;
    hide SrvUdpState.Valid, SrvUdpState.Footprint, Inv, Wf, Reap, Chained;
    out, notes := [], [];
    if st.nOnSess == 0 {
      return;
    }
    assert ScanFrom(v, 0, now, bye).ret == 0;
    ChainedEnds([], [], ScanFrom(v, 0, now, bye));
    var i := 0;
    while i < st.maxConn
      invariant 0 <= i <= st.maxConn == |st.view.slots|
      invariant st.Valid() && Inv(st.view) && Wf(st.view) && unchanged(st.sessArr)
      invariant forall o :: o in st.Footprint() ==> o in old(st.Footprint()) || fresh(o)
      invariant ScanFrom(v, 0, now, bye) == Chained(out, notes, ScanFrom(st.view, i, now, bye))
    {
      var sent;
      ghost var closed;
      ghost var before := st.view;
      sent, closed := ZrCheck(st, i, now, bye[i]);
      ghost var rest := ScanFrom(st.view, i + 1, now, bye);
      assert ScanFrom(before, i, now, bye) == Outcome(rest.engine, sent + rest.out, 0, closed + rest.notes);
      ChainedStep(out, notes, sent, closed, rest);
      out, notes := out + sent, notes + closed;
      i := i + 1;
    }
    ChainedEnds(out, notes, Outcome(st.view, [], 0, []));
  }

  ghost function Chained(out: seq<Sent>, notes: seq<Note>, rest: Outcome): Outcome {
    Outcome(rest.engine, out + rest.out, 0, notes + rest.notes)
  }

  lemma ChainedEnds(out: seq<Sent>, notes: seq<Note>, o: Outcome)
    requires o.ret == 0
    ensures Chained([], [], o) == o
    ensures Chained(out, notes, Outcome(o.engine, [], 0, [])) == Outcome(o.engine, out, 0, notes)
  {
    assert [] + o.out == o.out && [] + o.notes == o.notes;
    assert out + [] == out && notes + [] == notes;
  }

  lemma ChainedStep(out: seq<Sent>, notes: seq<Note>, sent: seq<Sent>, closed: seq<Note>, rest: Outcome)
    ensures Chained(out, notes, Outcome(rest.engine, sent + rest.out, 0, closed + rest.notes))
            == Chained(out + sent, notes + closed, rest)
  {
    assert out + (sent + rest.out) == (out + sent) + rest.out;
    assert notes + (closed + rest.notes) == (notes + closed) + rest.notes;
  }

  method ShutdownOne(st: SrvUdpState, idx: U16, bye: SendRet) returns (out: seq<Sent>, ghost notes: seq<Note>)
    requires st.Valid() && Inv(st.view) && Wf(st.view) && idx < st.maxConn == |st.view.slots|
    modifies st.Footprint()
    ensures st.Valid() && Inv(st.view) && Wf(st.view) && st.maxConn == |st.view.slots| && unchanged(st.sessArr)
    ensures forall o :: o in st.Footprint() ==> o in old(st.Footprint()) || fresh(o)
    ensures Outcome(st.view, out, 0, notes) == CloseIfConnected(old(st.view), idx, bye)
  {
    st.SlotAt(idx);
    hide SrvUdpState.Valid, SrvUdpState.Footprint, Inv, Close;
    out, notes := [], [];
    if st.sessArr[idx].isConnected {
      out, notes := CloseUdpSession(st, st.sessArr[idx], bye);
    }
  }

  /** `close_client_sess`. */
  method CloseClientSess(st: SrvUdpState, bye: seq<SendRet>) returns (out: seq<Sent>, ghost notes: seq<Note>)
    requires st.Valid() && Inv(st.view) && Wf(st.view) && |bye| == st.maxConn == |st.view.slots|
    modifies st.Footprint()
    ensures st.Valid() && Inv(st.view) && unchanged(st.sessArr)
    ensures Outcome(st.view, out, 0, notes) == ShutdownFrom(old(st.view), 0, bye)
  {
    hide SrvUdpState.Valid, SrvUdpState.Footprint, Inv, Wf, CloseIfConnected, Chained;
    ghost var v := st.view;
    out, notes := [], [];
    assert ShutdownFrom(v, 0, bye).ret == 0;
    ChainedEnds([], [], ShutdownFrom(v, 0, bye));
    var i := 0;
    while i < st.maxConn
      invariant 0 <= i <= st.maxConn == |st.view.slots|
      invariant st.Valid() && Inv(st.view) && Wf(st.view) && unchanged(st.sessArr)
      invariant forall o :: o in st.Footprint() ==> o in old(st.Footprint()) || fresh(o)
      invariant ShutdownFrom(v, 0, bye) == Chained(out, notes, ShutdownFrom(st.view, i, bye))
    {
      var sent;
      ghost var closed;
      ghost var before := st.view;
      sent, closed := ShutdownOne(st, i, bye[i]);
      ghost var rest := ShutdownFrom(st.view, i + 1, bye);
      assert ShutdownFrom(before, i, bye) == Outcome(rest.engine, sent + rest.out, 0, closed + rest.notes);
      ChainedStep(out, notes, sent, closed, rest);
      out, notes := out + sent, notes + closed;
      i := i + 1;
    }
    ChainedEnds(out, notes, Outcome(st.view, [], 0, []));
  }

  // ------------------------------------------------------------------ packets from TUN

  /** `broadcast_packet`: returns the slots a send was attempted to. */
  method BroadcastPacket(st: SrvUdpState, rets: seq<SendRet>) returns (tried: seq<U16>, ret: int)
    requires st.Valid() && Wf(st.view) && |rets| == st.maxConn == |st.view.slots|
    ensures (tried, ret) == BroadcastFrom(st.view, 0, rets)
  {
    hide SrvUdpState.Valid, Wf;
    tried := [];
    assert [] + BroadcastFrom(st.view, 0, rets).0 == BroadcastFrom(st.view, 0, rets).0;
    var i: nat := 0;
    while i < st.maxConn
      invariant i <= st.maxConn
      invariant var (rest, r) := BroadcastFrom(st.view, i, rets); BroadcastFrom(st.view, 0, rets) == (tried + rest, r)
    {
      st.SlotAt(i);
      if st.sessArr[i].isAuthenticated {
        ghost var (rest, r) := BroadcastFrom(st.view, i + 1, rets);
        assert (tried + [i]) + rest == tried + ([i] + rest);
        tried := tried + [i];
        if rets[i] < 0 {
          return tried, rets[i];
        }
      }
      i := i + 1;
    }
    assert tried + [] == tried;
    ret := 0;
  }

  /** `_route_packet` for a packet read from TUN. */
  method RouteTunPacket(st: SrvUdpState, isV4: bool, daddr: U32, direct: SendRet, rets: seq<SendRet>)
    returns (tried: seq<U16>, ret: int)
    requires st.Valid() && Wf(st.view) && |rets| == st.maxConn == |st.view.slots|
    ensures (tried, ret) == RoutePacket(st.view, isV4, daddr, direct, rets)
  {
    hide SrvUdpState.Valid, BroadcastFrom;
    var prefix: seq<U16> := [];
    if isV4 {
      var find := st.GetIpv4RouteMap(daddr);
      if find >= 0 {
        if direct != -ENOENT {
          return [find], if direct < 0 then direct else 0;
        }
        prefix := [find];
      }
    }
    tried, ret := BroadcastPacket(st, rets);
    tried := prefix + tried;
  }

  // ------------------------------------------------------------------ runs

  /** One event on the objects. */
  method HandleEvent(st: SrvUdpState, ev: Event) returns (out: seq<Sent>)
    requires st.Valid() && Inv(st.view)
    modifies st.Footprint()
    ensures st.Valid() && Inv(st.view) && unchanged(st.sessArr)
    ensures forall o :: o in st.Footprint() ==> o in old(st.Footprint()) || fresh(o)
    ensures st.view == Step(old(st.view), ev).engine && out == Step(old(st.view), ev).out
  {
    hide SrvUdpState.Valid, SrvUdpState.Footprint, Inv, HandlePacket, Reap, CloseIfConnected;
    InvRange(st.view);
    st.Sizes();
    out := [];
    match ev {
      case Packet(key, p, env) =>
        var ret;
        ghost var notes;
        out, ret, notes := HandleEventFromUdp(st, key, p, env);
      case ReaperCheck(idx, now, bye) =>
        if idx < st.maxConn {
          ghost var notes;
          out, notes := ZrCheck(st, idx, now, bye);
        }
      case ShutdownClose(idx, bye) =>
        if idx < st.maxConn {
          ghost var notes;
          out, notes := ShutdownOne(st, idx, bye);
        }
    }
  }

  /** Any sequence of events on a server that has just started takes the objects to the state that the same
      run of the engine ends in, so what holds of every reachable engine state holds of the objects. */
  method Serve(capacity: U16, evs: seq<Event>) returns (st: SrvUdpState)
    ensures st.Valid() && fresh(st) && st.view == Run(capacity, evs)[|evs|]
  {
    hide SrvUdpState.Valid, SrvUdpState.Footprint, Inv, Step, States;
    st := SrvUdpState.Start(capacity);
    InitInv(capacity);
    RunStarts(capacity, evs);
    var k := 0;
    while k < |evs|
      invariant 0 <= k <= |evs| && st.Valid() && Inv(st.view)
      invariant fresh(st) && forall o :: o in st.Footprint() ==> fresh(o)
      invariant st.view == Run(capacity, evs)[k]
    {
      StatesStep(Init(capacity), evs, k);
      var out := HandleEvent(st, evs[k]);
      k := k + 1;
    }
  }

  lemma RunStarts(capacity: U16, evs: seq<Event>)
    ensures Run(capacity, evs)[0] == Init(capacity)
  {
    InitInv(capacity);
  }
}
