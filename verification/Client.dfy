/**
 The UDP client's handshake and authentication: response checks and the two retry loops.
 */
module Client {
  import opened AuthPacket
  import opened Common
  import opened SessionEngine

  const AUTH_RES_LEN: nat := 84
  const HREJECT_LEN: nat := 512

  const MAX_TRY: nat := 5
  const MAX_RESET_TRY: nat := 3

  /** A packet from the server as the client receives it. */
  datatype SrvPkt = SrvPkt(ptype: U8, dataLen: U16, recvLen: nat, version: Version)

  /** The packet `srv_pprep*` builds for each fixed-size type. */
  function Prepared(ptype: U8): SrvPkt {
    var len := if ptype == TSRV_PKT_HANDSHAKE then HANDSHAKE_LEN
               else if ptype == TSRV_PKT_HANDSHAKE_REJECT then HREJECT_LEN
               else if ptype == TSRV_PKT_AUTH_OK then AUTH_RES_LEN
               else 0;
    SrvPkt(ptype, len, len + PKT_MIN_LEN, VERSION)
  }

  /** `cli_pprep_handshake` and `cli_pprep_auth`. */
  function HandshakePkt(): CliPkt {
    CliPkt(TCLI_PKT_HANDSHAKE, HANDSHAKE_LEN, HANDSHAKE_LEN + PKT_MIN_LEN, VERSION, Fields("", ""))
  }

  function AuthPkt(user: Text, pass: Text): CliPkt {
    CliPkt(TCLI_PKT_AUTH, AUTH_LEN, AUTH_LEN + PKT_MIN_LEN, Version(0, 0, 0), Fields(user, pass))
  }

  function ClosePkt(): CliPkt {
    CliPkt(TCLI_PKT_CLOSE, 0, PKT_MIN_LEN, Version(0, 0, 0), Fields("", ""))
  }

  /** `server_handshake_chk`. */
  function HandshakeChk(p: SrvPkt): int {
    if p.ptype == TSRV_PKT_CLOSE then -ECONNRESET
    else if p.recvLen < PKT_MIN_LEN + HANDSHAKE_LEN then -EBADMSG
    else if p.dataLen != HANDSHAKE_LEN then -EBADMSG
    else if p.ptype != TSRV_PKT_HANDSHAKE then -EBADMSG
    else if p.version != VERSION then -EBADMSG
    else 0
  }

  /** `server_auth_res_chk`. */
  function AuthResChk(p: SrvPkt): int {
    if p.ptype == TSRV_PKT_CLOSE then -ECONNRESET
    else if p.ptype == TSRV_PKT_AUTH_REJECT then -EBADMSG
    else if p.ptype != TSRV_PKT_AUTH_OK then -EBADMSG
    else if p.recvLen < PKT_MIN_LEN + AUTH_RES_LEN then -EBADMSG
    else if p.dataLen != AUTH_RES_LEN then -EBADMSG
    else 0
  }

  /** Of the packets the server prepares, the handshake check accepts the handshake reply only, the
      auth check the AUTH_OK packet only; and the server accepts the client's handshake packet. */
  lemma ChecksAgree(ptype: U8)
    ensures HandshakeChk(Prepared(ptype)) == 0 <==> ptype == TSRV_PKT_HANDSHAKE
    ensures AuthResChk(Prepared(ptype)) == 0 <==> ptype == TSRV_PKT_AUTH_OK
    ensures HandshakeChk(Prepared(ptype)) == -ECONNRESET <==> ptype == TSRV_PKT_CLOSE
    ensures GoodHandshake(HandshakePkt())
    ensures !SkipsSessionCreation(HandshakePkt()) && SkipsSessionCreation(ClosePkt())
  {
  }

  /** Both checks answer a close packet with -ECONNRESET and else accept exactly whole packets of their type: a
      handshake of 96 bytes and version 0.1.2, and an AUTH_OK of 84 bytes. */
  lemma ChecksExactly(p: SrvPkt)
    ensures HandshakeChk(p) == -ECONNRESET <==> p.ptype == TSRV_PKT_CLOSE
    ensures HandshakeChk(p) == 0 <==>
            p.ptype == TSRV_PKT_HANDSHAKE && p.recvLen >= 100 && p.dataLen == 96 && p.version == Version(0, 1, 2)
    ensures AuthResChk(p) == -ECONNRESET <==> p.ptype == TSRV_PKT_CLOSE
    ensures AuthResChk(p) == 0 <==> p.ptype == TSRV_PKT_AUTH_OK && p.recvLen >= 88 && p.dataLen == 84
    ensures HandshakeChk(p) in {0, -ECONNRESET, -EBADMSG} && AuthResChk(p) in {0, -ECONNRESET, -EBADMSG}
    ensures forall up :: AuthRet(Got(p), up) == if AuthResChk(p) == 0 && !up then -ENETDOWN else AuthResChk(p)
  {
  }

  /** What one wait for a response yields: an error of poll or recvfrom, or a packet. */
  datatype Recv = Failure(err: int) | Got(pkt: SrvPkt)

  function HandshakeRet(r: Recv): int {
    match r case Failure(err) => err case Got(p) => HandshakeChk(p)
  }

  /** `wait_for_auth_response`; `ifaceUp` tells whether the interface could be brought up. */
  function AuthRet(r: Recv, ifaceUp: bool): int {
    match r
    case Failure(err) => err
    case Got(p) => if AuthResChk(p) == 0 then (if ifaceUp then 0 else -ENETDOWN) else AuthResChk(p)
  }

  /** Whether the handshake loop goes round again after its `tries`-th request. */
  predicate HandshakeRetries(ret: int, tries: nat) {
    (ret == -ETIMEDOUT && tries < MAX_TRY) || (ret == -ECONNRESET && tries < MAX_RESET_TRY)
  }

  /** Whether the auth loop goes round again after its `tries`-th request. */
  predicate AuthRetries(ret: int, tries: nat) {
    ret == -ETIMEDOUT && tries <= MAX_TRY
  }

  /** Answers of the environment to one turn of a retry loop. */
  datatype Turn = Turn(send: int, recv: Recv, ifaceUp: bool)

  /** After `sent` requests the handshake loop ends with `ret`: all waits before the last were retried, and
      then a send failed or the last wait was not to be retried. */
  predicate HandshakeOutcome(turns: seq<Turn>, ret: int, sent: nat)
    requires |turns| == MAX_TRY
  {
    && sent <= MAX_TRY
    && (forall k :: 0 <= k < sent ==> turns[k].send >= 0)
    && (forall k :: 0 <= k < sent - 1 ==> HandshakeRetries(HandshakeRet(turns[k].recv), k + 1))
    && (|| (sent < MAX_TRY && turns[sent].send < 0 && ret == turns[sent].send
            && (sent > 0 ==> HandshakeRetries(HandshakeRet(turns[sent - 1].recv), sent)))
        || (sent > 0 && ret == HandshakeRet(turns[sent - 1].recv) && !HandshakeRetries(ret, sent)))
  }

  /** The same for the auth loop. */
  predicate AuthOutcome(turns: seq<Turn>, ret: int, sent: nat)
    requires |turns| == MAX_TRY + 1
  {
    && sent <= MAX_TRY + 1
    && (forall k :: 0 <= k < sent ==> turns[k].send >= 0)
    && (forall k :: 0 <= k < sent - 1 ==> AuthRetries(AuthRet(turns[k].recv, turns[k].ifaceUp), k + 1))
    && (|| (sent <= MAX_TRY && turns[sent].send < 0 && ret == turns[sent].send
            && (sent > 0 ==> AuthRetries(AuthRet(turns[sent - 1].recv, turns[sent - 1].ifaceUp), sent)))
        || (sent > 0 && ret == AuthRet(turns[sent - 1].recv, turns[sent - 1].ifaceUp) && !AuthRetries(ret, sent)))
  }

  /** The handshake loop in numbers: it ends with a failed send, or with the last answer, which is a timeout only
      after five requests and a reset only after three. It went on only after timeouts and early resets. */
  lemma HandshakeInNumbers(turns: seq<Turn>, ret: int, sent: nat)
    requires |turns| == MAX_TRY && HandshakeOutcome(turns, ret, sent)
    ensures sent <= 5 && forall k :: 0 <= k < sent - 1 ==>
              var answer := HandshakeRet(turns[k].recv); answer == -ETIMEDOUT || (answer == -ECONNRESET && k < 2)
    ensures || (sent < 5 && turns[sent].send < 0 && ret == turns[sent].send)
            || (sent > 0 && ret == HandshakeRet(turns[sent - 1].recv)
                && (ret == -ETIMEDOUT ==> sent == 5) && (ret == -ECONNRESET ==> sent >= 3))
  {
  }

  /** The login loop ends with a failed send, or with the last answer, which is a timeout only after six requests.
      It went on only after timeouts. */
  lemma AuthInNumbers(turns: seq<Turn>, ret: int, sent: nat)
    requires |turns| == MAX_TRY + 1 && AuthOutcome(turns, ret, sent)
    ensures sent <= 6 && forall k :: 0 <= k < sent - 1 ==> AuthRet(turns[k].recv, turns[k].ifaceUp) == -ETIMEDOUT
    ensures || (sent < 6 && turns[sent].send < 0 && ret == turns[sent].send)
            || (sent > 0 && ret == AuthRet(turns[sent - 1].recv, turns[sent - 1].ifaceUp)
                && (ret == -ETIMEDOUT ==> sent == 6))
  {
  }

  /** `do_handshake`: `sent` counts the handshake requests; at most five are ever made. */
  method DoHandshake(turns: seq<Turn>) returns (ret: int, sent: nat)
    requires |turns| == MAX_TRY
    ensures HandshakeOutcome(turns, ret, sent)
  {
    var tryCount: nat := 0;
    while true
      invariant tryCount < MAX_TRY
      invariant forall k :: 0 <= k < tryCount ==>
                turns[k].send >= 0 && HandshakeRetries(HandshakeRet(turns[k].recv), k + 1)
      decreases MAX_TRY - tryCount
    {
      if turns[tryCount].send < 0 {
        return turns[tryCount].send, tryCount;
      }
      tryCount := tryCount + 1;
      ret := HandshakeRet(turns[tryCount - 1].recv);
      if ret == -ETIMEDOUT && tryCount < MAX_TRY {
        continue;
      }
      if ret == -ECONNRESET {
        if tryCount >= MAX_RESET_TRY {
          return ret, tryCount;
        }
        continue;
      }
      return ret, tryCount;
    }
  }

  /** `do_auth`: at most six auth requests are ever made. */
  method DoAuth(turns: seq<Turn>) returns (ret: int, sent: nat)
    requires |turns| == MAX_TRY + 1
    ensures AuthOutcome(turns, ret, sent)
  {
    var tryCount: nat := 0;
    while true
      invariant tryCount <= MAX_TRY
      invariant forall k :: 0 <= k < tryCount ==>
                  turns[k].send >= 0 && AuthRetries(AuthRet(turns[k].recv, turns[k].ifaceUp), k + 1)
      decreases MAX_TRY - tryCount
    {
      if turns[tryCount].send < 0 {
        return turns[tryCount].send, tryCount;
      }
      ret := AuthRet(turns[tryCount].recv, turns[tryCount].ifaceUp);
      if ret == -ETIMEDOUT {
        tryCount := tryCount + 1;
        if tryCount - 1 < MAX_TRY {
          continue;
        }
        return ret, tryCount;
      }
      return ret, tryCount + 1;
    }
  }
}
