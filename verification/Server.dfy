/**
 The UDP server as it runs: slot array, free stack, hash table, route table and counter updated
 in place. Every method is proved to compute the corresponding operation of `SessionEngine`.
 */
module Server {
  import opened Common
  import opened SessionEngine
  import opened SessionMap
  import opened SessionProofs
  import opened ServerSafety
  import opened SlotStack

  /** The first chain member with the key is what the engine's lookup finds. */
  lemma {:induction false} FindFirst(e: Engine, chain: seq<U16>, key: Key, k: nat)
    requires forall j :: 0 <= j < |chain| ==> chain[j] < |e.slots|
    requires k <= |chain|
    requires forall j :: 0 <= j < k ==> e.slots[chain[j]].Endpoint() != key
    requires k < |chain| ==> e.slots[chain[k]].Endpoint() == key
    ensures Find(e, chain, key) == if k < |chain| then Some(chain[k]) else None
  {
    if k > 0 {
      FindFirst(e, chain[1..], key, k - 1);
    }
  }

  lemma HeadTail<T>(s: seq<T>)
    requires s != []
    ensures [s[0]] + s[1..] == s
  {
  }

  lemma UpdateTwice<T>(s: seq<T>, i: nat, a: T, b: T)
    requires i < |s|
    ensures s[i := a][i := b] == s[i := b]
  {
  }

  lemma CreateInRange(e: Engine, key: Key, now: int, mallocOk: bool)
    requires Wf(e) && InRange(e)
    ensures Wf(Create(e, key, now, mallocOk).0) && InRange(Create(e, key, now, mallocOk).0)
  {
  }

  /** State after a free slot has been taken for `key` and put into its chain, if that worked. */
  ghost function Placed(v: Engine, key: Key, linked: bool): Engine
    requires Wf(v) && InRange(v) && v.free != []
  {
    var idx, b := v.free[0], Cell(key.addr);
    v.(free := v.free[1..],
       slots := v.slots[idx := v.slots[idx].(srcAddr := key.addr, srcPort := key.port)],
       chains := if linked then v.chains[b := v.chains[b] + [idx]] else v.chains)
  }

  ghost function Connected(v: Engine, idx: U16, now: int): Engine
    requires idx < |v.slots|
  {
    v.(slots := v.slots[idx := v.slots[idx].(lastAct := now, connected := true)])
  }

  lemma CreateOutcome(v: Engine, key: Key, now: int, mallocOk: bool)
    requires Wf(v) && InRange(v)
    ensures v.free == [] ==> Create(v, key, now, mallocOk) == (v, SlotsFull)
    ensures v.free != [] ==> Create(v, key, now, mallocOk).1
                             == if v.chains[Cell(key.addr)] == [] || mallocOk then Created(v.free[0]) else NoMemory
    ensures v.free != [] ==> |Placed(v, key, false).free| < |v.free|
    ensures v.free != [] ==> forall linked ::
              |Placed(v, key, linked).slots| == |v.slots| && Placed(v, key, linked).online == v.online
  {
  }

  /** State after a session's slot is given back and its bucket removed. */
  ghost function Vacated(v: Engine, idx: U16): Engine
    requires Wf(v) && idx < |v.slots|
  {
    var b := Cell(v.slots[idx].srcAddr);
    v.(free := [idx] + v.free,
       chains := v.chains[b := Without<U16>(v.chains[b], idx)],
       slots := v.slots[idx := BLANK])
  }

  lemma DeleteSteps(v: Engine, idx: U16)
    requires Inv(v) && idx < |v.slots| && v.slots[idx].connected
    ensures |v.free| < |v.slots| && NoDup<U16>(v.chains[Cell(v.slots[idx].srcAddr)])
    ensures idx in v.chains[Cell(v.slots[idx].srcAddr)]
    ensures Delete(v, idx) == Vacated(v, idx).(online := (v.online - 1) % 0x1_0000)
    ensures Wf(Delete(v, idx)) && InRange(Delete(v, idx)) && Inv(Delete(v, idx))
  {
    DeleteNeverFindsStackFull(v, idx);
    DeleteInv(v, idx);
  }

  lemma PlacedConnected(v: Engine, key: Key, now: int, mallocOk: bool)
    requires Wf(v) && InRange(v) && v.free != []
    requires v.chains[Cell(key.addr)] == [] || mallocOk
    ensures Create(v, key, now, mallocOk).0
            == Connected(Placed(v, key, true), v.free[0], now).(online := (v.online + 1) % 0x1_0000)
  {
    hide Cell;
    var idx := v.free[0];
    var claimed := v.slots[idx].(srcAddr := key.addr, srcPort := key.port);
    UpdateTwice(v.slots, idx, claimed, claimed.(lastAct := now, connected := true));
  }

  lemma PlacedRolledBack(v: Engine, key: Key, now: int)
    requires Wf(v) && InRange(v) && v.free != [] && v.chains[Cell(key.addr)] != []
    ensures var p := Placed(v, key, false); Create(v, key, now, false).0 == p.(free := [v.free[0]] + p.free)
  {
    hide Cell;
    HeadTail(v.free);
  }

  /** `init_udp_session_array`. */
  method InitSessionArray(capacity: U16) returns (arr: array<UdpSess>)
    ensures fresh(arr) && arr.Length == capacity
    ensures forall j :: 0 <= j < capacity ==> fresh(arr[j]) && arr[j].Value() == BLANK && arr[j].idx == j
  {
    var spare := new UdpSess(0);
    arr := new UdpSess[capacity](_ => spare);
    var i: nat := 0;
    while i < capacity
      invariant i <= capacity
      invariant forall j :: 0 <= j < i ==> fresh(arr[j]) && arr[j].Value() == BLANK && arr[j].idx == j
    {
      arr[i] := new UdpSess(i);
      i := i + 1;
    }
  }

  /** `init_udp_session_stack`: pushes every index, the highest first. */
  method InitSessionStack(capacity: U16) returns (st: BtStack)
    ensures fresh(st) && fresh(st.arr) && st.Valid() && st.maxSp == capacity
    ensures st.Contents() == Init(capacity).free
  {
    st := new BtStack(capacity);
    var i: nat := capacity;
    while i > 0
      invariant i <= capacity && fresh(st) && fresh(st.arr) && st.Valid() && st.maxSp == capacity
      invariant |st.Contents()| == capacity - i
      invariant forall j :: 0 <= j < capacity - i ==> st.Contents()[j] == i + j
    {
      i := i - 1;
      var tmp := st.Push(i);
    }
  }

  lemma InitFacts(maxConn: U16)
    ensures var e := Init(maxConn);
            && |e.slots| == maxConn && (forall i :: 0 <= i < maxConn ==> e.slots[i] == BLANK)
            && |e.chains| == CELLS && (forall b :: 0 <= b < CELLS ==> e.chains[b] == [])
            && |e.routes| == CELLS && (forall b :: 0 <= b < CELLS ==> e.routes[b] == 0)
            && e.online == 0
  {
  }

  class SrvUdpState {
    const maxConn: U16
    const sessArr: array<UdpSess>
    const stk: BtStack
    const sessMap: Table
    const ipv4Map: array<U16>
    var nOnSess: U16
    ghost var view: Engine

    /** The hash chains hold these slots. */
    ghost predicate ChainsAre(chains: seq<seq<U16>>)
      reads sessArr, sessMap
    {
      && |sessMap.chains| == CELLS == |chains|
      && (forall b :: 0 <= b < CELLS ==> |sessMap.chains[b]| == |chains[b]|)
      && (forall b, k :: 0 <= b < CELLS && 0 <= k < |chains[b]| ==>
            chains[b][k] < sessArr.Length && sessMap.chains[b][k] == sessArr[chains[b][k]])
    }

    ghost predicate SlotsAre(slots: seq<Slot>)
      reads sessArr, sessArr[..]
    {
      && sessArr.Length == maxConn == |slots|
      && (forall i :: 0 <= i < maxConn ==> sessArr[i].Value() == slots[i] && sessArr[i].idx == i)
    }

    ghost predicate FreeIs(free: seq<U16>)
      reads stk, stk.arr
    {
      stk.Valid() && stk.maxSp == maxConn && stk.Contents() == free
    }

    ghost predicate RoutesAre(routes: seq<U16>)
      reads ipv4Map
    {
      ipv4Map != stk.arr && ipv4Map.Length == CELLS && ipv4Map[..] == routes
    }

    /** The table's buckets are none of the other objects. */
    ghost predicate Separate()
      reads sessArr, sessMap
    {
      && {this, stk, stk.arr, ipv4Map, sessArr, sessMap} !! sessMap.repr
      && forall i :: 0 <= i < sessArr.Length ==> sessArr[i] !in sessMap.repr
    }

    /** The objects hold the slots, free stack, chains and routes of `v`. */
    ghost predicate Matches(v: Engine)
      reads sessArr, sessArr[..], stk, stk.arr, sessMap, sessMap.heads, sessMap.repr, ipv4Map
    {
      && Separate()
      && SlotsAre(v.slots)
      && FreeIs(v.free)
      && sessMap.Valid() && ChainsAre(v.chains)
      && RoutesAre(v.routes)
    }

    ghost predicate Valid()
      reads this, sessArr, sessArr[..], stk, stk.arr, sessMap, sessMap.heads, sessMap.repr, ipv4Map
    {
      && Matches(view)
      && nOnSess == view.online
      && Wf(view) && InRange(view)
    }

    ghost function SlotObjects(): set<object>
      reads sessArr
    {
      set s | s in sessArr[..]
    }

    ghost function Footprint(): set<object>
      reads sessArr, sessMap
    {
      {this, stk, stk.arr, sessMap, ipv4Map} + sessMap.repr + SlotObjects()
    }

    lemma Sizes()
      requires Valid()
      ensures sessArr.Length == maxConn == |view.slots| && view.online == nOnSess
    {
    }

    lemma FootprintHas()
      ensures {this, stk, stk.arr, sessMap, ipv4Map} <= Footprint() && sessMap.repr <= Footprint()
      ensures forall i :: 0 <= i < sessArr.Length ==> sessArr[i] in Footprint()
    {
    }

    /** A server over tables that have just been initialised. */
    constructor (capacity: U16, slots: array<UdpSess>, table: Table, freeStack: BtStack, routes: array<U16>)
      requires slots.Length == capacity
      requires forall j :: 0 <= j < capacity ==>
                slots[j].Value() == BLANK && slots[j].idx == j && slots[j] !in table.repr
      requires table.Valid() && table.chains == seq(CELLS, i => [])
      requires {table, slots, freeStack, freeStack.arr, routes} !! table.repr && routes != freeStack.arr
      requires freeStack.Valid() && freeStack.maxSp == capacity && freeStack.Contents() == Init(capacity).free
      requires routes.Length == CELLS && routes[..] == Init(capacity).routes
      ensures Valid() && view == Init(capacity) && Inv(view)
      ensures maxConn == capacity && sessArr == slots && sessMap == table && stk == freeStack && ipv4Map == routes
    {
      maxConn, nOnSess, view := capacity, 0, Init(capacity);
      sessArr, sessMap, stk, ipv4Map := slots, table, freeStack, routes;
      new;
      InitInv(capacity);
      InitFacts(capacity);
      hide Init, Inv, Table.Valid, UdpSess.Value, Cell;
    }

    /** `teavpn2_server_udp_run` up to the event loop: the tables in their order of initialisation. */
    static method Start(capacity: U16) returns (s: SrvUdpState)
      ensures fresh(s) && s.Valid() && s.view == Init(capacity) && Inv(s.view) && s.maxConn == capacity
      ensures forall o :: o in s.Footprint() ==> fresh(o)
    {
      InitFacts(capacity);
      hide Table.Valid, UdpSess.Value, Inv, SrvUdpState.Valid, Init;
      var slots := InitSessionArray(capacity);
      var table := new Table();
      assert forall j :: 0 <= j < capacity ==> slots[j] !in table.repr;
      var freeStack := InitSessionStack(capacity);
      var routes := new U16[CELLS](_ => 0);
      assert routes[..] == Init(capacity).routes;
      s := new SrvUdpState(capacity, slots, table, freeStack, routes);
      assert forall o :: o in s.SlotObjects() ==> exists j :: 0 <= j < capacity && o == slots[j];
    }

    // ---- single in-place updates

    method PopSlot(ghost v: Engine) returns (ret: int)
      requires Matches(v)
      modifies stk
      ensures unchanged(this) && unchanged(sessArr) && unchanged(sessMap)
      ensures |v.free| <= maxConn
      ensures if v.free == [] then ret == -1 && Matches(v) else ret == v.free[0] && Matches(v.(free := v.free[1..]))
    {
      hide Table.Valid, SlotsAre, ChainsAre;
      ret := stk.Pop();
      assert ret >= 0 ==> stk.Contents() == v.free[1..];
    }

    method PushSlot(n: U16, ghost v: Engine) returns (ret: int)
      requires Matches(v)
      modifies stk, stk.arr
      ensures unchanged(this) && unchanged(sessArr) && unchanged(sessMap)
      ensures if |v.free| < maxConn then ret == n && Matches(v.(free := [n] + v.free)) else ret == -1 && Matches(v)
    {
      hide Table.Valid, SlotsAre, ChainsAre;
      ret := stk.Push(n);
    }

    method Claim(sess: UdpSess, key: Key, ghost v: Engine)
      requires Matches(v) && sess.idx < maxConn && sess == sessArr[sess.idx]
      modifies sess
      ensures unchanged(this) && unchanged(sessArr) && unchanged(sessMap)
      ensures sess.idx == old(sess.idx)
      ensures Matches(v.(slots := v.slots[sess.idx := v.slots[sess.idx].(srcAddr := key.addr, srcPort := key.port)]))
    {
      hide Table.Valid, ChainsAre, FreeIs, RoutesAre;
      sess.srcAddr := key.addr;
      sess.srcPort := key.port;
    }

    method MarkConnected(sess: UdpSess, now: int, ghost v: Engine)
      requires Matches(v) && sess.idx < maxConn && sess == sessArr[sess.idx]
      modifies sess
      ensures unchanged(this) && unchanged(sessArr) && unchanged(sessMap)
      ensures sess.idx == old(sess.idx)
      ensures sess.idx < |v.slots| && Matches(Connected(v, sess.idx, now))
    {
      hide Table.Valid, ChainsAre, FreeIs, RoutesAre;
      sess.lastAct := now;
      sess.isConnected := true;
    }

    method ResetSlot(sess: UdpSess, ghost v: Engine)
      requires Matches(v) && sess.idx < maxConn && sess == sessArr[sess.idx]
      modifies sess
      ensures unchanged(this) && unchanged(sessArr) && unchanged(sessMap)
      ensures sess.idx == old(sess.idx)
      ensures Matches(v.(slots := v.slots[sess.idx := BLANK]))
    {
      hide Table.Valid, ChainsAre, FreeIs, RoutesAre;
      sess.Reset(sess.idx);
    }

    /** The atomic update of the counter, recording the state the objects now hold. */
    method AddOnline(delta: int, ghost v: Engine)
      requires Matches(v)
      modifies this
      ensures unchanged(sessArr) && unchanged(sessMap)
      ensures view == v.(online := (old(nOnSess) + delta) % 0x1_0000)
      ensures nOnSess == view.online && Matches(view)
    {
      hide Table.Valid, SlotsAre, ChainsAre, FreeIs, RoutesAre;
      nOnSess := (nOnSess + delta) % 0x1_0000;
      view := v.(online := nOnSess);
    }

    ghost method Record(v: Engine)
      requires Matches(v) && v.online == nOnSess
      modifies this`view
      ensures unchanged(sessArr) && unchanged(sessMap)
      ensures view == v && nOnSess == view.online && Matches(view)
    {
      hide Table.Valid, SlotsAre, ChainsAre, FreeIs, RoutesAre;
      view := v;
    }

    /** `map_insert_udp_sess`. */
    method MapInsert(addr: U32, sess: UdpSess, mallocOk: bool, ghost idx: U16, ghost v: Engine) returns (ok: bool)
      requires Matches(v) && idx < maxConn && sess == sessArr[idx]
      modifies sessMap, sessMap.repr
      ensures (forall o :: o in sessMap.repr ==> o in old(sessMap.repr) || fresh(o))
      ensures unchanged(this) && unchanged(sess) && unchanged(sessArr)
      ensures |v.chains| == CELLS && (ok <==> v.chains[Cell(addr)] == [] || mallocOk)
      ensures Matches(if ok then v.(chains := v.chains[Cell(addr) := v.chains[Cell(addr)] + [idx]]) else v)
    {
      hide Table.Valid, Cell, FreeIs, RoutesAre;
      ok := sessMap.Insert(addr, sess, mallocOk);
    }

    /** `remove_sess_from_bkt`. */
    method MapRemove(sess: UdpSess, ghost v: Engine) returns (ok: bool)
      requires Matches(v) && sess.idx < maxConn && sess == sessArr[sess.idx]
      requires |v.chains| == CELLS && NoDup<U16>(v.chains[Cell(sess.srcAddr)])
      modifies sessMap, sessMap.repr
      ensures (forall o :: o in sessMap.repr ==> o in old(sessMap.repr) || fresh(o))
      ensures unchanged(this) && unchanged(sess) && unchanged(sessArr)
      ensures ok <==> sess.idx in v.chains[Cell(sess.srcAddr)]
      ensures var c := Cell(sess.srcAddr); Matches(v.(chains := v.chains[c := Without<U16>(v.chains[c], sess.idx)]))
    {
      hide Table.Valid, Cell, FreeIs, RoutesAre;
      ghost var b := Cell(sess.srcAddr);
      WithoutMapped(sessMap.chains[b], v.chains[b], sess.idx);
      ok := sessMap.Remove(sess);
    }

    /** Removing a session from its chain removes its slot number from the chain of numbers. */
    lemma {:induction false} WithoutMapped(es: seq<UdpSess>, chain: seq<U16>, idx: U16)
      requires |es| == |chain| && idx < sessArr.Length
      requires forall k :: 0 <= k < |chain| ==> chain[k] < sessArr.Length && es[k] == sessArr[chain[k]]
      requires forall i, j :: 0 <= i < j < sessArr.Length ==> sessArr[i] != sessArr[j]
      ensures var s := sessArr[idx];
              && (s in es <==> idx in chain)
              && |Without(es, s)| == |Without<U16>(chain, idx)|
              && forall k :: 0 <= k < |Without<U16>(chain, idx)| ==>
                   Without<U16>(chain, idx)[k] < sessArr.Length
                       && Without(es, s)[k] == sessArr[Without<U16>(chain, idx)[k]]
    {
      if es != [] {
        WithoutMapped(es[1..], chain[1..], idx);
        assert es == [es[0]] + es[1..] && chain == [chain[0]] + chain[1..];
      }
    }

    // ---- the table operations

    /** First half of `create_udp_sess`: pop a slot, store its key, insert it into the map. */
    method PlaceSess(key: Key, mallocOk: bool) returns (ret: UdpSess?, ok: bool)
      requires Valid()
      modifies Footprint()
      ensures unchanged(this) && unchanged(sessArr)
      ensures forall o :: o in Footprint() ==> o in old(Footprint()) || fresh(o)
      ensures |view.free| <= maxConn
      ensures ret == null <==> view.free == []
      ensures ret == null ==> Matches(view)
      ensures view.free != [] ==>
                && view.free[0] < maxConn && ret == sessArr[view.free[0]] && ret.idx == view.free[0]
                && (ok <==> view.chains[Cell(key.addr)] == [] || mallocOk)
                && Matches(Placed(view, key, ok))
    {
      assert sessArr.Length == maxConn == |view.slots|;
      assert forall i :: 0 <= i < maxConn ==> sessArr[i].idx == i;
      FootprintHas();
      hide Matches, Cell, SlotObjects;
      ghost var v := view;
      var popped := PopSlot(v);
      if popped == -1 {
        return null, false;
      }
      var idx: U16 := popped;
      ret := sessArr[idx];
      ghost var v1 := v.(free := v.free[1..]);
      Claim(ret, key, v1);
      ghost var v2 := v1.(slots := v.slots[idx := v.slots[idx].(srcAddr := key.addr, srcPort := key.port)]);
      ok := MapInsert(key.addr, ret, mallocOk, idx, v2);
    }

    /** What `create_udp_sess` does when the map has no memory for a bucket. */
    method Rollback(idx: U16, ghost v: Engine, ghost target: Engine)
      requires Matches(v) && |v.free| < maxConn
      requires target == v.(free := [idx] + v.free) && target.online == nOnSess
      modifies this`view, stk, stk.arr
      ensures unchanged(sessArr) && unchanged(sessMap)
      ensures view == target && nOnSess == view.online && Matches(view)
    {
      hide Matches;
      var pushed := PushSlot(idx, v);
      Record(target);
    }

    /** Second half of `create_udp_sess`: the session goes live. */
    method Activate(sess: UdpSess, now: int, ghost v: Engine, ghost target: Engine)
      requires Matches(v) && sess.idx < maxConn && sess == sessArr[sess.idx] && sess.idx < |v.slots|
      requires target == Connected(v, sess.idx, now).(online := (nOnSess + 1) % 0x1_0000)
      modifies this, sess
      ensures unchanged(sessArr) && unchanged(sessMap) && sess.idx == old(sess.idx)
      ensures view == target && nOnSess == view.online && Matches(view)
    {
      hide Matches, Connected;
      MarkConnected(sess, now, v);
      AddOnline(1, Connected(v, sess.idx, now));
    }

    /** `create_udp_sess`. */
    method CreateUdpSess(key: Key, now: int, mallocOk: bool) returns (ret: UdpSess?, err: int)
      requires Valid()
      modifies Footprint()
      ensures Valid() && unchanged(sessArr) && (forall o :: o in Footprint() ==> o in old(Footprint()) || fresh(o))
      ensures view == Create(old(view), key, now, mallocOk).0
      ensures var r := Create(old(view), key, now, mallocOk).1;
              && (r.SlotsFull? ==> ret == null && err == EAGAIN)
              && (r.NoMemory? ==> ret == null && err == ENOMEM)
              && (r.Created? ==> r.idx < maxConn && ret == sessArr[r.idx] && ret.idx == r.idx && err == 0)
    {
      hide Matches, Cell, InRange, Placed, Connected, Create, SlotObjects;
      Sizes();
      CreateInRange(view, key, now, mallocOk);
      CreateOutcome(view, key, now, mallocOk);
      FootprintHas();
      ghost var v := view;
      var ok;
      ret, ok := PlaceSess(key, mallocOk);
      if ret == null {
        return null, EAGAIN;
      }
      ghost var v2 := Placed(v, key, ok);
      if !ok {
        PlacedRolledBack(v, key, now);
        Rollback(ret.idx, v2, Create(v, key, now, mallocOk).0);
        return null, ENOMEM;
      }
      PlacedConnected(v, key, now, mallocOk);
      assert nOnSess == v.online && ret.idx == v.free[0];
      Activate(ret, now, v2, Create(v, key, now, mallocOk).0);
      err := 0;
    }

    /** `lookup_udp_sess`. */
    method LookupUdpSess(key: Key) returns (ret: UdpSess?)
      requires Valid()
      ensures Valid() && view == old(view) && unchanged(sessArr) && Footprint() == old(Footprint())
      ensures match Lookup(view, key)
              case None => ret == null
              case Some(idx) => idx < maxConn && ret == sessArr[idx] && ret.idx == idx
    {
      hide Table.Valid, Cell;
      ret := sessMap.Find(key);
      ghost var b := Cell(key.addr);
      ghost var chain, es := view.chains[b], sessMap.chains[b];
      if ret == null {
        assert forall k :: 0 <= k < |chain| ==> es[k].Value() == view.slots[chain[k]];
        FindFirst(view, chain, key, |chain|);
      } else {
        ghost var k :| 0 <= k < |es| && es[k] == ret && ret.Value().Endpoint() == key
                       && forall j :: 0 <= j < k ==> es[j].Value().Endpoint() != key;
        assert forall j :: 0 <= j < |chain| ==> es[j].Value() == view.slots[chain[j]];
        FindFirst(view, chain, key, k);
      }
    }

    /** First part of `delete_udp_session`: push the index, unlink the session, reset the slot. */
    method Vacate(sess: UdpSess) returns (ok: bool)
      requires Valid() && |view.free| < maxConn
      requires sess.idx < maxConn && sess == sessArr[sess.idx]
      requires NoDup<U16>(view.chains[Cell(sess.srcAddr)])
      modifies Footprint()
      ensures unchanged(this) && unchanged(sessArr)
      ensures forall o :: o in Footprint() ==> o in old(Footprint()) || fresh(o)
      ensures sess.idx == old(sess.idx) < |view.slots|
      ensures ok <==> sess.idx in view.chains[Cell(old(sess.srcAddr))]
      ensures Matches(Vacated(view, sess.idx))
    {
      ghost var v, idx := view, sess.idx;
      assert v.slots[idx].srcAddr == sess.srcAddr by { assert v.slots[idx] == sess.Value(); }
      FootprintHas();
      hide Matches, Cell, Without, InRange, SlotObjects;
      var pushed := PushSlot(sess.idx, v);
      ghost var v1 := v.(free := [idx] + v.free);
      ok := MapRemove(sess, v1);
      ghost var b := Cell(v.slots[idx].srcAddr);
      ResetSlot(sess, v1.(chains := v.chains[b := Without<U16>(v.chains[b], idx)]));
    }

    /** `delete_udp_session`. */
    method DeleteUdpSession(sess: UdpSess) returns (ok: bool)
      requires Valid() && Inv(view)
      requires sess.idx < maxConn && sess == sessArr[sess.idx] && sess.isConnected
      modifies Footprint()
      ensures Valid() && unchanged(sessArr) && (forall o :: o in Footprint() ==> o in old(Footprint()) || fresh(o))
      ensures sess.idx == old(sess.idx) < |old(view).slots|
      ensures ok && view == Delete(old(view), sess.idx)
    {
      hide Cell, Vacated, Delete, Inv, InRange, Wf, SlotObjects, Matches;
      ghost var v, idx := view, sess.idx;
      SlotAt(idx);
      DeleteSteps(v, idx);
      FootprintHas();
      ok := Vacate(sess);
      AddOnline(-1, Vacated(v, idx));
    }

    // ---- in-place updates made by the packet handlers

    lemma SlotAt(i: nat)
      requires Valid() && i < maxConn
      ensures sessArr.Length == maxConn == |view.slots| && Wf(view) && InRange(view)
      ensures sessArr[i].idx == i && sessArr[i].Value() == view.slots[i]
    {
    }

    /** `udp_sess_update_last_act`. */
    method UpdateLastAct(sess: UdpSess, now: int)
      requires Valid() && sess.idx < maxConn && sess == sessArr[sess.idx]
      modifies this`view, sess
      ensures Valid() && unchanged(sessArr) && Footprint() == old(Footprint())
      ensures sess.idx == old(sess.idx) < |old(view).slots| && view == Touch(old(view), sess.idx, now)
    {
      hide Table.Valid, ChainsAre, FreeIs, RoutesAre;
      sess.lastAct := now;
      view := Touch(view, sess.idx, now);
    }

    method SetDst(sess: UdpSess, dst: Key)
      requires Valid() && sess.idx < maxConn && sess == sessArr[sess.idx]
      modifies this`view, sess
      ensures Valid() && unchanged(sessArr) && Footprint() == old(Footprint())
      ensures sess.idx == old(sess.idx) < |old(view).slots|
      ensures view == old(view).(slots := old(view).slots[sess.idx := old(view).slots[sess.idx].(dst := dst)])
    {
      hide Table.Valid, ChainsAre, FreeIs, RoutesAre;
      sess.dst := dst;
      view := view.(slots := view.slots[sess.idx := view.slots[sess.idx].(dst := dst)]);
    }

    method BumpLoopCounter(sess: UdpSess)
      requires Valid() && sess.idx < maxConn && sess == sessArr[sess.idx]
      modifies this`view, sess
      ensures Valid() && unchanged(sessArr) && Footprint() == old(Footprint())
      ensures sess.idx == old(sess.idx) < |old(view).slots|
      ensures sess.loopC == Next8(old(view).slots[sess.idx].loopC)
      ensures view == old(view).(slots := old(view).slots[sess.idx := old(view).slots[sess.idx].(loopC := sess.loopC)])
    {
      hide Table.Valid, ChainsAre, FreeIs, RoutesAre;
      sess.loopC := Next8(sess.loopC);
      view := view.(slots := view.slots[sess.idx := view.slots[sess.idx].(loopC := sess.loopC)]);
    }

    method MarkAuthenticated(sess: UdpSess, iff: U32, user: string)
      requires Valid() && sess.idx < maxConn && sess == sessArr[sess.idx]
      modifies this`view, sess
      ensures Valid() && unchanged(sessArr) && Footprint() == old(Footprint())
      ensures sess.idx == old(sess.idx) < |old(view).slots|
      ensures view == old(view).(slots := old(view).slots[sess.idx :=
                        old(view).slots[sess.idx].(ipv4Iff := iff, authenticated := true, username := user)])
    {
      hide Table.Valid, ChainsAre, FreeIs, RoutesAre;
      sess.ipv4Iff := iff;
      sess.isAuthenticated := true;
      sess.username := user;
      view := view.(slots := view.slots[sess.idx :=
                view.slots[sess.idx].(ipv4Iff := iff, authenticated := true, username := user)]);
    }

    /** `add_ipv4_route_map`. */
    method AddIpv4RouteMap(addr: U32, idx: U16)
      requires Valid()
      modifies this`view, ipv4Map
      ensures Valid() && unchanged(sessArr) && Footprint() == old(Footprint()) && |old(view).routes| == CELLS
      ensures view == old(view).(routes := AddRoute(old(view).routes, addr, idx))
    {
      hide Table.Valid, SlotsAre, ChainsAre, FreeIs;
      ipv4Map[Cell(addr)] := (idx + 1) % 0x1_0000;
      view := view.(routes := AddRoute(view.routes, addr, idx));
    }

    /** `del_ipv4_route_map`. */
    method DelIpv4RouteMap(addr: U32)
      requires Valid()
      modifies this`view, ipv4Map
      ensures Valid() && unchanged(sessArr) && Footprint() == old(Footprint()) && |old(view).routes| == CELLS
      ensures view == old(view).(routes := DelRoute(old(view).routes, addr))
    {
      hide Table.Valid, SlotsAre, ChainsAre, FreeIs;
      ipv4Map[Cell(addr)] := 0;
      view := view.(routes := DelRoute(view.routes, addr));
    }

    /** `get_ipv4_route_map`. */
    method GetIpv4RouteMap(addr: U32) returns (ret: int)
      requires Valid()
      ensures |view.routes| == CELLS && ret == GetRoute(view.routes, addr)
    {
      hide Table.Valid, SlotsAre, ChainsAre, FreeIs;
      var cell := ipv4Map[Cell(addr)];
      if cell == 0 {
        return -ENOENT;
      }
      ret := cell - 1;
    }
  }
}
