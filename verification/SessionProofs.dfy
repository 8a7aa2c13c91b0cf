/**
 What every operation of the session engine keeps: the slot partition, the session counter,
 the hash chains and the uniqueness of keys. The chains refine a finite map from endpoint to slot.
 */
module SessionProofs {
  import opened Common
  import opened SessionEngine

  // ------------------------------------------------------------------ counting

  lemma OnlineBelowWhen(e: Engine, i: nat)
    requires Wf(e) && i < |e.slots| && !e.slots[i].connected
    ensures |Online(e)| < |e.slots|
  {
    SubsetCardinality(Online(e), Below(|e.slots|) - {i});
  }

  lemma PartitionCardinality(free: set<int>, online: set<int>, n: nat)
    requires forall i :: 0 <= i < n ==> (i in free <==> i !in online)
    requires forall i :: i in free || i in online ==> 0 <= i < n
    ensures |free| + |online| == n
  {
    assert free !! online by {
      forall i | i in free ensures i !in online {}
    }
    assert free + online == Below(n);
  }

  /** Free slots and connected sessions together are all the slots. */
  lemma SlotsConserved(e: Engine)
    requires InRange(e) && SlotPartition(e)
    ensures |e.free| + |Online(e)| == |e.slots|
  {
    NoDupCardinality(e.free);
    PartitionCardinality(Elements(e.free), Online(e), |e.slots|);
  }

  /** The push inside delete never finds the stack full. */
  lemma DeleteNeverFindsStackFull(e: Engine, idx: U16)
    requires Inv(e) && idx < |e.slots| && e.slots[idx].connected
    ensures |e.free| < |e.slots|
  {
    SlotsConserved(e);
    assert idx as int in Online(e);
  }

  // ------------------------------------------------------------------ preservation

  lemma InitInv(maxConn: U16)
    ensures Inv(Init(maxConn))
  {
    var e := Init(maxConn);
    assert Online(e) == {};
    forall i | 0 <= i < |e.slots| ensures i in e.free {
      assert e.free[i] == i;
    }
  }

  /** Changing a slot in ways the other structures do not depend on. */
  lemma UpdateInv(e: Engine, idx: U16, s: Slot, routes: seq<U16>)
    requires Inv(e) && idx < |e.slots| && |routes| == CELLS
    requires s.connected == e.slots[idx].connected
    requires s.connected ==> s.Endpoint() == e.slots[idx].Endpoint()
    requires SlotOk(e.slots[idx]) ==> SlotOk(s)
    ensures Inv(e.(slots := e.slots[idx := s], routes := routes))
  {
    var e' := e.(slots := e.slots[idx := s], routes := routes);
    assert Online(e') == Online(e);
  }

  lemma CreateOnline(e: Engine, e': Engine, idx: U16)
    requires idx < |e.slots| == |e'.slots| <= MAX_SLOTS
    requires !e.slots[idx].connected && e'.slots[idx].connected
    requires forall i :: 0 <= i < |e.slots| && i != idx ==> e'.slots[i].connected == e.slots[i].connected
    ensures |Online(e')| == |Online(e)| + 1
  {
    assert Online(e') == Online(e) + {idx as int};
  }

  lemma AdmitChains(e: Engine, key: Key, now: int, mallocOk: bool)
    requires Inv(e) && Admit(e, key, now, mallocOk).1.Created?
    ensures var e' := Admit(e, key, now, mallocOk).0; Wf(e') && InRange(e') && ChainsSound(e')
  {
    var e' := Admit(e, key, now, mallocOk).0;
    var idx, b := e.free[0], Cell(key.addr);
    assert !e.slots[idx].connected;
    assert forall k :: 0 <= k < |e.chains[b]| ==> e.slots[e.chains[b][k]].connected;
    assert e'.chains[b][|e.chains[b]|] == idx;
    forall i | 0 <= i < |e'.slots| && e'.slots[i].connected
      ensures i in e'.chains[Cell(e'.slots[i].srcAddr)]
    {
      if i != idx {
        assert i in e.chains[Cell(e.slots[i].srcAddr)];
      }
    }
  }

  lemma AdmitInv(e: Engine, key: Key, now: int, mallocOk: bool)
    requires Inv(e)
    requires Lookup(e, key).None?
    ensures Inv(Admit(e, key, now, mallocOk).0)
  {
    hide Cell, Find, ChainsSound;
    var (e', r) := Admit(e, key, now, mallocOk);
    match r
    case SlotsFull =>
    case NoMemory =>
      var idx := e.free[0];
      assert idx in e.free && !e.slots[idx].connected;
      UpdateInv(e, idx, e'.slots[idx], e.routes);
      assert e' == e.(slots := e.slots[idx := e'.slots[idx]], routes := e.routes);
    case Created(idx) =>
      assert idx in e.free && !e.slots[idx].connected;
      AdmitChains(e, key, now, mallocOk);
      CreateOnline(e, e', idx);
      OnlineBelowWhen(e, idx);
      LookupSound(e, key);
      AdmitPartition(e, e', idx);
  }

  lemma AdmitPartition(e: Engine, e': Engine, idx: U16)
    requires SlotPartition(e) && e.free != [] && e.free[0] == idx < |e.slots| == |e'.slots| && e'.free == e.free[1..]
    requires forall i :: 0 <= i < |e.slots| ==> (e'.slots[i].connected <==> e.slots[i].connected || i == idx)
    ensures SlotPartition(e')
  {
    assert e.free == [idx] + e'.free;
    forall i | 0 <= i < |e'.slots| ensures e'.slots[i].connected <==> i !in e'.free {
      assert i in e.free <==> i == idx || i in e'.free;
    }
  }

  lemma DeleteChains(e: Engine, idx: U16)
    requires Inv(e) && idx < |e.slots| && e.slots[idx].connected
    ensures var e' := Delete(e, idx); Wf(e') && InRange(e') && ChainsSound(e')
  {
    var e' := Delete(e, idx);
    var b := Cell(e.slots[idx].srcAddr);
    WithoutKeepsOthers(e.chains[b], idx);
    DeleteNeverFindsStackFull(e, idx);
    forall c, k | 0 <= c < CELLS && 0 <= k < |e'.chains[c]|
      ensures e'.chains[c][k] < |e'.slots|
      ensures e'.slots[e'.chains[c][k]].connected && Cell(e'.slots[e'.chains[c][k]].srcAddr) == c
    {
      var i := e'.chains[c][k];
      assert i in e.chains[c] && i != idx by {
        if c == b {
          assert i in Without<U16>(e.chains[b], idx);
        } else {
          assert e.chains[c][k] == i && Cell(e.slots[i].srcAddr) == c;
        }
      }
    }
    forall i | 0 <= i < |e'.slots| && e'.slots[i].connected
      ensures i in e'.chains[Cell(e'.slots[i].srcAddr)]
    {
      assert i != idx && i in e.chains[Cell(e.slots[i].srcAddr)];
    }
  }

  lemma DeleteInv(e: Engine, idx: U16)
    requires Inv(e) && idx < |e.slots| && e.slots[idx].connected
    ensures Inv(Delete(e, idx))
  {
    hide Cell, Without, ChainsSound, Online;
    var e' := Delete(e, idx);
    DeleteChains(e, idx);
    DeleteNeverFindsStackFull(e, idx);
    CreateOnline(e', e, idx);
    assert idx !in e.free;
    assert e'.free == [idx] + e.free;
    assert SlotPartition(e') by {
      forall i | 0 <= i < |e'.slots| ensures e'.slots[i].connected <==> i !in e'.free {
        assert i in e'.free <==> i == idx || i in e.free;
      }
    }
  }

  // ------------------------------------------------------------------ refinement of a finite map

  /** The finite map the table stands for: the connected sessions by endpoint. */
  ghost function View(e: Engine): map<Key, int>
    requires KeysUnique(e)
  {
    map i | 0 <= i < |e.slots| && e.slots[i].connected :: e.slots[i].Endpoint() := i
  }

  lemma ViewHas(e: Engine, i: nat)
    requires KeysUnique(e) && i < |e.slots| && e.slots[i].connected
    ensures e.slots[i].Endpoint() in View(e) && View(e)[e.slots[i].Endpoint()] == i
  {
    var j := View(e)[e.slots[i].Endpoint()];
    assert e.slots[j].connected && e.slots[j].Endpoint() == e.slots[i].Endpoint();
  }

  lemma ViewHolds(e: Engine, k: Key)
    requires KeysUnique(e) && k in View(e)
    ensures 0 <= View(e)[k] < |e.slots|
    ensures e.slots[View(e)[k]].connected && e.slots[View(e)[k]].Endpoint() == k
  {
  }

  /** Disconnecting one slot removes that slot's key from the map and nothing else. */
  lemma ViewRemove(e: Engine, e': Engine, idx: nat, s: Slot)
    requires KeysUnique(e) && KeysUnique(e')
    requires idx < |e.slots| && e.slots[idx].connected && !s.connected
    requires e'.slots == e.slots[idx := s]
    ensures View(e') == View(e) - {e.slots[idx].Endpoint()}
  {
    var key := e.slots[idx].Endpoint();
    hide View;
    forall k
      ensures k in View(e') <==> k in View(e) && k != key
      ensures k in View(e') ==> View(e')[k] == View(e)[k]
    {
      if k in View(e') {
        ViewHolds(e', k);
        ViewHas(e, View(e')[k]);
        ViewHas(e, idx);
      }
      if k in View(e) && k != key {
        ViewHolds(e, k);
        ViewHas(e', View(e)[k]);
      }
    }
  }

  /** Changing a slot that stays disconnected leaves the map alone. */
  lemma ViewKept(e: Engine, e': Engine, idx: nat)
    requires KeysUnique(e) && KeysUnique(e')
    requires idx < |e.slots| && !e.slots[idx].connected
    requires exists s: Slot :: !s.connected && e'.slots == e.slots[idx := s]
    ensures View(e') == View(e)
  {
    assert forall i :: 0 <= i < |e.slots| ==> e'.slots[i].connected == e.slots[i].connected;
    assert forall i :: 0 <= i < |e.slots| && e.slots[i].connected ==> e'.slots[i] == e.slots[i];
  }

  /** Lookup answers exactly what the map holds. */
  lemma LookupRefines(e: Engine, key: Key)
    requires Inv(e)
    ensures Lookup(e, key).Some? <==> key in View(e)
    ensures key in View(e) ==> Lookup(e, key).value == View(e)[key]
  {
    LookupSound(e, key);
    if key in View(e) {
      ViewHolds(e, key);
    }
    if Lookup(e, key).Some? {
      ViewHas(e, Lookup(e, key).value);
    }
  }

  lemma CreatedAdds(e: Engine, key: Key, now: int, mallocOk: bool)
    requires Wf(e) && InRange(e) && KeysUnique(e) && Admit(e, key, now, mallocOk).1.Created?
    requires key !in View(e) && !e.slots[e.free[0]].connected
    requires KeysUnique(Admit(e, key, now, mallocOk).0)
    ensures var (e', r) := Admit(e, key, now, mallocOk); r.idx in e.free && View(e') == View(e)[key := r.idx as int]
  {
    hide Cell, View, KeysUnique;
    var (e', r) := Admit(e, key, now, mallocOk);
    ViewRemove(e', e, r.idx, e.slots[r.idx]);
    ViewHas(e', r.idx);
  }

  /** Creating adds one entry for a free slot, or fails without any change to the map. */
  lemma CreateRefines(e: Engine, key: Key, now: int, mallocOk: bool)
    requires Inv(e) && key !in View(e)
    ensures Inv(Admit(e, key, now, mallocOk).0)
    ensures match Admit(e, key, now, mallocOk)
            case (e', Created(idx)) => idx in e.free && View(e') == View(e)[key := idx as int]
            case (e', SlotsFull) => e' == e && |View(e)| == |e.slots|
            case (e', NoMemory) => !mallocOk && View(e') == View(e) && e'.free == e.free
  {
    LookupRefines(e, key);
    AdmitInv(e, key, now, mallocOk);
    hide Cell, ChainsSound, Online, Find, KeysUnique, View;
    match Admit(e, key, now, mallocOk)
    case (e', Created(idx)) =>
      assert idx == e.free[0] && !e.slots[idx].connected;
      CreatedAdds(e, key, now, mallocOk);
    case (e', SlotsFull) =>
      ViewSize(e);
      SlotsConserved(e);
    case (e', NoMemory) =>
      ViewKept(e, e', e.free[0]);
  }

  /** Deleting removes exactly the deleted session's entry. */
  lemma DeleteRefines(e: Engine, idx: U16)
    requires Inv(e) && idx < |e.slots| && e.slots[idx].connected
    ensures Inv(Delete(e, idx))
    ensures View(Delete(e, idx)) == View(e) - {e.slots[idx].Endpoint()}
  {
    DeleteInv(e, idx);
    ViewRemove(e, Delete(e, idx), idx, BLANK);
  }

  ghost function Image(m: map<Key, int>, ks: set<Key>): set<int>
    requires ks <= m.Keys
  {
    set k | k in ks :: m[k]
  }

  lemma {:induction false} ImageSize(m: map<Key, int>, ks: set<Key>)
    requires ks <= m.Keys
    requires forall k, k' :: k in m && k' in m && m[k] == m[k'] ==> k == k'
    ensures |Image(m, ks)| == |ks|
  {
    if ks != {} {
      var k :| k in ks;
      var rest := ks - {k};
      ImageSize(m, rest);
      assert Image(m, ks) == Image(m, rest) + {m[k]};
      assert m[k] !in Image(m, rest);
    }
  }

  /** The counter is the size of the map. */
  lemma ViewSize(e: Engine)
    requires KeysUnique(e)
    ensures |View(e)| == |Online(e)|
  {
    var m := View(e);
    forall k, k' | k in m && k' in m && m[k] == m[k'] ensures k == k' {
      ViewHolds(e, k);
      ViewHolds(e, k');
    }
    ImageSize(m, m.Keys);
    assert Image(m, m.Keys) == Online(e) by {
      forall i ensures i in Image(m, m.Keys) <==> i in Online(e) {
        if i in Image(m, m.Keys) { var k :| k in m && m[k] == i; ViewHolds(e, k); }
        if i in Online(e) { ViewHas(e, i); }
      }
    }
  }

  // ------------------------------------------------------------------ any run of table operations

  /** A lookup, a create (issued only after a failed lookup) or a delete of what lookup finds. */
  datatype Op = Search(key: Key) | Insert(key: Key, now: int, mallocOk: bool) | Remove(key: Key)

  datatype Result = Found(slot: Option<U16>) | Inserted(outcome: Created) | Removed(idx: U16) | Skipped

  function Apply(e: Engine, op: Op): (Engine, Result)
    requires Inv(e)
  {
    LookupSound(e, op.key);
    match op
    case Search(key) => (e, Found(Lookup(e, key)))
    case Insert(key, now, mallocOk) =>
      if Lookup(e, key).Some? then (e, Skipped)
      else (Admit(e, key, now, mallocOk).0, Inserted(Admit(e, key, now, mallocOk).1))
    case Remove(key) =>
      if Lookup(e, key).None? then (e, Skipped)
      else (Delete(e, Lookup(e, key).value), Removed(Lookup(e, key).value))
  }

  /** What the same operation may do to a finite map from endpoints to at most `capacity` slots. */
  ghost predicate MapStep(m: map<Key, int>, op: Op, res: Result, m': map<Key, int>, capacity: nat) {
    match op
    case Search(key) => m' == m && res == Found(if key in m && 0 <= m[key] <= 0xFFFF then Some(m[key]) else None)
    case Insert(key, _, mallocOk) =>
      (match res
       case Skipped => key in m && m' == m
       case Inserted(Created(slot)) => key !in m && slot as int !in m.Values && m' == m[key := slot as int]
       case Inserted(SlotsFull) => key !in m && |m| == capacity && m' == m
       case Inserted(NoMemory) => key !in m && |m| < capacity && !mallocOk && m' == m
       case _ => false)
    case Remove(key) =>
      (match res
       case Skipped => key !in m && m' == m
       case Removed(slot) => key in m && m[key] == slot && m' == m - {key}
       case _ => false)
  }

  lemma ApplyRefines(e: Engine, op: Op)
    requires Inv(e)
    ensures var (e', res) := Apply(e, op);
            && Inv(e') && |e'.slots| == |e.slots|
            && MapStep(View(e), op, res, View(e'), |e.slots|)
  {
    hide Cell, Find;
    LookupRefines(e, op.key);
    LookupSound(e, op.key);
    match op
    case Search(key) =>
      if key in View(e) { ViewHolds(e, key); }
    case Insert(key, now, mallocOk) =>
      if Lookup(e, key).None? { InsertRefines(e, key, now, mallocOk); }
    case Remove(key) =>
      if Lookup(e, key).Some? { DeleteRefines(e, Lookup(e, key).value); }
  }

  lemma InsertRefines(e: Engine, key: Key, now: int, mallocOk: bool)
    requires Inv(e) && key !in View(e)
    ensures var (e', r) := Admit(e, key, now, mallocOk);
            Inv(e') && |e'.slots| == |e.slots|
                && MapStep(View(e), Insert(key, now, mallocOk), Inserted(r), View(e'), |e.slots|)
  {
    CreateRefines(e, key, now, mallocOk);
    match Admit(e, key, now, mallocOk)
    case (e', Created(idx)) => SlotNotMapped(e, idx);
    case (e', SlotsFull) =>
    case (e', NoMemory) =>
      ViewSize(e);
      OnlineBelowWhen(e, e.free[0]);
  }

  lemma SlotNotMapped(e: Engine, idx: U16)
    requires SlotPartition(e) && KeysUnique(e) && idx in e.free && idx < |e.slots|
    ensures idx as int !in View(e).Values
  {
    assert !e.slots[idx].connected;
    forall k | k in View(e) ensures View(e)[k] != idx as int {
      ViewHolds(e, k);
    }
  }

  ghost function RunOps(e: Engine, ops: seq<Op>): (r: (seq<Engine>, seq<Result>))
    requires Inv(e)
    ensures |r.0| == |ops| + 1 && |r.1| == |ops| && forall k :: 0 <= k < |r.0| ==> Inv(r.0[k]) && KeysUnique(r.0[k])
    decreases |ops|
  {
    if ops == [] then ([e], [])
    else
      ApplyRefines(e, ops[0]);
      var (e', res) := Apply(e, ops[0]);
      var (es, rs) := RunOps(e', ops[1..]);
      ([e] + es, [res] + rs)
  }

  /** Over any run of create, lookup and delete the chained hash table behaves as a finite map. */
  lemma {:induction false} TableRefinesMap(e: Engine, ops: seq<Op>)
    requires Inv(e)
    ensures var (es, rs) := RunOps(e, ops);
            forall k :: 0 <= k < |ops| ==> MapStep(View(es[k]), ops[k], rs[k], View(es[k + 1]), |e.slots|)
    decreases |ops|
  {
    hide Inv, View, Apply, MapStep;
    if ops != [] {
      ApplyRefines(e, ops[0]);
      var (e', res) := Apply(e, ops[0]);
      TableRefinesMap(e', ops[1..]);
      var (es, rs) := RunOps(e, ops);
      assert es[0] == e && es[1..] == RunOps(e', ops[1..]).0 && rs[1..] == RunOps(e', ops[1..]).1;
      assert es[1] == e' by { assert es[1] == RunOps(e', ops[1..]).0[0]; }
      forall k | 0 <= k < |ops| ensures MapStep(View(es[k]), ops[k], rs[k], View(es[k + 1]), |e.slots|) {
        if k > 0 {
          assert es[k] == RunOps(e', ops[1..]).0[k - 1] && es[k + 1] == RunOps(e', ops[1..]).0[k];
        }
      }
    }
  }
}
