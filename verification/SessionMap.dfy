/**
 The hash table of sessions as the server lays it out: 65536 bucket heads embedded in one array,
 each the start of a singly linked chain of buckets that point at session slots.
 */
module SessionMap {
  import opened Common
  import opened SessionEngine

  /** One session slot as an object updated in place. */
  class UdpSess {
    var idx: U16
    var ipv4Iff: U32
    var srcAddr: U32
    var srcPort: U16
    var lastAct: int
    var dst: Key
    var username: string
    var loopC: U8
    var isAuthenticated: bool
    var isConnected: bool

    /** The slot's value. */
    ghost function Value(): Slot
      reads this
    {
      Slot(ipv4Iff, srcAddr, srcPort, lastAct, dst, username, loopC, isAuthenticated, isConnected)
    }

    constructor (i: U16)
      ensures Value() == BLANK && idx == i
    {
      ipv4Iff, srcAddr, srcPort, lastAct := 0, 0, 0, 0;
      dst, username, loopC := Key(0, 0), "_", 0;
      isAuthenticated, isConnected := false, false;
      idx := i;
    }

    /** `reset_udp_session`. */
    method Reset(i: U16)
      modifies this
      ensures Value() == BLANK && idx == i
    {
      ipv4Iff, srcAddr, srcPort, lastAct := 0, 0, 0, 0;
      dst, username, loopC := Key(0, 0), "_", 0;
      isAuthenticated, isConnected := false, false;
      idx := i;
    }
  }

  class Bucket {
    var next: Bucket?
    var sess: UdpSess?
    ghost var home: nat

    constructor (s: UdpSess?, ghost h: nat)
      ensures next == null && sess == s && home == h
    {
      next, sess, home := null, s, h;
    }
  }

  /** `ns` is the chain of table cell `home`, and `es` the sessions it holds in order. Only a head
      that has no successor may be empty. */
  ghost predicate IsChain(ns: seq<Bucket>, es: seq<UdpSess>, home: nat)
    reads ns
  {
    && ns != []
    && (forall k :: 0 <= k < |ns| ==> ns[k].home == home)
    && (forall k :: 0 <= k < |ns| - 1 ==> ns[k].next == ns[k + 1])
    && ns[|ns| - 1].next == null
    && NoDup(ns)
    && (if ns[0].sess == null then |ns| == 1 && es == []
        else |es| == |ns| && forall k :: 0 <= k < |ns| ==> ns[k].sess == es[k])
  }

  /** `map_insert_udp_sess` on one chain. */
  method InsertInChain(head: Bucket, s: UdpSess, mallocOk: bool, ghost ns: seq<Bucket>, ghost es: seq<UdpSess>)
    returns (ok: bool, ghost ns': seq<Bucket>)
    requires IsChain(ns, es, head.home) && ns[0] == head
    modifies ns
    ensures ok <==> es == [] || mallocOk
    ensures ns' != [] && ns'[0] == head
    ensures IsChain(ns', if ok then es + [s] else es, old(head.home))
    ensures forall k :: 0 <= k < |ns'| ==> (if k < |ns| then ns'[k] == ns[k] else fresh(ns'[k]))
    ensures |ns| <= |ns'| && (!ok ==> ns' == ns)
  {
    var bkt := head;
    if bkt.sess == null {
      bkt.sess := s;
      return true, ns;
    }
    if !mallocOk {
      return false, ns;
    }
    var newBkt := new Bucket(s, head.home);
    ghost var k := 0;
    while bkt.next != null
      invariant k < |ns| && bkt == ns[k] && bkt.next == if k < |ns| - 1 then ns[k + 1] else null
      invariant IsChain(ns, es, head.home) && head.sess != null
      invariant unchanged(ns)
      decreases |ns| - k
    {
      bkt := bkt.next;
      k := k + 1;
    }
    bkt.next := newBkt;
    return true, ns + [newBkt];
  }

  /** `lookup_udp_sess` on one chain. */
  method FindInChain(head: Bucket, key: Key, ghost ns: seq<Bucket>, ghost es: seq<UdpSess>) returns (ret: UdpSess?)
    requires IsChain(ns, es, head.home) && ns[0] == head
    ensures ret == null ==> forall k :: 0 <= k < |es| ==> es[k].Value().Endpoint() != key
    ensures ret != null ==> exists k :: 0 <= k < |es| && es[k] == ret && ret.Value().Endpoint() == key
                                        && forall j :: 0 <= j < k ==> es[j].Value().Endpoint() != key
  {
    var bkt: Bucket? := head;
    ghost var k := 0;
    while bkt != null
      invariant k <= |ns| && bkt == if k < |ns| then ns[k] else null
      invariant forall j :: 0 <= j < k && j < |es| ==> es[j].Value().Endpoint() != key
      decreases |ns| - k
    {
      ret := bkt.sess;
      if ret != null {
        if ret.srcAddr == key.addr && ret.srcPort == key.port {
          return;
        }
      }
      bkt := bkt.next;
      k := k + 1;
    }
    ret := null;
  }

  /** `remove_sess_from_bkt` on one chain: the head takes over its successor, or is emptied; any
      other bucket is unlinked. */
  method RemoveFromChain(head: Bucket, s: UdpSess, ghost ns: seq<Bucket>, ghost es: seq<UdpSess>)
    returns (ok: bool, ghost ns': seq<Bucket>)
    requires IsChain(ns, es, head.home) && ns[0] == head && NoDup(es)
    modifies ns
    ensures ok <==> s in es
    ensures ns' != [] && ns'[0] == head
    ensures IsChain(ns', Without(es, s), old(head.home))
    ensures forall n :: n in ns' ==> n in ns
  {
    hide Without;
    var prev: Bucket? := null;
    var cur: Bucket? := head;
    ghost var k := 0;
    while cur != null && cur.sess != s
      invariant k <= |ns| && cur == if k < |ns| then ns[k] else null
      invariant prev == if k == 0 then null else ns[k - 1]
      invariant forall j :: 0 <= j < k && j < |es| ==> es[j] != s
      invariant k > 0 ==> prev != null
      decreases |ns| - k
    {
      prev := cur;
      cur := cur.next;
      k := k + 1;
    }
    if cur == null {
      WithoutAbsent(es, s);
      return false, ns;
    }
    WithoutAt(es, k);
    cur.sess := null;
    if prev == null {
      ns' := DropHead(cur, ns, es);
    } else {
      prev.next := cur.next;
      ns' := ns[..k] + ns[k + 1..];
    }
    ok := true;
  }

  /** The emptied head of a chain takes over its successor, if it has one. */
  method DropHead(head: Bucket, ghost ns: seq<Bucket>, ghost es: seq<UdpSess>) returns (ghost ns': seq<Bucket>)
    requires ns != [] && ns[0] == head && head.sess == null && |es| == |ns| && NoDup(ns)
    requires forall k :: 0 <= k < |ns| ==> ns[k].home == head.home && (k > 0 ==> ns[k].sess == es[k])
    requires (forall k :: 0 <= k < |ns| - 1 ==> ns[k].next == ns[k + 1]) && ns[|ns| - 1].next == null
    modifies head
    ensures ns' != [] && ns'[0] == head && head.home == old(head.home)
    ensures IsChain(ns', es[1..], head.home)
    ensures forall n :: n in ns' ==> n in ns
  {
    assert forall k :: 1 <= k < |ns| ==> ns[k] != head;
    assert |ns| > 1 ==> ns[0].next == ns[1];
    if head.next != null {
      var tmp := head.next.next;
      head.sess := head.next.sess;
      head.next := tmp;
      ns' := [head] + ns[2..];
      forall k | 0 <= k < |ns'| - 1 ensures ns'[k].next == ns'[k + 1] {
        assert ns'[k + 1] == ns[k + 2] && (k > 0 ==> ns'[k] == ns[k + 1]);
      }
      assert |ns'| > 1 ==> ns'[|ns'| - 1] == ns[|ns| - 1];
    } else {
      ns' := ns;
    }
  }

  /** The whole table. `nodes[b]` are the buckets of cell b's chain and `chains[b]` its sessions. */
  class Table {
    const heads: array<Bucket>
    ghost var nodes: seq<seq<Bucket>>
    ghost var chains: seq<seq<UdpSess>>
    ghost var repr: set<object>

    ghost predicate Valid()
      reads this, heads, repr
    {
      && this !in repr && heads !in repr
      && heads.Length == CELLS == |nodes| == |chains|
      && (forall b, k :: 0 <= b < CELLS && 0 <= k < |nodes[b]| ==> nodes[b][k] in repr)
      && (forall b :: 0 <= b < CELLS ==> IsChain(nodes[b], chains[b], b) && nodes[b][0] == heads[b])
    }

    /** `init_udp_session_map`: every head empty. */
    constructor ()
      ensures Valid() && fresh(repr) && fresh(heads)
      ensures chains == seq(CELLS, i => [])
    {
      var first := new Bucket(null, 0);
      var hs := new Bucket[CELLS](_ => first);
      heads := hs;
      nodes, chains, repr := [], seq(CELLS, i => []), {};
      new;
      ghost var made: seq<Bucket> := [];
      for b := 0 to CELLS
        invariant |made| == b && repr !! {this, hs}
        invariant fresh(repr) && heads == hs && chains == seq(CELLS, i => [])
        invariant forall c :: 0 <= c < b ==> hs[c] == made[c] && made[c] in repr
        invariant forall c :: 0 <= c < b ==> made[c].home == c && made[c].next == null && made[c].sess == null
      {
        var n := new Bucket(null, b);
        hs[b] := n;
        made := made + [n];
        repr := repr + {n};
      }
      nodes := seq(CELLS, b requires 0 <= b < CELLS => [made[b]]);
    }

    /** Different chains have no bucket in common. */
    lemma ChainsDisjoint(b: nat)
      requires Valid() && b < CELLS
      ensures forall c, k :: 0 <= c < CELLS && c != b && 0 <= k < |nodes[c]| ==> nodes[c][k] !in nodes[b]
    {
      forall c, k | 0 <= c < CELLS && c != b && 0 <= k < |nodes[c]| ensures nodes[c][k] !in nodes[b] {
        assert IsChain(nodes[c], chains[c], c) && IsChain(nodes[b], chains[b], b);
        assert nodes[c][k].home == c;
        assert forall j :: 0 <= j < |nodes[b]| ==> nodes[b][j].home == b;
      }
    }

    lemma HeadHome(b: nat)
      requires Valid() && b < CELLS
      ensures heads[b].home == b && IsChain(nodes[b], chains[b], b) && nodes[b] != [] && heads[b] == nodes[b][0]
    {
      assert IsChain(nodes[b], chains[b], b);
    }

    method Insert(addr: U32, s: UdpSess, mallocOk: bool) returns (ok: bool)
      requires Valid()
      modifies this, repr
      ensures Valid() && (forall o :: o in repr ==> o in old(repr) || fresh(o))
      ensures ok <==> old(chains)[Cell(addr)] == [] || mallocOk
      ensures chains == if ok then old(chains)[Cell(addr) := old(chains)[Cell(addr)] + [s]] else old(chains)
    {
      hide IsChain, Cell;
      var b := Cell(addr);
      ChainsDisjoint(b);
      HeadHome(b);
      ghost var ns := nodes[b];
      ghost var ns';
      ok, ns' := InsertInChain(heads[b], s, mallocOk, ns, chains[b]);
      nodes := nodes[b := ns'];
      if ok { chains := chains[b := chains[b] + [s]]; }
      repr := repr + set k | |ns| <= k < |ns'| :: ns'[k];
      forall c | 0 <= c < CELLS && c != b ensures IsChain(nodes[c], chains[c], c) {
        assert old(IsChain(nodes[c], chains[c], c));
      }
    }

    method Find(key: Key) returns (ret: UdpSess?)
      requires Valid()
      ensures var es := chains[Cell(key.addr)];
              && (ret == null ==> forall k :: 0 <= k < |es| ==> es[k].Value().Endpoint() != key)
              && (ret != null ==> exists k :: 0 <= k < |es| && es[k] == ret && ret.Value().Endpoint() == key
                                    && forall j :: 0 <= j < k ==> es[j].Value().Endpoint() != key)
    {
      var b := Cell(key.addr);
      ret := FindInChain(heads[b], key, nodes[b], chains[b]);
    }

    method Remove(s: UdpSess) returns (ok: bool)
      requires Valid() && NoDup(chains[Cell(s.srcAddr)])
      modifies this, repr
      ensures Valid() && (forall o :: o in repr ==> o in old(repr) || fresh(o))
      ensures ok <==> s in old(chains[Cell(s.srcAddr)])
      ensures chains == old(chains[Cell(s.srcAddr) := Without(chains[Cell(s.srcAddr)], s)])
    {
      hide IsChain, Cell, Without;
      var b := Cell(s.srcAddr);
      ChainsDisjoint(b);
      HeadHome(b);
      ghost var ns';
      ok, ns' := RemoveFromChain(heads[b], s, nodes[b], chains[b]);
      forall k | 0 <= k < |ns'| ensures ns'[k] in repr {
        assert ns'[k] in nodes[b];
      }
      nodes := nodes[b := ns'];
      chains := chains[b := Without(chains[b], s)];
      forall c | 0 <= c < CELLS && c != b ensures IsChain(nodes[c], chains[c], c) {
        assert old(IsChain(nodes[c], chains[c], c));
      }
    }
  }
}
