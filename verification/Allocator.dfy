/**
 The 64-byte aligning allocator over `malloc`, `calloc` and `free`. Addresses are numbers, memory is a map
 from addresses to bytes, and what `malloc` returns is an input that must be a block of its own.
 */
module Allocator {
  import opened Common
  import opened Bits

  const SIZE_MAX: nat := 0xFFFF_FFFF_FFFF_FFFF
  const NULL: nat := 0
  const EXTRA: nat := 64

  type Size = x: int | 0 <= x <= 0xFFFF_FFFF_FFFF_FFFF

  /** The address that is handed out for the block at `orig`. */
  function Aligned(orig: Size): nat { And((orig + EXTRA) % (SIZE_MAX + 1), SIZE_MAX - 63) }

  /** Where the shift byte is written, and what. */
  function ShiftAt(orig: Size): nat { (Aligned(orig) - 1) % 0x1_0000_0000_0000_0000 }
  function Shift(orig: Size): U8 { (Aligned(orig) - orig) % 0x100 }

  /** What `malloc` is asked for: the sum wraps around. */
  function Requested(size: Size): Size { (size + EXTRA) % 0x1_0000_0000_0000_0000 }

  lemma AlignedExact(orig: Size)
    requires orig + EXTRA <= SIZE_MAX
    ensures Aligned(orig) % 64 == 0 && orig < Aligned(orig) <= orig + EXTRA
  {
    hide And;
    Pow2Word();
    AndHigh(orig + EXTRA, 6, 64);
  }

  /** The region handed out, with the shift byte before it, lies inside the block exactly if the size that
      was asked for did not wrap around. */
  lemma InsideExactly(orig: Size, size: Size)
    requires orig + EXTRA <= SIZE_MAX
    ensures Aligned(orig) % 64 == 0 && 1 <= Aligned(orig) - orig <= 64
    ensures orig <= Aligned(orig) - 1 && Aligned(orig) + size <= orig + Requested(size) <==> size <= SIZE_MAX - EXTRA
  {
    AlignedExact(orig);
  }

  /** A live allocation: the block under it and the size the caller asked for. */
  datatype Region = Region(base: nat, size: nat)

  predicate Apart(a: nat, m: nat, b: nat, n: nat) { a + m <= b || b + n <= a }

  /** The pointer is aligned, its region and the byte before it are inside its block, and that byte says
      where the block begins. */
  ghost predicate Sound(mem: map<nat, U8>, blocks: map<nat, nat>, u: nat, r: Region) {
    && r.base in blocks && u % 64 == 0 && 1 <= u - r.base <= 64
    && u + r.size <= r.base + blocks[r.base]
    && u - 1 in mem && mem[u - 1] == u - r.base
  }

  /** The C library's blocks, which it has not got back, do not overlap. */
  ghost predicate Disjoint(blocks: map<nat, nat>) {
    && (forall b :: b in blocks ==> b != NULL && 0 < blocks[b] && b + blocks[b] <= SIZE_MAX)
    && (forall b, c :: b in blocks && c in blocks && b != c ==> Apart(b, blocks[b], c, blocks[c]))
  }

  ghost predicate Good(mem: map<nat, U8>, blocks: map<nat, nat>, live: map<nat, Region>) {
    && Disjoint(blocks)
    && (forall u :: u in live ==> Sound(mem, blocks, u, live[u]))
    && (forall u, v :: u in live && v in live && u != v ==> live[u].base != live[v].base)
  }

  /** What the C library promises of a new block. */
  ghost predicate FreshBlock(blocks: map<nat, nat>, orig: nat, size: nat) {
    orig != NULL && orig + size <= SIZE_MAX && forall b :: b in blocks ==> Apart(orig, size, b, blocks[b])
  }

  lemma NotTheirs(mem: map<nat, U8>, blocks: map<nat, nat>, live: map<nat, Region>, orig: nat, size: nat, u: nat)
    requires Good(mem, blocks, live) && FreshBlock(blocks, orig, size) && u in live
    ensures size == 0 || (!(orig <= u - 1 < orig + size) && live[u].base != orig)
    ensures u != NULL
  {
    assert Sound(mem, blocks, u, live[u]);
    hide And;
  }

  /** Handing out a new block keeps everything else sound. */
  lemma MallocGood(mem: map<nat, U8>, blocks: map<nat, nat>, live: map<nat, Region>, size: Size, orig: Size)
    requires Good(mem, blocks, live) && size <= SIZE_MAX - EXTRA && FreshBlock(blocks, orig, Requested(size))
    ensures var u := Aligned(orig);
            && u % 64 == 0 && 1 <= u - orig <= 64 && u !in live && orig !in blocks
            && Good(mem[u - 1 := u - orig], blocks[orig := Requested(size)], live[u := Region(orig, size)])
  {
    hide Aligned;
    InsideExactly(orig, size);
    var u := Aligned(orig);
    forall v | v in live ensures v != u && live[v].base != orig {
      NotTheirs(mem, blocks, live, orig, Requested(size), v);
    }
  }

  lemma ZeroedGood(mem: map<nat, U8>, more: map<nat, U8>, blocks: map<nat, nat>, live: map<nat, Region>, orig: nat,
      size: nat)
    requires Good(mem, blocks, live) && FreshBlock(blocks, orig, size)
    requires forall a :: a in more ==> orig <= a < orig + size
    ensures Good(mem + more, blocks, live)
  {
    forall u | u in live ensures Sound(mem + more, blocks, u, live[u]) {
      NotTheirs(mem, blocks, live, orig, size, u);
      assert Sound(mem, blocks, u, live[u]);
    }
  }

  lemma WriteGood(mem: map<nat, U8>, blocks: map<nat, nat>, live: map<nat, Region>, user: nat, i: nat, v: U8)
    requires Good(mem, blocks, live) && user in live && i < live[user].size
    ensures Good(mem[user + i := v], blocks, live)
  {
    forall u | u in live ensures Sound(mem[user + i := v], blocks, u, live[u]) {
      assert Sound(mem, blocks, u, live[u]) && Sound(mem, blocks, user, live[user]);
    }
  }

  /** A region whose requested size has wrapped around is larger than its block. */
  lemma WrappedBad(mem: map<nat, U8>, blocks: map<nat, nat>, live: map<nat, Region>, u: nat)
    requires u in live && live[u].base in blocks
    requires SIZE_MAX - EXTRA < live[u].size <= SIZE_MAX && blocks[live[u].base] == Requested(live[u].size)
    ensures !Good(mem, blocks, live)
  {
    assert !Sound(mem, blocks, u, live[u]);
  }

  /** Taking back the block of one pointer keeps the others sound. */
  lemma FreeGood(mem: map<nat, U8>, blocks: map<nat, nat>, live: map<nat, Region>, user: nat)
    requires Good(mem, blocks, live) && user in live
    ensures user > 0 && user - 1 in mem && mem[user - 1] <= user && user - mem[user - 1] == live[user].base
    ensures Good(mem, blocks - {live[user].base}, live - {user})
  {
    assert Sound(mem, blocks, user, live[user]);
    forall u | u in live && u != user ensures Sound(mem, blocks - {live[user].base}, u, live[u]) {
      assert Sound(mem, blocks, u, live[u]);
    }
  }

  // ------------------------------------------------------------------ runs

  datatype Memory = Memory(mem: map<nat, U8>, blocks: map<nat, nat>, live: map<nat, Region>)

  /** An allocation for which `malloc` returns `orig`, a write by the owner of a region, or a release. */
  datatype Op = Malloc(size: Size, orig: Size) | Write(user: nat, i: nat, v: U8) | Free(user: nat)

  ghost predicate Allowed(m: Memory, op: Op) {
    match op
    case Malloc(size, orig) => size <= SIZE_MAX - EXTRA && FreshBlock(m.blocks, orig, Requested(size))
    case Write(user, i, _) => user in m.live && i < m.live[user].size
    case Free(user) => user in m.live
  }

  /** What `free` is passed: the pointer minus the byte before it. */
  function Recovered(m: Memory, user: nat): int {
    if user - 1 in m.mem then user - m.mem[user - 1] else 0
  }

  function Apply(m: Memory, op: Op): Memory {
    match op
    case Malloc(size, orig) =>
      var u := Aligned(orig);
      if 1 <= u - orig <= 64 then
        Memory(m.mem[u - 1 := u - orig], m.blocks[orig := Requested(size)], m.live[u := Region(orig, size)])
      else m
    case Write(user, i, v) => m.(mem := m.mem[user + i := v])
    case Free(user) =>
      m.(blocks := map b | b in m.blocks && b != Recovered(m, user) :: m.blocks[b], live := m.live - {user})
  }

  ghost predicate IsRun(states: seq<Memory>, ops: seq<Op>) {
    && |states| == |ops| + 1 && states[0] == Memory(map[], map[], map[])
    && forall k :: 0 <= k < |ops| ==> Allowed(states[k], ops[k]) && states[k + 1] == Apply(states[k], ops[k])
  }

  lemma ApplyGood(m: Memory, op: Op)
    requires Good(m.mem, m.blocks, m.live) && Allowed(m, op)
    ensures var n := Apply(m, op); Good(n.mem, n.blocks, n.live)
  {
    hide Good, Aligned, FreshBlock;
    match op {
      case Malloc(size, orig) => MallocGood(m.mem, m.blocks, m.live, size, orig);
      case Write(user, i, v) => WriteGood(m.mem, m.blocks, m.live, user, i, v);
      case Free(user) =>
        FreeGood(m.mem, m.blocks, m.live, user);
        assert Apply(m, op).blocks == m.blocks - {m.live[user].base};
    }
  }

  /** In every run in which the callers write only inside their own regions, every live pointer is 64-byte
      aligned with its region inside its block, and freeing it passes `free` exactly the address at which
      that block was allocated. */
  lemma {:induction false} RunSound(states: seq<Memory>, ops: seq<Op>, k: nat)
    requires IsRun(states, ops) && k < |states|
    ensures var m := states[k];
            && Good(m.mem, m.blocks, m.live)
            && forall u :: u in m.live ==>
                 && u % 64 == 0 && m.live[u].base in m.blocks && m.live[u].base < u
                 && u + m.live[u].size <= m.live[u].base + m.blocks[m.live[u].base]
                 && Recovered(m, u) == m.live[u].base
  {
    if k > 0 {
      RunSound(states, ops, k - 1);
      ApplyGood(states[k - 1], ops[k - 1]);
    }
    var m := states[k];
    forall u | u in m.live ensures Sound(m.mem, m.blocks, u, m.live[u]) {
    }
  }

  // ------------------------------------------------------------------ the functions

  /** A block of zeros. */
  function Zeros(orig: nat, n: nat): map<nat, U8> { map a: nat | orig <= a < orig + n :: ZeroAt(a) }

  function ZeroAt(a: nat): U8 { 0 }

  class Heap {
    var mem: map<nat, U8>
    // The blocks `malloc` has handed out and not got back, with their sizes.
    var blocks: map<nat, nat>
    ghost var live: map<nat, Region>

    ghost predicate Valid()
      reads this
    {
      Good(mem, blocks, live)
    }

    constructor ()
      ensures Valid() && blocks == map[] && live == map[]
    {
      mem, blocks, live := map[], map[], map[];
    }

    /** `al64_malloc`, where `malloc` returns `orig`. What it hands out is sound exactly if the requested size did
        not wrap around. */
    method Al64Malloc(size: Size, orig: Size) returns (user: nat)
      requires Valid()
      requires orig == NULL || FreshBlock(blocks, orig, Requested(size))
      modifies this
      ensures orig == NULL ==> user == NULL && mem == old(mem) && blocks == old(blocks) && live == old(live)
      ensures orig != NULL ==>
                && user == Aligned(orig) && mem == old(mem)[ShiftAt(orig) := Shift(orig)]
                && blocks == old(blocks)[orig := Requested(size)] && live == old(live)[user := Region(orig, size)]
      ensures Valid() <==> orig == NULL || size <= SIZE_MAX - EXTRA
      ensures orig != NULL && size <= SIZE_MAX - EXTRA ==>
                && user % 64 == 0 && 1 <= user - orig <= 64 && user + size <= orig + Requested(size)
                && user !in old(live) && orig !in old(blocks)
                && Memory(mem, blocks, live) == Apply(old(Memory(mem, blocks, live)), Malloc(size, orig))
    {
      hide Good, Aligned;
      if orig == NULL {
        return NULL;
      }
      if size <= SIZE_MAX - EXTRA {
        InsideExactly(orig, size);
        MallocGood(mem, blocks, live, size, orig);
      }
      var aligned := Aligned(orig);
      var shift := (aligned - orig) % 0x100;
      blocks := blocks[orig := Requested(size)];
      mem := mem[(aligned - 1) % 0x1_0000_0000_0000_0000 := shift];
      live := live[aligned := Region(orig, size)];
      user := aligned;
      if size > SIZE_MAX - EXTRA {
        WrappedBad(mem, blocks, live, user);
      }
    }

    /** `al64_calloc`; `calloc` zeroes the block it returns. */
    method Al64Calloc(nmemb: Size, size: Size, orig: Size) returns (user: nat)
      requires Valid()
      requires nmemb * size <= SIZE_MAX ==> orig == NULL || FreshBlock(blocks, orig, Requested(nmemb * size))
      modifies this
      ensures nmemb * size > SIZE_MAX || orig == NULL ==>
                user == NULL && mem == old(mem) && blocks == old(blocks) && live == old(live)
      ensures nmemb * size <= SIZE_MAX && orig != NULL ==>
                && user == Aligned(orig) && blocks == old(blocks)[orig := Requested(nmemb * size)]
                && live == old(live)[user := Region(orig, nmemb * size)]
                && mem == (old(mem) + Zeros(orig, Requested(nmemb * size)))[ShiftAt(orig) := Shift(orig)]
      ensures Valid() <==> nmemb * size > SIZE_MAX || orig == NULL || nmemb * size <= SIZE_MAX - EXTRA
      ensures nmemb * size <= SIZE_MAX - EXTRA && orig != NULL ==>
                && user % 64 == 0 && 1 <= user - orig <= 64 && user + nmemb * size <= orig + Requested(nmemb * size)
                && user !in old(live) && orig !in old(blocks)
                && (forall a :: user <= a < user + nmemb * size ==> a in mem && mem[a] == 0)
                && (forall a :: a in old(mem) && !(orig <= a < orig + Requested(nmemb * size)) ==>
                      a in mem && mem[a] == old(mem[a]))
    {
      hide Good, Aligned;
      var realSize := nmemb * size;
      if realSize > SIZE_MAX {
        return NULL;
      }
      if orig == NULL {
        return NULL;
      }
      var n := Requested(realSize);
      var zeros := Zeros(orig, n);
      ZeroedGood(mem, zeros, blocks, live, orig, n);
      mem := mem + zeros;
      user := Al64Malloc(realSize, orig);
    }

    /** A caller writes a byte of its own region. */
    method Write(user: nat, i: nat, v: U8)
      requires Valid() && user in live && i < live[user].size
      modifies this`mem
      ensures Valid() && mem == old(mem)[user + i := v]
    {
      WriteGood(mem, blocks, live, user, i, v);
      mem := mem[user + i := v];
    }

    /** `al64_free`: what is passed to `free` is the base of the block that the pointer came from. */
    method Al64Free(user: nat) returns (orig: nat)
      requires Valid() && (user == NULL || user in live)
      modifies this
      ensures Valid() && mem == old(mem)
      ensures user == NULL ==> orig == NULL && blocks == old(blocks) && live == old(live)
      ensures user != NULL ==>
                orig == old(live)[user].base && blocks == old(blocks) - {orig} && live == old(live) - {user}
    {
      if user == NULL {
        return NULL;
      }
      hide Good;
      FreeGood(mem, blocks, live, user);
      var shift := mem[user - 1];
      orig := user - shift;
      blocks := blocks - {orig};
      live := live - {user};
    }
  }
}
