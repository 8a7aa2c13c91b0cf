/** liburing's computation of how much locked memory a ring needs, up to bit length and powers of two. */
module RingSizing {
  import opened Common
  import opened Bits

  type U64 = x: int | 0 <= x < 0x1_0000_0000_0000_0000

  const KRING_SIZE: nat := 320
  const SIZEOF_CQE: nat := 16
  const SIZEOF_SQE: nat := 64
  const KERN_MAX_ENTRIES: nat := 32768
  const KERN_MAX_CQ_ENTRIES: nat := 65536
  const EINVAL: int := 22

  // ------------------------------------------------------------------ bit length

  /** The number of binary digits. */
  function BitLength(x: nat): nat { if x == 0 then 0 else 1 + BitLength(x / 2) }

  /** The bit length is the least exponent whose power of two is larger. */
  lemma {:induction false} BitLengthExact(x: nat)
    ensures x < Pow2(BitLength(x)) && (x > 0 ==> Pow2(BitLength(x) - 1) <= x)
  {
    if x > 0 {
      BitLengthExact(x / 2);
    }
  }

  lemma BitLengthUnique(x: nat, k: nat)
    requires x < Pow2(k) && (k > 0 ==> Pow2(k - 1) <= x)
    ensures BitLength(x) == k
  {
    BitLengthExact(x);
    if BitLength(x) < k {
      Pow2Monotone(BitLength(x), k - 1);
    } else if BitLength(x) > k {
      Pow2Monotone(k, BitLength(x) - 1);
    }
  }

  /** Shifting left makes a number longer. */
  lemma {:induction false} BitLengthShift(x: nat, k: nat)
    requires x > 0
    ensures BitLength(x * Pow2(k)) == BitLength(x) + k
  {
    hide BitLength;
    if k > 0 {
      BitLengthShift(x, k - 1);
      MulTwo(x, Pow2(k - 1));
      BitLengthDouble(x * Pow2(k - 1));
    }
  }

  lemma MulTwo(x: nat, p: nat)
    requires x > 0 && p > 0
    ensures x * (2 * p) == 2 * (x * p) && x * p > 0
  {
  }

  lemma BitLengthDouble(y: nat)
    requires y > 0
    ensures BitLength(2 * y) == 1 + BitLength(y)
  {
  }

  /** The test whether the high bits of a word are clear. */
  lemma HighClear(x: U32, k: nat)
    requires k <= 32
    ensures Pow2(k) <= WORD && (And(x, WORD - Pow2(k)) == 0 <==> x < Pow2(k))
  {
    Pow2Word();
    AndHigh(x, k, 32);
    DivSmall(x, Pow2(k));
  }

  lemma DivSmall(x: nat, p: nat)
    requires p > 0
    ensures x - x % p == 0 <==> x < p
  {
  }

  /** Shifting a word left by multiplying it with a power of two. */
  function Shl32(x: U32, scale: nat): U32 { x * scale % 0x1_0000_0000 }

  lemma ShiftFits(x: U32, k: nat)
    requires k <= 16 && Pow2(32 - 2 * k) <= x < Pow2(32 - k)
    ensures Pow2(32 - k) <= x * Pow2(k) < WORD
  {
    hide Pow2;
    Pow2Word();
    Pow2Add(32 - k, k);
    Pow2Add(32 - 2 * k, k);
    MulLess(x, Pow2(32 - k), Pow2(k));
    MulLess(Pow2(32 - 2 * k) - 1, x, Pow2(k));
  }

  /** One step of `__fls`: if the high `k` bits are clear, shifting left by `k` loses nothing. */
  lemma FlsStep(x: U32, k: nat, mask: nat, scale: nat)
    requires 0 < k <= 16 && scale == Pow2(k) && mask == WORD - Pow2(32 - k) && Pow2(32 - 2 * k) <= x
    ensures var y := if And(x, mask) == 0 then Shl32(x, scale) else x;
            Pow2(32 - k) <= y && BitLength(y) == BitLength(x) + if And(x, mask) == 0 then k else 0
  {
    hide And, BitLength, Pow2;
    HighClear(x, 32 - k);
    if x < Pow2(32 - k) {
      ShiftFits(x, k);
      BitLengthShift(x, k);
    }
  }

  lemma MulLess(a: int, b: int, p: nat)
    requires a < b && p > 0
    ensures a * p < b * p && (a + 1) * p <= b * p
  {
  }

  lemma SmallPowers()
    ensures Pow2(0) == 1 && Pow2(1) == 2 && Pow2(2) == 4 && Pow2(4) == 16 && Pow2(8) == 256
  {
    assert Pow2(4) == 16;
  }

  /** `__fls`: the argument's bits as an unsigned word. */
  method Fls(word: U32) returns (r: nat)
    ensures r == BitLength(word)
  {
    hide And, BitLength, Pow2, Shl32;
    Pow2Word();
    SmallPowers();
    var x := word;
    r := 32;
    if x == 0 {
      BitLengthUnique(0, 0);
      return 0;
    }
    FlsStep(x, 16, 0xffff0000, 0x1_0000);
    if And(x, 0xffff0000) == 0 {
      x := Shl32(x, 0x1_0000);
      r := r - 16;
    }
    FlsStep(x, 8, 0xff000000, 0x100);
    if And(x, 0xff000000) == 0 {
      x := Shl32(x, 0x100);
      r := r - 8;
    }
    FlsStep(x, 4, 0xf0000000, 0x10);
    if And(x, 0xf0000000) == 0 {
      x := Shl32(x, 0x10);
      r := r - 4;
    }
    FlsStep(x, 2, 0xc0000000, 4);
    if And(x, 0xc0000000) == 0 {
      x := Shl32(x, 4);
      r := r - 2;
    }
    FlsStep(x, 1, 0x80000000, 2);
    if And(x, 0x80000000) == 0 {
      x := Shl32(x, 2);
      r := r - 1;
    }
    BitLengthUnique(x, 32);
  }

  // ------------------------------------------------------------------ powers of two

  /** `roundup_pow2`, with the wrap-around of `depth - 1` and the truncation to 32 bits. */
  function RoundupPow2(depth: U32): U32 { Pow2(BitLength(Sub32(depth, 1))) % 0x1_0000_0000 }

  ghost predicate LeastPow2(r: nat, n: nat) {
    (exists k :: r == Pow2(k)) && n <= r && forall k :: n <= Pow2(k) ==> r <= Pow2(k)
  }

  lemma Double(k: nat)
    ensures Pow2(k) == if k == 0 then 1 else 2 * Pow2(k - 1)
  {
  }

  lemma ExponentLeast(n: nat)
    requires n >= 1
    ensures LeastPow2(Pow2(BitLength(n - 1)), n)
    ensures Pow2(BitLength(n - 1)) < 2 * n
  {
    hide Pow2, BitLength;
    BitLengthExact(n - 1);
    Double(BitLength(n - 1));
    Double(0);
    BitLengthUnique(0, 0);
    forall k: nat | n <= Pow2(k) ensures Pow2(BitLength(n - 1)) <= Pow2(k) {
      if k < BitLength(n - 1) {
        Pow2Monotone(k, BitLength(n - 1) - 1);
      } else {
        Pow2Monotone(BitLength(n - 1), k);
      }
    }
  }

  /** The result is the least power of two that is not smaller exactly for arguments from 1 to 2^31; for
      all others it is zero. */
  lemma RoundupExactly(n: U32)
    ensures LeastPow2(RoundupPow2(n), n) <==> 1 <= n <= 0x8000_0000
    ensures !(1 <= n <= 0x8000_0000) ==> RoundupPow2(n) == 0
  {
    hide BitLength, Pow2;
    Pow2Word();
    if 1 <= n <= 0x8000_0000 {
      ExponentLeast(n);
      assert n <= Pow2(31);
    } else {
      assert Sub32(n, 1) >= 0x8000_0000;
      BitLengthUnique(Sub32(n, 1), 32);
    }
  }

  // ------------------------------------------------------------------ pages

  /** `npages`: size_t arithmetic, and the truncation of its result to the word `__fls` takes. */
  function Npages(size: U64, pageSize: U32): nat
    requires pageSize > 0
  {
    BitLength((size - 1) % 0x1_0000_0000_0000_0000 / pageSize % 0x1_0000_0000)
  }

  /** Pages that `size` bytes need. */
  function Pages(size: nat, pageSize: nat): nat
    requires pageSize > 0
  {
    (size + pageSize - 1) / pageSize
  }

  lemma CeilExact(size: nat, page: nat)
    requires size > 0 && page > 0
    ensures Pages(size, page) == (size - 1) / page + 1
    ensures size <= Pages(size, page) * page < size + page
  {
    var q := (size - 1) / page;
    assert size + page - 1 == page * (q + 1) + (size - 1) % page;
    DivModUnique(size + page - 1, page, q + 1, (size - 1) % page);
    assert page * q + (size - 1) % page == size - 1;
    assert (q + 1) * page == page * q + page;
  }

  /** For sizes whose pages fit a word, the exponent gives at least the pages needed, and less than twice
      as many. */
  lemma NpagesExact(size: U64, page: U32)
    requires 0 < size && page > 0 && (size - 1) / page < 0x1_0000_0000
    ensures LeastPow2(Pow2(Npages(size, page)), Pages(size, page))
    ensures Pages(size, page) <= Pow2(Npages(size, page)) < 2 * Pages(size, page)
  {
    hide BitLength, Pow2, Pages;
    CeilExact(size, page);
    NpagesPlain(size, page);
    ExponentLeast(Pages(size, page));
  }

  lemma NpagesPlain(size: U64, page: U32)
    requires 0 < size && page > 0 && (size - 1) / page < 0x1_0000_0000
    ensures Npages(size, page) == BitLength((size - 1) / page)
  {
    hide BitLength;
    ModSmall(size - 1, 0x1_0000_0000_0000_0000);
    assert 0 <= (size - 1) / page;
    ModSmall((size - 1) / page, 0x1_0000_0000);
  }

  /** The completion queue's size, rounded up to 64 bytes. */
  function CqSize(cqEntries: nat): nat { (KRING_SIZE + cqEntries * SIZEOF_CQE + 63) / 64 * 64 }

  function SqSize(entries: nat): nat { SIZEOF_SQE * entries }

  /** 320 bytes and 16 for each entry, rounded up to a multiple of 64; and 64 bytes for each submission entry. */
  lemma QueueSizes(entries: nat)
    ensures CqSize(entries) % 64 == 0 && 320 + 16 * entries <= CqSize(entries) < 320 + 16 * entries + 64
    ensures SqSize(entries) == 64 * entries
  {
  }

  lemma AlignUp(x: nat)
    requires x + 63 < WORD * WORD
    ensures And(x + 63, WORD * WORD - 64) == (x + 63) / 64 * 64 && x <= (x + 63) / 64 * 64 < x + 64
  {
    Pow2Word();
    AndHigh(x + 63, 6, 64);
  }

  /** A size that is a whole number of pages, at least the aligned completion queue and the submission queue,
      and less than twice what they need in pages. */
  ghost predicate Fitting(size: nat, entries: U32, cqEntries: U32, page: U32)
    requires page > 0
  {
    var cq, sq := CqSize(cqEntries), SqSize(entries);
    size % page == 0 && cq + sq <= size < 2 * (Pages(cq, page) + Pages(sq, page)) * page
  }

  /** `rings_size`, which computes in 64 bits. Within the kernel's limits the size is a fitting one. */
  method RingsSize(entries: U32, cqEntries: U32, pageSize: U32) returns (size: U64)
    requires pageSize > 0
    ensures size == (Pow2(Npages(CqSize(cqEntries), pageSize)) + Pow2(Npages(SqSize(entries), pageSize))) * pageSize
                    % 0x1_0000_0000_0000_0000
    ensures 0 < entries <= KERN_MAX_ENTRIES && cqEntries <= KERN_MAX_CQ_ENTRIES ==>
              Fitting(size, entries, cqEntries, pageSize)
  {
    hide And, BitLength, Pow2, Pages, Npages;
    var cqSize := KRING_SIZE;
    cqSize := cqSize + cqEntries * SIZEOF_CQE;
    AlignUp(cqSize);
    cqSize := And(cqSize + 63, 0xFFFF_FFFF_FFFF_FFC0);
    var pages := Pow2(Npages(cqSize, pageSize));
    var sqSize := SIZEOF_SQE * entries;
    pages := pages + Pow2(Npages(sqSize, pageSize));
    if 0 < entries <= KERN_MAX_ENTRIES && cqEntries <= KERN_MAX_CQ_ENTRIES {
      BothQueues(cqSize, sqSize, pageSize);
    }
    size := pages * pageSize % 0x1_0000_0000_0000_0000;
  }

  lemma BothQueues(cqSize: nat, sqSize: nat, page: U32)
    requires 0 < cqSize <= 0x20_0000 && 0 < sqSize <= 0x20_0000 && 0 < page
    ensures var size := (Pow2(Npages(cqSize, page)) + Pow2(Npages(sqSize, page))) * page;
            && size % page == 0 && cqSize + sqSize <= size < 0x1_0000_0000_0000_0000
            && size < 2 * (Pages(cqSize, page) + Pages(sqSize, page)) * page
  {
    hide BitLength, Pow2, Pages, Npages;
    QueuePages(cqSize, page);
    QueuePages(sqSize, page);
    Together(Pow2(Npages(cqSize, page)), Pages(cqSize, page), Pow2(Npages(sqSize, page)), Pages(sqSize, page), page);
  }

  lemma QueuePages(size: nat, page: U32)
    requires 0 < size <= 0x20_0000 && page > 0
    ensures size <= Pages(size, page) * page < size + page
    ensures Pages(size, page) <= Pow2(Npages(size, page)) < 2 * Pages(size, page)
  {
    hide BitLength, Pow2, Pages, Npages;
    DivAtMost(size - 1, page);
    NpagesExact(size, page);
    CeilExact(size, page);
  }

  lemma DivAtMost(x: nat, p: nat)
    requires p > 0
    ensures x / p <= x
  {
    var q := x / p;
    MulMonotone(q, 1, p);
    assert x == p * q + x % p;
  }

  lemma Together(a: nat, ca: nat, b: nat, cb: nat, page: nat)
    requires 0 < page && ca <= a < 2 * ca && cb <= b < 2 * cb
    ensures ca * page + cb * page <= (a + b) * page < 2 * (ca + cb) * page
    ensures (a + b) * page % page == 0
    ensures 2 * (ca + cb) * page == 2 * (ca * page) + 2 * (cb * page)
  {
    MulLess(ca - 1, a, page);
    MulLess(cb - 1, b, page);
    MulLess(a + b, 2 * (ca + cb), page);
    assert (a + b) * page == a * page + b * page;
    DivModUnique((a + b) * page, page, a + b, 0);
  }

  // ------------------------------------------------------------------ the memory a ring needs

  function Clamped(n: U32, limit: U32): (r: U32)
    ensures r <= n && r <= limit && (r == n || r == limit)
  {
    if n > limit then limit else n
  }

  /** The entries of the two queues that a set-up ends with. */
  function SqEntries(entries: U32): U32 { RoundupPow2(Clamped(entries, KERN_MAX_ENTRIES)) }

  function CqEntries(entries: U32, cqSize: bool, cqEntries: U32): U32 {
    if cqSize then RoundupPow2(Clamped(cqEntries, KERN_MAX_CQ_ENTRIES)) else 2 * SqEntries(entries) % 0x1_0000_0000
  }

  /** A set-up that is refused: an empty queue, one that is too large and may not be clamped, or a
      completion queue that ends up smaller than the submission queue. */
  predicate Refused(entries: U32, cqSize: bool, clamp: bool, cqEntries: U32) {
    || entries == 0 || (entries > KERN_MAX_ENTRIES && !clamp)
    || (cqSize && (cqEntries == 0 || (cqEntries > KERN_MAX_CQ_ENTRIES && !clamp)
                   || CqEntries(entries, cqSize, cqEntries) < SqEntries(entries)))
  }

  /** The submission queue gets the least power of two that holds the entries, up to 32768; the completion queue
      gets twice that, or the least power of two that holds what was asked for, up to 65536. */
  lemma EntriesExactly(entries: U32, cqSize: bool, cqEntries: U32)
    requires entries > 0 && (cqSize ==> cqEntries > 0)
    ensures LeastPow2(SqEntries(entries), if entries > 32768 then 32768 else entries)
    ensures !cqSize ==> CqEntries(entries, cqSize, cqEntries) == 2 * SqEntries(entries)
    ensures cqSize ==>
              LeastPow2(CqEntries(entries, cqSize, cqEntries), if cqEntries > 65536 then 65536 else cqEntries)
  {
    hide RoundupPow2, Pow2, LeastPow2;
    Limits();
    RoundupBelow(Clamped(entries, KERN_MAX_ENTRIES), 15);
    RoundupExactly(Clamped(entries, KERN_MAX_ENTRIES));
    if cqSize {
      RoundupExactly(Clamped(cqEntries, KERN_MAX_CQ_ENTRIES));
    }
  }

  /** A set-up is refused exactly for an empty queue, for more than 32768 and 65536 entries that may not be clamped,
      and if a power of two holds the completion entries but not the submission entries. */
  lemma RefusedExactly(entries: U32, cqSize: bool, clamp: bool, cqEntries: U32)
    ensures var sq, cq := if entries > 32768 then 32768 else entries, if cqEntries > 65536 then 65536 else cqEntries;
            Refused(entries, cqSize, clamp, cqEntries) <==>
              || entries == 0 || (entries > 32768 && !clamp)
              || (cqSize && (cqEntries == 0 || (cqEntries > 65536 && !clamp) || exists k: nat :: cq <= Pow2(k) < sq))
  {
    hide RoundupPow2, Pow2, LeastPow2, SqEntries, CqEntries;
    if entries != 0 && cqSize && cqEntries != 0 {
      EntriesExactly(entries, cqSize, cqEntries);
      LeastCompare(CqEntries(entries, cqSize, cqEntries), if cqEntries > 65536 then 65536 else cqEntries,
                   SqEntries(entries), if entries > 32768 then 32768 else entries);
    }
  }

  /** One least power of two is smaller than another exactly if it lies between the numbers. */
  lemma LeastCompare(r: nat, n: nat, r': nat, n': nat)
    requires LeastPow2(r, n) && LeastPow2(r', n')
    ensures r < r' <==> exists k: nat :: n <= Pow2(k) < n'
  {
    hide Pow2;
    if r < r' {
      var k: nat :| r == Pow2(k);
      assert n' <= Pow2(k) ==> r' <= Pow2(k);
      assert n <= Pow2(k) < n';
    }
    if k: nat :| n <= Pow2(k) < n' {
      assert r <= Pow2(k);
    }
  }

  /** Rounding up keeps the kernel's limits, which are powers of two. */
  lemma RoundupBelow(n: U32, k: nat)
    requires 1 <= n <= Pow2(k) && k <= 31
    ensures n <= RoundupPow2(n) <= Pow2(k)
  {
    Pow2Word();
    Pow2Monotone(k, 31);
    RoundupExactly(n);
  }

  lemma Limits()
    ensures Pow2(15) == KERN_MAX_ENTRIES && Pow2(16) == KERN_MAX_CQ_ENTRIES
  {
    Pow2Word();
    Double(16);
  }

  /** `io_uring_mlock_size_params` after the probe ring, whose features are an input; `cqSize` and `clamp`
      are the two flags and `sysPage` is what sysconf returns. */
  method MlockSizeParams(nativeWorkers: bool, entries0: U32, cqSize: bool, clamp: bool, cqEntries0: U32, sysPage: int)
    returns (r: int)
    requires sysPage != 0 && sysPage < 0x1_0000_0000
    ensures nativeWorkers ==> r == 0
    ensures !nativeWorkers ==> (r == -EINVAL <==> Refused(entries0, cqSize, clamp, cqEntries0))
    ensures !nativeWorkers && r != -EINVAL ==>
              var page := if sysPage < 0 then 4096 else sysPage;
              r >= 0 && Fitting(r, SqEntries(entries0), CqEntries(entries0, cqSize, cqEntries0), page)
  {
    hide RoundupPow2, Pages, Pow2, Npages;
    Limits();
    if nativeWorkers {
      return 0;
    }
    var entries := entries0;
    if entries == 0 {
      return -EINVAL;
    }
    if entries > KERN_MAX_ENTRIES {
      if !clamp {
        return -EINVAL;
      }
      entries := KERN_MAX_ENTRIES;
    }
    RoundupBelow(entries, 15);
    entries := RoundupPow2(entries);
    var cqEntries: U32;
    if cqSize {
      if cqEntries0 == 0 {
        return -EINVAL;
      }
      cqEntries := cqEntries0;
      if cqEntries > KERN_MAX_CQ_ENTRIES {
        if !clamp {
          return -EINVAL;
        }
        cqEntries := KERN_MAX_CQ_ENTRIES;
      }
      RoundupBelow(cqEntries, 16);
      cqEntries := RoundupPow2(cqEntries);
      if cqEntries < entries {
        return -EINVAL;
      }
    } else {
      cqEntries := 2 * entries % 0x1_0000_0000;
    }
    var pageSize := sysPage;
    if pageSize < 0 {
      pageSize := 4096;
    }
    r := RingsSize(entries, cqEntries, pageSize);
  }
}
