/** The heap as a mutable object, its address arithmetic, and the kernel's instance of
    it. All loops of heap.c are here, each proved equal to a function of BlockHeap. */
module KernelHeap {
  import opened Words
  import opened BlockHeap

  const HEAP_START: Word := 0x0100_0000
  const HEAP_BYTES: Word := 100 * 1024 * 1024
  const TOTAL_BLOCKS: nat := 25600

  /** The table lies in low memory, one byte an entry, below the pool it describes. */
  const HEAP_TABLE: Word := 0x7E00

  /** Blocks requested for a size: the aligned size is held in an `int` before the
      division, and the quotient is passed on as `uint32_t`. */
  function BlocksFor(size: Word): Word {
    var aligned := AlignUp(size);
    var asInt := if aligned >= 0x8000_0000 then aligned - WORD else aligned;
    (asInt / PAGE) % WORD
  }

  /** The request is rounded up to whole blocks exactly when the rounded size still fits
      in a signed int. A larger one asks for 2^32 - 2^20 blocks too many, and the largest, whose
      rounding wraps to 0, for none. */
  lemma BlocksForExact(size: Word)
    ensures BlocksFor(size) == (size + PAGE - 1) / PAGE <==> size <= 0x7fff_f000
    ensures 0x7fff_f000 < size <= 0xffff_f000 ==> BlocksFor(size) == 0xfff0_0000 + (size + 4095) / 4096
    ensures size > 0xffff_f000 ==> BlocksFor(size) == 0
  {
    if size > 0x7fff_f000 && size <= WORD - PAGE {
      assert AlignUp(size) >= 0x8000_0000;
      assert BlocksFor(size) == (AlignUp(size) - WORD) / PAGE + WORD;
    }
  }

  /** Block index of an address: the pointer difference as a 32-bit int, divided with
      truncation toward zero. */
  function AddressToBlock(saddr: Word, p: Word): int {
    var d := if p - saddr >= 0x8000_0000 then p - saddr - WORD
             else if p - saddr < -0x8000_0000 then p - saddr + WORD
             else p - saddr;
    if d >= 0 then d / PAGE else -((-d) / PAGE)
  }

  function BlockToAddress(saddr: Word, block: nat): Word {
    (saddr + block * PAGE) % WORD
  }

  /** What freeing an address does to the table. */
  function FreedAddress(e: Table, saddr: Word, p: Word): (r: Table)
    ensures |r| == |e|
  {
    var b := AddressToBlock(saddr, p);
    if p == 0 || b < 0 then e else Freed(e, b)
  }

  predicate ValidPool(saddr: Word, total: nat) {
    HEAP_TABLE + total <= saddr && saddr % PAGE == 0 && saddr + total * PAGE <= 0x8000_0000
  }

  /** NULL and addresses outside the pool free nothing, except that the truncating division
      takes the 4095 addresses just below the pool for its first block. */
  lemma FreeReaches(e: Table, saddr: Word, p: Word)
    requires ValidPool(saddr, |e|)
    ensures FreedAddress(e, saddr, p) ==
      if saddr - PAGE < p < saddr + |e| * PAGE then Freed(e, if p < saddr then 0 else (p - saddr) / PAGE)
      else e
  {
    hide Freed;
    FreedPastEnd(e, AddressToBlock(saddr, p));
    var d := p - saddr;
    if d >= 0x8000_0000 {
      assert AddressToBlock(saddr, p) <= 0;
    } else if d >= 0 {
      assert d / PAGE >= |e| <==> d >= |e| * PAGE;
    } else {
      assert (-d) / PAGE == 0 <==> -d < PAGE;
    }
  }

  lemma FreedPastEnd(e: Table, b: int)
    ensures b >= |e| ==> Freed(e, b) == e
  {
  }

  /** On the pool, block and address conversion are inverse, and addresses are aligned
      and never NULL. */
  lemma BlockAddressRoundTrip(saddr: Word, total: nat, b: nat)
    requires ValidPool(saddr, total) && b < total
    ensures BlockToAddress(saddr, b) == saddr + b * PAGE
    ensures BlockToAddress(saddr, b) % PAGE == 0 && BlockToAddress(saddr, b) > 0
    ensures BlockToAddress(saddr, b) + PAGE <= 0x8000_0000
    ensures AddressToBlock(saddr, BlockToAddress(saddr, b)) == b
  {
  }

  /** In addresses: a request that overruns is answered with memory that reaches past the end
      of the pool, and marking it writes behind the table, by the same number of blocks. */
  lemma OverrunReaches(e: Table, saddr: Word, n: nat)
    requires ValidPool(saddr, |e|) && n > 0 && Overruns(e, n)
    ensures var p := BlockToAddress(saddr, StartBlock(e, n));
      && saddr <= p < saddr + |e| * PAGE
      && p + n * PAGE == saddr + |e| * PAGE + Excess(e, n) * PAGE
      && HEAP_TABLE + StartBlock(e, n) + n == HEAP_TABLE + |e| + Excess(e, n)
  {
    OverrunExtent(e, n);
    BlockAddressRoundTrip(saddr, |e|, StartBlock(e, n));
    var s := TrailingStart(e);
    assert (s + n) * PAGE == s * PAGE + n * PAGE == |e| * PAGE + Excess(e, n) * PAGE;
  }

  class Heap {
    const entries: array<nat>
    const saddr: Word
    const entryType: EntryType

    ghost predicate Valid() {
      ValidPool(saddr, entries.Length)
    }

    constructor (saddr: Word, total: nat, entryType: EntryType)
      ensures fresh(entries) && entries[..] == Fresh(total).entries
      ensures this.saddr == saddr && this.entryType == entryType
    {
      this.saddr := saddr;
      this.entryType := entryType;
      this.entries := new nat[total](_ => FREE);
      new;
      assert entries[..] == Fresh(total).entries;
    }

    /** The table scan. */
    method GetStartBlock(n: Word) returns (r: int)
      ensures r == StartBlock(entries[..], n)
    {
      var bc: nat := 0;
      var bs: int := -1;
      var i := 0;
      ghost var e := entries[..];
      while i < entries.Length
        invariant 0 <= i <= entries.Length && e == entries[..]
        invariant bs == -1 || 0 <= bs < i
        invariant bc == if bs == -1 then 0 else i - bs
        invariant bs == -1 ==> i == 0 || !IsFree(e[i - 1])
        invariant bs >= 0 ==> RunFree(e, bs, i - bs) && (bs == 0 || !IsFree(e[bs - 1]))
        invariant n > 0 ==> bc < n
        invariant forall s: nat :: n > 0 && s + n <= i ==> !RunFree(e, s, n)
      {
        if !IsFree(entries[i]) {
          bc := 0;
          bs := -1;
        } else {
          if bs == -1 { bs := i; }
          bc := bc + 1;
          if bc == n {
            FirstRunIsLowest(e, n, bs);
            return bs;
          }
        }
        i := i + 1;
      }
      ScanToEnd(e, n, bs);
      if bs == -1 { return -ENOMEM; }
      return bs;
    }

    /** Mark a run, exactly as the running `entry` value does it. */
    method MarkBlocksTaken(start: nat, total: nat)
      requires start + total <= entries.Length
      modifies entries
      ensures entries[..] == Marked(entryType, old(entries[..]), start, total)
    {
      var endBlock := start + total - 1;
      var entry := Store(entryType, TAKEN + IS_FIRST);
      if total > 1 { entry := Store(entryType, entry + HAS_NEXT); }
      var i := start;
      while i <= endBlock
        invariant start <= i <= start + total
        invariant i < start + total ==> entry == RunEntry(entryType, i - start, total)
        invariant forall j :: 0 <= j < entries.Length ==>
          entries[j] == if Within(start, i - start, j)
                        then RunEntry(entryType, j - start, total) else old(entries[j])
      {
        entries[i] := entry;
        entry := TAKEN;
        if i != endBlock - 1 { entry := Store(entryType, entry + HAS_NEXT); }
        i := i + 1;
      }
      assert entries[..] == Marked(entryType, old(entries[..]), start, total);
    }

    /** Clear a run by following its HAS_NEXT flags. */
    method MarkBlocksFree(start: nat)
      modifies entries
      ensures entries[..] == Freed(old(entries[..]), start)
    {
      var i := start;
      ghost var goal := Freed(entries[..], start);
      while i < entries.Length
        invariant start <= i
        invariant Freed(entries[..], i) == goal
      {
        var entry := entries[i];
        ghost var before := entries[..];
        entries[i] := FREE;
        assert entries[..] == before[i := FREE];
        if !HasNext(entry) { return; }
        i := i + 1;
      }
    }

    method MallocBlocks(n: Word) returns (p: Word)
      requires Valid() && !Overruns(entries[..], n)
      modifies entries
      ensures StartBlock(old(entries[..]), n) < 0 ==> p == 0 && entries[..] == old(entries[..])
      ensures StartBlock(old(entries[..]), n) >= 0 ==>
        var s := StartBlock(old(entries[..]), n);
        p == BlockToAddress(saddr, s) && entries[..] == Marked(entryType, old(entries[..]), s, n)
    {
      var start := GetStartBlock(n);
      if start < 0 { return 0; }
      p := BlockToAddress(saddr, start);
      MarkBlocksTaken(start, n);
    }

    method Malloc(size: Word) returns (p: Word)
      requires Valid() && !Overruns(entries[..], BlocksFor(size))
      modifies entries
      ensures var n := BlocksFor(size);
        StartBlock(old(entries[..]), n) < 0 ==> p == 0 && entries[..] == old(entries[..])
      ensures var n := BlocksFor(size);
        StartBlock(old(entries[..]), n) >= 0 ==>
          var s := StartBlock(old(entries[..]), n);
          p == BlockToAddress(saddr, s) && entries[..] == Marked(entryType, old(entries[..]), s, n)
    {
      p := MallocBlocks(BlocksFor(size));
    }

    method Free(p: Word)
      modifies entries
      ensures entries[..] == FreedAddress(old(entries[..]), saddr, p)
    {
      if p == 0 { return; }
      var b := AddressToBlock(saddr, p);
      // A negative block index becomes a huge unsigned start, and the loop does nothing.
      if b >= 0 { MarkBlocksFree(b); }
    }
  }

  lemma FirstRunIsLowest(e: Table, n: nat, bs: nat)
    requires n > 0 && RunFree(e, bs, n)
    requires forall s: nat :: s + n < bs + n ==> !RunFree(e, s, n)
    ensures StartBlock(e, n) == bs
  {
    ScanExact(e, n);
  }

  lemma ScanToEnd(e: Table, n: nat, bs: int)
    requires bs == -1 || 0 <= bs < |e|
    requires bs == -1 ==> |e| == 0 || !IsFree(e[|e| - 1])
    requires bs >= 0 ==> RunFree(e, bs, |e| - bs) && (bs == 0 || !IsFree(e[bs - 1]))
    requires forall s: nat :: n > 0 && s + n <= |e| ==> !RunFree(e, s, n)
    ensures StartBlock(e, n) == if bs == -1 then -ENOMEM else bs
  {
    assert n > 0 ==> !HasRun(e, n);
    var s := TrailingStart(e);
    if bs >= 0 {
      assert s <= bs by { assert IsFree(e[|e| - 1]); }
    }
  }

  /** heap_create: both ends block-aligned and the table as long as the pool, whose size is
      taken modulo 2^32. */
  method HeapCreate(p: Word, end: Word, total: Word) returns (ret: int, heap: Heap?)
    ensures ret == 0 <==>
      p % PAGE == 0 && end % PAGE == 0 && total * PAGE < WORD && (p + total * PAGE) % WORD == end
    ensures ret == 0 ==> heap != null && fresh(heap) && fresh(heap.entries) && heap.saddr == p
    ensures ret == 0 ==> heap.entryType == UnsignedChar && heap.entries[..] == Fresh(total).entries
    ensures ret != 0 ==> ret == -EINVAL
  {
    if p % PAGE != 0 || end % PAGE != 0 { return -EINVAL, null; }
    TableLength(p, end, total);
    if total != (end - p) % WORD / PAGE { return -EINVAL, null; }
    heap := new Heap(p, total, UnsignedChar);
    ret := 0;
  }

  lemma TableLength(p: Word, end: Word, total: Word)
    requires p % PAGE == 0 && end % PAGE == 0
    ensures total == (end - p) % WORD / PAGE <==> total * PAGE < WORD && (p + total * PAGE) % WORD == end
  {
    var a, b := p / PAGE, end / PAGE;
    assert p == a * PAGE && end == b * PAGE;
    assert (end - p) % WORD == if p <= end then end - p else end - p + WORD;
    assert (end - p) % WORD / PAGE == if a <= b then b - a else b - a + 0x10_0000;
    if total * PAGE < WORD {
      assert (p + total * PAGE) % WORD ==
        if p + total * PAGE < WORD then p + total * PAGE else p + total * PAGE - WORD;
    }
  }

  /** kheap_init never panics: the configured pool is always accepted. */
  method KheapInit() returns (heap: Heap)
    ensures fresh(heap) && fresh(heap.entries)
    ensures heap.Valid() && heap.saddr == HEAP_START && heap.entryType == UnsignedChar
    ensures heap.entries[..] == Fresh(TOTAL_BLOCKS).entries
    ensures heap.saddr == 0x0100_0000 && heap.entries.Length == 25600
    ensures forall i :: 0 <= i < 25600 ==> heap.entries[i] == 0
  {
    var ret, h := HeapCreate(HEAP_START, HEAP_START + HEAP_BYTES, HEAP_BYTES / PAGE);
    heap := h;
  }
}
