/** What programs were given and give back, next to the address spaces: a record of a program
    never names a block of any chunk, so a program cannot free one. */
module AllocationRecords {
  import opened Words
  import opened BlockHeap
  import opened KernelHeap
  import opened Ownership
  import opened Memory
  import opened Paging
  import opened ProcessLoader
  import opened ProcessMemory
  import opened AddressSpaces

  type Records = seq<Allocation>

  /** A new process's records. */
  function Blank(): (rs: Records)
    ensures |rs| == MAX_ALLOCATIONS
  {
    seq(MAX_ALLOCATIONS, _ => Allocation(0, 0))
  }

  predicate InNoSpace(spaces: set<Space>, b: int) { forall c :: c in spaces ==> b !in c }

  /** The block a record names, counted from the start of the pool. */
  function NamedBlock(saddr: Word, r: Allocation): int { AddressToBlock(saddr, r.p) }

  ghost predicate RecordsApart(saddr: Word, spaces: set<Space>, rs: Records) {
    forall i :: 0 <= i < |rs| && rs[i].p != 0 ==> InNoSpace(spaces, NamedBlock(saddr, rs[i]))
  }

  lemma BlankIsApart(saddr: Word, spaces: set<Space>)
    ensures RecordsApart(saddr, spaces, Blank())
  {
  }

  /** A free block belongs to no chunk. */
  lemma FreeInNoSpace(saddr: Word, s: System, b: nat)
    requires Sound(saddr, s) && b < |s.entries| && IsFree(s.entries[b])
    ensures InNoSpace(s.spaces, b)
  {
  }

  /** process_malloc in the space bs, with the records before and after. */
  ghost predicate Gives(saddr: Word, s: System, rs: Records, bs: Space, size: Word, p: Word, t: System, us: Records)
    requires Sound(saddr, s) && IsRam(t.ram)
  {
    var b, i := StartBlock(s.entries, BlocksFor(size)), Find(rs, 0);
    && b >= 0 && StepOk(saddr, s, Operate(bs), t)
    && if p == 0 then us == rs
       else p == BlockToAddress(saddr, b) && i < |rs| && us == rs[i := Allocation(p, size)]
  }

  /** process_free in the space bs: its pages are unmapped, then its block is freed. */
  ghost predicate Returns(saddr: Word, s: System, rs: Records, bs: Space, p: Word, mid: System, t: System, us: Records)
    requires Sound(saddr, s) && IsRam(mid.ram)
  {
    var i := Find(rs, p);
    if i == |rs| then t == s && us == rs
    else
      && us == rs[i := Allocation(0, 0)]
      && StepOk(saddr, s, Operate(bs), mid) && mid.entries == s.entries
      && t == System(FreedAddress(s.entries, saddr, p), mid.ram, s.spaces)
  }

  /** Where the scan starts a run is free, whether the run fits or not. */
  lemma ScannedIsFree(e: Table, n: nat)
    requires StartBlock(e, n) >= 0
    ensures StartBlock(e, n) < |e| && IsFree(e[StartBlock(e, n)])
  {
    if n > 0 {
      ScanExact(e, n);
      assert LowestRunFrom(e, n, 0) >= 0 ==> IsLowestRun(e, LowestRunFrom(e, n, 0), n);
    }
  }

  /** Giving memory keeps the spaces, and the new record names a block that was free, whatever
      its size. */
  lemma GiveKeeps(saddr: Word, s: System, rs: Records, bs: Space, size: Word, p: Word, t: System, us: Records)
    requires Sound(saddr, s) && IsRam(t.ram) && Gives(saddr, s, rs, bs, size, p, t, us)
    requires RecordsApart(saddr, s.spaces, rs)
    ensures Sound(saddr, t) && t.spaces == s.spaces && RecordsApart(saddr, t.spaces, us)
  {
    StepKeeps(saddr, s, Operate(bs), t);
    var b := StartBlock(s.entries, BlocksFor(size));
    ScannedIsFree(s.entries, BlocksFor(size));
    FreeInNoSpace(saddr, s, b);
    BlockAddressRoundTrip(saddr, |s.entries|, b);
    hide Sound, StartBlock, BlocksFor, AddressToBlock, BlockToAddress, InNoSpace;
  }

  /** Taking memory back frees no block of any chunk: the record says so. */
  lemma ReturnKeeps(saddr: Word, s: System, rs: Records, bs: Space, p: Word, mid: System, t: System, us: Records)
    requires Sound(saddr, s) && IsRam(mid.ram) && Returns(saddr, s, rs, bs, p, mid, t, us)
    requires RecordsApart(saddr, s.spaces, rs)
    ensures Sound(saddr, t) && t.spaces == s.spaces && RecordsApart(saddr, t.spaces, us)
    ensures t == s || (Sound(saddr, mid) && StepOk(saddr, s, Operate(bs), mid) && IsRam(t.ram) &&
      (t == mid || (AddressToBlock(saddr, p) >= 0 && StepOk(saddr, mid, FreeBlock(AddressToBlock(saddr, p)), t))))
  {
    var i, b := Find(rs, p), AddressToBlock(saddr, p);
    if i < |rs| {
      StepKeeps(saddr, s, Operate(bs), mid);
      assert p != 0 ==> InNoSpace(s.spaces, b) by { assert NamedBlock(saddr, rs[i]) == b; }
      OneFreed(s.entries, saddr, p, b);
      assert mid.spaces == s.spaces;
      hide Sound, AddressToBlock, FreedAddress, NamedBlock;
      if t != mid { StepKeeps(saddr, mid, FreeBlock(b), t); }
    }
  }

  /** Freeing an address clears at most its one block in a table of bytes. */
  lemma OneFreed(e: Table, saddr: Word, p: Word, b: int)
    requires Tidy(e) && b == AddressToBlock(saddr, p)
    ensures FreedAddress(e, saddr, p) == if p != 0 && 0 <= b < |e| then e[b := FREE] else e
  {
  }
}
