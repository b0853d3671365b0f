/** The block heap: first-fit allocation over a table with one entry per 4096-byte
    block. A run of blocks is recorded only through flag bits of its entries, and
    freeing re-discovers the length of the run from those flags. */
module BlockHeap {
  import opened Words

  const FREE: nat := 0x00
  const TAKEN: nat := 0x01
  const IS_FIRST: nat := 0x80
  const HAS_NEXT: nat := 0x100

  /** The C type of a table entry. The kernel declares `unsigned char`, which has no
      room for HAS_NEXT; `Wider` is any entry type that keeps that bit. */
  datatype EntryType = UnsignedChar | Wider

  type Table = seq<nat>

  function Store(t: EntryType, e: nat): nat {
    if t.UnsignedChar? then e % 256 else e
  }

  predicate IsFree(e: nat) { e % 16 == FREE }

  predicate HasNext(e: nat) { e / 256 % 2 == 1 }

  /** The two tests above are the masks of heap.h, and the flags are separate bits. */
  lemma FlagMasks(e: nat)
    ensures IsFree(e) <==> And(e, 0x0f) == FREE
    ensures HasNext(e) <==> And(e, HAS_NEXT) != 0
    ensures Or(TAKEN, IS_FIRST) == TAKEN + IS_FIRST
    ensures Or(TAKEN + IS_FIRST, HAS_NEXT) == TAKEN + IS_FIRST + HAS_NEXT
    ensures Or(TAKEN, HAS_NEXT) == TAKEN + HAS_NEXT
  {
    TypeMask(e);
    NextMask(e);
    SeparateFlags();
    hide And, Or;
  }

  lemma TypeMask(e: nat)
    ensures And(e, 0x0f) == e % 16
  {
    Pow2Values();
    hide And;
    AndLowOnes(e, 4);
  }

  lemma NextMask(e: nat)
    ensures And(e, HAS_NEXT) == 256 * (e / 256 % 2)
  {
    ShiftByte(e);
    ShiftByte(1);
    AndBit(e, 8);
    ShiftByte(Shr(e, 8) % 2);
    hide And, Shl, Shr;
  }

  lemma SeparateFlags()
    ensures Or(TAKEN, IS_FIRST) == TAKEN + IS_FIRST && Or(TAKEN, HAS_NEXT) == TAKEN + HAS_NEXT
    ensures Or(TAKEN + IS_FIRST, HAS_NEXT) == TAKEN + IS_FIRST + HAS_NEXT
  {
    OrOne(64);
    OrOne(128);
    hide Or;
    OrDoubled(1, 2);
    OrOne(1);
    OrDoubled(2, 4);
    OrDoubled(4, 8);
    OrDoubled(8, 16);
    OrDoubled(16, 32);
    OrDoubled(32, 64);
    OrDoubled(64, 128);
  }

  lemma OrOne(y: nat)
    ensures Or(1, 2 * y) == 1 + 2 * y
  {
    OrZeroLeft(y);
  }

  /** An even second operand: the last bit is that of the first. */
  lemma OrDoubled(x: nat, y: nat)
    ensures Or(2 * x, 2 * y) == 2 * Or(x, y) && Or(2 * x + 1, 2 * y) == 2 * Or(x, y) + 1
  {
    hide Or;
    assert 2 * y / 2 == y && 2 * y % 2 == 0 && x + 1 / 2 == x;
    OrStep(2 * x, x, 0, 2 * y);
    OrStep(2 * x, x, 1, 2 * y);
  }

  // --- marking and freeing as functions of the table -----------------------

  /** The entry stored for block k of a run of n blocks. */
  function RunEntry(t: EntryType, k: nat, n: nat): nat {
    Store(t, TAKEN + (if k == 0 then IS_FIRST else 0) + (if k + 1 < n then HAS_NEXT else 0))
  }

  predicate Within(s: nat, n: nat, i: nat) { s <= i < s + n }

  /** The table with the run of n blocks at s marked taken. */
  function Marked(t: EntryType, e: Table, s: nat, n: nat): (r: Table)
    ensures |r| == |e|
    ensures forall i :: 0 <= i < |e| ==> r[i] == MarkedAt(t, e, s, n, i)
  {
    seq(|e|, i requires 0 <= i < |e| => MarkedAt(t, e, s, n, i))
  }

  function MarkedAt(t: EntryType, e: Table, s: nat, n: nat, i: nat): nat
    requires i < |e|
  {
    if Within(s, n, i) then RunEntry(t, i - s, n) else e[i]
  }

  /** The table with the n blocks at s cleared. */
  function Cleared(e: Table, s: nat, n: nat): (r: Table)
    ensures |r| == |e|
    ensures forall i :: 0 <= i < |e| ==> r[i] == ClearedAt(e, s, n, i)
  {
    seq(|e|, i requires 0 <= i < |e| => ClearedAt(e, s, n, i))
  }

  function ClearedAt(e: Table, s: nat, n: nat, i: nat): nat
    requires i < |e|
  {
    if Within(s, n, i) then FREE else e[i]
  }

  /** Clear entries from `i` on, up to and including the first without HAS_NEXT. */
  function Freed(e: Table, i: nat): (r: Table)
    ensures |r| == |e|
    decreases |e| - i
  {
    if i >= |e| then e
    else if HasNext(e[i]) then Freed(e[i := FREE], i + 1)
    else e[i := FREE]
  }

  predicate RunFree(e: Table, s: nat, n: nat) {
    s + n <= |e| && forall i :: s <= i < s + n ==> IsFree(e[i])
  }

  ghost predicate HasRun(e: Table, n: nat) {
    exists s: nat :: RunFree(e, s, n)
  }

  predicate IsLowestRun(e: Table, s: nat, n: nat) {
    RunFree(e, s, n) && forall j: nat :: j < s ==> !RunFree(e, j, n)
  }

  /** Start of the free blocks at the end of the table. */
  function TrailingStart(e: Table): (s: nat)
    ensures s <= |e|
    ensures forall i :: s <= i < |e| ==> IsFree(e[i])
    ensures s > 0 ==> !IsFree(e[s - 1])
  {
    if e == [] || !IsFree(e[|e| - 1]) then |e| else TrailingStart(e[..|e| - 1])
  }

  function LowestRunFrom(e: Table, n: nat, from: nat): (r: int)
    requires forall j: nat :: j < from ==> !RunFree(e, j, n)
    ensures r >= 0 ==> IsLowestRun(e, r, n)
    ensures r < 0 ==> r == -1 && !HasRun(e, n)
    decreases |e| - from
  {
    if from + n > |e| then -1
    else if RunFree(e, from, n) then from
    else if from == |e| then -1
    else LowestRunFrom(e, n, from + 1)
  }

  /** What the table scan returns, for every table and every request. */
  function StartBlock(e: Table, n: nat): (r: int) {
    var s := LowestRunFrom(e, n, 0);
    if n > 0 && s >= 0 then s
    else if TrailingStart(e) < |e| then TrailingStart(e)
    else -ENOMEM
  }

  /** The scan returned a start whose run does not fit in the table. */
  predicate Overruns(e: Table, n: nat) {
    StartBlock(e, n) >= 0 && StartBlock(e, n) + n > |e|
  }

  /** A non-empty request is answered with a run that is too short exactly when no run
      is long enough and the last block is free; otherwise the answer is the lowest
      run, or the error when there is none. */
  lemma ScanExact(e: Table, n: nat)
    requires n > 0
    ensures HasRun(e, n) ==> StartBlock(e, n) >= 0 && IsLowestRun(e, StartBlock(e, n), n)
    ensures Overruns(e, n) <==> !HasRun(e, n) && |e| > 0 && IsFree(e[|e| - 1])
    ensures StartBlock(e, n) < 0 <==> !HasRun(e, n) && (|e| == 0 || !IsFree(e[|e| - 1]))
    ensures StartBlock(e, n) < 0 ==> StartBlock(e, n) == -ENOMEM
  {
    if !HasRun(e, n) {
      assert !RunFree(e, TrailingStart(e), n);
    }
  }

  /** An empty request is answered with the start of the free blocks at the end, and fails
      exactly when the last block is taken. */
  lemma ScanNothing(e: Table)
    ensures StartBlock(e, 0) < 0 <==> |e| == 0 || !IsFree(e[|e| - 1])
    ensures var s := StartBlock(e, 0);
      s >= 0 ==> s < |e| && (forall i :: s <= i < |e| ==> IsFree(e[i])) && (s > 0 ==> !IsFree(e[s - 1]))
  {
    assert StartBlock(e, 0) >= 0 ==> StartBlock(e, 0) == TrailingStart(e);
  }

  /** What a request that overruns is given: the free blocks at the end of the table and, past
      it, this many blocks that are not there; as many bytes behind the table are overwritten. */
  function Excess(e: Table, n: nat): int { TrailingStart(e) + n - |e| }

  lemma OverrunExtent(e: Table, n: nat)
    requires n > 0 && Overruns(e, n)
    ensures StartBlock(e, n) == TrailingStart(e) < |e| && 0 < Excess(e, n) < n
    ensures forall i :: TrailingStart(e) <= i < |e| ==> IsFree(e[i])
  {
    ScanExact(e, n);
  }

  /** The witness: two blocks asked of one free block. */
  lemma TwoFromOne()
    ensures Overruns([FREE], 2) && StartBlock([FREE], 2) == 0 && Excess([FREE], 2) == 1
  {
    assert TrailingStart([]) == 0 && [FREE][..0] == [];
    assert TrailingStart([FREE]) == 0;
    ScanExact([FREE], 2);
    assert !HasRun([FREE], 2);
  }

  /** One block can never overrun, and fails only on a full table. */
  lemma ScanOne(e: Table)
    ensures !Overruns(e, 1)
    ensures StartBlock(e, 1) >= 0 ==> StartBlock(e, 1) < |e| && IsFree(e[StartBlock(e, 1)])
    ensures StartBlock(e, 1) < 0 <==> forall i :: 0 <= i < |e| ==> !IsFree(e[i])
  {
    ScanExact(e, 1);
    if |e| > 0 && IsFree(e[|e| - 1]) {
      assert RunFree(e, |e| - 1, 1);
    }
    if i :| 0 <= i < |e| && IsFree(e[i]) {
      assert RunFree(e, i, 1);
    }
  }

  // --- free is the inverse of allocation, through the flags ----------------

  /** Which entries a free clears: those reached from the first through entries that all carry
      the has-next bit. */
  lemma {:induction false} FreedExact(e: Table, i: nat, k: nat)
    requires k < |e|
    ensures Freed(e, i)[k] == if i <= k && (forall j :: i <= j < k ==> e[j] / 256 % 2 == 1) then 0 else e[k]
    decreases |e| - i
  {
    if i < |e| && HasNext(e[i]) {
      var f := e[i := FREE];
      FreedExact(f, i + 1, k);
      assert forall j :: i < j < k ==> f[j] == e[j];
      if forall j :: i + 1 <= j < k ==> f[j] / 256 % 2 == 1 {
        assert forall j :: i <= j < k ==> j == i || f[j] == e[j];
      }
    }
  }

  /** What an allocated run looks like in the declared 8-bit entries, and in wider ones. */
  lemma MarksAre(e: Table, s: nat, n: nat, i: nat)
    requires i < |e|
    ensures Marked(UnsignedChar, e, s, n)[i] ==
      if i < s || i >= s + n then e[i] else if i == s then 0x81 else 0x01
    ensures Marked(Wider, e, s, n)[i] ==
      if i < s || i >= s + n then e[i]
      else (if i == s then 0x81 else 0x01) + (if i == s + n - 1 then 0 else 0x100)
  {
    assert Marked(Wider, e, s, n)[i] == MarkedAt(Wider, e, s, n, i);
  }

  lemma {:induction false} FreedClearsChain(e: Table, i: nat, last: nat)
    requires i <= last < |e|
    requires forall j :: i <= j < last ==> HasNext(e[j])
    requires !HasNext(e[last])
    ensures Freed(e, i) == Cleared(e, i, last + 1 - i)
    decreases last - i
  {
    if i < last {
      FreedClearsChain(e[i := FREE], i + 1, last);
    }
  }

  /** For every run length: freeing restores the table exactly when the entry type
      keeps HAS_NEXT or the run is a single block. */
  lemma FreeInvertsMark(t: EntryType, e: Table, s: nat, n: nat)
    requires n > 0 && s + n <= |e|
    requires forall i :: s <= i < s + n ==> e[i] == FREE
    ensures Freed(Marked(t, e, s, n), s) == e <==> t.Wider? || n == 1
    ensures t.UnsignedChar? ==> Freed(Marked(t, e, s, n), s) == Marked(t, e, s, n)[s := FREE]
    ensures t.UnsignedChar? ==>
      forall i :: s < i < s + n ==> !IsFree(Freed(Marked(t, e, s, n), s)[i])
  {
    var m := Marked(t, e, s, n);
    forall i | s <= i < s + n
      ensures HasNext(m[i]) <==> t.Wider? && i + 1 < s + n
      ensures !IsFree(m[i])
    {
      RunEntryTaken(t, i - s, n);
    }
    if t.Wider? {
      FreedClearsChain(m, s, s + n - 1);
      assert Freed(m, s) == e;
    } else {
      assert !HasNext(m[s]);
      if n == 1 {
        assert Freed(m, s) == e;
      } else {
        assert !IsFree(Freed(m, s)[s + 1]);
      }
    }
  }

  /** The declared 8-bit entry: freeing two blocks gives back one. */
  lemma TwoBlockFreeLeaks()
    ensures Freed(Marked(UnsignedChar, [FREE, FREE], 0, 2), 0) == [FREE, TAKEN]
  {
    assert Marked(UnsignedChar, [FREE, FREE], 0, 2) == [TAKEN + IS_FIRST, TAKEN];
  }

  // --- every run of allocations and frees ----------------------------------

  /** The table together with the allocations handed out (start to length) and the
      blocks no longer owned by anyone but still marked taken. */
  datatype Allocs = Allocs(entries: Table, live: map<nat, nat>, leaked: set<nat>)

  datatype Op = Malloc(blocks: nat) | Release(start: nat)

  ghost predicate Enabled(a: Allocs, op: Op) {
    match op
    case Malloc(n) => n > 0 && HasRun(a.entries, n)
    case Release(s) => s in a.live
  }

  /** The blocks of a run after its first. */
  function Tail(s: nat, n: nat): set<nat> { set i: nat | i < s + n && i != s && Within(s, n, i) }

  ghost function Step(t: EntryType, a: Allocs, op: Op): Allocs
    requires Enabled(a, op)
  {
    match op
    case Malloc(n) =>
      ScanExact(a.entries, n);
      var s := StartBlock(a.entries, n);
      Allocs(Marked(t, a.entries, s, n), a.live[s := n], a.leaked)
    case Release(s) =>
      var n := a.live[s];
      Allocs(Freed(a.entries, s), a.live - {s},
             if t.Wider? then a.leaked else a.leaked + Tail(s, n))
  }

  ghost predicate EnabledRun(t: EntryType, a: Allocs, ops: seq<Op>)
    decreases |ops|
  {
    ops == [] || (Enabled(a, ops[0]) && EnabledRun(t, Step(t, a, ops[0]), ops[1..]))
  }

  ghost function Run(t: EntryType, a: Allocs, ops: seq<Op>): Allocs
    requires EnabledRun(t, a, ops)
    decreases |ops|
  {
    if ops == [] then a else Run(t, Step(t, a, ops[0]), ops[1..])
  }

  ghost predicate Covered(live: map<nat, nat>, i: nat) {
    exists s :: s in live && s <= i < s + live[s]
  }

  /** Every free entry is exactly zero. */
  predicate Clean(e: Table) {
    forall i :: 0 <= i < |e| && IsFree(e[i]) ==> e[i] == FREE
  }

  /** A table as the kernel keeps it: free entries are zero and every entry is one byte. */
  predicate Tidy(e: Table) {
    Clean(e) && forall i :: 0 <= i < |e| ==> e[i] < 256
  }

  /** Live allocations are non-empty, inside the table, marked with the exact flags of
      their run, and ordered without overlap. */
  ghost predicate LiveMarked(t: EntryType, e: Table, live: map<nat, nat>) {
    && (forall s :: s in live ==> live[s] > 0 && s + live[s] <= |e|)
    && (forall s, i :: s in live && s <= i < s + live[s] ==> e[i] == RunEntry(t, i - s, live[s]))
  }

  predicate Disjoint(live: map<nat, nat>) {
    forall s, u :: s in live && u in live && s < u ==> s + live[s] <= u
  }

  /** Conservation: a block is taken exactly when a live allocation covers it or it was
      leaked, never both. */
  ghost predicate Conserved(a: Allocs) {
    forall i: nat :: i < |a.entries| ==>
      (!IsFree(a.entries[i]) <==> i in a.leaked || Covered(a.live, i)) &&
      !(i in a.leaked && Covered(a.live, i))
  }

  ghost predicate Inv(t: EntryType, a: Allocs) {
    && Clean(a.entries)
    && LiveMarked(t, a.entries, a.live)
    && Disjoint(a.live)
    && Conserved(a)
    && (t.Wider? ==> a.leaked == {})
    && (forall i :: i in a.leaked ==> i < |a.entries|)
  }

  lemma RunEntryTaken(t: EntryType, k: nat, n: nat)
    ensures !IsFree(RunEntry(t, k, n))
    ensures HasNext(RunEntry(t, k, n)) <==> t.Wider? && k + 1 < n
  {
  }

  lemma MallocKeepsInv(t: EntryType, a: Allocs, n: nat)
    requires Inv(t, a) && Enabled(a, Malloc(n))
    ensures Inv(t, Step(t, a, Malloc(n)))
  {
    ScanExact(a.entries, n);
    var s := StartBlock(a.entries, n);
    MarkedKeepsInv(t, a, s, n);
  }

  lemma MarkedKeepsInv(t: EntryType, a: Allocs, s: nat, n: nat)
    requires Inv(t, a) && n > 0 && RunFree(a.entries, s, n)
    ensures Inv(t, Allocs(Marked(t, a.entries, s, n), a.live[s := n], a.leaked))
  {
    forall u | u in a.live ensures u + a.live[u] <= s || s + n <= u {
      MallocMissesLive(t, a, s, n, u);
    }
    forall k: nat ensures !IsFree(RunEntry(t, k, n)) { RunEntryTaken(t, k, n); }
    var m := Marked(t, a.entries, s, n);
    forall i: nat | i < |m|
      ensures Covered(a.live[s := n], i) <==> Covered(a.live, i) || Within(s, n, i)
      ensures Within(s, n, i) ==> !IsFree(m[i]) && IsFree(a.entries[i])
      ensures !Within(s, n, i) ==> m[i] == a.entries[i]
    {
      CoveredInsert(a.live, s, n, i);
    }
    LiveAfterMark(t, a.entries, a.live, s, n);
    hide RunEntry, IsFree, RunFree, LiveMarked;
  }

  lemma LiveAfterMark(t: EntryType, e: Table, live: map<nat, nat>, s: nat, n: nat)
    requires LiveMarked(t, e, live) && n > 0 && s + n <= |e|
    requires forall u :: u in live ==> u + live[u] <= s || s + n <= u
    ensures LiveMarked(t, Marked(t, e, s, n), live[s := n])
  {
    hide RunEntry;
  }

  lemma MallocMissesLive(t: EntryType, a: Allocs, s: nat, n: nat, u: nat)
    requires Inv(t, a) && RunFree(a.entries, s, n) && n > 0 && u in a.live
    ensures u + a.live[u] <= s || s + n <= u
  {
    forall i | u <= i < u + a.live[u] ensures !Within(s, n, i) {
      RunEntryTaken(t, i - u, a.live[u]);
      assert !IsFree(a.entries[i]);
    }
    var c := if u < s then s else u;
    assert c < u + a.live[u] ==> !Within(s, n, c);
  }

  lemma CoveredInsert(live: map<nat, nat>, s: nat, n: nat, i: nat)
    requires s !in live || !(s <= i < s + live[s])
    ensures Covered(live[s := n], i) <==> Covered(live, i) || Within(s, n, i)
  {
    var l := live[s := n];
    if Covered(live, i) {
      var u :| u in live && u <= i < u + live[u];
      assert u in l && u <= i < u + l[u];
    }
    if s <= i < s + n { assert s in l; }
  }

  lemma CoveredRemove(live: map<nat, nat>, s: nat, i: nat)
    requires s in live && Disjoint(live)
    ensures Covered(live - {s}, i) <==> Covered(live, i) && !(s <= i < s + live[s])
  {
    var l := live - {s};
    if u :| u in live && u <= i < u + live[u] && u != s {
      assert u in l;
    }
  }

  /** The blocks a release clears: the whole run, or its first block alone. */
  lemma ReleaseEffect(t: EntryType, e: Table, live: map<nat, nat>, s: nat)
    requires LiveMarked(t, e, live) && s in live
    ensures var n := if t.Wider? then live[s] else 1;
      Freed(e, s) == Cleared(e, s, n)
  {
    var last := if t.Wider? then s + live[s] - 1 else s;
    forall j | s <= j < s + live[s]
      ensures HasNext(e[j]) <==> t.Wider? && j + 1 < s + live[s]
    {
      RunEntryTaken(t, j - s, live[s]);
    }
    FreedClearsChain(e, s, last);
  }

  lemma ReleaseKeepsInv(t: EntryType, a: Allocs, s: nat)
    requires Inv(t, a) && Enabled(a, Release(s))
    ensures Inv(t, Step(t, a, Release(s)))
  {
    ReleaseKeepsLive(t, a, s);
    ReleaseConserves(t, a, s);
    ReleaseEffect(t, a.entries, a.live, s);
  }

  lemma ReleaseKeepsLive(t: EntryType, a: Allocs, s: nat)
    requires Inv(t, a) && s in a.live
    ensures LiveMarked(t, Freed(a.entries, s), a.live - {s})
  {
    ReleaseEffect(t, a.entries, a.live, s);
    var n := if t.Wider? then a.live[s] else 1;
    forall u | u in a.live && u != s
      ensures forall i :: u <= i < u + a.live[u] ==> !Within(s, n, i)
    {
      assert if u < s then u + a.live[u] <= s else s + a.live[s] <= u;
    }
    ClearedKeepsLive(t, a.entries, a.live, a.live - {s}, s, n);
  }

  lemma ClearedKeepsLive(t: EntryType, e: Table, live: map<nat, nat>, rest: map<nat, nat>, s: nat, n: nat)
    requires LiveMarked(t, e, live)
    requires forall u :: u in rest ==> u in live && rest[u] == live[u]
    requires forall u, i :: u in rest && u <= i < u + rest[u] ==> !Within(s, n, i)
    ensures LiveMarked(t, Cleared(e, s, n), rest)
  {
    hide RunEntry;
  }

  lemma ReleaseConserves(t: EntryType, a: Allocs, s: nat)
    requires Inv(t, a) && s in a.live
    ensures Conserved(Step(t, a, Release(s)))
  {
    var n := a.live[s];
    var b := Step(t, a, Release(s));
    ReleaseEffect(t, a.entries, a.live, s);
    forall i: nat | i < |b.entries|
      ensures (!IsFree(b.entries[i]) <==> i in b.leaked || Covered(b.live, i)) &&
              !(i in b.leaked && Covered(b.live, i))
    {
      CoveredRemove(a.live, s, i);
      assert Within(s, n, i) ==> Covered(a.live, i);
      assert i in b.leaked <==> i in a.leaked || (t.UnsignedChar? && i != s && Within(s, n, i));
    }
  }

  /** Safety of every run: from any good state, any enabled sequence of allocations and
      frees keeps allocations disjoint, in bounds and marked, and conserves blocks. */
  lemma {:induction false} RunKeepsInv(t: EntryType, a: Allocs, ops: seq<Op>)
    requires Inv(t, a) && EnabledRun(t, a, ops)
    ensures Inv(t, Run(t, a, ops))
    ensures |Run(t, a, ops).entries| == |a.entries|
    decreases |ops|
  {
    if ops != [] {
      match ops[0] {
        case Malloc(n) => MallocKeepsInv(t, a, n);
        case Release(s) => ReleaseKeepsInv(t, a, s);
      }
      RunKeepsInv(t, Step(t, a, ops[0]), ops[1..]);
    }
  }

  function Fresh(total: nat): Allocs {
    Allocs(seq(total, _ => FREE), map[], {})
  }

  /** The same from the heap as created, where nothing is live. */
  lemma EveryRunSafe(t: EntryType, total: nat, ops: seq<Op>)
    requires EnabledRun(t, Fresh(total), ops)
    ensures Inv(t, Run(t, Fresh(total), ops))
  {
    RunKeepsInv(t, Fresh(total), ops);
  }

  /** When every allocation is released and entries keep HAS_NEXT, the table is the
      initial one again. */
  lemma WideRunsReturnEverything(total: nat, ops: seq<Op>)
    requires EnabledRun(Wider, Fresh(total), ops)
    requires Run(Wider, Fresh(total), ops).live == map[]
    ensures Run(Wider, Fresh(total), ops).entries == Fresh(total).entries
  {
    RunKeepsInv(Wider, Fresh(total), ops);
    var b := Run(Wider, Fresh(total), ops);
    forall i: nat | i < total ensures b.entries[i] == FREE {
      assert !Covered(b.live, i);
    }
  }
}
