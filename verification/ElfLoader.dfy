/** Program headers of an ELF file, and the address bounds the loader derives from them. */
module ElfLoader {
  import opened Words

  const PT_LOAD: Word := 1
  const PF_W: Word := 2

  datatype Phdr = Phdr(ptype: Word, offset: Word, vaddr: Word, filesz: Word, memsz: Word, flags: Word)

  predicate IsWritable(ph: Phdr) { ph.flags / 2 % 2 == 1 }

  lemma WritableIsMask(ph: Phdr)
    ensures IsWritable(ph) <==> And(ph.flags, PF_W) != 0
  {
    AndBit(ph.flags, 1);
  }

  /** Address in memory of a segment's file contents. */
  function PhdrPaddr(elfMemory: Word, ph: Phdr): Word {
    (elfMemory + ph.offset) % WORD
  }

  function EndOf(ph: Phdr): Word { (ph.vaddr + ph.memsz) % WORD }

  function PhysicalEnd(elfMemory: Word, ph: Phdr): Word { (PhdrPaddr(elfMemory, ph) + ph.memsz) % WORD }

  datatype Bounds = Bounds(vbase: Word, pbase: Word, vend: Word, pend: Word)

  /** One PT_LOAD header; zero stands for a bound not set yet. */
  function Widen(b: Bounds, elfMemory: Word, ph: Phdr): Bounds {
    var lower := b.vbase == 0 || b.vbase >= ph.vaddr;
    var upper := b.vend == 0 || b.vend <= EndOf(ph);
    Bounds(if lower then ph.vaddr else b.vbase,
           if lower then PhdrPaddr(elfMemory, ph) else b.pbase,
           if upper then EndOf(ph) else b.vend,
           if upper then PhysicalEnd(elfMemory, ph) else b.pend)
  }

  function WidenAll(elfMemory: Word, phs: seq<Phdr>): Bounds {
    if phs == [] then Bounds(0, 0, 0, 0)
    else Widen(WidenAll(elfMemory, phs[..|phs| - 1]), elfMemory, phs[|phs| - 1])
  }

  ghost predicate StoppedAt(elfMemory: Word, phs: seq<Phdr>, b: Bounds) {
    exists n :: 0 <= n < |phs| && phs[n].ptype != PT_LOAD && b == WidenAll(elfMemory, phs[..n])
  }

  class ElfFile {
    const elfMemory: Word
    var bounds: Bounds

    constructor (elfMemory: Word)
      ensures this.elfMemory == elfMemory && bounds == Bounds(0, 0, 0, 0)
    {
      this.elfMemory := elfMemory;
      bounds := Bounds(0, 0, 0, 0);
    }

    /** elf_process_pheaders: stops with an error at the first header that is not PT_LOAD. */
    method ProcessPheaders(phs: seq<Phdr>) returns (ret: int)
      requires bounds == Bounds(0, 0, 0, 0)
      modifies this
      ensures ret == 0 <==> forall i :: 0 <= i < |phs| ==> phs[i].ptype == PT_LOAD
      ensures ret == 0 ==> bounds == WidenAll(elfMemory, phs)
      ensures ret != 0 ==> ret == -EINVAL && StoppedAt(elfMemory, phs, bounds)
    {
      var i := 0;
      while i < |phs|
        invariant 0 <= i <= |phs|
        invariant forall j :: 0 <= j < i ==> phs[j].ptype == PT_LOAD
        invariant bounds == WidenAll(elfMemory, phs[..i])
      {
        if phs[i].ptype != PT_LOAD {
          assert StoppedAt(elfMemory, phs, bounds);
          return -EINVAL;
        }
        assert phs[..i + 1][..i] == phs[..i];
        bounds := Widen(bounds, elfMemory, phs[i]);
        i := i + 1;
      }
      assert phs[..|phs|] == phs;
      ret := 0;
    }
  }

  // --- what the bounds mean ------------------------------------------------------

  predicate BelowAll(phs: seq<Phdr>, v: Word) { forall i :: 0 <= i < |phs| ==> v <= phs[i].vaddr }

  predicate AboveAll(phs: seq<Phdr>, v: Word) {
    forall i :: 0 <= i < |phs| ==> (phs[i].vaddr + phs[i].memsz) % WORD <= v
  }

  predicate NoneAtZero(phs: seq<Phdr>) { forall i :: 0 <= i < |phs| ==> phs[i].vaddr != 0 }

  /** The lower bound is some segment's start, with the physical address of the last segment
      that starts there. */
  ghost predicate IsStart(elfMemory: Word, phs: seq<Phdr>, b: Bounds) {
    exists i :: 0 <= i < |phs| && StartsAt(elfMemory, phs, b, i)
  }

  predicate StartsAt(elfMemory: Word, phs: seq<Phdr>, b: Bounds, i: nat)
    requires i < |phs|
  {
    && b.vbase == phs[i].vaddr && b.pbase == (elfMemory + phs[i].offset) % WORD
    && forall j :: i < j < |phs| ==> phs[j].vaddr != b.vbase
  }

  /** The upper bound is some segment's end, with the physical address of the last segment that
      ends there. */
  ghost predicate IsEnd(elfMemory: Word, phs: seq<Phdr>, b: Bounds) {
    exists i :: 0 <= i < |phs| && EndsAt(elfMemory, phs, b, i)
  }

  predicate EndsAt(elfMemory: Word, phs: seq<Phdr>, b: Bounds, i: nat)
    requires i < |phs|
  {
    && b.vend == (phs[i].vaddr + phs[i].memsz) % WORD
    && b.pend == (elfMemory + phs[i].offset + phs[i].memsz) % WORD
    && forall j :: i < j < |phs| ==> (phs[j].vaddr + phs[j].memsz) % WORD != b.vend
  }

  /** The same in the terms of the loop, and an end no other segment's is above. */
  predicate Tops(elfMemory: Word, phs: seq<Phdr>, b: Bounds, i: nat)
    requires i < |phs|
  {
    && b.vend == EndOf(phs[i]) && b.pend == PhysicalEnd(elfMemory, phs[i])
    && (forall j :: i < j < |phs| ==> EndOf(phs[j]) != b.vend)
    && (forall j :: 0 <= j < |phs| ==> EndOf(phs[j]) <= b.vend)
  }

  lemma {:induction false} LowerBound(elfMemory: Word, phs: seq<Phdr>)
    requires phs != []
    ensures var b := WidenAll(elfMemory, phs);
      && IsStart(elfMemory, phs, b) && (b.vbase == 0 <==> phs[|phs| - 1].vaddr == 0)
      && (NoneAtZero(phs) ==> BelowAll(phs, b.vbase))
  {
    var front, ph := phs[..|phs| - 1], phs[|phs| - 1];
    var a := WidenAll(elfMemory, front);
    assert phs == front + [ph];
    assert WidenAll(elfMemory, phs) == Widen(a, elfMemory, ph);
    if front != [] { LowerBound(elfMemory, front); }
    hide WidenAll, PhdrPaddr, PhysicalEnd, EndOf;
    LowerStep(elfMemory, front, ph, a);
  }

  lemma LowerStep(elfMemory: Word, front: seq<Phdr>, ph: Phdr, a: Bounds)
    requires if front == [] then a.vbase == 0 else IsStart(elfMemory, front, a)
    requires NoneAtZero(front) ==> BelowAll(front, a.vbase)
    ensures var b := Widen(a, elfMemory, ph);
      && IsStart(elfMemory, front + [ph], b) && (b.vbase == 0 <==> ph.vaddr == 0)
      && (NoneAtZero(front + [ph]) ==> BelowAll(front + [ph], b.vbase))
  {
    hide PhysicalEnd, EndOf;
    var phs, b := front + [ph], Widen(a, elfMemory, ph);
    assert phs[|front|] == ph && forall i :: 0 <= i < |front| ==> phs[i] == front[i];
    if a.vbase == 0 || a.vbase >= ph.vaddr {
      assert StartsAt(elfMemory, phs, b, |front|);
    } else {
      var i :| 0 <= i < |front| && StartsAt(elfMemory, front, a, i);
      assert StartsAt(elfMemory, phs, b, i);
    }
    hide PhdrPaddr;
    if NoneAtZero(phs) {
      assert NoneAtZero(front) by { assert forall i :: 0 <= i < |front| ==> front[i] == phs[i]; }
      assert front != [] ==> a.vbase != 0 by {
        if front != [] {
          var i :| 0 <= i < |front| && StartsAt(elfMemory, front, a, i);
        }
      }
    }
  }

  lemma {:induction false} UpperBound(elfMemory: Word, phs: seq<Phdr>) returns (i: nat)
    requires phs != []
    ensures i < |phs| && Tops(elfMemory, phs, WidenAll(elfMemory, phs), i)
  {
    var front, ph := phs[..|phs| - 1], phs[|phs| - 1];
    var a := WidenAll(elfMemory, front);
    assert phs == front + [ph];
    assert WidenAll(elfMemory, phs) == Widen(a, elfMemory, ph);
    i := 0;
    if front != [] { i := UpperBound(elfMemory, front); }
    hide WidenAll, PhdrPaddr, PhysicalEnd, EndOf;
    i := UpperStep(elfMemory, front, ph, a, i);
  }

  lemma UpperStep(elfMemory: Word, front: seq<Phdr>, ph: Phdr, a: Bounds, i: nat) returns (k: nat)
    requires if front == [] then a.vend == 0 else i < |front| && Tops(elfMemory, front, a, i)
    ensures k <= |front| && Tops(elfMemory, front + [ph], Widen(a, elfMemory, ph), k)
  {
    hide PhdrPaddr, PhysicalEnd, EndOf;
    var phs := front + [ph];
    assert phs[|front|] == ph && forall j :: 0 <= j < |front| ==> phs[j] == front[j];
    k := if a.vend == 0 || a.vend <= EndOf(ph) then |front| else i;
  }

  /** In plain arithmetic. */
  lemma TopIsEnd(elfMemory: Word, phs: seq<Phdr>, b: Bounds, i: nat)
    requires i < |phs| && Tops(elfMemory, phs, b, i)
    ensures EndsAt(elfMemory, phs, b, i) && AboveAll(phs, b.vend)
  {
    EndsOf(elfMemory, phs[i]);
    hide PhysicalEnd;
  }

  lemma EndsOf(elfMemory: Word, ph: Phdr)
    ensures PhysicalEnd(elfMemory, ph) == (elfMemory + ph.offset + ph.memsz) % WORD
  {
    var x := elfMemory + ph.offset;
    var q := x / WORD;
    assert x == q * WORD + x % WORD;
    var y := x % WORD + ph.memsz;
    ModUnique(x + ph.memsz, WORD, q + y / WORD, y % WORD);
  }

  /** After a start at address 0 the search begins anew: the lower bound is the lowest start of
      the headers behind the last one that starts there. */
  lemma {:induction false} LowestSinceZero(elfMemory: Word, phs: seq<Phdr>, n: nat)
    requires n < |phs| && (n == 0 || phs[n - 1].vaddr == 0) && NoneAtZero(phs[n..])
    ensures var b := WidenAll(elfMemory, phs);
      BelowAll(phs[n..], b.vbase) && exists i :: n <= i < |phs| && b.vbase == phs[i].vaddr
    decreases |phs|
  {
    var front, last, b := phs[..|phs| - 1], phs[|phs| - 1], WidenAll(elfMemory, phs);
    assert last == phs[n..][|phs| - 1 - n];
    if n < |front| {
      assert forall i :: 0 <= i < |front| - n ==> front[n..][i] == phs[n..][i];
      LowestSinceZero(elfMemory, front, n);
    } else if n > 0 {
      LowerBound(elfMemory, front);
    }
    assert b.vbase == last.vaddr || n < |front|;
  }

  /** For every list of headers: the upper bound is the highest end as a 32-bit address, and
      no segment really ends above it exactly when none wraps; the lower bound is some start,
      and no segment starts below it exactly when the last starts at 0 or none does. */
  lemma BoundsAreExtremes(elfMemory: Word, phs: seq<Phdr>)
    requires phs != []
    ensures var b := WidenAll(elfMemory, phs);
      && IsStart(elfMemory, phs, b) && IsEnd(elfMemory, phs, b) && AboveAll(phs, b.vend)
      && (BelowAll(phs, b.vbase) <==> phs[|phs| - 1].vaddr == 0 || NoneAtZero(phs))
      && ((forall i :: 0 <= i < |phs| ==> phs[i].vaddr + phs[i].memsz <= b.vend)
            <==> forall i :: 0 <= i < |phs| ==> phs[i].vaddr + phs[i].memsz < WORD)
  {
    LowerBound(elfMemory, phs);
    var i := UpperBound(elfMemory, phs);
    var b := WidenAll(elfMemory, phs);
    TopIsEnd(elfMemory, phs, b, i);
    assert IsEnd(elfMemory, phs, b);
    hide *;
    LowestStart(phs, b.vbase);
    HighestEnd(phs, b.vend);
  }

  lemma LowestStart(phs: seq<Phdr>, v: Word)
    requires phs != [] && (v == 0 <==> phs[|phs| - 1].vaddr == 0) && (NoneAtZero(phs) ==> BelowAll(phs, v))
    ensures BelowAll(phs, v) <==> phs[|phs| - 1].vaddr == 0 || NoneAtZero(phs)
  {
  }

  lemma HighestEnd(phs: seq<Phdr>, v: Word)
    requires AboveAll(phs, v)
    ensures (forall i :: 0 <= i < |phs| ==> phs[i].vaddr + phs[i].memsz <= v)
       <==> forall i :: 0 <= i < |phs| ==> phs[i].vaddr + phs[i].memsz < WORD
  {
    assert v < WORD;
    hide *;
    forall i | 0 <= i < |phs| && phs[i].vaddr + phs[i].memsz < WORD
      ensures phs[i].vaddr + phs[i].memsz <= v
    {
      EndBelow(phs, v, i);
    }
  }

  lemma EndBelow(phs: seq<Phdr>, v: Word, i: nat)
    requires AboveAll(phs, v) && i < |phs| && phs[i].vaddr + phs[i].memsz < WORD
    ensures phs[i].vaddr + phs[i].memsz <= v
  {
    assert EndOf(phs[i]) == phs[i].vaddr + phs[i].memsz;
  }

  /** A segment at address 0 is forgotten as lower bound when another follows it. */
  lemma ZeroStartIsForgotten(elfMemory: Word, ph: Phdr, next: Phdr)
    requires ph.vaddr == 0 < next.vaddr
    ensures !BelowAll([ph, next], WidenAll(elfMemory, [ph, next]).vbase)
  {
    BoundsAreExtremes(elfMemory, [ph, next]);
    assert [ph, next][0].vaddr == 0;
  }
}
