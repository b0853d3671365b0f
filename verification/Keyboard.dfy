/** The per-process keyboard ring: 1024 cells, two free-running 32-bit counters, and the
    value zero as the mark of an empty cell. */
module Keyboard {
  import opened Words

  const SIZE: nat := 1024

  /** The ring as a value: its cells and its two counters. */
  datatype Ring = Ring(cells: seq<Byte>, reader: Word, writer: Word)

  predicate IsRing(r: Ring) { |r.cells| == SIZE }

  /** A zeroed ring. */
  function EmptyRing(): (r: Ring)
    ensures IsRing(r)
  {
    Ring(seq(SIZE, _ => 0), 0, 0)
  }

  function Index(counter: Word): (i: nat)
    ensures i < SIZE
  {
    counter % SIZE
  }

  function Pushed(r: Ring, c: Byte): (p: Ring)
    requires IsRing(r)
    ensures IsRing(p)
  {
    if c == 0 then r else Ring(r.cells[Index(r.writer) := c], r.reader, (r.writer + 1) % WORD)
  }

  function Popped(r: Ring): (p: (Ring, Byte))
    requires IsRing(r)
    ensures IsRing(p.0)
  {
    var c := r.cells[Index(r.reader)];
    if c == 0 then (r, 0)
    else (Ring(r.cells[Index(r.reader) := 0], (r.reader + 1) % WORD, r.writer), c)
  }

  // --- refinement of an unbounded queue ---------------------------------------------

  /** Cell of the k-th outstanding character. */
  function Cell(reader: Word, k: nat): (i: nat)
    ensures i < SIZE
  {
    Index((reader + k) % WORD)
  }

  /** The ring holds exactly queue q: its characters from the reader on, zero elsewhere. */
  ghost predicate Represents(r: Ring, q: seq<Byte>) {
    && IsRing(r) && |q| <= SIZE
    && r.writer == (r.reader + |q|) % WORD
    && (forall k :: 0 <= k < |q| ==> q[k] != 0 && r.cells[Cell(r.reader, k)] == q[k])
    && (forall i :: 0 <= i < SIZE && Outside(r.reader, |q|, i) ==> r.cells[i] == 0)
  }

  /** Distance from the reader's cell round to cell i. */
  function Ahead(reader: Word, i: nat): nat
    requires i < SIZE
  {
    (i - Index(reader)) % SIZE
  }

  predicate Outside(reader: Word, n: nat, i: nat)
    requires i < SIZE
  {
    Ahead(reader, i) >= n
  }

  /** Because 1024 divides 2^32, the counters may wrap without losing the place. */
  lemma CellOfAhead(reader: Word, k: nat, i: nat)
    requires k < SIZE && i < SIZE
    ensures Cell(reader, k) == i <==> Ahead(reader, i) == k
  {
    var b := Index(reader);
    CellIsSum(reader, k);
    assert (b + k) % SIZE == if b + k < SIZE then b + k else b + k - SIZE;
    assert Ahead(reader, i) == if i >= b then i - b else i - b + SIZE;
  }

  lemma CellIsSum(reader: Word, k: nat)
    ensures Cell(reader, k) == (Index(reader) + k) % SIZE
  {
    var x := reader + k;
    var q := x / WORD;
    assert x == q * WORD + x % WORD;
    WrapKeepsIndex(x);
    var h := reader / SIZE;
    assert x == h * SIZE + (Index(reader) + k);
    var y := Index(reader) + k;
    ModUnique(x, SIZE, h + y / SIZE, y % SIZE);
  }

  lemma WrapKeepsIndex(x: nat)
    ensures x % WORD % SIZE == x % SIZE
  {
    var q, r := x / WORD, x % WORD;
    assert WORD == 0x40_0000 * SIZE;
    assert x == (q * 0x40_0000 + r / SIZE) * SIZE + r % SIZE;
    ModUnique(x, SIZE, q * 0x40_0000 + r / SIZE, r % SIZE);
  }

  lemma AheadShift(reader: Word, i: nat)
    requires i < SIZE
    ensures var next := (reader + 1) % WORD;
      Ahead(next, i) == if Ahead(reader, i) == 0 then SIZE - 1 else Ahead(reader, i) - 1
  {
    var b := Index(reader);
    CellIsSum(reader, 1);
    assert Index((reader + 1) % WORD) == if b == SIZE - 1 then 0 else b + 1;
    assert Ahead(reader, i) == if i >= b then i - b else i - b + SIZE;
  }

  /** Pushing appends to the queue exactly while fewer than 1024 characters are waiting. */
  lemma PushRefines(r: Ring, q: seq<Byte>, c: Byte)
    requires Represents(r, q) && c != 0
    ensures Represents(Pushed(r, c), q + [c]) <==> |q| < SIZE
  {
    if |q| < SIZE {
      var p, n := Pushed(r, c), |q|;
      assert Index(r.writer) == Cell(r.reader, n);
      assert p.writer == (r.reader + (n + 1)) % WORD by { NextWraps(r.reader, n); }
      forall k | 0 <= k < n ensures Cell(r.reader, k) != Cell(r.reader, n) {
        CellOfAhead(r.reader, k, Cell(r.reader, k));
        CellOfAhead(r.reader, n, Cell(r.reader, k));
      }
      forall i | 0 <= i < SIZE && Outside(r.reader, n + 1, i) ensures p.cells[i] == 0 {
        CellOfAhead(r.reader, n, i);
      }
      hide Cell, Outside, Index;
    }
  }

  lemma NextWraps(reader: Word, n: nat)
    ensures ((reader + n) % WORD + 1) % WORD == (reader + (n + 1)) % WORD
  {
    var q := (reader + n) / WORD;
    var y := (reader + n) % WORD;
    assert reader + n + 1 == q * WORD + (y + 1);
    ModUnique(reader + n + 1, WORD, q + (y + 1) / WORD, (y + 1) % WORD);
  }

  /** When full, the oldest waiting character is overwritten by the new one. */
  lemma PushWhenFullOverwrites(r: Ring, q: seq<Byte>, c: Byte)
    requires Represents(r, q) && c != 0 && |q| == SIZE
    ensures Popped(Pushed(r, c)).1 == c
  {
    assert Index(r.writer) == Cell(r.reader, SIZE);
    CellIsSum(r.reader, SIZE);
  }

  /** Popping takes the first character, and answers zero exactly on the empty queue. */
  lemma PopRefines(r: Ring, q: seq<Byte>)
    requires Represents(r, q)
    ensures Popped(r).1 == 0 <==> q == []
    ensures q == [] ==> Popped(r).0 == r
    ensures q != [] ==> Popped(r).1 == q[0] && Represents(Popped(r).0, q[1..])
  {
    CellOfAhead(r.reader, 0, Index(r.reader));
    CellIsSum(r.reader, 0);
    assert Cell(r.reader, 0) == Index(r.reader);
    if q == [] {
      assert Outside(r.reader, 0, Index(r.reader));
    } else {
      var p, rest := Popped(r).0, q[1..];
      var next := (r.reader + 1) % WORD;
      assert r.cells[Cell(r.reader, 0)] == q[0];
      assert p.writer == (next + |rest|) % WORD by { WriterStays(r.reader, |rest|); }
      forall k | 0 <= k < |rest| ensures rest[k] != 0 && p.cells[Cell(next, k)] == rest[k] {
        CellStep(r.reader, k);
        CellOfAhead(r.reader, k + 1, Index(r.reader));
        assert q[k + 1] == rest[k];
      }
      forall i | 0 <= i < SIZE && Outside(next, |rest|, i) ensures p.cells[i] == 0 {
        AheadShift(r.reader, i);
        CellOfAhead(r.reader, 0, i);
      }
    }
  }

  lemma WriterStays(reader: Word, n: nat)
    ensures (reader + (n + 1)) % WORD == ((reader + 1) % WORD + n) % WORD
  {
    var q, y := (reader + 1) / WORD, (reader + 1) % WORD;
    assert reader + 1 + n == q * WORD + (y + n);
    ModUnique(reader + 1 + n, WORD, q + (y + n) / WORD, (y + n) % WORD);
  }

  lemma CellStep(reader: Word, k: nat)
    ensures Cell((reader + 1) % WORD, k) == Cell(reader, k + 1)
  {
    WriterStays(reader, k);
  }

  lemma EmptyRepresents()
    ensures Represents(EmptyRing(), [])
  {
  }

  // --- every run ------------------------------------------------------------------------

  datatype Op = Push(c: Byte) | Pop

  /** Ring and outputs after a run. */
  function Run(r: Ring, ops: seq<Op>): (p: (Ring, seq<Byte>))
    requires IsRing(r)
    ensures IsRing(p.0)
  {
    if ops == [] then (r, [])
    else
      var (s, out) := Run(r, ops[..|ops| - 1]);
      match ops[|ops| - 1]
      case Push(c) => (Pushed(s, c), out)
      case Pop => (Popped(s).0, out + [Popped(s).1])
  }

  /** The same run on an unbounded queue. */
  function QueueRun(q: seq<Byte>, ops: seq<Op>): (seq<Byte>, seq<Byte>) {
    if ops == [] then (q, [])
    else
      var (s, out) := QueueRun(q, ops[..|ops| - 1]);
      match ops[|ops| - 1]
      case Push(c) => (if c == 0 then s else s + [c], out)
      case Pop => if s == [] then (s, out + [0]) else (s[1..], out + [s[0]])
  }

  /** At no point of the run do more than 1024 characters wait. */
  ghost predicate WithinCapacity(q: seq<Byte>, ops: seq<Op>) {
    forall n :: 0 <= n <= |ops| ==> |QueueRun(q, ops[..n]).0| <= SIZE
  }

  /** Over every run within capacity the ring answers exactly as the unbounded queue. */
  lemma {:induction false} RunRefinesQueue(r: Ring, q: seq<Byte>, ops: seq<Op>)
    requires Represents(r, q) && WithinCapacity(q, ops)
    ensures Represents(Run(r, ops).0, QueueRun(q, ops).0)
    ensures Run(r, ops).1 == QueueRun(q, ops).1
  {
    if ops != [] {
      var front := ops[..|ops| - 1];
      forall n | 0 <= n <= |front| ensures |QueueRun(q, front[..n]).0| <= SIZE {
        assert front[..n] == ops[..n];
      }
      RunRefinesQueue(r, q, front);
      var s, t := Run(r, front).0, QueueRun(q, front).0;
      assert ops[..|ops|] == ops;
      hide Represents, Pushed, Popped;
      match ops[|ops| - 1]
      case Push(c) => if c != 0 { PushRefines(s, t, c); }
                      PushZero(s);
      case Pop => PopRefines(s, t);
    }
  }

  lemma PushZero(r: Ring)
    requires IsRing(r)
    ensures Pushed(r, 0) == r
  {
  }

  // --- in place ---------------------------------------------------------------------------

  class KeyboardBuffer {
    const buffer: array<Byte>
    var reader: Word
    var writer: Word

    ghost predicate Valid()
    {
      buffer.Length == SIZE
    }

    ghost function State(): Ring
      reads this, buffer
    {
      Ring(buffer[..], reader, writer)
    }

    constructor ()
      ensures Valid() && fresh(buffer) && State() == EmptyRing()
    {
      buffer := new Byte[SIZE](_ => 0);
      reader, writer := 0, 0;
      new;
      assert buffer[..] == EmptyRing().cells;
    }

    method Push(c: Byte)
      requires Valid()
      modifies this, buffer
      ensures State() == Pushed(old(State()), c)
    {
      if c == 0 { return; }
      buffer[writer % SIZE] := c;
      writer := (writer + 1) % WORD;
    }

    method Pop() returns (c: Byte)
      requires Valid()
      modifies this, buffer
      ensures State() == Popped(old(State())).0 && c == Popped(old(State())).1
    {
      c := buffer[reader % SIZE];
      if c == 0 { return 0; }
      buffer[reader % SIZE] := 0;
      reader := (reader + 1) % WORD;
    }
  }
}
