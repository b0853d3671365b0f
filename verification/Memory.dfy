/** Physical memory as 2^30 words, its little-endian bytes, and zeroing allocation. */
module Memory {
  import opened Words
  import opened BlockHeap
  import opened KernelHeap

  const RAM_WORDS: nat := 0x4000_0000

  predicate IsRam(m: seq<Word>) { |m| == RAM_WORDS }

  /** The little-endian bytes of a word. */
  function Digit(w: Word, k: nat): Byte
    requires k < 4
  {
    if k == 0 then w % 256 else if k == 1 then w / 0x100 % 256
    else if k == 2 then w / 0x1_0000 % 256 else w / 0x100_0000
  }

  function WithDigit(w: Word, k: nat, b: Byte): Word
    requires k < 4
  {
    Join(if k == 0 then b else Digit(w, 0), if k == 1 then b else Digit(w, 1),
         if k == 2 then b else Digit(w, 2), if k == 3 then b else Digit(w, 3))
  }

  lemma DigitOfJoin(b0: Byte, b1: Byte, b2: Byte, b3: Byte)
    ensures Digit(Join(b0, b1, b2, b3), 0) == b0 && Digit(Join(b0, b1, b2, b3), 1) == b1
    ensures Digit(Join(b0, b1, b2, b3), 2) == b2 && Digit(Join(b0, b1, b2, b3), 3) == b3
  {
    var w := Join(b0, b1, b2, b3);
    assert w / 0x100 == b1 + 0x100 * b2 + 0x1_0000 * b3;
    assert w / 0x1_0000 == b2 + 0x100 * b3;
  }

  lemma DigitOfWithDigit(w: Word, k: nat, b: Byte, j: nat)
    requires k < 4 && j < 4
    ensures Digit(WithDigit(w, k, b), j) == if j == k then b else Digit(w, j)
  {
    DigitOfJoin(if k == 0 then b else Digit(w, 0), if k == 1 then b else Digit(w, 1),
                if k == 2 then b else Digit(w, 2), if k == 3 then b else Digit(w, 3));
  }

  function ByteAt(m: seq<Word>, a: Word): Byte
    requires IsRam(m)
  {
    Digit(m[a / 4], a % 4)
  }

  /** A word is its four bytes, the lowest address first. */
  lemma WordIsBytes(m: seq<Word>, w: nat)
    requires IsRam(m) && w < RAM_WORDS
    ensures 4 * w + 3 < WORD
    ensures m[w] == ByteAt(m, 4 * w) + 0x100 * ByteAt(m, 4 * w + 1)
      + 0x1_0000 * ByteAt(m, 4 * w + 2) + 0x100_0000 * ByteAt(m, 4 * w + 3)
  {
    var x := m[w];
    assert x == x / 0x100 * 0x100 + x % 0x100;
    assert x / 0x100 == x / 0x1_0000 * 0x100 + x / 0x100 % 0x100;
    assert x / 0x1_0000 == x / 0x100_0000 * 0x100 + x / 0x1_0000 % 0x100;
  }

  function WithByte(m: seq<Word>, a: Word, b: Byte): (r: seq<Word>)
    requires IsRam(m)
    ensures IsRam(r)
  {
    m[a / 4 := WithDigit(m[a / 4], a % 4, b)]
  }

  /** Bytes of memory behave as independent cells. */
  lemma ByteAtWithByte(m: seq<Word>, a: Word, b: Byte, c: Word)
    requires IsRam(m)
    ensures ByteAt(WithByte(m, a, b), c) == if c == a then b else ByteAt(m, c)
  {
    if c / 4 == a / 4 { DigitOfWithDigit(m[a / 4], a % 4, b, c % 4); }
  }

  // --- memset(p, 0, size) ---------------------------------------------------

  /** Word i after `size` bytes from word-aligned `p` are cleared. */
  function ZeroedAt(m: seq<Word>, p: Word, size: nat, i: nat): Word
    requires i < |m|
  {
    if p / 4 <= i < p / 4 + size / 4 then 0
    else if i == p / 4 + size / 4 && size % 4 != 0 then ZeroLow(m[i], size % 4)
    else m[i]
  }

  function Zeroed(m: seq<Word>, p: Word, size: nat): (r: seq<Word>)
    ensures |r| == |m|
    ensures forall i :: 0 <= i < |m| ==> r[i] == ZeroedAt(m, p, size, i)
  {
    seq(|m|, i requires 0 <= i < |m| => ZeroedAt(m, p, size, i))
  }

  /** A word with its low s bytes cleared. */
  function ZeroLow(w: Word, s: nat): Word {
    Join(if 0 < s then 0 else Digit(w, 0), if 1 < s then 0 else Digit(w, 1),
         if 2 < s then 0 else Digit(w, 2), Digit(w, 3))
  }

  lemma DigitBelow(w: Word, s: nat, k: nat)
    requires 0 < s < 4 && k < 4
    ensures Digit(ZeroLow(w, s), k) == if k < s then 0 else Digit(w, k)
  {
    DigitOfJoin(0, if 1 < s then 0 else Digit(w, 1), if 2 < s then 0 else Digit(w, 2), Digit(w, 3));
  }

  /** Clearing reaches exactly the bytes [p, p + size). */
  lemma ZeroedBytes(m: seq<Word>, p: Word, size: nat, c: Word)
    requires IsRam(m) && p % 4 == 0
    ensures ByteAt(Zeroed(m, p, size), c) == if p <= c < p + size then 0 else ByteAt(m, c)
  {
    var i, k := c / 4, c % 4;
    var first, whole, rest := p / 4, size / 4, size % 4;
    assert p <= c < p + size <==> first <= i && (i < first + whole || (i == first + whole && k < rest));
    assert Zeroed(m, p, size)[i] == ZeroedAt(m, p, size, i);
    if i == first + whole && rest != 0 {
      DigitBelow(m[i], rest, k);
    } else if first <= i < first + whole {
      ZeroDigit(k);
    }
  }

  lemma ZeroDigit(k: nat)
    requires k < 4
    ensures Digit(0, k) == 0
  {
  }

  // --- the heap table under a clearing store -------------------------------------

  /** The table after `size` bytes from p are cleared: it is itself part of memory. */
  function TableZeroed(e: Table, p: Word, size: nat): (r: Table)
    ensures |r| == |e|
    ensures forall i :: 0 <= i < |e| ==> r[i] == TableZeroedAt(e, p, size, i)
  {
    seq(|e|, i requires 0 <= i < |e| => TableZeroedAt(e, p, size, i))
  }

  function TableZeroedAt(e: Table, p: Word, size: nat, i: nat): nat
    requires i < |e|
  {
    if p <= HEAP_TABLE + i < p + size then FREE else e[i]
  }

  /** The bytes of memory where the table lies hold its entries. */
  ghost predicate TableInRam(m: seq<Word>, e: Table)
    requires IsRam(m)
  {
    HEAP_TABLE + |e| <= WORD && forall i :: 0 <= i < |e| ==> ByteAt(m, HEAP_TABLE + i) == e[i]
  }

  /** The table kept as an array and its bytes in memory are cleared alike. */
  lemma TableFollowsRam(m: seq<Word>, e: Table, p: Word, size: nat)
    requires IsRam(m) && p % 4 == 0 && TableInRam(m, e)
    ensures TableInRam(Zeroed(m, p, size), TableZeroed(e, p, size))
  {
    hide ByteAt;
    forall i | 0 <= i < |e|
      ensures ByteAt(Zeroed(m, p, size), HEAP_TABLE + i) == TableZeroed(e, p, size)[i]
    {
      ZeroedBytes(m, p, size, HEAP_TABLE + i);
    }
  }

  /** A failed request leaves the table as it was exactly when the entries its clearing
      reaches were free already: up to 0x7E00 bytes always, past the end of the table never. */
  lemma FailureKeepsTable(e: Table, n: nat, size: Word)
    requires Clean(e) && StartBlock(e, n) < 0 && |e| > 0
    ensures TableZeroed(e, 0, size) == e <==>
      forall i :: 0 <= i < |e| && HEAP_TABLE + i < size ==> IsFree(e[i])
    ensures size <= HEAP_TABLE ==> TableZeroed(e, 0, size) == e
    ensures size >= HEAP_TABLE + |e| ==> TableZeroed(e, 0, size) != e
  {
    var r := TableZeroed(e, 0, size);
    assert !IsFree(e[|e| - 1]);
    if i :| 0 <= i < |e| && HEAP_TABLE + i < size && !IsFree(e[i]) {
      assert r[i] != e[i];
    }
    if size >= HEAP_TABLE + |e| { assert r[|e| - 1] != e[|e| - 1]; }
  }

  /** A failed request above 0x7E00 bytes forgets that the first block is in use: the next
      request for a block is answered with it. */
  lemma FailureReleasesBlocks(e: Table, size: Word)
    requires |e| > 0 && size > HEAP_TABLE
    ensures StartBlock(TableZeroed(e, 0, size), 1) == 0
  {
    var r := TableZeroed(e, 0, size);
    assert r[0] == FREE && RunFree(r, 0, 1);
    ScanExact(r, 1);
  }

  lemma PoolAboveTable(e: Table, saddr: Word, p: Word, size: nat)
    requires ValidPool(saddr, |e|) && (saddr <= p || (size <= HEAP_TABLE && p == 0))
    ensures TableZeroed(e, p, size) == e
  {
  }

  /** kzalloc: the result is cleared without a check for NULL, so a failed request clears
      the bytes from address 0 on, the heap's own table among them. */
  method KZalloc(h: Heap, ram: array<Word>, size: Word) returns (p: Word)
    requires h.Valid() && h.entryType == UnsignedChar && ram.Length == RAM_WORDS && size <= 0x7fff_f000
    requires !Overruns(h.entries[..], BlocksFor(size))
    modifies h.entries, ram
    ensures var s := StartBlock(old(h.entries[..]), BlocksFor(size));
      if s < 0 then p == 0 && h.entries[..] == TableZeroed(old(h.entries[..]), 0, size)
      else && p == BlockToAddress(h.saddr, s)
           && h.entries[..] == Marked(UnsignedChar, old(h.entries[..]), s, BlocksFor(size))
    ensures ram[..] == Zeroed(old(ram[..]), p, size)
  {
    ghost var n, e := BlocksFor(size), h.entries[..];
    ghost var s := StartBlock(e, n);
    p := h.Malloc(size);
    if s >= 0 { MallocAbovePool(e, h.saddr, s, n); }
    hide BlocksFor, StartBlock, Overruns;
    ghost var table := h.entries[..];
    ClearRam(ram, p, size);
    forall i | 0 <= i < h.entries.Length {
      h.entries[i] := if p <= HEAP_TABLE + i < p + size then FREE else h.entries[i];
    }
    assert h.entries[..] == TableZeroed(table, p, size);
    if s >= 0 { PoolAboveTable(table, h.saddr, p, size); }
  }

  lemma MallocAbovePool(e: Table, saddr: Word, s: nat, n: nat)
    requires ValidPool(saddr, |e|) && s == StartBlock(e, n) && !Overruns(e, n)
    ensures BlockToAddress(saddr, s) >= saddr
  {
    hide StartBlock;
    assert s <= |e|;
  }

  /** The words of memory under the clearing store. */
  method ClearRam(ram: array<Word>, p: Word, size: Word)
    requires ram.Length == RAM_WORDS
    modifies ram
    ensures ram[..] == Zeroed(old(ram[..]), p, size)
  {
    ghost var before := ram[..];
    forall i | 0 <= i < ram.Length {
      ram[i] := if p / 4 <= i < p / 4 + size / 4 then 0
                else if i == p / 4 + size / 4 && size % 4 != 0
                then ZeroLow(ram[i], size % 4) else ram[i];
    }
    assert ram[..] == Zeroed(before, p, size);
  }
}
