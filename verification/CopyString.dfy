/** copy_string_from_task: a user string is copied through a temporary page mapped into the
    task's own directory, and everything but the destination is put back. */
module CopyString {
  import opened Words
  import opened BlockHeap
  import opened KernelHeap
  import opened Memory
  import opened Paging
  import opened Chunks
  import opened ProcessLoader

  /** The processor's page-directory register. */
  class Cpu {
    var active: Word

    constructor (dir: Word)
      ensures active == dir
    {
      active := dir;
    }

    method PagingSwitch(dir: Word)
      modifies this
      ensures active == dir
    {
      active := dir;
    }
  }

  // --- strings in memory --------------------------------------------------------------

  function Next(v: Word, k: nat): Word { (v + k) % WORD }

  /** Byte a program sees at a virtual address. */
  function Seen(m: seq<Word>, f: Flat, v: Word): Byte
    requires IsRam(m) && |f| == PAGES
  {
    ByteAt(m, Translate(f, v))
  }

  /** The NUL-terminated string at v, cut off after n characters. */
  function StringAt(m: seq<Word>, f: Flat, v: Word, n: nat): (s: seq<Byte>)
    requires IsRam(m) && |f| == PAGES
    ensures |s| <= n && 0 !in s
    decreases n
  {
    if n == 0 || Seen(m, f, v) == 0 then []
    else [Seen(m, f, v)] + StringAt(m, f, Next(v, 1), n - 1)
  }

  /** s is the string at v in plain terms: its bytes are those of memory where the addresses
      v, v + 1, ... translate to, none is zero, and it ends at a zero byte or after n bytes. */
  predicate IsStringAt(m: seq<Word>, f: Flat, v: Word, n: nat, s: seq<Byte>)
    requires IsRam(m) && |f| == PAGES
  {
    && |s| <= n && 0 !in s
    && (forall k :: 0 <= k < |s| ==> s[k] == ByteAt(m, Translate(f, (v + k) % 0x1_0000_0000)))
    && (|s| == n || ByteAt(m, Translate(f, (v + |s|) % 0x1_0000_0000)) == 0)
  }

  function ByteBehind(m: seq<Word>, f: Flat, v: Word, k: nat): Byte
    requires IsRam(m) && |f| == PAGES
  {
    ByteAt(m, Translate(f, (v + k) % 0x1_0000_0000))
  }

  predicate StringBehind(m: seq<Word>, f: Flat, v: Word, n: nat, s: seq<Byte>)
    requires IsRam(m) && |f| == PAGES
  {
    && |s| <= n && 0 !in s
    && (forall k :: 0 <= k < |s| ==> ByteBehind(m, f, v, k) == s[k])
    && (|s| == n || ByteBehind(m, f, v, |s|) == 0)
  }

  /** The string every contract here speaks of is that one. */
  lemma StringIsString(m: seq<Word>, f: Flat, v: Word, n: nat)
    requires IsRam(m) && |f| == PAGES
    ensures IsStringAt(m, f, v, n, StringAt(m, f, v, n))
  {
    StringFromBytes(m, f, v, n);
    var s := StringAt(m, f, v, n);
    forall k | 0 <= k <= |s|
      ensures ByteBehind(m, f, v, k) == ByteAt(m, Translate(f, (v + k) % 0x1_0000_0000))
    {
    }
    hide ByteBehind, StringAt, ByteAt, Translate;
  }

  lemma {:induction false} StringFromBytes(m: seq<Word>, f: Flat, v: Word, n: nat)
    requires IsRam(m) && |f| == PAGES
    ensures StringBehind(m, f, v, n, StringAt(m, f, v, n))
    decreases n
  {
    var s := StringAt(m, f, v, n);
    SeenIsByte(m, f, v, 0);
    assert Next(v, 0) == v;
    if n > 0 && Seen(m, f, v) != 0 {
      StringFromBytes(m, f, Next(v, 1), n - 1);
      var t := StringAt(m, f, Next(v, 1), n - 1);
      assert s == [Seen(m, f, v)] + t;
      forall k | 0 <= k <= |t| ensures ByteBehind(m, f, v, k + 1) == ByteBehind(m, f, Next(v, 1), k) {
        NextNext(v, 1, k);
        SeenIsByte(m, f, v, k + 1);
        SeenIsByte(m, f, Next(v, 1), k);
      }
      hide Seen, Next, ByteBehind, StringAt;
      FirstAndRest(m, f, v, n, s, t, Next(v, 1));
    }
  }

  lemma SeenIsByte(m: seq<Word>, f: Flat, v: Word, k: nat)
    requires IsRam(m) && |f| == PAGES
    ensures Seen(m, f, Next(v, k)) == ByteBehind(m, f, v, k)
  {
    hide ByteAt, Translate;
  }

  lemma FirstAndRest(m: seq<Word>, f: Flat, v: Word, n: nat, s: seq<Byte>, t: seq<Byte>, next: Word)
    requires IsRam(m) && |f| == PAGES && n > 0 && StringBehind(m, f, next, n - 1, t)
    requires s == [ByteBehind(m, f, v, 0)] + t && s[0] != 0
    requires forall k :: 0 <= k <= |t| ==> ByteBehind(m, f, v, k + 1) == ByteBehind(m, f, next, k)
    ensures StringBehind(m, f, v, n, s)
  {
    hide ByteBehind;
    forall k | 0 < k < |s| ensures ByteBehind(m, f, v, k) == s[k] {
      assert ByteBehind(m, f, v, (k - 1) + 1) == ByteBehind(m, f, next, k - 1) == t[k - 1];
    }
    assert |s| == |t| + 1;
    assert ByteBehind(m, f, v, |t| + 1) == ByteBehind(m, f, next, |t|);
  }

  /** Memories and maps that show the same bytes as far as the string goes agree on it. */
  lemma {:induction false} StringAtAgrees(m: seq<Word>, f: Flat, r: seq<Word>, g: Flat, v: Word, n: nat)
    requires IsRam(m) && IsRam(r) && |f| == PAGES && |g| == PAGES
    requires forall k :: 0 <= k <= |StringAt(m, f, v, n)| ==> Seen(r, g, Next(v, k)) == Seen(m, f, Next(v, k))
    ensures StringAt(r, g, v, n) == StringAt(m, f, v, n)
    decreases n
  {
    hide Seen;
    var s := StringAt(m, f, v, n);
    assert Next(v, 0) == v;
    assert Seen(r, g, Next(v, 0)) == Seen(m, f, Next(v, 0));
    if n > 0 && Seen(m, f, v) != 0 {
      var w := Next(v, 1);
      assert |s| == |StringAt(m, f, w, n - 1)| + 1;
      forall k | 0 <= k <= |StringAt(m, f, w, n - 1)| ensures Seen(r, g, Next(w, k)) == Seen(m, f, Next(w, k)) {
        NextNext(v, 1, k);
        assert Seen(r, g, Next(v, k + 1)) == Seen(m, f, Next(v, k + 1));
      }
      StringAtAgrees(m, f, r, g, w, n - 1);
    }
  }

  lemma NextNext(v: Word, j: nat, k: nat)
    ensures Next(Next(v, j), k) == Next(v, j + k)
  {
    var q := (v + j) / WORD;
    assert v + j == q * WORD + Next(v, j);
    var p := (Next(v, j) + k) / WORD;
    ModUnique(v + j + k, WORD, q + p, Next(Next(v, j), k));
  }

  /** Memory with the bytes s written from address a on. */
  function Stored(m: seq<Word>, a: nat, s: seq<Byte>): (r: seq<Word>)
    requires IsRam(m) && a + |s| <= WORD
    ensures IsRam(r)
  {
    if s == [] then m else WithByte(Stored(m, a, s[..|s| - 1]), a + |s| - 1, s[|s| - 1])
  }

  lemma {:induction false} StoredBytes(m: seq<Word>, a: nat, s: seq<Byte>, c: Word)
    requires IsRam(m) && a + |s| <= WORD
    ensures ByteAt(Stored(m, a, s), c) == if a <= c < a + |s| then s[c - a] else ByteAt(m, c)
  {
    if s != [] {
      StoredBytes(m, a, s[..|s| - 1], c);
      ByteAtWithByte(Stored(m, a, s[..|s| - 1]), a + |s| - 1, s[|s| - 1], c);
    }
  }

  /** Words outside the bytes written are untouched. */
  lemma {:induction false} StoredWords(m: seq<Word>, a: nat, s: seq<Byte>, w: nat)
    requires IsRam(m) && a + |s| <= WORD && w < RAM_WORDS
    requires 4 * w + 4 <= a || a + |s| <= 4 * w
    ensures Stored(m, a, s)[w] == m[w]
  {
    if s != [] {
      var n := |s| - 1;
      assert (a + n) / 4 != w;
      StoredWords(m, a, s[..n], w);
    }
  }

  lemma StoredAppend(m: seq<Word>, a: nat, s: seq<Byte>, b: Byte, end: Word)
    requires IsRam(m) && end == a + |s|
    ensures a + |s + [b]| <= WORD && Stored(m, a, s + [b]) == WithByte(Stored(m, a, s), end, b)
  {
    assert (s + [b])[..|s|] == s;
  }

  /** A string no longer than a page, stored in one frame, changes that frame alone. */
  lemma StoredInFrame(m: seq<Word>, a: Word, s: seq<Byte>)
    requires IsRam(m) && a % PAGE == 0 && |s| <= PAGE
    ensures a + |s| <= WORD && OnlyFrames(m, Stored(m, a, s), [a])
  {
    forall w | 0 <= w < RAM_WORDS && FrameOf(w) != a ensures Stored(m, a, s)[w] == m[w] {
      FrameContains(a, w);
      FrameBytes(a, w);
      StoredWords(m, a, s, w);
    }
  }

  lemma FrameBytes(a: Word, w: nat)
    requires a % PAGE == 0 && !(a / 4 <= w < a / 4 + ENTRIES)
    ensures 4 * w + 4 <= a || a + PAGE <= 4 * w
  {
    var q := a / PAGE;
    assert a == 4096 * q && a / 4 == 1024 * q;
  }

  method WriteByte(ram: array<Word>, a: Word, b: Byte)
    requires ram.Length == RAM_WORDS
    modifies ram
    ensures ram[..] == WithByte(old(ram[..]), a, b)
  {
    ram[a / 4] := WithDigit(ram[a / 4], a % 4, b);
  }

  /** What a program's load at a virtual address returns, through the page tables. */
  method LoadByte(ram: array<Word>, dir: Word, v: Word) returns (b: Byte)
    requires ram.Length == RAM_WORDS && dir % PAGE == 0
    ensures b == Seen(ram[..], View(ram[..], dir), v)
  {
    var p := GetPaddr(ram, dir, v);
    b := Digit(ram[p / 4], p % 4);
  }

  // --- the two copies -----------------------------------------------------------------

  /** None of the string's bytes lies in frame `tmp` or in the word `slot`, and none of its
      addresses in the page `tmp`. */
  ghost predicate StringClear(m: seq<Word>, f: Flat, v: Word, n: nat, tmp: Word, slot: nat)
    requires IsRam(m) && |f| == PAGES
  {
    forall k :: 0 <= k <= |StringAt(m, f, v, n)| ==> ByteClear(f, Next(v, k), tmp, slot)
  }

  predicate ByteClear(f: Flat, v: Word, tmp: Word, slot: nat)
    requires |f| == PAGES
  {
    && v / PAGE != tmp / PAGE
    && FrameOf(Translate(f, v) / 4) != tmp
    && Translate(f, v) / 4 != slot
  }

  /** Frames of the directory are neither `tmp` nor anything the copy writes. */
  predicate DirAvoids(m: seq<Word>, dir: Word, tmp: Word)
    requires IsRam(m) && dir % PAGE == 0
  {
    tmp != dir && forall j :: 0 <= j < ENTRIES ==> TableOf(m, dir, j) != tmp
  }

  lemma StoredKeepsView(m: seq<Word>, dir: Word, tmp: Word, s: seq<Byte>)
    requires WellFormed(m, dir) && tmp % PAGE == 0 && |s| <= PAGE && DirAvoids(m, dir, tmp)
    ensures tmp + |s| <= WORD
    ensures var r := Stored(m, tmp, s);
      View(r, dir) == View(m, dir) && WellFormed(r, dir) && SameDirectory(m, r, dir)
  {
    StoredInFrame(m, tmp, s);
    ViewElsewhere(m, Stored(m, tmp, s), dir, [tmp]);
  }

  lemma StoredKeepsByte(m: seq<Word>, tmp: Word, s: seq<Byte>, c: Word)
    requires IsRam(m) && tmp % PAGE == 0 && |s| <= PAGE && FrameOf(c / 4) != tmp
    ensures tmp + |s| <= WORD && ByteAt(Stored(m, tmp, s), c) == ByteAt(m, c)
  {
    StoredInFrame(m, tmp, s);
  }

  /** While the copy runs, the next byte of the string still reads as it did at first. */
  lemma NextByteSeen(m: seq<Word>, dir: Word, tmp: Word, s: seq<Byte>, v: Word)
    requires WellFormed(m, dir) && tmp % PAGE == 0 && |s| <= PAGE && DirAvoids(m, dir, tmp)
    requires FrameOf(Translate(View(m, dir), v) / 4) != tmp
    ensures tmp + |s| <= WORD
    ensures var r := Stored(m, tmp, s);
      View(r, dir) == View(m, dir) && Seen(r, View(r, dir), v) == Seen(m, View(m, dir), v)
  {
    StoredKeepsView(m, dir, tmp, s);
    StoredKeepsByte(m, tmp, s, Translate(View(m, dir), v));
  }

  /** One store of the copy, at its virtual address. */
  method StoreByte(ram: array<Word>, dir: Word, tmp: Word, dest: Word, b: Byte,
                   ghost m: seq<Word>, ghost s: seq<Byte>)
    requires ram.Length == RAM_WORDS && WellFormed(m, dir) && |s| < PAGE
    requires tmp % PAGE == 0 && DirAvoids(m, dir, tmp) && SelfMapped(View(m, dir), tmp)
    requires dest == tmp + |s| && ram[..] == Stored(m, tmp, s)
    modifies ram
    ensures tmp + |s + [b]| <= WORD && ram[..] == Stored(m, tmp, s + [b])
  {
    assert IsRam(m) && dir % PAGE == 0;
    assert IsRam(ram[..]);
    hide *;
    StoredKeepsView(m, dir, tmp, s);
    PageOfTmp(View(m, dir), tmp, |s|, dest);
    var p := GetPaddr(ram, dir, dest);
    WriteByte(ram, p, b);
    StoredAppend(m, tmp, s, b, dest);
  }

  /** One load of the copy: a byte of the original string. */
  method NextChar(ram: array<Word>, dir: Word, tmp: Word, src: Word, n: nat,
                  ghost m: seq<Word>, ghost v: Word, ghost max: nat, ghost goal: seq<Byte>, ghost s: seq<Byte>)
    returns (b: Byte)
    requires ram.Length == RAM_WORDS && WellFormed(m, dir) && |s| <= PAGE && tmp + |s| <= WORD
    requires tmp % PAGE == 0 && DirAvoids(m, dir, tmp) && ram[..] == Stored(m, tmp, s)
    requires n >= 1 && max >= 1 && goal == StringAt(m, View(m, dir), v, max - 1)
    requires ReadsMiss(m, View(m, dir), v, max - 1, tmp)
    requires Reading(m, View(m, dir), v, max, goal, s, src, n)
    ensures if b == 0 || n == 1 then goal == s
            else Reading(m, View(m, dir), v, max, goal, s + [b], Next(src, 1), n - 1)
  {
    assert IsRam(m) && dir % PAGE == 0;
    hide *;
    ghost var f := View(m, dir);
    MissAt(m, f, v, max, goal, s, src, n, tmp);
    NextByteSeen(m, dir, tmp, s, src);
    b := LoadByte(ram, dir, src);
    ReadingStep(m, f, v, max, goal, s, src, n, b);
  }

  /** strncpy in the task's address space, into the page mapped at `tmp`. */
  method CopyIn(ram: array<Word>, dir: Word, tmp: Word, v: Word, max: nat)
    requires ram.Length == RAM_WORDS && CopyReady(ram[..], dir, tmp, v, max)
    requires tmp % PAGE == 0 && tmp + PAGE <= WORD && max < PAGE
    modifies ram
    ensures var s := StringAt(old(ram[..]), View(old(ram[..]), dir), v, max - 1);
      tmp + |s + [0]| <= WORD && ram[..] == Stored(old(ram[..]), tmp, s + [0])
  {
    assert WORD == 0x1_0000_0000;
    hide *;
    ghost var m := ram[..];
    ReadyParts(m, dir, tmp, v, max);
    ghost var f := View(m, dir);
    ghost var goal := StringAt(m, f, v, max - 1);
    ghost var s: seq<Byte> := [];
    CopyingStart(m, f, tmp, v, max);
    StoredNothing(m, tmp);
    var dest, src, n, b := tmp, v, max, 1;
    while b != 0
      invariant b != 0 ==> Copying(m, f, tmp, v, max, goal, s, dest, src, n) && ram[..] == Stored(m, tmp, s)
      invariant b == 0 ==> tmp + |goal + [0]| <= WORD && ram[..] == Stored(m, tmp, goal + [0])
      decreases if b != 0 then n + 1 else 0
    {
      b, s := CopyChar(ram, dir, tmp, dest, src, n, m, v, max, goal, s);
      if b != 0 { dest, src, n := dest + 1, Next(src, 1), n - 1; }
    }
  }

  /** One round of the copy: a character, or the terminator at the end or at the limit. */
  method CopyChar(ram: array<Word>, dir: Word, tmp: Word, dest: Word, src: Word, n: nat,
                  ghost m: seq<Word>, ghost v: Word, ghost max: nat, ghost goal: seq<Byte>, ghost s: seq<Byte>)
    returns (b: Byte, ghost t: seq<Byte>)
    requires ram.Length == RAM_WORDS && WellFormed(m, dir) && tmp % PAGE == 0 && DirAvoids(m, dir, tmp)
    requires max >= 1 && goal == StringAt(m, View(m, dir), v, max - 1)
    requires ReadsMiss(m, View(m, dir), v, max - 1, tmp) && SelfMapped(View(m, dir), tmp)
    requires Copying(m, View(m, dir), tmp, v, max, goal, s, dest, src, n) && ram[..] == Stored(m, tmp, s)
    modifies ram
    ensures b == 0 ==> tmp + |goal + [0]| <= WORD && ram[..] == Stored(m, tmp, goal + [0])
    ensures b != 0 ==>
      && n > 1 && dest + 1 < WORD
      && Copying(m, View(m, dir), tmp, v, max, goal, t, dest + 1, Next(src, 1), n - 1)
      && ram[..] == Stored(m, tmp, t)
  {
    assert IsRam(m) && dir % PAGE == 0;
    hide *;
    ghost var f := View(m, dir);
    CopyingBounds(m, f, tmp, v, max, goal, s, dest, src, n);
    b := NextChar(ram, dir, tmp, src, n, m, v, max, goal, s);
    if b == 0 || n == 1 {
      b, t := 0, s;
    } else {
      CopyingStep(m, f, tmp, v, max, goal, s, dest, src, n, b);
      t := s + [b];
    }
    StoreByte(ram, dir, tmp, dest, b, m, s);
  }

  /** Invariant of the copy loop: where it reads, where it writes, how much is left. */
  ghost predicate Copying(m: seq<Word>, f: Flat, tmp: Word, v: Word, max: nat, goal: seq<Byte>,
                          s: seq<Byte>, dest: Word, src: Word, n: nat)
    requires IsRam(m) && |f| == PAGES
  {
    && 1 <= n && dest == tmp + |s| && tmp + |s| < WORD && |s| < PAGE && max < PAGE && tmp + PAGE <= WORD
    && Reading(m, f, v, max, goal, s, src, n)
  }

  lemma ReadyParts(m: seq<Word>, dir: Word, tmp: Word, v: Word, max: nat)
    requires CopyReady(m, dir, tmp, v, max)
    ensures IsRam(m) && dir % PAGE == 0 && WellFormed(m, dir) && DirAvoids(m, dir, tmp)
    ensures max >= 1 && ReadsMiss(m, View(m, dir), v, max - 1, tmp) && SelfMapped(View(m, dir), tmp)
  {
  }

  lemma CopyingStart(m: seq<Word>, f: Flat, tmp: Word, v: Word, max: nat)
    requires IsRam(m) && |f| == PAGES && 1 <= max < PAGE && tmp + PAGE <= WORD
    ensures Copying(m, f, tmp, v, max, StringAt(m, f, v, max - 1), [], tmp, v, max)
  {
    ReadingStart(m, f, v, max);
  }

  lemma CopyingBounds(m: seq<Word>, f: Flat, tmp: Word, v: Word, max: nat, goal: seq<Byte>,
                      s: seq<Byte>, dest: Word, src: Word, n: nat)
    requires IsRam(m) && |f| == PAGES && Copying(m, f, tmp, v, max, goal, s, dest, src, n)
    ensures 1 <= n && dest == tmp + |s| && |s| < PAGE && tmp + |s| < WORD
    ensures Reading(m, f, v, max, goal, s, src, n)
    ensures n > 1 ==> dest + 1 < WORD
  {
    hide Reading;
    assert n > 1 ==> |s| + 1 < PAGE by { ReadingLength(m, f, v, max, goal, s, src, n); }
  }

  lemma ReadingLength(m: seq<Word>, f: Flat, v: Word, max: nat, goal: seq<Byte>, s: seq<Byte>,
                      src: Word, n: nat)
    requires IsRam(m) && |f| == PAGES && n >= 1 && Reading(m, f, v, max, goal, s, src, n)
    ensures n + |s| == max
  {
  }

  lemma CopyingStep(m: seq<Word>, f: Flat, tmp: Word, v: Word, max: nat, goal: seq<Byte>,
                    s: seq<Byte>, dest: Word, src: Word, n: nat, b: Byte)
    requires IsRam(m) && |f| == PAGES && Copying(m, f, tmp, v, max, goal, s, dest, src, n) && n > 1
    requires Reading(m, f, v, max, goal, s + [b], Next(src, 1), n - 1)
    ensures dest + 1 < WORD
    ensures Copying(m, f, tmp, v, max, goal, s + [b], dest + 1, Next(src, 1), n - 1)
  {
    ReadingLength(m, f, v, max, goal, s + [b], Next(src, 1), n - 1);
    hide Reading, Next;
    assert |s + [b]| == |s| + 1;
  }

  /** The string's bytes lie outside frame `tmp`. */
  ghost predicate ReadsMiss(m: seq<Word>, f: Flat, v: Word, n: nat, tmp: Word)
    requires IsRam(m) && |f| == PAGES
  {
    forall k :: 0 <= k <= |StringAt(m, f, v, n)| ==> FrameOf(Translate(f, Next(v, k)) / 4) != tmp
  }

  lemma MissAt(m: seq<Word>, f: Flat, v: Word, max: nat, goal: seq<Byte>, s: seq<Byte>,
               src: Word, n: nat, tmp: Word)
    requires IsRam(m) && |f| == PAGES && 1 <= n && 1 <= max && Reading(m, f, v, max, goal, s, src, n)
    requires goal == StringAt(m, f, v, max - 1) && ReadsMiss(m, f, v, max - 1, tmp)
    ensures FrameOf(Translate(f, src) / 4) != tmp
  {
    hide FrameOf, Translate, StringAt, Next;
  }

  /** Progress of the copy: s has been read, the rest of the string starts at src. */
  ghost predicate Reading(m: seq<Word>, f: Flat, v: Word, max: nat, goal: seq<Byte>, s: seq<Byte>,
                          src: Word, n: nat)
    requires IsRam(m) && |f| == PAGES && n >= 1
  {
    && |s| <= |goal| && src == Next(v, |s|) && n + |s| == max
    && goal == s + StringAt(m, f, src, n - 1)
  }

  lemma ReadingStart(m: seq<Word>, f: Flat, v: Word, max: nat)
    requires IsRam(m) && |f| == PAGES && max >= 1
    ensures Reading(m, f, v, max, StringAt(m, f, v, max - 1), [], v, max)
  {
    hide StringAt;
    assert Next(v, 0) == v;
    assert [] + StringAt(m, f, v, max - 1) == StringAt(m, f, v, max - 1);
  }

  lemma ReadingStep(m: seq<Word>, f: Flat, v: Word, max: nat, goal: seq<Byte>, s: seq<Byte>,
                    src: Word, n: nat, b: Byte)
    requires IsRam(m) && |f| == PAGES && n >= 1 && Reading(m, f, v, max, goal, s, src, n)
    requires b == Seen(m, f, src)
    ensures if b == 0 || n == 1 then goal == s
            else Reading(m, f, v, max, goal, s + [b], Next(src, 1), n - 1)
  {
    hide Seen;
    if b != 0 && n > 1 {
      NextNext(v, |s|, 1);
      assert |s + [b]| == |s| + 1;
      assert [b] + StringAt(m, f, Next(src, 1), n - 2) == StringAt(m, f, src, n - 1);
    }
  }

  lemma StoredNothing(m: seq<Word>, a: Word)
    requires IsRam(m)
    ensures Stored(m, a, []) == m
  {
  }

  /** The temporary page maps to itself, present, writable and accessible. */
  predicate SelfMapped(f: Flat, tmp: Word)
    requires |f| == PAGES
  {
    f[tmp / 4096] == tmp + 7
  }

  lemma PageOfTmp(f: Flat, tmp: Word, k: nat, a: Word)
    requires |f| == PAGES && tmp % PAGE == 0 && k < PAGE && SelfMapped(f, tmp)
    requires a == tmp + k
    ensures Translate(f, a) == a
  {
    assert a / PAGE == tmp / PAGE && a % PAGE == k;
  }

  /** strncpy under the one-to-one kernel directory, out of the temporary page. */
  method CopyOut(ram: array<Word>, phys: Word, tmp: Word, max: nat, ghost s: seq<Byte>)
    requires ram.Length == RAM_WORDS && tmp + PAGE <= WORD && phys + max <= WORD
    requires |s| < max < PAGE && 0 !in s
    requires forall k :: 0 <= k < |s| ==> ByteAt(ram[..], tmp + k) == s[k]
    requires ByteAt(ram[..], tmp + |s|) == 0
    requires phys + max <= tmp || tmp + PAGE <= phys
    modifies ram
    ensures ram[..] == Stored(old(ram[..]), phys, s + [0])
  {
    hide Stored, Digit;
    ghost var m := ram[..];
    var k, n := 0, max;
    StoredNothing(m, phys);
    while true
      invariant 0 <= k <= |s| && n == max - k
      invariant ram[..] == Stored(m, phys, s[..k])
      decreases n
    {
      StoredBytes(m, phys, s[..k], tmp + k);
      var b := Digit(ram[(tmp + k) / 4], (tmp + k) % 4);
      assert b == ByteAt(ram[..], tmp + k) == ByteAt(m, tmp + k);
      if k < |s| { assert s[k] in s; }
      if b == 0 || n == 1 { break; }
      assert s[..k + 1] == s[..k] + [b];
      WriteByte(ram, phys + k, b);
      StoredAppend(m, phys, s[..k], b, phys + k);
      k, n := k + 1, n - 1;
    }
    assert s[..k] == s;
    WriteByte(ram, phys + k, 0);
    StoredAppend(m, phys, s, 0, phys + k);
  }

  // --- the whole operation ----------------------------------------------------------------

  /** Address of the block the temporary page will get. */
  function TmpAddress(e: Table, saddr: Word): Word
    requires StartBlock(e, 1) >= 0
  {
    BlockToAddress(saddr, StartBlock(e, 1))
  }

  /** The first block the heap will give is in no frame of a held directory. */
  lemma TmpIsApart(e: Table, saddr: Word, m: seq<Word>, dir: Word)
    requires ValidPool(saddr, |e|) && DirHeld(e, saddr, m, dir) && StartBlock(e, 1) >= 0
    ensures var tmp := TmpAddress(e, saddr);
      tmp % PAGE == 0 && 0 < tmp && tmp + PAGE <= WORD && DirAvoids(m, dir, tmp)
  {
    var s := StartBlock(e, 1);
    ScanOne(e);
    BlockAddressRoundTrip(saddr, |e|, s);
    var tmp := TmpAddress(e, saddr);
    hide StartBlock;
    assert RunFree(e, s, 1);
    assert RunFrames(saddr, s, 1)[0] == tmp;
    HeldNotInFreeRun(e, saddr, s, 1, dir);
    forall j | 0 <= j < ENTRIES ensures TableOf(m, dir, j) != tmp {
      HeldNotInFreeRun(e, saddr, s, 1, TableOf(m, dir, j));
    }
  }

  /** The temporary mapping and the cleared page do not change what the string reads. */
  lemma StringSurvivesSetup(m: seq<Word>, dir: Word, tmp: Word, size: nat, v: Word, n: nat)
    requires WellFormed(m, dir) && tmp % PAGE == 0 && DirAvoids(m, dir, tmp) && size <= PAGE
    requires StringClear(m, View(m, dir), v, n, tmp, Slot(m, dir, tmp / PAGE))
    ensures var r := Mapped1(m, dir, tmp, size);
      && StringAt(r, View(r, dir), v, n) == StringAt(m, View(m, dir), v, n)
      && ReadsMiss(r, View(r, dir), v, n, tmp)
  {
    var f := View(m, dir);
    var slot := Slot(m, dir, tmp / PAGE);
    MapTmp(m, dir, tmp, size);
    var r := Mapped1(m, dir, tmp, size);
    var g := View(r, dir);
    hide View, Mapped1, PageSet, WellFormed, Zeroed, OnlyFrames, DirAvoids, Slot, SameDirectory;
    hide Seen, Next, Translate, FrameOf;
    forall k | 0 <= k <= |StringAt(m, f, v, n)|
      ensures Seen(r, g, Next(v, k)) == Seen(m, f, Next(v, k))
      ensures FrameOf(Translate(g, Next(v, k)) / 4) != tmp
    {
      assert ByteClear(f, Next(v, k), tmp, slot);
      SeenSame(m, r, f, g, Next(v, k), tmp, slot);
    }
    hide ByteClear;
    StringAtAgrees(m, f, r, g, v, n);
  }

  lemma SeenSame(m: seq<Word>, r: seq<Word>, f: Flat, g: Flat, v: Word, tmp: Word, slot: nat)
    requires IsRam(m) && IsRam(r) && |f| == PAGES && tmp + 7 < WORD && g == f[tmp / PAGE := tmp + 7]
    requires ByteClear(f, v, tmp, slot)
    requires forall w :: 0 <= w < RAM_WORDS && FrameOf(w) != tmp && w != slot ==> r[w] == m[w]
    ensures Seen(r, g, v) == Seen(m, f, v) && FrameOf(Translate(g, v) / 4) != tmp
  {
    assert Translate(g, v) == Translate(f, v);
    hide Translate, FrameOf, Digit;
  }

  /** The destination bytes lie in no frame of the directory. */
  ghost predicate DestApart(m: seq<Word>, dir: Word, phys: Word, max: nat)
    requires IsRam(m) && dir % PAGE == 0
  {
    phys + max <= WORD &&
    forall w :: 0 <= w < RAM_WORDS && phys / 4 <= w <= (phys + max) / 4 ==>
      FrameOf(w) != dir && !IsTable(m, dir, FrameOf(w))
  }

  lemma StoreOutsideDir(m: seq<Word>, dir: Word, phys: Word, s: seq<Byte>, max: nat)
    requires WellFormed(m, dir) && DestApart(m, dir, phys, max) && |s| <= max
    ensures phys + |s| <= WORD
    ensures var r := Stored(m, phys, s); WellFormed(r, dir) && View(r, dir) == View(m, dir)
  {
    var r := Stored(m, phys, s);
    forall w | 0 <= w < RAM_WORDS && (FrameOf(w) == dir || IsTable(m, dir, FrameOf(w)))
      ensures r[w] == m[w]
    {
      StoredWords(m, phys, s, w);
    }
    forall j | 0 <= j < ENTRIES ensures DirEntry(r, dir, j) == DirEntry(m, dir, j) {
      DirectoryFrame(dir, j);
    }
    SameTables(m, r, dir);
    forall p | 0 <= p < PAGES ensures View(r, dir)[p] == View(m, dir)[p] {
      assert FrameOf(Slot(m, dir, p)) == TableOf(m, dir, p / ENTRIES);
      assert IsTable(m, dir, FrameOf(Slot(m, dir, p)));
    }
  }

  /** What the destination and the rest of memory hold afterwards. */
  ghost predicate Delivered(m: seq<Word>, r: seq<Word>, tmp: Word, phys: Word, s: seq<Byte>)
    requires IsRam(m) && IsRam(r)
  {
    && phys + |s| < WORD
    && (forall k :: 0 <= k < |s| ==> ByteAt(r, phys + k) == s[k])
    && ByteAt(r, phys + |s|) == 0
    && (forall c: Word :: !(phys <= c <= phys + |s|) && FrameOf(c / 4) != tmp ==> ByteAt(r, c) == ByteAt(m, c))
  }

  function Mapped1(m: seq<Word>, dir: Word, tmp: Word, size: nat): (r: seq<Word>)
    requires IsRam(m) && dir % PAGE == 0 && tmp % PAGE == 0
    ensures IsRam(r)
  {
    PageSet(Zeroed(m, tmp, size), dir, tmp, tmp + 7)
  }

  function Unmapped(m: seq<Word>, dir: Word, tmp: Word, size: nat, t: seq<Byte>): (r: seq<Word>)
    requires IsRam(m) && dir % PAGE == 0 && tmp % PAGE == 0 && tmp + |t| <= WORD
    ensures IsRam(r)
  {
    PageSet(Stored(Mapped1(m, dir, tmp, size), tmp, t), dir, tmp, View(m, dir)[tmp / PAGE])
  }

  /** Clearing the page and mapping it leaves a well-formed directory. */
  lemma MapTmp(m: seq<Word>, dir: Word, tmp: Word, size: nat)
    requires WellFormed(m, dir) && tmp % PAGE == 0 && DirAvoids(m, dir, tmp) && size <= PAGE
    ensures var a := Mapped1(m, dir, tmp, size);
      && WellFormed(a, dir) && DirAvoids(a, dir, tmp)
      && View(a, dir) == View(m, dir)[tmp / PAGE := tmp + 7]
      && Slot(a, dir, tmp / PAGE) == Slot(m, dir, tmp / PAGE)
      && SameDirectory(m, a, dir)
      && (forall w :: 0 <= w < RAM_WORDS && FrameOf(w) != tmp && w != Slot(m, dir, tmp / PAGE) ==>
            a[w] == m[w])
  {
    var z, a := Zeroed(m, tmp, size), Mapped1(m, dir, tmp, size);
    ZeroedOnlyFrame(m, tmp, size);
    ViewElsewhere(m, z, dir, [tmp]);
    Mapped1Is(m, dir, tmp, size);
    hide View, WellFormed, Zeroed, Mapped1, FrameOf;
    SameTables(m, z, dir);
    SetRefinesFlat(z, dir, tmp, tmp + 7);
    SameTables(z, a, dir);
    hide OnlyTables;
  }

  lemma SelfPacked(tmp: Word)
    requires tmp % PAGE == 0
    ensures tmp + 7 < WORD && PageBase(tmp + 7) == tmp
  {
    ModUnique(tmp + 7, PAGE, tmp / PAGE, 7);
  }

  lemma ViewOfZeroed(m: seq<Word>, dir: Word, tmp: Word, size: nat)
    requires WellFormed(m, dir) && tmp % PAGE == 0 && DirAvoids(m, dir, tmp) && size <= PAGE
    ensures View(Zeroed(m, tmp, size), dir) == View(m, dir)
  {
    ZeroedOnlyFrame(m, tmp, size);
    ViewElsewhere(m, Zeroed(m, tmp, size), dir, [tmp]);
  }

  /** Putting the old entry back restores every word outside the temporary page. */
  lemma UnmapRestores(m: seq<Word>, dir: Word, tmp: Word, size: nat, t: seq<Byte>)
    requires WellFormed(m, dir) && tmp % PAGE == 0 && tmp + |t| <= WORD && |t| <= PAGE
    requires DirAvoids(m, dir, tmp) && size <= PAGE
    ensures var c := Unmapped(m, dir, tmp, size, t);
      && WellFormed(c, dir) && View(c, dir) == View(m, dir)
      && OnlyFrames(m, c, [tmp]) && SameDirectory(m, c, dir)
  {
    var a := Mapped1(m, dir, tmp, size);
    var b := Stored(a, tmp, t);
    var c := Unmapped(m, dir, tmp, size, t);
    var slot := Slot(m, dir, tmp / PAGE);
    MapTmp(m, dir, tmp, size);
    StoredKeepsView(a, dir, tmp, t);
    StoredInFrame(a, tmp, t);
    SameTables(a, b, dir);
    assert c == b[slot := m[slot]];
    hide PageSet, Stored, Mapped1, Unmapped, FrameOf, View, WellFormed, Slot;
    assert OnlyFrames(m, c, [tmp]) by {
      forall w | 0 <= w < RAM_WORDS && FrameOf(w) !in [tmp] ensures c[w] == m[w] {
        assert w != slot ==> c[w] == b[w] == a[w] == m[w];
      }
    }
    ViewElsewhere(m, c, dir, [tmp]);
  }

  /** The copied bytes are still in the temporary page. */
  lemma UnmapKeepsCopy(m: seq<Word>, dir: Word, tmp: Word, size: nat, t: seq<Byte>, k: nat)
    requires WellFormed(m, dir) && tmp % PAGE == 0 && tmp + |t| <= WORD && k < |t| <= PAGE
    requires DirAvoids(m, dir, tmp) && size <= PAGE
    ensures ByteAt(Unmapped(m, dir, tmp, size, t), tmp + k) == t[k]
  {
    var a := Mapped1(m, dir, tmp, size);
    var b := Stored(a, tmp, t);
    var slot := Slot(m, dir, tmp / PAGE);
    MapTmp(m, dir, tmp, size);
    StoredKeepsView(a, dir, tmp, t);
    SameTables(a, b, dir);
    assert FrameOf(slot) == TableOf(m, dir, tmp / PAGE / ENTRIES) != tmp;
    assert Unmapped(m, dir, tmp, size, t) == b[slot := View(m, dir)[tmp / PAGE]];
    StoredByte(a, b, tmp, t, k, slot, View(m, dir)[tmp / PAGE]);
  }

  /** A stored byte, after a store to a word of another frame. */
  lemma StoredByte(a: seq<Word>, b: seq<Word>, tmp: Word, t: seq<Byte>, k: nat, slot: nat, val: Word)
    requires IsRam(a) && tmp % PAGE == 0 && tmp + |t| <= WORD && k < |t| <= PAGE && b == Stored(a, tmp, t)
    requires slot < RAM_WORDS && FrameOf(slot) != tmp
    ensures ByteAt(b[slot := val], tmp + k) == t[k]
  {
    ByteFrame(tmp, k);
    StoredBytes(a, tmp, t, tmp + k);
    hide ByteAt, Stored, FrameOf;
    ByteBeside(b, slot, val, tmp + k);
  }

  /** A store to another word leaves a byte as it was. */
  lemma ByteBeside(b: seq<Word>, slot: nat, val: Word, c: Word)
    requires IsRam(b) && slot < RAM_WORDS && slot != c / 4
    ensures ByteAt(b[slot := val], c) == ByteAt(b, c)
  {
    hide Digit;
  }

  lemma ByteFrame(a: Word, k: nat)
    requires a % PAGE == 0 && k < PAGE
    ensures (a + k) / 4 < RAM_WORDS && FrameOf((a + k) / 4) == a
  {
    var q := a / PAGE;
    assert (4096 * q + k) / 4 == 1024 * q + k / 4;
    FrameWord(a, k / 4);
  }

  /** The last copy delivers the string and changes nothing else. */
  lemma DeliveredBytes(m: seq<Word>, c: seq<Word>, tmp: Word, phys: Word, s: seq<Byte>)
    requires OnlyFrames(m, c, [tmp]) && phys + |s| < WORD
    ensures Delivered(m, Stored(c, phys, s + [0]), tmp, phys, s)
  {
    var t := s + [0];
    var d := Stored(c, phys, t);
    hide Stored, ByteAt;
    forall k | 0 <= k <= |s| ensures ByteAt(d, phys + k) == t[k] {
      StoredBytes(c, phys, t, phys + k);
    }
    assert t[|s|] == 0 && forall k :: 0 <= k < |s| ==> t[k] == s[k];
    forall x: Word | !(phys <= x <= phys + |s|) && FrameOf(x / 4) != tmp
      ensures ByteAt(d, x) == ByteAt(m, x)
    {
      StoredBytes(c, phys, t, x);
      OtherByte(m, c, tmp, x);
    }
  }

  lemma OtherByte(m: seq<Word>, c: seq<Word>, tmp: Word, x: Word)
    requires OnlyFrames(m, c, [tmp]) && FrameOf(x / 4) != tmp
    ensures ByteAt(c, x) == ByteAt(m, x)
  {
    hide Digit;
  }

  lemma SameTablesApart(m: seq<Word>, r: seq<Word>, dir: Word, phys: Word, max: nat)
    requires IsRam(m) && IsRam(r) && dir % PAGE == 0 && SameDirectory(m, r, dir)
    requires DestApart(m, dir, phys, max)
    ensures DestApart(r, dir, phys, max)
  {
    SameTables(m, r, dir);
  }

  /** The heap table after taking one block and giving it back. */
  lemma BlockReturned(e: Table, saddr: Word)
    requires ValidPool(saddr, |e|) && Clean(e) && StartBlock(e, 1) >= 0
    ensures FreedAddress(Marked(UnsignedChar, e, StartBlock(e, 1), 1), saddr, TmpAddress(e, saddr)) == e
  {
    var s := StartBlock(e, 1);
    ScanOne(e);
    BlockAddressRoundTrip(saddr, |e|, s);
    FreeInvertsMark(UnsignedChar, e, s, 1);
  }

  /** copy_string_from_task, for a task whose directory is `dir` and a kernel whose
      one-to-one directory is `kdir`. */
  method CopyStringFromTask(h: Heap, ram: array<Word>, cpu: Cpu, kdir: Word, dir: Word,
                            v: Word, phys: Word, max: nat)
    returns (ret: int)
    requires Loading(h, ram, dir) && Clean(h.entries[..]) && max < 0x8000_0000
    requires 1 <= max < PAGE && StartBlock(h.entries[..], 1) >= 0 ==>
      var tmp := TmpAddress(h.entries[..], h.saddr);
      && StringClear(ram[..], View(ram[..], dir), v, max - 1, tmp, Slot(ram[..], dir, tmp / PAGE))
      && DestApart(ram[..], dir, phys, max)
      && (phys + max <= tmp || tmp + PAGE <= phys)
    requires max >= 1
    modifies h.entries, ram, cpu
    ensures h.entries[..] == old(h.entries[..])
    ensures max >= PAGE ==> ret == -EINVAL && ram[..] == old(ram[..]) && cpu.active == old(cpu.active)
    ensures max < PAGE && StartBlock(old(h.entries[..]), 1) < 0 ==>
      ret == -ENOMEM && ram[..] == Zeroed(old(ram[..]), 0, max) && cpu.active == old(cpu.active)
    ensures max < PAGE && StartBlock(old(h.entries[..]), 1) >= 0 ==>
      && ret == 0 && cpu.active == kdir
      && WellFormed(ram[..], dir) && View(ram[..], dir) == View(old(ram[..]), dir)
      && Delivered(old(ram[..]), ram[..], TmpAddress(old(h.entries[..]), h.saddr), phys,
                   StringAt(old(ram[..]), View(old(ram[..]), dir), v, max - 1))
    ensures IsStringAt(old(ram[..]), View(old(ram[..]), dir), v, max - 1,
                       StringAt(old(ram[..]), View(old(ram[..]), dir), v, max - 1))
  {
    StringIsString(ram[..], View(ram[..], dir), v, max - 1);
    hide StringAt, IsStringAt;
    if max >= PAGE { return -EINVAL; }
    ghost var e, m := h.entries[..], ram[..];
    assert BlocksFor(max) == 1 by { BlocksForExact(max); }
    assert !Overruns(e, 1) by { ScanOne(e); }
    var tmp := KZalloc(h, ram, max);
    if tmp == 0 {
      PoolAboveTable(e, h.saddr, 0, max);
      assert StartBlock(e, 1) < 0 by { if StartBlock(e, 1) >= 0 { TmpIsApart(e, h.saddr, m, dir); } }
      return -ENOMEM;
    }
    assert StartBlock(e, 1) >= 0;
    TmpIsApart(e, h.saddr, m, dir);
    BlockReturned(e, h.saddr);
    ret := CopyThroughTmp(ram, cpu, kdir, dir, v, phys, max, tmp, m);
    h.Free(tmp);
  }

  /** Everything between the allocation and the release of the temporary page. */
  method CopyThroughTmp(ram: array<Word>, cpu: Cpu, kdir: Word, dir: Word, v: Word, phys: Word,
                        max: nat, tmp: Word, ghost m: seq<Word>)
    returns (ret: int)
    requires ram.Length == RAM_WORDS && WellFormed(m, dir) && ram[..] == Zeroed(m, tmp, max)
    requires tmp % PAGE == 0 && tmp + PAGE <= WORD && DirAvoids(m, dir, tmp) && 1 <= max < PAGE
    requires StringClear(m, View(m, dir), v, max - 1, tmp, Slot(m, dir, tmp / PAGE))
    requires DestApart(m, dir, phys, max) && (phys + max <= tmp || tmp + PAGE <= phys)
    modifies ram, cpu
    ensures ret == 0 && cpu.active == kdir
    ensures WellFormed(ram[..], dir) && View(ram[..], dir) == View(m, dir)
    ensures Delivered(m, ram[..], tmp, phys, StringAt(m, View(m, dir), v, max - 1))
  {
    ghost var s := StringAt(m, View(m, dir), v, max - 1);
    var oldEntry := MapTemporary(ram, dir, v, max, tmp, m);
    hide *;
    cpu.PagingSwitch(dir);
    CopyIn(ram, dir, tmp, v, max);
    cpu.PagingSwitch(kdir);
    CopyBack(ram, dir, phys, max, tmp, oldEntry, m, s);
    ret := 0;
  }

  /** The directory is ready for the copy: `tmp` is mapped to itself and nothing of the
      string lies in it. */
  ghost predicate CopyReady(m: seq<Word>, dir: Word, tmp: Word, v: Word, max: nat) {
    && WellFormed(m, dir) && DirAvoids(m, dir, tmp) && max >= 1
    && SelfMapped(View(m, dir), tmp)
    && ReadsMiss(m, View(m, dir), v, max - 1, tmp)
  }

  /** Remember the old entry of the page and map it to itself, writable. */
  method MapTemporary(ram: array<Word>, dir: Word, v: Word, max: nat, tmp: Word, ghost m: seq<Word>)
    returns (oldEntry: Word)
    requires ram.Length == RAM_WORDS && WellFormed(m, dir) && ram[..] == Zeroed(m, tmp, max)
    requires tmp % PAGE == 0 && DirAvoids(m, dir, tmp) && 1 <= max < PAGE
    requires StringClear(m, View(m, dir), v, max - 1, tmp, Slot(m, dir, tmp / PAGE))
    modifies ram
    ensures oldEntry == View(m, dir)[tmp / PAGE]
    ensures ram[..] == Mapped1(m, dir, tmp, max) && CopyReady(ram[..], dir, tmp, v, max)
    ensures StringAt(ram[..], View(ram[..], dir), v, max - 1) == StringAt(m, View(m, dir), v, max - 1)
  {
    hide *;
    SetupFacts(m, dir, max, tmp);
    StringSurvivesSetup(m, dir, tmp, max, v, max - 1);
    CopySetUp(m, Mapped1(m, dir, tmp, max), dir, v, max, tmp);
    var ret;
    ret, oldEntry := Get(ram, dir, tmp);
    ret := Map(ram, dir, tmp, tmp, Or(PRESENT, Or(WRITABLE, USER)));
  }

  lemma SetupFacts(m: seq<Word>, dir: Word, max: nat, tmp: Word)
    requires WellFormed(m, dir) && tmp % PAGE == 0 && DirAvoids(m, dir, tmp) && 1 <= max < PAGE
    ensures IsRam(m) && IsRam(Zeroed(m, tmp, max)) && dir % PAGE == 0
    ensures Or(PRESENT, Or(WRITABLE, USER)) == 7 && tmp + 7 < WORD
    ensures View(Zeroed(m, tmp, max), dir) == View(m, dir)
    ensures Mapped1(m, dir, tmp, max) == PageSet(Zeroed(m, tmp, max), dir, tmp, tmp + 7)
  {
    ViewOfZeroed(m, dir, tmp, max);
    FlagBits();
    Mapped1Is(m, dir, tmp, max);
  }

  lemma CopySetUp(m: seq<Word>, a: seq<Word>, dir: Word, v: Word, max: nat, tmp: Word)
    requires WellFormed(m, dir) && tmp % PAGE == 0 && DirAvoids(m, dir, tmp) && 1 <= max < PAGE
    requires a == Mapped1(m, dir, tmp, max) && IsRam(a) && ReadsMiss(a, View(a, dir), v, max - 1, tmp)
    ensures CopyReady(a, dir, tmp, v, max)
  {
    MapTmp(m, dir, tmp, max);
    Mapped1Is(m, dir, tmp, max);
    hide WellFormed, DirAvoids, View, ReadsMiss, Slot, SameDirectory;
  }

  lemma Mapped1Is(m: seq<Word>, dir: Word, tmp: Word, size: nat)
    requires IsRam(m) && dir % PAGE == 0 && tmp % PAGE == 0
    ensures IsRam(Zeroed(m, tmp, size)) && tmp + 7 < WORD && PageBase(tmp + 7) == tmp
    ensures Mapped1(m, dir, tmp, size) == PageSet(Zeroed(m, tmp, size), dir, tmp, tmp + 7)
  {
    SelfPacked(tmp);
    hide PageSet, Zeroed;
  }

  /** Put the old entry back, and copy the string to its destination. */
  method CopyBack(ram: array<Word>, dir: Word, phys: Word, max: nat, tmp: Word, oldEntry: Word,
                  ghost m: seq<Word>, ghost s: seq<Byte>)
    requires ram.Length == RAM_WORDS && WellFormed(m, dir) && tmp % PAGE == 0 && tmp + PAGE <= WORD
    requires DirAvoids(m, dir, tmp) && |s| < max < PAGE && 0 !in s
    requires oldEntry == View(m, dir)[tmp / PAGE]
    requires tmp + |s + [0]| <= WORD && ram[..] == Stored(Mapped1(m, dir, tmp, max), tmp, s + [0])
    requires DestApart(m, dir, phys, max) && (phys + max <= tmp || tmp + PAGE <= phys)
    modifies ram
    ensures WellFormed(ram[..], dir) && View(ram[..], dir) == View(m, dir)
    ensures Delivered(m, ram[..], tmp, phys, s)
  {
    ghost var t := s + [0];
    UnmapRestores(m, dir, tmp, max, t);
    ghost var c := Unmapped(m, dir, tmp, max, t);
    CopyStillThere(m, dir, tmp, max, s);
    SameTablesApart(m, c, dir, phys, max);
    assert c == PageSet(ram[..], dir, tmp, oldEntry);
    assert IsRam(m) && IsRam(c) && dir % PAGE == 0 && phys + max <= WORD;
    hide *;
    var ret := Set(ram, dir, tmp, oldEntry);
    CopyOut(ram, phys, tmp, max, s);
    StoreOutsideDir(c, dir, phys, t, max);
    DeliveredBytes(m, c, tmp, phys, s);
  }

  lemma CopyStillThere(m: seq<Word>, dir: Word, tmp: Word, max: nat, s: seq<Byte>)
    requires WellFormed(m, dir) && tmp % PAGE == 0 && tmp + PAGE <= WORD
    requires DirAvoids(m, dir, tmp) && |s| < max < PAGE && tmp + |s + [0]| <= WORD
    ensures var c := Unmapped(m, dir, tmp, max, s + [0]);
      (forall k :: 0 <= k < |s| ==> ByteAt(c, tmp + k) == s[k]) && ByteAt(c, tmp + |s|) == 0
  {
    var t := s + [0];
    var c := Unmapped(m, dir, tmp, max, t);
    hide Unmapped, ByteAt;
    forall k | 0 <= k <= |s| ensures ByteAt(c, tmp + k) == t[k] {
      UnmapKeepsCopy(m, dir, tmp, max, t, k);
    }
    assert forall k :: 0 <= k < |s| ==> t[k] == s[k];
  }

  // --- the name of a program to start -----------------------------------------------------

  const NAME_BUFFER: nat := 108
  const NAME_PREFIX: nat := 3

  /** Every byte of the range lies in the buffer. */
  predicate WithinBuffer(buffer: nat, first: nat, last: nat) {
    buffer <= first && last < buffer + NAME_BUFFER
  }

  /** exec copies a name behind a prefix of three bytes but passes the size of the whole buffer
      as the limit. What the copy delivers stays inside the buffer exactly when the name, cut at
      107 characters, has at most 104; then nothing outside changes, and otherwise the rest of
      the name and its terminator stand behind the buffer. */
  lemma ExecNameFits(m: seq<Word>, f: Flat, v: Word, r: seq<Word>, tmp: Word, buffer: Word, name: seq<Byte>)
    requires IsRam(m) && IsRam(r) && |f| == PAGES && name == StringAt(m, f, v, NAME_BUFFER - 1)
    requires buffer + NAME_PREFIX < WORD && Delivered(m, r, tmp, buffer + NAME_PREFIX, name)
    ensures WithinBuffer(buffer, buffer + NAME_PREFIX, buffer + NAME_PREFIX + |name|) <==> |name| <= 104
    ensures |name| <= 104 ==>
      forall c: Word :: !(buffer <= c < buffer + NAME_BUFFER) && FrameOf(c / 4) != tmp ==> ByteAt(r, c) == ByteAt(m, c)
    ensures |name| > 104 ==>
      forall k :: 105 <= k <= |name| ==>
        && buffer + NAME_BUFFER <= buffer + NAME_PREFIX + k < WORD
        && ByteAt(r, buffer + NAME_PREFIX + k) == (name + [0])[k]
  {
    hide ByteAt, FrameOf, StringAt;
    assert forall k :: 0 <= k < |name| ==> (name + [0])[k] == name[k];
  }
}
