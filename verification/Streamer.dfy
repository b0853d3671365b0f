/** Reading a byte stream from a disk that only delivers whole sectors. */
module Streamer {
  import opened Words

  const SECTOR_SIZE: nat := 512

  /** What reading one sector gives: its bytes, or a negative code. */
  datatype SectorRead = Data(bytes: seq<Byte>) | Fault(code: int)

  type Disk = nat -> SectorRead

  ghost predicate IsDisk(disk: Disk) {
    forall s: nat :: match disk(s)
      case Data(bytes) => |bytes| == SECTOR_SIZE
      case Fault(code) => code < 0
  }

  /** The disk as a flat array of bytes; bytes of unreadable sectors count as zero. */
  function ByteOn(disk: Disk, a: nat): Byte {
    match disk(a / SECTOR_SIZE)
    case Data(bytes) => if a % SECTOR_SIZE < |bytes| then bytes[a % SECTOR_SIZE] else 0
    case Fault(_) => 0
  }

  function ByteAfter(disk: Disk, pos: nat, k: nat): Byte { ByteOn(disk, pos + k) }

  function Slice(disk: Disk, pos: nat, n: nat): (s: seq<Byte>)
    ensures |s| == n
    ensures forall k :: 0 <= k < n ==> s[k] == ByteAfter(disk, pos, k)
  {
    seq(n, k requires 0 <= k < n => ByteAfter(disk, pos, k))
  }

  lemma SliceAppend(disk: Disk, pos: nat, m: nat, n: nat, next: nat)
    requires next == pos + m
    ensures Slice(disk, pos, m) + Slice(disk, next, n) == Slice(disk, pos, m + n)
  {
    var a, b, c := Slice(disk, pos, m), Slice(disk, next, n), Slice(disk, pos, m + n);
    forall k | 0 <= k < m + n ensures (a + b)[k] == c[k] {
      if k >= m {
        assert (a + b)[k] == ByteAfter(disk, next, k - m);
        assert next + (k - m) == pos + k;
      }
    }
  }

  /** Bytes a read takes from the sector it starts in. */
  function FirstPart(pos: nat, total: nat): (n: nat)
    ensures n <= total && (n < total ==> n > 0 && (pos + n) % SECTOR_SIZE == 0)
    ensures n < total ==> (pos + n) / SECTOR_SIZE == pos / SECTOR_SIZE + 1
    ensures pos % SECTOR_SIZE + n <= SECTOR_SIZE
  {
    if pos % SECTOR_SIZE + total >= SECTOR_SIZE then SECTOR_SIZE - pos % SECTOR_SIZE else total
  }

  datatype Outcome = Outcome(delivered: nat, code: int)

  /** Bytes delivered and result code of a read. */
  function ReadOutcome(disk: Disk, pos: nat, total: nat): Outcome
    decreases total
  {
    match disk(pos / SECTOR_SIZE)
    case Fault(code) => Outcome(0, code)
    case Data(_) =>
      var n := FirstPart(pos, total);
      if n == total then Outcome(total, 0)
      else
        var rest := ReadOutcome(disk, pos + n, total - n);
        Outcome(n + rest.delivered, rest.code)
  }

  /** Last sector a read touches; an empty read still reads the sector it stands in. */
  function LastSector(pos: nat, total: nat): nat {
    if total == 0 then pos / SECTOR_SIZE else (pos + total - 1) / SECTOR_SIZE
  }

  ghost predicate Readable(disk: Disk, first: nat, last: int) {
    forall s: nat :: first <= s <= last ==> disk(s).Data?
  }

  /** The read stopped at sector `bad`, the first unreadable one, having delivered all the
      bytes before it. */
  ghost predicate StoppedAt(disk: Disk, pos: nat, total: nat, o: Outcome, bad: nat) {
    && disk(bad) == Fault(o.code) && o.code < 0
    && pos / SECTOR_SIZE <= bad <= LastSector(pos, total) && Readable(disk, pos / SECTOR_SIZE, bad - 1)
    && (if bad == pos / SECTOR_SIZE then o.delivered == 0 else pos + o.delivered == bad * SECTOR_SIZE)
  }

  /** The result says exactly which sectors were readable and what was delivered. */
  ghost predicate Exact(disk: Disk, pos: nat, total: nat, o: Outcome, bad: nat) {
    && o.delivered <= total
    && (o.code == 0 <==> Readable(disk, pos / SECTOR_SIZE, LastSector(pos, total)))
    && (o.code == 0 ==> o.delivered == total)
    && (o.code != 0 ==> StoppedAt(disk, pos, total, o, bad))
  }

  /** A read succeeds exactly when every sector it touches is readable, and then delivers
      everything; otherwise it stops where the first unreadable sector begins. */
  lemma {:induction false} ReadOutcomeExact(disk: Disk, pos: nat, total: nat) returns (bad: nat)
    requires IsDisk(disk)
    ensures Exact(disk, pos, total, ReadOutcome(disk, pos, total), bad)
    decreases total
  {
    var n := FirstPart(pos, total);
    var next, left := pos + n, total - n;
    bad := pos / SECTOR_SIZE;
    hide *;
    ReadSteps(disk, pos, total, n, next, left);
    if disk(bad).Fault? {
      ExactFault(disk, pos, total, bad);
    } else if n == total {
      ExactNow(disk, pos, total, bad);
    } else {
      bad := ReadOutcomeExact(disk, next, left);
      ExactLater(disk, pos, total, n, next, left, ReadOutcome(disk, next, left), bad);
    }
  }

  predicate OnReadable(disk: Disk, a: nat) { disk(a / 512).Data? }

  /** In bytes: a read succeeds exactly when the sector it stands in and the one of every byte
      asked for can be read. */
  lemma SucceedsExactly(disk: Disk, pos: nat, total: nat)
    requires IsDisk(disk)
    ensures ReadOutcome(disk, pos, total).code == 0 <==>
      OnReadable(disk, pos) && forall a: nat :: pos <= a < pos + total ==> OnReadable(disk, a)
  {
    var bad := ReadOutcomeExact(disk, pos, total);
    var o, first, last := ReadOutcome(disk, pos, total), pos / 512, LastSector(pos, total);
    FirstIsTouched(pos, total);
    if o.code == 0 {
      forall a: nat | pos <= a < pos + total ensures OnReadable(disk, a) { assert first <= a / 512 <= last; }
    } else {
      SectorIsTouched(pos, total, bad);
      assert !OnReadable(disk, if bad == first then pos else bad * SECTOR_SIZE);
    }
    hide LastSector, ReadOutcome;
  }

  /** A byte of the read in any sector between its first and its last. */
  lemma SectorIsTouched(pos: nat, total: nat, s: nat)
    requires pos / SECTOR_SIZE <= s <= LastSector(pos, total)
    ensures s == pos / SECTOR_SIZE || (pos <= s * SECTOR_SIZE < pos + total && s * SECTOR_SIZE / SECTOR_SIZE == s)
  {
  }

  /** Every byte delivered is the byte of its sector. */
  lemma DeliveredBytes(disk: Disk, pos: nat, total: nat, k: nat)
    requires IsDisk(disk) && k < ReadOutcome(disk, pos, total).delivered
    ensures OnReadable(disk, pos + k) && |disk((pos + k) / 512).bytes| == 512
    ensures Slice(disk, pos, ReadOutcome(disk, pos, total).delivered)[k] == disk((pos + k) / 512).bytes[(pos + k) % 512]
  {
    var bad := ReadOutcomeExact(disk, pos, total);
    var o := ReadOutcome(disk, pos, total);
    if o.code == 0 {
      SucceedsExactly(disk, pos, total);
      assert OnReadable(disk, pos + k);
    } else {
      assert pos / 512 <= (pos + k) / 512 <= bad - 1;
    }
    hide LastSector, ReadOutcome;
  }

  lemma ExactFault(disk: Disk, pos: nat, total: nat, first: nat)
    requires IsDisk(disk) && first == pos / SECTOR_SIZE && disk(first).Fault?
    ensures Exact(disk, pos, total, Outcome(0, disk(first).code), first)
  {
    FirstIsTouched(pos, total);
    hide LastSector;
  }

  lemma ExactNow(disk: Disk, pos: nat, total: nat, first: nat)
    requires first == pos / SECTOR_SIZE && disk(first).Data? && FirstPart(pos, total) == total
    ensures Exact(disk, pos, total, Outcome(total, 0), first)
  {
    OneSector(pos, total);
    hide LastSector, FirstPart;
  }

  lemma ExactLater(disk: Disk, pos: nat, total: nat, n: nat, next: nat, left: nat, rest: Outcome, bad: nat)
    requires n == FirstPart(pos, total) && n < total && disk(pos / SECTOR_SIZE).Data?
    requires next == pos + n && left == total - n && Exact(disk, next, left, rest, bad)
    ensures Exact(disk, pos, total, Outcome(n + rest.delivered, rest.code), bad)
  {
    LastSectorRest(pos, total, n);
    var f, g, last := pos / SECTOR_SIZE, next / SECTOR_SIZE, LastSector(pos, total);
    assert g == f + 1 && LastSector(next, left) == last && g * SECTOR_SIZE == next;
    hide LastSector, FirstPart;
    assert Readable(disk, f, last) <==> Readable(disk, g, last);
    if rest.code != 0 {
      assert Readable(disk, f, bad - 1) <==> Readable(disk, g, bad - 1);
    }
  }

  lemma LastSectorRest(pos: nat, total: nat, n: nat)
    requires n == FirstPart(pos, total) && n < total
    ensures LastSector(pos + n, total - n) == LastSector(pos, total)
    ensures pos / SECTOR_SIZE < LastSector(pos, total)
    ensures (pos + n) / SECTOR_SIZE * SECTOR_SIZE == pos + n
  {
  }

  lemma OneSector(pos: nat, total: nat)
    requires FirstPart(pos, total) == total
    ensures LastSector(pos, total) == pos / SECTOR_SIZE
  {
  }

  lemma FirstIsTouched(pos: nat, total: nat)
    ensures pos / SECTOR_SIZE <= LastSector(pos, total)
  {
  }

  lemma WithinSector(pos: nat, i: nat)
    requires pos % SECTOR_SIZE + i < SECTOR_SIZE
    ensures (pos + i) / SECTOR_SIZE == pos / SECTOR_SIZE
    ensures (pos + i) % SECTOR_SIZE == pos % SECTOR_SIZE + i
  {
  }

  lemma WrittenNothing(buf: seq<Byte>, at: nat, data: seq<Byte>)
    requires at <= |buf| && data == []
    ensures Written(buf, at, data) == buf
  {
  }

  /** One round of the recursion. */
  lemma ReadSteps(disk: Disk, pos: nat, total: nat, n: nat, next: nat, left: nat)
    requires IsDisk(disk) && n == FirstPart(pos, total) && next == pos + n && left == total - n
    ensures disk(pos / SECTOR_SIZE).Data? ==> |disk(pos / SECTOR_SIZE).bytes| == SECTOR_SIZE
    ensures var o, rest := ReadOutcome(disk, pos, total), ReadOutcome(disk, next, left);
      match disk(pos / SECTOR_SIZE)
      case Fault(code) => o == Outcome(0, code)
      case Data(_) => o == if n == total then Outcome(total, 0) else Outcome(n + rest.delivered, rest.code)
  {
  }

  class DiskStream {
    var pos: nat
    const disk: Disk

    constructor (disk: Disk)
      ensures this.disk == disk && pos == 0
    {
      this.disk := disk;
      pos := 0;
    }

    method Seek(p: nat) returns (ret: int)
      modifies this
      ensures pos == p && ret == 0
    {
      pos := p;
      ret := 0;
    }

    /** Where a read starts and how much of it the first sector can serve. */
    method Plan(total: nat) returns (sector: nat, offset: nat, n: nat)
      ensures sector == pos / SECTOR_SIZE && offset == pos % SECTOR_SIZE
      ensures n == FirstPart(pos, total) && offset + n <= SECTOR_SIZE && (n < total ==> n > 0)
    {
      sector := pos / SECTOR_SIZE;
      offset := pos % SECTOR_SIZE;
      n := total;
      if offset + n >= SECTOR_SIZE { n := n - ((offset + n) - SECTOR_SIZE); }
    }

    /** diskstreamer_read: sector by sector, recursing over the remaining bytes. */
    method Read(out: array<Byte>, at: nat, total: nat) returns (ret: int)
      requires IsDisk(disk) && at + total <= out.Length
      modifies this, out
      ensures var o := ReadOutcome(disk, old(pos), total);
        && ret == o.code && o.delivered <= total && pos == old(pos) + o.delivered
        && out[..] == Written(old(out[..]), at, Slice(disk, old(pos), o.delivered))
      decreases total, 0
    {
      hide *;
      ghost var start, before := pos, out[..];
      var sector, offset, n := Plan(total);
      var r := disk(sector);
      ReadSteps(disk, start, total, n, start + n, total - n);
      if r.Fault? {
        WrittenNothing(before, at, Slice(disk, start, 0));
        return r.code;
      }
      CopySector(out, at, r.bytes, offset, n, start);
      pos := pos + n;
      ret := 0;
      if n != total {
        ret := ReadRest(out, at + n, total - n, at, n, start, before);
      }
    }

    /** The recursive call for the remaining bytes. */
    method ReadRest(out: array<Byte>, next: nat, left: nat, ghost at: nat, ghost n: nat,
                    ghost start: nat, ghost before: seq<Byte>)
      returns (ret: int)
      requires IsDisk(disk) && next + left <= out.Length && next == at + n && pos == start + n
      requires |before| == out.Length && out[..] == Written(before, at, Slice(disk, start, n))
      modifies this, out
      ensures var o := ReadOutcome(disk, start + n, left);
        && ret == o.code && o.delivered <= left && pos == start + (n + o.delivered)
        && out[..] == Written(before, at, Slice(disk, start, n + o.delivered))
      decreases left, 1
    {
      hide *;
      ghost var p, d := pos, ReadOutcome(disk, pos, left).delivered;
      ret := Read(out, next, left);
      SliceAppend(disk, start, n, d, p);
      WrittenTwice(before, at, Slice(disk, start, n), Slice(disk, p, d), next);
    }

    /** The copying loop. */
    method CopySector(out: array<Byte>, at: nat, buf: seq<Byte>, offset: nat, n: nat, ghost p: nat)
      requires at + n <= out.Length && offset + n <= SECTOR_SIZE == |buf|
      requires disk(p / SECTOR_SIZE) == Data(buf) && offset == p % SECTOR_SIZE
      modifies out
      ensures out[..] == Written(old(out[..]), at, Slice(disk, p, n))
    {
      var i := 0;
      while i < n
        invariant 0 <= i <= n
        invariant forall k :: 0 <= k < out.Length ==>
          out[k] == if at <= k < at + i then buf[offset + (k - at)] else old(out[k])
      {
        out[at + i] := buf[offset + i];
        i := i + 1;
      }
      forall k | 0 <= k < n ensures ByteAfter(disk, p, k) == buf[offset + k] {
        WithinSector(p, k);
      }
      assert out[..] == Written(old(out[..]), at, Slice(disk, p, n));
    }
  }

  /** A buffer with `data` written from index `at` on. */
  function Written(buf: seq<Byte>, at: nat, data: seq<Byte>): (r: seq<Byte>)
    requires at + |data| <= |buf|
    ensures |r| == |buf|
    ensures forall k :: 0 <= k < |buf| ==> r[k] == if at <= k < at + |data| then data[k - at] else buf[k]
  {
    buf[..at] + data + buf[at + |data|..]
  }

  /** Two adjacent writes are one. */
  lemma WrittenTwice(buf: seq<Byte>, at: nat, a: seq<Byte>, b: seq<Byte>, next: nat)
    requires at + |a| + |b| <= |buf| && next == at + |a|
    ensures Written(Written(buf, at, a), next, b) == Written(buf, at, a + b)
  {
  }
}
