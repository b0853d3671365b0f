/** Reading file data from a FAT16 volume: cluster arithmetic, the recursive read over
    clusters, and the record loop above it. */
module Fat16 {
  import opened Words
  import opened Streamer

  /** The parts of a mounted volume a read uses. `entry` is what looking a cluster up in
      the file allocation table returned; `rootEnd` is the sector after the root directory. */
  datatype Volume = Volume(disk: Disk, entry: nat -> nat, sectorsPerCluster: nat, rootEnd: nat)

  /** The disk delivers whole sectors and the volume's clusters are not empty. */
  ghost predicate IsVolume(v: Volume) {
    IsDisk(v.disk) && 0 < v.sectorsPerCluster < 256
  }

  /** Cluster numbers 0 and 1 do not reach below sector 0 either. */
  predicate RoomBelow(v: Volume) { 2 * v.sectorsPerCluster <= v.rootEnd }

  function ClusterBytes(v: Volume): nat { v.sectorsPerCluster * SECTOR_SIZE }

  function ClusterToSector(v: Volume, cluster: nat): int {
    v.rootEnd + (cluster - 2) * v.sectorsPerCluster
  }

  /** Position on the disk of an offset into a cluster. */
  function StartPos(v: Volume, cluster: nat, offset: nat): int
    requires ClusterBytes(v) > 0
  {
    ClusterToSector(v, cluster) * SECTOR_SIZE + offset % ClusterBytes(v)
  }

  lemma StartPosNatural(v: Volume, cluster: nat, offset: nat)
    requires IsVolume(v) && (cluster >= 2 || RoomBelow(v))
    ensures ClusterBytes(v) > 0 && ClusterToSector(v, cluster) >= 0 && StartPos(v, cluster, offset) >= 0
  {
    assert cluster * v.sectorsPerCluster >= 0;
    assert (cluster - 2) * v.sectorsPerCluster == cluster * v.sectorsPerCluster - 2 * v.sectorsPerCluster;
  }

  predicate IsEndOrBad(entry: nat) {
    entry == 0xFF8 || entry == 0xFFF || entry == 0xFF7 || entry == 0xFF0 || entry == 0xFF6 || entry == 0
  }

  /** Cluster used for an offset: the first one, or its successor in the table however far
      the offset lies beyond. */
  function ClusterForOffset(v: Volume, cluster: nat, offset: nat): (c: int)
    requires ClusterBytes(v) > 0
    ensures c < 0 ==> c == -EIO
  {
    if offset / ClusterBytes(v) == 0 then cluster
    else if IsEndOrBad(v.entry(cluster)) then -EIO
    else v.entry(cluster)
  }

  /** The answer in plain numbers. An offset inside the first cluster is answered with that
      cluster whatever the table holds; any other with the table's entry, unless that is one of
      the six values that end the read. */
  lemma ClusterAnswered(v: Volume, cluster: nat, offset: nat)
    requires v.sectorsPerCluster > 0
    ensures ClusterBytes(v) > 0
    ensures ClusterForOffset(v, cluster, offset) ==
      if offset < v.sectorsPerCluster * 512 then cluster
      else if v.entry(cluster) in {0, 0xFF0, 0xFF6, 0xFF7, 0xFF8, 0xFFF} then -EIO
      else v.entry(cluster)
  {
    var size := v.sectorsPerCluster * 512;
    if offset < size { SmallDivision(offset, size); } else { AtLeastOne(offset, size); }
  }

  lemma AtLeastOne(x: nat, m: nat)
    requires 0 < m <= x
    ensures x / m >= 1
  {
    assert x == x / m * m + x % m;
  }

  // --- the recursion as pieces -----------------------------------------------------------

  /** `len` bytes from disk position `pos` go to the output from index `at` on. */
  datatype Piece = Piece(at: nat, len: nat, pos: nat)

  datatype Plan = Plan(pieces: seq<Piece>, code: int)

  function Chunk(v: Volume, total: nat): nat { if total > ClusterBytes(v) then ClusterBytes(v) else total }

  /** The pieces a read copies before it ends or fails, and its result. */
  function ReadPlan(v: Volume, cluster: nat, offset: nat, total: nat, at: nat): Plan
    requires ClusterBytes(v) > 0
    decreases total
  {
    var c := ClusterForOffset(v, cluster, offset);
    if c < 0 then Plan([], c)
    else if StartPos(v, c, offset) < 0 then Plan([], -EIO)
    else
      var pos := StartPos(v, c, offset);
      var n := Chunk(v, total);
      var code := ReadOutcome(v.disk, pos, n).code;
      if code < 0 then Plan([], code)
      else if total - n == 0 then Plan([Piece(at, n, pos)], code)
      else
        var rest := ReadPlan(v, cluster, offset + n, total - n, at + n);
        Plan([Piece(at, n, pos)] + rest.pieces, rest.code)
  }

  /** Consecutive pieces that start at `at` and end at `end`. */
  predicate Tiles(ps: seq<Piece>, at: nat, end: nat) {
    if ps == [] then at == end
    else ps[0].at == at && at + ps[0].len <= end && Tiles(ps[1..], at + ps[0].len, end)
  }

  /** One round of the recursion. */
  lemma PlanStep(v: Volume, cluster: nat, offset: nat, total: nat, at: nat)
    returns (pos: nat, n: nat, code: int, rest: Plan)
    requires IsVolume(v) && RoomBelow(v)
    ensures ClusterBytes(v) > 0
    ensures ReadPlan(v, cluster, offset, total, at).code < 0 || (
      && n == Chunk(v, total) && n <= total && n <= ClusterBytes(v)
      && (n < total ==> n == ClusterBytes(v) && rest == ReadPlan(v, cluster, offset + n, total - n, at + n))
      && ReadPlan(v, cluster, offset, total, at) ==
           if n == total then Plan([Piece(at, n, pos)], code)
           else Plan([Piece(at, n, pos)] + rest.pieces, rest.code))
  {
    var c := ClusterForOffset(v, cluster, offset);
    pos, n, code, rest := 0, Chunk(v, total), 0, Plan([], 0);
    if c >= 0 {
      StartPosNatural(v, c, offset);
      pos := StartPos(v, c, offset);
      code := ReadOutcome(v.disk, pos, n).code;
      if n < total { rest := ReadPlan(v, cluster, offset + n, total - n, at + n); }
      hide ClusterForOffset, StartPos, ReadOutcome;
    }
  }

  /** One round in plain numbers: refused by the table; failed at the disk; or one piece of at
      most a cluster, followed by the read of the rest from the same first cluster. */
  lemma PlanUnfolds(v: Volume, cluster: nat, offset: nat, total: nat, at: nat, c: nat, pos: int, n: nat)
    requires IsVolume(v) && RoomBelow(v)
    requires c == if offset < v.sectorsPerCluster * 512 then cluster else v.entry(cluster)
    requires pos == (v.rootEnd + (c - 2) * v.sectorsPerCluster) * 512 + offset % (v.sectorsPerCluster * 512)
    requires n == if total < v.sectorsPerCluster * 512 then total else v.sectorsPerCluster * 512
    ensures ClusterBytes(v) > 0 && pos >= 0
    ensures ReadPlan(v, cluster, offset, total, at) ==
      if offset >= v.sectorsPerCluster * 512 && c in {0, 0xFF0, 0xFF6, 0xFF7, 0xFF8, 0xFFF} then Plan([], -EIO)
      else if ReadOutcome(v.disk, pos, n).code < 0 then Plan([], ReadOutcome(v.disk, pos, n).code)
      else if n == total then Plan([Piece(at, n, pos)], ReadOutcome(v.disk, pos, n).code)
      else
        var rest := ReadPlan(v, cluster, offset + n, total - n, at + n);
        Plan([Piece(at, n, pos)] + rest.pieces, rest.code)
  {
    ClusterAnswered(v, cluster, offset);
    StartPosNatural(v, c, offset);
    hide ClusterForOffset, ReadOutcome;
  }

  /** The offset lies beyond the first cluster, and the table names none for it. */
  predicate Refused(v: Volume, cluster: nat, offset: nat) {
    offset >= v.sectorsPerCluster * 512 && v.entry(cluster) in {0, 0xFF0, 0xFF6, 0xFF7, 0xFF8, 0xFFF}
  }

  /** So a table entry that leads nowhere ends a read with the error, whatever is left of it. */
  lemma PlanRefused(v: Volume, cluster: nat, offset: nat, total: nat, at: nat)
    requires IsVolume(v)
    ensures ClusterBytes(v) > 0
    ensures Refused(v, cluster, offset) ==> ReadPlan(v, cluster, offset, total, at) == Plan([], -EIO)
  {
    ClusterAnswered(v, cluster, offset);
    hide ClusterForOffset, StartPos, ReadOutcome;
  }

  /** Consecutive whole clusters with a last piece no longer than one. */
  predicate WholeClusters(ps: seq<Piece>, size: nat) {
    && |ps| > 0 && (forall i :: 0 <= i < |ps| - 1 ==> ps[i].len == size)
    && ps[|ps| - 1].len <= size
  }

  lemma TilesNothing(end: nat)
    ensures Tiles([], end, end)
  {
  }

  lemma TilesCons(p: Piece, ps: seq<Piece>, at: nat, end: nat, next: nat)
    requires p.at == at && next == at + p.len && next <= end && Tiles(ps, next, end)
    ensures Tiles([p] + ps, at, end)
  {
    assert ([p] + ps)[1..] == ps;
  }

  lemma WholeClustersCons(p: Piece, ps: seq<Piece>, size: nat)
    requires p.len <= size && (ps != [] ==> p.len == size && WholeClusters(ps, size))
    ensures WholeClusters([p] + ps, size)
  {
    var qs := [p] + ps;
    forall i | 0 <= i < |qs| - 1 ensures qs[i].len == size {
      if i > 0 { assert qs[i] == ps[i - 1]; }
    }
    if ps != [] { assert qs[|qs| - 1] == ps[|ps| - 1]; }
  }

  /** A successful read's pieces cover the output exactly once, in order, and every piece
      but the last is a whole cluster long. */
  lemma {:induction false} PiecesTile(v: Volume, cluster: nat, offset: nat, total: nat, at: nat, end: nat)
    requires IsVolume(v) && RoomBelow(v) && end == at + total
    ensures ClusterBytes(v) > 0
    ensures var p := ReadPlan(v, cluster, offset, total, at);
      p.code >= 0 ==> Tiles(p.pieces, at, end) && WholeClusters(p.pieces, ClusterBytes(v))
    decreases total
  {
    TilesNothing(end);
    hide *;
    var pos, n, code, rest := PlanStep(v, cluster, offset, total, at);
    if ReadPlan(v, cluster, offset, total, at).code >= 0 {
      var p := Piece(at, n, pos);
      if n == total {
        assert [p] + [] == [p];
        TilesCons(p, [], at, end, at + n);
        WholeClustersCons(p, [], ClusterBytes(v));
      } else {
        PiecesTile(v, cluster, offset + n, total - n, at + n, end);
        TilesCons(p, rest.pieces, at, end, at + n);
        WholeClustersCons(p, rest.pieces, ClusterBytes(v));
      }
    }
  }

  /** In a tiling every output index belongs to exactly one piece. */
  lemma {:induction false} TilesPartition(ps: seq<Piece>, at: nat, end: nat, k: nat) returns (i: nat)
    requires Tiles(ps, at, end) && at <= k < end
    ensures i < |ps| && ps[i].at <= k < ps[i].at + ps[i].len
    ensures forall j :: 0 <= j < |ps| && ps[j].at <= k < ps[j].at + ps[j].len ==> j == i
    decreases |ps|
  {
    if k < at + ps[0].len {
      i := 0;
      TilesFrom(ps[1..], at + ps[0].len, end);
      forall j | 0 < j < |ps| ensures ps[j].at >= at + ps[0].len { assert ps[j] == ps[1..][j - 1]; }
    } else {
      i := TilesPartition(ps[1..], at + ps[0].len, end, k);
      i := i + 1;
      forall j | 0 < j < |ps| ensures ps[j] == ps[1..][j - 1] {}
    }
  }

  lemma {:induction false} TilesFrom(ps: seq<Piece>, at: nat, end: nat)
    requires Tiles(ps, at, end)
    ensures at <= end && forall j :: 0 <= j < |ps| ==> at <= ps[j].at
    decreases |ps|
  {
    if ps != [] {
      TilesFrom(ps[1..], at + ps[0].len, end);
      forall j | 0 < j < |ps| ensures at <= ps[j].at { assert ps[j] == ps[1..][j - 1]; }
    }
  }

  /** A buffer after the pieces are copied into it, first piece first. */
  function Copied(buf: seq<Byte>, disk: Disk, ps: seq<Piece>): (r: seq<Byte>)
    ensures |r| == |buf|
    decreases |ps|
  {
    if ps == [] then buf
    else Copied(if ps[0].at + ps[0].len <= |buf|
                then Written(buf, ps[0].at, Slice(disk, ps[0].pos, ps[0].len)) else buf, disk, ps[1..])
  }

  lemma CopiedOne(buf: seq<Byte>, disk: Disk, p: Piece, rest: seq<Piece>)
    requires p.at + p.len <= |buf|
    ensures Copied(buf, disk, [p] + rest) == Copied(Written(buf, p.at, Slice(disk, p.pos, p.len)), disk, rest)
    ensures Copied(buf, disk, [p]) == Written(buf, p.at, Slice(disk, p.pos, p.len))
  {
    assert ([p] + rest)[1..] == rest && [p][1..] == [];
  }

  /** Bytes before the first of consecutive pieces are not touched by them. */
  lemma {:induction false} CopiedBefore(buf: seq<Byte>, disk: Disk, ps: seq<Piece>, at: nat, end: nat, k: nat)
    requires Tiles(ps, at, end) && k < at && end <= |buf|
    ensures Copied(buf, disk, ps)[k] == buf[k]
    decreases |ps|
  {
    if ps != [] {
      TilesFrom(ps, at, end);
      CopiedBefore(Written(buf, ps[0].at, Slice(disk, ps[0].pos, ps[0].len)), disk, ps[1..],
                   at + ps[0].len, end, k);
    }
  }

  lemma WrittenByte(buf: seq<Byte>, disk: Disk, p: Piece, a: nat)
    requires p.at + p.len <= |buf| && p.at <= a < p.at + p.len
    ensures Written(buf, p.at, Slice(disk, p.pos, p.len))[a] == ByteAfter(disk, p.pos, a - p.at)
  {
  }

  lemma TilesHead(ps: seq<Piece>, at: nat, end: nat)
    returns (p: Piece, rest: seq<Piece>, next: nat)
    requires Tiles(ps, at, end) && ps != []
    ensures ps == [p] + rest && p.at == at && next == at + p.len && next <= end && Tiles(rest, next, end)
  {
    p, rest, next := ps[0], ps[1..], at + ps[0].len;
  }

  /** Every byte of every piece of a tiling ends up in its place. */
  lemma {:induction false} CopiedPieces(buf: seq<Byte>, disk: Disk, ps: seq<Piece>, at: nat, end: nat, i: nat, a: nat)
    requires Tiles(ps, at, end) && end <= |buf| && i < |ps| && ps[i].at <= a < ps[i].at + ps[i].len
    ensures a < |buf| && Copied(buf, disk, ps)[a] == ByteAfter(disk, ps[i].pos, a - ps[i].at)
    decreases |ps|
  {
    hide *;
    var p, rest, next := TilesHead(ps, at, end);
    CopiedOne(buf, disk, p, rest);
    var b := Written(buf, p.at, Slice(disk, p.pos, p.len));
    if i == 0 {
      CopiedBefore(b, disk, rest, next, end, a);
      WrittenByte(buf, disk, p, a);
    } else {
      assert ps[i] == rest[i - 1];
      CopiedPieces(b, disk, rest, next, end, i - 1, a);
    }
  }

  // --- inside the first cluster ------------------------------------------------------------

  /** Flat disk position of a data cluster. */
  function ClusterPos(v: Volume, cluster: nat): nat
    requires cluster >= 2
  {
    (v.rootEnd + (cluster - 2) * v.sectorsPerCluster) * SECTOR_SIZE
  }

  /** A read that stays inside the first cluster is one piece, at the flat position of that
      cluster. */
  lemma FirstClusterIsFlat(v: Volume, cluster: nat, offset: nat, total: nat, at: nat)
    requires IsVolume(v) && cluster >= 2
    requires offset < ClusterBytes(v) && offset + total <= ClusterBytes(v)
    ensures var p := ReadPlan(v, cluster, offset, total, at);
      var pos := ClusterPos(v, cluster) + offset;
      && p.code == ReadOutcome(v.disk, pos, total).code
      && (p.code >= 0 ==> p.pieces == [Piece(at, total, pos)])
  {
    StartPosNatural(v, cluster, offset);
    assert offset / ClusterBytes(v) == 0 && offset % ClusterBytes(v) == offset by {
      SmallDivision(offset, ClusterBytes(v));
    }
    hide ReadOutcome;
  }

  lemma SmallDivision(x: nat, m: nat)
    requires x < m
    ensures x / m == 0 && x % m == x
  {
    ModUnique(x, m, 0, x);
  }

  // --- where the code departs from the format ----------------------------------------------

  /** Cluster k of a file in chain order, by the table. */
  function ChainAt(v: Volume, cluster: nat, k: nat): nat {
    if k == 0 then cluster else v.entry(ChainAt(v, cluster, k - 1))
  }

  /** Chain following takes one step only: the cluster used for an offset is the one the chain
      has there exactly for the first two clusters, or where the chain comes back to its
      second one. */
  lemma ChainFollowed(v: Volume, cluster: nat, offset: nat, k: nat)
    requires ClusterBytes(v) > 0 && k == offset / ClusterBytes(v)
    requires ClusterForOffset(v, cluster, offset) >= 0
    ensures ClusterForOffset(v, cluster, offset) == ChainAt(v, cluster, k)
       <==> k <= 1 || ChainAt(v, cluster, k) == ChainAt(v, cluster, 1)
  {
    assert ChainAt(v, cluster, 0) == cluster && ChainAt(v, cluster, 1) == v.entry(cluster);
  }

  /** Distance of a piece's first byte from the start of the cluster it lies in. */
  function InCluster(v: Volume, p: Piece): nat
    requires ClusterBytes(v) > 0
  {
    (p.pos - v.rootEnd * SECTOR_SIZE) % ClusterBytes(v)
  }

  predicate Inside(v: Volume, p: Piece)
    requires ClusterBytes(v) > 0
  {
    InCluster(v, p) + p.len <= ClusterBytes(v)
  }

  lemma PieceOffset(v: Volume, c: nat, offset: nat, p: Piece)
    requires ClusterBytes(v) > 0 && StartPos(v, c, offset) >= 0 && p.pos == StartPos(v, c, offset)
    ensures InCluster(v, p) == offset % ClusterBytes(v)
  {
    var b, o := ClusterBytes(v), offset % ClusterBytes(v);
    ClusterStart(v, c);
    hide ClusterBytes, ClusterToSector;
    ModUniqueInt(p.pos - v.rootEnd * SECTOR_SIZE, b, c - 2, o);
  }

  lemma ClusterStart(v: Volume, c: nat)
    ensures ClusterToSector(v, c) * SECTOR_SIZE == v.rootEnd * SECTOR_SIZE + (c - 2) * ClusterBytes(v)
  {
    var s := v.sectorsPerCluster;
    assert (c - 2) * (s * 512) == ((c - 2) * s) * 512;
  }

  lemma ModUniqueInt(x: int, m: nat, q: int, r: nat)
    requires 0 <= r < m && x == q * m + r
    ensures x % m == r
  {
    var d := x / m - q;
    assert d * m == r - x % m;
    MulAtLeast(d, m);
  }

  predicate AllInside(v: Volume, ps: seq<Piece>)
    requires ClusterBytes(v) > 0
  {
    forall i :: 0 <= i < |ps| ==> Inside(v, ps[i])
  }

  predicate Aligned(offset: nat, total: nat, size: nat)
    requires size > 0
  {
    offset % size == 0 || offset % size + total <= size
  }

  /** A piece is not clipped at the end of its cluster: in any read that copies something,
      every piece stays inside its cluster exactly when the read starts at a cluster's first
      byte or ends before the cluster does. */
  lemma {:induction false} PiecesInside(v: Volume, cluster: nat, offset: nat, total: nat, at: nat)
    requires IsVolume(v) && RoomBelow(v)
    ensures ClusterBytes(v) > 0
    ensures var ps := ReadPlan(v, cluster, offset, total, at).pieces;
      && (ReadPlan(v, cluster, offset, total, at).code >= 0 ==> ps != [])
      && (ps != [] ==> (AllInside(v, ps) <==> Aligned(offset, total, ClusterBytes(v))))
    decreases total
  {
    hide *;
    StartPosNatural(v, cluster, offset);
    var b := ClusterBytes(v);
    var c, pos, n, code, rest := PlanPieces(v, cluster, offset, total, at, b);
    if ReadPlan(v, cluster, offset, total, at).pieces != [] {
      var p := Piece(at, n, pos);
      PieceOffset(v, c, offset, p);
      if n < total { PiecesInside(v, cluster, offset + n, total - n, at + n); }
      FirstInside(v, p, rest.pieces, offset, total, b, n);
    }
  }

  /** The first piece and the rest together. */
  lemma FirstInside(v: Volume, p: Piece, rest: seq<Piece>, offset: nat, total: nat, b: nat, n: nat)
    requires b == ClusterBytes(v) > 0 && InCluster(v, p) == offset % b && p.len == n
    requires n == (if total > b then b else total) && (n == total ==> rest == [])
    requires n < total && rest != [] ==> (AllInside(v, rest) <==> Aligned(offset + n, total - n, b))
    ensures AllInside(v, [p] + rest) <==> Aligned(offset, total, b)
  {
    hide *;
    InsideOne(v, p, rest);
    InsideIs(v, p);
    if rest == [] { NothingInside(v); }
    if n == total { AlignedLast(offset, total, b); } else { AlignedFirst(offset, total, b); }
  }

  /** The first piece of a read that copies something. */
  lemma PlanPieces(v: Volume, cluster: nat, offset: nat, total: nat, at: nat, b: nat)
    returns (c: nat, pos: nat, n: nat, code: int, rest: Plan)
    requires IsVolume(v) && RoomBelow(v) && b == ClusterBytes(v)
    ensures b > 0
    ensures ReadPlan(v, cluster, offset, total, at).code >= 0 ==> ReadPlan(v, cluster, offset, total, at).pieces != []
    ensures ReadPlan(v, cluster, offset, total, at).pieces != [] ==>
      && n == (if total > b then b else total)
      && StartPos(v, c, offset) >= 0 && pos == StartPos(v, c, offset)
      && rest == (if n < total then ReadPlan(v, cluster, offset + n, total - n, at + n) else Plan([], code))
      && ReadPlan(v, cluster, offset, total, at).pieces == [Piece(at, n, pos)] + rest.pieces
  {
    var cc := ClusterForOffset(v, cluster, offset);
    c, pos, n, code, rest := 0, 0, Chunk(v, total), 0, Plan([], 0);
    if cc >= 0 {
      c := cc;
      StartPosNatural(v, c, offset);
      pos := StartPos(v, c, offset);
      code := ReadOutcome(v.disk, pos, n).code;
      rest := if n < total then ReadPlan(v, cluster, offset + n, total - n, at + n) else Plan([], code);
      hide ClusterForOffset, StartPos, ReadOutcome;
      assert [Piece(at, n, pos)] + [] == [Piece(at, n, pos)];
    }
  }

  lemma InsideOne(v: Volume, p: Piece, rest: seq<Piece>)
    requires ClusterBytes(v) > 0
    ensures AllInside(v, [p] + rest) <==> Inside(v, p) && AllInside(v, rest)
  {
    hide Inside;
    var ps := [p] + rest;
    assert ps[0] == p && forall i :: 0 <= i < |rest| ==> ps[i + 1] == rest[i];
    assert forall i :: 0 < i < |ps| ==> ps[i] == rest[i - 1];
  }

  lemma InsideIs(v: Volume, p: Piece)
    requires ClusterBytes(v) > 0
    ensures Inside(v, p) <==> InCluster(v, p) + p.len <= ClusterBytes(v)
  {
  }

  lemma NothingInside(v: Volume)
    requires ClusterBytes(v) > 0
    ensures AllInside(v, [])
  {
  }

  lemma AlignedLast(offset: nat, total: nat, b: nat)
    requires 0 < b && total <= b
    ensures Aligned(offset, total, b) <==> offset % b + total <= b
  {
  }

  lemma AlignedFirst(offset: nat, total: nat, b: nat)
    requires 0 < b < total
    ensures Aligned(offset, total, b) <==> offset % b + b <= b
    ensures Aligned(offset, total, b) ==> Aligned(offset + b, total - b, b)
  {
    ModUnique(offset + b, b, offset / b + 1, offset % b);
  }

  /** The witness: two bytes read from the last byte of the first cluster take the second from
      the neighbouring cluster, whatever the table says comes next. */
  lemma PieceCrossesCluster(v: Volume, cluster: nat, at: nat)
    requires IsVolume(v) && cluster >= 2
    ensures var offset := ClusterBytes(v) - 1;
      var p := ReadPlan(v, cluster, offset, 2, at);
      && StartPos(v, cluster, offset) >= 0
      && StartPos(v, cluster, offset) + 1 == StartPos(v, cluster + 1, 0)
      && (p.code >= 0 ==> p.pieces == [Piece(at, 2, StartPos(v, cluster, offset))])
  {
    var b := ClusterBytes(v);
    assert b >= 512;
    StartPosNatural(v, cluster, b - 1);
    StartPosNatural(v, cluster + 1, 0);
    SmallDivision(b - 1, b);
    SmallDivision(0, b);
    assert (cluster + 1 - 2) * v.sectorsPerCluster == (cluster - 2) * v.sectorsPerCluster + v.sectorsPerCluster;
    hide ReadOutcome;
  }

  /** What a table entry that leads nowhere looks like on a FAT16 volume: free, reserved, bad,
      or the end of a file. */
  predicate FormatStops(entry: nat) { entry == 0 || 0xFFF0 <= entry <= 0xFFFF }

  /** The markers compared with are 12-bit ones. A 16-bit entry is judged as the format has it
      exactly when it is below 0xFFF0 and is none of the five 12-bit values that are ordinary
      cluster numbers here. */
  lemma MarkersJudged(entry: nat)
    requires entry < 0x1_0000
    ensures (IsEndOrBad(entry) <==> FormatStops(entry)) <==>
      entry < 0xFFF0 && entry != 0xFF0 && entry != 0xFF6 && entry != 0xFF7 && entry != 0xFF8 && entry != 0xFFF
  {
  }

  /** So every end of a file is taken for the number of a cluster and read from. */
  lemma EndIsFollowed(v: Volume, cluster: nat, offset: nat)
    requires ClusterBytes(v) > 0 && offset / ClusterBytes(v) > 0 && 0xFFF8 <= v.entry(cluster) <= 0xFFFF
    ensures ClusterForOffset(v, cluster, offset) == v.entry(cluster)
  {
  }

  /** The first cluster: its two halves or-ed together without a shift. */
  function FirstCluster(high: nat, low: nat): nat { Or(high, low) }

  /** The halves give the 32-bit number they stand for exactly when the upper one is zero. */
  lemma FirstClusterExact(high: nat, low: nat)
    requires high < 0x1_0000 && low < 0x1_0000
    ensures FirstCluster(high, low) == high * 0x1_0000 + low <==> high == 0
  {
    Pow2Values();
    OrLow(0, high, low, 16);
    OrZeroLeft(low);
  }

  /** Position looked up in the table for a cluster, in 32-bit arithmetic. */
  function EntryPosition(reserved: nat, cluster: nat): Word {
    (reserved * SECTOR_SIZE % WORD) * (cluster * 2 % WORD) % WORD
  }

  /** Position of a cluster's entry in the first table of a volume. */
  function FormatPosition(reserved: nat, cluster: nat): nat { reserved * SECTOR_SIZE + cluster * 2 }

  /** The code multiplies where the format adds, in arithmetic that wraps at 2^32: the two
      agree exactly where this sum of powers of the cluster number happens to be divisible. */
  lemma EntryPositionExact(reserved: nat, cluster: nat)
    requires reserved < 0x1_0000 && cluster < 0x1_0000
    ensures EntryPosition(reserved, cluster) == FormatPosition(reserved, cluster)
       <==> cluster % 256 == 0 && (reserved + Balance(cluster / 256)) % 0x80_0000 == 0
  {
    var x, d := reserved * cluster, cluster / 256;
    EntryPositionIs(reserved, cluster, x);
    hide *;
    AgreementBalances(reserved, cluster, x, d);
    if cluster % 256 == 0 && (reserved + Balance(d)) % 0x80_0000 == 0 {
      assert cluster == 256 * d;
      BalanceAgrees(reserved, cluster, x, d);
    }
  }

  lemma AgreementBalances(reserved: nat, cluster: nat, x: nat, d: nat)
    requires reserved < 0x1_0000 && cluster < 0x1_0000 && x == reserved * cluster && d == cluster / 256
    ensures 1024 * x % 0x1_0000_0000 == 512 * reserved + 2 * cluster ==>
      cluster % 256 == 0 && (reserved + Balance(d)) % 0x80_0000 == 0
  {
    if 1024 * x % 0x1_0000_0000 == 512 * reserved + 2 * cluster {
      hide *;
      var c, q := ClusterIsMultiple(reserved, cluster, x);
      assert c == d && cluster % 256 == 0;
      var k := ReservedIs(reserved, d, q);
      DivisibleIs(reserved + Balance(d), k);
    }
  }

  lemma DivisibleIs(x: nat, k: int)
    requires x == 0x80_0000 * k
    ensures x % 0x80_0000 == 0
  {
  }

  lemma BalanceAgrees(reserved: nat, cluster: nat, x: nat, d: nat)
    requires reserved < 0x1_0000 && cluster < 0x1_0000 && x == reserved * cluster && cluster == 256 * d
    requires (reserved + Balance(d)) % 0x80_0000 == 0
    ensures 1024 * x % 0x1_0000_0000 == 512 * reserved + 2 * cluster
  {
    hide *;
    var k := (reserved + Balance(d)) / 0x80_0000;
    var q := ProductIs(reserved, d, k);
    MultipleProduct(reserved, d, x);
    SmallRemainder(1024 * x, q, 512 * reserved + 2 * cluster);
  }

  lemma MultipleProduct(reserved: nat, d: nat, x: nat)
    requires x == reserved * (256 * d)
    ensures x == 256 * (reserved * d)
  {
  }

  lemma SmallRemainder(x: nat, q: int, r: nat)
    requires x == q * 0x1_0000_0000 + r && r < 0x1_0000_0000
    ensures x % 0x1_0000_0000 == r
  {
  }

  /** So on a volume with reserved sectors no cluster below 256 is looked up where its entry
      is. */
  lemma FirstEntriesMissed(reserved: nat, cluster: nat)
    requires 0 < reserved < 0x1_0000 && cluster < 256
    ensures EntryPosition(reserved, cluster) != FormatPosition(reserved, cluster)
  {
    EntryPositionExact(reserved, cluster);
  }

  lemma EntryPositionIs(reserved: nat, cluster: nat, x: nat)
    requires reserved < 0x1_0000 && cluster < 0x1_0000 && x == reserved * cluster
    ensures EntryPosition(reserved, cluster) == 1024 * x % 0x1_0000_0000
    ensures FormatPosition(reserved, cluster) == 512 * reserved + 2 * cluster
  {
    SmallFactors(reserved, cluster);
    Factored(reserved, cluster);
    hide *;
  }

  lemma SmallFactors(reserved: nat, cluster: nat)
    requires reserved < 0x1_0000 && cluster < 0x1_0000
    ensures reserved * SECTOR_SIZE % WORD == 512 * reserved && cluster * 2 % WORD == 2 * cluster
  {
  }

  lemma Factored(reserved: nat, cluster: nat)
    ensures (512 * reserved) * (2 * cluster) == 1024 * (reserved * cluster)
  {
  }

  /** Agreement makes the cluster a multiple of 256. */
  lemma ClusterIsMultiple(reserved: nat, cluster: nat, x: nat) returns (d: nat, q: int)
    requires reserved < 0x1_0000 && cluster < 0x1_0000 && x == reserved * cluster
    requires 1024 * x % 0x1_0000_0000 == 512 * reserved + 2 * cluster
    ensures cluster == 256 * d && d < 256
    ensures 512 * (reserved * d) == q * 0x80_0000 + reserved + d
    ensures d == 0 ==> reserved == 0
  {
    q := 1024 * x / 0x1_0000_0000;
    assert 1024 * x == q * 0x1_0000_0000 + (512 * reserved + 2 * cluster);
    var e := 2 * x - q * 0x80_0000 - reserved;
    assert cluster == 256 * e;
    d := e;
    assert reserved * cluster == 256 * (reserved * d);
  }

  /** Agreement determines the reserved sectors from the cluster, modulo 2^23. */
  lemma ReservedIs(reserved: nat, d: nat, q: int) returns (k: int)
    requires 512 * (reserved * d) == q * 0x80_0000 + reserved + d
    ensures reserved + Balance(d) == 0x80_0000 * k
  {
    var u := 512 * d;
    var a := 1 + u + u * u;
    k := 16 * (reserved * (d * d * d)) - a * q;
    assert reserved * (u - 1) == d + q * 0x80_0000 by {
      assert reserved * u == 512 * (reserved * d);
    }
    assert (reserved * (u - 1)) * a == reserved * (u * u * u) - reserved by { Cube(reserved, u); }
    assert (d + q * 0x80_0000) * a == d * a + 0x80_0000 * (a * q);
    assert d * a == Balance(d);
    assert reserved * (u * u * u) == 0x800_0000 * (reserved * (d * d * d));
  }

  lemma Cube(r: int, u: int)
    ensures (r * (u - 1)) * (1 + u + u * u) == r * (u * u * u) - r
  {
    assert (u - 1) * (1 + u + u * u) == u * u * u - 1;
  }

  function Balance(d: nat): nat { d + 512 * d * d + 0x4_0000 * d * d * d }

  /** And the sum determines the product. */
  lemma ProductIs(reserved: nat, d: nat, k: int) returns (q: int)
    requires reserved + Balance(d) == 0x80_0000 * k
    ensures 512 * (reserved * d) == q * 0x80_0000 + reserved + d
  {
    var u := 512 * d;
    var a := 1 + u + u * u;
    q := k * (u - 1) - 16 * (d * (d * d * d));
    assert Balance(d) == d * a;
    assert reserved * (u - 1) == (0x80_0000 * k) * (u - 1) - (d * a) * (u - 1);
    assert (d * a) * (u - 1) == d * (u * u * u) - d by {
      Cube(d, u);
      assert (d * a) * (u - 1) == (d * (u - 1)) * a;
    }
    assert d * (u * u * u) == 0x800_0000 * (d * (d * d * d));
    assert (0x80_0000 * k) * (u - 1) == 0x80_0000 * (k * (u - 1));
    assert reserved * (u - 1) == 512 * (reserved * d) - reserved;
  }

  // --- in place -----------------------------------------------------------------------------

  method GetClusterForOffset(v: Volume, cluster: nat, offset: nat) returns (c: int)
    requires v.sectorsPerCluster > 0
    ensures ClusterBytes(v) > 0 && c == ClusterForOffset(v, cluster, offset)
    ensures c < 0 ==> c == -EIO
    ensures c < 0 <==> Refused(v, cluster, offset)
  {
    ClusterAnswered(v, cluster, offset);
    var ahead := offset / ClusterBytes(v);
    c := cluster;
    for i := 0 to ahead
      invariant i == 0 && c == cluster
    {
      var entry := v.entry(c);
      if entry == 0xFF8 || entry == 0xFFF { return -EIO; }
      if entry == 0xFF7 { return -EIO; }
      if entry == 0xFF0 || entry == 0xFF6 { return -EIO; }
      if entry == 0x00 { return -EIO; }
      c := entry;
      break;
    }
  }

  predicate SameOutside(a: seq<Byte>, b: seq<Byte>, at: nat, end: nat) {
    |a| == |b| && forall k :: 0 <= k < |a| && !(at <= k < end) ==> b[k] == a[k]
  }

  /** The part of the read before the recursive call: one piece, or an error. */
  method ReadPiece(stream: DiskStream, v: Volume, cluster: nat, offset: nat, total: nat,
                   out: array<Byte>, at: nat)
    returns (ret: int, n: nat, ghost pos: nat)
    requires IsVolume(v) && RoomBelow(v) && stream.disk == v.disk && at + total <= out.Length
    modifies stream, out
    ensures ClusterBytes(v) > 0 && ret <= 0 && n <= total && (total > 0 && ret == 0 ==> n > 0)
    ensures SameOutside(old(out[..]), out[..], at, at + total)
    ensures var p := ReadPlan(v, cluster, offset, total, at);
      if ret < 0 then p.code == ret
      else
        && out[..] == Written(old(out[..]), at, Slice(v.disk, pos, n))
        && (if total - n == 0 then p == Plan([Piece(at, n, pos)], 0)
            else
              var rest := ReadPlan(v, cluster, offset + n, total - n, at + n);
              p == Plan([Piece(at, n, pos)] + rest.pieces, rest.code))
  {
    hide *;
    n, pos := 0, 0;
    ghost var before := out[..];
    var start;
    ret, start, n := Locate(v, cluster, offset, total, at);
    LocatedPlan(v, cluster, offset, total, at, ret, start, n);
    SameAsItself(before, at, at + total);
    if ret < 0 { return; }
    pos := start;
    ghost var bad := ReadOutcomeExact(v.disk, start, n);
    ret := stream.Seek(start);
    ret := stream.Read(out, at, n);
    ExactCode(v.disk, start, n, ReadOutcome(v.disk, start, n), bad);
    WrittenInside(before, at, Slice(v.disk, start, ReadOutcome(v.disk, start, n).delivered), at + total);
  }

  /** The read goes on with n bytes at disk position `start`, or fails before any. */
  ghost predicate Located(v: Volume, cluster: nat, offset: nat, total: nat, at: nat, ret: int, start: nat, n: nat,
                          next: nat)
    requires ClusterBytes(v) > 0 && n <= total
  {
    var p := ReadPlan(v, cluster, offset, total, at);
    var rest := ReadPlan(v, cluster, offset + n, total - n, next);
    var code := ReadOutcome(v.disk, start, n).code;
    if ret < 0 then p.code == ret
    else p == if code < 0 then Plan([], code)
              else if total - n == 0 then Plan([Piece(at, n, start)], code)
              else Plan([Piece(at, n, start)] + rest.pieces, rest.code)
  }

  lemma LocatedPlan(v: Volume, cluster: nat, offset: nat, total: nat, at: nat, ret: int, start: nat, n: nat)
    requires ClusterBytes(v) > 0 && n <= total && Located(v, cluster, offset, total, at, ret, start, n, at + n)
    ensures var p := ReadPlan(v, cluster, offset, total, at);
      var rest := ReadPlan(v, cluster, offset + n, total - n, at + n);
      if ret < 0 then p.code == ret
      else
        var code := ReadOutcome(v.disk, start, n).code;
        p == if code < 0 then Plan([], code)
             else if total - n == 0 then Plan([Piece(at, n, start)], code)
             else Plan([Piece(at, n, start)] + rest.pieces, rest.code)
  {
    hide ReadPlan, ReadOutcome, ClusterBytes;
  }

  /** Where the next piece lies on the disk and how long it is. */
  method Locate(v: Volume, cluster: nat, offset: nat, total: nat, ghost at: nat)
    returns (ret: int, start: nat, n: nat)
    requires IsVolume(v) && RoomBelow(v)
    ensures IsDisk(v.disk) && ClusterBytes(v) > 0 && ret <= 0 && n <= total && (total > 0 && ret == 0 ==> n > 0)
    ensures Located(v, cluster, offset, total, at, ret, start, n, at + n)
  {
    var size := ClusterBytes(v);
    StartPosNatural(v, cluster, offset);
    assert IsDisk(v.disk);
    hide *;
    var c := GetClusterForOffset(v, cluster, offset);
    PlanFails(v, cluster, offset, total, at);
    if c < 0 { return c, 0, 0; }
    StartPosNatural(v, c, offset);
    ret, start := 0, StartPos(v, c, offset);
    n := if total > size then size else total;
    PlanAt(v, cluster, offset, total, at, c, start, n, at + n);
  }

  /** fat16_read_internal_from_stream: terminates for every total because a cluster is not
      empty, and on success copies exactly the planned pieces. */
  method ReadInternal(stream: DiskStream, v: Volume, cluster: nat, offset: nat, total: nat,
                      out: array<Byte>, at: nat)
    returns (ret: int)
    requires IsVolume(v) && RoomBelow(v) && stream.disk == v.disk && at + total <= out.Length
    modifies stream, out
    ensures ClusterBytes(v) > 0 && ret == ReadPlan(v, cluster, offset, total, at).code && ret <= 0
    ensures ret == 0 ==> out[..] == Copied(old(out[..]), v.disk, ReadPlan(v, cluster, offset, total, at).pieces)
    ensures SameOutside(old(out[..]), out[..], at, at + total)
    ensures Refused(v, cluster, offset) ==> ret == -EIO
    decreases total
  {
    hide *;
    PlanRefused(v, cluster, offset, total, at);
    ghost var before := out[..];
    var n;
    ghost var pos;
    ret, n, pos := ReadPiece(stream, v, cluster, offset, total, out, at);
    if ret < 0 { return; }
    ghost var rest := ReadPlan(v, cluster, offset + n, total - n, at + n);
    CopiedOne(before, v.disk, Piece(at, n, pos), rest.pieces);
    if total - n > 0 {
      ghost var mid := out[..];
      ret := ReadInternal(stream, v, cluster, offset + n, total - n, out, at + n);
      SameOutsideTwice(before, mid, out[..], at, at + n, at + n + (total - n), at + total);
    }
  }

  lemma PlanFails(v: Volume, cluster: nat, offset: nat, total: nat, at: nat)
    requires ClusterBytes(v) > 0
    ensures ClusterForOffset(v, cluster, offset) < 0 ==>
      Located(v, cluster, offset, total, at, ClusterForOffset(v, cluster, offset), 0, 0, at)
  {
  }

  lemma PlanAt(v: Volume, cluster: nat, offset: nat, total: nat, at: nat, c: nat, pos: nat, n: nat, next: nat)
    requires IsVolume(v) && ClusterBytes(v) > 0 && c == ClusterForOffset(v, cluster, offset)
    requires pos == StartPos(v, c, offset) && next == at + n
    requires n == if total > ClusterBytes(v) then ClusterBytes(v) else total
    ensures n <= total && (total > 0 ==> n > 0)
    ensures Located(v, cluster, offset, total, at, 0, pos, n, next)
  {
    hide ClusterForOffset, StartPos, ReadOutcome, ClusterBytes;
  }

  lemma ExactCode(disk: Disk, pos: nat, n: nat, o: Outcome, bad: nat)
    requires Exact(disk, pos, n, o, bad)
    ensures o.code <= 0 && (o.code == 0 ==> o.delivered == n)
  {
    hide LastSector, Readable;
  }

  lemma SameAsItself(a: seq<Byte>, at: nat, end: nat)
    ensures SameOutside(a, a, at, end)
  {
  }

  lemma WrittenInside(buf: seq<Byte>, at: nat, data: seq<Byte>, end: nat)
    requires at + |data| <= end <= |buf|
    ensures SameOutside(buf, Written(buf, at, data), at, end)
  {
  }

  lemma SameOutsideTwice(a: seq<Byte>, b: seq<Byte>, c: seq<Byte>, at: nat, next: nat, end: nat, last: nat)
    requires SameOutside(a, b, at, last) && SameOutside(b, c, next, end) && at <= next && end == last
    ensures SameOutside(a, c, at, last)
  {
  }

  /** What one record of a successful fat16_read leaves in the buffer. */
  function AfterRecords(buf: seq<Byte>, v: Volume, cluster: nat, pos: nat, size: nat, n: nat): (r: seq<Byte>)
    requires ClusterBytes(v) > 0
    ensures |r| == |buf|
  {
    if n == 0 then buf
    else Copied(AfterRecords(buf, v, cluster, pos, size, n - 1), v.disk,
                ReadPlan(v, cluster, pos + (n - 1) * size, size, (n - 1) * size).pieces)
  }

  /** Every one of the n records is read without an error. */
  ghost predicate RecordsRead(v: Volume, cluster: nat, pos: nat, size: nat, n: nat)
    requires ClusterBytes(v) > 0
  {
    forall i: nat :: i < n ==> RecordRead(v, cluster, pos, size, i * size)
  }

  predicate RecordRead(v: Volume, cluster: nat, pos: nat, size: nat, done: nat)
    requires ClusterBytes(v) > 0
  {
    ReadPlan(v, cluster, pos + done, size, done).code >= 0
  }

  /** The first record that cannot be read fails with this error. */
  ghost predicate RecordFails(v: Volume, cluster: nat, pos: nat, size: nat, n: nat, code: int)
    requires ClusterBytes(v) > 0
  {
    exists i: nat :: i < n && RecordsRead(v, cluster, pos, size, i) &&
      ReadPlan(v, cluster, pos + i * size, size, i * size).code == code
  }

  /** fat16_read: n records of `size` bytes from the descriptor's position. */
  method Read(stream: DiskStream, v: Volume, high: nat, low: nat, pos: nat, size: nat, n: nat, out: array<Byte>)
    returns (ret: int)
    requires IsVolume(v) && RoomBelow(v) && stream.disk == v.disk && size * n <= out.Length
    modifies stream, out
    ensures ClusterBytes(v) > 0
    ensures ret >= 0 ==> ret == n && out[..] == AfterRecords(old(out[..]), v, FirstCluster(high, low), pos, size, n)
    ensures ret >= 0 <==> RecordsRead(v, FirstCluster(high, low), pos, size, n)
    ensures ret < 0 ==> RecordFails(v, FirstCluster(high, low), pos, size, n, ret)
  {
    var cluster := FirstCluster(high, low);
    var offset, at, i := pos, 0, 0;
    hide ReadPlan, Or, Copied;
    while i < n
      invariant 0 <= i <= n && offset == pos + i * size && at == i * size
      invariant out[..] == AfterRecords(old(out[..]), v, cluster, pos, size, i)
      invariant RecordsRead(v, cluster, pos, size, i)
    {
      RecordFits(i, n, size);
      ret := ReadInternal(stream, v, cluster, offset, size, out, at);
      assert RecordRead(v, cluster, pos, size, i * size) <==> ret >= 0;
      if ret < 0 { return; }
      at := at + size;
      offset := offset + size;
      i := i + 1;
    }
    ret := n;
  }

  lemma RecordFits(i: nat, n: nat, size: nat)
    requires i < n
    ensures i * size + size <= size * n && (i + 1) * size == i * size + size
  {
    assert size * n == size * (i + 1) + size * (n - i - 1);
  }

  /** Records that stay inside the first cluster are the flat bytes of the disk from the
      descriptor's position in that cluster on. */
  lemma {:induction false} RecordsAreFlat(buf: seq<Byte>, v: Volume, cluster: nat, pos: nat, size: nat, n: nat)
    requires IsVolume(v) && cluster >= 2 && size * n <= |buf|
    requires pos < ClusterBytes(v) && pos + size * n <= ClusterBytes(v)
    requires RecordsRead(v, cluster, pos, size, n)
    ensures AfterRecords(buf, v, cluster, pos, size, n)
         == Written(buf, 0, Slice(v.disk, ClusterPos(v, cluster) + pos, size * n))
  {
    var start := ClusterPos(v, cluster) + pos;
    if n == 0 {
      NoRecords(buf, v, cluster, pos, size, Slice(v.disk, start, size * n));
    } else {
      var done := (n - 1) * size;
      RecordArithmetic(pos, size, n, ClusterBytes(v));
      assert RecordRead(v, cluster, pos, size, done);
      hide *;
      FewerRecords(v, cluster, pos, size, n);
      RecordsAreFlat(buf, v, cluster, pos, size, n - 1);
      NextRecord(buf, v, cluster, pos, size, n, done, size * n, start);
    }
  }

  lemma FewerRecords(v: Volume, cluster: nat, pos: nat, size: nat, n: nat)
    requires ClusterBytes(v) > 0 && n > 0 && RecordsRead(v, cluster, pos, size, n)
    ensures RecordsRead(v, cluster, pos, size, n - 1)
  {
    hide RecordRead;
  }

  lemma NextRecord(buf: seq<Byte>, v: Volume, cluster: nat, pos: nat, size: nat, n: nat, done: nat, all: nat,
                   start: nat)
    requires IsVolume(v) && ClusterBytes(v) > 0 && cluster >= 2 && n > 0
    requires done == (n - 1) * size && all == done + size <= |buf| && start == ClusterPos(v, cluster) + pos
    requires pos + done < ClusterBytes(v) && pos + done + size <= ClusterBytes(v)
    requires RecordRead(v, cluster, pos, size, done)
    requires AfterRecords(buf, v, cluster, pos, size, n - 1) == Written(buf, 0, Slice(v.disk, start, done))
    ensures AfterRecords(buf, v, cluster, pos, size, n) == Written(buf, 0, Slice(v.disk, start, all))
  {
    hide *;
    RecordIsPiece(v, cluster, pos, size, done, start + done);
    LastRecord(buf, v, cluster, pos, size, n, done);
    RecordAppended(AfterRecords(buf, v, cluster, pos, size, n - 1), buf, v.disk, start, done, size, all,
                   ReadPlan(v, cluster, pos + done, size, done).pieces, start + done);
  }

  lemma NoRecords(buf: seq<Byte>, v: Volume, cluster: nat, pos: nat, size: nat, flat: seq<Byte>)
    requires ClusterBytes(v) > 0 && flat == []
    ensures AfterRecords(buf, v, cluster, pos, size, 0) == Written(buf, 0, flat)
  {
  }

  lemma LastRecord(buf: seq<Byte>, v: Volume, cluster: nat, pos: nat, size: nat, n: nat, done: nat)
    requires ClusterBytes(v) > 0 && n > 0 && done == (n - 1) * size
    ensures AfterRecords(buf, v, cluster, pos, size, n) ==
      Copied(AfterRecords(buf, v, cluster, pos, size, n - 1), v.disk,
             ReadPlan(v, cluster, pos + done, size, done).pieces)
  {
    hide ReadPlan, Copied, ClusterBytes;
  }

  lemma RecordIsPiece(v: Volume, cluster: nat, pos: nat, size: nat, done: nat, at: nat)
    requires IsVolume(v) && ClusterBytes(v) > 0 && cluster >= 2 && at == ClusterPos(v, cluster) + pos + done
    requires pos + done < ClusterBytes(v) && pos + done + size <= ClusterBytes(v)
    requires RecordRead(v, cluster, pos, size, done)
    ensures ReadPlan(v, cluster, pos + done, size, done).pieces == [Piece(done, size, at)]
  {
    FirstClusterIsFlat(v, cluster, pos + done, size, done);
    hide ReadPlan, ReadOutcome, ClusterPos, ClusterBytes;
  }

  lemma RecordArithmetic(pos: nat, size: nat, n: nat, bytes: nat)
    requires n > 0 && pos < bytes && pos + size * n <= bytes
    ensures size * (n - 1) == (n - 1) * size && size * n == (n - 1) * size + size
    ensures pos + (n - 1) * size < bytes && pos + (n - 1) * size + size <= bytes
  {
    assert size * n == (n - 1) * size + size;
    if size == 0 { assert (n - 1) * size == 0; }
  }

  lemma RecordAppended(before: seq<Byte>, buf: seq<Byte>, disk: Disk, start: nat, done: nat, size: nat, all: nat,
                       ps: seq<Piece>, next: nat)
    requires all == done + size <= |buf| && next == start + done
    requires before == Written(buf, 0, Slice(disk, start, done))
    requires ps == [Piece(done, size, next)]
    ensures Copied(before, disk, ps) == Written(buf, 0, Slice(disk, start, all))
  {
    CopiedOne(before, disk, Piece(done, size, next), []);
    SliceAppend(disk, start, done, size, next);
    WrittenTwice(buf, 0, Slice(disk, start, done), Slice(disk, next, size), done);
  }
}
