/** The path parser in place: a cursor over the path, heap blocks for every piece, and a
    linked list of components that is later freed node by node. */
module PathParser {
  import opened Words
  import opened BlockHeap
  import opened KernelHeap
  import opened Ownership
  import opened PathSpec

  /** A component: the addresses of its node and of its 108-byte buffer, and the buffer. */
  class PathPart {
    const node: Word
    const text: Word
    const buffer: seq<Byte>
    var next: PathPart?

    constructor (node: Word, text: Word, buffer: seq<Byte>)
      ensures this.node == node && this.text == text && this.buffer == buffer && next == null
    {
      this.node, this.text, this.buffer := node, text, buffer;
      next := null;
    }
  }

  class PathRoot {
    const addr: Word
    var driveNo: int
    var first: PathPart?

    /** The components in order. */
    ghost var nodes: seq<PathPart>

    constructor (addr: Word, driveNo: int)
      ensures this.addr == addr && this.driveNo == driveNo && first == null && nodes == []
    {
      this.addr := addr;
      this.driveNo := driveNo;
      first := null;
      nodes := [];
    }
  }

  function At(nodes: seq<PathPart>, i: int): PathPart? {
    if 0 <= i < |nodes| then nodes[i] else null
  }

  ghost predicate NextOk(nodes: seq<PathPart>, k: nat)
    requires k < |nodes|
    reads nodes[k]
  {
    nodes[k].next == At(nodes, k + 1)
  }

  ghost predicate Linked(nodes: seq<PathPart>)
    reads nodes
  {
    forall k: nat :: k < |nodes| ==> NextOk(nodes, k)
  }

  /** A 108-byte buffer holding a component and its terminator. */
  predicate Holds(buffer: seq<Byte>, c: seq<Byte>) {
    |buffer| == MAX_PATH && |c| < MAX_PATH && buffer[..|c|] == c && buffer[|c|] == 0 && 0 !in c
  }

  predicate Named(nodes: seq<PathPart>, cs: seq<seq<Byte>>) {
    |nodes| == |cs| && forall k :: 0 <= k < |cs| ==> Holds(nodes[k].buffer, cs[k])
  }

  /** Addresses of the blocks a list of components owns, in the order they are freed. */
  function OwnedBy(nodes: seq<PathPart>): seq<Word> {
    if nodes == [] then []
    else OwnedBy(nodes[..|nodes| - 1]) + [nodes[|nodes| - 1].text, nodes[|nodes| - 1].node]
  }

  ghost predicate Ready(h: Heap)
    reads h.entries
  {
    h.Valid() && h.entryType == UnsignedChar
  }

  /** One block for a record of less than a page. */
  method Take(h: Heap, size: Word, ghost base: Table, ghost bs: seq<nat>) returns (p: Word, ghost b: nat)
    requires Ready(h) && Clean(base) && Grabbed(base, h.entries[..], bs)
    requires 0 < size <= PAGE && |FreeBlocks(h.entries[..])| > 0
    modifies h.entries
    ensures Grabbed(base, h.entries[..], bs + [b]) && b < h.entries.Length && b !in bs
    ensures p == BlockToAddress(h.saddr, b) && p > 0
    ensures |FreeBlocks(h.entries[..])| == |FreeBlocks(old(h.entries[..]))| - 1
    ensures FreedAddress(h.entries[..], h.saddr, p) == old(h.entries[..])
  {
    ghost var e := h.entries[..];
    GrabOne(base, e, bs);
    assert BlocksFor(size) == 1 by { BlocksForExact(size); }
    b := StartBlock(e, 1);
    TakeUndone(base, e, bs, h.saddr, b);
    p := h.Malloc(size);
  }

  lemma TakeUndone(base: Table, e: Table, bs: seq<nat>, saddr: Word, s: nat)
    requires ValidPool(saddr, |e|) && Clean(base) && Grabbed(base, e, bs) && s < |e| && s !in bs && base[s] == FREE
    ensures FreedAddress(Marked(UnsignedChar, e, s, 1), saddr, BlockToAddress(saddr, s)) == e
    ensures BlockToAddress(saddr, s) > 0
  {
    BlockAddressRoundTrip(saddr, |e|, s);
    FreeInvertsMark(UnsignedChar, e, s, 1);
  }

  /** pparser_get_path_part: copy one component into a fresh zeroed buffer and move the
      cursor past it; an empty component gives its block straight back. */
  method GetPathPart(h: Heap, path: seq<Byte>, p: nat, ghost base: Table, ghost bs: seq<nat>)
    returns (text: Word, buffer: seq<Byte>, next: nat, ghost b: nat)
    requires Ready(h) && Clean(base) && Grabbed(base, h.entries[..], bs) && |FreeBlocks(h.entries[..])| > 0
    requires 3 <= p <= |path| <= MAX_PATH && 0 !in path
    modifies h.entries
    ensures next == NextStart(path, PartEnd(path, p))
    ensures PartEnd(path, p) == p ==> text == 0 && h.entries[..] == old(h.entries[..])
    ensures PartEnd(path, p) > p ==>
      && text == BlockToAddress(h.saddr, b) && text > 0 && b < h.entries.Length && b !in bs
      && Grabbed(base, h.entries[..], bs + [b])
      && |FreeBlocks(h.entries[..])| == |FreeBlocks(old(h.entries[..]))| - 1
      && Holds(buffer, path[p..PartEnd(path, p)])
  {
    text, b := Take(h, MAX_PATH, base, bs);
    hide *;
    var i;
    buffer, i := CopyPart(path, p);
    next := p + i;
    if next < |path| { next := next + 1; }
    AfterSlash(path, p + i, next);
    if i == 0 {
      h.Free(text);
      text := 0;
    }
  }

  lemma AfterSlash(path: seq<Byte>, end: nat, next: nat)
    requires end <= |path| && next == if end < |path| then end + 1 else end
    ensures next == NextStart(path, end)
  {
  }

  /** The copying loop: the component's bytes into a zeroed buffer. */
  method CopyPart(path: seq<Byte>, p: nat) returns (buffer: seq<Byte>, i: nat)
    requires 3 <= p <= |path| <= MAX_PATH && 0 !in path
    ensures p + i == PartEnd(path, p) && Holds(buffer, path[p..PartEnd(path, p)])
  {
    var part := new Byte[MAX_PATH](_ => 0);
    i := 0;
    while p + i < |path| && path[p + i] != SLASH
      invariant p + i <= |path| && PartEnd(path, p) == PartEnd(path, p + i)
      invariant part[..i] == path[p..p + i] && forall k :: i <= k < MAX_PATH ==> part[k] == 0
    {
      part[i] := path[p + i];
      i := i + 1;
    }
    buffer := part[..];
  }

  /** pparser_parse_path_part: the component, its node, and the link from the node before. */
  method ParsePathPart(h: Heap, prev: PathPart?, path: seq<Byte>, p: nat, ghost base: Table, ghost bs: seq<nat>)
    returns (part: PathPart?, next: nat, ghost taken: seq<nat>)
    requires Ready(h) && Clean(base) && Grabbed(base, h.entries[..], bs)
    requires 3 <= p <= |path| <= MAX_PATH && 0 !in path
    requires |FreeBlocks(h.entries[..])| >= if PartEnd(path, p) == p then 1 else 2
    modifies h.entries, if prev == null then {} else {prev}
    ensures next == NextStart(path, PartEnd(path, p))
    ensures PartEnd(path, p) == p ==>
      part == null && h.entries[..] == old(h.entries[..]) && (prev != null ==> prev.next == old(prev.next))
    ensures PartEnd(path, p) > p ==>
      && part != null && fresh(part) && part.next == null && (prev != null ==> prev.next == part)
      && Holds(part.buffer, path[p..PartEnd(path, p)])
      && |taken| == 2 && (forall b :: b in taken ==> b < h.entries.Length)
      && part.text == BlockToAddress(h.saddr, taken[0]) && part.node == BlockToAddress(h.saddr, taken[1])
      && Grabbed(base, h.entries[..], bs + taken)
      && |FreeBlocks(h.entries[..])| == |FreeBlocks(old(h.entries[..]))| - 2
  {
    var text, buffer;
    ghost var b, c;
    taken := [];
    text, buffer, next, b := GetPathPart(h, path, p, base, bs);
    if text == 0 { return null, next, []; }
    var node;
    node, c := Take(h, 8, base, bs + [b]);
    taken := [b, c];
    assert bs + [b] + [c] == bs + taken;
    part := new PathPart(node, text, buffer);
    if prev != null { prev.next := part; }
  }

  /** The list built so far holds the first components, and the heap gave out its blocks. */
  ghost predicate Building(e: Table, saddr: Word, root: PathRoot, nodes: seq<PathPart>, cs: seq<seq<Byte>>,
                           base: Table, bs: seq<nat>)
    reads nodes
  {
    && Linked(nodes) && Named(nodes, cs)
    && Grabbed(base, e, bs) && |bs| == 2 * |nodes| + 1
    && root.addr == BlockToAddress(saddr, bs[0])
    && Addresses(saddr, bs[1..]) == OwnedBy(nodes)
  }

  lemma OwnedByAppend(saddr: Word, nodes: seq<PathPart>, part: PathPart, bs: seq<nat>, taken: seq<nat>)
    requires |bs| == 2 * |nodes| + 1 && |taken| == 2
    requires Addresses(saddr, bs[1..]) == OwnedBy(nodes)
    requires part.text == BlockToAddress(saddr, taken[0]) && part.node == BlockToAddress(saddr, taken[1])
    ensures Addresses(saddr, (bs + taken)[1..]) == OwnedBy(nodes + [part])
  {
    assert (nodes + [part])[..|nodes|] == nodes;
    assert (bs + taken)[1..] == bs[1..] + taken;
  }

  lemma LinkedAppend(nodes: seq<PathPart>, part: PathPart)
    requires forall k: nat :: k + 1 < |nodes| ==> NextOk(nodes, k)
    requires nodes != [] ==> nodes[|nodes| - 1].next == part
    requires part.next == null
    ensures Linked(nodes + [part])
  {
    var all := nodes + [part];
    forall k: nat | k < |all| ensures NextOk(all, k) {
      if k + 1 < |nodes| { assert NextOk(nodes, k); }
    }
  }

  /** Parse one more component onto the list. */
  method Extend(h: Heap, root: PathRoot, prev: PathPart?, path: seq<Byte>, p: nat,
                ghost nodes: seq<PathPart>, ghost cs: seq<seq<Byte>>, ghost base: Table, ghost bs: seq<nat>)
    returns (part: PathPart?, next: nat, ghost taken: seq<nat>)
    requires Ready(h) && Clean(base) && 3 <= p <= |path| <= MAX_PATH && 0 !in path
    requires Building(h.entries[..], h.saddr, root, nodes, cs, base, bs)
    requires prev == At(nodes, |nodes| - 1) && (forall i, j :: 0 <= i < j < |nodes| ==> nodes[i] != nodes[j])
    requires |FreeBlocks(h.entries[..])| >= 2 * |PartsFrom(path, p)| + 1
    modifies h.entries, if prev == null then {} else {prev}
    ensures next == NextStart(path, PartEnd(path, p))
    ensures PartsFrom(path, p) == [] ==>
      part == null && h.entries[..] == old(h.entries[..])
      && Building(h.entries[..], h.saddr, root, nodes, cs, base, bs)
    ensures PartsFrom(path, p) != [] ==>
      && part != null && fresh(part) && |taken| == 2
      && Building(h.entries[..], h.saddr, root, nodes + [part], cs + [PartsFrom(path, p)[0]], base, bs + taken)
      && PartsFrom(path, next) == PartsFrom(path, p)[1..]
      && |FreeBlocks(h.entries[..])| >= 2 * |PartsFrom(path, next)| + 1
  {
    ghost var rest := PartsFrom(path, p);
    label before:
    part, next, taken := ParsePathPart(h, prev, path, p, base, bs);
    if part == null {
      assert forall k: nat :: k < |nodes| ==> old@before(NextOk(nodes, k)) ==> NextOk(nodes, k);
      return;
    }
    forall k: nat | k + 1 < |nodes| ensures NextOk(nodes, k) {
      assert old@before(NextOk(nodes, k));
    }
    LinkedAppend(nodes, part);
    OwnedByAppend(h.saddr, nodes, part, bs, taken);
  }

  predicate AllDistinct(nodes: seq<PathPart>) {
    forall i, j :: 0 <= i < j < |nodes| ==> nodes[i] != nodes[j]
  }

  /** The components after the first, until an empty one. */
  method ParseRest(h: Heap, root: PathRoot, first: PathPart, path: seq<Byte>, start: nat,
                   ghost c: seq<Byte>, ghost base: Table, ghost blocks: seq<nat>)
    returns (ghost nodes: seq<PathPart>, ghost bs: seq<nat>)
    requires Ready(h) && Clean(base) && 3 <= start <= |path| <= MAX_PATH && 0 !in path
    requires Building(h.entries[..], h.saddr, root, [first], [c], base, blocks)
    requires |FreeBlocks(h.entries[..])| >= 2 * |PartsFrom(path, start)| + 1
    modifies h.entries, first
    ensures nodes != [] && nodes[0] == first && (forall n :: n in nodes && n != first ==> fresh(n))
    ensures Building(h.entries[..], h.saddr, root, nodes, [c] + PartsFrom(path, start), base, bs)
  {
    ghost var cs, taken, all := [c], [], [c] + PartsFrom(path, start);
    nodes, bs := [first], blocks;
    var p := start;
    var part: PathPart? := first;
    while part != null
      invariant 3 <= p <= |path|
      invariant nodes != [] && nodes[0] == first && AllDistinct(nodes)
      invariant forall n :: n in nodes && n != first ==> fresh(n)
      invariant Building(h.entries[..], h.saddr, root, nodes, cs, base, bs)
      invariant part == null ==> cs == all
      invariant part != null ==> part == nodes[|nodes| - 1] && cs + PartsFrom(path, p) == all
      invariant part != null ==> |FreeBlocks(h.entries[..])| >= 2 * |PartsFrom(path, p)| + 1
      decreases if part != null then |PartsFrom(path, p)| + 1 else 0
    {
      ghost var rest := PartsFrom(path, p);
      assert part in nodes;
      assert rest != [] ==> cs + rest == (cs + [rest[0]]) + rest[1..];
      part, p, taken := Extend(h, root, part, path, p, nodes, cs, base, bs);
      if part != null {
        nodes := nodes + [part];
        cs := cs + [rest[0]];
        bs := bs + taken;
      }
    }
  }

  /** pparser_get_drive_by_path: the digit in front, or an error for a bad format. */
  method GetDriveByPath(path: seq<Byte>) returns (drive: int)
    requires |path| <= MAX_PATH
    ensures drive == if Accepted(path) then path[0] - ZERO else -EBADPATH
    ensures drive >= 0 <==> HasDrive(path)
    ensures drive >= 0 ==> path != [] && 48 <= path[0] <= 57 && drive == path[0] - 48
  {
    AcceptedExactly(path);
    if !(|path| >= 3 && IsDigit(path[0]) && path[1] == COLON && path[2] == SLASH) { return -EBADPATH; }
    var c: int := path[0];
    drive := c - ZERO;
  }

  /** pparser_parse. A rejected path allocates nothing. The drive number is assigned the
      outcome of a comparison, so it is right exactly for drive 0. */
  method Parse(h: Heap, path: seq<Byte>) returns (root: PathRoot?, ghost bs: seq<nat>)
    requires Ready(h) && Clean(h.entries[..]) && 0 !in path
    requires Accepted(path) ==> |FreeBlocks(h.entries[..])| >= 2 * |Parts(path)| + 2
    modifies h.entries
    ensures root == null <==> |path| > 108 || !HasDrive(path)
    ensures root == null ==> h.entries[..] == old(h.entries[..])
    ensures root != null ==>
      && Accepted(path) && fresh(root) && root.driveNo == 0 && root.first == At(root.nodes, 0)
      && Building(h.entries[..], h.saddr, root, root.nodes, Parts(path), old(h.entries[..]), bs)
    ensures root != null ==> (root.driveNo == path[0] - 48 <==> path[0] == 48)
  {
    bs := [];
    AcceptedExactly(path);
    if |path| > MAX_PATH { return null, []; }
    var drive := GetDriveByPath(path);
    var driveNo := if drive < 0 then 1 else 0;
    if driveNo != 0 { return null, []; }
    root, bs := ParseAccepted(h, path, driveNo);
  }

  /** The root and its list, for a path whose format is good. */
  method ParseAccepted(h: Heap, path: seq<Byte>, driveNo: int) returns (root: PathRoot, ghost bs: seq<nat>)
    requires Ready(h) && Clean(h.entries[..]) && 0 !in path && Accepted(path)
    requires |FreeBlocks(h.entries[..])| >= 2 * |Parts(path)| + 2
    modifies h.entries
    ensures fresh(root) && root.driveNo == driveNo && root.first == At(root.nodes, 0)
    ensures Building(h.entries[..], h.saddr, root, root.nodes, Parts(path), old(h.entries[..]), bs)
  {
    ghost var base := h.entries[..];
    ghost var all := Parts(path);
    assert all == PartsFrom(path, 3) && 3 <= |path| <= MAX_PATH && MAX_PATH == 108;
    assert PAGE == 4096 && Grabbed(base, base, []);
    hide *;
    var addr;
    ghost var b;
    addr, b := Take(h, 8, base, []);
    root := new PathRoot(addr, driveNo);
    bs := [b];
    StartBuilding(h.entries[..], h.saddr, root, base, b);
    bs := ParseParts(h, root, path, base, bs);
  }

  /** The components, from the third byte on, linked to a root that has none yet. */
  method ParseParts(h: Heap, root: PathRoot, path: seq<Byte>, ghost base: Table, ghost blocks: seq<nat>)
    returns (ghost bs: seq<nat>)
    requires Ready(h) && Clean(base) && 0 !in path && 3 <= |path| <= MAX_PATH
    requires Building(h.entries[..], h.saddr, root, [], [], base, blocks)
    requires root.first == null && root.nodes == [] && At([], -1) == null
    requires |FreeBlocks(h.entries[..])| >= 2 * |PartsFrom(path, 3)| + 1
    modifies h.entries, root
    ensures root.driveNo == old(root.driveNo) && root.first == At(root.nodes, 0)
    ensures Building(h.entries[..], h.saddr, root, root.nodes, PartsFrom(path, 3), base, bs)
  {
    ghost var all := PartsFrom(path, 3);
    NoNodes();
    hide *;
    var first, p;
    ghost var taken;
    first, p, taken := Extend(h, root, null, path, 3, [], [], base, blocks);
    bs := blocks;
    if first != null {
      FirstOf(first, all);
      bs := LinkFrom(h, root, first, path, p, all[0], base, blocks + taken);
    }
  }

  /** The first component becomes the root's, and the others follow it. */
  method LinkFrom(h: Heap, root: PathRoot, first: PathPart, path: seq<Byte>, start: nat,
                  ghost c: seq<Byte>, ghost base: Table, ghost blocks: seq<nat>)
    returns (ghost bs: seq<nat>)
    requires Ready(h) && Clean(base) && 3 <= start <= |path| <= MAX_PATH && 0 !in path
    requires Building(h.entries[..], h.saddr, root, [first], [c], base, blocks)
    requires |FreeBlocks(h.entries[..])| >= 2 * |PartsFrom(path, start)| + 1
    modifies h.entries, root, first
    ensures root.driveNo == old(root.driveNo) && root.first == At(root.nodes, 0)
    ensures Building(h.entries[..], h.saddr, root, root.nodes, [c] + PartsFrom(path, start), base, bs)
  {
    hide *;
    ghost var nodes;
    root.first := first;
    nodes, bs := ParseRest(h, root, first, path, start, c, base, blocks);
    root.nodes := nodes;
    FirstNode(nodes);
  }

  lemma FirstOf(first: PathPart, all: seq<seq<Byte>>)
    requires all != []
    ensures [] + [first] == [first] && [] + [all[0]] == [all[0]] && [all[0]] + all[1..] == all
  {
  }

  lemma NoNodes()
    ensures At([], 0) == null
  {
  }

  lemma FirstNode(nodes: seq<PathPart>)
    requires nodes != []
    ensures At(nodes, 0) == nodes[0]
  {
  }

  lemma StartBuilding(e: Table, saddr: Word, root: PathRoot, base: Table, b: nat)
    requires Grabbed(base, e, [] + [b]) && root.addr == BlockToAddress(saddr, b)
    ensures Building(e, saddr, root, [], [], base, [b])
    ensures At([], -1) == null
  {
    assert [] + [b] == [b] && Addresses(saddr, [b][1..]) == [];
  }

  /** pparser_free: buffer and node of every component, then the root. */
  method Free(h: Heap, root: PathRoot)
    requires Linked(root.nodes) && root.first == At(root.nodes, 0)
    modifies h.entries
    ensures h.entries[..] == FreedAddresses(old(h.entries[..]), h.saddr, OwnedBy(root.nodes) + [root.addr])
  {
    var part := root.first;
    ghost var k: nat, nodes, e := 0, root.nodes, h.entries[..];
    NothingOwned(nodes, e, h.saddr);
    hide *;
    while part != null
      invariant k <= |nodes| && part == At(nodes, k) && Linked(nodes)
      invariant h.entries[..] == FreedAddresses(e, h.saddr, OwnedBy(nodes[..k]))
      decreases |nodes| - k
    {
      ghost var done := OwnedBy(nodes[..k]);
      NodeAt(nodes, k);
      OwnedStep(nodes, k);
      var next := part.next;
      h.Free(part.text);
      FreedOneMore(e, h.saddr, done, part.text);
      h.Free(part.node);
      FreedOneMore(e, h.saddr, done + [part.text], part.node);
      part := next;
      k := k + 1;
    }
    NodeAt(nodes, k);
    assert nodes[..k] == nodes;
    FreedOneMore(e, h.saddr, OwnedBy(nodes), root.addr);
    h.Free(root.addr);
  }

  lemma NothingOwned(nodes: seq<PathPart>, e: Table, saddr: Word)
    ensures FreedAddresses(e, saddr, OwnedBy(nodes[..0])) == e
  {
  }

  /** The node at an index, and where its link leads; none past the end. */
  lemma NodeAt(nodes: seq<PathPart>, k: nat)
    requires Linked(nodes) && k <= |nodes|
    ensures At(nodes, k) == null <==> k == |nodes|
    ensures k < |nodes| ==> At(nodes, k) == nodes[k] && nodes[k].next == At(nodes, k + 1)
  {
    assert k < |nodes| ==> NextOk(nodes, k);
  }

  lemma OwnedStep(nodes: seq<PathPart>, k: nat)
    requires k < |nodes|
    ensures OwnedBy(nodes[..k + 1]) == OwnedBy(nodes[..k]) + [nodes[k].text] + [nodes[k].node]
  {
    assert nodes[..k + 1][..k] == nodes[..k];
  }

  /** The addresses freed are exactly those of the blocks taken, so the table is restored. */
  lemma FreeRestores(saddr: Word, base: Table, e: Table, root: PathRoot, nodes: seq<PathPart>,
                     cs: seq<seq<Byte>>, bs: seq<nat>)
    requires ValidPool(saddr, |base|) && Building(e, saddr, root, nodes, cs, base, bs)
    ensures FreedAddresses(e, saddr, OwnedBy(nodes) + [root.addr]) == base
  {
    var returned := bs[1..] + [bs[0]];
    assert bs == [bs[0]] + bs[1..];
    assert OwnedBy(nodes) + [root.addr] == Addresses(saddr, returned);
    assert forall b :: b in returned <==> b in bs;
    FreedAddressesAreBlocks(e, saddr, returned);
    FreedAllRestores(base, e, bs, returned);
  }

  /** Parsing a path and freeing the result leaves the heap table exactly as it was. */
  method ParseThenFree(h: Heap, path: seq<Byte>) returns (accepted: bool)
    requires Ready(h) && Clean(h.entries[..]) && 0 !in path
    requires Accepted(path) ==> |FreeBlocks(h.entries[..])| >= 2 * |Parts(path)| + 2
    modifies h.entries
    ensures h.entries[..] == old(h.entries[..]) && (accepted <==> |path| <= 108 && HasDrive(path))
  {
    ghost var base := h.entries[..];
    var root, bs := Parse(h, path);
    if root == null { return false; }
    FreeRestores(h.saddr, base, h.entries[..], root, root.nodes, Parts(path), bs);
    Free(h, root);
    accepted := true;
  }
}
