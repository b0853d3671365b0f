/** Bookkeeping for clients that take single blocks and give them back: which blocks
    they hold relative to an earlier table, and what freeing a list of blocks does. */
module Ownership {
  import opened Words
  import opened BlockHeap
  import opened KernelHeap

  /** What an 8-bit entry holds for a one-block allocation. */
  const SINGLE: nat := 0x81

  predicate Distinct(bs: seq<nat>) {
    forall i, j :: 0 <= i < j < |bs| ==> bs[i] != bs[j]
  }

  /** Table `e` is `base` with exactly the blocks `bs`, free before, taken one by one. */
  predicate Grabbed(base: Table, e: Table, bs: seq<nat>) {
    && |e| == |base|
    && Distinct(bs)
    && (forall b :: b in bs ==> b < |base| && base[b] == FREE && e[b] == SINGLE)
    && (forall b :: 0 <= b < |base| && b !in bs ==> e[b] == base[b])
  }

  function FreeBlocks(e: Table): set<nat> {
    set i: nat | i < |e| && IsFree(e[i])
  }

  /** Taking one more block keeps the books and uses up one free block. */
  lemma GrabOne(base: Table, e: Table, bs: seq<nat>)
    requires Grabbed(base, e, bs) && Clean(base)
    requires |FreeBlocks(e)| > 0
    ensures !Overruns(e, 1) && 0 <= StartBlock(e, 1) < |e|
    ensures var s := StartBlock(e, 1);
      Grabbed(base, Marked(UnsignedChar, e, s, 1), bs + [s]) && base[s] == FREE && s !in bs
    ensures |FreeBlocks(Marked(UnsignedChar, e, StartBlock(e, 1), 1))| == |FreeBlocks(e)| - 1
  {
    ScanOne(e);
    var x :| x in FreeBlocks(e);
    var s := StartBlock(e, 1);
    var m := Marked(UnsignedChar, e, s, 1);
    assert m == e[s := SINGLE];
    assert FreeBlocks(m) == FreeBlocks(e) - {s};
  }

  function FreedAll(e: Table, bs: seq<nat>): (r: Table)
    ensures |r| == |e|
  {
    if bs == [] then e else Freed(FreedAll(e, bs[..|bs| - 1]), bs[|bs| - 1])
  }

  lemma {:induction false} FreedAllEffect(e: Table, bs: seq<nat>)
    requires forall b :: b in bs ==> b < |e| && !HasNext(e[b])
    ensures forall i :: 0 <= i < |e| ==> FreedAll(e, bs)[i] == if i in bs then FREE else e[i]
  {
    if bs != [] {
      var front := bs[..|bs| - 1];
      assert bs == front + [bs[|bs| - 1]];
      assert forall b :: b in front ==> b in bs;
      FreedAllEffect(e, front);
    }
  }

  /** Giving back exactly the blocks taken, in any order, restores the table. */
  lemma FreedAllRestores(base: Table, e: Table, taken: seq<nat>, returned: seq<nat>)
    requires Grabbed(base, e, taken)
    requires forall b :: b in taken <==> b in returned
    ensures FreedAll(e, returned) == base
  {
    FreedAllEffect(e, returned);
  }

  /** Freeing a list of addresses, one kfree each. */
  function FreedAddresses(e: Table, saddr: Word, ps: seq<Word>): (r: Table)
    ensures |r| == |e|
  {
    if ps == [] then e
    else FreedAddress(FreedAddresses(e, saddr, ps[..|ps| - 1]), saddr, ps[|ps| - 1])
  }

  lemma FreedOneMore(e: Table, saddr: Word, ps: seq<Word>, p: Word)
    ensures FreedAddresses(e, saddr, ps + [p]) == FreedAddress(FreedAddresses(e, saddr, ps), saddr, p)
  {
    assert (ps + [p])[..|ps|] == ps;
  }

  function Addresses(saddr: Word, bs: seq<nat>): (ps: seq<Word>)
    ensures |ps| == |bs|
  {
    seq(|bs|, i requires 0 <= i < |bs| => BlockToAddress(saddr, bs[i]))
  }

  lemma {:induction false} FreedAddressesAreBlocks(e: Table, saddr: Word, bs: seq<nat>)
    requires ValidPool(saddr, |e|)
    requires forall b :: b in bs ==> b < |e|
    ensures FreedAddresses(e, saddr, Addresses(saddr, bs)) == FreedAll(e, bs)
  {
    if bs != [] {
      var front := bs[..|bs| - 1];
      assert bs == front + [bs[|bs| - 1]];
      assert bs[|bs| - 1] in bs && forall b :: b in front ==> b in bs;
      assert Addresses(saddr, bs)[..|bs| - 1] == Addresses(saddr, front);
      FreedAddressesAreBlocks(e, saddr, front);
      BlockAddressRoundTrip(saddr, |e|, bs[|bs| - 1]);
    }
  }
}
