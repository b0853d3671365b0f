/** Segment descriptors: encoding into eight bytes, and their meaning under section 3.4.5
    of the Intel SDM, Volume 3A. */
module Gdt {
  import opened Words

  datatype Segment = Segment(base: Word, limit: Word, kind: Byte)

  /** Limits above 64 KiB are kept in pages, so their low 12 bits must be ones. */
  predicate Accepted(s: Segment) { s.limit <= 65536 || s.limit % 4096 == 4095 }

  lemma AcceptedIsMask(s: Segment)
    ensures Accepted(s) <==> !(s.limit > 65536 && And(s.limit, 0xFFF) != 0xFFF)
  {
    MaskIsPageOffset(s.limit);
  }

  function StoredLimit(s: Segment): Word { if s.limit > 65536 then s.limit / 4096 else s.limit }

  /** The eight bytes written for a segment. */
  function Encoded(s: Segment): (b: seq<Byte>)
    ensures |b| == 8
  {
    var l := StoredLimit(s);
    [l % 256, l / 256 % 256,
     s.base % 256, s.base / 256 % 256, s.base / 65536 % 256,
     s.kind,
     (if s.limit > 65536 then 0xC0 else 0x40) + l / 65536 % 16,
     s.base / 0x100_0000]
  }

  /** What the processor makes of eight descriptor bytes: a 20-bit limit, in pages when the
      granularity bit is set, and a 32-bit base. */
  function Decoded(b: seq<Byte>): (s: Segment)
    requires |b| == 8
  {
    var l := Join(b[0], b[1], b[6] % 16, 0);
    Segment(Join(b[2], b[3], b[4], b[7]),
            if b[6] / 128 == 1 && l < 0x10_0000 then l * 4096 + 4095 else l,
            b[5])
  }

  lemma BytesOfWord(x: Word)
    ensures x == x % 256 + 0x100 * (x / 256 % 256) + 0x1_0000 * (x / 65536 % 256) + 0x100_0000 * (x / 0x100_0000)
  {
    var a, b, c := x / 256, x / 65536, x / 0x100_0000;
    assert b == a / 256 && c == b / 256;
  }

  lemma LowTwentyBits(l: nat)
    requires l < 0x10_0000
    ensures l == l % 256 + 0x100 * (l / 256 % 256) + 0x1_0000 * (l / 65536 % 16)
  {
    var a, b := l / 256, l / 65536;
    assert b == a / 256;
  }

  lemma BaseDecodes(s: Segment)
    ensures Decoded(Encoded(s)).base == s.base && Decoded(Encoded(s)).kind == s.kind
  {
    BytesOfWord(s.base);
    hide StoredLimit;
  }

  lemma LimitDecodes(s: Segment)
    ensures Decoded(Encoded(s)).limit ==
      if s.limit > 65536 then StoredLimit(s) * 4096 + 4095 else StoredLimit(s)
  {
    var l := StoredLimit(s);
    var e := Encoded(s);
    LowTwentyBits(l);
    GranularityBits(s.limit > 65536, l / 65536 % 16);
    assert Join(e[0], e[1], e[6] % 16, 0) == l;
  }

  /** Decoding inverts encoding exactly for the accepted segments, at both granularities. Every
      entry is one of a 32-bit segment, with the two unused bits clear. */
  lemma DecodeInvertsEncode(s: Segment)
    ensures Decoded(Encoded(s)) == s <==> Accepted(s)
    ensures Encoded(s)[6] / 64 % 2 == 1 && Encoded(s)[6] / 16 % 4 == 0
  {
    BaseDecodes(s);
    LimitDecodes(s);
    PageLimit(s.limit);
    assert Encoded(s)[6] / 64 % 2 == 1 && Encoded(s)[6] / 16 % 4 == 0 by {
      GranularityBits(s.limit > 65536, StoredLimit(s) / 65536 % 16);
    }
    hide Encoded, Decoded;
  }

  lemma GranularityBits(pages: bool, high: nat)
    requires high < 16
    ensures ((if pages then 0xC0 else 0x40) + high) % 16 == high
    ensures ((if pages then 0xC0 else 0x40) + high) / 128 == if pages then 1 else 0
    ensures ((if pages then 0xC0 else 0x40) + high) / 64 % 2 == 1
    ensures ((if pages then 0xC0 else 0x40) + high) / 16 % 4 == 0
  {
  }

  lemma PageLimit(limit: nat)
    ensures limit / 4096 * 4096 + 4095 == limit <==> limit % 4096 == 4095
  {
  }

  // --- in place ---------------------------------------------------------------------

  lemma ByteMask(x: nat)
    ensures And(x, 0xFF) == x % 256
  {
    Pow2Values();
    hide *;
    AndLowOnes(x, 8);
  }

  lemma NibbleMask(x: nat)
    ensures And(x, 0x0F) == x % 16
  {
    Pow2Values();
    hide *;
    AndLowOnes(x, 4);
  }

  lemma NibbleOr(h: nat, x: nat)
    requires x < 16
    ensures Or(16 * h, x) == 16 * h + x
  {
    Pow2Values();
    ShiftNibble(h);
    OrZeroLeft(x);
    hide *;
    OrLow(h, 0, x, 4);
  }

  /** The masked and shifted values the code stores, as bytes of the encoding. */
  lemma StoredBytes(s: Segment, limit: Word, flags: nat)
    requires limit == StoredLimit(s) && flags == if s.limit > 65536 then 0xC0 else 0x40
    ensures var e := Encoded(s);
      && And(limit, 0xFF) == e[0] && And(Shr(limit, 8), 0xFF) == e[1]
      && And(s.base, 0xFF) == e[2] && And(Shr(s.base, 8), 0xFF) == e[3]
      && And(Shr(s.base, 16), 0xFF) == e[4] && And(Shr(s.base, 24), 0xFF) == e[7]
      && Or(flags, And(Shr(limit, 16), 0x0F)) == e[6] && s.kind == e[5]
  {
    hide And, Or, Shr, StoredLimit;
    ShiftByte(limit);
    ShiftBytes(limit);
    ByteMask(limit);
    ByteMask(limit / 256);
    NibbleMask(limit / 65536);
    NibbleOr(if s.limit > 65536 then 12 else 4, limit / 65536 % 16);
    BaseBytes(s.base);
  }

  lemma BaseBytes(b: Word)
    ensures And(b, 0xFF) == b % 256 && And(Shr(b, 8), 0xFF) == b / 256 % 256
    ensures And(Shr(b, 16), 0xFF) == b / 65536 % 256 && And(Shr(b, 24), 0xFF) == b / 0x100_0000
  {
    hide And, Shr;
    ShiftByte(b);
    ShiftBytes(b);
    ByteMask(b);
    ByteMask(b / 256);
    ByteMask(b / 65536);
    ByteMask(b / 0x100_0000);
  }

  predicate HoldsAt(b: seq<Byte>, at: nat, data: seq<Byte>) {
    at + |data| <= |b| && b[at..at + |data|] == data
  }

  /** encode_gdt_entry; an unacceptable segment panics before anything is written. */
  method EncodeEntry(target: array<Byte>, at: nat, s: Segment) returns (ok: bool)
    requires at + 8 <= target.Length
    modifies target
    ensures ok == Accepted(s)
    ensures !ok ==> target[..] == old(target[..])
    ensures ok ==> target[..] == old(target[..at]) + Encoded(s) + old(target[at + 8..])
  {
    AcceptedIsMask(s);
    if s.limit > 65536 && And(s.limit, 0xFFF) != 0xFFF { return false; }
    ShiftPage(s.limit);
    var limit := s.limit;
    var flags := 0x40;
    if limit > 65536 {
      limit := Shr(limit, 12);
      flags := 0xC0;
    }
    WriteBytes(target, at, s, limit, flags);
    ok := true;
  }

  /** The nine stores; the flags byte is written first and or-ed into later. */
  method WriteBytes(target: array<Byte>, at: nat, s: Segment, limit: Word, flags: Byte)
    requires at + 8 <= target.Length
    requires limit == StoredLimit(s) && flags == if s.limit > 65536 then 0xC0 else 0x40
    modifies target
    ensures target[..] == old(target[..at]) + Encoded(s) + old(target[at + 8..])
  {
    hide *;
    ghost var e, before := Encoded(s), target[..];
    StoredBytes(s, limit, flags);
    target[at + 6] := flags;
    target[at + 0] := And(limit, 0xFF);
    target[at + 1] := And(Shr(limit, 8), 0xFF);
    target[at + 6] := Or(target[at + 6], And(Shr(limit, 16), 0x0F));
    target[at + 2] := And(s.base, 0xFF);
    target[at + 3] := And(Shr(s.base, 8), 0xFF);
    target[at + 4] := And(Shr(s.base, 16), 0xFF);
    target[at + 7] := And(Shr(s.base, 24), 0xFF);
    target[at + 5] := s.kind;
    EightBytes(before, target[..], at, e);
  }

  lemma EightBytes(before: seq<Byte>, after: seq<Byte>, at: nat, e: seq<Byte>)
    requires |e| == 8 && at + 8 <= |before| == |after|
    requires after[at] == e[0] && after[at + 1] == e[1] && after[at + 2] == e[2] && after[at + 3] == e[3]
    requires after[at + 4] == e[4] && after[at + 5] == e[5] && after[at + 6] == e[6] && after[at + 7] == e[7]
    requires forall k :: 0 <= k < |before| && !(at <= k < at + 8) ==> after[k] == before[k]
    ensures after == before[..at] + e + before[at + 8..]
  {
    forall k | 0 <= k < 8 ensures after[at + k] == e[k] {
    }
  }

  /** gdt_structured_to_gdt, for an array of any length. */
  method StructuredToGdt(target: array<Byte>, ss: seq<Segment>) returns (ok: bool)
    requires 8 * |ss| <= target.Length
    modifies target
    ensures ok <==> forall i :: 0 <= i < |ss| ==> Accepted(ss[i])
    ensures ok ==> forall i :: 0 <= i < |ss| ==> HoldsAt(target[..], 8 * i, Encoded(ss[i]))
    ensures target[8 * |ss|..] == old(target[8 * |ss|..])
  {
    var i := 0;
    while i < |ss|
      invariant 0 <= i <= |ss|
      invariant forall j :: 0 <= j < i ==> Accepted(ss[j])
      invariant forall j :: 0 <= j < i ==> HoldsAt(target[..], 8 * j, Encoded(ss[j]))
      invariant target[8 * |ss|..] == old(target[8 * |ss|..])
    {
      ghost var before := target[..];
      ok := EncodeEntry(target, 8 * i, ss[i]);
      if !ok { return; }
      EntryPlaced(before, target[..], 8 * i, Encoded(ss[i]), 8 * |ss|);
      forall j | 0 <= j < i ensures HoldsAt(target[..], 8 * j, Encoded(ss[j])) {
        EarlierEntryKept(before, target[..], 8 * i, 8 * j, Encoded(ss[j]));
      }
      i := i + 1;
    }
    ok := true;
  }

  lemma EntryPlaced(before: seq<Byte>, after: seq<Byte>, at: nat, e: seq<Byte>, end: nat)
    requires at + 8 <= end <= |before| && |e| == 8 && after == before[..at] + e + before[at + 8..]
    ensures |after| == |before| && HoldsAt(after, at, e) && after[..at] == before[..at]
    ensures after[end..] == before[end..]
  {
  }

  lemma EarlierEntryKept(before: seq<Byte>, after: seq<Byte>, at: nat, j: nat, e: seq<Byte>)
    requires |after| == |before| && j + |e| <= at <= |before| && after[..at] == before[..at]
    requires HoldsAt(before, j, e)
    ensures HoldsAt(after, j, e)
  {
    assert after[j..j + |e|] == after[..at][j..j + |e|];
    assert before[j..j + |e|] == before[..at][j..j + |e|];
  }

  /** Every entry of the array, read back by the processor's rules, is the segment given. */
  lemma TableDecodes(b: seq<Byte>, ss: seq<Segment>, i: nat)
    requires i < |ss| && Accepted(ss[i]) && HoldsAt(b, 8 * i, Encoded(ss[i]))
    ensures Decoded(b[8 * i..8 * i + 8]) == ss[i]
  {
    DecodeInvertsEncode(ss[i]);
  }
}
