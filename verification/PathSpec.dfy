/** What parsing a path means: drive prefix, then components up to the first empty one. */
module PathSpec {
  import opened Words

  const SLASH: Byte := 47
  const COLON: Byte := 58
  const MAX_PATH: nat := 108

  const ZERO: Byte := 48

  /** A path as the parser accepts it: at most 108 bytes and a prefix such as "0:/". */
  predicate Accepted(s: seq<Byte>) {
    |s| <= MAX_PATH && |s| >= 3 && IsDigit(s[0]) && s[1] == COLON && s[2] == SLASH
  }

  /** A drive number from 0 to 9, a colon and a slash in front. */
  ghost predicate HasDrive(s: seq<Byte>) { exists d: Byte :: StartsWith([d, 58, 47], s) && 48 <= d <= 57 }

  predicate StartsWith(front: seq<Byte>, s: seq<Byte>) { front <= s }

  /** The test is exact: every other path is rejected. */
  lemma AcceptedExactly(s: seq<Byte>)
    ensures Accepted(s) <==> |s| <= 108 && HasDrive(s)
  {
    if Accepted(s) { assert StartsWith([s[0], 58, 47], s); }
    if HasDrive(s) {
      var d: Byte :| StartsWith([d, 58, 47], s) && 48 <= d <= 57;
      assert [d, 58, 47][0] == s[0] && [d, 58, 47][1] == s[1] && [d, 58, 47][2] == s[2];
    }
  }

  /** End of the component that starts at p. */
  function PartEnd(s: seq<Byte>, p: nat): (e: nat)
    requires p <= |s|
    ensures p <= e <= |s|
    ensures forall k :: p <= k < e ==> s[k] != SLASH
    ensures e < |s| ==> s[e] == SLASH
    decreases |s| - p
  {
    if p < |s| && s[p] != SLASH then PartEnd(s, p + 1) else p
  }

  /** Where the next component starts: after the slash, if there is one. */
  function NextStart(s: seq<Byte>, e: nat): (p: nat)
    requires e <= |s|
    ensures e <= p <= |s|
  {
    if e < |s| then e + 1 else e
  }

  /** The components the parser collects from p on: it stops at the first empty one. */
  function PartsFrom(s: seq<Byte>, p: nat): (cs: seq<seq<Byte>>)
    requires p <= |s|
    decreases |s| - p
  {
    var e := PartEnd(s, p);
    if e == p then [] else [s[p..e]] + PartsFrom(s, NextStart(s, e))
  }

  function Parts(s: seq<Byte>): seq<seq<Byte>>
    requires Accepted(s)
  {
    PartsFrom(s, 3)
  }

  // --- an independent reading: split at every slash, keep what precedes an empty part ----

  function Split(s: seq<Byte>): (cs: seq<seq<Byte>>)
    ensures cs != []
  {
    if s == [] then [[]]
    else
      var rest := Split(s[1..]);
      if s[0] == SLASH then [[]] + rest else [[s[0]] + rest[0]] + rest[1..]
  }

  function BeforeEmpty(cs: seq<seq<Byte>>): seq<seq<Byte>> {
    if cs == [] || cs[0] == [] then [] else [cs[0]] + BeforeEmpty(cs[1..])
  }

  /** Splitting peels off the first component. */
  lemma {:induction false} SplitFirst(s: seq<Byte>, e: nat)
    requires e <= |s| && (forall k :: 0 <= k < e ==> s[k] != SLASH) && (e < |s| ==> s[e] == SLASH)
    ensures Split(s) == if e < |s| then [s[..e]] + Split(s[e + 1..]) else [s]
    decreases e
  {
    if e == 0 {
      if s != [] { assert s[..0] == []; }
    } else {
      var t := s[1..];
      SplitFirst(t, e - 1);
      if e < |s| {
        assert t[e..] == s[e + 1..];
        assert [s[0]] + t[..e - 1] == s[..e];
        assert Split(t)[1..] == Split(s[e + 1..]);
      } else {
        assert [s[0]] + t == s;
      }
    }
  }

  lemma SplitAt(s: seq<Byte>, p: nat, e: nat)
    requires p <= |s| && e == PartEnd(s, p)
    ensures Split(s[p..]) == [s[p..e]] + (if e < |s| then Split(s[e + 1..]) else [])
  {
    var t, d := s[p..], e - p;
    Slices(s, p, e, t, d);
    hide *;
    SplitFirst(t, d);
    assert e == |s| ==> [t] == [s[p..e]] + [];
  }

  lemma Slices(s: seq<Byte>, p: nat, e: nat, t: seq<Byte>, d: nat)
    requires p <= |s| && e == PartEnd(s, p) && t == s[p..] && d == e - p
    ensures d <= |t| && t[..d] == s[p..e] && (d == |t| <==> e == |s|)
    ensures forall k :: 0 <= k < d ==> t[k] != SLASH
    ensures e < |s| ==> t[d] == SLASH && t[d + 1..] == s[e + 1..]
    ensures e == |s| ==> t == s[p..e]
  {
  }

  lemma BeforeEmptyCons(c: seq<Byte>, rest: seq<seq<Byte>>)
    ensures BeforeEmpty([c] + rest) == if c == [] then [] else [c] + BeforeEmpty(rest)
  {
    assert ([c] + rest)[1..] == rest;
  }

  /** For every path and position, the parser's components are those before the first empty
      one of the split. */
  lemma {:induction false} PartsAreSplit(s: seq<Byte>, p: nat)
    requires p <= |s|
    ensures PartsFrom(s, p) == BeforeEmpty(Split(s[p..]))
    decreases |s| - p
  {
    hide *;
    var e := PartEnd(s, p);
    var n := e + 1;
    if e == |s| {
      LastSplit(s, p, e);
    } else {
      FirstSplit(s, p, e, n);
      if p < e { PartsAreSplit(s, n); }
    }
  }

  lemma LastSplit(s: seq<Byte>, p: nat, e: nat)
    requires p <= |s| && e == PartEnd(s, p) == |s|
    ensures PartsFrom(s, p) == BeforeEmpty(Split(s[p..]))
  {
    PartsFromFirst(s, p, e, e);
    SplitAt(s, p, e);
    EndHasNoParts(s);
    hide *;
    BeforeEmptyCons(s[p..e], []);
  }

  lemma FirstSplit(s: seq<Byte>, p: nat, e: nat, n: nat)
    requires p <= |s| && e == PartEnd(s, p) < |s| && n == e + 1
    ensures PartsFrom(s, p) == if e == p then [] else [s[p..e]] + PartsFrom(s, n)
    ensures BeforeEmpty(Split(s[p..])) == if e == p then [] else [s[p..e]] + BeforeEmpty(Split(s[n..]))
  {
    PartsFromFirst(s, p, e, n);
    SplitAt(s, p, e);
    hide *;
    BeforeEmptyCons(s[p..e], Split(s[n..]));
  }

  lemma PartsFromFirst(s: seq<Byte>, p: nat, e: nat, n: nat)
    requires p <= |s| && e == PartEnd(s, p) && n == NextStart(s, e)
    ensures PartsFrom(s, p) == if e == p then [] else [s[p..e]] + PartsFrom(s, n)
    ensures p == e <==> s[p..e] == []
  {
    assert |s[p..e]| == e - p;
  }

  lemma EndHasNoParts(s: seq<Byte>)
    ensures PartsFrom(s, |s|) == BeforeEmpty([]) == []
  {
  }

  /** Every component fits its 108-byte buffer with room for the terminator, is not empty,
      and holds no slash. */
  predicate IsPart(c: seq<Byte>) { c != [] && SLASH !in c }

  lemma {:induction false} PartsWellFormed(s: seq<Byte>, p: nat, i: nat)
    requires p <= |s| && i < |PartsFrom(s, p)|
    ensures IsPart(PartsFrom(s, p)[i]) && |PartsFrom(s, p)[i]| <= |s| - p
    decreases |s| - p
  {
    var e := PartEnd(s, p);
    if i > 0 { PartsWellFormed(s, NextStart(s, e), i - 1); }
  }

  lemma PartsFitBuffers(s: seq<Byte>, i: nat)
    requires Accepted(s) && i < |Parts(s)|
    ensures IsPart(Parts(s)[i]) && |Parts(s)[i]| <= 105
  {
    PartsWellFormed(s, 3, i);
  }

  // --- printing and parsing back ----------------------------------------------------------

  function Joined(cs: seq<seq<Byte>>): seq<Byte> {
    if cs == [] then [] else if |cs| == 1 then cs[0] else cs[0] + [SLASH] + Joined(cs[1..])
  }

  function Printed(drive: Byte, cs: seq<seq<Byte>>): seq<Byte> {
    [drive, COLON, SLASH] + Joined(cs)
  }

  predicate AllParts(cs: seq<seq<Byte>>) { forall i :: 0 <= i < |cs| ==> IsPart(cs[i]) }

  lemma FirstComponentEnds(s: seq<Byte>, p: nat, c: seq<Byte>)
    requires p + |c| <= |s| && s[p..p + |c|] == c && SLASH !in c
    requires p + |c| == |s| || s[p + |c|] == SLASH
    ensures PartEnd(s, p) == p + |c|
    decreases |c|
  {
    if c != [] {
      assert s[p] == c[0];
      assert s[p + 1..p + |c|] == c[1..];
      FirstComponentEnds(s, p + 1, c[1..]);
    }
  }

  /** Parsing a printed list, from any position, gives the list back; a trailing slash
      makes no difference. */
  lemma {:induction false} ParsePrinted(s: seq<Byte>, p: nat, cs: seq<seq<Byte>>, tail: seq<Byte>)
    requires AllParts(cs) && p <= |s| && s[p..] == Joined(cs) + tail
    requires tail == [] || (tail == [SLASH] && cs != [])
    ensures PartsFrom(s, p) == cs
    decreases |cs|
  {
    if cs == [] {
      assert |s[p..]| == 0;
    } else {
      var c, rest := cs[0], cs[1..];
      var j := Joined(cs) + tail;
      if rest == [] {
        assert j == c + tail && cs == [c];
        LastPart(s, p, c, tail);
      } else {
        var after := Joined(rest) + tail;
        assert j == c + ([SLASH] + after) && cs == [c] + rest;
        var n := FirstPart(s, p, c, after);
        ParsePrinted(s, n, rest, tail);
      }
    }
  }

  lemma FirstPart(s: seq<Byte>, p: nat, c: seq<Byte>, after: seq<Byte>) returns (n: nat)
    requires IsPart(c) && p <= |s| && s[p..] == c + ([SLASH] + after)
    ensures n <= |s| && s[n..] == after && PartsFrom(s, p) == [c] + PartsFrom(s, n)
  {
    var e := p + |c|;
    n := e + 1;
    AroundSlash(s, p, c, after);
    FirstComponentEnds(s, p, c);
    assert c != [];
    hide *;
    PartsFromFirst(s, p, e, n);
  }

  lemma AroundSlash(s: seq<Byte>, p: nat, c: seq<Byte>, after: seq<Byte>)
    requires p <= |s| && s[p..] == c + ([SLASH] + after)
    ensures var e := p + |c|;
      e < |s| && s[p..e] == c && s[e] == SLASH && s[e + 1..] == after
  {
    var e, t := p + |c|, s[p..];
    assert |t| == |c| + 1 + |after|;
    assert t[..|c|] == c && t[|c|] == SLASH && t[|c| + 1..] == after;
    assert s[p..e] == t[..|c|] && s[e] == t[|c|] && s[e + 1..] == t[|c| + 1..];
  }

  lemma LastPart(s: seq<Byte>, p: nat, c: seq<Byte>, tail: seq<Byte>)
    requires IsPart(c) && p <= |s| && s[p..] == c + tail && (tail == [] || tail == [SLASH])
    ensures PartsFrom(s, p) == [c]
  {
    var e := p + |c|;
    assert |s[p..]| == |c| + |tail|;
    assert s[p..e] == s[p..][..|c|] == c;
    assert tail != [] ==> s[e] == s[p..][|c|] == SLASH;
    FirstComponentEnds(s, p, c);
    assert PartsFrom(s, |s|) == [];
  }

  /** For every list of components whose printed form is short enough, with or without a
      trailing slash, parsing inverts printing. */
  lemma ParseInvertsPrint(drive: Byte, cs: seq<seq<Byte>>)
    requires IsDigit(drive) && AllParts(cs)
    ensures |Printed(drive, cs)| <= MAX_PATH ==>
      Accepted(Printed(drive, cs)) && Parts(Printed(drive, cs)) == cs
    ensures cs != [] && |Printed(drive, cs)| + 1 <= MAX_PATH ==>
      Accepted(Printed(drive, cs) + [SLASH]) && Parts(Printed(drive, cs) + [SLASH]) == cs
  {
    var s := Printed(drive, cs);
    assert s[3..] == Joined(cs) + [];
    ParsePrinted(s, 3, cs, []);
    if cs != [] {
      var t := s + [SLASH];
      assert t[3..] == Joined(cs) + [SLASH];
      ParsePrinted(t, 3, cs, [SLASH]);
    }
  }
}
