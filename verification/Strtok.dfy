/** strtok: splitting a string in place, with the position saved between calls. */
module Strtok {
  import opened Words

  predicate IsDelim(ds: seq<Byte>, c: Byte) { c in ds }

  /** First index from p on that is not a delimiter, or the end. */
  function SkipDelims(s: seq<Byte>, ds: seq<Byte>, p: nat): (q: nat)
    requires p <= |s|
    ensures p <= q <= |s|
    ensures forall k :: p <= k < q ==> IsDelim(ds, s[k])
    ensures q < |s| ==> !IsDelim(ds, s[q])
    decreases |s| - p
  {
    if p < |s| && IsDelim(ds, s[p]) then SkipDelims(s, ds, p + 1) else p
  }

  /** First index from p on that is a delimiter, or the end. */
  function TokenEnd(s: seq<Byte>, ds: seq<Byte>, p: nat): (e: nat)
    requires p <= |s|
    ensures p <= e <= |s|
    ensures forall k :: p <= k < e ==> !IsDelim(ds, s[k])
    ensures e < |s| ==> IsDelim(ds, s[e])
    decreases |s| - p
  {
    if p < |s| && !IsDelim(ds, s[p]) then TokenEnd(s, ds, p + 1) else p
  }

  function After(s: seq<Byte>, e: nat): nat
    requires e <= |s|
  {
    if e < |s| then e + 1 else e
  }

  datatype Token = Token(start: nat, end: nat)

  /** The tokens found from index p on, in order. */
  function Tokens(s: seq<Byte>, ds: seq<Byte>, p: nat): (ts: seq<Token>)
    requires p <= |s|
    decreases |s| - p
  {
    var q := SkipDelims(s, ds, p);
    if q == |s| then []
    else
      var e := TokenEnd(s, ds, q);
      [Token(q, e)] + Tokens(s, ds, After(s, e))
  }

  // --- tokens are the maximal delimiter-free substrings -----------------------------------

  /** s[start..end] is non-empty, free of delimiters, and cannot be extended. */
  predicate IsMaximal(s: seq<Byte>, ds: seq<Byte>, t: Token) {
    && t.start < t.end <= |s|
    && (forall k :: t.start <= k < t.end ==> s[k] !in ds)
    && (t.start > 0 ==> s[t.start - 1] in ds)
    && (t.end < |s| ==> s[t.end] in ds)
  }

  /** A place where scanning can begin without cutting a token. */
  predicate IsBoundary(s: seq<Byte>, ds: seq<Byte>, p: nat) {
    p <= |s| && (p == 0 || p == |s| || s[p - 1] in ds)
  }

  lemma {:induction false} TokensSound(s: seq<Byte>, ds: seq<Byte>, p: nat, i: nat)
    requires IsBoundary(s, ds, p) && i < |Tokens(s, ds, p)|
    ensures IsMaximal(s, ds, Tokens(s, ds, p)[i]) && p <= Tokens(s, ds, p)[i].start
    decreases |s| - p
  {
    var q := SkipDelims(s, ds, p);
    var e := TokenEnd(s, ds, q);
    if i == 0 {
      assert Tokens(s, ds, p)[0] == Token(q, e);
      assert q > p ==> IsDelim(ds, s[q - 1]);
    } else {
      TokensSound(s, ds, After(s, e), i - 1);
      assert Tokens(s, ds, p)[i] == Tokens(s, ds, After(s, e))[i - 1];
    }
  }

  lemma {:induction false} TokensComplete(s: seq<Byte>, ds: seq<Byte>, p: nat, t: Token)
    requires IsBoundary(s, ds, p) && IsMaximal(s, ds, t) && p <= t.start
    ensures t in Tokens(s, ds, p)
    decreases |s| - p
  {
    var q := SkipDelims(s, ds, p);
    assert !IsDelim(ds, s[t.start]);
    var e := TokenEnd(s, ds, q);
    if t.start == q {
      assert e == t.end;
      assert Tokens(s, ds, p)[0] == t;
    } else {
      assert t.start > e by { assert IsDelim(ds, s[t.start - 1]); }
      TokensComplete(s, ds, After(s, e), t);
      var i :| 0 <= i < |Tokens(s, ds, After(s, e))| && Tokens(s, ds, After(s, e))[i] == t;
      assert Tokens(s, ds, p)[i + 1] == t;
    }
  }

  lemma {:induction false} TokensOrdered(s: seq<Byte>, ds: seq<Byte>, p: nat, i: nat, j: nat)
    requires IsBoundary(s, ds, p) && i < j < |Tokens(s, ds, p)|
    ensures Tokens(s, ds, p)[i].end < Tokens(s, ds, p)[j].start
    decreases |s| - p
  {
    var e := TokenEnd(s, ds, SkipDelims(s, ds, p));
    var rest := Tokens(s, ds, After(s, e));
    assert Tokens(s, ds, p)[j] == rest[j - 1];
    if i == 0 {
      TokensSound(s, ds, After(s, e), j - 1);
      assert rest[j - 1].start < |s|;
    } else {
      TokensOrdered(s, ds, After(s, e), i - 1, j - 1);
      assert Tokens(s, ds, p)[i] == rest[i - 1];
    }
  }

  /** A substring is a token exactly when it is a maximal delimiter-free one, and the tokens
      come in the order they stand in. */
  lemma TokensAreMaximal(s: seq<Byte>, ds: seq<Byte>)
    ensures forall t :: t in Tokens(s, ds, 0) <==> IsMaximal(s, ds, t)
    ensures forall i, j :: 0 <= i < j < |Tokens(s, ds, 0)| ==>
      Tokens(s, ds, 0)[i].end < Tokens(s, ds, 0)[j].start
  {
    forall t ensures t in Tokens(s, ds, 0) <==> IsMaximal(s, ds, t) {
      if t in Tokens(s, ds, 0) {
        var i :| 0 <= i < |Tokens(s, ds, 0)| && Tokens(s, ds, 0)[i] == t;
        TokensSound(s, ds, 0, i);
      }
      if IsMaximal(s, ds, t) { TokensComplete(s, ds, 0, t); }
    }
    forall i, j | 0 <= i < j < |Tokens(s, ds, 0)|
      ensures Tokens(s, ds, 0)[i].end < Tokens(s, ds, 0)[j].start
    {
      TokensOrdered(s, ds, 0, i, j);
    }
  }

  // --- in place ------------------------------------------------------------------------------

  /** The buffer still holds string s from index p on, with its terminator. */
  predicate HoldsFrom(b: seq<Byte>, s: seq<Byte>, p: nat) {
    && p <= |s| < |b| && b[|s|] == 0
    && forall k :: p <= k < |s| ==> b[k] == s[k]
  }

  predicate IsString(s: seq<Byte>) { forall k :: 0 <= k < |s| ==> s[k] != 0 }

  class Tokenizer {
    const buf: array<Byte>

    /** The saved position; -1 is the null pointer. */
    var sp: int

    constructor (buf: array<Byte>)
      ensures this.buf == buf && sp == -1
    {
      this.buf := buf;
      sp := -1;
    }

    /** Skip delimiters, one outer round per character. */
    method Skip(p: nat, ds: seq<Byte>, ghost s: seq<Byte>) returns (q: nat)
      requires IsString(s) && HoldsFrom(buf[..], s, p) && 0 !in ds
      ensures q == SkipDelims(s, ds, p)
    {
      q := p;
      while true
        invariant p <= q <= |s| && SkipDelims(s, ds, p) == SkipDelims(s, ds, q)
        decreases |s| - q
      {
        var i := FindDelim(buf[q], ds);
        if i == |ds| { return; }
        assert q < |s|;
        q := q + 1;
      }
    }

    /** Index of the first delimiter equal to c, or their number. */
    method FindDelim(c: Byte, ds: seq<Byte>) returns (i: nat)
      ensures i <= |ds| && (i < |ds| <==> IsDelim(ds, c))
    {
      i := 0;
      while i < |ds|
        invariant 0 <= i <= |ds| && forall k :: 0 <= k < i ==> ds[k] != c
      {
        if ds[i] == c { return; }
        i := i + 1;
      }
    }

    /** Find the end of the token at q, cut it off, and save the position after it. */
    method CutToken(q: nat, ds: seq<Byte>, ghost s: seq<Byte>)
      requires IsString(s) && HoldsFrom(buf[..], s, q) && 0 !in ds && q < |s| && sp == q
      requires !IsDelim(ds, s[q])
      modifies this, buf
      ensures sp == After(s, TokenEnd(s, ds, q))
      ensures buf[..] == old(buf[..])[TokenEnd(s, ds, q) := 0]
    {
      ghost var e := TokenEnd(s, ds, q);
      ghost var b := buf[..];
      ghost var p: nat := q;
      while buf[sp] != 0
        invariant sp == p && q <= p <= e && buf[..] == b
        invariant TokenEnd(s, ds, p) == e
        decreases |s| - p
      {
        var i := FindDelim(buf[sp], ds);
        if i < |ds| {
          buf[sp] := 0;
          sp := sp + 1;
          assert p == e;
          return;
        }
        sp := sp + 1;
        p := p + 1;
      }
      assert p == |s|;
      assert buf[..] == b[e := 0];
    }

    /** strtok. A string is only looked at when no position is saved. */
    method Strtok(str: int, ds: seq<Byte>, ghost s: seq<Byte>) returns (t: int)
      requires 0 !in ds && IsString(s)
      requires sp >= 0 ==> HoldsFrom(buf[..], s, sp)
      requires sp < 0 && str >= 0 ==> HoldsFrom(buf[..], s, str)
      modifies this, buf
      ensures var p := if old(sp) >= 0 then old(sp) else str;
        if p < 0 then t == -1 && sp == old(sp) && buf[..] == old(buf[..])
        else
          var q := SkipDelims(s, ds, p);
          if q == |s| then t == -1 && sp == -1 && buf[..] == old(buf[..])
          else
            && t == q && sp == After(s, TokenEnd(s, ds, q))
            && buf[..] == old(buf[..])[TokenEnd(s, ds, q) := 0]
            && HoldsFrom(buf[..], s, sp)
    {
      if str < 0 && sp < 0 { return -1; }
      if str >= 0 && sp < 0 { sp := str; }
      var start := Skip(sp, ds, s);
      sp := start;
      if buf[sp] == 0 {
        sp := -1;
        return -1;
      }
      CutToken(start, ds, s);
      t := start;
    }

    /** The usual calling sequence: the string once, then NULL until NULL comes back. It
        yields every token once, each still terminated and intact at the end. */
    method SplitAll(ds: seq<Byte>, ghost s: seq<Byte>) returns (starts: seq<nat>)
      requires 0 !in ds && IsString(s) && sp == -1 && HoldsFrom(buf[..], s, 0)
      modifies this, buf
      ensures sp == -1 && |starts| == |Tokens(s, ds, 0)|
      ensures forall i :: 0 <= i < |starts| ==>
        starts[i] == Tokens(s, ds, 0)[i].start && Intact(buf[..], s, Tokens(s, ds, 0)[i])
      ensures buf[|s| + 1..] == old(buf[|s| + 1..])
    {
      hide *;
      starts := [];
      ghost var found: seq<Token>, p: nat := [], 0;
      ghost var all := Tokens(s, ds, 0);
      ghost var rest := SplitBegins(buf[..], s, ds);
      var t := CallStrtok(0, ds, s, starts, found, p, all, rest);
      while t >= 0
        invariant Splitting(buf[..], s, ds, starts, found, p, t, sp, all, rest)
        decreases if t >= 0 then |s| - p + 1 else 0
      {
        ghost var token, next := NextToken(buf[..], s, ds, starts, found, p, t, sp, all, rest);
        starts := starts + [t];
        found := found + [token];
        p := next;
        t := CallStrtok(-1, ds, s, starts, found, p, all, rest);
      }
      NoMoreTokens(buf[..], s, ds, starts, found, p, t, sp, all, rest);
    }

    /** One call of the sequence, with what was found before it. */
    method CallStrtok(str: int, ds: seq<Byte>, ghost s: seq<Byte>, ghost starts: seq<nat>,
                      ghost found: seq<Token>, ghost p: nat, ghost all: seq<Token>, ghost rest: seq<Byte>)
      returns (t: int)
      requires 0 !in ds && IsString(s) && HoldsFrom(buf[..], s, p) && IsBoundary(s, ds, p)
      requires p == if sp >= 0 then sp else str
      requires found + Tokens(s, ds, p) == all && Recorded(buf[..], s, starts, found, p)
      requires |s| < buf.Length && buf[|s| + 1..] == rest
      modifies this, buf
      ensures Splitting(buf[..], s, ds, starts, found, p, t, sp, all, rest)
    {
      assert p <= |s|;
      hide *;
      ghost var before := buf[..];
      t := Strtok(str, ds, s);
      CallEffect(before, buf[..], s, ds, starts, found, p, t, sp, rest);
      SplittingStart(buf[..], s, ds, starts, found, p, t, sp, all, rest);
    }
  }

  lemma SplitBegins(b: seq<Byte>, s: seq<Byte>, ds: seq<Byte>) returns (rest: seq<Byte>)
    requires HoldsFrom(b, s, 0)
    ensures |s| < |b| && rest == b[|s| + 1..] && IsBoundary(s, ds, 0)
    ensures [] + Tokens(s, ds, 0) == Tokens(s, ds, 0) && Recorded(b, s, [], [], 0)
  {
    rest := b[|s| + 1..];
  }

  /** State of the split after a call that began at p. */
  ghost predicate Splitting(b: seq<Byte>, s: seq<Byte>, ds: seq<Byte>, starts: seq<nat>, found: seq<Token>,
                            p: nat, t: int, sp: int, all: seq<Token>, rest: seq<Byte>)
  {
    && |s| < |b| && IsBoundary(s, ds, p) && Called(b, s, ds, p, t, sp)
    && found + Tokens(s, ds, p) == all && Recorded(b, s, starts, found, p)
    && b[|s| + 1..] == rest
  }

  lemma SplittingStart(b: seq<Byte>, s: seq<Byte>, ds: seq<Byte>, starts: seq<nat>, found: seq<Token>,
                       p: nat, t: int, sp: int, all: seq<Token>, rest: seq<Byte>)
    requires |s| < |b| && IsBoundary(s, ds, p) && Called(b, s, ds, p, t, sp)
    requires found + Tokens(s, ds, p) == all && Recorded(b, s, starts, found, p) && b[|s| + 1..] == rest
    ensures Splitting(b, s, ds, starts, found, p, t, sp, all, rest)
  {
  }

  /** The token's text stands in the buffer, followed by a terminator. */
  predicate Intact(b: seq<Byte>, s: seq<Byte>, t: Token) {
    && t.start <= t.end < |b| && t.end <= |s|
    && (forall k :: t.start <= k < t.end ==> b[k] == s[k]) && b[t.end] == 0
  }

  /** What a call that began at p returned and left behind. */
  predicate Called(b: seq<Byte>, s: seq<Byte>, ds: seq<Byte>, p: nat, t: int, sp: int)
    requires p <= |s|
  {
    var q := SkipDelims(s, ds, p);
    if q == |s| then t == -1 && sp == -1
    else
      && t == q && sp == After(s, TokenEnd(s, ds, q)) && HoldsFrom(b, s, sp)
      && Intact(b, s, Token(q, TokenEnd(s, ds, q)))
  }

  /** The tokens recorded so far lie before p and are all intact. */
  predicate Recorded(b: seq<Byte>, s: seq<Byte>, starts: seq<nat>, found: seq<Token>, p: nat) {
    && |starts| == |found|
    && forall i :: 0 <= i < |found| ==>
         found[i].start == starts[i] && found[i].end <= p && Intact(b, s, found[i])
  }

  /** A call's one store ends the token it returns, past everything recorded. */
  lemma CallEffect(before: seq<Byte>, after: seq<Byte>, s: seq<Byte>, ds: seq<Byte>, starts: seq<nat>,
                   found: seq<Token>, p: nat, t: int, sp: int, rest: seq<Byte>)
    requires HoldsFrom(before, s, p) && Recorded(before, s, starts, found, p) && before[|s| + 1..] == rest
    requires var q := SkipDelims(s, ds, p);
      if q == |s| then t == -1 && sp == -1 && after == before
      else
        && t == q && sp == After(s, TokenEnd(s, ds, q))
        && after == before[TokenEnd(s, ds, q) := 0] && HoldsFrom(after, s, sp)
    ensures Called(after, s, ds, p, t, sp) && Recorded(after, s, starts, found, p)
    ensures |after| == |before| && |s| < |after| && after[|s| + 1..] == rest
  {
    var q := SkipDelims(s, ds, p);
    if q < |s| { assert q < TokenEnd(s, ds, q); }
  }

  /** The token just returned joins the record. */
  lemma NextToken(b: seq<Byte>, s: seq<Byte>, ds: seq<Byte>, starts: seq<nat>, found: seq<Token>, p: nat,
                  t: int, sp: int, all: seq<Token>, rest: seq<Byte>)
    returns (token: Token, next: nat)
    requires Splitting(b, s, ds, starts, found, p, t, sp, all, rest) && t >= 0
    ensures p <= |s| < |b| && p < next <= |s| && sp == next && HoldsFrom(b, s, sp) && IsBoundary(s, ds, next)
    ensures (found + [token]) + Tokens(s, ds, next) == all
    ensures Recorded(b, s, starts + [t], found + [token], next) && b[|s| + 1..] == rest
  {
    token := Token(t, TokenEnd(s, ds, t));
    next := After(s, token.end);
    assert t < token.end;
    assert Tokens(s, ds, p) == [token] + Tokens(s, ds, next);
    assert (found + [token]) + Tokens(s, ds, next) == found + Tokens(s, ds, p);
  }

  lemma NoMoreTokens(b: seq<Byte>, s: seq<Byte>, ds: seq<Byte>, starts: seq<nat>, found: seq<Token>, p: nat,
                     t: int, sp: int, all: seq<Token>, rest: seq<Byte>)
    requires Splitting(b, s, ds, starts, found, p, t, sp, all, rest) && t < 0
    ensures found == all && sp == -1 && |starts| == |all| && |s| < |b| && b[|s| + 1..] == rest
    ensures forall i :: 0 <= i < |starts| ==> starts[i] == all[i].start && Intact(b, s, all[i])
  {
    assert Tokens(s, ds, p) == [];
  }
}
