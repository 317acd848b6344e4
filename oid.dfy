/** Object identifiers as the tools handle them: dotted text taken apart with
    Python's `str.split('.')` and put back together with `'.'.join(...)`, and
    the two suffixes the tools cut from it (the table index and the last four
    sub-identifiers, an IPv4 address in the neighbour table).

    The two suffixes are defined as slices of the text, at a position found
    by scanning back over the dots; lemmas prove each equal to the
    split-and-join expression the tools write. */
module Oid {

  predicate DotFree(s: string) {
    '.' !in s
  }

  predicate IsSuffix(t: string, s: string) {
    |t| <= |s| && s[|s| - |t|..] == t
  }

  predicate AllDotFree(parts: seq<string>) {
    forall k :: 0 <= k < |parts| ==> DotFree(parts[k])
  }

  /** Position of the last dot of `s`, or -1 when it has none. */
  function LastDot(s: string): (d: int)
    ensures -1 <= d < |s|
    ensures d >= 0 ==> s[d] == '.'
    ensures forall j :: d < j < |s| ==> s[j] != '.'
    decreases |s|
  {
    if |s| == 0 then -1
    else if s[|s| - 1] == '.' then |s| - 1
    else LastDot(s[..|s| - 1])
  }

  /** `s.split('.')`: the pieces between the dots of `s`, in order, taken here
      from the right (for a one-character separator that is the same list).
      There is always at least one piece; a leading, trailing or doubled dot
      gives an empty piece. */
  function Split(s: string): (parts: seq<string>)
    ensures |parts| >= 1
    decreases |s|
  {
    var d := LastDot(s);
    if d < 0 then [s] else Split(s[..d]) + [s[d + 1..]]
  }

  /** `'.'.join(parts)`: the pieces with one dot between neighbours. */
  function Join(parts: seq<string>): string
  {
    if |parts| == 0 then ""
    else if |parts| == 1 then parts[0]
    else Join(parts[..|parts| - 1]) + "." + parts[|parts| - 1]
  }

  /** Text after a position past which there are no dots is dot-free. */
  lemma NoDotAfter(s: string, k: nat)
    requires k <= |s|
    requires forall j :: k <= j < |s| ==> s[j] != '.'
    ensures DotFree(s[k..])
  {
    forall j | 0 <= j < |s[k..]| ensures s[k..][j] != '.' {
      assert s[k..][j] == s[k + j];
    }
  }

  /** Text has no dot exactly when it has no last dot. */
  lemma DotFreeNoLastDot(s: string)
    ensures DotFree(s) <==> LastDot(s) < 0
  {
    if LastDot(s) < 0 {
      NoDotAfter(s, 0);
      assert s[0..] == s;
    } else {
      assert s[LastDot(s)] in s;
    }
  }

  /** No piece of a split contains the separator. */
  lemma {:induction false} SplitDotFree(s: string)
    ensures AllDotFree(Split(s))
    decreases |s|
  {
    var d := LastDot(s);
    if d < 0 {
      DotFreeNoLastDot(s);
    } else {
      SplitDotFree(s[..d]);
      NoDotAfter(s, d + 1);
      var p, q := Split(s[..d]), s[d + 1..];
      forall k | 0 <= k < |p| + 1 ensures DotFree((p + [q])[k]) {
        if k < |p| { assert (p + [q])[k] == p[k]; }
      }
    }
  }

  /** Joining one more piece: the join so far, a dot, the new piece. */
  lemma JoinSnoc(parts: seq<string>, q: string)
    requires |parts| >= 1
    ensures Join(parts + [q]) == Join(parts) + "." + q
  {
    assert (parts + [q])[..|parts|] == parts;
  }

  /** Joining the pieces of a split gives back the text. */
  lemma {:induction false} JoinSplit(s: string)
    ensures Join(Split(s)) == s
    decreases |s|
  {
    var d := LastDot(s);
    if d >= 0 {
      JoinSplit(s[..d]);
      JoinSnoc(Split(s[..d]), s[d + 1..]);
      assert s == s[..d] + "." + s[d + 1..];
    }
  }

  /** In front of a dot-free tail, the dot is the last one. */
  lemma LastDotBeforeTail(x: string, q: string)
    requires DotFree(q)
    ensures LastDot(x + "." + q) == |x|
  {
    var s := x + "." + q;
    var d := LastDot(s);
    assert s[|x|] == '.';
  }

  /** Splitting text that ends in a dot and a dot-free piece gives the split
      of what comes before, then that piece. */
  lemma SplitSnoc(x: string, q: string)
    requires DotFree(q)
    ensures Split(x + "." + q) == Split(x) + [q]
  {
    var s := x + "." + q;
    LastDotBeforeTail(x, q);
    assert s[..|x|] == x && s[|x| + 1..] == q;
  }

  /** Splitting joined dot-free pieces gives back the pieces. */
  lemma {:induction false} SplitJoin(parts: seq<string>)
    requires |parts| >= 1 && AllDotFree(parts)
    ensures Split(Join(parts)) == parts
    decreases |parts|
  {
    if |parts| == 1 {
      assert DotFree(parts[0]);
      DotFreeNoLastDot(parts[0]);
    } else {
      var init, q := parts[..|parts| - 1], parts[|parts| - 1];
      assert parts == init + [q];
      assert DotFree(q);
      assert AllDotFree(init) by {
        forall k | 0 <= k < |init| ensures DotFree(init[k]) { assert init[k] == parts[k]; }
      }
      SplitJoin(init);
      JoinSnoc(init, q);
      SplitSnoc(Join(init), q);
    }
  }

  /** Where the last `n` pieces of `s` begin: just after the `n`-th dot from
      the right, or at 0 when `s` has at most `n` pieces. */
  function TailStart(s: string, n: nat): (t: nat)
    requires n >= 1
    ensures t <= |s|
    ensures t == 0 || s[t - 1] == '.'
    decreases n
  {
    var d := LastDot(s);
    if d < 0 then 0
    else if n == 1 then d + 1
    else TailStart(s[..d], n - 1)
  }

  /** Python's `parts[-n:]` for `n >= 1` (for `n == 0` Python returns the
      whole list): the last `n` pieces, all of them when fewer. */
  function LastPieces(parts: seq<string>, n: nat): (tail: seq<string>)
    requires n >= 1
  {
    if |parts| <= n then parts else parts[|parts| - n..]
  }

  /** The last `n` pieces are a suffix of the pieces, `n` long or the whole
      list. */
  lemma LastPiecesShape(parts: seq<string>, n: nat)
    requires n >= 1
    ensures |LastPieces(parts, n)| == if |parts| <= n then |parts| else n
    ensures parts[|parts| - |LastPieces(parts, n)|..] == LastPieces(parts, n)
  {
    if |parts| <= n {
      assert parts[0..] == parts;
    }
  }

  lemma LastPiecesSnoc(p: seq<string>, q: string, n: nat)
    requires n >= 2 && |p| >= 1
    ensures LastPieces(p + [q], n) == LastPieces(p, n - 1) + [q]
    ensures |LastPieces(p, n - 1)| >= 1
  {
    if |p| + 1 > n {
      assert (p + [q])[|p| + 1 - n..] == p[|p| - (n - 1)..] + [q];
    }
  }

  /** A slice starting before the last dot runs over that dot. */
  lemma SliceOverLastDot(s: string, t: nat)
    requires 0 <= t <= LastDot(s)
    ensures s[t..] == s[..LastDot(s)][t..] + "." + s[LastDot(s) + 1..]
  {
    var d := LastDot(s);
    assert s[t..] == s[t..d] + s[d..];
    assert s[d..] == [s[d]] + s[d + 1..];
  }

  /** The slice at `TailStart(s, n)` is the join of the last `n` pieces. */
  lemma {:induction false} TailStartIsJoin(s: string, n: nat)
    requires n >= 1
    ensures s[TailStart(s, n)..] == Join(LastPieces(Split(s), n))
    decreases n, 1
  {
    if LastDot(s) < 0 {
      TailNoDot(s, n);
    } else if n == 1 {
      TailOne(s);
    } else {
      TailStep(s, n);
    }
  }

  lemma TailNoDot(s: string, n: nat)
    requires n >= 1 && LastDot(s) < 0
    ensures s[TailStart(s, n)..] == Join(LastPieces(Split(s), n))
  {
    assert s[0..] == s;
  }

  lemma TailOne(s: string)
    requires LastDot(s) >= 0
    ensures s[TailStart(s, 1)..] == Join(LastPieces(Split(s), 1))
  {
  }

  /** The step case: the last `n` pieces are the last `n - 1` pieces of what
      precedes the last dot, then the piece after it. */
  lemma {:induction false} TailStep(s: string, n: nat)
    requires n >= 2 && LastDot(s) >= 0
    ensures s[TailStart(s, n)..] == Join(LastPieces(Split(s), n))
    decreases n, 0
  {
    var d := LastDot(s);
    var a, q := s[..d], s[d + 1..];
    TailStartIsJoin(a, n - 1);
    assert Split(s) == Split(a) + [q];
    assert TailStart(s, n) == TailStart(a, n - 1);
    LastPiecesSnoc(Split(a), q, n);
    JoinSnoc(LastPieces(Split(a), n - 1), q);
    SliceOverLastDot(s, TailStart(a, n - 1));
  }

  /** `oid.split('.')[-1]`: the table index, the text after the last dot
      (the whole text when there is none). */
  function LastComponent(oid: string): (idx: string)
    ensures DotFree(idx)
    ensures IsSuffix(idx, oid)
    ensures !DotFree(oid) ==> |idx| < |oid| && oid[|oid| - |idx| - 1] == '.'
    ensures DotFree(oid) ==> idx == oid
  {
    var d := LastDot(oid);
    NoDotAfter(oid, d + 1);
    DotFreeNoLastDot(oid);
    assert d < 0 ==> oid[0..] == oid;
    oid[d + 1..]
  }

  /** The index is exactly the last piece of `oid.split('.')`. */
  lemma LastComponentIsLastPiece(oid: string)
    ensures LastComponent(oid) == Split(oid)[|Split(oid)| - 1]
  {
  }

  /** `'.'.join(oid.split('.')[-4:])`: the text of the last four pieces, or
      all of it when there are fewer. */
  function LastFour(oid: string): (ip: string)
    ensures IsSuffix(ip, oid)
    ensures ip == oid || oid[|oid| - |ip| - 1] == '.'
  {
    oid[TailStart(oid, 4)..]
  }

  /** The address is exactly the join of the last four pieces of the split. */
  lemma LastFourIsJoin(oid: string)
    ensures LastFour(oid) == Join(LastPieces(Split(oid), 4))
  {
    TailStartIsJoin(oid, 4);
  }

  /** An OID of at most four pieces is its own address. */
  lemma ShortOidIsAddress(oid: string)
    requires |Split(oid)| <= 4
    ensures LastFour(oid) == oid
  {
    LastFourIsJoin(oid);
    JoinSplit(oid);
  }

  /** The last four pieces of a split are dot-free. */
  lemma LastFourDotFree(oid: string)
    requires |Split(oid)| >= 4
    ensures LastPieces(Split(oid), 4) == Split(oid)[|Split(oid)| - 4..]
    ensures AllDotFree(Split(oid)[|Split(oid)| - 4..])
  {
    var parts := Split(oid);
    var tail := parts[|parts| - 4..];
    SplitDotFree(oid);
    forall i | 0 <= i < |tail| ensures DotFree(tail[i]) {
      assert tail[i] == parts[|parts| - 4 + i];
    }
  }

  /** A longer OID gives the text whose pieces are exactly its last four. */
  lemma LastFourPieces(oid: string)
    requires |Split(oid)| >= 4
    ensures Split(LastFour(oid)) == Split(oid)[|Split(oid)| - 4..]
  {
    LastFourIsJoin(oid);
    LastFourDotFree(oid);
    SplitJoin(Split(oid)[|Split(oid)| - 4..]);
  }
}
