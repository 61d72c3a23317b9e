/** Python's `p in s`, `s.split(p)` and `s.replace(p, r)` for a non-empty pattern `p`:
    the left-to-right, non-overlapping substitution that fills a prompt template. */
module Substitution {
  import opened Text

  /** `p` occurs in `s` starting at index `i`. */
  predicate OccursAt(s: string, p: string, i: int)
  {
    0 <= i && i + |p| <= |s| && s[i..i + |p|] == p
  }

  /** Python's `p in s`. */
  predicate Contains(s: string, p: string)
  {
    exists i :: 0 <= i <= |s| - |p| && OccursAt(s, p, i)
  }

  /** No proper prefix of `p` is also a suffix of `p`, so two occurrences of `p`
      can never overlap and an occurrence cannot start inside a neighbouring piece. */
  predicate Borderless(p: string)
  {
    forall k :: 0 < k < |p| ==> p[..k] != p[|p| - k..]
  }

  /** Python's `s.split(p)`: the pieces between the leftmost non-overlapping
      occurrences of `p`. No piece contains `p`. */
  function SplitOn(s: string, p: string): (parts: seq<string>)
    requires |p| > 0
    ensures |parts| >= 1
    ensures forall k :: 0 <= k < |parts| ==> !Contains(parts[k], p)
    ensures parts[0] <= s
    decreases |s|
  {
    if |s| < |p| then [s]
    else if s[..|p|] == p then [[]] + SplitOn(s[|p|..], p)
    else
      var rest := SplitOn(s[1..], p);
      ExtendFreePiece(s, p, rest[0]);
      [[s[0]] + rest[0]] + rest[1..]
  }

  /** Extending a `p`-free prefix of `s[1..]` by `s[0]` keeps it `p`-free when `s`
      does not start with `p`. */
  lemma ExtendFreePiece(s: string, p: string, piece: string)
    requires |p| > 0 && |s| >= |p| && s[..|p|] != p
    requires piece <= s[1..] && !Contains(piece, p)
    ensures !Contains([s[0]] + piece, p)
  {
    var x := [s[0]] + piece;
    assert x <= s;
    forall i | 0 <= i <= |x| - |p|
      ensures !OccursAt(x, p, i)
    {
      if i == 0 {
        assert x[..|p|] == s[..|p|];
      } else {
        assert x[i..i + |p|] == piece[i - 1..i - 1 + |p|];
        assert !OccursAt(piece, p, i - 1);
      }
    }
  }

  /** Python's `s.replace(p, r)`. */
  function Replace(s: string, p: string, r: string): string
    requires |p| > 0
    decreases |s|
  {
    if |s| < |p| then s
    else if s[..|p|] == p then r + Replace(s[|p|..], p, r)
    else [s[0]] + Replace(s[1..], p, r)
  }

  /** Splitting on `p` and joining with `p` gives back the string. */
  lemma {:induction false} JoinSplitOn(s: string, p: string)
    requires |p| > 0
    ensures Join(SplitOn(s, p), p) == s
    decreases |s|
  {
    if |s| >= |p| {
      if s[..|p|] == p {
        var rest := SplitOn(s[|p|..], p);
        JoinSplitOn(s[|p|..], p);
        assert ([[]] + rest)[1..] == rest;
        assert s == s[..|p|] + s[|p|..];
      } else {
        var rest := SplitOn(s[1..], p);
        JoinSplitOn(s[1..], p);
        JoinCons(s[0], rest, p);
        assert s == [s[0]] + s[1..];
      }
    }
  }

  /** `s.replace(p, r)` is `r.join(s.split(p))`: every occurrence `split` cuts at is
      replaced by `r` and the pieces between them are kept as they are. */
  lemma {:induction false} ReplaceJoinsPieces(s: string, p: string, r: string)
    requires |p| > 0
    ensures Replace(s, p, r) == Join(SplitOn(s, p), r)
    decreases |s|
  {
    if |s| >= |p| {
      if s[..|p|] == p {
        var rest := SplitOn(s[|p|..], p);
        ReplaceJoinsPieces(s[|p|..], p, r);
        assert ([[]] + rest)[1..] == rest;
      } else {
        var rest := SplitOn(s[1..], p);
        ReplaceJoinsPieces(s[1..], p, r);
        JoinCons(s[0], rest, r);
      }
    }
  }

  /** Joining after extending the first piece extends the joined string. */
  lemma JoinCons(c: char, parts: seq<string>, sep: string)
    requires |parts| >= 1
    ensures Join([[c] + parts[0]] + parts[1..], sep) == [c] + Join(parts, sep)
  {
    var q := [[c] + parts[0]] + parts[1..];
    if |parts| > 1 {
      assert q[1..] == parts[1..];
    }
  }

  /** A string free of `p` is split into itself alone. */
  lemma {:induction false} SplitOnAbsent(s: string, p: string)
    requires |p| > 0 && !Contains(s, p)
    ensures SplitOn(s, p) == [s]
    decreases |s|
  {
    if |s| >= |p| {
      assert !OccursAt(s, p, 0);
      ShorterFree(s, p);
      SplitOnAbsent(s[1..], p);
      assert s == [s[0]] + s[1..];
    }
  }

  /** Dropping the first character of a `p`-free string keeps it `p`-free. */
  lemma ShorterFree(s: string, p: string)
    requires s != [] && !Contains(s, p)
    ensures !Contains(s[1..], p)
  {
    forall i | 0 <= i <= |s[1..]| - |p|
      ensures !OccursAt(s[1..], p, i)
    {
      assert s[1..][i..i + |p|] == s[i + 1..i + 1 + |p|];
      assert !OccursAt(s, p, i + 1);
    }
  }

  /** With a borderless `p`, the first occurrence in `a + p + b` for a `p`-free `a` is
      the one right after `a`. */
  lemma {:induction false} SplitOnLead(a: string, p: string, b: string)
    requires |p| > 0 && Borderless(p) && !Contains(a, p)
    ensures SplitOn(a + p + b, p) == [a] + SplitOn(b, p)
    decreases |a|
  {
    var s := a + p + b;
    if a == [] {
      assert s == p + b;
      assert s[..|p|] == p && s[|p|..] == b;
    } else {
      if |a| >= |p| {
        assert !OccursAt(a, p, 0);
        assert a[..|p|] == s[..|p|];
      } else {
        var k := |p| - |a|;
        assert p[..k] != p[|p| - k..];
        assert s[..|p|][|a|..] == p[..k];
      }
      assert s[..|p|] != p;
      ShorterFree(a, p);
      assert s[1..] == a[1..] + p + b;
      SplitOnLead(a[1..], p, b);
      assert a == [a[0]] + a[1..];
    }
  }

  /** With a borderless separator, splitting undoes joining `p`-free pieces. */
  lemma {:induction false} SplitOnJoin(parts: seq<string>, p: string)
    requires |p| > 0 && Borderless(p) && |parts| >= 1
    requires forall k :: 0 <= k < |parts| ==> !Contains(parts[k], p)
    ensures SplitOn(Join(parts, p), p) == parts
  {
    if |parts| == 1 {
      SplitOnAbsent(parts[0], p);
    } else {
      SplitOnLead(parts[0], p, Join(parts[1..], p));
      SplitOnJoin(parts[1..], p);
      assert parts == [parts[0]] + parts[1..];
    }
  }

  /** Filling the pattern's holes: the text between the holes is kept and every hole
      receives `r`. */
  lemma ReplaceFillsHoles(parts: seq<string>, p: string, r: string)
    requires |p| > 0 && Borderless(p) && |parts| >= 1
    requires forall k :: 0 <= k < |parts| ==> !Contains(parts[k], p)
    ensures Replace(Join(parts, p), p, r) == Join(parts, r)
  {
    ReplaceJoinsPieces(Join(parts, p), p, r);
    SplitOnJoin(parts, p);
  }
}
