/** The string built-ins the core relies on, written out: `str.strip()`,
    `str.split(c)` for a one-character separator, `sep.join(parts)`, `str(n)` for a
    non-negative integer, `int(digits)`, ASCII `str.lower()`, `str.endswith` and the
    lexicographic order Python uses to compare strings. */
module Text {

  /** Python's `str.isspace()`: the characters `strip()` removes and `\s` matches. */
  predicate IsSpace(c: char)
  {
    c == ' ' || ('\t' <= c <= '\r') || ('\U{1C}' <= c <= '\U{1F}')
    || c == '\U{85}' || c == '\U{A0}' || c == '\U{1680}'
    || ('\U{2000}' <= c <= '\U{200A}') || c == '\U{2028}' || c == '\U{2029}'
    || c == '\U{202F}' || c == '\U{205F}' || c == '\U{3000}'
  }

  predicate AllSpace(s: string)
  {
    forall i :: 0 <= i < |s| ==> IsSpace(s[i])
  }

  /** `s.lstrip()`: the suffix of `s` left after its leading white space. */
  function TrimLeft(s: string): (r: string)
    ensures |r| <= |s| && r == s[|s| - |r|..]
    ensures AllSpace(s[..|s| - |r|])
    ensures r == [] || !IsSpace(r[0])
  {
    if s != [] && IsSpace(s[0]) then
      var r := TrimLeft(s[1..]);
      TrimLeftStep(s, r);
      r
    else s
  }

  lemma TrimLeftStep(s: string, r: string)
    requires s != [] && IsSpace(s[0]) && |r| <= |s| - 1
    requires r == s[1..][|s| - 1 - |r|..] && AllSpace(s[1..][..|s| - 1 - |r|])
    ensures r == s[|s| - |r|..] && AllSpace(s[..|s| - |r|])
  {
    assert s[..|s| - |r|] == [s[0]] + s[1..][..|s| - 1 - |r|];
  }

  /** `s.rstrip()`: the prefix of `s` left after its trailing white space. */
  function TrimRight(s: string): (r: string)
    ensures |r| <= |s| && r == s[..|r|]
    ensures AllSpace(s[|r|..])
    ensures r == [] || !IsSpace(r[|r| - 1])
  {
    if s != [] && IsSpace(s[|s| - 1]) then
      var r := TrimRight(s[..|s| - 1]);
      TrimRightStep(s, r);
      r
    else s
  }

  lemma TrimRightStep(s: string, r: string)
    requires s != [] && IsSpace(s[|s| - 1]) && |r| <= |s| - 1
    requires r == s[..|s| - 1][..|r|] && AllSpace(s[..|s| - 1][|r|..])
    ensures r == s[..|r|] && AllSpace(s[|r|..])
  {
    assert s[|r|..] == s[..|s| - 1][|r|..] + [s[|s| - 1]];
  }

  /** `s.strip()`. */
  function Strip(s: string): string
  {
    TrimRight(TrimLeft(s))
  }

  /** What `strip()` leaves is the slice `s[i..j]` whose outside is all white space and
      whose first and last characters are not; this pins the result down uniquely. */
  lemma StripIsCore(s: string) returns (i: nat, j: nat)
    ensures i <= j <= |s| && Strip(s) == s[i..j]
    ensures AllSpace(s[..i]) && AllSpace(s[j..])
    ensures Strip(s) == [] || (!IsSpace(Strip(s)[0]) && !IsSpace(Strip(s)[|Strip(s)| - 1]))
  {
    var l := TrimLeft(s);
    var r := TrimRight(l);
    i, j := CoreOf(s, l, r);
  }

  /** The bounds of `r`, the trailing trim of `l`, which is the leading trim of `s`. */
  lemma CoreOf(s: string, l: string, r: string) returns (i: nat, j: nat)
    requires |l| <= |s| && l == s[|s| - |l|..] && AllSpace(s[..|s| - |l|])
    requires l == [] || !IsSpace(l[0])
    requires |r| <= |l| && r == l[..|r|] && AllSpace(l[|r|..])
    requires r == [] || !IsSpace(r[|r| - 1])
    ensures i <= j <= |s| && r == s[i..j]
    ensures AllSpace(s[..i]) && AllSpace(s[j..])
    ensures r == [] || (!IsSpace(r[0]) && !IsSpace(r[|r| - 1]))
  {
    i := |s| - |l|;
    j := i + |r|;
    SliceOfSuffix(s, i, |r|);
    assert l[|r|..] == s[j..];
    if r != [] {
      assert r[0] == l[0];
    }
  }

  lemma SliceOfSuffix(s: string, i: nat, k: nat)
    requires i + k <= |s|
    ensures s[i..][..k] == s[i..i + k] && s[i..][k..] == s[i + k..]
  {
  }

  /** `strip()` is idempotent. */
  lemma StripIdempotent(s: string)
    ensures Strip(Strip(s)) == Strip(s)
  {
    var i, j := StripIsCore(s);
  }

  /** A string that neither starts nor ends with white space is its own `strip()`. */
  lemma StripUnpadded(s: string)
    requires s == [] || (!IsSpace(s[0]) && !IsSpace(s[|s| - 1]))
    ensures Strip(s) == s
  {
  }

  /** `strip()` only removes characters. */
  lemma StripKeepsAbsent(s: string, c: char)
    requires c !in s
    ensures c !in Strip(s)
  {
    var i, j := StripIsCore(s);
    forall k | 0 <= k < j - i
      ensures Strip(s)[k] != c
    {
      assert Strip(s)[k] == s[i + k];
    }
  }

  /** A string that `strip()` empties is all white space. */
  lemma StripEmpty(s: string)
    requires Strip(s) == []
    ensures AllSpace(s)
  {
    var i, j := StripIsCore(s);
    assert s == s[..i] + s[j..];
  }

  /** `strip()` empties exactly the blank strings. */
  lemma StripBlank(s: string)
    ensures Strip(s) == [] <==> AllSpace(s)
  {
    if Strip(s) == [] {
      StripEmpty(s);
    }
    if AllSpace(s) {
      TrimLeftAllSpace(s);
    }
  }

  /** White space added at either end does not change what `strip()` returns. */
  lemma StripIgnoresPadding(w: string, s: string, w': string)
    requires AllSpace(w) && AllSpace(w')
    ensures Strip(w + s + w') == Strip(s)
  {
    assert w + s + w' == w + (s + w');
    StripPadLeft(w, s + w');
    StripPadRight(s, w');
  }

  lemma StripPadLeft(w: string, s: string)
    requires AllSpace(w)
    ensures Strip(w + s) == Strip(s)
  {
    TrimLeftPadding(w, s);
  }

  /** A newline after the text is stripped away. */
  lemma StripNewlineRight(s: string)
    ensures Strip(s + "\n") == Strip(s)
  {
    assert AllSpace("\n") by {
      assert IsSpace("\n"[0]);
    }
    StripPadRight(s, "\n");
  }

  lemma StripPadRight(s: string, w': string)
    requires AllSpace(w')
    ensures Strip(s + w') == Strip(s)
  {
    var l := TrimLeft(s);
    TrimLeftPaddingRight(s, w');
    if l != [] {
      TrimRightPadding(l, w');
    }
  }

  lemma {:induction false} TrimLeftPadding(w: string, s: string)
    requires AllSpace(w)
    ensures TrimLeft(w + s) == TrimLeft(s)
  {
    if w != [] {
      assert (w + s)[1..] == w[1..] + s;
      TrimLeftPadding(w[1..], s);
    } else {
      assert w + s == s;
    }
  }

  /** Trailing white space survives `lstrip()` unless the whole string was blank. */
  lemma {:induction false} TrimLeftPaddingRight(s: string, w': string)
    requires AllSpace(w')
    ensures TrimLeft(s + w') == if TrimLeft(s) == [] then [] else TrimLeft(s) + w'
  {
    if s == [] {
      assert s + w' == w';
      TrimLeftAllSpace(w');
    } else if IsSpace(s[0]) {
      assert (s + w')[1..] == s[1..] + w';
      TrimLeftPaddingRight(s[1..], w');
    }
  }

  lemma {:induction false} TrimLeftAllSpace(w: string)
    requires AllSpace(w)
    ensures TrimLeft(w) == []
  {
    if w != [] {
      TrimLeftAllSpace(w[1..]);
    }
  }

  lemma {:induction false} TrimRightPadding(s: string, w': string)
    requires AllSpace(w')
    ensures TrimRight(s + w') == TrimRight(s)
  {
    if w' != [] {
      var w0 := w'[..|w'| - 1];
      assert (s + w')[..|s + w'| - 1] == s + w0;
      TrimRightPadding(s, w0);
    } else {
      assert s + w' == s;
    }
  }

  /** Python's `s.split(c)`: the pieces of `s` between occurrences of `c`. */
  function Split(s: string, c: char): (parts: seq<string>)
    ensures |parts| >= 1
    ensures parts[0] <= s
  {
    if s == [] then [[]]
    else
      var rest := Split(s[1..], c);
      if s[0] == c then [[]] + rest
      else [[s[0]] + rest[0]] + rest[1..]
  }

  /** No piece holds the separator. */
  lemma {:induction false} SplitPiecesLackSeparator(s: string, c: char)
    ensures forall k :: 0 <= k < |Split(s, c)| ==> c !in Split(s, c)[k]
  {
    if s != [] {
      SplitPiecesLackSeparator(s[1..], c);
      var rest := Split(s[1..], c);
      if s[0] != c {
        assert c !in [s[0]] + rest[0];
      }
    }
  }

  /** Python's `sep.join(parts)`. */
  function Join(parts: seq<string>, sep: string): string
  {
    if |parts| == 0 then []
    else if |parts| == 1 then parts[0]
    else parts[0] + sep + Join(parts[1..], sep)
  }

  /** Joining the pieces with the separator gives back the string: `split` loses nothing. */
  lemma {:induction false} JoinSplit(s: string, c: char)
    ensures Join(Split(s, c), [c]) == s
  {
    if s != [] {
      var rest := Split(s[1..], c);
      JoinSplit(s[1..], c);
      if s[0] == c {
        assert Split(s, c) == [[]] + rest;
        assert ([[]] + rest)[1..] == rest;
      } else {
        var parts := Split(s, c);
        assert parts == [[s[0]] + rest[0]] + rest[1..];
        if |rest| == 1 {
          assert Join(rest, [c]) == rest[0];
        } else {
          assert parts[1..] == rest[1..];
          assert Join(rest, [c]) == rest[0] + [c] + Join(rest[1..], [c]);
        }
      }
    }
  }

  /** A string without the separator splits into itself alone. */
  lemma {:induction false} SplitAbsent(s: string, c: char)
    requires c !in s
    ensures Split(s, c) == [s]
  {
    if s != [] {
      SplitAbsent(s[1..], c);
      assert s == [s[0]] + s[1..];
    }
  }

  /** Splitting `a + c + b` splits `a` and `b` separately. */
  lemma {:induction false} SplitAround(a: string, c: char, b: string)
    ensures Split(a + [c] + b, c) == Split(a, c) + Split(b, c)
  {
    if a == [] {
      assert a + [c] + b == [c] + b;
      SplitCons(c, b, c);
      assert Split(a, c) == [[]];
    } else {
      var a' := a[1..];
      assert a == [a[0]] + a';
      assert a + [c] + b == [a[0]] + (a' + [c] + b);
      SplitAround(a', c, b);
      SplitAroundStep(a[0], a', c, b);
    }
  }

  /** One step of `SplitAround`: putting `x` in front of `a`. */
  lemma SplitAroundStep(x: char, a: string, c: char, b: string)
    requires Split(a + [c] + b, c) == Split(a, c) + Split(b, c)
    ensures Split([x] + (a + [c] + b), c) == Split([x] + a, c) + Split(b, c)
  {
    var pa, pb := Split(a, c), Split(b, c);
    var whole := a + [c] + b;
    if x == c {
      assert Split([x] + whole, c) == [[]] + (pa + pb) by {
        SplitCons(x, whole, c);
      }
      assert Split([x] + a, c) == [[]] + pa by {
        SplitCons(x, a, c);
      }
      assert [[]] + (pa + pb) == ([[]] + pa) + pb;
    } else {
      assert Split([x] + whole, c) == [[x] + (pa + pb)[0]] + (pa + pb)[1..] by {
        SplitCons(x, whole, c);
      }
      assert Split([x] + a, c) == [[x] + pa[0]] + pa[1..] by {
        SplitCons(x, a, c);
      }
      ExtendFirstPiece(x, pa, pb);
    }
  }

  /** How `split` treats the first character. */
  lemma SplitCons(x: char, s: string, c: char)
    ensures Split([x] + s, c) ==
      if x == c then [[]] + Split(s, c) else [[x] + Split(s, c)[0]] + Split(s, c)[1..]
  {
    assert ([x] + s)[1..] == s;
  }

  lemma ExtendFirstPiece(x: char, pa: seq<string>, pb: seq<string>)
    requires |pa| >= 1
    ensures [[x] + (pa + pb)[0]] + (pa + pb)[1..] == ([[x] + pa[0]] + pa[1..]) + pb
  {
    assert (pa + pb)[0] == pa[0];
    assert (pa + pb)[1..] == pa[1..] + pb;
  }

  /** Splitting a concatenation: the last piece of `a` and the first piece of `b` fuse. */
  lemma {:induction false} SplitConcat(a: string, b: string, c: char)
    ensures Split(a + b, c) == Fuse(Split(a, c), Split(b, c))
  {
    var pb := Split(b, c);
    if a == [] {
      assert a + b == b;
      assert Split(a, c) == [[]];
      assert [] + pb[0] == pb[0];
      assert Fuse([[]], pb) == [pb[0]] + pb[1..] == pb;
    } else {
      var a' := a[1..];
      assert a == [a[0]] + a';
      assert a + b == [a[0]] + (a' + b);
      SplitConcat(a', b, c);
      SplitConcatStep(a[0], a', b, c);
    }
  }

  /** One step of `SplitConcat`: putting `x` in front of `a`. */
  lemma SplitConcatStep(x: char, a: string, b: string, c: char)
    requires Split(a + b, c) == Fuse(Split(a, c), Split(b, c))
    ensures Split([x] + (a + b), c) == Fuse(Split([x] + a, c), Split(b, c))
  {
    var pa, pb := Split(a, c), Split(b, c);
    var f := Fuse(pa, pb);
    if x == c {
      assert Split([x] + (a + b), c) == [[]] + f by {
        SplitCons(x, a + b, c);
      }
      assert Split([x] + a, c) == [[]] + pa by {
        SplitCons(x, a, c);
      }
      FuseConsEmpty(pa, pb);
    } else {
      assert Split([x] + (a + b), c) == [[x] + f[0]] + f[1..] by {
        SplitCons(x, a + b, c);
      }
      assert Split([x] + a, c) == [[x] + pa[0]] + pa[1..] by {
        SplitCons(x, a, c);
      }
      FuseConsChar(x, pa, pb);
    }
  }

  /** Two lists of pieces, the last of the first glued to the first of the second. */
  function Fuse(pa: seq<string>, pb: seq<string>): seq<string>
    requires |pa| >= 1 && |pb| >= 1
  {
    pa[..|pa| - 1] + [pa[|pa| - 1] + pb[0]] + pb[1..]
  }

  lemma FuseConsEmpty(pa: seq<string>, pb: seq<string>)
    requires |pa| >= 1 && |pb| >= 1
    ensures Fuse([[]] + pa, pb) == [[]] + Fuse(pa, pb)
  {
    var q := [[]] + pa;
    assert q[..|q| - 1] == [[]] + pa[..|pa| - 1];
  }

  lemma FuseConsChar(x: char, pa: seq<string>, pb: seq<string>)
    requires |pa| >= 1 && |pb| >= 1
    ensures var r := Fuse(pa, pb);
      Fuse([[x] + pa[0]] + pa[1..], pb) == [[x] + r[0]] + r[1..]
  {
    var q := [[x] + pa[0]] + pa[1..];
    var r := Fuse(pa, pb);
    if |pa| == 1 {
      assert q == [[x] + pa[0]];
      assert r == [pa[0] + pb[0]] + pb[1..];
      assert r[0] == pa[0] + pb[0] && r[1..] == pb[1..];
      assert [x] + r[0] == ([x] + pa[0]) + pb[0];
    } else {
      assert r[0] == pa[0];
      assert r[1..] == pa[1..|pa| - 1] + [pa[|pa| - 1] + pb[0]] + pb[1..];
      assert q[..|q| - 1] == [[x] + pa[0]] + pa[1..|pa| - 1];
    }
  }

  predicate IsDigit(c: char)
  {
    '0' <= c <= '9'
  }

  predicate IsDigits(s: string)
  {
    forall i :: 0 <= i < |s| ==> IsDigit(s[i])
  }

  function DigitValue(c: char): nat
    requires IsDigit(c)
  {
    c as int - '0' as int
  }

  /** Python's `int(s)` for a string of ASCII digits (leading zeros allowed). */
  function Value(s: string): nat
    requires IsDigits(s)
  {
    if s == [] then 0 else 10 * Value(s[..|s| - 1]) + DigitValue(s[|s| - 1])
  }

  function DigitChar(d: nat): char
    requires d < 10
  {
    ('0' as int + d) as char
  }

  /** Python's `str(n)` for `n >= 0`: the canonical decimal numeral of `n`. */
  function Decimal(n: nat): (s: string)
    ensures |s| >= 1 && IsDigits(s)
    ensures Value(s) == n
    ensures n >= 1 ==> s[0] != '0'
  {
    if n < 10 then [DigitChar(n)]
    else
      var init := Decimal(n / 10);
      var s := init + [DigitChar(n % 10)];
      assert s[..|s| - 1] == init;
      s
  }

  /** ASCII `str.lower()`. */
  function Lower(s: string): string
  {
    seq(|s|, i requires 0 <= i < |s| => if 'A' <= s[i] <= 'Z' then (s[i] as int + 32) as char else s[i])
  }

  /** Python's `s.endswith(suffix)`. */
  predicate EndsWith(s: string, suffix: string)
  {
    |suffix| <= |s| && s[|s| - |suffix|..] == suffix
  }

  /** Python's `a <= b` on strings: code-point lexicographic order. */
  predicate LexLe(a: string, b: string)
  {
    a == [] || (b != [] && (a[0] < b[0] || (a[0] == b[0] && LexLe(a[1..], b[1..]))))
  }

  /** Any two strings are comparable. */
  lemma {:induction false} LexLeTotal(a: string, b: string)
    ensures LexLe(a, b) || LexLe(b, a)
  {
    if a != [] && b != [] && a[0] == b[0] {
      LexLeTotal(a[1..], b[1..]);
    }
  }

  lemma {:induction false} LexLeTransitive(a: string, b: string, c: string)
    requires LexLe(a, b) && LexLe(b, c)
    ensures LexLe(a, c)
  {
    if a != [] && a[0] == b[0] && b[0] == c[0] {
      LexLeTransitive(a[1..], b[1..], c[1..]);
    }
  }

  lemma {:induction false} LexLeAntisymmetric(a: string, b: string)
    requires LexLe(a, b) && LexLe(b, a)
    ensures a == b
  {
    if a != [] && b != [] {
      LexLeAntisymmetric(a[1..], b[1..]);
      assert a == [a[0]] + a[1..];
      assert b == [b[0]] + b[1..];
    }
  }
}
