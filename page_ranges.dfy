/** `parse_complex_page_range_string`: a page selection such as `"1, 3-5, 9-7"` is
    a comma-separated list of parts, each a page number or a range `a - b` written
    in either direction. The result is the sorted set of selected pages; parts that
    are blank, malformed, zero or have a zero endpoint are dropped. */
module PageRanges {
  import opened Text
  import opened Seqs

  /** What one stripped part is, as the two regular expressions `\d+` and
      `(\d+)\s*-\s*(\d+)` (both matched against the whole part) see it. */
  datatype PartForm = Empty | Page(n: nat) | PageSpan(first: nat, last: nat) | Malformed

  /** Length of the longest prefix of ASCII digits. */
  function DigitRun(s: string): (n: nat)
    ensures n <= |s| && IsDigits(s[..n])
    ensures n < |s| ==> !IsDigit(s[n])
  {
    if s == [] || !IsDigit(s[0]) then 0
    else
      var m := DigitRun(s[1..]);
      assert s[..1 + m] == [s[0]] + s[1..][..m];
      1 + m
  }

  /** `re.fullmatch(r"\d+", part)` first, then `re.fullmatch(r"(\d+)\s*-\s*(\d+)", part)`.
      The digit groups are maximal runs, and the characters between them are
      white space, one hyphen and more white space, so the match is unique. */
  function ClassifyPart(part: string): PartForm
  {
    if part == [] then Empty
    else
      var n := DigitRun(part);
      if n == |part| then
        assert part[..n] == part;
        Page(Value(part))
      else if n == 0 then Malformed
      else AfterFirstGroup(Value(part[..n]), part[n..])
  }

  /** `\s*-` after the first digit group `x`, then the rest of the range. */
  function AfterFirstGroup(x: nat, rest: string): (form: PartForm)
    ensures form == Malformed || (form.PageSpan? && form.first == x)
  {
    var sep := TrimLeft(rest);
    if sep == [] || sep[0] != '-' then Malformed else AfterHyphen(x, sep[1..])
  }

  /** `\s*(\d+)` up to the end of the part, after the hyphen. */
  function AfterHyphen(x: nat, rest: string): (form: PartForm)
    ensures form == Malformed || (form.PageSpan? && form.first == x)
  {
    var second := TrimLeft(rest);
    if second != [] && DigitRun(second) == |second| then
      assert second[..|second|] == second;
      PageSpan(x, Value(second))
    else Malformed
  }

  /** The pages `lo` to `hi` inclusive. */
  function Interval(lo: int, hi: int): (pages: set<int>)
    ensures forall q :: q in pages <==> lo <= q <= hi
    decreases hi - lo
  {
    if lo > hi then {} else {lo} + Interval(lo + 1, hi)
  }

  /** The pages a classified part adds: a positive page, or every page between
      the two endpoints of a range whose endpoints are both positive. */
  function FormPages(form: PartForm): set<int>
  {
    match form
    case Page(n) => if n > 0 then {n} else {}
    case PageSpan(x, y) => if x > 0 && y > 0 then Interval(Min(x, y), Max(x, y)) else {}
    case _ => {}
  }

  /** The pages one part of the comma-separated list adds. */
  function PartPages(part: string): set<int>
  {
    FormPages(ClassifyPart(Strip(part)))
  }

  /** The union of the pages of every part. */
  function PartsPages(parts: seq<string>): set<int>
  {
    if parts == [] then {}
    else PartsPages(parts[..|parts| - 1]) + PartPages(parts[|parts| - 1])
  }

  /** The set of pages a page selection denotes. */
  function PageSet(s: string): set<int>
  {
    var t := Strip(s);
    if t == [] then {} else PartsPages(Split(t, ','))
  }

  /** `parse_complex_page_range_string`: the selected pages, in increasing order
      and without repetition. */
  method ParseComplexPageRangeString(s: string) returns (pages: seq<int>)
    ensures StrictlyIncreasing(pages)
    ensures forall p :: p in pages <==> p in PageSet(s)
  {
    var t := Strip(s);
    if t == [] {
      return [];
    }
    var allPages: set<int> := {};
    var parts := Split(t, ',');
    for i := 0 to |parts|
      invariant allPages == PartsPages(parts[..i])
    {
      PartsPagesStep(parts, i);
      allPages := AddPartPages(allPages, parts[i]);
    }
    assert parts[..|parts|] == parts;
    pages := SortedElements(allPages);
  }

  /** One pass of the loop over the comma-separated parts: strip the part, skip
      it when blank, and add its page or every page of its range. */
  method AddPartPages(allPages: set<int>, rawPart: string) returns (newPages: set<int>)
    ensures newPages == allPages + PartPages(rawPart)
  {
    newPages := allPages;
    var part := Strip(rawPart);
    if part == [] {
      assert ClassifyPart(part) == Empty;
      return;
    }
    match ClassifyPart(part)
    case Page(page) =>
      if page > 0 {
        newPages := newPages + {page};
      }
    case PageSpan(start, end) =>
      newPages := AddPageSpan(newPages, start, end);
    case _ =>
  }

  /** A range part: when both endpoints are positive, every page from the smaller
      endpoint to the larger one is added. */
  method AddPageSpan(allPages: set<int>, start: nat, end: nat) returns (newPages: set<int>)
    ensures newPages == allPages + FormPages(PageSpan(start, end))
  {
    newPages := allPages;
    if start > 0 && end > 0 {
      var lo, hi := Min(start, end), Max(start, end);
      for pageNum := lo to hi + 1
        invariant forall q :: q in newPages <==> q in allPages || lo <= q < pageNum
      {
        newPages := newPages + {pageNum};
      }
    }
  }

  lemma PartsPagesStep(parts: seq<string>, i: nat)
    requires i < |parts|
    ensures PartsPages(parts[..i + 1]) == PartsPages(parts[..i]) + PartPages(parts[i])
  {
    assert parts[..i + 1][..i] == parts[..i];
  }

  // ---------------------------------------------------------------------------
  // The two regular expressions.

  lemma {:induction false} DigitRunPrefix(a: string, t: string)
    requires IsDigits(a) && (t == [] || !IsDigit(t[0]))
    ensures DigitRun(a + t) == |a|
  {
    if a != [] {
      assert (a + t)[1..] == a[1..] + t;
      DigitRunPrefix(a[1..], t);
    } else {
      assert a + t == t;
    }
  }

  /** Leading white space in front of a string that does not start with white
      space is exactly what `lstrip()` removes. */
  lemma TrimLeftExact(w: string, t: string)
    requires AllSpace(w) && (t == [] || !IsSpace(t[0]))
    ensures TrimLeft(w + t) == t
  {
    TrimLeftPadding(w, t);
  }

  /** A part is classified as a single page exactly when it is a non-empty run
      of digits, and the page is the run's value. */
  lemma ClassifyPage(part: string, n: nat)
    ensures ClassifyPart(part) == Page(n) <==> part != [] && IsDigits(part) && n == Value(part)
  {
    if part != [] && IsDigits(part) {
      assert part + [] == part;
      DigitRunPrefix(part, []);
    }
  }

  /** Every string the range expression matches is classified as that range. */
  lemma ClassifySpanComplete(a: string, w1: string, w2: string, b: string)
    requires a != [] && IsDigits(a) && b != [] && IsDigits(b)
    requires AllSpace(w1) && AllSpace(w2)
    ensures ClassifyPart(a + w1 + "-" + w2 + b) == PageSpan(Value(a), Value(b))
  {
    var afterFirst := w1 + "-" + w2 + b;
    Assoc5(a, w1, "-", w2, b);
    assert afterFirst != [] && !IsDigit(afterFirst[0]) by {
      if w1 != [] {
        assert afterFirst[0] == w1[0] && IsSpace(w1[0]);
      } else {
        assert afterFirst[0] == '-';
      }
    }
    ClassifyAfterDigits(a, afterFirst);
    AfterFirstGroupComplete(Value(a), w1, w2, b);
  }

  /** After a maximal, non-final digit group the classification continues with
      the range's separator. */
  lemma ClassifyAfterDigits(a: string, t: string)
    requires a != [] && IsDigits(a) && t != [] && !IsDigit(t[0])
    ensures ClassifyPart(a + t) == AfterFirstGroup(Value(a), t)
  {
    var part := a + t;
    DigitRunPrefix(a, t);
    assert part[..|a|] == a && part[|a|..] == t;
  }

  lemma AfterFirstGroupComplete(x: nat, w1: string, w2: string, b: string)
    requires b != [] && IsDigits(b)
    requires AllSpace(w1) && AllSpace(w2)
    ensures AfterFirstGroup(x, w1 + "-" + w2 + b) == PageSpan(x, Value(b))
  {
    var sep := "-" + w2 + b;
    Assoc4(w1, "-", w2, b);
    Assoc("-", w2, b);
    TrimLeftExact(w1, sep);
    assert sep[1..] == w2 + b;
    AfterHyphenComplete(x, w2, b);
  }

  lemma AfterHyphenComplete(x: nat, w2: string, b: string)
    requires b != [] && IsDigits(b) && AllSpace(w2)
    ensures AfterHyphen(x, w2 + b) == PageSpan(x, Value(b))
  {
    assert IsDigit(b[0]) && !IsSpace(b[0]);
    TrimLeftExact(w2, b);
    assert b + [] == b;
    DigitRunPrefix(b, []);
  }

  /** Every part classified as a range is matched by the range expression, with
      the groups holding the range's endpoints. */
  lemma ClassifySpanSound(part: string, x: nat, y: nat) returns (a: string, w1: string, w2: string, b: string)
    requires ClassifyPart(part) == PageSpan(x, y)
    ensures a != [] && IsDigits(a) && b != [] && IsDigits(b)
    ensures AllSpace(w1) && AllSpace(w2)
    ensures part == a + w1 + "-" + w2 + b
    ensures x == Value(a) && y == Value(b)
  {
    var n := DigitRun(part);
    a := part[..n];
    var rest := part[n..];
    assert AfterFirstGroup(Value(a), rest) == PageSpan(x, y);
    w1, w2, b := AfterFirstGroupSound(x, rest, y);
    SplitAt(part, n, w1, w2, b);
  }

  lemma SplitAt(s: string, n: nat, w1: string, w2: string, b: string)
    requires n <= |s| && s[n..] == w1 + "-" + w2 + b
    ensures s == s[..n] + w1 + "-" + w2 + b
  {
    var a := s[..n];
    calc {
      s;
      a + s[n..];
      a + (((w1 + "-") + w2) + b);
      (a + ((w1 + "-") + w2)) + b;
      ((a + (w1 + "-")) + w2) + b;
      (((a + w1) + "-") + w2) + b;
    }
  }

  lemma AfterFirstGroupSound(x: nat, rest: string, y: nat) returns (w1: string, w2: string, b: string)
    requires AfterFirstGroup(x, rest) == PageSpan(x, y)
    ensures b != [] && IsDigits(b) && AllSpace(w1) && AllSpace(w2)
    ensures rest == w1 + "-" + w2 + b && y == Value(b)
  {
    var sep := TrimLeft(rest);
    w1 := rest[..|rest| - |sep|];
    Halves(rest, |rest| - |sep|);
    var tail := sep[1..];
    assert AfterHyphen(x, tail) == PageSpan(x, y);
    w2, b := AfterHyphenSound(x, tail, y);
    HyphenBetween(rest, w1, sep, w2, b);
  }

  lemma HyphenBetween(rest: string, w1: string, sep: string, w2: string, b: string)
    requires rest == w1 + sep && sep != [] && sep[0] == '-' && sep[1..] == w2 + b
    ensures rest == w1 + "-" + w2 + b
  {
    assert sep == [sep[0]] + sep[1..];
  }

  lemma AfterHyphenSound(x: nat, rest: string, y: nat) returns (w2: string, b: string)
    requires AfterHyphen(x, rest) == PageSpan(x, y)
    ensures b != [] && IsDigits(b) && AllSpace(w2)
    ensures rest == w2 + b && y == Value(b)
  {
    b := TrimLeft(rest);
    w2 := rest[..|rest| - |b|];
    assert rest == w2 + b;
    assert b[..|b|] == b;
  }

  // ---------------------------------------------------------------------------
  // The page set.

  /** An empty or blank selection selects nothing. */
  lemma BlankSelectsNothing(s: string)
    requires AllSpace(s)
    ensures PageSet(s) == {}
  {
    TrimLeftAllSpace(s);
  }

  /** Every selected page is at least 1. */
  lemma PagesArePositive(s: string)
    ensures forall p :: p in PageSet(s) ==> p >= 1
  {
    var t := Strip(s);
    if t != [] {
      PartsPagesPositive(Split(t, ','));
    }
  }

  lemma {:induction false} PartsPagesPositive(parts: seq<string>)
    ensures forall p :: p in PartsPages(parts) ==> p >= 1
  {
    if parts != [] {
      PartsPagesPositive(parts[..|parts| - 1]);
    }
  }

  /** A selection without commas is a single part. */
  lemma SinglePart(s: string)
    requires ',' !in s
    ensures PageSet(s) == PartPages(s)
  {
    var t := Strip(s);
    if t == [] {
      assert ClassifyPart(t) == Empty;
    } else {
      StripKeepsAbsent(s, ',');
      SplitAbsent(t, ',');
      OnePart(t);
      StripIdempotent(s);
    }
  }

  lemma OnePart(t: string)
    ensures PartsPages([t]) == PartPages(t)
  {
    assert [t][..0] == [];
  }

  /** The pages of a list of parts depend only on each part after stripping. */
  lemma {:induction false} PartsPagesStripwise(ps: seq<string>, qs: seq<string>)
    requires |ps| == |qs|
    requires forall k :: 0 <= k < |ps| ==> Strip(ps[k]) == Strip(qs[k])
    ensures PartsPages(ps) == PartsPages(qs)
  {
    if ps != [] {
      PartsPagesStripwise(ps[..|ps| - 1], qs[..|qs| - 1]);
    }
  }

  lemma {:induction false} PartsPagesAppend(ps: seq<string>, qs: seq<string>)
    ensures PartsPages(ps + qs) == PartsPages(ps) + PartsPages(qs)
    decreases |qs|
  {
    if qs == [] {
      assert ps + qs == ps;
    } else {
      var n := |qs| - 1;
      assert (ps + qs)[..|ps + qs| - 1] == ps + qs[..n];
      assert (ps + qs)[|ps + qs| - 1] == qs[n];
      PartsPagesAppend(ps, qs[..n]);
    }
  }

  /** Stripping the whole selection before splitting it changes nothing: the white
      space it removes would have been stripped from the first and last parts. */
  lemma OuterStripRedundant(s: string)
    ensures PageSet(s) == PartsPages(Split(s, ','))
  {
    var t := Strip(s);
    if t == [] {
      StripEmpty(s);
      NoCommaInSpace(s);
      SplitAbsent(s, ',');
      assert [s][..0] == [];
    } else {
      var i, j := StripIsCore(s);
      var w, w' := s[..i], s[j..];
      Thirds(s, i, j);
      PaddedSplit(w, t, w');
      PartsPagesStripwise(Split(t, ','), Split(w + t + w', ','));
    }
  }

  lemma NoCommaInSpace(w: string)
    requires AllSpace(w)
    ensures ',' !in w
  {
    forall k | 0 <= k < |w|
      ensures w[k] != ','
    {
      assert IsSpace(w[k]);
    }
  }

  /** Splitting a string padded with white space gives the same parts up to the
      padding of the first and the last one. */
  lemma PaddedSplit(w: string, t: string, w': string)
    requires AllSpace(w) && AllSpace(w')
    ensures |Split(w + t + w', ',')| == |Split(t, ',')|
    ensures forall k :: 0 <= k < |Split(t, ',')| ==>
      Strip(Split(t, ',')[k]) == Strip(Split(w + t + w', ',')[k])
  {
    var pa := Split(t, ',');
    NoCommaInSpace(w);
    NoCommaInSpace(w');
    SplitAbsent(w, ',');
    SplitAbsent(w', ',');
    SplitConcat(t, w', ',');
    SplitConcat(w, t + w', ',');
    Assoc(w, t, w');
    PaddedParts(w, pa, w');
  }

  /** Gluing white space to the front of the first part and the back of the last
      part leaves every part's `strip()` as it was. */
  lemma PaddedParts(w: string, pa: seq<string>, w': string)
    requires AllSpace(w) && AllSpace(w') && |pa| >= 1
    ensures var pd := Fuse([w], Fuse(pa, [w']));
      |pd| == |pa| && forall k :: 0 <= k < |pa| ==> Strip(pa[k]) == Strip(pd[k])
  {
    var n := |pa|;
    var pc := Fuse(pa, [w']);
    assert pc == pa[..n - 1] + [pa[n - 1] + w'];
    var pd := Fuse([w], pc);
    assert pd == [w + pc[0]] + pc[1..];
    forall k | 0 <= k < n
      ensures Strip(pa[k]) == Strip(pd[k])
    {
      if k == 0 && n == 1 {
        assert pd[0] == w + (pa[0] + w');
        StripPadLeft(w, pa[0] + w');
        StripPadRight(pa[0], w');
      } else if k == 0 {
        assert pd[0] == w + pa[0];
        StripPadLeft(w, pa[0]);
      } else if k == n - 1 {
        assert pd[k] == pa[k] + w';
        StripPadRight(pa[k], w');
      } else {
        assert pd[k] == pa[k];
      }
    }
  }

  /** The pages of `a,b` are the pages of `a` together with the pages of `b`. */
  lemma CommaIsUnion(a: string, b: string)
    ensures PageSet(a + "," + b) == PageSet(a) + PageSet(b)
  {
    assert a + "," + b == a + [','] + b;
    OuterStripRedundant(a + "," + b);
    SplitAround(a, ',', b);
    PartsPagesAppend(Split(a, ','), Split(b, ','));
    OuterStripRedundant(a);
    OuterStripRedundant(b);
  }

  /** A part that is blank, malformed, the page 0 or a range with an endpoint 0
      contributes nothing. */
  lemma DroppedPartIgnored(a: string, x: string)
    requires ',' !in x
    requires var form := ClassifyPart(Strip(x));
      form.Empty? || form.Malformed? || form == Page(0) ||
      (form.PageSpan? && (form.first == 0 || form.last == 0))
    ensures PageSet(a + "," + x) == PageSet(a)
  {
    CommaIsUnion(a, x);
    SinglePart(x);
  }

  /** A run of digits selects its page, when that page is not 0. */
  lemma NumberSelectsPage(a: string)
    requires a != [] && IsDigits(a)
    ensures PageSet(a) == if Value(a) > 0 then {Value(a)} else {}
  {
    NoCommaInDigits(a);
    SinglePart(a);
    StripOfDigits(a);
    ClassifyPage(a, Value(a));
  }

  /** `a-b` selects every page from the smaller to the larger endpoint, when both
      are positive, and nothing otherwise. */
  lemma RangeSelectsSpan(a: string, b: string)
    requires a != [] && IsDigits(a) && b != [] && IsDigits(b)
    ensures PageSet(a + "-" + b) == FormPages(PageSpan(Value(a), Value(b)))
    ensures forall p :: p in PageSet(a + "-" + b) <==>
      Value(a) > 0 && Value(b) > 0 && Min(Value(a), Value(b)) <= p <= Max(Value(a), Value(b))
  {
    var x := a + "-" + b;
    TightSpanNoComma(a, b);
    TightSpanEnds(a, b);
    UnpaddedPart(x);
    ClassifyTightSpan(a, b);
  }

  lemma TightSpanNoComma(a: string, b: string)
    requires IsDigits(a) && IsDigits(b)
    ensures ',' !in a + "-" + b
  {
    NoCommaInDigits(a);
    NoCommaInDigits(b);
  }

  lemma TightSpanEnds(a: string, b: string)
    requires a != [] && IsDigits(a) && b != [] && IsDigits(b)
    ensures var x := a + "-" + b; !IsSpace(x[0]) && !IsSpace(x[|x| - 1])
  {
    var x := a + "-" + b;
    assert x[0] == a[0] && x[|x| - 1] == b[|b| - 1];
  }

  /** A single part with nothing to strip is classified as it stands. */
  lemma UnpaddedPart(x: string)
    requires ',' !in x && x != [] && !IsSpace(x[0]) && !IsSpace(x[|x| - 1])
    ensures PageSet(x) == FormPages(ClassifyPart(x))
  {
    StripUnpadded(x);
    SinglePart(x);
  }

  /** `a-b` without white space around the hyphen. */
  lemma ClassifyTightSpan(a: string, b: string)
    requires a != [] && IsDigits(a) && b != [] && IsDigits(b)
    ensures ClassifyPart(a + "-" + b) == PageSpan(Value(a), Value(b))
  {
    assert a + "-" + b == a + [] + "-" + [] + b;
    ClassifySpanComplete(a, [], [], b);
  }

  /** A range means the same written in either direction. */
  lemma RangeEitherDirection(a: string, b: string)
    requires a != [] && IsDigits(a) && b != [] && IsDigits(b)
    ensures PageSet(a + "-" + b) == PageSet(b + "-" + a)
  {
    RangeSelectsSpan(a, b);
    RangeSelectsSpan(b, a);
    assert FormPages(PageSpan(Value(a), Value(b))) == FormPages(PageSpan(Value(b), Value(a)));
  }

  lemma NoCommaInDigits(a: string)
    requires IsDigits(a)
    ensures ',' !in a
  {
    forall k | 0 <= k < |a|
      ensures a[k] != ','
    {
      assert IsDigit(a[k]);
    }
  }

  lemma StripOfDigits(a: string)
    requires a != [] && IsDigits(a)
    ensures Strip(a) == a
  {
    assert IsDigit(a[0]) && IsDigit(a[|a| - 1]);
  }
}
