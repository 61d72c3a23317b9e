/** The text taken from a PDF for a prompt. The PDF library is not modelled: `pages[i]`
    stands for what it extracts from page `i` (counted from 0), with "" for a page without
    text. Page numbers in a request count from 1. */
module PdfPages {
  import opened Text
  import opened Seqs

  predicate HasText(t: string)
  {
    t != ""
  }

  /** Page number `p` names a page of a PDF with `n` pages. */
  function InBook(n: nat): int -> bool
  {
    (p: int) => 1 <= p <= n
  }

  /** The texts of the requested pages that exist and have text, in request order. */
  function RequestedTexts(pages: seq<string>, wanted: seq<int>): (parts: seq<string>)
    ensures |parts| <= |wanted|
  {
    if wanted == [] then []
    else
      var n := |wanted| - 1;
      RequestedTexts(pages, wanted[..n]) + PageText(pages, wanted[n])
  }

  /** The text page number `p` contributes: its text if the page exists and has some. */
  function PageText(pages: seq<string>, p: int): (part: seq<string>)
    ensures |part| <= 1
  {
    if 0 <= p - 1 < |pages| && HasText(pages[p - 1]) then [pages[p - 1]] else []
  }

  /** The whole-file text before stripping: each page with text, followed by a newline. */
  function WithNewlines(texts: seq<string>): string
  {
    if texts == [] then "" else texts[0] + "\n" + WithNewlines(texts[1..])
  }

  /** What the extractor returns for a PDF: with no page list, every page with text;
      otherwise the requested pages that exist, joined by newlines; stripped either way. */
  function ExtractPdfText(pages: seq<string>, wanted: seq<int>): string
  {
    if wanted == [] then Strip(WithNewlines(Filter(pages, HasText)))
    else Strip(Join(RequestedTexts(pages, wanted), "\n"))
  }

  /** The page loop of the extractor. */
  method ExtractPdfPages(pages: seq<string>, wanted: seq<int>) returns (text: string)
    ensures text == ExtractPdfText(pages, wanted)
  {
    if wanted == [] {
      text := Strip(WithNewlines(Filter(pages, HasText)));
      return;
    }
    var numPagesTotal := |pages|;
    var extractedTextParts := [];
    for i := 0 to |wanted|
      invariant extractedTextParts == RequestedTexts(pages, wanted[..i])
    {
      var pageIdx := wanted[i] - 1;
      if 0 <= pageIdx < numPagesTotal {
        var pageText := pages[pageIdx];
        if pageText != "" {
          extractedTextParts := extractedTextParts + [pageText];
        }
      }
      RequestedPrefixStep(pages, wanted, i);
    }
    assert wanted[..|wanted|] == wanted;
    text := Strip(Join(extractedTextParts, "\n"));
  }

  lemma RequestedPrefixStep(pages: seq<string>, wanted: seq<int>, i: nat)
    requires i < |wanted|
    ensures RequestedTexts(pages, wanted[..i + 1]) == RequestedTexts(pages, wanted[..i]) + PageText(pages, wanted[i])
  {
    assert wanted[..i + 1][..i] == wanted[..i];
  }

  /** Requests are handled page by page, so they distribute over concatenation. */
  lemma {:induction false} RequestedTextsAppend(pages: seq<string>, a: seq<int>, b: seq<int>)
    ensures RequestedTexts(pages, a + b) == RequestedTexts(pages, a) + RequestedTexts(pages, b)
    decreases |b|
  {
    if b == [] {
      assert a + b == a;
    } else {
      var m := |b| - 1;
      assert (a + b)[..|a + b| - 1] == a + b[..m];
      RequestedTextsAppend(pages, a, b[..m]);
    }
  }

  /** Every text taken is the text of a requested page that exists. */
  lemma {:induction false} RequestedTextsFromPages(pages: seq<string>, wanted: seq<int>)
    ensures forall t :: t in RequestedTexts(pages, wanted) ==>
      HasText(t) && exists k :: 0 <= k < |wanted| && InBook(|pages|)(wanted[k]) && pages[wanted[k] - 1] == t
  {
    if wanted != [] {
      var n := |wanted| - 1;
      RequestedTextsFromPages(pages, wanted[..n]);
      forall t | t in RequestedTexts(pages, wanted)
        ensures HasText(t) && exists k :: 0 <= k < |wanted| && InBook(|pages|)(wanted[k]) && pages[wanted[k] - 1] == t
      {
        if t in RequestedTexts(pages, wanted[..n]) {
          var k :| 0 <= k < n && InBook(|pages|)(wanted[..n][k]) && pages[wanted[..n][k] - 1] == t;
          assert wanted[..n][k] == wanted[k];
        } else {
          assert t in PageText(pages, wanted[n]);
        }
      }
    }
  }

  /** Page numbers outside the file are skipped: dropping them from the request takes
      the same texts. */
  lemma {:induction false} OutOfRangeIgnored(pages: seq<string>, wanted: seq<int>)
    ensures RequestedTexts(pages, Filter(wanted, InBook(|pages|))) == RequestedTexts(pages, wanted)
  {
    if wanted != [] {
      var n := |wanted| - 1;
      var init, last := wanted[..n], wanted[n];
      OutOfRangeIgnored(pages, init);
      InitLast(wanted);
      FilterAppend(init, [last], InBook(|pages|));
      FilterSingleton(last, InBook(|pages|));
      RequestedTextsAppend(pages, Filter(init, InBook(|pages|)), Filter([last], InBook(|pages|)));
      SinglePageRequest(pages, last);
    }
  }

  lemma SinglePageRequest(pages: seq<string>, p: int)
    ensures RequestedTexts(pages, [p]) == PageText(pages, p)
  {
    assert [p][..0] == [];
  }

  /** A request naming only pages the file lacks gives the empty text, not the whole file. */
  lemma NoValidPageGivesNothing(pages: seq<string>, wanted: seq<int>)
    requires wanted != []
    requires forall k :: 0 <= k < |wanted| ==> !InBook(|pages|)(wanted[k])
    ensures ExtractPdfText(pages, wanted) == ""
  {
    OutOfRangeIgnored(pages, wanted);
    assert Filter(wanted, InBook(|pages|)) == [] by {
      FilterSelects(wanted, InBook(|pages|));
    }
    StripEmpty("");
  }

  /** Asking for pages 1 to `m` takes the texts of the first `m` pages. */
  lemma {:induction false} FirstPagesTexts(pages: seq<string>, m: nat)
    requires m <= |pages|
    ensures RequestedTexts(pages, Range(1, m + 1)) == Filter(pages[..m], HasText)
  {
    if m > 0 {
      FirstPagesTexts(pages, m - 1);
      RangeSnoc(1, m);
      RequestedTextsAppend(pages, Range(1, m), [m]);
      SinglePageRequest(pages, m);
      FilterPrefixStep(pages, m, HasText);
    }
  }

  /** The whole-file text is the joined texts with one more newline. */
  lemma {:induction false} WithNewlinesJoin(texts: seq<string>)
    requires texts != []
    ensures WithNewlines(texts) == Join(texts, "\n") + "\n"
  {
    if |texts| == 1 {
      assert WithNewlines(texts[1..]) == "";
    } else {
      WithNewlinesJoin(texts[1..]);
      Assoc4(texts[0], "\n", Join(texts[1..], "\n"), "\n");
    }
  }

  /** Stripping ignores the newline after the last page. */
  lemma StripWithNewlines(texts: seq<string>)
    ensures Strip(WithNewlines(texts)) == Strip(Join(texts, "\n"))
  {
    if texts != [] {
      WithNewlinesJoin(texts);
      StripNewlineRight(Join(texts, "\n"));
    }
  }

  /** Giving no page list takes the same text as listing every page of the file. */
  lemma NoListMeansEveryPage(pages: seq<string>)
    ensures ExtractPdfText(pages, []) == ExtractPdfText(pages, Range(1, |pages| + 1))
  {
    if pages != [] {
      FirstPagesTexts(pages, |pages|);
      assert pages[..|pages|] == pages;
      StripWithNewlines(Filter(pages, HasText));
    }
  }
}
