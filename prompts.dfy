/** The text typed into the assistant's page: a label naming the chapters a request is
    about, built from the file's chapter blocks, put in place of `{CHAPTERS}` in the
    prompt template; and the full-book run, which sends one such prompt per group of
    three chapters. */
module Prompts {
  import opened Text
  import opened Seqs
  import opened Substitution
  import opened FileModel
  import Chunks

  const CHAPTERS_PLACEHOLDER: string := "{CHAPTERS}"
  const NAME_SEPARATOR: string := ", "

  // ---------------------------------------------------------------------------------
  // Placeholder substitution

  /** The template with every `{CHAPTERS}` replaced by the label: the pieces of the
      template between placeholders, joined by the label. */
  function PrepareInstructionalPrompt(template: string, chaptersText: string): (prompt: string)
    ensures prompt == Join(SplitOn(template, CHAPTERS_PLACEHOLDER), chaptersText)
  {
    if Contains(template, CHAPTERS_PLACEHOLDER) then
      ReplaceJoinsPieces(template, CHAPTERS_PLACEHOLDER, chaptersText);
      Replace(template, CHAPTERS_PLACEHOLDER, chaptersText)
    else
      SplitOnAbsent(template, CHAPTERS_PLACEHOLDER);
      template
  }

  /** `{CHAPTERS}` cannot overlap itself: only its first character is `{`. */
  lemma PlaceholderBorderless()
    ensures Borderless(CHAPTERS_PLACEHOLDER)
  {
    var p := CHAPTERS_PLACEHOLDER;
    forall k | 0 < k < |p|
      ensures p[..k] != p[|p| - k..]
    {
      assert p[..k][0] == '{';
      assert p[|p| - k..][0] == p[|p| - k];
    }
  }

  /** A template written as text pieces around placeholders becomes those same pieces
      around the label: the text between placeholders is kept and each one is filled. */
  lemma FillsEveryPlaceholder(pieces: seq<string>, chaptersText: string)
    requires |pieces| >= 1
    requires forall k :: 0 <= k < |pieces| ==> !Contains(pieces[k], CHAPTERS_PLACEHOLDER)
    ensures PrepareInstructionalPrompt(Join(pieces, CHAPTERS_PLACEHOLDER), chaptersText) == Join(pieces, chaptersText)
  {
    PlaceholderBorderless();
    SplitOnJoin(pieces, CHAPTERS_PLACEHOLDER);
  }

  // ---------------------------------------------------------------------------------
  // Chapter label

  /** What a prompt is about: one chapter, a group of chapter indices of a full-book
      run, or the whole file. */
  datatype LabelRequest = SingleChapter(block: ChapterBlock) | FullBookChunk(indices: seq<nat>) | EntireFile

  /** The name of chapter `idx` (counted from 0) in a full-book group: the block's text
      when that block exists and its text is not all white space, else the chapter's
      number. */
  function ChapterName(blocks: seq<ChapterBlock>, idx: nat): string
  {
    if idx < |blocks| && !AllSpace(blocks[idx].text) then blocks[idx].text else Decimal(idx + 1)
  }

  /** A chapter without a usable name is called by its number counted from 1, written
      as `str` writes it: digits only, no leading zero. */
  lemma ChapterNameFallback(blocks: seq<ChapterBlock>, idx: nat)
    requires !(idx < |blocks| && !AllSpace(blocks[idx].text))
    ensures IsDigits(ChapterName(blocks, idx)) && Value(ChapterName(blocks, idx)) == idx + 1
    ensures ChapterName(blocks, idx)[0] != '0'
  {
  }

  function ChapterNames(blocks: seq<ChapterBlock>, indices: seq<nat>): (names: seq<string>)
    ensures |names| == |indices|
  {
    if indices == [] then []
    else ChapterNames(blocks, indices[..|indices| - 1]) + [ChapterName(blocks, indices[|indices| - 1])]
  }

  /** The `k`-th name is the name of the `k`-th index. */
  lemma {:induction false} ChapterNamesAt(blocks: seq<ChapterBlock>, indices: seq<nat>, k: nat)
    requires k < |indices|
    ensures ChapterNames(blocks, indices)[k] == ChapterName(blocks, indices[k])
  {
    var n := |indices| - 1;
    if k < n {
      ChapterNamesAt(blocks, indices[..n], k);
    }
  }

  /** The label for a request. */
  function ChapterLabel(blocks: seq<ChapterBlock>, request: LabelRequest): string
  {
    match request
    case SingleChapter(block) =>
      if Strip(block.text) != [] then Strip(block.text) else "Unspecified Chapter"
    case FullBookChunk(indices) =>
      if indices == [] then "Specified Chapters" else Join(ChapterNames(blocks, indices), NAME_SEPARATOR)
    case EntireFile => "Entire File"
  }

  /** `_get_chapters_text_for_template`: the loop collects one name per index. */
  method ChaptersTextForTemplate(item: FileItem, request: LabelRequest) returns (chaptersText: string)
    ensures chaptersText == ChapterLabel(item.chapterBlocks, request)
  {
    match request {
      case SingleChapter(block) =>
        chaptersText := if Strip(block.text) != [] then Strip(block.text) else "Unspecified Chapter";
      case FullBookChunk(indices) =>
        var names := FullBookChapterNames(item.chapterBlocks, indices);
        chaptersText := if names != [] then Join(names, NAME_SEPARATOR) else "Specified Chapters";
      case EntireFile =>
        chaptersText := "Entire File";
    }
  }

  /** The loop of the full-book branch: one name per index, in order. */
  method FullBookChapterNames(blocks: seq<ChapterBlock>, indices: seq<nat>) returns (names: seq<string>)
    ensures names == ChapterNames(blocks, indices)
  {
    names := [];
    for i := 0 to |indices|
      invariant names == ChapterNames(blocks, indices[..i])
    {
      var name := NameOfChapter(blocks, indices[i]);
      names := names + [name];
      assert indices[..i + 1][..i] == indices[..i];
    }
    assert indices[..|indices|] == indices;
  }

  /** One step of that loop: the block's text if it is not blank, else the number. */
  method NameOfChapter(blocks: seq<ChapterBlock>, idx: nat) returns (name: string)
    ensures name == ChapterName(blocks, idx)
  {
    if idx < |blocks| {
      StripBlank(blocks[idx].text);
    }
    if idx < |blocks| && Strip(blocks[idx].text) != [] {
      name := blocks[idx].text;
    } else {
      name := Decimal(idx + 1);
    }
  }

  /** A single chapter is labelled by its text without surrounding white space; the
      label is never blank, as the fallback name is not. */
  lemma SingleChapterLabel(blocks: seq<ChapterBlock>, block: ChapterBlock)
    ensures !AllSpace(ChapterLabel(blocks, SingleChapter(block)))
    ensures Strip(block.text) != [] ==>
      ChapterLabel(blocks, SingleChapter(block)) == Strip(block.text) &&
      Strip(ChapterLabel(blocks, SingleChapter(block))) == Strip(block.text)
  {
    if Strip(block.text) != [] {
      StripIdempotent(block.text);
      StripNotBlank(block.text);
    } else {
      var u := "Unspecified Chapter";
      assert u[0] == 'U';
      assert !IsSpace(u[0]);
    }
  }

  lemma StripNotBlank(s: string)
    requires Strip(s) != []
    ensures !AllSpace(Strip(s))
  {
    var i, j := StripIsCore(s);
    assert !IsSpace(Strip(s)[0]);
  }

  /** `", "` cannot overlap itself. */
  lemma SeparatorBorderless()
    ensures Borderless(NAME_SEPARATOR)
  {
    var p := NAME_SEPARATOR;
    assert p[..1] == [','] && p[1..] == [' '];
  }

  /** A numeral contains no `", "`. */
  lemma DigitsHaveNoSeparator(s: string)
    requires IsDigits(s)
    ensures !Contains(s, NAME_SEPARATOR)
  {
    forall i | 0 <= i <= |s| - 2
      ensures !OccursAt(s, NAME_SEPARATOR, i)
    {
      assert IsDigit(s[i]);
      assert s[i..i + 2][0] == s[i];
    }
  }

  /** When no chapter text contains `", "`, splitting a full-book label at `", "` gives
      back one name per index, in index order. */
  lemma FullBookLabelListsNames(blocks: seq<ChapterBlock>, indices: seq<nat>)
    requires indices != []
    requires forall k :: 0 <= k < |blocks| ==> !Contains(blocks[k].text, NAME_SEPARATOR)
    ensures SplitOn(ChapterLabel(blocks, FullBookChunk(indices)), NAME_SEPARATOR) == ChapterNames(blocks, indices)
  {
    var names := ChapterNames(blocks, indices);
    forall k | 0 <= k < |names|
      ensures !Contains(names[k], NAME_SEPARATOR)
    {
      var idx := indices[k];
      ChapterNamesAt(blocks, indices, k);
      if !(idx < |blocks| && !AllSpace(blocks[idx].text)) {
        ChapterNameFallback(blocks, idx);
        DigitsHaveNoSeparator(names[k]);
      }
    }
    SeparatorBorderless();
    SplitOnJoin(names, NAME_SEPARATOR);
  }

  // ---------------------------------------------------------------------------------
  // Full-book run

  /** The files a batch full-book run goes through: the displayed files with a positive
      chapter total, in list order. */
  function FullBookFiles(items: seq<FileItem>, sel: string): (files: seq<FileItem>)
    ensures IsSubseq(files, DisplayedItems(items, sel))
    ensures forall it :: it in files <==> it in items && InView(it, sel) && it.totalChaptersForFullBook > 0
    ensures forall it ::
      multiset(files)[it] == if InView(it, sel) && it.totalChaptersForFullBook > 0 then multiset(items)[it] else 0
  {
    FilterSelects(DisplayedItems(items, sel), HasChapterTotal);
    Filter(DisplayedItems(items, sel), HasChapterTotal)
  }

  predicate HasChapterTotal(item: FileItem)
  {
    item.totalChaptersForFullBook > 0
  }

  /** The prompts of a full-book run over `item`, one per group of three chapters. No
      prompt is sent without a template or without a positive chapter total. */
  method FullBookPrompts(item: FileItem, template: string) returns (prompts: seq<string>)
    ensures template == [] || item.totalChaptersForFullBook <= 0 ==> prompts == []
    ensures template != [] && item.totalChaptersForFullBook > 0 ==>
      var total := item.totalChaptersForFullBook;
      |prompts| == (total + Chunks.CHUNK_SIZE - 1) / Chunks.CHUNK_SIZE &&
      forall k :: 0 <= k < |prompts| ==>
        prompts[k] == PrepareInstructionalPrompt(template,
          ChapterLabel(item.chapterBlocks, FullBookChunk(GroupIndices(k, total))))
  {
    prompts := [];
    var total := item.totalChaptersForFullBook;
    if template == [] || total <= 0 {
      return;
    }
    var chunks := Chunks.FullBookChunks(total);
    for i := 0 to |chunks|
      invariant |prompts| == i
      invariant forall k :: 0 <= k < i ==>
        prompts[k] == PrepareInstructionalPrompt(template,
          ChapterLabel(item.chapterBlocks, FullBookChunk(GroupIndices(k, total))))
    {
      var indices: seq<nat> := GroupIndices(i, total);
      assert chunks[i] == indices;
      var chaptersText := ChaptersTextForTemplate(item, FullBookChunk(indices));
      prompts := prompts + [PrepareInstructionalPrompt(template, chaptersText)];
    }
  }

  /** The chapter indices of group `k` of a run over `total` chapters. */
  function GroupIndices(k: nat, total: int): (indices: seq<nat>)
    ensures forall j :: 0 <= j < |indices| ==> indices[j] == k * Chunks.CHUNK_SIZE + j
  {
    Range(k * Chunks.CHUNK_SIZE, Min((k + 1) * Chunks.CHUNK_SIZE, total))
  }

  /** When no block's text names a chapter (there are no blocks, or every block's text is
      white space), a full group `k` is labelled by the numbers of its chapters, counted
      from 1. */
  lemma UnnamedGroupLabel(blocks: seq<ChapterBlock>, k: nat, total: int)
    requires forall j :: 0 <= j < |blocks| ==> AllSpace(blocks[j].text)
    requires 3 * k + 3 <= total
    ensures ChapterLabel(blocks, FullBookChunk(GroupIndices(k, total))) ==
      Decimal(3 * k + 1) + ", " + Decimal(3 * k + 2) + ", " + Decimal(3 * k + 3)
  {
    var indices := GroupIndices(k, total);
    var names := ChapterNames(blocks, indices);
    var a, b, c := Decimal(3 * k + 1), Decimal(3 * k + 2), Decimal(3 * k + 3);
    assert |indices| == 3;
    ChapterNamesAt(blocks, indices, 0);
    ChapterNamesAt(blocks, indices, 1);
    ChapterNamesAt(blocks, indices, 2);
    assert names == [a, b, c];
    JoinThree(a, b, c, NAME_SEPARATOR);
  }

  lemma JoinThree(a: string, b: string, c: string, sep: string)
    ensures Join([a, b, c], sep) == a + sep + b + sep + c
  {
    assert [a, b, c][1..] == [b, c];
    assert [b, c][1..] == [c];
    assert Join([b, c], sep) == b + sep + c;
    Assoc4(a + sep, b, sep, c);
    Assoc(b, sep, c);
  }
}
